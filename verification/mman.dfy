/**
 * The reference-counting memory manager of mman.c: every managed block
 * carries a reference count and an optional cleanup function; `mman_ref`
 * adds a reference, `mman_dealloc` drops one and, at zero, runs the cleanup
 * and frees the block.
 *
 * The heap is a map from the data pointer of each live block to its
 * metadata. Pointers are numbers; a new block gets the store's next unused
 * number. Cleanup functions are named by an identifier, and what the code
 * does to the outside world (calling a cleanup function, freeing memory,
 * printing) is recorded in order in the store's log. The atomic
 * read-modify-write loops are taken to be single steps.
 */
module Mman {
  import opened Strings

  /** SIZE_MAX: the counter is a `size_t`. */
  const SizeMax: nat := 0xFFFF_FFFF_FFFF_FFFF

  const InvalidMsg: string := "Invalid resource passed to \"cmm_dealloc\"!\n"
  const FreedMsg: string := "Freed a mman resource!\n"

  type Ptr = nat

  /** Identifies a cleanup function (`mman_cleanup_f_t`). */
  type Cleanup = nat

  /** `mman_meta_t` with its trailing data block. The contents of a block
      from `mman_alloc` are left unspecified (`None`); `mman_from` fills the
      block with a copy. */
  datatype Block = Block(size: nat, contents: Option<seq<bv8>>, cf: Option<Cleanup>, refs: nat)

  /** What the code does outside the store, in order. */
  datatype Event = CleanedUp(cf: Cleanup, at: Ptr) | Released(at: Ptr) | Stderr(msg: string) | Stdout(msg: string)

  datatype Store = Store(blocks: map<Ptr, Block>, next: Ptr, log: seq<Event>)

  /** A new block and its data pointer. */
  datatype Made = Made(store: Store, ptr: Ptr)

  /** The store after `mman_dealloc(&v)`, and what `v` holds afterwards. */
  datatype Dropped = Dropped(store: Store, slot: Option<Ptr>)

  /** The store after `mman_ref(p)`, and its result (`None` for NULL). */
  datatype Referenced = Referenced(store: Store, ptr: Option<Ptr>)

  /** Every live block lies below the next fresh pointer and holds at least
      one reference. */
  predicate Valid(st: Store) {
    forall p :: p in st.blocks ==> p < st.next && 1 <= st.blocks[p].refs <= SizeMax
  }

  /** `atomic_increment` on a `size_t`. */
  function Increment(n: nat): (r: nat)
    requires n <= SizeMax
    ensures r <= SizeMax && r % (SizeMax + 1) == (n + 1) % (SizeMax + 1)
  {
    if n == SizeMax then 0 else n + 1
  }

  /** `atomic_decrement` on a `size_t`: the value it returns. */
  function Decrement(n: nat): (r: nat)
    requires n <= SizeMax
    ensures r <= SizeMax && (r + 1) % (SizeMax + 1) == n % (SizeMax + 1)
  {
    if n == 0 then SizeMax else n - 1
  }

  /** The cleanup call, if the block has a cleanup function. */
  function CleanupCall(cf: Option<Cleanup>, at: Ptr): (r: seq<Event>)
    ensures |r| <= 1 && (r == [] <==> cf.None?)
  {
    if cf.Some? then [CleanedUp(cf.value, at)] else []
  }

  /** `mman_create(size, cf)`: a fresh block holding one reference. Running
      out of memory is not modelled. */
  function Create(st: Store, size: nat, contents: Option<seq<bv8>>, cf: Option<Cleanup>): (r: Made)
    ensures r.ptr == st.next && r.store.next > r.ptr && r.store.log == st.log
  {
    Made(Store(st.blocks[st.next := Block(size, contents, cf, 1)], st.next + 1, st.log), st.next)
  }

  /** `mman_alloc(size, cf)` */
  function Alloc(st: Store, size: nat, cf: Option<Cleanup>): (r: Made)
    ensures r.store.log == st.log
  {
    Create(st, size, None, cf)
  }

  /** `mman_from(size, ptr, cf)`: a managed copy of the plain heap object
      at `orig`, whose bytes are `bytes`; the original gets the cleanup and
      is freed. `orig` must not be a managed block, since `free` is called
      on it directly. */
  function From(st: Store, orig: Ptr, bytes: seq<bv8>, cf: Option<Cleanup>): (r: Made)
    requires orig !in st.blocks
    ensures r.store.log == st.log + CleanupCall(cf, orig) + [Released(orig)]
  {
    var m := Create(st, |bytes|, Some(bytes), cf);
    m.(store := m.store.(log := st.log + CleanupCall(cf, orig) + [Released(orig)]))
  }

  /** The effect of `mman_dealloc` on the store: nothing for NULL, a
      diagnostic for a pointer that is not a live block, otherwise one
      reference fewer and, at zero, the cleanup, the `free` and the debug
      line. */
  function Release(st: Store, slot: Option<Ptr>): (r: Store)
    requires Valid(st)
    ensures r.next == st.next && st.log <= r.log
    ensures slot.None? ==> r == st
    ensures r.blocks.Keys <= st.blocks.Keys
    ensures forall q :: q in st.blocks && Some(q) != slot ==> q in r.blocks && r.blocks[q] == st.blocks[q]
  {
    match slot
    case None => st
    case Some(p) =>
      if p !in st.blocks then st.(log := st.log + [Stderr(InvalidMsg)])
      else
        var b := st.blocks[p];
        var n := Decrement(b.refs);
        if n > 0 then st.(blocks := st.blocks[p := b.(refs := n)])
        else Store(st.blocks - {p}, st.next, st.log + CleanupCall(b.cf, p) + [Released(p), Stdout(FreedMsg)])
  }

  /** `mman_dealloc(&v)` as written: `ptr = NULL` clears a local copy, so
      `v` keeps its value. */
  function DeallocAsWritten(st: Store, slot: Option<Ptr>): (r: Dropped)
    requires Valid(st)
    ensures r.slot == slot
  {
    Dropped(Release(st, slot), slot)
  }

  /** `mman_dealloc(&v)` as intended: once the call has freed the block,
      `v` is NULL, so calling it again does nothing. While other references
      remain the call returns early and `v` keeps its value. */
  function Dealloc(st: Store, slot: Option<Ptr>): (r: Dropped)
    requires Valid(st)
    ensures r.slot.None? || r.slot == slot
    ensures slot.Some? && slot.value in st.blocks ==> (r.slot.None? <==> slot.value !in r.store.blocks)
    ensures slot.Some? && slot.value !in st.blocks ==> r.slot == slot
  {
    var freed := slot.Some? && slot.value in st.blocks && st.blocks[slot.value].refs == 1;
    Dropped(Release(st, slot), if freed then None else slot)
  }

  /** `mman_ref(p)`: a diagnostic and NULL for a pointer that is not a live
      block, otherwise one reference more and the same pointer. */
  function Ref(st: Store, p: Ptr): (r: Referenced)
    requires Valid(st)
    ensures r.ptr.Some? <==> p in st.blocks
    ensures r.ptr.Some? ==> r.ptr.value == p
  {
    if p !in st.blocks then Referenced(st.(log := st.log + [Stderr(InvalidMsg)]), None)
    else
      var b := st.blocks[p];
      Referenced(st.(blocks := st.blocks[p := b.(refs := Increment(b.refs))]), Some(p))
  }

  // ---------------------------------------------------------------------
  // Properties
  // ---------------------------------------------------------------------

  /** A new block is fresh, holds one reference and the given cleanup, and
      every block that was live stays as it was. */
  lemma CreateSpec(st: Store, size: nat, contents: Option<seq<bv8>>, cf: Option<Cleanup>)
    requires Valid(st)
    ensures var r := Create(st, size, contents, cf);
            && r.ptr !in st.blocks && Valid(r.store)
            && r.store.blocks.Keys == st.blocks.Keys + {r.ptr}
            && r.store.blocks[r.ptr] == Block(size, contents, cf, 1)
            && (forall q :: q in st.blocks ==> r.store.blocks[q] == st.blocks[q])
  {
  }

  /** `mman_from` keeps the byte copy in the new block, and the original's
      cleanup comes before its `free`. */
  lemma FromSpec(st: Store, orig: Ptr, bytes: seq<bv8>, cf: Option<Cleanup>)
    requires Valid(st) && orig !in st.blocks
    ensures var r := From(st, orig, bytes, cf);
            && r.ptr !in st.blocks && Valid(r.store)
            && r.store.blocks[r.ptr] == Block(|bytes|, Some(bytes), cf, 1)
            && (forall q :: q in st.blocks ==> q in r.store.blocks && r.store.blocks[q] == st.blocks[q])
            && (cf.Some? ==> r.store.log[|st.log|] == CleanedUp(cf.value, orig))
            && r.store.log[|r.store.log| - 1] == Released(orig)
  {
    CreateSpec(st, |bytes|, Some(bytes), cf);
  }

  /** Every operation keeps the store valid (`mman_ref` as long as the
      counter does not wrap). */
  lemma ReleaseValid(st: Store, slot: Option<Ptr>)
    requires Valid(st)
    ensures Valid(Release(st, slot))
  {
  }

  lemma RefValid(st: Store, p: Ptr)
    requires Valid(st)
    requires p in st.blocks ==> st.blocks[p].refs < SizeMax
    ensures Valid(Ref(st, p).store)
  {
  }

  /** Releasing NULL does nothing. */
  lemma DeallocNull(st: Store)
    requires Valid(st)
    ensures Dealloc(st, None) == Dropped(st, None)
    ensures DeallocAsWritten(st, None) == Dropped(st, None)
  {
  }

  /** A pointer that is not a live block changes no block; both operations
      print the diagnostic and `mman_ref` answers NULL. */
  lemma InvalidPointer(st: Store, p: Ptr)
    requires Valid(st) && p !in st.blocks
    ensures Release(st, Some(p)) == st.(log := st.log + [Stderr(InvalidMsg)])
    ensures Ref(st, p) == Referenced(st.(log := st.log + [Stderr(InvalidMsg)]), None)
  {
  }

  /** With other references left, releasing one only lowers the count; the
      last one removes the block after its cleanup. */
  lemma ReleaseCases(st: Store, p: Ptr)
    requires Valid(st) && p in st.blocks
    ensures var r := Release(st, Some(p));
            var b := st.blocks[p];
            && (b.refs > 1 ==> r == st.(blocks := st.blocks[p := b.(refs := b.refs - 1)]))
            && (b.refs == 1 ==> && r.blocks == st.blocks - {p}
                                && r.log == st.log + CleanupCall(b.cf, p) + [Released(p), Stdout(FreedMsg)])
  {
  }

  /** Taking a reference and giving it back leaves the store as it was. */
  lemma RefThenRelease(st: Store, p: Ptr)
    requires Valid(st) && p in st.blocks && st.blocks[p].refs < SizeMax
    ensures Ref(st, p).ptr == Some(p)
    ensures Release(Ref(st, p).store, Some(p)) == st
  {
    var b := st.blocks[p];
    var s1 := Ref(st, p).store;
    assert s1.blocks[p] == b.(refs := b.refs + 1);
    assert s1.blocks[p := b] == st.blocks;
  }

  /** Allocating and releasing a block gives back the blocks there were,
      with the cleanup and the `free` logged. */
  lemma AllocThenRelease(st: Store, size: nat, cf: Option<Cleanup>)
    requires Valid(st)
    ensures var m := Alloc(st, size, cf);
            var r := Release(m.store, Some(m.ptr));
            && r.blocks == st.blocks
            && r.log == st.log + CleanupCall(cf, m.ptr) + [Released(m.ptr), Stdout(FreedMsg)]
  {
    var m := Alloc(st, size, cf);
    CreateSpec(st, size, None, cf);
    assert m.store.blocks - {m.ptr} == st.blocks;
  }

  /** `k` variables holding `p`, released one after another. */
  function ReleaseEach(st: Store, p: Ptr, k: nat): (r: Store)
    requires Valid(st)
    ensures Valid(r)
    decreases k
  {
    ReleaseValid(st, Some(p));
    if k == 0 then st else ReleaseEach(Release(st, Some(p)), p, k - 1)
  }

  /** A block with `n` references survives `n - 1` releases untouched but
      for its count, and the `n`-th runs its cleanup exactly once and frees
      it; no other block changes. */
  lemma {:induction false} CleanupOnce(st: Store, p: Ptr, k: nat)
    requires Valid(st) && p in st.blocks && 0 < k <= st.blocks[p].refs
    ensures var b := st.blocks[p];
            var r := ReleaseEach(st, p, k);
            && r.blocks - {p} == st.blocks - {p}
            && (k < b.refs ==> p in r.blocks && r.blocks[p] == b.(refs := b.refs - k) && r.log == st.log)
            && (k == b.refs ==> p !in r.blocks
                                && r.log == st.log + CleanupCall(b.cf, p) + [Released(p), Stdout(FreedMsg)])
    decreases k
  {
    var b := st.blocks[p];
    var s1 := Release(st, Some(p));
    ReleaseCases(st, p);
    if k > 1 {
      assert s1.blocks[p] == b.(refs := b.refs - 1);
      CleanupOnce(s1, p, k - 1);
      assert s1.blocks - {p} == st.blocks - {p};
      assert s1.blocks[p].(refs := s1.blocks[p].refs - (k - 1)) == b.(refs := b.refs - k);
    }
  }

  // ---------------------------------------------------------------------
  // The caller's variable after `mman_dealloc`
  // ---------------------------------------------------------------------

  /** As written, the variable still holds the pointer after the call that
      freed the block, so a second call is handed a dangling pointer; the
      model answers it with the diagnostic for a pointer that is not a live
      block. */
  lemma DoubleReleaseAsWritten(st: Store, p: Ptr)
    requires Valid(st) && p in st.blocks && st.blocks[p].refs == 1
    ensures var d1 := DeallocAsWritten(st, Some(p));
            var d2 := DeallocAsWritten(d1.store, d1.slot);
            && d1.slot == Some(p) && p !in d1.store.blocks
            && d2.store == d1.store.(log := d1.store.log + [Stderr(InvalidMsg)])
  {
    ReleaseCases(st, p);
    ReleaseValid(st, Some(p));
  }

  /** As intended, the variable is NULL after the call that freed the block,
      so the second call does nothing. */
  lemma DoubleRelease(st: Store, p: Ptr)
    requires Valid(st) && p in st.blocks && st.blocks[p].refs == 1
    ensures var d1 := Dealloc(st, Some(p));
            var d2 := Dealloc(d1.store, d1.slot);
            && d1.slot.None? && p !in d1.store.blocks && d2 == Dropped(d1.store, None)
  {
    ReleaseCases(st, p);
    ReleaseValid(st, Some(p));
  }

  /** The two differ only on the call that frees the block: while other
      references remain, both leave the variable as it was. */
  lemma DeallocAgrees(st: Store, slot: Option<Ptr>)
    requires Valid(st)
    ensures Dealloc(st, slot).store == DeallocAsWritten(st, slot).store
    ensures Dealloc(st, slot).slot != DeallocAsWritten(st, slot).slot <==>
              slot.Some? && slot.value in st.blocks && st.blocks[slot.value].refs == 1
  {
  }
}
