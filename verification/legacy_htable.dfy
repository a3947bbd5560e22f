/**
 * The older open-addressing hash table of htable.c.
 *
 * A table is a fixed array of slots; a slot is empty (a NULL key) or holds
 * one entry. A key's home slot is its FNV-1a hash modulo the table size, and
 * collisions are resolved by linear probing: probe `i` from home `h` looks at
 * slot `(i + h) % size`. Keys are compared with `strcmp`, that is, exactly.
 * The value type `V` stands for the `void *` the C code stores.
 *
 * `Valid` is the probing invariant: every stored key is reachable from its
 * home slot without crossing an empty slot, and no key is stored twice.
 * Insert keeps it. The remove of htable.c only empties the slot, which can
 * cut another key's probe chain (`RemoveLosesCollidingKey`); `RemoveRebuilt`
 * is a corrected remove that keeps every other key reachable.
 */
module LegacyTable {
  import opened Strings
  import Fnv

  datatype Entry<V> = Entry(key: string, value: V)

  type Slots<V> = seq<Option<Entry<V>>>

  /** `htable_t`: the slot array; its length is `_table_size`. */
  datatype Table<V> = Table(slots: Slots<V>)

  /** `htable_result_t` */
  datatype Status = Success | KeyNotFound | KeyAlreadyExists | Full

  /** A mutating operation's status and the table afterwards. */
  datatype Update<V> = Update(status: Status, table: Table<V>)

  /** `htable_fetch`'s status and what it wrote to `*output`. */
  datatype Fetched<V> = Fetched(status: Status, output: Option<V>)

  // ---------------------------------------------------------------------------
  // Slots and probing
  // ---------------------------------------------------------------------------

  /** `htable_alloc(size)`: every slot starts with a NULL key. */
  function Alloc<V>(size: nat): Table<V> {
    Table(seq(size, _ => None))
  }

  /** The slot probe `i` from home `h` looks at, `(i + h) % n`, written
      without the modulus since both operands are below `n`. A key's home
      is `htable_hash(key, table->_table_size)`, which is
      `Fnv.SlotOf(key, |t.slots|)`. */
  function Probe(n: nat, h: nat, i: nat): (j: nat)
    requires h < n && i < n
    ensures j < n
  {
    if h + i < n then h + i else h + i - n
  }

  /** The probe number at which slot `j` is reached from home `h`. */
  function Dist(n: nat, h: nat, j: nat): (d: nat)
    requires h < n && j < n
    ensures d < n && Probe(n, h, d) == j
  {
    if h <= j then j - h else j + n - h
  }

  /** Slot `j` holds key `k`. */
  predicate Holds<V>(t: Table<V>, j: int, k: string) {
    0 <= j < |t.slots| && t.slots[j].Some? && t.slots[j].value.key == k
  }

  ghost predicate Stored<V>(t: Table<V>, k: string) {
    exists j :: Holds(t, j, k)
  }

  /** Key `k` is stored with value `v`. */
  ghost predicate Has<V>(t: Table<V>, k: string, v: V) {
    exists j :: Holds(t, j, k) && t.slots[j].value.value == v
  }

  /** Probes `a` up to (not including) `b` from home `h` all pass over a slot
      holding some key other than `k`. */
  ghost predicate Passed<V>(t: Table<V>, k: string, h: nat, a: nat, b: nat)
    requires h < |t.slots| && b <= |t.slots|
  {
    forall i :: a <= i < b ==>
      t.slots[Probe(|t.slots|, h, i)].Some? && t.slots[Probe(|t.slots|, h, i)].value.key != k
  }

  /** Slot `j`, if occupied, is reached from its key's home slot without
      passing an empty slot. */
  ghost predicate Reachable<V>(t: Table<V>, j: nat)
    requires j < |t.slots|
  {
    t.slots[j].Some? ==>
      var h := Fnv.SlotOf(t.slots[j].value.key, |t.slots|);
      forall i :: 0 <= i < Dist(|t.slots|, h, j) ==> t.slots[Probe(|t.slots|, h, i)].Some?
  }

  ghost predicate Unique<V>(t: Table<V>) {
    forall j1, j2, k :: Holds(t, j1, k) && Holds(t, j2, k) ==> j1 == j2
  }

  /** The linear-probing invariant. */
  ghost predicate Valid<V>(t: Table<V>) {
    && |t.slots| > 0
    && (forall j :: 0 <= j < |t.slots| ==> Reachable(t, j))
    && Unique(t)
  }

  /** The number of occupied slots. */
  function Occupied<V>(slots: Slots<V>): nat {
    if slots == [] then 0 else (if slots[0].Some? then 1 else 0) + Occupied(slots[1..])
  }

  /** The entries of the occupied slots, in slot order. */
  function Entries<V>(slots: Slots<V>): seq<Entry<V>> {
    if slots == [] then []
    else (if slots[0].Some? then [slots[0].value] else []) + Entries(slots[1..])
  }

  function KeysOf<V>(es: seq<Entry<V>>): (r: seq<string>)
    ensures |r| == |es| && forall i :: 0 <= i < |es| ==> r[i] == es[i].key
  {
    if es == [] then [] else [es[0].key] + KeysOf(es[1..])
  }

  // ---------------------------------------------------------------------------
  // Operations
  // ---------------------------------------------------------------------------

  /** The probe number at which the loops of `htable_insert` and `find_entry`
      stop when looking for `k` from home `h`, starting at probe `i`: the
      first probe whose slot is empty or holds `k`, or the table size when
      every remaining probe passes over another key. */
  function ProbeEnd<V>(t: Table<V>, k: string, h: nat, i: nat): (d: nat)
    requires h < |t.slots| && i <= |t.slots|
    ensures i <= d <= |t.slots|
    ensures Passed(t, k, h, i, d)
    ensures d < |t.slots| ==>
      t.slots[Probe(|t.slots|, h, d)].None? || t.slots[Probe(|t.slots|, h, d)].value.key == k
    decreases |t.slots| - i
  {
    if i == |t.slots| then i
    else
      var e := t.slots[Probe(|t.slots|, h, i)];
      if e.None? || e.value.key == k then i else ProbeEnd(t, k, h, i + 1)
  }

  /** `find_entry`: the slot holding `key`, or `None` for NULL. */
  function FindEntry<V>(t: Table<V>, key: string): (r: Option<nat>)
    requires |t.slots| > 0
    ensures r.Some? ==> Holds(t, r.value, key)
    ensures !Stored(t, key) ==> r.None?
  {
    var h := Fnv.SlotOf(key, |t.slots|);
    var d := ProbeEnd(t, key, h, 0);
    if d == |t.slots| || t.slots[Probe(|t.slots|, h, d)].None? then None
    else
      assert Holds(t, Probe(|t.slots|, h, d), key);
      Some(Probe(|t.slots|, h, d))
  }

  /** `htable_write_slot`: store a copy of the key and the value in slot `j`. */
  function Write<V>(t: Table<V>, j: nat, key: string, v: V): Table<V>
    requires j < |t.slots|
  {
    Table(t.slots[j := Some(Entry(key, v))])
  }

  /** `htable_insert`: write into the home slot when it is empty; otherwise
      probe from home, stopping at the key (KEY_ALREADY_EXISTS) or at the
      first empty slot (written); FULL when every slot is taken. */
  function Insert<V>(t: Table<V>, key: string, v: V): (r: Update<V>)
    requires |t.slots| > 0
    ensures r.status != Success ==> r.table == t
    ensures r.status == KeyAlreadyExists ==> Stored(t, key)
    ensures r.status != KeyNotFound
    ensures |r.table.slots| == |t.slots|
  {
    var n := |t.slots|;
    var h := Fnv.SlotOf(key, |t.slots|);
    if t.slots[h].None? then Update(Success, Write(t, h, key, v))
    else
      var d := ProbeEnd(t, key, h, 0);
      if d == n then Update(Full, t)
      else if t.slots[Probe(n, h, d)].Some? then
        assert Holds(t, Probe(n, h, d), key);
        Update(KeyAlreadyExists, t)
      else Update(Success, Write(t, Probe(n, h, d), key, v))
  }

  /** `htable_remove` as written: the found slot's key and value are
      cleared, and nothing else moves. */
  function Remove<V>(t: Table<V>, key: string): (r: Update<V>)
    requires |t.slots| > 0
    ensures r.status == Success || r.status == KeyNotFound
    ensures r.status == KeyNotFound ==> r.table == t
    ensures |r.table.slots| == |t.slots|
  {
    match FindEntry(t, key)
    case None => Update(KeyNotFound, t)
    case Some(j) => Update(Success, Table(t.slots[j := None]))
  }

  /** `htable_fetch` */
  function Fetch<V>(t: Table<V>, key: string): (r: Fetched<V>)
    requires |t.slots| > 0
    ensures r.status == Success || r == Fetched(KeyNotFound, None)
    ensures r.status == Success ==> Stored(t, key) && r.output.Some?
    ensures !Stored(t, key) ==> r == Fetched(KeyNotFound, None)
  {
    match FindEntry(t, key)
    case Some(j) => Fetched(Success, Some(t.slots[j].value.value))
    case None => Fetched(KeyNotFound, None)
  }

  /** `htable_list_keys`: the keys of the occupied slots in slot order (the
      NULL terminator is the end of the sequence). */
  function ListKeys<V>(t: Table<V>): seq<string> {
    KeysOf(Entries(t.slots))
  }

  /** Insert every entry of `es` in order. */
  function Reinsert<V>(acc: Table<V>, es: seq<Entry<V>>): (r: Table<V>)
    requires |acc.slots| > 0
    ensures |r.slots| == |acc.slots|
    decreases |es|
  {
    if es == [] then acc else Reinsert(Insert(acc, es[0].key, es[0].value).table, es[1..])
  }

  /** A remove that keeps the probing invariant: the found key's slot is
      cleared and the remaining entries are inserted again into an empty
      table of the same size, so no probe chain is left with a gap. */
  function RemoveRebuilt<V>(t: Table<V>, key: string): (r: Update<V>)
    requires |t.slots| > 0
    ensures r.status == Success || r.status == KeyNotFound
    ensures r.status == KeyNotFound ==> r.table == t
    ensures |r.table.slots| == |t.slots|
  {
    match FindEntry(t, key)
    case None => Update(KeyNotFound, t)
    case Some(j) => Update(Success, Reinsert(Alloc(|t.slots|), Entries(t.slots[j := None])))
  }

  // ---------------------------------------------------------------------------
  // Probing lemmas
  // ---------------------------------------------------------------------------

  /** Probe `i` is slot `(i + h) % n`, as the C code computes it. */
  lemma ProbeIsMod(n: nat, h: nat, i: nat)
    requires h < n && i < n
    ensures Probe(n, h, i) == (i + h) % n
  {
    if h + i >= n {
      assert i + h == 1 * n + (i + h - n);
    }
  }

  /** Under the invariant, the probe loop for a stored key stops exactly at
      the slot that holds it. */
  lemma EndAtStored<V>(t: Table<V>, k: string, j: nat)
    requires Valid(t) && Holds(t, j, k)
    ensures ProbeEnd(t, k, Fnv.SlotOf(k, |t.slots|), 0) == Dist(|t.slots|, Fnv.SlotOf(k, |t.slots|), j)
  {
    var n := |t.slots|;
    var h := Fnv.SlotOf(k, |t.slots|);
    var dj := Dist(n, h, j);
    var d := ProbeEnd(t, k, h, 0);
    if d < dj {
      assert Reachable(t, j);
      assert Holds(t, Probe(n, h, d), k);
      assert false;
    } else if d > dj {
      assert false;
    }
  }

  /** `find_entry` finds every stored key, at the slot holding it. */
  lemma FindComplete<V>(t: Table<V>, k: string, j: nat)
    requires Valid(t) && Holds(t, j, k)
    ensures FindEntry(t, k) == Some(j)
  {
    EndAtStored(t, k, j);
  }

  /** Under the invariant `fetch` gives the stored value of a present key. */
  lemma FetchStored<V>(t: Table<V>, k: string, j: nat)
    requires Valid(t) && Holds(t, j, k)
    ensures Fetch(t, k) == Fetched(Success, Some(t.slots[j].value.value))
  {
    FindComplete(t, k, j);
  }

  /** Under the invariant `fetch` succeeds with `v` exactly when the table
      stores `k` with `v`. */
  lemma FetchHas<V>(t: Table<V>, k: string, v: V)
    requires Valid(t)
    ensures Fetch(t, k) == Fetched(Success, Some(v)) <==> Has(t, k, v)
  {
    if Has(t, k, v) {
      var j :| Holds(t, j, k) && t.slots[j].value.value == v;
      FetchStored(t, k, j);
    }
  }

  /** A freshly allocated table satisfies the invariant and stores nothing. */
  lemma AllocEmpty<V>(n: nat, k: string)
    requires n > 0
    ensures Valid(Alloc<V>(n)) && Occupied(Alloc<V>(n).slots) == 0
    ensures Fetch(Alloc<V>(n), k) == Fetched(KeyNotFound, None)
    ensures forall k' :: !Stored(Alloc<V>(n), k')
    ensures forall k', v :: !Has(Alloc<V>(n), k', v)
  {
    var t := Alloc<V>(n);
    OccupiedNone(t.slots);
  }

  lemma {:induction false} OccupiedNone<V>(slots: Slots<V>)
    requires forall j :: 0 <= j < |slots| ==> slots[j].None?
    ensures Occupied(slots) == 0
  {
    if slots != [] {
      OccupiedNone(slots[1..]);
    }
  }

  // ---------------------------------------------------------------------------
  // Insert
  // ---------------------------------------------------------------------------

  /** The probe loop has passed every slot: all are occupied. */
  lemma PassedAll<V>(t: Table<V>, k: string, h: nat)
    requires h < |t.slots| && Passed(t, k, h, 0, |t.slots|)
    ensures forall j :: 0 <= j < |t.slots| ==> t.slots[j].Some? && t.slots[j].value.key != k
  {
    forall j | 0 <= j < |t.slots|
      ensures t.slots[j].Some? && t.slots[j].value.key != k
    {
      assert Probe(|t.slots|, h, Dist(|t.slots|, h, j)) == j;
    }
  }

  /** The outcome of an insert: KEY_ALREADY_EXISTS exactly when the key is
      stored, FULL exactly when it is not and no slot is free. */
  lemma InsertStatus<V>(t: Table<V>, key: string, v: V)
    requires Valid(t)
    ensures Insert(t, key, v).status == KeyAlreadyExists <==> Stored(t, key)
    ensures Insert(t, key, v).status == Full <==>
      !Stored(t, key) && forall j :: 0 <= j < |t.slots| ==> t.slots[j].Some?
  {
    var n := |t.slots|;
    var h := Fnv.SlotOf(key, |t.slots|);
    var d := ProbeEnd(t, key, h, 0);
    if Stored(t, key) {
      var j :| Holds(t, j, key);
      EndAtStored(t, key, j);
      assert Probe(n, h, 0) == h;
    } else if d == n {
      PassedAll(t, key, h);
    } else {
      assert !Holds(t, Probe(n, h, d), key);
    }
  }

  /** A successful insert writes the first free slot on the key's probe
      chain, after passing only occupied slots. */
  lemma InsertLands<V>(t: Table<V>, key: string, v: V)
    requires |t.slots| > 0 && Insert(t, key, v).status == Success
    ensures var h := Fnv.SlotOf(key, |t.slots|);
            var d := ProbeEnd(t, key, h, 0);
            d < |t.slots| && t.slots[Probe(|t.slots|, h, d)].None?
            && Insert(t, key, v).table == Write(t, Probe(|t.slots|, h, d), key, v)
  {
    var h := Fnv.SlotOf(key, |t.slots|);
    if t.slots[h].None? {
      assert Probe(|t.slots|, h, 0) == h;
    }
  }

  /** Writing `key` into the free slot `p` reached from its home after
      passing only occupied slots keeps the invariant, when `key` is new. */
  lemma WriteValid<V>(t: Table<V>, key: string, v: V, d: nat)
    requires Valid(t) && !Stored(t, key)
    requires d < |t.slots| && Passed(t, key, Fnv.SlotOf(key, |t.slots|), 0, d)
    requires t.slots[Probe(|t.slots|, Fnv.SlotOf(key, |t.slots|), d)].None?
    ensures Valid(Write(t, Probe(|t.slots|, Fnv.SlotOf(key, |t.slots|), d), key, v))
  {
    var n := |t.slots|;
    var h := Fnv.SlotOf(key, |t.slots|);
    var p := Probe(n, h, d);
    var u := Write(t, p, key, v);
    forall j | 0 <= j < n
      ensures Reachable(u, j)
    {
      if j == p {
        assert Dist(n, h, p) == d;
      } else {
        assert Reachable(t, j);
      }
    }
    forall j | 0 <= j < n && j != p
      ensures !Holds(u, j, key)
    {
      assert Holds(u, j, key) == Holds(t, j, key);
    }
    forall j1, j2, k | Holds(u, j1, k) && Holds(u, j2, k)
      ensures j1 == j2
    {
      if j1 != p && j2 != p {
        assert Holds(t, j1, k) && Holds(t, j2, k);
      }
    }
  }

  /** Insert keeps the linear-probing invariant. */
  lemma InsertValid<V>(t: Table<V>, key: string, v: V)
    requires Valid(t)
    ensures Valid(Insert(t, key, v).table)
  {
    if Insert(t, key, v).status == Success {
      InsertStatus(t, key, v);
      InsertLands(t, key, v);
      WriteValid(t, key, v, ProbeEnd(t, key, Fnv.SlotOf(key, |t.slots|), 0));
    }
  }

  /** After a successful insert the table stores exactly what it stored
      before plus the new key with its value. */
  lemma InsertHas<V>(t: Table<V>, key: string, v: V, k: string, w: V)
    requires Valid(t) && Insert(t, key, v).status == Success
    ensures Has(Insert(t, key, v).table, k, w) <==> Has(t, k, w) || (k == key && w == v)
  {
    InsertLands(t, key, v);
    var p := Probe(|t.slots|, Fnv.SlotOf(key, |t.slots|), ProbeEnd(t, key, Fnv.SlotOf(key, |t.slots|), 0));
    var u := Insert(t, key, v).table;
    if Has(u, k, w) {
      var j :| Holds(u, j, k) && u.slots[j].value.value == w;
      if j != p {
        assert Holds(t, j, k);
      }
    }
    if Has(t, k, w) {
      var j :| Holds(t, j, k) && t.slots[j].value.value == w;
      assert Holds(u, j, k);
    }
    if k == key && w == v {
      assert Holds(u, p, k);
    }
  }

  /** A successful insert adds exactly its key to the stored keys and fills
      one more slot. */
  lemma InsertStored<V>(t: Table<V>, key: string, v: V, k: string)
    requires Valid(t) && Insert(t, key, v).status == Success
    ensures Stored(Insert(t, key, v).table, k) <==> Stored(t, k) || k == key
    ensures Occupied(Insert(t, key, v).table.slots) == Occupied(t.slots) + 1
  {
    InsertLands(t, key, v);
    var p := Probe(|t.slots|, Fnv.SlotOf(key, |t.slots|), ProbeEnd(t, key, Fnv.SlotOf(key, |t.slots|), 0));
    var u := Insert(t, key, v).table;
    OccupiedUpdate(t.slots, p, Some(Entry(key, v)));
    if Stored(u, k) {
      var j :| Holds(u, j, k);
      if j != p {
        assert Holds(t, j, k);
      }
    }
    if Stored(t, k) {
      var j :| Holds(t, j, k);
      assert Holds(u, j, k);
    }
    if k == key {
      assert Holds(u, p, k);
    }
  }

  /** Insert then fetch: a successful insert makes `fetch` return the new
      value for its key and leaves `fetch` of every other key unchanged. */
  lemma FetchAfterInsert<V>(t: Table<V>, key: string, v: V, other: string)
    requires Valid(t) && Insert(t, key, v).status == Success
    ensures Fetch(Insert(t, key, v).table, key) == Fetched(Success, Some(v))
    ensures other != key ==> Fetch(Insert(t, key, v).table, other) == Fetch(t, other)
  {
    var u := Insert(t, key, v).table;
    InsertValid(t, key, v);
    InsertHas(t, key, v, key, v);
    FetchHas(u, key, v);
    if other != key {
      var f := Fetch(t, other);
      if f.status == Success {
        InsertHas(t, key, v, other, f.output.value);
        FetchHas(t, other, f.output.value);
        FetchHas(u, other, f.output.value);
      } else {
        var g := Fetch(u, other);
        if g.status == Success {
          InsertHas(t, key, v, other, g.output.value);
          FetchHas(t, other, g.output.value);
          FetchHas(u, other, g.output.value);
        }
      }
    }
  }

  // ---------------------------------------------------------------------------
  // Counting and listing
  // ---------------------------------------------------------------------------

  /** Some slot is free exactly when fewer slots are occupied than exist. */
  lemma {:induction false} OccupiedBound<V>(slots: Slots<V>)
    ensures Occupied(slots) <= |slots|
    ensures Occupied(slots) < |slots| <==> exists j :: 0 <= j < |slots| && slots[j].None?
  {
    if slots != [] {
      OccupiedBound(slots[1..]);
      if Occupied(slots) < |slots| && slots[0].Some? {
        var j :| 0 <= j < |slots[1..]| && slots[1..][j].None?;
        assert slots[j + 1].None?;
      }
      if exists j :: 0 <= j < |slots| && slots[j].None? {
        var j :| 0 <= j < |slots| && slots[j].None?;
        if j > 0 {
          assert slots[1..][j - 1].None?;
        }
      }
    }
  }

  /** Filling or emptying one slot moves the count by one. */
  lemma {:induction false} OccupiedUpdate<V>(slots: Slots<V>, j: nat, x: Option<Entry<V>>)
    requires j < |slots|
    ensures Occupied(slots[j := x]) + (if slots[j].Some? then 1 else 0)
         == Occupied(slots) + (if x.Some? then 1 else 0)
  {
    if j > 0 {
      assert slots[j := x][1..] == slots[1..][j - 1 := x];
      OccupiedUpdate(slots[1..], j - 1, x);
    } else {
      assert slots[j := x][1..] == slots[1..];
    }
  }

  /** Some slot holds entry `e`. */
  ghost predicate InSlots<V>(slots: Slots<V>, e: Entry<V>) {
    exists j :: 0 <= j < |slots| && slots[j] == Some(e)
  }

  /** An entry is listed exactly when some slot holds it, and the list has
      one entry per occupied slot. */
  lemma {:induction false} EntriesSpec<V>(slots: Slots<V>)
    ensures |Entries(slots)| == Occupied(slots)
    ensures forall e :: e in Entries(slots) <==> InSlots(slots, e)
  {
    if slots != [] {
      EntriesSpec(slots[1..]);
      forall e | InSlots(slots, e)
        ensures e in Entries(slots)
      {
        var j :| 0 <= j < |slots| && slots[j] == Some(e);
        if j > 0 {
          assert slots[1..][j - 1] == Some(e);
        }
      }
      forall e | e in Entries(slots)
        ensures InSlots(slots, e)
      {
        if e !in Entries(slots[1..]) {
          assert slots[0] == Some(e);
        } else {
          assert InSlots(slots[1..], e);
          var j :| 0 <= j < |slots[1..]| && slots[1..][j] == Some(e);
          assert slots[j + 1] == Some(e);
        }
      }
    }
  }

  /** No two entries of `es` share a key. */
  predicate DistinctKeys<V>(es: seq<Entry<V>>) {
    forall i1, i2 :: 0 <= i1 < i2 < |es| ==> es[i1].key != es[i2].key
  }

  /** The slots hold no key twice. */
  predicate UniqueSlots<V>(slots: Slots<V>) {
    forall j1, j2 :: 0 <= j1 < j2 < |slots| && slots[j1].Some? && slots[j2].Some?
      ==> slots[j1].value.key != slots[j2].value.key
  }

  lemma {:induction false} EntriesDistinct<V>(slots: Slots<V>)
    requires UniqueSlots(slots)
    ensures DistinctKeys(Entries(slots))
  {
    if slots != [] {
      assert UniqueSlots(slots[1..]) by {
        forall j1, j2 | 0 <= j1 < j2 < |slots[1..]| && slots[1..][j1].Some? && slots[1..][j2].Some?
          ensures slots[1..][j1].value.key != slots[1..][j2].value.key
        {
          assert slots[1..][j1] == slots[j1 + 1] && slots[1..][j2] == slots[j2 + 1];
        }
      }
      EntriesDistinct(slots[1..]);
      EntriesSpec(slots[1..]);
      if slots[0].Some? {
        var es := Entries(slots);
        var rest := Entries(slots[1..]);
        assert es == [slots[0].value] + rest;
        forall i2 | 0 < i2 < |es|
          ensures es[0].key != es[i2].key
        {
          assert rest[i2 - 1] in rest;
          assert InSlots(slots[1..], rest[i2 - 1]);
          var j :| 0 <= j < |slots[1..]| && slots[1..][j] == Some(rest[i2 - 1]);
          assert slots[j + 1] == Some(es[i2]);
        }
      }
    }
  }

  lemma UniqueIsUniqueSlots<V>(t: Table<V>)
    requires Unique(t)
    ensures UniqueSlots(t.slots)
  {
    forall j1, j2 | 0 <= j1 < j2 < |t.slots| && t.slots[j1].Some? && t.slots[j2].Some?
      ensures t.slots[j1].value.key != t.slots[j2].value.key
    {
      if t.slots[j1].value.key == t.slots[j2].value.key {
        assert Holds(t, j1, t.slots[j1].value.key) && Holds(t, j2, t.slots[j1].value.key);
      }
    }
  }

  /** `htable_list_keys` lists one key per occupied slot, lists exactly the
      stored keys, and under the invariant lists no key twice. */
  lemma ListKeysSpec<V>(t: Table<V>)
    ensures |ListKeys(t)| == Occupied(t.slots)
    ensures forall k :: k in ListKeys(t) <==> Stored(t, k)
    ensures Valid(t) ==> forall i1, i2 :: 0 <= i1 < i2 < |ListKeys(t)| ==> ListKeys(t)[i1] != ListKeys(t)[i2]
  {
    var es := Entries(t.slots);
    EntriesSpec(t.slots);
    forall k | k in ListKeys(t)
      ensures Stored(t, k)
    {
      var i :| 0 <= i < |es| && ListKeys(t)[i] == k;
      assert es[i] in es;
      assert InSlots(t.slots, es[i]);
      var j :| 0 <= j < |t.slots| && t.slots[j] == Some(es[i]);
      assert Holds(t, j, k);
    }
    forall k | Stored(t, k)
      ensures k in ListKeys(t)
    {
      var j :| Holds(t, j, k);
      var e := t.slots[j].value;
      assert e in es;
      var i :| 0 <= i < |es| && es[i] == e;
      assert ListKeys(t)[i] == k;
    }
    if Valid(t) {
      UniqueIsUniqueSlots(t);
      EntriesDistinct(t.slots);
    }
  }

  // ---------------------------------------------------------------------------
  // Remove as written, and its defect
  // ---------------------------------------------------------------------------

  /** `htable_remove` as written: KEY_NOT_FOUND exactly when `fetch` would
      not find the key; on success the key's slot is emptied, every other
      slot is unchanged, and the key is gone. */
  lemma RemoveSpec<V>(t: Table<V>, key: string)
    requires Valid(t)
    ensures Remove(t, key).status == Success <==> Stored(t, key)
    ensures Remove(t, key).status == Success ==>
      var j := FindEntry(t, key).value;
      Holds(t, j, key) && Remove(t, key).table.slots == t.slots[j := None]
      && !Stored(Remove(t, key).table, key)
  {
    if Stored(t, key) {
      var j :| Holds(t, j, key);
      FindComplete(t, key, j);
      var u := Remove(t, key).table;
      forall j2 | 0 <= j2 < |u.slots|
        ensures !Holds(u, j2, key)
      {
        if j2 != j {
          assert Holds(u, j2, key) == Holds(t, j2, key);
        }
      }
    }
  }

  /** The defect of the remove as written: in a table of two or more slots,
      insert `a`, then a different key `c` with the same home slot (it lands
      on the next probe), then remove `a`. The home slot is now empty, so
      `fetch(c)` stops there and reports KEY_NOT_FOUND although `c` is still
      stored. */
  lemma RemoveLosesCollidingKey<V>(n: nat, a: string, c: string, va: V, vc: V)
    requires n >= 2 && a != c && Fnv.SlotOf(a, n) == Fnv.SlotOf(c, n)
    ensures var t1 := Insert(Alloc<V>(n), a, va).table;
            var t2 := Insert(t1, c, vc).table;
            var t3 := Remove(t2, a).table;
            && Fetch(t2, c) == Fetched(Success, Some(vc))
            && Stored(t3, c)
            && Fetch(t3, c) == Fetched(KeyNotFound, None)
  {
    var h := Fnv.SlotOf(a, n);
    var t0 := Alloc<V>(n);
    var t1 := Insert(t0, a, va).table;
    assert t1.slots == t0.slots[h := Some(Entry(a, va))];
    var p := Probe(n, h, 1);
    assert ProbeEnd(t1, c, h, 1) == 1;
    assert ProbeEnd(t1, c, h, 0) == 1;
    var t2 := Insert(t1, c, vc).table;
    assert t2.slots == t1.slots[p := Some(Entry(c, vc))];
    assert Holds(t2, h, a) && Holds(t2, p, c);
    assert ProbeEnd(t2, a, h, 0) == 0;
    assert ProbeEnd(t2, c, h, 1) == 1;
    assert ProbeEnd(t2, c, h, 0) == 1;
    var t3 := Remove(t2, a).table;
    assert t3.slots == t2.slots[h := None];
    assert Holds(t3, p, c);
    assert ProbeEnd(t3, c, h, 0) == 0;
  }

  /** The keys "a" and "c" share their home slot in a table of two slots, so
      they exhibit the defect above. */
  lemma RemoveLosesKeyExample()
    ensures var t1 := Insert(Alloc<int>(2), KeyA, 1).table;
            var t2 := Insert(t1, KeyC, 3).table;
            Stored(Remove(t2, KeyA).table, KeyC)
            && Fetch(Remove(t2, KeyA).table, KeyC) == Fetched(KeyNotFound, None)
  {
    HomeOfA();
    HomeOfC();
    RemoveLosesCollidingKey<int>(2, KeyA, KeyC, 1, 3);
  }

  const KeyA: string := "a"
  const KeyC: string := "c"

  /** FNV-1a of "a" is 0xaf63dc4c8601ec8c, an even number. */
  lemma HomeOfA()
    ensures Fnv.SlotOf(KeyA, 2) == 0
  {
    var b := ('a' as int) % 256;
    assert b == 97 && b as bv64 == 97;
    assert Fnv.Step(Fnv.OffsetBasis, 'a') == 0xaf63dc4c8601ec8c by {
      assert (Fnv.OffsetBasis ^ 97) * Fnv.Prime == 0xaf63dc4c8601ec8c;
    }
    assert "a"[0] == 'a';
    assert Fnv.SlotFrom(0xaf63dc4c8601ec8c, "a", 1, 2) == 0;
  }

  /** FNV-1a of "c" is 0xaf63de4c8601eff2, an even number. */
  lemma HomeOfC()
    ensures Fnv.SlotOf(KeyC, 2) == 0
  {
    var b := ('c' as int) % 256;
    assert b == 99 && b as bv64 == 99;
    assert Fnv.Step(Fnv.OffsetBasis, 'c') == 0xaf63de4c8601eff2 by {
      assert (Fnv.OffsetBasis ^ 99) * Fnv.Prime == 0xaf63de4c8601eff2;
    }
    assert "c"[0] == 'c';
    assert Fnv.SlotFrom(0xaf63de4c8601eff2, "c", 1, 2) == 0;
  }

  // ---------------------------------------------------------------------------
  // The corrected remove
  // ---------------------------------------------------------------------------

  /** Inserting distinct new keys into a valid table with room for them keeps
      the invariant and adds exactly those entries. */
  lemma {:induction false} ReinsertSpec<V>(acc: Table<V>, es: seq<Entry<V>>)
    requires Valid(acc) && Occupied(acc.slots) + |es| <= |acc.slots|
    requires DistinctKeys(es) && forall i :: 0 <= i < |es| ==> !Stored(acc, es[i].key)
    ensures Valid(Reinsert(acc, es))
    ensures forall k, v :: Has(Reinsert(acc, es), k, v) <==> Has(acc, k, v) || Entry(k, v) in es
    decreases |es|
  {
    if es != [] {
      var e := es[0];
      var r := Insert(acc, e.key, e.value);
      OccupiedBound(acc.slots);
      InsertStatus(acc, e.key, e.value);
      assert r.status == Success;
      InsertValid(acc, e.key, e.value);
      InsertLands(acc, e.key, e.value);
      var p := Probe(|acc.slots|, Fnv.SlotOf(e.key, |acc.slots|), ProbeEnd(acc, e.key, Fnv.SlotOf(e.key, |acc.slots|), 0));
      OccupiedUpdate(acc.slots, p, Some(e));
      var rest := es[1..];
      forall i | 0 <= i < |rest|
        ensures !Stored(r.table, rest[i].key)
      {
        assert rest[i] == es[i + 1];
        forall j | 0 <= j < |r.table.slots|
          ensures !Holds(r.table, j, rest[i].key)
        {
          if j != p {
            assert Holds(r.table, j, rest[i].key) == Holds(acc, j, rest[i].key);
          }
        }
      }
      ReinsertSpec(r.table, rest);
      forall k, v
        ensures Has(Reinsert(acc, es), k, v) <==> Has(acc, k, v) || Entry(k, v) in es
      {
        InsertHas(acc, e.key, e.value, k, v);
        assert Entry(k, v) in es <==> Entry(k, v) == e || Entry(k, v) in rest;
      }
    }
  }

  /** Rebuilding a valid table without the key in slot `j` gives a valid
      table holding every other entry and nothing else. */
  lemma RebuiltContents<V>(t: Table<V>, key: string, j: nat)
    requires Valid(t) && Holds(t, j, key)
    ensures var u := Reinsert(Alloc<V>(|t.slots|), Entries(t.slots[j := None]));
            && Valid(u)
            && forall k, v :: Has(u, k, v) <==> Has(t, k, v) && k != key
  {
    var n := |t.slots|;
    var cleared := t.slots[j := None];
    var es := Entries(cleared);
    var empty := Alloc<V>(n);
    AllocEmpty<V>(n, key);
    EntriesSpec(cleared);
    OccupiedUpdate(t.slots, j, None);
    OccupiedBound(t.slots);
    UniqueIsUniqueSlots(t);
    assert UniqueSlots(cleared);
    EntriesDistinct(cleared);
    ReinsertSpec(empty, es);
    var u := Reinsert(empty, es);
    forall k, v
      ensures Has(u, k, v) <==> Has(t, k, v) && k != key
    {
      if Entry(k, v) in es {
        assert InSlots(cleared, Entry(k, v));
        var j2 :| 0 <= j2 < n && cleared[j2] == Some(Entry(k, v));
        assert Holds(t, j2, k);
      }
      if Has(t, k, v) && k != key {
        var j2 :| Holds(t, j2, k) && t.slots[j2].value.value == v;
        assert cleared[j2] == Some(Entry(k, v));
      }
    }
  }

  /** Two valid tables that store the same entries except that `u` lacks
      `key` answer `fetch` alike for every other key, and `u` has no `key`. */
  lemma FetchWithout<V>(t: Table<V>, u: Table<V>, key: string, other: string)
    requires Valid(t) && Valid(u)
    requires forall k, v :: Has(u, k, v) <==> Has(t, k, v) && k != key
    ensures !Stored(u, key)
    ensures other != key ==> Fetch(u, other) == Fetch(t, other)
  {
    if Stored(u, key) {
      var j2 :| Holds(u, j2, key);
      assert Has(u, key, u.slots[j2].value.value);
    }
    if other != key {
      var f := Fetch(t, other);
      if f.status == Success {
        FetchHas(t, other, f.output.value);
        FetchHas(u, other, f.output.value);
      } else {
        var g := Fetch(u, other);
        if g.status == Success {
          FetchHas(u, other, g.output.value);
          FetchHas(t, other, g.output.value);
        }
      }
    }
  }

  /** The corrected remove: KEY_NOT_FOUND exactly when the key is absent;
      otherwise the invariant still holds, the key is gone, and every other
      key keeps its value, so `fetch` of any other key is unchanged. */
  lemma RemoveRebuiltSpec<V>(t: Table<V>, key: string, other: string)
    requires Valid(t)
    ensures RemoveRebuilt(t, key).status == Success <==> Stored(t, key)
    ensures Valid(RemoveRebuilt(t, key).table)
    ensures !Stored(RemoveRebuilt(t, key).table, key)
    ensures other != key ==> Fetch(RemoveRebuilt(t, key).table, other) == Fetch(t, other)
  {
    if Stored(t, key) {
      var j :| Holds(t, j, key);
      FindComplete(t, key, j);
      RebuiltContents(t, key, j);
      FetchWithout(t, RemoveRebuilt(t, key).table, key, other);
    }
  }
}
