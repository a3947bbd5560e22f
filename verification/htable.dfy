/**
 * The chained hash map of datastruct/htable.c.
 *
 * A table is an array of slots; each slot holds a chain of entries, newest
 * first. Keys are compared the way `strncmp(key, entry_key, 128)` does, and a
 * key lives in the chain its FNV-1a hash selects. The value type `V` stands
 * for the `void *` the C code stores; a NULL value is `None`.
 *
 * `View` is the abstract map a table represents (each stored key with the
 * value `fetch` returns for it); the lemmas at the end prove that every
 * operation acts on `View` the way a map operation would.
 */
module HTable {
  import opened Strings
  import Fnv

  /** HTABLE_MAX_KEYLEN */
  const MaxKeyLen: nat := 128
  /** `(size_t) -1`: what decrementing a zero `size_t` counter gives. */
  const SizeMax: nat := 0xFFFF_FFFF_FFFF_FFFF

  datatype Entry<V> = Entry(key: string, value: V)

  type Chain<V> = seq<Entry<V>>

  /** `htable_t`: the slot array (its length is `_slot_count`), the item
      counter and the item capacity. */
  datatype Table<V> = Table(slots: seq<Chain<V>>, itemCount: nat, itemCap: nat)

  /** `htable_result_t` */
  datatype Status = Success | KeyNotFound | KeyAlreadyExists | KeyTooLong | Full | NullValue

  /** A mutating operation's status and the table afterwards. */
  datatype Update<V> = Update(status: Status, table: Table<V>)

  /** `htable_fetch`'s status and what it wrote to `*output`. */
  datatype Fetched<V> = Fetched(status: Status, output: Option<V>)

  /** `htable_remove`'s status, the table afterwards, and the value the table's
      cleanup function was run on. */
  datatype Removed<V> = Removed(status: Status, table: Table<V>, released: Option<V>)

  /** `strncmp(key, e.key, HTABLE_MAX_KEYLEN) == 0` */
  predicate Matches<V>(e: Entry<V>, key: string) {
    EqualUpTo(key, e.key, MaxKeyLen)
  }

  /** `htable_hash(key, table->_slot_count)` */
  function HashSlot<V>(t: Table<V>, key: string): (i: nat)
    requires |t.slots| > 0
    ensures i < |t.slots|
  {
    Fnv.SlotOf(key, |t.slots|)
  }

  /** Position of the first entry of `chain` whose key matches. */
  function FindIn<V>(chain: Chain<V>, key: string): (r: Option<nat>)
    ensures r.Some? ==> r.value < |chain| && Matches(chain[r.value], key)
    ensures r.Some? ==> forall j :: 0 <= j < r.value ==> !Matches(chain[j], key)
    ensures r.None? ==> forall j :: 0 <= j < |chain| ==> !Matches(chain[j], key)
  {
    if chain == [] then None
    else if Matches(chain[0], key) then Some(0)
    else
      match FindIn(chain[1..], key)
      case None => None
      case Some(j) => Some(j + 1)
  }

  /** Number of entries in all chains. */
  function Size<V>(slots: seq<Chain<V>>): nat {
    if slots == [] then 0 else |slots[0]| + Size(slots[1..])
  }

  function ChainKeys<V>(chain: Chain<V>): (r: seq<string>)
    ensures |r| == |chain|
    ensures forall j :: 0 <= j < |chain| ==> r[j] == chain[j].key
  {
    seq(|chain|, j requires 0 <= j < |chain| => chain[j].key)
  }

  /** All keys, slot by slot, each chain from its head. */
  function KeysOf<V>(slots: seq<Chain<V>>): seq<string> {
    if slots == [] then [] else ChainKeys(slots[0]) + KeysOf(slots[1..])
  }

  /** The entry at chain position `j` of slot `i` has key `k`. */
  predicate HasKeyAt<V>(slots: seq<Chain<V>>, i: int, j: int, k: string) {
    0 <= i < |slots| && 0 <= j < |slots[i]| && slots[i][j].key == k
  }

  ghost predicate Stored<V>(slots: seq<Chain<V>>, k: string) {
    exists i, j :: HasKeyAt(slots, i, j, k)
  }

  /** An entry sits in the slot its key hashes to, under a clonable key. */
  ghost predicate WellPlaced<V>(e: Entry<V>, i: nat, n: nat)
    requires n > 0
  {
    |e.key| <= MaxKeyLen && Fnv.SlotOf(e.key, n) == i
  }

  /** What every table built by `Make` and the operations below satisfies. */
  ghost predicate Valid<V>(t: Table<V>) {
    && |t.slots| > 0
    && (forall i, j :: 0 <= i < |t.slots| && 0 <= j < |t.slots[i]| ==>
          WellPlaced(t.slots[i][j], i, |t.slots|))
    && t.itemCount == Size(t.slots)
    && t.itemCount <= t.itemCap
  }

  // ---------------------------------------------------------------------
  // Operations
  // ---------------------------------------------------------------------

  /** `htable_make(slot_count, item_cap, cf)`: every slot empty. A zero slot
      count would make every later hash divide by zero. */
  function Make<V>(slotCount: nat, itemCap: nat): (t: Table<V>)
    requires slotCount > 0
    ensures |t.slots| == slotCount && t.itemCount == 0 && t.itemCap == itemCap
    ensures Valid(t) && ListKeys(t) == []
  {
    var t := Table(seq(slotCount, _ => []), 0, itemCap);
    EmptyKeys(t.slots);
    t
  }

  /** `htable_insert(table, key, elem)`: the checks run in the order capacity,
      NULL value, key length; a new entry is put in front of its chain. A key
      already present is not looked for: the new entry shadows the old one. */
  function Insert<V>(t: Table<V>, key: string, elem: Option<V>): (r: Update<V>)
    requires |t.slots| > 0
    ensures t.itemCount >= t.itemCap ==> r == Update(Full, t)
    ensures t.itemCount < t.itemCap && elem.None? ==> r == Update(NullValue, t)
    ensures t.itemCount < t.itemCap && elem.Some? && |key| > MaxKeyLen ==> r == Update(KeyTooLong, t)
    ensures r.status != KeyAlreadyExists
    ensures r.status == Success <==> t.itemCount < t.itemCap && elem.Some? && |key| <= MaxKeyLen
    ensures r.status == Success ==>
              && |r.table.slots| == |t.slots|
              && r.table.slots[HashSlot(t, key)] == [Entry(key, elem.value)] + t.slots[HashSlot(t, key)]
              && (forall i :: 0 <= i < |t.slots| && i != HashSlot(t, key) ==> r.table.slots[i] == t.slots[i])
              && r.table.itemCount == t.itemCount + 1
              && r.table.itemCap == t.itemCap
  {
    if t.itemCount >= t.itemCap then Update(Full, t)
    else if elem.None? then Update(NullValue, t)
    else match StrClone(key, MaxKeyLen)
      case None => Update(KeyTooLong, t)
      case Some(slotKey) =>
        var h := HashSlot(t, key);
        Update(Success, Table(t.slots[h := [Entry(slotKey, elem.value)] + t.slots[h]],
                              t.itemCount + 1, t.itemCap))
  }

  /** `find_entry(table, key)`: the first matching entry of the key's chain. */
  function FindEntry<V>(t: Table<V>, key: string): (r: Option<Entry<V>>)
    requires |t.slots| > 0
    ensures r.Some? <==> FindIn(t.slots[HashSlot(t, key)], key).Some?
    ensures r.Some? ==> r.value == t.slots[HashSlot(t, key)][FindIn(t.slots[HashSlot(t, key)], key).value]
  {
    var chain := t.slots[HashSlot(t, key)];
    match FindIn(chain, key)
    case None => None
    case Some(j) => Some(chain[j])
  }

  /** `htable_contains(table, key)`: its own walk of the key's chain. */
  function Contains<V>(t: Table<V>, key: string): (b: bool)
    requires |t.slots| > 0
    ensures b <==> exists j :: 0 <= j < |t.slots[HashSlot(t, key)]| && Matches(t.slots[HashSlot(t, key)][j], key)
  {
    FindIn(t.slots[HashSlot(t, key)], key).Some?
  }

  /** `htable_fetch(table, key, &output)` */
  function Fetch<V>(t: Table<V>, key: string): (r: Fetched<V>)
    requires |t.slots| > 0
    ensures r.status == Success || r.status == KeyNotFound
    ensures r.status == Success <==> r.output.Some?
    ensures r.status == Success <==> Contains(t, key)
    ensures r.output.Some? ==> r.output == Some(FindEntry(t, key).value.value)
  {
    match FindEntry(t, key)
    case Some(e) => Fetched(Success, Some(e.value))
    case None => Fetched(KeyNotFound, None)
  }

  /** `htable_remove(table, key)` as its comment and the item counter intend:
      the first matching entry is unlinked from its chain, the cleanup function
      runs on its value, and the counter goes down by one (wrapping like a
      `size_t`). The code as written is `RemoveAsWritten`. */
  function Remove<V>(t: Table<V>, key: string): (r: Removed<V>)
    requires |t.slots| > 0
    ensures !Contains(t, key) ==> r == Removed(KeyNotFound, t, None)
    ensures r.status == Success <==> Contains(t, key)
    ensures r.status == Success ==>
              var h := HashSlot(t, key);
              var j := FindIn(t.slots[h], key).value;
              && r.table.slots == t.slots[h := t.slots[h][..j] + t.slots[h][j + 1..]]
              && r.released == Fetch(t, key).output
              && r.table.itemCap == t.itemCap
              && (t.itemCount > 0 ==> r.table.itemCount == t.itemCount - 1)
  {
    var h := HashSlot(t, key);
    match FindIn(t.slots[h], key)
    case None => Removed(KeyNotFound, t, None)
    case Some(j) =>
      var count := if t.itemCount == 0 then SizeMax else t.itemCount - 1;
      Removed(Success, Table(t.slots[h := t.slots[h][..j] + t.slots[h][j + 1..]], count, t.itemCap),
              Some(t.slots[h][j].value))
  }

  /** `htable_remove` as written: when the match is the head of its chain the
      code advances a local pointer instead of `table->slots[slot_id]`, so the
      chain is left as it was while the counter still goes down. (Which node it
      then releases is not modelled.) */
  function RemoveAsWritten<V>(t: Table<V>, key: string): (r: Update<V>)
    requires |t.slots| > 0
    ensures r.status == Success <==> Contains(t, key)
    ensures FindIn(t.slots[HashSlot(t, key)], key) == Some(0) ==> r.table.slots == t.slots
  {
    var h := HashSlot(t, key);
    match FindIn(t.slots[h], key)
    case None => Update(KeyNotFound, t)
    case Some(j) =>
      var count := if t.itemCount == 0 then SizeMax else t.itemCount - 1;
      var slots := if j == 0 then t.slots else t.slots[h := t.slots[h][..j] + t.slots[h][j + 1..]];
      Update(Success, Table(slots, count, t.itemCap))
  }

  /** A change made through the address `fetch` hands out: the entry `fetch`
      finds now holds `v`; with no such entry nothing changes. (The URI parser
      pushes into the value array it fetched this way.) */
  function SetFound<V>(t: Table<V>, key: string, v: V): (r: Table<V>)
    requires |t.slots| > 0
    ensures |r.slots| == |t.slots| && r.itemCount == t.itemCount && r.itemCap == t.itemCap
    ensures Contains(t, key) ==> Fetch(r, key) == Fetched(Success, Some(v))
    ensures !Contains(t, key) ==> r == t
  {
    var h := HashSlot(t, key);
    match FindIn(t.slots[h], key)
    case None => t
    case Some(j) =>
      var r := t.(slots := t.slots[h := t.slots[h][j := Entry(t.slots[h][j].key, v)]]);
      FindInSameKeys(t.slots[h], r.slots[h], key);
      r
  }

  /** `htable_list_keys(table, &output)` without its NULL terminator. */
  function ListKeys<V>(t: Table<V>): seq<string> {
    KeysOf(t.slots)
  }

  /** The abstract map: every stored key with the value `fetch` gives. */
  ghost function View<V>(t: Table<V>): map<string, V>
    requires |t.slots| > 0
  {
    map k | k in ListKeys(t) && Fetch(t, k).output.Some? :: Fetch(t, k).output.value
  }

  /** No key is stored twice (the tables the response builder fills). */
  ghost predicate Unique<V>(t: Table<V>) {
    forall k :: multiset(ListKeys(t))[k] <= 1
  }

  // ---------------------------------------------------------------------
  // Structure lemmas
  // ---------------------------------------------------------------------

  lemma {:induction false} EmptyKeys<V>(slots: seq<Chain<V>>)
    requires forall i :: 0 <= i < |slots| ==> slots[i] == []
    ensures KeysOf(slots) == [] && Size(slots) == 0
  {
    if slots != [] {
      EmptyKeys(slots[1..]);
    }
  }

  /** `list_keys` yields exactly as many keys as there are entries. */
  lemma {:induction false} KeysOfLength<V>(slots: seq<Chain<V>>)
    ensures |KeysOf(slots)| == Size(slots)
  {
    if slots != [] {
      KeysOfLength(slots[1..]);
    }
  }

  /** A key is listed exactly when some entry carries it. */
  lemma {:induction false} InKeysOf<V>(slots: seq<Chain<V>>, k: string)
    ensures k in KeysOf(slots) <==> Stored(slots, k)
  {
    if slots != [] {
      InKeysOf(slots[1..], k);
      var head := ChainKeys(slots[0]);
      if k in head {
        var j :| 0 <= j < |head| && head[j] == k;
        assert HasKeyAt(slots, 0, j, k);
      }
      if k in KeysOf(slots[1..]) {
        var i, j :| HasKeyAt(slots[1..], i, j, k);
        assert HasKeyAt(slots, i + 1, j, k);
      }
      if Stored(slots, k) {
        var i, j :| HasKeyAt(slots, i, j, k);
        if i == 0 {
          assert head[j] == k;
        } else {
          assert HasKeyAt(slots[1..], i - 1, j, k);
        }
      }
    }
  }

  /** Replacing one chain changes the entry count by the difference. */
  lemma {:induction false} SizeUpdate<V>(slots: seq<Chain<V>>, i: nat, c: Chain<V>)
    requires i < |slots|
    ensures Size(slots[i := c]) == Size(slots) - |slots[i]| + |c|
  {
    if i > 0 {
      assert slots[i := c][1..] == slots[1..][i - 1 := c];
      SizeUpdate(slots[1..], i - 1, c);
    }
  }

  /** `list_keys` returns exactly `item_count` keys. */
  lemma ListKeysCount<V>(t: Table<V>)
    requires Valid(t)
    ensures |ListKeys(t)| == t.itemCount
  {
    KeysOfLength(t.slots);
  }

  /** In a valid table a fetch succeeds exactly for the stored keys, and the
      keys of `View` are exactly the listed keys. */
  lemma FetchStored<V>(t: Table<V>, k: string)
    requires Valid(t)
    ensures |k| <= MaxKeyLen ==> (Fetch(t, k).output.Some? <==> k in ListKeys(t))
    ensures k in ListKeys(t) ==> |k| <= MaxKeyLen && k in View(t)
  {
    InKeysOf(t.slots, k);
    var h := HashSlot(t, k);
    if k in ListKeys(t) {
      var i, j :| HasKeyAt(t.slots, i, j, k);
      assert WellPlaced(t.slots[i][j], i, |t.slots|);
      assert Matches(t.slots[h][j], k);
    }
    if |k| <= MaxKeyLen && Fetch(t, k).output.Some? {
      var j := FindIn(t.slots[h], k).value;
      assert WellPlaced(t.slots[h][j], h, |t.slots|);
      EqualUpToShort(k, t.slots[h][j].key, MaxKeyLen);
      assert HasKeyAt(t.slots, h, j, k);
    }
  }

  /** `fetch` and `View` agree on every key `insert` accepts. */
  lemma FetchView<V>(t: Table<V>, k: string)
    requires Valid(t) && |k| <= MaxKeyLen
    ensures Fetch(t, k).output == (if k in View(t) then Some(View(t)[k]) else None)
  {
    FetchStored(t, k);
  }

  /** `View`'s keys are the listed keys. */
  lemma ViewKeys<V>(t: Table<V>)
    requires Valid(t)
    ensures View(t).Keys == set k | k in ListKeys(t)
  {
    forall k | k in ListKeys(t) {
      FetchStored(t, k);
    }
  }

  // ---------------------------------------------------------------------
  // Listing after a chain changes
  // ---------------------------------------------------------------------

  lemma ChainKeysPrepend<V>(e: Entry<V>, c: Chain<V>)
    ensures multiset(ChainKeys([e] + c)) == multiset{e.key} + multiset(ChainKeys(c))
  {
    assert ChainKeys([e] + c) == [e.key] + ChainKeys(c);
  }

  lemma ChainKeysDrop<V>(c: Chain<V>, j: nat)
    requires j < |c|
    ensures multiset(ChainKeys(c)) == multiset(ChainKeys(c[..j] + c[j + 1..])) + multiset{c[j].key}
  {
    var ks := ChainKeys(c);
    assert ChainKeys(c[..j] + c[j + 1..]) == ks[..j] + ks[j + 1..];
    assert ks == ks[..j] + [ks[j]] + ks[j + 1..];
  }

  /** Replacing the chain of one slot swaps that chain's keys in the listing. */
  lemma {:induction false} KeysReplaceChain<V>(slots: seq<Chain<V>>, h: nat, c: Chain<V>)
    requires h < |slots|
    ensures multiset(ChainKeys(slots[h])) <= multiset(KeysOf(slots))
    ensures multiset(KeysOf(slots[h := c])) ==
              multiset(KeysOf(slots)) - multiset(ChainKeys(slots[h])) + multiset(ChainKeys(c))
  {
    var s' := slots[h := c];
    KeysOfFirst(slots);
    KeysOfFirst(s');
    if h == 0 {
      assert s'[1..] == slots[1..];
      SwapPart(multiset{}, multiset(ChainKeys(slots[0])), multiset(KeysOf(slots[1..])), multiset(ChainKeys(c)));
    } else {
      assert s'[1..] == slots[1..][h - 1 := c];
      KeysReplaceChain(slots[1..], h - 1, c);
      SwapPart(multiset(ChainKeys(slots[0])), multiset(ChainKeys(slots[h])),
               multiset(KeysOf(slots[1..])), multiset(ChainKeys(c)));
    }
  }

  /** The listing's keys split into the first chain's and the rest's. */
  lemma KeysOfFirst<V>(slots: seq<Chain<V>>)
    requires |slots| > 0
    ensures multiset(KeysOf(slots)) == multiset(ChainKeys(slots[0])) + multiset(KeysOf(slots[1..]))
  {
  }

  /** Multiset bookkeeping for swapping a part `a` of `h + r` for `c`. */
  lemma SwapPart<T>(h: multiset<T>, a: multiset<T>, r: multiset<T>, c: multiset<T>)
    ensures h == multiset{} ==> a <= a + r && c + r == a + r - a + c
    ensures a <= r ==> a <= h + r && h + (r - a + c) == h + r - a + c
  {
  }

  // ---------------------------------------------------------------------
  // Insert
  // ---------------------------------------------------------------------

  /** A successful insert keeps the table valid. */
  lemma InsertValid<V>(t: Table<V>, key: string, elem: Option<V>)
    requires Valid(t) && Insert(t, key, elem).status == Success
    ensures Valid(Insert(t, key, elem).table)
  {
    var t' := Insert(t, key, elem).table;
    var h := HashSlot(t, key);
    SizeUpdate(t.slots, h, t'.slots[h]);
    forall i, j | 0 <= i < |t'.slots| && 0 <= j < |t'.slots[i]|
      ensures WellPlaced(t'.slots[i][j], i, |t'.slots|)
    {
      if i == h && j > 0 {
        assert t'.slots[i][j] == t.slots[i][j - 1];
      }
    }
  }

  /** A successful insert lists the new key once more and nothing else. */
  lemma InsertKeys<V>(t: Table<V>, key: string, elem: Option<V>)
    requires |t.slots| > 0 && Insert(t, key, elem).status == Success
    ensures multiset(ListKeys(Insert(t, key, elem).table)) == multiset(ListKeys(t)) + multiset{key}
  {
    var h := HashSlot(t, key);
    var e := Entry(key, elem.value);
    KeysReplaceChain(t.slots, h, [e] + t.slots[h]);
    ChainKeysPrepend(e, t.slots[h]);
  }

  /** A non-matching head shifts the first match by one. */
  lemma FindInCons<V>(e: Entry<V>, c: Chain<V>, k: string)
    requires !Matches(e, k)
    ensures FindIn([e] + c, k) == (match FindIn(c, k) case None => None case Some(j) => Some(j + 1))
  {
    assert ([e] + c)[1..] == c;
  }

  /** Inserting a key leaves every other key's fetch as it was. */
  lemma FetchAfterInsert<V>(t: Table<V>, key: string, v: V, other: string)
    requires |t.slots| > 0 && Insert(t, key, Some(v)).status == Success
    requires |other| <= MaxKeyLen && other != key
    ensures Fetch(Insert(t, key, Some(v)).table, other) == Fetch(t, other)
  {
    var t' := Insert(t, key, Some(v)).table;
    var h := HashSlot(t, key);
    if HashSlot(t, other) == h {
      EqualUpToShort(other, key, MaxKeyLen);
      assert t'.slots[h] == [Entry(key, v)] + t.slots[h];
      FindInCons(Entry(key, v), t.slots[h], other);
    } else {
      assert t'.slots[HashSlot(t, other)] == t.slots[HashSlot(t, other)];
    }
  }

  /** The key just inserted fetches the new value. */
  lemma FetchInserted<V>(t: Table<V>, key: string, v: V)
    requires |t.slots| > 0 && Insert(t, key, Some(v)).status == Success
    ensures Fetch(Insert(t, key, Some(v)).table, key) == Fetched(Success, Some(v))
  {
    var t' := Insert(t, key, Some(v)).table;
    assert Matches(t'.slots[HashSlot(t, key)][0], key);
  }

  /** In a valid table `View` holds the listed keys, each with its fetch. */
  lemma ViewAt<V>(t: Table<V>, k: string)
    requires Valid(t)
    ensures k in View(t) <==> k in ListKeys(t)
    ensures k in View(t) ==> Fetch(t, k).output == Some(View(t)[k])
  {
    FetchStored(t, k);
  }

  lemma InsertViewKeys<V>(t: Table<V>, key: string, v: V, k: string)
    requires Valid(t) && Insert(t, key, Some(v)).status == Success
    ensures Valid(Insert(t, key, Some(v)).table)
    ensures k in View(Insert(t, key, Some(v)).table) <==> k == key || k in View(t)
  {
    var t' := Insert(t, key, Some(v)).table;
    InsertValid(t, key, Some(v));
    InsertKeys(t, key, Some(v));
    ViewAt(t, k);
    ViewAt(t', k);
    assert k in ListKeys(t') <==> multiset(ListKeys(t'))[k] > 0;
    assert k in ListKeys(t) <==> multiset(ListKeys(t))[k] > 0;
  }

  lemma InsertViewAt<V>(t: Table<V>, key: string, v: V, k: string)
    requires Valid(t) && Insert(t, key, Some(v)).status == Success
    ensures k in View(Insert(t, key, Some(v)).table) <==> k in View(t)[key := v]
    ensures k in View(t)[key := v] ==> View(Insert(t, key, Some(v)).table)[k] == View(t)[key := v][k]
  {
    var t' := Insert(t, key, Some(v)).table;
    InsertViewKeys(t, key, v, k);
    ViewAt(t', k);
    if k == key {
      FetchInserted(t, key, v);
    } else if k in View(t) {
      ViewAt(t, k);
      FetchStored(t, k);
      FetchAfterInsert(t, key, v, k);
    }
  }

  /** Insert refines the map update: a successful `insert(k, v)` makes `View`
      map `k` to `v` and leaves every other key as it was. */
  lemma InsertView<V>(t: Table<V>, key: string, v: V)
    requires Valid(t) && Insert(t, key, Some(v)).status == Success
    ensures Valid(Insert(t, key, Some(v)).table)
    ensures View(Insert(t, key, Some(v)).table) == View(t)[key := v]
  {
    InsertValid(t, key, Some(v));
    forall k {
      InsertViewAt(t, key, v, k);
    }
  }

  /** Inserting a key nobody stores keeps the keys distinct. */
  lemma InsertUnique<V>(t: Table<V>, key: string, v: V)
    requires Valid(t) && Unique(t) && key !in View(t)
    requires Insert(t, key, Some(v)).status == Success
    ensures Unique(Insert(t, key, Some(v)).table)
  {
    ViewKeys(t);
    InsertKeys(t, key, Some(v));
  }

  // ---------------------------------------------------------------------
  // Remove
  // ---------------------------------------------------------------------

  /** A successful remove keeps the table valid. */
  lemma RemoveValid<V>(t: Table<V>, key: string)
    requires Valid(t) && Remove(t, key).status == Success
    ensures Valid(Remove(t, key).table)
  {
    var t' := Remove(t, key).table;
    var h := HashSlot(t, key);
    var j := FindIn(t.slots[h], key).value;
    SizeUpdate(t.slots, h, t'.slots[h]);
    forall i, m | 0 <= i < |t'.slots| && 0 <= m < |t'.slots[i]|
      ensures WellPlaced(t'.slots[i][m], i, |t'.slots|)
    {
      if i == h {
        if m < j {
          assert t'.slots[i][m] == t.slots[i][m];
        } else {
          assert t'.slots[i][m] == t.slots[i][m + 1];
        }
      }
    }
  }

  /** In a valid table a key within the length bound matches only entries
      carrying exactly that key. */
  lemma MatchIsKey<V>(t: Table<V>, key: string, j: nat)
    requires Valid(t) && |key| <= MaxKeyLen
    requires j < |t.slots[HashSlot(t, key)]| && Matches(t.slots[HashSlot(t, key)][j], key)
    ensures t.slots[HashSlot(t, key)][j].key == key
  {
    var h := HashSlot(t, key);
    assert WellPlaced(t.slots[h][j], h, |t.slots|);
    EqualUpToShort(key, t.slots[h][j].key, MaxKeyLen);
  }

  /** A successful remove lists the removed key once less. */
  lemma RemoveKeys<V>(t: Table<V>, key: string)
    requires Valid(t) && |key| <= MaxKeyLen && Remove(t, key).status == Success
    ensures multiset(ListKeys(Remove(t, key).table)) == multiset(ListKeys(t)) - multiset{key}
  {
    var h := HashSlot(t, key);
    var c := t.slots[h];
    var j := FindIn(c, key).value;
    MatchIsKey(t, key, j);
    KeysReplaceChain(t.slots, h, c[..j] + c[j + 1..]);
    ChainKeysDrop(c, j);
  }

  /** Dropping an entry that does not match leaves the first match's value. */
  lemma ChainRemoveOther<V>(c: Chain<V>, j: nat, k: string)
    requires j < |c| && !Matches(c[j], k)
    ensures var c' := c[..j] + c[j + 1..];
            (FindIn(c', k).Some? <==> FindIn(c, k).Some?)
            && (FindIn(c, k).Some? ==> c'[FindIn(c', k).value].value == c[FindIn(c, k).value].value)
  {
    var c' := c[..j] + c[j + 1..];
    forall m | 0 <= m < |c'|
      ensures c'[m] == c[if m < j then m else m + 1]
    {
    }
    match FindIn(c, k)
    case None =>
    case Some(i) =>
      var i' := if i < j then i else i - 1;
      assert c'[i'] == c[i];
      FindInFirst(c', k, i');
  }

  /** The first matching position is the one `FindIn` reports. */
  lemma {:induction false} FindInFirst<V>(c: Chain<V>, k: string, i: nat)
    requires i < |c| && Matches(c[i], k)
    requires forall m :: 0 <= m < i ==> !Matches(c[m], k)
    ensures FindIn(c, k) == Some(i)
  {
    if i > 0 {
      FindInFirst(c[1..], k, i - 1);
    }
  }

  /** Removing a key leaves every other key's fetch as it was. */
  lemma FetchAfterRemove<V>(t: Table<V>, key: string, other: string)
    requires Valid(t) && Remove(t, key).status == Success
    requires |key| <= MaxKeyLen && |other| <= MaxKeyLen && other != key
    ensures Fetch(Remove(t, key).table, other) == Fetch(t, other)
  {
    var h := HashSlot(t, key);
    if HashSlot(t, other) == h {
      var c := t.slots[h];
      var j := FindIn(c, key).value;
      MatchIsKey(t, key, j);
      EqualUpToShort(other, key, MaxKeyLen);
      ChainRemoveOther(c, j, other);
    }
  }

  lemma RemoveViewAt<V>(t: Table<V>, key: string, k: string)
    requires Valid(t) && Unique(t) && |key| <= MaxKeyLen && key in View(t)
    ensures Remove(t, key).status == Success && Valid(Remove(t, key).table)
    ensures k in View(Remove(t, key).table) <==> k in View(t) - {key}
    ensures k in View(t) - {key} ==> View(Remove(t, key).table)[k] == View(t)[k]
  {
    FetchView(t, key);
    var t' := Remove(t, key).table;
    RemoveValid(t, key);
    RemoveKeys(t, key);
    ViewAt(t, key);
    ViewAt(t, k);
    ViewAt(t', k);
    assert multiset(ListKeys(t))[key] == 1;
    assert k in ListKeys(t') <==> multiset(ListKeys(t'))[k] > 0;
    assert k in ListKeys(t) <==> multiset(ListKeys(t))[k] > 0;
    if k in View(t) && k != key {
      FetchStored(t, k);
      FetchAfterRemove(t, key, k);
    }
  }

  /** Remove refines map deletion on a table without duplicate keys (the only
      kind `insert` builds when callers check `contains` first). */
  lemma RemoveView<V>(t: Table<V>, key: string)
    requires Valid(t) && Unique(t) && |key| <= MaxKeyLen && key in View(t)
    ensures Remove(t, key).status == Success && Remove(t, key).released == Some(View(t)[key])
    ensures Valid(Remove(t, key).table)
    ensures View(Remove(t, key).table) == View(t) - {key}
  {
    FetchView(t, key);
    RemoveValid(t, key);
    forall k {
      RemoveViewAt(t, key, k);
    }
  }

  /** Removing keeps the keys distinct. */
  lemma RemoveUnique<V>(t: Table<V>, key: string)
    requires Valid(t) && Unique(t) && |key| <= MaxKeyLen && Remove(t, key).status == Success
    ensures Unique(Remove(t, key).table)
  {
    RemoveKeys(t, key);
  }

  /** Insert then remove of the same key is the identity: `remove` undoes
      `insert`, giving back the inserted value. */
  lemma RemoveUndoesInsert<V>(t: Table<V>, key: string, v: V)
    requires |t.slots| > 0 && Insert(t, key, Some(v)).status == Success
    ensures Remove(Insert(t, key, Some(v)).table, key) == Removed(Success, t, Some(v))
  {
    var t' := Insert(t, key, Some(v)).table;
    var h := HashSlot(t, key);
    assert HashSlot(t', key) == h;
    assert Matches(t'.slots[h][0], key);
    assert t'.slots[h][..0] + t'.slots[h][1..] == t.slots[h];
    assert t'.slots[h := t.slots[h]] == t.slots;
  }

  /** The as-written remove misses the head of a chain: a key just inserted is
      reported removed, yet it can still be fetched, and the item counter no
      longer matches the entries that `list_keys` writes. */
  lemma RemoveAsWrittenKeepsHead<V>(t: Table<V>, key: string, v: V)
    requires Valid(t) && Insert(t, key, Some(v)).status == Success
    ensures var t1 := Insert(t, key, Some(v)).table;
            var r := RemoveAsWritten(t1, key);
            && r.status == Success
            && Fetch(r.table, key) == Fetched(Success, Some(v))
            && |ListKeys(r.table)| == r.table.itemCount + 1
  {
    var t1 := Insert(t, key, Some(v)).table;
    InsertValid(t, key, Some(v));
    var h := HashSlot(t1, key);
    assert Matches(t1.slots[h][0], key);
    assert FindIn(t1.slots[h], key) == Some(0);
    ListKeysCount(t1);
    KeysOfLength(t1.slots);
  }

  // ---------------------------------------------------------------------
  // Writing through a fetched pointer
  // ---------------------------------------------------------------------

  /** Which entry matches depends on the keys alone. */
  lemma {:induction false} FindInSameKeys<V>(c: Chain<V>, d: Chain<V>, k: string)
    requires |c| == |d| && forall i :: 0 <= i < |c| ==> c[i].key == d[i].key
    ensures FindIn(c, k) == FindIn(d, k)
  {
    if c != [] {
      FindInSameKeys(c[1..], d[1..], k);
    }
  }

  lemma SetFoundValid<V>(t: Table<V>, key: string, v: V)
    requires Valid(t)
    ensures Valid(SetFound(t, key, v))
    ensures ListKeys(SetFound(t, key, v)) == ListKeys(t)
  {
    var r := SetFound(t, key, v);
    var h := HashSlot(t, key);
    if FindIn(t.slots[h], key).Some? {
      assert ChainKeys(r.slots[h]) == ChainKeys(t.slots[h]);
      assert r.slots == t.slots[h := r.slots[h]];
      KeysReplaceSame(t.slots, h, r.slots[h]);
      SizeUpdate(t.slots, h, r.slots[h]);
      forall i, m | 0 <= i < |r.slots| && 0 <= m < |r.slots[i]|
        ensures WellPlaced(r.slots[i][m], i, |r.slots|)
      {
        assert r.slots[i][m].key == t.slots[i][m].key;
      }
    }
  }

  /** A chain with the same keys leaves the listing unchanged. */
  lemma {:induction false} KeysReplaceSame<V>(slots: seq<Chain<V>>, h: nat, c: Chain<V>)
    requires h < |slots| && ChainKeys(c) == ChainKeys(slots[h])
    ensures KeysOf(slots[h := c]) == KeysOf(slots)
  {
    if h > 0 {
      assert slots[h := c][1..] == slots[1..][h - 1 := c];
      KeysReplaceSame(slots[1..], h - 1, c);
    }
  }

  /** Writing through the address fetched for `key` leaves every other key's
      fetch as it was. */
  lemma FetchAfterSetFound<V>(t: Table<V>, key: string, v: V, other: string)
    requires Valid(t) && |key| <= MaxKeyLen && |other| <= MaxKeyLen && other != key
    ensures Fetch(SetFound(t, key, v), other) == Fetch(t, other)
  {
    var r := SetFound(t, key, v);
    var h := HashSlot(t, key);
    var ho := HashSlot(t, other);
    if FindIn(t.slots[h], key).Some? {
      var j := FindIn(t.slots[h], key).value;
      assert r.slots == t.slots[h := t.slots[h][j := Entry(t.slots[h][j].key, v)]];
      if ho == h {
        MatchIsKey(t, key, j);
        FindInSameKeys(t.slots[h], r.slots[h], other);
        if FindIn(t.slots[h], other) == Some(j) {
          MatchIsKey(t, other, j);
          assert false;
        }
      }
      FetchSameFind(t, r, other);
    }
  }

  /** Two tables of one size fetch the same for `k` when the search in
      `k`'s chain ends at the same entry. */
  lemma FetchSameFind<V>(t: Table<V>, r: Table<V>, k: string)
    requires |t.slots| == |r.slots| > 0
    requires FindIn(r.slots[HashSlot(t, k)], k) == FindIn(t.slots[HashSlot(t, k)], k)
    requires FindIn(t.slots[HashSlot(t, k)], k).Some? ==>
               var j := FindIn(t.slots[HashSlot(t, k)], k).value;
               j < |r.slots[HashSlot(t, k)]| && r.slots[HashSlot(t, k)][j] == t.slots[HashSlot(t, k)][j]
    ensures Fetch(r, k) == Fetch(t, k)
  {
    assert HashSlot(r, k) == HashSlot(t, k);
  }

  lemma SetFoundViewAt<V>(t: Table<V>, key: string, v: V, k: string)
    requires Valid(t) && |key| <= MaxKeyLen && key in View(t)
    ensures Valid(SetFound(t, key, v))
    ensures k in View(SetFound(t, key, v)) <==> k in View(t)[key := v]
    ensures k in View(t)[key := v] ==> View(SetFound(t, key, v))[k] == View(t)[key := v][k]
  {
    var r := SetFound(t, key, v);
    FetchView(t, key);
    SetFoundValid(t, key, v);
    ViewAt(t, k);
    ViewAt(r, k);
    if k != key && k in View(t) {
      FetchStored(t, k);
      FetchAfterSetFound(t, key, v, k);
    }
  }

  /** Writing through the fetched pointer is a map update of `View`. */
  lemma SetFoundView<V>(t: Table<V>, key: string, v: V)
    requires Valid(t) && |key| <= MaxKeyLen && key in View(t)
    ensures Valid(SetFound(t, key, v))
    ensures View(SetFound(t, key, v)) == View(t)[key := v]
  {
    SetFoundValid(t, key, v);
    var after, expected := View(SetFound(t, key, v)), View(t)[key := v];
    forall k
      ensures k in after <==> k in expected
      ensures k in expected ==> after[k] == expected[k]
    {
      SetFoundViewAt(t, key, v, k);
    }
    SameMap(after, expected);
  }

  lemma SameMap<K, V>(a: map<K, V>, b: map<K, V>)
    requires forall k :: k in a <==> k in b
    requires forall k :: k in b ==> a[k] == b[k]
    ensures a == b
  {
  }

  /** A table whose keys are distinct maps exactly `item_count` keys. */
  lemma ViewCount<V>(t: Table<V>)
    requires Valid(t) && Unique(t)
    ensures |View(t)| == t.itemCount
  {
    ViewKeys(t);
    ListKeysCount(t);
    DistinctCard(ListKeys(t));
    assert View(t).Keys == set k | k in ListKeys(t);
  }

  /** A sequence without repeats has as many distinct elements as entries. */
  lemma {:induction false} DistinctCard(s: seq<string>)
    requires forall k :: multiset(s)[k] <= 1
    ensures |set k | k in s| == |s|
  {
    if s != [] {
      var rest := s[1..];
      assert s == [s[0]] + rest;
      assert multiset(s) == multiset{s[0]} + multiset(rest);
      forall k ensures multiset(rest)[k] <= 1 {
        assert multiset(rest)[k] <= multiset(s)[k];
      }
      DistinctCard(rest);
      assert multiset(rest)[s[0]] == 0 by {
        assert multiset(s)[s[0]] == 1 + multiset(rest)[s[0]];
      }
      assert (set k | k in s) == {s[0]} + (set k | k in rest);
    }
  }

  // ---------------------------------------------------------------------
  // Properties of every stored value
  // ---------------------------------------------------------------------

  /** Every value stored in the table satisfies `p`. */
  predicate AllValues<V>(t: Table<V>, p: V -> bool) {
    forall i, j :: 0 <= i < |t.slots| && 0 <= j < |t.slots[i]| ==> p(t.slots[i][j].value)
  }

  /** What `fetch` hands out is one of the stored values. */
  lemma FetchAllValues<V>(t: Table<V>, key: string, p: V -> bool)
    requires |t.slots| > 0 && AllValues(t, p) && Fetch(t, key).output.Some?
    ensures p(Fetch(t, key).output.value)
  {
  }

  lemma InsertAllValues<V>(t: Table<V>, key: string, v: V, p: V -> bool)
    requires |t.slots| > 0 && AllValues(t, p) && p(v) && Insert(t, key, Some(v)).status == Success
    ensures AllValues(Insert(t, key, Some(v)).table, p)
  {
    var r := Insert(t, key, Some(v)).table;
    var h := HashSlot(t, key);
    forall i, j | 0 <= i < |r.slots| && 0 <= j < |r.slots[i]|
      ensures p(r.slots[i][j].value)
    {
      if i == h && j > 0 {
        assert r.slots[i][j] == t.slots[i][j - 1];
      }
    }
  }

  lemma SetFoundAllValues<V>(t: Table<V>, key: string, v: V, p: V -> bool)
    requires |t.slots| > 0 && AllValues(t, p) && p(v)
    ensures AllValues(SetFound(t, key, v), p)
  {
  }
}
