/**
 * `htable_append_table` (datastruct/htable.c): copying every entry of one
 * chained table into another, under one of three policies for keys both
 * tables hold. The response builder merges the caller's headers into its own
 * table this way.
 */
module HTableAppend {
  import opened Strings
  import opened HTable

  /** `htable_append_mode_t`: on a shared key, keep the destination's value,
      replace it, or refuse the whole merge. */
  datatype AppendMode = Skip | Override | DupErr

  /** `src` restricted to the keys of `ks`. */
  ghost function Restrict<V>(m: map<string, V>, ks: seq<string>): map<string, V> {
    map k | k in ks && k in m :: m[k]
  }

  /** The DUPERR pre-check: some listed key is already in `dest`. */
  predicate AnyContained<V>(dest: Table<V>, keys: seq<string>)
    requires |dest.slots| > 0
  {
    exists i :: 0 <= i < |keys| && Contains(dest, keys[i])
  }

  /** One pass of the loop of `htable_append_table` for key `k`: fetch its
      value from `src`, remove it from `dest` first when overriding, skip it
      when skipping and `dest` has it, otherwise insert it. A failing step
      reports its status together with `dest` as far as it got. */
  function StepKey<V>(dest: Table<V>, src: Table<V>, k: string, mode: AppendMode): (r: Update<V>)
    requires |dest.slots| > 0 && |src.slots| > 0
    ensures |r.table.slots| == |dest.slots|
    ensures r.status == Success || r.status == KeyNotFound || r.status == Full || r.status == KeyTooLong
    ensures Fetch(src, k).output.None? ==> r == Update(KeyNotFound, dest)
  {
    match Fetch(src, k).output
    case None => Update(KeyNotFound, dest)
    case Some(value) =>
      var d1 := if mode == Override then Remove(dest, k).table else dest;
      if mode == Skip && Contains(d1, k) then Update(Success, d1)
      else Insert(d1, k, Some(value))
  }

  /** The loop over the remaining keys `ks`; the first failing step ends it. */
  function AppendKeys<V>(dest: Table<V>, src: Table<V>, ks: seq<string>, mode: AppendMode): (r: Update<V>)
    requires |dest.slots| > 0 && |src.slots| > 0
    ensures |r.table.slots| == |dest.slots|
    ensures r.status == Success || r.status == KeyNotFound || r.status == Full || r.status == KeyTooLong
    decreases |ks|
  {
    if ks == [] then Update(Success, dest)
    else
      var step := StepKey(dest, src, ks[0], mode);
      if step.status != Success then step
      else AppendKeys(step.table, src, ks[1..], mode)
  }

  /** `htable_append_table(dest, src, mode)`. */
  function AppendTable<V>(dest: Table<V>, src: Table<V>, mode: AppendMode): (r: Update<V>)
    requires |dest.slots| > 0 && |src.slots| > 0
    ensures mode == DupErr && AnyContained(dest, ListKeys(src)) ==> r == Update(KeyAlreadyExists, dest)
    ensures r.status == KeyAlreadyExists ==> mode == DupErr && r.table == dest
  {
    var keys := ListKeys(src);
    if mode == DupErr && AnyContained(dest, keys) then Update(KeyAlreadyExists, dest)
    else AppendKeys(dest, src, keys, mode)
  }

  // ---------------------------------------------------------------------
  // Facts about single steps
  // ---------------------------------------------------------------------

  /** An entry count is at least the length of any one chain. */
  lemma SizeCoversChain<V>(slots: seq<Chain<V>>, h: nat)
    requires h < |slots|
    ensures Size(slots) >= |slots[h]|
  {
    SizeUpdate(slots, h, []);
  }

  /** Removing one key leaves the other keys of `View` alone, duplicates or
      not. */
  lemma RemoveViewOther<V>(t: Table<V>, key: string, k: string)
    requires Valid(t) && |key| <= MaxKeyLen && k != key
    ensures Valid(Remove(t, key).table)
    ensures k in View(Remove(t, key).table) <==> k in View(t)
    ensures k in View(t) ==> View(Remove(t, key).table)[k] == View(t)[k]
  {
    var t' := Remove(t, key).table;
    if Remove(t, key).status == Success {
      RemoveValid(t, key);
      RemoveKeys(t, key);
      ViewAt(t, k);
      ViewAt(t', k);
      assert k in ListKeys(t') <==> multiset(ListKeys(t'))[k] > 0;
      assert k in ListKeys(t) <==> multiset(ListKeys(t))[k] > 0;
      if k in View(t) {
        FetchStored(t, k);
        FetchAfterRemove(t, key, k);
      }
    }
  }

  /** Removing a key and inserting it again is a map update, whatever `dest`
      held for it. */
  lemma ReplaceView<V>(t: Table<V>, key: string, v: V)
    requires Valid(t) && |key| <= MaxKeyLen
    requires Insert(Remove(t, key).table, key, Some(v)).status == Success
    ensures Valid(Insert(Remove(t, key).table, key, Some(v)).table)
    ensures View(Insert(Remove(t, key).table, key, Some(v)).table) == View(t)[key := v]
  {
    var t1 := Remove(t, key).table;
    if Remove(t, key).status == Success {
      RemoveValid(t, key);
    }
    InsertView(t1, key, v);
    forall k | k != key
      ensures k in View(t1) <==> k in View(t)
      ensures k in View(t) ==> View(t1)[k] == View(t)[k]
    {
      RemoveViewOther(t, key, k);
    }
    AgreeOffKey(View(t1), View(t), key, v);
  }

  /** Two maps that agree away from `key` agree once `key` is set in both. */
  lemma AgreeOffKey<K, V>(a: map<K, V>, b: map<K, V>, key: K, v: V)
    requires forall k :: k != key ==> (k in a <==> k in b)
    requires forall k :: k != key && k in b ==> a[k] == b[k]
    ensures a[key := v] == b[key := v]
  {
  }

  /** Every key `list_keys` gives for a valid table can be fetched, so the
      loop's KEY_NOT_FOUND exit is never taken. */
  lemma ListedFetches<V>(src: Table<V>, k: string)
    requires Valid(src) && k in ListKeys(src)
    ensures |k| <= MaxKeyLen && k in View(src)
    ensures Fetch(src, k).output == Some(View(src)[k])
  {
    FetchStored(src, k);
    ViewAt(src, k);
  }

  // ---------------------------------------------------------------------
  // The merge
  // ---------------------------------------------------------------------

  /** One step on a valid table with a listed key fails only when `dest` is
      full, and otherwise keeps the table valid and grows it by at most one
      entry. */
  lemma StepStatus<V>(dest: Table<V>, src: Table<V>, k: string, mode: AppendMode)
    requires Valid(dest) && Valid(src) && k in ListKeys(src)
    ensures var r := StepKey(dest, src, k, mode);
            && (r.status == Success || r.status == Full)
            && (dest.itemCount < dest.itemCap ==> r.status == Success)
            && (r.status == Success ==> Valid(r.table))
            && r.table.itemCount <= dest.itemCount + 1
            && r.table.itemCap == dest.itemCap
  {
    ListedFetches(src, k);
    var v := View(src)[k];
    var d1 := if mode == Override then Remove(dest, k).table else dest;
    assert Valid(d1) && d1.itemCount <= dest.itemCount by {
      if mode == Override && Remove(dest, k).status == Success {
        RemoveValid(dest, k);
        SizeCoversChain(dest.slots, HashSlot(dest, k));
      }
    }
    if !(mode == Skip && Contains(d1, k)) && Insert(d1, k, Some(v)).status == Success {
      InsertValid(d1, k, Some(v));
    }
  }

  /** A successful step updates `View` by the policy. */
  lemma StepView<V>(dest: Table<V>, src: Table<V>, k: string, mode: AppendMode)
    requires Valid(dest) && Valid(src) && k in ListKeys(src)
    requires StepKey(dest, src, k, mode).status == Success
    ensures k in View(src)
    ensures View(StepKey(dest, src, k, mode).table) == Stepped(View(dest), View(src), k, mode)
  {
    ListedFetches(src, k);
    var v := View(src)[k];
    FetchView(dest, k);
    StepMapped(dest, src, k, mode, v);
  }

  /** `StepView` for a key that `src` maps to `v`. */
  lemma StepMapped<V>(dest: Table<V>, src: Table<V>, k: string, mode: AppendMode, v: V)
    requires Valid(dest) && |src.slots| > 0 && |k| <= MaxKeyLen && Fetch(src, k).output == Some(v)
    requires StepKey(dest, src, k, mode).status == Success
    ensures mode == Override || !(mode == Skip && Contains(dest, k)) ==>
              View(StepKey(dest, src, k, mode).table) == View(dest)[k := v]
    ensures mode == Skip && Contains(dest, k) ==> View(StepKey(dest, src, k, mode).table) == View(dest)
  {
    StepKeyFetched(dest, src, k, mode, v);
    if mode == Override {
      ReplaceView(dest, k, v);
    } else if !(mode == Skip && Contains(dest, k)) {
      InsertView(dest, k, v);
    }
  }

  /** A step on a key `src` maps to `v`, policy by policy. */
  lemma StepKeyFetched<V>(dest: Table<V>, src: Table<V>, k: string, mode: AppendMode, v: V)
    requires |dest.slots| > 0 && |src.slots| > 0 && Fetch(src, k).output == Some(v)
    ensures mode == Override ==> StepKey(dest, src, k, mode) == Insert(Remove(dest, k).table, k, Some(v))
    ensures mode == Skip && Contains(dest, k) ==> StepKey(dest, src, k, mode) == Update(Success, dest)
    ensures mode != Override && !(mode == Skip && Contains(dest, k)) ==>
              StepKey(dest, src, k, mode) == Insert(dest, k, Some(v))
  {
  }

  /** The loop only ever stops early because `dest` is full, and it does not
      stop when `dest` has room for every key. */
  lemma {:induction false} AppendKeysStatus<V>(dest: Table<V>, src: Table<V>, ks: seq<string>, mode: AppendMode)
    requires Valid(dest) && Valid(src)
    requires forall i :: 0 <= i < |ks| ==> ks[i] in ListKeys(src)
    ensures var r := AppendKeys(dest, src, ks, mode);
            && (r.status == Success || r.status == Full)
            && (dest.itemCount + |ks| <= dest.itemCap ==> r.status == Success)
            && (r.status == Success ==> Valid(r.table))
    decreases |ks|
  {
    if ks != [] {
      assert ks[0] in ListKeys(src);
      StepStatus(dest, src, ks[0], mode);
      var step := StepKey(dest, src, ks[0], mode);
      if step.status == Success {
        TailListed(src, ks);
        AppendKeysStatus(step.table, src, ks[1..], mode);
      }
    }
  }

  lemma TailListed<V>(src: Table<V>, ks: seq<string>)
    requires |ks| > 0 && forall i :: 0 <= i < |ks| ==> ks[i] in ListKeys(src)
    ensures forall i :: 0 <= i < |ks[1..]| ==> ks[1..][i] in ListKeys(src)
  {
    forall i | 0 <= i < |ks[1..]| ensures ks[1..][i] in ListKeys(src) {
      assert ks[1..][i] == ks[i + 1];
    }
  }

  /** When the loop finishes, `dest`'s view is the two views merged with the
      policy's winner: `dest` for SKIP, `src` for OVERRIDE and DUPERR. */
  lemma {:induction false} AppendKeysView<V>(dest: Table<V>, src: Table<V>, ks: seq<string>, mode: AppendMode)
    requires Valid(dest) && Valid(src)
    requires forall i :: 0 <= i < |ks| ==> ks[i] in ListKeys(src)
    requires AppendKeys(dest, src, ks, mode).status == Success
    ensures View(AppendKeys(dest, src, ks, mode).table) == Merged(View(dest), View(src), ks, mode)
    decreases |ks|
  {
    if ks != [] {
      assert ks[0] in ListKeys(src);
      StepStatus(dest, src, ks[0], mode);
      StepView(dest, src, ks[0], mode);
      var step := StepKey(dest, src, ks[0], mode);
      TailListed(src, ks);
      AppendKeysView(step.table, src, ks[1..], mode);
      MergedStep(View(dest), View(src), ks, mode);
    }
  }

  /** The policy's merge of `d` with the part of `s` that `ks` lists. */
  ghost function Merged<V>(d: map<string, V>, s: map<string, V>, ks: seq<string>, mode: AppendMode): map<string, V> {
    if mode == Skip then Restrict(s, ks) + d else d + Restrict(s, ks)
  }

  /** What one step does to the view of `d` for key `k` with `s`'s value. */
  ghost function Stepped<V>(d: map<string, V>, s: map<string, V>, k: string, mode: AppendMode): map<string, V>
    requires k in s
  {
    if mode == Skip && k in d then d else d[k := s[k]]
  }

  /** The merge unrolled by one key. */
  lemma MergedStep<V>(d: map<string, V>, s: map<string, V>, ks: seq<string>, mode: AppendMode)
    requires |ks| > 0 && ks[0] in s
    ensures Merged(Stepped(d, s, ks[0], mode), s, ks[1..], mode) == Merged(d, s, ks, mode)
  {
  }

  /** Restricting a view to all its listed keys gives the view back. */
  lemma RestrictAll<V>(t: Table<V>)
    requires Valid(t)
    ensures Restrict(View(t), ListKeys(t)) == View(t)
  {
    ViewKeys(t);
  }

  /** `htable_append_table` in all three modes: it fails only with
      KEY_ALREADY_EXISTS (DUPERR and a shared key) or FULL, it cannot run out
      of room when `dest` can take all of `src`'s entries, and on success
      `dest` now maps each key of either table, `src`'s value winning for
      OVERRIDE and DUPERR and `dest`'s for SKIP. Under DUPERR a success means
      the two tables shared no key. */
  lemma AppendTableSpec<V>(dest: Table<V>, src: Table<V>, mode: AppendMode)
    requires Valid(dest) && Valid(src)
    ensures var r := AppendTable(dest, src, mode);
            && (r.status == Success || r.status == Full || r.status == KeyAlreadyExists)
            && (dest.itemCount + src.itemCount <= dest.itemCap && r.status != KeyAlreadyExists ==> r.status == Success)
            && (r.status == Success ==> Valid(r.table))
            && (r.status == Success && mode == Skip ==> View(r.table) == View(src) + View(dest))
            && (r.status == Success && mode != Skip ==> View(r.table) == View(dest) + View(src))
            && (r.status == Success && mode == DupErr ==> View(dest).Keys !! View(src).Keys)
  {
    var keys := ListKeys(src);
    ListKeysCount(src);
    assert forall i :: 0 <= i < |keys| ==> keys[i] in ListKeys(src);
    AppendKeysStatus(dest, src, keys, mode);
    if AppendKeys(dest, src, keys, mode).status == Success {
      AppendKeysView(dest, src, keys, mode);
    }
    RestrictAll(src);
    if mode == DupErr && !AnyContained(dest, keys) {
      DisjointWhenNoneContained(dest, src);
    }
  }

  /** The DUPERR pre-check passes exactly when the two views share no key. */
  lemma DisjointWhenNoneContained<V>(dest: Table<V>, src: Table<V>)
    requires Valid(dest) && Valid(src)
    ensures !AnyContained(dest, ListKeys(src)) <==> View(dest).Keys !! View(src).Keys
  {
    var keys := ListKeys(src);
    if !AnyContained(dest, keys) {
      forall k | k in View(src)
        ensures k !in View(dest)
      {
        ViewAt(src, k);
        var i :| 0 <= i < |keys| && keys[i] == k;
        ListedFetches(src, k);
        FetchView(dest, k);
        assert !Contains(dest, keys[i]);
      }
    } else {
      var i :| 0 <= i < |keys| && Contains(dest, keys[i]);
      var k := keys[i];
      ListedFetches(src, k);
      FetchView(dest, k);
      assert k in View(dest) && k in View(src);
    }
  }
}
