/**
 * The growable slot array of datastruct/dynarr.c: a row of slots that are
 * NULL or hold an item, a current size and a ceiling it may grow to. The URI
 * parser keeps the values of one query parameter in such an array.
 *
 * The operations as their comments and the header describe them are the main
 * definitions; the members ending in `AsWritten` model three places where the
 * code does something else, each with a lemma showing the difference.
 */
module Dynarr {
  import opened Strings

  /** `(size_t) -1` */
  const SizeMax: nat := 0xFFFF_FFFF_FFFF_FFFF

  /** `dynarr_result_t` */
  datatype Status = Success | IndexNotFound | Full | Empty

  /** `dynarr_t`: the slots (their number is `_array_size`) and `_array_cap`. */
  datatype Dynarr<T> = Dynarr(items: seq<Option<T>>, cap: nat)

  /** A mutating operation's status, the array afterwards, the item it took
      out or replaced (what `*out` receives, or what the cleanup function is
      run on) and the slot it used. */
  datatype Outcome<T> = Outcome(status: Status, arr: Dynarr<T>, item: Option<T>, slot: Option<nat>)

  /** Every array `Make` builds and the operations keep: at least one slot
      (with none, `push` would grow to zero slots forever) and no more slots
      than the ceiling. */
  predicate Valid<T>(a: Dynarr<T>) {
    0 < |a.items| <= a.cap
  }

  /** `dynarr_make(array_size, array_max_size, cf)`: all slots NULL. */
  function Make<T>(size: nat, cap: nat): (a: Dynarr<T>)
    requires 0 < size <= cap
    ensures Valid(a) && |a.items| == size && a.cap == cap
    ensures forall i :: 0 <= i < size ==> a.items[i].None?
  {
    Dynarr(seq(size, _ => None), cap)
  }

  /** The slots padded with NULL up to `n`. */
  function Padded<T>(items: seq<Option<T>>, n: nat): (r: seq<Option<T>>)
    requires |items| <= n
    ensures |r| == n && r[..|items|] == items
    ensures forall i :: |items| <= i < n ==> r[i].None?
  {
    items + seq(n - |items|, _ => None)
  }

  /** `dynarr_resize_arr(arr, new_size)` for a growing size: existing slots
      keep their contents, the new ones are NULL. */
  function ResizeArr<T>(a: Dynarr<T>, newSize: nat): (r: Dynarr<T>)
    requires |a.items| <= newSize
    ensures r.cap == a.cap && |r.items| == newSize
    ensures forall i :: 0 <= i < |a.items| ==> r.items[i] == a.items[i]
    ensures forall i :: |a.items| <= i < newSize ==> r.items[i].None?
  {
    a.(items := Padded(a.items, newSize))
  }

  /** The size growth aims for: double, but never past the ceiling. */
  function Growth(size: nat, cap: nat): (n: nat)
    requires 0 < size < cap
    ensures size < n <= cap
    ensures n == 2 * size || n == cap
    ensures n <= 2 * size
  {
    if 2 * size > cap then cap else 2 * size
  }

  /** The size `dynarr_try_resize` computes: it compares the doubled size with
      the REMAINING room `cap - size` rather than with the ceiling. */
  function GrowthAsWritten(size: nat, cap: nat): (n: nat)
    requires 0 < size < cap
    ensures size < n <= cap
  {
    var remaining := cap - size;
    var doubled := 2 * size;
    if doubled > remaining then size + remaining else doubled
  }

  /** The two sizes part ways whenever doubling fits under the ceiling but
      not under the remaining room: from 4 slots under a ceiling of 10 the
      code grows to 10 instead of 8. */
  lemma GrowthAsWrittenOvershoots(size: nat, cap: nat)
    requires 0 < size && 3 * size > cap && 2 * size < cap
    ensures GrowthAsWritten(size, cap) == cap
    ensures Growth(size, cap) == 2 * size < cap
  {
  }

  lemma GrowthExample()
    ensures GrowthAsWritten(4, 10) == 10 && Growth(4, 10) == 8
  {
  }

  /** `dynarr_try_resize(arr)`: grow when there is room below the ceiling. */
  function TryResize<T>(a: Dynarr<T>): (r: Option<Dynarr<T>>)
    requires Valid(a)
    ensures r.None? <==> |a.items| == a.cap
    ensures r.Some? ==> Valid(r.value) && r.value == ResizeArr(a, Growth(|a.items|, a.cap))
  {
    if a.cap - |a.items| > 0 then Some(ResizeArr(a, Growth(|a.items|, a.cap))) else None
  }

  /** The lowest NULL slot. */
  function FirstFree<T>(items: seq<Option<T>>): (r: Option<nat>)
    ensures r.Some? ==> r.value < |items| && items[r.value].None?
    ensures r.Some? ==> forall j :: 0 <= j < r.value ==> items[j].Some?
    ensures r.None? ==> forall j :: 0 <= j < |items| ==> items[j].Some?
  {
    if items == [] then None
    else if items[0].None? then Some(0)
    else match FirstFree(items[1..])
      case None => None
      case Some(j) => Some(j + 1)
  }

  /** `dynarr_push(arr, item, &slot)`: the item goes into the lowest NULL slot;
      with none left the array grows and the push is retried, and at the
      ceiling the push fails with FULL. A NULL item is not modelled. */
  function Push<T>(a: Dynarr<T>, item: T): (r: Outcome<T>)
    requires Valid(a)
    ensures r.status == Success || r.status == Full
    ensures r.status == Full <==> |a.items| == a.cap && FirstFree(a.items).None?
    ensures r.status == Full ==> r.arr == a && r.slot.None?
    ensures r.status == Success ==>
              && Valid(r.arr) && r.arr.cap == a.cap && |a.items| <= |r.arr.items|
              && r.slot.Some? && r.slot.value < |r.arr.items|
              && r.arr.items == Padded(a.items, |r.arr.items|)[r.slot.value := Some(item)]
              && FirstFree(Padded(a.items, |r.arr.items|)) == r.slot
    ensures FirstFree(a.items).Some? ==> r.arr.items == a.items[FirstFree(a.items).value := Some(item)]
    decreases a.cap - |a.items|
  {
    match FirstFree(a.items)
    case Some(i) =>
      assert Padded(a.items, |a.items|) == a.items;
      Outcome(Success, a.(items := a.items[i := Some(item)]), None, Some(i))
    case None =>
      match TryResize(a)
      case None => Outcome(Full, a, None, None)
      case Some(grown) =>
        assert grown.items[|a.items|].None?;
        var r := Push(grown, item);
        PushIntoGrown(a, grown, |r.arr.items|);
        r
  }

  /** After growth the first free slot is the first new slot, and padding the
      grown array is padding the original. */
  lemma PushIntoGrown<T>(a: Dynarr<T>, grown: Dynarr<T>, n: nat)
    requires FirstFree(a.items).None? && |a.items| <= |grown.items| <= n
    requires grown.items == Padded(a.items, |grown.items|)
    ensures Padded(grown.items, n) == Padded(a.items, n)
    ensures FirstFree(Padded(a.items, n)) == FirstFree(Padded(grown.items, n))
  {
    assert Padded(grown.items, n) == Padded(a.items, n);
  }

  /** `dynarr_set_at(arr, index, item)` as its documentation describes it:
      out of range gives INDEX_NOT_FOUND and no change; otherwise the old
      occupant (if any) is handed to the cleanup function and the slot holds
      the new item. */
  function SetAt<T>(a: Dynarr<T>, index: nat, item: Option<T>): (r: Outcome<T>)
    ensures index >= |a.items| ==> r == Outcome(IndexNotFound, a, None, None)
    ensures index < |a.items| ==>
              && r.status == Success && r.item == a.items[index]
              && r.arr == a.(items := a.items[index := item])
  {
    if index >= |a.items| then Outcome(IndexNotFound, a, None, None)
    else Outcome(Success, a.(items := a.items[index := item]), a.items[index], Some(index))
  }

  /** `dynarr_set_at` as written: the new item is stored into a local copy of
      the slot, so the array keeps the old occupant after the cleanup function
      has run on it. */
  function SetAtAsWritten<T>(a: Dynarr<T>, index: nat, item: Option<T>): (r: Outcome<T>)
    ensures r.arr == a
    ensures r.status == Success <==> index < |a.items|
  {
    if index >= |a.items| then Outcome(IndexNotFound, a, None, None)
    else Outcome(Success, a, a.items[index], Some(index))
  }

  /** Setting a different item at an occupied index: the intended operation
      stores it, the code as written keeps the released old item in place. */
  lemma SetAtAsWrittenKeepsReleased<T>(a: Dynarr<T>, index: nat, item: T)
    requires index < |a.items| && a.items[index].Some? && a.items[index] != Some(item)
    ensures SetAt(a, index, Some(item)).arr.items[index] == Some(item)
    ensures SetAtAsWritten(a, index, Some(item)).item == a.items[index]
    ensures SetAtAsWritten(a, index, Some(item)).arr.items[index] == a.items[index]
  {
  }

  /** `dynarr_remove_at(arr, index, &out)` as the header describes it: the
      occupant goes to `out` and that slot alone becomes NULL; nothing is
      shifted. */
  function RemoveAt<T>(a: Dynarr<T>, index: nat): (r: Outcome<T>)
    ensures index >= |a.items| ==> r == Outcome(IndexNotFound, a, None, None)
    ensures index < |a.items| ==>
              && r.status == Success && r.item == a.items[index] && r.slot == Some(index)
              && |r.arr.items| == |a.items| && r.arr.cap == a.cap
              && r.arr.items[index].None?
              && (forall j :: 0 <= j < |a.items| && j != index ==> r.arr.items[j] == a.items[j])
  {
    if index >= |a.items| then Outcome(IndexNotFound, a, None, None)
    else Outcome(Success, a.(items := a.items[index := None]), a.items[index], Some(index))
  }

  /** `dynarr_remove_at` as written: the occupant reaches `out`, but the slot
      cleared is a local copy. */
  function RemoveAtAsWritten<T>(a: Dynarr<T>, index: nat): (r: Outcome<T>)
    ensures r.arr == a
    ensures r.status == Success <==> index < |a.items|
    ensures index < |a.items| ==> r.item == a.items[index]
  {
    if index >= |a.items| then Outcome(IndexNotFound, a, None, None)
    else Outcome(Success, a, a.items[index], Some(index))
  }

  /** Removing an occupied slot: intended, the slot is then NULL; as written it
      still holds the item just handed out. */
  lemma RemoveAtAsWrittenKeepsItem<T>(a: Dynarr<T>, index: nat)
    requires index < |a.items| && a.items[index].Some?
    ensures RemoveAt(a, index).arr.items[index].None?
    ensures RemoveAtAsWritten(a, index).arr.items[index] == RemoveAtAsWritten(a, index).item
    ensures RemoveAtAsWritten(a, index).item.Some?
  {
  }

  /** The highest occupied slot. */
  function LastOccupied<T>(items: seq<Option<T>>): (r: Option<nat>)
    ensures r.Some? ==> r.value < |items| && items[r.value].Some?
    ensures r.Some? ==> forall j :: r.value < j < |items| ==> items[j].None?
    ensures r.None? ==> forall j :: 0 <= j < |items| ==> items[j].None?
  {
    if items == [] then None
    else if items[|items| - 1].Some? then Some(|items| - 1)
    else LastOccupied(items[..|items| - 1])
  }

  /** `dynarr_pop(arr, &out, &slot)` as its comments describe it: scanning
      from the tail, the highest occupied slot is removed; with none, EMPTY. */
  function Pop<T>(a: Dynarr<T>): (r: Outcome<T>)
    ensures (forall j :: 0 <= j < |a.items| ==> a.items[j].None?) <==> r.status == Empty
    ensures r.status == Empty ==> r == Outcome(Empty, a, None, None)
    ensures r.status != Empty ==> r.status == Success && r.slot.Some? && r == RemoveAt(a, r.slot.value)
    ensures r.status == Success ==>
              && r.item.Some? && r.slot.value < |a.items|
              && forall j :: r.slot.value < j < |a.items| ==> a.items[j].None?
  {
    match LastOccupied(a.items)
    case None => Outcome(Empty, a, None, None)
    case Some(i) => RemoveAt(a, i)
  }

  /** Where the scan of `dynarr_pop` as written ends: at an occupied index, or
      at an index past the array, which it then reads. */
  datatype ScanEnd = Occupied(index: nat) | ReadsPastEnd(index: nat)

  /** The loop `for (size_t i = size - 1; i >= 0; i--)`: `i >= 0` always holds
      for a `size_t`, so below 0 the index wraps to SIZE_MAX. */
  function ScanDownAsWritten<T>(items: seq<Option<T>>, i: nat): (r: ScanEnd)
    requires |items| <= SizeMax
    ensures r.Occupied? ==> r.index < |items| && items[r.index].Some?
    decreases if i < |items| then i + 1 else 0
  {
    if i >= |items| then ReadsPastEnd(i)
    else if items[i].Some? then Occupied(i)
    else ScanDownAsWritten(items, if i == 0 then SizeMax else i - 1)
  }

  /** `dynarr_pop` as written starts at `size - 1` in `size_t` arithmetic. */
  function PopAsWritten<T>(a: Dynarr<T>): (r: ScanEnd)
    requires |a.items| <= SizeMax
    ensures Pop(a).status == Success ==> r == Occupied(Pop(a).slot.value)
    ensures r.Occupied? ==> Pop(a).status == Success
  {
    if |a.items| == 0 then ScanDownAsWritten(a.items, SizeMax)
    else
      assert LastOccupied(a.items).Some? ==>
               ScanDownAsWritten(a.items, |a.items| - 1) == Occupied(LastOccupied(a.items).value) by {
        assert a.items[..|a.items|] == a.items;
        if LastOccupied(a.items).Some? {
          ScanDownFindsLast(a.items, |a.items| - 1);
        }
      }
      ScanDownAsWritten(a.items, |a.items| - 1)
  }

  lemma {:induction false} ScanDownAllNull<T>(items: seq<Option<T>>, i: nat)
    requires |items| <= SizeMax
    requires forall j :: 0 <= j < |items| ==> items[j].None?
    requires i < |items| || i == SizeMax
    ensures ScanDownAsWritten(items, i) == ReadsPastEnd(SizeMax)
    decreases if i < |items| then i + 1 else 0
  {
    if i < |items| {
      ScanDownAllNull(items, if i == 0 then SizeMax else i - 1);
    }
  }

  /** On an array whose slots are all NULL the intended pop reports EMPTY,
      while the code as written runs past index 0 and reads slot SIZE_MAX. */
  lemma PopAsWrittenReadsPastEnd<T>(a: Dynarr<T>)
    requires |a.items| <= SizeMax && forall j :: 0 <= j < |a.items| ==> a.items[j].None?
    ensures Pop(a).status == Empty
    ensures PopAsWritten(a) == ReadsPastEnd(SizeMax)
  {
    if |a.items| == 0 {
    } else {
      ScanDownAllNull(a.items, |a.items| - 1);
    }
  }

  /** Where the array has an occupied slot, the as-written scan agrees with
      the intended pop. */
  lemma {:induction false} ScanDownFindsLast<T>(items: seq<Option<T>>, i: nat)
    requires |items| <= SizeMax && i < |items|
    requires LastOccupied(items[..i + 1]).Some?
    ensures ScanDownAsWritten(items, i) == Occupied(LastOccupied(items[..i + 1]).value)
    decreases i
  {
    if items[i].None? {
      assert items[..i + 1][..i] == items[..i];
      if i == 0 {
        assert false;
      }
      ScanDownFindsLast(items, i - 1);
    }
  }

  // ---------------------------------------------------------------------
  // Arrival order
  // ---------------------------------------------------------------------

  /** The items in slot order, NULL slots skipped. */
  function Values<T>(items: seq<Option<T>>): seq<T> {
    if items == [] then []
    else (if items[0].Some? then [items[0].value] else []) + Values(items[1..])
  }

  /** All occupied slots come before all NULL slots: what an array filled
      only by pushes looks like. */
  predicate Packed<T>(items: seq<Option<T>>) {
    forall i, j :: 0 <= i < j < |items| && items[i].None? ==> items[j].None?
  }

  lemma {:induction false} ValuesAppend<T>(a: seq<Option<T>>, b: seq<Option<T>>)
    ensures Values(a + b) == Values(a) + Values(b)
  {
    if a == [] {
      assert a + b == b;
    } else {
      var h := if a[0].Some? then [a[0].value] else [];
      assert (a + b)[0] == a[0] && (a + b)[1..] == a[1..] + b;
      assert Values(a + b) == h + Values(a[1..] + b);
      ValuesAppend(a[1..], b);
      Assoc(h, Values(a[1..]), Values(b));
    }
  }

  lemma Assoc<T>(x: seq<T>, y: seq<T>, z: seq<T>)
    ensures x + (y + z) == (x + y) + z
  {
  }

  lemma {:induction false} ValuesAllNull<T>(items: seq<Option<T>>)
    requires forall j :: 0 <= j < |items| ==> items[j].None?
    ensures Values(items) == []
  {
    if items != [] {
      ValuesAllNull(items[1..]);
    }
  }

  /** Filling the first free slot of a packed row appends the item. */
  lemma FillFirstFree<T>(items: seq<Option<T>>, item: T)
    requires Packed(items) && FirstFree(items).Some?
    ensures var k := FirstFree(items).value;
            Packed(items[k := Some(item)]) && Values(items[k := Some(item)]) == Values(items) + [item]
  {
    var k := FirstFree(items).value;
    var after := items[k := Some(item)];
    assert items == items[..k] + items[k..];
    assert after == items[..k] + [Some(item)] + items[k + 1..];
    ValuesAppend(items[..k], items[k..]);
    ValuesAppend(items[..k] + [Some(item)], items[k + 1..]);
    ValuesAppend(items[..k], [Some(item)]);
    ValuesAllNull(items[k..]);
    ValuesAllNull(items[k + 1..]);
    assert Values([Some(item)]) == [item];
  }

  /** A push onto a packed array keeps it packed and appends the item to its
      values: items come back in arrival order. */
  lemma PushAppends<T>(a: Dynarr<T>, item: T)
    requires Valid(a) && Packed(a.items) && Push(a, item).status == Success
    ensures Packed(Push(a, item).arr.items)
    ensures Values(Push(a, item).arr.items) == Values(a.items) + [item]
  {
    var r := Push(a, item);
    PaddedPacked(a.items, |r.arr.items|);
    FillFirstFree(Padded(a.items, |r.arr.items|), item);
  }

  /** A push onto a packed array fails exactly when the array already holds
      as many values as its ceiling allows. */
  lemma PushFullCount<T>(a: Dynarr<T>, item: T)
    requires Valid(a) && Packed(a.items)
    ensures |Values(a.items)| <= a.cap
    ensures Push(a, item).status == Full <==> |Values(a.items)| == a.cap
  {
    ValuesCount(a.items);
  }

  /** There are no more values than slots, and as many only when no slot is
      NULL. */
  lemma {:induction false} ValuesCount<T>(items: seq<Option<T>>)
    ensures |Values(items)| <= |items|
    ensures |Values(items)| == |items| <==> FirstFree(items).None?
  {
    if items != [] {
      ValuesCount(items[1..]);
    }
  }

  /** Padding a packed row with NULL slots keeps it packed and adds no value. */
  lemma PaddedPacked<T>(items: seq<Option<T>>, n: nat)
    requires Packed(items) && |items| <= n
    ensures Packed(Padded(items, n)) && Values(Padded(items, n)) == Values(items)
  {
    var padded := Padded(items, n);
    var tail := padded[|items|..];
    assert padded == items + tail;
    ValuesAppend(items, tail);
    ValuesAllNull(tail);
  }

  /** A fresh array is packed and holds no values. */
  lemma MakeIsPacked<T>(size: nat, cap: nat)
    requires 0 < size <= cap
    ensures Packed(Make<T>(size, cap).items) && Values(Make<T>(size, cap).items) == []
  {
    ValuesAllNull(Make<T>(size, cap).items);
  }
}
