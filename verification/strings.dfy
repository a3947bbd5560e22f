/**
 * Shared vocabulary of the model: optional values (the C code's NULL
 * pointers), results carrying an error message, and the two string helpers
 * every parser of the server is built from.
 *
 * C strings are modelled as `string` values without an embedded NUL, so
 * `strlen(s)` is `|s|`.
 */
module Strings {

  /** A C pointer that may be NULL. */
  datatype Option<+T> = None | Some(value: T)

  /** The outcome of a parser stage: a value, or the error message it stored. */
  datatype Result<+T> = Ok(value: T) | Err(msg: string) {
    predicate IsFailure() {
      Err?
    }

    function PropagateFailure<U>(): Result<U>
      requires Err?
    {
      Err(msg)
    }

    function Extract(): T
      requires Ok?
    {
      value
    }
  }

  /** The line terminator the server writes. */
  const CRLF: string := "\r\n"

  /** `sep` occurs in `s` starting at index `j`. */
  predicate OccursAt(s: string, sep: string, j: nat) {
    j + |sep| <= |s| && s[j..j + |sep|] == sep
  }

  /** Index of the first occurrence of `sep` in `s` at or after `from`. */
  function FindFrom(s: string, sep: string, from: nat): (r: Option<nat>)
    requires from <= |s|
    ensures r.Some? ==> from <= r.value && OccursAt(s, sep, r.value)
    ensures r.Some? ==> forall j :: from <= j < r.value ==> !OccursAt(s, sep, j)
    ensures r.None? ==> forall j :: from <= j ==> !OccursAt(s, sep, j)
    decreases |s| - from
  {
    if from + |sep| > |s| then None
    else if s[from..from + |sep|] == sep then Some(from)
    else FindFrom(s, sep, from + 1)
  }

  /** What `partial_strdup` hands back: the piece (NULL when nothing is left)
      and the advanced offset. */
  datatype Cut = Cut(piece: Option<string>, next: nat)

  /**
   * `partial_strdup(str, &offs, sep, skip)`, whose source is not part of this
   * model. Assumed behaviour, after its documentation ("duplicate from offset
   * until separator or end of string; offset advanced"):
   *  - nothing left at the offset gives NULL and leaves the offset alone;
   *  - otherwise the piece runs up to (excluding) the first `sep` at or after
   *    the offset, or to the end of the string when there is none, and the
   *    offset moves past the separator;
   *  - an empty separator (the C literal "\0") never matches, so the piece is
   *    the rest of the string.
   * Skip mode moves the offset the same way and returns NULL; callers use
   * `.next` alone for it.
   */
  function PartialStrdup(s: string, offs: nat, sep: string): (r: Cut)
    ensures r.piece.None? <==> offs >= |s|
    ensures r.piece.None? ==> r.next == offs
    ensures r.piece.Some? ==> offs < r.next <= |s|
    ensures r.piece.Some? ==> offs + |r.piece.value| <= |s| && r.piece.value == s[offs..offs + |r.piece.value|]
    ensures r.piece.Some? && |sep| > 0 && r.next < |s| ==>
              s[offs..r.next] == r.piece.value + sep
    ensures r.piece.Some? && r.next == |s| ==>
              s[offs..] == r.piece.value || s[offs..] == r.piece.value + sep
    ensures r.piece.Some? && |sep| > 0 ==>
              forall j :: offs <= j < offs + |r.piece.value| ==> !OccursAt(s, sep, j)
    ensures r.piece.Some? && |sep| == 0 ==> r.piece.value == s[offs..] && r.next == |s|
  {
    if offs >= |s| then Cut(None, offs)
    else if |sep| == 0 then Cut(Some(s[offs..]), |s|)
    else
      match FindFrom(s, sep, offs)
      case Some(j) => Cut(Some(s[offs..j]), j + |sep|)
      case None => Cut(Some(s[offs..]), |s|)
  }

  /** The first occurrence of `sep` at or after `from` is at `j`. */
  lemma FindFromFirst(s: string, sep: string, from: nat, j: nat)
    requires from <= j && OccursAt(s, sep, j)
    requires forall i :: from <= i < j ==> !OccursAt(s, sep, i)
    ensures FindFrom(s, sep, from) == Some(j)
  {
  }

  /** Cutting where `sep` first occurs at `j`: the piece is the text before
      it and the offset lands just past it. */
  lemma CutAt(s: string, offs: nat, sep: string, j: nat)
    requires |sep| > 0 && offs <= j && OccursAt(s, sep, j)
    requires forall i :: offs <= i < j ==> !OccursAt(s, sep, i)
    ensures PartialStrdup(s, offs, sep) == Cut(Some(s[offs..j]), j + |sep|)
  {
    FindFromFirst(s, sep, offs, j);
  }

  /** Cutting where `sep` does not occur again: the piece is the rest. */
  lemma CutRest(s: string, offs: nat, sep: string)
    requires offs < |s|
    requires forall i :: offs <= i ==> !OccursAt(s, sep, i)
    ensures PartialStrdup(s, offs, sep) == Cut(Some(s[offs..]), |s|)
  {
  }

  /** A one-character separator occurs exactly where that character is. */
  lemma OccursAtChar(s: string, c: char, i: nat)
    ensures OccursAt(s, [c], i) <==> i < |s| && s[i] == c
  {
    if i < |s| {
      assert s[i..i + 1] == [s[i]];
    }
  }

  /** Cutting at the first `c` from `lo`, which is at `j`. */
  lemma CharCut(s: string, c: char, lo: nat, j: nat)
    requires lo <= j < |s| && s[j] == c
    requires forall i :: lo <= i < j ==> s[i] != c
    ensures PartialStrdup(s, lo, [c]) == Cut(Some(s[lo..j]), j + 1)
  {
    CharAbsent(s, c, lo, j);
    OccursAtChar(s, c, j);
    CutAt(s, lo, [c], j);
  }

  /** A character missing from `s[lo..hi]` does not occur there as a
      separator; when `hi` is the end, it does not occur from `lo` on. */
  lemma CharAbsent(s: string, c: char, lo: nat, hi: nat)
    requires hi <= |s|
    requires forall i :: lo <= i < hi ==> s[i] != c
    ensures forall i :: lo <= i < hi ==> !OccursAt(s, [c], i)
    ensures hi == |s| ==> forall i :: lo <= i ==> !OccursAt(s, [c], i)
  {
    forall i | lo <= i && (i < hi || hi == |s|)
      ensures !OccursAt(s, [c], i)
    {
      OccursAtChar(s, c, i);
    }
  }

  /** `strclone(s, max)`, whose source is not part of this model: assumed to
      copy the string, or give NULL when it is longer than `max`. */
  function StrClone(s: string, max: nat): (r: Option<string>)
    ensures r.None? <==> |s| > max
    ensures r.Some? ==> r.value == s
  {
    if |s| > max then None else Some(s)
  }

  /** The first `n` characters of `s` (all of it when shorter): the part
      `strncmp(a, b, n)` looks at. */
  function Prefix(s: string, n: nat): (r: string)
    ensures |r| <= n && r <= s
    ensures |s| <= n ==> r == s
  {
    if |s| <= n then s else s[..n]
  }

  /** `strncmp(a, b, n) == 0` for strings without an embedded NUL. */
  predicate EqualUpTo(a: string, b: string, n: nat) {
    Prefix(a, n) == Prefix(b, n)
  }

  /** Within the bound, `strncmp` equality is plain equality. */
  lemma EqualUpToShort(a: string, b: string, n: nat)
    requires |a| <= n && |b| <= n
    ensures EqualUpTo(a, b, n) <==> a == b
  {
  }

  /** Concatenation of a sequence of strings. */
  function Concat(parts: seq<string>): (r: string)
  {
    if parts == [] then [] else parts[0] + Concat(parts[1..])
  }
}
