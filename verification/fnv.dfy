/**
 * The FNV-1a string hash both hash tables use (datastruct/htable.c and the
 * older htable.c): 64-bit offset basis and prime, `size_t` arithmetic that
 * wraps modulo 2^64, reduced modulo the slot count.
 */
module Fnv {

  const OffsetBasis: bv64 := 14695981039346656037
  const Prime: bv64 := 1099511628211

  /** `(size_t)(*c)` for a plain `char`, which is signed on the targets the
      server is built for: a byte of 128 or more is sign-extended. Characters
      are taken to be bytes (their code modulo 256). */
  function CharWord(c: char): bv64
  {
    var b := (c as int) % 256;
    if b < 128 then b as bv64 else (b + 0xFFFF_FFFF_FFFF_FF00) as bv64
  }

  /** One FNV-1a round: xor in the byte, then multiply by the prime, both
      wrapping at 64 bits. */
  function Step(h: bv64, c: char): bv64 {
    (h ^ CharWord(c)) * Prime
  }

  /** The hash state after folding `s` into `h`, first character first. */
  function HashFrom(h: bv64, s: string): bv64
    decreases |s|
  {
    if s == [] then h else HashFrom(Step(h, s[0]), s[1..])
  }

  function Hash(s: string): bv64 {
    HashFrom(OffsetBasis, s)
  }

  /** The slot reached by folding `s[i..]` into `h` and reducing modulo
      `slotCount`. The fold walks an index rather than slicing the key, and
      the slot count travels with it, so the solver does not evaluate the
      hash of a constant key on its own. */
  function SlotFrom(h: bv64, s: string, i: nat, slotCount: nat): (r: nat)
    requires slotCount > 0 && i <= |s|
    ensures r < slotCount
    decreases |s| - i
  {
    if i == |s| then (h as int) % slotCount else SlotFrom(Step(h, s[i]), s, i + 1, slotCount)
  }

  /** `htable_hash(key, slot_count)`: the slot a key lives in. */
  function SlotOf(key: string, slotCount: nat): (i: nat)
    requires slotCount > 0
    ensures i < slotCount
  {
    SlotFrom(OffsetBasis, key, 0, slotCount)
  }

  /** The slot is the 64-bit FNV-1a hash reduced modulo the slot count. */
  lemma {:induction false} SlotFromIsHashMod(h: bv64, s: string, i: nat, slotCount: nat)
    requires slotCount > 0 && i <= |s|
    ensures SlotFrom(h, s, i, slotCount) == (HashFrom(h, s[i..]) as int) % slotCount
    decreases |s| - i
  {
    if i < |s| {
      assert s[i..][0] == s[i] && s[i..][1..] == s[i + 1..];
      SlotFromIsHashMod(Step(h, s[i]), s, i + 1, slotCount);
    }
  }

  lemma SlotOfIsHashMod(key: string, slotCount: nat)
    requires slotCount > 0
    ensures SlotOf(key, slotCount) == (Hash(key) as int) % slotCount
  {
    SlotFromIsHashMod(OffsetBasis, key, 0, slotCount);
    assert key[0..] == key;
  }

  /** The hash is a left fold: hashing `a + b` continues from the state
      reached after `a`, so a key's hash can be computed incrementally. */
  lemma {:induction false} HashFromConcat(h: bv64, a: string, b: string)
    ensures HashFrom(h, a + b) == HashFrom(HashFrom(h, a), b)
    decreases |a|
  {
    if a == [] {
      assert a + b == b;
    } else {
      assert (a + b)[0] == a[0];
      assert (a + b)[1..] == a[1..] + b;
      HashFromConcat(Step(h, a[0]), a[1..], b);
    }
  }

  /** Appending one character costs one round. */
  lemma HashSnoc(s: string, c: char)
    ensures Hash(s + [c]) == Step(Hash(s), c)
  {
    HashFromConcat(OffsetBasis, s, [c]);
  }
}
