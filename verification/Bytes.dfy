/** Machine integers, byte sequences and the bits of a byte, as the kernel's C
    code uses them. Words are little-endian, as on the i386. */
module Bytes {

  type byte = x: int | 0 <= x < 0x100
  type u16 = x: int | 0 <= x < 0x1_0000
  type u32 = x: int | 0 <= x < 0x1_0000_0000

  datatype Option<+T> = None | Some(value: T)

  function Min(a: nat, b: nat): nat {
    if a < b then a else b
  }

  function Max(a: int, b: nat): nat {
    if a < b then b else a
  }

  /** The conversion `(int)x` of an unsigned 32-bit value on a 32-bit machine. */
  function AsInt32(x: u32): (r: int)
    ensures x < 0x8000_0000 <==> r >= 0
    ensures r == x || r == x - 0x1_0000_0000
  {
    if x < 0x8000_0000 then x else x - 0x1_0000_0000
  }

  /** What a transfer cut short by an error reports: the bytes that passed, or -1
      when none did. */
  function PartialCount(done: int): int {
    if 0 < done < 0x1_0000_0000 then AsInt32(done) else -1
  }

  function U16At(s: seq<byte>, at: nat): u16
    requires at + 2 <= |s|
  {
    (s[at] as int) + 0x100 * (s[at + 1] as int)
  }

  function U32At(s: seq<byte>, at: nat): u32
    requires at + 4 <= |s|
  {
    (U16At(s, at) as int) + 0x1_0000 * (U16At(s, at + 2) as int)
  }

  /** The low and high byte of a 16-bit word. */
  function Lo(v: u16): byte { v % 0x100 }

  function Hi(v: u16): byte { v / 0x100 }

  /** `memcpy(s + at, t, |t|)`. */
  function Patch(s: seq<byte>, at: nat, t: seq<byte>): (r: seq<byte>)
    requires at + |t| <= |s|
    ensures |r| == |s|
    ensures forall k :: 0 <= k < |s| ==> r[k] == if at <= k < at + |t| then t[k - at] else s[k]
  {
    s[..at] + t + s[at + |t|..]
  }

  method Memcpy(dest: array<byte>, at: nat, src: seq<byte>)
    requires at + |src| <= dest.Length
    modifies dest
    ensures dest[..] == Patch(old(dest[..]), at, src)
  {
    for i := 0 to |src|
      invariant dest[..] == Patch(old(dest[..]), at, src[..i])
    {
      dest[at + i] := src[i];
    }
    assert src[..|src|] == src;
  }

  /** Copying a stretch of `c` piece by piece is copying it at once. */
  lemma PatchGrows(s: seq<byte>, c: seq<byte>, lo: nat, mid: nat, hi: nat)
    requires lo <= mid <= hi <= |c| && hi - lo <= |s|
    ensures Patch(Patch(s, 0, c[lo..mid]), mid - lo, c[mid..hi]) == Patch(s, 0, c[lo..hi])
  {
  }

  lemma PatchNothing(s: seq<byte>, c: seq<byte>, at: nat)
    requires at <= |c|
    ensures Patch(s, 0, c[at..at]) == s
  {
  }

  /** What is left of a file's contents after `t` was written at `off`: the file
      grows if needed, and a gap past the old end reads as zeros. Writing
      nothing touches nothing. */
  function Splice(s: seq<byte>, off: nat, t: seq<byte>): (r: seq<byte>)
    ensures t == [] ==> r == s
    ensures t != [] ==> |r| == Max(|s|, off + |t|)
    ensures t != [] ==> forall p :: 0 <= p < |r| ==>
      r[p] == if off <= p < off + |t| then t[p - off] else if p < |s| then s[p] else 0
  {
    if t == [] then s
    else
      seq(Max(|s|, off + |t|), p requires 0 <= p =>
        (if off <= p < off + |t| then t[p - off] else if p < |s| then s[p] else 0))
  }

  // ---- the bits of a byte --------------------------------------------------

  function Pow2(n: nat): nat
  {
    if n == 0 then 1 else 2 * Pow2(n - 1)
  }

  /** `(v & (1u << k)) != 0`. */
  predicate BitOf(v: nat, k: nat)
  {
    if k == 0 then v % 2 == 1 else BitOf(v / 2, k - 1)
  }

  /** `v | (1u << k)` in a word of `w` bits. */
  function BitOn(v: nat, k: nat, w: nat): (r: nat)
    requires v < Pow2(w) && k < w
    ensures r < Pow2(w)
  {
    var half := Pow2(w - 1);
    assert Pow2(w) == 2 * half;
    assert v == 2 * (v / 2) + v % 2 && v / 2 < half;
    if k == 0 then 2 * (v / 2) + 1
    else
      var r := BitOn(v / 2, k - 1, w - 1);
      assert r < half;
      2 * r + v % 2
  }

  /** `v & ~(1u << k)`. */
  function BitOff(v: nat, k: nat): (r: nat)
    ensures r <= v
  {
    if k == 0 then v - v % 2 else 2 * BitOff(v / 2, k - 1) + v % 2
  }

  /** Setting bit `k` sets it and leaves every other bit alone. */
  lemma {:induction false} BitOnBit(v: nat, k: nat, w: nat, j: nat)
    requires v < Pow2(w) && k < w
    ensures BitOf(BitOn(v, k, w), j) <==> j == k || BitOf(v, j)
  {
    if k > 0 && j > 0 {
      BitOnBit(v / 2, k - 1, w - 1, j - 1);
    }
  }

  /** Clearing bit `k` clears it and leaves every other bit alone. */
  lemma {:induction false} BitOffBit(v: nat, k: nat, j: nat)
    ensures BitOf(BitOff(v, k), j) <==> j != k && BitOf(v, j)
  {
    if k > 0 && j > 0 {
      BitOffBit(v / 2, k - 1, j - 1);
    }
  }

  /** Clearing a bit that was just set gives the word back. */
  lemma {:induction false} BitOffOn(v: nat, k: nat, w: nat)
    requires v < Pow2(w) && k < w && !BitOf(v, k)
    ensures BitOff(BitOn(v, k, w), k) == v
  {
    var r := BitOn(v, k, w);
    assert Pow2(w) == 2 * Pow2(w - 1);
    if k > 0 {
      assert r == 2 * BitOn(v / 2, k - 1, w - 1) + v % 2;
      assert r / 2 == BitOn(v / 2, k - 1, w - 1) && r % 2 == v % 2;
      BitOffOn(v / 2, k - 1, w - 1);
    }
  }

  lemma ByteWidth()
    ensures Pow2(8) == 0x100
  {
    assert Pow2(4) == 16;
  }
}
