/**
 * The 64-bit unsigned words (Kotlin's `ULong`) in which the perceptual
 * hashes are built, compared and stored.
 *
 * A word is represented by its 64 bits: element `k` of the sequence is
 * bit `k`, bit 0 being the least significant.  On top of that come the
 * operations the hashing code uses (`0UL`, `1UL shl c`, `or`, `xor`,
 * `countOneBits`), `inv` (used only to state how `compare` scores a hash
 * against its complement), the unsigned value of a word, and the
 * `toLong` / `toULong` reinterpretation used when a hash is written to
 * and read back from storage.
 */
module ULongBits {

  const TWO_63: int := 0x8000_0000_0000_0000
  const TWO_64: int := 0x1_0000_0000_0000_0000

  /** Kotlin's `ULong`, as its 64 bits; element `k` is bit `k`. */
  type ULong = w: seq<bool> | |w| == 64 witness seq(64, k => false)

  /** Kotlin's `Long`: a signed two's-complement 64-bit integer. */
  type Long = x: int | -TWO_63 <= x < TWO_63

  // ---------------------------------------------------------------------
  // Bit operations

  /** `0UL`: no bit set. */
  function Zero(): ULong
  {
    seq(64, k => false)
  }

  /** `1UL shl c`: bit `c` set and no other. */
  function ShlOne(c: nat): ULong
    requires c < 64
  {
    seq(64, k => k == c)
  }

  /** `a or b`. */
  function Or(a: ULong, b: ULong): ULong
  {
    seq(64, k requires 0 <= k < 64 => a[k] || b[k])
  }

  /** `a xor b`. */
  function Xor(a: ULong, b: ULong): ULong
  {
    seq(64, k requires 0 <= k < 64 => a[k] != b[k])
  }

  /** `a.inv()`: every bit flipped. */
  function Inv(a: ULong): ULong
  {
    seq(64, k requires 0 <= k < 64 => !a[k])
  }

  /** The number of set bits among the first `n` elements (bits `0 .. n-1`). */
  function CountOnes(w: seq<bool>, n: nat): (c: nat)
    requires n <= |w|
    ensures c <= n
  {
    if n == 0 then 0 else CountOnes(w, n - 1) + (if w[n - 1] then 1 else 0)
  }

  /** Kotlin's `ULong.countOneBits()`. */
  function PopCount(h: ULong): (c: nat)
    ensures c <= 64
  {
    CountOnes(h, 64)
  }

  // ---------------------------------------------------------------------
  // Words assembled bit by bit, most significant bit first

  /**
   * The word built by visiting `bits` in order and, for the element at
   * index `i`, doing `h = h or (1UL shl (63 - i))` when it is true, from
   * `h = 0UL`: the first element lands in the most significant bit.
   */
  function MsbFirst(bits: seq<bool>): ULong
    requires |bits| <= 64
  {
    if bits == [] then Zero()
    else
      var n := |bits| - 1;
      var h := MsbFirst(bits[..n]);
      if bits[n] then Or(h, ShlOne(63 - n)) else h
  }

  /**
   * Bit `63 - i` of `MsbFirst(bits)` is `bits[i]`, and the bits below
   * the visited ones are clear: no other bit is ever set.
   */
  lemma {:induction false} MsbFirstBit(bits: seq<bool>, k: nat)
    requires |bits| <= 64 && k < 64
    ensures MsbFirst(bits)[k] <==> 63 - k < |bits| && bits[63 - k]
  {
    if bits != [] {
      MsbFirstBit(bits[..|bits| - 1], k);
    }
  }

  /** One step of the assembly: visiting element `i` after the first `i`. */
  lemma MsbFirstStep(bits: seq<bool>, i: nat)
    requires i < |bits| <= 64
    ensures MsbFirst(bits[..i + 1]) ==
      if bits[i] then Or(MsbFirst(bits[..i]), ShlOne(63 - i)) else MsbFirst(bits[..i])
  {
    assert bits[..i + 1][..i] == bits[..i];
  }

  /** Visiting nothing but false elements leaves the word `0UL`. */
  lemma {:induction false} MsbFirstAllClear(bits: seq<bool>)
    requires |bits| <= 64
    requires forall i :: 0 <= i < |bits| ==> !bits[i]
    ensures MsbFirst(bits) == Zero()
  {
    if bits != [] {
      MsbFirstAllClear(bits[..|bits| - 1]);
    }
  }

  // ---------------------------------------------------------------------
  // Unsigned value, and the Long <-> ULong reinterpretation

  function Pow2(n: nat): (p: nat)
    ensures p >= 1
  {
    if n == 0 then 1 else 2 * Pow2(n - 1)
  }

  /** The unsigned number a bit string denotes, element 0 least significant. */
  function Value(w: seq<bool>): (v: nat)
    ensures v < Pow2(|w|)
  {
    if w == [] then 0 else (if w[0] then 1 else 0) + 2 * Value(w[1..])
  }

  /** The `n` low bits of `v`, least significant first. */
  function BitsOf(v: nat, n: nat): (w: seq<bool>)
    ensures |w| == n
  {
    if n == 0 then [] else [v % 2 == 1] + BitsOf(v / 2, n - 1)
  }

  lemma {:induction false} BitsOfValue(w: seq<bool>)
    ensures BitsOf(Value(w), |w|) == w
  {
    if w != [] {
      BitsOfValue(w[1..]);
    }
  }

  lemma {:induction false} Pow2Sum(m: nat, n: nat)
    ensures Pow2(m + n) == Pow2(m) * Pow2(n)
  {
    if n > 0 {
      Pow2Sum(m, n - 1);
    }
  }

  lemma Pow2Of64()
    ensures Pow2(64) == TWO_64
  {
    Pow2Sum(2, 2);
    assert Pow2(4) == 16;
    Pow2Sum(4, 4);
    assert Pow2(8) == 0x100;
    Pow2Sum(8, 8);
    assert Pow2(16) == 0x1_0000;
    Pow2Sum(16, 16);
    assert Pow2(32) == 0x1_0000_0000;
    Pow2Sum(32, 32);
  }

  /** `1UL shl c` denotes 2 to the power `c`. */
  lemma ShlOneValue(c: nat)
    requires c < 64
    ensures Value(ShlOne(c)) == Pow2(c)
  {
    SingleBitValue(ShlOne(c), c);
  }

  lemma {:induction false} SingleBitValue(w: seq<bool>, c: nat)
    requires c < |w|
    requires forall k :: 0 <= k < |w| ==> (w[k] <==> k == c)
    ensures Value(w) == Pow2(c)
  {
    if c == 0 {
      ZeroValue(w[1..]);
    } else {
      SingleBitValue(w[1..], c - 1);
    }
  }

  lemma {:induction false} ZeroValue(w: seq<bool>)
    requires forall k :: 0 <= k < |w| ==> !w[k]
    ensures Value(w) == 0
  {
    if w != [] {
      ZeroValue(w[1..]);
    }
  }

  /** Kotlin's `ULong.toLong()`: the same 64 bits read as two's complement. */
  function ToLong(h: ULong): Long
  {
    Pow2Of64();
    var v := Value(h);
    if v < TWO_63 then v else v - TWO_64
  }

  /** Kotlin's `Long.toULong()`: the same 64 bits read as unsigned. */
  function ToULong(l: Long): ULong
  {
    BitsOf(if l < 0 then l + TWO_64 else l, 64)
  }

  /** Storing a hash as a `Long` and reading it back as a `ULong` loses nothing. */
  lemma ToULongOfToLong(h: ULong)
    ensures ToULong(ToLong(h)) == h
  {
    Pow2Of64();
    BitsOfValue(h);
  }

  /** Reading a stored `Long` as a `ULong` and storing it again loses nothing. */
  lemma ToLongOfToULong(l: Long)
    ensures ToLong(ToULong(l)) == l
  {
    Pow2Of64();
    ValueOfBitsOf(if l < 0 then l + TWO_64 else l, 64);
  }

  lemma {:induction false} ValueOfBitsOf(v: nat, n: nat)
    requires v < Pow2(n)
    ensures Value(BitsOf(v, n)) == v
  {
    if n > 0 {
      ValueOfBitsOf(v / 2, n - 1);
      assert BitsOf(v, n)[1..] == BitsOf(v / 2, n - 1);
    }
  }
}
