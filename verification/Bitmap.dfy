/** kernel/tools/bitmap.c: a set of page numbers kept as bits in an array of bytes. */
module Bitmap {
  import opened Bits
  import opened Bytes

  // ---------------------------------------------------------------- single bits of a byte

  predicate Bit(x: nat, k: nat)
    decreases k
  {
    if k == 0 then x % 2 == 1 else Bit(x / 2, k - 1)
  }

  lemma {:induction false} BitZero(k: nat)
    ensures !Bit(0, k)
  {
    if k > 0 {
      BitZero(k - 1);
    }
  }

  /** Bit k is the binary digit that stands for Pow2(k). */
  lemma {:induction false} BitPlace(x: nat, k: nat)
    ensures Bit(x, k) <==> x / Pow2(k) % 2 == 1
    decreases k
  {
    if k > 0 {
      BitPlace(x / 2, k - 1);
      HalfMod(x, Pow2(k - 1));
    }
  }

  lemma {:induction false} BitAnd(x: nat, y: nat, k: nat)
    ensures Bit(And(x, y), k) <==> Bit(x, k) && Bit(y, k)
    decreases k
  {
    if x == 0 {
      BitZero(k);
    } else if k > 0 {
      BitAnd(x / 2, y / 2, k - 1);
    }
  }

  lemma {:induction false} BitOr(x: nat, y: nat, k: nat)
    ensures Bit(Or(x, y), k) <==> Bit(x, k) || Bit(y, k)
    decreases k
  {
    if x == 0 && y == 0 {
      BitZero(k);
    } else if k > 0 {
      BitOr(x / 2, y / 2, k - 1);
    }
  }

  lemma {:induction false} BitPow2(k: nat, j: nat)
    ensures Bit(Pow2(k), j) <==> j == k
    decreases k
  {
    if k == 0 {
      if j > 0 {
        BitZero(j - 1);
      }
    } else if j > 0 {
      BitPow2(k - 1, j - 1);
    }
  }

  lemma {:induction false} BitNot(x: nat, n: nat, j: nat)
    requires j < n && x < Pow2(n)
    ensures Bit(Pow2(n) - 1 - x, j) <==> !Bit(x, j)
    decreases n
  {
    if j > 0 {
      assert (Pow2(n) - 1 - x) / 2 == Pow2(n - 1) - 1 - x / 2;
      BitNot(x / 2, n - 1, j - 1);
    }
  }

  lemma {:induction false} OrBound(x: nat, y: nat, n: nat)
    requires x < Pow2(n) && y < Pow2(n)
    ensures Or(x, y) < Pow2(n)
    decreases n
  {
    if n > 0 && (x != 0 || y != 0) {
      OrBound(x / 2, y / 2, n - 1);
    }
  }

  lemma {:induction false} AndBound(x: nat, y: nat)
    ensures And(x, y) <= x
  {
    if x != 0 {
      AndBound(x / 2, y / 2);
      AndDigit(x, y);
    }
  }

  /** The lowest bit of the conjunction is at most that of x. */
  lemma AndDigit(x: nat, y: nat)
    requires x != 0
    ensures 2 * And(x / 2, y / 2) <= And(x, y) <= 2 * And(x / 2, y / 2) + x % 2
  {
    hide *;
    AndHalves(x, y);
    BitProduct(x % 2, y % 2);
  }

  lemma AndHalves(x: nat, y: nat)
    requires x != 0
    ensures And(x, y) == 2 * And(x / 2, y / 2) + (x % 2) * (y % 2)
  {
  }

  lemma BitProduct(a: nat, b: nat)
    requires a < 2 && b < 2
    ensures 0 <= a * b <= a
  {
    assert a == 0 || a == 1;
  }

  /** The C test `b & (1 << k)`. */
  lemma {:induction false} MaskTest(x: nat, k: nat)
    ensures And(x, Pow2(k)) == if Bit(x, k) then Pow2(k) else 0
    decreases k
  {
    if x == 0 {
      BitZero(k);
    } else if k == 0 {
      AndZero(x / 2);
    } else {
      MaskTest(x / 2, k - 1);
    }
  }

  lemma BytePow(k: nat)
    requires k < 8
    ensures Pow2(k) <= 128 && Pow2(7) == 128 && Pow2(8) == 256
  {
    Pow2Monotone(k, 7);
    assert Pow2(7) == 128 && Pow2(8) == 256;
  }

  /** `b | (1 << k)` */
  function Raise(b: byte, k: nat): byte
    requires k < 8
  {
    BytePow(k);
    OrBound(b, Pow2(k), 8);
    Or(b, Pow2(k))
  }

  /** `b & ~(1 << k)`, in a byte. */
  function Lower(b: byte, k: nat): byte
    requires k < 8
  {
    BytePow(k);
    AndBound(b, 255 - Pow2(k));
    And(b, 255 - Pow2(k))
  }

  lemma ByteBits(b: byte, k: nat, j: nat)
    requires k < 8 && j < 8
    ensures Bit(Raise(b, k), j) <==> j == k || Bit(b, j)
    ensures Bit(Lower(b, k), j) <==> j != k && Bit(b, j)
  {
    hide Bit, And, Or, Pow2;
    BytePow(k);
    BitOr(b, Pow2(k), j);
    BitPow2(k, j);
    BitAnd(b, 255 - Pow2(k), j);
    BitNot(Pow2(k), 8, j);
  }

  // ---------------------------------------------------------------- the array of bits

  /** Bit i of the array. */
  predicate IsSet(bits: seq<byte>, i: nat)
    requires i / 8 < |bits|
  {
    Bit(bits[i / 8], i % 8)
  }

  /** The flags of all pages. */
  ghost function Flags(bits: seq<byte>, count: nat): (u: seq<bool>)
    requires (count + 7) / 8 <= |bits|
    ensures |u| == count && forall i :: 0 <= i < count ==> u[i] == IsSet(bits, i)
  {
    seq(count, i requires 0 <= i < count => IsSet(bits, i))
  }

  /** u with n flags from i on, as far as they exist, set to b. */
  ghost function Assigned(u: seq<bool>, i: nat, n: nat, b: bool): (r: seq<bool>)
    ensures |r| == |u| && forall j :: 0 <= j < |u| ==> r[j] == if i <= j < i + n then b else u[j]
  {
    seq(|u|, j requires 0 <= j < |u| => if i <= j < i + n then b else u[j])
  }

  /** No flag of the n from i on is set, and all of them exist. */
  ghost predicate Run(u: seq<bool>, i: nat, n: nat) {
    i + n <= |u| && forall j :: i <= j < i + n ==> !u[j]
  }

  lemma FlagSet(bits: seq<byte>, bits': seq<byte>, count: nat, i: nat, b: bool)
    requires |bits'| == |bits| && (count + 7) / 8 <= |bits| && i < count
    requires bits' == bits[i / 8 := if b then Raise(bits[i / 8], i % 8) else Lower(bits[i / 8], i % 8)]
    ensures Flags(bits', count) == Assigned(Flags(bits, count), i, 1, b)
  {
    hide Bit, Raise, Lower;
    var u, v := Flags(bits', count), Assigned(Flags(bits, count), i, 1, b);
    forall j | 0 <= j < count
      ensures u[j] == v[j]
    {
      assert j == 8 * (j / 8) + j % 8;
      ByteBits(bits[i / 8], i % 8, j % 8);
    }
  }

  /** bitmap_t */
  class BitArray {
    const bitCount: nat
    const bits: array<byte>

    ghost predicate Valid() {
      bits.Length == (bitCount + 7) / 8
    }

    ghost function Used(): (u: seq<bool>)
      requires Valid()
      reads bits
      ensures |u| == bitCount
    {
      Flags(bits[..], bitCount)
    }

    /** bitmap_byte_count and bitmap_init */
    constructor (count: nat, initBit: bool)
      ensures Valid() && bitCount == count && fresh(bits) && forall i :: 0 <= i < count ==> Used()[i] == initBit
    {
      bitCount := count;
      bits := new byte[(count + 8 - 1) / 8](_ => if initBit then 0xFF else 0);
      new;
      forall k | 0 <= k < 8
        ensures Bit(0xFF, k) && !Bit(0, k)
      {
        BitZero(k);
        BitNot(0, 8, k);
        assert Pow2(8) == 256;
      }
    }

    /** bitmap_get_bit: the masked byte, 0 exactly when the bit is clear. */
    method GetBit(index: nat) returns (r: nat)
      requires Valid() && index < bitCount
      ensures r == if Used()[index] then Pow2(index % 8) else 0
      ensures Used()[index] <==> bits[index / 8] as int / Pow2(index % 8) % 2 == 1
    {
      BitPlace(bits[index / 8], index % 8);
      r := And(bits[index / 8], Pow2(index % 8));
      MaskTest(bits[index / 8], index % 8);
    }

    /** bitmap_set_bit */
    method SetBit(index: nat, count: int, bit: bool)
      requires Valid()
      modifies bits
      ensures Used() == Assigned(old(Used()), index, if count > 0 then count else 0, bit)
    {
      var i, at: nat := 0, index;
      while i < count && at < bitCount
        invariant 0 <= i <= (if count > 0 then count else 0) && at == index + i
        invariant Used() == Assigned(old(Used()), index, i, bit)
      {
        ghost var was := bits[..];
        if bit {
          bits[at / 8] := Raise(bits[at / 8], at % 8);
        } else {
          bits[at / 8] := Lower(bits[at / 8], at % 8);
        }
        FlagSet(was, bits[..], bitCount, at, bit);
        i, at := i + 1, at + 1;
      }
    }

    /** bitmap_get_bit == bit for a bit that is set or not. */
    lemma HitIs(i: nat, b: nat, bit: int)
      requires Valid() && i < bitCount && b == if Used()[i] then Pow2(i % 8) else 0
      ensures Missed(Used(), bit)[i] <==> b != bit
    {
    }

    /** bitmap_alloc_nbits. The comparison is with the masked byte, not with 0 or 1. The inner search
        tests the first bit twice and the last bit of the range not at all, so it finds the first run
        of count - 1 hits (of one for count <= 1), and then sets count bits as far as they exist, for
        bit 0 and bit 1 alike. For clear bits, the bits handed out were all clear exactly when the
        run found is the whole range or is followed by one more clear bit. */
    method AllocNbits(bit: int, count: nat) returns (r: int)
      requires Valid()
      modifies bits
      ensures r == FirstRun(Missed(old(Used()), bit), Tested(count))
      ensures r == -1 ==> Used() == old(Used())
      ensures r != -1 ==> Used() == Assigned(old(Used()), r, count, true)
      ensures bit == 0 && r != -1 ==>
                && FirstRun(old(Used()), Tested(count)) == r
                && (Run(old(Used()), r, count) <==>
                    count <= 1 || ClearAt(old(Used()), FirstRun(old(Used()), Tested(count)) + Tested(count)))
    {
      hide Missed, FirstRun, Run, ClearAt, IsSet, Bit;
      ghost var n, u := Tested(count), Used();
      ghost var m := Missed(u, bit);
      var search: nat := 0;
      while search < bitCount
        invariant Used() == u && 0 <= search <= bitCount == |m|
        invariant forall s :: 0 <= s < search ==> !Run(m, s, n)
      {
        var b := GetBit(search);
        HitIs(search, b, bit);
        if b != bit {
          RunMissed(m, search, search + 1, n);
          search := search + 1;
          continue;
        }
        var ok := search;
        var found, next := CheckRun(ok, bit, count, m);
        if found {
          AllocDone(u, bit, ok, count);
          SetBit(ok, count, true);
          return ok;
        }
        search := next;
      }
      NoRunIs(m, n);
      return -1;
    }

    /** The inner search from a hit on: where the outer search goes on, or the whole run is there. */
    method CheckRun(ok: nat, bit: int, count: nat, ghost m: seq<bool>) returns (found: bool, search: nat)
      requires Valid() && ok < bitCount && m == Missed(Used(), bit) && !m[ok]
      ensures found ==> Run(m, ok, Tested(count))
      ensures !found ==> ok < search <= bitCount && forall s :: ok <= s < search ==> !Run(m, s, Tested(count))
    {
      hide Missed, Bit, IsSet;
      search := ok;
      var i := 1;
      while i < count && search < bitCount
        invariant 1 <= i && (i == 1 || i <= count) && search == ok + i - 1 <= bitCount == |m|
        invariant forall j :: ok <= j < search ==> !m[j]
      {
        var b := GetBit(search);
        HitIs(search, b, bit);
        search := search + 1;
        if b != bit {
          return false, search;
        }
        i := i + 1;
      }
      return i >= count, search;
    }
  }

  lemma RunMissed(m: seq<bool>, from: nat, to: nat, n: nat)
    requires from < to <= |m| && m[to - 1] && n >= to - from
    ensures forall s :: from <= s < to ==> !Run(m, s, n)
  {
  }

  predicate ClearAt(u: seq<bool>, i: nat) {
    i < |u| && !u[i]
  }

  lemma AllocDone(u: seq<bool>, bit: int, r: nat, count: nat)
    requires r < |u| && Run(Missed(u, bit), r, Tested(count))
    requires forall s :: 0 <= s < r ==> !Run(Missed(u, bit), s, Tested(count))
    ensures r == FirstRun(Missed(u, bit), Tested(count))
    ensures bit == 0 ==>
              FirstRun(u, Tested(count)) == r
              && (Run(u, r, count) <==> count <= 1 || ClearAt(u, FirstRun(u, Tested(count)) + Tested(count)))
  {
    hide Missed, FirstRun, Run;
    FirstRunIs(Missed(u, bit), Tested(count), r);
    MissedZero(u);
    if bit == 0 {
      HandedOutClear(u, r, count);
    }
  }

  /** For each bit, whether bitmap_get_bit differs from the value looked for. */
  ghost function Missed(u: seq<bool>, bit: int): (m: seq<bool>)
    ensures |m| == |u| && forall i :: 0 <= i < |u| ==> m[i] == ((if u[i] then Pow2(i % 8) else 0) != bit)
  {
    seq(|u|, i requires 0 <= i < |u| => (if u[i] then Pow2(i % 8) else 0) != bit)
  }

  /** Looking for 0 finds the clear bits. */
  lemma MissedZero(u: seq<bool>)
    ensures Missed(u, 0) == u
  {
  }

  /** Looking for 1 finds a set bit only at the start of a byte. */
  lemma MissedOne(u: seq<bool>, i: nat)
    requires i < |u|
    ensures !Missed(u, 1)[i] <==> u[i] && i % 8 == 0
  {
    if i % 8 > 0 {
      assert Pow2(i % 8) == 2 * Pow2(i % 8 - 1);
    }
  }

  /** How many bits of a request are looked at. */
  function Tested(count: nat): nat {
    if count <= 1 then 1 else count - 1
  }

  /** The start of the first run of n flags that are not set, or -1. */
  ghost function FirstRun(u: seq<bool>, n: nat): (r: int)
    ensures r == -1 || 0 <= r < |u|
  {
    FirstRunFrom(u, n, 0)
  }

  ghost function FirstRunFrom(u: seq<bool>, n: nat, i: nat): (r: int)
    ensures r == -1 || i <= r < |u|
    decreases |u| - i
  {
    if i >= |u| then -1 else if Run(u, i, n) then i else FirstRunFrom(u, n, i + 1)
  }

  lemma {:induction false} FirstRunFromIs(u: seq<bool>, n: nat, i: nat, r: nat)
    requires i <= r < |u| && Run(u, r, n) && forall s :: i <= s < r ==> !Run(u, s, n)
    ensures FirstRunFrom(u, n, i) == r
    decreases r - i
  {
    if i < r {
      FirstRunFromIs(u, n, i + 1, r);
    }
  }

  lemma FirstRunIs(u: seq<bool>, n: nat, r: nat)
    requires r < |u| && Run(u, r, n) && forall s :: 0 <= s < r ==> !Run(u, s, n)
    ensures FirstRun(u, n) == r
  {
    FirstRunFromIs(u, n, 0, r);
  }

  lemma {:induction false} NoRunFromIs(u: seq<bool>, n: nat, i: nat)
    requires forall s :: i <= s < |u| ==> !Run(u, s, n)
    ensures FirstRunFrom(u, n, i) == -1
    decreases |u| - i
  {
    if i < |u| {
      NoRunFromIs(u, n, i + 1);
    }
  }

  lemma NoRunIs(u: seq<bool>, n: nat)
    requires forall s :: 0 <= s < |u| ==> !Run(u, s, n)
    ensures FirstRun(u, n) == -1
  {
    NoRunFromIs(u, n, 0);
  }

  /** FirstRun is -1 exactly when there is no run, and the least start of one otherwise. */
  lemma {:induction false} FirstRunExact(u: seq<bool>, n: nat, i: nat)
    ensures var r := FirstRunFrom(u, n, i);
            if r == -1 then forall s :: i <= s < |u| ==> !Run(u, s, n)
            else i <= r < |u| && Run(u, r, n) && forall s :: i <= s < r ==> !Run(u, s, n)
    decreases |u| - i
  {
    if i < |u| && !Run(u, i, n) {
      FirstRunExact(u, n, i + 1);
    }
  }

  lemma HandedOutClear(u: seq<bool>, r: nat, count: nat)
    requires Run(u, r, Tested(count))
    ensures Run(u, r, count) <==> count <= 1 || ClearAt(u, r + Tested(count))
  {
    if count > 1 && r + Tested(count) < |u| && !u[r + Tested(count)] {
      forall j | r <= j < r + count
        ensures !u[j]
      {
        assert j < r + Tested(count) || j == r + Tested(count);
      }
    }
  }

  /** A request for two pages that hands out a used one: the first page is free, the second is not. */
  method TwoPagesOverlap() returns (b: BitArray, r: int, ghost before: seq<bool>)
    ensures b.Valid() && before == [false, true] && r == 0 && !Run(before, 0, 2) && b.Used() == [true, true]
  {
    b := new BitArray(2, false);
    b.SetBit(1, 1, true);
    before := b.Used();
    assert before == [false, true];
    assert before[1];
    r := b.AllocNbits(0, 2);
    MissedZero(before);
    FirstRunIs(before, 1, 0);
    assert b.Used() == [true, true];
  }
}
