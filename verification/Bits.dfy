/** Little-endian bit strings: the least significant bit of a number comes first. */
module Bits {
  import opened Common

  type Bit = bool

  const BYTE_BITS: nat := 8

  type Byte = n: int | 0 <= n < 256

  function ShiftLeft(value: nat, count: nat): (r: nat)
    ensures r >= value
  {
    if count == 0 then value else 2 * ShiftLeft(value, count - 1)
  }

  function ShiftRight(value: nat, count: nat): nat
    decreases count
  {
    if count == 0 then value else ShiftRight(value / 2, count - 1)
  }

  /** The number that a mask of `count` ones leaves. */
  function LowBits(value: nat, count: nat): nat
    decreases count
  {
    if count == 0 then 0 else value % 2 + 2 * LowBits(value / 2, count - 1)
  }

  function Pow2(n: nat): nat { ShiftLeft(1, n) }

  /** The low `count` bits of a number. */
  function ToBits(value: nat, count: nat): (r: seq<Bit>)
    ensures |r| == count
  {
    seq(count, i requires 0 <= i < count => ShiftRight(value, i) % 2 == 1)
  }

  lemma ToBitsTail(value: nat, count: nat)
    requires count > 0
    ensures ToBits(value, count)[0] <==> value % 2 == 1
    ensures ToBits(value, count)[1..] == ToBits(value / 2, count - 1)
  {
    forall i | 0 <= i < count - 1
      ensures ToBits(value, count)[1..][i] == ToBits(value / 2, count - 1)[i]
    {
      assert ShiftRight(value, i + 1) == ShiftRight(value / 2, i);
    }
  }

  function ValueOf(bits: seq<Bit>): (r: nat)
    ensures r < Pow2(|bits|)
  {
    if bits == [] then 0 else (if bits[0] then 1 else 0) + 2 * ValueOf(bits[1..])
  }

  lemma {:induction false} Pow2Grows(a: nat, b: nat)
    requires a <= b
    ensures Pow2(a) <= Pow2(b)
    ensures a < b ==> 2 * Pow2(a) <= Pow2(b)
  {
    if a < b {
      Pow2Grows(a, b - 1);
    }
  }

  /** Reading back what was written, when the value fits. */
  lemma {:induction false} ValueOfToBits(value: nat, count: nat)
    requires value < Pow2(count)
    ensures ValueOf(ToBits(value, count)) == value
    decreases count
  {
    if count > 0 {
      ValueOfToBits(value / 2, count - 1);
      ToBitsTail(value, count);
    }
  }

  /** Concatenation puts the second string above the first. */
  lemma {:induction false} ValueOfConcat(a: seq<Bit>, b: seq<Bit>)
    ensures ValueOf(a + b) == ValueOf(a) + ShiftLeft(ValueOf(b), |a|)
  {
    if a == [] {
      assert a + b == b;
    } else {
      ValueOfConcat(a[1..], b);
      assert (a + b)[1..] == a[1..] + b && (a + b)[0] == a[0];
    }
  }

  lemma SliceOfTail<T>(s: seq<T>, from: nat, to: nat)
    requires 0 < from <= to <= |s|
    ensures s[from..to] == s[1..][from - 1..to - 1]
  {
    var a, b := s[from..to], s[1..][from - 1..to - 1];
    assert forall k :: 0 <= k < |a| ==> a[k] == s[from + k] && b[k] == s[from + k];
  }

  /** A slice of the bits of a number is the number shifted down and masked. */
  lemma {:induction false} SliceOfBits(value: nat, count: nat, from: nat, len: nat)
    requires from + len <= count
    ensures ValueOf(ToBits(value, count)[from..from + len]) == LowBits(ShiftRight(value, from), len)
    decreases count
  {
    if count > 0 {
      ToBitsTail(value, count);
    }
    if from > 0 {
      SliceOfBits(value / 2, count - 1, from - 1, len);
      SliceOfTail(ToBits(value, count), from, from + len);
    } else if len == 0 {
      assert ToBits(value, count)[0..0] == [];
    } else {
      SliceOfBits(value / 2, count - 1, 0, len - 1);
      var s := ToBits(value, count)[0..len];
      assert s[1..] == ToBits(value / 2, count - 1)[0..len - 1];
    }
  }

  /** The bits of a byte string, each byte least significant bit first. */
  function BytesToBits(bytes: seq<Byte>): (r: seq<Bit>)
    ensures |r| == BYTE_BITS * |bytes|
  {
    if bytes == [] then [] else ToBits(bytes[0], BYTE_BITS) + BytesToBits(bytes[1..])
  }

  lemma {:induction false} BytesToBitsConcat(a: seq<Byte>, b: seq<Byte>)
    ensures BytesToBits(a + b) == BytesToBits(a) + BytesToBits(b)
  {
    if a == [] {
      assert a + b == b;
    } else {
      BytesToBitsConcat(a[1..], b);
      assert (a + b)[1..] == a[1..] + b && (a + b)[0] == a[0];
      ConcatAssociates(ToBits(a[0], BYTE_BITS), BytesToBits(a[1..]), BytesToBits(b));
    }
  }
}
