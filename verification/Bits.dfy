/** Bit sequences and the integer-backed bit buffer (bits.py). */
module Bits {
  import opened Models

  /** A sequence of bits in transmission order, most significant bit first. */
  type Bitstring = seq<bool>

  function Pow2(n: nat): (p: nat)
    ensures p > 0
  {
    if n == 0 then 1 else Pow2(n - 1) + Pow2(n - 1)
  }

  function BitValue(b: bool): nat {
    if b then 1 else 0
  }

  /** The number a bit sequence denotes. */
  function Value(s: Bitstring): (v: nat)
    ensures v < Pow2(|s|)
  {
    if s == [] then 0
    else
      var high := Value(s[..|s| - 1]);
      high + high + BitValue(s[|s| - 1])
  }

  function Zeros(n: nat): (s: Bitstring) {
    seq(n, _ => false)
  }

  // ---------------------------------------------------------------------------------------------
  // Numbers and bit sequences
  // ---------------------------------------------------------------------------------------------

  lemma {:induction false} ValueInjective(a: Bitstring, b: Bitstring)
    requires |a| == |b| && Value(a) == Value(b)
    ensures a == b
  {
    if a != [] {
      hide Pow2;
      ValueInjective(a[..|a| - 1], b[..|b| - 1]);
      assert a == a[..|a| - 1] + [a[|a| - 1]];
      assert b == b[..|b| - 1] + [b[|b| - 1]];
    }
  }

  /** The bits that come first count for more. */
  lemma {:induction false} ValueJoin(s: Bitstring, t: Bitstring)
    ensures Value(s + t) == Value(s) * Pow2(|t|) + Value(t)
  {
    hide Value;
    if t == [] {
      assert s + t == s;
      NoValue();
    } else {
      var front, last := t[..|t| - 1], t[|t| - 1];
      ValueJoin(s, front);
      assert s + t == s + front + [last] && t == front + [last];
      ValueAppend(s + front, last);
      ValueAppend(front, last);
      assert Value(s) * Pow2(|t|) == Value(s) * Pow2(|front|) + Value(s) * Pow2(|front|);
    }
  }

  lemma NoValue()
    ensures Value([]) == 0 && Pow2(0) == 1
  {
  }

  lemma ValueAppend(s: Bitstring, b: bool)
    ensures Value(s + [b]) == Value(s) + Value(s) + BitValue(b)
  {
    assert (s + [b])[..|s|] == s;
  }

  /** Every number below 2^n is the value of some n bits. */
  lemma {:induction false} SomeBits(v: nat, n: nat)
    requires v < Pow2(n)
    ensures exists s: Bitstring :: |s| == n && Value(s) == v
  {
    if n == 0 {
      var none: Bitstring := [];
      assert |none| == 0 && Value(none) == 0;
    } else {
      SomeBits(v / 2, n - 1);
      var half: Bitstring :| |half| == n - 1 && Value(half) == v / 2;
      ValueAppend(half, v % 2 == 1);
      assert |half + [v % 2 == 1]| == n;
    }
  }

  /** The n bits of a number. */
  ghost function BitsOf(v: nat, n: nat): (s: Bitstring)
    requires v < Pow2(n)
    ensures |s| == n && Value(s) == v
  {
    SomeBits(v, n);
    var s :| |s| == n && Value(s) == v;
    s
  }

  lemma BitsOfValue(s: Bitstring)
    ensures BitsOf(Value(s), |s|) == s
  {
    ValueInjective(BitsOf(Value(s), |s|), s);
  }

  lemma {:induction false} ValueZeros(s: Bitstring)
    ensures Value(s) == 0 <==> s == Zeros(|s|)
    ensures s == Zeros(|s|) <==> true !in s
  {
    if s != [] {
      hide Pow2;
      var front, last := s[..|s| - 1], s[|s| - 1];
      ValueZeros(front);
      assert s == front + [last];
      assert Zeros(|s|) == Zeros(|front|) + [false];
    }
  }

  lemma {:induction false} ValueLeadingZeros(n: nat, s: Bitstring)
    ensures Value(Zeros(n) + s) == Value(s)
  {
    if s == [] {
      ValueZeros(Zeros(n));
      assert Zeros(n) + s == Zeros(n);
    } else {
      hide Pow2;
      ValueLeadingZeros(n, s[..|s| - 1]);
      assert (Zeros(n) + s)[..n + |s| - 1] == Zeros(n) + s[..|s| - 1];
    }
  }

  // ---------------------------------------------------------------------------------------------
  // Python's shifts and masks
  // ---------------------------------------------------------------------------------------------

  function ShiftLeft(x: nat, n: nat): (r: nat)
    ensures r >= x
  {
    if n == 0 then x else ShiftLeft(x, n - 1) + ShiftLeft(x, n - 1)
  }

  function ShiftRight(x: nat, n: nat): nat {
    if n == 0 then x else ShiftRight(x, n - 1) / 2
  }

  function BitAnd(x: nat, y: nat): nat {
    if x == 0 || y == 0 then 0
    else
      var high := BitAnd(x / 2, y / 2);
      high + high + (if x % 2 == 1 && y % 2 == 1 then 1 else 0)
  }

  function BitOr(x: nat, y: nat): nat
    decreases x + y
  {
    if x == 0 then y
    else if y == 0 then x
    else
      var high := BitOr(x / 2, y / 2);
      high + high + (if x % 2 == 1 || y % 2 == 1 then 1 else 0)
  }

  lemma MaskOf(n: nat)
    ensures ShiftLeft(1, n) == Pow2(n)
  {
  }

  lemma ValueHalves(s: Bitstring)
    requires s != []
    ensures Value(s) / 2 == Value(s[..|s| - 1]) && Value(s) % 2 == BitValue(s[|s| - 1])
  {
    hide Pow2;
  }

  /** Shifting right by k drops the last k bits. */
  lemma {:induction false} ShiftRightDrops(s: Bitstring, k: nat)
    requires k <= |s|
    ensures ShiftRight(Value(s), k) == Value(s[..|s| - k])
  {
    if k == 0 {
      assert s[..|s|] == s;
    } else {
      hide Value;
      ShiftRightDrops(s, k - 1);
      var kept := s[..|s| - (k - 1)];
      ValueHalves(kept);
      assert kept[..|kept| - 1] == s[..|s| - k];
    }
  }

  /** A conjunction of masks is computed one bit at a time. */
  lemma AndStep(s: Bitstring, y: nat)
    requires s != []
    ensures BitAnd(Value(s), y)
            == BitAnd(Value(s[..|s| - 1]), y / 2) + BitAnd(Value(s[..|s| - 1]), y / 2)
               + (if s[|s| - 1] && y % 2 == 1 then 1 else 0)
  {
    hide Value;
    ValueHalves(s);
  }

  lemma HalfMask(n: nat)
    requires n > 0
    ensures (Pow2(n) - 1) / 2 == Pow2(n - 1) - 1 && (Pow2(n) - 1) % 2 == 1
  {
  }

  /** Masking with 2^n - 1 keeps the last n bits. */
  lemma {:induction false} MaskKeeps(s: Bitstring, n: nat)
    requires n <= |s|
    ensures BitAnd(Value(s), Pow2(n) - 1) == Value(s[|s| - n..])
  {
    if n > 0 {
      hide BitAnd, Value;
      var front := s[..|s| - 1];
      MaskKeeps(front, n - 1);
      AndStep(s, Pow2(n) - 1);
      HalfMask(n);
      hide Pow2;
      ValueOfTail(s, n);
    }
  }

  /** Masking with 2^k tests bit k, counted from the last. */
  lemma {:induction false} MaskTests(s: Bitstring, k: nat)
    requires k < |s|
    ensures BitAnd(Value(s), Pow2(k)) != 0 <==> s[|s| - 1 - k]
  {
    var front := s[..|s| - 1];
    if k == 0 {
      AndStep(s, 1);
      assert BitAnd(Value(front), 0) == 0;
    } else {
      hide BitAnd, Value;
      MaskTests(front, k - 1);
      AndStep(s, Pow2(k));
      assert Pow2(k) / 2 == Pow2(k - 1) && Pow2(k) % 2 == 0;
    }
  }

  lemma {:induction false} ShiftLeftZeros(s: Bitstring, n: nat)
    ensures ShiftLeft(Value(s), n) == Value(s + Zeros(n))
  {
    if n == 0 {
      assert s + Zeros(0) == s;
    } else {
      hide Value;
      ShiftLeftZeros(s, n - 1);
      ValueAppend(s + Zeros(n - 1), false);
      assert s + Zeros(n) == s + Zeros(n - 1) + [false];
    }
  }

  /** Or-ing t into the zero bits after s is concatenation. */
  lemma {:induction false} OrFillsZeros(s: Bitstring, t: Bitstring)
    ensures BitOr(Value(s + Zeros(|t|)), Value(t)) == Value(s + t)
  {
    if t == [] {
      assert s + t == s + Zeros(0) == s;
    } else {
      hide Value, BitOr;
      var front, last := t[..|t| - 1], t[|t| - 1];
      OrFillsZeros(s, front);
      ValueAppendZero(s, |front|);
      ValueAppendLast(s, t);
      ValueAppendLast([], t);
      assert [] + t == t && [] + front == front;
      OrStep(Value(s + Zeros(|front|)), Value(front), last);
    }
  }

  lemma ValueAppendZero(s: Bitstring, n: nat)
    ensures Value(s + Zeros(n + 1)) == Value(s + Zeros(n)) + Value(s + Zeros(n))
  {
    hide Value;
    assert s + Zeros(n + 1) == s + Zeros(n) + [false];
    ValueAppend(s + Zeros(n), false);
  }

  lemma ValueAppendLast(s: Bitstring, t: Bitstring)
    requires t != []
    ensures var front, last := t[..|t| - 1], t[|t| - 1];
            Value(s + t) == Value(s + front) + Value(s + front) + BitValue(last)
  {
    hide Value;
    assert s + t == s + t[..|t| - 1] + [t[|t| - 1]];
    ValueAppend(s + t[..|t| - 1], t[|t| - 1]);
  }

  /** The last n bits, split before the very last one. */
  lemma ValueOfTail(s: Bitstring, n: nat)
    requires 0 < n <= |s|
    ensures var front := s[..|s| - 1];
            Value(s[|s| - n..])
            == Value(front[|front| - (n - 1)..]) + Value(front[|front| - (n - 1)..]) + BitValue(s[|s| - 1])
  {
    hide Value;
    var tail, inner := s[|s| - n..], s[..|s| - 1][|s| - n..];
    assert tail == inner + [s[|s| - 1]];
    ValueAppend(inner, s[|s| - 1]);
  }

  lemma OrStep(x: nat, y: nat, b: bool)
    ensures BitOr(x + x, y + y + BitValue(b)) == BitOr(x, y) + BitOr(x, y) + BitValue(b)
  {
    var p, q := x + x, y + y + BitValue(b);
    assert p / 2 == x && p % 2 == 0 && q / 2 == y && q % 2 == BitValue(b);
  }

  // ---------------------------------------------------------------------------------------------
  // Bytes as bits
  // ---------------------------------------------------------------------------------------------

  lemma Pow2Of8()
    ensures Pow2(4) == 16 && Pow2(8) == 256
  {
    assert Pow2(4) == 16;
  }

  ghost function ByteBits(b: Byte): (s: Bitstring)
    ensures |s| == 8 && Value(s) == b
  {
    Pow2Of8();
    BitsOf(b, 8)
  }

  function OctetValue(s: Bitstring): (b: Byte)
    requires |s| == 8
    ensures b == Value(s)
  {
    Pow2Of8();
    Value(s)
  }

  lemma ByteBitsOfOctet(s: Bitstring)
    requires |s| == 8
    ensures ByteBits(OctetValue(s)) == s
  {
    hide Value, Pow2;
    ValueInjective(ByteBits(OctetValue(s)), s);
  }

  /** The bits of a byte string, most significant bit of each byte first. */
  ghost function BytesToBits(data: Bytes): Bitstring {
    if data == [] then [] else ByteBits(data[0]) + BytesToBits(data[1..])
  }

  lemma {:induction false} BytesToBitsLength(data: Bytes)
    ensures |BytesToBits(data)| == 8 * |data|
  {
    if data != [] {
      hide ByteBits;
      BytesToBitsLength(data[1..]);
    }
  }

  lemma {:induction false} BytesToBitsInjective(a: Bytes, b: Bytes)
    requires |a| == |b| && BytesToBits(a) == BytesToBits(b)
    ensures a == b
  {
    if a != [] {
      hide ByteBits;
      var x, y := ByteBits(a[0]), ByteBits(b[0]);
      assert BytesToBits(a)[..8] == x && BytesToBits(a)[8..] == BytesToBits(a[1..]);
      assert BytesToBits(b)[..8] == y && BytesToBits(b)[8..] == BytesToBits(b[1..]);
      BytesToBitsInjective(a[1..], b[1..]);
      assert a == [a[0]] + a[1..] && b == [b[0]] + b[1..];
    }
  }

  /** Whole bytes needed for n bits, and the zero bits left over in the last one. */
  function ByteLength(n: nat): nat {
    (n + 7) / 8
  }

  function Padding(n: nat): (p: nat)
    ensures p < 8
  {
    8 * ByteLength(n) - n
  }

  lemma PackedLength(n: nat, bytes: nat)
    requires n <= 8 * bytes < n + 8
    ensures ByteLength(n) == bytes && Padding(n) == 8 * bytes - n
  {
  }

  lemma LengthStep(n: nat)
    ensures n == 0 ==> ByteLength(n) == 0 && Padding(n) == 0
    ensures 0 < n <= 8 ==> ByteLength(n) == 1 && Padding(n) == 8 - n
    ensures n > 8 ==> ByteLength(n) == 1 + ByteLength(n - 8) && Padding(n) == Padding(n - 8)
  {
  }

  /** A bit sequence packed into whole bytes, zero bits filling the tail of the last one. */
  function Pack(s: Bitstring): Bytes {
    if s == [] then []
    else if |s| <= 8 then [OctetValue(s + Zeros(8 - |s|))]
    else [OctetValue(s[..8])] + Pack(s[8..])
  }

  lemma {:induction false} PackBits(s: Bitstring)
    ensures |Pack(s)| == ByteLength(|s|)
    ensures BytesToBits(Pack(s)) == s + Zeros(Padding(|s|))
  {
    hide ByteBits, Value, ByteLength, Padding, OctetValue;
    LengthStep(|s|);
    if s == [] {
      assert s + Zeros(0) == [];
    } else if |s| <= 8 {
      var padded := s + Zeros(8 - |s|);
      ByteBitsOfOctet(padded);
      OneByteBits(OctetValue(padded), []);
    } else {
      PackBits(s[8..]);
      ByteBitsOfOctet(s[..8]);
      OneByteBits(OctetValue(s[..8]), Pack(s[8..]));
      assert s == s[..8] + s[8..];
    }
  }

  lemma OneByteBits(b: Byte, rest: Bytes)
    ensures BytesToBits([b] + rest) == ByteBits(b) + BytesToBits(rest)
  {
    hide ByteBits;
    assert ([b] + rest)[1..] == rest;
  }

  /** A byte string whose bits are s and then zeros to the end of the last byte is the packing of s. */
  lemma PackOfPrefix(data: Bytes, s: Bitstring)
    requires |data| == ByteLength(|s|)
    requires BytesToBits(data) == s + Zeros(Padding(|s|))
    ensures data == Pack(s)
  {
    hide ByteLength, Padding, Pack, BytesToBits;
    PackBits(s);
    BytesToBitsInjective(data, Pack(s));
  }
}
