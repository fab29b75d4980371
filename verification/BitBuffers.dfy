/** The integer-backed bit buffer of bits.py, and why its shifts and masks are sequence operations. */
module BitBuffers {
  import opened Models
  import opened Bits

  datatype BitError = BadLength | BadBit | IndexOutOfRange | BadStep

  /** int.from_bytes(data, "big"). */
  function FromBigEndian(data: Bytes): nat {
    if data == [] then 0 else 256 * FromBigEndian(data[..|data| - 1]) + data[|data| - 1]
  }

  /** value.to_bytes(n, "big"). */
  function ToBigEndian(value: nat, n: nat): (data: Bytes)
    ensures |data| == n
  {
    if n == 0 then [] else ToBigEndian(value / 256, n - 1) + [value % 256]
  }

  /** _validated_length. */
  function ValidatedLength(data: Bytes, bitLength: Option<int>): (r: Result<nat, BitError>) {
    match bitLength
    case None => Ok(8 * |data|)
    case Some(n) => if 0 <= n <= 8 * |data| then Ok(n) else Err(BadLength)
  }

  /** _normalized_index: a negative index counts from the end. */
  function NormalizedIndex(index: int, length: nat): (r: Result<nat, BitError>) {
    var i := if index < 0 then index + length else index;
    if 0 <= i < length then Ok(i) else Err(IndexOutOfRange)
  }

  /** One bound of slice.indices: absent is the default, negative counts from the end, then clamp. */
  function ClampedBound(bound: Option<int>, absent: nat, length: nat): (i: nat)
    requires absent <= length
    ensures i <= length
  {
    match bound
    case None => absent
    case Some(b) =>
      var i := if b < 0 then b + length else b;
      if i < 0 then 0 else if i > length then length else i
  }

  /** One integer and a bit length. */
  datatype BitBuffer = BitBuffer(value: nat, length: nat)
  {
    /** The invariant of every buffer the operations build. */
    ghost predicate Valid() {
      value < Pow2(length)
    }

    /** The bit sequence the buffer stands for. */
    ghost function Contents(): Bitstring
      requires Valid()
    {
      BitsOf(value, length)
    }

    /** from_bytes. */
    static function FromBytes(data: Bytes, bitLength: Option<int>): (r: Result<BitBuffer, BitError>)
    {
      match ValidatedLength(data, bitLength)
      case Err(e) => Err(e)
      case Ok(n) =>
        if n > 8 * |data| then Err(BadLength)
        else Ok(BitBuffer(ShiftRight(FromBigEndian(data), 8 * |data| - n), n))
    }

    /** __getitem__ with an integer. */
    function At(index: int): (r: Result<nat, BitError>) {
      match NormalizedIndex(index, length)
      case Err(e) => Err(e)
      case Ok(i) => if i >= length then Err(IndexOutOfRange) else Ok(BitAnd(ShiftRight(value, length - i - 1), 1))
    }

    /** __getitem__ with a slice. */
    function Slice(start: Option<int>, stop: Option<int>, step: int): (r: Result<BitBuffer, BitError>) {
      if step != 1 then Err(BadStep)
      else
        var lo := ClampedBound(start, 0, length);
        var hi := ClampedBound(stop, length, length);
        var end := if hi < lo then lo else hi;
        Ok(BitBuffer(BitAnd(ShiftRight(value, length - end), ShiftLeft(1, end - lo) - 1), end - lo))
    }

    /** __add__. */
    function Concat(other: BitBuffer): BitBuffer {
      BitBuffer(BitOr(ShiftLeft(value, other.length), other.value), length + other.length)
    }

    /** to_bytes. */
    function ToBytes(): Bytes {
      if length == 0 then []
      else ToBigEndian(ShiftLeft(value, Padding(length)), ByteLength(length))
    }
  }

  /** A buffer holds exactly the bits of a sequence. */
  ghost predicate Represents(b: BitBuffer, s: Bitstring) {
    b.length == |s| && b.value == Value(s)
  }

  /** Holding a sequence is being valid with that sequence as contents. */
  lemma RepresentsContents(b: BitBuffer, s: Bitstring)
    ensures Represents(b, s) <==> b.Valid() && b.Contents() == s
  {
    hide Value, Pow2, BitsOf;
    BitsOfValue(s);
  }

  /** __init__: shift each bit into the value; anything but 0 and 1 is refused. */
  method BufferOf(bits: seq<int>) returns (r: Result<BitBuffer, BitError>)
    ensures r.Ok? <==> forall i | 0 <= i < |bits| :: bits[i] == 0 || bits[i] == 1
    ensures r.Err? ==> r.error == BadBit
    ensures r.Ok? ==> Represents(r.value, seq(|bits|, i requires 0 <= i < |bits| => bits[i] == 1))
  {
    hide Value, BitOr, ShiftLeft;
    var value: nat, length: nat := 0, 0;
    ghost var s: Bitstring := [];
    assert Value([]) == 0 by {
      ValueZeros([]);
    }
    while length < |bits|
      invariant length == |s| <= |bits|
      invariant forall i | 0 <= i < length :: (bits[i] == 0 || bits[i] == 1) && s[i] == (bits[i] == 1)
      invariant value == Value(s)
    {
      var bit := bits[length];
      if bit != 0 && bit != 1 {
        return Err(BadBit);
      }
      ShiftInBit(s, bit == 1);
      value := BitOr(ShiftLeft(value, 1), bit);
      s := s + [bit == 1];
      length := length + 1;
    }
    assert s == seq(|bits|, i requires 0 <= i < |bits| => bits[i] == 1);
    return Ok(BitBuffer(value, length));
  }

  /** Shifting left and or-ing in a bit appends it. */
  lemma ShiftInBit(s: Bitstring, b: bool)
    ensures BitOr(ShiftLeft(Value(s), 1), BitValue(b)) == Value(s + [b])
  {
    hide Value, BitOr, ShiftLeft;
    ShiftLeftZeros(s, 1);
    OrFillsZeros(s, [b]);
    OneBitValue(b);
  }

  lemma OneBitValue(b: bool)
    ensures Value([b]) == BitValue(b)
  {
    ValueAppend([], b);
    assert [] + [b] == [b];
  }

  /** Big-endian bytes of a bit sequence are its bytes packed in order. */
  lemma {:induction false} ValueOfBytes(data: Bytes)
    ensures FromBigEndian(data) == Value(BytesToBits(data))
  {
    if data != [] {
      hide Value;
      var front, last := data[..|data| - 1], data[|data| - 1];
      ValueOfBytes(front);
      BytesToBitsAppend(front, last);
      assert data == front + [last];
      ValueAppendByte(BytesToBits(front), last);
    } else {
      assert Value([]) == 0;
    }
  }

  lemma {:induction false} BytesToBitsAppend(front: Bytes, last: Byte)
    ensures BytesToBits(front + [last]) == BytesToBits(front) + ByteBits(last)
  {
    hide ByteBits;
    if front == [] {
      OneByteBits(last, []);
      assert front + [last] == [last] + [];
    } else {
      BytesToBitsAppend(front[1..], last);
      assert front + [last] == [front[0]] + (front[1..] + [last]);
      OneByteBits(front[0], front[1..] + [last]);
      OneByteBits(front[0], front[1..]);
      assert front == [front[0]] + front[1..];
    }
  }

  lemma ValueAppendByte(s: Bitstring, b: Byte)
    ensures Value(s + ByteBits(b)) == 256 * Value(s) + b
  {
    ValueAppendOctet(s, ByteBits(b));
  }

  lemma {:induction false} ValueConcat(s: Bitstring, t: Bitstring)
    ensures Value(s + t) == ShiftLeft(Value(s), |t|) + Value(t)
  {
    if t == [] {
      assert s + t == s;
    } else {
      hide Value;
      ValueConcat(s, t[..|t| - 1]);
      ValueAppendLast(s, t);
      ValueAppendLast([], t);
      assert [] + t == t && [] + t[..|t| - 1] == t[..|t| - 1];
    }
  }

  lemma ShiftLeftByTwo(x: nat, n: nat)
    ensures ShiftLeft(x, n + 2) == 4 * ShiftLeft(x, n)
  {
    assert ShiftLeft(x, n + 1) == ShiftLeft(x, n) + ShiftLeft(x, n);
  }

  lemma ShiftLeftOctet(x: nat)
    ensures ShiftLeft(x, 8) == 256 * x
  {
    ShiftLeftByTwo(x, 0);
    ShiftLeftByTwo(x, 2);
    ShiftLeftByTwo(x, 4);
    ShiftLeftByTwo(x, 6);
  }

  lemma ValueAppendOctet(s: Bitstring, t: Bitstring)
    requires |t| == 8
    ensures Value(s + t) == 256 * Value(s) + Value(t)
  {
    hide Value, ShiftLeft;
    ValueConcat(s, t);
    ShiftLeftOctet(Value(s));
  }

  /** from_bytes is refused exactly when the length does not fit the data. */
  lemma FromBytesRefusal(data: Bytes, bitLength: Option<int>)
    ensures BitBuffer.FromBytes(data, bitLength).Ok? <==> (bitLength.Some? ==> 0 <= bitLength.value <= 8 * |data|)
    ensures BitBuffer.FromBytes(data, bitLength).Err? ==> BitBuffer.FromBytes(data, bitLength) == Err(BadLength)
  {
    hide ShiftRight, FromBigEndian;
  }

  /** from_bytes is the leading bits of the byte string, all of them by default. */
  lemma FromBytesIsPrefix(data: Bytes, bitLength: Option<int>)
    requires bitLength.Some? ==> 0 <= bitLength.value <= 8 * |data|
    ensures var n := if bitLength.None? then |BytesToBits(data)| else bitLength.value;
            BitBuffer.FromBytes(data, bitLength).Ok? && n <= |BytesToBits(data)|
            && Represents(BitBuffer.FromBytes(data, bitLength).value, BytesToBits(data)[..n])
  {
    hide BytesToBits, FromBigEndian, Value, ShiftRight;
    var bits := BytesToBits(data);
    BytesToBitsLength(data);
    var n := if bitLength.None? then |bits| else bitLength.value;
    ValueOfBytes(data);
    ShiftRightDrops(bits, |bits| - n);
  }

  /** Indexing reads the bit of the sequence, a negative index counting from its end. */
  lemma AtIsIndexing(b: BitBuffer, s: Bitstring, index: int)
    requires Represents(b, s)
    ensures -|s| <= index < |s| ==> b.At(index) == Ok(BitValue(s[if index < 0 then index + |s| else index]))
    ensures !(-|s| <= index < |s|) ==> b.At(index) == Err(IndexOutOfRange)
  {
    hide Value, ShiftRight, BitAnd;
    if -|s| <= index < |s| {
      BitAt(s, if index < 0 then index + |s| else index);
    }
  }

  lemma BitAt(s: Bitstring, i: nat)
    requires i < |s|
    ensures BitAnd(ShiftRight(Value(s), |s| - i - 1), 1) == BitValue(s[i])
  {
    hide Value, ShiftRight, BitAnd;
    ShiftRightDrops(s, |s| - i - 1);
    MaskKeeps(s[..i + 1], 1);
    assert s[..i + 1][i..] == [s[i]];
    OneBitValue(s[i]);
  }

  /** A negative bound counts from the end, and an absent one leaves its end open. */
  lemma BoundMeans(b: int, absent: nat, length: nat, i: nat)
    requires absent <= length && i < length
    ensures i < ClampedBound(Some(b), absent, length) <==> (if b < 0 then i - length < b else i < b)
    ensures ClampedBound(None, absent, length) == absent
  {
  }

  /** A slice is refused exactly when its step is not one. */
  lemma SliceRefusal(b: BitBuffer, start: Option<int>, stop: Option<int>, step: int)
    ensures b.Slice(start, stop, step).Err? <==> step != 1
    ensures b.Slice(start, stop, step).Err? ==> b.Slice(start, stop, step) == Err(BadStep)
  {
    hide ShiftRight, BitAnd, ShiftLeft, ClampedBound;
  }

  /** Slicing is sequence slicing between the clamped bounds. */
  lemma SliceIsSlicing(b: BitBuffer, s: Bitstring, start: Option<int>, stop: Option<int>)
    requires Represents(b, s)
    ensures var lo := ClampedBound(start, 0, |s|);
            var hi := ClampedBound(stop, |s|, |s|);
            var r := b.Slice(start, stop, 1);
            r.Ok? && Represents(r.value, s[lo..if hi < lo then lo else hi])
  {
    hide Value, ShiftRight, BitAnd, ShiftLeft;
    var lo := ClampedBound(start, 0, |s|);
    var hi := ClampedBound(stop, |s|, |s|);
    SliceBits(s, lo, if hi < lo then lo else hi);
  }

  lemma SliceBits(s: Bitstring, lo: nat, end: nat)
    requires lo <= end <= |s|
    ensures BitAnd(ShiftRight(Value(s), |s| - end), ShiftLeft(1, end - lo) - 1) == Value(s[lo..end])
  {
    hide Value, ShiftRight, BitAnd, ShiftLeft;
    ShiftRightDrops(s, |s| - end);
    MaskKeeps(s[..end], end - lo);
    MaskOf(end - lo);
    assert s[..end][lo..] == s[lo..end];
  }

  /** Concatenation is sequence concatenation. */
  lemma ConcatIsConcatenation(a: BitBuffer, s: Bitstring, b: BitBuffer, t: Bitstring)
    requires Represents(a, s) && Represents(b, t)
    ensures Represents(a.Concat(b), s + t)
  {
    hide Value, BitOr, ShiftLeft;
    ShiftLeftZeros(s, |t|);
    OrFillsZeros(s, t);
  }

  /** Whole bytes of a bit sequence, as to_bytes extracts them from the number. */
  lemma {:induction false} ToBigEndianBits(s: Bitstring, n: nat)
    requires |s| == 8 * n
    ensures BytesToBits(ToBigEndian(Value(s), n)) == s
  {
    if n == 0 {
      assert s == [];
    } else {
      hide Value, ByteBits, BytesToBits;
      var front, last := s[..8 * (n - 1)], s[8 * (n - 1)..];
      assert s == front + last;
      ValueAppendOctet(front, last);
      ByteBitsOfOctet(last);
      ToBigEndianBits(front, n - 1);
      BytesToBitsAppend(ToBigEndian(Value(front), n - 1), OctetValue(last));
      LastByte(Value(front), OctetValue(last), n);
    }
  }

  lemma LastByte(high: nat, low: Byte, n: nat)
    requires n > 0
    ensures ToBigEndian(256 * high + low, n) == ToBigEndian(high, n - 1) + [low]
  {
  }

  /** to_bytes packs the sequence, zero bits filling the last byte. */
  lemma ToBytesIsPack(b: BitBuffer, s: Bitstring)
    requires Represents(b, s)
    ensures b.ToBytes() == Pack(s)
  {
    if s == [] {
      assert b.ToBytes() == [];
    } else {
      hide Value, ShiftLeft, ToBigEndian, Pack, BytesToBits;
      var n := |s|;
      ShiftLeftZeros(s, Padding(n));
      ToBigEndianBits(s + Zeros(Padding(n)), ByteLength(n));
      PackOfPrefix(ToBigEndian(Value(s + Zeros(Padding(n))), ByteLength(n)), s);
    }
  }

  /** from_bytes undoes to_bytes when told the length. */
  lemma BytesRoundTrip(b: BitBuffer)
    requires b.Valid()
    ensures BitBuffer.FromBytes(b.ToBytes(), Some(b.length)) == Ok(b)
  {
    hide Value, Pow2, BitsOf, ByteLength, Padding, Pack, BytesToBits;
    var s := b.Contents();
    RepresentsContents(b, s);
    RoundTripOf(b, s);
  }

  lemma RoundTripOf(b: BitBuffer, s: Bitstring)
    requires Represents(b, s)
    ensures BitBuffer.FromBytes(b.ToBytes(), Some(b.length)) == Ok(b)
  {
    hide Value, ByteLength, Padding, Pack, BytesToBits, ShiftRight, ShiftLeft, FromBigEndian, ToBigEndian;
    var data := Pack(s);
    ToBytesIsPack(b, s);
    PackBits(s);
    BytesToBitsLength(data);
    FromBytesIsPrefix(data, Some(|s|));
    assert (s + Zeros(Padding(|s|)))[..|s|] == s;
  }
}
