/**
 * `Tilde::Util::Bytes`: unsigned 64-bit integers as base-128 varints (unsigned
 * LEB128, the Protocol Buffers varint) and strings as a varint byte length
 * followed by the bytes, appended to a caller's buffer.
 *
 * `Varint` is the encoding as a function; `ReadVarint` and `ReadString` are
 * decoders for it, and the lemmas prove the round trips, the length bounds,
 * self-delimitation and minimality.
 */
module Bytes {
  import opened Wrappers

  newtype byte = b: int | 0 <= b < 256

  const MinUint64: int := 0
  const MaxUint64: int := 0xFFFF_FFFF_FFFF_FFFF

  /** `OutOfRangeError`, carrying the offending value. */
  datatype RangeError = OutOfRange(value: int)

  /** The caller's byte buffer, which the encoders append to in place. */
  class ByteBuffer {
    var bytes: seq<byte>

    constructor (bytes: seq<byte>)
      ensures this.bytes == bytes
    {
      this.bytes := bytes;
    }
  }

  // ---------------------------------------------------------------------------
  // The encoding

  /**
   * Little-endian groups of seven bits; every byte but the last carries the
   * continuation bit 0x80. At least one byte, and no zero last byte unless the
   * value is zero.
   */
  function Varint(n: nat): (r: seq<byte>)
    ensures |r| >= 1
    ensures r[|r| - 1] < 0x80
    ensures forall i | 0 <= i < |r| - 1 :: r[i] >= 0x80
    ensures n > 0 ==> r[|r| - 1] != 0
    decreases n
  {
    if n < 0x80 then [n as byte]
    else [(n % 0x80 + 0x80) as byte] + Varint(n / 0x80)
  }

  /**
   * Reads one varint from the front of `bs`: its value and how many bytes it
   * took, or nil if `bs` ends before a byte without the continuation bit.
   */
  function ReadVarint(bs: seq<byte>): (r: Option<(nat, nat)>)
    ensures r.Some? ==> 1 <= r.value.1 <= |bs|
  {
    if |bs| == 0 then None
    else if bs[0] < 0x80 then Some((bs[0] as nat, 1))
    else match ReadVarint(bs[1..])
      case None => None
      case Some((v, k)) => Some(((bs[0] - 0x80) as nat + 0x80 * v, k + 1))
  }

  function Pow128(k: nat): (p: nat)
    ensures p >= 1
  {
    if k == 0 then 1 else 0x80 * Pow128(k - 1)
  }

  /** Decoding the encoding of `n`, whatever follows it, gives back `n` and the encoding's length. */
  lemma {:induction false} ReadVarintAppended(n: nat, rest: seq<byte>)
    ensures ReadVarint(Varint(n) + rest) == Some((n, |Varint(n)|))
    decreases n
  {
    var bs := Varint(n) + rest;
    if n >= 0x80 {
      ReadVarintAppended(n / 0x80, rest);
      assert bs[1..] == Varint(n / 0x80) + rest;
    }
  }

  /** Decoding the bytes appended by `AppendUint64` gives back `n`. */
  lemma VarintRoundTrip(n: nat)
    ensures ReadVarint(Varint(n)) == Some((n, |Varint(n)|))
  {
    ReadVarintAppended(n, []);
    assert Varint(n) + [] == Varint(n);
  }

  /**
   * Minimality: an encoding that reads as a whole and has no zero last byte
   * (other than a lone zero) is the encoding `Varint` produces.
   */
  lemma {:induction false} CanonicalIsVarint(bs: seq<byte>)
    requires ReadVarint(bs).Some? && ReadVarint(bs).value.1 == |bs|
    requires |bs| > 1 ==> bs[|bs| - 1] != 0
    ensures bs == Varint(ReadVarint(bs).value.0)
    decreases |bs|
  {
    if bs[0] < 0x80 {
      assert bs == [bs[0]];
    } else {
      var tail := bs[1..];
      var v := ReadVarint(tail).value.0;
      var low := (bs[0] - 0x80) as nat;
      assert tail[|tail| - 1] == bs[|bs| - 1];
      CanonicalIsVarint(tail);
      assert Varint(0) == [0];
      assert v >= 1;
      var w := low + 0x80 * v;
      assert ReadVarint(bs).value.0 == w;
      DigitSplit(low, v);
      assert Varint(w) == [(low + 0x80) as byte] + Varint(v);
      assert bs == [bs[0]] + tail;
    }
  }

  lemma DigitSplit(low: nat, high: nat)
    requires low < 0x80
    ensures (low + 0x80 * high) % 0x80 == low && (low + 0x80 * high) / 0x80 == high
  {
  }

  /** Dividing by 128 scales a bound on `n` by the same factor. */
  lemma DivBounds(n: nat, p: nat)
    ensures n < 0x80 * p ==> n / 0x80 < p
    ensures n >= 0x80 * p ==> n / 0x80 >= p
  {
    assert n == 0x80 * (n / 0x80) + n % 0x80;
  }

  /** The encoding of `n` has at most `k` bytes when `n` fits in `k` groups of seven bits. */
  lemma {:induction false} VarintShort(n: nat, k: nat)
    requires k >= 1 && n < Pow128(k)
    ensures |Varint(n)| <= k
    decreases k
  {
    if n >= 0x80 {
      DivBounds(n, Pow128(k - 1));
      VarintShort(n / 0x80, k - 1);
    }
  }

  /** The encoding of `n` has at least `k` bytes when `n` needs `k` groups of seven bits. */
  lemma {:induction false} VarintLong(n: nat, k: nat)
    requires k >= 1 && n >= Pow128(k - 1)
    ensures |Varint(n)| >= k
    decreases k
  {
    if k > 1 {
      assert Pow128(k - 1) == 0x80 * Pow128(k - 2);
      DivBounds(n, Pow128(k - 2));
      VarintLong(n / 0x80, k - 1);
    }
  }

  lemma Pow128NineTen()
    ensures Pow128(9) == 0x8000_0000_0000_0000 && Pow128(10) == 0x40_0000_0000_0000_0000
  {
    assert Pow128(1) == 0x80;
    assert Pow128(2) == 0x4000;
    assert Pow128(3) == 0x20_0000;
    assert Pow128(4) == 0x1000_0000;
    assert Pow128(5) == 0x8_0000_0000;
    assert Pow128(6) == 0x400_0000_0000;
    assert Pow128(7) == 0x2_0000_0000_0000;
    assert Pow128(8) == 0x100_0000_0000_0000;
  }

  /**
   * Every in-range value takes between one and ten bytes; those of 2^63 and
   * above, the largest among them, take exactly ten.
   */
  lemma VarintLengthBound(n: nat)
    requires n <= MaxUint64
    ensures 1 <= |Varint(n)| <= 10
    ensures n >= 0x8000_0000_0000_0000 ==> |Varint(n)| == 10
  {
    Pow128NineTen();
    assert n < Pow128(10);
    VarintShort(n, 10);
    if n >= 0x8000_0000_0000_0000 {
      assert n >= Pow128(9);
      VarintLong(n, 10);
    }
  }

  lemma VarintExamples()
    ensures Varint(0) == [0x00]
    ensures Varint(300) == [0xAC, 0x02]
  {
  }

  // ---------------------------------------------------------------------------
  // Length-prefixed strings

  /** `str_bytesize`: strings are already bytes here. */
  function StrBytesize(str: seq<byte>): (n: nat)
    ensures n == |str|
  {
    |str|
  }

  /** What `AppendString` appends: the byte length as a varint, then the bytes. */
  function LengthPrefixed(str: seq<byte>): (r: seq<byte>)
    ensures |r| == |Varint(|str|)| + |str|
    ensures r[|r| - |str|..] == str
  {
    Varint(StrBytesize(str)) + str
  }

  /** Reads one length-prefixed string from the front of `bs`, and how many bytes it took. */
  function ReadString(bs: seq<byte>): (r: Option<(seq<byte>, nat)>)
    ensures r.Some? ==> r.value.1 <= |bs|
  {
    match ReadVarint(bs)
    case None => None
    case Some((len, k)) =>
      if k + len <= |bs| then Some((bs[k..k + len], k + len)) else None
  }

  /** Decoding a length-prefixed string, whatever follows it, gives back the string. */
  lemma ReadStringAppended(str: seq<byte>, rest: seq<byte>)
    ensures ReadString(LengthPrefixed(str) + rest) == Some((str, |LengthPrefixed(str)|))
  {
    var v := Varint(|str|);
    ReadVarintAppended(|str|, str + rest);
    assert LengthPrefixed(str) + rest == v + (str + rest);
    assert (v + (str + rest))[|v|..|v| + |str|] == str;
  }

  // ---------------------------------------------------------------------------
  // The appending operations

  /**
   * Appends the varint of `n` to `buf`; raises `OutOfRange(n)` and appends
   * nothing when `n` is outside the unsigned 64-bit range.
   */
  method AppendUint64(buf: ByteBuffer, n: int) returns (r: Result<(), RangeError>)
    modifies buf
    ensures r.Err? <==> n < MinUint64 || n > MaxUint64
    ensures r.Err? ==> r.error == OutOfRange(n) && buf.bytes == old(buf.bytes)
    ensures r.Ok? ==> n >= 0 && buf.bytes == old(buf.bytes) + Varint(n)
  {
    if n < MinUint64 || n > MaxUint64 {
      return Err(OutOfRange(n));
    }
    var m: nat := n;
    while true
      invariant buf.bytes + Varint(m) == old(buf.bytes) + Varint(n)
      decreases m
    {
      // the low seven bits, then the value shifted right by seven
      var bits := m % 0x80;
      m := m / 0x80;
      if m == 0 {
        buf.bytes := buf.bytes + [bits as byte];
        return Ok(());
      }
      // more groups follow: the byte carries the continuation bit
      buf.bytes := buf.bytes + [(bits + 0x80) as byte];
    }
  }

  /**
   * Appends the byte length of `str` as a varint and then `str` itself; fails,
   * appending nothing, only when the length is beyond the 64-bit range.
   */
  method AppendString(buf: ByteBuffer, str: seq<byte>) returns (r: Result<(), RangeError>)
    modifies buf
    ensures r.Err? <==> |str| > MaxUint64
    ensures r.Err? ==> r.error == OutOfRange(|str|) && buf.bytes == old(buf.bytes)
    ensures r.Ok? ==> buf.bytes == old(buf.bytes) + LengthPrefixed(str)
  {
    r := AppendUint64(buf, StrBytesize(str));
    if r.Err? {
      return;
    }
    buf.bytes := buf.bytes + str;
  }
}
