/** The byte-mode bit stream that `encodeData` produces, stated as a layout, and a reader that
    takes it apart again. */
module QrStream {
  import opened QrBits
  import opened QrWrappers

  /** The 4-bit mode indicator for byte mode, `0100`. */
  const MODE_BYTE: seq<bool> := [false, true, false, false]

  /** Pad codewords, used alternately. */
  const PAD_BYTES: seq<Byte> := [0xEC, 0x11]

  function Zeros(n: nat): (bits: seq<bool>)
    ensures |bits| == n && forall i :: 0 <= i < n ==> !bits[i]
  {
    seq(n, _ => false)
  }

  /** The first `m` payload bytes one after another, each most significant bit first. */
  function PayloadUpTo(data: seq<Byte>, m: nat): (bits: seq<bool>)
    requires m <= |data|
    ensures |bits| == 8 * m
  {
    if m == 0 then [] else PayloadUpTo(data, m - 1) + ByteBits(data[m - 1])
  }

  /** The whole payload. */
  function PayloadBits(data: seq<Byte>): (bits: seq<bool>)
    ensures |bits| == 8 * |data|
  {
    PayloadUpTo(data, |data|)
  }

  /** Appending to a stream does not depend on how the stream was grouped. */
  lemma AppendAssoc(a: seq<bool>, b: seq<bool>, c: seq<bool>)
    ensures (a + b) + c == a + (b + c)
  {
  }

  /** `n` pad bytes: 0xEC, 0x11, 0xEC, ... */
  function PadBits(n: nat): (bits: seq<bool>)
    ensures |bits| == 8 * n
  {
    if n == 0 then [] else PadBits(n - 1) + ByteBits(PAD_BYTES[(n - 1) % 2])
  }

  function PadCount(length: int, capacity: int): nat
  {
    if capacity - length - 2 > 0 then capacity - length - 2 else 0
  }

  /** One more pad byte extends the padding by the next byte of the alternation. */
  lemma PadStep(head: seq<bool>, p: nat)
    ensures head + PadBits(p) + ByteBits(PAD_BYTES[p % 2]) == head + PadBits(p + 1)
  {
    AppendAssoc(head, PadBits(p), ByteBits(PAD_BYTES[p % 2]));
  }

  /** With the header, payload and terminator in place (`n + 2` bytes) and `p` pad bytes after
      them, the stream is short of the capacity exactly while pad bytes are missing. */
  lemma PadsMissing(n: nat, capacity: int, p: nat)
    requires p <= PadCount(n, capacity)
    ensures 8 * (n + 2 + p) < capacity * 8 <==> p < PadCount(n, capacity)
  {
  }

  /** The stream for `data` in a symbol of `capacity` bytes: mode indicator, 8-bit count, payload,
      a 4-bit zero terminator, then pad bytes up to the capacity. The terminator is never cut
      short: the bits before it number 12 + 8 * |data|, which is 4 below a multiple of 8, so
      either four bits remain or none do. */
  function EncodedBits(data: seq<Byte>, capacity: int): (bits: seq<bool>)
  {
    MODE_BYTE + ByteBits(|data|) + PayloadBits(data) + Zeros(4) + PadBits(PadCount(|data|, capacity))
  }

  /** The stream fills the capacity exactly when the payload fits with its overhead, and is
      otherwise as long as the header, payload and terminator need. */
  lemma EncodedLength(data: seq<Byte>, capacity: int)
    ensures |EncodedBits(data, capacity)| == 8 * Max(capacity, |data| + 2)
    ensures |data| + 3 <= capacity ==> |EncodedBits(data, capacity)| == 8 * capacity
  {
  }

  /** The stream is a whole number of bytes. */
  lemma EncodedWhole(data: seq<Byte>, capacity: int)
    ensures |EncodedBits(data, capacity)| % 8 == 0
  {
    var k := |data| + 2 + PadCount(|data|, capacity);
    assert |EncodedBits(data, capacity)| == 8 * k;
    MultipleOfEight(k);
  }

  lemma MultipleOfEight(k: int)
    ensures (8 * k) % 8 == 0
  {
  }

  function Max(a: int, b: int): int
  {
    if a < b then b else a
  }

  /** Byte `i` of the payload sits at bits `8 * i .. 8 * i + 8` of `PayloadBits`. */
  lemma PayloadBitsAt(data: seq<Byte>, i: int, j: int)
    requires 0 <= i < |data| && 0 <= j < 8
    ensures PayloadBits(data)[8 * i + j] == ByteBits(data[i])[j]
  {
    PayloadUpToAt(data, |data|, i, j);
  }

  lemma {:induction false} PayloadUpToAt(data: seq<Byte>, m: nat, i: int, j: int)
    requires 0 <= i < m <= |data| && 0 <= j < 8
    ensures PayloadUpTo(data, m)[8 * i + j] == ByteBits(data[i])[j]
  {
    var front, last := PayloadUpTo(data, m - 1), ByteBits(data[m - 1]);
    assert PayloadUpTo(data, m) == front + last;
    if i < m - 1 {
      PayloadUpToAt(data, m - 1, i, j);
      assert (front + last)[8 * i + j] == front[8 * i + j];
    } else {
      assert (front + last)[|front| + j] == last[j];
    }
  }

  /** The payload bytes `8 * i ..` of a slice of `PayloadBits`. */
  lemma PayloadSlice(data: seq<Byte>, i: int)
    requires 0 <= i < |data|
    ensures PayloadBits(data)[8 * i .. 8 * i + 8] == ByteBits(data[i])
  {
    var bits := PayloadBits(data);
    var slice := bits[8 * i .. 8 * i + 8];
    forall j | 0 <= j < 8
      ensures slice[j] == ByteBits(data[i])[j]
    {
      assert slice[j] == bits[8 * i + j];
      PayloadBitsAt(data, i, j);
    }
  }

  lemma FromByteBits(b: int)
    requires 0 <= b < 256
    ensures FromBits(ByteBits(b)) == b
  {
    FromIntToBits(b, 8);
  }

  /** Each payload byte reads back from its eight bits. */
  lemma PayloadByteReadsBack(data: seq<Byte>, i: int)
    requires 0 <= i < |data|
    ensures FromBits(PayloadBits(data)[8 * i .. 8 * i + 8]) == data[i]
  {
    PayloadSlice(data, i);
    FromByteBits(data[i]);
  }

  /** A reader for the stream: checks the mode indicator, reads the 8-bit count and then that
      many bytes. */
  function DecodeBits(bits: seq<bool>): (r: Option<seq<Byte>>)
    ensures r.Some? ==> |r.value| < 256 && 12 + 8 * |r.value| <= |bits|
  {
    if |bits| < 12 || bits[..4] != MODE_BYTE then None
    else
      var n := FromBits(bits[4..12]);
      if |bits| < 12 + 8 * n then None
      else Some(seq(n, i requires 0 <= i < n => FromBits(bits[12 + 8 * i .. 12 + 8 * i + 8]) as Byte))
  }

  /** The reader returns `data` from any stream whose fields spell it out. */
  lemma DecodeFields(bits: seq<bool>, data: seq<Byte>)
    requires 12 + 8 * |data| <= |bits| && bits[..4] == MODE_BYTE && FromBits(bits[4..12]) == |data|
    requires forall i :: 0 <= i < |data| ==> FromBits(bits[12 + 8 * i .. 12 + 8 * i + 8]) == data[i]
    ensures DecodeBits(bits) == Some(data)
  {
    var n := |data|;
    var bytes := seq(n, i requires 0 <= i < n => FromBits(bits[12 + 8 * i .. 12 + 8 * i + 8]) as Byte);
    assert bytes == data;
  }

  /** Where the fields of a stream `MODE_BYTE + count + payload + tail` lie. */
  lemma StreamFields(count: seq<bool>, payload: seq<bool>, tail: seq<bool>)
    requires |count| == 8
    ensures var bits := MODE_BYTE + (count + (payload + tail));
      && bits[..4] == MODE_BYTE && bits[4..12] == count
      && forall i :: 0 <= i && 8 * i + 8 <= |payload| ==>
           bits[12 + 8 * i .. 12 + 8 * i + 8] == payload[8 * i .. 8 * i + 8]
  {
  }

  lemma Regroup(a: seq<bool>, b: seq<bool>, c: seq<bool>, d: seq<bool>, e: seq<bool>)
    ensures a + b + c + d + e == a + (b + (c + (d + e)))
  {
  }

  /** A stream laid out as mode, count, payload and any tail reads back the payload. */
  lemma DecodeLayout(data: seq<Byte>, tail: seq<bool>)
    requires |data| < 256
    ensures DecodeBits(MODE_BYTE + (ByteBits(|data|) + (PayloadBits(data) + tail))) == Some(data)
  {
    var count := ByteBits(|data|);
    var payload := PayloadBits(data);
    var bits := MODE_BYTE + (count + (payload + tail));
    StreamFields(count, payload, tail);
    forall i | 0 <= i < |data|
      ensures FromBits(bits[12 + 8 * i .. 12 + 8 * i + 8]) == data[i]
    {
      PayloadByteReadsBack(data, i);
    }
    FromByteBits(|data|);
    DecodeFields(bits, data);
  }

  /** Round trip: a payload shorter than 256 bytes reads back exactly, whatever the capacity. */
  lemma DecodeEncoded(data: seq<Byte>, capacity: int)
    requires |data| < 256
    ensures DecodeBits(EncodedBits(data, capacity)) == Some(data)
  {
    var tail := Zeros(4) + PadBits(PadCount(|data|, capacity));
    Regroup(MODE_BYTE, ByteBits(|data|), PayloadBits(data), Zeros(4), PadBits(PadCount(|data|, capacity)));
    DecodeLayout(data, tail);
  }

  /** The count field has 8 bits, so it wraps: a 256-byte payload (which version 10 at level Low
      accepts) reads back as an empty payload. */
  lemma CountFieldWraps(data: seq<Byte>, capacity: int)
    requires |data| == 256
    ensures EncodedBits(data, capacity)[4..12] == Zeros(8)
    ensures DecodeBits(EncodedBits(data, capacity)) == Some([])
  {
    var count, payload := ByteBits(|data|), PayloadBits(data);
    var tail := Zeros(4) + PadBits(PadCount(|data|, capacity));
    Regroup(MODE_BYTE, count, payload, Zeros(4), PadBits(PadCount(|data|, capacity)));
    StreamFields(count, payload, tail);
    ByteOf256();
    FromBitsZeros(8);
  }

  /** 256 has no bit among its low eight. */
  lemma ByteOf256()
    ensures ByteBits(256) == Zeros(8)
  {
    assert IntToBits(256, 8) == Zeros(8);
  }

  lemma {:induction false} FromBitsZeros(n: nat)
    ensures FromBits(Zeros(n)) == 0
  {
    if n > 0 {
      assert Zeros(n)[..n - 1] == Zeros(n - 1);
      FromBitsZeros(n - 1);
    }
  }
}
