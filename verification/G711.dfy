/** The G.711 processors: samples are companded within the buffer they arrive in. */
module G711 {
  import opened Words
  import opened Companding

  /** A sample in two bytes, the lower one first. */
  function Sample(low: Byte, high: Byte): S16 {
    var w := low + 0x100 * high;
    if w >= 0x8000 then w - 0x1_0000 else w
  }

  function LowByte(x: S16): Byte { x % 0x100 }
  function HighByte(x: S16): Byte { x / 0x100 % 0x100 }

  lemma SampleBytes(x: S16)
    ensures Sample(LowByte(x), HighByte(x)) == x
  {
  }

  function SampleAt(bytes: seq<Byte>, i: nat): S16
    requires 2 * i + 1 < |bytes|
  {
    Sample(bytes[2 * i], bytes[2 * i + 1])
  }

  /** The first `n` bytes are the encoded samples, the others are as before. */
  ghost predicate EncodedFrom(law: Law, before: seq<Byte>, after: seq<Byte>, n: nat)
    requires 2 * n <= |before| == |after|
  {
    && (forall i | 0 <= i < n :: after[i] == Encode(law, SampleAt(before, i)))
    && (forall i | n <= i < |after| :: after[i] == before[i])
  }

  /** The first `n` samples are the decoded bytes, what is behind them is as before. */
  ghost predicate DecodedFrom(law: Law, before: seq<Byte>, after: seq<Byte>, n: nat)
    requires 2 * n <= |before| == |after|
  {
    && (forall i | 0 <= i < n :: SampleAt(after, i) == Decode(law, before[i]))
    && (forall i | 2 * n <= i < |after| :: after[i] == before[i])
  }

  class Processor {
    const law: Law
    var maxBufferSize: nat
    var writeBuffer: array<S16>

    ghost predicate Valid()
      reads this
    {
      writeBuffer.Length == maxBufferSize
    }

    constructor (law: Law)
      ensures Valid() && maxBufferSize == 0 && this.law == law && fresh(writeBuffer)
    {
      this.law := law;
      maxBufferSize := 0;
      writeBuffer := new S16[0];
    }

    method Configure(framesPerPackage: nat, outputDeviceChannels: nat)
      modifies this
      ensures Valid() && maxBufferSize == framesPerPackage * outputDeviceChannels && fresh(writeBuffer)
    {
      maxBufferSize := framesPerPackage * outputDeviceChannels;
      writeBuffer := new S16[maxBufferSize];
    }

    /** Byte `i` is written when the bytes of sample `i` have been read: no sample is overwritten before its turn. */
    method ProcessInputData(buffer: array<Byte>, byteSize: nat) returns (n: nat)
      requires byteSize <= buffer.Length
      modifies buffer
      ensures n == byteSize / 2
      ensures EncodedFrom(law, old(buffer[..]), buffer[..], n)
    {
      hide Encode;
      n := byteSize / 2;
      ghost var before := buffer[..];
      for i := 0 to n
        invariant forall j | 0 <= j < i :: buffer[j] == Encode(law, SampleAt(before, j))
        invariant forall j | i <= j < buffer.Length :: buffer[j] == before[j]
      {
        buffer[i] := Encode(law, Sample(buffer[2 * i], buffer[2 * i + 1]));
      }
    }

    /** At most `maxBufferSize` bytes are decoded, through a buffer of their own. */
    method ProcessOutputData(buffer: array<Byte>, byteSize: nat) returns (n: nat)
      requires Valid() && byteSize <= buffer.Length
      requires 2 * (if maxBufferSize > byteSize then byteSize else maxBufferSize) <= buffer.Length
      modifies buffer, writeBuffer
      ensures Valid() && n == 2 * (if maxBufferSize > byteSize then byteSize else maxBufferSize)
      ensures DecodedFrom(law, old(buffer[..]), buffer[..], n / 2)
    {
      hide Decode, Sample;
      var bufferSize := if maxBufferSize > byteSize then byteSize else maxBufferSize;
      Decompress(buffer, bufferSize);
      CopySamples(buffer, bufferSize);
      n := 2 * bufferSize;
    }

    method Decompress(buffer: array<Byte>, n: nat)
      requires n <= buffer.Length && n <= writeBuffer.Length
      modifies writeBuffer
      ensures forall i | 0 <= i < n :: writeBuffer[i] == Decode(law, buffer[i])
    {
      hide Decode;
      for i := 0 to n
        invariant forall j | 0 <= j < i :: writeBuffer[j] == Decode(law, buffer[j])
      {
        writeBuffer[i] := Decode(law, buffer[i]);
      }
    }

    method CopySamples(buffer: array<Byte>, n: nat)
      requires n <= writeBuffer.Length && 2 * n <= buffer.Length
      modifies buffer
      ensures forall i | 0 <= i < n :: SampleAt(buffer[..], i) == writeBuffer[i]
      ensures forall i | 2 * n <= i < buffer.Length :: buffer[i] == old(buffer[i])
    {
      hide Sample, LowByte, HighByte;
      for i := 0 to n
        invariant forall j | 0 <= j < i :: SampleAt(buffer[..], j) == writeBuffer[j]
        invariant forall j | 2 * i <= j < buffer.Length :: buffer[j] == old(buffer[j])
      {
        ghost var before := buffer[..];
        SampleBytes(writeBuffer[i]);
        buffer[2 * i] := LowByte(writeBuffer[i]);
        buffer[2 * i + 1] := HighByte(writeBuffer[i]);
        assert forall j | 0 <= j < i :: SampleAt(buffer[..], j) == SampleAt(before, j);
      }
    }
  }

  /** A sample is read with its lower byte first, in two's complement. */
  lemma SampleOnWire(bytes: seq<Byte>, i: nat)
    requires 2 * i + 1 < |bytes|
    ensures var w := (bytes[2 * i + 1] as int) * 256 + bytes[2 * i];
            SampleAt(bytes, i) == if bytes[2 * i + 1] >= 128 then w - 0x1_0000 else w
  {
  }

  /** Encoding a buffer in place and decoding it again keeps every sample that fits, faithfully exactly if it is
      in range, and in order. */
  lemma BufferRoundTrip(law: Law, start: seq<Byte>, encoded: seq<Byte>, decoded: seq<Byte>, n: nat, k: nat, i: nat)
    requires 2 * n <= |start| == |encoded| == |decoded| && k <= n && i < k
    requires EncodedFrom(law, start, encoded, n) && DecodedFrom(law, encoded, decoded, k)
    ensures SampleAt(decoded, i) == Decode(law, Encode(law, SampleAt(start, i)))
    ensures Faithful(law, SampleAt(start, i)) <==> InRange(law, SampleAt(start, i))
    ensures forall j | 0 <= j < k && InRange(law, SampleAt(start, i)) && InRange(law, SampleAt(start, j))
                       && SampleAt(start, i) <= SampleAt(start, j) :: SampleAt(decoded, i) <= SampleAt(decoded, j)
  {
    hide Encode, Decode, Sample;
    FaithfulExactly(law, SampleAt(start, i));
    forall j | 0 <= j < k && InRange(law, SampleAt(start, i)) && InRange(law, SampleAt(start, j))
               && SampleAt(start, i) <= SampleAt(start, j)
      ensures SampleAt(decoded, i) <= SampleAt(decoded, j)
    {
      Monotone(law, SampleAt(start, i), SampleAt(start, j));
    }
  }

  lemma BytesOfSample(low: Byte, high: Byte, low': Byte, high': Byte)
    requires Sample(low, high) == Sample(low', high')
    ensures low == low' && high == high'
  {
  }

  /** A second pass over the whole buffer changes nothing further, sample by sample and byte by byte. */
  lemma SecondPass(law: Law, start: seq<Byte>, encoded: seq<Byte>, decoded: seq<Byte>, again: seq<Byte>,
                   last: seq<Byte>, n: nat)
    requires 2 * n <= |start| == |encoded| == |decoded| == |again| == |last|
    requires EncodedFrom(law, start, encoded, n) && DecodedFrom(law, encoded, decoded, n)
    requires EncodedFrom(law, decoded, again, n) && DecodedFrom(law, again, last, n)
    ensures last == decoded
  {
    hide Encode, Decode, Sample;
    forall i | 0 <= i < n ensures last[2 * i] == decoded[2 * i] && last[2 * i + 1] == decoded[2 * i + 1] {
      Idempotent(law, SampleAt(start, i));
      assert SampleAt(decoded, i) == Decode(law, Encode(law, SampleAt(start, i)));
      assert SampleAt(last, i) == Decode(law, Encode(law, SampleAt(decoded, i)));
      BytesOfSample(last[2 * i], last[2 * i + 1], decoded[2 * i], decoded[2 * i + 1]);
    }
    forall k | 0 <= k < |last| ensures last[k] == decoded[k] {
      if k < 2 * n {
        assert k == 2 * (k / 2) || k == 2 * (k / 2) + 1;
        assert 0 <= k / 2 < n;
      }
    }
  }
}
