/** RTCP packages as bytes (RFC 3550 section 6), on a little-endian host. */
module RtcpFormat {
  import opened Bits
  import Trimming
  import opened Words
  import opened Wrappers

  const HEADER_SIZE := 8
  const SENDER_INFO_SIZE := 20
  const RECEPTION_REPORT_SIZE := 24
  const SENDER_REPORT: Byte := 200
  const RECEIVER_REPORT: Byte := 201
  const SOURCE_DESCRIPTION: Byte := 202
  const GOODBYE: Byte := 203
  const APPLICATION_DEFINED: Byte := 204

  function Prepend<T>(front: seq<T>, rest: Option<seq<T>>): (r: Option<seq<T>>)
    ensures front == [] ==> r == rest
    ensures rest == Some([]) ==> r == Some(front)
  {
    match rest
    case None => None
    case Some(s) => assert front + [] == front && [] + s == s; Some(front + s)
  }

  lemma PrependOne<T>(front: seq<T>, x: T, rest: Option<seq<T>>)
    ensures Prepend(front, Prepend([x], rest)) == Prepend(front + [x], rest)
  {
    if rest.Some? {
      assert front + ([x] + rest.value) == (front + [x]) + rest.value;
    }
  }

  // ---------- words ----------

  function BigEndian(w: U32): (bytes: seq<Byte>)
    ensures |bytes| == 4
  {
    [w / 0x100_0000, w / 0x1_0000 % 0x100, w / 0x100 % 0x100, w % 0x100]
  }

  function LittleEndian(w: U32): (bytes: seq<Byte>)
    ensures |bytes| == 4
  {
    [w % 0x100, w / 0x100 % 0x100, w / 0x1_0000 % 0x100, w / 0x100_0000]
  }

  function FromBigEndian(bytes: seq<Byte>): U32
    requires |bytes| == 4
  {
    (bytes[0] as int) * 0x100_0000 + (bytes[1] as int) * 0x1_0000 + (bytes[2] as int) * 0x100 + bytes[3]
  }

  function FromLittleEndian(bytes: seq<Byte>): U32
    requires |bytes| == 4
  {
    (bytes[3] as int) * 0x100_0000 + (bytes[2] as int) * 0x1_0000 + (bytes[1] as int) * 0x100 + bytes[0]
  }

  /** Bitwise OR of two 5-bit fields. */
  function Or(a: nat, b: nat): (r: nat)
    requires a < 32 && b < 32
    ensures r < 32
  {
    FiveBits();
    OrBound(a, b, 5);
    BitOr(a, b)
  }

  // ---------- header ----------

  type SsrcData = data: seq<Byte> | |data| == 4 witness [0, 0, 0, 0]

  /** The eight bytes of the header; the SSRC is in network order. */
  datatype Header = Header(flags: Byte, kind: Byte, lengthHigh: Byte, lengthLow: Byte, ssrc: SsrcData) {
    function Version(): nat { flags / 64 }
    function IsPadded(): bool { flags / 32 % 2 == 1 }
    function Count(): (c: nat) ensures c < 32 { flags % 32 }
    function Type(): Byte { kind }
    function Length(): U16 { (lengthHigh as int) * 0x100 + lengthLow }
    function Ssrc(): U32 { FromBigEndian(ssrc) }

    function SetCount(count: nat): Header { this.(flags := flags - flags % 32 + Or(flags % 32, count % 32)) }
    function SetPadding(padded: bool): Header { if padded && !IsPadded() then this.(flags := flags + 32) else this }
    function SetType(t: Byte): Header { this.(kind := t) }
    function SetLength(length: U16): Header { this.(lengthHigh := length / 0x100, lengthLow := length % 0x100) }

    function Bytes(): (bytes: seq<Byte>)
      ensures |bytes| == HEADER_SIZE && ParseHeader(bytes) == this
    {
      var bytes := [flags, kind, lengthHigh, lengthLow] + ssrc;
      assert bytes[4..] == ssrc;
      bytes
    }
  }

  function ParseHeader(bytes: seq<Byte>): Header
    requires |bytes| == HEADER_SIZE
  {
    Header(bytes[0], bytes[1], bytes[2], bytes[3], bytes[4..])
  }

  /** A header of version 2 for the SSRC given in network order. */
  function NewHeader(ssrc: SsrcData): Header {
    Header(128, 0, 0, 0, ssrc)
  }

  lemma SsrcRoundTrip(ssrc: U32)
    ensures NewHeader(BigEndian(ssrc)).Ssrc() == ssrc
  {
    WordRoundTrip(ssrc);
  }

  /** The length word of a package of `length` bytes: 32-bit words minus one, kept in 8 bits. */
  function LengthField(length: U16): Byte {
    ((length + 3) / 4 - 1) % 0x100
  }

  function PackageLength(lengthField: U16): nat {
    (lengthField + 1) * 4
  }

  /** The 8-bit length word is right for packages of at most 1024 bytes, and only for those. */
  lemma LengthFieldExact(length: U16)
    requires 0 < length
    ensures PackageLength(LengthField(length)) == (length + 3) / 4 * 4 <==> length <= 1024
  {
  }

  /** Every field that a create function leaves in a new header. */
  lemma HeaderFields(ssrc: SsrcData, t: Byte, count: nat, length: U16, h: Header)
    requires h == NewHeader(ssrc).SetType(t).SetCount(count).SetLength(length)
    ensures h.Version() == 2 && !h.IsPadded() && h.Count() == count % 32
    ensures h.Type() == t && h.Length() == length && h.ssrc == ssrc
  {
  }

  /** The eight bytes of a header as they go out: version 2 and the count, the type, the length word and the source. */
  lemma HeaderOnWire(ssrc: SsrcData, t: Byte, count: nat, length: U16)
    ensures NewHeader(ssrc).Bytes() == [128, 0, 0, 0] + ssrc
    ensures NewHeader(ssrc).SetType(t).SetCount(count).SetLength(length).Bytes()
            == [128 + count % 32, t, length / 256, length % 256] + ssrc
  {
  }

  /** What is made of eight bytes that come in. */
  lemma HeaderFromWire(bytes: seq<Byte>)
    requires |bytes| == 8
    ensures var h := ParseHeader(bytes);
            && h.Version() == bytes[0] / 64 && (h.IsPadded() <==> bytes[0] / 32 % 2 == 1) && h.Count() == bytes[0] % 32
            && h.Type() == bytes[1] && h.Length() == (bytes[2] as int) * 256 + bytes[3] && h.ssrc == bytes[4..8]
  {
  }

  lemma Halves(high: U16, low: U16, w: U32)
    requires w == (high as int) * 0x1_0000 + low
    ensures w / 0x1_0000 == high && w % 0x1_0000 == low
    ensures w / 0x100_0000 == high / 0x100 && w / 0x1_0000 % 0x100 == high % 0x100
    ensures w / 0x100 % 0x100 == low / 0x100 && w % 0x100 == low % 0x100
  {
  }

  lemma TwoBytes(a: Byte, b: Byte)
    ensures var h := (a as int) * 0x100 + b; h / 0x100 == a && h % 0x100 == b
  {
  }

  /** The most significant byte goes first in network order, and last in the order of the host. */
  lemma WordOnWire(a: Byte, b: Byte, c: Byte, d: Byte, w: U32)
    requires w == (a as int) * 0x100_0000 + (b as int) * 0x1_0000 + (c as int) * 0x100 + d
    ensures BigEndian(w) == [a, b, c, d] && LittleEndian(w) == [d, c, b, a]
    ensures FromBigEndian([a, b, c, d]) == w && FromLittleEndian([d, c, b, a]) == w
  {
    Halves((a as int) * 0x100 + b, (c as int) * 0x100 + d, w);
    TwoBytes(a, b);
    TwoBytes(c, d);
  }

  /** The padding flag can be set, and never cleared; nothing else changes. */
  lemma PaddingSet(h: Header, padded: bool)
    ensures var p := h.SetPadding(padded);
            && (p.IsPadded() <==> padded || h.IsPadded()) && p.Version() == h.Version() && p.Count() == h.Count()
            && p.kind == h.kind && p.Length() == h.Length() && p.ssrc == h.ssrc
  {
  }

  lemma LowBits(f: Byte, o: Byte)
    requires o < 32
    ensures var g := f - f % 32 + o; g % 32 == o && g / 32 == f / 32 && g / 64 == f / 64
  {
  }

  /** The count is ORed with the one before; nothing else changes. */
  lemma CountSet(h: Header, count: nat, i: nat)
    ensures var c := h.SetCount(count);
            && (Bit(c.Count(), i) <==> Bit(h.Count(), i) || Bit(count % 32, i))
            && (c.IsPadded() <==> h.IsPadded()) && c.Version() == h.Version()
            && c.kind == h.kind && c.Length() == h.Length() && c.ssrc == h.ssrc
  {
    hide BitOr, Bit, Or;
    LowBits(h.flags, Or(h.flags % 32, count % 32));
    OrIsBitOr(h.flags % 32, count % 32);
    OrBits(h.flags % 32, count % 32, i);
  }

  lemma OrIsBitOr(a: nat, b: nat)
    requires a < 32 && b < 32
    ensures Or(a, b) == BitOr(a, b)
  {
    hide BitOr;
  }

  /** The version is kept when the other fields are set. */
  lemma VersionKept(h: Header, count: nat)
    ensures h.SetCount(count).Version() == h.Version()
  {
  }

  lemma WordRoundTrip(w: U32)
    ensures FromBigEndian(BigEndian(w)) == w
    ensures FromLittleEndian(LittleEndian(w)) == w
  {
    var high, low := w / 0x1_0000, w % 0x1_0000;
    assert w / 0x100_0000 == high / 0x100;
    assert w / 0x100 % 0x100 == low / 0x100;
    assert w % 0x100 == low % 0x100;
  }

  // ---------- report blocks ----------

  type InfoData = data: seq<Byte> | |data| == SENDER_INFO_SIZE witness seq(SENDER_INFO_SIZE, _ => 0)
  type ReportData = data: seq<Byte> | |data| == RECEPTION_REPORT_SIZE witness seq(RECEPTION_REPORT_SIZE, _ => 0)
  type U24 = w: int | 0 <= w < 0x100_0000

  /** Sender information as it lies in memory, every word in network order. */
  datatype SenderInformation = SenderInformation(data: InfoData) {
    function Seconds(): U32 { FromBigEndian(data[0..4]) }
    function Fraction(): U32 { FromBigEndian(data[4..8]) }
    function RtpTimestamp(): U32 { FromBigEndian(data[8..12]) }
    function PacketCount(): U32 { FromBigEndian(data[12..16]) }
    function OctetCount(): U32 { FromBigEndian(data[16..20]) }
  }

  function NewSenderInformation(seconds: U32, fraction: U32, timestamp: U32, packets: U32, octets: U32)
    : SenderInformation
  {
    SenderInformation(BigEndian(seconds) + BigEndian(fraction) + BigEndian(timestamp)
                      + BigEndian(packets) + BigEndian(octets))
  }

  lemma SenderInformationFields(seconds: U32, fraction: U32, timestamp: U32, packets: U32, octets: U32)
    ensures var i := NewSenderInformation(seconds, fraction, timestamp, packets, octets);
            && i.Seconds() == seconds && i.Fraction() == fraction && i.RtpTimestamp() == timestamp
            && i.PacketCount() == packets && i.OctetCount() == octets
            && i.data == BigEndian(seconds) + BigEndian(fraction) + BigEndian(timestamp)
                         + BigEndian(packets) + BigEndian(octets)
  {
    var data := NewSenderInformation(seconds, fraction, timestamp, packets, octets).data;
    assert data[0..4] == BigEndian(seconds) && data[4..8] == BigEndian(fraction);
    assert data[8..12] == BigEndian(timestamp) && data[12..16] == BigEndian(packets);
    assert data[16..20] == BigEndian(octets);
    WordRoundTrip(seconds); WordRoundTrip(fraction); WordRoundTrip(timestamp);
    WordRoundTrip(packets); WordRoundTrip(octets);
  }

  /** A reception report as it lies in memory. The loss word is in host order, the others in network order. */
  datatype ReceptionReport = ReceptionReport(data: ReportData) {
    function Ssrc(): U32 { FromBigEndian(data[0..4]) }
    function FractionLost(): Byte { FromLittleEndian(data[4..8]) / 0x100_0000 }
    function PackagesLost(): U24 { FromLittleEndian(data[4..8]) % 0x100_0000 }
    function HighestSequenceNumber(): U32 { FromBigEndian(data[8..12]) }
    function Jitter(): U32 { FromBigEndian(data[12..16]) }
    function LastSenderReport(): U32 { FromBigEndian(data[16..20]) }
    function Delay(): U32 { FromBigEndian(data[20..24]) }
  }

  /** A new report with every setter applied once; the two parts of the loss word are ORed into zero bits. */
  function NewReport(ssrc: U32, fractionLost: Byte, packagesLost: U32, highest: U32, jitter: U32, last: U32, delay: U32)
    : ReceptionReport
  {
    ReceptionReport(BigEndian(ssrc)
                    + LittleEndian((fractionLost as int) * 0x100_0000 + packagesLost % 0x100_0000)
                    + BigEndian(highest) + BigEndian(jitter) + BigEndian(last) + BigEndian(delay))
  }

  lemma ReportFields(ssrc: U32, fractionLost: Byte, packagesLost: U32, highest: U32, jitter: U32, last: U32, delay: U32)
    ensures var r := NewReport(ssrc, fractionLost, packagesLost, highest, jitter, last, delay);
            && r.Ssrc() == ssrc && r.FractionLost() == fractionLost && r.PackagesLost() == packagesLost % 0x100_0000
            && r.HighestSequenceNumber() == highest && r.Jitter() == jitter
            && r.LastSenderReport() == last && r.Delay() == delay
  {
    var data := NewReport(ssrc, fractionLost, packagesLost, highest, jitter, last, delay).data;
    var losses := (fractionLost as int) * 0x100_0000 + packagesLost % 0x100_0000;
    assert data[0..4] == BigEndian(ssrc) && data[4..8] == LittleEndian(losses);
    assert data[8..12] == BigEndian(highest) && data[12..16] == BigEndian(jitter);
    assert data[16..20] == BigEndian(last) && data[20..24] == BigEndian(delay);
    WordRoundTrip(ssrc); WordRoundTrip(losses); WordRoundTrip(highest);
    WordRoundTrip(jitter); WordRoundTrip(last); WordRoundTrip(delay);
  }

  /** Where the fields lie: the packages lost in three bytes, the lowest one first, and the fraction behind them. */
  lemma ReportOnWire(ssrc: U32, fractionLost: Byte, packagesLost: U32, highest: U32, jitter: U32, last: U32, delay: U32)
    ensures var data := NewReport(ssrc, fractionLost, packagesLost, highest, jitter, last, delay).data;
            && data[0..4] == BigEndian(ssrc) && data[8..12] == BigEndian(highest) && data[12..16] == BigEndian(jitter)
            && data[16..20] == BigEndian(last) && data[20..24] == BigEndian(delay)
            && data[4..8] == LittleEndian(packagesLost)[..3] + [fractionLost]
  {
    LossOnWire(fractionLost, packagesLost);
    hide LittleEndian, BigEndian;
  }

  lemma LossOnWire(fractionLost: Byte, packagesLost: U32)
    ensures LittleEndian((fractionLost as int) * 0x100_0000 + packagesLost % 0x100_0000)
            == LittleEndian(packagesLost)[..3] + [fractionLost]
  {
    hide LittleEndian;
    var lost := packagesLost % 0x100_0000;
    var a, b, c := lost % 0x100, lost / 0x100 % 0x100, lost / 0x1_0000;
    ThreeBytes(lost, a, b, c);
    WordOnWire(fractionLost, c, b, a, (fractionLost as int) * 0x100_0000 + lost);
    WordOnWire(packagesLost / 0x100_0000, c, b, a, packagesLost);
  }

  lemma ThreeBytes(n: U24, a: Byte, b: Byte, c: Byte)
    requires a == n % 0x100 && b == n / 0x100 % 0x100 && c == n / 0x1_0000
    ensures n == (c as int) * 0x1_0000 + (b as int) * 0x100 + a
  {
    assert n / 0x100 / 0x100 == n / 0x1_0000;
  }

  function ReportsBytes(reports: seq<ReceptionReport>): (bytes: seq<Byte>)
    ensures |bytes| == 24 * |reports|
  {
    if reports == [] then [] else reports[0].data + ReportsBytes(reports[1..])
  }

  lemma {:induction false} ReportsBytesAt(reports: seq<ReceptionReport>, i: nat)
    requires i < |reports|
    ensures var at := 24 * i;
            ReportsBytes(reports)[at..at + RECEPTION_REPORT_SIZE] == reports[i].data
  {
    if i == 0 {
    } else {
      var rest := ReportsBytes(reports[1..]);
      var at := 24 * (i - 1);
      ReportsBytesAt(reports[1..], i - 1);
      assert ReportsBytes(reports)[at + 24..at + 48] == rest[at..at + 24];
    }
  }

  lemma {:induction false} ReportsBytesAppend(reports: seq<ReceptionReport>, r: ReceptionReport)
    ensures ReportsBytes(reports + [r]) == ReportsBytes(reports) + r.data
  {
    if reports == [] {
      assert ReportsBytes([r][1..]) == [];
    } else {
      assert (reports + [r])[1..] == reports[1..] + [r];
      ReportsBytesAppend(reports[1..], r);
    }
  }

  // ---------- source descriptions ----------

  datatype Description = Description(key: Byte, value: seq<Byte>)

  predicate IsBlank(b: Byte) { Trimming.IsSpace(b) }

  function TrimBytes(value: seq<Byte>): seq<Byte> { Trimming.Trim(value, IsBlank) }

  lemma TrimShortens(value: seq<Byte>)
    ensures |TrimBytes(value)| <= |value|
  {
    var a, b := Trimming.TrimEnds(value, IsBlank);
  }

  /** The part of a value that an 8-bit length can announce. */
  function Announced(value: seq<Byte>): (r: seq<Byte>)
    ensures |r| < 0x100
  {
    value[..|value| % 0x100]
  }

  function ItemBytes(d: Description): (bytes: seq<Byte>)
    ensures |bytes| == 2 + |Announced(d.value)|
  {
    [d.key, |d.value| % 0x100] + Announced(d.value)
  }

  function ItemsBytes(ds: seq<Description>): seq<Byte> {
    if ds == [] then [] else ItemBytes(ds[0]) + ItemsBytes(ds[1..])
  }

  lemma {:induction false} ItemsBytesAppend(ds: seq<Description>, d: Description)
    ensures ItemsBytes(ds + [d]) == ItemsBytes(ds) + ItemBytes(d)
  {
    if ds == [] {
      assert ItemsBytes([d][1..]) == [];
    } else {
      assert (ds + [d])[1..] == ds[1..] + [d];
      ItemsBytesAppend(ds[1..], d);
    }
  }

  /** The items found from `at` on, or none if reading them leaves the memory. */
  function ReadItems(memory: seq<Byte>, at: nat, packageLength: nat): Option<seq<Description>>
    decreases |memory| - at
  {
    if at >= packageLength then Some([])
    else if at >= |memory| then None
    else if memory[at] == 0 then Some([])
    else if at + 1 >= |memory| || at + 2 + memory[at + 1] > |memory| then None
    else
      var end := at + 2 + memory[at + 1];
      Prepend([Description(memory[at], memory[at + 2..end])], ReadItems(memory, end, packageLength))
  }

  /** The constructor of a description trims its value. */
  function Construct(ds: seq<Description>): (r: seq<Description>)
    ensures |r| == |ds|
  {
    seq(|ds|, i requires 0 <= i < |ds| => Description(ds[i].key, TrimBytes(ds[i].value)))
  }

  lemma ConstructOne(ds: seq<Description>, d: Description)
    ensures Construct(ds + [d]) == Construct(ds) + [Description(d.key, TrimBytes(d.value))]
  {
  }
}
