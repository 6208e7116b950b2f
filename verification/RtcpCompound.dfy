/** What the buffer holds after writing RTCP packages into it, and compounds of packages (RFC 3550 section 6). */
module RtcpCompound {
  import opened Words
  import opened Wrappers
  import opened RtcpFormat
  import opened RtcpRoundTrip

  function Overwrite(s: seq<Byte>, at: nat, bytes: seq<Byte>): (r: seq<Byte>)
    requires at + |bytes| <= |s|
    ensures |r| == |s|
  {
    s[..at] + bytes + s[at + |bytes|..]
  }

  lemma OverwriteNext(s: seq<Byte>, at: nat, a: seq<Byte>, b: seq<Byte>)
    requires at + |a| + |b| <= |s|
    ensures Overwrite(Overwrite(s, at, a), at + |a|, b) == Overwrite(s, at, a + b)
    ensures Overwrite(Overwrite(s, at + |a|, b), at, a) == Overwrite(s, at, a + b)
  {
  }

  lemma OverwriteHeaderLast(s: seq<Byte>, at: nat, a: seq<Byte>, b: seq<Byte>, later: nat, c: seq<Byte>)
    requires at + |a| + |b| <= later && later + |c| <= |s|
    ensures Overwrite(Overwrite(Overwrite(s, at + |a|, b), later, c), at, a)
         == Overwrite(Overwrite(s, at, a + b), later, c)
  {
    var x := Overwrite(Overwrite(Overwrite(s, at + |a|, b), later, c), at, a);
    var y := Overwrite(Overwrite(s, at, a + b), later, c);
    forall i | 0 <= i < |s| ensures x[i] == y[i] {}
  }

  /** The first two bytes of a package where it was written. */
  lemma FirstBytes(before: seq<Byte>, at: nat, bytes: seq<Byte>, h: Header)
    requires at + |bytes| <= |before| && HEADER_SIZE <= |bytes| && bytes[..HEADER_SIZE] == h.Bytes()
    ensures var after := Overwrite(before, at, bytes); after[at] == h.flags && after[at + 1] == h.kind
  {
    assert h.Bytes()[0] == h.flags && h.Bytes()[1] == h.kind;
    assert bytes[..HEADER_SIZE][0] == bytes[0] && bytes[..HEADER_SIZE][1] == bytes[1];
  }

  lemma OverwriteReport(s: seq<Byte>, at: nat, reports: seq<ReceptionReport>, i: nat)
    requires i < |reports| && at + 24 * |reports| <= |s|
    ensures Overwrite(Overwrite(s, at, ReportsBytes(reports[..i])), at + 24 * i, reports[i].data)
         == Overwrite(s, at, ReportsBytes(reports[..i + 1]))
  {
    assert reports[..i + 1] == reports[..i] + [reports[i]];
    ReportsBytesAppend(reports[..i], reports[i]);
    OverwriteNext(s, at, ReportsBytes(reports[..i]), reports[i].data);
  }

  lemma {:induction false} ItemsBytesPrefix(ds: seq<Description>, i: nat)
    requires i <= |ds|
    ensures |ItemsBytes(ds[..i])| <= |ItemsBytes(ds)|
  {
    if i == 0 {
    } else {
      assert ds[..i][1..] == ds[1..][..i - 1];
      ItemsBytesPrefix(ds[1..], i - 1);
    }
  }

  lemma OverwriteItem(s: seq<Byte>, at: nat, ds: seq<Description>, i: nat)
    requires i < |ds| && at + |ItemsBytes(ds)| <= |s|
    ensures |ItemsBytes(ds[..i])| + |ItemBytes(ds[i])| == |ItemsBytes(ds[..i + 1])| <= |ItemsBytes(ds)|
    ensures Overwrite(Overwrite(s, at, ItemsBytes(ds[..i])), at + |ItemsBytes(ds[..i])|, ItemBytes(ds[i]))
         == Overwrite(s, at, ItemsBytes(ds[..i + 1]))
  {
    assert ds[..i + 1] == ds[..i] + [ds[i]];
    ItemsBytesAppend(ds[..i], ds[i]);
    ItemsBytesPrefix(ds, i + 1);
    OverwriteNext(s, at, ItemsBytes(ds[..i]), ItemBytes(ds[i]));
  }

  lemma ByeParts(h: Header, text: seq<Byte>)
    requires |text| < 0x100
    ensures ByeBytes(h, text) ==
            (h.Bytes() + [|text|]) + (if text == [] then [] else text + Zeros(Padding(|text|)))
  {
  }

  lemma ByeAnnounced(h: Header, text: seq<Byte>)
    ensures ByeBytes(h, Announced(text)) == ByeBytes(h, text)
  {
    assert Announced(Announced(text)) == Announced(text);
  }

  // ---------- compound packages ----------

  /** The acceptance test for a package of `remaining` bytes; none if it reads outside the memory. */
  function IsRtcpPackage(memory: seq<Byte>, at: nat, remaining: U32): Option<bool> {
    if remaining < HEADER_SIZE then Some(false)
    else if at + HEADER_SIZE > |memory| then None
    else
      var h := ParseHeader(memory[at..at + HEADER_SIZE]);
      Some(h.Version() == 2 && SENDER_REPORT <= h.Type() <= APPLICATION_DEFINED && (h.Length() as int) * 4 <= remaining)
  }

  /** Accepted are eight bytes or more that start with version 2 and a type from 200 to 204, if the length word
      announces at most four bytes more than there are. */
  lemma AcceptedExactly(memory: seq<Byte>, at: nat, remaining: U32)
    requires at + 8 <= |memory|
    ensures IsRtcpPackage(memory, at, remaining)
            == Some(&& remaining >= 8 && memory[at] / 64 == 2 && 200 <= memory[at + 1] <= 204
                    && ((memory[at + 2] as int) * 256 + memory[at + 3]) * 4 <= remaining)
  {
    HeaderFromWire(memory[at..at + 8]);
  }

  function CountMore(n: nat, r: Option<(nat, U32)>): Option<(nat, U32)> {
    match r
    case None => None
    case Some((m, rest)) => Some((n + m, rest))
  }

  lemma CountMoreOne(n: nat, r: Option<(nat, U32)>)
    ensures CountMore(n, CountMore(1, r)) == CountMore(n + 1, r)
  {
  }

  /** 32-bit subtraction: a last package that is cut short wraps around. */
  function Less(remaining: U32, size: U32): U32 {
    ((remaining as int) - size) % 0x1_0000_0000
  }

  /** The number of packages accepted one after the other, and the bytes then remaining. */
  function CountPackages(memory: seq<Byte>, at: nat, remaining: U32): Option<(nat, U32)>
    decreases |memory| - at
  {
    match IsRtcpPackage(memory, at, remaining)
    case None => None
    case Some(false) => Some((0, remaining))
    case Some(true) =>
      var size := PackageLength(ParseHeader(memory[at..at + HEADER_SIZE]).Length());
      CountMore(1, CountPackages(memory, at + size, Less(remaining, size)))
  }

  lemma CountStep(memory: seq<Byte>, at: nat, remaining: U32)
    requires IsRtcpPackage(memory, at, remaining) == Some(true)
    ensures var size := PackageLength(ParseHeader(memory[at..at + HEADER_SIZE]).Length());
            && size > 0
            && CountPackages(memory, at, remaining)
               == CountMore(1, CountPackages(memory, at + size, Less(remaining, size)))
  {
  }

  lemma CountNothing(r: Option<(nat, U32)>)
    ensures CountMore(0, r) == r
  {
  }

  lemma CountEnd(memory: seq<Byte>, at: nat, remaining: U32, n: nat)
    requires IsRtcpPackage(memory, at, remaining) != Some(true)
    ensures CountMore(n, CountPackages(memory, at, remaining)) ==
            if IsRtcpPackage(memory, at, remaining).None? then None else Some((n, remaining))
  {
  }

  /** A package as RFC 3550 section 6.4.1 asks for: version, type and a length word that fits. */
  ghost predicate IsPackage(p: seq<Byte>) {
    && |p| >= HEADER_SIZE
    && var h := HeaderOf(p);
       h.Version() == 2 && SENDER_REPORT <= h.Type() <= APPLICATION_DEFINED && |p| == PackageLength(h.Length())
  }

  /** A package of the given type from the given source. */
  ghost predicate IsPackageOf(p: seq<Byte>, t: Byte, ssrc: SsrcData) {
    IsPackage(p) && HeaderOf(p).Type() == t && HeaderOf(p).ssrc == ssrc
  }

  function Concatenation(packages: seq<seq<Byte>>): seq<Byte> {
    if packages == [] then [] else packages[0] + Concatenation(packages[1..])
  }

  /** A whole package passes the test with up to four bytes of it missing. */
  lemma AcceptedLength(p: seq<Byte>, tail: seq<Byte>, remaining: U32)
    requires IsPackage(p)
    ensures IsRtcpPackage(p + tail, 0, remaining) == Some(HEADER_SIZE <= remaining && |p| <= remaining + 4)
  {
    assert (p + tail)[0..8] == p[..8];
  }

  lemma CountOne(memory: seq<Byte>, at: nat, p: seq<Byte>, remaining: U32)
    requires IsPackage(p) && |p| <= remaining
    requires at + |p| <= |memory| && memory[at..at + |p|] == p
    ensures CountPackages(memory, at, remaining) ==
            CountMore(1, CountPackages(memory, at + |p|, remaining - |p|))
  {
    hide CountPackages, IsRtcpPackage, CountMore, ParseHeader;
    WholeAccepted(memory, at, p, remaining);
    CountStep(memory, at, remaining);
    FullLength(remaining, |p|);
  }

  /** After a package that is cut short by up to four bytes the number of bytes remaining wraps around, and packages
      are looked for far behind what was received. */
  lemma CutShortCounted(memory: seq<Byte>, at: nat, p: seq<Byte>, remaining: U32)
    requires IsPackage(p) && HEADER_SIZE <= remaining < |p| <= remaining + 4
    requires at + |p| <= |memory| && memory[at..at + |p|] == p
    ensures CountPackages(memory, at, remaining)
            == CountMore(1, CountPackages(memory, at + |p|, remaining - |p| + 0x1_0000_0000))
  {
    hide CountPackages, CountMore, ParseHeader;
    assert memory[at..at + 8] == p[..8];
    CountStep(memory, at, remaining);
  }

  lemma WholeAccepted(memory: seq<Byte>, at: nat, p: seq<Byte>, remaining: U32)
    requires IsPackage(p) && |p| <= remaining
    requires at + |p| <= |memory| && memory[at..at + |p|] == p
    ensures IsRtcpPackage(memory, at, remaining) == Some(true)
    ensures PackageLength(ParseHeader(memory[at..at + HEADER_SIZE]).Length()) == |p|
  {
    hide ParseHeader;
    assert memory[at..at + 8] == p[..8];
  }

  lemma FullLength(remaining: U32, size: U32)
    requires size <= remaining
    ensures Less(remaining, size) == remaining - size
  {
  }

  lemma SplitSlice(memory: seq<Byte>, at: nat, a: seq<Byte>, b: seq<Byte>)
    requires at + |a| + |b| <= |memory| && memory[at..at + |a + b|] == a + b
    ensures memory[at..at + |a|] == a && memory[at + |a|..at + |a| + |b|] == b
  {
    var s := memory[at..at + |a + b|];
    assert memory[at..at + |a|] == s[..|a|];
    assert memory[at + |a|..at + |a| + |b|] == s[|a|..];
  }

  lemma NoPackages(memory: seq<Byte>, at: nat)
    ensures CountPackages(memory, at, 0) == Some((0, 0))
  {
  }

  /** Every compound of whole packages is counted exactly, with nothing remaining. */
  lemma {:induction false} CompoundCounted(memory: seq<Byte>, at: nat, packages: seq<seq<Byte>>)
    requires forall p | p in packages :: IsPackage(p)
    requires var end := at + |Concatenation(packages)|;
             end <= |memory| < 0x1_0000_0000 && memory[at..end] == Concatenation(packages)
    ensures CountPackages(memory, at, |Concatenation(packages)|) == Some((|packages|, 0))
    decreases |packages|
  {
    hide CountPackages, IsPackage;
    if packages == [] {
      NoPackages(memory, at);
    } else {
      var p, rest := packages[0], packages[1..];
      assert p in packages;
      SplitSlice(memory, at, p, Concatenation(rest));
      CompoundCounted(memory, at + |p|, rest);
      CountOne(memory, at, p, |Concatenation(packages)|);
    }
  }

  // ---------- what lies in the buffer after writing ----------

  lemma OverwriteTailLater(s: seq<Byte>, at: nat, bytes: seq<Byte>, later: nat, more: seq<Byte>)
    returns (tail: seq<Byte>)
    requires at + |bytes| < later && later + |more| <= |s|
    ensures Overwrite(Overwrite(s, at, bytes), later, more)[at..] == bytes + tail
    ensures tail != [] && tail[0] == s[at + |bytes|]
  {
    tail := Overwrite(Overwrite(s, at, bytes), later, more)[at + |bytes|..];
  }

  /** The buffer after writing source descriptions. */
  function Described(before: seq<Byte>, offset: nat, h: Header, ds: seq<Description>): (after: seq<Byte>)
    requires offset + PaddedEnd(ds) + 4 <= |before|
    ensures |after| == |before|
  {
    Overwrite(Overwrite(before, offset, h.Bytes() + ItemsBytes(ds)),
              offset + PaddedEnd(ds), Zeros(Padding(ItemsEnd(ds))))
  }

  /** The first two bytes of source descriptions where they were written. */
  lemma DescribedStart(before: seq<Byte>, offset: nat, h: Header, ds: seq<Description>)
    requires offset + PaddedEnd(ds) + 4 <= |before|
    ensures var after := Described(before, offset, h, ds); after[offset] == h.flags && after[offset + 1] == h.kind
  {
    hide ItemsBytes;
    var bytes := h.Bytes() + ItemsBytes(ds);
    assert bytes[..HEADER_SIZE] == h.Bytes();
    FirstBytes(before, offset, bytes, h);
  }

  lemma DescribedTail(before: seq<Byte>, offset: nat, h: Header, ds: seq<Description>) returns (tail: seq<Byte>)
    requires offset + PaddedEnd(ds) + 4 <= |before|
    ensures Described(before, offset, h, ds)[offset..] == h.Bytes() + ItemsBytes(ds) + tail
    ensures tail != [] && tail[0] == before[offset + ItemsEnd(ds)]
  {
    tail := OverwriteTailLater(before, offset, h.Bytes() + ItemsBytes(ds),
                               offset + PaddedEnd(ds), Zeros(Padding(ItemsEnd(ds))));
  }

  /** Source descriptions written over old bytes are read back exactly when every item is readable
      and the old byte behind the items happened to be a null: the padding itself is never written. */
  lemma DescriptionsReadBack(before: seq<Byte>, offset: nat, ds: seq<Description>, h: Header, packageLength: nat)
    requires offset + PaddedEnd(ds) + 4 <= |before| && ItemsEnd(ds) < packageLength
    ensures var r := ReadItems(Described(before, offset, h, ds)[offset..], HEADER_SIZE, packageLength);
            (r.Some? && Construct(r.value) == ds) <==>
            ((forall d | d in ds :: Readable(d)) && before[offset + ItemsEnd(ds)] == 0)
  {
    var tail := DescribedTail(before, offset, h, ds);
    hide Described, ItemsBytes, ReadItems, Readable, Construct;
    DescriptionsRoundTrip(h, ds, tail, packageLength);
  }

  // ---------- the created packages are whole ----------

  /** Whatever follows the header, the package is whole; this is what the source description
      and the goodbye, whose last bytes may stay unwritten, come to. */
  lemma WholePackage(p: seq<Byte>, h: Header, t: Byte, count: nat, ssrc: SsrcData)
    requires IsHeader(h, t, count, ssrc) && SENDER_REPORT <= t <= APPLICATION_DEFINED
    requires HEADER_SIZE <= |p| == PackageLength(h.Length()) && p[..HEADER_SIZE] == h.Bytes()
    ensures IsPackageOf(p, t, ssrc)
  {
  }

  lemma WholeWithBody(h: Header, body: seq<Byte>, t: Byte, count: nat, ssrc: SsrcData)
    requires IsHeader(h, t, count, ssrc) && SENDER_REPORT <= t <= APPLICATION_DEFINED
    requires HEADER_SIZE + |body| == PackageLength(h.Length())
    ensures IsPackageOf(h.Bytes() + body, t, ssrc)
  {
    assert (h.Bytes() + body)[..HEADER_SIZE] == h.Bytes();
  }

  lemma SenderReportWhole(ssrc: SsrcData, h: Header, info: SenderInformation, reports: seq<ReceptionReport>)
    requires IsHeader(h, SENDER_REPORT, |reports|, ssrc) && PackageLength(h.Length()) == 28 + 24 * |reports|
    ensures IsPackageOf(SenderReportBytes(h, info, reports), SENDER_REPORT, ssrc)
  {
    var body := info.data + ReportsBytes(reports);
    WholeWithBody(h, body, SENDER_REPORT, |reports|, ssrc);
    assert SenderReportBytes(h, info, reports) == h.Bytes() + body;
  }

  lemma ReceiverReportWhole(ssrc: SsrcData, h: Header, reports: seq<ReceptionReport>)
    requires IsHeader(h, RECEIVER_REPORT, |reports|, ssrc) && PackageLength(h.Length()) == 8 + 24 * |reports|
    ensures IsPackageOf(ReceiverReportBytes(h, reports), RECEIVER_REPORT, ssrc)
  {
    WholeWithBody(h, ReportsBytes(reports), RECEIVER_REPORT, |reports|, ssrc);
  }

  lemma ApplicationWhole(ssrc: SsrcData, h: Header, a: Application)
    requires a.WellFormed() && |a.data| % 4 == 0 && HEADER_SIZE + 4 + |a.data| <= 1024
    requires IsHeader(h, APPLICATION_DEFINED, a.subType, ssrc) && h.Length() == LengthField(HEADER_SIZE + 4 + |a.data|)
    ensures IsPackageOf(ApplicationBytes(h, a), APPLICATION_DEFINED, ssrc)
  {
    LengthFieldExact(HEADER_SIZE + 4 + |a.data|);
    WholeWithBody(h, a.name + a.data, APPLICATION_DEFINED, a.subType, ssrc);
    assert ApplicationBytes(h, a) == h.Bytes() + (a.name + a.data);
  }

  /** Two packages one after the other from the start of the memory. */
  lemma TwoCounted(memory: seq<Byte>, a: nat, b: nat)
    requires a <= b <= |memory| < 0x1_0000_0000
    requires IsPackage(memory[..a]) && IsPackage(memory[a..b])
    ensures CountPackages(memory, 0, b) == Some((2, 0))
  {
    var p, q := memory[..a], memory[a..b];
    var one: seq<seq<Byte>>, two: seq<seq<Byte>> := [q], [p, q];
    assert one[1..] == [] && two[1..] == one;
    assert Concatenation(one) == q + [] == q;
    assert Concatenation(two) == p + q;
    assert memory[0..b] == p + q;
    CompoundCounted(memory, 0, two);
  }

  /** Three packages one after the other from the start of the memory. */
  lemma ThreeCounted(memory: seq<Byte>, a: nat, b: nat, c: nat)
    requires a <= b <= c <= |memory| < 0x1_0000_0000
    requires IsPackage(memory[..a]) && IsPackage(memory[a..b]) && IsPackage(memory[b..c])
    ensures CountPackages(memory, 0, c) == Some((3, 0))
  {
    var p, q, r := memory[..a], memory[a..b], memory[b..c];
    var one: seq<seq<Byte>>, two: seq<seq<Byte>>, three: seq<seq<Byte>> := [r], [q, r], [p, q, r];
    assert one[1..] == [] && two[1..] == one && three[1..] == two;
    assert Concatenation(one) == r + [] == r;
    assert Concatenation(two) == q + r;
    assert Concatenation(three) == p + (q + r);
    assert memory[0..c] == p + (q + r);
    CompoundCounted(memory, 0, three);
  }
}
