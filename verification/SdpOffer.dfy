/** Whole offers: the media read back from a description are those offered. */
module SdpOffer {
  import opened Words
  import opened Wrappers
  import opened Text
  import opened SdpFormat
  import opened SdpRoundTrip

  // ---------- the lines of a description ----------

  predicate PlainSession(s: Session) {
    Unbroken(s.user) && Unbroken(s.addressType) && Unbroken(s.address)
  }

  lemma WordUnbroken(word: string, rest: string)
    requires Unbroken(word) && Unbroken(rest) && rest != "" && rest[0] == ' '
    ensures Unbroken(" " + (word + rest))
  {
    Joint(word, rest);
    NoReturn(" ");
    Joint(" ", word + rest);
  }

  lemma OriginUnbroken(s: Session)
    requires PlainSession(s)
    ensures Unbroken(SessionLines(s)[1]) && Unbroken(SessionLines(s)[3])
  {
    hide Decimal, Unbroken;
    var place := " " + (s.addressType + (" " + s.address));
    var middle := " " + Decimal(s.seconds) + " " + Decimal(s.seconds) + " IN";
    NoReturn(" ");
    Joint(" ", s.address);
    WordUnbroken(s.addressType, " " + s.address);
    DigitsOnly(s.seconds);
    NoReturn(middle);
    Joint(middle, place);
    NoReturn("o=");
    Joint(s.user, middle + place);
    Joint("o=", s.user + (middle + place));
    assert SessionLines(s)[1] == "o=" + (s.user + (middle + place));
    NoReturn("c=IN");
    Joint("c=IN", place);
    assert SessionLines(s)[3] == "c=IN" + place;
  }

  lemma SessionUnbroken(s: Session)
    requires PlainSession(s)
    ensures AllUnbroken(SessionLines(s))
  {
    hide Decimal, Unbroken;
    OriginUnbroken(s);
    var lines := SessionLines(s);
    DigitsOnly(s.seconds);
    NoReturn(lines[0]);
    NoReturn(lines[2]);
    NoReturn(lines[4]);
    assert AllUnbroken([lines[4]]);
    OneMore(lines[3], [lines[4]]);
    OneMore(lines[2], [lines[3], lines[4]]);
    OneMore(lines[1], [lines[2], lines[3], lines[4]]);
    OneMore(lines[0], [lines[1], lines[2], lines[3], lines[4]]);
    assert [lines[3]] + [lines[4]] == [lines[3], lines[4]];
    assert [lines[2]] + [lines[3], lines[4]] == [lines[2], lines[3], lines[4]];
    assert [lines[1]] + [lines[2], lines[3], lines[4]] == [lines[1], lines[2], lines[3], lines[4]];
    assert [lines[0]] + [lines[1], lines[2], lines[3], lines[4]] == lines;
  }

  lemma OneMore(line: string, rest: seq<string>)
    requires Unbroken(line) && AllUnbroken(rest)
    ensures AllUnbroken([line] + rest)
  {
    assert ([line] + rest)[1..] == rest;
  }

  lemma MediaLineRead(port: U16, protocol: string, types: seq<U32>, rest: seq<string>)
    requires protocol == RTP || protocol == SRTP
    ensures var line := MediaLine(port, protocol, types);
            && Unbroken(line)
            && LineValues([line] + rest, 'm') == [MediaValue(port, protocol, types)] + LineValues(rest, 'm')
            && LineValues([line] + rest, 'a') == LineValues(rest, 'a')
  {
    hide MediaLine, MediaValue, LineValues, Values, Trim;
    var line, v := MediaLine(port, protocol, types), MediaValue(port, protocol, types);
    LineShape(port, protocol, types);
    MediaLineValue(port, protocol, types, v);
    NoReturn(line);
    TrimTrailing(v);
    OneValue(v);
    LineValuesOne(line, 'm', v + " ", 'm');
    LineValuesAppend([line], rest, 'm');
    OtherKey(line, 'm', v + " ", rest, 'a');
  }

  /** The attributes behind those of the formats. */
  function Others(crypto: Option<Crypto>): seq<string> {
    match crypto case None => [] case Some(c) => Values(Trim(CryptoText(c)))
  }

  function Protocols(crypto: Option<Crypto>): seq<string> {
    match crypto case None => [RTP] case Some(_) => [RTP, SRTP]
  }

  function MediaFields(port: U16, types: seq<U32>, crypto: Option<Crypto>): seq<string> {
    match crypto
    case None => [MediaValue(port, RTP, types)]
    case Some(_) => [MediaValue(port, RTP, types), MediaValue(port, SRTP, types)]
  }

  function TailLines(port: U16, types: seq<U32>, crypto: Option<Crypto>): seq<string> {
    match crypto case None => [] case Some(c) => [MediaLine(port, SRTP, types), "a=" + CryptoText(c)]
  }

  /** No line breaks and no commas, as in the names of suites and in base 64. */
  predicate PlainCrypto(c: Crypto) {
    Unbroken(c.suite) && ',' !in c.suite && Unbroken(c.inlineKey) && ',' !in c.inlineKey
  }

  lemma CryptoPlain(c: Crypto)
    requires PlainCrypto(c)
    ensures Unbroken(CryptoText(c)) && NoParameters(Values(Trim(CryptoText(c))))
  {
    hide Trim, Values, Unbroken;
    NoReturn("crypto:1 ");
    var tail := " inline:" + (c.inlineKey + " ");
    NoReturn(" inline:");
    NoReturn(" ");
    Joint(c.inlineKey, " ");
    Joint(" inline:", c.inlineKey + " ");
    Joint(c.suite, tail);
    Joint("crypto:1 ", c.suite + tail);
    var text := CryptoText(c);
    assert text == "crypto:1 " + (c.suite + tail);
    assert ',' !in text && text[0] == 'c';
    TrimStarts(text);
    TrimKeeps(text, ',');
    TrimEnds(text);
    OneValue(Trim(text));
    assert [Trim(text)][1..] == [];
  }

  lemma TrimKeeps(s: string, c: char)
    requires c !in s
    ensures c !in Trim(s)
  {
    hide Trim;
    var a, b := TrimRemoves(s);
    assert forall x | x in Trim(s) :: x in a + Trim(s) + b;
  }

  lemma FirstIn(a: string, rest: string)
    ensures a != "" ==> (a + rest)[0] in a
  {
  }

  /** A text that starts with a letter still does when it is trimmed. */
  lemma TrimStarts(s: string)
    requires s != "" && !IsBlank(s[0])
    ensures Trim(s) != "" && Trim(s)[0] == s[0]
  {
    hide Trim;
    var a, b := TrimRemoves(s);
    FirstIn(a, Trim(s) + b);
    assert s == a + (Trim(s) + b);
    FirstIn(b, "");
    assert b + "" == b && a == "" && s == Trim(s) + b;
  }

  lemma TailRead(port: U16, types: seq<U32>, crypto: Option<Crypto>)
    requires crypto.Some? ==> PlainCrypto(crypto.value)
    ensures var lines := TailLines(port, types, crypto);
            && AllUnbroken(lines) && LineValues(lines, 'a') == Others(crypto)
            && LineValues(lines, 'm') == MediaFields(port, types, crypto)[1..]
  {
    hide LineValues, MediaLine, MediaValue, Unbroken, Values, Trim;
    NoLines('a');
    NoLines('m');
    if crypto.Some? {
      var text := CryptoText(crypto.value);
      CryptoPlain(crypto.value);
      hide CryptoText;
      var media, line := MediaLine(port, SRTP, types), "a=" + text;
      assert line == "a" + "=" + text;
      AttributeLine(text);
      LineValuesOne(line, 'a', text, 'a');
      LineValuesOne(line, 'a', text, 'm');
      MediaLineRead(port, SRTP, types, [line]);
      assert AllUnbroken([line]);
      OneMore(media, [line]);
      assert [media] + [line] == [media, line];
    }
  }

  lemma ToolPlain()
    ensures PlainAttribute(TOOL)
  {
    NoReturn(TOOL);
  }

  lemma LinesShape(s: Session, port: U16, offered: seq<Format>, crypto: Option<Crypto>)
    ensures Lines(s, port, offered, crypto) ==
            SessionLines(s) + ([MediaLine(port, RTP, Types(offered))]
              + (AttributeLines([TOOL] + FormatAttributes(offered)) + TailLines(port, Types(offered), crypto)))
  {
    hide SessionLines, MediaLine, AttributeLines, FormatAttributes, Types;
  }

  lemma LinesRead(s: Session, port: U16, offered: seq<Format>, crypto: Option<Crypto>)
    requires PlainSession(s) && Plain(offered) && (crypto.Some? ==> PlainCrypto(crypto.value))
    ensures var lines := Lines(s, port, offered, crypto);
            && AllUnbroken(lines)
            && LineValues(lines, 'a') == [TOOL] + (FormatAttributes(offered) + Others(crypto))
            && LineValues(lines, 'm') == MediaFields(port, Types(offered), crypto)
  {
    hide Lines, LineValues, SessionLines, MediaLine, MediaValue, AttributeLines, FormatAttributes, TailLines, Types,
         PlainSession, Plain, PlainAttribute, Others;
    var types, attributes := Types(offered), [TOOL] + FormatAttributes(offered);
    LinesShape(s, port, offered, crypto);
    SessionSilent(s, 'a');
    SessionSilent(s, 'm');
    SessionUnbroken(s);
    FormatsPlain(offered);
    ToolPlain();
    PlainOne(TOOL, FormatAttributes(offered));
    AttributesRead(attributes);
    TailRead(port, types, crypto);
    var tail := TailLines(port, types, crypto);
    var behind := AttributeLines(attributes) + tail;
    LineValuesAppend(AttributeLines(attributes), tail, 'a');
    LineValuesAppend(AttributeLines(attributes), tail, 'm');
    UnbrokenAppend(AttributeLines(attributes), tail);
    MediaLineRead(port, RTP, types, behind);
    OneMore(MediaLine(port, RTP, types), behind);
    LineValuesAppend(SessionLines(s), [MediaLine(port, RTP, types)] + behind, 'a');
    LineValuesAppend(SessionLines(s), [MediaLine(port, RTP, types)] + behind, 'm');
    UnbrokenAppend(SessionLines(s), [MediaLine(port, RTP, types)] + behind);
    assert [TOOL] + (FormatAttributes(offered) + Others(crypto)) == attributes + Others(crypto);
    assert MediaFields(port, types, crypto)
           == [MediaValue(port, RTP, types)] + MediaFields(port, types, crypto)[1..];
  }

  // ---------- reading an offer ----------

  /** What an offer is read as: every format once for each protocol it is offered with. */
  function ReadBack(offered: seq<Format>, formats: seq<Format>, port: U16, protocols: seq<string>): Option<seq<Media>> {
    if protocols == [] then Some([])
    else Both(RecoveredAll(offered, formats, Types(offered), port, protocols[0]),
              ReadBack(offered, formats, port, protocols[1..]))
  }

  lemma FieldRead(attributes: seq<string>, offered: seq<Format>, formats: seq<Format>, others: seq<string>,
                  port: U16, protocol: string)
    requires Plain(offered) && NoParameters(others) && (protocol == RTP || protocol == SRTP)
    requires attributes == [TOOL] + (FormatAttributes(offered) + others)
    ensures ReadField(attributes, formats, MediaValue(port, protocol, Types(offered)))
            == RecoveredAll(offered, formats, Types(offered), port, protocol)
  {
    hide MediaValue, ParseMedia, DescribeAll, RecoveredAll, FormatAttributes, Types;
    MediaRead(MediaValue(port, protocol, Types(offered)), port, protocol, Types(offered));
    ReadAll(offered, others, formats, Types(offered), port, protocol);
  }

  lemma FieldsRead(attributes: seq<string>, offered: seq<Format>, formats: seq<Format>, port: U16,
                   crypto: Option<Crypto>)
    requires Plain(offered) && NoParameters(Others(crypto))
    requires attributes == [TOOL] + (FormatAttributes(offered) + Others(crypto))
    ensures ReadFields(attributes, formats, MediaFields(port, Types(offered), crypto))
            == ReadBack(offered, formats, port, Protocols(crypto))
  {
    hide ReadField, MediaValue, RecoveredAll, FormatAttributes, Types, Others, Plain;
    FieldRead(attributes, offered, formats, Others(crypto), port, RTP);
    FieldRead(attributes, offered, formats, Others(crypto), port, SRTP);
    var types := Types(offered);
    assert [MediaValue(port, RTP, types), MediaValue(port, SRTP, types)][1..] == [MediaValue(port, SRTP, types)];
    assert [RTP, SRTP][1..] == [SRTP];
    assert [MediaValue(port, SRTP, types)][1..] == [] && [SRTP][1..] == [];
    assert ReadFields(attributes, formats, [MediaValue(port, SRTP, types)]) == ReadBack(offered, formats, port, [SRTP]);
    assert [MediaValue(port, RTP, types)][1..] == [] && [RTP][1..] == [];
  }

  lemma OthersPlain(crypto: Option<Crypto>)
    requires crypto.Some? ==> PlainCrypto(crypto.value)
    ensures NoParameters(Others(crypto))
  {
    if crypto.Some? { CryptoPlain(crypto.value); }
  }

  /** Whatever is offered, a description written and read back gives, for every protocol, the payload
      types in the order offered, each with the port, the protocol and the format found for it. */
  lemma OfferReadBack(s: Session, port: U16, offered: seq<Format>, formats: seq<Format>, crypto: Option<Crypto>)
    requires PlainSession(s) && Plain(offered) && (crypto.Some? ==> PlainCrypto(crypto.value))
    ensures ReadMedia(ReadDescription(JoinLines(Lines(s, port, offered, crypto))), formats)
            == ReadBack(offered, formats, port, Protocols(crypto))
  {
    hide Lines, JoinLines, SplitLines, ParseKeys, FieldValues, ReadFields, ReadBack, MediaFields, Unbroken, Plain,
         FormatAttributes, Others, Types;
    var lines := Lines(s, port, offered, crypto);
    LinesRead(s, port, offered, crypto);
    assert JoinLines(lines)[0..] == JoinLines(lines);
    SplitJoined(JoinLines(lines), 0, lines);
    OthersPlain(crypto);
    FieldsRead(LineValues(lines, 'a'), offered, formats, port, crypto);
  }

  // ---------- offers that come back as they are ----------

  /** The parameters a format is offered with, as far as they are read. */
  function OfferedParameters(f: Format): seq<Parameter> {
    if f.payloadType <= LAST_STATIC || f.encoding != OPUS || f.parameters == "" then [] else ParameterList(f.parameters)
  }

  function AsMedia(offered: seq<Format>, port: U16, protocol: string): seq<Media> {
    if offered == [] then []
    else
      var f := offered[0];
      [Media(port, protocol, f.payloadType, f.encoding, f.sampleRate, f.numChannels, OfferedParameters(f))]
      + AsMedia(offered[1..], port, protocol)
  }

  predicate Distinct(offered: seq<Format>) {
    offered == [] || (offered[0].payloadType !in Types(offered[1..]) && Distinct(offered[1..]))
  }

  /** Seven bits, as in an RTP header. */
  predicate InHeader(offered: seq<Format>) {
    offered == [] || (offered[0].payloadType <= 127 && InHeader(offered[1..]))
  }

  lemma DigitsOf(n: nat)
    requires n <= 127
    ensures Decimal(n) == if n < 10 then [Digit(n)]
                          else if n < 100 then [Digit(n / 10), Digit(n % 10)]
                          else [Digit(1), Digit(n / 10 - 10), Digit(n % 10)]
  {
    if n >= 100 { assert Decimal(n / 10) == [Digit(1), Digit(n / 10 - 10)]; }
  }

  /** The digits of a payload type above the predefined ones start no other payload type's. */
  lemma DigitsApart(q: U32, p: U32)
    requires LAST_STATIC < p <= 127 && q <= 127
    ensures StartsWith(Decimal(q), Decimal(p)) <==> q == p
  {
    hide Decimal;
    DigitsOf(p);
    DigitsOf(q);
    if |Decimal(p)| == |Decimal(q)| {
      assert Decimal(q)[..|Decimal(p)|] == Decimal(q);
    } else if |Decimal(q)| == 3 {
      assert Decimal(q)[..2] == [Digit(1), Digit(q / 10 - 10)];
    }
  }

  lemma {:induction false} InTypes(offered: seq<Format>, f: Format)
    requires f in offered
    ensures f.payloadType in Types(offered)
  {
    if offered[0] == f {
    } else {
      InTypes(offered[1..], f);
    }
  }

  /** The searches for the attributes of a format find its own. */
  predicate Own(offered: seq<Format>, f: Format) {
    f.payloadType > LAST_STATIC ==>
      && FirstLike(offered, f.payloadType) == Some(f)
      && FirstWithParameters(offered, f.payloadType) == if f.parameters != "" then Some(f) else None
  }

  lemma {:induction false} NoneWithParameters(offered: seq<Format>, p: U32)
    requires InHeader(offered) && LAST_STATIC < p <= 127 && p !in Types(offered)
    ensures FirstWithParameters(offered, p) == None
  {
    hide Decimal, StartsWith;
    if offered == [] {
    } else {
      assert Types(offered)[0] == offered[0].payloadType && Types(offered)[1..] == Types(offered[1..]);
      DigitsApart(offered[0].payloadType, p);
      NoneWithParameters(offered[1..], p);
    }
  }

  lemma {:induction false} OwnMap(offered: seq<Format>, f: Format)
    requires f in offered && Distinct(offered) && InHeader(offered)
    ensures Own(offered, f)
  {
    hide Decimal, StartsWith;
    if f.payloadType > LAST_STATIC {
      if offered[0] == f {
        DigitsApart(f.payloadType, f.payloadType);
        NoneWithParameters(offered[1..], f.payloadType);
      } else {
        OwnMap(offered[1..], f);
        InTypes(offered[1..], f);
        InHeaderOne(offered[1..], f);
        DigitsApart(offered[0].payloadType, f.payloadType);
      }
    }
  }

  lemma {:induction false} InHeaderOne(offered: seq<Format>, f: Format)
    requires f in offered && InHeader(offered)
    ensures f.payloadType <= 127
  {
    if offered[0] == f {
    } else {
      InHeaderOne(offered[1..], f);
    }
  }

  /** A predefined type is one of those supported, with the format registered for it; for any other one the
      encoding is supported. */
  predicate Restorable(f: Format, formats: seq<Format>) {
    if f.payloadType <= LAST_STATIC then
      var r := Registered(formats, f.payloadType);
      && StaticSupported(f.payloadType) && r.Some?
      && r.value.encoding == f.encoding && r.value.sampleRate == f.sampleRate && r.value.numChannels == f.numChannels
    else EncodingSupported(formats, f.encoding)
  }

  predicate AllRestorable(offered: seq<Format>, formats: seq<Format>) {
    offered == [] || (Restorable(offered[0], formats) && AllRestorable(offered[1..], formats))
  }

  lemma {:induction false} RegisteredType(formats: seq<Format>, p: U32)
    ensures Registered(formats, p).Some? ==> Registered(formats, p).value.payloadType == p
  {
    if formats == [] {
    } else {
      RegisteredType(formats[1..], p);
    }
  }

  lemma OneRestored(offered: seq<Format>, formats: seq<Format>, f: Format, port: U16, protocol: string)
    requires Own(offered, f)
    ensures var r := Recovered(offered, formats, f.payloadType, port, protocol);
            && (r.Some? ==> |r.value| <= 1)
            && (r == Some([Media(port, protocol, f.payloadType, f.encoding, f.sampleRate, f.numChannels,
                                 OfferedParameters(f))])
                <==> Restorable(f, formats))
  {
    RegisteredType(formats, f.payloadType);
  }

  lemma {:induction false} PartRestored(offered: seq<Format>, formats: seq<Format>, part: seq<Format>,
                                        port: U16, protocol: string)
    requires forall f | f in part :: Own(offered, f)
    ensures var r := RecoveredAll(offered, formats, Types(part), port, protocol);
            && (r.Some? ==> |r.value| <= |part|) && |AsMedia(part, port, protocol)| == |part|
            && (r == Some(AsMedia(part, port, protocol)) <==> AllRestorable(part, formats))
    decreases |part|
  {
    hide Recovered, Restorable, Own, OfferedParameters;
    if part == [] {
    } else {
      var f, rest := part[0], part[1..];
      assert f in part;
      OneRestored(offered, formats, f, port, protocol);
      PartRestored(offered, formats, rest, port, protocol);
      var m := Media(port, protocol, f.payloadType, f.encoding, f.sampleRate, f.numChannels, OfferedParameters(f));
      assert Types(part)[1..] == Types(rest) && Types(part)[0] == f.payloadType;
      var first := Recovered(offered, formats, f.payloadType, port, protocol);
      var others := RecoveredAll(offered, formats, Types(rest), port, protocol);
      if first.Some? && others.Some? {
        HeadAndTail(first.value, others.value, m, AsMedia(rest, port, protocol));
      }
    }
  }

  lemma HeadAndTail(first: seq<Media>, others: seq<Media>, m: Media, ms: seq<Media>)
    requires |first| <= 1 && |others| <= |ms|
    ensures first + others == [m] + ms <==> first == [m] && others == ms
  {
    if first + others == [m] + ms {
      assert |first + others| == |first| + |others|;
      assert first == (first + others)[..1] == [m];
      assert others == (first + others)[1..] == ms;
    }
  }

  /** An offer of distinct payload types comes back whole, in its order, exactly when each of its formats is
      restorable. */
  lemma OfferRestored(s: Session, port: U16, offered: seq<Format>, formats: seq<Format>)
    requires PlainSession(s) && Plain(offered) && Distinct(offered) && InHeader(offered)
    ensures ReadMedia(ReadDescription(JoinLines(Lines(s, port, offered, None))), formats)
            == Some(AsMedia(offered, port, RTP))
            <==> AllRestorable(offered, formats)
  {
    hide ReadMedia, ReadDescription, JoinLines, Lines, RecoveredAll, AllRestorable, AsMedia, Own, Types;
    hide Plain, Unbroken;
    OfferReadBack(s, port, offered, formats, None);
    forall f | f in offered ensures Own(offered, f) {
      OwnMap(offered, f);
    }
    PartRestored(offered, formats, offered, port, RTP);
    var first := RecoveredAll(offered, formats, Types(offered), port, RTP);
    assert Protocols(None)[1..] == [];
    assert first.Some? ==> first.value + [] == first.value;
  }

  // ---------- everything supported ----------

  lemma {:induction false} FoldsToItself(s: string)
    ensures SameText(s, s)
  {
    if s == "" {
    } else {
      FoldsToItself(s[1..]);
    }
  }

  lemma {:induction false} RegisteredSupported(formats: seq<Format>, f: Format)
    requires f in formats && Distinct(formats)
    ensures Registered(formats, f.payloadType) == Some(f) && EncodingSupported(formats, f.encoding)
  {
    if formats[0] == f {
      FoldsToItself(f.encoding);
    } else {
      RegisteredSupported(formats[1..], f);
      InTypes(formats[1..], f);
    }
  }

  predicate StaticsSupported(offered: seq<Format>) {
    offered == [] || ((offered[0].payloadType <= LAST_STATIC ==> StaticSupported(offered[0].payloadType))
                      && StaticsSupported(offered[1..]))
  }

  lemma {:induction false} RegisteredRestorable(part: seq<Format>, formats: seq<Format>)
    requires Distinct(formats) && StaticsSupported(part) && forall f | f in part :: f in formats
    ensures AllRestorable(part, formats)
    decreases |part|
  {
    if part == [] {
    } else {
      assert part[0] in part;
      RegisteredSupported(formats, part[0]);
      RegisteredRestorable(part[1..], formats);
    }
  }

  /** Without a selection everything registered is offered, and all of it comes back. */
  lemma EverythingRestored(s: Session, port: U16, formats: seq<Format>)
    requires PlainSession(s) && Plain(formats) && Distinct(formats) && InHeader(formats) && StaticsSupported(formats)
    ensures ReadMedia(ReadDescription(JoinLines(Lines(s, port, Offered(formats, []), None))), formats)
            == Some(AsMedia(formats, port, RTP))
  {
    hide ReadMedia, ReadDescription, JoinLines, Lines, AsMedia, PlainSession, Plain, Distinct;
    hide InHeader, StaticsSupported;
    OfferRestored(s, port, formats, formats);
    RegisteredRestorable(formats, formats);
  }

  /** Above 127 the digits can clash: type 19, offered behind type 190, is read with the format of 190. */
  lemma DigitsClash(first: Format, second: Format)
    requires first.payloadType == 190 && second.payloadType == 19
    ensures FirstLike([first, second], 19) == Some(first)
  {
    assert Decimal(19) == [Digit(1), Digit(9)] && Decimal(190) == [Digit(1), Digit(9), Digit(0)];
    assert Decimal(190)[..2] == Decimal(19);
  }
}
