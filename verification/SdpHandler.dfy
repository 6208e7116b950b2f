/** Writing and reading session descriptions with the loops of the message handler. */
module SdpHandler {
  import opened Words
  import opened Wrappers
  import opened Text
  import opened SdpFormat
  import opened SdpSession

  // ---------- writing ----------

  lemma TypesFrom(offered: seq<Format>, i: nat)
    requires i < |offered|
    ensures Types(offered[i..]) == [offered[i].payloadType] + Types(offered[i + 1..])
  {
    assert offered[i..][1..] == offered[i + 1..];
  }

  lemma {:induction false} SelectedAt(formats: seq<Format>, media: seq<Media>, i: nat)
    requires i < |media|
    ensures |Selected(formats, media)| == |media|
    ensures var m := media[i];
            Selected(formats, media)[i]
            == Format(m.payloadType, m.encoding, m.sampleRate, m.numChannels, ParametersOf(formats, m))
  {
    if i > 0 {
      SelectedAt(formats, media[1..], i - 1);
    } else if |media| > 1 {
      SelectedAt(formats, media[1..], 0);
    }
  }

  lemma SelectedSize(formats: seq<Format>, media: seq<Media>)
    requires media != []
    ensures |Selected(formats, media)| == |media|
  {
    SelectedAt(formats, media, 0);
  }

  lemma NextType(line: string, types: seq<U32>, p: U32)
    ensures line + TypeList([p] + types) == line + (Decimal(p) + " ") + TypeList(types)
  {
    assert ([p] + types)[1..] == types;
  }

  lemma NoTypes(line: string)
    ensures line + TypeList(Types([])) == line
  {
  }

  method GenerateMediaLine(localPort: U16, protocol: string, media: seq<Media>, formats: seq<Format>)
    returns (mediaLine: string)
    ensures mediaLine == MediaLine(localPort, protocol, Types(Offered(formats, media)))
  {
    hide TypeList, Types, Decimal, Selected;
    mediaLine := "m=audio " + Decimal(localPort) + " " + protocol + " ";
    ghost var offered := Offered(formats, media);
    ghost var line := MediaLine(localPort, protocol, Types(offered));
    assert offered[0..] == offered;
    if media == [] {
      for i := 0 to |formats|
        invariant mediaLine + TypeList(Types(offered[i..])) == line
      {
        TypesFrom(offered, i);
        NextType(mediaLine, Types(offered[i + 1..]), formats[i].payloadType);
        mediaLine := mediaLine + (Decimal(formats[i].payloadType) + " ");
      }
    } else {
      SelectedSize(formats, media);
      for i := 0 to |media|
        invariant mediaLine + TypeList(Types(offered[i..])) == line
      {
        SelectedAt(formats, media, i);
        TypesFrom(offered, i);
        NextType(mediaLine, Types(offered[i + 1..]), media[i].payloadType);
        mediaLine := mediaLine + (Decimal(media[i].payloadType) + " ");
      }
    }
    assert offered[|offered|..] == [];
    NoTypes(mediaLine);
  }

  /** The attribute lines still to write. */
  function FormatLines(formats: seq<Format>): seq<string> {
    AttributeLines(FormatAttributes(formats))
  }

  lemma AddAttribute(lines: seq<string>, a: string, attributes: seq<string>)
    ensures lines + AttributeLines([a] + attributes) == lines + ["a=" + a] + AttributeLines(attributes)
  {
    assert ([a] + attributes)[1..] == attributes;
  }

  lemma NextFormat(lines: seq<string>, offered: seq<Format>, i: nat)
    requires i < |offered|
    ensures var f := offered[i];
            lines + FormatLines(offered[i..]) ==
            lines + ["a=" + MapText(f)] + (if f.parameters != "" then ["a=" + ParameterText(f)] else [])
            + FormatLines(offered[i + 1..])
  {
    hide AttributeLines, MapText, ParameterText;
    var f, rest := offered[i], FormatAttributes(offered[i + 1..]);
    assert offered[i..][1..] == offered[i + 1..];
    if f.parameters != "" {
      AddAttribute(lines, MapText(f), [ParameterText(f)] + rest);
      AddAttribute(lines + ["a=" + MapText(f)], ParameterText(f), rest);
    } else {
      assert [] + rest == rest;
      AddAttribute(lines, MapText(f), rest);
    }
  }

  lemma MapLine(f: Format)
    ensures "a=rtpmap:" + Decimal(f.payloadType) + " " + f.encoding + "/" + Decimal(f.sampleRate) + "/"
            + Decimal(f.numChannels)
            == "a=" + MapText(f)
    ensures "a=fmtp:" + Decimal(f.payloadType) + " " + f.parameters == "a=" + ParameterText(f)
  {
    hide Decimal;
    assert "a=rtpmap:" == "a=" + "rtpmap:" && "a=fmtp:" == "a=" + "fmtp:";
  }

  lemma NoFormats(lines: seq<string>)
    ensures lines + FormatLines([]) == lines
  {
  }

  /** The attributes of all registered or of the selected formats, behind the lines given. */
  method AppendFormats(start: seq<string>, media: seq<Media>, formats: seq<Format>) returns (lines: seq<string>)
    ensures lines == start + FormatLines(Offered(formats, media))
  {
    hide FormatLines, Decimal, Selected, ParametersOf, MapText, ParameterText;
    lines := start;
    ghost var offered := Offered(formats, media);
    assert offered[0..] == offered;
    if media == [] {
      for i := 0 to |formats|
        invariant lines + FormatLines(offered[i..]) == start + FormatLines(offered)
      {
        var format := formats[i];
        NextFormat(lines, offered, i);
        MapLine(format);
        lines := lines + ["a=rtpmap:" + Decimal(format.payloadType) + " " + format.encoding
                          + "/" + Decimal(format.sampleRate) + "/" + Decimal(format.numChannels)];
        if format.parameters != "" {
          lines := lines + ["a=fmtp:" + Decimal(format.payloadType) + " " + format.parameters];
        } else {
          assert lines + [] == lines;
        }
      }
    } else {
      SelectedSize(formats, media);
      for i := 0 to |media|
        invariant lines + FormatLines(offered[i..]) == start + FormatLines(offered)
      {
        var m := media[i];
        var format := Format(m.payloadType, m.encoding, m.sampleRate, m.numChannels, ParametersOf(formats, m));
        SelectedAt(formats, media, i);
        NextFormat(lines, offered, i);
        MapLine(format);
        lines := lines + ["a=rtpmap:" + Decimal(m.payloadType) + " " + m.encoding
                          + "/" + Decimal(m.sampleRate) + "/" + Decimal(m.numChannels)];
        if format.parameters != "" {
          lines := lines + ["a=fmtp:" + Decimal(m.payloadType) + " " + format.parameters];
        } else {
          assert lines + [] == lines;
        }
      }
    }
    assert offered[|offered|..] == [];
    NoFormats(lines);
  }

  lemma NextLine(result: string, lines: seq<string>, i: nat)
    requires i < |lines|
    ensures result + JoinLines(lines[i..]) == result + lines[i] + CRLF + JoinLines(lines[i + 1..])
  {
    assert lines[i..][1..] == lines[i + 1..];
  }

  lemma LinesGrouped(s: Session, port: U16, offered: seq<Format>, crypto: Option<Crypto>)
    ensures Lines(s, port, offered, crypto) ==
            SessionLines(s) + [MediaLine(port, RTP, Types(offered))] + ["a=" + TOOL] + FormatLines(offered) +
            match crypto case None => [] case Some(c) => [MediaLine(port, SRTP, Types(offered)), "a=" + CryptoText(c)]
  {
    hide SessionLines, MediaLine, AttributeLines, FormatAttributes, Types;
    AddAttribute([], TOOL, FormatAttributes(offered));
    var first := SessionLines(s) + [MediaLine(port, RTP, Types(offered))];
    var middle := AttributeLines([TOOL] + FormatAttributes(offered));
    assert [] + middle == middle && [] + ["a=" + TOOL] == ["a=" + TOOL];
    assert first + middle == first + ["a=" + TOOL] + FormatLines(offered);
  }

  /** `cryptoContext` makes a second media line and the attribute with its key. */
  method CreateSessionDescription(session: Session, localPort: U16, media: seq<Media>, formats: seq<Format>,
                                  cryptoContext: Option<Crypto>) returns (result: string)
    ensures result == JoinLines(Lines(session, localPort, Offered(formats, media), cryptoContext))
  {
    hide FormatLines, Decimal, Selected, JoinLines, Lines, MediaLine, Types, Offered;
    LinesGrouped(session, localPort, Offered(formats, media), cryptoContext);
    var seconds := Decimal(session.seconds);
    var lines := ["v=0"];
    lines := lines + ["o=" + session.user + " " + seconds + " " + seconds + " IN " + session.addressType + " "
                      + session.address];
    lines := lines + ["s=-"];
    lines := lines + ["c=IN " + session.addressType + " " + session.address];
    lines := lines + ["t=" + seconds + " 0"];
    assert lines == SessionLines(session);
    var mediaLine := GenerateMediaLine(localPort, RTP, media, formats);
    lines := lines + [mediaLine] + ["a=" + TOOL];
    lines := AppendFormats(lines, media, formats);
    if cryptoContext.Some? {
      mediaLine := GenerateMediaLine(localPort, SRTP, media, formats);
      lines := lines + [mediaLine, "a=crypto:1 " + cryptoContext.value.suite
                                   + " inline:" + cryptoContext.value.inlineKey + " "];
      CryptoLine(cryptoContext.value);
    } else {
      assert lines + [] == lines;
    }
    assert lines == Lines(session, localPort, Offered(formats, media), cryptoContext);
    result := "";
    assert lines[0..] == lines && "" + JoinLines(lines) == JoinLines(lines);
    for i := 0 to |lines|
      invariant result + JoinLines(lines[i..]) == JoinLines(lines)
    {
      NextLine(result, lines, i);
      result := result + lines[i] + CRLF;
    }
    NoMoreLines(result, lines);
  }

  lemma CryptoLine(c: Crypto)
    ensures "a=crypto:1 " + c.suite + " inline:" + c.inlineKey + " " == "a=" + CryptoText(c)
  {
    assert "a=crypto:1 " == "a=" + "crypto:1 ";
  }

  lemma NoMoreLines(result: string, lines: seq<string>)
    ensures result + JoinLines(lines[|lines|..]) == result
  {
  }

  // ---------- reading ----------

  method ReadSessionDescription(message: string) returns (fields: seq<SessionKey>)
    ensures fields == ReadDescription(message)
  {
    hide ParseKey, LineEnd, SplitLines, ParseKeys;
    var lines: seq<string> := [];
    var lastIndex := 0;
    var index := LineEnd(message, lastIndex);
    assert [] + SplitLines(message, 0) == SplitLines(message, 0);
    while index.Some?
      invariant lastIndex <= |message| && index == LineEnd(message, lastIndex)
      invariant lines + SplitLines(message, lastIndex) == SplitLines(message, 0)
      decreases |message| - lastIndex
    {
      SplitStep(message, lastIndex, lines);
      lines := lines + [message[lastIndex..index.value]];
      lastIndex := index.value + 2;
      index := LineEnd(message, lastIndex);
    }
    SplitStep(message, lastIndex, lines);
    fields := [];
    assert lines[0..] == lines && [] + ParseKeys(lines) == ParseKeys(lines);
    for i := 0 to |lines|
      invariant fields + ParseKeys(lines[i..]) == ParseKeys(lines)
    {
      KeyStep(fields, lines, i);
      fields := fields + [ParseKey(lines[i])];
    }
    KeyStep(fields, lines, |lines|);
  }

  lemma SplitStep(s: string, at: nat, lines: seq<string>)
    requires at <= |s|
    ensures var end := LineEnd(s, at);
            lines + SplitLines(s, at) ==
            if end.None? then lines else lines + [s[at..end.value]] + SplitLines(s, end.value + 2)
  {
    hide LineEnd;
  }

  lemma KeyStep(fields: seq<SessionKey>, lines: seq<string>, i: nat)
    requires i <= |lines|
    ensures fields + ParseKeys(lines[i..]) ==
            if i == |lines| then fields else fields + [ParseKey(lines[i])] + ParseKeys(lines[i + 1..])
  {
    hide ParseKey;
    if i < |lines| { assert lines[i..][1..] == lines[i + 1..]; }
  }

  /** The value of the first field with a key. */
  method GetField(fields: seq<SessionKey>, key: char) returns (value: string)
    ensures value == FieldValue(fields, key)
  {
    assert fields[0..] == fields;
    for i := 0 to |fields|
      invariant FieldValue(fields[i..], key) == FieldValue(fields, key)
    {
      assert fields[i..][1..] == fields[i + 1..];
      if fields[i].key == key {
        return fields[i].value;
      }
    }
    return "";
  }

  method GetConnectionAddress(fields: seq<SessionKey>) returns (address: string)
    ensures address == ConnectionAddress(fields)
  {
    var connection := GetField(fields, 'c');
    var index := LastIndexOf(connection, ' ');
    address := connection[Behind(index)..];
  }

  method IsEncodingSupported(encoding: string, formats: seq<Format>) returns (r: bool)
    ensures r == EncodingSupported(formats, encoding)
  {
    assert formats[0..] == formats;
    for i := 0 to |formats|
      invariant EncodingSupported(formats[i..], encoding) == EncodingSupported(formats, encoding)
    {
      assert formats[i..][1..] == formats[i + 1..];
      if EqualsIgnoreCase(formats[i].encoding, encoding) {
        return true;
      }
    }
    return false;
  }

  method GetFormat(payloadType: U32, formats: seq<Format>) returns (r: Option<Format>)
    ensures r == Registered(formats, payloadType)
  {
    assert formats[0..] == formats;
    for i := 0 to |formats|
      invariant Registered(formats[i..], payloadType) == Registered(formats, payloadType)
    {
      assert formats[i..][1..] == formats[i + 1..];
      if formats[i].payloadType == payloadType {
        return Some(formats[i]);
      }
    }
    return None;
  }

  method GetRTPMap(attributes: seq<string>, payloadType: U32)
    returns (encoding: string, sampleRate: U32, numChannels: U16)
    ensures (encoding, sampleRate, numChannels) == ParseMap(RtpMap(attributes, payloadType))
  {
    hide RtpMap, IndexOf, Atoi;
    var rtpMap := RtpMap(attributes, payloadType);
    if rtpMap == "" {
      return "", 0, 0;
    }
    var index := Behind(IndexOf(rtpMap, ' ', 0));
    encoding := UpTo(rtpMap, index, IndexOf(rtpMap, '/', index));
    index := Behind(IndexOf(rtpMap, '/', index));
    sampleRate := Atoi(UpTo(rtpMap, index, IndexOf(rtpMap, '/', index))) % 0x1_0000_0000;
    var slash := IndexOf(rtpMap, '/', index);
    numChannels := 2;
    if slash.Some? {
      numChannels := Atoi(rtpMap[slash.value + 1..]) % 0x1_0000;
    }
  }

  /** Assigns the value to the first parameter with the key, appending one if there is none. */
  method AssignParameter(ps: seq<Parameter>, key: string, value: string) returns (r: seq<Parameter>)
    ensures r == SetParameter(ps, key, value)
  {
    hide EqualsIgnoreCase;
    assert ps[..0] == [] && ps[0..] == ps && [] + SetParameter(ps, key, value) == SetParameter(ps, key, value);
    for i := 0 to |ps|
      invariant ps[..i] + SetParameter(ps[i..], key, value) == SetParameter(ps, key, value)
    {
      SetStep(ps, i, key, value);
      if EqualsIgnoreCase(ps[i].key, key) {
        return ps[i := ps[i].(value := value)];
      }
    }
    SetStep(ps, |ps|, key, value);
    return ps + [Parameter(key, value)];
  }

  lemma SetStep(ps: seq<Parameter>, i: nat, key: string, value: string)
    requires i <= |ps|
    ensures ps[..i] + SetParameter(ps[i..], key, value) ==
            if i == |ps| then ps + [Parameter(key, value)]
            else if EqualsIgnoreCase(ps[i].key, key) then ps[i := ps[i].(value := value)]
            else ps[..i + 1] + SetParameter(ps[i + 1..], key, value)
  {
    hide EqualsIgnoreCase;
    SetFirst(ps[i..], key, value);
    hide SetParameter;
    if i == |ps| {
      assert ps[i..] == [] && ps[..i] == ps;
    } else {
      assert ps[i..][1..] == ps[i + 1..] && ps[..i + 1] == ps[..i] + [ps[i]];
    }
  }

  lemma SetFirst(ps: seq<Parameter>, key: string, value: string)
    ensures SetParameter(ps, key, value) ==
            if ps == [] then [Parameter(key, value)]
            else if EqualsIgnoreCase(ps[0].key, key) then [ps[0].(value := value)] + ps[1..]
            else [ps[0]] + SetParameter(ps[1..], key, value)
  {
    hide EqualsIgnoreCase;
  }

  /** The loop over the pairs of the parameter line. */
  method ReadFormatParameters(attributes: seq<string>, payloadType: U32, encoding: string) returns (ps: seq<Parameter>)
    ensures ps == FormatParameters(ParameterLine(attributes, payloadType), encoding)
  {
    hide IndexOf, ParameterLine, SetParameter, ReadParameters, Trim, UpTo;
    var fmtParams := ParameterLine(attributes, payloadType);
    ps := [];
    if fmtParams == "" {
      NoCharacter(' ');
      return;
    }
    if encoding == OPUS {
      var index := IndexOf(fmtParams, ' ', 0);
      ghost var start := index;
      while index.Some?
        invariant index.Some? ==> index.value < |fmtParams|
        invariant start.Some? ==>
          ReadParameters(fmtParams, start.value + 1, []) ==
          if index.Some? then ReadParameters(fmtParams, index.value + 1, ps) else ps
        invariant start.None? ==> index.None? && ps == []
        decreases if index.Some? then |fmtParams| - index.value else 0
      {
        var next := IndexOf(fmtParams, ';', index.value + 1);
        var pair := UpTo(fmtParams, index.value + 1, next);
        var equals := IndexOf(pair, '=', 0);
        var key := Trim(UpTo(pair, 0, equals));
        var value := Trim(pair[Behind(equals)..]);
        ParametersStep(fmtParams, index.value + 1, ps);
        ps := AssignParameter(ps, key, value);
        index := next;
      }
    }
  }

  lemma ParametersStep(text: string, at: nat, ps: seq<Parameter>)
    requires at <= |text|
    ensures var end := IndexOf(text, ';', at);
            var pair := ParsePair(UpTo(text, at, end));
            var next := SetParameter(ps, pair.key, pair.value);
            ReadParameters(text, at, ps) == if end.None? then next else ReadParameters(text, end.value + 1, next)
  {
    hide IndexOf, SetParameter, Trim, UpTo;
  }

  lemma NoCharacter(c: char)
    ensures IndexOf("", c, 0) == None
  {
  }

  /** One payload type of a media field. */
  method ReadType(attributes: seq<string>, formats: seq<Format>, payloadType: U32, port: U16, protocol: string)
    returns (r: Option<seq<Media>>)
    ensures r == Describe(attributes, formats, payloadType, port, protocol)
  {
    hide RtpMap, ParseMap, Registered, EncodingSupported, ParameterLine, FormatParameters;
    if payloadType <= LAST_STATIC {
      if !(payloadType == 10 || payloadType == 8 || payloadType == 0 || payloadType == 3) {
        return Some([]);
      }
      var f := GetFormat(payloadType, formats);
      if f.None? {
        return None;
      }
      var g := f.value;
      return Some([Media(port, protocol, g.payloadType, g.encoding, g.sampleRate, g.numChannels, [])]);
    }
    var encoding, sampleRate, numChannels := GetRTPMap(attributes, payloadType);
    var parameters := ReadFormatParameters(attributes, payloadType, encoding);
    var supported := IsEncodingSupported(encoding, formats);
    return Some(if supported
                then [Media(port, protocol, payloadType, encoding, sampleRate, numChannels, parameters)] else []);
  }

  lemma BothAssociative(a: seq<Media>, b: Option<seq<Media>>, c: Option<seq<Media>>)
    ensures Both(Some(a), Both(b, c)) == Both(Both(Some(a), b), c)
  {
    if b.Some? && c.Some? { assert a + (b.value + c.value) == a + b.value + c.value; }
  }

  lemma BothUnits(a: seq<Media>, b: Option<seq<Media>>)
    ensures Both(Some(a), Some([])) == Some(a) && Both(Some([]), b) == b
  {
    assert a + [] == a;
    if b.Some? { assert [] + b.value == b.value; }
  }

  lemma TypesStep(attributes: seq<string>, formats: seq<Format>, p: U32, rest: seq<U32>, port: U16, protocol: string)
    ensures DescribeAll(attributes, formats, [p] + rest, port, protocol) ==
            Both(Describe(attributes, formats, p, port, protocol),
                 DescribeAll(attributes, formats, rest, port, protocol))
  {
    hide Describe;
    assert ([p] + rest)[1..] == rest;
  }

  /** The payload types of a media field, from the space at `index` on. */
  method ReadPayloadTypes(attributes: seq<string>, formats: seq<Format>, mediaField: string, index: Option<nat>,
                          port: U16, protocol: string) returns (r: Option<seq<Media>>)
    requires index.Some? ==> index.value < |mediaField|
    ensures r == DescribeAll(attributes, formats, ReadTypes(mediaField, index), port, protocol)
  {
    hide Describe, DescribeAll, IndexOf, Atoi, UpTo, Both;
    var results: seq<Media> := [];
    var space := index;
    ghost var all := DescribeAll(attributes, formats, ReadTypes(mediaField, index), port, protocol);
    BothUnits([], all);
    while space.Some?
      invariant space.Some? ==> space.value < |mediaField|
      invariant Both(Some(results), DescribeAll(attributes, formats, ReadTypes(mediaField, space), port, protocol))
                == all
      decreases if space.Some? then |mediaField| - space.value else 0
    {
      var start := space.value + 1;
      space := IndexOf(mediaField, ' ', start);
      var payloadType := Atoi(UpTo(mediaField, start, space)) % 0x1_0000_0000;
      ghost var rest := DescribeAll(attributes, formats, ReadTypes(mediaField, space), port, protocol);
      TypesStep(attributes, formats, payloadType, ReadTypes(mediaField, space), port, protocol);
      BothAssociative(results, Describe(attributes, formats, payloadType, port, protocol), rest);
      var found := ReadType(attributes, formats, payloadType, port, protocol);
      if found.None? {
        BothNone(results, rest);
        return None;
      }
      BothSome(results, found.value);
      results := results + found.value;
    }
    NoTypesLeft(attributes, formats, port, protocol);
    BothUnits(results, None);
    return Some(results);
  }

  lemma NoTypesLeft(attributes: seq<string>, formats: seq<Format>, port: U16, protocol: string)
    ensures DescribeAll(attributes, formats, [], port, protocol) == Some([])
  {
  }

  lemma BothNone(a: seq<Media>, b: Option<seq<Media>>)
    ensures Both(Both(Some(a), None), b) == None
  {
  }

  lemma BothSome(a: seq<Media>, b: seq<Media>)
    ensures Both(Some(a), Some(b)) == Some(a + b)
  {
  }

  method ReadMediaDescriptions(sdp: seq<SessionKey>, formats: seq<Format>) returns (r: Option<seq<Media>>)
    ensures r == ReadMedia(sdp, formats)
  {
    hide FieldValues, ReadField, ReadFields, Both;
    var results: seq<Media> := [];
    var mediaFields := FieldValues(sdp, 'm');
    var attributes := FieldValues(sdp, 'a');
    ghost var all := ReadFields(attributes, formats, mediaFields);
    assert mediaFields[0..] == mediaFields;
    BothUnits([], all);
    for i := 0 to |mediaFields|
      invariant Both(Some(results), ReadFields(attributes, formats, mediaFields[i..])) == all
    {
      ghost var rest := ReadFields(attributes, formats, mediaFields[i + 1..]);
      FieldsStep(attributes, formats, mediaFields, i);
      BothAssociative(results, ReadField(attributes, formats, mediaFields[i]), rest);
      var found := ReadMediaField(attributes, formats, mediaFields[i]);
      if found.None? {
        BothNone(results, rest);
        return None;
      }
      BothSome(results, found.value);
      results := results + found.value;
    }
    FieldsStep(attributes, formats, mediaFields, |mediaFields|);
    BothUnits(results, None);
    return Some(results);
  }

  lemma FieldsStep(attributes: seq<string>, formats: seq<Format>, media: seq<string>, i: nat)
    requires i <= |media|
    ensures ReadFields(attributes, formats, media[i..]) ==
            if i == |media| then Some([])
            else Both(ReadField(attributes, formats, media[i]), ReadFields(attributes, formats, media[i + 1..]))
  {
    hide ReadField, Both;
    if i < |media| { assert media[i..][1..] == media[i + 1..]; }
  }

  /** Fields for other media and with other protocols are skipped. */
  method ReadMediaField(attributes: seq<string>, formats: seq<Format>, mediaField: string)
    returns (r: Option<seq<Media>>)
    ensures r == ReadField(attributes, formats, mediaField)
  {
    hide IndexOf, Atoi, DescribeAll, ReadTypes, StartsWith;
    if !StartsWith(mediaField, "audio") {
      return Some([]);
    }
    var index := Behind(IndexOf(mediaField, ' ', 0));
    var port := Atoi(UpTo(mediaField, index, IndexOf(mediaField, ' ', index))) % 0x1_0000;
    index := Behind(IndexOf(mediaField, ' ', index));
    var types := IndexOf(mediaField, ' ', index);
    var protocol := UpTo(mediaField, index, types);
    if RTP != protocol && SRTP != protocol {
      return Some([]);
    }
    r := ReadPayloadTypes(attributes, formats, mediaField, types, port, protocol);
  }
}
