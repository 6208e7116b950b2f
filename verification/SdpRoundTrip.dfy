/** An offer of media, written as a session description and read back (RFC 4566 sections 5.14 and 6). */
module SdpRoundTrip {
  import opened Words
  import opened Wrappers
  import opened Text
  import opened SdpFormat

  // ---------- lines and keys ----------

  predicate AllUnbroken(lines: seq<string>) {
    lines == [] || (Unbroken(lines[0]) && AllUnbroken(lines[1..]))
  }

  lemma {:induction false} UnbrokenAppend(a: seq<string>, b: seq<string>)
    requires AllUnbroken(a) && AllUnbroken(b)
    ensures AllUnbroken(a + b)
  {
    hide Unbroken;
    if a == [] {
      assert a + b == b;
    } else {
      UnbrokenAppend(a[1..], b);
      assert (a + b)[1..] == a[1..] + b;
    }
  }

  lemma {:induction false} SplitJoined(s: string, at: nat, lines: seq<string>)
    requires at <= |s| && s[at..] == JoinLines(lines) && AllUnbroken(lines)
    ensures SplitLines(s, at) == lines
    decreases |lines|
  {
    hide Unbroken, LineEnd, SplitLines;
    if lines == [] {
      assert at == |s|;
      NoLine(s);
    } else {
      FirstLine(s, at, lines[0], JoinLines(lines[1..]));
      SplitJoined(s, at + |lines[0]| + 2, lines[1..]);
      assert lines == [lines[0]] + lines[1..];
    }
  }

  lemma FirstLine(s: string, at: nat, line: string, rest: string)
    requires at <= |s| && s[at..] == line + CRLF + rest && Unbroken(line)
    ensures var next := at + |line| + 2;
            && next <= |s| && s[next..] == rest
            && SplitLines(s, at) == [line] + SplitLines(s, next)
  {
    hide Unbroken, LineEnd;
    NextBreak(s, at, line, rest);
  }

  lemma NoLine(s: string)
    ensures SplitLines(s, |s|) == []
  {
  }

  lemma KeyOf(line: string, key: char, value: string)
    requires line == [key] + "=" + value && key != '='
    ensures ParseKey(line) == SessionKey(key, Trim(value))
  {
    hide Trim;
    IndexOfFirst(line, 0, 1);
    assert line[2..] == value && line[0..1] == [key];
  }

  /** A value without a comma is one value. */
  lemma OneValue(v: string)
    requires v != "" && Trimmed(v) && ',' !in v
    ensures Values(v) == [v]
  {
    IndexOfNone(v, ',', 0);
    TrimEnds(v);
    assert Split(v, ',') == [v] && [v][1..] == [];
    assert TrimAll([v]) == [Trim(v)] + TrimAll([v][1..]) == [v];
  }

  function LineValues(lines: seq<string>, key: char): seq<string> {
    FieldValues(ParseKeys(lines), key)
  }

  function FirstValues(line: string, key: char): seq<string> {
    if ParseKey(line).key == key then Values(ParseKey(line).value) else []
  }

  lemma FirstLineValues(lines: seq<string>, key: char)
    requires lines != []
    ensures LineValues(lines, key) == FirstValues(lines[0], key) + LineValues(lines[1..], key)
  {
    hide ParseKey, Values;
    assert ParseKeys(lines)[1..] == ParseKeys(lines[1..]);
  }

  lemma {:induction false} LineValuesAppend(a: seq<string>, b: seq<string>, key: char)
    ensures LineValues(a + b, key) == LineValues(a, key) + LineValues(b, key)
  {
    hide LineValues, FirstValues;
    if a == [] {
      NoLines(key);
      assert a + b == b && [] + LineValues(b, key) == LineValues(b, key);
    } else {
      LineValuesAppend(a[1..], b, key);
      assert (a + b)[0] == a[0] && (a + b)[1..] == a[1..] + b;
      FirstLineValues(a + b, key);
      FirstLineValues(a, key);
    }
  }

  lemma LineValuesOne(line: string, k: char, value: string, key: char)
    requires line == [k] + "=" + value && k != '='
    ensures LineValues([line], key) == if k == key then Values(Trim(value)) else []
  {
    hide ParseKey, Values, Trim;
    KeyOf(line, k, value);
    var k0 := ParseKey(line);
    assert [line][1..] == [];
    assert ParseKeys([line]) == [k0] + ParseKeys([line][1..]) == [k0];
    assert [k0][1..] == [];
    assert FieldValues([k0], key) == (if k == key then Values(k0.value) else []) + FieldValues([k0][1..], key);
    assert Values(Trim(value)) + [] == Values(Trim(value));
  }

  lemma OtherKey(line: string, k: char, value: string, rest: seq<string>, key: char)
    requires line == [k] + "=" + value && k != '=' && k != key
    ensures LineValues([line] + rest, key) == LineValues(rest, key)
  {
    hide LineValues;
    LineValuesOne(line, k, value, key);
    LineValuesAppend([line], rest, key);
  }

  lemma SessionSilent(s: Session, key: char)
    requires key == 'm' || key == 'a'
    ensures LineValues(SessionLines(s), key) == []
  {
    hide LineValues, Decimal;
    var lines := SessionLines(s);
    NoLines(key);
    OtherKey(lines[4], 't', lines[4][2..], [], key);
    OtherKey(lines[3], 'c', lines[3][2..], [lines[4]], key);
    OtherKey(lines[2], 's', lines[2][2..], [lines[3], lines[4]], key);
    OtherKey(lines[1], 'o', lines[1][2..], [lines[2], lines[3], lines[4]], key);
    OtherKey(lines[0], 'v', lines[0][2..], [lines[1], lines[2], lines[3], lines[4]], key);
    assert [lines[4]] + [] == [lines[4]];
    assert [lines[3]] + [lines[4]] == [lines[3], lines[4]];
    assert [lines[2]] + [lines[3], lines[4]] == [lines[2], lines[3], lines[4]];
    assert [lines[1]] + [lines[2], lines[3], lines[4]] == [lines[1], lines[2], lines[3], lines[4]];
    assert [lines[0]] + [lines[1], lines[2], lines[3], lines[4]] == lines;
    assert LineValues([lines[4]], key) == [];
    assert LineValues([lines[3], lines[4]], key) == [];
    assert LineValues([lines[2], lines[3], lines[4]], key) == [];
    assert LineValues([lines[1], lines[2], lines[3], lines[4]], key) == [];
    assert LineValues(lines, key) == [];
  }

  lemma NoLines(key: char)
    ensures LineValues([], key) == []
  {
  }

  // ---------- media lines ----------

  /** Payload types, each behind a space. */
  function Spaced(types: seq<U32>): string {
    if types == [] then "" else " " + Decimal(types[0]) + Spaced(types[1..])
  }

  /** A media field without the space at the end of its line. */
  function MediaValue(port: U16, protocol: string, types: seq<U32>): string {
    "audio" + " " + (Decimal(port) + " " + (protocol + Spaced(types)))
  }

  lemma {:induction false} SpacedList(types: seq<U32>)
    ensures " " + TypeList(types) == Spaced(types) + " "
  {
    hide Decimal;
    if types == [] {
    } else {
      var d, rest := Decimal(types[0]), types[1..];
      SpacedList(rest);
      assert " " + TypeList(types) == " " + d + (" " + TypeList(rest));
      assert Spaced(types) + " " == " " + d + (Spaced(rest) + " ");
    }
  }

  lemma {:induction false} SpacedPlain(types: seq<U32>)
    ensures ',' !in Spaced(types) && Unbroken(Spaced(types))
    ensures types != [] ==> Spaced(types)[0] == ' ' && IsDigit(Spaced(types)[|Spaced(types)| - 1])
    ensures forall c | c in Spaced(types) :: c == ' ' || IsDigit(c)
  {
    if types == [] {
    } else {
      SpacedPlain(types[1..]);
      var d, rest := Decimal(types[0]), Spaced(types[1..]);
      assert d[|d| - 1] in d;
      NoReturn(Spaced(types));
    }
  }

  lemma NoReturn(s: string)
    requires '\r' !in s
    ensures Unbroken(s)
  {
    forall i | 0 <= i < |s| ensures !BreakAt(s, i) {
      assert s[i] in s;
    }
  }

  lemma LineShape(port: U16, protocol: string, types: seq<U32>)
    ensures MediaLine(port, protocol, types) == "m" + "=" + (MediaValue(port, protocol, types) + " ")
  {
    hide Decimal, TypeList, Spaced;
    var d, sp := Decimal(port), Spaced(types);
    SpacedList(types);
    var start := "m=audio " + d + " " + protocol;
    assert MediaLine(port, protocol, types) == start + (" " + TypeList(types));
    assert "m" + "=" + (MediaValue(port, protocol, types) + " ") == start + (sp + " ");
  }

  /** The space behind the last payload type is trimmed, so that it is not read as one more. */
  lemma MediaLineValue(port: U16, protocol: string, types: seq<U32>, v: string)
    requires protocol == RTP || protocol == SRTP
    requires v == MediaValue(port, protocol, types)
    ensures v != "" && Trimmed(v) && ',' !in v && '\r' !in v
  {
    hide Decimal, Spaced;
    var start := "audio " + Decimal(port) + " ";
    SpacedPlain(types);
    DigitsOnly(port);
    EmptyTypes(types);
    ProtocolPlain(protocol);
    assert v == start + (protocol + Spaced(types));
    EndOf(start, protocol + Spaced(types));
    if types != [] { EndOf(protocol, Spaced(types)); }
  }

  lemma EndOf(a: string, b: string)
    requires b != ""
    ensures (a + b)[|a + b| - 1] == b[|b| - 1]
  {
  }

  lemma ProtocolPlain(protocol: string)
    requires protocol == RTP || protocol == SRTP
    ensures protocol != "" && protocol[|protocol| - 1] == 'P' && ',' !in protocol && '\r' !in protocol
  {
  }

  lemma EmptyTypes(types: seq<U32>)
    ensures Spaced(types) == "" <==> types == []
  {
  }

  lemma DigitsOnly(n: nat)
    ensures ',' !in Decimal(n) && '\r' !in Decimal(n) && ' ' !in Decimal(n) && '/' !in Decimal(n) && ':' !in Decimal(n)
  {
  }

  lemma WordInFront(s: string, at: nat, word: string, rest: string)
    requires at <= |s| && s[at..] == word + rest && ' ' !in word && rest != "" && rest[0] == ' '
    ensures at + |word| < |s| && IndexOf(s, ' ', at) == Some(at + |word|)
    ensures s[at..at + |word|] == word && s[at + |word|..] == rest
  {
    hide IndexOf;
    assert rest == " " + rest[1..];
    NextSpace(s, at, word, rest[1..]);
    AfterPart(s, at, word, rest);
  }

  /** One payload type behind a space: its number, and where the next space is. */
  lemma TypeRead(m: string, start: nat, p: U32, rest: seq<U32>)
    requires start <= |m| && m[start..] == Decimal(p) + Spaced(rest)
    ensures var next := IndexOf(m, ' ', start);
            && Atoi(UpTo(m, start, next)) == p
            && (if rest == [] then next == None else next.Some? && next.value < |m| && m[next.value..] == Spaced(rest))
  {
    hide Decimal, Atoi, IndexOf;
    var d := Decimal(p);
    DigitsOnly(p);
    AtoiDecimalAlone(p);
    if rest == [] {
      assert m[start..] == d;
      NoSpace(m, start);
    } else {
      SpacedPlain(rest);
      WordInFront(m, start, d, Spaced(rest));
    }
  }

  lemma NoTypesRead(m: string)
    ensures ReadTypes(m, None) == []
  {
  }

  lemma FirstType(m: string, space: nat, types: seq<U32>)
    requires types != [] && space < |m| && m[space..] == Spaced(types)
    ensures var next := IndexOf(m, ' ', space + 1);
            && ReadTypes(m, Some(space)) == [types[0]] + ReadTypes(m, next)
            && (if |types| == 1 then next == None
                else next.Some? && next.value < |m| && m[next.value..] == Spaced(types[1..]))
  {
    hide Decimal, Atoi, IndexOf, UpTo;
    var rest := types[1..];
    assert Spaced(types) == " " + (Decimal(types[0]) + Spaced(rest));
    AfterPart(m, space, " ", Decimal(types[0]) + Spaced(rest));
    hide Spaced;
    TypeRead(m, space + 1, types[0], rest);
  }

  lemma {:induction false} TypesRead(m: string, space: nat, types: seq<U32>)
    requires types != [] && space < |m| && m[space..] == Spaced(types)
    ensures ReadTypes(m, Some(space)) == types
    decreases |types|
  {
    hide ReadTypes, Spaced, IndexOf;
    var next := IndexOf(m, ' ', space + 1);
    FirstType(m, space, types);
    if next.None? {
      NoTypesRead(m);
    } else {
      TypesRead(m, next.value, types[1..]);
    }
    assert types == [types[0]] + types[1..];
  }

  lemma NoSpace(s: string, at: nat)
    requires at <= |s| && ' ' !in s[at..]
    ensures IndexOf(s, ' ', at) == None
  {
    forall j | at <= j < |s| ensures s[j] != ' ' {
      assert s[j] == s[at..][j - at];
    }
    IndexOfNone(s, ' ', at);
  }

  lemma PortRead(m: string, d: string, rest: string)
    requires m == "audio" + " " + (d + " " + rest) && ' ' !in d
    ensures StartsWith(m, "audio") && IndexOf(m, ' ', 0) == Some(5) && IndexOf(m, ' ', 6) == Some(6 + |d|)
    ensures UpTo(m, 6, Some(6 + |d|)) == d && 6 + |d| + 1 <= |m| && m[6 + |d| + 1..] == rest
  {
    hide IndexOf;
    assert m[0..] == m;
    NextSpace(m, 0, "audio", d + " " + rest);
    NextSpace(m, 6, d, rest);
    assert m[..5] == m[0..0 + 5] == "audio";
  }

  lemma MediaRead(m: string, port: U16, protocol: string, types: seq<U32>)
    requires protocol == RTP || protocol == SRTP
    requires m == MediaValue(port, protocol, types)
    ensures ParseMedia(m) == Some((port, protocol, types))
  {
    hide Decimal, Atoi, IndexOf, ReadTypes, UpTo, StartsWith, Spaced;
    var d := Decimal(port);
    DigitsOnly(port);
    AtoiDecimalAlone(port);
    PortRead(m, d, protocol + Spaced(types));
    ProtocolRead(m, 6 + |d| + 1, protocol, types);
  }

  lemma ProtocolRead(m: string, third: nat, protocol: string, types: seq<U32>)
    requires protocol == RTP || protocol == SRTP
    requires third <= |m| && m[third..] == protocol + Spaced(types)
    ensures UpTo(m, third, IndexOf(m, ' ', third)) == protocol
    ensures ReadTypes(m, IndexOf(m, ' ', third)) == types
  {
    hide Decimal, Atoi, IndexOf, ReadTypes;
    SpacedPlain(types);
    if types == [] {
      NoTypeLeft(m, third, protocol);
    } else {
      hide Spaced;
      WordInFront(m, third, protocol, Spaced(types));
      TypesRead(m, third + |protocol|, types);
    }
  }

  lemma NoTypeLeft(m: string, third: nat, protocol: string)
    requires third <= |m| && m[third..] == protocol && ' ' !in protocol
    ensures IndexOf(m, ' ', third) == None && ReadTypes(m, None) == []
  {
    NoSpace(m, third);
  }

  // ---------- attributes ----------

  /** A format whose texts can be told apart in its attributes. */
  predicate PlainFormat(f: Format) {
    && '/' !in f.encoding && ',' !in f.encoding && Unbroken(f.encoding)
    && Trimmed(f.parameters) && ',' !in f.parameters && Unbroken(f.parameters)
  }

  predicate Plain(formats: seq<Format>) {
    formats == [] || (PlainFormat(formats[0]) && Plain(formats[1..]))
  }

  predicate PlainAttribute(a: string) {
    a != "" && Trimmed(a) && ',' !in a && Unbroken(a)
  }

  predicate PlainAttributes(attributes: seq<string>) {
    attributes == [] || (PlainAttribute(attributes[0]) && PlainAttributes(attributes[1..]))
  }

  lemma Joint(a: string, b: string)
    requires Unbroken(a) && Unbroken(b) && (a == "" || b == "" || a[|a| - 1] != '\r' || b[0] != '\n')
    ensures Unbroken(a + b)
  {
    var s := a + b;
    forall i | 0 <= i < |s| ensures !BreakAt(s, i) {
      if i < |a| {
        assert s[i] == a[i] && !BreakAt(a, i);
        if i + 1 < |a| { assert s[i + 1] == a[i + 1]; }
      } else {
        assert !BreakAt(b, i - |a|) && s[i] == b[i - |a|];
      }
    }
  }

  lemma MapPlain(f: Format)
    requires PlainFormat(f)
    ensures PlainAttribute(MapText(f))
  {
    hide Decimal;
    var n, tail := "rtpmap:" + Decimal(f.payloadType) + " ", "/" + Decimal(f.sampleRate) + "/" + Decimal(f.numChannels);
    DigitsOnly(f.payloadType);
    DigitsOnly(f.sampleRate);
    DigitsOnly(f.numChannels);
    LastDigit(f.numChannels);
    NoReturn(n);
    NoReturn(tail);
    Joint(f.encoding, tail);
    Joint(n, f.encoding + tail);
    assert MapText(f) == n + (f.encoding + tail);
  }

  lemma LastDigit(n: nat)
    ensures !IsBlank(Decimal(n)[|Decimal(n)| - 1])
  {
    assert Decimal(n)[|Decimal(n)| - 1] in Decimal(n);
  }

  lemma ParametersPlain(f: Format)
    requires PlainFormat(f) && f.parameters != ""
    ensures PlainAttribute(ParameterText(f))
  {
    hide Decimal;
    var n := "fmtp:" + Decimal(f.payloadType) + " ";
    DigitsOnly(f.payloadType);
    NoReturn(n);
    Joint(n, f.parameters);
  }

  lemma PlainOne(a: string, rest: seq<string>)
    requires PlainAttribute(a) && PlainAttributes(rest)
    ensures PlainAttributes([a] + rest)
  {
    hide PlainAttribute;
    assert ([a] + rest)[1..] == rest;
  }

  lemma {:induction false} FormatsPlain(formats: seq<Format>)
    requires Plain(formats)
    ensures PlainAttributes(FormatAttributes(formats))
  {
    hide PlainFormat, PlainAttribute, MapText, ParameterText;
    if formats == [] {
    } else {
      var f, rest := formats[0], FormatAttributes(formats[1..]);
      FormatsPlain(formats[1..]);
      MapPlain(f);
      if f.parameters != "" {
        ParametersPlain(f);
        PlainOne(ParameterText(f), rest);
        PlainOne(MapText(f), [ParameterText(f)] + rest);
      } else {
        PlainOne(MapText(f), rest);
        assert [] + rest == rest;
      }
    }
  }

  /** Attribute lines are read as their attributes, and as nothing else. */
  lemma {:induction false} AttributesRead(attributes: seq<string>)
    requires PlainAttributes(attributes)
    ensures LineValues(AttributeLines(attributes), 'a') == attributes
    ensures LineValues(AttributeLines(attributes), 'm') == []
    ensures AllUnbroken(AttributeLines(attributes))
  {
    hide LineValues, Values, Trim, Unbroken;
    NoLines('a');
    NoLines('m');
    if attributes == [] {
    } else {
      var a, rest := attributes[0], AttributeLines(attributes[1..]);
      var line := "a=" + a;
      AttributesRead(attributes[1..]);
      assert line == "a" + "=" + a;
      AttributeLine(a);
      TrimEnds(a);
      OneValue(a);
      LineValuesOne(line, 'a', a, 'a');
      LineValuesAppend([line], rest, 'a');
      OtherKey(line, 'a', a, rest, 'm');
      assert attributes == [a] + attributes[1..];
      assert ([line] + rest)[1..] == rest;
    }
  }

  lemma AttributeLine(a: string)
    requires Unbroken(a)
    ensures Unbroken("a=" + a)
  {
    NoReturn("a=");
    Joint("a=", a);
  }

  // ---------- the search for a map ----------

  /** The first offered format whose payload type starts with the digits of `p`. */
  function FirstLike(offered: seq<Format>, p: U32): Option<Format> {
    if offered == [] then None
    else if StartsWith(Decimal(offered[0].payloadType), Decimal(p)) then Some(offered[0])
    else FirstLike(offered[1..], p)
  }

  lemma StripPrefix(a: string, s: string, t: string)
    ensures StartsWith(a + s, a + t) <==> StartsWith(s, t)
  {
    if |t| <= |s| {
      assert (a + s)[..|a + t|] == a + s[..|t|];
      if StartsWith(a + s, a + t) {
        assert (a + s[..|t|])[|a|..] == s[..|t|] && (a + t)[|a|..] == t;
      }
    }
  }

  lemma DigitsPrefix(p: U32, q: U32, rest: string)
    ensures StartsWith(Decimal(q) + (" " + rest), Decimal(p)) <==> StartsWith(Decimal(q), Decimal(p))
  {
    var d, e := Decimal(q), Decimal(p);
    var s := d + (" " + rest);
    if |e| <= |d| {
      assert s[..|e|] == d[..|e|];
    } else if |e| <= |s| {
      assert s[..|e|][|d|] == ' ' && e[|d|] in e;
    }
  }

  function AfterType(f: Format): string {
    f.encoding + "/" + (Decimal(f.sampleRate) + "/" + Decimal(f.numChannels))
  }

  lemma MapShape(f: Format)
    ensures MapText(f) == "rtpmap:" + (Decimal(f.payloadType) + (" " + AfterType(f)))
  {
    hide Decimal;
  }

  lemma MapPrefix(f: Format, p: U32)
    ensures StartsWith(MapText(f), "rtpmap:" + Decimal(p)) <==> StartsWith(Decimal(f.payloadType), Decimal(p))
  {
    hide Decimal, MapText, AfterType, StartsWith;
    MapShape(f);
    StripPrefix("rtpmap:", Decimal(f.payloadType) + (" " + AfterType(f)), Decimal(p));
    DigitsPrefix(p, f.payloadType, AfterType(f));
  }

  lemma MapValue(f: Format)
    ensures MapText(f)[Behind(IndexOf(MapText(f), ':', 0))..] == Decimal(f.payloadType) + (" " + AfterType(f))
  {
    hide Decimal, MapText, AfterType;
    MapShape(f);
    IndexOfFirst(MapText(f), 0, 6);
  }

  lemma NumberSkipped(text: string, number: string, rest: string)
    requires text == number + (" " + rest)
    ensures ' ' !in number ==> IndexOf(text, ' ', 0) == Some(|number|) && text[|number| + 1..] == rest
  {
    assert text[0..] == text == number + " " + rest;
    if ' ' !in number { NextSpace(text, 0, number, rest); }
  }

  /** What is read of a map is what was written. */
  lemma MapRead(text: string, f: Format)
    requires '/' !in f.encoding
    requires text == Decimal(f.payloadType) + (" " + AfterType(f))
    ensures ParseMap(text) == (f.encoding, f.sampleRate, f.numChannels)
  {
    hide Decimal, Atoi, AfterType, IndexOf, UpTo;
    NumberSkipped(text, Decimal(f.payloadType), AfterType(f));
    DigitsOnly(f.payloadType);
    RestRead(text, |Decimal(f.payloadType)| + 1, f);
  }

  /** A map without a number of channels stands for two. */
  lemma MapWithoutChannels(text: string, payloadType: U32, encoding: string, sampleRate: U32)
    requires '/' !in encoding
    requires text == Decimal(payloadType) + (" " + (encoding + "/" + Decimal(sampleRate)))
    ensures ParseMap(text) == (encoding, sampleRate, 2)
  {
    hide Decimal, Atoi, IndexOf, UpTo;
    NumberSkipped(text, Decimal(payloadType), encoding + "/" + Decimal(sampleRate));
    DigitsOnly(payloadType);
    RateRead(text, |Decimal(payloadType)| + 1, encoding, sampleRate);
  }

  lemma RateRead(text: string, start: nat, encoding: string, sampleRate: U32)
    requires '/' !in encoding && start <= |text| && text[start..] == encoding + "/" + Decimal(sampleRate)
    ensures var slash := IndexOf(text, '/', start);
            var rate := Behind(slash);
            && UpTo(text, start, slash) == encoding
            && rate <= |text| && IndexOf(text, '/', rate) == None && Atoi(UpTo(text, rate, None)) == sampleRate
  {
    hide Decimal, Atoi, IndexOf;
    var rate := Decimal(sampleRate);
    DigitsOnly(sampleRate);
    AtoiDecimalAlone(sampleRate);
    NextSlash(text, start, encoding, rate);
    var at := start + |encoding| + 1;
    assert text[at..] == rate;
    forall j | at <= j < |text| ensures text[j] != '/' { assert text[j] == rate[j - at]; }
    IndexOfNone(text, '/', at);
  }

  lemma RestRead(text: string, start: nat, f: Format)
    requires '/' !in f.encoding && start <= |text| && text[start..] == AfterType(f)
    ensures var slash := IndexOf(text, '/', start);
            var rate := Behind(slash);
            var next := IndexOf(text, '/', rate);
            && UpTo(text, start, slash) == f.encoding
            && next.Some? && rate <= next.value < |text|
            && Atoi(UpTo(text, rate, next)) == f.sampleRate && Atoi(text[next.value + 1..]) == f.numChannels
  {
    hide Decimal, Atoi, IndexOf;
    DigitsOnly(f.sampleRate);
    AtoiDecimalAlone(f.sampleRate);
    AtoiDecimalAlone(f.numChannels);
    assert text[start..] == f.encoding + "/" + (Decimal(f.sampleRate) + "/" + Decimal(f.numChannels));
    NextSlash(text, start, f.encoding, Decimal(f.sampleRate) + "/" + Decimal(f.numChannels));
    NextSlash(text, start + |f.encoding| + 1, Decimal(f.sampleRate), Decimal(f.numChannels));
  }

  lemma NextSlash(s: string, at: nat, word: string, rest: string)
    requires at <= |s| && s[at..] == word + "/" + rest && '/' !in word
    ensures at + |word| < |s| && IndexOf(s, '/', at) == Some(at + |word|)
    ensures s[at..at + |word|] == word && s[at + |word| + 1..] == rest
  {
    Suffix(s, at, word, "/", rest);
    assert s[at + |word|] == s[at + |word|..at + |word| + 1][0];
    IndexBehind(s, at, word, '/');
  }

  lemma SkipValue(a: string, rest: seq<string>, prefix: string)
    requires !StartsWith(a, prefix)
    ensures FirstWith([a] + rest, prefix) == FirstWith(rest, prefix)
  {
    assert ([a] + rest)[1..] == rest;
  }

  /** The map found for a payload type is that of the first format like it, whatever other attributes follow. */
  lemma {:induction false} MapFound(offered: seq<Format>, others: seq<string>, p: U32)
    requires Plain(offered) && FirstLike(offered, p).Some?
    ensures ParseMap(RtpMap(FormatAttributes(offered) + others, p)) ==
            var f := FirstLike(offered, p).value; (f.encoding, f.sampleRate, f.numChannels)
  {
    hide Decimal, MapText, ParameterText, ParseMap, StartsWith, AfterType, PlainFormat;
    var f, rest := offered[0], FormatAttributes(offered[1..]) + others;
    FirstOffered(offered, others);
    if StartsWith(Decimal(f.payloadType), Decimal(p)) {
      MapFirst(f, (if f.parameters != "" then [ParameterText(f)] else []) + rest, p);
    } else {
      MapFound(offered[1..], others, p);
      MapSkipped(f, rest, p);
    }
  }

  lemma FirstOffered(offered: seq<Format>, others: seq<string>)
    requires offered != []
    ensures var f := offered[0];
            FormatAttributes(offered) + others
            == [MapText(f)] + ((if f.parameters != "" then [ParameterText(f)] else [])
                               + (FormatAttributes(offered[1..]) + others))
  {
    hide MapText, ParameterText;
  }

  lemma MapFirst(f: Format, rest: seq<string>, p: U32)
    requires PlainFormat(f) && StartsWith(Decimal(f.payloadType), Decimal(p))
    ensures ParseMap(RtpMap([MapText(f)] + rest, p)) == (f.encoding, f.sampleRate, f.numChannels)
  {
    hide Decimal, MapText, ParseMap, StartsWith, AfterType, IndexOf;
    MapPrefix(f, p);
    MapValue(f);
    MapRead(Decimal(f.payloadType) + (" " + AfterType(f)), f);
    assert ([MapText(f)] + rest)[0] == MapText(f);
  }

  lemma MapSkipped(f: Format, rest: seq<string>, p: U32)
    requires !StartsWith(Decimal(f.payloadType), Decimal(p))
    ensures RtpMap([MapText(f)] + ((if f.parameters != "" then [ParameterText(f)] else []) + rest), p)
            == RtpMap(rest, p)
  {
    hide Decimal, MapText, ParameterText, StartsWith, FirstWith;
    var prefix := "rtpmap:" + Decimal(p);
    MapPrefix(f, p);
    if f.parameters != "" {
      NotAMap(f, p);
      SkipValue(MapText(f), [ParameterText(f)] + rest, prefix);
      SkipValue(ParameterText(f), rest, prefix);
    } else {
      SkipValue(MapText(f), rest, prefix);
      assert [] + rest == rest;
    }
  }

  lemma NotAMap(f: Format, p: U32)
    ensures !StartsWith(ParameterText(f), "rtpmap:" + Decimal(p))
  {
    hide Decimal;
    var a, prefix := ParameterText(f), "rtpmap:" + Decimal(p);
    if |prefix| <= |a| {
      assert a[..|prefix|][0] == 'f' && prefix[0] == 'r';
    }
  }

  lemma ToolIsNoMap(p: U32)
    ensures !StartsWith(TOOL, "rtpmap:" + Decimal(p))
  {
    hide Decimal;
    var prefix := "rtpmap:" + Decimal(p);
    if |prefix| <= |TOOL| {
      assert TOOL[..|prefix|][0] == 't' && prefix[0] == 'r';
    }
  }

  // ---------- the search for parameters ----------

  /** The first format with parameters whose payload type starts with the digits of `p`. */
  function FirstWithParameters(offered: seq<Format>, p: U32): Option<Format> {
    if offered == [] then None
    else if offered[0].parameters != "" && StartsWith(Decimal(offered[0].payloadType), Decimal(p)) then Some(offered[0])
    else FirstWithParameters(offered[1..], p)
  }

  /** Attributes behind those of the formats that cannot be taken for parameters. */
  predicate NoParameters(others: seq<string>) {
    others == [] || ((others[0] == "" || others[0][0] != 'f') && NoParameters(others[1..]))
  }

  lemma OtherStart(a: string, p: U32)
    requires a == "" || a[0] != 'f'
    ensures !StartsWith(a, "fmtp:" + Decimal(p))
  {
    hide Decimal;
    var prefix := "fmtp:" + Decimal(p);
    if |prefix| <= |a| {
      assert a[..|prefix|][0] == a[0] && prefix[0] == 'f';
    }
  }

  lemma {:induction false} NothingInOthers(others: seq<string>, p: U32)
    requires NoParameters(others)
    ensures ParameterLine(others, p) == ""
  {
    hide Decimal, StartsWith;
    if others == [] {
    } else {
      OtherStart(others[0], p);
      NothingInOthers(others[1..], p);
    }
  }

  lemma ParameterPrefix(f: Format, p: U32)
    ensures StartsWith(ParameterText(f), "fmtp:" + Decimal(p)) <==> StartsWith(Decimal(f.payloadType), Decimal(p))
    ensures ParameterText(f)[Behind(IndexOf(ParameterText(f), ':', 0))..]
            == Decimal(f.payloadType) + (" " + f.parameters)
  {
    hide Decimal, StartsWith;
    var rest := Decimal(f.payloadType) + (" " + f.parameters);
    assert ParameterText(f) == "fmtp:" + rest;
    StripPrefix("fmtp:", rest, Decimal(p));
    DigitsPrefix(p, f.payloadType, f.parameters);
    IndexOfFirst(ParameterText(f), 0, 4);
  }

  /** The parameters found for a payload type are those of the first format like it that has any. */
  lemma {:induction false} ParametersFound(offered: seq<Format>, others: seq<string>, p: U32)
    requires NoParameters(others)
    ensures ParameterLine(FormatAttributes(offered) + others, p) ==
            match FirstWithParameters(offered, p)
            case None => ""
            case Some(f) => Decimal(f.payloadType) + (" " + f.parameters)
  {
    hide Decimal, MapText, ParameterText, StartsWith, ParameterLine, NoParameters;
    if offered == [] {
      NothingInOthers(others, p);
      assert [] + others == others;
    } else {
      var f, rest := offered[0], FormatAttributes(offered[1..]) + others;
      FirstOffered(offered, others);
      ParametersFound(offered[1..], others, p);
      MapIsSkipped(f, (if f.parameters != "" then [ParameterText(f)] else []) + rest, p);
      if f.parameters != "" {
        ParametersFirst(f, rest, p);
      } else {
        assert [] + rest == rest;
      }
    }
  }

  lemma MapIsSkipped(f: Format, rest: seq<string>, p: U32)
    ensures ParameterLine([MapText(f)] + rest, p) == ParameterLine(rest, p)
  {
    hide Decimal, StartsWith, FirstWith;
    OtherStart(MapText(f), p);
    SkipValue(MapText(f), rest, "fmtp:" + Decimal(p));
  }

  lemma ParametersFirst(f: Format, rest: seq<string>, p: U32)
    ensures ParameterLine([ParameterText(f)] + rest, p) ==
            if StartsWith(Decimal(f.payloadType), Decimal(p)) then Decimal(f.payloadType) + (" " + f.parameters)
            else ParameterLine(rest, p)
  {
    hide Decimal, StartsWith, ParameterText, IndexOf;
    ParameterPrefix(f, p);
    if StartsWith(Decimal(f.payloadType), Decimal(p)) {
      assert ([ParameterText(f)] + rest)[0] == ParameterText(f);
    } else {
      SkipValue(ParameterText(f), rest, "fmtp:" + Decimal(p));
    }
  }

  lemma {:induction false} IndexShifted(a: string, b: string, c: char, i: nat)
    requires i <= |b|
    ensures var r := IndexOf(b, c, i);
            IndexOf(a + b, c, |a| + i) == if r.Some? then Some(|a| + r.value) else None
    decreases |b| - i
  {
    if i == |b| {
    } else {
      IndexShifted(a, b, c, i + 1);
    }
  }

  lemma ReadStep(text: string, at: nat, ps: seq<Parameter>)
    requires at <= |text|
    ensures var end := IndexOf(text, ';', at);
            var pair := ParsePair(UpTo(text, at, end));
            var next := SetParameter(ps, pair.key, pair.value);
            ReadParameters(text, at, ps) == if end.None? then next else ReadParameters(text, end.value + 1, next)
  {
    hide IndexOf, ParsePair, SetParameter;
  }

  /** Where the parameter line starts makes no difference. */
  lemma {:induction false} ParametersShifted(a: string, b: string, at: nat, ps: seq<Parameter>)
    requires at <= |b|
    ensures ReadParameters(a + b, |a| + at, ps) == ReadParameters(b, at, ps)
    decreases |b| - at
  {
    hide IndexOf, ParsePair, SetParameter, ReadParameters;
    var end := IndexOf(b, ';', at);
    IndexShifted(a, b, ';', at);
    ReadStep(b, at, ps);
    ReadStep(a + b, |a| + at, ps);
    if end.None? {
      assert (a + b)[|a| + at..] == b[at..];
    } else {
      assert (a + b)[|a| + at..|a| + end.value] == b[at..end.value];
      var pair := ParsePair(b[at..end.value]);
      ParametersShifted(a, b, end.value + 1, SetParameter(ps, pair.key, pair.value));
    }
  }

  /** The parameters a parameter line stands for. */
  function ParameterList(line: string): seq<Parameter> { ReadParameters(line, 0, []) }

  lemma ParametersBehindType(q: U32, line: string)
    ensures FormatParameters(Decimal(q) + (" " + line), OPUS) == ParameterList(line)
  {
    hide Decimal, ReadParameters, IndexOf;
    var number := Decimal(q);
    DigitsOnly(q);
    NumberSkipped(number + (" " + line), number, line);
    assert number + (" " + line) == (number + " ") + line;
    ParametersShifted(number + " ", line, 0, []);
  }

  // ---------- what an offer is read as ----------

  function RecoveredParameters(offered: seq<Format>, p: U32, encoding: string): seq<Parameter> {
    match FirstWithParameters(offered, p)
    case None => []
    case Some(f) => if encoding == OPUS then ParameterList(f.parameters) else []
  }

  lemma ParametersRead(offered: seq<Format>, others: seq<string>, p: U32, encoding: string)
    requires NoParameters(others)
    ensures FormatParameters(ParameterLine([TOOL] + (FormatAttributes(offered) + others), p), encoding)
            == RecoveredParameters(offered, p, encoding)
  {
    hide Decimal, FirstWithParameters, ParameterList, FirstWith, StartsWith, ReadParameters, NoParameters;
    OtherStart(TOOL, p);
    SkipValue(TOOL, FormatAttributes(offered) + others, "fmtp:" + Decimal(p));
    ParametersFound(offered, others, p);
    match FirstWithParameters(offered, p) {
      case None => assert IndexOf("", ' ', 0) == None;
      case Some(f) => ParametersBehindType(f.payloadType, f.parameters);
    }
  }

  /** A predefined payload type is read as the registered format, any other one as the first offered
      format whose payload type starts with its digits. */
  function Recovered(offered: seq<Format>, formats: seq<Format>, p: U32, port: U16, protocol: string)
    : Option<seq<Media>>
  {
    if p <= LAST_STATIC then
      if !StaticSupported(p) then Some([])
      else
        match Registered(formats, p)
        case None => None
        case Some(f) => Some([Media(port, protocol, f.payloadType, f.encoding, f.sampleRate, f.numChannels, [])])
    else
      match FirstLike(offered, p)
      case None => Some([])
      case Some(f) =>
        if EncodingSupported(formats, f.encoding)
        then Some([Media(port, protocol, p, f.encoding, f.sampleRate, f.numChannels,
                         RecoveredParameters(offered, p, f.encoding))])
        else Some([])
  }

  function RecoveredAll(offered: seq<Format>, formats: seq<Format>, types: seq<U32>, port: U16, protocol: string)
    : Option<seq<Media>>
  {
    if types == [] then Some([])
    else Both(Recovered(offered, formats, types[0], port, protocol),
              RecoveredAll(offered, formats, types[1..], port, protocol))
  }

  lemma {:induction false} EachHasMap(offered: seq<Format>, p: U32)
    requires p in Types(offered)
    ensures FirstLike(offered, p).Some?
  {
    hide Decimal;
    if offered[0].payloadType == p {
      assert StartsWith(Decimal(p), Decimal(p));
    } else {
      EachHasMap(offered[1..], p);
    }
  }

  lemma Read(offered: seq<Format>, others: seq<string>, formats: seq<Format>, p: U32, port: U16, protocol: string)
    requires Plain(offered) && NoParameters(others) && p in Types(offered)
    ensures Describe([TOOL] + (FormatAttributes(offered) + others), formats, p, port, protocol)
            == Recovered(offered, formats, p, port, protocol)
  {
    hide ParseMap, FirstLike, EncodingSupported, Registered, StartsWith, FormatParameters, ParameterLine;
    hide RecoveredParameters;
    EachHasMap(offered, p);
    MapFound(offered, others, p);
    ParametersRead(offered, others, p, FirstLike(offered, p).value.encoding);
    ToolIsNoMap(p);
    SkipValue(TOOL, FormatAttributes(offered) + others, "rtpmap:" + Decimal(p));
  }

  lemma {:induction false} ReadAll(offered: seq<Format>, others: seq<string>, formats: seq<Format>, types: seq<U32>,
                                   port: U16, protocol: string)
    requires Plain(offered) && NoParameters(others) && forall p | p in types :: p in Types(offered)
    ensures DescribeAll([TOOL] + (FormatAttributes(offered) + others), formats, types, port, protocol)
            == RecoveredAll(offered, formats, types, port, protocol)
    decreases |types|
  {
    hide Describe, Recovered;
    if types == [] {
    } else {
      assert types[0] in types;
      Read(offered, others, formats, types[0], port, protocol);
      ReadAll(offered, others, formats, types[1..], port, protocol);
    }
  }
}
