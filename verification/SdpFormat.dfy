/** Session descriptions (RFC 4566 section 5): what is offered as text, and what is read back. */
module SdpFormat {
  import opened Words
  import opened Wrappers
  import opened Text

  const RTP := "RTP/AVP"
  const SRTP := "RTP/SAVP"
  const LAST_STATIC := 18

  /** A registered or offered format. */
  datatype Format = Format(payloadType: U32, encoding: string, sampleRate: U32, numChannels: U16, parameters: string)

  /** A parameter of a format, one of those in its parameter line. */
  datatype Parameter = Parameter(key: string, value: string)

  datatype Media = Media(port: U16, protocol: string, payloadType: U32, encoding: string, sampleRate: U32,
                         numChannels: U16, parameters: seq<Parameter>)

  /** What the attribute for SRTP is made of: the name of the suite and the key and salt in base 64. */
  datatype Crypto = Crypto(suite: string, inlineKey: string)

  /** What a session description says besides its media. */
  datatype Session = Session(user: string, addressType: string, address: string, seconds: nat)

  // ---------- writing ----------

  function SessionLines(s: Session): seq<string> {
    [ "v=0",
      "o=" + s.user + " " + Decimal(s.seconds) + " " + Decimal(s.seconds) + " IN " + s.addressType + " " + s.address,
      "s=-",
      "c=IN " + s.addressType + " " + s.address,
      "t=" + Decimal(s.seconds) + " 0" ]
  }

  /** Payload types, each in front of a space. */
  function TypeList(types: seq<U32>): string {
    if types == [] then "" else Decimal(types[0]) + " " + TypeList(types[1..])
  }

  function Types(formats: seq<Format>): (types: seq<U32>)
    ensures |types| == |formats|
  {
    if formats == [] then [] else [formats[0].payloadType] + Types(formats[1..])
  }

  function MediaLine(port: U16, protocol: string, types: seq<U32>): string {
    "m=audio " + Decimal(port) + " " + protocol + " " + TypeList(types)
  }

  function MapText(f: Format): string {
    "rtpmap:" + Decimal(f.payloadType) + " " + f.encoding + "/" + Decimal(f.sampleRate) + "/" + Decimal(f.numChannels)
  }

  function ParameterText(f: Format): string {
    "fmtp:" + Decimal(f.payloadType) + " " + f.parameters
  }

  /** The attributes of the offered formats. */
  function FormatAttributes(formats: seq<Format>): seq<string> {
    if formats == [] then []
    else
      var f := formats[0];
      [MapText(f)] + ((if f.parameters != "" then [ParameterText(f)] else []) + FormatAttributes(formats[1..]))
  }

  function AttributeLines(attributes: seq<string>): seq<string> {
    if attributes == [] then [] else ["a=" + attributes[0]] + AttributeLines(attributes[1..])
  }

  const TOOL := "tool:OHMComm/v0.9"

  function CryptoText(c: Crypto): string {
    "crypto:1 " + c.suite + " inline:" + c.inlineKey + " "
  }

  /** With a cryptographic context everything is offered a second time, for SRTP. */
  function Lines(s: Session, port: U16, offered: seq<Format>, crypto: Option<Crypto>): seq<string> {
    var types := Types(offered);
    SessionLines(s) + ([MediaLine(port, RTP, types)] + (AttributeLines([TOOL] + FormatAttributes(offered)) +
      match crypto
      case None => []
      case Some(c) => [MediaLine(port, SRTP, types), "a=" + CryptoText(c)]))
  }

  function JoinLines(lines: seq<string>): string {
    if lines == [] then "" else lines[0] + CRLF + JoinLines(lines[1..])
  }

  // ---------- names of encodings ----------

  function Folded(c: char): char { if 'A' <= c <= 'Z' then c + (32 as char) else c }

  /** `strcasecmp` finds no difference in front of the first NUL. */
  predicate SameText(s: string, t: string)
    requires |s| == |t|
  {
    s == "" || (Folded(s[0]) == Folded(t[0]) && (s[0] == '\0' || SameText(s[1..], t[1..])))
  }

  predicate EqualsIgnoreCase(s: string, t: string) {
    |s| == |t| && SameText(s, t)
  }

  /** The same character, or a capital letter and its small one. */
  predicate SameLetter(c: char, d: char) {
    || c == d
    || ('A' <= c <= 'Z' && 'a' <= d <= 'z' && c - 'A' == d - 'a')
    || ('A' <= d <= 'Z' && 'a' <= c <= 'z' && d - 'A' == c - 'a')
  }

  /** Texts without a NUL are the same exactly if all their letters are, be they capital or small. */
  lemma {:induction false} SameExactly(s: string, t: string)
    requires '\0' !in s
    ensures EqualsIgnoreCase(s, t) <==> |s| == |t| && forall i | 0 <= i < |s| :: SameLetter(s[i], t[i])
  {
    if s == "" || |s| != |t| {
    } else {
      SameExactly(s[1..], t[1..]);
      assert SameLetter(s[0], t[0]) <==> Folded(s[0]) == Folded(t[0]);
      hide SameLetter;
      assert forall i | 0 < i < |s| :: s[i] == s[1..][i - 1] && t[i] == t[1..][i - 1];
      if forall i | 0 <= i < |s| :: SameLetter(s[i], t[i]) {
        forall i | 0 <= i < |s[1..]| ensures SameLetter(s[1..][i], t[1..][i]) {
          assert SameLetter(s[i + 1], t[i + 1]);
        }
      }
    }
  }

  predicate EncodingSupported(formats: seq<Format>, encoding: string) {
    formats != [] && (EqualsIgnoreCase(formats[0].encoding, encoding) || EncodingSupported(formats[1..], encoding))
  }

  /** The registered format of a payload type. */
  function Registered(formats: seq<Format>, payloadType: U32): Option<Format> {
    if formats == [] then None
    else if formats[0].payloadType == payloadType then Some(formats[0])
    else Registered(formats[1..], payloadType)
  }

  /** The parameters a selected format is offered with are those of the registered format like it. */
  function ParametersOf(formats: seq<Format>, m: Media): string {
    if formats == [] then ""
    else if EqualsIgnoreCase(formats[0].encoding, m.encoding) && formats[0].sampleRate == m.sampleRate
            && formats[0].numChannels == m.numChannels then formats[0].parameters
    else ParametersOf(formats[1..], m)
  }

  function Selected(formats: seq<Format>, media: seq<Media>): seq<Format> {
    if media == [] then []
    else
      var m := media[0];
      [Format(m.payloadType, m.encoding, m.sampleRate, m.numChannels, ParametersOf(formats, m))]
      + Selected(formats, media[1..])
  }

  /** The selected media, or everything registered. */
  function Offered(formats: seq<Format>, media: seq<Media>): seq<Format> {
    if media == [] then formats else Selected(formats, media)
  }

  // ---------- reading ----------

  /** The lines in front of each line break; what follows the last one is dropped. */
  function SplitLines(s: string, at: nat): seq<string>
    requires at <= |s|
    decreases |s| - at
  {
    var end := LineEnd(s, at);
    if end.None? then [] else [s[at..end.value]] + SplitLines(s, end.value + 2)
  }

  datatype SessionKey = SessionKey(key: char, value: string)

  /** A line without a key has the terminating NUL for one. */
  function ParseKey(line: string): SessionKey {
    var delimiter := IndexOf(line, '=', 0);
    SessionKey(if UpTo(line, 0, delimiter) == "" then '\0' else line[0], Trim(line[Behind(delimiter)..]))
  }

  function ParseKeys(lines: seq<string>): seq<SessionKey> {
    if lines == [] then [] else [ParseKey(lines[0])] + ParseKeys(lines[1..])
  }

  /** The parts between separators; an empty last one is dropped. */
  function Split(s: string, c: char): seq<string>
    decreases |s|
  {
    if s == "" then []
    else
      var i := IndexOf(s, c, 0);
      if i.None? then [s] else [s[..i.value]] + Split(s[i.value + 1..], c)
  }

  function TrimAll(parts: seq<string>): seq<string> {
    if parts == [] then [] else [Trim(parts[0])] + TrimAll(parts[1..])
  }

  function Values(value: string): seq<string> { TrimAll(Split(value, ',')) }

  function FieldValues(fields: seq<SessionKey>, key: char): seq<string> {
    if fields == [] then []
    else (if fields[0].key == key then Values(fields[0].value) else []) + FieldValues(fields[1..], key)
  }

  /** The text behind the colon of the first value with a prefix, or nothing. */
  function FirstWith(values: seq<string>, prefix: string): string {
    if values == [] then ""
    else if StartsWith(values[0], prefix) then values[0][Behind(IndexOf(values[0], ':', 0))..]
    else FirstWith(values[1..], prefix)
  }

  function RtpMap(attributes: seq<string>, payloadType: U32): string {
    FirstWith(attributes, "rtpmap:" + Decimal(payloadType))
  }

  /** Encoding, sample rate and number of channels in the text of an `rtpmap` attribute. */
  function ParseMap(text: string): (string, U32, U16) {
    if text == "" then ("", 0, 0)
    else
      var start := Behind(IndexOf(text, ' ', 0));
      var slash := IndexOf(text, '/', start);
      var rate := Behind(slash);
      var next := IndexOf(text, '/', rate);
      (UpTo(text, start, slash), Atoi(UpTo(text, rate, next)) % 0x1_0000_0000,
       if next.None? then 2 else Atoi(text[next.value + 1..]) % 0x1_0000)
  }

  const OPUS := "opus"

  /** The parameter with a key, whatever its case, gets the value; a new one is appended. */
  function SetParameter(ps: seq<Parameter>, key: string, value: string): seq<Parameter> {
    if ps == [] then [Parameter(key, value)]
    else if EqualsIgnoreCase(ps[0].key, key) then [ps[0].(value := value)] + ps[1..]
    else [ps[0]] + SetParameter(ps[1..], key, value)
  }

  /** Without an equals sign the text is both key and value. */
  function ParsePair(pair: string): Parameter {
    var equals := IndexOf(pair, '=', 0);
    Parameter(Trim(UpTo(pair, 0, equals)), Trim(pair[Behind(equals)..]))
  }

  /** The pairs from `at` on, each up to the next semicolon. */
  function ReadParameters(text: string, at: nat, ps: seq<Parameter>): seq<Parameter>
    requires at <= |text|
    decreases |text| - at
  {
    var end := IndexOf(text, ';', at);
    var pair := ParsePair(UpTo(text, at, end));
    var next := SetParameter(ps, pair.key, pair.value);
    if end.None? then next else ReadParameters(text, end.value + 1, next)
  }

  /** The parameters behind the payload type; they are read for one encoding only. */
  function FormatParameters(text: string, encoding: string): seq<Parameter> {
    var space := IndexOf(text, ' ', 0);
    if encoding != OPUS || space.None? then [] else ReadParameters(text, space.value + 1, [])
  }

  function ParameterLine(attributes: seq<string>, payloadType: U32): string {
    FirstWith(attributes, "fmtp:" + Decimal(payloadType))
  }

  predicate StaticSupported(payloadType: U32) {
    payloadType == 10 || payloadType == 8 || payloadType == 0 || payloadType == 3
  }

  /** The media read for one payload type, at most one. `None`: the format is not registered
      and a null pointer is followed. */
  function Describe(attributes: seq<string>, formats: seq<Format>, payloadType: U32, port: U16, protocol: string)
    : Option<seq<Media>>
  {
    if payloadType <= LAST_STATIC then
      if !StaticSupported(payloadType) then Some([])
      else
        match Registered(formats, payloadType)
        case None => None
        case Some(f) => Some([Media(port, protocol, f.payloadType, f.encoding, f.sampleRate, f.numChannels, [])])
    else
      var (encoding, sampleRate, numChannels) := ParseMap(RtpMap(attributes, payloadType));
      if EncodingSupported(formats, encoding)
      then Some([Media(port, protocol, payloadType, encoding, sampleRate, numChannels,
                       FormatParameters(ParameterLine(attributes, payloadType), encoding))])
      else Some([])
  }

  function Both(first: Option<seq<Media>>, rest: Option<seq<Media>>): Option<seq<Media>> {
    if first.None? || rest.None? then None else Some(first.value + rest.value)
  }

  function DescribeAll(attributes: seq<string>, formats: seq<Format>, types: seq<U32>, port: U16, protocol: string)
    : Option<seq<Media>>
  {
    if types == [] then Some([])
    else Both(Describe(attributes, formats, types[0], port, protocol),
              DescribeAll(attributes, formats, types[1..], port, protocol))
  }

  /** The numbers behind each space from the first one on. */
  function ReadTypes(m: string, space: Option<nat>): seq<U32>
    requires space.Some? ==> space.value < |m|
    decreases if space.Some? then |m| - space.value else 0
  {
    if space.None? then []
    else
      var start := space.value + 1;
      var next := IndexOf(m, ' ', start);
      [Atoi(UpTo(m, start, next)) % 0x1_0000_0000] + ReadTypes(m, next)
  }

  /** Port, protocol and payload types of a media field; `None` for one to skip. */
  function ParseMedia(m: string): Option<(U16, string, seq<U32>)> {
    var start := Behind(IndexOf(m, ' ', 0));
    var next := IndexOf(m, ' ', start);
    var third := Behind(next);
    var types := IndexOf(m, ' ', third);
    var protocol := UpTo(m, third, types);
    if StartsWith(m, "audio") && (protocol == RTP || protocol == SRTP)
    then Some((Atoi(UpTo(m, start, next)) % 0x1_0000, protocol, ReadTypes(m, types)))
    else None
  }

  function ReadField(attributes: seq<string>, formats: seq<Format>, m: string): Option<seq<Media>> {
    match ParseMedia(m)
    case None => Some([])
    case Some((port, protocol, types)) => DescribeAll(attributes, formats, types, port, protocol)
  }

  function ReadFields(attributes: seq<string>, formats: seq<Format>, media: seq<string>): Option<seq<Media>> {
    if media == [] then Some([])
    else Both(ReadField(attributes, formats, media[0]), ReadFields(attributes, formats, media[1..]))
  }

  function ReadMedia(fields: seq<SessionKey>, formats: seq<Format>): Option<seq<Media>> {
    ReadFields(FieldValues(fields, 'a'), formats, FieldValues(fields, 'm'))
  }

  function ReadDescription(message: string): seq<SessionKey> {
    ParseKeys(SplitLines(message, 0))
  }

  // ---------- lines and values of other shapes ----------

  /** A line without an equals sign has its first character for a key, and is its own value; one that starts with the
      sign has no key. */
  lemma LineWithoutKey(line: string)
    ensures line != "" && '=' !in line ==> ParseKey(line) == SessionKey(line[0], Trim(line))
    ensures ParseKey("=" + line) == SessionKey('\0', Trim(line)) && ParseKey("") == SessionKey('\0', Trim(""))
  {
    hide Trim;
    if '=' !in line { IndexOfNone(line, '=', 0); }
    assert ("=" + line)[1..] == line && line[0..] == line && ""[0..] == "";
  }

  /** Commas separate values, each of which is trimmed; nothing behind the last comma is no value. */
  lemma ValuesSeparated(first: string, rest: string)
    requires ',' !in first
    ensures Values(first + "," + rest) == [Trim(first)] + Values(rest) && Values("") == []
    ensures first != "" ==> Values(first) == [Trim(first)]
  {
    hide Trim;
    var s := first + "," + rest;
    IndexBehind(s, 0, first, ',');
    assert s[..|first|] == first && s[|first| + 1..] == rest;
    assert ([first] + Split(rest, ','))[1..] == Split(rest, ',');
    IndexOfNone(first, ',', 0);
    if first != "" { assert Split(first, ',') == [first] && [first][1..] == []; }
  }

  /** A pair without an equals sign is both key and value. */
  lemma PairWithoutEquals(pair: string)
    requires '=' !in pair
    ensures ParsePair(pair) == Parameter(Trim(pair), Trim(pair))
  {
    hide Trim;
    IndexOfNone(pair, '=', 0);
    assert pair[0..] == pair;
  }

  /** Parameters are read for one encoding only. */
  lemma OnlyOpus(text: string, encoding: string)
    requires encoding != "opus" || ' ' !in text
    ensures FormatParameters(text, encoding) == []
  {
    if ' ' !in text { IndexOfNone(text, ' ', 0); }
  }

  /** Of the payload types up to 18 four are read as they are registered, and the others are skipped. */
  lemma PredefinedTypes(attributes: seq<string>, formats: seq<Format>, p: U32, port: U16, protocol: string)
    requires p <= 18
    ensures var r := Describe(attributes, formats, p, port, protocol);
            if p == 0 || p == 3 || p == 8 || p == 10 then
              match Registered(formats, p)
              case None => r == None
              case Some(f) =>
                r == Some([Media(port, protocol, f.payloadType, f.encoding, f.sampleRate, f.numChannels, [])])
            else r == Some([])
  {
  }

  /** A payload type without a map has no encoding, no rate and no channels. */
  lemma NoMap()
    ensures ParseMap("") == ("", 0, 0)
  {
  }

  /** All others are read by their attribute, whatever it says. */
  lemma OtherTypes(attributes: seq<string>, formats: seq<Format>, p: U32, port: U16, protocol: string)
    requires p > 18
    ensures var (encoding, rate, channels) := ParseMap(RtpMap(attributes, p));
            Describe(attributes, formats, p, port, protocol) ==
            if EncodingSupported(formats, encoding)
            then Some([Media(port, protocol, p, encoding, rate, channels,
                             FormatParameters(ParameterLine(attributes, p), encoding))])
            else Some([])
  {
  }

  lemma {:induction false} RegisteredFirst(formats: seq<Format>, p: U32, i: nat)
    requires i < |formats| && formats[i].payloadType == p && forall j | 0 <= j < i :: formats[j].payloadType != p
    ensures Registered(formats, p) == Some(formats[i])
    decreases i
  {
    if i == 0 {
    } else {
      assert formats[0].payloadType != p;
      RegisteredFirst(formats[1..], p, i - 1);
    }
  }

  predicate LikeMedia(f: Format, m: Media) {
    EqualsIgnoreCase(f.encoding, m.encoding) && f.sampleRate == m.sampleRate && f.numChannels == m.numChannels
  }

  /** A selected format is offered with the parameters of the first registered one that has its encoding in any case,
      its rate and its channels, if there is one. */
  lemma {:induction false} ParametersOfFirst(formats: seq<Format>, m: Media, i: nat)
    requires i <= |formats| && forall j | 0 <= j < i :: !LikeMedia(formats[j], m)
    ensures i < |formats| && LikeMedia(formats[i], m) ==> ParametersOf(formats, m) == formats[i].parameters
    ensures i == |formats| ==> ParametersOf(formats, m) == ""
    decreases i
  {
    hide EqualsIgnoreCase;
    if i == 0 {
    } else {
      assert !LikeMedia(formats[0], m);
      ParametersOfFirst(formats[1..], m, i - 1);
    }
  }

  /** Everything else in it is as selected. */
  lemma {:induction false} SelectedKept(formats: seq<Format>, media: seq<Media>, i: nat)
    requires i < |media|
    ensures |Selected(formats, media)| == |media|
    ensures var f := Selected(formats, media)[i];
            && f.payloadType == media[i].payloadType && f.encoding == media[i].encoding
            && f.sampleRate == media[i].sampleRate && f.numChannels == media[i].numChannels
            && f.parameters == ParametersOf(formats, media[i])
    decreases |media|
  {
    if |media| == 1 {
    } else if i == 0 {
      SelectedKept(formats, media[1..], 0);
    } else {
      SelectedKept(formats, media[1..], i - 1);
    }
  }
  /** An encoding is supported exactly if a registered format has it, in any case. */
  lemma {:induction false} SupportedExactly(formats: seq<Format>, encoding: string)
    ensures EncodingSupported(formats, encoding) <==>
            exists i :: 0 <= i < |formats| && EqualsIgnoreCase(formats[i].encoding, encoding)
  {
    hide EqualsIgnoreCase;
    if formats == [] {
    } else {
      var rest := formats[1..];
      SupportedExactly(rest, encoding);
      assert forall i | 0 < i < |formats| :: formats[i] == rest[i - 1];
      if EncodingSupported(rest, encoding) {
        var i :| 0 <= i < |rest| && EqualsIgnoreCase(rest[i].encoding, encoding);
        assert formats[i + 1] == rest[i];
      }
    }
  }

  /** A parameter that is named again keeps its place and gets the new value. */
  lemma {:induction false} SetAgain(ps: seq<Parameter>, i: nat, key: string, value: string)
    requires i < |ps| && EqualsIgnoreCase(ps[i].key, key)
    requires forall j | 0 <= j < i :: !EqualsIgnoreCase(ps[j].key, key)
    ensures SetParameter(ps, key, value) == ps[..i] + [Parameter(ps[i].key, value)] + ps[i + 1..]
    decreases i
  {
    hide EqualsIgnoreCase;
    if i == 0 {
    } else {
      assert !EqualsIgnoreCase(ps[0].key, key);
      SetAgain(ps[1..], i - 1, key, value);
      assert ps[..i] == [ps[0]] + ps[1..][..i - 1] && ps[1..][i..] == ps[i + 1..];
    }
  }

  lemma OtherProtocol(m: string, port: string, protocol: string, rest: string)
    requires ' ' !in port && ' ' !in protocol && protocol != "RTP/AVP" && protocol != "RTP/SAVP"
    requires m == "audio" + " " + (port + " " + (protocol + " " + rest))
    ensures ParseMedia(m) == None
  {
    hide IndexOf, Atoi, ReadTypes, StartsWith;
    assert m[0..] == m;
    NextSpace(m, 0, "audio", port + " " + (protocol + " " + rest));
    NextSpace(m, 6, port, protocol + " " + rest);
    NextSpace(m, 7 + |port|, protocol, rest);
  }

  /** Media fields for anything but audio are skipped, and so are those with another protocol. */
  lemma OtherMediaSkipped(attributes: seq<string>, formats: seq<Format>, port: string, protocol: string, rest: string)
    requires ' ' !in port && ' ' !in protocol && protocol != "RTP/AVP" && protocol != "RTP/SAVP"
    ensures ReadField(attributes, formats, "audio" + " " + (port + " " + (protocol + " " + rest))) == Some([])
    ensures ReadField(attributes, formats, "video" + rest) == Some([])
  {
    OtherProtocol("audio" + " " + (port + " " + (protocol + " " + rest)), port, protocol, rest);
    StartsOtherwise("video" + rest, "audio");
    hide IndexOf, Atoi, ReadTypes, StartsWith, DescribeAll;
  }

  lemma StartsOtherwise(s: string, prefix: string)
    requires s != "" && prefix != "" && s[0] != prefix[0]
    ensures !StartsWith(s, prefix)
  {
    if |prefix| <= |s| { assert s[..|prefix|][0] == s[0]; }
  }
}
