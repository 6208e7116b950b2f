/** Printing a SIP message and reading it back (RFC 3261 sections 7.1 to 7.3). */
module SipRoundTrip {
  import opened Words
  import opened Wrappers
  import opened Text
  import opened SipFormat

  /** A field whose text can be told apart on its line, see `FieldRoundTrip`. */
  predicate WellFormed(f: Field) {
    && Trimmed(f.key) && Trimmed(f.value) && ':' !in f.key && |f.key| != 1
    && Unbroken(f.key) && Unbroken(f.value)
  }

  lemma JoinUnbroken(name: string, value: string)
    requires Unbroken(name) && Unbroken(value)
    ensures Unbroken(name + ": " + value)
  {
    var s := name + ": " + value;
    forall i | 0 <= i < |s| ensures !BreakAt(s, i) {
      if i < |name| {
        assert !BreakAt(name, i) && s[i] == name[i];
      } else if |name| + 2 <= i {
        assert !BreakAt(value, i - |name| - 2) && s[i] == value[i - |name| - 2];
      }
    }
  }

  /** A printed line, with its long or its compact name, is read as the field. */
  lemma LineRoundTrip(f: Field, compact: bool)
    requires WellFormed(f)
    ensures ParseField(Line(f, compact)) == Ok(f)
    ensures Unbroken(Line(f, compact)) && |Line(f, compact)| >= 2
  {
    var letter := CompactName(f.key);
    TrimEnds(f.key);
    TrimEnds(f.value);
    if compact && letter.Some? {
      ParsePrinted([letter.value], f.value);
      JoinUnbroken([letter.value], f.value);
    } else {
      ParsePrinted(f.key, f.value);
      JoinUnbroken(f.key, f.value);
    }
  }

  // ---------- header lines ----------

  /** The lines as they are printed, each followed by a line break, in front of further text. */
  function Joined(lines: seq<string>, rest: string): string {
    if lines == [] then rest else lines[0] + CRLF + Joined(lines[1..], rest)
  }

  /** Lines that can be told from an empty one and end where they are meant to. */
  predicate AllLines(lines: seq<string>) {
    lines == [] || (Unbroken(lines[0]) && |lines[0]| >= 2 && AllLines(lines[1..]))
  }

  lemma EmptyLine(s: string, at: nat, body: string)
    requires at <= |s| && s[at..] == CRLF + body
    ensures at == |s| - |body| - 2 && s[at + 2..] == body && RawLines(s, at) == ([], Some(at))
  {
    assert s[at] == s[at..][0] && s[at + 1] == s[at..][1] && s[at + 2..] == s[at..][2..];
  }

  lemma NoBreakAt(s: string, at: nat, line: string)
    requires at + |line| <= |s| && s[at..at + |line|] == line && |line| >= 2 && Unbroken(line)
    ensures !BreakAt(s, at)
  {
    assert !BreakAt(line, 0);
    assert s[at] == line[0] && s[at + 1] == line[1];
  }

  lemma RawLine(s: string, at: nat, line: string, rest: string)
    requires at <= |s| && s[at..] == line + CRLF + rest && Unbroken(line) && |line| >= 2
    ensures var next := at + |line| + 2;
            && next <= |s| && s[next..] == rest
            && RawLines(s, at) == ([line] + RawLines(s, next).0, RawLines(s, next).1)
  {
    NextBreak(s, at, line, rest);
    NoBreakAt(s, at, line);
  }

  lemma {:induction false} RawLinesJoined(s: string, at: nat, lines: seq<string>, body: string)
    requires at <= |s| && s[at..] == Joined(lines, CRLF + body)
    requires AllLines(lines)
    ensures |body| + 2 <= |s| && s[|s| - |body|..] == body
    ensures RawLines(s, at) == (lines, Some(|s| - |body| - 2))
    decreases |lines|
  {
    hide RawLines, LineEnd, BreakAt, Unbroken;
    if lines == [] {
      EmptyLine(s, at, body);
    } else {
      var line := lines[0];
      RawLine(s, at, line, Joined(lines[1..], CRLF + body));
      RawLinesJoined(s, at + |line| + 2, lines[1..], body);
      assert lines == [line] + lines[1..];
    }
  }

  function LineList(fields: seq<Field>, compact: seq<bool>): (lines: seq<string>)
    requires |compact| == |fields|
    ensures |lines| == |fields|
  {
    if fields == [] then [] else [Line(fields[0], compact[0])] + LineList(fields[1..], compact[1..])
  }

  lemma ParseOne(line: string, lines: seq<string>, f: Field, fields: seq<Field>)
    requires ParseField(line) == Ok(f) && ParseAll(lines) == Ok(fields)
    ensures ParseAll([line] + lines) == Ok([f] + fields)
  {
    assert ([line] + lines)[1..] == lines;
  }

  lemma AllLinesOne(line: string, lines: seq<string>)
    requires Unbroken(line) && |line| >= 2 && AllLines(lines)
    ensures AllLines([line] + lines)
  {
    assert ([line] + lines)[1..] == lines;
  }

  lemma {:induction false} LinesRoundTrip(fields: seq<Field>, compact: seq<bool>)
    requires |compact| == |fields| && forall f | f in fields :: WellFormed(f)
    ensures AllLines(LineList(fields, compact))
    ensures ParseAll(LineList(fields, compact)) == Ok(fields)
    decreases |fields|
  {
    if fields == [] {
    } else {
      var f, line := fields[0], Line(fields[0], compact[0]);
      assert f in fields;
      LineRoundTrip(f, compact[0]);
      LinesRoundTrip(fields[1..], compact[1..]);
      ParseOne(line, LineList(fields[1..], compact[1..]), f, fields[1..]);
      AllLinesOne(line, LineList(fields[1..], compact[1..]));
      assert fields == [f] + fields[1..];
    }
  }

  lemma {:induction false} HeaderTextJoined(fields: seq<Field>, compact: seq<bool>, rest: string)
    requires |compact| == |fields|
    ensures HeaderText(fields, compact, rest) == Joined(LineList(fields, compact), rest)
    decreases |fields|
  {
    if fields == [] {
    } else {
      var lines := LineList(fields[1..], compact[1..]);
      HeaderTextJoined(fields[1..], compact[1..], rest);
      assert ([Line(fields[0], compact[0])] + lines)[1..] == lines;
    }
  }

  // ---------- the printed fields ----------

  lemma {:induction false} LastLengthAppend(fields: seq<Field>, value: string)
    ensures LastLength(fields + [Field(CONTENT_LENGTH, value)]) == Some(value)
  {
    var all := fields + [Field(CONTENT_LENGTH, value)];
    if fields == [] {
    } else {
      assert all[1..] == fields[1..] + [Field(CONTENT_LENGTH, value)];
      LastLengthAppend(fields[1..], value);
    }
  }

  lemma {:induction false} SizedLengths(fields: seq<Field>, n: nat)
    ensures LastLength(SizedAll(fields, n)) == if HasLength(fields) then Some(Decimal(n)) else None
  {
    if fields == [] {
    } else {
      var rest := fields[1..];
      assert SizedAll(fields, n)[1..] == SizedAll(rest, n);
      SizedLengths(rest, n);
      HasLengthOne(fields[0], rest);
      assert fields == [fields[0]] + rest;
    }
  }

  lemma HasLengthOne(f: Field, rest: seq<Field>)
    ensures HasLength([f] + rest) <==> f.key == CONTENT_LENGTH || HasLength(rest)
  {
    assert ([f] + rest)[0] == f;
    if HasLength(rest) {
      var g :| g in rest && g.key == CONTENT_LENGTH;
      assert g in [f] + rest;
    }
  }

  /** The last printed length is the size of the body. */
  lemma PrintedLength(fields: seq<Field>, n: U32)
    ensures ContentLength(PrintedFields(fields, n)) == n
  {
    SizedLengths(fields, n);
    if HasLength(fields) {
      assert PrintedFields(fields, n) == SizedAll(fields, n);
    } else {
      LastLengthAppend(SizedAll(fields, n), Decimal(n));
    }
    AtoiDecimalAlone(n);
  }

  /** The value of a length field does not matter: it is printed anew. */
  predicate Printable(f: Field) {
    f.key == CONTENT_LENGTH || WellFormed(f)
  }

  lemma LengthFieldWellFormed(n: nat)
    ensures WellFormed(Field(CONTENT_LENGTH, Decimal(n)))
  {
    DecimalPlain(n);
  }

  lemma PrintedWellFormed(fields: seq<Field>, n: nat)
    requires forall f | f in fields :: Printable(f)
    ensures forall f | f in PrintedFields(fields, n) :: WellFormed(f)
  {
    LengthFieldWellFormed(n);
    forall f | f in SizedAll(fields, n) ensures WellFormed(f) {
      var i :| 0 <= i < |fields| && f == Sized(fields[i], n);
      assert fields[i] in fields;
    }
  }

  // ---------- whole messages ----------

  lemma FirstWord(s: string, first: string, rest: string)
    requires s == first + " " + rest && ' ' !in first
    ensures |first| < |s| && IndexOf(s, ' ', 0) == Some(|first|)
    ensures s[0..|first|] == first && s[|first| + 1..] == rest
  {
    hide IndexOf;
    assert s[0..] == s;
    NextSpace(s, 0, first, rest);
  }

  lemma OtherWords(s: string, at: nat, second: string, line: string, third: string, tail: string)
    requires ' ' !in second && Unbroken(third)
    requires at <= |s| && s[at..] == second + " " + line && line == third + CRLF + tail
    ensures var b := at + |second|; var c := b + 1 + |third|;
            && c + 2 <= |s| && s[c + 2..] == tail
            && IndexOf(s, ' ', at) == Some(b) && LineEnd(s, b + 1) == Some(c)
            && s[at..b] == second && s[b + 1..c] == third
  {
    hide IndexOf, LineEnd, Unbroken;
    NextSpace(s, at, second, line);
    NextBreak(s, at + |second| + 1, third, tail);
  }

  /** The three parts of a start line, `rest` being all but the first and `line` the third with what follows. */
  lemma StartLine(s: string, first: string, rest: string, second: string, line: string, third: string, tail: string)
    requires ' ' !in first && ' ' !in second && Unbroken(third)
    requires s == first + " " + rest && rest == second + " " + line && line == third + CRLF + tail
    ensures var a := |first|; var b := a + 1 + |second|; var c := b + 1 + |third|;
            && c + 2 <= |s| && s[c + 2..] == tail
            && IndexOf(s, ' ', 0) == Some(a) && IndexOf(s, ' ', a + 1) == Some(b) && LineEnd(s, b + 1) == Some(c)
            && s[0..a] == first && s[a + 1..b] == second && s[b + 1..c] == third
  {
    hide IndexOf, LineEnd, Unbroken;
    FirstWord(s, first, rest);
    OtherWords(s, |first| + 1, second, line, third, tail);
  }

  /** What is read of the text behind the empty line when `n` characters are announced. */
  lemma BodyBehind(s: string, rest: string, n: U32)
    requires |rest| <= |s| && s[|s| - |rest|..] == rest
    ensures Body(s, |s| - |rest|, n) ==
            if n == 0xFFFF_FFFF || rest == "" then Ok("")
            else if n > |rest| then Err(BodyTooShort)
            else Ok(rest[..n])
  {
    if n <= |rest| { assert s[|s| - |rest|..|s| - |rest| + n] == s[|s| - |rest|..][..n]; }
  }

  /** Lines in front of an empty one, in terms of the lines. */
  lemma RestJoined(s: string, at: nat, lines: seq<string>, fields: seq<Field>, rest: string)
    requires 1 <= at <= |s| && s[at..] == Joined(lines, CRLF + rest)
    requires AllLines(lines) && ParseAll(lines) == Ok(fields)
    ensures |rest| <= |s| && s[|s| - |rest|..] == rest
    ensures ParseRest(s, at) == WithBody(fields, Body(s, |s| - |rest|, ContentLength(fields)))
  {
    hide RawLines, Joined, AllLines, ParseAll, ContentLength, Body, ParseRest;
    RawLinesJoined(s, at, lines, rest);
    RestFound(s, at, lines, Some(|s| - |rest| - 2), fields);
  }

  function WithBody(fields: seq<Field>, body: Result<string>): Result<(seq<Field>, string)> {
    match body case Err(e) => Err(e) case Ok(b) => Ok((fields, b))
  }

  lemma RestFound(s: string, at: nat, lines: seq<string>, end: Option<nat>, fields: seq<Field>)
    requires 1 <= at <= |s| && RawLines(s, at) == (lines, end) && ParseAll(lines) == Ok(fields)
    ensures ParseRest(s, at) == WithBody(fields, Body(s, BehindBreak(end), ContentLength(fields)))
  {
  }

  lemma PartsFound(s: string, a: nat, b: nat, c: nat, r: Result<(seq<Field>, string)>)
    requires IndexOf(s, ' ', 0) == Some(a) && IndexOf(s, ' ', a + 1) == Some(b) && LineEnd(s, b + 1) == Some(c)
    requires ParseRest(s, c + 2) == r
    ensures Parse(s) == MessageOf(s[0..a], s[a + 1..b], s[b + 1..c], r)
  {
    hide ParseRest, IndexOf, LineEnd;
  }

  function MessageOf(first: string, second: string, third: string, r: Result<(seq<Field>, string)>): Result<Message> {
    match r
    case Err(e) => Err(e)
    case Ok((fields, body)) => Ok(Message(first, second, third, fields, body))
  }

  /** The start line in front of anything. */
  lemma HeadRead(s: string, first: string, second: string, third: string, tail: string)
    requires ' ' !in first && ' ' !in second && Unbroken(third)
    requires s == first + " " + (second + " " + (third + CRLF + tail))
    ensures var at := |first| + |second| + |third| + 4;
            && at <= |s| && s[at..] == tail && Parse(s) == MessageOf(first, second, third, ParseRest(s, at))
  {
    hide ParseRest, Parse, IndexOf, LineEnd, Unbroken;
    var a, b, at := |first|, |first| + |second| + 1, |first| + |second| + |third| + 4;
    StartLine(s, first, second + " " + (third + CRLF + tail), second, third + CRLF + tail, third, tail);
    PartsFound(s, a, b, b + |third| + 1, ParseRest(s, at));
  }

  /** A start line, any well-formed fields in any mixture of long and compact names, and the empty line, in front of
      any further text: of this the announced number of characters is the body, and nothing if no number is
      announced or nothing follows. */
  lemma TextRead(first: string, second: string, third: string, fields: seq<Field>, compact: seq<bool>, rest: string)
    requires ' ' !in first && ' ' !in second && Unbroken(third)
    requires |compact| == |fields| && forall f | f in fields :: WellFormed(f)
    ensures Parse(MessageText(first, second, third, fields, compact, rest)) ==
            var n := ContentLength(fields);
            if n == 0xFFFF_FFFF || rest == "" then Ok(Message(first, second, third, fields, ""))
            else if n > |rest| then Err(BodyTooShort)
            else Ok(Message(first, second, third, fields, rest[..n]))
  {
    hide Parse, ParseRest, Joined, AllLines, ParseAll, Body, ContentLength, Unbroken, HeaderText;
    var s := MessageText(first, second, third, fields, compact, rest);
    var lines := LineList(fields, compact);
    LinesRoundTrip(fields, compact);
    HeaderTextJoined(fields, compact, CRLF + rest);
    HeadRead(s, first, second, third, Joined(lines, CRLF + rest));
    RestJoined(s, |first| + |second| + |third| + 4, lines, fields, rest);
    BodyBehind(s, rest, ContentLength(fields));
  }

  lemma MessageTextRest(first: string, second: string, third: string, fields: seq<Field>, compact: seq<bool>,
                        body: string, rest: string)
    requires |compact| == |fields|
    ensures MessageText(first, second, third, fields, compact, body) + rest
            == MessageText(first, second, third, fields, compact, body + rest)
  {
    hide HeaderText;
    HeaderTextRest(fields, compact, CRLF + body, rest);
    assert (CRLF + body) + rest == CRLF + (body + rest);
    var header := HeaderText(fields, compact, CRLF + body);
    Shift(third + CRLF, header, rest);
    Shift(second + " ", third + CRLF + header, rest);
    Shift(first + " ", second + " " + (third + CRLF + header), rest);
  }

  /** A start line and the header lines, some of them with compact names, then any body: all is read back, whatever
      else has come behind it. */
  lemma MessageRoundTrip(first: string, second: string, third: string,
                         fields: seq<Field>, compact: seq<bool>, body: string, trailing: string)
    requires ' ' !in first && ' ' !in second && Unbroken(third)
    requires |body| < UINT_MAX && (forall f | f in fields :: Printable(f))
    requires |compact| == |PrintedFields(fields, |body|)|
    ensures var printed := PrintedFields(fields, |body|);
            Parse(MessageText(first, second, third, printed, compact, body) + trailing)
            == Ok(Message(first, second, third, printed, body))
  {
    hide Parse, MessageText, ContentLength, PrintedFields;
    var printed := PrintedFields(fields, |body|);
    PrintedWellFormed(fields, |body|);
    PrintedLength(fields, |body|);
    MessageTextRest(first, second, third, printed, compact, body, trailing);
    TextRead(first, second, third, printed, compact, body + trailing);
    assert (body + trailing)[..|body|] == body;
  }

  lemma MessageTextAlone(first: string, second: string, third: string,
                         fields: seq<Field>, compact: seq<bool>, body: string)
    requires |compact| == |fields|
    ensures MessageText(first, second, third, fields, compact, body) + ""
            == MessageText(first, second, third, fields, compact, body)
  {
  }

  /** A printed message that is cut off within its body is refused, and one cut off in front of it is read
      without a body. */
  lemma BodyCutOff(first: string, second: string, third: string,
                   fields: seq<Field>, compact: seq<bool>, body: string, cut: nat)
    requires ' ' !in first && ' ' !in second && Unbroken(third)
    requires |body| < UINT_MAX && (forall f | f in fields :: Printable(f))
    requires |compact| == |PrintedFields(fields, |body|)| && 0 < cut <= |body|
    ensures var printed := PrintedFields(fields, |body|);
            var text := MessageText(first, second, third, printed, compact, body);
            && cut <= |text|
            && Parse(text[..|text| - cut]) ==
               if cut < |body| then Err(BodyTooShort) else Ok(Message(first, second, third, printed, ""))
  {
    hide Parse, MessageText, ContentLength, PrintedFields;
    var printed := PrintedFields(fields, |body|);
    var front, back := body[..|body| - cut], body[|body| - cut..];
    PrintedWellFormed(fields, |body|);
    PrintedLength(fields, |body|);
    assert front + back == body;
    MessageTextRest(first, second, third, printed, compact, front, back);
    var text := MessageText(first, second, third, printed, compact, body);
    assert text[..|text| - cut] == MessageText(first, second, third, printed, compact, front);
    TextRead(first, second, third, printed, compact, front);
  }

  lemma {:induction false} NoLengthRead(fields: seq<Field>)
    requires forall f | f in fields :: f.key != "Content-Length"
    ensures LastLength(fields) == None
  {
    if fields == [] {
    } else {
      assert fields[0] in fields;
      NoLengthRead(fields[1..]);
    }
  }

  /** Without a length there is no body, whatever follows the empty line. */
  lemma NoLengthNoBody(first: string, second: string, third: string, fields: seq<Field>, compact: seq<bool>,
                       rest: string)
    requires ' ' !in first && ' ' !in second && Unbroken(third)
    requires |compact| == |fields| && forall f | f in fields :: WellFormed(f) && f.key != "Content-Length"
    ensures Parse(MessageText(first, second, third, fields, compact, rest))
            == Ok(Message(first, second, third, fields, ""))
  {
    hide Parse, MessageText;
    NoLengthRead(fields);
    TextRead(first, second, third, fields, compact, rest);
  }

  lemma {:induction false} LastLengthRead(front: seq<Field>, value: string, back: seq<Field>)
    requires forall f | f in back :: f.key != "Content-Length"
    ensures LastLength(front + [Field("Content-Length", value)] + back) == Some(value)
    decreases |front|
  {
    var all := front + [Field("Content-Length", value)] + back;
    if front == [] {
      assert all[1..] == back;
      NoLengthRead(back);
    } else {
      assert all[1..] == front[1..] + [Field("Content-Length", value)] + back;
      LastLengthRead(front[1..], value, back);
    }
  }

  /** The last of several lengths counts, as far as it is a number. */
  lemma LastLengthCounts(front: seq<Field>, n: U32, back: seq<Field>)
    requires forall f | f in back :: f.key != "Content-Length"
    ensures ContentLength(front + [Field("Content-Length", Decimal(n))] + back) == n
  {
    hide Atoi, Decimal;
    LastLengthRead(front, Decimal(n), back);
    AtoiDecimalAlone(n);
  }

  lemma {:induction false} RawLinesUnended(s: string, at: nat, lines: seq<string>)
    requires at <= |s| && s[at..] == Joined(lines, "") && AllLines(lines)
    ensures RawLines(s, at) == (lines, None)
    decreases |lines|
  {
    hide LineEnd, BreakAt, Unbroken;
    if lines == [] {
      NoMoreBreaks(s);
    } else {
      hide RawLines;
      var line := lines[0];
      RawLine(s, at, line, Joined(lines[1..], ""));
      RawLinesUnended(s, at + |line| + 2, lines[1..]);
      assert lines == [line] + lines[1..];
    }
  }

  lemma NoMoreBreaks(s: string)
    ensures !BreakAt(s, |s|) && LineEnd(s, |s|) == None
  {
  }

  /** When the empty line is missing, the fields are read all the same, and the body is looked for behind the first
      character of the message. */
  lemma EmptyLineMissing(s: string, first: string, second: string, third: string,
                         fields: seq<Field>, compact: seq<bool>)
    requires ' ' !in first && ' ' !in second && Unbroken(third)
    requires |compact| == |fields| && forall f | f in fields :: WellFormed(f)
    requires s == first + " " + (second + " " + (third + CRLF + HeaderText(fields, compact, "")))
    ensures Parse(s) ==
            var n := ContentLength(fields);
            if n == 0xFFFF_FFFF then Ok(Message(first, second, third, fields, ""))
            else if n > |s| - 1 then Err(BodyTooShort)
            else Ok(Message(first, second, third, fields, s[1..1 + n]))
  {
    hide Parse, ParseRest, Joined, AllLines, ParseAll, ContentLength, Unbroken, HeaderText, RawLines, Body, LineList;
    var lines, at := LineList(fields, compact), |first| + |second| + |third| + 4;
    LinesRoundTrip(fields, compact);
    HeaderTextJoined(fields, compact, "");
    HeadRead(s, first, second, third, Joined(lines, ""));
    RawLinesUnended(s, at, lines);
    RestFound(s, at, lines, None, fields);
    BodyInFront(s, ContentLength(fields));
  }

  lemma BodyInFront(s: string, n: U32)
    requires |s| >= 2
    ensures Body(s, 1, n) ==
            if n == 0xFFFF_FFFF then Ok("") else if n > |s| - 1 then Err(BodyTooShort) else Ok(s[1..1 + n])
  {
  }

  /** A printed request is read back with the same command, fields and body; its URI is read
      decoded and refused unless it then starts with the scheme and names a user. */
  lemma RequestRoundTrip(r: Request, body: string)
    requires ' ' !in r.command && ' ' !in r.uri
    requires |body| < UINT_MAX && (forall f | f in r.fields :: Printable(f))
    ensures var uri := DecodeUri(r.uri);
            ToRequest(Parse(PrintRequest(r, body))) ==
            if StartsWith(uri, "sip:") && '@' in uri
            then Ok((Request(r.command, uri, PrintedFields(r.fields, |body|)), body))
            else Err(InvalidUri)
  {
    hide Parse, PrintedFields, MessageText, DecodeUri, StartsWith;
    var printed := PrintedFields(r.fields, |body|);
    assert Size(body) == |body|;
    VersionPlain();
    MessageRoundTrip(r.command, r.uri, SIP_VERSION, r.fields, Long(|printed|), body, "");
    MessageTextAlone(r.command, r.uri, SIP_VERSION, printed, Long(|printed|), body);
  }

  lemma VersionPlain()
    ensures ' ' !in SIP_VERSION && Unbroken(SIP_VERSION)
  {
  }

  /** So the request itself comes back exactly when its URI is a plain `sip:` address with a user part. */
  lemma RequestUnchanged(r: Request, body: string)
    requires ' ' !in r.command && ' ' !in r.uri
    requires |body| < UINT_MAX && (forall f | f in r.fields :: Printable(f))
    ensures ToRequest(Parse(PrintRequest(r, body))) == Ok((r.(fields := PrintedFields(r.fields, |body|)), body))
            <==> && '%' !in r.uri && '+' !in r.uri && '\0' !in r.uri
                 && StartsWith(r.uri, "sip:") && '@' in r.uri
  {
    RequestRoundTrip(r, body);
    DecodeUnchanged(r.uri);
  }

  lemma ResponseOf(m: Message, statusCode: U32)
    requires m.first == SIP_VERSION && Atoi(m.second) == statusCode
    ensures ToResponse(Ok(m)) == Ok((Response(statusCode, m.third, m.fields), m.body))
  {
  }

  /** A printed response is read back whole. */
  lemma ResponseRoundTrip(r: Response, body: string)
    requires Unbroken(r.reason)
    requires |body| < UINT_MAX && (forall f | f in r.fields :: Printable(f))
    ensures ToResponse(Parse(PrintResponse(r, body))) == Ok((r.(fields := PrintedFields(r.fields, |body|)), body))
  {
    hide Parse, PrintedFields, MessageText, ToResponse, Decimal, Atoi;
    var printed := PrintedFields(r.fields, |body|);
    assert Size(body) == |body|;
    var code := Decimal(r.statusCode);
    VersionPlain();
    DecimalPlain(r.statusCode);
    AtoiDecimalAlone(r.statusCode);
    MessageRoundTrip(SIP_VERSION, code, r.reason, r.fields, Long(|printed|), body, "");
    MessageTextAlone(SIP_VERSION, code, r.reason, printed, Long(|printed|), body);
    ResponseOf(Message(SIP_VERSION, code, r.reason, printed, body), r.statusCode);
  }

  /** Compact names in any selection of the printed lines change nothing for the reader
      (RFC 3261 section 7.3.3). */
  lemma CompactNamesEquivalent(first: string, second: string, third: string,
                               fields: seq<Field>, compact: seq<bool>, body: string)
    requires ' ' !in first && ' ' !in second && Unbroken(third)
    requires |body| < UINT_MAX && (forall f | f in fields :: Printable(f))
    requires |compact| == |PrintedFields(fields, |body|)|
    ensures var printed := PrintedFields(fields, |body|);
            Parse(MessageText(first, second, third, printed, compact, body)) ==
            Parse(MessageText(first, second, third, printed, Long(|printed|), body))
  {
    hide Parse, MessageText, PrintedFields;
    var printed := PrintedFields(fields, |body|);
    MessageRoundTrip(first, second, third, fields, compact, body, "");
    MessageRoundTrip(first, second, third, fields, Long(|compact|), body, "");
    MessageTextAlone(first, second, third, printed, compact, body);
    MessageTextAlone(first, second, third, printed, Long(|compact|), body);
  }

  // ---------- the characters of a message ----------

  /** The compact names of RFC 3261 section 7.3.3 that are known. */
  lemma CompactNames()
    ensures LongName('c') == Some("Content-Type") && LongName('f') == Some("From") && LongName('i') == Some("Call-ID")
    ensures LongName('k') == Some("Supported") && LongName('l') == Some("Content-Length")
    ensures LongName('m') == Some("Contact") && LongName('t') == Some("To") && LongName('v') == Some("Via")
    ensures forall c | c !in "cfiklmtv" :: LongName(c) == None
  {
  }

  /** The start lines, character by character. */
  lemma StartLines(r: Request, q: Response, body: string)
    ensures var fields := PrintedFields(r.fields, |body| % 0x1_0000_0000);
            PrintRequest(r, body) == r.command + " " + (r.uri + " " + ("SIP/2.0" + "\r\n"
                                     + HeaderText(fields, Long(|fields|), "\r\n" + body)))
    ensures var fields := PrintedFields(q.fields, |body| % 0x1_0000_0000);
            PrintResponse(q, body) == "SIP/2.0" + " " + (Decimal(q.statusCode) + " " + (q.reason + "\r\n"
                                      + HeaderText(fields, Long(|fields|), "\r\n" + body)))
  {
    hide HeaderText, PrintedFields, Decimal;
  }

  /** A header line in front of others, with its long or its compact name. */
  lemma HeaderLine(f: Field, fields: seq<Field>, compact: seq<bool>, rest: string)
    requires |compact| == |fields|
    ensures HeaderText([f] + fields, [false] + compact, rest)
            == f.key + ": " + f.value + "\r\n" + HeaderText(fields, compact, rest)
    ensures HeaderText([f] + fields, [true] + compact, rest)
            == (if CompactName(f.key).Some? then [CompactName(f.key).value] else f.key) + ": " + f.value + "\r\n"
               + HeaderText(fields, compact, rest)
  {
    hide CompactName;
    assert ([f] + fields)[1..] == fields;
    assert ([false] + compact)[1..] == compact && ([true] + compact)[1..] == compact;
  }

  /** A missing length is appended, and an existing one overwritten where it stands. */
  lemma LengthPrinted(fields: seq<Field>, n: nat, i: nat)
    requires i < |fields|
    ensures (forall f | f in fields :: f.key != "Content-Length") ==>
              PrintedFields(fields, n) == fields + [Field("Content-Length", Decimal(n))]
    ensures (exists f | f in fields :: f.key == "Content-Length") ==> |PrintedFields(fields, n)| == |fields|
    ensures PrintedFields(fields, n)[i]
            == if fields[i].key == "Content-Length" then Field("Content-Length", Decimal(n)) else fields[i]
  {
    hide Decimal;
    assert forall f | f in fields :: f.key != "Content-Length" ==> Sized(f, n) == f;
  }
  /** A negative length wraps to one that is larger than any text; -1 stands for no length. */
  lemma NegativeLength(front: seq<Field>, n: U32, back: seq<Field>)
    requires n > 0 && forall f | f in back :: f.key != "Content-Length"
    ensures ContentLength(front + [Field("Content-Length", "-" + Decimal(n))] + back) == 0x1_0000_0000 - n
  {
    hide Atoi, Decimal;
    LastLengthRead(front, "-" + Decimal(n), back);
    AtoiSigned(n, "");
    assert Decimal(n) + "" == Decimal(n);
  }
}
