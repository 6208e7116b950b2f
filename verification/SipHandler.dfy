/** Reading and writing SIP messages, with the indices, the widths and the loops of the handler. */
module SipHandler {
  import opened Words
  import opened Wrappers
  import opened Text
  import opened SipFormat

  const NPOS := 0xFFFF_FFFF_FFFF_FFFF

  function Position(r: Option<nat>): nat {
    if r.Some? then r.value else NPOS
  }

  /** At most `n` characters from `pos` on. */
  function Substr(s: string, pos: nat, n: nat): string
    requires pos <= |s|
  {
    if n < |s| - pos then s[pos..pos + n] else s[pos..]
  }

  lemma SubstrUpTo(s: string, from: nat, end: Option<nat>)
    requires from <= |s| < NPOS - from && (end.Some? ==> from <= end.value <= |s|)
    ensures Substr(s, from, Position(end) - from) == UpTo(s, from, end)
  {
  }

  lemma AtBreak(s: string, at: nat)
    requires at <= |s|
    ensures Substr(s, at, 2) == CRLF <==> BreakAt(s, at)
  {
    if at + 2 <= |s| {
      assert s[at..at + 2] == [s[at], s[at + 1]];
    }
  }

  // ---------- the lines read so far ----------

  lemma {:induction false} ParseAppend(lines: seq<string>, fields: seq<Field>, line: string, rest: seq<string>)
    requires ParseAll(lines) == Ok(fields)
    ensures match ParseField(line)
            case Err(e) => ParseAll(lines + ([line] + rest)) == Err(e)
            case Ok(f) => ParseAll(lines + [line]) == Ok(fields + [f])
  {
    hide ParseField;
    if lines == [] {
      assert lines + ([line] + rest) == [line] + rest && ([line] + rest)[0] == line;
      assert lines + [line] == [line] && [line][1..] == [];
      if ParseField(line).Ok? {
        assert fields + [ParseField(line).value] == [ParseField(line).value] + [];
      }
    } else {
      var others := lines[1..];
      ParseAppend(others, fields[1..], line, rest);
      assert (lines + ([line] + rest))[0] == (lines + [line])[0] == lines[0];
      assert (lines + ([line] + rest))[1..] == lines[1..] + ([line] + rest);
      assert (lines + [line])[1..] == lines[1..] + [line];
      if ParseField(line).Ok? {
        var f := ParseField(line).value;
        assert fields + [f] == [fields[0]] + (fields[1..] + [f]);
      }
    }
  }

  lemma {:induction false} LastLengthOne(fields: seq<Field>, f: Field)
    ensures LastLength(fields + [f]) == if f.key == CONTENT_LENGTH then Some(f.value) else LastLength(fields)
  {
    if fields == [] {
      assert fields + [f] == [f] && [f][1..] == [];
    } else {
      LastLengthOne(fields[1..], f);
      assert (fields + [f])[1..] == fields[1..] + [f];
    }
  }

  lemma LengthUpdate(fields: seq<Field>, f: Field)
    ensures ContentLength(fields + [f]) ==
            if f.key == CONTENT_LENGTH then Atoi(f.value) % 0x1_0000_0000 else ContentLength(fields)
  {
    LastLengthOne(fields, f);
  }

  /** All lines from `at` on are those read, in front of those still to read from `index` on. */
  predicate ReadSoFar(s: string, at: nat, lines: seq<string>, index: nat)
    requires at <= |s| && index <= |s|
  {
    && RawLines(s, at).0 == lines + RawLines(s, index).0
    && RawLines(s, at).1 == RawLines(s, index).1
  }

  lemma ReadOne(s: string, at: nat, lines: seq<string>, index: nat, end: nat)
    requires at <= |s| && index <= |s| && ReadSoFar(s, at, lines, index)
    requires !BreakAt(s, index) && LineEnd(s, index) == Some(end)
    ensures ReadSoFar(s, at, lines + [s[index..end]], end + 2)
    ensures RawLines(s, at).0 == lines + ([s[index..end]] + RawLines(s, end + 2).0)
  {
    hide LineEnd;
    var line, rest := s[index..end], RawLines(s, end + 2).0;
    assert RawLines(s, index).0 == [line] + rest;
    assert lines + ([line] + rest) == (lines + [line]) + rest;
  }

  lemma RestFails(s: string, at: nat, e: Error)
    requires 1 <= at <= |s| && ParseAll(RawLines(s, at).0) == Err(e)
    ensures ParseRest(s, at) == Err(e)
  {
  }

  lemma RestEnds(s: string, at: nat, fields: seq<Field>, end: Option<nat>, body: Result<string>)
    requires 1 <= at <= |s| && ParseAll(RawLines(s, at).0) == Ok(fields) && RawLines(s, at).1 == end
    requires Body(s, BehindBreak(end), ContentLength(fields)) == body
    ensures ParseRest(s, at) == match body case Err(e) => Err(e) case Ok(b) => Ok((fields, b))
  {
  }

  method ReadBody(package: string, index: nat, contentLength: U32) returns (r: Result<string>)
    requires index <= |package|
    ensures r == Body(package, index, contentLength)
  {
    if contentLength != UINT_MAX && |package| - index != 0 {
      if contentLength > |package| - index {
        return Err(BodyTooShort);
      }
      assert contentLength == |package| - index ==> package[index..index + contentLength] == package[index..];
      return Ok(Substr(package, index, contentLength));
    }
    return Ok("");
  }

  /** The fields in front of the first line that is refused. */
  function FieldsBefore(lines: seq<string>): seq<Field> {
    if lines == [] || ParseField(lines[0]).Err? then []
    else [ParseField(lines[0]).value] + FieldsBefore(lines[1..])
  }

  lemma {:induction false} FieldsBeforeAll(lines: seq<string>)
    ensures ParseAll(lines).Ok? ==> FieldsBefore(lines) == ParseAll(lines).value
  {
    hide ParseField;
    if lines == [] {
    } else {
      FieldsBeforeAll(lines[1..]);
    }
  }

  lemma {:induction false} FieldsBeforeRefused(lines: seq<string>, line: string, rest: seq<string>)
    requires ParseAll(lines).Ok? && ParseField(line).Err?
    ensures FieldsBefore(lines + ([line] + rest)) == ParseAll(lines).value
  {
    hide ParseField;
    if lines == [] {
      assert lines + ([line] + rest) == [line] + rest && ([line] + rest)[0] == line;
    } else {
      FieldsBeforeRefused(lines[1..], line, rest);
      assert (lines + ([line] + rest))[0] == lines[0];
      assert (lines + ([line] + rest))[1..] == lines[1..] + ([line] + rest);
    }
  }

  /** The list of fields that a reader appends to. */
  class FieldList {
    var fields: seq<Field>

    constructor ()
      ensures fields == []
    {
      fields := [];
    }
  }

  /** The loop over the header lines from `start` on, then the body. The fields read in front of an error are kept. */
  method ReadRest(package: string, start: nat, header: FieldList) returns (r: Result<(seq<Field>, string)>)
    requires 1 <= start <= |package| <= UINT_MAX
    modifies header
    ensures r == ParseRest(package, start)
    ensures header.fields == old(header.fields) + FieldsBefore(RawLines(package, start).0)
  {
    hide RawLines, ParseAll, ParseRest, ParseField, ContentLength, LineEnd, ReadSoFar, Substr, Atoi, Body, FieldsBefore;
    var fields: seq<Field> := [];
    var contentLength: U32 := UINT_MAX;
    var index := start;
    ghost var lines: seq<string> := [];
    Nothing(package, start);
    AtBreak(package, index);
    assert header.fields + [] == header.fields;
    while Substr(package, index, 2) != CRLF
      invariant 1 <= index <= |package|
      invariant ReadSoFar(package, start, lines, index)
      invariant ParseAll(lines) == Ok(fields) && contentLength == ContentLength(fields)
      invariant header.fields == old(header.fields) + fields
      invariant Substr(package, index, 2) == CRLF <==> BreakAt(package, index)
      decreases |package| - index
    {
      var prevIndex := index;
      index := Position(LineEnd(package, prevIndex));
      if index == NPOS || index > |package| {
        LastLine(package, start, lines, prevIndex);
        break;
      }
      SubstrUpTo(package, prevIndex, Some(index));
      var line := Substr(package, prevIndex, index - prevIndex);
      ReadOne(package, start, lines, prevIndex, index);
      ParseAppend(lines, fields, line, RawLines(package, index + 2).0);
      var field := ParseField(line);
      if field.Err? {
        FieldsBeforeRefused(lines, line, RawLines(package, index + 2).0);
        RestFails(package, start, field.error);
        return Err(field.error);
      }
      LengthUpdate(fields, field.value);
      header.fields := header.fields + [field.value];
      fields := fields + [field.value];
      lines := lines + [line];
      index := index + 2;
      if field.value.key == CONTENT_LENGTH {
        contentLength := Atoi(field.value.value) % 0x1_0000_0000;
      }
      AtBreak(package, index);
    }
    ghost var end := if index == NPOS then None else Some(index);
    if end.Some? { EmptyLineFound(package, start, lines, index); }
    FieldsBeforeAll(lines);
    index := (index + 2) % (NPOS + 1);
    var body := ReadBody(package, index, contentLength);
    RestEnds(package, start, fields, end, body);
    return match body case Err(e) => Err(e) case Ok(b) => Ok((fields, b));
  }

  lemma Nothing(s: string, at: nat)
    requires at <= |s|
    ensures ReadSoFar(s, at, [], at) && ParseAll([]) == Ok([]) && ContentLength([]) == UINT_MAX
  {
    assert [] + RawLines(s, at).0 == RawLines(s, at).0;
  }

  lemma LastLine(s: string, at: nat, lines: seq<string>, index: nat)
    requires at <= |s| && index <= |s| && ReadSoFar(s, at, lines, index)
    requires !BreakAt(s, index) && LineEnd(s, index) == None
    ensures RawLines(s, at) == (lines, None)
  {
    hide LineEnd, BreakAt;
    assert lines + [] == lines;
  }

  lemma EmptyLineFound(s: string, at: nat, lines: seq<string>, index: nat)
    requires at <= |s| && index <= |s| && ReadSoFar(s, at, lines, index) && BreakAt(s, index)
    ensures RawLines(s, at) == (lines, Some(index))
  {
    hide LineEnd, BreakAt;
    assert lines + [] == lines;
  }

  lemma Skipped(r: Option<nat>)
    requires r.Some? ==> r.value < UINT_MAX
    ensures (Position(r) + 1) % 0x1_0000_0000 == Behind(r)
    ensures (Position(r) + 2) % (NPOS + 1) == BehindBreak(r)
  {
  }

  lemma Parsed(s: string, a: Option<nat>, b: Option<nat>, c: Option<nat>)
    requires a == IndexOf(s, ' ', 0) && b == IndexOf(s, ' ', Behind(a)) && c == LineEnd(s, Behind(b))
    ensures Parse(s) ==
            if BehindBreak(c) > |s| then Err(OutOfRange)
            else
              match ParseRest(s, BehindBreak(c))
              case Err(e) => Err(e)
              case Ok((fields, body)) =>
                Ok(Message(UpTo(s, 0, a), UpTo(s, Behind(a), b), UpTo(s, Behind(b), c), fields, body))
  {
    hide IndexOf, LineEnd, ParseRest;
  }

  /** The word up to the next space, and the index behind that space. */
  method ReadWord(package: string, prevIndex: nat) returns (word: string, next: nat)
    requires prevIndex <= |package| <= UINT_MAX
    ensures var end := IndexOf(package, ' ', prevIndex); word == UpTo(package, prevIndex, end) && next == Behind(end)
  {
    hide IndexOf, Substr, UpTo;
    var index := Position(IndexOf(package, ' ', prevIndex));
    SubstrUpTo(package, prevIndex, IndexOf(package, ' ', prevIndex));
    Skipped(IndexOf(package, ' ', prevIndex));
    word := Substr(package, prevIndex, index - prevIndex);
    next := (index + 1) % 0x1_0000_0000;
  }

  /** The three parts of the start line and the index behind it. */
  method ReadStartLine(package: string)
    returns (first: string, second: string, third: string, index: nat,
             ghost a: Option<nat>, ghost b: Option<nat>, ghost c: Option<nat>)
    requires |package| <= UINT_MAX
    ensures a == IndexOf(package, ' ', 0) && b == IndexOf(package, ' ', Behind(a)) && c == LineEnd(package, Behind(b))
    ensures first == UpTo(package, 0, a) && second == UpTo(package, Behind(a), b)
    ensures third == UpTo(package, Behind(b), c)
    ensures index == BehindBreak(c)
  {
    hide IndexOf, LineEnd, Substr, UpTo;
    var prevIndex;
    a := IndexOf(package, ' ', 0);
    first, prevIndex := ReadWord(package, 0);
    b := IndexOf(package, ' ', prevIndex);
    second, prevIndex := ReadWord(package, prevIndex);
    c := LineEnd(package, prevIndex);
    index := Position(LineEnd(package, prevIndex));
    SubstrUpTo(package, prevIndex, c);
    Skipped(c);
    third := Substr(package, prevIndex, index - prevIndex);
    index := (index + 2) % (NPOS + 1);
  }

  /** Where the header lines start. */
  function HeaderStart(s: string): nat {
    BehindBreak(LineEnd(s, Behind(IndexOf(s, ' ', Behind(IndexOf(s, ' ', 0))))))
  }

  /** The fields that are in the header after reading, whatever becomes of the package. */
  function Kept(s: string): seq<Field> {
    if HeaderStart(s) > |s| then [] else FieldsBefore(RawLines(s, HeaderStart(s)).0)
  }

  lemma KeptFields(s: string)
    ensures Parse(s).Ok? ==> Kept(s) == Parse(s).value.fields
  {
    hide IndexOf, LineEnd, RawLines, ParseAll, FieldsBefore, UpTo;
    if HeaderStart(s) <= |s| {
      FieldsBeforeAll(RawLines(s, HeaderStart(s)).0);
    }
  }

  /** A package taken apart: the three parts of its start line, its fields and its body. */
  method ReadPackage(package: string, header: FieldList) returns (r: Result<Message>)
    requires |package| <= UINT_MAX
    modifies header
    ensures r == Parse(package)
    ensures header.fields == old(header.fields) + Kept(package)
  {
    hide IndexOf, LineEnd, ParseRest, Parse, UpTo, RawLines, FieldsBefore;
    var first, second, third, index;
    ghost var a, b, c;
    first, second, third, index, a, b, c := ReadStartLine(package);
    Parsed(package, a, b, c);
    if index > |package| {
      assert header.fields + [] == header.fields;
      return Err(OutOfRange);
    }
    var rest := ReadRest(package, index, header);
    match rest
    case Err(e) => return Err(e);
    case Ok((fields, body)) => return Ok(Message(first, second, third, fields, body));
  }

  class RequestHeader {
    var command: string
    var uri: string
    const header: FieldList

    constructor ()
      ensures command == "" && uri == "" && header.fields == [] && fresh(header)
    {
      command, uri := "", "";
      header := new FieldList();
    }
  }

  /** Command and URI are set before the URI is looked at, and fields are appended as they are read. */
  method ReadRequestPackage(package: string, readHeader: RequestHeader) returns (r: Result<string>)
    requires |package| <= UINT_MAX
    modifies readHeader, readHeader.header
    ensures r == match ToRequest(Parse(package)) case Err(e) => Err(e) case Ok((_, body)) => Ok(body)
    ensures readHeader.header.fields == old(readHeader.header.fields) + Kept(package)
    ensures match Parse(package)
            case Ok(m) =>
              && Kept(package) == m.fields
              && (readHeader.command, readHeader.uri) ==
                 if m.third == SIP_VERSION then (m.first, DecodeUri(m.second))
                 else (old(readHeader.command), old(readHeader.uri))
            case Err(_) => (readHeader.command, readHeader.uri) == (old(readHeader.command), old(readHeader.uri))
  {
    hide Parse, Kept, DecodeUri, StartsWith;
    KeptFields(package);
    var results := ReadPackage(package, readHeader.header);
    if results.Err? {
      return Err(results.error);
    }
    var m := results.value;
    if m.third != SIP_VERSION {
      return Err(InvalidVersion);
    }
    readHeader.command := m.first;
    readHeader.uri := DecodeUri(m.second);
    if !StartsWith(readHeader.uri, "sip:") || '@' !in readHeader.uri {
      return Err(InvalidUri);
    }
    return Ok(m.body);
  }

  class ResponseHeader {
    var statusCode: U32
    var reasonPhrase: string
    const header: FieldList

    constructor ()
      ensures statusCode == 0 && reasonPhrase == "" && header.fields == [] && fresh(header)
    {
      statusCode, reasonPhrase := 0, "";
      header := new FieldList();
    }
  }

  method ReadResponsePackage(package: string, readHeader: ResponseHeader) returns (r: Result<string>)
    requires |package| <= UINT_MAX
    modifies readHeader, readHeader.header
    ensures r == match ToResponse(Parse(package)) case Err(e) => Err(e) case Ok((_, body)) => Ok(body)
    ensures readHeader.header.fields == old(readHeader.header.fields) + Kept(package)
    ensures match Parse(package)
            case Ok(m) =>
              && Kept(package) == m.fields
              && (readHeader.statusCode, readHeader.reasonPhrase) ==
                 if m.first == SIP_VERSION then (Atoi(m.second) % 0x1_0000_0000, m.third)
                 else (old(readHeader.statusCode), old(readHeader.reasonPhrase))
            case Err(_) =>
              (readHeader.statusCode, readHeader.reasonPhrase)
              == (old(readHeader.statusCode), old(readHeader.reasonPhrase))
  {
    hide Parse, Kept, Atoi;
    KeptFields(package);
    var results := ReadPackage(package, readHeader.header);
    if results.Err? {
      return Err(results.error);
    }
    var m := results.value;
    if m.first != SIP_VERSION {
      return Err(InvalidVersion);
    }
    readHeader.statusCode := Atoi(m.second) % 0x1_0000_0000;
    readHeader.reasonPhrase := m.third;
    return Ok(m.body);
  }

  // ---------- writing ----------

  class StringStream {
    var text: string

    constructor ()
      ensures text == ""
    {
      text := "";
    }

    method Write(s: string)
      modifies this
      ensures text == old(text) + s
    {
      text := text + s;
    }
  }

  lemma HeaderTextStep(all: seq<Field>, i: nat, rest: string)
    requires i < |all|
    ensures HeaderText(all[i..], Long(|all| - i), rest) ==
            all[i].key + ": " + all[i].value + CRLF + HeaderText(all[i + 1..], Long(|all| - i - 1), rest)
  {
    assert all[i..][1..] == all[i + 1..] && Long(|all| - i)[1..] == Long(|all| - i - 1);
  }

  /** The printed field `i` is the field itself, with the size of the content for a length. */
  lemma PrintedAt(fields: seq<Field>, n: nat, i: nat)
    requires i < |fields|
    ensures i < |PrintedFields(fields, n)| && PrintedFields(fields, n)[i] == Sized(fields[i], n)
  {
  }

  lemma PrintedEnd(fields: seq<Field>, n: nat)
    ensures |PrintedFields(fields, n)| == if HasLength(fields) then |fields| else |fields| + 1
    ensures !HasLength(fields) ==> PrintedFields(fields, n)[|fields|] == Field(CONTENT_LENGTH, Decimal(n))
  {
  }

  /** One of the lines still to write. */
  method WriteLine(stream: StringStream, field: Field, ghost all: seq<Field>, ghost i: nat)
    requires i < |all| && field == all[i]
    modifies stream
    ensures stream.text + HeaderText(all[i + 1..], Long(|all| - i - 1), CRLF)
            == old(stream.text) + HeaderText(all[i..], Long(|all| - i), CRLF)
  {
    hide HeaderText;
    HeaderTextStep(all, i, CRLF);
    ghost var tail := HeaderText(all[i + 1..], Long(|all| - i - 1), CRLF);
    var line := field.key + ": " + field.value + CRLF;
    stream.Write(line);
    assert old(stream.text) + (line + tail) == stream.text + tail;
  }

  /** Each field on its line, lengths set to the size of the content and appended if there is none,
      and an empty line. */
  method WriteHeaderFields(stream: StringStream, fields: seq<Field>, contentSize: U32)
    modifies stream
    ensures var printed := PrintedFields(fields, contentSize);
            stream.text == old(stream.text) + HeaderText(printed, Long(|printed|), CRLF)
  {
    hide HeaderText, PrintedFields, HasLength;
    var contentSizeSet := false;
    ghost var all := PrintedFields(fields, contentSize);
    ghost var total := stream.text + HeaderText(all, Long(|all|), CRLF);
    PrintedEnd(fields, contentSize);
    NoLength();
    assert all[0..] == all && fields[..0] == [];
    for i := 0 to |fields|
      invariant contentSizeSet == HasLength(fields[..i])
      invariant total == stream.text + HeaderText(all[i..], Long(|all| - i), CRLF)
    {
      var field := fields[i];
      assert fields[..i + 1] == fields[..i] + [field];
      HasLengthLast(fields[..i], field);
      PrintedAt(fields, contentSize, i);
      if field.key == CONTENT_LENGTH {
        contentSizeSet := true;
        field := Field(field.key, Decimal(contentSize));
      }
      WriteLine(stream, field, all, i);
    }
    assert fields[..|fields|] == fields;
    if !contentSizeSet {
      WriteLine(stream, Field(CONTENT_LENGTH, Decimal(contentSize)), all, |fields|);
    }
    HeaderTextEnd(all, CRLF);
    stream.Write(CRLF);
  }

  lemma NoLength()
    ensures !HasLength([])
  {
  }

  lemma HasLengthLast(fields: seq<Field>, f: Field)
    ensures HasLength(fields + [f]) <==> HasLength(fields) || f.key == CONTENT_LENGTH
  {
    assert f in fields + [f];
    if HasLength(fields) {
      var g :| g in fields && g.key == CONTENT_LENGTH;
      assert g in fields + [f];
    }
  }

  lemma HeaderTextEnd(all: seq<Field>, rest: string)
    ensures HeaderText(all[|all|..], Long(0), rest) == rest
  {
    assert all[|all|..] == [];
  }

  lemma Regroup(first: string, second: string, third: string, header: string, body: string)
    ensures (first + " " + second + " " + third + CRLF) + header + body
            == (first + " " + second + " " + third + CRLF) + (header + body)
  {
  }

  lemma Nest(first: string, second: string, third: string, rest: string)
    ensures (first + " " + second + " " + third + CRLF) + rest == first + " " + (second + " " + (third + CRLF + rest))
  {
    var line := third + CRLF + rest;
    assert (first + " " + second + " " + third + CRLF) + rest == (first + " " + second + " ") + line;
    assert (first + " " + second + " ") + line == first + " " + (second + " " + line);
  }

  lemma WrittenMessage(text: string, first: string, second: string, third: string,
                       fields: seq<Field>, compact: seq<bool>, body: string)
    requires |compact| == |fields|
    requires text == (first + " " + second + " " + third + CRLF) + HeaderText(fields, compact, CRLF)
    ensures text + body == MessageText(first, second, third, fields, compact, body)
  {
    hide HeaderText;
    HeaderTextRest(fields, compact, CRLF, body);
    Regroup(first, second, third, HeaderText(fields, compact, CRLF), body);
    Nest(first, second, third, HeaderText(fields, compact, CRLF + body));
  }

  method CreateRequestPackage(header: Request, body: string) returns (package: string)
    ensures package == PrintRequest(header, body)
  {
    var stream := new StringStream();
    stream.Write(header.command + " " + header.uri + " " + SIP_VERSION + CRLF);
    WriteHeaderFields(stream, header.fields, Size(body));
    ghost var fields := PrintedFields(header.fields, Size(body));
    WrittenMessage(stream.text, header.command, header.uri, SIP_VERSION, fields, Long(|fields|), body);
    stream.Write(body);
    return stream.text;
  }

  method CreateResponsePackage(header: Response, body: string) returns (package: string)
    ensures package == PrintResponse(header, body)
  {
    var stream := new StringStream();
    stream.Write(SIP_VERSION + " " + Decimal(header.statusCode) + " " + header.reason + CRLF);
    WriteHeaderFields(stream, header.fields, Size(body));
    ghost var fields := PrintedFields(header.fields, Size(body));
    WrittenMessage(stream.text, SIP_VERSION, Decimal(header.statusCode), header.reason, fields, Long(|fields|), body);
    stream.Write(body);
    return stream.text;
  }
}
