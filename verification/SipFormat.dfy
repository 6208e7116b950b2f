/** SIP messages as text (RFC 3261 section 7): what is printed, and what is read back. */
module SipFormat {
  import opened Words
  import opened Wrappers
  import opened Text

  const SIP_VERSION := "SIP/2.0"
  const CONTENT_LENGTH := "Content-Length"
  const UINT_MAX := 0xFFFF_FFFF

  datatype Field = Field(key: string, value: string)

  datatype Error = OutOfRange | UnknownCompactForm | BodyTooShort | InvalidVersion | InvalidUri
  datatype Result<+T> = Ok(value: T) | Err(error: Error)

  // ---------- compact names ----------

  function LongName(letter: char): Option<string> {
    match letter
    case 'c' => Some("Content-Type")
    case 'f' => Some("From")
    case 'i' => Some("Call-ID")
    case 'k' => Some("Supported")
    case 'l' => Some(CONTENT_LENGTH)
    case 'm' => Some("Contact")
    case 't' => Some("To")
    case 'v' => Some("Via")
    case _ => None
  }

  function CompactName(key: string): (letter: Option<char>)
    ensures letter.Some? ==> LongName(letter.value) == Some(key)
  {
    if key == "Content-Type" then Some('c')
    else if key == "From" then Some('f')
    else if key == "Call-ID" then Some('i')
    else if key == "Supported" then Some('k')
    else if key == CONTENT_LENGTH then Some('l')
    else if key == "Contact" then Some('m')
    else if key == "To" then Some('t')
    else if key == "Via" then Some('v')
    else None
  }

  lemma LongNamePlain(letter: char)
    requires LongName(letter).Some?
    ensures |LongName(letter).value| >= 2 && ':' !in LongName(letter).value
  {
  }

  // ---------- one field ----------

  function ParseField(line: string): Result<Field> {
    var delimiter := IndexOf(line, ':', 0);
    var value := Trim(if delimiter.None? then line else line[delimiter.value + 1..]);
    if delimiter == Some(1) then
      match LongName(line[0])
      case None => Err(UnknownCompactForm)
      case Some(key) => Ok(Field(key, value))
    else
      Ok(Field(Trim(UpTo(line, 0, delimiter)), value))
  }

  function FieldText(f: Field): string { f.key + ": " + f.value }

  lemma ParsePrinted(name: string, value: string)
    requires ':' !in name
    ensures ParseField(name + ": " + value) ==
            if |name| == 1 then
              match LongName(name[0]) case None => Err(UnknownCompactForm) case Some(key) => Ok(Field(key, Trim(value)))
            else Ok(Field(Trim(name), Trim(value)))
  {
    var line := name + ": " + value;
    IndexBehind(line, 0, name, ':');
    assert line[|name| + 1..] == " " + value && line[..|name|] == name;
    TrimSpaced(value);
  }

  /** A field survives printing and parsing exactly when its texts are trimmed and its key
      has no colon and not just one character. */
  lemma FieldRoundTrip(f: Field)
    ensures ParseField(FieldText(f)) == Ok(f)
            <==> Trimmed(f.key) && Trimmed(f.value) && ':' !in f.key && |f.key| != 1
  {
    if ':' !in f.key {
      ParsePrinted(f.key, f.value);
      TrimEnds(f.key);
      TrimEnds(f.value);
      if |f.key| == 1 && LongName(f.key[0]).Some? { LongNamePlain(f.key[0]); }
    } else {
      var line := FieldText(f);
      var d := IndexOf(line, ':', 0);
      assert f.key[0..] == f.key;
      IndexOfPrefix(f.key, line, ':', 0);
      assert line[..d.value] == f.key[..d.value];
      TrimEnds(f.key[..d.value]);
      if d == Some(1) && LongName(line[0]).Some? { LongNamePlain(line[0]); }
    }
  }

  // ---------- reading ----------

  /** The header lines from `at` on, up to an empty line or a line without an end,
      and where the empty line is, if there is one. */
  function RawLines(s: string, at: nat): (r: (seq<string>, Option<nat>))
    requires at <= |s|
    ensures r.1.Some? ==> at <= r.1.value && r.1.value + 2 <= |s|
    decreases |s| - at
  {
    if BreakAt(s, at) then ([], Some(at))
    else
      var end := LineEnd(s, at);
      if end.None? then ([], None)
      else
        var (lines, last) := RawLines(s, end.value + 2);
        ([s[at..end.value]] + lines, last)
  }

  /** The fields of all lines, or the first error. */
  function ParseAll(lines: seq<string>): Result<seq<Field>> {
    if lines == [] then Ok([]) else PrependField(ParseField(lines[0]), ParseAll(lines[1..]))
  }

  function PrependField(first: Result<Field>, rest: Result<seq<Field>>): Result<seq<Field>> {
    match first
    case Err(e) => Err(e)
    case Ok(f) =>
      match rest
      case Err(e) => Err(e)
      case Ok(fields) => Ok([f] + fields)
  }

  /** The value of the last length among the fields. */
  function LastLength(fields: seq<Field>): Option<string> {
    if fields == [] then None
    else
      var later := LastLength(fields[1..]);
      if later.None? && fields[0].key == CONTENT_LENGTH then Some(fields[0].value) else later
  }

  /** That value as a number; the largest one stands for none. */
  function ContentLength(fields: seq<Field>): U32 {
    var value := LastLength(fields);
    if value.None? then UINT_MAX else Atoi(value.value) % 0x1_0000_0000
  }

  datatype Message = Message(first: string, second: string, third: string, fields: seq<Field>, body: string)

  /** Behind a line break found; `npos + 2` is 1. */
  function BehindBreak(r: Option<nat>): nat { if r.Some? then r.value + 2 else 1 }

  function Parse(s: string): Result<Message> {
    var a := IndexOf(s, ' ', 0);
    var b := IndexOf(s, ' ', Behind(a));
    var c := LineEnd(s, Behind(b));
    if BehindBreak(c) > |s| then Err(OutOfRange)
    else
      match ParseRest(s, BehindBreak(c))
      case Err(e) => Err(e)
      case Ok((fields, body)) => Ok(Message(UpTo(s, 0, a), UpTo(s, Behind(a), b), UpTo(s, Behind(b), c), fields, body))
  }

  /** The header fields from `at` on and the body. */
  function ParseRest(s: string, at: nat): Result<(seq<Field>, string)>
    requires 1 <= at <= |s|
  {
    var (lines, end) := RawLines(s, at);
    match ParseAll(lines)
    case Err(e) => Err(e)
    case Ok(fields) =>
      match Body(s, BehindBreak(end), ContentLength(fields))
      case Err(e) => Err(e)
      case Ok(body) => Ok((fields, body))
  }

  function Body(s: string, start: nat, n: U32): Result<string>
    requires start <= |s|
  {
    if n == UINT_MAX || start == |s| then Ok("")
    else if n > |s| - start then Err(BodyTooShort)
    else Ok(s[start..start + n])
  }

  datatype Request = Request(command: string, uri: string, fields: seq<Field>)
  datatype Response = Response(statusCode: U32, reason: string, fields: seq<Field>)

  function ToRequest(r: Result<Message>): Result<(Request, string)> {
    match r
    case Err(e) => Err(e)
    case Ok(m) =>
      var uri := DecodeUri(m.second);
      if m.third != SIP_VERSION then Err(InvalidVersion)
      else if !StartsWith(uri, "sip:") || '@' !in uri then Err(InvalidUri)
      else Ok((Request(m.first, uri, m.fields), m.body))
  }

  function ToResponse(r: Result<Message>): Result<(Response, string)> {
    match r
    case Err(e) => Err(e)
    case Ok(m) =>
      if m.first != SIP_VERSION then Err(InvalidVersion)
      else Ok((Response(Atoi(m.second) % 0x1_0000_0000, m.third, m.fields), m.body))
  }

  // ---------- printing ----------

  function HasLength(fields: seq<Field>): bool {
    exists f | f in fields :: f.key == CONTENT_LENGTH
  }

  /** The field as printed: every length is set to the size of the body. */
  function Sized(f: Field, n: nat): Field {
    if f.key == CONTENT_LENGTH then Field(f.key, Decimal(n)) else f
  }

  function SizedAll(fields: seq<Field>, n: nat): (r: seq<Field>)
    ensures |r| == |fields|
  {
    seq(|fields|, i requires 0 <= i < |fields| => Sized(fields[i], n))
  }

  /** The fields as printed; a missing length is appended. */
  function PrintedFields(fields: seq<Field>, n: nat): seq<Field> {
    SizedAll(fields, n) + if HasLength(fields) then [] else [Field(CONTENT_LENGTH, Decimal(n))]
  }

  /** A header line, with the compact name if asked for and there is one. */
  function Line(f: Field, compact: bool): string {
    var letter := CompactName(f.key);
    (if compact && letter.Some? then [letter.value] else f.key) + ": " + f.value
  }

  /** Header lines in front of further text. */
  function HeaderText(fields: seq<Field>, compact: seq<bool>, rest: string): string
    requires |compact| == |fields|
  {
    if fields == [] then rest
    else Line(fields[0], compact[0]) + CRLF + HeaderText(fields[1..], compact[1..], rest)
  }

  lemma Shift(a: string, b: string, c: string)
    ensures (a + b) + c == a + (b + c)
  {
  }

  lemma {:induction false} HeaderTextRest(fields: seq<Field>, compact: seq<bool>, first: string, rest: string)
    requires |compact| == |fields|
    ensures HeaderText(fields, compact, first) + rest == HeaderText(fields, compact, first + rest)
    decreases |fields|
  {
    hide Line;
    if fields == [] {
    } else {
      HeaderTextRest(fields[1..], compact[1..], first, rest);
      Shift(Line(fields[0], compact[0]) + CRLF, HeaderText(fields[1..], compact[1..], first), rest);
    }
  }

  function Long(n: nat): seq<bool> { seq(n, _ => false) }

  /** A start line of three parts, the header lines, the empty line and the body. */
  function MessageText(first: string, second: string, third: string,
                       fields: seq<Field>, compact: seq<bool>, body: string): string
    requires |compact| == |fields|
  {
    first + " " + (second + " " + (third + CRLF + HeaderText(fields, compact, CRLF + body)))
  }

  /** The size of a body as an `unsigned int`. */
  function Size(body: string): U32 { |body| % 0x1_0000_0000 }

  function PrintRequest(r: Request, body: string): string {
    var fields := PrintedFields(r.fields, Size(body));
    MessageText(r.command, r.uri, SIP_VERSION, fields, Long(|fields|), body)
  }

  function PrintResponse(r: Response, body: string): string {
    var fields := PrintedFields(r.fields, Size(body));
    MessageText(SIP_VERSION, Decimal(r.statusCode), r.reason, fields, Long(|fields|), body)
  }

  // ---------- lines and messages of other shapes ----------

  /** A line without a colon is both key and value. */
  lemma FieldWithoutColon(line: string)
    requires ':' !in line
    ensures ParseField(line) == Ok(Field(Trim(line), Trim(line)))
  {
    hide Trim;
    IndexOfNone(line, ':', 0);
  }

  /** A message is taken for a request exactly if its third part is the version and its decoded URI names a user. */
  lemma RequestAccepted(m: Message)
    ensures ToRequest(Ok(m)) ==
            if m.third != "SIP/2.0" then Err(InvalidVersion)
            else if |DecodeUri(m.second)| < 4 || DecodeUri(m.second)[..4] != "sip:" || '@' !in DecodeUri(m.second)
            then Err(InvalidUri)
            else Ok((Request(m.first, DecodeUri(m.second), m.fields), m.body))
    ensures ToResponse(Ok(m)) ==
            if m.first != "SIP/2.0" then Err(InvalidVersion)
            else Ok((Response(Atoi(m.second) % 0x1_0000_0000, m.third, m.fields), m.body))
  {
    hide DecodeUri, Atoi;
  }

  /** Without a space the whole text stands for the first and for the second part, and the first line for the third. */
  lemma NoSpaces(s: string, c: nat)
    requires ' ' !in s && LineEnd(s, 0) == Some(c)
    ensures Parse(s) ==
            match ParseRest(s, c + 2)
            case Err(e) => Err(e)
            case Ok((fields, body)) => Ok(Message(s, s, s[..c], fields, body))
  {
    hide LineEnd, ParseRest;
    IndexOfNone(s, ' ', 0);
    assert s[0..] == s;
  }
}
