/** The session part of a description (RFC 4566 sections 5.1 to 5.9): what is read of it on the other side. */
module SdpSession {
  import opened Words
  import opened Wrappers
  import opened Text
  import opened SdpFormat
  import opened SdpRoundTrip
  import opened SdpOffer

  // ---------- reading ----------

  /** The value of the first field with a key, or nothing. */
  function FieldValue(fields: seq<SessionKey>, key: char): string {
    if fields == [] then ""
    else if fields[0].key == key then fields[0].value
    else FieldValue(fields[1..], key)
  }

  /** The last position of a character. */
  function LastIndexOf(s: string, c: char): (r: Option<nat>)
    ensures r.Some? ==> r.value < |s| && s[r.value] == c && c !in s[r.value + 1..]
    ensures r.None? <==> c !in s
  {
    if s == "" then None
    else
      var later := LastIndexOf(s[1..], c);
      if later.Some? then assert s[later.value + 2..] == s[1..][later.value + 1..]; Some(later.value + 1)
      else if s[0] == c then Some(0) else None
  }

  /** The host that media are sent to: what is behind the last space of the connection field. */
  function ConnectionAddress(fields: seq<SessionKey>): string {
    var connection := FieldValue(fields, 'c');
    connection[Behind(LastIndexOf(connection, ' '))..]
  }

  // ---------- the fields of a session ----------

  function Origin(s: Session): string {
    s.user + " " + Decimal(s.seconds) + " " + Decimal(s.seconds) + " IN " + s.addressType + " " + s.address
  }

  function Connection(s: Session): string { "IN " + s.addressType + " " + s.address }

  lemma OneKey(line: string, rest: seq<string>, key: char, value: string)
    requires line == [key] + "=" + value && key != '='
    ensures ParseKeys([line] + rest) == [SessionKey(key, Trim(value))] + ParseKeys(rest)
  {
    hide Trim;
    KeyOf(line, key, value);
    assert ([line] + rest)[1..] == rest;
  }

  /** The five fields in front of the media. */
  lemma SessionFields(s: Session, rest: seq<string>)
    ensures ParseKeys(SessionLines(s) + rest)
            == [SessionKey('v', Trim("0")), SessionKey('o', Trim(Origin(s))), SessionKey('s', Trim("-")),
                SessionKey('c', Trim(Connection(s))), SessionKey('t', Trim(Decimal(s.seconds) + " 0"))]
               + ParseKeys(rest)
  {
    hide ParseKeys, Decimal, Trim;
    var l := SessionLines(s);
    assert l[1] == "o" + "=" + Origin(s) && l[3] == "c" + "=" + Connection(s);
    assert l[4] == "t" + "=" + (Decimal(s.seconds) + " 0");
    OneKey(l[4], rest, 't', Decimal(s.seconds) + " 0");
    OneKey(l[3], [l[4]] + rest, 'c', Connection(s));
    OneKey(l[2], [l[3]] + ([l[4]] + rest), 's', "-");
    OneKey(l[1], [l[2]] + ([l[3]] + ([l[4]] + rest)), 'o', Origin(s));
    OneKey(l[0], [l[1]] + ([l[2]] + ([l[3]] + ([l[4]] + rest))), 'v', "0");
    assert l + rest == [l[0]] + ([l[1]] + ([l[2]] + ([l[3]] + ([l[4]] + rest))));
  }

  lemma {:induction false} FirstWithKey(fields: seq<SessionKey>, i: nat)
    requires i < |fields| && forall j | 0 <= j < i :: fields[j].key != fields[i].key
    ensures FieldValue(fields, fields[i].key) == fields[i].value
    decreases i
  {
    if i == 0 {
    } else {
      assert fields[0].key != fields[i].key;
      FirstWithKey(fields[1..], i - 1);
    }
  }

  lemma FiveValues(f: seq<SessionKey>, rest: seq<SessionKey>)
    requires |f| == 5 && (f[0].key, f[1].key, f[2].key, f[3].key, f[4].key) == ('v', 'o', 's', 'c', 't')
    ensures FieldValue(f + rest, 'v') == f[0].value && FieldValue(f + rest, 'o') == f[1].value
    ensures FieldValue(f + rest, 's') == f[2].value && FieldValue(f + rest, 'c') == f[3].value
    ensures FieldValue(f + rest, 't') == f[4].value
  {
    hide FieldValue;
    FirstWithKey(f + rest, 0);
    FirstWithKey(f + rest, 1);
    FirstWithKey(f + rest, 2);
    FirstWithKey(f + rest, 3);
    FirstWithKey(f + rest, 4);
  }

  /** The values read of every offer, whatever media and attributes follow. */
  lemma ValuesRead(s: Session, port: U16, offered: seq<Format>, crypto: Option<Crypto>)
    requires PlainSession(s) && Plain(offered) && (crypto.Some? ==> PlainCrypto(crypto.value))
    ensures var fields := ReadDescription(JoinLines(Lines(s, port, offered, crypto)));
            && FieldValue(fields, 'v') == Trim("0") && FieldValue(fields, 'o') == Trim(Origin(s))
            && FieldValue(fields, 's') == Trim("-") && FieldValue(fields, 'c') == Trim(Connection(s))
            && FieldValue(fields, 't') == Trim(Decimal(s.seconds) + " 0")
  {
    hide JoinLines, SplitLines, ParseKeys, Unbroken, Plain, FormatAttributes, Types, Trim, Decimal, FieldValue,
         MediaLine, AttributeLines, CryptoText, LineValues, MediaFields, Others;
    var lines := Lines(s, port, offered, crypto);
    LinesRead(s, port, offered, crypto);
    assert JoinLines(lines)[0..] == JoinLines(lines);
    SplitJoined(JoinLines(lines), 0, lines);
    var rest := lines[5..];
    assert lines == SessionLines(s) + rest;
    SessionFields(s, rest);
    hide SessionLines, Lines;
    var five := [SessionKey('v', Trim("0")), SessionKey('o', Trim(Origin(s))), SessionKey('s', Trim("-")),
                 SessionKey('c', Trim(Connection(s))), SessionKey('t', Trim(Decimal(s.seconds) + " 0"))];
    FiveValues(five, ParseKeys(rest));
  }

  // ---------- the words of a field ----------

  lemma FirstWord(word: string, rest: string)
    requires ' ' !in word
    ensures Split(word + " " + rest, ' ') == [word] + Split(rest, ' ')
  {
    var s := word + " " + rest;
    assert s[0..] == s;
    NextSpace(s, 0, word, rest);
    assert s[..|word|] == word;
  }

  lemma LastWord(word: string)
    requires ' ' !in word && word != ""
    ensures Split(word, ' ') == [word]
  {
    IndexOfNone(word, ' ', 0);
  }

  /** A name and an address as they are in a description: one word each, with no white space at the outer end. */
  predicate PlainWords(s: Session) {
    && ' ' !in s.user && ' ' !in s.addressType && ' ' !in s.address
    && s.user != "" && !IsBlank(s.user[0]) && s.address != "" && !IsBlank(s.address[|s.address| - 1])
  }

  lemma OriginWords(s: Session)
    requires PlainWords(s)
    ensures Trim(Origin(s)) == Origin(s)
    ensures Split(Origin(s), ' ')
            == [s.user, Decimal(s.seconds), Decimal(s.seconds), "IN", s.addressType, s.address]
  {
    hide Decimal, Split, Trim;
    var d := Decimal(s.seconds);
    DigitsOnly(s.seconds);
    LastWord(s.address);
    FirstWord(s.addressType, s.address);
    var place := s.addressType + " " + s.address;
    FirstWord("IN", place);
    FirstWord(d, "IN" + " " + place);
    FirstWord(d, d + " " + ("IN" + " " + place));
    FirstWord(s.user, d + " " + (d + " " + ("IN" + " " + place)));
    assert Origin(s) == s.user + " " + (d + " " + (d + " " + ("IN" + " " + place)));
    TrimEnds(Origin(s));
  }

  lemma ConnectionWords(s: Session)
    requires PlainWords(s)
    ensures Trim(Connection(s)) == Connection(s)
    ensures Split(Connection(s), ' ') == ["IN", s.addressType, s.address]
  {
    hide Split, Trim;
    LastWord(s.address);
    FirstWord(s.addressType, s.address);
    FirstWord("IN", s.addressType + " " + s.address);
    assert Connection(s) == "IN" + " " + (s.addressType + " " + s.address);
    TrimEnds(Connection(s));
  }

  lemma TimeWords(n: nat)
    ensures Trim(Decimal(n) + " 0") == Decimal(n) + " 0"
    ensures Split(Decimal(n) + " 0", ' ') == [Decimal(n), "0"]
  {
    hide Decimal, Split, Trim;
    DecimalPlain(n);
    LastWord("0");
    FirstWord(Decimal(n), "0");
    assert Decimal(n) + " 0" == Decimal(n) + " " + "0";
    assert Decimal(n)[0] in Decimal(n);
    TrimEnds(Decimal(n) + " 0");
  }

  lemma ShortValues()
    ensures Trim("0") == "0" && Trim("-") == "-"
  {
    TrimEnds("0");
    TrimEnds("-");
  }

  /** Version, origin, name, connection and time of every offer are read back word by word. */
  lemma SessionReadBack(s: Session, port: U16, offered: seq<Format>, crypto: Option<Crypto>)
    requires PlainSession(s) && PlainWords(s) && Plain(offered) && (crypto.Some? ==> PlainCrypto(crypto.value))
    ensures var fields := ReadDescription(JoinLines(Lines(s, port, offered, crypto)));
            && FieldValue(fields, 'v') == "0" && FieldValue(fields, 's') == "-"
            && Split(FieldValue(fields, 'o'), ' ')
               == [s.user, Decimal(s.seconds), Decimal(s.seconds), "IN", s.addressType, s.address]
            && Split(FieldValue(fields, 'c'), ' ') == ["IN", s.addressType, s.address]
            && Split(FieldValue(fields, 't'), ' ') == [Decimal(s.seconds), "0"]
  {
    hide ReadDescription, JoinLines, Lines, FieldValue, Split, Trim, Decimal, Plain;
    ValuesRead(s, port, offered, crypto);
    ShortValues();
    OriginWords(s);
    ConnectionWords(s);
    TimeWords(s.seconds);
  }

  // ---------- the address of the other side ----------

  lemma BehindLastSpace(s: string)
    ensures ' ' !in s[Behind(LastIndexOf(s, ' '))..]
  {
    assert s[0..] == s;
  }

  lemma LastStep(s: string, c: char)
    requires s != ""
    ensures var later := LastIndexOf(s[1..], c);
            LastIndexOf(s, c) == if later.Some? then Some(later.value + 1) else if s[0] == c then Some(0) else None
  {
  }

  lemma {:induction false} LastSpaceAt(a: string, b: string)
    requires ' ' !in b
    ensures LastIndexOf(a + " " + b, ' ') == Some(|a|)
  {
    hide LastIndexOf;
    var s := a + " " + b;
    LastStep(s, ' ');
    if a == "" {
      assert s[1..] == b;
    } else {
      LastSpaceAt(a[1..], b);
      assert s[1..] == a[1..] + " " + b;
    }
  }

  /** The text behind the last space of a connection field is the address exactly if this is one word that does not
      end in white space. */
  lemma AddressFound(s: Session, connection: string)
    requires connection == Trim(Connection(s))
    ensures connection[Behind(LastIndexOf(connection, ' '))..] == s.address
            <==> s.address != "" && ' ' !in s.address && !IsBlank(s.address[|s.address| - 1])
  {
    hide Trim, LastIndexOf, IsBlank;
    var text, found := Connection(s), connection[Behind(LastIndexOf(connection, ' '))..];
    BehindLastSpace(connection);
    TrimEnds(text);
    assert !IsBlank('I') by { NoBlank(); }
    TrimStarts(text);
    if s.address != "" && ' ' !in s.address && !IsBlank(s.address[|s.address| - 1]) {
      assert text == ("IN " + s.addressType) + " " + s.address && text[|text| - 1] == s.address[|s.address| - 1];
      LastSpaceAt("IN " + s.addressType, s.address);
    } else {
      NotBlankBehind(connection);
    }
  }

  lemma NoBlank()
    ensures !IsBlank('I') && IsBlank(' ')
  {
  }

  lemma NotBlankBehind(s: string)
    requires s != "" && Trimmed(s)
    ensures var found := s[Behind(LastIndexOf(s, ' '))..]; found != "" && !IsBlank(found[|found| - 1])
  {
    hide LastIndexOf;
    var r := LastIndexOf(s, ' ');
    assert r.Some? ==> s[r.value] == ' ';
  }

  /** The other side takes the local address for the host to send to, for every offer, exactly if the address
      is one word that does not end in white space. */
  lemma AddressReadBack(s: Session, port: U16, offered: seq<Format>, crypto: Option<Crypto>)
    requires PlainSession(s) && Plain(offered) && (crypto.Some? ==> PlainCrypto(crypto.value))
    ensures ConnectionAddress(ReadDescription(JoinLines(Lines(s, port, offered, crypto)))) == s.address
            <==> s.address != "" && ' ' !in s.address && !IsBlank(s.address[|s.address| - 1])
  {
    hide ReadDescription, JoinLines, Lines, FieldValue, Trim, Decimal, Plain, LastIndexOf, IsBlank;
    ValuesRead(s, port, offered, crypto);
    AddressFound(s, FieldValue(ReadDescription(JoinLines(Lines(s, port, offered, crypto))), 'c'));
  }

  // ---------- the characters of an offer ----------

  /** The lines of every offer; with a cryptographic context there are two more. */
  lemma OfferLines(s: Session, port: U16, offered: seq<Format>, crypto: Option<Crypto>)
    ensures var types := TypeList(Types(offered));
            Lines(s, port, offered, crypto)
            == ["v=0",
                "o=" + s.user + " " + Decimal(s.seconds) + " " + Decimal(s.seconds) + " IN " + s.addressType + " "
                + s.address,
                "s=-", "c=IN " + s.addressType + " " + s.address, "t=" + Decimal(s.seconds) + " 0",
                "m=audio " + Decimal(port) + " " + "RTP/AVP" + " " + types, "a=tool:OHMComm/v0.9"]
               + (AttributeLines(FormatAttributes(offered))
                  + match crypto
                    case None => []
                    case Some(c) => ["m=audio " + Decimal(port) + " " + "RTP/SAVP" + " " + types,
                                     "a=" + ("crypto:1 " + c.suite + " inline:" + c.inlineKey + " ")])
  {
    hide TypeList, Types, Decimal, FormatAttributes;
    OneAttribute(TOOL, FormatAttributes(offered));
    hide AttributeLines;
    assert "a=" + TOOL == "a=tool:OHMComm/v0.9";
  }

  /** The attributes of an offered format. */
  lemma FormatLines(f: Format, rest: seq<Format>)
    ensures AttributeLines(FormatAttributes([f] + rest))
            == ["a=" + ("rtpmap:" + Decimal(f.payloadType) + " " + f.encoding + "/" + Decimal(f.sampleRate) + "/"
                        + Decimal(f.numChannels))]
               + ((if f.parameters == "" then [] else ["a=" + ("fmtp:" + Decimal(f.payloadType) + " " + f.parameters)])
                  + AttributeLines(FormatAttributes(rest)))
  {
    hide Decimal;
    assert ([f] + rest)[1..] == rest;
    var attributes := FormatAttributes(rest);
    assert FormatAttributes([f] + rest)
           == [MapText(f)] + ((if f.parameters != "" then [ParameterText(f)] else []) + attributes);
    hide FormatAttributes;
    OneAttribute(ParameterText(f), attributes);
    if f.parameters == "" {
      assert [] + attributes == attributes && [] + AttributeLines(attributes) == AttributeLines(attributes);
      OneAttribute(MapText(f), attributes);
    } else {
      OneAttribute(MapText(f), [ParameterText(f)] + attributes);
    }
  }

  lemma OneAttribute(a: string, rest: seq<string>)
    ensures AttributeLines([a] + rest) == ["a=" + a] + AttributeLines(rest)
  {
    assert ([a] + rest)[1..] == rest;
  }
}
