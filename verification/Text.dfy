/** Strings as the text protocols use them: searching, trimming, decimal numbers, URI escapes. */
module Text {
  import opened Bits
  import Trimming
  import opened Wrappers

  // ---------- searching ----------

  /** The first position of a character from `from` on. */
  function IndexOf(s: string, c: char, from: nat): (r: Option<nat>)
    ensures r.Some? ==> from <= r.value < |s| && s[r.value] == c
    decreases |s| - from
  {
    if from >= |s| then None else if s[from] == c then Some(from) else IndexOf(s, c, from + 1)
  }

  lemma {:induction false} IndexOfFirst(s: string, from: nat, i: nat)
    requires from <= i < |s| && forall j | from <= j < i :: s[j] != s[i]
    ensures IndexOf(s, s[i], from) == Some(i)
    decreases i - from
  {
    if from >= i {
    } else {
      IndexOfFirst(s, from + 1, i);
    }
  }

  lemma {:induction false} IndexOfNone(s: string, c: char, from: nat)
    requires forall j | from <= j < |s| :: s[j] != c
    ensures IndexOf(s, c, from) == None
    decreases |s| - from
  {
    if from >= |s| {
    } else {
      IndexOfNone(s, c, from + 1);
    }
  }

  lemma {:induction false} IndexOfPrefix(s: string, t: string, c: char, from: nat)
    requires s <= t && from <= |s| && c in s[from..]
    ensures IndexOf(s, c, from).Some? && IndexOf(t, c, from) == IndexOf(s, c, from)
    decreases |s| - from
  {
    if s[from] == c {
    } else {
      IndexOfPrefix(s, t, c, from + 1);
    }
  }

  /** The end of a word in front of a separator. */
  lemma IndexBehind(s: string, from: nat, word: string, c: char)
    requires from + |word| < |s| && s[from..from + |word|] == word && s[from + |word|] == c && c !in word
    ensures IndexOf(s, c, from) == Some(from + |word|)
  {
    forall j | from <= j < from + |word| ensures s[j] != c {
      assert s[j] == s[from..from + |word|][j - from];
    }
    IndexOfFirst(s, from, from + |word|);
  }

  const CRLF := "\r\n"

  predicate BreakAt(s: string, i: nat) {
    i + 2 <= |s| && s[i] == '\r' && s[i + 1] == '\n'
  }

  /** No line break in it. */
  predicate Unbroken(s: string) {
    forall i | 0 <= i < |s| :: !BreakAt(s, i)
  }

  /** The first line break from `from` on. */
  function LineEnd(s: string, from: nat): (r: Option<nat>)
    ensures r.Some? ==> from <= r.value && BreakAt(s, r.value)
    decreases |s| - from
  {
    if from + 2 > |s| then None else if BreakAt(s, from) then Some(from) else LineEnd(s, from + 1)
  }

  lemma {:induction false} LineEndFirst(s: string, from: nat, i: nat)
    requires from <= i && BreakAt(s, i) && forall j | from <= j < i :: !BreakAt(s, j)
    ensures LineEnd(s, from) == Some(i)
    decreases i - from
  {
    if from >= i {
    } else {
      LineEndFirst(s, from + 1, i);
    }
  }

  /** The end of a line without a break in front of a break. */
  lemma LineEndBehind(s: string, from: nat, line: string)
    requires from + |line| <= |s| && s[from..from + |line|] == line && Unbroken(line) && BreakAt(s, from + |line|)
    ensures LineEnd(s, from) == Some(from + |line|)
  {
    forall j | from <= j < from + |line| ensures !BreakAt(s, j) {
      var i := j - from;
      assert !BreakAt(line, i);
      assert s[j] == line[i] && (i + 1 < |line| ==> s[j + 1] == line[i + 1]);
    }
    LineEndFirst(s, from, from + |line|);
  }

  /** The part from `from` to the position found, or to the end. */
  function UpTo(s: string, from: nat, end: Option<nat>): string
    requires from <= |s| && (end.Some? ==> from <= end.value <= |s|)
  {
    if end.Some? then s[from..end.value] else s[from..]
  }

  /** Behind a position found; `npos + 1` is 0. */
  function Behind(r: Option<nat>): nat { if r.Some? then r.value + 1 else 0 }

  function StartsWith(s: string, prefix: string): bool {
    |prefix| <= |s| && s[..|prefix|] == prefix
  }

  // ---------- texts within a text ----------

  lemma Suffix(s: string, at: nat, a: string, b: string, c: string)
    requires at <= |s| && s[at..] == a + b + c
    ensures at + |a| + |b| <= |s|
    ensures s[at..at + |a|] == a && s[at + |a|..at + |a| + |b|] == b && s[at + |a| + |b|..] == c
  {
    assert s[at..at + |a|] == s[at..][..|a|];
    assert s[at + |a|..at + |a| + |b|] == s[at..][|a|..|a| + |b|];
    assert s[at + |a| + |b|..] == s[at..][|a| + |b|..];
  }

  lemma AfterPart(s: string, at: nat, a: string, b: string)
    requires at <= |s| && s[at..] == a + b
    ensures at + |a| <= |s| && s[at + |a|..] == b
  {
    assert s[at + |a|..] == s[at..][|a|..];
  }

  lemma NextSpace(s: string, at: nat, word: string, rest: string)
    requires at <= |s| && s[at..] == word + " " + rest && ' ' !in word
    ensures at + |word| < |s| && IndexOf(s, ' ', at) == Some(at + |word|)
    ensures s[at..at + |word|] == word && s[at + |word| + 1..] == rest
  {
    Suffix(s, at, word, " ", rest);
    assert s[at + |word|] == s[at + |word|..at + |word| + 1][0];
    IndexBehind(s, at, word, ' ');
  }

  lemma NextBreak(s: string, at: nat, line: string, rest: string)
    requires at <= |s| && s[at..] == line + CRLF + rest && Unbroken(line)
    ensures at + |line| + 2 <= |s| && LineEnd(s, at) == Some(at + |line|)
    ensures s[at..at + |line|] == line && s[at + |line| + 2..] == rest
  {
    Suffix(s, at, line, CRLF, rest);
    var end := at + |line|;
    assert s[end] == s[end..end + 2][0] && s[end + 1] == s[end..end + 2][1];
    LineEndBehind(s, at, line);
  }

  // ---------- trimming ----------

  predicate IsBlank(c: char) { Trimming.IsSpace(c as int) }

  /** Space, tabulators, line feed, form feed and carriage return. */
  lemma BlankCharacters(c: char)
    ensures IsBlank(c) <==> c == ' ' || c == '\t' || c == '\n' || c as int == 11 || c as int == 12 || c == '\r'
  {
  }

  predicate Trimmed(s: string) { Trimming.Trimmed(s, IsBlank) }

  function Trim(s: string): string { Trimming.Trim(s, IsBlank) }

  /** White space is gone from both ends. */
  lemma TrimEnds(s: string)
    ensures |Trim(s)| <= |s| && Trimmed(Trim(s)) && (Trim(s) == s <==> Trimmed(s))
  {
    var a, b := Trimming.TrimEnds(s, IsBlank);
  }

  /** Nothing but white space is removed. */
  lemma TrimRemoves(s: string) returns (a: string, b: string)
    ensures s == a + Trim(s) + b && (forall c | c in a :: IsBlank(c)) && (forall c | c in b :: IsBlank(c))
  {
    a, b := Trimming.TrimEnds(s, IsBlank);
  }

  lemma TrimSpaced(s: string)
    ensures Trim(" " + s) == Trim(s)
  {
    Trimming.TrimLeading(' ', s, IsBlank);
  }

  lemma TrimTrailing(s: string)
    requires Trimmed(s)
    ensures Trim(s + " ") == s
  {
    Trimming.TrimTrailing(s, ' ', IsBlank);
  }

  // ---------- decimal numbers ----------

  predicate IsDigit(c: char) { '0' <= c <= '9' }

  function Digit(d: nat): char
    requires d < 10
  {
    '0' + d as char
  }

  function Decimal(n: nat): (r: string)
    ensures r != "" && forall c | c in r :: IsDigit(c)
  {
    if n < 10 then [Digit(n)] else Decimal(n / 10) + [Digit(n % 10)]
  }

  /** The number made of the leading digits, after those of `n`. */
  function Digits(n: nat, s: string): nat
    decreases |s|
  {
    if s != "" && IsDigit(s[0]) then Digits(10 * n + (s[0] - '0') as nat, s[1..]) else n
  }

  /** `atoi`, without its overflow. */
  function Atoi(s: string): int {
    var t := Trimming.TrimFront(s, IsBlank);
    if t != "" && t[0] == '-' then -(Digits(0, t[1..]) as int)
    else if t != "" && t[0] == '+' then Digits(0, t[1..])
    else Digits(0, t)
  }

  lemma {:induction false} DigitsAppend(n: nat, s: string, t: string)
    requires forall c | c in s :: IsDigit(c)
    ensures Digits(n, s + t) == Digits(Digits(n, s), t)
    decreases |s|
  {
    if s == "" {
      assert s + t == t;
    } else {
      assert s[0] in s;
      assert (s + t)[1..] == s[1..] + t;
      DigitsAppend(10 * n + (s[0] - '0') as nat, s[1..], t);
    }
  }

  lemma {:induction false} DigitsDecimal(n: nat, t: string)
    requires t == "" || !IsDigit(t[0])
    ensures Digits(0, Decimal(n) + t) == n
  {
    var last := [Digit(n % 10)];
    assert (last + t)[1..] == t;
    if n < 10 {
    } else {
      DigitsDecimal(n / 10, "");
      assert Decimal(n / 10) + "" == Decimal(n / 10);
      DigitsAppend(0, Decimal(n / 10), last + t);
      assert Decimal(n) + t == Decimal(n / 10) + (last + t);
    }
  }

  /** A printed number is read back, whatever follows it. */
  lemma AtoiDecimal(n: nat, t: string)
    requires t == "" || !IsDigit(t[0])
    ensures Atoi(Decimal(n) + t) == n
  {
    DigitsDecimal(n, t);
    var s := Decimal(n) + t;
    assert s[0] == Decimal(n)[0] && s[0] in Decimal(n);
  }

  lemma SignRead(s: string, sign: char)
    requires sign == '-' || sign == '+'
    ensures Atoi([sign] + s) == if sign == '-' then 0 - Digits(0, s) else Digits(0, s)
  {
    hide Digits;
    var signed := [sign] + s;
    assert Trimming.TrimFront(signed, IsBlank) == signed && signed[1..] == s;
  }

  /** White space in front is skipped, and then one sign counts; without a digit behind it the number is zero. */
  lemma AtoiSigned(n: nat, t: string)
    requires t == "" || !IsDigit(t[0])
    ensures Atoi(" " + (Decimal(n) + t)) == n
    ensures Atoi("-" + (Decimal(n) + t)) == 0 - n && Atoi("+" + (Decimal(n) + t)) == n
    ensures Atoi("-" + t) == 0 && Atoi("+" + t) == 0
    ensures (t == "" || (!IsBlank(t[0]) && t[0] != '-' && t[0] != '+')) ==> Atoi(t) == 0
  {
    hide Decimal, Digits;
    var s := Decimal(n) + t;
    DigitsDecimal(n, t);
    NoDigits(t);
    assert s[0] == Decimal(n)[0] && s[0] in Decimal(n);
    assert (" " + s)[1..] == s && "-" == ['-'] && "+" == ['+'];
    assert Trimming.TrimFront(s, IsBlank) == s && Trimming.TrimFront(" " + s, IsBlank) == s;
    assert "-" + s == ['-'] + s && "+" + s == ['+'] + s && "-" + t == ['-'] + t && "+" + t == ['+'] + t;
    SignRead(s, '-');
    SignRead(s, '+');
    SignRead(t, '-');
    SignRead(t, '+');
  }

  lemma NoDigits(t: string)
    requires t == "" || !IsDigit(t[0])
    ensures Digits(0, t) == 0
  {
  }

  lemma AtoiDecimalAlone(n: nat)
    ensures Atoi(Decimal(n)) == n
  {
    AtoiDecimal(n, "");
    assert Decimal(n) + "" == Decimal(n);
  }

  lemma DecimalPlain(n: nat)
    ensures Trimmed(Decimal(n)) && ' ' !in Decimal(n) && ':' !in Decimal(n) && Unbroken(Decimal(n))
  {
    var s := Decimal(n);
    assert s[0] in s && s[|s| - 1] in s;
    forall i | 0 <= i < |s| ensures !BreakAt(s, i) {
      assert s[i] in s;
    }
  }

  // ---------- URI escapes ----------

  function HexValue(c: char): int {
    if IsDigit(c) then (c - '0') as int
    else (if 'A' <= c <= 'Z' then c as int + 32 else c as int) - 'a' as int + 10
  }

  /** Two characters of an escape in one byte; other characters than hexadecimal digits are not refused. */
  function Escaped(high: char, low: char): char {
    (BitOr(HexValue(high) % 16 * 16, HexValue(low) % 0x100) % 0x100) as char
  }

  /** Works on C strings: a NUL ends the input. An escape that is cut short is dropped. */
  function DecodeUri(s: string): (r: string)
    ensures |r| <= |s|
  {
    if s == "" || s[0] == '\0' then ""
    else if s[0] == '%' then
      if |s| >= 3 && s[1] != '\0' && s[2] != '\0' then [Escaped(s[1], s[2])] + DecodeUri(s[3..])
      else DecodeUri(s[1..])
    else [if s[0] == '+' then ' ' else s[0]] + DecodeUri(s[1..])
  }

  /** Decoding changes exactly the URIs with an escape, a plus sign or a NUL in them. */
  lemma {:induction false} DecodeUnchanged(s: string)
    ensures DecodeUri(s) == s <==> '%' !in s && '+' !in s && '\0' !in s
  {
    if s == "" {
    } else {
      DecodeUnchanged(s[1..]);
      assert s == [s[0]] + s[1..];
    }
  }
}
