/** The parameters of a format: printed in one line and read back. */
module SdpParameters {
  import opened Wrappers
  import opened Text
  import opened SdpFormat
  import opened SdpRoundTrip

  function PairText(p: Parameter): string { p.key + "=" + p.value }

  function ParametersText(ps: seq<Parameter>): string {
    if ps == [] then ""
    else if |ps| == 1 then PairText(ps[0])
    else PairText(ps[0]) + ("; " + ParametersText(ps[1..]))
  }

  /** A parameter that can be told apart in its line. */
  predicate PlainParameter(p: Parameter) {
    Trimmed(p.key) && '=' !in p.key && ';' !in p.key && Trimmed(p.value) && ';' !in p.value
  }

  predicate PlainParameters(ps: seq<Parameter>) {
    ps == [] || (PlainParameter(ps[0]) && PlainParameters(ps[1..]))
  }

  predicate NoneLike(ps: seq<Parameter>, key: string) {
    ps == [] || (!EqualsIgnoreCase(ps[0].key, key) && NoneLike(ps[1..], key))
  }

  /** No key twice, in any case. */
  predicate DistinctKeys(before: seq<Parameter>, ps: seq<Parameter>)
    decreases |ps|
  {
    ps == [] || (NoneLike(before, ps[0].key) && DistinctKeys(before + [ps[0]], ps[1..]))
  }

  lemma {:induction false} SetNew(ps: seq<Parameter>, key: string, value: string)
    requires NoneLike(ps, key)
    ensures SetParameter(ps, key, value) == ps + [Parameter(key, value)]
  {
    hide EqualsIgnoreCase;
    if ps == [] {
    } else {
      SetNew(ps[1..], key, value);
      assert ps == [ps[0]] + ps[1..];
    }
  }

  /** A pair is read the same with the space in front of it. */
  lemma PairRead(p: Parameter, lead: string)
    requires PlainParameter(p) && (lead == "" || lead == " ")
    ensures ParsePair(lead + PairText(p)) == p
  {
    hide Trim, Trimmed;
    var text, name := lead + PairText(p), lead + p.key;
    assert text == name + "=" + p.value;
    IndexBehind(text, 0, name, '=');
    assert text[..|name|] == name && text[|name| + 1..] == p.value;
    TrimEnds(p.key);
    TrimEnds(p.value);
    if lead == "" {
      assert name == p.key;
    } else {
      TrimSpaced(p.key);
    }
  }

  lemma NextSemicolon(s: string, at: nat, word: string, rest: string)
    requires at <= |s| && s[at..] == word + (";" + rest) && ';' !in word
    ensures at + |word| < |s| && IndexOf(s, ';', at) == Some(at + |word|)
    ensures s[at..at + |word|] == word && s[at + |word| + 1..] == rest
  {
    assert s[at..] == word + ";" + rest;
    Suffix(s, at, word, ";", rest);
    assert s[at + |word|] == s[at + |word|..at + |word| + 1][0];
    IndexBehind(s, at, word, ';');
  }

  lemma NoSemicolon(s: string, at: nat, word: string)
    requires at <= |s| && s[at..] == word && ';' !in word
    ensures IndexOf(s, ';', at) == None
  {
    forall j | at <= j < |s| ensures s[j] != ';' {
      assert s[j] == s[at..][j - at];
    }
    IndexOfNone(s, ';', at);
  }

  lemma Regrouped(lead: string, pair: string, rest: string)
    ensures lead + (pair + ("; " + rest)) == (lead + pair) + (";" + (" " + rest))
  {
    assert "; " == ";" + " ";
  }

  lemma LastPair(text: string, at: nat, word: string, p: Parameter, before: seq<Parameter>)
    requires at <= |text| && text[at..] == word && ';' !in word && ParsePair(word) == p && NoneLike(before, p.key)
    ensures ReadParameters(text, at, before) == before + [p]
  {
    hide IndexOf, ParsePair, SetParameter, NoneLike;
    NoSemicolon(text, at, word);
    SetNew(before, p.key, p.value);
  }

  lemma InnerPair(text: string, at: nat, word: string, rest: string, p: Parameter, before: seq<Parameter>)
    requires at <= |text| && text[at..] == word + (";" + rest) && ';' !in word
    requires ParsePair(word) == p && NoneLike(before, p.key)
    ensures var next := at + |word| + 1;
            && next <= |text| && text[next..] == rest
            && ReadParameters(text, at, before) == ReadParameters(text, next, before + [p])
  {
    hide IndexOf, ParsePair, SetParameter, NoneLike;
    NextSemicolon(text, at, word, rest);
    SetNew(before, p.key, p.value);
  }

  /** The last pair of a line, or one in front of others. */
  lemma PairStep(text: string, at: nat, lead: string, before: seq<Parameter>, ps: seq<Parameter>)
    requires ps != [] && PlainParameter(ps[0]) && NoneLike(before, ps[0].key) && (lead == "" || lead == " ")
    requires at <= |text| && text[at..] == lead + ParametersText(ps)
    ensures var next, after := at + |lead + PairText(ps[0])| + 1, before + [ps[0]];
            if |ps| == 1 then ReadParameters(text, at, before) == after
            else
              && next <= |text| && text[next..] == " " + ParametersText(ps[1..])
              && ReadParameters(text, at, before) == ReadParameters(text, next, after)
  {
    hide ReadParameters, ParsePair, PlainParameter, NoneLike, PairText;
    var word := lead + PairText(ps[0]);
    PairRead(ps[0], lead);
    WordPlain(ps[0], lead);
    if |ps| == 1 {
      LastPair(text, at, word, ps[0], before);
    } else {
      var rest := ParametersText(ps[1..]);
      Regrouped(lead, PairText(ps[0]), rest);
      assert ParametersText(ps) == PairText(ps[0]) + ("; " + rest);
      hide ParametersText;
      InnerPair(text, at, word, " " + rest, ps[0], before);
    }
  }

  lemma {:induction false} ParametersFrom(text: string, at: nat, lead: string, before: seq<Parameter>,
                                          ps: seq<Parameter>)
    requires ps != [] && PlainParameters(ps) && DistinctKeys(before, ps) && (lead == "" || lead == " ")
    requires at <= |text| && text[at..] == lead + ParametersText(ps)
    ensures ReadParameters(text, at, before) == before + ps
    decreases |ps|
  {
    hide ReadParameters, ParametersText, PlainParameter, NoneLike, PairText;
    var p, rest := ps[0], ps[1..];
    PairStep(text, at, lead, before, ps);
    if rest == [] {
      assert ps == [p];
    } else {
      ParametersFrom(text, at + |lead + PairText(p)| + 1, " ", before + [p], rest);
      assert before + [p] + rest == before + ps;
    }
  }

  lemma WordPlain(p: Parameter, lead: string)
    requires PlainParameter(p) && (lead == "" || lead == " ")
    ensures ';' !in lead + PairText(p)
  {
  }

  /** Parameters of distinct keys are read back from their line, in order. */
  lemma ParametersRoundTrip(ps: seq<Parameter>)
    requires ps != [] && PlainParameters(ps) && DistinctKeys([], ps)
    ensures ParameterList(ParametersText(ps)) == ps
  {
    var text := ParametersText(ps);
    assert text[0..] == text == "" + text;
    ParametersFrom(text, 0, "", [], ps);
    assert [] + ps == ps;
  }

  /** The line that Opus is registered with. */
  lemma OpusParameters()
    ensures ParameterList("usedtx=1; useinbandfec=0") == [Parameter("usedtx", "1"), Parameter("useinbandfec", "0")]
  {
    var p, q := Parameter("usedtx", "1"), Parameter("useinbandfec", "0");
    OpusText(p, q);
    OpusPlain(p, q);
    hide ParametersText, PairText, ParameterList, PlainParameters, DistinctKeys;
    ParametersRoundTrip([p, q]);
  }

  lemma OpusPlain(p: Parameter, q: Parameter)
    requires p == Parameter("usedtx", "1") && q == Parameter("useinbandfec", "0")
    ensures PlainParameters([p, q]) && DistinctKeys([], [p, q])
  {
    assert [p, q][1..] == [q] && [q][1..] == [] && [] + [p] == [p] && [p][1..] == [];
    assert PlainParameter(p) && PlainParameter(q);
    hide PlainParameter;
    assert PlainParameters([p, q][1..]);
    assert !EqualsIgnoreCase(p.key, q.key);
    assert NoneLike([p], q.key) && DistinctKeys([p], [q]);
  }

  lemma OpusText(p: Parameter, q: Parameter)
    requires p == Parameter("usedtx", "1") && q == Parameter("useinbandfec", "0")
    ensures ParametersText([p, q]) == "usedtx=1; useinbandfec=0"
  {
    assert [p, q][1..] == [q];
    assert PairText(q) == "useinbandfec=0" && PairText(p) == "usedtx=1";
    hide PairText;
    assert ParametersText([p, q]) == PairText(p) + ("; " + PairText(q));
  }
}
