/** Removing white space from the ends of texts, of characters as well as of bytes. */
module Trimming {
  /** The codes that `isspace` accepts. */
  predicate IsSpace(code: int) { code == 32 || 9 <= code <= 13 }

  function TrimFront<T>(s: seq<T>, space: T -> bool): seq<T> {
    if s != [] && space(s[0]) then TrimFront(s[1..], space) else s
  }

  function TrimBack<T>(s: seq<T>, space: T -> bool): seq<T> {
    if s != [] && space(s[|s| - 1]) then TrimBack(s[..|s| - 1], space) else s
  }

  predicate AllSpace<T>(s: seq<T>, space: T -> bool) { forall i | 0 <= i < |s| :: space(s[i]) }

  lemma {:induction false} TrimFrontEnds<T>(s: seq<T>, space: T -> bool) returns (a: seq<T>)
    ensures var r := TrimFront(s, space);
            && |r| <= |s| && (r == [] || (!space(r[0]) && r[|r| - 1] == s[|s| - 1]))
            && (r == s <==> s == [] || !space(s[0]))
            && s == a + r && AllSpace(a, space)
  {
    if s == [] || !space(s[0]) {
      a := [];
    } else {
      a := TrimFrontEnds(s[1..], space);
      assert s == [s[0]] + s[1..];
      a := [s[0]] + a;
    }
  }

  lemma {:induction false} TrimBackEnds<T>(s: seq<T>, space: T -> bool) returns (b: seq<T>)
    ensures var r := TrimBack(s, space);
            && |r| <= |s| && (r == [] || (!space(r[|r| - 1]) && r[0] == s[0]))
            && (r == s <==> s == [] || !space(s[|s| - 1]))
            && s == r + b && AllSpace(b, space)
  {
    if s == [] || !space(s[|s| - 1]) {
      b := [];
    } else {
      b := TrimBackEnds(s[..|s| - 1], space);
      assert s == s[..|s| - 1] + [s[|s| - 1]];
      b := b + [s[|s| - 1]];
    }
  }

  function Trim<T>(s: seq<T>, space: T -> bool): seq<T> {
    TrimBack(TrimFront(s, space), space)
  }

  predicate Trimmed<T>(s: seq<T>, space: T -> bool) {
    s == [] || (!space(s[0]) && !space(s[|s| - 1]))
  }

  /** White space is gone from both ends, and nothing else is. */
  lemma TrimEnds<T>(s: seq<T>, space: T -> bool) returns (a: seq<T>, b: seq<T>)
    ensures Trimmed(Trim(s, space), space) && (Trim(s, space) == s <==> Trimmed(s, space))
    ensures s == a + Trim(s, space) + b && AllSpace(a, space) && AllSpace(b, space)
  {
    hide TrimFront, TrimBack;
    a := TrimFrontEnds(s, space);
    b := TrimBackEnds(TrimFront(s, space), space);
  }

  lemma TrimLeading<T>(x: T, s: seq<T>, space: T -> bool)
    requires space(x)
    ensures Trim([x] + s, space) == Trim(s, space)
  {
    assert ([x] + s)[1..] == s;
  }

  lemma TrimTrailing<T>(s: seq<T>, x: T, space: T -> bool)
    requires Trimmed(s, space) && space(x)
    ensures Trim(s + [x], space) == s
  {
    var t := s + [x];
    assert t[..|t| - 1] == s && t[|t| - 1] == x;
    if s == [] {
      assert TrimFront(t, space) == TrimFront(t[1..], space) == [];
      assert TrimBack<T>([], space) == [];
    } else {
      assert TrimFront(t, space) == t && TrimBack(t, space) == TrimBack(s, space) == s;
    }
  }
}
