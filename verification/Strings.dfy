/** Splitting strings, and joining them. */
module Strings {
  import opened Common

  /** `d` is at position `i`. */
  predicate Matches(s: string, d: string, i: nat) {
    i + |d| <= |s| && s[i..i + |d|] == d
  }

  /** The first position of `d`. */
  function First(s: string, d: string): (r: Option<nat>)
    ensures r.Some? ==> Matches(s, d, r.value)
    ensures r.Some? ==> forall k :: 0 <= k < r.value ==> !Matches(s, d, k)
    ensures r.None? ==> forall k: nat :: !Matches(s, d, k)
  {
    if |s| < |d| then None
    else if |d| == 0 || s[..|d|] == d then Some(0)
    else
      var rest := First(s[1..], d);
      ShiftMatches(s, d);
      if rest.None? then None else Some(rest.value + 1)
  }

  lemma ShiftMatches(s: string, d: string)
    requires s != []
    ensures forall k: nat :: Matches(s[1..], d, k) <==> Matches(s, d, k + 1)
    ensures Matches(s, d, 0) <==> |d| <= |s| && s[..|d|] == d
    ensures forall k: nat :: k > 0 ==> (Matches(s, d, k) <==> Matches(s[1..], d, k - 1))
  {
    forall k: nat
      ensures Matches(s[1..], d, k) <==> Matches(s, d, k + 1)
    {
      if k + 1 + |d| <= |s| { assert s[1..][k..k + |d|] == s[k + 1..k + 1 + |d|]; }
    }
    forall k: nat | k > 0
      ensures Matches(s, d, k) <==> Matches(s[1..], d, k - 1)
    {
      if k + |d| <= |s| { assert s[1..][k - 1..k - 1 + |d|] == s[k..k + |d|]; }
    }
  }

  /** `find` from a position on. */
  method Find(s: string, d: string, start: nat) returns (r: Option<nat>)
    ensures r == if |s| <= start then None else match First(s[start..],
                                                            d) case None => None case Some(k) => Some(start + k)
  {
    if |s| <= start {
      return None;
    }
    var i := start;
    while i + |d| <= |s|
      invariant start <= i <= |s|
      invariant forall k: nat :: k < i - start ==> !Matches(s[start..], d, k)
      decreases |s| - i
    {
      assert s[start..][i - start..i - start + |d|] == s[i..i + |d|];
      if s[i..i + |d|] == d {
        FirstIs(s[start..], d, i - start);
        return Some(i);
      }
      i := i + 1;
    }
    return None;
  }

  lemma FirstIs(s: string, d: string, i: nat)
    requires Matches(s, d, i) && forall k: nat :: k < i ==> !Matches(s, d, k)
    ensures First(s, d) == Some(i)
  {
    var r := First(s, d);
    assert r.Some? && r.value <= i;
  }

  lemma NothingInEmpty(d: string)
    requires |d| > 0
    ensures First("", d) == None
  {
  }

  /** The pieces between the delimiters. */
  function Pieces(s: string, d: string): (r: seq<string>)
    requires |d| > 0
    ensures |r| > 0
    decreases |s|
  {
    match First(s, d)
    case None => [s]
    case Some(i) => [s[..i]] + Pieces(s[i + |d|..], d)
  }

  function NonEmpty(ps: seq<string>): seq<string> {
    if ps == [] then []
    else if ps[0] == "" then NonEmpty(ps[1..])
    else [ps[0]] + NonEmpty(ps[1..])
  }

  /** Empty pieces, and only these, are left out, wherever they are. */
  lemma {:induction false} NonEmptyMeans(ps: seq<string>, p: string, qs: seq<string>)
    ensures NonEmpty([]) == [] && NonEmpty(ps + [p] + qs) == NonEmpty(ps) + (if p == "" then [] else [p]) + NonEmpty(qs)
  {
    if ps == [] {
      assert ps + [p] + qs == [p] + qs && ([p] + qs)[1..] == qs;
    } else {
      NonEmptyMeans(ps[1..], p, qs);
      assert (ps + [p] + qs)[1..] == ps[1..] + [p] + qs;
    }
  }

  function Kept(ps: seq<string>, includeEmpty: bool): seq<string> {
    if includeEmpty then ps else NonEmpty(ps)
  }

  lemma KeptStep(p: string, rest: seq<string>, includeEmpty: bool)
    ensures Kept([p] + rest, includeEmpty) == (if includeEmpty || p != "" then [p] else []) + Kept(rest, includeEmpty)
  {
    assert ([p] + rest)[1..] == rest;
  }

  /** `split`. */
  method Split(s: string, d: string, includeEmpty: bool) returns (result: seq<string>)
    requires |d| > 0
    ensures result == Kept(Pieces(s, d), includeEmpty)
  {
    hide First, Kept;
    result := [];
    var lastOffset := 0;
    assert s[0..] == s;
    while lastOffset <= |s|
      invariant lastOffset <= |s|
      invariant result + Kept(Pieces(s[lastOffset..], d), includeEmpty) == Kept(Pieces(s, d), includeEmpty)
      decreases |s| - lastOffset
    {
      ghost var rest := s[lastOffset..];
      var newOffset := Find(s, d, lastOffset);
      NothingInEmpty(d);
      if newOffset.None? {
        var lastStr := if lastOffset < |s| then s[lastOffset..] else "";
        assert Pieces(rest, d) == [lastStr] + [];
        KeptStep(lastStr, [], includeEmpty);
        KeptNone(includeEmpty);
        if includeEmpty || lastStr != "" {
          result := result + [lastStr];
        }
        return;
      } else {
        var lastStr := s[lastOffset..newOffset.value];
        var k := newOffset.value - lastOffset;
        assert rest[..k] == lastStr && rest[k + |d|..] == s[newOffset.value + |d|..];
        KeptStep(lastStr, Pieces(rest[k + |d|..], d), includeEmpty);
        if includeEmpty || lastStr != "" {
          result := result + [lastStr];
        }
        lastOffset := newOffset.value + |d|;
      }
    }
  }

  lemma KeptNone(includeEmpty: bool)
    ensures Kept([], includeEmpty) == []
  {
  }

  /** Strings with a delimiter between them. */
  function Join(ps: seq<string>, d: string): string {
    if ps == [] then ""
    else if |ps| == 1 then ps[0]
    else ps[0] + d + Join(ps[1..], d)
  }

  /** With empty pieces kept, joining undoes splitting. */
  lemma {:induction false} JoinPieces(s: string, d: string)
    requires |d| > 0
    ensures Join(Pieces(s, d), d) == s
    decreases |s|
  {
    hide First;
    match First(s, d)
    case None =>
    case Some(i) =>
      var rest := Pieces(s[i + |d|..], d);
      JoinPieces(s[i + |d|..], d);
      assert ([s[..i]] + rest)[1..] == rest;
      assert s == s[..i] + d + s[i + |d|..];
  }

  /** A name: not empty, and without the delimiter. */
  predicate IsName(p: string) {
    p != "" && '.' !in p
  }

  predicate AreNames(ps: seq<string>) {
    forall i :: 0 <= i < |ps| ==> IsName(ps[i])
  }

  /** The names in a path. */
  function Names(path: string): seq<string> {
    NonEmpty(Pieces(path, "."))
  }

  lemma KeptNames(path: string)
    ensures Kept(Pieces(path, "."), false) == Names(path)
  {
  }

  lemma {:induction false} PiecesHaveNoDot(s: string)
    ensures forall i :: 0 <= i < |Pieces(s, ".")| ==> '.' !in Pieces(s, ".")[i]
    decreases |s|
  {
    hide First;
    match First(s, ".")
    case None =>
      NoDot(s);
    case Some(i) =>
      forall k: nat | k < i ensures !Matches(s[..i], ".", k) {
        assert !Matches(s, ".", k) && s[..i][k..k + 1] == s[k..k + 1];
      }
      NoDot(s[..i]);
      PiecesHaveNoDot(s[i + 1..]);
  }

  lemma NoDot(s: string)
    requires forall k: nat :: k < |s| ==> !Matches(s, ".", k)
    ensures '.' !in s
  {
    if '.' in s {
      var k :| 0 <= k < |s| && s[k] == '.';
      assert s[k..k + 1] == [s[k]];
      assert Matches(s, ".", k);
      assert false;
    }
  }

  lemma {:induction false} NonEmptyNames(ps: seq<string>)
    requires forall i :: 0 <= i < |ps| ==> '.' !in ps[i]
    ensures AreNames(NonEmpty(ps))
  {
    if ps != [] {
      NonEmptyNames(ps[1..]);
    }
  }

  lemma NamesAreNames(path: string)
    ensures AreNames(Names(path))
  {
    PiecesHaveNoDot(path);
    NonEmptyNames(Pieces(path, "."));
  }

  /** Splitting a joined path gives its names back. */
  lemma {:induction false} NamesOfJoin(ps: seq<string>)
    requires AreNames(ps)
    ensures Names(Join(ps, ".")) == ps
  {
    if ps == [] {
      assert Pieces("", ".") == [""];
    } else if |ps| == 1 {
      NoMatch(ps[0]);
      assert Pieces(ps[0], ".") == [ps[0]] + [];
      assert NonEmpty([ps[0]]) == [ps[0]] + NonEmpty([]);
    } else {
      var p, rest := ps[0], Join(ps[1..], ".");
      NamesOfJoin(ps[1..]);
      DotAfter(p, rest);
      var s := p + "." + rest;
      assert s[..|p|] == p && s[|p| + 1..] == rest;
      assert Pieces(s, ".") == [p] + Pieces(rest, ".");
      assert ([p] + Pieces(rest, "."))[1..] == Pieces(rest, ".");
      assert ps == [p] + ps[1..];
    }
  }

  lemma NoMatch(p: string)
    requires '.' !in p
    ensures First(p, ".") == None
  {
    forall k: nat ensures !Matches(p, ".", k) {
      if k + 1 <= |p| { assert p[k..k + 1][0] == p[k]; }
    }
    if First(p, ".").Some? {
      assert false;
    }
  }

  lemma DotAfter(p: string, rest: string)
    requires '.' !in p
    ensures First(p + "." + rest, ".") == Some(|p|)
  {
    var s := p + "." + rest;
    assert s[|p|..|p| + 1] == ".";
    forall k: nat | k < |p| ensures !Matches(s, ".", k) {
      assert s[k..k + 1][0] == p[k];
    }
    FirstIs(s, ".", |p|);
  }

  /** Joined paths determine their names. */
  lemma JoinInjective(ps: seq<string>, qs: seq<string>)
    requires AreNames(ps) && AreNames(qs) && Join(ps, ".") == Join(qs, ".")
    ensures ps == qs
  {
    NamesOfJoin(ps);
    NamesOfJoin(qs);
  }
}
