/** The wildcard matcher of LIB/str.c, against a declarative reading of patterns. */
module MetaMatch {
  import opened EfiBase

  const STAR: Char16 := 0x2A
  const QUESTION: Char16 := 0x3F
  const OPEN: Char16 := 0x5B
  const CLOSE: Char16 := 0x5D
  const DASH: Char16 := 0x2D

  datatype Token = Star | Any | Set(body: Text) | Literal(c: Char16)

  /** Position of the first `]` at or after `i`, or the length when there is none. */
  function FindClose(p: Text, i: nat): (e: nat)
    requires i <= |p|
    ensures i <= e <= |p| && (e < |p| ==> p[e] == CLOSE)
    ensures forall k :: i <= k < e ==> p[k] != CLOSE
    decreases |p| - i
  {
    if i == |p| || p[i] == CLOSE then i else FindClose(p, i + 1)
  }

  /** The tokens of a pattern from position `i`; `None` when a set is not closed. */
  function Tokens(p: Text, i: nat): Option<seq<Token>>
    requires i <= |p|
    decreases |p| - i
  {
    if i == |p| then Some([])
    else if p[i] == OPEN then
      var e := FindClose(p, i + 1);
      if e == |p| then None else Prepend(Set(p[i + 1..e]), Tokens(p, e + 1))
    else
      var t := if p[i] == STAR then Star else if p[i] == QUESTION then Any else Literal(p[i]);
      Prepend(t, Tokens(p, i + 1))
  }

  function Prepend(t: Token, rest: Option<seq<Token>>): Option<seq<Token>> {
    if rest.None? then None else Some([t] + rest.value)
  }

  /** The member `c` of a set that its position `i` accounts for: a character other than `-` stands for
      itself; a `-` for the range from the character before it (from 0 when it comes first) to the one
      after it, and for that upper end in any case. */
  predicate SetRule(body: Text, i: nat, c: Char16)
    requires i < |body|
  {
    if body[i] != DASH then body[i] == c
    else
      && i + 1 < |body|
      && (c == body[i + 1] || ((i == 0 || body[i - 1] <= c) && c <= body[i + 1]))
  }

  ghost predicate InSet(body: Text, c: Char16) {
    exists i :: 0 <= i < |body| && SetRule(body, i, c)
  }

  /** The texts one token stands for. */
  ghost predicate TokenMatches(t: Token, piece: Text) {
    match t
    case Star => true
    case Any => |piece| == 1
    case Set(body) => |piece| == 1 && InSet(body, piece[0])
    case Literal(c) => piece == [c]
  }

  function Concat(pieces: seq<Text>): Text {
    if pieces == [] then [] else pieces[0] + Concat(pieces[1..])
  }

  /** `s` is cut into one piece per token, each matching its token. */
  ghost predicate CutInto(ts: seq<Token>, s: Text, pieces: seq<Text>) {
    && |pieces| == |ts|
    && Concat(pieces) == s
    && forall i :: 0 <= i < |ts| ==> TokenMatches(ts[i], pieces[i])
  }

  /** The same relation token by token: a star matches when some suffix matches the rest. */
  ghost predicate Matches(ts: seq<Token>, s: Text) {
    if ts == [] then s == []
    else if ts[0].Star? then exists k :: 0 <= k <= |s| && Matches(ts[1..], s[k..])
    else |s| > 0 && TokenMatches(ts[0], s[..1]) && Matches(ts[1..], s[1..])
  }

  lemma {:induction false} MatchesCut(ts: seq<Token>, s: Text) returns (pieces: seq<Text>)
    requires Matches(ts, s)
    ensures CutInto(ts, s, pieces)
  {
    if ts == [] {
      return [];
    }
    var k := 1;
    if ts[0].Star? {
      k :| 0 <= k <= |s| && Matches(ts[1..], s[k..]);
    }
    var rest := MatchesCut(ts[1..], s[k..]);
    pieces := [s[..k]] + rest;
    assert pieces[1..] == rest && s == s[..k] + s[k..];
  }

  lemma {:induction false} CutMatches(ts: seq<Token>, s: Text, pieces: seq<Text>)
    requires CutInto(ts, s, pieces)
    ensures Matches(ts, s)
  {
    if ts != [] {
      var k := |pieces[0]|;
      assert s == pieces[0] + Concat(pieces[1..]);
      assert s[..k] == pieces[0] && s[k..] == Concat(pieces[1..]);
      assert TokenMatches(ts[0], pieces[0]);
      CutMatches(ts[1..], s[k..], pieces[1..]);
    }
  }

  /** Reading the tokens one by one decides whether the text can be cut to fit them. */
  lemma MatchIffCut(ts: seq<Token>, s: Text)
    ensures Matches(ts, s) <==> exists pieces :: CutInto(ts, s, pieces)
  {
    if Matches(ts, s) {
      var pieces := MatchesCut(ts, s);
    }
    if pieces :| CutInto(ts, s, pieces) {
      CutMatches(ts, s, pieces);
    }
  }

  // ----- The matcher

  /** The set part of MetaMatch: the set whose body starts at `start`, against the character `c`. */
  method ScanSet(pattern: Text, start: nat, c: Char16) returns (matched: bool, next: nat)
    requires NulFree(pattern) && start <= |pattern| && FindClose(pattern, start) < |pattern|
    ensures matched <==> InSet(pattern[start..FindClose(pattern, start)], c)
    ensures matched ==> next == FindClose(pattern, start) + 1
  {
    ghost var e := FindClose(pattern, start);
    ghost var body := pattern[start..e];
    next := start;
    var l: Char16 := 0;
    var p: Char16 := 0;
    while true
      invariant start <= next <= e
      invariant forall i :: 0 <= i < next - start ==> !SetRule(body, i, c)
      invariant next == start ==> l == 0
      invariant next > start && body[next - start - 1] != DASH ==> l == body[next - start - 1]
      invariant next > start && body[next - start - 1] == DASH ==> next < e && l == body[next - start]
      decreases e - next
    {
      ghost var i := next - start;
      p := At(pattern, next);
      next := next + 1;
      if p == CLOSE {
        return false, next;
      }
      assert p == body[i];
      if p == DASH {
        p := At(pattern, next);
        if p == 0 || p == CLOSE {
          assert next == e;
          return false, next;
        }
        assert p == body[i + 1];
        if l <= c && c <= p {
          assert SetRule(body, i, c);
          break;
        }
      }
      l := p;
      if c == p {
        assert SetRule(body, i, c);
        break;
      }
    }
    while p != 0 && p != CLOSE
      invariant start <= next <= e + 1
      invariant p != 0
      invariant p == CLOSE ==> next == e + 1
      invariant p != CLOSE ==> next <= e
      decreases e + 1 - next, if p == CLOSE then 0 else 1
    {
      p := At(pattern, next);
      next := next + 1;
    }
    matched := true;
  }

  /** What the tokens at position `i` say, by the character there. */
  lemma TokensAt(p: Text, i: nat)
    requires i <= |p| && Tokens(p, i).Some?
    ensures i == |p| ==> Tokens(p, i).value == []
    ensures i < |p| ==> Tokens(p, i).value != []
    ensures i < |p| && p[i] != OPEN ==>
              && Tokens(p, i + 1).Some?
              && Tokens(p, i).value[0] ==
                 (if p[i] == STAR then Star else if p[i] == QUESTION then Any else Literal(p[i]))
              && Tokens(p, i).value[1..] == Tokens(p, i + 1).value
    ensures i < |p| && p[i] == OPEN ==>
              var e := FindClose(p, i + 1);
              && e < |p| && Tokens(p, e + 1).Some?
              && Tokens(p, i).value[0] == Set(p[i + 1..e])
              && Tokens(p, i).value[1..] == Tokens(p, e + 1).value
  {}

  lemma EndMatches(str: Text, s: nat)
    requires s <= |str|
    ensures Matches([], str[s..]) <==> s == |str|
  {}

  lemma OneMatches(ts: seq<Token>, str: Text, s: nat)
    requires ts != [] && !ts[0].Star? && s <= |str|
    ensures Matches(ts, str[s..]) <==>
            s < |str| && TokenMatches(ts[0], [str[s]]) && Matches(ts[1..], str[s + 1..])
  {}

  lemma StarMatches(ts: seq<Token>, str: Text, from: nat)
    requires ts != [] && ts[0].Star? && from <= |str|
    ensures Matches(ts, str[from..]) <==> exists k :: from <= k <= |str| && Matches(ts[1..], str[k..])
  {
    if Matches(ts, str[from..]) {
      var k :| 0 <= k <= |str[from..]| && Matches(ts[1..], str[from..][k..]);
      assert str[from..][k..] == str[from + k..];
    }
    if k :| from <= k <= |str| && Matches(ts[1..], str[k..]) {
      assert str[from..][k - from..] == str[k..];
    }
  }

  /** Whether `str` from position `s0` matches `pattern` from position `p0`. */
  method MetaMatch(str: Text, pattern: Text, s0: nat, p0: nat) returns (r: bool)
    requires NulFree(str) && NulFree(pattern)
    requires s0 <= |str| && p0 <= |pattern| && Tokens(pattern, p0).Some?
    ensures r <==> Matches(Tokens(pattern, p0).value, str[s0..])
    decreases |pattern| - p0
  {
    hide Tokens, Matches, FindClose;
    var s, q := s0, p0;
    ghost var answer := Matches(Tokens(pattern, p0).value, str[s0..]);
    while true
      invariant 0 <= s <= |str| && p0 <= q <= |pattern| && Tokens(pattern, q).Some?
      invariant answer <==> Matches(Tokens(pattern, q).value, str[s..])
      decreases |pattern| - q
    {
      ghost var ts := Tokens(pattern, q).value;
      TokensAt(pattern, q);
      var p := At(pattern, q);
      q := q + 1;
      if p == 0 {
        EndMatches(str, s);
        return At(str, s) == 0;
      } else if p == STAR {
        StarMatches(ts, str, s);
        ghost var from := s;
        while At(str, s) != 0
          invariant from <= s <= |str|
          invariant forall k :: from <= k < s ==> !Matches(ts[1..], str[k..])
          decreases |str| - s
        {
          r := MetaMatch(str, pattern, s, q);
          if r {
            return true;
          }
          s := s + 1;
        }
        r := MetaMatch(str, pattern, s, q);
        return;
      }
      OneMatches(ts, str, s);
      if p == QUESTION {
        if At(str, s) == 0 {
          return false;
        }
        s := s + 1;
      } else if p == OPEN {
        var c := At(str, s);
        if c == 0 {
          return false;
        }
        var matched, next := ScanSet(pattern, q, c);
        if !matched {
          return false;
        }
        q := next;
        s := s + 1;
      } else {
        if At(str, s) != p {
          return false;
        }
        s := s + 1;
      }
    }
  }

  // ----- Patterns by their characters

  /** The pattern is well formed and matches the text. */
  ghost predicate Fits(pattern: Text, s: Text) {
    Tokens(pattern, 0).Some? && Matches(Tokens(pattern, 0).value, s)
  }

  lemma {:induction false} FindCloseAfter(a: Text, p: Text, i: nat)
    requires i <= |p|
    ensures FindClose(a + p, |a| + i) == |a| + FindClose(p, i)
    decreases |p| - i
  {
    if i < |p| {
      assert (a + p)[|a| + i] == p[i];
      FindCloseAfter(a, p, i + 1);
    }
  }

  /** The tokens of the rest of a pattern do not depend on what is before it. */
  lemma {:induction false} TokensAfter(a: Text, p: Text, i: nat)
    requires i <= |p|
    ensures Tokens(a + p, |a| + i) == Tokens(p, i)
    decreases |p| - i
  {
    hide FindClose;
    if i < |p| {
      assert (a + p)[|a| + i] == p[i];
      FindCloseAfter(a, p, i + 1);
      var e := FindClose(p, i + 1);
      if p[i] == OPEN {
        assert (a + p)[|a| + i + 1..|a| + e] == p[i + 1..e];
        if e < |p| {
          TokensAfter(a, p, e + 1);
        }
      } else {
        TokensAfter(a, p, i + 1);
      }
    }
  }

  /** The empty pattern matches the empty text, `*` anything before a match, `?` one character and an ordinary
      character itself. */
  lemma PatternCharacters(c: Char16, p: Text, s: Text)
    ensures Fits([], s) <==> s == []
    ensures c == 0x2A ==> (Fits([c] + p, s) <==> exists k :: 0 <= k <= |s| && Fits(p, s[k..]))
    ensures c == 0x3F ==> (Fits([c] + p, s) <==> s != [] && Fits(p, s[1..]))
    ensures c !in [0x2A, 0x3F, 0x5B] ==> (Fits([c] + p, s) <==> s != [] && s[0] == c && Fits(p, s[1..]))
  {
    TokensAfter([c], p, 0);
    var q := [c] + p;
    assert q[0] == c;
    if c != 0x5B && Tokens(p, 0).Some? {
      var ts := Tokens(q, 0).value;
      assert ts[1..] == Tokens(p, 0).value;
      if c != 0x2A {
        OneMatches(ts, s, 0);
        assert s[0..] == s;
      }
    }
  }

  /** A set, closed by the first `]`, matches one of its members. */
  lemma PatternSet(body: Text, p: Text, s: Text)
    requires 0x5D !in body
    ensures Fits([0x5B] + body + [0x5D] + p, s) <==> s != [] && InSet(body, s[0]) && Fits(p, s[1..])
  {
    hide FindClose, InSet, Matches;
    var a := [0x5B] + body + [0x5D];
    var q := a + p;
    var e := FindClose(q, 1);
    assert q[0] == 0x5B && q[1 + |body|] == 0x5D && q[1..1 + |body|] == body;
    assert forall k :: 1 <= k < 1 + |body| ==> q[k] == body[k - 1];
    assert e == 1 + |body|;
    TokensAfter(a, p, 0);
    if Tokens(p, 0).Some? {
      var ts := Tokens(q, 0).value;
      assert ts[0] == Set(body) && ts[1..] == Tokens(p, 0).value;
      OneMatches(ts, s, 0);
      assert s[0..] == s;
    }
  }

  /** Without a `-` a set has the characters that are in it. */
  lemma SetPlain(body: Text, c: Char16)
    requires 0x2D !in body
    ensures InSet(body, c) <==> c in body
  {
    if c in body {
      var i :| 0 <= i < |body| && body[i] == c;
      assert SetRule(body, i, c);
    }
  }

  /** Wherever a range stands in a set, all characters between its ends are in the set. */
  lemma SetRange(pre: Text, lo: Char16, hi: Char16, post: Text, c: Char16)
    requires lo <= c <= hi
    ensures InSet(pre + [lo, 0x2D, hi] + post, c)
  {
    var body, i := pre + [lo, 0x2D, hi] + post, |pre| + 1;
    assert body[i] == 0x2D && body[i - 1] == lo && body[i + 1] == hi;
    assert SetRule(body, i, c);
  }

  /** The set of a single range: the range and, whatever their order, its two ends. */
  lemma OneRange(lo: Char16, hi: Char16, c: Char16)
    requires lo != 0x2D && hi != 0x2D && lo != 0x5D && hi != 0x5D
    ensures InSet([lo, 0x2D, hi], c) <==> c == lo || lo <= c <= hi || c == hi
    ensures Fits([0x5B, lo, 0x2D, hi, 0x5D], [c]) <==> c == lo || lo <= c <= hi || c == hi
  {
    var body := [lo, 0x2D, hi];
    if c == lo {
      assert SetRule(body, 0, c);
    }
    if lo <= c <= hi || c == hi {
      assert SetRule(body, 1, c);
    }
    PatternSet(body, [], [c]);
    assert [0x5B] + body + [0x5D] + [] == [0x5B, lo, 0x2D, hi, 0x5D];
    PatternCharacters(0, [], []);
    assert [c][1..] == [];
  }

  /** The `-` at position `i` stands for `c`: for the character after it and the range up to that from the
      one before, or from the first of all characters. */
  predicate DashCovers(body: Text, i: nat, c: Char16)
    requires i < |body| - 1
  {
    body[i] == 0x2D &&
    (c == body[i + 1] || (i == 0 && c <= body[i + 1]) || (i > 0 && body[i - 1] <= c <= body[i + 1]))
  }

  /** All members of any set: its characters other than `-`, and what its dashes stand for; a `-` at the end
      stands for nothing. */
  lemma SetMembers(body: Text, c: Char16)
    ensures InSet(body, c) <==> (c != 0x2D && c in body) || exists i :: 0 <= i < |body| - 1 && DashCovers(body, i, c)
  {
    if InSet(body, c) {
      var i: nat :| i < |body| && SetRule(body, i, c);
      assert if body[i] == 0x2D then DashCovers(body, i, c) else c in body;
    }
    if c != 0x2D && c in body {
      var i: nat :| i < |body| && body[i] == c;
      assert SetRule(body, i, c);
    }
    if i: nat :| i < |body| - 1 && DashCovers(body, i, c) {
      assert SetRule(body, i, c);
    }
  }
}
