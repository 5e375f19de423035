/** Number text by its characters: which ones are printed, and which ones the readers of LIB/str.c accept. */
module NumberSyntax {
  import opened EfiBase
  import opened NumberText

  /** Digits, and the letters of either case that xtoi takes for digits. */
  predicate IsHex(c: Char16) { 0x30 <= c <= 0x39 || 0x41 <= c <= 0x46 || 0x61 <= c <= 0x66 }

  lemma HexCodes(c: Char16)
    ensures HexDigit(c).Some? <==> IsHex(c)
    ensures 0x30 <= c <= 0x39 ==> HexDigit(c) == Some(c - 0x30)
    ensures 0x41 <= c <= 0x46 ==> HexDigit(c) == Some(c - 0x41 + 10)
    ensures 0x61 <= c <= 0x66 ==> HexDigit(c) == Some(c - 0x61 + 10)
  {}

  /** The value of digits, from left to right. */
  lemma ValueCodes(base: nat, t: Text, c: Char16)
    requires (forall i :: 0 <= i < |t| ==> HexDigit(t[i]).Some?) && HexDigit(c).Some?
    ensures Value(base, []) == 0
    ensures Value(base, t + [c]) == Value(base, t) * base + HexDigit(c).value
  {
    assert (t + [c])[..|t|] == t;
  }

  /** A numeral has the characters 0-9 and A-F, no zero in front of others, and its number as value. */
  lemma NumeralCodes(base: nat, v: nat)
    requires base == 10 || base == 16
    ensures var t := Numeral(base, v);
            && (forall i :: 0 <= i < |t| ==> 0x30 <= t[i] <= 0x39 || (base == 16 && 0x41 <= t[i] <= 0x46))
            && (forall i :: 0 <= i < |t| ==> HexDigit(t[i]).Some?)
            && Value(base, t) == v
            && (|t| > 1 ==> t[0] != 0x30) && (v == 0 ==> t == [0x30])
  {
    var t := Numeral(base, v);
    if v == 0 {
      ValueCodes(base, [], 0x30);
      assert [] + [0x30] == t;
    } else {
      forall i | 0 <= i < |t|
        ensures 0x30 <= t[i] <= 0x39 || (base == 16 && 0x41 <= t[i] <= 0x46)
      {
        assert t[i] == DigitChar(Digits(base, v)[i]);
      }
      ValueOfDigits(base, v);
      DigitCharHex(Digits(base, v)[0]);
    }
  }

  /** A negative number is a minus and the number without it. */
  lemma NegativeText(comma: bool, v: int)
    requires v > 0
    ensures ValueText(comma, -v) == [0x2D] + ValueText(comma, v)
    ensures ValueText(false, v) == Numeral(10, v)
  {}

  /** How many digits a text has. */
  function DigitCount(t: Text): nat {
    if t == [] then 0 else (if t[0] == 0x2C then 0 else 1) + DigitCount(t[1..])
  }

  function WithoutCommas(t: Text): Text {
    if t == [] then [] else (if t[0] == 0x2C then [] else [t[0]]) + WithoutCommas(t[1..])
  }

  lemma {:induction false} WithoutCommasCodes(t: Text)
    ensures WithoutCommas(t) == RemoveCommas(t) && DigitCount(t) == |RemoveCommas(t)|
  {
    if t != [] {
      WithoutCommasCodes(t[1..]);
    }
  }

  /** With commas asked for, the text without them is the plain numeral; a comma stands before a digit, not in
      front, exactly where a multiple of three digits is left. */
  lemma CommaCodes(v: nat)
    ensures var t := ValueText(true, v);
            && WithoutCommas(t) == Numeral(10, v)
            && forall k :: 0 <= k < |t| ==> CommaPlace(t, k)
  {
    var t := ValueText(true, v);
    CommasInText(v);
    WithoutCommasCodes(t);
    forall k | 0 <= k < |t|
      ensures CommaPlace(t, k)
    {
      assert CommaRule(t, true, k);
      WithoutCommasCodes(t[k..]);
      if k > 0 {
        assert CommaRule(t, true, k - 1);
      }
    }
  }

  predicate CommaPlace(t: Text, k: nat)
    requires k < |t|
  {
    t[k] == 0x2C <==> k > 0 && t[k - 1] != 0x2C && DigitCount(t[k..]) % 3 == 0
  }

  // ----- Reading

  lemma {:induction false} ValueLeadingZeros(base: nat, t: Text, j: nat)
    requires j <= |t| && (forall i :: 0 <= i < |t| ==> HexDigit(t[i]).Some?) && forall i :: 0 <= i < j ==> t[i] == 0x30
    ensures Value(base, t[j..]) == Value(base, t)
  {
    if j == |t| {
      assert t[j..] == [];
      ZerosValue(base, t);
    } else {
      var n := |t| - 1;
      ValueLeadingZeros(base, t[..n], j);
      assert t[j..][..n - j] == t[..n][j..];
    }
  }

  lemma {:induction false} ZerosValue(base: nat, t: Text)
    requires forall i :: 0 <= i < |t| ==> t[i] == 0x30
    ensures (forall i :: 0 <= i < |t| ==> HexDigit(t[i]).Some?) && Value(base, t) == 0
  {
    if t != [] {
      ZerosValue(base, t[..|t| - 1]);
    }
  }

  /** `t` stands at position `o` of `s`. */
  ghost predicate Stands(s: Text, o: nat, t: Text) {
    o + |t| <= |s| && s[o..o + |t|] == t
  }

  /** Nothing but `c` from position `i` to `e`, and something else there. */
  ghost predicate Run(s: Text, i: nat, e: nat, c: Char16) {
    && i <= e <= |s|
    && (forall k :: i <= k < e ==> s[k] == c)
    && (e < |s| ==> s[e] != c)
  }

  predicate AllHex(t: Text) { forall i :: 0 <= i < |t| ==> IsHex(t[i]) }
  predicate AllDecimal(t: Text) { forall i :: 0 <= i < |t| ==> 0x30 <= t[i] <= 0x39 }
  predicate AllOf(t: Text, c: Char16) { forall i :: 0 <= i < |t| ==> t[i] == c }

  /** A text of digits can be given a value. */
  lemma HexReadable(t: Text)
    requires AllHex(t)
    ensures forall i :: 0 <= i < |t| ==> HexDigit(t[i]).Some?
  {}

  lemma DecimalIsHex(t: Text)
    requires AllDecimal(t)
    ensures AllHex(t)
  {}

  lemma FiveParts(u: Text, v: Text, x: Text, t: Text, rest: Text)
    ensures var s := u + v + x + t + rest;
            && Stands(s, 0, u) && Stands(s, |u|, v) && Stands(s, |u| + |v|, x) && Stands(s, |u| + |v| + |x|, t)
            && Stands(s, |u| + |v| + |x| + |t|, rest) && |s| == |u| + |v| + |x| + |t| + |rest|
  {}

  lemma FirstOf(s: Text, o: nat, t: Text)
    requires Stands(s, o, t) && t != []
    ensures o < |s| && s[o] == t[0]
  {
    assert s[o..o + |t|][0] == s[o];
  }

  lemma RunOf(s: Text, o: nat, t: Text, c: Char16)
    requires Stands(s, o, t) && AllOf(t, c) && (o + |t| < |s| ==> s[o + |t|] != c)
    ensures Run(s, o, o + |t|, c)
  {
    forall k | o <= k < o + |t| ensures s[k] == c {
      assert s[o..o + |t|][k - o] == s[k];
    }
  }

  lemma SkipsTo(s: Text, i: nat, c: Char16, e: nat)
    requires Run(s, i, e, c)
    ensures SkipChar(s, i, c) == e
  {
    hide SkipChar;
  }

  lemma HexRun(s: Text, d: nat, t: Text)
    requires Stands(s, d, t) && AllHex(t) && (d + |t| < |s| ==> !IsHex(s[d + |t|]))
    ensures HexEnd(s, d) == d + |t|
  {
    hide HexEnd, HexDigit, IsHex;
    var f, e := HexEnd(s, d), d + |t|;
    if f < e {
      assert s[f] == s[d..e][f - d] == t[f - d];
      HexCodes(s[f]);
    } else if e < f {
      HexCodes(s[e]);
    }
  }

  lemma DecimalRun(s: Text, d: nat, t: Text)
    requires Stands(s, d, t) && AllDecimal(t) && (d + |t| < |s| ==> !(0x30 <= s[d + |t|] <= 0x39))
    ensures DecimalEnd(s, d) == d + |t|
  {
    hide DecimalEnd;
    var e := d + |t|;
    forall k | d <= k < e ensures IsDecimal(s[k]) {
      assert s[d..e][k - d] == s[k];
    }
  }

  /** Atoi reads the decimal digits after any spaces, whatever follows them. */
  lemma AtoiSyntax(spaces: Text, t: Text, rest: Text, m: nat)
    requires m > 0 && AllOf(spaces, 0x20) && AllDecimal(t) && t != []
    requires rest == [] || !(0x30 <= rest[0] <= 0x39)
    ensures AllHex(t) && (forall i :: 0 <= i < |t| ==> HexDigit(t[i]).Some?)
    ensures AtoiValue(spaces + t + rest, m) == Value(10, t) % m
  {
    hide Value, Stands, Run, AllOf, AtoiValue, SkipChar, DecimalEnd;
    DecimalIsHex(t);
    HexReadable(t);
    var s, a := spaces + t + rest, |spaces|;
    FiveParts(spaces, t, rest, [], []);
    assert spaces + t + rest + [] + [] == s;
    FirstOf(s, a, t);
    RunOf(s, 0, spaces, 0x20);
    if rest != [] {
      FirstOf(s, a + |t|, rest);
    }
    SkipsTo(s, 0, 0x20, a);
    DecimalRun(s, a, t);
    AtoiFrom(s, a, t, m);
  }

  lemma AtoiFrom(s: Text, a: nat, t: Text, m: nat)
    requires m > 0 && Stands(s, a, t) && SkipChar(s, 0, 0x20) == a && DecimalEnd(s, a) == a + |t|
    requires forall i :: 0 <= i < |t| ==> HexDigit(t[i]).Some?
    ensures AtoiValue(s, m) == Value(10, t) % m
  {
    hide Value, SkipChar, DecimalEnd;
  }

  /** xtoi reads the digits of either case after any spaces, then any zeros, then an x of either case or
      none, whatever follows them. */
  lemma XtoiSyntax(spaces: Text, zeros: Text, x: Text, t: Text, rest: Text, m: nat)
    requires m > 0 && AllOf(spaces, 0x20) && AllOf(zeros, 0x30) && AllHex(t) && t != []
    requires x == [] || x == [0x78] || x == [0x58]
    requires rest == [] || (!IsHex(rest[0]) && (x == [] ==> rest[0] != 0x78 && rest[0] != 0x58))
    ensures forall i :: 0 <= i < |t| ==> HexDigit(t[i]).Some?
    ensures XtoiValue(spaces + zeros + x + t + rest, m) == Value(16, t) % m
  {
    hide *;
    HexReadable(t);
    HexValueIs(t);
    var s, a := spaces + zeros + x + t + rest, |spaces|;
    FiveParts(spaces, zeros, x, t, rest);
    PartFollowed(s, a + |zeros| + |x| + |t|, rest);
    PartFollowed(s, a + |zeros|, x);
    SpacesSkipped(s, spaces, zeros, x, t);
    if x == [] {
      XtoiPlain(s, a, zeros, t, m);
    } else {
      XtoiPrefixed(s, a, zeros, t, m);
    }
  }

  lemma PartFollowed(s: Text, o: nat, t: Text)
    requires Stands(s, o, t)
    ensures t != [] ==> o < |s| && s[o] == t[0] && (!IsHex(t[0]) ==> t[0] != 0x30)
  {
    if t != [] {
      FirstOf(s, o, t);
    }
  }

  lemma SpacesSkipped(s: Text, spaces: Text, zeros: Text, x: Text, t: Text)
    requires AllOf(spaces, 0x20) && AllOf(zeros, 0x30) && AllHex(t) && t != []
    requires x == [] || x == [0x78] || x == [0x58]
    requires Stands(s, 0, spaces) && Stands(s, |spaces|, zeros) && Stands(s, |spaces| + |zeros|, x)
    requires Stands(s, |spaces| + |zeros| + |x|, t)
    ensures SkipChar(s, 0, 0x20) == |spaces|
  {
    hide *;
    var a := |spaces|;
    FirstOf(s, a + |zeros| + |x|, t);
    FirstHex(t);
    if zeros != [] {
      FirstOf(s, a, zeros);
      FirstZero(zeros);
    } else if x != [] {
      FirstOf(s, a, x);
    }
    RunOf(s, 0, spaces, 0x20);
    SkipsTo(s, 0, 0x20, a);
  }

  ghost function HexValue(t: Text): nat
    requires AllHex(t)
  {
    HexReadable(t);
    Value(16, t)
  }

  lemma HexValueIs(t: Text)
    requires AllHex(t)
    ensures (forall i :: 0 <= i < |t| ==> HexDigit(t[i]).Some?) && HexValue(t) == Value(16, t)
  {}

  lemma FirstZero(zeros: Text)
    requires AllOf(zeros, 0x30) && zeros != []
    ensures zeros[0] == 0x30
  {}

  lemma FirstHex(t: Text)
    requires AllHex(t) && t != []
    ensures IsHex(t[0]) && t[0] != 0x20 && t[0] != 0x78 && t[0] != 0x58
  {}

  lemma XtoiPrefixed(s: Text, a: nat, zeros: Text, t: Text, m: nat)
    requires m > 0 && SkipChar(s, 0, 0x20) == a && Stands(s, a, zeros) && AllOf(zeros, 0x30) && AllHex(t)
    requires var b := a + |zeros|;
             && b < |s| && (s[b] == 0x78 || s[b] == 0x58) && Stands(s, b + 1, t)
             && (b + 1 + |t| < |s| ==> !IsHex(s[b + 1 + |t|]))
    ensures XtoiValue(s, m) == HexValue(t) % m
  {
    hide *;
    var b := a + |zeros|;
    RunOf(s, a, zeros, 0x30);
    SkipsTo(s, a, 0x30, b);
    HexRun(s, b + 1, t);
    XtoiFrom(s, a, b, b + 1, t, m);
  }

  lemma XtoiPlain(s: Text, a: nat, zeros: Text, t: Text, m: nat)
    requires m > 0 && SkipChar(s, 0, 0x20) == a && Stands(s, a, zeros) && AllOf(zeros, 0x30) && AllHex(t)
    requires var b := a + |zeros|;
             && Stands(s, b, t)
             && (b + |t| < |s| ==> !IsHex(s[b + |t|]) && s[b + |t|] != 0x30 && s[b + |t|] != 0x78 && s[b + |t|] != 0x58)
    ensures XtoiValue(s, m) == HexValue(t) % m
  {
    hide *;
    var b := a + |zeros|;
    var j := LeadingZeros(zeros, t);
    SplitStands(s, a, zeros, b, t, j);
    ZerosSkipped(s, a, zeros, t, j);
    HexRun(s, b + j, t[j..]);
    XtoiFrom(s, a, b + j, b + j, t[j..], m);
  }

  lemma ZerosSkipped(s: Text, a: nat, zeros: Text, t: Text, j: nat)
    requires j <= |t| && AllOf(zeros + t[..j], 0x30) && (j < |t| ==> t[j] != 0x30) && AllHex(t[j..])
    requires var b := a + |zeros|;
             && Stands(s, a, zeros + t[..j]) && Stands(s, b + j, t[j..])
             && (b + |t| < |s| ==> s[b + |t|] != 0x30 && s[b + |t|] != 0x78 && s[b + |t|] != 0x58)
    ensures SkipChar(s, a, 0x30) == a + |zeros| + j
    ensures var e := a + |zeros| + j; e < |s| ==> s[e] != 0x78 && s[e] != 0x58
  {
    hide *;
    var e, u := a + |zeros| + j, t[j..];
    if u != [] {
      FirstOf(s, e, u);
      FirstHex(u);
    }
    RunOf(s, a, zeros + t[..j], 0x30);
    SkipsTo(s, a, 0x30, e);
  }

  /** The zeros in front of digits do not count. */
  lemma LeadingZeros(zeros: Text, t: Text) returns (j: nat)
    requires AllOf(zeros, 0x30) && AllHex(t)
    ensures j <= |t| && AllOf(zeros + t[..j], 0x30) && (j < |t| ==> t[j] != 0x30)
    ensures AllHex(t[j..]) && HexValue(t[j..]) == HexValue(t)
  {
    j := SkipChar(t, 0, 0x30);
    HexReadable(t);
    ValueLeadingZeros(16, t, j);
  }

  lemma SplitStands(s: Text, a: nat, v: Text, b: nat, t: Text, j: nat)
    requires Stands(s, a, v) && b == a + |v| && Stands(s, b, t) && j <= |t|
    ensures Stands(s, a, v + t[..j]) && Stands(s, b + j, t[j..])
  {
    assert s[a..b + j] == s[a..b] + s[b..b + |t|][..j];
    assert s[b + j..b + |t|] == s[b..b + |t|][j..];
  }

  /** The four steps of xtoi, each ending where it does. */
  lemma XtoiFrom(s: Text, a: nat, b: nat, d: nat, t: Text, m: nat)
    requires m > 0 && a <= b <= d <= |s| && Stands(s, d, t) && AllHex(t)
    requires SkipChar(s, 0, 0x20) == a && SkipChar(s, a, 0x30) == b
    requires d == if b < |s| && (s[b] == 0x78 || s[b] == 0x58) then b + 1 else b
    requires HexEnd(s, d) == d + |t|
    ensures XtoiValue(s, m) == HexValue(t) % m
  {
    hide Value, SkipChar, HexEnd, HexDigit;
    HexReadable(t);
  }
}
