/** Numbers as text: ValueToString and ValueToHex of LIB/print.c, Atoi and xtoi of LIB/str.c. */
module NumberText {
  import opened EfiBase
  import opened Math64

  const ZERO: Char16 := 0x30
  const COMMA: Char16 := 0x2C
  const MINUS: Char16 := 0x2D
  const SPACE: Char16 := 0x20

  // ----- Positional notation

  /** Digits of `v`, most significant first; none for zero. */
  function Digits(base: nat, v: nat): (ds: seq<nat>)
    requires base > 1
    ensures forall i :: 0 <= i < |ds| ==> ds[i] < base
    ensures v > 0 ==> |ds| > 0 && ds[0] > 0
  {
    if v == 0 then []
    else
      DivModSum(v, base);
      QuotientSmaller(v, base);
      Digits(base, v / base) + [v % base]
  }

  lemma QuotientSmaller(v: nat, base: nat)
    requires base > 1 && v > 0
    ensures v / base < v
  {
    DivModSum(v, base);
    var q := v / base;
    if q >= v {
      MulGap(q, 1, base);
    }
  }

  function DigitChar(d: nat): Char16
    requires d < 16
  {
    if d < 10 then ZERO + d else 0x41 + (d - 10)
  }

  function Spell(ds: seq<nat>): (t: Text)
    requires forall i :: 0 <= i < |ds| ==> ds[i] < 16
    ensures |t| == |ds| && forall i :: 0 <= i < |ds| ==> t[i] == DigitChar(ds[i])
  {
    seq(|ds|, i requires 0 <= i < |ds| => DigitChar(ds[i]))
  }

  /** The plain numeral of `v` in base 10 or 16. */
  function Numeral(base: nat, v: nat): (t: Text)
    requires 1 < base <= 16
    ensures |t| > 0 && NulFree(t)
  {
    if v == 0 then [ZERO] else Spell(Digits(base, v))
  }

  // ----- Grouping by commas

  /** The digits from position `i` on, with a comma before each later group of three. */
  function Grouped(ds: Text, i: nat): Text
    requires i <= |ds|
    decreases |ds| - i
  {
    if i == |ds| then []
    else (if i > 0 && (|ds| - i) % 3 == 0 then [COMMA] else []) + [ds[i]] + Grouped(ds, i + 1)
  }

  function RemoveCommas(t: Text): Text {
    if t == [] then [] else (if t[0] == COMMA then [] else [t[0]]) + RemoveCommas(t[1..])
  }

  predicate CommaFree(t: Text) {
    forall i :: 0 <= i < |t| ==> t[i] != COMMA
  }

  lemma GroupedStep(ds: Text, i: nat)
    requires i < |ds|
    ensures var rest := [ds[i]] + Grouped(ds, i + 1);
            Grouped(ds, i) == if i > 0 && (|ds| - i) % 3 == 0 then [COMMA] + rest else rest
  {}

  /** Deleting the commas gives the plain digits. */
  lemma {:induction false} RemoveCommasGrouped(ds: Text, i: nat)
    requires i <= |ds| && CommaFree(ds)
    ensures RemoveCommas(Grouped(ds, i)) == ds[i..]
    decreases |ds| - i
  {
    if i < |ds| {
      GroupedStep(ds, i);
      RemoveCommasGrouped(ds, i + 1);
      var rest := [ds[i]] + Grouped(ds, i + 1);
      assert rest[1..] == Grouped(ds, i + 1);
      assert RemoveCommas(rest) == ds[i..];
      assert ([COMMA] + rest)[1..] == rest;
    }
  }

  /** What position `k` of the grouped digits holds: a comma exactly where it is not leading, no comma
      comes just before it and a multiple of three digits is left. */
  ghost predicate CommaRule(t: Text, leading: bool, k: nat)
    requires k < |t|
  {
    t[k] == COMMA <==>
    (if k == 0 then !leading else t[k - 1] != COMMA) && |RemoveCommas(t[k..])| % 3 == 0
  }

  lemma {:induction false} CommasExact(ds: Text, i: nat, k: nat)
    requires i < |ds| && CommaFree(ds) && k < |Grouped(ds, i)|
    ensures CommaRule(Grouped(ds, i), i == 0, k)
    decreases |ds| - i
  {
    hide Grouped, RemoveCommas;
    var t, next := Grouped(ds, i), Grouped(ds, i + 1);
    GroupedStep(ds, i);
    RemoveCommasGrouped(ds, i);
    RemoveCommasGrouped(ds, i + 1);
    GroupedEnd(ds);
    var off := if t[0] == COMMA then 2 else 1;
    assert t[off - 1] == ds[i] && t[off..] == next;
    assert t[0..] == t && next[0..] == next;
    if k >= off {
      assert t[k] == next[k - off] && t[k..] == next[k - off..];
      assert k > off ==> t[k - 1] == next[k - off - 1];
      CommasExact(ds, i + 1, k - off);
    }
  }

  lemma GroupedEnd(ds: Text)
    ensures Grouped(ds, |ds|) == []
  {}

  // ----- Printing

  /** The text ValueToString stands for. */
  function ValueText(comma: bool, v: int): Text {
    var sign: Text := if v < 0 then [MINUS] else [];
    var plain := Numeral(10, if v < 0 then -v else v);
    sign + if comma then Grouped(plain, 0) else plain
  }

  /** `b` starts with the NUL-terminated text `t`. */
  ghost predicate Holds(b: seq<Char16>, t: Text) {
    |t| < |b| && b[..|t|] == t && b[|t|] == 0
  }

  /** Digits still to come and digits already split off, which lie in reverse in the scratch buffer. */
  ghost predicate SplitOff(all: seq<nat>, left: seq<nat>, scratch: seq<Char16>, n: nat) {
    && n <= |scratch|
    && |all| == |left| + n
    && all[..|left|] == left
    && forall i :: 0 <= i < n ==> HoldsDigit(all, scratch, i)
  }

  /** Scratch place `i` holds the digit that far from the end. */
  ghost predicate HoldsDigit(all: seq<nat>, scratch: seq<Char16>, i: nat)
    requires i < |all| && i < |scratch|
  {
    all[|all| - 1 - i] < 16 && scratch[i] == DigitChar(all[|all| - 1 - i])
  }

  lemma SplitDigit(base: nat, all: seq<nat>, v: nat, scratch: seq<Char16>, n: nat, scratch': seq<Char16>)
    requires 1 < base <= 16 && v > 0 && n < |scratch|
    requires SplitOff(all, Digits(base, v), scratch, n)
    requires scratch' == scratch[n := DigitChar(v % base)]
    ensures SplitOff(all, Digits(base, v / base), scratch', n + 1)
  {
    hide Digits;
    var left, rest := Digits(base, v), Digits(base, v / base);
    LastDigit(base, v);
    assert all[|rest|] == all[..|left|][|rest|] == v % base;
    assert all[..|rest|] == all[..|left|][..|rest|];
    forall i: nat | i < n + 1
      ensures HoldsDigit(all, scratch', i)
    {
      if i < n {
        assert HoldsDigit(all, scratch, i);
      } else {
        assert |all| - 1 - i == |rest|;
      }
    }
  }

  function Power(base: nat, k: nat): nat {
    if k == 0 then 1 else NonNegative(base, Power(base, k - 1)); base * Power(base, k - 1)
  }

  /** A number below `base^k` has at most `k` digits. */
  lemma {:induction false} DigitsBound(base: nat, v: nat, k: nat)
    requires base > 1 && v < Power(base, k)
    ensures |Digits(base, v)| <= k
    decreases k
  {
    hide Digits;
    if v == 0 {
      NoDigits(base);
    } else {
      var m := Power(base, k - 1);
      QuotientBelow(v, base, m);
      DigitsBound(base, v / base, k - 1);
      LastDigit(base, v);
    }
  }

  lemma LastDigit(base: nat, v: nat)
    requires base > 1 && v > 0
    ensures Digits(base, v) == Digits(base, v / base) + [v % base]
  {}

  lemma DecimalLength(v: U64)
    ensures |Digits(10, v)| <= 20
  {
    assert Power(10, 5) == 100000;
    assert Power(10, 10) == 100000 * 100000;
    assert Power(10, 15) == 100000 * 100000 * 100000;
    assert Power(10, 20) == 100000 * 100000 * 100000 * 100000;
    DigitsBound(10, v, 20);
  }

  lemma HexLength(v: U64)
    ensures |Digits(16, v)| <= 16
  {
    assert Power(16, 4) == 0x10000;
    assert Power(16, 8) == 0x10000 * 0x10000;
    assert Power(16, 12) == 0x10000 * 0x10000 * 0x10000;
    assert Power(16, 16) == W64;
    DigitsBound(16, v, 16);
  }

  /** First loop of ValueToString: splits the digits off, last one first. */
  method SplitDecimal(v: U64, str: array<Char16>) returns (n: nat)
    requires str.Length == 40
    modifies str
    ensures SplitOff(Digits(10, v), [], str[..], n)
  {
    hide Digits, SplitOff;
    var w := v;
    ghost var all := Digits(10, v);
    DecimalLength(v);
    SplitStart(all, str[..]);
    n := 0;
    while w != 0
      invariant SplitOff(all, Digits(10, w), str[..], n)
      decreases w
    {
      SmallDivisorsExact(w, 10);
      SplitRoom(10, all, w, str[..], n);
      var q, r := DivU64x32(w, 10);
      SplitDigit(10, all, w, str[..], n, str[..][n := DigitChar(r)]);
      w := q;
      str[n] := r + ZERO;
      n := n + 1;
    }
    NoDigits(10);
  }

  lemma SplitStart(all: seq<nat>, scratch: seq<Char16>)
    ensures SplitOff(all, all, scratch, 0)
  {}

  lemma NoDigits(base: nat)
    requires base > 1
    ensures Digits(base, 0) == []
  {}

  lemma SplitRoom(base: nat, all: seq<nat>, v: nat, scratch: seq<Char16>, n: nat)
    requires 1 < base <= 16 && v > 0 && SplitOff(all, Digits(base, v), scratch, n)
    ensures n < |all| && v / base < v
  {
    QuotientSmaller(v, base);
  }

  /** First loop of ValueToHex. */
  method SplitHex(v: U64, str: array<Char16>) returns (n: nat)
    requires str.Length == 30
    modifies str
    ensures SplitOff(Digits(16, v), [], str[..], n)
  {
    hide Digits, SplitOff;
    var w := v;
    ghost var all := Digits(16, v);
    HexLength(v);
    SplitStart(all, str[..]);
    n := 0;
    while w != 0
      invariant SplitOff(all, Digits(16, w), str[..], n)
      decreases w
    {
      SplitRoom(16, all, w, str[..], n);
      SplitDigit(16, all, w, str[..], n, str[..][n := DigitChar(w % 16)]);
      str[n] := DigitChar(w % 16);
      n := n + 1;
      assert Pow2(4) == 16;
      w := RShiftU64(w, 4);
    }
    NoDigits(16);
  }

  /** The scratch buffer holds the `n` characters of `plain` in reverse. */
  ghost predicate HoldsReversed(scratch: seq<Char16>, n: nat, plain: Text) {
    n == |plain| <= |scratch| && forall i :: 0 <= i < n ==> plain[i] == scratch[n - 1 - i]
  }

  lemma SplitDone(base: nat, v: nat, scratch: seq<Char16>, n: nat)
    requires 1 < base <= 16 && SplitOff(Digits(base, v), [], scratch, n)
    ensures HoldsReversed(scratch, n, Spell(Digits(base, v)))
  {
    var all := Digits(base, v);
    forall i | 0 <= i < |all|
      ensures Spell(all)[i] == scratch[|all| - 1 - i]
    {
      assert HoldsDigit(all, scratch, |all| - 1 - i);
    }
  }

  /** The comma counter of ValueToString after `i` of `n` digits. */
  ghost predicate Counter(comma: bool, n: nat, i: nat, c: int) {
    if !comma then c == 1000 - i
    else if i == 0 then c == (if n % 3 == 0 then 3 else n % 3) + 1
    else c == (n - i) % 3 + 1
  }

  lemma CounterStep(comma: bool, n: nat, i: nat, c: int)
    requires Counter(comma, n, i, c) && i < n <= 20
    ensures c - 1 == 0 <==> comma && i > 0 && (n - i) % 3 == 0
    ensures Counter(comma, n, i + 1, if c - 1 == 0 then 3 else c - 1)
  {}

  /** What is still to be written after `i` digits. */
  ghost function Rest(comma: bool, plain: Text, i: nat): Text
    requires i <= |plain|
  {
    if comma then Grouped(plain, i) else plain[i..]
  }

  lemma RestStep(comma: bool, plain: Text, i: nat)
    requires i < |plain|
    ensures var rest := [plain[i]] + Rest(comma, plain, i + 1);
            Rest(comma, plain, i) == if comma && i > 0 && (|plain| - i) % 3 == 0 then [COMMA] + rest else rest
  {}

  lemma MoveAcross(before: Text, x: Char16, rest: Text)
    ensures before + ([x] + rest) == (before + [x]) + rest
  {}

  /** Writes one character of the text that `rest` still holds. */
  method Emit(buffer: array<Char16>, at: nat, x: Char16, ghost text: Text, ghost rest: Text) returns (p2: nat)
    requires |text| < buffer.Length && at < buffer.Length && buffer[..at] + ([x] + rest) == text
    modifies buffer
    ensures p2 == at + 1 < buffer.Length && buffer[..p2] + rest == text
  {
    MoveAcross(buffer[..at], x, rest);
    assert |text| == at + 1 + |rest|;
    buffer[at] := x;
    p2 := at + 1;
    assert buffer[..p2] == old(buffer[..at]) + [x];
  }

  /** Second loop of ValueToString: the digits in order, a comma when the counter runs out. */
  method JoinDecimal(
    buffer: array<Char16>, start: nat, comma: bool, str: array<Char16>, n: nat, ghost text: Text, ghost plain: Text)
    requires n <= 20 && buffer != str && HoldsReversed(str[..], n, plain)
    requires |text| < buffer.Length && start < buffer.Length && buffer[..start] + Rest(comma, plain, 0) == text
    modifies buffer
    ensures Holds(buffer[..], text)
  {
    hide Rest, Counter;
    var ca := [3, 1, 2];
    var c := (if comma then ca[n % 3] else 999) + 1;
    CounterStart(comma, n, c);
    var p1, p2 := n, start;
    ghost var i := 0;
    while p1 != 0
      invariant 0 <= p1 <= n && i == n - p1 && 0 <= p2 < buffer.Length
      invariant buffer[..p2] + Rest(comma, plain, i) == text
      invariant Counter(comma, n, i, c)
      decreases p1
    {
      CounterStep(comma, n, i, c);
      RestStep(comma, plain, i);
      ghost var rest := Rest(comma, plain, i + 1);
      c := c - 1;
      if c == 0 {
        p2 := Emit(buffer, p2, COMMA, text, [plain[i]] + rest);
        c := 3;
      }
      p1 := p1 - 1;
      assert plain[i] == str[p1];
      p2 := Emit(buffer, p2, str[p1], text, rest);
      i := i + 1;
    }
    NothingLeft(comma, plain);
    assert buffer[..p2] == text;
    buffer[p2] := 0;
    assert buffer[..][..p2] == buffer[..p2];
  }

  lemma CounterStart(comma: bool, n: nat, c: int)
    requires c == (if comma then [3, 1, 2][n % 3] else 999) + 1
    ensures Counter(comma, n, 0, c)
  {}

  lemma NothingLeft(comma: bool, plain: Text)
    ensures Rest(comma, plain, |plain|) == []
  {}

  /** The text of zero, which both printers write outright. */
  method PutZero(buffer: array<Char16>)
    requires buffer.Length > 1
    modifies buffer
    ensures Holds(buffer[..], [ZERO])
  {
    buffer[0], buffer[1] := ZERO, 0;
  }

  lemma ZeroText(comma: bool)
    ensures ValueText(comma, 0) == [ZERO]
  {
    GroupedStep([ZERO], 0);
  }

  lemma TextOfDigits(comma: bool, v: int, w: nat, sign: Text)
    requires v != 0 && w == (if v < 0 then -v else v) && sign == if v < 0 then [MINUS] else []
    ensures ValueText(comma, v) == sign + Rest(comma, Spell(Digits(10, w)), 0)
    ensures |sign| < |ValueText(comma, v)|
  {}

  /** Prints `v`, with commas between groups of three digits when asked. */
  method ValueToString(buffer: array<Char16>, comma: bool, v: int)
    requires -W63 <= v < W63 && buffer.Length > |ValueText(comma, v)|
    modifies buffer
    ensures Holds(buffer[..], ValueText(comma, v))
  {
    hide Digits, ValueText, Holds, HoldsReversed, Rest;
    if v == 0 {
      ZeroText(comma);
      PutZero(buffer);
      return;
    }
    var p2 := 0;
    var w: U64 := v % W64;
    ghost var sign: Text := if v < 0 then [MINUS] else [];
    if v < 0 {
      w := (-v) % W64;
    }
    TextOfDigits(comma, v, w, sign);
    if v < 0 {
      buffer[p2] := MINUS;
      p2 := p2 + 1;
    }
    assert buffer[..p2] == sign;
    var str := new Char16[40];
    var n := SplitDecimal(w, str);
    SplitDone(10, w, str[..], n);
    DecimalLength(w);
    JoinDecimal(buffer, p2, comma, str, n, ValueText(comma, v), Spell(Digits(10, w)));
  }

  /** Second loop of ValueToHex: the digits in order. */
  method JoinHex(buffer: array<Char16>, str: array<Char16>, n: nat, ghost text: Text)
    requires buffer != str && HoldsReversed(str[..], n, text) && |text| < buffer.Length
    modifies buffer
    ensures Holds(buffer[..], text)
  {
    var p1, p2 := n, 0;
    while p1 != 0
      invariant 0 <= p1 <= n && p2 == n - p1
      invariant buffer[..p2] == text[..p2]
      decreases p1
    {
      p1 := p1 - 1;
      assert text[p2] == str[p1];
      buffer[p2] := str[p1];
      p2 := p2 + 1;
    }
    assert text[..p2] == text;
    buffer[p2] := 0;
    assert buffer[..][..p2] == buffer[..p2];
  }

  /** Prints `v` in upper-case hexadecimal. */
  method ValueToHex(buffer: array<Char16>, v: U64)
    requires buffer.Length > |Numeral(16, v)|
    modifies buffer
    ensures Holds(buffer[..], Numeral(16, v))
  {
    hide Digits, Holds, HoldsReversed;
    if v == 0 {
      PutZero(buffer);
      return;
    }
    var str := new Char16[30];
    var n := SplitHex(v, str);
    SplitDone(16, v, str[..], n);
    JoinHex(buffer, str, n, Numeral(16, v));
  }

  // ----- Reading

  predicate IsDecimal(c: Char16) { ZERO <= c <= ZERO + 9 }

  /** The digit a hexadecimal character stands for, either case. */
  function HexDigit(c: Char16): Option<nat> {
    if IsDecimal(c) then Some(c - ZERO)
    else if 0x41 <= c <= 0x46 then Some(c - 0x41 + 10)
    else if 0x61 <= c <= 0x66 then Some(c - 0x61 + 10)
    else None
  }

  /** First position from `i` on that does not hold `c`. */
  function SkipChar(t: Text, i: nat, c: Char16): (e: nat)
    requires i <= |t|
    ensures i <= e <= |t| && (e < |t| ==> t[e] != c) && forall k :: i <= k < e ==> t[k] == c
    decreases |t| - i
  {
    if i < |t| && t[i] == c then SkipChar(t, i + 1, c) else i
  }

  function DecimalEnd(t: Text, i: nat): (e: nat)
    requires i <= |t|
    ensures i <= e <= |t| && (e < |t| ==> !IsDecimal(t[e])) && forall k :: i <= k < e ==> IsDecimal(t[k])
    decreases |t| - i
  {
    if i < |t| && IsDecimal(t[i]) then DecimalEnd(t, i + 1) else i
  }

  function HexEnd(t: Text, i: nat): (e: nat)
    requires i <= |t|
    ensures i <= e <= |t| && (e < |t| ==> HexDigit(t[e]).None?) && forall k :: i <= k < e ==> HexDigit(t[k]).Some?
    decreases |t| - i
  {
    if i < |t| && HexDigit(t[i]).Some? then HexEnd(t, i + 1) else i
  }

  /** The number a run of digits spells. */
  function Value(base: nat, t: Text): nat
    requires forall i :: 0 <= i < |t| ==> HexDigit(t[i]).Some?
  {
    if t == [] then 0
    else
      var n := |t| - 1;
      NonNegative(Value(base, t[..n]), base);
      Value(base, t[..n]) * base + HexDigit(t[n]).value
  }

  /** What Atoi makes of a text: its leading decimal digits after spaces, modulo the word size. */
  function AtoiValue(t: Text, modulus: nat): nat
    requires modulus > 0
  {
    var a := SkipChar(t, 0, SPACE);
    Value(10, t[a..DecimalEnd(t, a)]) % modulus
  }

  /** What xtoi makes of a text: hexadecimal digits after spaces, zeros and one `x`. */
  function XtoiValue(t: Text, modulus: nat): nat
    requires modulus > 0
  {
    var a := SkipChar(t, SkipChar(t, 0, SPACE), ZERO);
    var b := if a < |t| && (t[a] == 0x78 || t[a] == 0x58) then a + 1 else a;
    Value(16, t[b..HexEnd(t, b)]) % modulus
  }

  /** Accumulating modulo the word size gives the number modulo the word size. */
  lemma ModAccumulate(x: nat, base: nat, d: nat, m: nat)
    requires m > 0
    ensures (x % m * base + d) % m == (x * base + d) % m
  {
    var q, r := x / m, x % m;
    DivModSum(x, m);
    var y := r * base + d;
    NonNegative(r, base);
    NonNegative(q, base);
    var p, s := y / m, y % m;
    DivModSum(y, m);
    assert x * base + d == (q * base + p) * m + s by {
      assert (q * m + r) * base == q * base * m + r * base;
      assert (q * base + p) * m == q * base * m + p * m;
    }
    NonNegative(x, base);
    DivModUnique(x * base + d, m, q * base + p, s);
  }

  lemma ValueStep(base: nat, t: Text, a: nat, i: nat, m: nat)
    requires a <= i < |t| && m > 0 && forall k :: a <= k <= i ==> HexDigit(t[k]).Some?
    ensures (Value(base, t[a..i]) % m * base + HexDigit(t[i]).value) % m == Value(base, t[a..i + 1]) % m
  {
    assert t[a..i + 1][..i - a] == t[a..i];
    NonNegative(Value(base, t[a..i]), base);
    ModAccumulate(Value(base, t[a..i]), base, HexDigit(t[i]).value, m);
  }

  method Atoi(t: Text, modulus: nat) returns (u: nat)
    requires NulFree(t) && modulus > 0
    ensures u == AtoiValue(t, modulus)
  {
    hide Value;
    var i := 0;
    ghost var a := SkipChar(t, 0, SPACE);
    while At(t, i) != 0 && At(t, i) == SPACE
      invariant 0 <= i <= a
      decreases |t| - i
    {
      i := i + 1;
    }
    assert i == a;
    ghost var e := DecimalEnd(t, a);
    u := 0;
    NoValue(10, t, a, modulus);
    while true
      invariant a <= i <= e && u == Value(10, t[a..i]) % modulus
      decreases |t| - i
    {
      var c := At(t, i);
      if c == 0 || !IsDecimal(c) {
        break;
      }
      ValueStep(10, t, a, i, modulus);
      NonNegative(u, 10);
      u := (u * 10 + (c - ZERO)) % modulus;
      i := i + 1;
    }
  }

  lemma NoValue(base: nat, t: Text, a: nat, m: nat)
    requires a <= |t| && m > 0
    ensures Value(base, t[a..a]) % m == 0
  {}

  method Xtoi(t: Text, modulus: nat) returns (u: nat)
    requires NulFree(t) && modulus > 0
    ensures u == XtoiValue(t, modulus)
  {
    hide Value;
    var i := 0;
    ghost var a0 := SkipChar(t, 0, SPACE);
    while At(t, i) != 0 && At(t, i) == SPACE
      invariant 0 <= i <= a0
      decreases |t| - i
    {
      i := i + 1;
    }
    assert i == a0;
    ghost var a := SkipChar(t, a0, ZERO);
    while At(t, i) != 0 && At(t, i) == ZERO
      invariant a0 <= i <= a
      decreases |t| - i
    {
      i := i + 1;
    }
    assert i == a;
    if At(t, i) == 0x78 || At(t, i) == 0x58 {
      i := i + 1;
    }
    ghost var b := i;
    u := 0;
    NoValue(16, t, b, modulus);
    while true
      invariant b <= i <= HexEnd(t, b) && u == Value(16, t[b..i]) % modulus
      decreases |t| - i
    {
      var c := At(t, i);
      if c == 0 || HexDigit(c).None? {
        break;
      }
      ValueStep(16, t, b, i, modulus);
      u := (u * 16 + HexDigit(c).value) % modulus;
      i := i + 1;
    }
  }

  // ----- Reading undoes printing

  lemma DigitCharHex(d: nat)
    requires d < 16
    ensures HexDigit(DigitChar(d)) == Some(d) && DigitChar(d) != SPACE && DigitChar(d) != 0x78 && DigitChar(d) != 0x58
    ensures d < 10 ==> IsDecimal(DigitChar(d))
    ensures DigitChar(d) == ZERO <==> d == 0
  {}

  lemma SpellHex(ds: seq<nat>)
    requires forall i :: 0 <= i < |ds| ==> ds[i] < 16
    ensures forall i :: 0 <= i < |ds| ==> HexDigit(Spell(ds)[i]) == Some(ds[i])
  {}

  /** Spelling out the digits of a number and reading them gives the number. */
  lemma {:induction false} ValueOfDigits(base: nat, v: nat)
    requires 1 < base <= 16
    ensures forall i :: 0 <= i < |Digits(base, v)| ==> HexDigit(Spell(Digits(base, v))[i]).Some?
    ensures Value(base, Spell(Digits(base, v))) == v
    decreases v
  {
    SpellHex(Digits(base, v));
    if v > 0 {
      QuotientSmaller(v, base);
      QuotientNatural(v, base);
      ValueOfDigits(base, v / base);
      LastDigit(base, v);
      var t := Spell(Digits(base, v));
      assert t[..|t| - 1] == Spell(Digits(base, v / base));
      DigitCharHex(v % base);
      DivModSum(v, base);
    }
  }

  /** Atoi reads back what ValueToString prints for a number that is not negative. */
  lemma AtoiOfDecimal(v: nat, modulus: nat)
    requires modulus > 0
    ensures AtoiValue(ValueText(false, v), modulus) == v % modulus
  {
    var t := Numeral(10, v);
    assert ValueText(false, v) == t;
    if v == 0 {
      assert t == [ZERO];
      assert SkipChar(t, 0, SPACE) == 0 && DecimalEnd(t, 0) == 1;
      assert t[0..1][..0] == [] && Value(10, t[0..1]) == 0;
    } else {
      forall i | 0 <= i < |t|
        ensures IsDecimal(t[i]) && t[i] != SPACE
      {
        DigitCharHex(Digits(10, v)[i]);
      }
      assert SkipChar(t, 0, SPACE) == 0 && DecimalEnd(t, 0) == |t|;
      assert t[0..|t|] == t;
      ValueOfDigits(10, v);
    }
  }

  /** xtoi reads back what ValueToHex prints. */
  lemma XtoiOfHex(v: nat, modulus: nat)
    requires modulus > 0
    ensures XtoiValue(Numeral(16, v), modulus) == v % modulus
  {
    var t := Numeral(16, v);
    if v == 0 {
      assert t == [ZERO];
      assert SkipChar(t, 0, SPACE) == 0 && SkipChar(t, 0, ZERO) == 1 && HexEnd(t, 1) == 1;
      assert t[1..1] == [];
    } else {
      forall i | 0 <= i < |t|
        ensures HexDigit(t[i]).Some? && t[i] != SPACE && t[i] != 0x78 && t[i] != 0x58
      {
        DigitCharHex(Digits(16, v)[i]);
      }
      DigitCharHex(Digits(16, v)[0]);
      assert SkipChar(t, 0, SPACE) == 0 && SkipChar(t, 0, ZERO) == 0 && HexEnd(t, 0) == |t|;
      assert t[0..|t|] == t;
      ValueOfDigits(16, v);
    }
  }

  /** Deleting the commas from a grouped number gives the plain one, and the commas stand exactly before
      each later group of three. */
  lemma CommasInText(v: nat)
    ensures RemoveCommas(ValueText(true, v)) == ValueText(false, v)
    ensures forall k :: 0 <= k < |ValueText(true, v)| ==> CommaRule(ValueText(true, v), true, k)
  {
    var plain := Numeral(10, v);
    assert CommaFree(plain) by {
      if v > 0 {
        forall i | 0 <= i < |plain|
          ensures plain[i] != COMMA
        {
          DigitCharHex(Digits(10, v)[i]);
        }
      }
    }
    assert ValueText(true, v) == Grouped(plain, 0) && ValueText(false, v) == plain;
    RemoveCommasGrouped(plain, 0);
    assert plain[0..] == plain;
    forall k | 0 <= k < |ValueText(true, v)|
      ensures CommaRule(ValueText(true, v), true, k)
    {
      CommasExact(plain, 0, k);
    }
  }
}
