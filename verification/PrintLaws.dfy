/** What formats print, by their characters: a law for every item of the form
    `% [0] [-] [,] [width] [.field] [l] letter`, and for plain characters, `*` and the attribute letters. */
module PrintLaws {
  import opened EfiBase
  import opened NumberText
  import opened NumberSyntax
  import opened PrintFormat

  /** The parts of an item; a width or field of zero is left out. */
  datatype Flags = Flags(zero: bool, left: bool, comma: bool, width: nat, field: nat, long: bool)

  function When(on: bool, c: Char16): Text { if on then [c] else [] }
  function Digits10(n: nat): Text { if n > 0 then Numeral(10, n) else [] }
  function Field(n: nat): Text { if n > 0 then [0x2E] + Numeral(10, n) else [] }

  /** The characters of an item. */
  function ItemText(f: Flags, letter: Char16): Text {
    [0x25] + (When(f.zero, 0x30) + (When(f.left, 0x2D) + (When(f.comma, 0x2C) + (Digits10(f.width) +
      (Field(f.field) + (When(f.long, 0x6C) + [letter]))))))
  }

  /** The characters that end an item: all but digits, `- , . * l`, n h e and N H E. */
  predicate Ends(letter: Char16) {
    !(0x30 <= letter <= 0x39) &&
    letter !in [0x2D, 0x2C, 0x2E, 0x2A, 0x6C, 0x6E, 0x68, 0x65, 0x4E, 0x48, 0x45]
  }

  /** The letters that take an argument: a s c d x X g t r. */
  predicate TakesArgument(letter: Char16) {
    letter in [0x61, 0x73, 0x63, 0x64, 0x78, 0x58, 0x67, 0x74, 0x72]
  }

  /** What each letter makes of its argument. */
  function TextOf(modulus: nat, arg: Arg, f: Flags, letter: Char16): Text
    requires modulus > 0
  {
    ModBelow(arg.word, modulus);
    var w: nat := if f.long then arg.word % 0x1_0000_0000_0000_0000 else arg.word % modulus;
    if letter == 0x61 then if arg.narrow.Some? then arg.narrow.value else [0x28, 0x6E, 0x75, 0x6C, 0x6C, 0x29]
    else if letter == 0x73 then if arg.wide.Some? then arg.wide.value else [0x28, 0x6E, 0x75, 0x6C, 0x6C, 0x29]
    else if letter == 0x63 then if arg.word % 0x10000 == 0 then [] else [arg.word % 0x10000]
    else if letter == 0x64 then
      if w < 0x8000_0000_0000_0000 then ValueText(f.comma, w)
      else ValueText(f.comma, w - 0x1_0000_0000_0000_0000)
    else if letter == 0x78 || letter == 0x58 then Numeral(16, w)
    else if letter == 0x67 || letter == 0x74 || letter == 0x72 then arg.rendered
    else if letter == 0x25 then [0x25]
    else [0x3F]
  }

  /** `n` copies of `c`, none for a negative number. */
  function Copies(c: Char16, n: int): Text { if n > 0 then seq(n, _ => c) else [] }

  /** A text cut to the field, filled up to the width on its left, and spaced out to the field on its left or
      its right.  The letter X always fills up to 8 or 16 with zeros. */
  function LaidOut(f: Flags, letter: Char16, t: Text): Text {
    var pad: Char16 := if f.zero || letter == 0x58 then 0x30 else 0x20;
    var width := if letter == 0x58 then if f.long then 16 else 8 else f.width;
    var cut := if f.field > 0 && |t| > f.field then t[..f.field] else t;
    var body := Copies(pad, width - |cut|) + cut;
    var space := Copies(0x20, f.field - |body|);
    if f.left then body + space else space + body
  }

  /** The format at position `i` puts `text` under the attribute in force, and goes on at `next`. */
  ghost predicate Puts(
    cfg: Config, fmt: Text, i: nat, args: seq<Arg>, a: nat, attr: nat, text: Text, next: nat, used: nat)
    requires cfg.Valid() && i <= |fmt| && next <= |fmt|
  {
    Render(cfg, fmt, i, args, a, attr) == Join(Paint(text, attr), Render(cfg, fmt, next, args, used, attr))
  }

  /** A character other than `%` is put as it is. */
  lemma PlainLaw(cfg: Config, fmt: Text, i: nat, args: seq<Arg>, a: nat, attr: nat)
    requires cfg.Valid() && i < |fmt| && fmt[i] != 0x25
    ensures Puts(cfg, fmt, i, args, a, attr, [fmt[i]], i + 1, a)
  {}

  // ----- Gathering the parts

  /** An item in progress stands for the same before and after some of its characters. */
  ghost predicate Same(
    cfg: Config, fmt: Text, args: seq<Arg>, a: nat, attr: nat, j: nat, item: Item, j': nat, item': Item)
    requires cfg.Valid() && j <= |fmt| && j' <= |fmt|
  {
    RenderItem(cfg, fmt, j, args, a, item, attr, 0) == RenderItem(cfg, fmt, j', args, a, item', attr, 0)
  }

  lemma StandsCons(s: Text, o: nat, u: Text, v: Text)
    requires Stands(s, o, u + v)
    ensures Stands(s, o, u) && Stands(s, o + |u|, v)
  {
    var w := s[o..o + |u| + |v|];
    assert s[o..o + |u|] == w[..|u|];
    assert s[o + |u|..o + |u| + |v|] == w[|u|..];
  }

  /** One flag character. */
  lemma FlagLaw(cfg: Config, fmt: Text, args: seq<Arg>, a: nat, attr: nat, j: nat, item: Item)
    requires cfg.Valid() && j < |fmt|
    ensures fmt[j] == 0x30 ==> Same(cfg, fmt, args, a, attr, j, item, j + 1, item.(pad := 0x30))
    ensures fmt[j] == 0x2D ==> Same(cfg, fmt, args, a, attr, j, item, j + 1, item.(padBefore := false))
    ensures fmt[j] == 0x2C ==> Same(cfg, fmt, args, a, attr, j, item, j + 1, item.(comma := true))
    ensures fmt[j] == 0x2E ==> Same(cfg, fmt, args, a, attr, j, item, j + 1, item.(toField := true))
    ensures fmt[j] == 0x6C ==> Same(cfg, fmt, args, a, attr, j, item, j + 1, item.(long := true))
  {
    hide Value, Numeral, ValueText;
  }

  /** A number sets the width, or the field once there was a dot. */
  lemma NumberSets(cfg: Config, fmt: Text, args: seq<Arg>, a: nat, attr: nat, j: nat, item: Item, n: nat)
    requires cfg.Valid() && 0 < n < cfg.modulus && Stands(fmt, j, Numeral(10, n))
    requires var e := j + |Numeral(10, n)|; e < |fmt| && !(0x30 <= fmt[e] <= 0x39)
    ensures var e := j + |Numeral(10, n)|;
            && (!item.toField ==> Same(cfg, fmt, args, a, attr, j, item, e, item.(width := n)))
            && (item.toField ==> Same(cfg, fmt, args, a, attr, j, item, e, item.(fieldWidth := n)))
  {
    hide Value, Numeral, ValueText, DecimalEnd;
    NumeralCodes(10, n);
    var t := Numeral(10, n);
    DecimalRun(fmt, j, t);
    FirstOf(fmt, j, t);
    FirstDigit(n);
    assert fmt[j..j + |t|] == t;
    Below(n, cfg.modulus);
  }

  lemma FirstDigit(n: nat)
    requires n > 0
    ensures 0x31 <= Numeral(10, n)[0] <= 0x39
  {
    NumeralCodes(10, n);
    if |Numeral(10, n)| == 1 {
      ValueCodes(10, [], Numeral(10, n)[0]);
      assert [] + [Numeral(10, n)[0]] == Numeral(10, n);
    }
  }

  lemma Below(n: nat, m: nat)
    requires n < m
    ensures n % m == n
  {}

  // ----- The law of items

  /** The settings of an item after all its flags. */
  function Gathered(cfg: Config, f: Flags): Item
    requires cfg.Valid()
  {
    Item(if f.field > 0 then f.field else cfg.modulus - 1, f.width, f.field > 0,
         if f.zero then 0x30 else 0x20, !f.left, f.comma, f.long)
  }

  lemma OptionalFlag(fmt: Text, j: nat, on: bool, c: Char16, rest: Text)
    requires Stands(fmt, j, When(on, c) + rest) && rest != []
    ensures Stands(fmt, j + |When(on, c)|, rest)
    ensures !on ==> |When(on, c)| == 0
    ensures on ==> j < |fmt| && fmt[j] == c && |When(on, c)| == 1
  {
    StandsCons(fmt, j, When(on, c), rest);
    if on {
      FirstOf(fmt, j, When(on, c));
    }
  }

  /** The flags before the numbers. */
  lemma GatherFirst(cfg: Config, fmt: Text, args: seq<Arg>, a: nat, attr: nat, j: nat, f: Flags, rest: Text)
    returns (k: nat)
    requires cfg.Valid() && rest != []
    requires Stands(fmt, j, When(f.zero, 0x30) + (When(f.left, 0x2D) + (When(f.comma, 0x2C) + rest)))
    ensures k == j + |When(f.zero, 0x30)| + |When(f.left, 0x2D)| + |When(f.comma, 0x2C)| && Stands(fmt, k, rest)
    ensures Same(cfg, fmt, args, a, attr, j, NewItem(cfg),
                 k, Item(cfg.modulus - 1, 0, false, if f.zero then 0x30 else 0x20, !f.left, f.comma, false))
  {
    hide RenderItem, Stands;
    var i0 := NewItem(cfg);
    OptionalFlag(fmt, j, f.zero, 0x30, When(f.left, 0x2D) + (When(f.comma, 0x2C) + rest));
    var j1, i1 := j + |When(f.zero, 0x30)|, if f.zero then i0.(pad := 0x30) else i0;
    if f.zero { FlagLaw(cfg, fmt, args, a, attr, j, i0); }
    OptionalFlag(fmt, j1, f.left, 0x2D, When(f.comma, 0x2C) + rest);
    var j2, i2 := j1 + |When(f.left, 0x2D)|, if f.left then i1.(padBefore := false) else i1;
    if f.left { FlagLaw(cfg, fmt, args, a, attr, j1, i1); }
    OptionalFlag(fmt, j2, f.comma, 0x2C, rest);
    k := j2 + |When(f.comma, 0x2C)|;
    StandsInside(fmt, k, rest);
    if f.comma { FlagLaw(cfg, fmt, args, a, attr, j2, i2); }
  }

  lemma StandsInside(s: Text, o: nat, t: Text)
    requires Stands(s, o, t)
    ensures o + |t| <= |s| && (t != [] ==> s[o] == t[0])
  {
    if t != [] {
      FirstOf(s, o, t);
    }
  }

  /** The width and what follows it, which is no digit. */
  lemma GatherWidth(
    cfg: Config, fmt: Text, args: seq<Arg>, a: nat, attr: nat, j: nat, item: Item, n: nat, rest: Text)
    requires cfg.Valid() && n < cfg.modulus && !item.toField && item.width == 0
    requires Stands(fmt, j, Digits10(n) + rest) && rest != [] && !(0x30 <= rest[0] <= 0x39)
    ensures Stands(fmt, j + |Digits10(n)|, rest) && j + |Digits10(n)| <= |fmt|
    ensures Same(cfg, fmt, args, a, attr, j, item, j + |Digits10(n)|, item.(width := n))
  {
    hide RenderItem, Stands, Numeral;
    StandsCons(fmt, j, Digits10(n), rest);
    StandsInside(fmt, j + |Digits10(n)|, rest);
    if n > 0 {
      NumberSets(cfg, fmt, args, a, attr, j, item, n);
    }
  }

  /** The dot and the field. */
  lemma GatherField(
    cfg: Config, fmt: Text, args: seq<Arg>, a: nat, attr: nat, j: nat, item: Item, n: nat, rest: Text)
    requires cfg.Valid() && n < cfg.modulus - 1 && !item.toField && item.fieldWidth == cfg.modulus - 1
    requires Stands(fmt, j, Field(n) + rest) && rest != [] && !(0x30 <= rest[0] <= 0x39)
    ensures Stands(fmt, j + |Field(n)|, rest) && j + |Field(n)| <= |fmt|
    ensures Same(cfg, fmt, args, a, attr, j, item, j + |Field(n)|,
                 if n > 0 then item.(toField := true, fieldWidth := n) else item)
  {
    hide RenderItem, Stands, Numeral;
    StandsCons(fmt, j, Field(n), rest);
    StandsInside(fmt, j + |Field(n)|, rest);
    if n > 0 {
      StandsCons(fmt, j, [0x2E], Numeral(10, n));
      StandsInside(fmt, j, [0x2E]);
      FlagLaw(cfg, fmt, args, a, attr, j, item);
      NumberSets(cfg, fmt, args, a, attr, j + 1, item.(toField := true), n);
    }
  }

  /** The letter: what it shows, in the layout of the gathered settings. */
  lemma LetterShows(
    cfg: Config, fmt: Text, args: seq<Arg>, a: nat, attr: nat, restore: nat, j: nat, f: Flags, letter: Char16)
    requires cfg.Valid() && j < |fmt| && fmt[j] == letter && Ends(letter)
    requires a < |args| || !TakesArgument(letter)
    requires f.width < cfg.modulus && f.field < cfg.modulus - 1
    requires |TextOf(cfg.modulus, ArgAt(args, a), f, letter)| < cfg.modulus
    ensures RenderItem(cfg, fmt, j, args, a, Gathered(cfg, f), attr, restore) ==
            Join(Paint(LaidOut(f, letter, TextOf(cfg.modulus, ArgAt(args, a), f, letter)), attr),
                 Render(cfg, fmt, j + 1, args, if TakesArgument(letter) then a + 1 else a,
                        if restore != 0 then restore else attr))
  {
    hide Value, Numeral, ValueText, Layout, LaidOut, Paint;
    var arg := ArgAt(args, a);
    ModBelow(arg.word, cfg.modulus);
    var item := Gathered(cfg, f);
    var t := TextOf(cfg.modulus, arg, f, letter);
    var item' := if letter == 0x58 then item.(width := if item.long then 16 else 8, pad := 0x30) else item;
    LayoutLaw(cfg, f, letter, t);
    assert ItemStep(cfg, fmt, j, args, a, item) == Show(item', t, j + 1, if TakesArgument(letter) then a + 1 else a);
  }

  lemma LayoutLaw(cfg: Config, f: Flags, letter: Char16, t: Text)
    requires cfg.Valid() && f.width < cfg.modulus && f.field < cfg.modulus - 1 && |t| < cfg.modulus
    ensures var item := Gathered(cfg, f);
            var item' := if letter == 0x58 then item.(width := if item.long then 16 else 8, pad := 0x30) else item;
            Layout(cfg, item', t) == LaidOut(f, letter, t)
  {}

  /** Every item puts what its letter makes of the next argument, laid out by its flags, and goes on behind
      the letter. */
  lemma ItemLaw(cfg: Config, fmt: Text, i: nat, args: seq<Arg>, a: nat, attr: nat, f: Flags, letter: Char16)
    requires cfg.Valid() && Stands(fmt, i, ItemText(f, letter)) && Ends(letter)
    requires a < |args| || !TakesArgument(letter)
    requires f.width < cfg.modulus && f.field < cfg.modulus - 1
    requires |TextOf(cfg.modulus, ArgAt(args, a), f, letter)| < cfg.modulus
    ensures i + |ItemText(f, letter)| <= |fmt|
    ensures Puts(cfg, fmt, i, args, a, attr, LaidOut(f, letter, TextOf(cfg.modulus, ArgAt(args, a), f, letter)),
                 i + |ItemText(f, letter)|, if TakesArgument(letter) then a + 1 else a)
  {
    hide RenderItem, Stands, Numeral, LaidOut, TextOf, Paint, Join, Ends, When, Digits10, Field;
    EndsNoDigit(letter);
    StandsInside(fmt, i, ItemText(f, letter));
    var width := Digits10(f.width) + (Field(f.field) + (When(f.long, 0x6C) + [letter]));
    var flags := When(f.zero, 0x30) + (When(f.left, 0x2D) + (When(f.comma, 0x2C) + width));
    assert ItemText(f, letter) == [0x25] + flags;
    StandsCons(fmt, i, [0x25], flags);
    var k := GatherFirst(cfg, fmt, args, a, attr, i + 1, f, width);
    var e := GatherRest(cfg, fmt, args, a, attr, k, f, letter);
    LetterShows(cfg, fmt, args, a, attr, 0, e, f, letter);
  }

  /** The width, the field and the `l`. */
  lemma GatherRest(cfg: Config, fmt: Text, args: seq<Arg>, a: nat, attr: nat, k: nat, f: Flags, letter: Char16)
    returns (e: nat)
    requires cfg.Valid() && f.width < cfg.modulus && f.field < cfg.modulus - 1 && !(0x30 <= letter <= 0x39)
    requires Stands(fmt, k, Digits10(f.width) + (Field(f.field) + (When(f.long, 0x6C) + [letter])))
    ensures e == k + |Digits10(f.width)| + |Field(f.field)| + |When(f.long, 0x6C)| < |fmt| && fmt[e] == letter
    ensures Same(cfg, fmt, args, a, attr,
                 k, Item(cfg.modulus - 1, 0, false, if f.zero then 0x30 else 0x20, !f.left, f.comma, false),
                 e, Gathered(cfg, f))
  {
    hide RenderItem, Stands, Numeral;
    var last := When(f.long, 0x6C) + [letter];
    var i1 := Item(cfg.modulus - 1, 0, false, if f.zero then 0x30 else 0x20, !f.left, f.comma, false);
    GatherWidth(cfg, fmt, args, a, attr, k, i1, f.width, Field(f.field) + last);
    var k2, i2 := k + |Digits10(f.width)|, i1.(width := f.width);
    GatherField(cfg, fmt, args, a, attr, k2, i2, f.field, last);
    var k3, i3 := k2 + |Field(f.field)|, if f.field > 0 then i2.(toField := true, fieldWidth := f.field) else i2;
    OptionalFlag(fmt, k3, f.long, 0x6C, [letter]);
    if f.long { FlagLaw(cfg, fmt, args, a, attr, k3, i3); }
    e := k3 + |When(f.long, 0x6C)|;
    StandsInside(fmt, e, [letter]);
    assert (if f.long then i3.(long := true) else i3) == Gathered(cfg, f);
  }

  lemma EndsNoDigit(letter: Char16)
    requires Ends(letter)
    ensures !(0x30 <= letter <= 0x39)
  {}

  /** `%0<n>x`: the hexadecimal number, filled up with zeros on its left to n characters. */
  lemma ZeroFilledHex(cfg: Config, n: nat, args: seq<Arg>, attr: nat)
    requires cfg.Valid() && 0 < n < cfg.modulus && |args| > 0
    ensures var t := Numeral(16, args[0].word % cfg.modulus);
            var fmt := [0x25, 0x30] + Numeral(10, n) + [0x78];
            Render(cfg, fmt, 0, args, 0, attr) == Some(Paint(Copies(0x30, n - |t|) + t, attr))
  {
    hide Render, Paint, Numeral, Ends;
    LettersEnd();
    var f := Flags(true, false, false, n, 0, false);
    var fmt := [0x25, 0x30] + Numeral(10, n) + [0x78];
    ModBelow(args[0].word, cfg.modulus);
    var t := Numeral(16, args[0].word % cfg.modulus);
    WholeItem(cfg, args, attr, f, 0x78, fmt, t, Copies(0x30, n - |t|) + t);
  }

  /** `%.<n>s` and `%-.<n>s`: the first n characters of the string, spaced out on the left or the right to n. */
  lemma CutString(cfg: Config, n: nat, left: bool, args: seq<Arg>, attr: nat)
    requires cfg.Valid() && 0 < n < cfg.modulus - 1 && |args| > 0 && args[0].wide.Some?
    requires |args[0].wide.value| < cfg.modulus
    ensures var t := args[0].wide.value;
            var cut := if |t| > n then t[..n] else t;
            var fmt := [0x25] + (if left then [0x2D] else []) + [0x2E] + Numeral(10, n) + [0x73];
            Render(cfg, fmt, 0, args, 0, attr) ==
            Some(Paint(if left then cut + Copies(0x20, n - |cut|) else Copies(0x20, n - |cut|) + cut, attr))
  {
    hide Render, Paint, Numeral, Ends;
    LettersEnd();
    var f := Flags(false, left, false, 0, n, false);
    var t := args[0].wide.value;
    var cut := if |t| > n then t[..n] else t;
    var fmt := [0x25] + (if left then [0x2D] else []) + [0x2E] + Numeral(10, n) + [0x73];
    WholeItem(cfg, args, attr, f, 0x73, fmt, t,
              if left then cut + Copies(0x20, n - |cut|) else Copies(0x20, n - |cut|) + cut);
  }

  lemma LettersEnd()
    ensures Ends(0x78) && Ends(0x73)
  {}

  /** A format that is one item. */
  lemma WholeItem(cfg: Config, args: seq<Arg>, attr: nat, f: Flags, letter: Char16, fmt: Text, t: Text, laid: Text)
    requires cfg.Valid() && |args| > 0 && Ends(letter) && TakesArgument(letter)
    requires f.width < cfg.modulus && f.field < cfg.modulus - 1
    requires fmt == ItemText(f, letter) && t == TextOf(cfg.modulus, args[0], f, letter) && laid == LaidOut(f, letter, t)
    requires |t| < cfg.modulus || letter == 0x78
    ensures Render(cfg, fmt, 0, args, 0, attr) == Some(Paint(laid, attr))
  {
    hide ItemText, LaidOut, RenderItem, Paint;
    if letter == 0x78 {
      HexShort(cfg, args[0], f);
    }
    assert fmt[0..0 + |fmt|] == fmt;
    ItemLaw(cfg, fmt, 0, args, 0, attr, f, letter);
    assert Paint(laid, attr) + [] == Paint(laid, attr);
  }

  lemma HexShort(cfg: Config, arg: Arg, f: Flags)
    requires cfg.Valid()
    ensures |TextOf(cfg.modulus, arg, f, 0x78)| < cfg.modulus
  {
    ModBelow(arg.word, cfg.modulus);
    HexLength(if f.long then arg.word % 0x1_0000_0000_0000_0000 else arg.word % cfg.modulus);
  }

  // ----- Widths from arguments, and attributes

  /** `%*` and a letter: the width comes from the argument before. */
  lemma StarLaw(cfg: Config, fmt: Text, i: nat, args: seq<Arg>, a: nat, attr: nat, letter: Char16)
    requires cfg.Valid() && Stands(fmt, i, [0x25, 0x2A, letter]) && Ends(letter) && a + 1 < |args|
    requires |TextOf(cfg.modulus, args[a + 1], Flags(false, false, false, 0, 0, false), letter)| < cfg.modulus
    ensures var f := Flags(false, false, false, args[a].word % cfg.modulus, 0, false);
            i + 3 <= |fmt| &&
            Puts(cfg, fmt, i, args, a, attr, LaidOut(f, letter, TextOf(cfg.modulus, args[a + 1], f, letter)),
                 i + 3, if TakesArgument(letter) then a + 2 else a + 1)
  {
    hide LaidOut, Paint, Join;
    ModBelow(args[a].word, cfg.modulus);
    var f := Flags(false, false, false, args[a].word % cfg.modulus, 0, false);
    assert fmt[i..i + 3] == [0x25, 0x2A, letter];
    assert fmt[i] == fmt[i..i + 3][0] && fmt[i + 1] == fmt[i..i + 3][1] && fmt[i + 2] == fmt[i..i + 3][2];
    StarStep(cfg, fmt, i + 1, args, a, attr);
    LetterShows(cfg, fmt, args, a + 1, attr, 0, i + 2, f, letter);
  }

  lemma StarStep(cfg: Config, fmt: Text, j: nat, args: seq<Arg>, a: nat, attr: nat)
    requires cfg.Valid() && j < |fmt| && fmt[j] == 0x2A && a < |args|
    ensures 0 <= args[a].word % cfg.modulus
    ensures RenderItem(cfg, fmt, j, args, a, NewItem(cfg), attr, 0) ==
            RenderItem(cfg, fmt, j + 1, args, a + 1,
                       Gathered(cfg, Flags(false, false, false, args[a].word % cfg.modulus, 0, false)), attr, 0)
  {
    ModBelow(args[a].word, cfg.modulus);
  }

  /** The attribute each letter stands for: normal, highlight and error. */
  function AttributeOf(cfg: Config, letter: Char16): nat {
    if letter == 0x6E || letter == 0x4E then cfg.norm
    else if letter == 0x68 || letter == 0x48 then cfg.highlight
    else cfg.error
  }

  /** `%N`, `%H` and `%E` put nothing and set the attribute for what follows. */
  lemma AttributeLaw(cfg: Config, fmt: Text, i: nat, args: seq<Arg>, a: nat, attr: nat)
    requires cfg.Valid() && i + 1 < |fmt| && fmt[i] == 0x25 && fmt[i + 1] in [0x4E, 0x48, 0x45]
    requires AttributeOf(cfg, fmt[i + 1]) != 0
    ensures Render(cfg, fmt, i, args, a, attr) ==
            Render(cfg, fmt, i + 2, args, a, AttributeOf(cfg, fmt[i + 1]))
  {
    hide ItemStep, Paint, Join;
    AttributeCode(cfg, fmt, i + 1, args, a, NewItem(cfg));
  }

  lemma AttributeCode(cfg: Config, fmt: Text, j: nat, args: seq<Arg>, a: nat, item: Item)
    requires cfg.Valid() && j < |fmt| && fmt[j] in [0x4E, 0x48, 0x45] && AttributeOf(cfg, fmt[j]) != 0
    ensures ItemStep(cfg, fmt, j, args, a, item) == Finish(AttributeOf(cfg, fmt[j]), j + 1)
  {
    hide Value, Numeral, ValueText;
  }

  /** `%n`, `%h` or `%e` before a letter show its field under that attribute; then the one before is in force
      again, unless there was none. */
  lemma FieldAttributeLaw(cfg: Config, fmt: Text, i: nat, args: seq<Arg>, a: nat, attr: nat, letter: Char16)
    requires cfg.Valid() && i + 2 < |fmt| && fmt[i] == 0x25 && fmt[i + 1] in [0x6E, 0x68, 0x65]
    requires fmt[i + 2] == letter && Ends(letter) && (a < |args| || !TakesArgument(letter))
    requires |TextOf(cfg.modulus, ArgAt(args, a), Flags(false, false, false, 0, 0, false), letter)| < cfg.modulus
    ensures var f, c := Flags(false, false, false, 0, 0, false), AttributeOf(cfg, fmt[i + 1]);
            Render(cfg, fmt, i, args, a, attr) ==
            Join(Paint(LaidOut(f, letter, TextOf(cfg.modulus, ArgAt(args, a), f, letter)), c),
                 Render(cfg, fmt, i + 3, args, if TakesArgument(letter) then a + 1 else a,
                        if attr != 0 then attr else c))
  {
    hide LaidOut, Paint, Join, TextOf, RenderItem;
    var f := Flags(false, false, false, 0, 0, false);
    assert Gathered(cfg, f) == NewItem(cfg);
    FieldAttributeStep(cfg, fmt, i + 1, args, a, attr);
    LetterShows(cfg, fmt, args, a, AttributeOf(cfg, fmt[i + 1]), attr, i + 2, f, letter);
  }

  lemma FieldAttributeStep(cfg: Config, fmt: Text, j: nat, args: seq<Arg>, a: nat, attr: nat)
    requires cfg.Valid() && j < |fmt| && fmt[j] in [0x6E, 0x68, 0x65]
    ensures RenderItem(cfg, fmt, j, args, a, NewItem(cfg), attr, 0) ==
            RenderItem(cfg, fmt, j + 1, args, a, NewItem(cfg), AttributeOf(cfg, fmt[j]), attr)
  {
    hide ItemStep, Paint, Join;
    FieldAttributeCode(cfg, fmt, j, args, a, NewItem(cfg));
  }

  lemma FieldAttributeCode(cfg: Config, fmt: Text, j: nat, args: seq<Arg>, a: nat, item: Item)
    requires cfg.Valid() && j < |fmt| && fmt[j] in [0x6E, 0x68, 0x65]
    ensures ItemStep(cfg, fmt, j, args, a, item) == Attribute(AttributeOf(cfg, fmt[j]), j + 1)
  {
    hide Value, Numeral, ValueText;
  }
}
