/** What a format string and its arguments stand for: the item syntax and layout of LIB/print.c. */
module PrintFormat {
  import opened EfiBase
  import opened Math64
  import opened NumberText

  const PERCENT: Char16 := 0x25
  const CR: Char16 := 0x0D
  const LF: Char16 := 0x0A

  /** One variable argument, as each kind of item reads it: a number, a wide or narrow string pointer, or
      the text of a GUID, time or status code. */
  datatype Arg = Arg(word: nat, wide: Option<Text>, narrow: Option<Text>, rendered: Text)

  /** The word size of UINTN as a modulus, and the three console attributes (zero when there is none). */
  datatype Config = Config(modulus: nat, norm: nat, highlight: nat, error: nat) {
    predicate Valid() { 0x10000 < modulus <= W64 }
  }

  function ArgAt(args: seq<Arg>, a: nat): Arg {
    if a < |args| then args[a] else Arg(0, None, None, [])
  }

  /** String arguments are C strings. */
  ghost predicate ArgsOk(args: seq<Arg>) {
    forall i :: 0 <= i < |args| ==>
      && NulFree(args[i].rendered)
      && (args[i].wide.Some? ==> NulFree(args[i].wide.value))
      && (args[i].narrow.Some? ==> NulFree(args[i].narrow.value))
  }

  /** PRINT_ITEM: the settings gathered between `%` and the conversion character. */
  datatype Item = Item(
    fieldWidth: nat, width: nat, toField: bool, pad: Char16, padBefore: bool, comma: bool, long: bool)
  {
    function SetWidth(w: nat): Item { if toField then this.(fieldWidth := w) else this.(width := w) }
  }

  function NewItem(cfg: Config): Item
    requires cfg.Valid()
  {
    Item(cfg.modulus - 1, 0, false, SPACE, true, false, false)
  }

  /** What one character of an item does. */
  datatype Step =
    | Setting(item: Item, next: nat, used: nat)
    | Attribute(attr: nat, next: nat)
    | Finish(attr: nat, next: nat)
    | Show(item: Item, text: Text, next: nat, used: nat)

  /** The number an item prints: a 64-bit argument when long, else a UINTN. */
  function Number(cfg: Config, item: Item, arg: Arg): U64
    requires cfg.Valid()
  {
    if item.long then arg.word % W64
    else
      ModBelow(arg.word, cfg.modulus);
      arg.word % cfg.modulus
  }

  lemma ModBelow(x: nat, m: nat)
    requires m > 0
    ensures 0 <= x % m < m
  {}

  function Signed(x: U64): int { if x < W63 then x else x - W64 }

  /** "(null)" */
  const NULL_TEXT: Text := [0x28, 0x6E, 0x75, 0x6C, 0x6C, 0x29]

  function NullText(t: Option<Text>): Text { if t.None? then NULL_TEXT else t.value }

  /** The switch of _Print, for the character at `i`, with `a` arguments used. */
  function ItemStep(cfg: Config, fmt: Text, i: nat, args: seq<Arg>, a: nat, item: Item): (s: Step)
    requires cfg.Valid() && i < |fmt|
    ensures i < s.next <= |fmt|
  {
    var c, arg := fmt[i], ArgAt(args, a);
    if c == PERCENT then Show(item, [PERCENT], i + 1, a)
    else if c == 0x30 then Setting(item.(pad := ZERO), i + 1, a)                      // 0
    else if c == 0x2D then Setting(item.(padBefore := false), i + 1, a)               // -
    else if c == 0x2C then Setting(item.(comma := true), i + 1, a)                    // ,
    else if c == 0x2E then Setting(item.(toField := true), i + 1, a)                  // .
    else if c == 0x2A then                                                            // *
      ModBelow(arg.word, cfg.modulus);
      Setting(item.SetWidth(arg.word % cfg.modulus), i + 1, a + 1)
    else if IsDecimal(c) then                                                         // 1-9
      var e := DecimalEnd(fmt, i);
      ModBelow(Value(10, fmt[i..e]), cfg.modulus);
      Setting(item.SetWidth(Value(10, fmt[i..e]) % cfg.modulus), e, a)
    else if c == 0x61 then Show(item, NullText(arg.narrow), i + 1, a + 1)             // a
    else if c == 0x73 then Show(item, NullText(arg.wide), i + 1, a + 1)               // s
    else if c == 0x63 then                                                            // c
      var ch := arg.word % 0x10000;
      Show(item, if ch == 0 then [] else [ch], i + 1, a + 1)
    else if c == 0x6C then Setting(item.(long := true), i + 1, a)                     // l
    else if c == 0x58 then                                                            // X
      Show(item.(width := if item.long then 16 else 8, pad := ZERO), Numeral(16, Number(cfg, item, arg)), i + 1, a + 1)
    else if c == 0x78 then Show(item, Numeral(16, Number(cfg, item, arg)), i + 1, a + 1)   // x
    else if c == 0x64 then                                                            // d
      Show(item, ValueText(item.comma, Signed(Number(cfg, item, arg))), i + 1, a + 1)
    else if c == 0x67 || c == 0x74 || c == 0x72 then Show(item, arg.rendered, i + 1, a + 1)   // g t r
    else if c == 0x6E then Attribute(cfg.norm, i + 1)                                 // n
    else if c == 0x68 then Attribute(cfg.highlight, i + 1)                            // h
    else if c == 0x65 then Attribute(cfg.error, i + 1)                                // e
    else if c == 0x4E || c == 0x48 || c == 0x45 then                                  // N H E
      var attr := if c == 0x4E then cfg.norm else if c == 0x48 then cfg.highlight else cfg.error;
      if attr != 0 then Finish(attr, i + 1) else Setting(item, i + 1, a)
    else Show(item, [QUESTION], i + 1, a)
  }

  const QUESTION: Char16 := 0x3F

  function Repeat(c: Char16, n: nat): Text {
    seq(n, _ => c)
  }

  function Max(a: nat, b: nat): nat { if a > b then a else b }
  function Gap(from: nat, to: nat): nat { if from < to then to - from else 0 }

  /** The text of an item cut to the field width, padded to the width, spaced out to the field width. */
  function Layout(cfg: Config, item: Item, text: Text): Text
    requires cfg.Valid()
  {
    var shown := if |text| > item.fieldWidth then text[..item.fieldWidth] else text;
    var field := if item.fieldWidth == cfg.modulus - 1 then |shown| else item.fieldWidth;
    var width := Max(item.width, |shown|);
    var body := Repeat(item.pad, width - |shown|) + shown;
    var space := Repeat(SPACE, Gap(width, field));
    if item.padBefore then space + body else body + space
  }

  /** A laid-out item is as long as the longest of its width, its field width and what it shows. */
  lemma LayoutLength(cfg: Config, item: Item, text: Text)
    requires cfg.Valid()
    ensures var shown := if |text| > item.fieldWidth then item.fieldWidth else |text|;
            var field := if item.fieldWidth == cfg.modulus - 1 then 0 else item.fieldWidth;
            |Layout(cfg, item, text)| == Max(Max(item.width, shown), field)
  {}

  // ----- What a format stands for

  /** A character and the attribute it is shown under. */
  datatype Cell = Cell(c: Char16, attr: nat)

  function Paint(t: Text, attr: nat): seq<Cell> {
    seq(|t|, i requires 0 <= i < |t| => Cell(t[i], attr))
  }

  function Chars(cs: seq<Cell>): Text {
    seq(|cs|, i requires 0 <= i < |cs| => cs[i].c)
  }

  /** What a format puts out from position `i` on under attribute `attr`, before carriage returns are
      added; `None` when it ends inside an item, where the source reads on past its end. */
  function Render(cfg: Config, fmt: Text, i: nat, args: seq<Arg>, a: nat, attr: nat): Option<seq<Cell>>
    requires cfg.Valid() && i <= |fmt|
    decreases |fmt| - i
  {
    if i == |fmt| then Some([])
    else if fmt[i] != PERCENT then Join(Paint([fmt[i]], attr), Render(cfg, fmt, i + 1, args, a, attr))
    else RenderItem(cfg, fmt, i + 1, args, a, NewItem(cfg), attr, 0)
  }

  /** An item; `restore` is the attribute to go back to after it, zero for none. */
  function RenderItem(
    cfg: Config, fmt: Text, i: nat, args: seq<Arg>, a: nat, item: Item, attr: nat, restore: nat): Option<seq<Cell>>
    requires cfg.Valid() && i <= |fmt|
    decreases |fmt| - i
  {
    if i == |fmt| then None
    else match ItemStep(cfg, fmt, i, args, a, item)
      case Setting(item', next, used) => RenderItem(cfg, fmt, next, args, used, item', attr, restore)
      case Attribute(attr', next) => RenderItem(cfg, fmt, next, args, a, item, attr', attr)
      case Finish(attr', next) => Render(cfg, fmt, next, args, a, attr')
      case Show(item', text, next, used) =>
        Join(Paint(Layout(cfg, item', text), attr), Render(cfg, fmt, next, args, used, Back(attr, restore)))
  }

  function Back(attr: nat, restore: nat): nat { if restore != 0 then restore else attr }

  function Join(t: seq<Cell>, rest: Option<seq<Cell>>): Option<seq<Cell>> {
    if rest.None? then None else Some(t + rest.value)
  }

  // ----- Carriage returns

  /** `e` is `t` with a carriage return added before some of its line feeds, under the same attribute. */
  ghost predicate Expands(t: seq<Cell>, e: seq<Cell>) {
    if t == [] then e == []
    else
      var x, t', n := t[|t| - 1], t[..|t| - 1], |e|;
      || (n > 0 && e[n - 1] == x && Expands(t', e[..n - 1]))
      || (x.c == LF && n > 1 && e[n - 1] == x && e[n - 2] == Cell(CR, x.attr) && Expands(t', e[..n - 2]))
  }

  lemma ExpandsAppend(t: seq<Cell>, e: seq<Cell>, c: Char16, attr: nat)
    requires Expands(t, e)
    ensures Expands(t + [Cell(c, attr)], e + [Cell(c, attr)])
    ensures c == LF ==> Expands(t + [Cell(c, attr)], e + [Cell(CR, attr), Cell(LF, attr)])
  {}

  /** Without line feeds nothing is added. */
  lemma {:induction false} ExpandsPlain(t: seq<Cell>, e: seq<Cell>)
    requires Expands(t, e) && forall i :: 0 <= i < |t| ==> t[i].c != LF
    ensures e == t
  {
    if t != [] {
      ExpandsPlain(t[..|t| - 1], e[..|e| - 1]);
      assert t == t[..|t| - 1] + [t[|t| - 1]] && e == e[..|e| - 1] + [e[|e| - 1]];
    }
  }

  function WithoutCR(t: seq<Cell>): seq<Cell> {
    if t == [] then [] else
      var n := |t| - 1;
      WithoutCR(t[..n]) + if t[n].c == CR then [] else [t[n]]
  }

  /** Apart from carriage returns the output is exactly what the format puts out. */
  lemma {:induction false} ExpandsKeeps(t: seq<Cell>, e: seq<Cell>)
    requires Expands(t, e)
    ensures WithoutCR(e) == WithoutCR(t)
    decreases |e|
  {
    if t != [] {
      var x, t', n := t[|t| - 1], t[..|t| - 1], |e|;
      if n > 0 && e[n - 1] == x && Expands(t', e[..n - 1]) {
        ExpandsKeeps(t', e[..n - 1]);
      } else {
        ExpandsKeeps(t', e[..n - 2]);
        assert e[..n - 1][..n - 2] == e[..n - 2];
        assert WithoutCR(e[..n - 1]) == WithoutCR(e[..n - 2]);
      }
    }
  }

  /** In every string, a line feed that is not its first character follows a carriage return. */
  ghost predicate LinesEnded(t: Text) {
    forall i :: 0 < i < |t| && t[i] == LF ==> t[i - 1] == CR
  }

  // ----- Texts of items contain no NUL

  lemma {:induction false} GroupedNulFree(ds: Text, i: nat)
    requires NulFree(ds) && i <= |ds|
    ensures NulFree(Grouped(ds, i))
    decreases |ds| - i
  {
    if i < |ds| {
      GroupedStep(ds, i);
      GroupedNulFree(ds, i + 1);
    }
  }

  lemma ValueTextNulFree(comma: bool, v: int)
    ensures NulFree(ValueText(comma, v))
  {
    var plain := Numeral(10, if v < 0 then -v else v);
    GroupedNulFree(plain, 0);
  }

  lemma ShowNulFree(cfg: Config, fmt: Text, i: nat, args: seq<Arg>, a: nat, item: Item)
    requires cfg.Valid() && i < |fmt| && NulFree(fmt) && ArgsOk(args)
    ensures ItemStep(cfg, fmt, i, args, a, item).Show? ==> NulFree(ItemStep(cfg, fmt, i, args, a, item).text)
    ensures var s := ItemStep(cfg, fmt, i, args, a, item);
            item.pad != 0 && (s.Setting? || s.Show?) ==> s.item.pad != 0
  {
    hide ValueText, Numeral, Value;
    ValueTextNulFree(item.comma, Signed(Number(cfg, item, ArgAt(args, a))));
  }

  // ----- Room

  /** The most characters a text can put: every line feed may bring a carriage return. */
  function Widest(t: seq<Cell>): nat {
    if t == [] then 0 else Widest(t[..|t| - 1]) + Wide(t[|t| - 1].c)
  }

  function Wide(c: Char16): nat { if c == LF then 2 else 1 }

  lemma WidestAppend(t: seq<Cell>, x: Cell)
    ensures Widest(t + [x]) == Widest(t) + Wide(x.c)
  {
    assert (t + [x])[..|t|] == t;
  }

  lemma {:induction false} WidestPrefix(t: seq<Cell>, u: seq<Cell>)
    requires t <= u
    ensures Widest(t) <= Widest(u)
  {
    if |t| < |u| {
      WidestPrefix(t, u[..|u| - 1]);
    } else {
      assert t == u;
    }
  }

  lemma {:induction false} ExpandsWidth(t: seq<Cell>, e: seq<Cell>)
    requires Expands(t, e)
    ensures |t| <= |e| <= Widest(t)
    decreases |t|
  {
    if t != [] {
      var x, t', n := t[|t| - 1], t[..|t| - 1], |e|;
      if n > 0 && e[n - 1] == x && Expands(t', e[..n - 1]) {
        ExpandsWidth(t', e[..n - 1]);
      } else {
        ExpandsWidth(t', e[..n - 2]);
      }
    }
  }

  // ----- Formats that end inside an item

  /** A character that leaves an item unfinished: a digit, a setting, an attribute for the field, or one of
      N, H and E where that attribute is zero. */
  predicate Gathering(cfg: Config, c: Char16) {
    || IsDecimal(c)
    || c in [0x2D, 0x2C, 0x2E, 0x2A, 0x6C, 0x6E, 0x68, 0x65]                          // - , . * l n h e
    || (c == 0x4E && cfg.norm == 0) || (c == 0x48 && cfg.highlight == 0) || (c == 0x45 && cfg.error == 0)
  }

  /** From position `i` on, outside an item: the format ends inside one. */
  predicate Open(cfg: Config, fmt: Text, i: nat)
    requires i <= |fmt|
    decreases |fmt| - i
  {
    i < |fmt| && if fmt[i] == PERCENT then OpenItem(cfg, fmt, i + 1) else Open(cfg, fmt, i + 1)
  }

  /** The same from inside an item: the first character that does not gather ends it. */
  predicate OpenItem(cfg: Config, fmt: Text, i: nat)
    requires i <= |fmt|
    decreases |fmt| - i
  {
    i == |fmt| || if Gathering(cfg, fmt[i]) then OpenItem(cfg, fmt, i + 1) else Open(cfg, fmt, i + 1)
  }

  lemma StepGathers(cfg: Config, fmt: Text, i: nat, args: seq<Arg>, a: nat, item: Item)
    requires cfg.Valid() && i < |fmt|
    ensures var s := ItemStep(cfg, fmt, i, args, a, item);
            && (s.Setting? || s.Attribute? <==> Gathering(cfg, fmt[i]))
            && (!Gathering(cfg, fmt[i]) ==> s.next == i + 1)
            && forall k :: i <= k < s.next && Gathering(cfg, fmt[i]) ==> Gathering(cfg, fmt[k])
  {
    hide Value, Numeral, ValueText;
  }

  lemma {:induction false} SkipGathered(cfg: Config, fmt: Text, i: nat, e: nat)
    requires i <= e <= |fmt| && forall k :: i <= k < e ==> Gathering(cfg, fmt[k])
    ensures OpenItem(cfg, fmt, i) <==> OpenItem(cfg, fmt, e)
    decreases e - i
  {
    hide Gathering;
    if i < e {
      SkipGathered(cfg, fmt, i + 1, e);
    }
  }

  /** The source reads past the end of a format exactly when its characters leave an item open, whatever
      the arguments and the attribute in force. */
  lemma {:induction false} EndsInsideIff(cfg: Config, fmt: Text, i: nat, args: seq<Arg>, a: nat, attr: nat)
    requires cfg.Valid() && i <= |fmt|
    ensures Render(cfg, fmt, i, args, a, attr).None? <==> Open(cfg, fmt, i)
    decreases |fmt| - i
  {
    hide ItemStep, Layout, Paint, Gathering;
    if i < |fmt| {
      if fmt[i] == PERCENT {
        ItemEndsInsideIff(cfg, fmt, i + 1, args, a, NewItem(cfg), attr, 0);
      } else {
        EndsInsideIff(cfg, fmt, i + 1, args, a, attr);
      }
    }
  }

  lemma {:induction false} ItemEndsInsideIff(
    cfg: Config, fmt: Text, i: nat, args: seq<Arg>, a: nat, item: Item, attr: nat, restore: nat)
    requires cfg.Valid() && i <= |fmt|
    ensures RenderItem(cfg, fmt, i, args, a, item, attr, restore).None? <==> OpenItem(cfg, fmt, i)
    decreases |fmt| - i
  {
    hide ItemStep, Layout, Paint, Gathering;
    if i < |fmt| {
      StepGathers(cfg, fmt, i, args, a, item);
      match ItemStep(cfg, fmt, i, args, a, item)
      case Setting(item', next, used) =>
        SkipGathered(cfg, fmt, i, next);
        ItemEndsInsideIff(cfg, fmt, next, args, used, item', attr, restore);
      case Attribute(attr', next) =>
        SkipGathered(cfg, fmt, i, next);
        ItemEndsInsideIff(cfg, fmt, next, args, a, item, attr', attr);
      case Finish(attr', next) =>
        EndsInsideIff(cfg, fmt, next, args, a, attr');
      case Show(item', text, next, used) =>
        EndsInsideIff(cfg, fmt, next, args, used, Back(attr, restore));
    }
  }

  /** What a whole format stands for, when no item is left open. */
  ghost function Rendered(cfg: Config, fmt: Text, args: seq<Arg>, attr: nat): (t: seq<Cell>)
    requires cfg.Valid() && !Open(cfg, fmt, 0)
    ensures Render(cfg, fmt, 0, args, 0, attr) == Some(t)
  {
    EndsInsideIff(cfg, fmt, 0, args, 0, attr);
    Render(cfg, fmt, 0, args, 0, attr).value
  }

  /** A lone `%`, and `%N` where there are no attributes, are such formats; `%N` on a console is not. */
  lemma IncompleteFormats(cfg: Config)
    ensures Open(cfg, [PERCENT], 0)
    ensures Open(cfg, [PERCENT, 0x4E], 0) <==> cfg.norm == 0
  {
    assert OpenItem(cfg, [PERCENT], 1);
    var f := [PERCENT, 0x4E];
    assert OpenItem(cfg, f, 2) && !Open(cfg, f, 2);
    assert OpenItem(cfg, f, 1) <==> cfg.norm == 0;
  }

  // ----- Attributes for one field

  /** The attributes the letters n, h and e of an item set, first to last, when a conversion ends the item. */
  function Letters(cfg: Config, fmt: Text, i: nat, args: seq<Arg>, a: nat, item: Item): Option<seq<nat>>
    requires cfg.Valid() && i <= |fmt|
    decreases |fmt| - i
  {
    if i == |fmt| then None
    else match ItemStep(cfg, fmt, i, args, a, item)
      case Setting(item', next, used) => Letters(cfg, fmt, next, args, used, item')
      case Attribute(attr', next) =>
        var rest := Letters(cfg, fmt, next, args, a, item);
        if rest.None? then None else Some([attr'] + rest.value)
      case Finish(attr', next) => None
      case Show(item', text, next, used) => Some([])
  }

  /** The attribute of the field, and the one in force after it. */
  function FieldAttr(attr: nat, letters: seq<nat>): nat { if letters == [] then attr else letters[|letters| - 1] }

  function AttrAfter(attr: nat, restore: nat, letters: seq<nat>): nat {
    if letters == [] then Back(attr, restore)
    else if |letters| == 1 then Back(letters[0], attr)
    else Back(letters[|letters| - 1], letters[|letters| - 2])
  }

  /** An item that a conversion ends shows its field under the last attribute its letters set, then goes
      back to the attribute before that one. */
  lemma {:induction false} ItemAttributes(
    cfg: Config, fmt: Text, i: nat, args: seq<Arg>, a: nat, item: Item, attr: nat, restore: nat)
    returns (text: Text, next: nat, used: nat)
    requires cfg.Valid() && i <= |fmt| && Letters(cfg, fmt, i, args, a, item).Some?
    ensures var letters := Letters(cfg, fmt, i, args, a, item).value;
            && i < next <= |fmt|
            && RenderItem(cfg, fmt, i, args, a, item, attr, restore) ==
               Join(Paint(text, FieldAttr(attr, letters)),
                    Render(cfg, fmt, next, args, used, AttrAfter(attr, restore, letters)))
    decreases |fmt| - i
  {
    hide ItemStep, Layout, Paint;
    match ItemStep(cfg, fmt, i, args, a, item)
    case Setting(item', next', used') =>
      text, next, used := ItemAttributes(cfg, fmt, next', args, used', item', attr, restore);
    case Attribute(attr', next') =>
      text, next, used := ItemAttributes(cfg, fmt, next', args, a, item, attr', attr);
    case Show(item', text', next', used') =>
      text, next, used := Layout(cfg, item', text'), next', used';
  }

  /** "For this field only": the attribute before an item is in force again after it exactly when its
      letters set none; set one, and there was an attribute to go back to or the letter set none either;
      or set that same one last but one, or last where the one before it was none. */
  lemma FieldOnlyIff(attr: nat, letters: seq<nat>)
    ensures var n := |letters|;
            AttrAfter(attr, 0, letters) == attr <==>
            || n == 0
            || (n == 1 && (attr != 0 || letters[0] == 0))
            || (n > 1 && letters[n - 2] == attr && (attr != 0 || letters[n - 1] == 0))
            || (n > 1 && letters[n - 2] == 0 && letters[n - 1] == attr)
  {}

  /** `%hed` leaves the highlight attribute in force, whatever was before it. */
  lemma TwoLetters(cfg: Config, args: seq<Arg>, attr: nat) returns (text: Text)
    requires cfg.Valid() && cfg.highlight != 0
    ensures var f := [PERCENT, 0x68, 0x65, 0x64, 0x21];
            Render(cfg, f, 0, args, 0, attr) == Some(Paint(text, cfg.error) + [Cell(0x21, cfg.highlight)])
  {
    hide ItemStep, Layout, Paint;
    var f := [PERCENT, 0x68, 0x65, 0x64, 0x21];
    var item := NewItem(cfg);
    TwoLetterSteps(cfg, args);
    text := Layout(cfg, item, ItemStep(cfg, f, 3, args, 0, item).text);
    assert Render(cfg, f, 5, args, 1, cfg.highlight) == Some([]);
    PaintOne(0x21, cfg.highlight);
    assert [Cell(0x21, cfg.highlight)] + [] == [Cell(0x21, cfg.highlight)];
    assert Render(cfg, f, 4, args, 1, cfg.highlight) == Some([Cell(0x21, cfg.highlight)]);
    assert RenderItem(cfg, f, 1, args, 0, item, attr, 0) ==
           RenderItem(cfg, f, 3, args, 0, item, cfg.error, cfg.highlight);
  }

  lemma TwoLetterSteps(cfg: Config, args: seq<Arg>)
    requires cfg.Valid()
    ensures var f, item := [PERCENT, 0x68, 0x65, 0x64, 0x21], NewItem(cfg);
            && ItemStep(cfg, f, 1, args, 0, item) == Attribute(cfg.highlight, 2)
            && ItemStep(cfg, f, 2, args, 0, item) == Attribute(cfg.error, 3)
            && ItemStep(cfg, f, 3, args, 0, item).Show?
            && ItemStep(cfg, f, 3, args, 0, item) ==
               Show(item, ItemStep(cfg, f, 3, args, 0, item).text, 4, 1)
  {
    hide Value, Numeral, ValueText;
  }

  lemma PaintOne(c: Char16, attr: nat)
    ensures Paint([c], attr) == [Cell(c, attr)]
  {}
}
