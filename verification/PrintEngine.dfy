/** The print engine of LIB/print.c: a staging buffer, flushed when full and when the attribute changes. */
module PrintEngine {
  import opened EfiBase
  import opened Math64
  import opened NumberText
  import opened PrintFormat
  import opened PrintSinks

  /** Length of the string that starts a buffer. */
  method StrLen(s: seq<Char16>) returns (n: nat)
    requires exists i :: 0 <= i < |s| && s[i] == 0
    ensures n < |s| && s[n] == 0 && NulFree(s[..n])
  {
    n := 0;
    while s[n] != 0
      invariant n < |s| && NulFree(s[..n])
      invariant exists i :: n <= i < |s| && s[i] == 0
      decreases |s| - n
    {
      n := n + 1;
    }
  }

  const PRINT_ITEM_BUFFER_LEN := 100

  /** The text in a scratch buffer. */
  method ReadText(scratch: array<Char16>, ghost t: Text) returns (r: Text)
    requires Holds(scratch[..], t) && NulFree(t)
    ensures r == t
  {
    assert scratch[..][|t|] == 0;
    var n := StrLen(scratch[..]);
    SameEnd(scratch[..], n, |t|);
    r := scratch[..n];
  }

  /** The switch of _Print: numbers are spelled in the scratch buffer, whose size always suffices. */
  method Convert(cfg: Config, fmt: Text, i: nat, args: seq<Arg>, a: nat, item: Item, scratch: array<Char16>)
    returns (s: Step)
    requires cfg.Valid() && i < |fmt| && NulFree(fmt) && scratch.Length == 100
    modifies scratch
    ensures s == ItemStep(cfg, fmt, i, args, a, item)
  {
    hide ValueText, Numeral, Value;
    var c, arg, next := fmt[i], ArgAt(args, a), i + 1;
    if c == 0x30 {                                   // 0
      s := Setting(item.(pad := ZERO), next, a);
    } else if c == 0x2D {                            // -
      s := Setting(item.(padBefore := false), next, a);
    } else if c == 0x2C {                            // ,
      s := Setting(item.(comma := true), next, a);
    } else if c == 0x2E {                            // .
      s := Setting(item.(toField := true), next, a);
    } else if c == 0x2A {                            // *
      ModBelow(arg.word, cfg.modulus);
      s := Setting(item.SetWidth(arg.word % cfg.modulus), next, a + 1);
    } else if ZERO < c <= ZERO + 9 {                 // 1-9
      var w, j := ParseWidth(fmt, i, cfg.modulus);
      s := Setting(item.SetWidth(w), j, a);
    } else if c == 0x6C {                            // l
      s := Setting(item.(long := true), next, a);
    } else if c == 0x6E {                            // n
      s := Attribute(cfg.norm, next);
    } else if c == 0x68 {                            // h
      s := Attribute(cfg.highlight, next);
    } else if c == 0x65 {                            // e
      s := Attribute(cfg.error, next);
    } else if c == 0x4E {                            // N
      s := if cfg.norm != 0 then Finish(cfg.norm, next) else Setting(item, next, a);
    } else if c == 0x48 {                            // H
      s := if cfg.highlight != 0 then Finish(cfg.highlight, next) else Setting(item, next, a);
    } else if c == 0x45 {                            // E
      s := if cfg.error != 0 then Finish(cfg.error, next) else Setting(item, next, a);
    } else {
      s := ConvertShown(cfg, fmt, i, args, a, item, scratch);
    }
  }

  /** The cases of the switch that end the item with something to show. */
  method ConvertShown(cfg: Config, fmt: Text, i: nat, args: seq<Arg>, a: nat, item: Item, scratch: array<Char16>)
    returns (s: Step)
    requires cfg.Valid() && i < |fmt| && scratch.Length == 100
    requires !Gathering(cfg, fmt[i]) && fmt[i] !in [0x4E, 0x48, 0x45]
    modifies scratch
    ensures s == ItemStep(cfg, fmt, i, args, a, item)
  {
    hide ValueText, Numeral, Value;
    var c, arg, next := fmt[i], ArgAt(args, a), i + 1;
    if c == PERCENT {
      scratch[0], scratch[1] := PERCENT, 0;
      var t := ReadText(scratch, [PERCENT]);
      s := Show(item, t, next, a);
    } else if c == 0x61 {                            // a
      s := Show(item, if arg.narrow.None? then NULL_TEXT else arg.narrow.value, next, a + 1);
    } else if c == 0x73 {                            // s
      s := Show(item, if arg.wide.None? then NULL_TEXT else arg.wide.value, next, a + 1);
    } else if c == 0x63 {                            // c
      var ch := arg.word % 0x10000;
      scratch[0], scratch[1] := ch, 0;
      var t := ReadText(scratch, if ch == 0 then [] else [ch]);
      s := Show(item, t, next, a + 1);
    } else if c == 0x58 || c == 0x78 {               // X x
      var v := Number(cfg, item, arg);
      HexFits(v);
      ValueToHex(scratch, v);
      var t := ReadText(scratch, Numeral(16, v));
      s := Show(if c == 0x58 then item.(width := if item.long then 16 else 8, pad := ZERO) else item, t, next, a + 1);
    } else if c == 0x64 {                            // d
      var v := Signed(Number(cfg, item, arg));
      DecimalFits(item.comma, v);
      ValueToString(scratch, item.comma, v);
      ValueTextNulFree(item.comma, v);
      var t := ReadText(scratch, ValueText(item.comma, v));
      s := Show(item, t, next, a + 1);
    } else if c == 0x67 || c == 0x74 || c == 0x72 {  // g t r
      s := Show(item, arg.rendered, next, a + 1);
    } else {
      scratch[0], scratch[1] := QUESTION, 0;
      var t := ReadText(scratch, [QUESTION]);
      s := Show(item, t, next, a);
    }
  }

  /** The digit loop of _Print. */
  method ParseWidth(fmt: Text, i: nat, modulus: nat) returns (w: nat, j: nat)
    requires i < |fmt| && IsDecimal(fmt[i]) && NulFree(fmt) && modulus > 0
    ensures j == DecimalEnd(fmt, i) && w == Value(10, fmt[i..j]) % modulus
  {
    hide Value;
    j, w := i, 0;
    NoValue(10, fmt, i, modulus);
    ghost var e := DecimalEnd(fmt, i);
    while true
      invariant i <= j < e && w == Value(10, fmt[i..j]) % modulus
      decreases |fmt| - j
    {
      ValueStep(10, fmt, i, j, modulus);
      NonNegative(w, 10);
      w := (w * 10 + (fmt[j] - ZERO)) % modulus;
      j := j + 1;
      if !IsDecimal(At(fmt, j)) {
        break;
      }
    }
  }

  lemma HexFits(v: U64)
    ensures |Numeral(16, v)| < PRINT_ITEM_BUFFER_LEN
  {
    HexLength(v);
  }

  lemma {:induction false} GroupedLength(ds: Text, i: nat)
    requires i <= |ds|
    ensures |Grouped(ds, i)| <= 2 * (|ds| - i)
    decreases |ds| - i
  {
    if i < |ds| {
      GroupedStep(ds, i);
      GroupedLength(ds, i + 1);
    }
  }

  lemma DecimalFits(comma: bool, v: int)
    requires -W63 <= v < W63
    ensures |ValueText(comma, v)| < PRINT_ITEM_BUFFER_LEN
  {
    hide Grouped, Digits;
    var w: U64 := if v < 0 then -v else v;
    DecimalLength(w);
    GroupedLength(Numeral(10, w), 0);
  }

  /** The first loop of PITEM: the characters of the text that the field has room for. */
  method CutLength(fieldWidth: nat, text: Text) returns (len: nat)
    ensures len == if |text| > fieldWidth then fieldWidth else |text|
  {
    len := 0;
    while len < fieldWidth && len < |text|
      invariant len <= |text| && len <= fieldWidth
    {
      len := len + 1;
    }
  }

  ghost predicate AllEnded(ts: seq<Text>) {
    forall i :: 0 <= i < |ts| ==> LinesEnded(ts[i])
  }

  /** PRINT_STATE. */
  class PrintState {
    const cfg: Config
    const sink: Sink
    const buffer: array<Char16>
    var pos: nat
    var length: nat
    var attr: nat
    var restoreAttr: nat
    /** The strings the sink had before, all characters put since, each with the attribute then in force,
        and those shown so far, each with the attribute in force when it was passed on. */
    ghost const before: seq<Text>
    ghost const droppedBefore: nat
    /** The most characters that will be put. */
    ghost const bound: nat
    ghost var put: seq<Cell>
    ghost var shown: seq<Cell>

    /** The strings passed to the sink so far, joined, are the characters shown; these and the staged ones,
        which are all waiting for the attribute in force, are exactly those put. */
    ghost predicate Staged()
      reads this, buffer, sink, sink.str
    {
      && cfg.Valid()
      && buffer.Length == PRINT_STRING_LEN && buffer != sink.str
      && pos < PRINT_STRING_LEN
      && NulFree(buffer[..pos])
      && sink.Valid()
      && before <= sink.log
      && (sink.dropped == droppedBefore || sink.dropped > |before|)
      && length == |put| <= bound && sink.HasRoom(|Flatten(before)| + bound)
      && Chars(shown) == Flatten(sink.log[|before|..])
      && put == shown + Paint(buffer[..pos], attr)
      && LinesEnded(buffer[..pos]) && AllEnded(sink.log[|before|..])
    }

    /** Between calls the buffer is never full. */
    ghost predicate Valid()
      reads this, buffer, sink, sink.str
    {
      Staged() && pos < PRINT_STRING_LEN - 1
    }

    constructor (cfg: Config, sink: Sink, attr: nat, ghost bound: nat)
      requires cfg.Valid() && sink.Valid() && sink.HasRoom(|Flatten(sink.log)| + bound)
      ensures Valid() && this.cfg == cfg && this.sink == sink && before == sink.log && put == [] && fresh(buffer)
      ensures this.attr == attr && this.bound == bound && droppedBefore == sink.dropped && buffer.Length == 1024
    {
      this.cfg := cfg;
      this.sink := sink;
      buffer := new Char16[PRINT_STRING_LEN];
      pos, length := 0, 0;
      this.attr, restoreAttr := attr, 0;
      before, droppedBefore, this.bound := sink.log, sink.dropped, bound;
      put, shown := [], [];
    }

    /** PFLUSH: hands the staged string over. */
    method Flush()
      requires Staged()
      modifies this`pos, this`shown, buffer, sink, sink.str
      ensures Valid() && pos == 0 && sink.log == old(sink.log) + [old(buffer[..pos])]
      ensures sink.str == old(sink.str) || fresh(sink.str)
      ensures sink.kind == Fixed ==> sink.str == old(sink.str) && sink.maxlen == old(sink.maxlen)
    {
      hide Flatten, Chars, Paint;
      ghost var text, log, cells := buffer[..pos], sink.log, shown;
      buffer[pos] := 0;
      var s := buffer[..];
      assert s[pos] == 0 && s[..pos] == text;
      var n := StrLen(s);
      SameEnd(s, n, pos);
      FlushFits(before, log, text, cells, attr);
      sink.Output(s[..n]);
      pos := 0;
      shown := put;
      FlushedLog(before, log, text, cells, attr);
      NothingStaged(put, attr);
      assert buffer[..0] == [];
    }

    /** The read of `Pos - 1` in PPUTC: whatever lies in front of the buffer when it is empty. */
    method CharBefore() returns (c: Char16)
      requires Valid()
      ensures pos > 0 ==> c == buffer[pos - 1]
    {
      c := *;
      if pos > 0 {
        c := buffer[pos - 1];
      }
    }

    /** The store of PPUTC: stages one character, flushing a full buffer. */
    method Stage(c: Char16)
      requires Valid() && c != 0 && |put| < bound
      requires c == LF ==> pos == 0 || buffer[pos - 1] == CR
      modifies this`pos, this`length, this`put, this`shown, buffer, sink, sink.str
      ensures Valid() && put == old(put) + [Cell(c, attr)]
      ensures pos > 0 ==> buffer[pos - 1] == c
      ensures sink.str == old(sink.str) || fresh(sink.str)
      ensures sink.kind == Fixed ==> sink.str == old(sink.str) && sink.maxlen == old(sink.maxlen)
    {
      hide Flatten, Chars, Paint;
      ghost var staged := buffer[..pos];
      StagedNext(shown, staged, c, attr);
      buffer[pos] := c;
      pos := pos + 1;
      length := length + 1;
      put := put + [Cell(c, attr)];
      assert buffer[..pos] == staged + [c];
      if pos >= PRINT_STRING_LEN - 1 {
        Flush();
      }
    }

    /** PPUTC: one character, a line feed with a carriage return before it unless there is one. */
    method PutChar(c: Char16)
      requires Valid() && c != 0 && |put| + Wide(c) <= bound
      modifies this`pos, this`length, this`put, this`shown, buffer, sink, sink.str
      ensures Valid()
      ensures || put == old(put) + [Cell(c, attr)]
              || (c == 0x0A && put == old(put) + [Cell(0x0D, attr), Cell(0x0A, attr)])
      ensures c == 0x0A && old(pos) > 0 ==>
                put == old(put) + if old(buffer[pos - 1]) == 0x0D then [Cell(0x0A, attr)]
                                  else [Cell(0x0D, attr), Cell(0x0A, attr)]
      ensures sink.str == old(sink.str) || fresh(sink.str)
      ensures sink.kind == Fixed ==> sink.str == old(sink.str) && sink.maxlen == old(sink.maxlen)
    {
      if c == LF {
        var p := CharBefore();
        if p != CR {
          Stage(CR);
        }
      }
      Stage(c);
    }

    /** PSETATTR: text already staged goes out under the old attribute. */
    method SetAttribute(a: nat)
      requires Valid()
      modifies this`pos, this`shown, this`attr, this`restoreAttr, buffer, sink, sink.str
      ensures Valid() && attr == a && restoreAttr == old(attr)
      ensures pos == 0 && sink.log == old(sink.log) + [old(buffer[..pos])]
      ensures sink.str == old(sink.str) || fresh(sink.str)
      ensures sink.kind == Fixed ==> sink.str == old(sink.str) && sink.maxlen == old(sink.maxlen)
    {
      Flush();
      restoreAttr := attr;
      attr := a;
    }

    method KeepForRestore(a: nat)
      requires Valid()
      modifies this`restoreAttr
      ensures Valid() && restoreAttr == a
    {
      restoreAttr := a;
    }

    /** The last flush of _Print: everything put is shown. */
    method FlushLast()
      requires Valid()
      modifies this`pos, this`shown, buffer, sink, sink.str
      ensures Valid() && length == |put| && shown == put
      ensures before < sink.log && Chars(put) == Flatten(sink.log[|before|..])
      ensures sink.str == old(sink.str) || fresh(sink.str)
      ensures sink.kind == Fixed ==> sink.str == old(sink.str) && sink.maxlen == old(sink.maxlen)
    {
      hide Chars, Flatten, Paint;
      Flush();
      assert buffer[..0] == [];
      NothingStaged(shown, attr);
    }

    lemma ConfigValid()
      requires Valid()
      ensures cfg.Valid()
    {}

    /** Puts the characters of a text that follows the text `done`. */
    method PutText(t: Text, ghost done: seq<Cell>)
      requires Valid() && NulFree(t) && Expands(done, put) && Widest(done + Paint(t, attr)) <= bound
      modifies this`pos, this`length, this`put, this`shown, buffer, sink, sink.str
      ensures Valid() && Expands(done + Paint(t, attr), put)
      ensures sink.str == old(sink.str) || fresh(sink.str)
      ensures sink.kind == Fixed ==> sink.str == old(sink.str) && sink.maxlen == old(sink.maxlen)
    {
      hide Expands, Valid;
      ghost var cells := Paint(t, attr);
      assert done + cells[..0] == done;
      for i := 0 to |t|
        invariant Valid() && Expands(done + cells[..i], put)
        invariant sink.str == old(sink.str) || fresh(sink.str)
        invariant sink.kind == Fixed ==> sink.str == old(sink.str) && sink.maxlen == old(sink.maxlen)
      {
        RoomForNext(done, cells, i, put, bound);
        ExpandsAppend(done + cells[..i], put, t[i], attr);
        assert done + cells[..i + 1] == (done + cells[..i]) + [Cell(t[i], attr)];
        PutChar(t[i]);
      }
      assert cells[..|t|] == cells;
    }

    /** A padding loop: `c` for every column from `from` up to `to`. */
    method PutColumns(c: Char16, from: nat, to: nat, ghost done: seq<Cell>)
      requires Valid() && c != 0 && Expands(done, put)
      requires Widest(done + Paint(Repeat(c, Gap(from, to)), attr)) <= bound
      modifies this`pos, this`length, this`put, this`shown, buffer, sink, sink.str
      ensures Valid() && Expands(done + Paint(Repeat(c, Gap(from, to)), attr), put)
      ensures sink.str == old(sink.str) || fresh(sink.str)
      ensures sink.kind == Fixed ==> sink.str == old(sink.str) && sink.maxlen == old(sink.maxlen)
    {
      hide Expands, Valid;
      ghost var cells := Paint(Repeat(c, Gap(from, to)), attr);
      var i := from;
      assert done + cells[..0] == done;
      while i < to
        invariant from <= i && (i <= to || i == from)
        invariant Valid() && Expands(done + cells[..i - from], put)
        invariant sink.str == old(sink.str) || fresh(sink.str)
        invariant sink.kind == Fixed ==> sink.str == old(sink.str) && sink.maxlen == old(sink.maxlen)
      {
        ghost var k := i - from;
        RoomForNext(done, cells, k, put, bound);
        ExpandsAppend(done + cells[..k], put, c, attr);
        assert done + cells[..k + 1] == (done + cells[..k]) + [Cell(c, attr)];
        PutChar(c);
        i := i + 1;
      }
      assert cells[..i - from] == cells;
    }

    /** The middle of PITEM: padding up to the width, then the text. */
    method PutBody(pad: Char16, len: nat, width: nat, cut: Text, ghost done: seq<Cell>)
      requires Valid() && NulFree(cut) && pad != 0 && Expands(done, put)
      requires Widest(done + (Paint(Repeat(pad, Gap(len, width)), attr) + Paint(cut, attr))) <= bound
      modifies this`pos, this`length, this`put, this`shown, buffer, sink, sink.str
      ensures Valid() && Expands(done + (Paint(Repeat(pad, Gap(len, width)), attr) + Paint(cut, attr)), put)
      ensures sink.str == old(sink.str) || fresh(sink.str)
      ensures sink.kind == Fixed ==> sink.str == old(sink.str) && sink.maxlen == old(sink.maxlen)
    {
      hide Expands, Valid, Repeat, Paint, NulFree, Widest;
      ghost var first := Paint(Repeat(pad, Gap(len, width)), attr);
      RoomForBoth(done, first, Paint(cut, attr));
      PutColumns(pad, len, width, done);
      PutText(cut, done + first);
    }

    /** The end of PITEM: spaces up to the field width before or after the rest. */
    method PutParts(before: bool, pad: Char16, len: nat, width: nat, field: nat, cut: Text, ghost done: seq<Cell>)
      requires Valid() && NulFree(cut) && pad != 0 && Expands(done, put)
      requires Widest(done + Parts(before, pad, len, width, field, cut, attr)) <= bound
      modifies this`pos, this`length, this`put, this`shown, buffer, sink, sink.str
      ensures Valid() && Expands(done + Parts(before, pad, len, width, field, cut, attr), put)
      ensures sink.str == old(sink.str) || fresh(sink.str)
      ensures sink.kind == Fixed ==> sink.str == old(sink.str) && sink.maxlen == old(sink.maxlen)
    {
      hide Expands, Valid, Repeat, Paint, NulFree, Gap, Widest;
      ghost var space := Paint(Repeat(SPACE, Gap(width, field)), attr);
      ghost var body := Paint(Repeat(pad, Gap(len, width)), attr) + Paint(cut, attr);
      if before {
        RoomForBoth(done, space, body);
        PutColumns(SPACE, width, field, done);
        PutBody(pad, len, width, cut, done + space);
      } else {
        RoomForBoth(done, body, space);
        PutBody(pad, len, width, cut, done);
        PutColumns(SPACE, width, field, done + body);
      }
    }

    /** PITEM: the text of an item, cut, padded and justified. */
    method PutItem(item: Item, text: Text, ghost done: seq<Cell>)
      requires Valid() && NulFree(text) && item.pad != 0 && Expands(done, put)
      requires Widest(done + Paint(Layout(cfg, item, text), attr)) <= bound
      modifies this`pos, this`length, this`put, this`shown, buffer, sink, sink.str
      ensures Valid() && Expands(done + Paint(Layout(cfg, item, text), attr), put)
      ensures sink.str == old(sink.str) || fresh(sink.str)
      ensures sink.kind == Fixed ==> sink.str == old(sink.str) && sink.maxlen == old(sink.maxlen)
    {
      hide Expands, Valid, Layout, Parts, Paint, NulFree, Widest;
      ConfigValid();
      var len := CutLength(item.fieldWidth, text);
      CutNulFree(text, len);
      var field := if item.fieldWidth == cfg.modulus - 1 then len else item.fieldWidth;
      var width := if len > item.width then len else item.width;
      LayoutParts(cfg, item, text, attr, len, field, width);
      PutParts(item.padBefore, item.pad, len, width, field, text[..len], done);
    }

    /** The inner loop of _Print: one item, from after its `%` to the character that ends it. */
    method PrintItem(fmt: Text, start: nat, args: seq<Arg>, used: nat, scratch: array<Char16>, ghost done: seq<Cell>)
      returns (i: nat, a: nat, ghost now: seq<Cell>)
      requires Valid() && NulFree(fmt) && ArgsOk(args) && start <= |fmt| && Expands(done, put)
      requires scratch.Length == 100 && scratch != buffer && scratch != sink.str
      requires Join(done, RenderItem(cfg, fmt, start, args, used, NewItem(cfg), attr, 0)).Some?
      requires Widest(Join(done, RenderItem(cfg, fmt, start, args, used, NewItem(cfg), attr, 0)).value) <= bound
      modifies this`pos, this`length, this`put, this`shown, this`attr, this`restoreAttr, buffer, sink, sink.str, scratch
      ensures Valid() && start < i <= |fmt| && Expands(now, put)
      ensures Join(now, Render(cfg, fmt, i, args, a, attr)) ==
              Join(done, RenderItem(cfg, fmt, start, args, used, NewItem(cfg), old(attr), 0))
      ensures sink.str == old(sink.str) || fresh(sink.str)
      ensures sink.kind == Fixed ==> sink.str == old(sink.str) && sink.maxlen == old(sink.maxlen)
    {
      hide Expands, Valid, Layout, ItemStep, ArgsOk, NulFree, Paint, Render, RenderItem, Join, Widest;
      ConfigValid();
      var item := NewItem(cfg);
      i, a, now := start, used, done;
      ghost var total := Join(done, RenderItem(cfg, fmt, start, args, used, item, attr, 0));
      KeepForRestore(0);
      while true
        invariant Valid() && start <= i <= |fmt| && Expands(done, put) && item.pad != 0
        invariant total.Some? && Join(done, RenderItem(cfg, fmt, i, args, a, item, attr, restoreAttr)) == total
        invariant sink.str == old(sink.str) || fresh(sink.str)
        invariant sink.kind == Fixed ==> sink.str == old(sink.str) && sink.maxlen == old(sink.maxlen)
        decreases |fmt| - i
      {
        NeedsMore(cfg, fmt, i, args, a, item, attr, restoreAttr, done);
        StepRenders(cfg, fmt, i, args, a, item, attr, restoreAttr, done);
        var s := Convert(cfg, fmt, i, args, a, item, scratch);
        ShowNulFree(cfg, fmt, i, args, a, item);
        i := s.next;
        match s {
          case Setting(item', _, used') =>
            item, a := item', used';
          case Attribute(attr', _) =>
            SetAttribute(attr');
          case Finish(attr', _) =>
            SetAttribute(attr');
            KeepForRestore(0);
            break;
          case Show(item', text, _, used') =>
            JoinFits(done + Paint(Layout(cfg, item', text), attr),
                     Render(cfg, fmt, i, args, used', Back(attr, restoreAttr)));
            PutItem(item', text, done);
            a, now := used', done + Paint(Layout(cfg, item', text), attr);
            break;
        }
      }
      if restoreAttr != 0 {
        SetAttribute(restoreAttr);
      }
    }

    /** _Print: the whole format. */
    method Print(fmt: Text, args: seq<Arg>) returns (n: nat)
      requires Valid() && put == [] && NulFree(fmt) && ArgsOk(args)
      requires !Open(cfg, fmt, 0) && Widest(Rendered(cfg, fmt, args, attr)) <= bound
      modifies this`pos, this`length, this`put, this`shown, this`attr, this`restoreAttr, buffer, sink, sink.str
      ensures Valid() && n == |put| && Expands(Rendered(cfg, fmt, args, old(attr)), put)
      ensures shown == put && before < sink.log && Chars(put) == Flatten(sink.log[|before|..])
      ensures sink.str == old(sink.str) || fresh(sink.str)
      ensures sink.kind == Fixed ==> sink.str == old(sink.str) && sink.maxlen == old(sink.maxlen)
    {
      hide Expands, Valid, Staged, ArgsOk, Render, RenderItem, Rendered, Open, OpenItem;
      hide Join, Paint, Widest, Chars, Flatten;
      ConfigValid();
      ghost var goal := Rendered(cfg, fmt, args, attr);
      ExpandsNothing();
      RenderStart(goal);
      var scratch := new Char16[PRINT_ITEM_BUFFER_LEN];
      var i, a := 0, 0;
      ghost var done: seq<Cell> := [];
      while i < |fmt|
        invariant Valid() && i <= |fmt| && Expands(done, put)
        invariant Join(done, Render(cfg, fmt, i, args, a, attr)) == Some(goal) && scratch != sink.str
        invariant sink.str == old(sink.str) || fresh(sink.str)
        invariant sink.kind == Fixed ==> sink.str == old(sink.str) && sink.maxlen == old(sink.maxlen)
        decreases |fmt| - i
      {
        RenderNext(cfg, fmt, i, args, a, attr, done, goal);
        if fmt[i] != PERCENT {
          RoomForOne(done, Cell(fmt[i], attr), goal, put);
          PutChar(fmt[i]);
          done := done + [Cell(fmt[i], attr)];
          i := i + 1;
        } else {
          i, a, done := PrintItem(fmt, i + 1, args, a, scratch, done);
        }
      }
      RenderEnd(cfg, fmt, args, a, attr, done, goal);
      FlushLast();
      n := length;
    }
  }

  /** An item that can still be completed has another character. */
  lemma NeedsMore(
    cfg: Config, fmt: Text, i: nat, args: seq<Arg>, a: nat, item: Item, attr: nat, restore: nat, done: seq<Cell>)
    requires cfg.Valid() && i <= |fmt| && Join(done, RenderItem(cfg, fmt, i, args, a, item, attr, restore)).Some?
    ensures i < |fmt|
  {}

  /** What one step of an item does to what is still to come. */
  lemma StepRenders(
    cfg: Config, fmt: Text, i: nat, args: seq<Arg>, a: nat, item: Item, attr: nat, restore: nat, done: seq<Cell>)
    requires cfg.Valid() && i < |fmt|
    ensures var all := Join(done, RenderItem(cfg, fmt, i, args, a, item, attr, restore));
            match ItemStep(cfg, fmt, i, args, a, item)
            case Setting(item', next, used) =>
              all == Join(done, RenderItem(cfg, fmt, next, args, used, item', attr, restore))
            case Attribute(attr', next) => all == Join(done, RenderItem(cfg, fmt, next, args, a, item, attr', attr))
            case Finish(attr', next) => all == Join(done, Render(cfg, fmt, next, args, a, attr'))
            case Show(item', text, next, used) =>
              all == Join(done + Paint(Layout(cfg, item', text), attr),
                          Render(cfg, fmt, next, args, used, Back(attr, restore)))
  {
    hide ItemStep, Layout, Paint;
    var s := ItemStep(cfg, fmt, i, args, a, item);
    if s.Show? {
      JoinJoin(done, Paint(Layout(cfg, s.item, s.text), attr),
               Render(cfg, fmt, s.next, args, s.used, Back(attr, restore)));
    }
  }

  lemma RenderStart(goal: seq<Cell>)
    ensures Join([], Some(goal)) == Some(goal)
  {
    assert [] + goal == goal;
  }

  /** The outer loop: a plain character is put as it is, a `%` starts an item. */
  lemma RenderNext(
    cfg: Config, fmt: Text, i: nat, args: seq<Arg>, a: nat, attr: nat, done: seq<Cell>, goal: seq<Cell>)
    requires cfg.Valid() && i < |fmt| && Join(done, Render(cfg, fmt, i, args, a, attr)) == Some(goal)
    ensures fmt[i] == PERCENT ==>
              Join(done, RenderItem(cfg, fmt, i + 1, args, a, NewItem(cfg), attr, 0)) == Some(goal)
    ensures fmt[i] != PERCENT ==>
              var more := done + [Cell(fmt[i], attr)];
              more <= goal && Join(more, Render(cfg, fmt, i + 1, args, a, attr)) == Some(goal)
  {
    hide RenderItem, Paint;
    if fmt[i] != PERCENT {
      PaintOne(fmt[i], attr);
      JoinJoin(done, [Cell(fmt[i], attr)], Render(cfg, fmt, i + 1, args, a, attr));
    }
  }

  lemma RenderEnd(cfg: Config, fmt: Text, args: seq<Arg>, a: nat, attr: nat, done: seq<Cell>, goal: seq<Cell>)
    requires cfg.Valid() && Join(done, Render(cfg, fmt, |fmt|, args, a, attr)) == Some(goal)
    ensures done == goal
  {
    assert done + [] == done;
  }

  lemma RoomForOne(done: seq<Cell>, x: Cell, goal: seq<Cell>, put: seq<Cell>)
    requires Expands(done, put) && done + [x] <= goal
    ensures |put| + Wide(x.c) <= Widest(goal)
    ensures Expands(done + [x], put + [x])
    ensures x.c == LF ==> Expands(done + [x], put + [Cell(CR, x.attr), Cell(LF, x.attr)])
  {
    hide Expands, Widest;
    ExpandsAppend(done, put, x.c, x.attr);
    assert (done + [x])[..|done|] == done && done + [x][..0] == done;
    RoomForNext(done, [x], 0, put, Widest(done + [x]));
    WidestPrefix(done + [x], goal);
  }

  /** There is room for the next character of a text that fits. */
  lemma RoomForNext(done: seq<Cell>, cells: seq<Cell>, k: nat, put: seq<Cell>, bound: nat)
    requires k < |cells| && Expands(done + cells[..k], put) && Widest(done + cells) <= bound
    ensures |put| + Wide(cells[k].c) <= bound
  {
    hide Expands, Widest;
    var t := done + cells[..k];
    ExpandsWidth(t, put);
    WidestAppend(t, cells[k]);
    assert t + [cells[k]] <= done + cells;
    WidestPrefix(t + [cells[k]], done + cells);
  }

  lemma RoomForBoth(done: seq<Cell>, a: seq<Cell>, b: seq<Cell>)
    ensures Widest(done + a) <= Widest(done + (a + b)) && done + a + b == done + (a + b)
  {
    ConcatAssociative(done, a, b);
    WidestPrefix(done + a, done + (a + b));
  }

  lemma ExpandsNothing()
    ensures Expands([], [])
  {}

  lemma JoinFits(t: seq<Cell>, rest: Option<seq<Cell>>)
    requires Join(t, rest).Some?
    ensures t <= Join(t, rest).value && Widest(t) <= Widest(Join(t, rest).value)
  {
    WidestPrefix(t, t + rest.value);
  }

  lemma JoinJoin(t: seq<Cell>, u: seq<Cell>, rest: Option<seq<Cell>>)
    ensures Join(t, Join(u, rest)) == Join(t + u, rest)
  {
    if rest.Some? {
      ConcatAssociative(t, u, rest.value);
    }
  }

  lemma CutNulFree(t: Text, n: nat)
    requires NulFree(t) && n <= |t|
    ensures NulFree(t[..n])
  {}

  /** The pieces PITEM puts, in its order. */
  ghost function Parts(before: bool, pad: Char16, len: nat, width: nat, field: nat, cut: Text, attr: nat): seq<Cell> {
    var space := Paint(Repeat(SPACE, Gap(width, field)), attr);
    var body := Paint(Repeat(pad, Gap(len, width)), attr) + Paint(cut, attr);
    if before then space + body else body + space
  }

  /** They make up the layout of the item. */
  lemma LayoutParts(cfg: Config, item: Item, text: Text, attr: nat, len: nat, field: nat, width: nat)
    requires cfg.Valid() && len == (if |text| > item.fieldWidth then item.fieldWidth else |text|)
    requires field == (if item.fieldWidth == cfg.modulus - 1 then len else item.fieldWidth)
    requires width == if len > item.width then len else item.width
    ensures Paint(Layout(cfg, item, text), attr) ==
            Parts(item.padBefore, item.pad, len, width, field, text[..len], attr)
  {
    hide Paint;
    var space, pad, cut := Repeat(SPACE, Gap(width, field)), Repeat(item.pad, Gap(len, width)), text[..len];
    assert text[..|text|] == text;
    assert Layout(cfg, item, text) == if item.padBefore then space + (pad + cut) else (pad + cut) + space by {
      hide Repeat;
      assert Gap(len, width) == width - len;
    }
    PaintConcat(pad, cut, attr);
    PaintConcat(space, pad + cut, attr);
    PaintConcat(pad + cut, space, attr);
  }

  lemma PaintConcat(a: Text, b: Text, attr: nat)
    ensures Paint(a + b, attr) == Paint(a, attr) + Paint(b, attr)
  {}

  lemma SameEnd(s: seq<Char16>, n: nat, pos: nat)
    requires n < |s| && s[n] == 0 && NulFree(s[..n])
    requires pos < |s| && s[pos] == 0 && NulFree(s[..pos])
    ensures n == pos
  {}

  lemma StagedNext(shown: seq<Cell>, staged: Text, c: Char16, attr: nat)
    ensures shown + Paint(staged + [c], attr) == shown + Paint(staged, attr) + [Cell(c, attr)]
  {}

  lemma NothingStaged(put: seq<Cell>, attr: nat)
    ensures put + Paint([], attr) == put
  {}

  /** What is passed on, with the text that goes now, is as long as what was put. */
  lemma FlushFits(before: seq<Text>, log: seq<Text>, text: Text, cells: seq<Cell>, attr: nat)
    requires before <= log && Chars(cells) == Flatten(log[|before|..])
    ensures |Flatten(log)| + |text| == |Flatten(before)| + |cells + Paint(text, attr)|
  {
    FlattenConcat(before, log[|before|..]);
    assert log == before + log[|before|..];
  }

  lemma FlushedLog(before: seq<Text>, log: seq<Text>, text: Text, cells: seq<Cell>, attr: nat)
    requires before <= log && Chars(cells) == Flatten(log[|before|..])
    ensures before <= log + [text] && (log + [text])[|before|..] == log[|before|..] + [text]
    ensures Chars(cells + Paint(text, attr)) == Flatten((log + [text])[|before|..])
  {}

  // ----- SPrint, PoolPrint, CatPrint

  /** The print state of _PoolCatPrint: no attributes. */
  function Plain(modulus: nat): Config { Config(modulus, 0, 0, 0) }

  /** _PoolCatPrint: formats into a sink; `put` is what it puts. */
  method PoolCatPrint(modulus: nat, fmt: Text, args: seq<Arg>, spc: Sink) returns (ghost put: seq<Cell>)
    requires Plain(modulus).Valid() && spc.Valid() && NulFree(fmt) && ArgsOk(args) && !Open(Plain(modulus), fmt, 0)
    requires spc.HasRoom(|Flatten(spc.log)| + Widest(Rendered(Plain(modulus), fmt, args, 0)))
    modifies spc, spc.str
    ensures spc.Valid() && spc.log != [] && old(spc.log) <= spc.log
    ensures Flatten(spc.log) == Flatten(old(spc.log)) + Chars(put)
    ensures Expands(Rendered(Plain(modulus), fmt, args, 0), put)
    ensures spc.dropped == old(spc.dropped) < |spc.log| || spc.dropped > |old(spc.log)|
    ensures spc.str == old(spc.str) || fresh(spc.str)
    ensures spc.kind == Fixed ==> spc.str == old(spc.str) && spc.maxlen == old(spc.maxlen)
  {
    hide Render, Rendered, Expands, Flatten, Open, Widest;
    ghost var goal := Rendered(Plain(modulus), fmt, args, 0);
    var ps := new PrintState(Plain(modulus), spc, 0, Widest(goal));
    var _ := ps.Print(fmt, args);
    put := ps.put;
    FlattenConcat(ps.before, spc.log[|ps.before|..]);
    assert spc.log == ps.before + spc.log[|ps.before|..];
  }

  /** Formats into a caller's buffer of `strSize` bytes: the longest prefix of the text that fits in
      `strSize / 2 - 2` characters, and a NUL; the length returned is one more when the text was cut.  A size
      of zero or one sets no limit: a buffer with room for the text then holds all of it. */
  method SPrint(modulus: nat, str: array<Char16>, strSize: nat, fmt: Text, args: seq<Arg>)
    returns (len: nat, ghost put: seq<Cell>)
    requires Plain(modulus).Valid() && NulFree(fmt) && ArgsOk(args) && !Open(Plain(modulus), fmt, 0)
    requires strSize < modulus
    requires if strSize < 2 then str.Length > Widest(Rendered(Plain(modulus), fmt, args, 0))
             else str.Length >= strSize / 2
    modifies str
    ensures Expands(Rendered(Plain(modulus), fmt, args, 0), put)
    ensures strSize >= 2 ==> len == Min(|put|, strSize / 2 - 1)
    ensures strSize >= 4 ==> Holds(str[..], Chars(put)[..Min(|put|, strSize / 2 - 2)])
    ensures strSize < 2 && |put| <= modulus - 2 ==> len == |put| && Holds(str[..], Chars(put))
  {
    hide Render, Rendered, Expands, Open, Widest;
    var spc := new Sink.ForBuffer(str, strSize, modulus);
    put := PoolCatPrint(modulus, fmt, args, spc);
    len := spc.len;
    assert Chars(put)[..|put|] == Chars(put);
  }

  /** Formats into a new pool that holds the whole text and a NUL, when it could grow.  After a growth that
      failed, only what came later is there. */
  method PoolPrint(modulus: nat, fmt: Text, args: seq<Arg>)
    returns (str: array<Char16>, ghost put: seq<Cell>, ghost lost: nat)
    requires Plain(modulus).Valid() && NulFree(fmt) && ArgsOk(args) && !Open(Plain(modulus), fmt, 0)
    ensures fresh(str) && Expands(Rendered(Plain(modulus), fmt, args, 0), put)
    ensures lost <= |put| && (str.Length == 0 || Holds(str[..], Chars(put)[lost..]))
    ensures str.Length == 0 ==> lost == |put|
  {
    hide Render, Rendered, Expands, Open, Widest, Flatten;
    var spc := new Sink.Empty(Growing);
    put, lost := CatPrint(modulus, spc, fmt, args);
    str := spc.str;
  }

  /** Formats onto the end of a growing pool.  While it can grow, what it held stays in front and the whole
      new text follows; a growth that fails loses the text before it, `lost` characters. */
  method CatPrint(modulus: nat, spc: Sink, fmt: Text, args: seq<Arg>) returns (ghost put: seq<Cell>, ghost lost: nat)
    requires Plain(modulus).Valid() && spc.Valid() && spc.kind == Growing
    requires NulFree(fmt) && ArgsOk(args) && !Open(Plain(modulus), fmt, 0)
    modifies spc, spc.str
    ensures spc.Valid() && spc.maxlen == spc.str.Length
    ensures Expands(Rendered(Plain(modulus), fmt, args, 0), put)
    ensures spc.dropped == old(spc.dropped) ==> lost == 0 && spc.maxlen > 0
    ensures spc.dropped != old(spc.dropped) ==> lost >= old(spc.len)
    ensures lost <= old(spc.len) + |put| && spc.len == old(spc.len) + |put| - lost
    ensures if spc.maxlen == 0 then spc.len == 0
            else spc.len < spc.maxlen && Holds(spc.str[..], (old(spc.str[..spc.len]) + Chars(put))[lost..])
    ensures spc.str == old(spc.str) || fresh(spc.str)
  {
    hide Render, Rendered, Expands, Open, Widest, Flatten;
    ghost var log, dropped := spc.log, spc.dropped;
    put := PoolCatPrint(modulus, fmt, args, spc);
    lost := LostText(log, dropped, spc.log, spc.dropped, Chars(put));
  }

  /** What a pool holds after `now` strings, of which `dropped'` are gone, in terms of what it held before. */
  lemma LostText(log: seq<Text>, dropped: nat, now: seq<Text>, dropped': nat, text: Text) returns (lost: nat)
    requires dropped <= |log| && dropped' <= |now| && log <= now && Flatten(now) == Flatten(log) + text
    requires dropped' == dropped || dropped' > |log|
    ensures var all := Flatten(log[dropped..]) + text;
            lost <= |all| && Flatten(now[dropped'..]) == all[lost..]
    ensures dropped' == dropped ==> lost == 0
    ensures dropped' > |log| ==> lost >= |Flatten(log[dropped..])|
  {
    hide Flatten;
    FlattenConcat(log[..dropped], log[dropped..]);
    assert log == log[..dropped] + log[dropped..];
    FlattenConcat(now[..dropped'], now[dropped'..]);
    assert now == now[..dropped'] + now[dropped'..];
    var a, b := Flatten(log[..dropped]), Flatten(now[..dropped']);
    if dropped' == dropped {
      assert now[..dropped] == log[..dropped];
    } else {
      FlattenConcat(log, now[|log|..dropped']);
      assert now[..dropped'] == log + now[|log|..dropped'];
    }
    lost := |b| - |a|;
    SuffixOf(a, Flatten(log[dropped..]) + text, b, Flatten(now[dropped'..]));
  }

  lemma SuffixOf(a: Text, b: Text, c: Text, d: Text)
    requires a + b == c + d && |a| <= |c|
    ensures |c| - |a| <= |b| && d == b[|c| - |a|..]
  {
    assert (a + b)[|c|..] == d;
  }
}
