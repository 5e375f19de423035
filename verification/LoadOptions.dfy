/** The load option encoding of SHELL/bcfg/bcfg.c: attributes, path length, description, file path. */
module LoadOptions {
  import opened EfiBase
  import opened DevicePathFormat
  import opened DevicePathLib
  import opened DevicePathEdit

  const LOAD_OPTION_ACTIVE := 1
  const MAX_ENV_SIZE := 1024
  const DATA_SIZE := MAX_ENV_SIZE + 32

  datatype LoadOption = LoadOption(
    attributes: nat, pathLength: nat, description: Text, filePath: seq<Byte>, options: seq<Byte>)

  // ----- Little-endian fields and terminated text

  function LE16(x: nat): seq<Byte> { [x % 0x100, x / 0x100 % 0x100] }
  function LE32(x: nat): seq<Byte> { LE16(x) + LE16(x / 0x10000) }

  /** A description in memory, its NUL included. */
  function TextBytes(t: Text): (b: seq<Byte>)
    ensures |b| == 2 * |t| + 2
  {
    if t == [] then LE16(0) else LE16(t[0]) + TextBytes(t[1..])
  }

  /** The bytes of an option. */
  function OptionBytes(attributes: nat, description: Text, path: seq<Byte>): seq<Byte> {
    LE32(attributes) + LE16(|path|) + TextBytes(description) + path
  }

  // ----- Reading

  /** The text of 16-bit characters from `o` up to the first NUL; `None` when the memory ends before one. */
  function ReadText(m: seq<Byte>, o: nat): (t: Option<Text>)
    ensures t.Some? ==> o + 2 * |t.value| + 2 <= |m|
    decreases |m| - o
  {
    if o + 2 > |m| then None
    else if Read16(m, o) == 0 then Some([])
    else match ReadText(m, o + 2)
      case None => None
      case Some(rest) => Some([Read16(m, o)] + rest)
  }

  /** The nodes the search for the end marker meets are all longer than nothing, and the first is there. */
  ghost predicate Walkable(m: seq<Byte>, o: nat)
    decreases |m| - o
  {
    && HeaderAt(m, o)
    && (IsEndAt(m, o) || (LengthAt(m, o) > 0 && (NextAt(m, o) + HEADER_SIZE > |m| || Walkable(m, NextAt(m, o)))))
  }

  /** Offset of the end marker; `None` when the search leaves the memory. */
  ghost function EndOf(m: seq<Byte>, o: nat): Option<nat>
    requires Walkable(m, o)
    decreases |m| - o
  {
    if IsEndAt(m, o) then Some(o)
    else if NextAt(m, o) + HEADER_SIZE > |m| then None
    else EndOf(m, NextAt(m, o))
  }

  /** Data whose reading stays inside it. */
  ghost predicate Readable(data: seq<Byte>) {
    |data| >= 10 ==>
      match ReadText(data, 6)
      case None => |data| % 2 == 0
      case Some(t) => Walkable(data, 6 + 2 * |t| + 2)
  }

  /** What BCfgParseLoadOption makes of the data. */
  ghost function Parsed(data: seq<Byte>): Option<LoadOption>
    requires Readable(data)
  {
    if |data| < 10 then None
    else match ReadText(data, 6)
      case None => None
      case Some(description) =>
        var path := 6 + 2 * |description| + 2;
        var length := Read16(data, 4);
        if EndOf(data, path).None? || path + length > |data| then None
        else Some(LoadOption(Read32(data, 0), length, description, data[path..], data[path + length..]))
  }

  /** Scans for the NUL that ends the description. */
  method FindTerminator(data: seq<Byte>) returns (found: bool, end: nat)
    requires |data| >= 10 && (ReadText(data, 6).None? ==> |data| % 2 == 0)
    ensures found <==> ReadText(data, 6).Some?
    ensures found ==> end == 6 + 2 * |ReadText(data, 6).value|
  {
    end := 6;
    while Read16(data, end) != 0
      invariant 6 <= end && end % 2 == 0 && end + 2 <= |data|
      invariant ReadText(data, 6).Some? <==> ReadText(data, end).Some?
      invariant ReadText(data, 6).Some? ==> end + 2 * |ReadText(data, end).value| == 6 + 2 * |ReadText(data, 6).value|
      decreases |data| - end
    {
      if end > |data| - 2 - 1 {
        return false, end;
      }
      end := end + 2;
    }
    found := true;
  }

  /** Parses the bytes of an option; `None` when they are too short, end inside the description or the
      file path, or state a path length beyond their end. */
  method BCfgParseLoadOption(data: seq<Byte>) returns (option: Option<LoadOption>)
    requires Readable(data)
    ensures option == Parsed(data)
  {
    if |data| < 10 {
      return None;
    }
    var attributes, pathLength := Read32(data, 0), Read16(data, 4);
    var found, end := FindTerminator(data);
    if !found {
      return None;
    }
    var path := end + 2;
    var node := path;
    while !IsEndAt(data, node)
      invariant path <= node && Walkable(data, node)
      invariant EndOf(data, path) == EndOf(data, node)
      decreases |data| - node
    {
      node := NextAt(data, node);
      if node + HEADER_SIZE > |data| {
        return None;
      }
    }
    if path + pathLength > |data| {
      return None;
    }
    var description := ReadDescription(data, end);
    option := Some(LoadOption(attributes, pathLength, description, data[path..], data[path + pathLength..]));
  }

  /** The characters of the description, read as a string. */
  method ReadDescription(data: seq<Byte>, end: nat) returns (t: Text)
    requires |data| >= 10 && ReadText(data, 6).Some? && end == 6 + 2 * |ReadText(data, 6).value|
    ensures Some(t) == ReadText(data, 6)
  {
    t := [];
    var o := 6;
    ghost var all := ReadText(data, 6).value;
    while o < end
      invariant 6 <= o <= end && o == 6 + 2 * |t| && |t| <= |all|
      invariant ReadText(data, o) == Some(all[|t|..]) && t == all[..|t|]
      decreases end - o
    {
      assert all[|t|..][0] == all[|t|] && all[|t|..][1..] == all[|t| + 1..];
      t := t + [Read16(data, o)];
      o := o + 2;
    }
    assert all[..|t|] == all;
  }

  // ----- Writing

  /** The option BCfgAdd builds in its scratch memory. */
  method EncodeLoadOption(data: array<Byte>, description: Text, path: seq<Byte>) returns (size: nat)
    requires IsCompact(path) && data.Length == DATA_SIZE
    requires 6 + 2 * |description| + 2 + |Serialise(NodesAt(path, 0))| <= DATA_SIZE
    modifies data
    ensures size <= data.Length
    ensures data[..size] == OptionBytes(LOAD_OPTION_ACTIVE, description, Serialise(NodesAt(path, 0)))
  {
    hide OptionBytes, TextBytes, Serialise, LE32, LE16;
    CompactBytes(path);
    EncodedParts(LOAD_OPTION_ACTIVE, description, Serialise(NodesAt(path, 0)));
    var descSize := 2 * (|description| + 1);
    var pathSize := DevicePathSize(path, 0);
    var p8 := Put(data, 0, LE32(LOAD_OPTION_ACTIVE), 0, 4);
    p8 := Put(data, p8, LE16(pathSize), 0, 2);
    p8 := Put(data, p8, TextBytes(description), 0, descSize);
    size := Put(data, p8, path, 0, pathSize);
  }

  lemma EncodedParts(attributes: nat, description: Text, path: seq<Byte>)
    ensures |LE32(attributes)| == 4 && |LE16(|path|)| == 2
    ensures OptionBytes(attributes, description, path) ==
            LE32(attributes) + LE16(|path|) + TextBytes(description) + path
    ensures LE32(attributes)[0..4] == LE32(attributes) && LE16(|path|)[0..2] == LE16(|path|)
    ensures TextBytes(description)[0..2 * (|description| + 1)] == TextBytes(description)
  {}

  // ----- The two undo each other

  lemma Read16Written(x: nat, m: seq<Byte>, o: nat)
    requires x < 0x10000 && o + 2 <= |m| && m[o..o + 2] == LE16(x)
    ensures Read16(m, o) == x
  {}

  /** A NUL-free description reads back from its bytes. */
  lemma {:induction false} ReadTextBytes(t: Text, m: seq<Byte>, o: nat)
    requires NulFree(t) && o + 2 * |t| + 2 <= |m| && m[o..o + 2 * |t| + 2] == TextBytes(t)
    ensures ReadText(m, o) == Some(t)
  {
    var w := m[o..o + 2 * |t| + 2];
    if t == [] {
      Read16Written(0, m, o);
    } else {
      assert m[o..o + 2] == w[..2] == LE16(t[0]);
      Read16Written(t[0], m, o);
      assert m[o + 2..o + 2 * |t| + 2] == w[2..] == TextBytes(t[1..]);
      ReadTextBytes(t[1..], m, o + 2);
      assert t == [t[0]] + t[1..];
    }
  }

  /** Walking a well-formed path finds its end marker. */
  lemma {:induction false} EndOfPath(m: seq<Byte>, o: nat)
    requires Parse(m, o).Some?
    ensures Walkable(m, o) && EndOf(m, o).Some?
    decreases |m| - o
  {
    if !IsEndAt(m, o) {
      EndOfPath(m, NextAt(m, o));
    }
  }

  /** Parsing an option recovers the attributes, the description, the file path and the load options behind
      it exactly when the length of the path fits its field.  The file path keeps what follows it. */
  lemma OptionRoundTrip(attributes: nat, description: Text, ns: seq<Node>, extra: seq<Byte>)
    requires attributes < 0x1_0000_0000 && NulFree(description) && ValidPath(ns)
    ensures var path := Serialise(ns);
            var data := OptionBytes(attributes, description, path) + extra;
            && Readable(data)
            && (Parsed(data) == Some(LoadOption(attributes, |path|, description, path + extra, extra))
                <==> |path| < 0x10000)
            && Parse(path + extra, 0) == Some(ns)
  {
    hide Parse, Serialise, OptionBytes, ReadText, TextBytes, Readable, Parsed, Walkable, EndOf, LE16;
    var path := Serialise(ns);
    var data := OptionBytes(attributes, description, path) + extra;
    var at := 6 + 2 * |description| + 2;
    OptionLayout(attributes, description, path);
    ExtraLayout(OptionBytes(attributes, description, path), extra, at, path);
    SerialiseCons(ns);
    ReadTextBytes(description, data, 6);
    ReadAttributes(attributes, data);
    ParseSerialise(ns, data, at);
    assert (path + extra)[0..|path|] == path;
    ParseSerialise(ns, path + extra, 0);
    EndOfPath(data, at);
    ReadableAt(data, description);
    if |path| < 0x10000 {
      Read16Written(|path|, data, 4);
      ParsedWhole(data, description, path, extra);
    } else {
      LengthBelow(data);
    }
  }

  lemma ReadAttributes(attributes: nat, data: seq<Byte>)
    requires attributes < 0x1_0000_0000 && |data| >= 4
    requires data[0..2] == LE16(attributes) && data[2..4] == LE16(attributes / 0x10000)
    ensures Read32(data, 0) == attributes
  {
    LowHalf(attributes);
    Read16Written(attributes % 0x10000, data, 0);
    Read16Written(attributes / 0x10000, data, 2);
  }

  lemma LowHalf(x: nat)
    ensures LE16(x) == LE16(x % 0x10000)
  {
    var q, r := x / 0x10000, x % 0x10000;
    assert x == (q * 0x100) * 0x100 + r;
    DivModUnique(x, 0x100, q * 0x100 + r / 0x100, r % 0x100);
    DivModUnique(q * 0x100 + r / 0x100, 0x100, q, r / 0x100);
  }

  /** Bytes behind an option leave its own where they were. */
  lemma ExtraLayout(option: seq<Byte>, extra: seq<Byte>, at: nat, path: seq<Byte>)
    requires 6 <= at && |option| == at + |path| && option[at..] == path
    ensures var data := option + extra;
            && data[0..2] == option[0..2] && data[2..4] == option[2..4] && data[4..6] == option[4..6]
            && data[6..at] == option[6..at] && data[at..at + |path|] == path && data[at..] == path + extra
  {}

  /** The bytes of an option, one by one: the attributes, the path length, the description with its NUL, low
      byte first, and the path. */
  lemma OptionByteByByte(description: Text, path: seq<Byte>)
    ensures var data, at := OptionBytes(LOAD_OPTION_ACTIVE, description, path), 6 + 2 * |description|;
            && |data| == at + 2 + |path|
            && data[..6] == [1, 0, 0, 0, |path| % 0x100, |path| / 0x100 % 0x100]
            && (forall i :: 0 <= i < |description| ==> CharBytes(data, 6 + 2 * i, description[i]))
            && CharBytes(data, at, 0)
            && data[at + 2..] == path
  {
    hide TextBytes;
    var data := OptionBytes(LOAD_OPTION_ACTIVE, description, path);
    OptionLayout(LOAD_OPTION_ACTIVE, description, path);
    assert data[..6] == data[0..2] + data[2..4] + data[4..6];
    var t := data[6..6 + 2 * |description| + 2];
    forall i | 0 <= i < |description|
      ensures CharBytes(data, 6 + 2 * i, description[i])
    {
      TextByteByByte(description, i);
      assert data[6 + 2 * i] == t[2 * i] && data[7 + 2 * i] == t[2 * i + 1];
    }
    var n := |description|;
    TextByteByByte(description, n);
    assert data[6 + 2 * n] == t[2 * n] && data[7 + 2 * n] == t[2 * n + 1];
  }

  predicate CharBytes(m: seq<Byte>, o: nat, c: Char16) {
    o + 1 < |m| && m[o] == c % 0x100 && m[o + 1] == c / 0x100
  }

  lemma {:induction false} TextByteByByte(t: Text, i: nat)
    requires i <= |t|
    ensures CharBytes(TextBytes(t), 2 * i, if i < |t| then t[i] else 0)
  {
    if i > 0 {
      TextByteByByte(t[1..], i - 1);
    }
  }

  lemma ReadableAt(data: seq<Byte>, description: Text)
    requires |data| >= 10 && ReadText(data, 6) == Some(description) && Walkable(data, 6 + 2 * |description| + 2)
    ensures Readable(data)
  {}

  lemma LengthBelow(data: seq<Byte>)
    requires Readable(data)
    ensures Parsed(data).Some? ==> Parsed(data).value.pathLength < 0x10000
  {}

  /** GetVariable into a buffer of MAX_ENV_SIZE bytes: a larger variable is refused. */
  function Fetch(stored: seq<Byte>): Option<seq<Byte>> {
    if |stored| <= MAX_ENV_SIZE then Some(stored) else None
  }

  /** What BCfgDumpBootList makes of a stored option. */
  method ListOption(stored: seq<Byte>) returns (option: Option<LoadOption>)
    requires Readable(stored)
    ensures option == if |stored| <= 1024 then Parsed(stored) else None
  {
    var data := Fetch(stored);
    if data.None? {
      return None;
    }
    option := BCfgParseLoadOption(data.value);
  }

  /** An option BCfgAdd has stored is listed as it was given exactly when it has at most MAX_ENV_SIZE bytes,
      32 less than the scratch memory it was built in. */
  lemma ListedIff(description: Text, ns: seq<Node>)
    requires NulFree(description) && ValidPath(ns)
    ensures var path := Serialise(ns);
            var stored := Fetch(OptionBytes(LOAD_OPTION_ACTIVE, description, path));
            && (stored.Some? ==> Readable(stored.value))
            && (stored.Some? && Parsed(stored.value) ==
                                Some(LoadOption(1, |path|, description, path, []))
                <==> 6 + 2 * |description| + 2 + |path| <= 1024)
  {
    hide Parse, Serialise, OptionBytes, Readable, Parsed;
    var path := Serialise(ns);
    OptionRoundTrip(LOAD_OPTION_ACTIVE, description, ns, []);
    OptionLayout(LOAD_OPTION_ACTIVE, description, path);
    assert path + [] == path;
    var data := OptionBytes(LOAD_OPTION_ACTIVE, description, path);
    assert data + [] == data;
  }

  lemma ParsedWhole(data: seq<Byte>, description: Text, path: seq<Byte>, extra: seq<Byte>)
    requires |data| >= 10 && ReadText(data, 6) == Some(description)
    requires var at := 6 + 2 * |description| + 2;
             && at + |path| + |extra| == |data| && data[at..] == path + extra
             && Walkable(data, at) && EndOf(data, at).Some?
    requires Read16(data, 4) == |path|
    ensures Readable(data)
    ensures Parsed(data) == Some(LoadOption(Read32(data, 0), |path|, description, path + extra, extra))
  {
    var at := 6 + 2 * |description| + 2;
    assert data[at + |path|..] == data[at..][|path|..] == extra;
  }

  lemma OptionLayout(attributes: nat, description: Text, path: seq<Byte>)
    ensures var data := OptionBytes(attributes, description, path);
            var at := 6 + 2 * |description| + 2;
            && |data| == at + |path|
            && data[0..2] == LE16(attributes) && data[2..4] == LE16(attributes / 0x10000)
            && data[4..6] == LE16(|path|)
            && data[6..at] == TextBytes(description)
            && data[at..] == path && data[at..at + |path|] == path
  {}

  lemma Written16Read(m: seq<Byte>, o: nat)
    requires o + 2 <= |m|
    ensures LE16(Read16(m, o)) == m[o..o + 2]
  {}

  lemma {:induction false} TextBytesRead(m: seq<Byte>, o: nat)
    requires ReadText(m, o).Some?
    ensures NulFree(ReadText(m, o).value)
    ensures TextBytes(ReadText(m, o).value) == m[o..o + 2 * |ReadText(m, o).value| + 2]
    decreases |m| - o
  {
    Written16Read(m, o);
    if Read16(m, o) != 0 {
      TextBytesRead(m, o + 2);
      var t := ReadText(m, o).value;
      assert t[1..] == ReadText(m, o + 2).value;
      assert m[o..o + 2 * |t| + 2] == m[o..o + 2] + m[o + 2..o + 2 * |t| + 2];
    }
  }

  /** Writing undoes reading: parsed data is exactly the bytes of its fields and the load options. */
  lemma ParsedRebuilds(data: seq<Byte>)
    requires Readable(data) && Parsed(data).Some?
    ensures var o := Parsed(data).value;
            && NulFree(o.description) && o.pathLength <= |o.filePath|
            && OptionBytes(o.attributes, o.description, o.filePath[..o.pathLength]) + o.options == data
            && o.filePath == o.filePath[..o.pathLength] + o.options
  {
    hide ReadText, TextBytes, Walkable, EndOf, LE32, LE16, Read32, Read16;
    var o := Parsed(data).value;
    var at := 6 + 2 * |o.description| + 2;
    TextBytesRead(data, 6);
    Written32Read(data, 0);
    Written16Read(data, 4);
    FourParts(data, at, o.pathLength);
  }

  lemma LowWord(low: Char16, high: Char16)
    ensures (low + high * 0x10000) / 0x10000 == high
    ensures LE16(low + high * 0x10000) == LE16(low)
  {
    var x: int := low + high * 0x10000;
    assert x / 0x100 == low / 0x100 + high * 0x100;
  }

  lemma Written32Read(m: seq<Byte>, o: nat)
    requires o + 4 <= |m|
    ensures LE32(Read32(m, o)) == m[o..o + 4]
  {
    var low, high := Read16(m, o), Read16(m, o + 2);
    Written16Read(m, o);
    Written16Read(m, o + 2);
    LowWord(low, high);
    assert m[o..o + 4] == m[o..o + 2] + m[o + 2..o + 4];
  }

  lemma FourParts(data: seq<Byte>, at: nat, length: nat)
    requires 6 <= at && at + length <= |data|
    ensures data == data[0..4] + data[4..6] + data[6..at] + data[at..][..length] + data[at + length..]
    ensures data[at..] == data[at..][..length] + data[at + length..]
  {}
}
