/** The byte format of device paths (INC/efidevp.h) and its reading as lists of nodes. */
module DevicePathFormat {
  import opened EfiBase

  const HEADER_SIZE := 4
  const END_TYPE: Byte := 0x7F
  const END_ENTIRE: Byte := 0xFF
  const END_INSTANCE: Byte := 0x01

  /** One node: the raw type byte (its top bit marks an unpacked node), the subtype and the payload. */
  datatype RawNode = RawNode(typ: Byte, sub: Byte, data: seq<Byte>) {
    function Length(): nat { HEADER_SIZE + |data| }
    predicate IsEndType() { typ % 0x80 == END_TYPE }
    predicate IsEnd() { IsEndType() && sub == END_ENTIRE }

    /** The bytes of a node; its length is cut to the two bytes there are for it. */
    function Bytes(): (b: seq<Byte>)
      ensures |b| == Length()
    {
      [typ, sub, Length() % 0x100, Length() / 0x100 % 0x100] + data
    }
  }

  /** A node whose length fits the two length bytes. */
  type Node = n: RawNode | n.Length() < 0x10000 witness RawNode(END_TYPE, END_ENTIRE, [])

  const EndNode: Node := RawNode(END_TYPE, END_ENTIRE, [])

  // The macros of efidevp.h, reading a header at offset `o` of memory `m`.

  predicate HeaderAt(m: seq<Byte>, o: nat) { o + HEADER_SIZE <= |m| }

  function LengthAt(m: seq<Byte>, o: nat): nat
    requires HeaderAt(m, o)
  {
    Read16(m, o + 2)
  }

  function NextAt(m: seq<Byte>, o: nat): nat
    requires HeaderAt(m, o)
  {
    o + LengthAt(m, o)
  }

  predicate IsEndTypeAt(m: seq<Byte>, o: nat)
    requires HeaderAt(m, o)
  {
    m[o] % 0x80 == END_TYPE
  }

  predicate IsEndAt(m: seq<Byte>, o: nat)
    requires HeaderAt(m, o)
  {
    IsEndTypeAt(m, o) && m[o + 1] == END_ENTIRE
  }

  predicate NodeFits(m: seq<Byte>, o: nat) {
    HeaderAt(m, o) && LengthAt(m, o) >= HEADER_SIZE && NextAt(m, o) <= |m|
  }

  function NodeAt(m: seq<Byte>, o: nat): (n: Node)
    requires NodeFits(m, o)
    ensures n.Bytes() == m[o..NextAt(m, o)]
  {
    RawNode(m[o], m[o + 1], m[o + HEADER_SIZE..NextAt(m, o)])
  }

  /** The header fields by their bytes: an end type is 7F, or FF when unpacked; FF as subtype ends the path;
      the length has its low byte first. */
  lemma HeaderCodes(m: seq<Byte>, o: nat)
    requires HeaderAt(m, o)
    ensures IsEndTypeAt(m, o) <==> m[o] == 0x7F || m[o] == 0xFF
    ensures IsEndAt(m, o) <==> (m[o] == 0x7F || m[o] == 0xFF) && m[o + 1] == 0xFF
    ensures var low: int, high: int := m[o + 2], m[o + 3];
            LengthAt(m, o) == low + 256 * high && NextAt(m, o) == o + low + 256 * high
    ensures EndNode.Bytes() == [0x7F, 0xFF, 4, 0]
  {}

  /** The node list that starts at `o`, up to and including the end-entire marker; `None` when a
      header is cut off, a node is shorter than its header, or no marker comes. */
  function Parse(m: seq<Byte>, o: nat): Option<seq<Node>>
    decreases |m| - o
  {
    if !NodeFits(m, o) then None
    else
      var n := NodeAt(m, o);
      if n.IsEnd() then Some([n])
      else match Parse(m, NextAt(m, o))
        case None => None
        case Some(rest) => Some([n] + rest)
  }

  /** A path: nodes whose one end-entire marker is the last node. */
  predicate ValidPath(ns: seq<Node>) {
    && |ns| > 0
    && ns[|ns| - 1].IsEnd()
    && forall i :: 0 <= i < |ns| - 1 ==> !ns[i].IsEnd()
  }

  function Serialise(ns: seq<RawNode>): seq<Byte> {
    if ns == [] then [] else ns[0].Bytes() + Serialise(ns[1..])
  }

  lemma {:induction false} SerialiseConcat(a: seq<RawNode>, b: seq<RawNode>)
    ensures Serialise(a + b) == Serialise(a) + Serialise(b)
  {
    if a == [] {
      assert a + b == b;
    } else {
      assert (a + b)[1..] == a[1..] + b;
      SerialiseConcat(a[1..], b);
    }
  }

  lemma SerialiseNothing()
    ensures Serialise([]) == []
  {}

  lemma SerialiseSingle(n: RawNode)
    ensures Serialise([n]) == n.Bytes()
  {}

  /** The bytes of a list are those before node `k`, those of node `k` and those after it. */
  lemma SerialiseSplit(ns: seq<RawNode>, k: nat)
    requires k < |ns|
    ensures Serialise(ns) == Serialise(ns[..k]) + ns[k].Bytes() + Serialise(ns[k + 1..])
    ensures |Serialise(ns)| == |Serialise(ns[..k])| + ns[k].Length() + |Serialise(ns[k + 1..])|
  {
    assert ns == ns[..k] + ns[k..];
    SerialiseConcat(ns[..k], ns[k..]);
    assert ns[k..][1..] == ns[k + 1..];
  }

  /** Reading `n.Bytes()` wherever it lies in memory gives `n` back. */
  lemma NodeAtBytes(n: Node, m: seq<Byte>, o: nat)
    requires o + n.Length() <= |m| && m[o..o + n.Length()] == n.Bytes()
    ensures NodeFits(m, o) && LengthAt(m, o) == n.Length() && NodeAt(m, o) == n
  {
    var w := m[o..o + n.Length()];
    assert m[o] == w[0] && m[o + 1] == w[1] && m[o + 2] == w[2] && m[o + 3] == w[3];
    assert m[o + HEADER_SIZE..o + n.Length()] == w[HEADER_SIZE..] == n.data;
  }

  lemma ParseCons(m: seq<Byte>, o: nat, n: Node)
    requires NodeFits(m, o) && NodeAt(m, o) == n
    ensures n.IsEnd() ==> Parse(m, o) == Some([n])
    ensures !n.IsEnd() && Parse(m, NextAt(m, o)).Some? ==>
              Parse(m, o) == Some([n] + Parse(m, NextAt(m, o)).value)
  {}

  lemma SerialiseCons(ns: seq<RawNode>)
    requires ns != []
    ensures Serialise(ns) == ns[0].Bytes() + Serialise(ns[1..])
    ensures |ns| == 1 ==> Serialise(ns[1..]) == []
  {}

  lemma ValidTail(ns: seq<Node>)
    requires ValidPath(ns)
    ensures ns == [ns[0]] + ns[1..]
    ensures ns[0].IsEnd() <==> |ns| == 1
    ensures |ns| > 1 ==> ValidPath(ns[1..])
  {}

  /** Decoding undoes encoding, wherever the bytes lie in memory. */
  lemma {:induction false} ParseSerialise(ns: seq<Node>, m: seq<Byte>, o: nat)
    requires ValidPath(ns)
    requires o + |Serialise(ns)| <= |m| && m[o..o + |Serialise(ns)|] == Serialise(ns)
    ensures Parse(m, o) == Some(ns)
  {
    hide Parse, Serialise, NodeAt, NodeFits;
    var n, rest := ns[0], ns[1..];
    var w := m[o..o + |Serialise(ns)|];
    SerialiseCons(ns);
    assert m[o..o + n.Length()] == w[..n.Length()] == n.Bytes();
    NodeAtBytes(n, m, o);
    ParseCons(m, o, n);
    ValidTail(ns);
    if |ns| > 1 {
      var q := o + n.Length();
      assert m[q..q + |Serialise(rest)|] == w[n.Length()..] == Serialise(rest);
      ParseSerialise(rest, m, q);
    } else {
      assert ns == [n];
    }
  }

  /** Encoding undoes decoding: a parsed path is exactly the bytes it was read from. */
  lemma {:induction false} SerialiseParse(m: seq<Byte>, o: nat)
    requires Parse(m, o).Some?
    ensures var ns := Parse(m, o).value;
            && ValidPath(ns)
            && o + |Serialise(ns)| <= |m|
            && m[o..o + |Serialise(ns)|] == Serialise(ns)
    decreases |m| - o
  {
    var n := NodeAt(m, o);
    if n.IsEnd() {
      SerialiseSingle(n);
    } else {
      SerialiseParse(m, NextAt(m, o));
      var rest := Parse(m, NextAt(m, o)).value;
      var ns := [n] + rest;
      assert ns[1..] == rest;
      var q := NextAt(m, o);
      assert m[o..q + |Serialise(rest)|] == m[o..q] + m[q..q + |Serialise(rest)|];
    }
  }

  // ----- Instances

  /** Index of the first end-type node. */
  function FirstEnd(ns: seq<Node>): (k: nat)
    requires ValidPath(ns)
    ensures k < |ns| && ns[k].IsEndType()
    ensures forall i :: 0 <= i < k ==> !ns[i].IsEndType()
    ensures k == |ns| - 1 <==> ns[k].IsEnd()
  {
    if ns[0].IsEndType() then 0 else 1 + FirstEnd(ns[1..])
  }

  lemma FirstEndUnique(ns: seq<Node>, k: nat)
    requires ValidPath(ns) && k < |ns| && ns[k].IsEndType()
    requires forall i :: 0 <= i < k ==> !ns[i].IsEndType()
    ensures FirstEnd(ns) == k
  {}

  /** The instances of a path: its maximal runs of ordinary nodes, split at the end-type nodes. */
  function Instances(ns: seq<Node>): (r: seq<seq<Node>>)
    requires ValidPath(ns)
    ensures |r| > 0
    decreases |ns|
  {
    var k := FirstEnd(ns);
    if k == |ns| - 1 then [ns[..k]] else [ns[..k]] + Instances(ns[k + 1..])
  }

  /** Every end-type node is a bare four-byte header. */
  predicate CompactEnds(ns: seq<Node>) {
    forall i :: 0 <= i < |ns| && ns[i].IsEndType() ==> ns[i].data == []
  }

  predicate Ordinary(ns: seq<Node>) {
    forall i :: 0 <= i < |ns| ==> !ns[i].IsEndType()
  }

  /** Bytes of all instances plus one four-byte marker for each. */
  ghost function InstanceBytes(insts: seq<seq<Node>>): nat {
    if insts == [] then 0 else |Serialise(insts[0])| + HEADER_SIZE + InstanceBytes(insts[1..])
  }

  lemma {:induction false} InstancesOrdinary(ns: seq<Node>)
    requires ValidPath(ns)
    ensures forall i :: 0 <= i < |Instances(ns)| ==> Ordinary(Instances(ns)[i])
    decreases |ns|
  {
    var k := FirstEnd(ns);
    if k < |ns| - 1 {
      InstancesOrdinary(ns[k + 1..]);
    }
  }

  /** The instance sizes and one marker each add up to the size of the whole path. */
  lemma {:induction false} InstanceSizesSum(ns: seq<Node>)
    requires ValidPath(ns) && CompactEnds(ns)
    ensures InstanceBytes(Instances(ns)) == |Serialise(ns)|
    decreases |ns|
  {
    hide Serialise, ValidPath, FirstEnd, Instances;
    var k := FirstEnd(ns);
    SerialiseSplit(ns, k);
    InstancesUnfold(ns, k);
    assert ns[k].data == [];
    if k == |ns| - 1 {
      assert ns[k + 1..] == [];
      SerialiseNothing();
    } else {
      InstanceSizesSum(ns[k + 1..]);
      assert Instances(ns)[1..] == Instances(ns[k + 1..]);
    }
  }

  lemma InstancesUnfold(ns: seq<Node>, k: nat)
    requires ValidPath(ns) && k < |ns| && ns[k].IsEndType()
    requires forall i :: 0 <= i < k ==> !ns[i].IsEndType()
    ensures k == |ns| - 1 ==> Instances(ns) == [ns[..k]]
    ensures k < |ns| - 1 ==> ValidPath(ns[k + 1..]) && Instances(ns) == [ns[..k]] + Instances(ns[k + 1..])
  {
    hide FirstEnd, ValidPath;
    FirstEndUnique(ns, k);
    if k < |ns| - 1 {
      ValidAfter(ns, k);
    }
  }

  lemma ValidAfter(ns: seq<Node>, k: nat)
    requires ValidPath(ns) && k < |ns| - 1
    ensures ValidPath(ns[k + 1..])
  {}

  lemma PrefixedValid(pre: seq<Node>, ns: seq<Node>)
    requires Ordinary(pre) && ValidPath(ns)
    ensures ValidPath(pre + ns)
  {}

  /** Putting ordinary nodes in front of a path lengthens its first instance only. */
  lemma {:induction false} InstancesOfPrefixed(pre: seq<Node>, ns: seq<Node>)
    requires Ordinary(pre) && ValidPath(ns)
    ensures ValidPath(pre + ns)
    ensures Instances(pre + ns) == [pre + Instances(ns)[0]] + Instances(ns)[1..]
  {
    hide Instances;
    var k, all := FirstEnd(ns), pre + ns;
    var j := |pre| + k;
    PrefixedValid(pre, ns);
    InstancesUnfold(ns, k);
    assert all[j] == ns[k];
    assert forall i :: 0 <= i < j ==> all[i] == if i < |pre| then pre[i] else ns[i - |pre|];
    InstancesUnfold(all, j);
    assert all[..j] == pre + ns[..k];
    assert all[j + 1..] == ns[k + 1..];
  }

  function Joined(a: seq<Node>, mark: Node, b: seq<Node>): seq<Node>
    requires |a| > 0
  {
    a[..|a| - 1] + [mark] + b
  }

  lemma JoinedValid(a: seq<Node>, mark: Node, b: seq<Node>)
    requires ValidPath(a) && ValidPath(b)
    requires mark.IsEndType() && !mark.IsEnd()
    ensures ValidPath(Joined(a, mark, b))
  {}

  /** Turning the final marker into an instance marker and going on with another path
      concatenates the instance lists. */
  lemma {:induction false} InstancesOfJoined(a: seq<Node>, mark: Node, b: seq<Node>)
    requires ValidPath(a) && ValidPath(b)
    requires mark.IsEndType() && !mark.IsEnd()
    ensures ValidPath(Joined(a, mark, b))
    ensures Instances(Joined(a, mark, b)) == Instances(a) + Instances(b)
    decreases |a|
  {
    hide Instances;
    var k := FirstEnd(a);
    var all := Joined(a, mark, b);
    JoinedValid(a, mark, b);
    InstancesUnfold(a, k);
    InstancesUnfold(all, k);
    assert all[..k] == a[..k];
    if k == |a| - 1 {
      assert all[k + 1..] == b;
    } else {
      var rest := a[k + 1..];
      assert all[k + 1..] == Joined(rest, mark, b);
      InstancesOfJoined(rest, mark, b);
      ConcatAssociative([a[..k]], Instances(rest), Instances(b));
    }
  }

  // ----- Prefixes

  ghost predicate Agree(a: seq<Byte>, b: seq<Byte>) {
    forall k :: 0 <= k < |a| && k < |b| ==> a[k] == b[k]
  }

  /** The format is self-delimiting: when the bytes of ordinary nodes and of a path agree as far as
      both go, the nodes are a prefix of the path.  An end type byte differs from every ordinary one. */
  lemma {:induction false} AgreeingBytesArePrefix(inst: seq<Node>, ns: seq<Node>)
    requires Ordinary(inst) && ValidPath(ns)
    requires Agree(Serialise(inst), Serialise(ns))
    ensures inst <= ns
  {
    if inst != [] {
      var n, x := inst[0], ns[0];
      var a, b := Serialise(inst), Serialise(ns);
      assert a[0] == b[0] && a[1] == b[1] && a[2] == b[2] && a[3] == b[3];
      assert n.Length() == x.Length();
      assert forall i :: 0 <= i < |n.data| ==> n.data[i] == a[HEADER_SIZE + i];
      assert forall i :: 0 <= i < |x.data| ==> x.data[i] == b[HEADER_SIZE + i];
      assert n.data == x.data;
      assert |ns| > 1;
      var rest := ns[1..];
      assert rest[|rest| - 1] == ns[|ns| - 1];
      var l := n.Length();
      assert forall k :: 0 <= k < |a| - l ==> Serialise(inst[1..])[k] == a[l + k];
      assert forall k :: 0 <= k < |b| - l ==> Serialise(rest)[k] == b[l + k];
      AgreeingBytesArePrefix(inst[1..], rest);
      assert inst == [n] + inst[1..];
      assert ns == [x] + rest;
    }
  }

  lemma PrefixBytes(inst: seq<Node>, ns: seq<Node>)
    requires inst <= ns
    ensures Serialise(inst) <= Serialise(ns)
  {}
}
