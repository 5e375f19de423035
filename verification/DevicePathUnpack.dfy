/** UnpackDevicePath of LIB/dpath.c: every node padded to the alignment of the machine. */
module DevicePathUnpack {
  import opened EfiBase
  import opened DevicePathFormat
  import opened DevicePathLib
  import opened DevicePathEdit

  /** ALIGN_SIZE: the bytes missing to the next multiple of MIN_ALIGNMENT_SIZE (4 on ia32, 8 on ipf). */
  function AlignSize(align: nat, a: nat): nat
    requires align > 0
  {
    if a % align != 0 then align - a % align else 0
  }

  function Padded(align: nat, len: nat): nat
    requires align > 0
  {
    len + AlignSize(align, len)
  }

  /** Every padded length still fits the two length bytes of a header. */
  ghost predicate PaddedFits(align: nat, ns: seq<RawNode>)
    requires align > 0
  {
    forall i :: 0 <= i < |ns| ==> Padded(align, ns[i].Length()) < 0x10000
  }

  function Zeros(n: nat): (z: seq<Byte>)
    ensures |z| == n && forall i :: 0 <= i < n ==> z[i] == 0
  {
    if n == 0 then [] else Zeros(n - 1) + [0]
  }

  function UnpackNode(align: nat, n: RawNode): RawNode
    requires align > 0
  {
    RawNode(n.typ % 0x80 + 0x80, n.sub, n.data + Zeros(AlignSize(align, n.Length())))
  }

  ghost function UnpackNodes(align: nat, ns: seq<RawNode>): (us: seq<RawNode>)
    requires align > 0
    ensures |us| == |ns| && forall i :: 0 <= i < |ns| ==> us[i] == UnpackNode(align, ns[i])
  {
    if ns == [] then [] else
      UnpackNodes(align, ns[..|ns| - 1]) + [UnpackNode(align, ns[|ns| - 1])]
  }

  // ----- Arithmetic of padding

  lemma ModShift(a: nat, x: nat, y: nat)
    requires a > 0 && x % a == 0
    ensures (x + y) % a == y % a
  {
    var q, p, r := x / a, y / a, y % a;
    assert x + y == (q + p) * a + r by {
      assert x == q * a && y == p * a + r;
      assert (q + p) * a == q * a + p * a;
    }
    DivModUnique(x + y, a, q + p, r);
  }

  lemma PaddedAligned(align: nat, len: nat)
    requires align > 0
    ensures Padded(align, len) % align == 0
    ensures len <= Padded(align, len) < len + align
  {
    if len % align != 0 {
      var q, r := len / align, len % align;
      assert len + (align - r) == (q + 1) * align + 0;
      DivModUnique(len + (align - r), align, q + 1, 0);
    }
  }

  /** Rounding a running total that is already aligned adds exactly the node's own padding. */
  lemma RunningPad(align: nat, total: nat, len: nat)
    requires align > 0 && total % align == 0
    ensures Padded(align, total + len) == total + Padded(align, len)
    ensures Padded(align, total + len) % align == 0
  {
    ModShift(align, total, len);
    PaddedAligned(align, total + len);
  }

  // ----- The byte form

  /** A reader of the header then sees the length modulo 2^16; nothing else changes. */
  method SetDevicePathNodeLength(m: array<Byte>, o: nat, l: nat)
    requires o + HEADER_SIZE <= m.Length
    modifies m
    ensures LengthAt(m[..], o) == l % 0x10000
    ensures forall k :: 0 <= k < m.Length && k != o + 2 && k != o + 3 ==> m[k] == old(m[k])
  {
    m[o + 2] := l % 0x100;
    m[o + 3] := l / 0x100 % 0x100;
    TwoBytes(l);
  }

  lemma TwoBytes(l: nat)
    ensures l % 0x100 + l / 0x100 % 0x100 * 0x100 == l % 0x10000
  {
    var h := l / 0x100;
    DivModUnique(l, 0x10000, h / 0x100, l % 0x100 + h % 0x100 * 0x100);
  }

  /** The two bytes that stand for a length are determined by it. */
  lemma LengthBytes(m: seq<Byte>, o: nat, l: nat)
    requires HeaderAt(m, o) && LengthAt(m, o) == l % 0x10000
    ensures m[o + 2] == l % 0x100 && m[o + 3] == l / 0x100 % 0x100
  {
    TwoBytes(l);
    SplitUnique(0x100, l / 0x100 % 0x100, l % 0x100, m[o + 3], m[o + 2]);
  }

  lemma UnpackNodesPrefix(align: nat, ns: seq<Node>, i: nat)
    requires align > 0 && i < |ns|
    ensures UnpackNodes(align, ns[..i + 1]) == UnpackNodes(align, ns[..i]) + [UnpackNode(align, ns[i])]
    ensures Serialise(UnpackNodes(align, ns[..i + 1]))
            == Serialise(UnpackNodes(align, ns[..i])) + UnpackNode(align, ns[i]).Bytes()
  {
    assert ns[..i + 1][..i] == ns[..i];
    SerialiseConcat(UnpackNodes(align, ns[..i]), [UnpackNode(align, ns[i])]);
    SerialiseSingle(UnpackNode(align, ns[i]));
  }

  /** Prefixes of the unpacked form never outgrow the whole. */
  lemma {:induction false} UnpackedGrows(align: nat, ns: seq<Node>, i: nat)
    requires align > 0 && i <= |ns|
    ensures |Serialise(UnpackNodes(align, ns[..i]))| <= |Serialise(UnpackNodes(align, ns))|
  {
    var us := UnpackNodes(align, ns);
    assert UnpackNodes(align, ns[..i]) == us[..i];
    assert us == us[..i] + us[i..];
    SerialiseConcat(us[..i], us[i..]);
  }

  /** Where every padded length fits, unpacking gives a path. */
  lemma UnpackedValid(align: nat, ns: seq<Node>) returns (us: seq<Node>)
    requires align > 0 && ValidPath(ns) && PaddedFits(align, ns)
    ensures us == UnpackNodes(align, ns) && ValidPath(us)
  {
    var all := UnpackNodes(align, ns);
    assert forall i :: 0 <= i < |all| ==> all[i].Length() == Padded(align, ns[i].Length());
    us := all;
    assert forall i :: 0 <= i < |ns| ==> us[i].IsEnd() == ns[i].IsEnd();
  }

  /** First pass: sums the node lengths, rounding the running total after each. */
  method UnpackedSize(m: seq<Byte>, align: nat) returns (size: nat)
    requires align > 0 && IsPath(m, 0)
    ensures size == |Serialise(UnpackNodes(align, NodesAt(m, 0)))|
  {
    hide Parse, Serialise, UnpackNodes, ValidPath;
    ghost var ns := NodesAt(m, 0);
    ghost var i := 0;
    var src := 0;
    size := 0;
    WalkStart(m, 0);
    UnpackNothing(align, ns);
    while true
      invariant Walked(m, 0, ns, src, i)
      invariant size % align == 0
      invariant size == |Serialise(UnpackNodes(align, ns[..i]))|
      decreases |ns| - i
    {
      WalkStep(m, 0, ns, src, i);
      UnpackNodesPrefix(align, ns, i);
      RunningPad(align, size, LengthAt(m, src));
      size := size + LengthAt(m, src);
      size := size + AlignSize(align, size);
      if IsEndAt(m, src) {
        break;
      }
      src := NextAt(m, src);
      i := i + 1;
    }
    LastNode(ns, i);
    assert ns[..i + 1] == ns;
  }

  lemma UnpackNothing(align: nat, ns: seq<Node>)
    requires align > 0
    ensures Serialise(UnpackNodes(align, ns[..0])) == []
  {}

  lemma LastNode(ns: seq<Node>, i: nat)
    requires ValidPath(ns) && i < |ns| && ns[i].IsEnd()
    ensures i == |ns| - 1
  {}

  /** Second pass, one node: copy, set the padded length, mark as unpacked.  The bytes beyond the
      copied payload keep the zeros of the allocation. */
  method CopyUnpacked(r: array<Byte>, dest: nat, m: seq<Byte>, src: nat, align: nat) returns (next: nat)
    requires align > 0 && NodeFits(m, src)
    requires dest + Padded(align, LengthAt(m, src)) <= r.Length
    requires forall k :: dest <= k < r.Length ==> r[k] == 0
    modifies r
    ensures next == dest + Padded(align, LengthAt(m, src))
    ensures r[..next] == old(r[..dest]) + UnpackNode(align, NodeAt(m, src)).Bytes()
    ensures forall k :: next <= k < r.Length ==> r[k] == 0
  {
    var size := LengthAt(m, src);
    CopyMem(r, dest, m, src, size);
    size := size + AlignSize(align, size);
    ghost var copied: seq<Byte> := r[..];
    SetDevicePathNodeLength(r, dest, size);
    LengthBytes(r[..], dest, size);
    ghost var low: Byte, high: Byte := size % 0x100, size / 0x100 % 0x100;
    ghost var lowSet: seq<Byte> := copied[dest + 2 := low];
    assert r[..] == lowSet[dest + 3 := high];
    r[dest] := r[dest] % 0x80 + 0x80;
    next := dest + size;
    UnpackedBytes(old(r[..]), r[..], dest, m, src, align);
    assert r[..][..next] == r[..next];
  }

  /** The memory `after` the three writes above. */
  lemma UnpackedBytes(before: seq<Byte>, after: seq<Byte>, dest: nat, m: seq<Byte>, src: nat, align: nat)
    requires align > 0 && NodeFits(m, src)
    requires dest + Padded(align, LengthAt(m, src)) <= |before|
    requires forall k :: dest <= k < |before| ==> before[k] == 0
    requires var len, size := LengthAt(m, src), Padded(align, LengthAt(m, src));
             after == (before[..dest] + m[src..src + len] + before[dest + len..])
                      [dest + 2 := size % 0x100][dest + 3 := size / 0x100 % 0x100][dest := m[src] % 0x80 + 0x80]
    ensures var next := dest + Padded(align, LengthAt(m, src));
            && after[..next] == before[..dest] + UnpackNode(align, NodeAt(m, src)).Bytes()
            && forall k :: next <= k < |after| ==> after[k] == 0
  {
    var n := NodeAt(m, src);
    var u := UnpackNode(align, n);
    assert u.Length() == Padded(align, LengthAt(m, src));
    SplicedBytes(before, after, dest, m[src..src + n.Length()], u);
  }

  /** A node copied over zeros, then given its new length and type. */
  lemma SplicedBytes(before: seq<Byte>, after: seq<Byte>, dest: nat, bytes: seq<Byte>, u: RawNode)
    requires HEADER_SIZE <= |bytes| <= u.Length() && dest + u.Length() <= |before|
    requires forall k :: dest <= k < |before| ==> before[k] == 0
    requires u.sub == bytes[1] && bytes[HEADER_SIZE..] <= u.data
    requires forall k :: |bytes| - HEADER_SIZE <= k < |u.data| ==> u.data[k] == 0
    requires after == (before[..dest] + bytes + before[dest + |bytes|..])
                      [dest + 2 := u.Length() % 0x100][dest + 3 := u.Length() / 0x100 % 0x100][dest := u.typ]
    ensures after[..dest + u.Length()] == before[..dest] + u.Bytes()
    ensures forall k :: dest + u.Length() <= k < |after| ==> after[k] == 0
  {}

  /** Copies a path node by node into zeroed memory, each padded to the alignment. */
  method UnpackDevicePath(m: seq<Byte>, align: nat, granted: bool) returns (r: array?<Byte>)
    requires align > 0 && IsPath(m, 0)
    ensures r == null <==> !granted
    ensures r != null ==> fresh(r) && r[..] == Serialise(UnpackNodes(align, NodesAt(m, 0)))
    ensures r != null && PaddedFits(align, NodesAt(m, 0)) ==>
              IsPath(r[..], 0) && NodesAt(r[..], 0) == UnpackNodes(align, NodesAt(m, 0))
    ensures r != null && 0x10000 % align == 0 ==> (IsPath(r[..], 0) <==> PaddedFits(align, NodesAt(m, 0)))
  {
    hide Parse, Serialise, UnpackNodes, ValidPath;
    var size := UnpackedSize(m, align);
    if !granted {
      return null;
    }
    r := new Byte[size](_ => 0);
    ghost var ns := NodesAt(m, 0);
    ghost var i := 0;
    var src, dest := 0, 0;
    WalkStart(m, 0);
    UnpackNothing(align, ns);
    while true
      invariant fresh(r) && r.Length == size && Walked(m, 0, ns, src, i)
      invariant 0 <= dest <= r.Length && r[..dest] == Serialise(UnpackNodes(align, ns[..i]))
      invariant forall k :: dest <= k < r.Length ==> r[k] == 0
      decreases |ns| - i
    {
      WalkStep(m, 0, ns, src, i);
      UnpackNodesPrefix(align, ns, i);
      UnpackedGrows(align, ns, i + 1);
      dest := CopyUnpacked(r, dest, m, src, align);
      if IsEndAt(m, src) {
        break;
      }
      src := NextAt(m, src);
      i := i + 1;
    }
    LastNode(ns, i);
    assert ns[..i + 1] == ns;
    assert r[..dest] == r[..];
    UnpackedReads(align, ns, r[..]);
  }

  /** An unpacked path reads back where its padded lengths fit their fields; with an alignment that divides
      2^16, as those of the source do, only there. */
  lemma UnpackedReads(align: nat, ns: seq<Node>, m: seq<Byte>)
    requires align > 0 && ValidPath(ns) && m == Serialise(UnpackNodes(align, ns))
    ensures PaddedFits(align, ns) ==> IsPath(m, 0) && NodesAt(m, 0) == UnpackNodes(align, ns)
    ensures 0x10000 % align == 0 ==> (IsPath(m, 0) <==> PaddedFits(align, ns))
  {
    hide Parse, Serialise, UnpackNodes, ValidPath;
    if PaddedFits(align, ns) {
      var us := UnpackedValid(align, ns);
      ReadsBack(m, us);
    } else if 0x10000 % align == 0 {
      UnpackedStops(align, ns, m, 0);
    }
  }

  /** A padded length that does not fit is 2^16, so the field holds zero and a reader stops there. */
  lemma {:induction false} UnpackedStops(align: nat, ns: seq<Node>, m: seq<Byte>, o: nat)
    requires align > 0 && 0x10000 % align == 0 && ValidPath(ns) && !PaddedFits(align, ns)
    requires o <= |m| && m[o..] == Serialise(UnpackNodes(align, ns))
    ensures Parse(m, o).None?
  {
    hide Parse, Serialise, ValidPath, UnpackNode, Padded, NodeFits, NodeAt;
    var n, us := ns[0], UnpackNodes(align, ns);
    var u := UnpackNode(align, n);
    ValidTail(ns);
    SerialiseCons(us);
    NodeKeepsContent(align, n);
    var rest := Serialise(us[1..]);
    if u.Length() >= 0x10000 {
      PaddedTop(align, n.Length());
      LongHeader(m, o, u, rest);
    } else {
      ShortNode(m, o, u, rest);
      assert |ns| > 1;
      assert us[1..] == UnpackNodes(align, ns[1..]);
      UnpackedStops(align, ns[1..], m, o + u.Length());
    }
    ParseNone(m, o);
  }

  lemma ParseNone(m: seq<Byte>, o: nat)
    requires NodeFits(m, o) ==> !NodeAt(m, o).IsEnd() && Parse(m, NextAt(m, o)).None?
    ensures Parse(m, o).None?
  {}

  /** A header with a zero length field. */
  lemma LongHeader(m: seq<Byte>, o: nat, u: RawNode, rest: seq<Byte>)
    requires o <= |m| && m[o..] == u.Bytes() + rest && u.Length() == 0x10000
    ensures !NodeFits(m, o)
  {
    var w := m[o..];
    assert m[o + 2] == w[2] == 0 && m[o + 3] == w[3] == 0;
  }

  /** A node whose length fits reads back, and what follows it comes next. */
  lemma ShortNode(m: seq<Byte>, o: nat, u: Node, rest: seq<Byte>)
    requires o <= |m| && m[o..] == u.Bytes() + rest
    ensures NodeFits(m, o) && NodeAt(m, o) == u && NextAt(m, o) == o + u.Length() <= |m|
    ensures m[o + u.Length()..] == rest
  {
    var w := m[o..];
    assert m[o..o + u.Length()] == w[..u.Length()];
    NodeAtBytes(u, m, o);
    assert m[o + u.Length()..] == w[u.Length()..];
  }

  lemma PaddedTop(align: nat, len: nat)
    requires align > 0 && 0x10000 % align == 0 && len < 0x10000 <= Padded(align, len)
    ensures Padded(align, len) == 0x10000
  {
    hide Padded;
    PaddedAligned(align, len);
    MultiplesMeet(align, 0x10000, Padded(align, len));
  }

  lemma MultiplesMeet(align: nat, x: nat, y: nat)
    requires align > 0 && x % align == 0 && y % align == 0 && x <= y < x + align
    ensures x == y
  {
    var q := x / align;
    DivModSum(x, align);
    DivModSum(y, align);
    if x < y {
      DivModUnique(y, align, q, y - x);
    }
  }

  // ----- What unpacking keeps and establishes

  /** Same masked type, subtype and payload, followed by the fewest zeros that align the node. */
  lemma UnpackKeepsContent(align: nat, ns: seq<Node>, i: nat)
    requires align > 0 && i < |ns|
    ensures var n, u := ns[i], UnpackNodes(align, ns)[i];
            && u.typ % 0x80 == n.typ % 0x80 && u.typ >= 0x80 && u.sub == n.sub
            && n.data <= u.data
            && (forall k :: |n.data| <= k < |u.data| ==> u.data[k] == 0)
            && u.Length() % align == 0 && u.Length() < n.Length() + align
  {
    hide UnpackNode, UnpackNodes;
    assert UnpackNodes(align, ns)[i] == UnpackNode(align, ns[i]);
    NodeKeepsContent(align, ns[i]);
  }

  lemma NodeKeepsContent(align: nat, n: RawNode)
    requires align > 0
    ensures var u := UnpackNode(align, n);
            && u.Length() == Padded(align, n.Length()) && u.IsEnd() == n.IsEnd()
            && u.typ % 0x80 == n.typ % 0x80 && u.typ >= 0x80 && u.sub == n.sub
            && n.data <= u.data
            && (forall k :: |n.data| <= k < |u.data| ==> u.data[k] == 0)
            && u.Length() % align == 0 && u.Length() < n.Length() + align
  {
    PaddedAligned(align, n.Length());
    var u := UnpackNode(align, n);
    assert u.Length() == Padded(align, n.Length());
  }

  /** Every node of the unpacked path starts on the alignment boundary. */
  lemma {:induction false} UnpackAligned(align: nat, ns: seq<Node>, i: nat)
    requires align > 0 && i <= |ns|
    ensures |Serialise(UnpackNodes(align, ns)[..i])| % align == 0
  {
    hide UnpackNodes, Serialise;
    var us := UnpackNodes(align, ns);
    if i == 0 {
      UnpackNothing(align, ns);
      assert us[..0] == UnpackNodes(align, ns[..0]);
    } else {
      UnpackAligned(align, ns, i - 1);
      assert us[..i] == us[..i - 1] + [us[i - 1]];
      SerialiseConcat(us[..i - 1], [us[i - 1]]);
      SerialiseSingle(us[i - 1]);
      PaddedAligned(align, ns[i - 1].Length());
      ModShift(align, |Serialise(us[..i - 1])|, us[i - 1].Length());
    }
  }

  /** Unpacking an unpacked path changes nothing. */
  lemma UnpackIdempotent(align: nat, ns: seq<Node>)
    requires align > 0
    ensures UnpackNodes(align, UnpackNodes(align, ns)) == UnpackNodes(align, ns)
  {
    hide UnpackNode, UnpackNodes;
    var us := UnpackNodes(align, ns);
    forall i | 0 <= i < |ns|
      ensures UnpackNodes(align, us)[i] == us[i]
    {
      UnpackNodeTwice(align, ns[i]);
    }
  }

  lemma UnpackNodeTwice(align: nat, n: RawNode)
    requires align > 0
    ensures UnpackNode(align, UnpackNode(align, n)) == UnpackNode(align, n)
  {
    var u := UnpackNode(align, n);
    NodeKeepsContent(align, n);
    assert AlignSize(align, u.Length()) == 0;
    assert u.data + Zeros(0) == u.data;
  }

  /** The header of an unpacked node states its length exactly when that is below 2^16. */
  lemma LengthFieldExactIff(align: nat, n: Node)
    requires align > 0
    ensures var u := UnpackNode(align, n);
            LengthAt(u.Bytes(), 0) == u.Length() <==> Padded(align, n.Length()) < 0x10000
  {
    hide UnpackNode;
    NodeKeepsContent(align, n);
    TwoBytes(UnpackNode(align, n).Length());
  }
}
