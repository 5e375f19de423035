/** The device path routines of LIB/dpath.c that build a new path in allocated memory. */
module DevicePathEdit {
  import opened EfiBase
  import opened DevicePathFormat
  import opened DevicePathLib

  /** A path in memory whose end markers are bare headers. */
  ghost predicate IsCompact(m: seq<Byte>) {
    IsPath(m, 0) && CompactEnds(NodesAt(m, 0))
  }

  lemma CompactBytes(m: seq<Byte>)
    requires IsCompact(m)
    ensures |Serialise(NodesAt(m, 0))| <= |m| && m[..|Serialise(NodesAt(m, 0))|] == Serialise(NodesAt(m, 0))
    ensures var ns := NodesAt(m, 0); ns[|ns| - 1].data == []
  {
    SerialiseParse(m, 0);
    assert m[0..|Serialise(NodesAt(m, 0))|] == m[..|Serialise(NodesAt(m, 0))|];
  }

  lemma ReadsBack(m: seq<Byte>, ns: seq<Node>)
    requires ValidPath(ns) && Serialise(ns) <= m
    ensures IsPath(m, 0) && NodesAt(m, 0) == ns
  {
    assert m[0..|Serialise(ns)|] == Serialise(ns);
    ParseSerialise(ns, m, 0);
  }

  /** Copies a path.  The copy reads as the same nodes exactly when the end marker is a bare header; a longer
      one is cut off behind its header. */
  method DuplicateDevicePath(path: Option<seq<Byte>>, granted: bool) returns (r: array?<Byte>)
    requires path.Some? ==> IsPath(path.value, 0)
    ensures r == null <==> path.None? || !granted
    ensures r != null ==> fresh(r) && r[..] <= Serialise(NodesAt(path.value, 0))
    ensures r != null ==>
              var ns := NodesAt(path.value, 0);
              && |r[..]| == |Serialise(ns)| - |ns[|ns| - 1].data|
              && (IsPath(r[..], 0) <==> ns[|ns| - 1].data == [])
              && (IsPath(r[..], 0) ==> NodesAt(r[..], 0) == ns && r[..] == Serialise(ns))
  {
    hide Parse, Serialise, ValidPath;
    if path.None? {
      return null;
    }
    var m := path.value;
    var size := DevicePathSize(m, 0);
    if !granted {
      return null;
    }
    PathBytes(m);
    r := new Byte[size];
    CopyMem(r, 0, m, 0, size);
    DuplicateReads(m, r[..]);
  }

  lemma PathBytes(m: seq<Byte>)
    requires IsPath(m, 0)
    ensures Serialise(NodesAt(m, 0)) <= m
    ensures var ns := NodesAt(m, 0); |ns[|ns| - 1].data| <= |Serialise(ns)|
  {
    var ns := NodesAt(m, 0);
    SerialiseParse(m, 0);
    assert m[0..|Serialise(ns)|] == m[..|Serialise(ns)|];
    SerialiseSplit(ns, |ns| - 1);
  }

  lemma DuplicateReads(m: seq<Byte>, r: seq<Byte>)
    requires IsPath(m, 0) && r <= m
    requires var ns := NodesAt(m, 0); |r| == |Serialise(ns)| - |ns[|ns| - 1].data|
    ensures var ns := NodesAt(m, 0);
            && (IsPath(r, 0) <==> ns[|ns| - 1].data == [])
            && (IsPath(r, 0) ==> NodesAt(r, 0) == ns && r == Serialise(ns))
            && r <= Serialise(ns)
  {
    hide Serialise, Parse;
    var ns := NodesAt(m, 0);
    PathBytes(m);
    if ns[|ns| - 1].data == [] {
      assert r == Serialise(ns);
      ReadsBack(r, ns);
    } else {
      CutOffEnd(m, 0, r);
    }
  }

  /** A path whose last node is cut off behind its header does not parse. */
  lemma {:induction false} CutOffEnd(m: seq<Byte>, o: nat, r: seq<Byte>)
    requires Parse(m, o).Some? && r <= m
    requires var ns := Parse(m, o).value;
             && ns[|ns| - 1].data != []
             && |r| == o + |Serialise(ns)| - |ns[|ns| - 1].data|
    ensures Parse(r, o).None?
    decreases |m| - o
  {
    var ns := Parse(m, o).value;
    var n := NodeAt(m, o);
    ParseTail(m, o, ns);
    SerialiseCons(ns);
    if n.IsEnd() {
      assert ns == [n];
      SerialiseSingle(n);
    } else {
      CutOffEnd(m, NextAt(m, o), r);
      assert NodeFits(r, o) ==> NodeAt(r, o) == n && NextAt(r, o) == NextAt(m, o);
    }
  }

  // ----- Appending instances

  /** Gives `src` one more set of instances: those of `instance`, after its own. */
  method AppendDevicePathInstance(src: Option<seq<Byte>>, instance: Option<seq<Byte>>, granted: bool)
    returns (r: array?<Byte>)
    requires src.Some? ==> IsCompact(src.value) && instance.Some? && granted
    requires instance.Some? ==> IsCompact(instance.value)
    ensures r == null <==> src.None? && (instance.None? || !granted)
    ensures r != null ==> fresh(r) && IsPath(r[..], 0) && r[..] == Serialise(NodesAt(r[..], 0))
    ensures r != null ==>
              InstancesAt(r[..], 0) ==
              (if src.Some? then InstancesAt(src.value, 0) else []) + InstancesAt(instance.value, 0)
    ensures src.Some? ==>
              Seam(r[..], src.value, Serialise(NodesAt(src.value, 0)), Serialise(NodesAt(instance.value, 0)))
  {
    hide Serialise, Instances, ValidPath, Parse;
    if src.None? {
      if instance.Some? {
        CompactBytes(instance.value);
      }
      r := DuplicateDevicePath(instance, granted);
      return;
    }
    var a, b := src.value, instance.value;
    ghost var na, nb := NodesAt(a, 0), NodesAt(b, 0);
    CompactBytes(a);
    CompactBytes(b);
    var srcSize := DevicePathSize(a, 0);
    var instanceSize := DevicePathSize(b, 0);
    r := new Byte[srcSize + instanceSize];
    CopyMem(r, 0, a, 0, srcSize);
    var next := TurnEnd(r, na);
    CopyMem(r, next, b, 0, instanceSize);
    JoinedBytes(r[..], na, nb);
    SeamBytes(a, na, r[..], Serialise(nb));
  }

  /** The bytes of the first path with subtype 01 in its last header, then those of the second. */
  ghost predicate Seam(m: seq<Byte>, a: seq<Byte>, first: seq<Byte>, second: seq<Byte>) {
    var n := |first|;
    && 4 <= n && first <= a && |m| == n + |second|
    && m[..n - 3] == a[..n - 3] && m[n - 3..n] == [0x01, 0x04, 0x00] && m[n..] == second
  }

  lemma SeamBytes(a: seq<Byte>, ns: seq<Node>, m: seq<Byte>, second: seq<Byte>)
    requires ValidPath(ns) && CompactEnds(ns) && Serialise(ns) <= a
    requires m == Serialise(ns[..|ns| - 1] + [InstanceMark(ns)]) + second
    requires |Serialise(ns)| + |second| == |m|
    ensures Seam(m, a, Serialise(ns), second)
  {
    hide Serialise;
    var front, last, mark := ns[..|ns| - 1], ns[|ns| - 1], InstanceMark(ns);
    SerialiseSplit(ns, |ns| - 1);
    assert ns[|ns|..] == [];
    SerialiseNothing();
    SerialiseConcat(front, [mark]);
    SerialiseSingle(mark);
    BareBytes(last);
    BareBytes(mark);
    var e := |Serialise(front)|;
    assert Serialise(ns) == Serialise(front) + [last.typ, last.sub, 4, 0];
    assert m == Serialise(front) + [last.typ, 0x01, 4, 0] + second;
    assert m[..e + 1] == Serialise(front) + [last.typ] == Serialise(ns)[..e + 1] == a[..e + 1];
  }

  /** Turns the end of the path in `r` into an instance marker and passes it. */
  method TurnEnd(r: array<Byte>, ghost ns: seq<Node>) returns (next: nat)
    requires ValidPath(ns) && CompactEnds(ns) && Serialise(ns) <= r[..]
    modifies r
    ensures next == |Serialise(ns)| <= r.Length
    ensures r[..next] == Serialise(ns[..|ns| - 1] + [InstanceMark(ns)])
  {
    hide Serialise, ValidPath, CompactEnds;
    ReadsBack(r[..], ns);
    ghost var copied := r[..];
    var e := FindEnd(r[..], 0);
    MarkOffset(ns, copied, e);
    r[e + 1] := END_INSTANCE;
    assert r[..] == copied[e + 1 := END_INSTANCE];
    next := NextAt(r[..], e);
    MarkedBytes(ns, copied, e);
  }

  /** The node that closes `ns` with its subtype turned into an instance marker. */
  function InstanceMark(ns: seq<Node>): Node
    requires |ns| > 0
  {
    RawNode(ns[|ns| - 1].typ, END_INSTANCE, [])
  }

  lemma BareBytes(n: Node)
    requires n.data == []
    ensures n.Bytes() == [n.typ, n.sub, HEADER_SIZE, 0]
  {}

  lemma MarkOffset(ns: seq<Node>, m: seq<Byte>, e: nat)
    requires ValidPath(ns) && CompactEnds(ns) && Serialise(ns) <= m
    requires e <= |m| && m[0..e] == Serialise(ns[..|ns| - 1])
    ensures e + HEADER_SIZE == |Serialise(ns)|
    ensures m[e] == ns[|ns| - 1].typ && m[e + 2] == HEADER_SIZE && m[e + 3] == 0
  {
    hide Serialise;
    var front, last, b := ns[..|ns| - 1], ns[|ns| - 1], Serialise(ns);
    SerialiseSplit(ns, |ns| - 1);
    assert ns[|ns|..] == [];
    SerialiseNothing();
    BareBytes(last);
    assert b == m[0..e] + [last.typ, last.sub, HEADER_SIZE, 0];
    assert m[e] == b[e] && m[e + 2] == b[e + 2] && m[e + 3] == b[e + 3];
  }

  lemma MarkedBytes(ns: seq<Node>, m: seq<Byte>, e: nat)
    requires ValidPath(ns) && CompactEnds(ns) && Serialise(ns) <= m
    requires e + HEADER_SIZE <= |m| && m[0..e] == Serialise(ns[..|ns| - 1])
    ensures m[e + 1 := END_INSTANCE][..e + HEADER_SIZE] == Serialise(ns[..|ns| - 1] + [InstanceMark(ns)])
  {
    hide Serialise, CompactEnds;
    var front, mark := ns[..|ns| - 1], InstanceMark(ns);
    var head := m[e + 1 := END_INSTANCE][..e + HEADER_SIZE];
    MarkOffset(ns, m, e);
    SerialiseConcat(front, [mark]);
    SerialiseSingle(mark);
    BareBytes(mark);
    assert head[e..] == [head[e], head[e + 1], head[e + 2], head[e + 3]];
    assert head == head[..e] + head[e..];
  }

  lemma JoinedBytes(m: seq<Byte>, a: seq<Node>, b: seq<Node>)
    requires ValidPath(a) && CompactEnds(a) && ValidPath(b)
    requires m == Serialise(a[..|a| - 1] + [InstanceMark(a)]) + Serialise(b)
    ensures IsPath(m, 0) && m == Serialise(NodesAt(m, 0))
    ensures InstancesAt(m, 0) == Instances(a) + Instances(b)
  {
    var mark := InstanceMark(a);
    SerialiseConcat(a[..|a| - 1] + [mark], b);
    InstancesOfJoined(a, mark, b);
    ReadsBack(m, Joined(a, mark, b));
  }

  // ----- Appending nodes

  const InstanceEnd: Node := RawNode(END_TYPE, END_INSTANCE, [])

  /** The bytes AppendDevicePath writes before it patches the last marker: for each instance the
      instance itself, the whole second path and an instance marker. */
  ghost function Written(insts: seq<seq<Node>>, second: seq<Byte>): seq<Byte> {
    if insts == [] then []
    else
      var n := |insts| - 1;
      Written(insts[..n], second) + (Serialise(insts[n]) + second + InstanceEnd.Bytes())
  }

  /** The allocation of AppendDevicePath: `size1 * instances + size2`. */
  ghost function Allocated(a: seq<Node>, b: seq<Node>): nat
    requires ValidPath(a)
  {
    |Serialise(a)| * |Pieces(a)| + |Serialise(b)|
  }

  /** Bytes of `a` that none of the copies has: the nodes skipped at the cap, less a marker each. */
  ghost function Skipped(a: seq<Node>): int
    requires ValidPath(a)
  {
    |Serialise(a)| - InstanceBytes(Pieces(a))
  }

  /** Every further copy of the second path takes the room of one of the first, or of skipped bytes. */
  ghost predicate AppendFits(a: seq<Node>, b: seq<Node>)
    requires ValidPath(a)
  {
    (|Pieces(a)| - 1) * |Serialise(b)| <= (|Pieces(a)| - 1) * |Serialise(a)| + Skipped(a)
  }

  lemma {:induction false} WrittenSize(insts: seq<seq<Node>>, second: seq<Byte>)
    ensures |Written(insts, second)| == InstanceBytes(insts) + |insts| * |second|
  {
    if insts != [] {
      var n := |insts| - 1;
      WrittenSize(insts[..n], second);
      InstanceBytesLast(insts);
      assert |insts| * |second| == n * |second| + |second|;
    }
  }

  lemma {:induction false} InstanceBytesLast(insts: seq<seq<Node>>)
    requires insts != []
    ensures var n := |insts| - 1;
            InstanceBytes(insts) == InstanceBytes(insts[..n]) + |Serialise(insts[n])| + HEADER_SIZE
  {
    var n := |insts| - 1;
    if n > 0 {
      InstanceBytesLast(insts[1..]);
      assert insts[..n][1..] == insts[1..][..n - 1];
    }
  }

  /** The writes begin with the first instance and the second path, and reach their end for one instance. */
  lemma {:induction false} WrittenHead(insts: seq<seq<Node>>, second: seq<Byte>)
    requires insts != []
    ensures Serialise(insts[0]) + second <= Written(insts, second)
    ensures |Written(insts, second)| >= |Serialise(insts[0]) + second| + HEADER_SIZE
    ensures |insts| == 1 ==> |Written(insts, second)| == |Serialise(insts[0]) + second| + HEADER_SIZE
  {
    var n := |insts| - 1;
    if n > 0 {
      WrittenHead(insts[..n], second);
    } else {
      assert Written(insts[..0], second) == [];
    }
  }

  /** Writing one more prefix never shrinks what is written. */
  lemma {:induction false} WrittenGrows(insts: seq<seq<Node>>, k: nat, second: seq<Byte>)
    requires k <= |insts|
    ensures |Written(insts[..k], second)| <= |Written(insts, second)|
  {
    if k == |insts| {
      assert insts[..k] == insts;
    } else {
      var n := |insts| - 1;
      WrittenGrows(insts[..n], k, second);
      assert insts[..n][..k] == insts[..k];
    }
  }

  /** The writes stay inside the allocation exactly under `AppendFits`.  For a first path within the node
      cap that is: it has one instance, or the second path is not the larger one; and the writes fill the
      allocation exactly for one instance or equal sizes. */
  lemma AppendFitsIff(a: seq<Node>, b: seq<Node>)
    requires ValidPath(a) && CompactEnds(a) && ValidPath(b)
    ensures |Written(Pieces(a), Serialise(b))| <= Allocated(a, b) <==> AppendFits(a, b)
    ensures WithinCap(Instances(a)) ==>
              && (AppendFits(a, b) <==> |Instances(a)| == 1 || |Serialise(b)| <= |Serialise(a)|)
              && (|Written(Pieces(a), Serialise(b))| == Allocated(a, b) <==>
                  |Instances(a)| == 1 || |Serialise(b)| == |Serialise(a)|)
  {
    hide Serialise, Pieces, Instances, Written, InstanceBytes;
    var n, s1, s2 := |Pieces(a)|, |Serialise(a)|, |Serialise(b)|;
    WrittenSize(Pieces(a), Serialise(b));
    OneLess(n, s1);
    OneLess(n, s2);
    if WithinCap(Instances(a)) {
      PiecesExactIff(a);
      InstanceSizesSum(a);
      SizeComparison(n, s1, s2);
    }
  }

  lemma OneLess(n: nat, s: nat)
    requires n > 0
    ensures n * s == (n - 1) * s + s && s * n == n * s
  {}

  /** Two instances, and a second path larger than the first: the writes leave the allocation. */
  lemma AppendOverflows()
    ensures var a: seq<Node>, b: seq<Node> := [InstanceEnd, EndNode], [RawNode(1, 1, [0]), EndNode];
            && ValidPath(a) && CompactEnds(a) && ValidPath(b)
            && !AppendFits(a, b) && |Written(Pieces(a), Serialise(b))| > Allocated(a, b)
  {
    var a: seq<Node>, b: seq<Node> := [InstanceEnd, EndNode], [RawNode(1, 1, [0]), EndNode];
    hide Written, InstanceBytes, Pieces;
    TwoEmpty();
    assert Serialise(a) == InstanceEnd.Bytes() + EndNode.Bytes() by { TwoNodes(InstanceEnd, EndNode); }
    assert Serialise(b) == b[0].Bytes() + EndNode.Bytes() by { TwoNodes(b[0], EndNode); }
    AppendFitsIff(a, b);
  }

  lemma TwoNodes(x: Node, y: Node)
    ensures Serialise([x, y]) == x.Bytes() + y.Bytes()
  {
    hide Serialise;
    SerialiseConcat([x], [y]);
    SerialiseSingle(x);
    SerialiseSingle(y);
    assert [x] + [y] == [x, y];
  }

  lemma TwoEmpty()
    ensures ValidPath([InstanceEnd, EndNode]) && Instances([InstanceEnd, EndNode]) == [[], []]
    ensures WithinCap(Instances([InstanceEnd, EndNode]))
  {
    var a := [InstanceEnd, EndNode];
    FirstEndUnique(a, 0);
    InstancesUnfold(a, 0);
    assert a[1..] == [EndNode];
    FirstEndUnique([EndNode], 0);
    InstancesUnfold([EndNode], 0);
  }

  lemma SizeComparison(n: nat, s1: nat, s2: nat)
    requires n > 0
    ensures (n - 1) * s2 <= (n - 1) * s1 <==> n == 1 || s2 <= s1
    ensures (n - 1) * s2 == (n - 1) * s1 <==> n == 1 || s2 == s1
  {
    if n > 1 && s1 < s2 {
      ScaleOrder(n - 1, s1, s2);
    } else if n > 1 && s2 < s1 {
      ScaleOrder(n - 1, s2, s1);
    }
  }

  lemma {:induction false} ScaleOrder(k: nat, x: nat, y: nat)
    requires k > 0 && x < y
    ensures k * x < k * y
  {
    if k > 1 {
      ScaleOrder(k - 1, x, y);
      assert k * x == (k - 1) * x + x && k * y == (k - 1) * y + y;
    }
  }

  /** Copies to the running position, which moves on. */
  method Put(dst: array<Byte>, at: nat, src: seq<Byte>, from: nat, len: nat) returns (pos: nat)
    requires at + len <= dst.Length && from + len <= |src|
    modifies dst
    ensures pos == at + len && dst[..pos] == old(dst[..at]) + src[from..from + len]
  {
    CopyMem(dst, at, src, from, len);
    pos := at + len;
    assert dst[..pos] == dst[..][..pos];
  }

  lemma NothingWritten(second: seq<Byte>)
    ensures Written([], second) == []
  {}

  lemma WrittenStep(insts: seq<seq<Node>>, done: nat, second: seq<Byte>)
    requires done < |insts|
    ensures Written(insts[..done + 1], second)
            == Written(insts[..done], second) + Serialise(insts[done]) + second + InstanceEnd.Bytes()
    ensures |Written(insts[..done], second)| + |Serialise(insts[done])| + |second| + HEADER_SIZE
            <= |Written(insts, second)|
  {
    assert insts[..done + 1][..done] == insts[..done];
    WrittenGrows(insts, done + 1, second);
  }

  /** Appends the nodes of `src2` to the first instance of `src1`. */
  method AppendDevicePath(src1: Option<seq<Byte>>, src2: Option<seq<Byte>>, granted: bool) returns (dst: array?<Byte>)
    requires src1.Some? ==> IsCompact(src1.value)
    requires src2.Some? ==> IsCompact(src2.value)
    requires src1.Some? && src2.Some? ==> AppendFits(NodesAt(src1.value, 0), NodesAt(src2.value, 0))
    ensures dst == null <==> !granted || (src1.None? && src2.None?)
    ensures dst != null ==> fresh(dst) && IsPath(dst[..], 0)
    ensures dst != null && src1.None? ==> dst[..] == Serialise(NodesAt(src2.value, 0))
    ensures dst != null && src2.None? ==> dst[..] == Serialise(NodesAt(src1.value, 0))
    ensures dst != null && src1.Some? && src2.Some? ==>
              Appended(dst[..], NodesAt(src1.value, 0), NodesAt(src2.value, 0))
  {
    if src1.None? {
      dst := DuplicateDevicePath(src2, granted);
      return;
    }
    if src2.None? {
      dst := DuplicateDevicePath(src1, granted);
      return;
    }
    if !granted {
      return null;
    }
    dst := AppendPaths(src1.value, src2.value);
  }

  /** AppendDevicePath for two paths: size, allocate, copy, patch the last marker. */
  method AppendPaths(a: seq<Byte>, b: seq<Byte>) returns (dst: array<Byte>)
    requires IsCompact(a) && IsCompact(b)
    requires AppendFits(NodesAt(a, 0), NodesAt(b, 0))
    ensures fresh(dst) && Appended(dst[..], NodesAt(a, 0), NodesAt(b, 0))
  {
    hide Parse, Serialise, Pieces, Written, Instances, AppendFits;
    ghost var na, nb := NodesAt(a, 0), NodesAt(b, 0);
    CompactBytes(a);
    CompactBytes(b);
    var size1 := DevicePathSize(a, 0);
    var count := DevicePathInstanceCount(a, Some(0));
    var size2 := DevicePathSize(b, 0);
    dst := new Byte[size1 * count + size2];
    AppendFitsIff(na, nb);
    var pos := CopyInstances(dst, a, b, size2);
    ghost var all := Written(Pieces(na), Serialise(nb));
    assert all == dst[..pos];
    WrittenHead(Pieces(na), Serialise(nb));
    pos := pos - HEADER_SIZE;
    assert dst[..pos] == all[..pos];
    pos := Put(dst, pos, EndNode.Bytes(), 0, HEADER_SIZE);
    AppendedReads(dst[..], pos, na, nb);
  }

  /** The copy loop of AppendDevicePath. */
  method CopyInstances(dst: array<Byte>, a: seq<Byte>, b: seq<Byte>, size2: nat) returns (pos: nat)
    requires IsPath(a, 0) && size2 <= |b|
    requires |Written(PiecesAt(a, 0), b[..size2])| <= dst.Length
    modifies dst
    ensures pos <= dst.Length && dst[..pos] == Written(PiecesAt(a, 0), b[..size2])
  {
    hide Parse, ValidPath, Serialise, Written, SplitsPiece, SplitsFirst, Pieces;
    ghost var parts, second, done := PiecesAt(a, 0), b[..size2], 0;
    assert parts[0..] == parts && parts[..0] == [];
    NothingWritten(second);
    var path := Some(0);
    pos := 0;
    while path.Some?
      invariant 0 <= done <= |parts|
      invariant path.Some? ==> path.value <= |a| && IsPath(a, path.value) && PiecesAt(a, path.value) == parts[done..]
      invariant path.None? ==> done == |parts|
      invariant pos <= dst.Length && dst[..pos] == Written(parts[..done], second)
      decreases if path.Some? then |a| + 1 - path.value else 0
    {
      var inst, size, next := DevicePathInstance(a, path);
      SplitNext(a, path.value, size, next, parts, done);
      WrittenStep(parts, done, second);
      pos := Put(dst, pos, a, inst.value, size);
      pos := Put(dst, pos, b, 0, size2);
      pos := Put(dst, pos, InstanceEnd.Bytes(), 0, HEADER_SIZE);
      path, done := next, done + 1;
    }
    assert parts[..done] == parts;
  }

  /** What appending `b` to `a` leaves in the allocation `m`: reading it gives the first piece of `a` followed
      by `b`; for one instance within the cap the allocation holds that path and one more end marker. */
  ghost predicate Appended(m: seq<Byte>, a: seq<Node>, b: seq<Node>)
    requires ValidPath(a) && ValidPath(b)
  {
    && |m| == Allocated(a, b)
    && IsPath(m, 0)
    && NodesAt(m, 0) == Pieces(a)[0] + b
    && (|Instances(a)| == 1 && WithinCap(Instances(a)) ==> m == Serialise(Pieces(a)[0] + b) + EndNode.Bytes())
  }

  lemma AppendedReads(m: seq<Byte>, pos: nat, a: seq<Node>, b: seq<Node>)
    requires ValidPath(a) && CompactEnds(a) && ValidPath(b) && |m| == Allocated(a, b)
    requires var w := Written(Pieces(a), Serialise(b));
             HEADER_SIZE <= pos == |w| <= |m| && m[..pos] == w[..pos - HEADER_SIZE] + EndNode.Bytes()
    ensures Appended(m, a, b)
  {
    hide Serialise, Pieces, Instances, Written, Parse;
    var first, second := Pieces(a)[0], Serialise(b);
    var w := Written(Pieces(a), second);
    var head := Serialise(first) + second;
    WrittenHead(Pieces(a), second);
    assert head == m[..|head|] by {
      assert m[..|head|] == m[..pos][..|head|];
      assert w[..pos - HEADER_SIZE][..|head|] == w[..|head|];
    }
    PrefixedValid(first, b);
    SerialiseConcat(first, b);
    ReadsBack(m, first + b);
    AppendFitsIff(a, b);
    PiecesExactIff(a);
    if |Instances(a)| == 1 && WithinCap(Instances(a)) {
      assert m[..pos] == m;
      assert w[..pos - HEADER_SIZE] == head;
    }
  }

  /** The promise of the source's comment: `tail` appended to each instance. */
  ghost function EachAppended(insts: seq<seq<Node>>, tail: seq<Node>): seq<seq<Node>> {
    seq(|insts|, i requires 0 <= i < |insts| => insts[i] + tail)
  }

  /** The comment's promise holds exactly when the first path has one instance, and that within the cap: the
      second path brings its own end-entire marker, and a reader stops there. */
  lemma AppendsToEachIffOne(m: seq<Byte>, a: seq<Node>, b: seq<Node>)
    requires ValidPath(a) && ValidPath(b) && |Instances(b)| == 1 && Appended(m, a, b)
    ensures InstancesAt(m, 0) == EachAppended(Instances(a), Instances(b)[0]) <==>
            |Instances(a)| == 1 && |Instances(a)[0]| <= NODE_CAP
  {
    hide Serialise, Parse, Pieces, Instances;
    var insts, first, tail := Instances(a), Pieces(a)[0], Instances(b)[0];
    InstancesOfPrefixed(first, b);
    assert InstancesAt(m, 0) == [first + tail];
    PiecesExactIff(a);
    var each := EachAppended(insts, tail);
    if |insts| == 1 {
      assert each == [insts[0] + tail];
      if |insts[0]| > NODE_CAP {
        assert |(first + tail)| < |(insts[0] + tail)|;
        assert each[0] != [first + tail][0];
      }
    }
  }

  /** For one-instance paths the size is the sum of the sizes less one end marker. */
  lemma AppendedSize(m: seq<Byte>, a: seq<Node>, b: seq<Node>)
    requires ValidPath(a) && ValidPath(b) && CompactEnds(a) && Appended(m, a, b)
    requires |Instances(a)| == 1 && WithinCap(Instances(a))
    ensures |Serialise(NodesAt(m, 0))| == |Serialise(a)| + |Serialise(b)| - HEADER_SIZE
    ensures NodesAt(m, 0) == a[..|a| - 1] + b
  {
    hide Serialise, Parse, Pieces;
    PiecesExactIff(a);
    assert Instances(a)[0] == a[..|a| - 1];
    SerialiseConcat(a[..|a| - 1], b);
    SerialiseSplit(a, |a| - 1);
    assert a[|a|..] == [];
    SerialiseNothing();
  }

  /** The same promise fails for a first path of two empty instances. */
  lemma TwoInstancesLoseOne()
    ensures var a: seq<Node>, b: seq<Node> := [InstanceEnd, EndNode], [EndNode];
            && ValidPath(a) && ValidPath(b) && AppendFits(a, b)
            && Instances(a) == [[], []] && Instances(Pieces(a)[0] + b) == [[]]
  {
    hide Pieces, Instances, Written;
    var a: seq<Node>, b: seq<Node> := [InstanceEnd, EndNode], [EndNode];
    TwoEmpty();
    PiecesExactIff(a);
    FirstEndUnique(b, 0);
    InstancesUnfold(b, 0);
    assert Pieces(a)[0] + b == b;
    TwoNodes(InstanceEnd, EndNode);
    SerialiseSingle(EndNode);
    AppendFitsIff(a, b);
  }

  /** Appends one node, given without a terminator. */
  method AppendDevicePathNode(src1: Option<seq<Byte>>, node: seq<Byte>, tempGranted: bool, granted: bool)
    returns (r: array?<Byte>)
    requires NodeFits(node, 0) && !NodeAt(node, 0).IsEndType()
    requires src1.Some? ==> IsCompact(src1.value)
    requires src1.Some? ==> AppendFits(NodesAt(src1.value, 0), [NodeAt(node, 0), EndNode])
    ensures r == null <==> !tempGranted || !granted
    ensures ValidPath([NodeAt(node, 0), EndNode])
    ensures r != null ==> fresh(r) && IsPath(r[..], 0)
    ensures r != null && src1.None? ==> NodesAt(r[..], 0) == [NodeAt(node, 0), EndNode]
    ensures r != null && src1.Some? ==> Appended(r[..], NodesAt(src1.value, 0), [NodeAt(node, 0), EndNode])
  {
    hide Serialise, Parse, Pieces, Instances, AppendFits, Allocated;
    if !tempGranted {
      return null;
    }
    var length := LengthAt(node, 0);
    var temp := new Byte[length + HEADER_SIZE];
    CopyMem(temp, 0, node, 0, length);
    var eop := NextAt(temp[..], 0);
    temp[eop], temp[eop + 1], temp[eop + 2], temp[eop + 3] := END_TYPE, END_ENTIRE, HEADER_SIZE, 0;
    TerminatedNode(temp[..], NodeAt(node, 0));
    r := AppendDevicePath(src1, Some(temp[..]), granted);
    if r != null && src1.None? {
      ReadsBack(r[..], [NodeAt(node, 0), EndNode]);
    }
  }

  lemma TerminatedNode(m: seq<Byte>, n: Node)
    requires !n.IsEndType()
    requires |m| == n.Length() + HEADER_SIZE && m[..n.Length()] == n.Bytes()
    requires var e := n.Length();
             m[e] == END_TYPE && m[e + 1] == END_ENTIRE && m[e + 2] == HEADER_SIZE && m[e + 3] == 0
    ensures ValidPath([n, EndNode]) && IsCompact(m) && NodesAt(m, 0) == [n, EndNode]
  {
    BareBytes(EndNode);
    SerialiseConcat([n], [EndNode]);
    SerialiseSingle(n);
    SerialiseSingle(EndNode);
    assert [n] + [EndNode] == [n, EndNode];
    assert m == m[..n.Length()] + [END_TYPE, END_ENTIRE, HEADER_SIZE, 0];
    ReadsBack(m, [n, EndNode]);
  }
}
