/** The device path routines of LIB/dpath.c: walking, counting, matching, joining and unpacking. */
module DevicePathLib {
  import opened EfiBase
  import opened DevicePathFormat

  /** Most ordinary nodes an instance may hold before the debug check of DevicePathInstance cuts the
      walk short; the constant in the source is octal. */
  const NODE_CAP := 0x200 + 1

  ghost predicate WithinCap(insts: seq<seq<Node>>) {
    forall i :: 0 <= i < |insts| ==> |insts[i]| <= NODE_CAP
  }

  /** Memory `m` holds a path at offset `o`. */
  ghost predicate IsPath(m: seq<Byte>, o: nat) {
    Parse(m, o).Some? && ValidPath(Parse(m, o).value)
  }

  /** Its nodes, the end-entire marker last, and its instances. */
  ghost function NodesAt(m: seq<Byte>, o: nat): (ns: seq<Node>)
    requires IsPath(m, o)
    ensures ValidPath(ns)
  {
    Parse(m, o).value
  }

  ghost function InstancesAt(m: seq<Byte>, o: nat): (insts: seq<seq<Node>>)
    requires IsPath(m, o)
    ensures |insts| > 0
  {
    Instances(NodesAt(m, o))
  }

  // ----- What the node cap makes of a path

  /** Where the walk over the first instance stops: at its end node, or at the cap. */
  function CutAt(ns: seq<Node>): (k: nat)
    requires ValidPath(ns)
    ensures k < |ns| && (ns[k].sub != END_ENTIRE ==> k < |ns| - 1)
    ensures Ordinary(ns[..k]) && |ns[..k]| <= NODE_CAP
  {
    if FirstEnd(ns) <= NODE_CAP then FirstEnd(ns) else NODE_CAP
  }

  /** The pieces that repeated calls of DevicePathInstance make of a path: at the cap a piece ends, the node
      there is skipped as if it were a marker, and its subtype says whether the path goes on. */
  function Pieces(ns: seq<Node>): (r: seq<seq<Node>>)
    requires ValidPath(ns)
    ensures |r| > 0 && forall i :: 0 <= i < |r| ==> Ordinary(r[i]) && |r[i]| <= NODE_CAP
    decreases |ns|
  {
    var k := CutAt(ns);
    if ns[k].sub == END_ENTIRE then [ns[..k]]
    else
      ValidAfter(ns, k);
      [ns[..k]] + Pieces(ns[k + 1..])
  }

  lemma PiecesUnfold(ns: seq<Node>)
    requires ValidPath(ns)
    ensures var k := CutAt(ns);
            if ns[k].sub == END_ENTIRE then Pieces(ns) == [ns[..k]]
            else ValidPath(ns[k + 1..]) && Pieces(ns) == [ns[..k]] + Pieces(ns[k + 1..])
  {
    hide CutAt, ValidPath;
    if ns[CutAt(ns)].sub != END_ENTIRE {
      ValidAfter(ns, CutAt(ns));
    }
  }

  /** The pieces are the instances exactly when no instance has more nodes than the cap. */
  lemma {:induction false} PiecesExactIff(ns: seq<Node>)
    requires ValidPath(ns)
    ensures Pieces(ns) == Instances(ns) <==> WithinCap(Instances(ns))
    decreases |ns|
  {
    hide Pieces, Instances, ValidPath, FirstEnd;
    if WithinCap(Instances(ns)) {
      var k := FirstEnd(ns);
      InstancesUnfold(ns, k);
      assert Instances(ns)[0] == ns[..k];
      PiecesUnfold(ns);
      if k < |ns| - 1 {
        var rest := Instances(ns[k + 1..]);
        assert forall i :: 0 <= i < |rest| ==> rest[i] == Instances(ns)[i + 1];
        PiecesExactIff(ns[k + 1..]);
      }
    }
  }

  /** An instance of one node more than the cap loses that node, for all paths that start with it. */
  lemma BeyondCap(ns: seq<Node>)
    requires ValidPath(ns) && FirstEnd(ns) == NODE_CAP + 1
    ensures |Instances(ns)[0]| == NODE_CAP + 1 && Pieces(ns)[0] == Instances(ns)[0][..NODE_CAP]
  {
    InstancesUnfold(ns, FirstEnd(ns));
    PiecesUnfold(ns);
  }

  /** 514 ordinary nodes and an end: one instance, of which two pieces are made, the second empty. */
  lemma TooManyNodes() returns (ns: seq<Node>)
    ensures ValidPath(ns) && |ns| == 515 && |Instances(ns)| == 1
    ensures Pieces(ns) == [ns[..513], []]
  {
    hide Pieces, Instances;
    var n: Node := RawNode(1, 1, []);
    ns := seq(514, _ => n) + [EndNode];
    assert ns[514] == EndNode && forall i :: 0 <= i < 514 ==> ns[i] == n;
    FirstEndUnique(ns, 514);
    InstancesUnfold(ns, 514);
    PiecesUnfold(ns);
    var rest := ns[514..];
    assert rest == [EndNode];
    FirstEndUnique(rest, 0);
    PiecesUnfold(rest);
  }

  ghost function PiecesAt(m: seq<Byte>, o: nat): (r: seq<seq<Node>>)
    requires IsPath(m, o)
    ensures |r| > 0
  {
    Pieces(NodesAt(m, o))
  }

  // ----- RtCopyMem and RtCompareMem of LIB/Runtime/EfiRtLib.c

  method CopyMem(dst: array<Byte>, at: nat, src: seq<Byte>, from: nat, len: nat)
    requires at + len <= dst.Length && from + len <= |src|
    modifies dst
    ensures dst[..] == old(dst[..at]) + src[from..from + len] + old(dst[at + len..])
  {
    var i := 0;
    while i < len
      invariant 0 <= i <= len
      invariant forall k :: at <= k < at + i ==> dst[k] == src[from + (k - at)]
      invariant forall k :: 0 <= k < dst.Length && !(at <= k < at + i) ==> dst[k] == old(dst[k])
    {
      dst[at + i] := src[from + i];
      i := i + 1;
    }
    assert dst[at..at + len] == src[from..from + len];
    assert dst[..] == dst[..at] + dst[at..at + len] + dst[at + len..];
  }

  function Difference(a: int, b: int): int { a - b }

  /** Compares until the first difference, so `d` may be shorter than `len` when it differs from `s`
      somewhere before its own end. */
  method CompareMem(d: seq<Byte>, s: seq<Byte>, len: nat) returns (r: int)
    requires len <= |s|
    requires len <= |d| || !Agree(s[..len], d)
    ensures r == 0 <==> s[..len] <= d
    ensures r != 0 ==> exists k :: 0 <= k < len && k < |d| && s[..k] == d[..k] && r == Difference(d[k], s[k])
  {
    ghost var agree := Agree(s[..len], d);
    var i := 0;
    while i < len
      invariant 0 <= i <= len && i <= |d|
      invariant forall k :: 0 <= k < i ==> d[k] == s[k]
    {
      assert i == |d| ==> agree;
      var a: int, b: int := d[i], s[i];
      if a != b {
        assert s[..len][i] != d[i];
        assert s[..i] == d[..i];
        return a - b;
      }
      i := i + 1;
    }
    return 0;
  }

  // ----- Walking

  lemma ParseTail(m: seq<Byte>, o: nat, ns: seq<Node>)
    requires Parse(m, o) == Some(ns)
    ensures NodeFits(m, o) && NodeAt(m, o) == ns[0] && LengthAt(m, o) == ns[0].Length()
    ensures !ns[0].IsEnd() ==> Parse(m, NextAt(m, o)) == Some(ns[1..])
  {}

  /** A walk over the path `ns` at `start` has passed `i` nodes and stands at `pos`. */
  ghost predicate Walked(m: seq<Byte>, start: nat, ns: seq<Node>, pos: nat, i: nat) {
    && ValidPath(ns)
    && i < |ns| && start <= pos <= |m|
    && Parse(m, pos) == Some(ns[i..])
    && m[start..pos] == Serialise(ns[..i])
  }

  lemma WalkStart(m: seq<Byte>, start: nat)
    requires IsPath(m, start)
    ensures Walked(m, start, NodesAt(m, start), start, 0)
  {}

  lemma WalkStep(m: seq<Byte>, start: nat, ns: seq<Node>, pos: nat, i: nat)
    requires Walked(m, start, ns, pos, i)
    ensures NodeFits(m, pos) && NodeAt(m, pos) == ns[i]
    ensures HeaderAt(m, pos) && IsEndTypeAt(m, pos) == ns[i].IsEndType() && IsEndAt(m, pos) == ns[i].IsEnd()
    ensures !ns[i].IsEnd() ==> Walked(m, start, ns, NextAt(m, pos), i + 1)
  {
    ParseTail(m, pos, ns[i..]);
    if !ns[i].IsEnd() {
      SerialiseConcat(ns[..i], [ns[i]]);
      SerialiseSingle(ns[i]);
      assert ns[..i + 1] == ns[..i] + [ns[i]];
      assert m[start..NextAt(m, pos)] == m[start..pos] + m[pos..NextAt(m, pos)];
      assert ns[i..][1..] == ns[i + 1..];
    }
  }

  /** Offset of the end-entire marker: the loop of DevicePathSize and AppendDevicePathInstance. */
  method FindEnd(m: seq<Byte>, o: nat) returns (e: nat)
    requires IsPath(m, o)
    ensures var ns := NodesAt(m, o);
            && o <= e
            && e + ns[|ns| - 1].Length() <= |m|
            && m[o..e] == Serialise(ns[..|ns| - 1])
            && NodeFits(m, e) && NodeAt(m, e) == ns[|ns| - 1]
  {
    ghost var ns := NodesAt(m, o);
    WalkStart(m, o);
    ghost var i := 0;
    e := o;
    WalkStep(m, o, ns, e, i);
    while !IsEndAt(m, e)
      invariant Walked(m, o, ns, e, i) && NodeFits(m, e) && NodeAt(m, e) == ns[i]
      decreases |m| - e
    {
      WalkStep(m, o, ns, e, i);
      e := NextAt(m, e);
      i := i + 1;
      WalkStep(m, o, ns, e, i);
    }
    assert i == |ns| - 1;
  }

  /** What splitting the first instance off the path at `start` should give. */
  ghost predicate SplitsFirst(m: seq<Byte>, start: nat, size: nat, next: Option<nat>)
    requires IsPath(m, start)
  {
    Splits(m, start, size, next, InstancesAt(m, start)) &&
    (next.Some? ==> InstancesAt(m, next.value) == InstancesAt(m, start)[1..])
  }

  /** What it does give. */
  ghost predicate SplitsPiece(m: seq<Byte>, start: nat, size: nat, next: Option<nat>)
    requires IsPath(m, start)
  {
    Splits(m, start, size, next, PiecesAt(m, start)) &&
    (next.Some? ==> PiecesAt(m, next.value) == PiecesAt(m, start)[1..])
  }

  /** The first of `parts` is split off, and there is a next position exactly when there are more. */
  ghost predicate Splits(m: seq<Byte>, start: nat, size: nat, next: Option<nat>, parts: seq<seq<Node>>) {
    && |parts| > 0
    && start + size <= |m|
    && m[start..start + size] == Serialise(parts[0])
    && (next.None? <==> |parts| == 1)
    && (next.Some? ==> start < next.value <= |m| && IsPath(m, next.value))
  }

  lemma SplitAtCut(m: seq<Byte>, start: nat, pos: nat)
    requires IsPath(m, start) && Walked(m, start, NodesAt(m, start), pos, CutAt(NodesAt(m, start)))
    ensures HeaderAt(m, pos) && start <= pos
    ensures SplitsPiece(m, start, pos - start, if m[pos + 1] == END_ENTIRE then None else Some(NextAt(m, pos)))
  {
    hide Parse, Serialise, Pieces, CutAt;
    var ns := NodesAt(m, start);
    var k := CutAt(ns);
    WalkStep(m, start, ns, pos, k);
    PiecesUnfold(ns);
    if ns[k].sub != END_ENTIRE {
      assert Pieces(ns)[1..] == Pieces(ns[k + 1..]);
    }
  }

  /** The split is the right one exactly when the first instance is within the cap. */
  lemma SplitExactIff(m: seq<Byte>, start: nat, pos: nat)
    requires IsPath(m, start) && Walked(m, start, NodesAt(m, start), pos, CutAt(NodesAt(m, start)))
    ensures HeaderAt(m, pos) && start <= pos
    ensures SplitsFirst(m, start, pos - start, if m[pos + 1] == END_ENTIRE then None else Some(NextAt(m, pos))) <==>
            FirstEnd(NodesAt(m, start)) <= NODE_CAP
  {
    hide Parse, Serialise, Instances;
    var ns := NodesAt(m, start);
    var k, e := CutAt(ns), FirstEnd(ns);
    WalkStep(m, start, ns, pos, k);
    InstancesUnfold(ns, e);
    if e <= NODE_CAP {
      if e < |ns| - 1 {
        assert Instances(ns)[1..] == Instances(ns[e + 1..]);
      }
    } else {
      ShorterBytes(ns, k, e);
      assert Instances(ns)[0] == ns[..e];
      assert m[start..start + (pos - start)] == Serialise(ns[..k]);
    }
  }

  lemma ShorterBytes(ns: seq<Node>, k: nat, e: nat)
    requires k < e <= |ns|
    ensures |Serialise(ns[..k])| < |Serialise(ns[..e])|
  {
    hide Serialise;
    SerialiseSplit(ns[..e], k);
    assert ns[..e][..k] == ns[..k];
  }

  /** The loop of DevicePathInstance, with its cap: where it stops and what follows. */
  method FirstEndOffset(m: seq<Byte>, start: nat) returns (pos: nat, following: nat)
    requires IsPath(m, start)
    ensures Walked(m, start, NodesAt(m, start), pos, CutAt(NodesAt(m, start)))
    ensures HeaderAt(m, pos) && following == NextAt(m, pos)
  {
    assert IsPath(m, start);
    hide Parse, Serialise, Walked, Instances, FirstEnd, IsPath, NodeFits, IsEndTypeAt;
    ghost var ns := NodesAt(m, start);
    ghost var k := CutAt(ns);
    WalkStart(m, start);
    pos, following := start, start;
    var count := 0;
    while true
      invariant 0 <= count <= k && Walked(m, start, ns, pos, count)
      decreases k - count
    {
      WalkStep(m, start, ns, pos, count);
      following := NextAt(m, pos);
      if IsEndTypeAt(m, pos) {
        break;
      }
      if count > 0x200 {
        break;
      }
      pos := following;
      count := count + 1;
    }
  }

  /** Splits the first instance off a path, or as much of it as the cap allows.  The next call starts where
      the remaining pieces are. */
  method DevicePathInstance(m: seq<Byte>, path: Option<nat>)
    returns (inst: Option<nat>, size: nat, next: Option<nat>)
    requires path.Some? ==> IsPath(m, path.value)
    ensures inst == path
    ensures path.None? ==> next.None?
    ensures path.Some? ==> SplitsPiece(m, path.value, size, next)
    ensures path.Some? ==> (SplitsFirst(m, path.value, size, next) <==> FirstEnd(NodesAt(m, path.value)) <= NODE_CAP)
  {
    hide Parse, Serialise, Walked, SplitsFirst, SplitsPiece, Pieces, Instances, CutAt, FirstEnd, IsPath;
    if path.None? {
      return None, 0, None;
    }
    var start := path.value;
    var pos, following := FirstEndOffset(m, start);
    SplitAtCut(m, start, pos);
    SplitExactIff(m, start, pos);
    inst, size := path, pos - start;
    next := if m[pos + 1] == END_ENTIRE then None else Some(following);
  }

  /** The split in terms of a list `parts` of which `done` pieces have been passed. */
  lemma SplitNext(m: seq<Byte>, start: nat, size: nat, next: Option<nat>, parts: seq<seq<Node>>, done: nat)
    requires IsPath(m, start) && SplitsPiece(m, start, size, next)
    requires done <= |parts| && PiecesAt(m, start) == parts[done..]
    ensures done < |parts| && parts[done] == PiecesAt(m, start)[0]
    ensures start + size <= |m| && m[start..start + size] == Serialise(parts[done])
    ensures next.None? <==> done + 1 == |parts|
    ensures next.Some? ==> start < next.value <= |m| && IsPath(m, next.value)
    ensures next.Some? ==> PiecesAt(m, next.value) == parts[done + 1..]
  {
    hide Pieces, Parse, Serialise, ValidPath;
    assert parts[done..][1..] == parts[done + 1..];
  }

  lemma PathInside(m: seq<Byte>, o: nat)
    requires IsPath(m, o)
    ensures o <= |m|
  {}

  /** Counts the pieces by splitting them off one by one. */
  method DevicePathInstanceCount(m: seq<Byte>, path: Option<nat>) returns (count: nat)
    requires path.Some? ==> IsPath(m, path.value)
    ensures count == if path.None? then 0 else |PiecesAt(m, path.value)|
    ensures path.Some? && WithinCap(InstancesAt(m, path.value)) ==> count == |InstancesAt(m, path.value)|
  {
    hide Parse, Serialise, Pieces, Instances, ValidPath;
    if path.Some? {
      PiecesExactIff(NodesAt(m, path.value));
      PathInside(m, path.value);
    }
    count := 0;
    var rest := path;
    while true
      invariant rest.Some? ==> IsPath(m, rest.value) && rest.value <= |m|
      invariant path.None? ==> rest.None? && count == 0
      invariant path.Some? ==>
                  |PiecesAt(m, path.value)| == count + (if rest.Some? then |PiecesAt(m, rest.value)| else 0)
      decreases if rest.Some? then |m| + 1 - rest.value else 0
    {
      var inst, size, next := DevicePathInstance(m, rest);
      if inst.None? {
        break;
      }
      rest, count := next, count + 1;
    }
  }

  /** The size of a path; the end marker is counted as a bare header whatever length it states. */
  method DevicePathSize(m: seq<Byte>, o: nat) returns (size: nat)
    requires IsPath(m, o)
    ensures var ns := NodesAt(m, o); size == |Serialise(ns)| - |ns[|ns| - 1].data|
  {
    var e := FindEnd(m, o);
    ghost var ns := NodesAt(m, o);
    SerialiseSplit(ns, |ns| - 1);
    assert ns[|ns|..] == [];
    size := e - o + HEADER_SIZE;
  }

  // ----- Matching

  /** The memory of a path with nothing after its end marker. */
  ghost predicate IsWholePath(m: seq<Byte>) {
    IsPath(m, 0) && m == Serialise(NodesAt(m, 0))
  }

  /** Byte prefixes and node prefixes of a path coincide, and bytes that are no prefix differ early. */
  lemma MatchIffPrefix(inst: seq<Node>, target: seq<Node>)
    requires Ordinary(inst) && ValidPath(target)
    ensures inst <= target <==> Serialise(inst) <= Serialise(target)
    ensures |Serialise(inst)| > |Serialise(target)| ==> !Agree(Serialise(inst), Serialise(target))
  {
    if inst <= target {
      PrefixBytes(inst, target);
    }
    if Agree(Serialise(inst), Serialise(target)) {
      AgreeingBytesArePrefix(inst, target);
      PrefixBytes(inst, target);
    }
  }

  /** One comparison of the loop below: `inst` bytes of a piece against the whole of `s`. */
  lemma ComparesPrefix(m: seq<Byte>, start: nat, size: nat, next: Option<nat>, s: seq<Byte>)
    requires IsPath(m, start) && SplitsPiece(m, start, size, next) && IsWholePath(s)
    ensures var window := m[start..start + size];
            && window[..size] == window
            && (size <= |s| || !Agree(window, s))
            && (window <= s <==> PiecesAt(m, start)[0] <= NodesAt(s, 0))
  {
    hide Pieces, Serialise, Parse;
    MatchIffPrefix(PiecesAt(m, start)[0], NodesAt(s, 0));
  }

  ghost predicate SomePrefix(parts: seq<seq<Node>>, target: seq<Node>) {
    exists i :: 0 <= i < |parts| && parts[i] <= target
  }

  /** TRUE exactly when the nodes of some piece of `multi`, that is of some instance when all are within the
      cap, are the first nodes of `single`.  `single` ends with its path, so the comparison never reads past
      the end node. */
  method LibMatchDevicePaths(multi: Option<seq<Byte>>, single: Option<seq<Byte>>) returns (r: bool)
    requires multi.Some? ==> IsPath(multi.value, 0)
    requires single.Some? ==> IsWholePath(single.value)
    ensures r <==> multi.Some? && single.Some? && SomePrefix(PiecesAt(multi.value, 0), NodesAt(single.value, 0))
    ensures multi.Some? && single.Some? && WithinCap(InstancesAt(multi.value, 0)) ==>
              (r <==> SomePrefix(InstancesAt(multi.value, 0), NodesAt(single.value, 0)))
  {
    hide Pieces, Instances, Parse;
    if multi.None? || single.None? {
      return false;
    }
    PiecesExactIff(NodesAt(multi.value, 0));
    r := MatchInstances(multi.value, single.value);
  }

  /** The loop of LibMatchDevicePaths. */
  method MatchInstances(m: seq<Byte>, s: seq<Byte>) returns (r: bool)
    requires IsPath(m, 0) && IsWholePath(s)
    ensures r <==> SomePrefix(PiecesAt(m, 0), NodesAt(s, 0))
  {
    hide Parse, Serialise, ValidPath, Pieces, SplitsPiece, SplitsFirst;
    ghost var all, target, done: nat := PiecesAt(m, 0), NodesAt(s, 0), 0;
    var path: Option<nat> := Some(0);
    while path.Some?
      invariant done <= |all|
      invariant path.Some? ==> path.value <= |m| && IsPath(m, path.value) && PiecesAt(m, path.value) == all[done..]
      invariant path.None? ==> done == |all|
      invariant forall i :: 0 <= i < done ==> !(all[i] <= target)
      decreases if path.Some? then |m| + 1 - path.value else 0
    {
      var start := path.value;
      var inst, size, next := DevicePathInstance(m, path);
      ComparesPrefix(m, start, size, next, s);
      SplitNext(m, start, size, next, all, done);
      var c := CompareMem(s, m[start..start + size], size);
      if c == 0 {
        return true;
      }
      path, done := next, done + 1;
    }
    return false;
  }
}
