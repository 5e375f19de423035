/** The circular doubly linked lists of INC/link.h and their relocation in LIB/Runtime/vm.c. */
module LinkedLists {
  import opened EfiBase

  type Address = nat

  /** A LIST_ENTRY. */
  datatype Links = Links(flink: Address, blink: Address)
  type Cells = map<Address, Links>

  function After(i: nat, n: nat): nat { if i + 1 >= n then 0 else i + 1 }
  function Before(i: nat, n: nat): nat { if i == 0 && n > 0 then n - 1 else if i == 0 then 0 else i - 1 }

  /** `ring` lists, in order, distinct entries whose links run around it both ways. */
  ghost predicate Ring(cells: Cells, ring: seq<Address>) {
    && |ring| > 0
    && NoDuplicates(ring)
    && (forall i :: 0 <= i < |ring| ==> ring[i] in cells)
    && (forall i :: 0 <= i < |ring| ==> Linked(cells, ring, i))
  }

  ghost predicate Linked(cells: Cells, ring: seq<Address>, i: nat)
    requires i < |ring| && ring[i] in cells
  {
    && cells[ring[i]].flink == ring[After(i, |ring|)]
    && cells[ring[i]].blink == ring[Before(i, |ring|)]
  }

  /** Entries outside `touched` keep their links. */
  ghost predicate OnlyTouched(before: Cells, after: Cells, touched: seq<Address>) {
    && before.Keys == after.Keys
    && forall a :: a in before && a !in touched ==> after[a] == before[a]
  }

  // ----- The macros as writes to memory

  function SetFlink(cells: Cells, a: Address, v: Address): Cells
    requires a in cells
  {
    cells[a := cells[a].(flink := v)]
  }

  function SetBlink(cells: Cells, a: Address, v: Address): Cells
    requires a in cells
  {
    cells[a := cells[a].(blink := v)]
  }

  /** The two writes of _RemoveEntryList. */
  function Unlink(cells: Cells, entry: Address): Cells
    requires entry in cells && cells[entry].flink in cells && cells[entry].blink in cells
  {
    var f, b := cells[entry].flink, cells[entry].blink;
    SetBlink(SetFlink(cells, b, f), f, b)
  }

  /** The four writes that put `entry` between `prev` and `next`. */
  function LinkBetween(cells: Cells, prev: Address, next: Address, entry: Address): Cells
    requires prev in cells && next in cells && entry in cells
  {
    var c := SetBlink(SetFlink(cells, entry, next), entry, prev);
    SetBlink(SetFlink(c, prev, entry), next, entry)
  }

  /** What the two writes leave in every cell. */
  lemma UnlinkCell(cells: Cells, entry: Address, x: Address)
    requires entry in cells && cells[entry].flink in cells && cells[entry].blink in cells && x in cells
    ensures var f, b, after := cells[entry].flink, cells[entry].blink, Unlink(cells, entry);
            && after.Keys == cells.Keys
            && after[x] == Links(if x == b then f else cells[x].flink, if x == f then b else cells[x].blink)
  {}

  /** What the four writes leave in every cell. */
  lemma LinkCell(cells: Cells, prev: Address, next: Address, entry: Address, x: Address)
    requires prev in cells && next in cells && entry in cells && x in cells
    requires entry != prev && entry != next
    ensures var after := LinkBetween(cells, prev, next, entry);
            && after.Keys == cells.Keys
            && after[x] == if x == entry then Links(next, prev)
                           else Links(if x == prev then entry else cells[x].flink,
                                      if x == next then entry else cells[x].blink)
  {}

  lemma Distinct(ring: seq<Address>, i: nat, j: nat)
    requires NoDuplicates(ring) && i < |ring| && j < |ring|
    ensures ring[i] == ring[j] <==> i == j
  {}

  lemma NeighboursInCells(cells: Cells, ring: seq<Address>, k: nat)
    requires Ring(cells, ring) && k < |ring|
    ensures Linked(cells, ring, k) && ring[k] in cells
    ensures cells[ring[k]].flink in cells && cells[ring[k]].blink in cells
  {}

  lemma UnlinkIndex(cells: Cells, ring: seq<Address>, k: nat, i: nat)
    requires Ring(cells, ring) && k < |ring| && i < |ring| - 1
    requires cells[ring[k]].flink in cells && cells[ring[k]].blink in cells
    ensures RemoveAt(ring, k)[i] in Unlink(cells, ring[k]) && Linked(Unlink(cells, ring[k]), RemoveAt(ring, k), i)
  {
    hide Unlink, Ring;
    var n, rest := |ring|, RemoveAt(ring, k);
    var o := if i < k then i else i + 1;
    RingFacts(cells, ring);
    NeighboursInCells(cells, ring, k);
    NeighboursInCells(cells, ring, o);
    UnlinkCell(cells, ring[k], ring[o]);
    Distinct(ring, o, Before(k, n));
    Distinct(ring, o, After(k, n));
  }

  lemma RingFacts(cells: Cells, ring: seq<Address>)
    requires Ring(cells, ring)
    ensures |ring| > 0 && NoDuplicates(ring) && forall i :: 0 <= i < |ring| ==> ring[i] in cells
  {}

  /** Unlinking the entry at `k` leaves the ring without it. */
  lemma UnlinkRing(cells: Cells, ring: seq<Address>, k: nat)
    requires Ring(cells, ring) && k < |ring| && |ring| > 1
    ensures cells[ring[k]].flink in cells && cells[ring[k]].blink in cells
    ensures Ring(Unlink(cells, ring[k]), RemoveAt(ring, k))
    ensures OnlyTouched(cells, Unlink(cells, ring[k]), ring)
  {
    hide Unlink, Linked;
    NeighboursInCells(cells, ring, k);
    var after, rest := Unlink(cells, ring[k]), RemoveAt(ring, k);
    forall i | 0 <= i < |rest|
      ensures rest[i] in after && Linked(after, rest, i)
    {
      UnlinkIndex(cells, ring, k, i);
    }
    forall a | a in cells
      ensures a in after && (a !in ring ==> after[a] == cells[a])
    {
      UnlinkCell(cells, ring[k], a);
      NeighbourMembers(cells, ring, k);
    }
    UnlinkCell(cells, ring[k], ring[k]);
  }

  lemma NeighbourMembers(cells: Cells, ring: seq<Address>, k: nat)
    requires Ring(cells, ring) && k < |ring|
    ensures ring[k] in cells && cells[ring[k]].flink in ring && cells[ring[k]].blink in ring
  {
    assert Linked(cells, ring, k);
  }

  lemma LinkIndex(cells: Cells, ring: seq<Address>, j: nat, entry: Address, i: nat)
    requires Ring(cells, ring) && 0 < j <= |ring| && entry in cells && entry !in ring && i <= |ring|
    ensures var after := LinkBetween(cells, ring[j - 1], ring[After(j - 1, |ring|)], entry);
            InsertAt(ring, j, entry)[i] in after && Linked(after, InsertAt(ring, j, entry), i)
  {
    hide LinkBetween, Ring;
    var n, more := |ring|, InsertAt(ring, j, entry);
    var prev, next := ring[j - 1], ring[After(j - 1, n)];
    RingFacts(cells, ring);
    assert prev in ring && next in ring;
    if i == j {
      assert more[i] == entry;
      LinkCell(cells, prev, next, entry, entry);
    } else {
      var o := if i < j then i else i - 1;
      assert more[i] == ring[o];
      NeighboursInCells(cells, ring, o);
      LinkCell(cells, prev, next, entry, ring[o]);
      Distinct(ring, o, j - 1);
      Distinct(ring, o, After(j - 1, n));
    }
  }

  /** Linking a new entry in after position `j - 1` of the ring inserts it at `j`. */
  lemma LinkRing(cells: Cells, ring: seq<Address>, j: nat, entry: Address)
    requires Ring(cells, ring) && 0 < j <= |ring| && entry in cells && entry !in ring
    ensures Ring(LinkBetween(cells, ring[j - 1], ring[After(j - 1, |ring|)], entry), InsertAt(ring, j, entry))
    ensures OnlyTouched(cells, LinkBetween(cells, ring[j - 1], ring[After(j - 1, |ring|)], entry), ring + [entry])
  {
    hide LinkBetween, Linked;
    var prev, next := ring[j - 1], ring[After(j - 1, |ring|)];
    var after, more := LinkBetween(cells, prev, next, entry), InsertAt(ring, j, entry);
    forall i | 0 <= i < |more|
      ensures more[i] in after && Linked(after, more, i)
    {
      LinkIndex(cells, ring, j, entry, i);
    }
    InsertDistinct(ring, j, entry);
    LinkCell(cells, prev, next, entry, entry);
    forall a | a in cells && a !in ring + [entry]
      ensures a in after && after[a] == cells[a]
    {
      LinkCell(cells, prev, next, entry, a);
    }
  }

  // ----- Moving an entry

  /** The ring with the entry at `k2` taken out and put back just before the one at `k1`. */
  function MovedBefore(ring: seq<Address>, k1: nat, k2: nat): seq<Address>
    requires k1 < |ring| && k2 < |ring| && Before(k1, |ring|) != k2
  {
    var y := Before(k1, |ring|);
    InsertAt(RemoveAt(ring, k2), (if y < k2 then y else y - 1) + 1, ring[k2])
  }

  /** The entries whose move SwapListEntries gets right: distinct, and not yet in place. */
  ghost predicate Movable(ring: seq<Address>, k1: nat, k2: nat)
    requires k1 < |ring| && k2 < |ring|
  {
    k1 != k2 && Before(k1, |ring|) != k2
  }

  /** All writes of SwapListEntries, with the links read beforehand. */
  function SwapCells(cells: Cells, e1: Address, e2: Address): Cells
    requires e1 in cells && e2 in cells
    requires cells[e2].flink in cells && cells[e2].blink in cells && cells[e1].blink in cells
  {
    LinkBetween(Unlink(cells, e2), cells[e1].blink, e1, e2)
  }

  lemma SwapRing(cells: Cells, ring: seq<Address>, k1: nat, k2: nat)
    requires Ring(cells, ring) && k1 < |ring| && k2 < |ring| && Movable(ring, k1, k2)
    ensures cells[ring[k2]].flink in cells && cells[ring[k2]].blink in cells && cells[ring[k1]].blink in cells
    ensures Ring(SwapCells(cells, ring[k1], ring[k2]), MovedBefore(ring, k1, k2))
    ensures OnlyTouched(cells, SwapCells(cells, ring[k1], ring[k2]), ring)
  {
    hide Unlink, LinkBetween, Ring, Linked, RemoveAt, InsertAt;
    var e1, e2, y := ring[k1], ring[k2], Before(k1, |ring|);
    var rest, j := RemoveAt(ring, k2), (if y < k2 then y else y - 1) + 1;
    RingFacts(cells, ring);
    LinkOf(cells, ring, k1);
    NeighboursInCells(cells, ring, k1);
    NeighboursInCells(cells, ring, k2);
    UnlinkRing(cells, ring, k2);
    RemoveFacts(ring, k2);
    RestNeighbours(ring, k1, k2);
    LinkRing(Unlink(cells, e2), rest, j, e2);
  }

  lemma LinkOf(cells: Cells, ring: seq<Address>, k: nat)
    requires Ring(cells, ring) && k < |ring|
    ensures ring[k] in cells && cells[ring[k]] == Links(ring[After(k, |ring|)], ring[Before(k, |ring|)])
  {
    assert Linked(cells, ring, k);
  }

  lemma RestNeighbours(ring: seq<Address>, k1: nat, k2: nat)
    requires k1 < |ring| && k2 < |ring| && Movable(ring, k1, k2)
    ensures var y := Before(k1, |ring|);
            var rest, j := RemoveAt(ring, k2), (if y < k2 then y else y - 1) + 1;
            && |rest| == |ring| - 1 && 0 < j <= |rest|
            && rest[j - 1] == ring[y] && rest[After(j - 1, |rest|)] == ring[k1]
  {}

  lemma RemoveFacts(ring: seq<Address>, k: nat)
    requires NoDuplicates(ring) && k < |ring|
    ensures ring[k] !in RemoveAt(ring, k)
    ensures forall a :: a in RemoveAt(ring, k) + [ring[k]] ==> a in ring
  {}

  /** A cell that links to itself is alone in its ring. */
  lemma SelfLinkAlone(cells: Cells, ring: seq<Address>, e: Address)
    requires Ring(cells, ring) && e in ring && e in cells && cells[e].flink == e
    ensures |ring| == 1
  {
    var k :| 0 <= k < |ring| && ring[k] == e;
    assert Linked(cells, ring, k);
    Distinct(ring, k, After(k, |ring|));
  }

  /** Moving an entry onto itself, or to where it already is, cuts it loose. */
  lemma SwapBreaks(cells: Cells, ring: seq<Address>, k1: nat, k2: nat)
    requires Ring(cells, ring) && k1 < |ring| && k2 < |ring| && !Movable(ring, k1, k2)
    ensures cells[ring[k2]].flink in cells && cells[ring[k2]].blink in cells && cells[ring[k1]].blink in cells
    ensures var after := SwapCells(cells, ring[k1], ring[k2]);
            && after.Keys == cells.Keys
            && after[ring[k2]].flink == ring[k2]
            && (|ring| == 1 ==> Ring(after, ring))
  {
    NeighboursInCells(cells, ring, k1);
    NeighboursInCells(cells, ring, k2);
    Distinct(ring, k1, k2);
    Distinct(ring, Before(k1, |ring|), k2);
  }

  /** LIST_ENTRY memory; each method is one macro of link.h, its writes in the macro's order. */
  class Memory {
    var cells: Cells

    constructor (initial: Cells)
      ensures cells == initial
    {
      cells := initial;
    }

    method InitializeListHead(head: Address)
      requires head in cells
      modifies this
      ensures Ring(cells, [head]) && OnlyTouched(old(cells), cells, [head])
    {
      cells := SetFlink(cells, head, head);
      cells := SetBlink(cells, head, head);
    }

    method IsListEmpty(head: Address, ghost ring: seq<Address>) returns (empty: bool)
      requires Ring(cells, ring) && ring[0] == head
      ensures empty <==> ring == [head]
    {
      NeighboursInCells(cells, ring, 0);
      Distinct(ring, 0, After(0, |ring|));
      empty := cells[head].flink == head;
    }

    /** A debug build also spoils the links of the removed entry. */
    method RemoveEntryList(entry: Address, debug: bool, badPointer: Address, ghost ring: seq<Address>, ghost k: nat)
      requires Ring(cells, ring) && k < |ring| && ring[k] == entry
      modifies this
      ensures OnlyTouched(old(cells), cells, ring)
      ensures |ring| > 1 ==> Ring(cells, RemoveAt(ring, k))
      ensures debug ==> cells[entry] == Links(badPointer, badPointer)
      ensures !debug ==> cells[entry] == old(cells)[entry]
    {
      NeighboursInCells(cells, ring, k);
      ghost var was := cells;
      if |ring| > 1 {
        UnlinkRing(cells, ring, k);
      }
      UnlinkSelf(cells, ring, k);
      var flink, blink := cells[entry].flink, cells[entry].blink;
      cells := SetFlink(cells, blink, flink);
      cells := SetBlink(cells, flink, blink);
      if debug {
        RemoveFacts(ring, k);
        cells := SetBlink(SetFlink(cells, entry, badPointer), entry, badPointer);
        if |ring| > 1 {
          OutsideRing(Unlink(was, entry), cells, RemoveAt(ring, k), entry);
        }
      }
    }

    method InsertTailList(head: Address, entry: Address, ghost ring: seq<Address>)
      requires Ring(cells, ring) && ring[0] == head && entry in cells && entry !in ring
      modifies this
      ensures Ring(cells, ring + [entry]) && OnlyTouched(old(cells), cells, ring + [entry])
    {
      NeighboursInCells(cells, ring, 0);
      LinkRing(cells, ring, |ring|, entry);
      assert InsertAt(ring, |ring|, entry) == ring + [entry];
      var blink := cells[head].blink;
      cells := SetFlink(cells, entry, head);
      cells := SetBlink(cells, entry, blink);
      cells := SetFlink(cells, blink, entry);
      cells := SetBlink(cells, head, entry);
    }

    method InsertHeadList(head: Address, entry: Address, ghost ring: seq<Address>)
      requires Ring(cells, ring) && ring[0] == head && entry in cells && entry !in ring
      modifies this
      ensures Ring(cells, [head, entry] + ring[1..]) && OnlyTouched(old(cells), cells, ring + [entry])
    {
      NeighboursInCells(cells, ring, 0);
      LinkRing(cells, ring, 1, entry);
      assert InsertAt(ring, 1, entry) == [head, entry] + ring[1..];
      var flink := cells[head].flink;
      ghost var want := LinkBetween(cells, head, flink, entry);
      cells := SetFlink(cells, entry, flink);
      cells := SetBlink(cells, entry, head);
      ghost var linked := cells;
      cells := SetBlink(cells, flink, entry);
      cells := SetFlink(cells, head, entry);
      assert cells == want;
    }

    /** Puts entry2 just before entry1.  The entries still form a ring afterwards exactly when entry2 is
        another entry and not there already, or the ring has only one. */
    method SwapListEntries(entry1: Address, entry2: Address, ghost ring: seq<Address>, ghost k1: nat, ghost k2: nat)
      requires Ring(cells, ring) && k1 < |ring| && k2 < |ring| && ring[k1] == entry1 && ring[k2] == entry2
      modifies this
      ensures Movable(ring, k1, k2) ==> Ring(cells, MovedBefore(ring, k1, k2)) && OnlyTouched(old(cells), cells, ring)
      ensures (exists r :: Ring(cells, r) && SameMembers(r, ring)) <==> Movable(ring, k1, k2) || |ring| == 1
    {
      NeighboursInCells(cells, ring, k1);
      NeighboursInCells(cells, ring, k2);
      ghost var want := SwapCells(cells, entry1, entry2);
      if Movable(ring, k1, k2) {
        SwapRing(cells, ring, k1, k2);
        MovedMembers(ring, k1, k2);
      } else {
        SwapBreaks(cells, ring, k1, k2);
      }
      var entry2Flink, entry2Blink, entry1Blink := cells[entry2].flink, cells[entry2].blink, cells[entry1].blink;
      cells := SetFlink(cells, entry2Blink, entry2Flink);
      cells := SetBlink(cells, entry2Flink, entry2Blink);
      cells := SetFlink(cells, entry2, entry1);
      cells := SetBlink(cells, entry2, entry1Blink);
      cells := SetFlink(cells, entry1Blink, entry2);
      cells := SetBlink(cells, entry1, entry2);
      assert cells == want;
      if !Movable(ring, k1, k2) && |ring| > 1 {
        BrokenRing(cells, ring, entry2);
      }
    }
  }

  /** Unlinking leaves the entry's own links alone. */
  lemma UnlinkSelf(cells: Cells, ring: seq<Address>, k: nat)
    requires Ring(cells, ring) && k < |ring| && ring[k] in cells
    requires cells[ring[k]].flink in cells && cells[ring[k]].blink in cells
    ensures Unlink(cells, ring[k])[ring[k]] == cells[ring[k]]
  {
    LinkOf(cells, ring, k);
    Distinct(ring, k, After(k, |ring|));
    Distinct(ring, k, Before(k, |ring|));
    UnlinkCell(cells, ring[k], ring[k]);
  }

  /** A ring does not depend on cells outside it. */
  lemma OutsideRing(before: Cells, after: Cells, ring: seq<Address>, entry: Address)
    requires Ring(before, ring) && entry !in ring && before.Keys == after.Keys
    requires forall a :: a in before && a != entry ==> after[a] == before[a]
    ensures Ring(after, ring)
  {
    forall i | 0 <= i < |ring|
      ensures Linked(after, ring, i)
    {
      assert Linked(before, ring, i);
    }
  }

  ghost predicate SameMembers(r: seq<Address>, ring: seq<Address>) {
    forall a :: a in r <==> a in ring
  }

  lemma MovedMembers(ring: seq<Address>, k1: nat, k2: nat)
    requires k1 < |ring| && k2 < |ring| && Movable(ring, k1, k2)
    ensures SameMembers(MovedBefore(ring, k1, k2), ring)
  {
    var y := Before(k1, |ring|);
    var rest, j := RemoveAt(ring, k2), (if y < k2 then y else y - 1) + 1;
    forall a
      ensures a in MovedBefore(ring, k1, k2) <==> a in ring
    {
      MemberOfRemoved(ring, k2, a);
      MemberOfInserted(rest, j, ring[k2], a);
    }
  }

  lemma MemberOfRemoved(ring: seq<Address>, k: nat, a: Address)
    requires k < |ring|
    ensures a in ring <==> a == ring[k] || a in RemoveAt(ring, k)
  {}

  lemma MemberOfInserted(ring: seq<Address>, j: nat, e: Address, a: Address)
    requires j <= |ring|
    ensures a in InsertAt(ring, j, e) <==> a == e || a in ring
  {}

  /** The moved ring: entry2 comes just before entry1, and without it the others are as they were. */
  lemma MovedPlace(ring: seq<Address>, k1: nat, k2: nat) returns (at: nat, place: nat)
    requires k1 < |ring| && k2 < |ring| && Movable(ring, k1, k2)
    ensures var moved := MovedBefore(ring, k1, k2);
            && |moved| == |ring| && at < |ring| && place < |ring|
            && moved[at] == ring[k2] && RemoveAt(moved, at) == RemoveAt(ring, k2)
            && moved[place] == ring[k1] && moved[Before(place, |ring|)] == ring[k2]
  {
    hide RemoveAt, InsertAt;
    var y := Before(k1, |ring|);
    at := (if y < k2 then y else y - 1) + 1;
    place := After(at, |ring|);
    RestNeighbours(ring, k1, k2);
    InsertFacts(RemoveAt(ring, k2), at, ring[k2]);
  }

  lemma InsertFacts(rest: seq<Address>, at: nat, e: Address)
    requires 0 < at <= |rest|
    ensures var more := InsertAt(rest, at, e);
            && |more| == |rest| + 1 && more[at] == e && RemoveAt(more, at) == rest
            && more[After(at, |more|)] == rest[After(at - 1, |rest|)]
            && Before(After(at, |more|), |more|) == at
  {}

  lemma BrokenRing(cells: Cells, ring: seq<Address>, e: Address)
    requires |ring| > 1 && NoDuplicates(ring) && e in ring && e in cells && cells[e].flink == e
    ensures !exists r :: Ring(cells, r) && SameMembers(r, ring)
  {
    assert ring[0] in ring && ring[1] in ring;
    forall r | Ring(cells, r) && SameMembers(r, ring)
      ensures false
    {
      SelfLinkAlone(cells, r, e);
    }
  }

  // ----- Relocation

  /** ConvertPointer: an address outside the map is refused and stays as it is. */
  function NewAddress(conv: map<Address, Address>, a: Address): Address { if a in conv then conv[a] else a }

  function ConvertAll(ring: seq<Address>, conv: map<Address, Address>): (r: seq<Address>)
    ensures |r| == |ring| && forall i :: 0 <= i < |ring| ==> r[i] == NewAddress(conv, ring[i])
  {
    seq(|ring|, i requires 0 <= i < |ring| => NewAddress(conv, ring[i]))
  }

  /** `after` is the memory seen through the new address map: each entry's content at its new address. */
  ghost predicate Relocated(after: Cells, converted: Cells, ring: seq<Address>, conv: map<Address, Address>)
    requires forall i :: 0 <= i < |ring| ==> ring[i] in converted
  {
    forall i :: 0 <= i < |ring| ==>
      NewAddress(conv, ring[i]) in after && after[NewAddress(conv, ring[i])] == converted[ring[i]]
  }

  /** The first `n` entries of the ring hold the converted form of both their links; all other cells
      are as before. */
  ghost predicate ConvertedTo(before: Cells, now: Cells, ring: seq<Address>, conv: map<Address, Address>, n: nat)
    requires Ring(before, ring) && n <= |ring|
  {
    && before.Keys == now.Keys
    && (forall i :: 0 <= i < n ==> ring[i] in now && now[ring[i]] == NewLinks(ring, conv, i))
    && (forall a :: a in before && a !in ring[..n] ==> now[a] == before[a])
  }

  /** The converted links of entry `i`. */
  function NewLinks(ring: seq<Address>, conv: map<Address, Address>, i: nat): Links
    requires i < |ring|
  {
    Links(NewAddress(conv, ring[After(i, |ring|)]), NewAddress(conv, ring[Before(i, |ring|)]))
  }

  ghost predicate Converted(before: Cells, converted: Cells, ring: seq<Address>, conv: map<Address, Address>)
    requires Ring(before, ring)
  {
    ConvertedTo(before, converted, ring, conv, |ring|)
  }

  lemma ConvertStep(before: Cells, now: Cells, ring: seq<Address>, conv: map<Address, Address>, n: nat)
    requires Ring(before, ring) && n < |ring|
    requires ConvertedTo(before, now, ring, conv, n)
    ensures ring[n] in now && now[ring[n]] == Links(ring[After(n, |ring|)], ring[Before(n, |ring|)])
    ensures ConvertedTo(before, now[ring[n] := NewLinks(ring, conv, n)], ring, conv, n + 1)
  {
    hide Ring, NewLinks, After, Before;
    RingFacts(before, ring);
    LinkOf(before, ring, n);
    assert ring[n] !in ring[..n];
    var next := now[ring[n] := NewLinks(ring, conv, n)];
    forall i | 0 <= i < n + 1
      ensures ring[i] in next && next[ring[i]] == NewLinks(ring, conv, i)
    {
      Distinct(ring, i, n);
    }
    assert ring[..n + 1] == ring[..n] + [ring[n]];
  }

  /** Rewrites both links of every entry, walking the unconverted links, each entry once. */
  method RtConvertList(mem: Memory, head: Address, conv: map<Address, Address>, ghost ring: seq<Address>)
    requires Ring(mem.cells, ring) && ring[0] == head
    modifies mem
    ensures Converted(old(mem.cells), mem.cells, ring, conv)
  {
    hide ConvertedTo;
    ghost var before := mem.cells;
    var link := head;
    ghost var i := 0;
    NothingConverted(before, ring, conv);
    while true
      invariant 0 <= i < |ring| && link == ring[i]
      invariant ConvertedTo(before, mem.cells, ring, conv, i)
      decreases |ring| - i
    {
      ConvertStep(before, mem.cells, ring, conv, i);
      ghost var want := mem.cells[link := NewLinks(ring, conv, i)];
      var nextLink := mem.cells[link].flink;
      mem.cells := SetFlink(mem.cells, link, NewAddress(conv, mem.cells[link].flink));
      mem.cells := SetBlink(mem.cells, link, NewAddress(conv, mem.cells[link].blink));
      assert mem.cells == want;
      link := nextLink;
      Distinct(ring, After(i, |ring|), 0);
      i := i + 1;
      if link == head {
        break;
      }
    }
  }

  lemma NothingConverted(before: Cells, ring: seq<Address>, conv: map<Address, Address>)
    requires Ring(before, ring)
    ensures ConvertedTo(before, before, ring, conv, 0)
  {}

  /** With the links converted, the relocated entries form a ring in the same order exactly when the
      address map keeps them apart. */
  lemma RelocatedRing(before: Cells, converted: Cells, after: Cells, ring: seq<Address>, conv: map<Address, Address>)
    requires Ring(before, ring)
    requires Converted(before, converted, ring, conv) && Relocated(after, converted, ring, conv)
    ensures Ring(after, ConvertAll(ring, conv)) <==>
            forall i, j :: 0 <= i < j < |ring| ==> NewAddress(conv, ring[i]) != NewAddress(conv, ring[j])
  {}
}
