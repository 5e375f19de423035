/** All-or-nothing protocol installation (LIB/hand.c) over the firmware's protocol database. */
module ProtocolInstall {
  import opened EfiBase

  const TPL_NOTIFY := 16

  /** Protocols are named by their GUID, interfaces by their address. */
  type Protocol = int
  type Interface = int
  type Interfaces = map<Protocol, Interface>
  datatype Pair = Pair(protocol: Protocol, face: Interface)

  datatype Status = Success | InvalidParameter | OutOfResources | NotFound

  /** The database with the interfaces of `h` set to `m`; a handle without any is freed. */
  function Put(db: map<Handle, Interfaces>, h: Handle, m: Interfaces): map<Handle, Interfaces> {
    if m == map[] then db - {h} else db[h := m]
  }

  /** The boot services used: the protocol database, the task priority and memory for `grants` more
      installations. */
  class BootServices {
    var db: map<Handle, Interfaces>
    var tpl: nat
    var grants: nat

    ghost predicate Valid()
      reads this
    {
      NULL !in db && forall h :: h in db ==> db[h] != map[]
    }

    constructor (memory: nat)
      ensures Valid() && grants == memory
    {
      db, tpl, grants := map[], 0, memory;
    }

    method RaiseTPL(level: nat) returns (was: nat)
      modifies this`tpl
      ensures was == old(tpl) && tpl == level
    {
      was := tpl;
      tpl := level;
    }

    method RestoreTPL(level: nat)
      modifies this`tpl
      ensures tpl == level
    {
      tpl := level;
    }

    /** Puts one interface on a handle, a new one for NULL.  A protocol already there, a handle that is
        none and lack of memory are errors that change nothing. */
    method InstallProtocolInterface(handle: Handle, p: Protocol, i: Interface) returns (status: Status, h: Handle)
      requires Valid()
      modifies this`db, this`grants
      ensures Valid()
      ensures status == Success <==>
              && (handle == NULL || (handle in old(db) && p !in old(db)[handle]))
              && old(grants) > 0
      ensures status in [Success, InvalidParameter, OutOfResources]
      ensures handle in old(db) && p in old(db)[handle] ==> status == InvalidParameter
      ensures status == InvalidParameter ==> handle != NULL && (handle !in old(db) || p in old(db)[handle])
      ensures status == OutOfResources ==> old(grants) == 0
      ensures status != Success ==> db == old(db) && h == handle
      ensures status == Success ==>
                && grants == old(grants) - 1 && h != NULL
                && (if handle == NULL then h !in old(db) && db == old(db)[h := map[p := i]]
                    else h == handle && db == old(db)[h := old(db)[h][p := i]])
    {
      h := handle;
      if handle != NULL && handle in db && p in db[handle] {
        return InvalidParameter, h;
      }
      if grants == 0 {
        return OutOfResources, h;
      }
      if handle != NULL && handle !in db {
        return InvalidParameter, h;
      }
      grants := grants - 1;
      if handle == NULL {
        h := NewHandle();
        db := db[h := map[p := i]];
      } else {
        db := db[h := db[h][p := i]];
      }
      assert p in db[h];
      status := Success;
    }

    /** Some address that is not a handle yet. */
    method NewHandle() returns (h: Handle)
      ensures h != NULL && h !in db
    {
      h := 1;
      var used := db.Keys;
      while h in used
        invariant h > 0 && used <= db.Keys
        invariant forall x :: x in db && x !in used ==> x < h
        decreases used
      {
        used := used - {h};
        h := h + 1;
        var kept := set x | x in used && x >= h;
        used := kept;
      }
    }

    /** Takes one interface off a handle, and frees the handle with its last one. */
    method UninstallProtocolInterface(handle: Handle, p: Protocol, i: Interface) returns (status: Status)
      requires Valid()
      modifies this`db
      ensures Valid()
      ensures status == Success <==> handle in old(db) && p in old(db)[handle] && old(db)[handle][p] == i
      ensures status == InvalidParameter <==> handle !in old(db)
      ensures status in [Success, InvalidParameter, NotFound]
      ensures db == if status == Success then Put(old(db), handle, old(db)[handle] - {p}) else old(db)
    {
      if handle !in db {
        return InvalidParameter;
      }
      if p !in db[handle] || db[handle][p] != i {
        return NotFound;
      }
      db := Put(db, handle, db[handle] - {p});
      status := Success;
    }
  }

  // ----- Lists of pairs

  function PairMap(s: seq<Pair>): Interfaces {
    if s == [] then map[] else PairMap(s[1..])[s[0].protocol := s[0].face]
  }

  ghost predicate DistinctProtocols(s: seq<Pair>) {
    forall i, j :: 0 <= i < j < |s| ==> s[i].protocol != s[j].protocol
  }

  lemma {:induction false} PairMapKeys(s: seq<Pair>, p: Protocol)
    ensures p in PairMap(s) <==> exists i :: 0 <= i < |s| && s[i].protocol == p
  {
    if s != [] {
      PairMapKeys(s[1..], p);
      if i :| 0 <= i < |s| && s[i].protocol == p {
        assert i > 0 ==> s[1..][i - 1].protocol == p;
      }
    }
  }

  lemma {:induction false} PairMapAppend(s: seq<Pair>, x: Pair)
    requires DistinctProtocols(s + [x])
    ensures PairMap(s + [x]) == PairMap(s)[x.protocol := x.face]
  {
    if s == [] {
      assert [x][1..] == [];
    } else {
      assert (s + [x])[1..] == s[1..] + [x];
      assert DistinctProtocols(s[1..] + [x]) by {
        forall i, j | 0 <= i < j < |s|
          ensures (s[1..] + [x])[i].protocol != (s[1..] + [x])[j].protocol
        {
          assert (s[1..] + [x])[i] == (s + [x])[i + 1] && (s[1..] + [x])[j] == (s + [x])[j + 1];
        }
      }
      PairMapAppend(s[1..], x);
      assert (s + [x])[0].protocol != (s + [x])[|s|].protocol;
    }
  }

  /** Taking the first pair away leaves the map of the others. */
  lemma PairMapFirst(s: seq<Pair>)
    requires s != [] && DistinctProtocols(s)
    ensures s[0].protocol in PairMap(s) && PairMap(s)[s[0].protocol] == s[0].face
    ensures PairMap(s) - {s[0].protocol} == PairMap(s[1..])
  {
    PairMapKeys(s[1..], s[0].protocol);
  }

  // ----- The library function

  /** What is on the handle before anything is installed. */
  function Base(db: map<Handle, Interfaces>, handle: Handle): Interfaces {
    if handle != NULL && handle in db then db[handle] else map[]
  }

  /** The arguments that can be installed: a usable handle and protocols that are new to it, each once. */
  ghost predicate Installable(db: map<Handle, Interfaces>, handle: Handle, args: seq<Pair>) {
    && (handle == NULL || handle in db)
    && DistinctProtocols(args)
    && forall i :: 0 <= i < |args| ==> args[i].protocol !in Base(db, handle)
  }

  /** After installing the pairs `s` on `h`, starting from `db` and `handle`. */
  ghost predicate Installed(
    db: map<Handle, Interfaces>, handle: Handle, s: seq<Pair>, h: Handle, now: map<Handle, Interfaces>)
  {
    && Installable(db, handle, s)
    && (if handle == NULL then h != NULL && h !in db else h == handle)
    && now == Put(db, h, Base(db, handle) + PairMap(s))
  }

  lemma InstallStep(
    db: map<Handle, Interfaces>, handle: Handle, s: seq<Pair>, x: Pair, h: Handle, now: map<Handle, Interfaces>)
    requires Installed(db, handle, s, h, now) && s != []
    ensures h in now
    ensures x.protocol !in now[h] <==> Installable(db, handle, s + [x])
    ensures x.protocol !in now[h] ==> Installed(db, handle, s + [x], h, now[h := now[h][x.protocol := x.face]])
  {
    PairMapKeys(s, s[0].protocol);
    PairMapKeys(s, x.protocol);
    assert now[h] == Base(db, handle) + PairMap(s);
    if x.protocol !in now[h] {
      assert DistinctProtocols(s + [x]);
      PairMapAppend(s, x);
      PairMapKeys(s + [x], x.protocol);
      assert (s + [x])[|s|] == x;
      assert Base(db, handle) + PairMap(s + [x]) == now[h][x.protocol := x.face];
    } else if x.protocol in PairMap(s) {
      var i :| 0 <= i < |s| && s[i].protocol == x.protocol;
      assert (s + [x])[i] == s[i] && (s + [x])[|s|] == x;
    } else {
      assert (s + [x])[|s|] == x;
    }
  }

  lemma RollbackStep(db: map<Handle, Interfaces>, handle: Handle, s: seq<Pair>, h: Handle, now: map<Handle, Interfaces>)
    requires Installed(db, handle, s, h, now) && s != []
    ensures h in now && s[0].protocol in now[h] && now[h][s[0].protocol] == s[0].face
    ensures Installed(db, handle, s[1..], h, Put(now, h, now[h] - {s[0].protocol}))
  {
    PairMapFirst(s);
    var base := Base(db, handle);
    assert now[h] == base + PairMap(s);
    assert now[h] - {s[0].protocol} == base + PairMap(s[1..]);
  }

  lemma InstallableLonger(db: map<Handle, Interfaces>, handle: Handle, args: seq<Pair>, k: nat)
    requires k <= |args| && Installable(db, handle, args)
    ensures Installable(db, handle, args[..k])
  {}

  /** The first loop, at notification priority: installs until the list ends or an installation fails. */
  method InstallAll(bs: BootServices, handle: Handle, args: seq<Pair>) returns (status: Status, h: Handle, index: nat)
    requires bs.Valid() && bs.tpl == 16
    modifies bs`db, bs`grants
    ensures bs.Valid() && index <= |args|
    ensures status in [Success, InvalidParameter, OutOfResources]
    ensures status == InvalidParameter ==> !Installable(old(bs.db), handle, args)
    ensures status == OutOfResources ==> old(bs.grants) < |args|
    ensures status == Success ==> index == |args|
    ensures status == Success <==> args == [] || (Installable(old(bs.db), handle, args) && |args| <= old(bs.grants))
    ensures index == 0 ==> bs.db == old(bs.db) && h == handle
    ensures index > 0 ==> Installed(old(bs.db), handle, args[..index], h, bs.db)
  {
    hide Installed, Installable, Put, Base;
    ghost var db0, grants0 := bs.db, bs.grants;
    h, index, status := handle, 0, Success;
    while index < |args|
      invariant index <= |args| && bs.Valid() && bs.grants == grants0 - index && status == Success
      invariant index == 0 ==> bs.db == db0 && h == handle
      invariant index > 0 ==> Installed(db0, handle, args[..index], h, bs.db)
    {
      ghost var before, h0 := bs.db, h;
      status, h := bs.InstallProtocolInterface(h, args[index].protocol, args[index].face);
      if index == 0 {
        assert args[..1] == [args[0]];
        FirstInstall(db0, handle, args[0], h, bs.db);
      } else {
        assert args[..index + 1] == args[..index] + [args[index]];
        InstalledHandle(db0, handle, args[..index], h0, before);
        InstallStep(db0, handle, args[..index], args[index], h0, before);
      }
      if status != Success {
        if Installable(db0, handle, args) {
          InstallableLonger(db0, handle, args, index + 1);
        }
        return;
      }
      index := index + 1;
    }
    if args != [] {
      assert args[..|args|] == args;
      InstalledHandle(db0, handle, args, h, bs.db);
    }
  }

  /** The second loop: takes the installed pairs off again, first one first. */
  method RollBack(bs: BootServices, handle: Handle, s: seq<Pair>, h: Handle, ghost db0: map<Handle, Interfaces>)
    requires bs.Valid() && bs.tpl == 16 && Installed(db0, handle, s, h, bs.db)
    requires NULL !in db0 && forall x :: x in db0 ==> db0[x] != map[]
    modifies bs`db
    ensures bs.Valid() && bs.db == db0
  {
    hide Installed, Put;
    var next := 0;
    assert s[0..] == s;
    while next < |s|
      invariant 0 <= next <= |s| && bs.Valid() && Installed(db0, handle, s[next..], h, bs.db)
    {
      RollbackStep(db0, handle, s[next..], h, bs.db);
      assert s[next..][1..] == s[next + 1..];
      var ignored := bs.UninstallProtocolInterface(h, s[next].protocol, s[next].face);
      next := next + 1;
    }
    NothingInstalled(db0, handle, s[next..], h, bs.db);
  }

  /** Installs every pair on the one handle or leaves everything as it was. */
  method LibInstallProtocolInterfaces(bs: BootServices, handle: Handle, args: seq<Pair>)
    returns (status: Status, h: Handle)
    requires bs.Valid()
    modifies bs
    ensures bs.Valid() && bs.tpl == old(bs.tpl)
    ensures status == Success <==> args == [] || (Installable(old(bs.db), handle, args) && |args| <= old(bs.grants))
    ensures status in [Success, InvalidParameter, OutOfResources]
    ensures status == InvalidParameter ==> !Installable(old(bs.db), handle, args)
    ensures status == OutOfResources ==> old(bs.grants) < |args|
    ensures status == Success && args != [] ==> Installed(old(bs.db), handle, args, h, bs.db)
    ensures status != Success || args == [] ==> bs.db == old(bs.db) && h == handle
  {
    hide Installed, Installable, Put, Base;
    var oldTpl := bs.RaiseTPL(TPL_NOTIFY);
    var oldHandle := handle;
    var s, installed, index := InstallAll(bs, handle, args);
    status, h := s, installed;
    if status != Success {
      if index > 0 {
        RollBack(bs, handle, args[..index], h, old(bs.db));
      }
      h := oldHandle;
    } else {
      assert args[..|args|] == args;
    }
    bs.RestoreTPL(oldTpl);
  }

  lemma InstalledHandle(
    db: map<Handle, Interfaces>, handle: Handle, s: seq<Pair>, h: Handle, now: map<Handle, Interfaces>)
    requires Installed(db, handle, s, h, now) && NULL !in db
    ensures Installable(db, handle, s) && h != NULL
  {}

  lemma FirstInstall(db: map<Handle, Interfaces>, handle: Handle, x: Pair, h: Handle, now: map<Handle, Interfaces>)
    requires NULL !in db && forall y :: y in db ==> db[y] != map[]
    ensures Installable(db, handle, [x]) <==> handle == NULL || (handle in db && x.protocol !in db[handle])
    ensures handle == NULL && h != NULL && h !in db && now == db[h := map[x.protocol := x.face]] ==>
              Installed(db, handle, [x], h, now)
    ensures handle in db && h == handle && x.protocol !in db[h] && now == db[h := db[h][x.protocol := x.face]] ==>
              Installed(db, handle, [x], h, now)
  {
    assert [x][1..] == [];
    var m: Interfaces := map[x.protocol := x.face];
    assert x.protocol in m && PairMap([x]) == m;
    assert map[] + m == m;
    if handle in db {
      assert x.protocol in db[handle] + m && db[handle] + m == db[handle][x.protocol := x.face];
    }
  }

  /** With no pair left on it, the database is what it was. */
  lemma NothingInstalled(
    db: map<Handle, Interfaces>, handle: Handle, s: seq<Pair>, h: Handle, now: map<Handle, Interfaces>)
    requires Installed(db, handle, s, h, now) && s == []
    requires NULL !in db && forall x :: x in db ==> db[x] != map[]
    ensures now == db
  {
    var base := Base(db, handle);
    assert base + PairMap([]) == base;
    if handle == NULL {
      assert db - {h} == db;
    } else {
      assert db[h := db[h]] == db;
    }
  }

  lemma {:induction false} PairMapFace(s: seq<Pair>, i: nat)
    requires DistinctProtocols(s) && i < |s|
    ensures s[i].protocol in PairMap(s) && PairMap(s)[s[i].protocol] == s[i].face
  {
    if i > 0 {
      PairMapFace(s[1..], i - 1);
      assert s[1..][i - 1] == s[i] && s[0].protocol != s[i].protocol;
    }
  }

  /** What success means: every pair is on the one handle, what was there before is still there, and no
      other handle has changed. */
  lemma InstalledMeans(
    db: map<Handle, Interfaces>, handle: Handle, s: seq<Pair>, h: Handle, now: map<Handle, Interfaces>)
    requires Installed(db, handle, s, h, now) && s != []
    ensures h in now
    ensures forall i :: 0 <= i < |s| ==> s[i].protocol in now[h] && now[h][s[i].protocol] == s[i].face
    ensures forall p :: p in Base(db, handle) ==> p in now[h] && now[h][p] == db[handle][p]
    ensures forall x :: x != h ==> (x in now <==> x in db) && (x in db ==> now[x] == db[x])
  {
    PairMapFace(s, 0);
    var m := Base(db, handle) + PairMap(s);
    assert now[h] == m;
    forall i | 0 <= i < |s|
      ensures s[i].protocol in m && m[s[i].protocol] == s[i].face
    {
      PairMapFace(s, i);
    }
    forall p | p in Base(db, handle)
      ensures p in m && m[p] == db[handle][p]
    {
      PairMapKeys(s, p);
    }
  }
}
