/** The handle database queries of LIB/misc.c. */
module HandleQueries {
  import opened EfiBase
  import opened HandleDatabase
  import opened HandleRoles

  datatype Status = Success | NotFound | OutOfResources

  /** Pool memory: any allocation may fail; the failures are counted. */
  class Pool {
    var failures: nat

    constructor ()
      ensures failures == 0
    {
      failures := 0;
    }

    method Allocate() returns (ok: bool)
      modifies this
      ensures failures == old(failures) + if ok then 0 else 1
    {
      ok := *;
      if !ok {
        failures := failures + 1;
      }
    }
  }

  // ----- Setting role bits

  lemma OrFour(x: bv32, a: bv32, b: bv32, c: bv32, d: bv32)
    ensures Or(Or(Or(Or(x, a), b), c), d) == Or(x, Or(Or(a, b), Or(c, d)))
  {
    hide Or;
    OrAssociative(x, a, b);
    OrAssociative(Or(x, Or(a, b)), c, d);
    OrAssociative(x, Or(a, b), Or(c, d));
  }

  lemma OrThree(x: bv32, a: bv32, b: bv32, c: bv32)
    ensures Or(Or(Or(x, a), b), c) == Or(x, Or(Or(a, b), c))
  {}

  /** When `on`, ORs `bits` into the word at one index, if there is one. */
  method OrAt(types: array<bv32>, on: bool, at: Option<nat>, bits: bv32)
    requires at.Some? ==> at.value < types.Length
    modifies types
    ensures forall j :: 0 <= j < types.Length ==> types[j] == Or(old(types[j]), Flag(on && at == Some(j), bits))
  {
    hide Or;
    forall x: bv32 ensures Or(x, 0) == x { OrNothing(x); }
    if on && at.Some? {
      types[at.value] := Or(types[at.value], bits);
    }
  }

  /** When `on`, ORs `bits` into the words of every handle equal to `who`. */
  method OrMatching(types: array<bv32>, on: bool, handles: seq<Handle>, who: Handle, bits: bv32)
    requires types.Length == |handles|
    modifies types
    ensures forall j :: 0 <= j < types.Length ==> types[j] == Or(old(types[j]), Flag(on && handles[j] == who, bits))
  {
    hide Or;
    forall x: bv32 ensures Or(x, 0) == x { OrNothing(x); }
    if !on {
      return;
    }
    var i := 0;
    while i < |handles|
      invariant 0 <= i <= |handles|
      invariant forall j :: 0 <= j < i ==> types[j] == Or(old(types[j]), Flag(handles[j] == who, bits))
      invariant forall j :: i <= j < types.Length ==> types[j] == old(types[j])
    {
      if handles[i] == who {
        types[i] := Or(types[i], bits);
      }
      i := i + 1;
    }
  }

  /** A record of the driver asked about. */
  method MarkAgent(types: array<bv32>, db: Database, q: Query, h: nat, r: OpenRecord)
    requires types.Length == |db.handles| && h < |db.handles|
    requires q.driverIndex.Some? ==> q.driverIndex.value < |db.handles|
    modifies types
    ensures forall j :: 0 <= j < types.Length ==> types[j] == Or(old(types[j]), AgentBits(db, q, h, r, j))
  {
    hide Or, Flag, HasAll;
    ghost var was := types[..];
    var onController := q.controller != NULL && db.handles[h] == q.controller && r.ByChild();
    OrAt(types, r.ByDriver(), Some(h), DEVICE_HANDLE | CONTROLLER_HANDLE);
    OrAt(types, r.ByDriver(), q.driverIndex, DEVICE_DRIVER);
    OrAt(types, r.ByChild(), q.driverIndex, BUS_DRIVER);
    OrMatching(types, onController, db.handles, r.controller, DEVICE_HANDLE | CHILD_HANDLE);
    forall j | 0 <= j < types.Length
      ensures types[j] == Or(was[j], AgentBits(db, q, h, r, j))
    {
      assert Some(h) == Some(j) <==> j == h;
      OrFour(was[j], Flag(r.ByDriver() && j == h, DEVICE_HANDLE | CONTROLLER_HANDLE),
             Flag(r.ByDriver() && q.driverIndex == Some(j), DEVICE_DRIVER),
             Flag(r.ByChild() && q.driverIndex == Some(j), BUS_DRIVER),
             Flag(onController && db.handles[j] == r.controller, DEVICE_HANDLE | CHILD_HANDLE));
    }
  }

  /** A record made for the controller asked about, when no driver is. */
  method MarkController(types: array<bv32>, db: Database, h: nat, r: OpenRecord)
    requires types.Length == |db.handles| && h < |db.handles|
    modifies types
    ensures forall j :: 0 <= j < types.Length ==> types[j] == Or(old(types[j]), ControllerBits(db, h, r, j))
  {
    hide Or, Flag, HasAll;
    ghost var was := types[..];
    OrMatching(types, r.ByDriver(), db.handles, r.agent, DEVICE_DRIVER);
    OrAt(types, r.ByChild(), Some(h), PARENT_HANDLE);
    OrMatching(types, r.ByChild(), db.handles, r.agent, BUS_DRIVER);
    forall j | 0 <= j < types.Length
      ensures types[j] == Or(was[j], ControllerBits(db, h, r, j))
    {
      assert Some(h) == Some(j) <==> j == h;
      OrThree(was[j], Flag(r.ByDriver() && db.handles[j] == r.agent, DEVICE_DRIVER),
              Flag(r.ByChild() && j == h, PARENT_HANDLE),
              Flag(r.ByChild() && db.handles[j] == r.agent, BUS_DRIVER));
    }
  }

  // ----- The nested scan

  /** The innermost loop: all open records of one protocol. */
  method ScanRecords(types: array<bv32>, db: Database, q: Query, h: nat, g: Guid)
    requires types.Length == |db.handles| && h < |db.handles|
    requires q.driverIndex.Some? ==> q.driverIndex.value < |db.handles|
    modifies types
    ensures forall j :: 0 <= j < types.Length ==>
              types[j] == Or(old(types[j]), RecordsBits(db, q, h, g, |db.Opens(db.handles[h], g)|, j))
  {
    hide Or, AgentBits, ControllerBits;
    var open := db.Opens(db.handles[h], g);
    ghost var was := types[..];
    forall x: bv32 ensures Or(x, 0) == x { OrNothing(x); }
    var i := 0;
    while i < |open|
      invariant 0 <= i <= |open|
      invariant forall j :: 0 <= j < types.Length ==> types[j] == Or(was[j], RecordsBits(db, q, h, g, i, j))
    {
      var r := open[i];
      if q.driver != NULL && r.agent == q.driver {
        MarkAgent(types, db, q, h, r);
      }
      if q.driver == NULL && r.controller == q.controller {
        MarkController(types, db, h, r);
      }
      forall j | 0 <= j < types.Length
        ensures Or(Or(was[j], RecordsBits(db, q, h, g, i, j)), RecordBits(db, q, h, r, j))
                == Or(was[j], RecordsBits(db, q, h, g, i + 1, j))
      {
        OrAssociative(was[j], RecordsBits(db, q, h, g, i, j), RecordBits(db, q, h, r, j));
      }
      i := i + 1;
    }
  }

  /** The six comparisons of a protocol with the known ones. */
  method MarkProtocol(types: array<bv32>, db: Database, h: nat, g: Guid)
    requires types.Length == |db.handles| && h < |db.handles|
    modifies types
    ensures forall j :: 0 <= j < types.Length ==> types[j] == Or(old(types[j]), Flag(j == h, ProtocolBits(db.ids, g)))
  {
    hide Or, CompareGuid;
    forall x: bv32 ensures Or(x, 0) == x { OrNothing(x); }
    var w := types[h];
    w := OrIfSame(w, g, db.ids.loadedImage, IMAGE_HANDLE);
    w := OrIfSame(w, g, db.ids.driverBinding, DRIVER_BINDING_HANDLE);
    w := OrIfSame(w, g, db.ids.driverConfiguration, DRIVER_CONFIGURATION_HANDLE);
    w := OrIfSame(w, g, db.ids.driverDiagnostics, DRIVER_DIAGNOSTICS_HANDLE);
    w := OrIfSame(w, g, db.ids.componentName, COMPONENT_NAME_HANDLE);
    w := OrIfSame(w, g, db.ids.devicePath, DEVICE_HANDLE);
    OrSix(types[h],
          Flag(g == db.ids.loadedImage, IMAGE_HANDLE), Flag(g == db.ids.driverBinding, DRIVER_BINDING_HANDLE),
          Flag(g == db.ids.driverConfiguration, DRIVER_CONFIGURATION_HANDLE),
          Flag(g == db.ids.driverDiagnostics, DRIVER_DIAGNOSTICS_HANDLE),
          Flag(g == db.ids.componentName, COMPONENT_NAME_HANDLE), Flag(g == db.ids.devicePath, DEVICE_HANDLE));
    types[h] := w;
  }

  method OrIfSame(word: bv32, g: Guid, known: Guid, bits: bv32) returns (w: bv32)
    ensures w == Or(word, Flag(g == known, bits))
  {
    CompareGuidZero(g, known);
    OrNothing(word);
    w := if CompareGuid(g, known) == 0 then Or(word, bits) else word;
  }

  lemma OrSix(x: bv32, a: bv32, b: bv32, c: bv32, d: bv32, e: bv32, f: bv32)
    ensures Or(Or(Or(Or(Or(Or(x, a), b), c), d), e), f) == Or(x, Or(Or(Or(a, b), Or(c, d)), Or(e, f)))
  {
    hide Or;
    OrFour(x, a, b, c, d);
    var abcd := Or(Or(a, b), Or(c, d));
    OrAssociative(Or(x, abcd), e, f);
    OrAssociative(x, abcd, Or(e, f));
  }

  /** All protocols of one handle. */
  method ScanProtocols(types: array<bv32>, db: Database, q: Query, h: nat)
    requires types.Length == |db.handles| && h < |db.handles|
    requires q.driverIndex.Some? ==> q.driverIndex.value < |db.handles|
    modifies types
    ensures forall j :: 0 <= j < types.Length ==>
              types[j] == Or(old(types[j]), ProtocolsBits(db, q, h, |db.Protocols(db.handles[h])|, j))
  {
    hide Or, RecordsBits, ProtocolBits;
    var protocols := db.Protocols(db.handles[h]);
    ghost var was := types[..];
    forall x: bv32 ensures Or(x, 0) == x { OrNothing(x); }
    var i := 0;
    while i < |protocols|
      invariant 0 <= i <= |protocols|
      invariant forall j :: 0 <= j < types.Length ==> types[j] == Or(was[j], ProtocolsBits(db, q, h, i, j))
    {
      var g := protocols[i];
      MarkProtocol(types, db, h, g);
      ScanRecords(types, db, q, h, g);
      forall j | 0 <= j < types.Length
        ensures Or(Or(Or(was[j], ProtocolsBits(db, q, h, i, j)), Flag(j == h, ProtocolBits(db.ids, g))),
                   RecordsBits(db, q, h, g, |db.Opens(db.handles[h], g)|, j))
                == Or(was[j], ProtocolsBits(db, q, h, i + 1, j))
      {
        var p, f, r := ProtocolsBits(db, q, h, i, j), Flag(j == h, ProtocolBits(db.ids, g)),
                       RecordsBits(db, q, h, g, |db.Opens(db.handles[h], g)|, j);
        OrAssociative(Or(was[j], p), f, r);
        OrAssociative(was[j], p, Or(f, r));
      }
      i := i + 1;
    }
  }

  /** `at` is where `who` is in the handle list, when that was asked for. */
  ghost predicate IsIndex(db: Database, wanted: bool, who: Handle, at: Option<nat>) {
    match at
    case Some(i) => wanted && who != NULL && i < |db.handles| && db.handles[i] == who
    case None => !(wanted && who != NULL && who in db.handles)
  }

  method FindIndex(db: Database, wanted: bool, who: Handle) returns (at: Option<nat>)
    ensures IsIndex(db, wanted, who, at)
  {
    at := None;
    for i := 0 to |db.handles|
      invariant at.Some? ==> wanted && who != NULL && at.value < i && db.handles[at.value] == who
      invariant at.None? ==> !(wanted && who != NULL && who in db.handles[..i])
    {
      if who != NULL && wanted && db.handles[i] == who {
        at := Some(i);
      }
    }
    assert db.handles[..|db.handles|] == db.handles;
  }

  /** Fills in the type word of every handle. */
  method LibScanHandleDatabase(
    pool: Pool, db: Database, driver: Handle, wantDriver: bool, controller: Handle, wantController: bool)
    returns (status: Status, driverIndex: Option<nat>, controllerIndex: Option<nat>,
             handles: seq<Handle>, types: array?<bv32>)
    modifies pool
    ensures status == Success || status == OutOfResources
    ensures pool.failures == old(pool.failures) + if status == OutOfResources then 1 else 0
    ensures status == OutOfResources ==> types == null && handles == []
    ensures status == Success ==>
              && types != null && fresh(types) && handles == db.handles && types.Length == |handles|
              && IsIndex(db, wantDriver, driver, driverIndex)
              && IsIndex(db, wantController, controller, controllerIndex)
              && forall j :: 0 <= j < types.Length ==>
                   types[j] == TypeWord(db, Query(driver, controller, driverIndex), j)
  {
    driverIndex, controllerIndex, handles, types := None, None, [], null;
    var ok := pool.Allocate();
    if !ok {
      return OutOfResources, None, None, [], null;
    }
    ok := pool.Allocate();
    if !ok {
      return OutOfResources, None, None, [], null;
    }
    handles := db.handles;
    types := new bv32[|handles|](_ => 0);
    driverIndex := FindIndex(db, wantDriver, driver);
    controllerIndex := FindIndex(db, wantController, controller);
    ghost var q := Query(driver, controller, driverIndex);
    var h := 0;
    while h < |handles|
      invariant 0 <= h <= |handles| && fresh(types) && types.Length == |handles|
      invariant forall j :: 0 <= j < types.Length ==> types[j] == ScanBits(db, q, h, j)
      modifies types
    {
      hide Or, ProtocolsBits;
      ScanProtocols(types, db, Query(driver, controller, driverIndex), h);
      h := h + 1;
    }
    status := Success;
  }

  // ----- Selecting handles by mask

  /** The handles among the first `n` whose word has all bits of the mask, in database order. */
  ghost function Selected(db: Database, q: Query, mask: bv32, n: nat): seq<Handle>
    requires n <= |db.handles|
  {
    if n == 0 then []
    else Selected(db, q, mask, n - 1) + if HasAll(TypeWord(db, q, n - 1), mask) then [db.handles[n - 1]] else []
  }

  lemma {:induction false} SelectedGrows(db: Database, q: Query, mask: bv32, m: nat, n: nat)
    requires m <= n <= |db.handles|
    ensures |Selected(db, q, mask, m)| <= |Selected(db, q, mask, n)|
  {
    if m < n {
      SelectedGrows(db, q, mask, m, n - 1);
    }
  }

  /** `s` picks out entries of `handles` from left to right. */
  ghost predicate InOrder(handles: seq<Handle>, s: seq<Handle>) {
    exists at: seq<nat> :: PicksAt(handles, s, at)
  }

  ghost predicate PicksAt(handles: seq<Handle>, s: seq<Handle>, at: seq<nat>) {
    && |at| == |s|
    && (forall i, j :: 0 <= i < j < |at| ==> at[i] < at[j])
    && forall i :: 0 <= i < |at| ==> at[i] < |handles| && handles[at[i]] == s[i]
  }

  /** `s` lists the given handles, each once, in database order. */
  ghost predicate Lists(db: Database, s: seq<Handle>, members: set<Handle>) {
    && InOrder(db.handles, s)
    && NoDuplicates(s)
    && forall x :: x in s <==> x in members
  }

  ghost function SelectedSet(db: Database, q: Query, mask: bv32, n: nat): set<Handle>
    requires n <= |db.handles|
  {
    set j | 0 <= j < n && HasAll(TypeWord(db, q, j), mask) :: db.handles[j]
  }

  lemma {:induction false} SelectedPicks(db: Database, q: Query, mask: bv32, n: nat) returns (at: seq<nat>)
    requires n <= |db.handles|
    ensures PicksAt(db.handles, Selected(db, q, mask, n), at)
    ensures forall i :: 0 <= i < |at| ==> at[i] < n
    ensures forall x :: x in Selected(db, q, mask, n) <==> x in SelectedSet(db, q, mask, n)
  {
    hide HasAll, TypeWord;
    if n == 0 {
      return [];
    }
    at := SelectedPicks(db, q, mask, n - 1);
    if HasAll(TypeWord(db, q, n - 1), mask) {
      at := at + [n - 1];
    }
  }

  lemma SelectedLists(db: Database, q: Query, mask: bv32)
    requires db.Valid()
    ensures Lists(db, Selected(db, q, mask, |db.handles|), SelectedSet(db, q, mask, |db.handles|))
  {
    hide HasAll, TypeWord, Selected, SelectedSet;
    var s := Selected(db, q, mask, |db.handles|);
    var at := SelectedPicks(db, q, mask, |db.handles|);
    forall i, j | 0 <= i < j < |s|
      ensures s[i] != s[j]
    {
      assert at[i] < at[j];
    }
  }

  /** First pass: how many handles match. */
  method CountMatching(db: Database, q: Query, mask: bv32, types: seq<bv32>) returns (count: nat)
    requires |types| == |db.handles| && forall j :: 0 <= j < |types| ==> types[j] == TypeWord(db, q, j)
    ensures count == |Selected(db, q, mask, |db.handles|)|
  {
    hide HasAll, TypeWord;
    count := 0;
    for i := 0 to |types|
      invariant count == |Selected(db, q, mask, i)|
    {
      if HasAll(types[i], mask) {
        count := count + 1;
      }
    }
  }

  /** Second pass: fills exactly the slots the first pass counted. */
  method FillMatching(db: Database, q: Query, mask: bv32, types: seq<bv32>, buffer: array<Handle>) returns (count: nat)
    requires |types| == |db.handles| && forall j :: 0 <= j < |types| ==> types[j] == TypeWord(db, q, j)
    requires buffer.Length == |Selected(db, q, mask, |db.handles|)|
    modifies buffer
    ensures count == buffer.Length && buffer[..] == Selected(db, q, mask, |db.handles|)
  {
    hide HasAll, TypeWord;
    count := 0;
    for i := 0 to |types|
      invariant count == |Selected(db, q, mask, i)| && count <= buffer.Length
      invariant buffer[..count] == Selected(db, q, mask, i)
    {
      SelectedGrows(db, q, mask, i + 1, |types|);
      if HasAll(types[i], mask) {
        buffer[count] := db.handles[i];
        count := count + 1;
      }
    }
    assert buffer[..] == buffer[..count];
  }

  /** All handles whose type word has every bit of the mask. */
  method LibGetHandleDatabaseSubset(
    pool: Pool, db: Database, driver: Handle, controller: Handle, mask: bv32, wantBuffer: bool)
    returns (status: Status, count: nat, buffer: array?<Handle>)
    modifies pool
    ensures pool.failures == old(pool.failures) + if status == OutOfResources then 1 else 0
    ensures var chosen := Selected(db, Query(driver, controller, None), mask, |db.handles|);
            && (status == NotFound ==> count == 0 && chosen == [])
            && (status == Success ==> count == |chosen| > 0)
            && (status == Success && wantBuffer ==> buffer != null && fresh(buffer) && buffer[..] == chosen)
            && (buffer != null ==> status == Success && wantBuffer)
  {
    count, buffer := 0, null;
    var s, driverIndex, controllerIndex, handles, types :=
      LibScanHandleDatabase(pool, db, driver, false, controller, false);
    status := s;
    if status != Success {
      return;
    }
    hide HasAll, TypeWord, Selected;
    var q := Query(driver, controller, None);
    count := CountMatching(db, q, mask, types[..]);
    if count == 0 {
      return NotFound, 0, null;
    }
    if !wantBuffer {
      return Success, count, null;
    }
    var ok := pool.Allocate();
    if !ok {
      return OutOfResources, count, null;
    }
    buffer := new Handle[count];
    count := FillMatching(db, q, mask, types[..], buffer);
    status := Success;
  }

  // ----- The queries

  ghost function ManagingDrivers(db: Database, c: Handle): set<Handle> {
    set x | x in db.handles && ManagingDriver(db, x, c)
  }

  ghost function Parents(db: Database, c: Handle): set<Handle> {
    set x | x in db.handles && ParentOf(db, x, c)
  }

  ghost function ManagedControllers(db: Database, d: Handle): set<Handle> {
    set x | x in db.handles && d != NULL && ManagedBy(db, x, d)
  }

  ghost function ManagedChildren(db: Database, d: Handle, c: Handle): set<Handle> {
    set x | x in db.handles && d != NULL && ChildOf(db, x, d, c)
  }

  /** The children of `c` under any driver that manages it. */
  ghost function Children(db: Database, c: Handle): set<Handle> {
    set x, d | x in db.handles && d in ManagingDrivers(db, c) && ChildOf(db, x, d, c) :: x
  }

  /** Selecting by each mask selects the handles in the matching relation. */
  lemma SelectedSets(db: Database, driver: Handle, c: Handle)
    requires db.Valid()
    ensures var q, n := Query(driver, c, None), |db.handles|;
            && (driver == NULL ==> SelectedSet(db, q, MANAGING_DRIVER, n) == ManagingDrivers(db, c))
            && (driver == NULL ==> SelectedSet(db, q, PARENT_HANDLE, n) == Parents(db, c))
            && SelectedSet(db, q, MANAGED_CHILD, n) == ManagedChildren(db, driver, c)
            && SelectedSet(db, q, MANAGED_CONTROLLER, n) == ManagedControllers(db, driver)
  {
    hide HasAll, TypeWord, ManagingDriver, ParentOf, ManagedBy;
    var q, n := Query(driver, c, None), |db.handles|;
    forall j: nat | j < n
      ensures var x, w := db.handles[j], TypeWord(db, q, j);
              && (driver == NULL ==> (HasAll(w, MANAGING_DRIVER) <==> ManagingDriver(db, x, c)))
              && (driver == NULL ==> (HasAll(w, PARENT_HANDLE) <==> ParentOf(db, x, c)))
              && (HasAll(w, MANAGED_CHILD) <==> driver != NULL && ChildOf(db, x, driver, c))
              && (HasAll(w, MANAGED_CONTROLLER) <==> driver != NULL && ManagedBy(db, x, driver))
    {
      MaskMeaning(db, q, j);
    }
  }

  /** What a query reports: success with the listed handles, or that there are none. */
  ghost predicate Reports(db: Database, status: Status, count: nat, found: seq<Handle>, members: set<Handle>) {
    && (status == Success ==> count == |found| > 0 && Lists(db, found, members))
    && (status == NotFound ==> count == 0 && members == {})
  }

  lemma ReportsSelected(db: Database, q: Query, mask: bv32, status: Status, count: nat)
    requires db.Valid()
    requires var chosen := Selected(db, q, mask, |db.handles|);
             && (status == NotFound ==> count == 0 && chosen == [])
             && (status == Success ==> count == |chosen| > 0)
    ensures Reports(db, status, count, Selected(db, q, mask, |db.handles|), SelectedSet(db, q, mask, |db.handles|))
  {
    hide HasAll, TypeWord, Selected, SelectedSet;
    SelectedLists(db, q, mask);
    if status == NotFound {
      var all := SelectedSet(db, q, mask, |db.handles|);
      assert forall x :: x !in all;
    }
  }

  method LibGetManagingDriverBindingHandles(pool: Pool, db: Database, controller: Handle)
    returns (status: Status, count: nat, buffer: array?<Handle>)
    requires db.Valid()
    modifies pool
    ensures pool.failures == old(pool.failures) + if status == OutOfResources then 1 else 0
    ensures buffer != null <==> status == Success
    ensures Reports(db, status, count, if buffer == null then [] else buffer[..], ManagingDrivers(db, controller))
    ensures buffer != null ==> fresh(buffer)
  {
    hide Selected, SelectedSet, Lists, ManagingDrivers;
    status, count, buffer := LibGetHandleDatabaseSubset(pool, db, NULL, controller, MANAGING_DRIVER, true);
    ReportsSelected(db, Query(NULL, controller, None), MANAGING_DRIVER, status, count);
    SelectedSets(db, NULL, controller);
  }

  method LibGetParentControllerHandles(pool: Pool, db: Database, controller: Handle)
    returns (status: Status, count: nat, buffer: array?<Handle>)
    requires db.Valid()
    modifies pool
    ensures pool.failures == old(pool.failures) + if status == OutOfResources then 1 else 0
    ensures buffer != null <==> status == Success
    ensures Reports(db, status, count, if buffer == null then [] else buffer[..], Parents(db, controller))
  {
    hide Selected, SelectedSet, Lists, Parents;
    status, count, buffer := LibGetHandleDatabaseSubset(pool, db, NULL, controller, PARENT_HANDLE, true);
    ReportsSelected(db, Query(NULL, controller, None), PARENT_HANDLE, status, count);
    SelectedSets(db, NULL, controller);
  }

  method LibGetManagedChildControllerHandles(pool: Pool, db: Database, driver: Handle, controller: Handle)
    returns (status: Status, count: nat, buffer: array?<Handle>)
    requires db.Valid()
    modifies pool
    ensures pool.failures == old(pool.failures) + if status == OutOfResources then 1 else 0
    ensures buffer != null <==> status == Success
    ensures Reports(db, status, count, if buffer == null then [] else buffer[..],
                    ManagedChildren(db, driver, controller))
    ensures buffer != null ==> fresh(buffer)
  {
    hide Selected, SelectedSet, Lists, ManagedChildren;
    status, count, buffer := LibGetHandleDatabaseSubset(pool, db, driver, controller, MANAGED_CHILD, true);
    ReportsSelected(db, Query(driver, controller, None), MANAGED_CHILD, status, count);
    SelectedSets(db, driver, controller);
  }

  method LibGetManagedControllerHandles(pool: Pool, db: Database, driver: Handle)
    returns (status: Status, count: nat, buffer: array?<Handle>)
    requires db.Valid()
    modifies pool
    ensures pool.failures == old(pool.failures) + if status == OutOfResources then 1 else 0
    ensures buffer != null <==> status == Success
    ensures Reports(db, status, count, if buffer == null then [] else buffer[..], ManagedControllers(db, driver))
  {
    hide Selected, SelectedSet, Lists, ManagedControllers;
    status, count, buffer := LibGetHandleDatabaseSubset(pool, db, driver, NULL, MANAGED_CONTROLLER, true);
    ReportsSelected(db, Query(driver, NULL, None), MANAGED_CONTROLLER, status, count);
    SelectedSets(db, driver, NULL);
  }

  /** Appends `x` unless it is there.  The entries are distinct handles, so there is always room. */
  method AddNew(db: Database, buffer: array<Handle>, count: nat, x: Handle) returns (count': nat)
    requires db.Valid() && buffer.Length == |db.handles| && count <= buffer.Length
    requires NoDuplicates(buffer[..count]) && x in db.handles
    requires forall i :: 0 <= i < count ==> buffer[..count][i] in db.handles
    modifies buffer
    ensures count' <= buffer.Length && NoDuplicates(buffer[..count'])
    ensures forall i :: 0 <= i < count' ==> buffer[..count'][i] in db.handles
    ensures forall y :: y in buffer[..count'] <==> y == x || y in old(buffer[..count])
  {
    var found := false;
    for i := 0 to count
      invariant found <==> x in buffer[..i]
    {
      if buffer[i] == x {
        found := true;
      }
    }
    count' := count;
    if !found {
      ghost var entries := buffer[..count];
      Pigeonhole(entries + [x], db.handles);
      buffer[count'] := x;
      count' := count' + 1;
      assert buffer[..count'] == entries + [x];
    }
  }

  /** One driver's children, merged into the buffer. */
  method MergeChildren(db: Database, buffer: array<Handle>, count: nat, children: seq<Handle>) returns (count': nat)
    requires db.Valid() && buffer.Length == |db.handles| && count <= buffer.Length
    requires NoDuplicates(buffer[..count])
    requires forall i :: 0 <= i < count ==> buffer[..count][i] in db.handles
    requires forall i :: 0 <= i < |children| ==> children[i] in db.handles
    modifies buffer
    ensures count' <= buffer.Length && NoDuplicates(buffer[..count'])
    ensures forall i :: 0 <= i < count' ==> buffer[..count'][i] in db.handles
    ensures forall y :: y in buffer[..count'] <==> y in children || y in old(buffer[..count])
  {
    count' := count;
    for i := 0 to |children|
      invariant count' <= buffer.Length && NoDuplicates(buffer[..count'])
      invariant forall k :: 0 <= k < count' ==> buffer[..count'][k] in db.handles
      invariant forall y :: y in buffer[..count'] <==> y in children[..i] || y in old(buffer[..count])
    {
      count' := AddNew(db, buffer, count', children[i]);
      assert children[..i + 1] == children[..i] + [children[i]];
    }
    assert children[..|children|] == children;
  }

  /** The children of `c` under the first `n` of the given drivers. */
  ghost function ChildrenUnder(db: Database, c: Handle, drivers: seq<Handle>): set<Handle> {
    set x, i | x in db.handles && 0 <= i < |drivers| && x in ManagedChildren(db, drivers[i], c) :: x
  }

  lemma ChildrenUnderAll(db: Database, c: Handle, drivers: seq<Handle>)
    requires db.Valid() && Lists(db, drivers, ManagingDrivers(db, c))
    ensures ChildrenUnder(db, c, drivers) == Children(db, c)
  {}

  lemma ChildrenUnderStep(db: Database, c: Handle, drivers: seq<Handle>, i: nat)
    requires i < |drivers|
    ensures ChildrenUnder(db, c, drivers[..i + 1]) ==
            ChildrenUnder(db, c, drivers[..i]) + ManagedChildren(db, drivers[i], c)
  {}

  /** Every child under driver `d` is in the list. */
  ghost predicate Covers(db: Database, s: seq<Handle>, d: Handle, c: Handle) {
    forall x :: x in ManagedChildren(db, d, c) ==> x in s
  }

  /** The children of a controller under all the drivers that manage it, each once.  A query that runs out of
      memory is passed over: `missed` are those drivers, one for each failed allocation at most, and the
      children of all the others are there. */
  method LibGetChildControllerHandles(pool: Pool, db: Database, controller: Handle)
    returns (status: Status, count: nat, buffer: array?<Handle>, ghost missed: set<Handle>)
    requires db.Valid()
    modifies pool
    ensures status == NotFound ==> ManagingDrivers(db, controller) == {}
    ensures status == Success ==> ManagingDrivers(db, controller) != {}
    ensures status == OutOfResources ==> pool.failures > old(pool.failures)
    ensures pool.failures == old(pool.failures) ==> (status == NotFound <==> ManagingDrivers(db, controller) == {})
    ensures status != Success ==> count == 0
    ensures buffer != null <==> status == Success
    ensures status == Success ==>
              && buffer.Length == |db.handles| && count <= buffer.Length
              && NoDuplicates(buffer[..count])
              && (forall x :: x in buffer[..count] ==> x in Children(db, controller))
              && |missed| <= pool.failures - old(pool.failures)
              && (forall d :: d in ManagingDrivers(db, controller) - missed ==>
                    Covers(db, buffer[..count], d, controller))
    ensures status == Success && pool.failures == old(pool.failures) ==>
              forall x :: x in Children(db, controller) ==> x in buffer[..count]
  {
    hide Lists, Children, ManagingDrivers, ManagedChildren, ChildrenUnder, Covers;
    count, buffer, missed := 0, null, {};
    var s, driverCount, drivers := LibGetManagingDriverBindingHandles(pool, db, controller);
    status := s;
    if status != Success {
      return;
    }
    var ok := pool.Allocate();
    if !ok {
      return OutOfResources, 0, null, {};
    }
    var all := drivers[..];
    ChildrenUnderAll(db, controller, all);
    ListedHandles(db, all, ManagingDrivers(db, controller));
    SomeListed(db, all, ManagingDrivers(db, controller));
    buffer := new Handle[|db.handles|];
    NoChildren(db, controller, all);
    for i := 0 to |all|
      invariant fresh(buffer) && buffer.Length == |db.handles| && count <= buffer.Length
      invariant NoDuplicates(buffer[..count])
      invariant forall k :: 0 <= k < count ==> buffer[..count][k] in db.handles
      invariant forall x :: x in buffer[..count] ==> x in ChildrenUnder(db, controller, all[..i])
      invariant |missed| <= pool.failures - old(pool.failures)
      invariant forall k :: 0 <= k < i ==> all[k] in missed || Covers(db, buffer[..count], all[k], controller)
    {
      var s2, childCount, children := LibGetManagedChildControllerHandles(pool, db, all[i], controller);
      ChildrenUnderStep(db, controller, all, i);
      if s2 == OutOfResources {
        missed := missed + {all[i]};
      }
      if s2 != Success {
        NothingToCover(db, buffer[..count], all[i], controller);
        continue;
      }
      ListedHandles(db, children[..], ManagedChildren(db, all[i], controller));
      ghost var held := buffer[..count];
      count := MergeChildren(db, buffer, count, children[..]);
      MergeCovers(db, held, buffer[..count], children[..], all[i], controller);
    }
    assert all[..|all|] == all;
    CoversAll(db, buffer[..count], all, missed, controller);
    status := Success;
  }

  lemma NothingToCover(db: Database, s: seq<Handle>, d: Handle, c: Handle)
    ensures ManagedChildren(db, d, c) == {} ==> Covers(db, s, d, c)
  {}

  lemma MergeCovers(db: Database, was: seq<Handle>, now: seq<Handle>, children: seq<Handle>, d: Handle, c: Handle)
    requires forall x :: x in was || x in children ==> x in now
    requires forall x :: x in ManagedChildren(db, d, c) ==> x in children
    ensures Covers(db, now, d, c)
    ensures forall e :: Covers(db, was, e, c) ==> Covers(db, now, e, c)
  {}

  lemma CoversAll(db: Database, s: seq<Handle>, drivers: seq<Handle>, missed: set<Handle>, c: Handle)
    requires forall x :: x in drivers <==> x in ManagingDrivers(db, c)
    requires forall k :: 0 <= k < |drivers| ==> drivers[k] in missed || Covers(db, s, drivers[k], c)
    ensures forall d :: d in ManagingDrivers(db, c) - missed ==> Covers(db, s, d, c)
    ensures missed == {} && ChildrenUnder(db, c, drivers) == Children(db, c) ==>
              forall x :: x in Children(db, c) ==> x in s
  {
    hide Children;
    forall d | d in ManagingDrivers(db, c) - missed
      ensures Covers(db, s, d, c)
    {
      assert d in drivers;
    }
  }

  lemma SomeListed(db: Database, s: seq<Handle>, members: set<Handle>)
    requires Lists(db, s, members) && s != []
    ensures members != {}
  {
    assert s[0] in members;
  }

  lemma ListedHandles(db: Database, s: seq<Handle>, members: set<Handle>)
    requires Lists(db, s, members)
    ensures forall i :: 0 <= i < |s| ==> s[i] in db.handles
    ensures forall x :: x in s <==> x in members
  {}

  lemma NoChildren(db: Database, c: Handle, drivers: seq<Handle>)
    ensures ChildrenUnder(db, c, drivers[..0]) == {}
  {}
}
