/** Handles, their protocols and who has opened them, and the roles LIB/misc.c reads off them. */
module HandleDatabase {
  import opened EfiBase

  // ----- 32-bit words

  function Sub(x: bv32, y: bv32): bv32 { x - y }
  function Or(x: bv32, y: bv32): bv32 { x | y }
  function And(x: bv32, y: bv32): bv32 { x & y }

  /** Some bit of `bits` is set in the word. */
  predicate Has(word: bv32, bits: bv32) { And(word, bits) != 0 }

  /** All bits of `mask` are set in the word: the test of the source. */
  predicate HasAll(word: bv32, mask: bv32) { And(word, mask) == mask }

  lemma SubZero(x: bv32, y: bv32)
    ensures Sub(x, y) == 0 <==> x == y
  {
    if x - y == 0 {
      assert (x - y) + y == x;
    }
  }

  lemma OrZero(x: bv32, y: bv32)
    ensures Or(x, y) == 0 <==> x == 0 && y == 0
  {}

  lemma OrHas(x: bv32, y: bv32, b: bv32)
    ensures Has(Or(x, y), b) <==> Has(x, b) || Has(y, b)
  {
    hide Or, And;
    AndOverOr(x, y, b);
    OrZero(And(x, b), And(y, b));
  }

  lemma AndOverOr(x: bv32, y: bv32, b: bv32)
    ensures And(Or(x, y), b) == Or(And(x, b), And(y, b))
  {}

  lemma OrAssociative(x: bv32, y: bv32, z: bv32)
    ensures Or(Or(x, y), z) == Or(x, Or(y, z))
  {}

  lemma OrNothing(x: bv32)
    ensures Or(x, 0) == x && Or(0, x) == x
  {}

  lemma NothingHas(b: bv32)
    ensures !Has(0, b)
  {}

  /** A GUID as RtCompareGuid sees it: four 32-bit words. */
  datatype Guid = Guid(w0: bv32, w1: bv32, w2: bv32, w3: bv32)

  /** RtCompareGuid: the differences of the words, combined. */
  function CompareGuid(a: Guid, b: Guid): bv32 {
    Or(Or(Or(Sub(a.w0, b.w0), Sub(a.w1, b.w1)), Sub(a.w2, b.w2)), Sub(a.w3, b.w3))
  }

  /** It is zero exactly for equal GUIDs. */
  lemma CompareGuidZero(a: Guid, b: Guid)
    ensures CompareGuid(a, b) == 0 <==> a == b
  {
    hide Or, Sub;
    SubZero(a.w0, b.w0);
    SubZero(a.w1, b.w1);
    SubZero(a.w2, b.w2);
    SubZero(a.w3, b.w3);
    OrZero(Sub(a.w0, b.w0), Sub(a.w1, b.w1));
    OrZero(Or(Sub(a.w0, b.w0), Sub(a.w1, b.w1)), Sub(a.w2, b.w2));
    OrZero(Or(Or(Sub(a.w0, b.w0), Sub(a.w1, b.w1)), Sub(a.w2, b.w2)), Sub(a.w3, b.w3));
  }

  const BY_CHILD_CONTROLLER: bv32 := 0x08
  const BY_DRIVER: bv32 := 0x10

  const IMAGE_HANDLE: bv32 := 0x001
  const DRIVER_BINDING_HANDLE: bv32 := 0x002
  const DEVICE_DRIVER: bv32 := 0x004
  const BUS_DRIVER: bv32 := 0x008
  const DRIVER_CONFIGURATION_HANDLE: bv32 := 0x010
  const DRIVER_DIAGNOSTICS_HANDLE: bv32 := 0x020
  const COMPONENT_NAME_HANDLE: bv32 := 0x040
  const DEVICE_HANDLE: bv32 := 0x080
  const PARENT_HANDLE: bv32 := 0x100
  const CONTROLLER_HANDLE: bv32 := 0x200
  const CHILD_HANDLE: bv32 := 0x400

  /** One EFI_OPEN_PROTOCOL_INFORMATION_ENTRY. */
  datatype OpenRecord = OpenRecord(agent: Handle, controller: Handle, attributes: bv32) {
    predicate ByDriver() { HasAll(attributes, BY_DRIVER) }
    predicate ByChild() { HasAll(attributes, BY_CHILD_CONTROLLER) }
  }

  /** The protocols that say what a handle is. */
  datatype ProtocolIds = ProtocolIds(
    loadedImage: Guid, driverBinding: Guid, driverConfiguration: Guid,
    driverDiagnostics: Guid, componentName: Guid, devicePath: Guid)

  /** What the boot services answer.  A handle without protocols, or a protocol without open records,
      in the maps is one the service reports an error for. */
  datatype Database = Database(
    ids: ProtocolIds,
    handles: seq<Handle>,
    protocols: map<Handle, seq<Guid>>,
    opens: map<(Handle, Guid), seq<OpenRecord>>)
  {
    ghost predicate Valid() { NoDuplicates(handles) && NULL !in handles }

    function Protocols(h: Handle): seq<Guid> { if h in protocols then protocols[h] else [] }
    function Opens(h: Handle, g: Guid): seq<OpenRecord> { if (h, g) in opens then opens[(h, g)] else [] }
  }

  /** A scan: the driver and controller asked about, and the driver's index when that is asked for. */
  datatype Query = Query(driver: Handle, controller: Handle, driverIndex: Option<nat>)

  // ----- What the scan adds to the type word of handle `j`

  function Flag(on: bool, bits: bv32): bv32 { if on then bits else 0 }

  /** What a protocol on a handle makes of it. */
  function ProtocolBits(ids: ProtocolIds, g: Guid): bv32 {
    Or(Or(Or(Flag(g == ids.loadedImage, IMAGE_HANDLE), Flag(g == ids.driverBinding, DRIVER_BINDING_HANDLE)),
          Or(Flag(g == ids.driverConfiguration, DRIVER_CONFIGURATION_HANDLE),
             Flag(g == ids.driverDiagnostics, DRIVER_DIAGNOSTICS_HANDLE))),
       Or(Flag(g == ids.componentName, COMPONENT_NAME_HANDLE), Flag(g == ids.devicePath, DEVICE_HANDLE)))
  }

  /** The driver asked about has opened a protocol on handle `h`. */
  function AgentBits(db: Database, q: Query, h: nat, r: OpenRecord, j: nat): bv32
    requires h < |db.handles| && j < |db.handles|
  {
    Or(Or(Flag(r.ByDriver() && j == h, DEVICE_HANDLE | CONTROLLER_HANDLE),
          Flag(r.ByDriver() && q.driverIndex == Some(j), DEVICE_DRIVER)),
       Or(Flag(r.ByChild() && q.driverIndex == Some(j), BUS_DRIVER),
          Flag(q.controller != NULL && db.handles[h] == q.controller && r.ByChild() && db.handles[j] == r.controller,
               DEVICE_HANDLE | CHILD_HANDLE)))
  }

  /** Some driver has opened a protocol on handle `h` for the controller asked about. */
  function ControllerBits(db: Database, h: nat, r: OpenRecord, j: nat): bv32
    requires h < |db.handles| && j < |db.handles|
  {
    Or(Or(Flag(r.ByDriver() && db.handles[j] == r.agent, DEVICE_DRIVER), Flag(r.ByChild() && j == h, PARENT_HANDLE)),
       Flag(r.ByChild() && db.handles[j] == r.agent, BUS_DRIVER))
  }

  function RecordBits(db: Database, q: Query, h: nat, r: OpenRecord, j: nat): bv32
    requires h < |db.handles| && j < |db.handles|
  {
    if q.driver != NULL && r.agent == q.driver then AgentBits(db, q, h, r, j)
    else if q.driver == NULL && r.controller == q.controller then ControllerBits(db, h, r, j)
    else 0
  }

  /** The first `n` open records of protocol `g` on handle `h`. */
  function RecordsBits(db: Database, q: Query, h: nat, g: Guid, n: nat, j: nat): bv32
    requires h < |db.handles| && j < |db.handles| && n <= |db.Opens(db.handles[h], g)|
  {
    if n == 0 then 0
    else Or(RecordsBits(db, q, h, g, n - 1, j), RecordBits(db, q, h, db.Opens(db.handles[h], g)[n - 1], j))
  }

  /** One protocol of handle `h`: what it is, and who has opened it. */
  function OneProtocolBits(db: Database, q: Query, h: nat, g: Guid, j: nat): bv32
    requires h < |db.handles| && j < |db.handles|
  {
    Or(Flag(j == h, ProtocolBits(db.ids, g)), RecordsBits(db, q, h, g, |db.Opens(db.handles[h], g)|, j))
  }

  /** The first `n` protocols of handle `h`. */
  function ProtocolsBits(db: Database, q: Query, h: nat, n: nat, j: nat): bv32
    requires h < |db.handles| && j < |db.handles| && n <= |db.Protocols(db.handles[h])|
  {
    if n == 0 then 0
    else Or(ProtocolsBits(db, q, h, n - 1, j), OneProtocolBits(db, q, h, db.Protocols(db.handles[h])[n - 1], j))
  }

  /** The first `n` handles. */
  function ScanBits(db: Database, q: Query, n: nat, j: nat): bv32
    requires n <= |db.handles| && j < |db.handles|
  {
    if n == 0 then 0
    else Or(ScanBits(db, q, n - 1, j), ProtocolsBits(db, q, n - 1, |db.Protocols(db.handles[n - 1])|, j))
  }

  // ----- A bit is set exactly when some protocol or open record sets it

  lemma {:induction false} RecordsBitIff(db: Database, q: Query, h: nat, g: Guid, n: nat, j: nat, b: bv32)
    requires h < |db.handles| && j < |db.handles| && n <= |db.Opens(db.handles[h], g)|
    ensures Has(RecordsBits(db, q, h, g, n, j), b) <==>
            exists r :: 0 <= r < n && Has(RecordBits(db, q, h, db.Opens(db.handles[h], g)[r], j), b)
  {
    hide RecordBits, Has, Or;
    NothingHas(b);
    if n > 0 {
      RecordsBitIff(db, q, h, g, n - 1, j, b);
      OrHas(RecordsBits(db, q, h, g, n - 1, j), RecordBits(db, q, h, db.Opens(db.handles[h], g)[n - 1], j), b);
    }
  }

  /** Protocol `p` of handle `h` puts bit `b` on handle `j`, by what it is or by an open record. */
  ghost predicate Contributes(db: Database, q: Query, h: nat, p: nat, j: nat, b: bv32)
    requires h < |db.handles| && j < |db.handles| && p < |db.Protocols(db.handles[h])|
  {
    var g := db.Protocols(db.handles[h])[p];
    || (j == h && Has(ProtocolBits(db.ids, g), b))
    || exists r :: 0 <= r < |db.Opens(db.handles[h], g)| &&
         Has(RecordBits(db, q, h, db.Opens(db.handles[h], g)[r], j), b)
  }

  lemma OneProtocolBitIff(db: Database, q: Query, h: nat, p: nat, j: nat, b: bv32)
    requires h < |db.handles| && j < |db.handles| && p < |db.Protocols(db.handles[h])|
    ensures Has(OneProtocolBits(db, q, h, db.Protocols(db.handles[h])[p], j), b) <==> Contributes(db, q, h, p, j, b)
  {
    hide RecordBits, ProtocolBits, RecordsBits, Has, Or;
    NothingHas(b);
    var g := db.Protocols(db.handles[h])[p];
    var n := |db.Opens(db.handles[h], g)|;
    RecordsBitIff(db, q, h, g, n, j, b);
    OrHas(Flag(j == h, ProtocolBits(db.ids, g)), RecordsBits(db, q, h, g, n, j), b);
  }

  lemma {:induction false} ProtocolsBitIff(db: Database, q: Query, h: nat, n: nat, j: nat, b: bv32)
    requires h < |db.handles| && j < |db.handles| && n <= |db.Protocols(db.handles[h])|
    ensures Has(ProtocolsBits(db, q, h, n, j), b) <==> exists p :: 0 <= p < n && Contributes(db, q, h, p, j, b)
  {
    hide OneProtocolBits, Contributes, Has, Or;
    NothingHas(b);
    if n > 0 {
      ProtocolsBitIff(db, q, h, n - 1, j, b);
      OneProtocolBitIff(db, q, h, n - 1, j, b);
      OrHas(ProtocolsBits(db, q, h, n - 1, j), OneProtocolBits(db, q, h, db.Protocols(db.handles[h])[n - 1], j), b);
    }
  }

  /** Some protocol of one of the first `n` handles puts bit `b` on handle `j`. */
  ghost predicate SomeContributes(db: Database, q: Query, n: nat, j: nat, b: bv32)
    requires n <= |db.handles| && j < |db.handles|
  {
    exists h, p :: 0 <= h < n && 0 <= p < |db.Protocols(db.handles[h])| && Contributes(db, q, h, p, j, b)
  }

  lemma {:induction false} ScanBitIff(db: Database, q: Query, n: nat, j: nat, b: bv32)
    requires n <= |db.handles| && j < |db.handles|
    ensures Has(ScanBits(db, q, n, j), b) <==> SomeContributes(db, q, n, j, b)
  {
    hide ProtocolsBits, Contributes, Has, Or;
    NothingHas(b);
    if n > 0 {
      var all := |db.Protocols(db.handles[n - 1])|;
      ScanBitIff(db, q, n - 1, j, b);
      ProtocolsBitIff(db, q, n - 1, all, j, b);
      OrHas(ScanBits(db, q, n - 1, j), ProtocolsBits(db, q, n - 1, all, j), b);
      if SomeContributes(db, q, n, j, b) {
        var h, p :| 0 <= h < n && 0 <= p < |db.Protocols(db.handles[h])| && Contributes(db, q, h, p, j, b);
        assert h < n - 1 ==> SomeContributes(db, q, n - 1, j, b);
      }
    }
  }

  // ----- The roles, as relations

  /** `r` is an open record of some protocol on `h`. */
  ghost predicate OpenOn(db: Database, h: Handle, r: OpenRecord) {
    exists g :: g in db.Protocols(h) && r in db.Opens(h, g)
  }

  /** The bit comes from a protocol of the handle itself, or from an open record anywhere. */
  ghost predicate FromProtocol(db: Database, j: nat, b: bv32)
    requires j < |db.handles|
  {
    exists g :: g in db.Protocols(db.handles[j]) && Has(ProtocolBits(db.ids, g), b)
  }

  ghost predicate FromRecord(db: Database, q: Query, j: nat, b: bv32)
    requires j < |db.handles|
  {
    exists h: nat, r :: h < |db.handles| && OpenOn(db, db.handles[h], r) && Has(RecordBits(db, q, h, r, j), b)
  }

  function TypeWord(db: Database, q: Query, j: nat): bv32
    requires j < |db.handles|
  {
    ScanBits(db, q, |db.handles|, j)
  }

  lemma WordHas(db: Database, q: Query, j: nat, b: bv32)
    requires j < |db.handles|
    ensures Has(TypeWord(db, q, j), b) <==> FromProtocol(db, j, b) || FromRecord(db, q, j, b)
  {
    hide Has, ScanBits, ProtocolBits, RecordBits;
    var n := |db.handles|;
    ScanBitIff(db, q, n, j, b);
    if SomeContributes(db, q, n, j, b) {
      var h: nat, p: nat :| h < n && p < |db.Protocols(db.handles[h])| && Contributes(db, q, h, p, j, b);
      ContributionSource(db, q, h, p, j, b);
    }
    if FromProtocol(db, j, b) {
      var g :| g in db.Protocols(db.handles[j]) && Has(ProtocolBits(db.ids, g), b);
      var p: nat :| p < |db.Protocols(db.handles[j])| && db.Protocols(db.handles[j])[p] == g;
      assert Contributes(db, q, j, p, j, b);
    }
    if FromRecord(db, q, j, b) {
      var h: nat, r :| h < n && OpenOn(db, db.handles[h], r) && Has(RecordBits(db, q, h, r, j), b);
      var g :| g in db.Protocols(db.handles[h]) && r in db.Opens(db.handles[h], g);
      var p: nat :| p < |db.Protocols(db.handles[h])| && db.Protocols(db.handles[h])[p] == g;
      var i: nat :| i < |db.Opens(db.handles[h], g)| && db.Opens(db.handles[h], g)[i] == r;
      assert Contributes(db, q, h, p, j, b);
    }
  }

  lemma ContributionSource(db: Database, q: Query, h: nat, p: nat, j: nat, b: bv32)
    requires h < |db.handles| && j < |db.handles| && p < |db.Protocols(db.handles[h])|
    requires Contributes(db, q, h, p, j, b)
    ensures FromProtocol(db, j, b) || FromRecord(db, q, j, b)
  {
    hide Has, ProtocolBits, RecordBits;
    var g := db.Protocols(db.handles[h])[p];
    assert g in db.Protocols(db.handles[h]);
    if !(j == h && Has(ProtocolBits(db.ids, g), b)) {
      var i: nat :| i < |db.Opens(db.handles[h], g)| && Has(RecordBits(db, q, h, db.Opens(db.handles[h], g)[i], j), b);
      assert OpenOn(db, db.handles[h], db.Opens(db.handles[h], g)[i]);
    }
  }

  lemma FlagHas(on: bool, bits: bv32, b: bv32)
    ensures Has(Flag(on, bits), b) <==> on && Has(bits, b)
  {}

  lemma AgentBitsHas(db: Database, q: Query, h: nat, r: OpenRecord, j: nat, b: bv32)
    requires h < |db.handles| && j < |db.handles|
    ensures Has(AgentBits(db, q, h, r, j), b) <==>
            || (r.ByDriver() && j == h && Has(DEVICE_HANDLE | CONTROLLER_HANDLE, b))
            || (r.ByDriver() && q.driverIndex == Some(j) && Has(DEVICE_DRIVER, b))
            || (r.ByChild() && q.driverIndex == Some(j) && Has(BUS_DRIVER, b))
            || (q.controller != NULL && db.handles[h] == q.controller && r.ByChild() && db.handles[j] == r.controller
                && Has(DEVICE_HANDLE | CHILD_HANDLE, b))
  {
    hide Has, Or, Flag, HasAll;
    var child := q.controller != NULL && db.handles[h] == q.controller && r.ByChild() && db.handles[j] == r.controller;
    var f0 := Flag(r.ByDriver() && j == h, DEVICE_HANDLE | CONTROLLER_HANDLE);
    var f1 := Flag(r.ByDriver() && q.driverIndex == Some(j), DEVICE_DRIVER);
    var f2 := Flag(r.ByChild() && q.driverIndex == Some(j), BUS_DRIVER);
    var f3 := Flag(child, DEVICE_HANDLE | CHILD_HANDLE);
    FlagHas(r.ByDriver() && j == h, DEVICE_HANDLE | CONTROLLER_HANDLE, b);
    FlagHas(r.ByDriver() && q.driverIndex == Some(j), DEVICE_DRIVER, b);
    FlagHas(r.ByChild() && q.driverIndex == Some(j), BUS_DRIVER, b);
    FlagHas(child, DEVICE_HANDLE | CHILD_HANDLE, b);
    OrHas(f0, f1, b);
    OrHas(f2, f3, b);
    OrHas(Or(f0, f1), Or(f2, f3), b);
  }

  lemma ControllerBitsHas(db: Database, h: nat, r: OpenRecord, j: nat, b: bv32)
    requires h < |db.handles| && j < |db.handles|
    ensures Has(ControllerBits(db, h, r, j), b) <==>
            || (r.ByDriver() && db.handles[j] == r.agent && Has(DEVICE_DRIVER, b))
            || (r.ByChild() && j == h && Has(PARENT_HANDLE, b))
            || (r.ByChild() && db.handles[j] == r.agent && Has(BUS_DRIVER, b))
  {}
}
