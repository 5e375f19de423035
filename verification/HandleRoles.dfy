/** What each role bit of the handle scan means, as a relation over handles, protocols and open records. */
module HandleRoles {
  import opened EfiBase
  import opened HandleDatabase

  /** Handle `x` is the agent of an open record, on any handle, made for controller `c`. */
  ghost predicate AgentFor(db: Database, x: Handle, c: Handle, byDriver: bool) {
    exists h, r :: h in db.handles && OpenOn(db, h, r) && r.controller == c && r.agent == x
                && if byDriver then r.ByDriver() else r.ByChild()
  }

  /** `x` carries the driver binding protocol and has opened something BY_DRIVER for `c`. */
  ghost predicate ManagingDriver(db: Database, x: Handle, c: Handle) {
    db.ids.driverBinding in db.Protocols(x) && AgentFor(db, x, c, true)
  }

  /** A protocol of `x` has been opened BY_CHILD_CONTROLLER for `c`. */
  ghost predicate ParentOf(db: Database, x: Handle, c: Handle) {
    exists r :: OpenOn(db, x, r) && r.controller == c && r.ByChild()
  }

  /** Driver `d` has opened a protocol of `x` BY_DRIVER. */
  ghost predicate ManagedBy(db: Database, x: Handle, d: Handle) {
    exists r :: OpenOn(db, x, r) && r.agent == d && r.ByDriver()
  }

  /** Driver `d` has opened a protocol of controller `c` BY_CHILD_CONTROLLER for `x`. */
  ghost predicate ChildOf(db: Database, x: Handle, d: Handle, c: Handle) {
    c in db.handles && exists r :: OpenOn(db, c, r) && r.agent == d && r.ByChild() && r.controller == x
  }

  /** Driver `d` has opened some protocol, on any handle. */
  ghost predicate HasOpened(db: Database, d: Handle, byDriver: bool) {
    exists h, r :: h in db.handles && OpenOn(db, h, r) && r.agent == d && if byDriver then r.ByDriver() else r.ByChild()
  }

  lemma NoProtocolSets(db: Database, j: nat, b: bv32)
    requires j < |db.handles| && b in {DEVICE_DRIVER, BUS_DRIVER, PARENT_HANDLE, CONTROLLER_HANDLE, CHILD_HANDLE}
    ensures !FromProtocol(db, j, b)
  {}

  /** A bit is set on a handle by the protocol that stands for it. */
  lemma ProtocolSets(db: Database, j: nat, b: bv32, g: Guid)
    requires j < |db.handles|
    requires || (b == IMAGE_HANDLE && g == db.ids.loadedImage)
             || (b == DRIVER_BINDING_HANDLE && g == db.ids.driverBinding)
             || (b == DRIVER_CONFIGURATION_HANDLE && g == db.ids.driverConfiguration)
             || (b == DRIVER_DIAGNOSTICS_HANDLE && g == db.ids.driverDiagnostics)
             || (b == COMPONENT_NAME_HANDLE && g == db.ids.componentName)
             || (b == DEVICE_HANDLE && g == db.ids.devicePath)
    ensures FromProtocol(db, j, b) <==> g in db.Protocols(db.handles[j])
  {}

  lemma ChildRole(db: Database, q: Query, j: nat)
    requires j < |db.handles| && q.driver != NULL
    ensures Has(TypeWord(db, q, j), CHILD_HANDLE) <==>
            q.controller != NULL && ChildOf(db, db.handles[j], q.driver, q.controller)
  {
    hide TypeWord, AgentBits, ControllerBits;
    WordHas(db, q, j, CHILD_HANDLE);
    NoProtocolSets(db, j, CHILD_HANDLE);
    forall h: nat, r | h < |db.handles|
      ensures Has(RecordBits(db, q, h, r, j), CHILD_HANDLE) <==>
              r.agent == q.driver && q.controller != NULL && db.handles[h] == q.controller && r.ByChild()
              && db.handles[j] == r.controller
    {
      AgentBitsHas(db, q, h, r, j, CHILD_HANDLE);
    }
  }

  lemma ControllerRole(db: Database, q: Query, j: nat)
    requires db.Valid() && j < |db.handles| && q.driver != NULL
    ensures Has(TypeWord(db, q, j), CONTROLLER_HANDLE) <==> ManagedBy(db, db.handles[j], q.driver)
  {
    hide TypeWord, AgentBits, ControllerBits;
    WordHas(db, q, j, CONTROLLER_HANDLE);
    NoProtocolSets(db, j, CONTROLLER_HANDLE);
    forall h: nat, r | h < |db.handles|
      ensures Has(RecordBits(db, q, h, r, j), CONTROLLER_HANDLE) <==> r.agent == q.driver && r.ByDriver() && j == h
    {
      AgentBitsHas(db, q, h, r, j, CONTROLLER_HANDLE);
    }
  }

  /** With a driver asked about, its own bits go to the index asked for. */
  lemma OwnDriverRoles(db: Database, q: Query, j: nat)
    requires j < |db.handles| && q.driver != NULL
    ensures Has(TypeWord(db, q, j), DEVICE_DRIVER) <==> q.driverIndex == Some(j) && HasOpened(db, q.driver, true)
    ensures Has(TypeWord(db, q, j), BUS_DRIVER) <==> q.driverIndex == Some(j) && HasOpened(db, q.driver, false)
    ensures !Has(TypeWord(db, q, j), PARENT_HANDLE)
  {
    hide TypeWord, AgentBits, ControllerBits;
    WordHas(db, q, j, DEVICE_DRIVER);
    WordHas(db, q, j, BUS_DRIVER);
    WordHas(db, q, j, PARENT_HANDLE);
    NoProtocolSets(db, j, DEVICE_DRIVER);
    NoProtocolSets(db, j, BUS_DRIVER);
    NoProtocolSets(db, j, PARENT_HANDLE);
    forall h: nat, r | h < |db.handles|
      ensures Has(RecordBits(db, q, h, r, j), DEVICE_DRIVER) <==>
              r.agent == q.driver && r.ByDriver() && q.driverIndex == Some(j)
      ensures Has(RecordBits(db, q, h, r, j), BUS_DRIVER) <==>
              r.agent == q.driver && r.ByChild() && q.driverIndex == Some(j)
      ensures !Has(RecordBits(db, q, h, r, j), PARENT_HANDLE)
    {
      AgentBitsHas(db, q, h, r, j, DEVICE_DRIVER);
      AgentBitsHas(db, q, h, r, j, BUS_DRIVER);
      AgentBitsHas(db, q, h, r, j, PARENT_HANDLE);
    }
  }

  /** Without a driver, the bits of drivers and parents are about the controller asked for. */
  lemma ControllerQueryRoles(db: Database, q: Query, j: nat)
    requires db.Valid() && j < |db.handles| && q.driver == NULL
    ensures Has(TypeWord(db, q, j), DEVICE_DRIVER) <==> AgentFor(db, db.handles[j], q.controller, true)
    ensures Has(TypeWord(db, q, j), BUS_DRIVER) <==> AgentFor(db, db.handles[j], q.controller, false)
    ensures Has(TypeWord(db, q, j), PARENT_HANDLE) <==> ParentOf(db, db.handles[j], q.controller)
    ensures !Has(TypeWord(db, q, j), CONTROLLER_HANDLE) && !Has(TypeWord(db, q, j), CHILD_HANDLE)
  {
    hide TypeWord, AgentBits, ControllerBits;
    WordHas(db, q, j, DEVICE_DRIVER);
    WordHas(db, q, j, BUS_DRIVER);
    WordHas(db, q, j, PARENT_HANDLE);
    WordHas(db, q, j, CONTROLLER_HANDLE);
    WordHas(db, q, j, CHILD_HANDLE);
    NoProtocolSets(db, j, DEVICE_DRIVER);
    NoProtocolSets(db, j, BUS_DRIVER);
    NoProtocolSets(db, j, PARENT_HANDLE);
    NoProtocolSets(db, j, CONTROLLER_HANDLE);
    NoProtocolSets(db, j, CHILD_HANDLE);
    forall h: nat, r | h < |db.handles|
      ensures Has(RecordBits(db, q, h, r, j), DEVICE_DRIVER) <==>
              r.controller == q.controller && r.ByDriver() && db.handles[j] == r.agent
      ensures Has(RecordBits(db, q, h, r, j), BUS_DRIVER) <==>
              r.controller == q.controller && r.ByChild() && db.handles[j] == r.agent
      ensures Has(RecordBits(db, q, h, r, j), PARENT_HANDLE) <==> r.controller == q.controller && r.ByChild() && j == h
      ensures !Has(RecordBits(db, q, h, r, j), CONTROLLER_HANDLE) && !Has(RecordBits(db, q, h, r, j), CHILD_HANDLE)
    {
      ControllerBitsHas(db, h, r, j, DEVICE_DRIVER);
      ControllerBitsHas(db, h, r, j, BUS_DRIVER);
      ControllerBitsHas(db, h, r, j, PARENT_HANDLE);
      ControllerBitsHas(db, h, r, j, CONTROLLER_HANDLE);
      ControllerBitsHas(db, h, r, j, CHILD_HANDLE);
    }
  }

  /** The bits that only a protocol of the handle itself can set. */
  lemma ProtocolRoles(db: Database, q: Query, j: nat)
    requires j < |db.handles|
    ensures var has := db.Protocols(db.handles[j]);
            && (Has(TypeWord(db, q, j), IMAGE_HANDLE) <==> db.ids.loadedImage in has)
            && (Has(TypeWord(db, q, j), DRIVER_BINDING_HANDLE) <==> db.ids.driverBinding in has)
            && (Has(TypeWord(db, q, j), DRIVER_CONFIGURATION_HANDLE) <==> db.ids.driverConfiguration in has)
            && (Has(TypeWord(db, q, j), DRIVER_DIAGNOSTICS_HANDLE) <==> db.ids.driverDiagnostics in has)
            && (Has(TypeWord(db, q, j), COMPONENT_NAME_HANDLE) <==> db.ids.componentName in has)
  {
    hide TypeWord, FromRecord, FromProtocol;
    ProtocolRole(db, q, j, IMAGE_HANDLE, db.ids.loadedImage);
    ProtocolRole(db, q, j, DRIVER_BINDING_HANDLE, db.ids.driverBinding);
    ProtocolRole(db, q, j, DRIVER_CONFIGURATION_HANDLE, db.ids.driverConfiguration);
    ProtocolRole(db, q, j, DRIVER_DIAGNOSTICS_HANDLE, db.ids.driverDiagnostics);
    ProtocolRole(db, q, j, COMPONENT_NAME_HANDLE, db.ids.componentName);
  }

  lemma ProtocolRole(db: Database, q: Query, j: nat, b: bv32, g: Guid)
    requires j < |db.handles|
    requires || (b == IMAGE_HANDLE && g == db.ids.loadedImage)
             || (b == DRIVER_BINDING_HANDLE && g == db.ids.driverBinding)
             || (b == DRIVER_CONFIGURATION_HANDLE && g == db.ids.driverConfiguration)
             || (b == DRIVER_DIAGNOSTICS_HANDLE && g == db.ids.driverDiagnostics)
             || (b == COMPONENT_NAME_HANDLE && g == db.ids.componentName)
    ensures Has(TypeWord(db, q, j), b) <==> g in db.Protocols(db.handles[j])
  {
    hide TypeWord, AgentBits, ControllerBits;
    WordHas(db, q, j, b);
    ProtocolSets(db, j, b, g);
    forall h: nat, r | h < |db.handles|
      ensures !Has(RecordBits(db, q, h, r, j), b)
    {
      AgentBitsHas(db, q, h, r, j, b);
      ControllerBitsHas(db, h, r, j, b);
    }
  }

  /** A device: it has a device path, is managed by the driver asked about, or is such a child. */
  lemma DeviceRole(db: Database, q: Query, j: nat)
    requires db.Valid() && j < |db.handles|
    ensures Has(TypeWord(db, q, j), DEVICE_HANDLE) <==>
            || db.ids.devicePath in db.Protocols(db.handles[j])
            || Has(TypeWord(db, q, j), CONTROLLER_HANDLE)
            || Has(TypeWord(db, q, j), CHILD_HANDLE)
  {
    hide TypeWord, AgentBits, ControllerBits;
    WordHas(db, q, j, DEVICE_HANDLE);
    WordHas(db, q, j, CONTROLLER_HANDLE);
    WordHas(db, q, j, CHILD_HANDLE);
    ProtocolSets(db, j, DEVICE_HANDLE, db.ids.devicePath);
    NoProtocolSets(db, j, CONTROLLER_HANDLE);
    NoProtocolSets(db, j, CHILD_HANDLE);
    forall h: nat, r | h < |db.handles|
      ensures Has(RecordBits(db, q, h, r, j), DEVICE_HANDLE) <==>
              Has(RecordBits(db, q, h, r, j), CONTROLLER_HANDLE) || Has(RecordBits(db, q, h, r, j), CHILD_HANDLE)
    {
      AgentBitsHas(db, q, h, r, j, DEVICE_HANDLE);
      AgentBitsHas(db, q, h, r, j, CONTROLLER_HANDLE);
      AgentBitsHas(db, q, h, r, j, CHILD_HANDLE);
      ControllerBitsHas(db, h, r, j, DEVICE_HANDLE);
      ControllerBitsHas(db, h, r, j, CONTROLLER_HANDLE);
      ControllerBitsHas(db, h, r, j, CHILD_HANDLE);
    }
  }

  // ----- The masks the queries ask for

  const MANAGING_DRIVER: bv32 := DRIVER_BINDING_HANDLE | DEVICE_DRIVER
  const MANAGED_CHILD: bv32 := CHILD_HANDLE | DEVICE_HANDLE
  const MANAGED_CONTROLLER: bv32 := CONTROLLER_HANDLE | DEVICE_HANDLE

  lemma ManagingDriverMask(w: bv32)
    ensures HasAll(w, MANAGING_DRIVER) <==> Has(w, DRIVER_BINDING_HANDLE) && Has(w, DEVICE_DRIVER)
  {}

  lemma ManagedChildMask(w: bv32)
    ensures HasAll(w, MANAGED_CHILD) <==> Has(w, CHILD_HANDLE) && Has(w, DEVICE_HANDLE)
  {}

  lemma ManagedControllerMask(w: bv32)
    ensures HasAll(w, MANAGED_CONTROLLER) <==> Has(w, CONTROLLER_HANDLE) && Has(w, DEVICE_HANDLE)
  {}

  lemma ParentMask(w: bv32)
    ensures HasAll(w, PARENT_HANDLE) <==> Has(w, PARENT_HANDLE)
  {}

  /** What each query selects. */
  lemma MaskMeaning(db: Database, q: Query, j: nat)
    requires db.Valid() && j < |db.handles|
    ensures var x, w := db.handles[j], TypeWord(db, q, j);
            && (q.driver == NULL ==> (HasAll(w, MANAGING_DRIVER) <==> ManagingDriver(db, x, q.controller)))
            && (q.driver == NULL ==> (HasAll(w, PARENT_HANDLE) <==> ParentOf(db, x, q.controller)))
            && (HasAll(w, MANAGED_CHILD) <==>
                q.driver != NULL && q.controller != NULL && ChildOf(db, x, q.driver, q.controller))
            && (HasAll(w, MANAGED_CONTROLLER) <==> q.driver != NULL && ManagedBy(db, x, q.driver))
  {
    hide Has, HasAll, TypeWord, ManagedBy, ParentOf, AgentFor, ChildOf;
    ManagingDriverMask(TypeWord(db, q, j));
    ManagedChildMask(TypeWord(db, q, j));
    ManagedControllerMask(TypeWord(db, q, j));
    ParentMask(TypeWord(db, q, j));
    DeviceRole(db, q, j);
    ProtocolRoles(db, q, j);
    if q.driver == NULL {
      ControllerQueryRoles(db, q, j);
    } else {
      ChildRole(db, q, j);
      ControllerRole(db, q, j);
    }
  }

  // ----- The bits by their values

  /** The open attributes a record is asked for: EFI_OPEN_PROTOCOL_BY_DRIVER and BY_CHILD_CONTROLLER. */
  lemma OpenAttributes(r: OpenRecord)
    ensures r.ByDriver() <==> r.attributes & 0x10 != 0
    ensures r.ByChild() <==> r.attributes & 0x08 != 0
  {
    assert r.attributes & 0x10 == 0x10 <==> r.attributes & 0x10 != 0;
    assert r.attributes & 0x08 == 0x08 <==> r.attributes & 0x08 != 0;
  }

  /** The type word of a handle, bit by bit. */
  lemma RoleBits(db: Database, q: Query, j: nat)
    requires db.Valid() && j < |db.handles|
    ensures var w, x := TypeWord(db, q, j), db.handles[j];
            var has := db.Protocols(x);
            && (w & 0x001 != 0 <==> db.ids.loadedImage in has)
            && (w & 0x002 != 0 <==> db.ids.driverBinding in has)
            && (w & 0x010 != 0 <==> db.ids.driverConfiguration in has)
            && (w & 0x020 != 0 <==> db.ids.driverDiagnostics in has)
            && (w & 0x040 != 0 <==> db.ids.componentName in has)
            && (w & 0x080 != 0 <==> db.ids.devicePath in has || w & 0x200 != 0 || w & 0x400 != 0)
            && (q.driver == NULL ==>
                  && (w & 0x004 != 0 <==> AgentFor(db, x, q.controller, true))
                  && (w & 0x008 != 0 <==> AgentFor(db, x, q.controller, false))
                  && (w & 0x100 != 0 <==> ParentOf(db, x, q.controller))
                  && w & 0x200 == 0 && w & 0x400 == 0)
            && (q.driver != NULL ==>
                  && (w & 0x004 != 0 <==> q.driverIndex == Some(j) && HasOpened(db, q.driver, true))
                  && (w & 0x008 != 0 <==> q.driverIndex == Some(j) && HasOpened(db, q.driver, false))
                  && w & 0x100 == 0
                  && (w & 0x200 != 0 <==> ManagedBy(db, x, q.driver))
                  && (w & 0x400 != 0 <==> q.controller != NULL && ChildOf(db, x, q.driver, q.controller)))
  {
    hide TypeWord, AgentFor, ParentOf, ManagedBy, ChildOf, HasOpened;
    ProtocolRoles(db, q, j);
    DeviceRole(db, q, j);
    if q.driver == NULL {
      ControllerQueryRoles(db, q, j);
    } else {
      OwnDriverRoles(db, q, j);
      ControllerRole(db, q, j);
      ChildRole(db, q, j);
    }
  }
}
