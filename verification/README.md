# A verified model of the EFI 1.10 support library

This project models, in Dafny, the parts of the EFI 1.10.14.62 sample implementation where the C code
does something intricate, and proves what that code does for every input, every run and every reachable
state. Code that changes buffers, arrays, list cells or variables in place is modelled by methods over
arrays and classes, with the source's loops; each is proved against a specification that is stated
without reference to the loop, and what the source promises is then proved of that specification.

The parts, one or more modules each:

- **Handle database queries** (`HandleDatabase`, `HandleRoles`, `HandleQueries`). A four-deep loop nest
  ORs role bits into an array of words. Each role bit is shown to be set exactly when a relation over
  handles, protocols and open records holds; the queries are shown to list exactly the handles in those
  relations; the buffer reused by LibGetChildControllerHandles is shown never to overflow.
- **Device paths** (`DevicePathFormat`, `DevicePathLib`, `DevicePathEdit`, `DevicePathUnpack`). Byte
  strings in the format of section 8.3 of the EFI Specification 1.10 are parsed to node lists; every byte
  routine is proved to be its operation on node lists.
- **Wildcards and number text** (`MetaMatch`, `NumberText`, `NumberSyntax`). The backtracking matcher decides a
  declarative match relation; the printers and parsers of numbers undo each other.
- **64-bit arithmetic on 32-bit halves** (`Math64`), against the direct forms.
- **The print engine** (`PrintFormat`, `PrintLaws`, `PrintSinks`, `PrintEngine`): what reaches the output is what the
  format stands for, character by character and attribute by attribute, however the staging buffer is
  flushed.
- **Boot options** (`BootOrder`, `LoadOptions`): safety over whole runs of the bcfg command, and the
  encoding of an option with its parser.
- **Linked lists** (`LinkedLists`): the ring macros and the relocation of a ring.
- **Protocol installation** (`ProtocolInstall`): all or nothing.
- **Bitmap decoding** (`BmpDecode`): a streaming decoder against direct addressing.

`EfiBase` holds the machine types and the counting argument the others share.

What a specification function means is stated once more on the characters, bytes and positions themselves
(`PrintLaws`, `NumberSyntax`, the pattern laws of `MetaMatch`, `BootOrder.AddPlace`, `BmpDecode.PictureShown`,
`HandleRoles.RoleBits`, `LoadOptions.OptionByteByByte`), so that a change to such a function and its method
alike does not go unnoticed.

## Where the code and its promises part

In each of these the model follows the code, and the members named say exactly when the promise holds and
where it fails.

- The comment on AppendDevicePath says that Src2 is appended to each instance of Src1. Src2 is copied with
  its own end-entire marker, so a reader sees only the first instance: the promise holds if and only if
  Src1 has one instance, within the node cap (`DevicePathEdit.AppendsToEachIffOne`,
  `DevicePathEdit.TwoInstancesLoseOne`). The bytes written fit the allocation, for a Src1 within the cap, if
  and only if it has one instance or Src2 is not the larger path (`DevicePathEdit.AppendFitsIff`,
  `DevicePathEdit.AppendOverflows`).
- The node cap of DevicePathInstance, written 01000, is octal: the walk stops after 513 nodes. The first
  instance is split off if and only if it has at most 513 nodes (`DevicePathLib.DevicePathInstance`), and
  counting and matching see the instances of a path if and only if that holds of all of them
  (`DevicePathLib.PiecesExactIff`); `DevicePathLib.TooManyNodes` is a path of 514 nodes that falls apart.
- DivU64x32 on 32-bit halves is documented for 31-bit divisors. It is right exactly when no partial
  remainder reaches 2^31 (`Math64.DivU64x32`): always for divisors up to and including 2^31, and for no
  larger divisor on all dividends (`Math64.SmallDivisorsExact`, `Math64.LargeDivisorsLoseBits`).
- SwapListEntries breaks the ring when Entry2 is Entry1 or already stands before it, unless the ring has
  one entry (`LinkedLists.Memory.SwapListEntries`, `LinkedLists.SwapBreaks`).
- bcfg keeps every listed option present except by a removal whose two writes of the order both fail while
  the option is deleted: it does not look at the outcome of either (`BootOrder.StepConsistentIff`,
  `BootOrder.RunConsistentIff`, `BootOrder.UnsafeRemoval`).
- The boot order may be stored with 513 entries, and is then read as empty by the next command: an addition
  leaves a list that reads as stored if and only if the list before it was not full
  (`BootOrder.AddReadableIff`, `BootOrder.OverfullOrderIsLost`).
- An option that bcfg could build and store is listed as it was given if and only if it has at most 1024
  bytes, 32 less than the memory it was built in (`LoadOptions.ListedIff`).
- A format that ends inside a `%` item makes _Print read past its end. Whether it does is a matter of its
  characters alone (`PrintFormat.EndsInsideIff`); `%N`, `%H` and `%E` do not end an item when the attributes
  are zero, as they are in SPrint, PoolPrint and CatPrint (`PrintFormat.IncompleteFormats`).
- The attribute letters n, h and e are documented to hold for one field only. With two of them in an item,
  or where no attribute was in force, another attribute stays in force after it
  (`PrintFormat.ItemAttributes`, `PrintFormat.FieldOnlyIff`, `PrintFormat.TwoLetters`).
- Rows of a bitmap are aligned by address, not by offset: the closed form of the row address holds if and
  only if the file buffer is 4-aligned or there is at most one row (`BmpDecode.RowStartClosedIff`).
- The length field of an unpacked node holds its padded length if and only if that is below 2^16
  (`DevicePathUnpack.LengthFieldExactIff`), and with the alignments of the source an unpacked path reads
  back if and only if that holds of all its nodes (`DevicePathUnpack.UnpackDevicePath`).
- A copied path reads back if and only if its end marker is a bare header
  (`DevicePathEdit.DuplicateDevicePath`).

## Model

| member | source | states |
|---|---|---|
| `HandleDatabase.CompareGuidZero` | EFI_1.10.14.62/LIB/Runtime/EfiRtLib.c:106-144 | The combined word differences are zero exactly for equal GUIDs. |
| `HandleDatabase.ScanBitIff` | EFI_1.10.14.62/LIB/misc.c:606-712 | A bit is in a handle's word exactly when some protocol of some scanned handle, or one of its open records, puts it there. |
| `HandleDatabase.WordHas` | EFI_1.10.14.62/LIB/misc.c:606-712 | The word of a handle has a bit exactly when a protocol of the handle itself or an open record on any handle gives it. |
| `HandleRoles.ChildRole` | EFI_1.10.14.62/LIB/misc.c:678-686 | With a driver asked about, CHILD is set exactly on the handles that driver opened the controller BY_CHILD_CONTROLLER for. |
| `HandleRoles.ControllerRole` | EFI_1.10.14.62/LIB/misc.c:656-661 | With a driver asked about, CONTROLLER is set exactly on the handles with a protocol it opened BY_DRIVER. |
| `HandleRoles.OwnDriverRoles` | EFI_1.10.14.62/LIB/misc.c:656-676 | DEVICE_DRIVER and BUS_DRIVER are set exactly on the driver's own index, when asked for and when it opened something that way anywhere; PARENT never is. |
| `HandleRoles.ControllerQueryRoles` | EFI_1.10.14.62/LIB/misc.c:689-705 | With no driver, DEVICE_DRIVER and BUS_DRIVER mark exactly the agents for the controller, PARENT exactly its parents, CONTROLLER and CHILD nothing. |
| `HandleRoles.ProtocolRoles` | EFI_1.10.14.62/LIB/misc.c:618-638 | Image, binding, configuration, diagnostics and component-name bits are set exactly on the handles carrying that protocol. |
| `HandleRoles.DeviceRole` | EFI_1.10.14.62/LIB/misc.c:640-686 | DEVICE is set exactly on handles with a device path, managed controllers and managed children. |
| `HandleRoles.MaskMeaning` | EFI_1.10.14.62/LIB/misc.c:830-897 | Each query's mask selects exactly its relation: managing driver, parent, managed child, managed controller. |
| `HandleRoles.OpenAttributes` | EFI_1.10.14.62/INC/efiapi.h:557-562 | BY_DRIVER is attribute bit 10 hex, BY_CHILD_CONTROLLER bit 08. |
| `HandleRoles.RoleBits` | EFI_1.10.14.62/INC/efilib.h:828-839 | Every bit of the type word, by its value, and the relation that sets it. |
| `HandleQueries.MarkAgent` | EFI_1.10.14.62/LIB/misc.c:656-687 | A record of the driver asked about adds its contribution to every word and nothing else. |
| `HandleQueries.MarkController` | EFI_1.10.14.62/LIB/misc.c:689-705 | A record for the controller asked about adds its contribution to every word and nothing else. |
| `HandleQueries.MarkProtocol` | EFI_1.10.14.62/LIB/misc.c:620-642 | The six GUID comparisons add the bits of exactly the known protocol named. |
| `HandleQueries.ScanRecords` | EFI_1.10.14.62/LIB/misc.c:655-706 | The record loop adds exactly the union of the records' contributions. |
| `HandleQueries.ScanProtocols` | EFI_1.10.14.62/LIB/misc.c:611-711 | The protocol loop adds exactly the union over the handle's protocols. |
| `HandleQueries.FindIndex` | EFI_1.10.14.62/LIB/misc.c:587-604 | The index reported is that of the handle, and none only if it was not asked for, is null or is absent. |
| `HandleQueries.LibScanHandleDatabase` | EFI_1.10.14.62/LIB/misc.c:528-728 | On success every handle's word is the one characterised above; on failure no buffers are returned, and it fails only for memory. |
| `HandleQueries.CountMatching` | EFI_1.10.14.62/LIB/misc.c:770-774 | The first pass counts the selected handles. |
| `HandleQueries.FillMatching` | EFI_1.10.14.62/LIB/misc.c:804-809 | The second pass fills exactly as many slots as were counted, with the selected handles in database order. |
| `HandleQueries.SelectedLists` | EFI_1.10.14.62/LIB/misc.c:770-809 | What is selected by a mask lists the handles having it, each once, in database order. |
| `HandleQueries.LibGetHandleDatabaseSubset` | EFI_1.10.14.62/LIB/misc.c:730-827 | Success returns the selected handles and their count; not found means none; a buffer is returned only on success. |
| `HandleQueries.SelectedSets` | EFI_1.10.14.62/LIB/misc.c:830-897 | Selecting by each mask gives the set of managing drivers, parents, managed children or managed controllers. |
| `HandleQueries.LibGetManagingDriverBindingHandles` | EFI_1.10.14.62/LIB/misc.c:830-845 | Lists exactly the driver bindings that opened something BY_DRIVER for the controller. |
| `HandleQueries.LibGetParentControllerHandles` | EFI_1.10.14.62/LIB/misc.c:847-862 | Lists exactly the handles opened BY_CHILD_CONTROLLER for the controller. |
| `HandleQueries.LibGetManagedChildControllerHandles` | EFI_1.10.14.62/LIB/misc.c:864-880 | Lists exactly the children the driver opened the controller for. |
| `HandleQueries.LibGetManagedControllerHandles` | EFI_1.10.14.62/LIB/misc.c:882-897 | Lists exactly the handles the driver manages. |
| `HandleQueries.AddNew` | EFI_1.10.14.62/LIB/misc.c:954-962 | Adds a handle unless present; by the pigeonhole principle the write is inside the buffer. |
| `HandleQueries.MergeChildren` | EFI_1.10.14.62/LIB/misc.c:953-963 | The merged buffer holds the union, without duplicates, within the handle count. |
| `HandleQueries.LibGetChildControllerHandles` | EFI_1.10.14.62/LIB/misc.c:899-971 | Succeeds only when some driver manages the controller, and without a failed allocation reports not found exactly when none does; returns without duplicates only children under managing drivers, and all children of all of them except one driver at most for each failed allocation. |
| `DevicePathFormat.ParseSerialise` | EFI_1.10.14.62/INC/efidevp.h:54-75 | Decoding the bytes of a path, wherever they lie in memory, gives its nodes back. |
| `DevicePathFormat.SerialiseParse` | EFI_1.10.14.62/INC/efidevp.h:54-75 | A decoded path is exactly the bytes it was read from. |
| `DevicePathFormat.HeaderCodes` | EFI_1.10.14.62/INC/efidevp.h:54-75 | The header fields by their bytes: end types 7F and FF, end subtype FF, low length byte first. |
| `DevicePathFormat.InstanceSizesSum` | EFI_1.10.14.62/LIB/dpath.c:48-106 | Instance sizes plus one four-byte marker each sum to the size of the path. |
| `DevicePathFormat.InstancesOfJoined` | EFI_1.10.14.62/LIB/dpath.c:428-439 | Turning the last marker into an instance marker and going on with another path concatenates the instance lists. |
| `DevicePathFormat.InstancesOfPrefixed` | EFI_1.10.14.62/LIB/dpath.c:176-190 | Ordinary nodes put in front of a path lengthen its first instance only. |
| `DevicePathFormat.AgreeingBytesArePrefix` | EFI_1.10.14.62/LIB/dpath.c:1042-1046 | The format is self-delimiting: ordinary nodes whose bytes agree with a path as far as both go are a prefix of it. |
| `DevicePathLib.CopyMem` | EFI_1.10.14.62/LIB/Runtime/EfiRtLib.c:63-79 | Exactly the named bytes of the target become those of the source. |
| `DevicePathLib.CompareMem` | EFI_1.10.14.62/LIB/Runtime/EfiRtLib.c:81-104 | Zero exactly when the bytes agree, else the difference at the first place they do not; reading stops there. |
| `DevicePathLib.FindEnd` | EFI_1.10.14.62/LIB/dpath.c:286-307 | The walk stops at the end-entire marker, after exactly the bytes of the other nodes. |
| `DevicePathLib.FirstEndOffset` | EFI_1.10.14.62/LIB/dpath.c:68-85 | The walk stops at the first end-type node or at the cap, whichever comes first. |
| `DevicePathLib.DevicePathInstance` | EFI_1.10.14.62/LIB/dpath.c:48-106 | Splits off the first piece of the path, the next position holding the remaining pieces; this is the first instance, with the remaining instances next, exactly when that has at most 513 nodes. |
| `DevicePathLib.PiecesExactIff` | EFI_1.10.14.62/LIB/dpath.c:68-98 | The pieces of a path are its instances exactly when none has more nodes than the cap. |
| `DevicePathLib.BeyondCap` | EFI_1.10.14.62/LIB/dpath.c:75-82 | An instance of one node more than the cap loses its last node. |
| `DevicePathLib.TooManyNodes` | EFI_1.10.14.62/LIB/dpath.c:75-98 | A path of one instance of 514 nodes of which two pieces are made. |
| `DevicePathLib.DevicePathInstanceCount` | EFI_1.10.14.62/LIB/dpath.c:108-121 | The number of pieces, that is of instances when all are within the cap; zero for a null path. |
| `DevicePathLib.DevicePathSize` | EFI_1.10.14.62/LIB/dpath.c:286-307 | The size of the encoded path, the end marker counted as a bare header. |
| `DevicePathLib.MatchIffPrefix` | EFI_1.10.14.62/LIB/dpath.c:1042-1046 | Byte prefixes and node prefixes of a path coincide, and longer bytes differ before its end. |
| `DevicePathLib.LibMatchDevicePaths` | EFI_1.10.14.62/LIB/dpath.c:1028-1048 | True exactly when the nodes of some piece of Multi, that is of some instance when all are within the cap, are the first nodes of Single; Single is never read past its end. |
| `DevicePathEdit.DuplicateDevicePath` | EFI_1.10.14.62/LIB/dpath.c:309-342 | A fresh copy, null exactly for a null path or no memory; it reads as the same nodes exactly when the end marker is a bare header. |
| `DevicePathEdit.TurnEnd` | EFI_1.10.14.62/LIB/dpath.c:428-438 | The end marker in place becomes an instance marker, nothing before it changes. |
| `DevicePathEdit.AppendDevicePathInstance` | EFI_1.10.14.62/LIB/dpath.c:405-441 | The result's instance list is that of Src followed by that of Instance, in an allocation filled exactly; at the seam the last header of Src has become type, 01, 04, 00. |
| `DevicePathEdit.AppendFitsIff` | EFI_1.10.14.62/LIB/dpath.c:163-190 | The exact condition for the writes to fit the allocation; within the cap it is one instance or a Src2 no larger than Src1, and they fill it exactly for one instance or equal sizes. |
| `DevicePathEdit.AppendOverflows` | EFI_1.10.14.62/LIB/dpath.c:163-190 | Two paths whose writes leave the allocation. |
| `DevicePathEdit.AppendDevicePath` | EFI_1.10.14.62/LIB/dpath.c:124-194 | Reading the result gives the first piece of Src1 and the nodes of Src2; with a null path it is a duplicate of the other. |
| `DevicePathEdit.CopyInstances` | EFI_1.10.14.62/LIB/dpath.c:176-186 | The loop writes, per piece, the piece, all of Src2 and an instance marker, within the allocation. |
| `DevicePathEdit.AppendsToEachIffOne` | EFI_1.10.14.62/LIB/dpath.c:129-132 | Src2 is appended to each instance exactly when Src1 has one, within the cap. |
| `DevicePathEdit.TwoInstancesLoseOne` | EFI_1.10.14.62/LIB/dpath.c:129-132 | A first path of two instances of which the result has one. |
| `DevicePathEdit.AppendedSize` | EFI_1.10.14.62/LIB/dpath.c:163-190 | For a one-instance Src1 within the cap the nodes are concatenated and the size is the sum less one end marker. |
| `DevicePathEdit.AppendDevicePathNode` | EFI_1.10.14.62/LIB/dpath.c:197-230 | Appends one node and an end marker to the path; null exactly when memory runs out. |
| `DevicePathUnpack.RunningPad` | EFI_1.10.14.62/LIB/dpath.c:358-367 | Rounding an aligned running total adds exactly the node's own padding. |
| `DevicePathUnpack.SetDevicePathNodeLength` | EFI_1.10.14.62/INC/efidevp.h:65-68 | A reader of the header then sees the length modulo 2^16, and no other byte changes. |
| `DevicePathUnpack.UnpackedSize` | EFI_1.10.14.62/LIB/dpath.c:356-367 | The running-aligned size of pass one is the total of the separately padded nodes. |
| `DevicePathUnpack.CopyUnpacked` | EFI_1.10.14.62/LIB/dpath.c:385-398 | One node of pass two: its unpacked bytes, zeros after it kept. |
| `DevicePathUnpack.UnpackDevicePath` | EFI_1.10.14.62/LIB/dpath.c:344-402 | The allocation is filled with exactly the bytes of the unpacked nodes; they read back where the padded lengths are below 2^16, and for an alignment dividing 2^16 only there. |
| `DevicePathUnpack.UnpackKeepsContent` | EFI_1.10.14.62/LIB/dpath.c:385-398 | Same masked type, subtype and payload, followed by the fewest zeros that align. |
| `DevicePathUnpack.UnpackAligned` | EFI_1.10.14.62/LIB/dpath.c:385-398 | Every unpacked node starts on the alignment boundary. |
| `DevicePathUnpack.UnpackIdempotent` | EFI_1.10.14.62/LIB/dpath.c:344-402 | Unpacking an unpacked path changes nothing. |
| `DevicePathUnpack.LengthFieldExactIff` | EFI_1.10.14.62/INC/efidevp.h:65-68 | The header of an unpacked node states its length exactly when that is below 2^16. |
| `MetaMatch.MatchIffCut` | EFI_1.10.14.62/LIB/str.c:282-366 | Reading tokens one by one succeeds exactly when the text can be cut into one matching piece per token. |
| `MetaMatch.PatternCharacters` | EFI_1.10.14.62/LIB/str.c:294-315 | The empty pattern, `*`, `?` and ordinary characters by their codes: what each adds to a pattern, for all patterns and texts. |
| `MetaMatch.PatternSet` | EFI_1.10.14.62/LIB/str.c:317-354 | A set up to its first `]` takes one character that is in it. |
| `MetaMatch.SetPlain` | EFI_1.10.14.62/LIB/str.c:341-344 | Without a `-` a set has exactly its characters. |
| `MetaMatch.SetRange` | EFI_1.10.14.62/LIB/str.c:330-339 | Wherever a range stands in a set, everything between its ends is in the set. |
| `MetaMatch.OneRange` | EFI_1.10.14.62/LIB/str.c:330-344 | `[lo-hi]` matches exactly the range and its two ends. |
| `MetaMatch.SetMembers` | EFI_1.10.14.62/LIB/str.c:324-345 | All members of any set, by characters and dashes. |
| `MetaMatch.ScanSet` | EFI_1.10.14.62/LIB/str.c:317-354 | Accepts exactly the characters the literal and range rule of the set admits, and moves past its first `]`. |
| `MetaMatch.MetaMatch` | EFI_1.10.14.62/LIB/str.c:282-366 | Terminates, and is true exactly when string and pattern are in the match relation. |
| `NumberText.RemoveCommasGrouped` | EFI_1.10.14.62/LIB/print.c:1138-1148 | Without its commas a grouped number is its plain digits. |
| `NumberText.CommasExact` | EFI_1.10.14.62/LIB/print.c:1138-1148 | Commas stand exactly at the places, other than the front, with a multiple of three digits left. |
| `NumberText.CommasInText` | EFI_1.10.14.62/LIB/print.c:1107-1150 | Both comma laws for the printed text of every natural number. |
| `NumberText.SplitDecimal` | EFI_1.10.14.62/LIB/print.c:1133-1136 | The digit loop leaves the decimal digits, last first, inside its scratch array. |
| `NumberText.SplitHex` | EFI_1.10.14.62/LIB/print.c:1208-1211 | The digit loop leaves the hexadecimal digits, last first, inside its scratch array. |
| `NumberText.JoinDecimal` | EFI_1.10.14.62/LIB/print.c:1138-1149 | The second loop writes the digits in order with the commas and the NUL. |
| `NumberText.ValueToString` | EFI_1.10.14.62/LIB/print.c:1107-1150 | The buffer holds the decimal text of every 64-bit value, the most negative included, NUL-terminated. |
| `NumberText.ValueToHex` | EFI_1.10.14.62/LIB/print.c:1190-1217 | The buffer holds the hexadecimal text, NUL-terminated. |
| `NumberText.Atoi` | EFI_1.10.14.62/LIB/str.c:255-280 | The value of the first digit run after spaces, modulo the word size. |
| `NumberText.Xtoi` | EFI_1.10.14.62/LIB/str.c:214-253 | The value of the hex digits after spaces, zeros and an optional x, modulo the word size. |
| `NumberText.ValueOfDigits` | EFI_1.10.14.62/LIB/print.c:1107-1217 | The digits of a number have that number as their value, in every base up to sixteen. |
| `NumberText.AtoiOfDecimal` | EFI_1.10.14.62/LIB/str.c:255-280 | Atoi undoes ValueToString modulo the word size. |
| `NumberText.XtoiOfHex` | EFI_1.10.14.62/LIB/str.c:214-253 | xtoi undoes ValueToHex modulo the word size. |
| `NumberSyntax.NumeralCodes` | EFI_1.10.14.62/LIB/print.c:1107-1217 | Numerals have the characters 0-9 and A-F, no zero in front, and their number as value. |
| `NumberSyntax.NegativeText` | EFI_1.10.14.62/LIB/print.c:1128-1131 | The text of a negative number is a minus and the text of the number without it. |
| `NumberSyntax.CommaCodes` | EFI_1.10.14.62/LIB/print.c:1138-1148 | Without its commas the text is the plain numeral; a comma stands exactly where a multiple of three digits is left, not in front. |
| `NumberSyntax.HexCodes` | EFI_1.10.14.62/LIB/str.c:241-246 | The digit each hexadecimal character of either case stands for. |
| `NumberSyntax.ValueCodes` | EFI_1.10.14.62/LIB/str.c:269-277 | The value of digits from left to right. |
| `NumberSyntax.AtoiSyntax` | EFI_1.10.14.62/LIB/str.c:264-279 | Atoi gives the value of the digits after any spaces, whatever follows. |
| `NumberSyntax.XtoiSyntax` | EFI_1.10.14.62/LIB/str.c:223-252 | xtoi gives the value of the digits of either case after any spaces, zeros and one x or none, whatever follows. |
| `Math64.TopIsQuotient` | EFI_1.10.14.62/LIB/ia32/math.c:149-164 | Reading a dividend bit by bit, what has been read is its quotient by a power of two. |
| `Math64.DivideRound` | EFI_1.10.14.62/LIB/ia32/math.c:151-163 | One round on the three registers: the shifted-out bit, the quotient bit and the remainder account for the doubled remainder, short by a dropped top bit. |
| `Math64.DivU64x32` | EFI_1.10.14.62/LIB/ia32/math.c:130-171 | Quotient and remainder are right exactly when no partial remainder reaches 2^31. |
| `Math64.SmallDivisorsExact` | EFI_1.10.14.62/LIB/ia32/math.c:137-143 | Divisors up to 2^31 never lose a bit. |
| `Math64.LargeDivisorsLoseBits` | EFI_1.10.14.62/LIB/ia32/math.c:137-143 | Every larger divisor loses one on the dividend 2^63. |
| `Math64.LShiftU64` | EFI_1.10.14.62/LIB/ia32/math.c:43-73 | The half-word shift is the direct left shift by the count modulo 64. |
| `Math64.RShiftU64` | EFI_1.10.14.62/LIB/ia32/math.c:75-105 | The half-word shift is the direct right shift by the count modulo 64. |
| `Math64.MultU64x32` | EFI_1.10.14.62/LIB/ia32/math.c:108-128 | Two word products make the direct product modulo 2^64. |
| `PrintFormat.LayoutLength` | EFI_1.10.14.62/LIB/print.c:789-846 | A laid-out item is as long as the longest of its width, its field width and what it shows. |
| `PrintLaws.ItemLaw` | EFI_1.10.14.62/LIB/print.c:924-1098 | Every item `% [0] [-] [,] [width] [.field] [l] letter`, given by its characters, anywhere in a format: what its letter makes of the argument, cut, filled and justified by its flags. |
| `PrintLaws.PlainLaw` | EFI_1.10.14.62/LIB/print.c:918-922 | A character other than `%` is put as it is. |
| `PrintLaws.ZeroFilledHex` | EFI_1.10.14.62/LIB/print.c:1012-1023 | `%0<n>x` gives the hexadecimal number filled up with zeros to n characters. |
| `PrintLaws.CutString` | EFI_1.10.14.62/LIB/print.c:996-1001 | `%.<n>s` and `%-.<n>s` give the first n characters, spaced out on the left or the right to n. |
| `PrintLaws.StarLaw` | EFI_1.10.14.62/LIB/print.c:966-968 | `%*` takes the width from the argument before. |
| `PrintLaws.AttributeLaw` | EFI_1.10.14.62/LIB/print.c:1062-1072 | `%N`, `%H` and `%E` set the normal, highlight and error attribute for what follows. |
| `PrintLaws.FieldAttributeLaw` | EFI_1.10.14.62/LIB/print.c:1050-1060 | `%n`, `%h` and `%e` show one field under their attribute; then the one before is in force again, unless there was none. |
| `PrintFormat.ExpandsPlain` | EFI_1.10.14.62/LIB/print.c:757-761 | Text without line feeds goes out unchanged. |
| `PrintFormat.ExpandsKeeps` | EFI_1.10.14.62/LIB/print.c:757-761 | Apart from carriage returns the output is what the format stands for. |
| `PrintFormat.ShowNulFree` | EFI_1.10.14.62/LIB/print.c:937-1079 | No item puts a NUL, so no string is cut short on the way out. |
| `PrintFormat.EndsInsideIff` | EFI_1.10.14.62/LIB/print.c:916-1100 | The format's end is passed exactly when its characters leave an item open, whatever the arguments and the attribute. |
| `PrintFormat.StepGathers` | EFI_1.10.14.62/LIB/print.c:937-1093 | An item goes on after a digit, a setting, a field attribute or a zero attribute, and ends at every other character. |
| `PrintFormat.IncompleteFormats` | EFI_1.10.14.62/LIB/print.c:937-1094 | A lone `%`, and `%N` exactly where there are no attributes, end inside an item. |
| `PrintFormat.ItemAttributes` | EFI_1.10.14.62/LIB/print.c:924-1098 | A field is shown under the last attribute its letters set; after it the attribute before that one is in force. |
| `PrintFormat.FieldOnlyIff` | EFI_1.10.14.62/LIB/print.c:867-869 | The exact condition, on the attributes its letters set, for the attribute before an item to be in force again after it. |
| `PrintFormat.TwoLetters` | EFI_1.10.14.62/LIB/print.c:867-869 | After `%hed` the highlight attribute is in force, whatever was before. |
| `PrintFormat.ExpandsWidth` | EFI_1.10.14.62/LIB/print.c:757-761 | What is put is at least as long as the text and at most longer by one character a line feed. |
| `PrintSinks.Sink.ForBuffer` | EFI_1.10.14.62/LIB/print.c:414-433 | SPrint's limit is one less than the characters of the buffer, and the largest word when the size is below two bytes. |
| `PrintSinks.Sink.Append` | EFI_1.10.14.62/LIB/print.c:289-328 | The text is added up to the limit and a NUL follows what stays visible. |
| `PrintSinks.Sink.Grow` | EFI_1.10.14.62/LIB/print.c:346-366 | The larger pool starts with the text so far; a growth that fails leaves an empty pool. |
| `PrintSinks.Sink.Output` | EFI_1.10.14.62/LIB/print.c:289-373 | Every string taken keeps the sink's invariant: a fixed buffer holds the longest prefix below its limit, a growing one everything since its last failed growth, both terminated. |
| `PrintSinks.Sink.PoolAppend` | EFI_1.10.14.62/LIB/print.c:331-373 | A growing pool takes the string, or is dropped with all it held when it cannot grow. |
| `PrintSinks.FixedStep` | EFI_1.10.14.62/LIB/print.c:302-325 | Adding to a truncated buffer gives the truncation of the longer text. |
| `PrintEngine.DecimalFits` | EFI_1.10.14.62/LIB/print.c:1031-1038 | Every 64-bit decimal text, with commas and sign, fits the scratch buffer of an item. |
| `PrintEngine.Convert` | EFI_1.10.14.62/LIB/print.c:937-1079 | Each case of the switch, with its scratch buffer, takes the step the item syntax prescribes. |
| `PrintEngine.ConvertShown` | EFI_1.10.14.62/LIB/print.c:939-1078 | So do the cases that end the item with something to show. |
| `PrintEngine.ParseWidth` | EFI_1.10.14.62/LIB/print.c:980-985 | The digit loop reads the whole digit run as a width modulo the word size. |
| `PrintEngine.PrintState.Flush` | EFI_1.10.14.62/LIB/print.c:711-724 | Hands over exactly the staged text under the attribute in force and empties the buffer; what was put stays what was shown plus what is staged. |
| `PrintEngine.PrintState.SetAttribute` | EFI_1.10.14.62/LIB/print.c:726-741 | Staged text goes out first, under the old attribute, which is kept for restoring. |
| `PrintEngine.PrintState.Stage` | EFI_1.10.14.62/LIB/print.c:763-770 | One more character put; the position never reaches the end of the buffer, whose filling flushes it. |
| `PrintEngine.PrintState.PutChar` | EFI_1.10.14.62/LIB/print.c:743-771 | Puts the character, a line feed after a carriage return exactly when the one before it in the buffer is none. |
| `PrintEngine.CutLength` | EFI_1.10.14.62/LIB/print.c:799-809 | The characters of the text that the field has room for. |
| `PrintEngine.PrintState.PutItem` | EFI_1.10.14.62/LIB/print.c:789-846 | Puts the item cut to the field width, padded to the width, justified in the field width. |
| `PrintEngine.LayoutParts` | EFI_1.10.14.62/LIB/print.c:811-845 | The pieces put, in the order of the loops, are the layout of the item. |
| `PrintEngine.PrintState.PrintItem` | EFI_1.10.14.62/LIB/print.c:924-1098 | One item: what has been put and what the rest stands for still make up the whole. |
| `PrintEngine.PrintState.Print` | EFI_1.10.14.62/LIB/print.c:849-1105 | For every format that leaves no item open and every argument list, the strings passed on join to the characters put, in order, each shown under the attribute in force when it was put; these are what the format stands for (`PrintLaws.ItemLaw`); the length returned is theirs. |
| `PrintSinks.FlattenConcat` | EFI_1.10.14.62/LIB/print.c:475-508 | The text of two runs of strings is the text of one after the other. |
| `PrintEngine.SPrint` | EFI_1.10.14.62/LIB/print.c:398-437 | The buffer ends with a NUL after the longest prefix of at most StrSize/2 - 2 characters, and min(total, StrSize/2 - 1) is returned; a size below two sets no limit, and a buffer with room holds the whole text. |
| `PrintEngine.PoolPrint` | EFI_1.10.14.62/LIB/print.c:440-471 | The pool returned holds the whole text and a NUL, or what came after the last growth that failed. |
| `PrintEngine.CatPrint` | EFI_1.10.14.62/LIB/print.c:475-508 | While the pool can grow it holds what it held, then the whole new text, then a NUL, with len below maxlen; a failed growth loses exactly the text before it. |
| `BootOrder.LeastFreeUnique` | EFI_1.10.14.62/SHELL/bcfg/bcfg.c:554-572 | The number an added option gets is determined. |
| `BootOrder.UsedBound` | EFI_1.10.14.62/SHELL/bcfg/bcfg.c:554-572 | It is at most the count plus one, by the pigeonhole principle. |
| `BootOrder.BootConfig.ReadOrder` | EFI_1.10.14.62/SHELL/bcfg/bcfg.c:270-293 | The list read is the stored one, or empty when that is too large. |
| `BootOrder.BootConfig.FindTarget` | EFI_1.10.14.62/SHELL/bcfg/bcfg.c:554-572 | The search finds the least unused positive number and never fails within the limit. |
| `BootOrder.BootConfig.OpenGap` | EFI_1.10.14.62/SHELL/bcfg/bcfg.c:610-616 | The shifting loop is insertion. |
| `BootOrder.BootConfig.CloseGap` | EFI_1.10.14.62/SHELL/bcfg/bcfg.c:692-695 | The shifting loop is removal. |
| `BootOrder.BootConfig.AddEntry` | EFI_1.10.14.62/SHELL/bcfg/bcfg.c:554-622 | Adding stores the option under the least free number and inserts that, whichever write fails. |
| `BootOrder.BootConfig.RemoveEntry` | EFI_1.10.14.62/SHELL/bcfg/bcfg.c:671-721 | Removing writes the order twice and deletes the option, each with its own outcome; out of range changes nothing. |
| `BootOrder.BootConfig.MoveEntry` | EFI_1.10.14.62/SHELL/bcfg/bcfg.c:723-788 | Moving is removing and inserting at the clamped place; out of range changes nothing. |
| `BootOrder.BootConfig.Execute` | EFI_1.10.14.62/SHELL/bcfg/bcfg.c:270-293 | One invocation on the stored variables is one step of the transition relation. |
| `BootOrder.StepConsistentIff` | EFI_1.10.14.62/SHELL/bcfg/bcfg.c:383-788 | From a consistent store, a command leaves a list without duplicates whose options are all present exactly when it is not a removal that deletes the option while both writes of the order fail. |
| `BootOrder.RunConsistentIff` | EFI_1.10.14.62/SHELL/bcfg/bcfg.c:383-788 | Every store of a run is consistent exactly when every step is safe in that sense. |
| `BootOrder.StepDistinct` | EFI_1.10.14.62/SHELL/bcfg/bcfg.c:383-788 | No command, whichever of its writes fail, lists a number twice. |
| `BootOrder.RunDistinct` | EFI_1.10.14.62/SHELL/bcfg/bcfg.c:383-788 | Neither does any run. |
| `BootOrder.UnsafeRemoval` | EFI_1.10.14.62/SHELL/bcfg/bcfg.c:697-713 | A consistent store and a removal after which a listed option is missing. |
| `BootOrder.MoveConserves` | EFI_1.10.14.62/SHELL/bcfg/bcfg.c:733-778 | Moving keeps the multiset of numbers and the order of the others. |
| `BootOrder.AddPlace` | EFI_1.10.14.62/SHELL/bcfg/bcfg.c:422-430 | The new number is the least free one; it stands first for positions 0 and 1, at its position within the list, last beyond it, and the others keep their order. |
| `BootOrder.RemovePlace` | EFI_1.10.14.62/SHELL/bcfg/bcfg.c:682-713 | A removal takes away the entry at its position, counted from one, and that option. |
| `BootOrder.MovePlace` | EFI_1.10.14.62/SHELL/bcfg/bcfg.c:733-765 | The moved number stands at the destination counted from one, clamped into the list, and the others keep their order. |
| `BootOrder.FailedWrites` | EFI_1.10.14.62/SHELL/bcfg/bcfg.c:593-622 | What stays stored when writes fail. |
| `BootOrder.RemoveInserted` | EFI_1.10.14.62/SHELL/bcfg/bcfg.c:610-695 | Removing undoes inserting. |
| `BootOrder.OverfullOrderIsLost` | EFI_1.10.14.62/SHELL/bcfg/bcfg.c:270-293 | Adding to 512 entries leaves a list the next command reads as empty. |
| `BootOrder.AddReadableIff` | EFI_1.10.14.62/SHELL/bcfg/bcfg.c:270-293 | A successful addition leaves a list the next command reads as stored exactly when the list it read was not full. |
| `BootOrder.OthersReadable` | EFI_1.10.14.62/SHELL/bcfg/bcfg.c:682-778 | Successful removals and moves leave such a list. |
| `LoadOptions.FindTerminator` | EFI_1.10.14.62/SHELL/bcfg/bcfg.c:888-895 | Finds the first NUL of the description, if there is one. |
| `LoadOptions.BCfgParseLoadOption` | EFI_1.10.14.62/SHELL/bcfg/bcfg.c:844-945 | Returns the fields the format assigns to the data, and fails exactly when the data is too short or incomplete. |
| `LoadOptions.EncodeLoadOption` | EFI_1.10.14.62/SHELL/bcfg/bcfg.c:579-600 | The scratch memory holds the option's bytes, within its size. |
| `LoadOptions.OptionRoundTrip` | EFI_1.10.14.62/SHELL/bcfg/bcfg.c:844-945 | Parsing an option followed by load options recovers attributes, description, file path and load options exactly when the path length fits its field, and the path reads back as its nodes. |
| `LoadOptions.OptionByteByByte` | EFI_1.10.14.62/SHELL/bcfg/bcfg.c:579-600 | The bytes BCfgAdd writes, one by one. |
| `LoadOptions.ListOption` | EFI_1.10.14.62/SHELL/bcfg/bcfg.c:803-827 | A stored option is parsed when it fits the buffer it is read into. |
| `LoadOptions.ListedIff` | EFI_1.10.14.62/SHELL/bcfg/bcfg.c:803-827 | An option written by BCfgAdd is listed as given exactly when it has at most 1024 bytes. |
| `LoadOptions.ParsedRebuilds` | EFI_1.10.14.62/SHELL/bcfg/bcfg.c:844-945 | Parsed data is exactly the bytes of its fields and the load options. |
| `LinkedLists.UnlinkRing` | EFI_1.10.14.62/INC/link.h:71-77 | The two writes of removal leave the ring without the entry and touch nothing else. |
| `LinkedLists.LinkRing` | EFI_1.10.14.62/INC/link.h:97-123 | The four writes of insertion put the entry into the ring there and touch nothing else. |
| `LinkedLists.Memory.InitializeListHead` | EFI_1.10.14.62/INC/link.h:50-52 | A ring of the head alone. |
| `LinkedLists.Memory.IsListEmpty` | EFI_1.10.14.62/INC/link.h:61-62 | True exactly for the ring of the head alone. |
| `LinkedLists.Memory.RemoveEntryList` | EFI_1.10.14.62/INC/link.h:71-87 | The ring without the entry, other cells untouched; a debug build spoils the links of the entry, others keep them. |
| `LinkedLists.Memory.InsertTailList` | EFI_1.10.14.62/INC/link.h:97-105 | The entry comes last. |
| `LinkedLists.Memory.InsertHeadList` | EFI_1.10.14.62/INC/link.h:115-123 | The entry comes first after the head. |
| `LinkedLists.Memory.SwapListEntries` | EFI_1.10.14.62/INC/link.h:133-146 | Moves Entry2 to just before Entry1; the entries form a ring afterwards exactly when it was distinct and not yet there, or alone. |
| `LinkedLists.MovedPlace` | EFI_1.10.14.62/INC/link.h:131-133 | In the moved ring Entry2 comes just before Entry1 and the others are as they were. |
| `LinkedLists.SwapBreaks` | EFI_1.10.14.62/INC/link.h:133-146 | Otherwise Entry2 ends up linked to itself. |
| `LinkedLists.BrokenRing` | EFI_1.10.14.62/INC/link.h:133-146 | With an entry linked to itself no ring has all the entries of a longer one. |
| `LinkedLists.RtConvertList` | EFI_1.10.14.62/LIB/Runtime/vm.c:74-108 | Converts both links of every entry exactly once, although the walk reads links it converts; addresses outside the map and other cells stay as they are. |
| `LinkedLists.RelocatedRing` | EFI_1.10.14.62/LIB/Runtime/vm.c:74-108 | The relocated entries form a ring in the same order exactly when the address map is injective on them. |
| `ProtocolInstall.BootServices.InstallProtocolInterface` | EFI_1.10.14.62/COREFW/fw/efi/hand/handle.c:290-480 | Adds one interface to the handle, a new one for null; fails without change for a duplicate protocol, a bad handle or no memory. |
| `ProtocolInstall.BootServices.UninstallProtocolInterface` | EFI_1.10.14.62/COREFW/fw/efi/hand/handle.c:697-815 | Takes off an interface that is there and frees a handle with its last one. |
| `ProtocolInstall.InstallAll` | EFI_1.10.14.62/LIB/hand.c:453-481 | The first loop leaves a prefix of the pairs installed, and succeeds exactly when all can be. |
| `ProtocolInstall.RollBack` | EFI_1.10.14.62/LIB/hand.c:488-500 | The second loop restores the database as it was before the first. |
| `ProtocolInstall.LibInstallProtocolInterfaces` | EFI_1.10.14.62/LIB/hand.c:428-508 | All or nothing, with the exact condition for success; on failure database and handle are as before; the task priority is restored on both paths. |
| `ProtocolInstall.InstalledMeans` | EFI_1.10.14.62/LIB/hand.c:457-481 | After success every pair is on the one handle, what it had is kept and no other handle has changed. |
| `BmpDecode.RowStartClosed` | EFI_1.10.14.62/SHELL/LoadBmp/LoadBmp.c:142-148 | With an aligned file, row h starts at h times the row bytes rounded up to four. |
| `BmpDecode.RowStartAnywhere` | EFI_1.10.14.62/SHELL/LoadBmp/LoadBmp.c:142-148 | For any address of the file, the first row ends at the first aligned address and every other row takes its bytes rounded up to four. |
| `BmpDecode.RowStartClosedIff` | EFI_1.10.14.62/SHELL/LoadBmp/LoadBmp.c:142-148 | This holds for every row exactly when the file is aligned or there is at most one row. |
| `BmpDecode.ConvertRound` | EFI_1.10.14.62/SHELL/LoadBmp/LoadBmp.c:103-139 | One round writes one pixel, or a pair at four bits, and advances both positions together. |
| `BmpDecode.ConvertRow` | EFI_1.10.14.62/SHELL/LoadBmp/LoadBmp.c:102-140 | The inner loop writes exactly the pixels of the row, addressed directly, odd widths included. |
| `BmpDecode.ConvertRows` | EFI_1.10.14.62/SHELL/LoadBmp/LoadBmp.c:100-149 | The outer loop fills every buffer row with the file row that is as far from the end. |
| `BmpDecode.LoadBmpFile` | EFI_1.10.14.62/SHELL/LoadBmp/LoadBmp.c:37-149 | Each rejection exactly under its condition; otherwise every pixel of the buffer is, byte by byte, the one of its file row: row bytes at 24 bits, a palette entry picked by a byte or half a byte at 8 and 4. |
| `BmpDecode.PictureAddressed` | EFI_1.10.14.62/SHELL/LoadBmp/LoadBmp.c:100-149 | Row r, column x of the buffer is the pixel at file row H-1-r with a stride rounded up to four. |
| `BmpDecode.PictureShown` | EFI_1.10.14.62/SHELL/LoadBmp/LoadBmp.c:100-149 | The converted rows are the picture in the bytes of the file, with the offsets of its header fields. |

## Left out

- Memory, clocks and firmware answers: whether an allocation or a variable write succeeds is a parameter or an arbitrary outcome; the width of UINTN is a parameter; freeing memory is not modelled.
- Totals beyond the machine word: sizes, counts and lengths are unbounded integers wherever the source's UINTN would have to overflow; integer width is written out in `Math64`, `NumberText`, item widths, the limit of SPrint and length fields.
- HandleQueries.LibScanHandleDatabase: errors of the services other than running out of memory; a handle or protocol whose information is refused counts as having none.
- DevicePathEdit.AppendDevicePathInstance: a missing allocation for a non-null Src, which the source only asserts against; end markers longer than a header.
- DevicePathEdit.AppendDevicePath: paths whose writes would leave the allocation, which `DevicePathEdit.AppendFitsIff` singles out exactly; end markers longer than a header.
- DevicePathEdit.CopyInstances: the same paths.
- DevicePathEdit.AppendDevicePathNode: the same paths, and a node that is itself an end.
- DevicePathUnpack.UnpackDevicePath: how a path reads whose padded lengths do not fit, for alignments that do not divide 2^16; the source has only 4 and 8.
- MetaMatch.MetaMatch: patterns with an unclosed set, where the source walks past the terminator.
- MetaMatch.ScanSet: an unclosed set, likewise.
- LoadOptions.BCfgParseLoadOption: data on which the source reads outside it or does not end (a zero-length node, a path header cut off, an unterminated description of odd size).
- LoadOptions.FindTerminator: an unterminated description of odd size, likewise.
- LoadOptions.EncodeLoadOption: options larger than the scratch memory, which the source does not check for.
- BootOrder.BootConfig.AddEntry: the resolution of the file name to a device path; the option's bytes are those of `LoadOptions.EncodeLoadOption`.
- LinkedLists.RtConvertList: the disposition argument, which matters for null links only.
- ProtocolInstall.BootServices.UninstallProtocolInterface: refusal because an agent still has the interface open; interfaces just installed have no such agent.
- ProtocolInstall.BootServices.RaiseTPL: which priorities may be raised from which, and notifications.
- PrintEngine.SPrint: buffers smaller than the size says, or, where there is no limit, too small for the text.
- PrintEngine.PrintState.Print: formats that end inside an item, which `PrintFormat.EndsInsideIff` singles out exactly.
- PrintEngine.PrintState.PrintItem: the same formats.
- PrintLaws.ItemLaw: strings as long as the address space, which a field width cannot count.
- PrintEngine.PrintState.PutChar: the read in front of an empty buffer gives an arbitrary character, so a line feed at the start of the buffer may or may not get a carriage return.
- PrintEngine.PrintState.SetAttribute: how the console displays an attribute; what is proved is which attribute is in force for each character.
- PrintFormat.ShowNulFree: the texts of GUIDs, times and status codes are given with the argument; more items than arguments read an empty argument.
- BmpDecode.LoadBmpFile: pictures with 2^32 pixels or more, files shorter than their rows and palette, and drawing the result.
- Page breaks and the omit switch of the print engine: user interaction.
- DevicePathToStr and the printers of single node types, GuidToString, TimeToString, StatusToString: fixed text with no hard property.
- ValidMBR, ValidBPB, the SMBIOS and SAL table walks: easier instances of what is modelled here.
- LibReinstallProtocolInterfaces, LibLocateHandle and the other wrappers that only forward to a service.
- Console, file, block device and drawing calls, the shell commands around the modelled loops, and the protocol headers.
