/**
 * src/port.rs: the description of the port a camera is reached through
 * (a view into memory the camera owns), and the list of port drivers with
 * its name and path lookups.
 */
module Ports {
  import opened Gp
  import opened CStr
  import opened Native
  import Utf8

  // ---------------------------------------------------------------------
  // Port types

  datatype PortType = Serial | USB | Disk | PTPIP | Direct | SCSI | Other

  // `GPPortType` codes of the libgphoto2 port headers.
  const GP_PORT_NONE: int := 0
  const GP_PORT_SERIAL: int := 1
  const GP_PORT_USB: int := 4
  const GP_PORT_DISK: int := 8
  const GP_PORT_PTPIP: int := 16
  const GP_PORT_USB_DISK_DIRECT: int := 32
  const GP_PORT_USB_SCSI: int := 64

  /** The code each named port type comes from. */
  function CodeOf(t: PortType): (code: int)
    requires t != Other
  {
    match t
    case Serial => GP_PORT_SERIAL
    case USB => GP_PORT_USB
    case Disk => GP_PORT_DISK
    case PTPIP => GP_PORT_PTPIP
    case Direct => GP_PORT_USB_DISK_DIRECT
    case SCSI => GP_PORT_USB_SCSI
  }

  /**
   * The `match` of `Port::port_type`: total; each named type comes from its
   * own code, and GP_PORT_NONE and every other code give `Other`.
   */
  function TypeOf(code: int): (t: PortType)
    ensures t != Other ==> CodeOf(t) == code
    ensures t == Other <==> forall u: PortType :: u != Other ==> CodeOf(u) != code
  {
    if code == GP_PORT_SERIAL then Serial
    else if code == GP_PORT_USB then USB
    else if code == GP_PORT_DISK then Disk
    else if code == GP_PORT_PTPIP then PTPIP
    else if code == GP_PORT_USB_DISK_DIRECT then Direct
    else if code == GP_PORT_USB_SCSI then SCSI
    else Other
  }

  /** Decoding the code of a named type gives that type back. */
  lemma TypeOfCodeOf(t: PortType)
    requires t != Other
    ensures TypeOf(CodeOf(t)) == t
  {
  }

  /** What the three `gp_port_info_get_*` calls of a port return. */
  datatype PortInfo = PortInfo(
    typeStatus: int, typeCode: int,
    nameStatus: int, name: seq<Byte>,
    pathStatus: int, path: seq<Byte>)

  /** `Port::port_type`: asserts the getter succeeded, then decodes the code. */
  function PortTypeOf(p: PortInfo): (r: Checked<PortType>)
    ensures r.Panic? <==> p.typeStatus != GP_OK
    ensures r.Returned? ==> r.value == TypeOf(p.typeCode)
  {
    if p.typeStatus != GP_OK then Panic else Returned(TypeOf(p.typeCode))
  }

  /** `Port::name`: asserts the getter succeeded; never an error, a lossy decoding. */
  function Name(p: PortInfo): (r: Checked<seq<Byte>>)
    requires p.nameStatus == GP_OK ==> 0 in p.name
    ensures r.Panic? <==> p.nameStatus != GP_OK
    ensures r.Returned? ==> Utf8.Valid(r.value)
    ensures r.Returned? ==> (r.value == UntilNul(p.name) <==> Utf8.Valid(UntilNul(p.name)))
  {
    if p.nameStatus != GP_OK then Panic
    else
      Utf8.LossyValid(UntilNul(p.name));
      Utf8.LossyIdentity(UntilNul(p.name));
      Returned(Utf8.Lossy(UntilNul(p.name)))
  }

  /** `Port::path`: asserts the getter succeeded; never an error, a lossy decoding. */
  function Path(p: PortInfo): (r: Checked<seq<Byte>>)
    requires p.pathStatus == GP_OK ==> 0 in p.path
    ensures r.Panic? <==> p.pathStatus != GP_OK
    ensures r.Returned? ==> Utf8.Valid(r.value)
    ensures r.Returned? ==> (r.value == UntilNul(p.path) <==> Utf8.Valid(UntilNul(p.path)))
  {
    if p.pathStatus != GP_OK then Panic
    else
      Utf8.LossyValid(UntilNul(p.path));
      Utf8.LossyIdentity(UntilNul(p.path));
      Returned(Utf8.Lossy(UntilNul(p.path)))
  }

  // ---------------------------------------------------------------------
  // PortList

  /** The native state behind a `PortList` handle, seen through its calls. */
  datatype PortListState = PortListState(
    lookupName: seq<Byte> -> int,
    lookupPath: seq<Byte> -> int,
    count: int)

  /** A native lookup result: a non-negative one is the index, a negative one the error. */
  function IndexOf(code: int): (r: Result<nat>)
    ensures r.Ok? <==> code >= 0
    ensures r.Ok? ==> r.value == code
    ensures r.Err? ==> r.error == Error(code)
  {
    if code >= 0 then Ok(code) else Err(Error(code))
  }

  /**
   * `PortList::lookup_name`: a name with an embedded NUL is refused before
   * the native layer is asked; otherwise its answer decides.
   */
  function LookupName(l: PortListState, name: seq<Byte>): (r: Result<nat>)
    ensures 0 in name ==> r == Err(Error(GP_ERROR_BAD_PARAMETERS))
    ensures 0 !in name ==> (r.Ok? <==> l.lookupName(name) >= 0)
    ensures 0 !in name && r.Ok? ==> r.value == l.lookupName(name)
    ensures 0 !in name && r.Err? ==> r.error == Error(l.lookupName(name))
  {
    if 0 in name then Err(Error(GP_ERROR_BAD_PARAMETERS)) else IndexOf(l.lookupName(name))
  }

  /** `PortList::lookup_path`: the same rules, asking the path lookup. */
  function LookupPath(l: PortListState, path: seq<Byte>): (r: Result<nat>)
    ensures 0 in path ==> r == Err(Error(GP_ERROR_BAD_PARAMETERS))
    ensures 0 !in path ==> (r.Ok? <==> l.lookupPath(path) >= 0)
    ensures 0 !in path && r.Ok? ==> r.value == l.lookupPath(path)
    ensures 0 !in path && r.Err? ==> r.error == Error(l.lookupPath(path))
  {
    if 0 in path then Err(Error(GP_ERROR_BAD_PARAMETERS)) else IndexOf(l.lookupPath(path))
  }

  /** A key with an embedded NUL gets the same answer whatever the native list holds. */
  lemma LookupIgnoresNativeOnNul(l1: PortListState, l2: PortListState, key: seq<Byte>)
    requires 0 in key
    ensures LookupName(l1, key) == LookupName(l2, key)
    ensures LookupPath(l1, key) == LookupPath(l2, key)
  {
  }

  /** `PortList::len`: the native count, or a panic when it is negative. */
  function Len(l: PortListState): (r: Checked<nat>)
    ensures r.Panic? <==> l.count < 0
    ensures r.Returned? ==> r.value == l.count
  {
    if l.count < 0 then Panic else Returned(l.count)
  }

  // ---------------------------------------------------------------------
  // Lifecycle

  datatype PortList = PortList(list: Handle)

  /** `PortList::new`: `gp_port_info_list_new`; no owner exists when it fails. */
  method NewPortList(host: Host, status: int) returns (r: Result<PortList>)
    requires host.Valid()
    modifies host`kinds, host`nextHandle, host`live
    ensures host.Valid()
    ensures r.Ok? <==> status == GP_OK
    ensures r.Err? ==> r.error == Error(status) && unchanged(host)
    ensures r.Ok? ==> host.Owned(r.value.list, PortListHandle) && r.value.list !in old(host.kinds)
    ensures r.Ok? ==> host.kinds == old(host.kinds)[r.value.list := PortListHandle]
    ensures r.Ok? ==> host.live == old(host.live) + {r.value.list}
  {
    var h := host.Acquire(PortListHandle, status);
    if h.Err? {
      return Err(h.error);
    }
    r := Ok(PortList(h.value));
  }

  /** `PortList::load`: the probe's status, checked; the list stays owned either way. */
  method Load(host: Host, l: PortList, status: int) returns (r: Result<()>)
    requires host.Valid() && host.Owned(l.list, PortListHandle)
    ensures r.Ok? <==> status == GP_OK
    ensures r.Err? ==> r.error == Error(status)
  {
    r := Check(status);
  }

  /** `Drop for PortList`: one `gp_port_info_list_free`. */
  method DropPortList(host: Host, l: PortList)
    requires host.Valid() && host.Owned(l.list, PortListHandle)
    modifies host`live, host`releases
    ensures host.Valid() && !host.Owned(l.list, PortListHandle)
    ensures host.live == old(host.live) - {l.list}
    ensures host.releases == old(host.releases) + [l.list]
  {
    host.Release(l.list);
  }
}
