/**
 * src/camera.rs: the camera handle, the list autodetection fills, the
 * reference to a file on the camera, and the decoding of the text the
 * native layer writes into fixed-capacity buffers.
 */
module Cameras {
  import opened Gp
  import opened CStr
  import opened Native
  import Utf8

  // ---------------------------------------------------------------------
  // Text buffers

  /** `CameraText`: a fixed-capacity buffer the native layer writes a C string into. */
  datatype CameraText = CameraText(text: seq<Byte>)

  /**
   * `util::camera_text_to_string`: the bytes before the first NUL, checked
   * strictly as UTF-8; never a lossy conversion.
   */
  function TextToString(t: CameraText): (r: Result<seq<Byte>>)
    requires 0 in t.text
    // The payload is exactly the bytes before the first NUL, so shorter than the buffer.
    ensures r.Ok? ==> |r.value| < |t.text| && r.value == t.text[..|r.value|]
    ensures r.Ok? ==> t.text[|r.value|] == 0 && 0 !in r.value
    // It is returned unchanged, and only when it is valid UTF-8.
    ensures r.Ok? ==> Utf8.Valid(r.value) && Utf8.Lossy(r.value) == r.value
    ensures r.Err? <==> !Utf8.Valid(UntilNul(t.text))
    ensures r.Err? ==> r.error == Error(GP_ERROR_CORRUPTED_DATA)
  {
    var payload := UntilNul(t.text);
    Utf8.LossyIdentity(payload);
    if Utf8.Valid(payload) then Ok(payload) else Err(Error(GP_ERROR_CORRUPTED_DATA))
  }

  /**
   * A buffer holding the encoding of a string without U+0000, then a NUL,
   * then anything, reads back as that encoding, and it decodes to the
   * string.
   */
  lemma TextRoundTrip(cs: seq<Utf8.Scalar>, rest: seq<Byte>)
    requires forall i :: 0 <= i < |cs| ==> cs[i] != 0
    ensures 0 in Utf8.Encode(cs) + [0] + rest
    ensures TextToString(CameraText(Utf8.Encode(cs) + [0] + rest)) == Ok(Utf8.Encode(cs))
    ensures Utf8.Valid(Utf8.Encode(cs)) && Utf8.Decode(Utf8.Encode(cs)) == cs
  {
    Utf8.EncodeWithoutNul(cs);
    UntilNulOfTerminated(Utf8.Encode(cs), rest);
    Utf8.DecodeEncode(cs);
  }

  /** A text is accepted exactly when its payload encodes some string of scalar values. */
  lemma TextAcceptsEncodings(t: CameraText)
    requires 0 in t.text
    ensures TextToString(t).Ok? <==> exists cs :: Utf8.Encode(cs) == UntilNul(t.text)
  {
    Utf8.ValidIffEncoding(UntilNul(t.text));
  }

  /**
   * The shape shared by `summary`, `manual` and `about_driver`: one native
   * call that fills a `CameraText`, whose status is checked before the
   * buffer is decoded. The buffer is read only on GP_OK.
   */
  function FetchText(status: int, t: CameraText): (r: Result<seq<Byte>>)
    requires status == GP_OK ==> 0 in t.text
    ensures status != GP_OK ==> r == Err(Error(status))
    ensures status == GP_OK ==> r == TextToString(t)
    // A driver without the text yields NotSupported, never an empty string.
    ensures status == GP_ERROR_NOT_SUPPORTED ==> r.Err? && r.error.code == GP_ERROR_NOT_SUPPORTED
    ensures r.Ok? ==> status == GP_OK && Utf8.Valid(r.value)
  {
    match Check(status)
    case Err(e) => Err(e)
    case Ok(_) => TextToString(t)
  }

  /**
   * `storage`: the native layer returns a buffer of descriptors and its
   * length; the binding takes exactly `len` of them. The buffer must hold
   * that many, which the binding trusts without a check.
   */
  function Storage<S>(status: int, buffer: seq<S>, len: int): (r: Result<seq<S>>)
    requires status == GP_OK ==> 0 <= len <= |buffer|
    ensures r.Ok? <==> status == GP_OK
    ensures r.Err? ==> r.error == Error(status)
    ensures r.Ok? ==> |r.value| == len
    ensures r.Ok? ==> forall i :: 0 <= i < len ==> r.value[i] == buffer[i]
  {
    match Check(status)
    case Err(e) => Err(e)
    case Ok(_) => Ok(buffer[..len])
  }

  // ---------------------------------------------------------------------
  // CameraList entries

  /** What a `gp_list_get_*` call returns: a status, and the memory its string pointer points at. */
  datatype Reply = Reply(status: int, mem: seq<Byte>)

  /** A reply whose string, when there is one, is NUL-terminated. */
  predicate Terminated(reply: Reply) {
    reply.status == GP_OK ==> 0 in reply.mem
  }

  /** The native state behind a `CameraList` handle, seen through its accessors. */
  datatype ListState = ListState(count: int, getName: int -> Reply, getValue: int -> Reply)

  /** `i as libc::c_int`: keeps the low 32 bits of the index, read as two's complement. */
  function AsCInt(i: nat): (c: int)
    ensures -0x8000_0000 <= c < 0x8000_0000
    ensures (i - c) % 0x1_0000_0000 == 0
    ensures i < 0x8000_0000 ==> c == i
  {
    var low := i % 0x1_0000_0000;
    if low < 0x8000_0000 then low else low - 0x1_0000_0000
  }

  /** `CameraList::len`: the native count, or a panic when it is negative. */
  function Len(l: ListState): (r: Checked<nat>)
    ensures r.Panic? <==> l.count < 0
    ensures r.Returned? ==> r.value == l.count
  {
    if l.count < 0 then Panic else Returned(l.count)
  }

  /** A string-returning accessor: its status is checked, then the C string is read. */
  function CStrOf(reply: Reply): (r: Result<seq<Byte>>)
    requires Terminated(reply)
    ensures r.Ok? <==> reply.status == GP_OK
    ensures r.Err? ==> r.error == Error(reply.status)
    ensures r.Ok? ==> r.value == UntilNul(reply.mem)
  {
    match Check(reply.status)
    case Err(e) => Err(e)
    case Ok(_) => Ok(UntilNul(reply.mem))
  }

  /** A lossily decoded string: always valid UTF-8, and the bytes themselves when they already were. */
  function LossyString(r: Result<seq<Byte>>): (s: Result<seq<Byte>>)
    ensures s.Ok? <==> r.Ok?
    ensures s.Err? ==> s.error == r.error
    ensures s.Ok? ==> Utf8.Valid(s.value)
    ensures s.Ok? ==> (s.value == r.value <==> Utf8.Valid(r.value))
  {
    match r
    case Err(e) => Err(e)
    case Ok(bytes) =>
      Utf8.LossyValid(bytes);
      Utf8.LossyIdentity(bytes);
      Ok(Utf8.Lossy(bytes))
  }

  /** `CameraList::name_cstr`: the `i`th name, read with `gp_list_get_name`. */
  function NameCStr(l: ListState, i: nat): (r: Result<seq<Byte>>)
    requires Terminated(l.getName(AsCInt(i)))
    ensures r.Ok? <==> l.getName(AsCInt(i)).status == GP_OK
    ensures r.Err? ==> r.error == Error(l.getName(AsCInt(i)).status)
    ensures r.Ok? ==> r.value == UntilNul(l.getName(AsCInt(i)).mem)
  {
    CStrOf(l.getName(AsCInt(i)))
  }

  /** `CameraList::name`: the lossy decoding of `name_cstr`, or its error. */
  function Name(l: ListState, i: nat): (r: Result<seq<Byte>>)
    requires Terminated(l.getName(AsCInt(i)))
    ensures r.Ok? <==> l.getName(AsCInt(i)).status == GP_OK
    ensures r.Err? ==> r.error == Error(l.getName(AsCInt(i)).status)
    ensures r.Ok? ==> Utf8.Valid(r.value)
    ensures r.Ok? && Utf8.Valid(UntilNul(l.getName(AsCInt(i)).mem)) ==>
              r.value == UntilNul(l.getName(AsCInt(i)).mem)
  {
    LossyString(NameCStr(l, i))
  }

  /** `CameraList::value_cstr` as written: it calls `gp_list_get_name`, not `gp_list_get_value`. */
  function ValueCStrAsWritten(l: ListState, i: nat): (r: Result<seq<Byte>>)
    requires Terminated(l.getName(AsCInt(i)))
    ensures r.Ok? <==> l.getName(AsCInt(i)).status == GP_OK
    ensures r.Err? ==> r.error == Error(l.getName(AsCInt(i)).status)
    ensures r.Ok? ==> r.value == UntilNul(l.getName(AsCInt(i)).mem)
  {
    CStrOf(l.getName(AsCInt(i)))
  }

  /** As written, every value is the name of the same entry, whatever the list holds. */
  lemma ValueAsWrittenIsName(l: ListState, i: nat)
    requires Terminated(l.getName(AsCInt(i)))
    ensures ValueCStrAsWritten(l, i) == NameCStr(l, i)
  {
  }

  /** `CameraList::value` as written: the lossy decoding of `value_cstr` as written. */
  function ValueAsWritten(l: ListState, i: nat): (r: Result<seq<Byte>>)
    requires Terminated(l.getName(AsCInt(i)))
    ensures r.Ok? <==> l.getName(AsCInt(i)).status == GP_OK
    ensures r.Err? ==> r.error == Error(l.getName(AsCInt(i)).status)
    ensures r.Ok? ==> Utf8.Valid(r.value)
  {
    LossyString(ValueCStrAsWritten(l, i))
  }

  /** As written, `value(i)` and `name(i)` give the same result for every list and index. */
  lemma ValueAsWrittenEqualsName(l: ListState, i: nat)
    requires Terminated(l.getName(AsCInt(i)))
    ensures ValueAsWritten(l, i) == Name(l, i)
  {
    ValueAsWrittenIsName(l, i);
  }

  /**
   * A one-entry list, camera "D750" on port "usb:": as written the value
   * reads "D750", where the port was meant.
   */
  lemma ValueAsWrittenMissesPort()
    ensures var name: seq<Byte>, port: seq<Byte> := [0x44, 0x37, 0x35, 0x30], [0x75, 0x73, 0x62, 0x3A];
            var l := ListState(1, _ => Reply(GP_OK, name + [0]), _ => Reply(GP_OK, port + [0]));
            && ValueCStrAsWritten(l, 0) == Ok(name)
            && ValueCStr(l, 0) == Ok(port)
            && ValueCStrAsWritten(l, 0) != ValueCStr(l, 0)
  {
    var name: seq<Byte>, port: seq<Byte> := [0x44, 0x37, 0x35, 0x30], [0x75, 0x73, 0x62, 0x3A];
    UntilNulOfTerminated(name, []);
    UntilNulOfTerminated(port, []);
    assert name + [0] == name + [0] + [];
    assert port + [0] == port + [0] + [];
    assert name[0] != port[0];
  }

  /** `CameraList::value_cstr` as intended: the `i`th value, read with `gp_list_get_value`. */
  function ValueCStr(l: ListState, i: nat): (r: Result<seq<Byte>>)
    requires Terminated(l.getValue(AsCInt(i)))
    ensures r.Ok? <==> l.getValue(AsCInt(i)).status == GP_OK
    ensures r.Err? ==> r.error == Error(l.getValue(AsCInt(i)).status)
    ensures r.Ok? ==> r.value == UntilNul(l.getValue(AsCInt(i)).mem)
  {
    CStrOf(l.getValue(AsCInt(i)))
  }

  /** `CameraList::value`: the lossy decoding of `value_cstr`, or its error. */
  function Value(l: ListState, i: nat): (r: Result<seq<Byte>>)
    requires Terminated(l.getValue(AsCInt(i)))
    ensures r.Ok? <==> l.getValue(AsCInt(i)).status == GP_OK
    ensures r.Err? ==> r.error == Error(l.getValue(AsCInt(i)).status)
    ensures r.Ok? ==> Utf8.Valid(r.value)
    ensures r.Ok? && Utf8.Valid(UntilNul(l.getValue(AsCInt(i)).mem)) ==>
              r.value == UntilNul(l.getValue(AsCInt(i)).mem)
  {
    LossyString(ValueCStr(l, i))
  }

  // ---------------------------------------------------------------------
  // CameraFile

  /** `CameraFilePath`: the folder and name buffers of a file on the camera. */
  datatype CameraFile = CameraFile(folder: seq<Byte>, name: seq<Byte>)

  /** `CameraFile::directory`: the folder, lossily decoded. */
  function Directory(f: CameraFile): (d: seq<Byte>)
    requires 0 in f.folder
    ensures Utf8.Valid(d)
    ensures d == UntilNul(f.folder) <==> Utf8.Valid(UntilNul(f.folder))
  {
    Utf8.LossyValid(UntilNul(f.folder));
    Utf8.LossyIdentity(UntilNul(f.folder));
    Utf8.Lossy(UntilNul(f.folder))
  }

  /** `CameraFile::basename`: the file name, lossily decoded. */
  function Basename(f: CameraFile): (b: seq<Byte>)
    requires 0 in f.name
    ensures Utf8.Valid(b)
    ensures b == UntilNul(f.name) <==> Utf8.Valid(UntilNul(f.name))
  {
    Utf8.LossyValid(UntilNul(f.name));
    Utf8.LossyIdentity(UntilNul(f.name));
    Utf8.Lossy(UntilNul(f.name))
  }

  // ---------------------------------------------------------------------
  // Lifecycles

  datatype Camera = Camera(camera: Handle)
  datatype CameraList = CameraList(list: Handle)

  /** `Camera::new`: `gp_camera_new`; no owner exists when it fails. */
  method NewCamera(host: Host, status: int) returns (r: Result<Camera>)
    requires host.Valid()
    modifies host`kinds, host`nextHandle, host`live
    ensures host.Valid()
    ensures r.Ok? <==> status == GP_OK
    ensures r.Err? ==> r.error == Error(status) && unchanged(host)
    ensures r.Ok? ==> host.Owned(r.value.camera, CameraHandle) && r.value.camera !in old(host.kinds)
    ensures r.Ok? ==> host.kinds == old(host.kinds)[r.value.camera := CameraHandle]
    ensures r.Ok? ==> host.live == old(host.live) + {r.value.camera}
  {
    var h := host.Acquire(CameraHandle, status);
    if h.Err? {
      return Err(h.error);
    }
    r := Ok(Camera(h.value));
  }

  /** `Drop for Camera`: one `gp_camera_unref`. */
  method DropCamera(host: Host, c: Camera)
    requires host.Valid() && host.Owned(c.camera, CameraHandle)
    modifies host`live, host`releases
    ensures host.Valid() && !host.Owned(c.camera, CameraHandle)
    ensures host.live == old(host.live) - {c.camera}
    ensures host.releases == old(host.releases) + [c.camera]
  {
    host.Release(c.camera);
  }

  /** `CameraList::new`: `gp_list_new`. */
  method NewCameraList(host: Host, status: int) returns (r: Result<CameraList>)
    requires host.Valid()
    modifies host`kinds, host`nextHandle, host`live
    ensures host.Valid()
    ensures r.Ok? <==> status == GP_OK
    ensures r.Err? ==> r.error == Error(status) && unchanged(host)
    ensures r.Ok? ==> host.Owned(r.value.list, CameraListHandle) && r.value.list !in old(host.kinds)
    ensures r.Ok? ==> host.kinds == old(host.kinds)[r.value.list := CameraListHandle]
    ensures r.Ok? ==> host.live == old(host.live) + {r.value.list}
  {
    var h := host.Acquire(CameraListHandle, status);
    if h.Err? {
      return Err(h.error);
    }
    r := Ok(CameraList(h.value));
  }

  /** `Drop for CameraList`: one `gp_list_unref`. */
  method DropCameraList(host: Host, l: CameraList)
    requires host.Valid() && host.Owned(l.list, CameraListHandle)
    modifies host`live, host`releases
    ensures host.Valid() && !host.Owned(l.list, CameraListHandle)
    ensures host.live == old(host.live) - {l.list}
    ensures host.releases == old(host.releases) + [l.list]
  {
    host.Release(l.list);
  }

  /**
   * `Camera::autodetect`: allocate a list, let the native layer fill it, and
   * return it only when that succeeded; otherwise the list is dropped on the
   * early return, so its handle is released.
   */
  method Autodetect(host: Host, newStatus: int, detectStatus: int) returns (r: Result<CameraList>)
    requires host.Valid()
    modifies host`kinds, host`nextHandle, host`live, host`releases
    ensures host.Valid()
    ensures r.Ok? <==> newStatus == GP_OK && detectStatus == GP_OK
    ensures newStatus != GP_OK ==> r == Err(Error(newStatus)) && unchanged(host)
    ensures r.Ok? ==> host.Owned(r.value.list, CameraListHandle) && r.value.list !in old(host.kinds)
    ensures r.Ok? ==> host.kinds == old(host.kinds)[r.value.list := CameraListHandle]
    ensures r.Ok? ==> host.live == old(host.live) + {r.value.list} && host.releases == old(host.releases)
    ensures newStatus == GP_OK && detectStatus != GP_OK ==>
              && r == Err(Error(detectStatus))
              && host.live == old(host.live)
              && exists h :: && h !in old(host.kinds)
                             && host.kinds == old(host.kinds)[h := CameraListHandle]
                             && host.releases == old(host.releases) + [h]
  {
    var list := NewCameraList(host, newStatus);
    if list.Err? {
      return Err(list.error);
    }
    var detected := Check(detectStatus);
    if detected.Err? {
      DropCameraList(host, list.value);
      return Err(detected.error);
    }
    r := list;
  }
}
