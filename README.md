# gphoto-rs core, modelled in Dafny

gphoto-rs is a Rust binding to libgphoto2, the C library for driving digital
cameras. Its core turns native calls into owned Rust values. Every `gp_*_new`
handle gets an owner whose `Drop` releases it exactly once. Every status code
goes through one check: GP_OK continues, anything else becomes an `Error`.
Text that the native layer writes into C buffers is decoded to Rust strings:
strict UTF-8 for `CameraText`, lossy decoding for list entries, port
descriptions and file paths.

The model is organised in modules:

- `Gp` (gp.dfy) holds the status codes, `Error`, `Result`, and `Checked`,
  the outcome of a wrapper that panics instead of returning an error. It also
  holds `Check`, the status test every `try_unsafe!` call site performs.
- `CStr` (cstr.dfy) reads a C string: the bytes before the first NUL.
- `Utf8` (utf8.dfy) follows RFC 3629, section 4:
  - the grammar of one encoded character (`IsChar`);
  - the scanner that validates a byte string (`CharLen`, `Valid`);
  - encoding and decoding of Unicode scalar values, with both round trips;
  - the lossy decoding `String::from_utf8_lossy` performs. Each maximal
    invalid subpart becomes U+FFFD.
- `Native` (native.dfy) is the state outside the binding. A `Host` object
  holds:
  - the handles libgphoto2 handed out, which are still live, and the
    sequence of release calls issued;
  - the files and open descriptors that `FileMedia` touches.

  Its invariant `Valid` says a handle is released only by the owner that
  holds it, and at most once. Native calls are inputs: each operation
  receives the status the native call returns and the memory it fills.
- `Cameras` (camera.dfy) models src/camera.rs, `Ports` (port.rs) models
  src/port.rs, and `Media` (media.dfy) models src/media.rs.

Values the binding only reads (text buffers, list entries, port
descriptions) are datatypes. Owners are datatypes holding a handle. Their
constructors and `Drop` are methods that change the `Host`.

## Model

| member | source | states |
|---|---|---|
| Gp.Check | src/camera.rs:31 | GP_OK lets the wrapper continue; any other status is returned as the error with that code |
| CStr.NulIndex | src/camera.rs:296-298 | the index found is the first NUL of the buffer |
| CStr.UntilNul | src/camera.rs:296-298 | the C string is the prefix before the first NUL: strictly shorter than the buffer, followed by a NUL, without a NUL inside |
| CStr.UntilNulOfTerminated | src/camera.rs:296-298 | a NUL-free string followed by a NUL and arbitrary bytes reads back as exactly that string |
| Utf8.CharLen | src/camera.rs:304 | the scanner accepts a prefix only if it is one well-formed character in the RFC 3629 grammar, and it accepts every well-formed character at its exact length |
| Utf8.EncodeChar | src/camera.rs:304 | the encoding of a scalar value is one well-formed character |
| Utf8.DecodeEncodeChar | src/camera.rs:304 | decoding the encoding of a scalar value gives the value back |
| Utf8.EncodeDecodeChar | src/camera.rs:304 | re-encoding the decoding of a well-formed character gives the same bytes |
| Utf8.DecodeEncode | src/camera.rs:304 | the encoding of any string is valid UTF-8 and decodes back to the string |
| Utf8.EncodeDecode | src/camera.rs:304 | valid UTF-8 re-encodes from its decoding to the same bytes |
| Utf8.ValidIffEncoding | src/camera.rs:304 | bytes are accepted as UTF-8 if and only if they are the encoding of some string of scalar values |
| Utf8.EncodeWithoutNul | src/camera.rs:296-304 | a string without U+0000 encodes to bytes without a NUL, so its C string is all of it |
| Utf8.LossyValid | src/camera.rs:248 | the lossy decoding of any bytes is valid UTF-8 |
| Utf8.LossyIdentity | src/camera.rs:248 | the lossy decoding leaves bytes unchanged if and only if they already are valid UTF-8 |
| Cameras.TextToString | src/camera.rs:295-307 | the result is the payload before the first NUL, returned unchanged, and only when it is valid UTF-8; otherwise it is CorruptedData, never a lossy conversion |
| Cameras.TextRoundTrip | src/camera.rs:295-307 | a buffer holding the encoding of a NUL-free string, then a NUL, then anything, decodes to that string |
| Cameras.TextAcceptsEncodings | src/camera.rs:304-306 | a text is accepted exactly when its payload is the encoding of some string |
| Cameras.FetchText | src/camera.rs:151-193 | `summary`, `manual` and `about_driver` return the native error on failure (NotSupported stays NotSupported) and read the buffer only on GP_OK; any text returned is valid UTF-8 |
| Cameras.Storage | src/camera.rs:123-138 | on GP_OK the result holds exactly the `len` descriptors at the head of the native buffer, in order; on failure the native error |
| Cameras.AsCInt | src/camera.rs:238 | the `usize` to `c_int` cast keeps the index modulo 2^32 in the 32-bit signed range; indices below 2^31 are unchanged |
| Cameras.Len | src/camera.rs:224-232 | `CameraList::len` returns the native count; it panics exactly when the count is negative |
| Cameras.CStrOf | src/camera.rs:240-242 | an accessor's status is checked before its string pointer is read; on GP_OK the result is that C string |
| Cameras.LossyString | src/camera.rs:246-250 | mapping the lossy conversion over a result keeps the error, and the string becomes valid UTF-8, unchanged when it already was |
| Cameras.NameCStr | src/camera.rs:237-243 | entry `i`'s name comes from `gp_list_get_name` at the cast index, or that call's error |
| Cameras.Name | src/camera.rs:246-250 | `name` fails exactly when `name_cstr` does; its result is valid UTF-8 and equals the raw name when the raw name is valid |
| Cameras.ValueCStrAsWritten | src/camera.rs:255-261 | as written, `value_cstr` succeeds exactly when `gp_list_get_name` does, and returns that call's C string or its error |
| Cameras.ValueAsWrittenIsName | src/camera.rs:237-261 | as written, every entry's value equals its name, whatever the list holds |
| Cameras.ValueAsWrittenMissesPort | src/camera.rs:46-59 | for the entry ("D750", "usb:") that autodetection documents, the value reads "D750" where the port was meant |
| Cameras.ValueAsWritten | src/camera.rs:263-268 | as written, `value` fails exactly when `gp_list_get_name` fails, with that call's error; otherwise its result is valid UTF-8 |
| Cameras.ValueAsWrittenEqualsName | src/camera.rs:246-268 | as written, `value(i)` and `name(i)` give the same result for every list and every index |
| Cameras.ValueCStr | src/camera.rs:252-261 | corrected: entry `i`'s value comes from `gp_list_get_value`, or that call's error |
| Cameras.Value | src/camera.rs:263-268 | corrected: `value` fails exactly when the value accessor does; its result is valid UTF-8 and equals the raw value when that is valid |
| Cameras.Directory | src/camera.rs:278-282 | the folder, lossily decoded: always valid UTF-8, and equal to the raw folder exactly when that is valid |
| Cameras.Basename | src/camera.rs:285-289 | the file name, lossily decoded, with the same two properties |
| Cameras.NewCamera | src/camera.rs:28-35 | an owner exists exactly when `gp_camera_new` returned GP_OK; it holds a fresh live handle and every other handle keeps its kind; on failure nothing changes |
| Cameras.DropCamera | src/camera.rs:18-24 | one release call, for the owner's handle, which is no longer live |
| Cameras.NewCameraList | src/camera.rs:208-216 | an owner exists exactly when `gp_list_new` returned GP_OK, holding a fresh live handle; every other handle keeps its kind |
| Cameras.DropCameraList | src/camera.rs:200-206 | one release call, for the list's handle |
| Cameras.Autodetect | src/camera.rs:50-59 | a list is returned only when both native calls succeed; on success the list's handle is fresh and every other handle keeps its kind; when detection fails, the fresh list is released exactly once and nothing stays live |
| Ports.TypeOf | src/port.rs:73-81 | each named port type comes from its own code, and `Other` comes exactly from GP_PORT_NONE and every code no named type has |
| Ports.TypeOfCodeOf | src/port.rs:74-79 | decoding the code of a named type gives the type back |
| Ports.PortTypeOf | src/port.rs:66-82 | panics exactly when `gp_port_info_get_type` fails; otherwise decodes the code |
| Ports.Name | src/port.rs:85-92 | panics exactly when the getter fails; otherwise valid UTF-8, equal to the raw name when that is valid |
| Ports.Path | src/port.rs:95-102 | the same for the path |
| Ports.IndexOf | src/port.rs:153-160 | a non-negative native answer is the index; a negative one is the error with that code |
| Ports.LookupName | src/port.rs:148-161 | a name with an embedded NUL gives BadParameters without asking the native layer; otherwise succeeds exactly when the native lookup is non-negative, and returns that index or that error |
| Ports.LookupPath | src/port.rs:168-181 | the same rules for the path lookup |
| Ports.LookupIgnoresNativeOnNul | src/port.rs:149-152 | a key with an embedded NUL gets the same answer whatever the native list holds |
| Ports.Len | src/port.rs:189-197 | the native count; a panic exactly when it is negative |
| Ports.NewPortList | src/port.rs:127-133 | an owner exists exactly when `gp_port_info_list_new` returned GP_OK, holding a fresh live handle; every other handle keeps its kind |
| Ports.Load | src/port.rs:139-143 | succeeds exactly when `gp_port_info_list_load` returns GP_OK, and otherwise returns its error |
| Ports.DropPortList | src/port.rs:117-123 | one release call, for the list's handle |
| Native.Host.Acquire | src/camera.rs:28-35 | on GP_OK a new handle, never handed out before, becomes live; otherwise nothing changes |
| Native.Host.Release | src/media.rs:22-28 | the handle leaves the live set and is appended to the release calls once |
| Native.Host.OpenExclusive | src/media.rs:48-51 | an open with O_CREAT and O_EXCL succeeds only on an absent path, creates it empty and opens it; it fails without change on an existing path or a refusal |
| Native.Host.Close | src/media.rs:60-62 | the descriptor is no longer open |
| Native.Host.WrapFd | src/media.rs:55 | on GP_OK a new live file handle takes the descriptor; otherwise nothing changes |
| Native.ReleasedExactlyOnce | src/media.rs:22-28 | in every reachable state, each handle ever handed out has had exactly one release call if no owner holds it, and none while one does |
| Media.Create | src/media.rs:40-67 | an embedded NUL gives BadParameters and every open failure gives FileExists, both with nothing changed; an existing file is never touched; on success a fresh empty file's descriptor belongs to a new live handle; if wrapping fails the descriptor is closed; no descriptor is left without an owner; only the new handle is added to the kinds and live handles |
| Media.New | src/media.rs:69-80 | an in-memory owner exists exactly when `gp_file_new` returned GP_OK, holding a fresh live handle while every other handle keeps its kind; on failure nothing changes |
| Media.FromFileAsWritten | src/media.rs:90-104 | as written: on success a fresh live handle, and no other, is added and owns the descriptor; on failure the host is unchanged, so the descriptor, taken from the `File`, stays open with no owner |
| Media.FromFile | src/media.rs:90-104 | corrected: on success a fresh live handle, and no other, is added and owns the descriptor; on failure the descriptor is closed and nothing else changes, so no descriptor is orphaned on either path |
| Media.FromRawFd | src/media.rs:107-124 | on GP_OK a fresh live handle, and no other, is added and takes the descriptor; on failure nothing changes, and the caller keeps its descriptor |
| Media.Drop | src/media.rs:22-28 | one `gp_file_unref` for the owner's handle, which is no longer live |

## Left out

- `Camera::init`, `capture_image`, `download` and `capture_preview` are each a single native call followed by the status check (`Gp.Check`). What the driver does inside them is native behaviour.
- `Camera::port` and `Camera::abilities` are left out. They assert the getter's status and convert the result with `from_libgphoto2`. Abilities is not part of this model. A port is modelled from its getters' answers (`Ports.PortInfo`).
- `Context`, `Abilities` and `Storage` are not part of this model. A storage descriptor is a type parameter of `Cameras.Storage`.
- The `try_unsafe!` macro and `error::from_libgphoto2` are not part of this model. The model takes them as `Gp.Check` and `Error(code)`.
- Status and port-type codes use the values of the libgphoto2 headers. Only their distinctness matters to the proofs.
- Memory ownership is not modelled: the `Vec::from_raw_parts` reconstructions in `storage` and `camera_text_to_string` are modelled by their values only. `camera_text_to_string` hands memory it does not own (the `CameraText` on the stack) to the allocator as a `Vec`.
- The lifetime tying a `Port` to its `Camera` (`PhantomData`) is a compile-time borrow, so it is left out.
- Cameras.Storage: requires `0 <= len <= |buffer|` on GP_OK. The source trusts the native count without a check, and a negative count cast to `usize` is not modelled.
- The native list behind `CameraList` and `PortList` is not modelled. Its count, entries and lookups are inputs, including the pattern fallback of `gp_port_info_list_lookup_path`. An out-of-range index is whatever status the native accessor returns.
- What `gp_file_unref` does with a descriptor it was given is native behaviour. The model keeps such descriptors in `Host.handedOver` and does not close them on `Media.Drop`.
- Which descriptor number the kernel returns, and why it refuses an open, are parameters of `Media.Create`.
- The documentation of `FileMedia::create` lists FileExists only for an existing file. The code returns FileExists for every failure of `open`, and the model follows the code.
- A camera's Unbound/Bound state before and after `init` is not tracked: the binding never checks it.

## Findings

| source | as written | input that shows it | evidently intended | confidence | as-written member | corrected member |
|---|---|---|---|---|---|---|
| src/camera.rs:258 | `value_cstr` reads entry `i` with `gp_list_get_name`, so `value` returns the name | the autodetected entry "D750" on port "usb:": `value(0)` gives "D750" | read it with `gp_list_get_value`, which gives the port, as the documentation of `autodetect` (src/camera.rs:46-49) says | high; not executed | Cameras.ValueCStrAsWritten | Cameras.ValueCStr |
| src/media.rs:96-102 | `try_from(File)` takes the descriptor out of the `File` with `into_raw_fd`, and when `gp_file_new_from_fd` fails nothing closes it | any open `File` and a failing `gp_file_new_from_fd` (a status other than GP_OK): the descriptor stays open with no owner | close the descriptor on failure, as `create` does at src/media.rs:59-65 | medium; not executed | Media.FromFileAsWritten | Media.FromFile |
