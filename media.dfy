/**
 * `FileMedia` (src/media.rs): an owner of one native `CameraFile` handle,
 * backed by a file on disk, a caller's descriptor, or memory.
 *
 * The caller's descriptors are the ghost set `held`; `Host.Accounted(held)`
 * says no open descriptor is left without an owner.
 */
module Media {
  import opened Gp
  import opened Native

  datatype FileMedia = FileMedia(file: Handle)

  /** `m` is an owner whose handle is live: it has not been dropped. */
  ghost predicate Owns(host: Host, m: FileMedia)
    reads host
  {
    host.Owned(m.file, FileHandle)
  }

  /**
   * `FileMedia::create`: exclusively create a new, empty file at `path` and
   * wrap its descriptor. `refused` is whether the kernel refuses the open for
   * a reason other than an existing path; `fd` is the descriptor it would
   * return; `status` is what `gp_file_new_from_fd` returns.
   */
  method Create(host: Host, path: Path, refused: bool, fd: Fd, status: int, ghost held: set<Fd>)
    returns (r: Result<FileMedia>)
    requires host.Valid() && host.Accounted(held) && fd !in host.fds
    modifies host`files, host`fds, host`kinds, host`nextHandle, host`live, host`handedOver
    ensures host.Valid() && host.Accounted(held)
    // An embedded NUL: nothing is opened.
    ensures 0 in path ==> r == Err(Error(GP_ERROR_BAD_PARAMETERS)) && unchanged(host)
    // Every failure of open, whatever its cause, reads as FileExists; nothing changes.
    ensures 0 !in path && (path in old(host.files) || refused) ==>
              r == Err(Error(GP_ERROR_FILE_EXISTS)) && unchanged(host)
    // An existing file is never created anew or modified.
    ensures path in old(host.files) ==> host.files == old(host.files)
    ensures r.Ok? <==> 0 !in path && path !in old(host.files) && !refused && status == GP_OK
    // Success: a fresh empty file, whose descriptor now belongs to a new live handle.
    ensures r.Ok? ==> Owns(host, r.value) && r.value.file !in old(host.kinds)
    ensures r.Ok? ==> host.kinds == old(host.kinds)[r.value.file := FileHandle]
    ensures r.Ok? ==> host.live == old(host.live) + {r.value.file}
    ensures r.Ok? ==> host.files == old(host.files)[path := []]
    ensures r.Ok? ==> host.fds == old(host.fds)[fd := path] && host.handedOver == old(host.handedOver) + {fd}
    // gp_file_new_from_fd failed: the descriptor is closed again (the empty file stays).
    ensures 0 !in path && path !in old(host.files) && !refused && status != GP_OK ==>
              && r == Err(Error(status))
              && host.files == old(host.files)[path := []]
              && host.fds == old(host.fds)
              && host.kinds == old(host.kinds) && host.live == old(host.live)
              && host.handedOver == old(host.handedOver)
  {
    if 0 in path {
      return Err(Error(GP_ERROR_BAD_PARAMETERS));
    }
    var rc := host.OpenExclusive(path, refused, fd);
    if rc < 0 {
      return Err(Error(GP_ERROR_FILE_EXISTS));
    }
    var wrapped := host.WrapFd(fd, status);
    if wrapped.Err? {
      host.Close(fd);
      return Err(wrapped.error);
    }
    r := Ok(FileMedia(wrapped.value));
  }

  /** `FileMedia::new`: an in-memory file; on failure no owner exists and nothing is released. */
  method New(host: Host, status: int) returns (r: Result<FileMedia>)
    requires host.Valid()
    modifies host`kinds, host`nextHandle, host`live
    ensures host.Valid()
    ensures r.Ok? <==> status == GP_OK
    ensures r.Err? ==> r.error == Error(status) && unchanged(host)
    ensures r.Ok? ==> Owns(host, r.value) && r.value.file !in old(host.kinds)
    ensures r.Ok? ==> host.kinds == old(host.kinds)[r.value.file := FileHandle]
    ensures r.Ok? ==> host.live == old(host.live) + {r.value.file}
  {
    var h := host.Acquire(FileHandle, status);
    if h.Err? {
      return Err(h.error);
    }
    r := Ok(FileMedia(h.value));
  }

  /**
   * `TryFrom<File>` as written: the `File` is consumed (`into_raw_fd`) and its
   * descriptor passed to `gp_file_new_from_fd`; when that fails, nothing
   * closes the descriptor, which stays open with no owner.
   */
  method FromFileAsWritten(host: Host, fd: Fd, status: int, ghost held: set<Fd>)
    returns (r: Result<FileMedia>)
    requires host.Valid() && host.Accounted(held) && fd in held && fd in host.fds
    requires fd !in host.handedOver
    modifies host`kinds, host`nextHandle, host`live, host`handedOver
    ensures host.Valid()
    ensures r.Ok? <==> status == GP_OK
    ensures r.Ok? ==> Owns(host, r.value) && r.value.file !in old(host.kinds)
    ensures r.Ok? ==> host.kinds == old(host.kinds)[r.value.file := FileHandle]
    ensures r.Ok? ==> host.live == old(host.live) + {r.value.file}
    ensures r.Ok? ==> host.handedOver == old(host.handedOver) + {fd} && host.Accounted(held - {fd})
    ensures r.Err? ==> r.error == Error(status) && unchanged(host)
    // The leak: the caller no longer holds the descriptor, yet it is open and nobody owns it.
    ensures r.Err? ==> fd in host.fds && !host.Accounted(held - {fd})
  {
    var wrapped := host.WrapFd(fd, status);
    if wrapped.Err? {
      return Err(wrapped.error);
    }
    r := Ok(FileMedia(wrapped.value));
  }

  /**
   * `TryFrom<File>` as intended: like `create`, close the descriptor when
   * `gp_file_new_from_fd` fails, so that no descriptor is orphaned.
   */
  method FromFile(host: Host, fd: Fd, status: int, ghost held: set<Fd>)
    returns (r: Result<FileMedia>)
    requires host.Valid() && host.Accounted(held) && fd in held && fd in host.fds
    modifies host`kinds, host`nextHandle, host`live, host`handedOver, host`fds
    ensures host.Valid() && host.Accounted(held - {fd})
    ensures r.Ok? <==> status == GP_OK
    ensures r.Ok? ==> Owns(host, r.value) && r.value.file !in old(host.kinds)
    ensures r.Ok? ==> host.kinds == old(host.kinds)[r.value.file := FileHandle]
    ensures r.Ok? ==> host.live == old(host.live) + {r.value.file}
    ensures r.Ok? ==> host.fds == old(host.fds) && host.handedOver == old(host.handedOver) + {fd}
    ensures r.Err? ==> r.error == Error(status) && host.fds == old(host.fds) - {fd}
    ensures r.Err? ==> host.live == old(host.live) && host.kinds == old(host.kinds)
    ensures r.Err? ==> host.handedOver == old(host.handedOver)
  {
    var wrapped := host.WrapFd(fd, status);
    if wrapped.Err? {
      host.Close(fd);
      return Err(wrapped.error);
    }
    r := Ok(FileMedia(wrapped.value));
  }

  /**
   * `TryFrom<RawFd>`: the descriptor is passed on as is; the caller keeps
   * its copy and must keep it open long enough.
   */
  method FromRawFd(host: Host, fd: Fd, status: int) returns (r: Result<FileMedia>)
    requires host.Valid()
    modifies host`kinds, host`nextHandle, host`live, host`handedOver
    ensures host.Valid()
    ensures r.Ok? <==> status == GP_OK
    ensures r.Err? ==> r.error == Error(status) && unchanged(host)
    ensures r.Ok? ==> Owns(host, r.value) && r.value.file !in old(host.kinds)
    ensures r.Ok? ==> host.kinds == old(host.kinds)[r.value.file := FileHandle]
    ensures r.Ok? ==> host.live == old(host.live) + {r.value.file}
    ensures r.Ok? ==> host.handedOver == old(host.handedOver) + {fd}
  {
    var wrapped := host.WrapFd(fd, status);
    if wrapped.Err? {
      return Err(wrapped.error);
    }
    r := Ok(FileMedia(wrapped.value));
  }

  /** `Drop for FileMedia`: one `gp_file_unref` for the owner's handle. */
  method Drop(host: Host, m: FileMedia)
    requires host.Valid() && Owns(host, m)
    modifies host`live, host`releases
    ensures host.Valid() && !Owns(host, m)
    ensures host.live == old(host.live) - {m.file}
    ensures host.releases == old(host.releases) + [m.file]
  {
    host.Release(m.file);
  }
}
