/**
 * The state the binding shares with the world outside it: the handles
 * libgphoto2 has handed out and the release calls issued for them, and the
 * part of the POSIX file system `FileMedia` touches (paths, open
 * descriptors).
 *
 * Handles are identified by allocation, not by address: a freed native
 * object whose memory is reused still counts as a different handle.
 */
module Native {
  import opened Gp

  type Handle = nat
  type Fd = nat
  type Path = seq<Byte>

  /** Which owner holds a handle, and so which release call it gets on drop. */
  datatype Kind =
    | CameraHandle      // released with gp_camera_unref
    | CameraListHandle  // released with gp_list_unref
    | PortListHandle    // released with gp_port_info_list_free
    | FileHandle        // released with gp_file_unref

  predicate Distinct<T(==)>(s: seq<T>) {
    forall i, j :: 0 <= i < j < |s| ==> s[i] != s[j]
  }

  /** In a sequence without repetitions every element occurs exactly once. */
  lemma {:induction false} CountInDistinct<T>(s: seq<T>, x: T)
    requires Distinct(s)
    ensures multiset(s)[x] == if x in s then 1 else 0
  {
    if s != [] {
      var init, last := s[..|s| - 1], s[|s| - 1];
      assert s == init + [last];
      assert Distinct(init);
      CountInDistinct(init, x);
      assert last !in init;
      assert multiset(s) == multiset(init) + multiset{last};
    }
  }

  class Host {
    // The native layer.
    var kinds: map<Handle, Kind>    // every handle ever handed out
    var nextHandle: Handle          // identity of the next allocation
    var live: set<Handle>           // handles some owner holds now
    var releases: seq<Handle>       // release calls issued, in order

    // The file system.
    var files: map<Path, seq<Byte>> // existing paths and their contents
    var fds: map<Fd, Path>          // open descriptors and what they refer to
    var handedOver: set<Fd>         // descriptors given to gp_file_new_from_fd

    /**
     * Every handle ever handed out is either still owned or has been
     * released, never both, and no handle was released twice.
     */
    ghost predicate Valid()
      reads this
    {
      && (forall h :: h in kinds ==> h < nextHandle)
      && live <= kinds.Keys
      && (forall h :: h in kinds ==> (h in live <==> h !in releases))
      && (forall i :: 0 <= i < |releases| ==> releases[i] in kinds)
      && Distinct(releases)
      && (forall fd :: fd in fds ==> fds[fd] in files)
    }

    /** `h` is held by a live owner of the given kind. */
    ghost predicate Owned(h: Handle, kind: Kind)
      reads this
    {
      h in live && h in kinds && kinds[h] == kind
    }

    /**
     * No descriptor is orphaned: each open one is held by the caller (`held`)
     * or has been passed to the native layer.
     */
    ghost predicate Accounted(held: set<Fd>)
      reads this
    {
      fds.Keys <= held + handedOver
    }

    constructor (existing: map<Path, seq<Byte>>)
      ensures Valid() && Accounted({})
      ensures kinds == map[] && live == {} && releases == []
      ensures files == existing && fds == map[] && handedOver == {}
    {
      kinds, nextHandle, live, releases := map[], 0, {}, [];
      files, fds, handedOver := existing, map[], {};
    }

    /** A `gp_*_new` call: on GP_OK the native layer hands out a new handle. */
    method Acquire(kind: Kind, status: int) returns (r: Result<Handle>)
      requires Valid()
      modifies this`kinds, this`nextHandle, this`live
      ensures Valid()
      ensures r.Ok? <==> status == GP_OK
      ensures r.Err? ==> r.error == Error(status) && unchanged(this)
      ensures r.Ok? ==> r.value !in old(kinds) && kinds == old(kinds)[r.value := kind]
      ensures r.Ok? ==> live == old(live) + {r.value}
    {
      if status != GP_OK {
        return Err(Error(status));
      }
      var h := nextHandle;
      kinds := kinds[h := kind];
      live := live + {h};
      nextHandle := nextHandle + 1;
      r := Ok(h);
    }

    /** The release call of a `Drop` impl: issued once, for a handle its owner holds. */
    method Release(h: Handle)
      requires Valid() && h in live
      modifies this`live, this`releases
      ensures Valid()
      ensures live == old(live) - {h} && releases == old(releases) + [h]
    {
      live := live - {h};
      releases := releases + [h];
    }

    /**
     * `open(path, O_CREAT | O_EXCL | O_RDWR, 0o644)`. The kernel fails it when
     * the path exists, and may refuse it for other reasons (`refused`:
     * permissions, a missing directory, no descriptors left); otherwise it
     * creates an empty file and returns `fd`, a descriptor not in use.
     */
    method OpenExclusive(path: Path, refused: bool, fd: Fd) returns (r: int)
      requires Valid() && fd !in fds
      modifies this`files, this`fds
      ensures Valid()
      ensures r >= 0 <==> path !in old(files) && !refused
      ensures r < 0 ==> r == -1 && files == old(files) && fds == old(fds)
      ensures r >= 0 ==> r == fd && files == old(files)[path := []] && fds == old(fds)[fd := path]
    {
      if path in files || refused {
        return -1;
      }
      files := files[path := []];
      fds := fds[fd := path];
      r := fd;
    }

    /** `close(fd)`. */
    method Close(fd: Fd)
      requires Valid() && fd in fds
      modifies this`fds
      ensures Valid()
      ensures fds == old(fds) - {fd}
    {
      fds := fds - {fd};
    }

    /** `gp_file_new_from_fd`: on GP_OK the new file handle takes the descriptor. */
    method WrapFd(fd: Fd, status: int) returns (r: Result<Handle>)
      requires Valid()
      modifies this`kinds, this`nextHandle, this`live, this`handedOver
      ensures Valid()
      ensures r.Ok? <==> status == GP_OK
      ensures r.Err? ==> r.error == Error(status) && unchanged(this)
      ensures r.Ok? ==> r.value !in old(kinds) && kinds == old(kinds)[r.value := FileHandle]
      ensures r.Ok? ==> live == old(live) + {r.value} && handedOver == old(handedOver) + {fd}
    {
      r := Acquire(FileHandle, status);
      if r.Ok? {
        handedOver := handedOver + {fd};
      }
    }
  }

  /**
   * Every handle the native layer handed out has had exactly one release
   * call if its owner is gone, and none while its owner lives.
   */
  lemma ReleasedExactlyOnce(host: Host)
    requires host.Valid()
    ensures forall h :: h in host.kinds ==>
              multiset(host.releases)[h] == if h in host.live then 0 else 1
  {
    forall h | h in host.kinds
      ensures multiset(host.releases)[h] == if h in host.live then 0 else 1
    {
      CountInDistinct(host.releases, h);
    }
  }
}
