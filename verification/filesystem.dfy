/** An abstract filesystem: a map from path to either a file's bytes or a
    directory. Paths are compared as written (no normalisation), and the
    operations below are the few `os`/`shutil` calls the core makes, with
    the OSError each raises. */
module FileSystem {
  import opened Wrappers
  import opened Paths

  newtype byte = x: int | 0 <= x < 256

  type Bytes = seq<byte>

  type Path = string

  datatype Node = File(data: Bytes) | Dir

  type Fs = map<Path, Node>

  /** The OSError subclasses the model distinguishes. `Failure` is any other
      OS-level fault (a flaky mount, a full disk), identified by its text;
      `DestinationExists` is `shutil.Error`, itself an OSError. */
  datatype OsError =
    | FileNotFound(path: Path)
    | IsADirectory(path: Path)
    | DestinationExists(path: Path)
    | Failure(reason: string)

  predicate IsDirAt(fs: Fs, p: Path) {
    p in fs && fs[p].Dir?
  }

  predicate IsFileAt(fs: Fs, p: Path) {
    p in fs && fs[p].File?
  }

  /** `open(p, "rb").read()`. */
  function ReadFile(fs: Fs, p: Path): (r: Result<Bytes, OsError>)
    ensures r.Ok? <==> IsFileAt(fs, p)
    ensures r.Ok? ==> r.value == fs[p].data
  {
    if p !in fs then Err(FileNotFound(p))
    else if fs[p].Dir? then Err(IsADirectory(p))
    else Ok(fs[p].data)
  }

  /** `open(p, "w").write(data)`: creates or truncates the file. */
  function WriteFile(fs: Fs, p: Path, data: Bytes): (r: Result<Fs, OsError>)
    ensures r.Ok? <==> !IsDirAt(fs, p)
    ensures r.Ok? ==> r.value == fs[p := File(data)]
  {
    if IsDirAt(fs, p) then Err(IsADirectory(p)) else Ok(fs[p := File(data)])
  }

  /** `os.remove(p)`: removes a file, refuses a directory or a missing path. */
  function Remove(fs: Fs, p: Path): (r: Result<Fs, OsError>)
    ensures r.Ok? <==> IsFileAt(fs, p)
    ensures r.Ok? ==> r.value == fs - {p}
    ensures r == Err(FileNotFound(p)) <==> p !in fs
  {
    if p !in fs then Err(FileNotFound(p))
    else if fs[p].Dir? then Err(IsADirectory(p))
    else Ok(fs - {p})
  }

  /** `shutil.move(src, dst)` for a file `src`: into `dst` when `dst` is a
      directory (refusing an existing entry of the same name there), otherwise
      onto `dst`, silently replacing an existing file. Returns the new path. */
  function Move(fs: Fs, src: Path, dst: Path): (r: Result<(Fs, Path), OsError>)
    ensures r.Ok? <==> IsFileAt(fs, src) && !(IsDirAt(fs, dst) && Join(dst, Basename(src)) in fs)
    ensures r.Ok? ==> r.value.0 == (fs - {src})[r.value.1 := fs[src]]
    ensures r.Ok? && !IsDirAt(fs, dst) ==> r.value.1 == dst
    ensures r.Ok? && IsDirAt(fs, dst) ==> r.value.1 == Join(dst, Basename(src)) && r.value.1 !in fs
  {
    if src !in fs then Err(FileNotFound(src))
    else if fs[src].Dir? then Err(IsADirectory(src))
    else
      var target := if IsDirAt(fs, dst) then Join(dst, Basename(src)) else dst;
      if IsDirAt(fs, dst) && target in fs then Err(DestinationExists(target))
      else Ok(((fs - {src})[target := fs[src]], target))
  }

  /** Two filesystems that agree everywhere except at `k` agree at any other path. */
  lemma SameOutside(fs: Fs, fs': Fs, k: Path, p: Path)
    requires fs' - {k} == fs - {k}
    requires p != k
    ensures p in fs' <==> p in fs
    ensures p in fs ==> fs'[p] == fs[p]
  {
    assert p in fs' <==> p in fs' - {k};
    assert p in fs <==> p in fs - {k};
    if p in fs {
      assert fs'[p] == (fs' - {k})[p];
    }
  }

  /** A filesystem that agrees with `fs` everywhere except at `k`, where it
      has an entry, is `fs` with that one entry set. */
  lemma UpdatedAt(fs: Fs, fs': Fs, k: Path)
    requires fs' - {k} == fs - {k}
    requires k in fs'
    ensures fs' == fs[k := fs'[k]]
  {
    forall p | p != k
      ensures (p in fs' <==> p in fs) && (p in fs ==> fs'[p] == fs[p])
    {
      SameOutside(fs, fs', k, p);
    }
  }
}
