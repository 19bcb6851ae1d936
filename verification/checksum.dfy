/** The checksum engine of `app/lib/fixity.py`: a streaming MD5 over a file,
    optionally persisted to a `.md5` sidecar. MD5 itself is a parameter: any
    function from bytes to the bytes of a hex digest. */
module Checksum {
  import opened Wrappers
  import opened FileSystem

  /** MD5's `hexdigest()` of a byte string, as ASCII bytes. */
  type Hasher = Bytes -> Bytes

  /** The block size `generate_file_md5` reads with by default, 2 ** 20. */
  const DefaultBlockSize: int := 0x10_0000

  /** Where a file's digest is persisted. */
  function SidecarPath(p: Path): (r: Path)
    ensures |r| == |p| + 4 && r[..|p|] == p
  {
    p + ".md5"
  }

  /** Distinct files have distinct sidecars. */
  lemma SidecarInjective(a: Path, b: Path)
    ensures SidecarPath(a) == SidecarPath(b) ==> a == b
  {
    if |a| == |b| {
      assert SidecarPath(a)[..|a|] == a;
      assert SidecarPath(b)[..|b|] == b;
    }
  }

  datatype Hashed = Hashed(fs: Fs, digest: Bytes)

  /** `generate_file_md5(filename, store=store)` with the default block size:
      the digest of the file's whole content; with `store` the digest, and
      nothing else, is written over the sidecar. Fails when the file is
      missing or a directory, or when the sidecar path is a directory. */
  function GenerateFileMd5(fs: Fs, md5: Hasher, filename: Path, store: bool): (r: Result<Hashed, OsError>)
    ensures r.Ok? <==> IsFileAt(fs, filename) && !(store && IsDirAt(fs, SidecarPath(filename)))
    ensures r.Ok? ==> r.value.digest == md5(fs[filename].data)
    ensures r.Ok? && !store ==> r.value.fs == fs
    ensures r.Ok? && store ==> r.value.fs == fs[SidecarPath(filename) := File(r.value.digest)]
    ensures r.Err? && !IsFileAt(fs, filename) ==> r == Err(if filename in fs then IsADirectory(filename) else FileNotFound(filename))
  {
    var data :- ReadFile(fs, filename);
    var digest := md5(data);
    if store then
      var fs' :- WriteFile(fs, SidecarPath(filename), digest);
      Ok(Hashed(fs', digest))
    else Ok(Hashed(fs, digest))
  }

  /** `f.read(n)` at offset `pos`: a negative `n` reads to the end, otherwise
      at most `n` bytes. */
  function ReadChunk(data: Bytes, pos: nat, n: int): (chunk: Bytes)
    requires pos <= |data|
    ensures pos + |chunk| <= |data| && chunk == data[pos..pos + |chunk|]
    ensures n < 0 ==> pos + |chunk| == |data|
    ensures n >= 0 ==> |chunk| == if pos + n <= |data| then n else |data| - pos
  {
    if n < 0 || pos + n > |data| then data[pos..] else data[pos..pos + n]
  }

  /** The read loop of `generate_file_md5`: read blocks of `blocksize` until a
      read comes back empty, feeding each to the hash. For any non-zero block
      size the bytes fed are the whole file; a zero block size reads nothing. */
  method FeedBlocks(data: Bytes, blocksize: int) returns (fed: Bytes)
    ensures blocksize != 0 ==> fed == data
    ensures blocksize == 0 ==> fed == []
  {
    fed := [];
    var pos := 0;
    while true
      invariant 0 <= pos <= |data|
      invariant fed == data[..pos]
      invariant blocksize == 0 ==> pos == 0
      decreases |data| - pos
    {
      var buf := ReadChunk(data, pos, blocksize);
      if |buf| == 0 {
        break;
      }
      fed := fed + buf;
      pos := pos + |buf|;
    }
  }

  /** `generate_file_md5(filename, blocksize, store)` with the streaming loop:
      its result does not depend on the block size as long as that is not 0. */
  method StreamFileMd5(fs: Fs, md5: Hasher, filename: Path, blocksize: int, store: bool)
    returns (r: Result<Hashed, OsError>)
    ensures blocksize != 0 ==> r == GenerateFileMd5(fs, md5, filename, store)
    ensures blocksize == 0 && r.Ok? ==> r.value.digest == md5([])
  {
    var data :- ReadFile(fs, filename);
    var fed := FeedBlocks(data, blocksize);
    var digest := md5(fed);
    if store {
      var fs' :- WriteFile(fs, SidecarPath(filename), digest);
      return Ok(Hashed(fs', digest));
    }
    return Ok(Hashed(fs, digest));
  }

  /** Hashing twice without touching the file gives the same digest, and
      storing it the second time rewrites the sidecar with the same bytes. */
  lemma DigestDeterministic(fs: Fs, md5: Hasher, filename: Path, store: bool)
    requires GenerateFileMd5(fs, md5, filename, store).Ok?
    ensures var h := GenerateFileMd5(fs, md5, filename, store).value;
            GenerateFileMd5(h.fs, md5, filename, store).Ok?
            && GenerateFileMd5(h.fs, md5, filename, store).value == h
  {
    var h := GenerateFileMd5(fs, md5, filename, store).value;
    if store {
      assert h.fs[SidecarPath(filename) := File(h.digest)] == h.fs;
    }
  }
}
