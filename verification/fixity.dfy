/** Fixity transfer (`app/lib/fixity.py`): resolve the destination, hash the
    source, refuse to overwrite, copy with a bounded retry loop, verify the
    digests and, for a move, delete the source or park it in a failsafe
    folder. A copy attempt's outcome is supplied, one per attempt; sleeping
    between attempts is counted, not performed. */
module Fixity {
  import opened Wrappers
  import opened Strings
  import opened Paths
  import opened FileSystem
  import opened Checksum

  /** `MOVE_RETRIES` in the settings: how many copy attempts are made. */
  const MoveRetries: int := 5

  /** `RETRY_WAIT` in the settings: seconds slept between attempts. */
  const RetryWait: nat := 300

  // ---------------------------------------------------------------------
  // post_move_filename

  /** Whether `post_move_filename` treats `dest` as the name of a file rather
      than a folder: an existing non-directory, or a missing path whose
      basename contains a dot (the basename never ends in a separator, so the
      code's second test always passes). */
  predicate DestIsFile(fs: Fs, dest: Path) {
    if dest in fs then !fs[dest].Dir?
    else var b := Basename(dest); '.' in b && b[|b| - 1] != '/'
  }

  /** `post_move_filename(source, dest)`: the path a file gets when moved to
      `dest`. */
  function PostMoveFilename(fs: Fs, source: Path, dest: Path): (r: Path)
    ensures IsDirAt(fs, dest) ==> r == Join(dest, Basename(source))
    ensures IsFileAt(fs, dest) ==> r == dest
    ensures dest !in fs && '.' in Basename(dest) ==> r == dest
    ensures dest !in fs && '.' !in Basename(dest) ==> r == Join(dest, Basename(source))
  {
    if DestIsFile(fs, dest) then dest else Join(dest, Basename(source))
  }

  /** Unless `dest` is itself taken as the file name, the resolved path keeps
      the source's file name. */
  lemma PostMoveKeepsName(fs: Fs, source: Path, dest: Path)
    ensures PostMoveFilename(fs, source, dest) == dest
            || Basename(PostMoveFilename(fs, source, dest)) == Basename(source)
  {
    if !DestIsFile(fs, dest) {
      JoinBasename(dest, Basename(source));
    }
  }

  /** A missing destination written with a trailing separator has an empty
      basename, so it is always taken as a folder. */
  lemma TrailingSeparatorIsFolder(fs: Fs, source: Path, dest: Path)
    requires dest !in fs && |dest| > 0 && dest[|dest| - 1] == '/'
    ensures PostMoveFilename(fs, source, dest) == Join(dest, Basename(source))
  {
    assert Basename(dest) == "";
  }

  /** `post_move_filename` reads only the entry at `dest`. */
  lemma PostMoveFilenameFrame(fs: Fs, fs': Fs, source: Path, dest: Path)
    requires (dest in fs <==> dest in fs') && (dest in fs ==> fs[dest] == fs'[dest])
    ensures PostMoveFilename(fs, source, dest) == PostMoveFilename(fs', source, dest)
  {
  }

  // ---------------------------------------------------------------------
  // The copy retry loop

  /** What one `shutil.copy` attempt does: copy the bytes, write different
      bytes (a storage fault the digest check is there to catch), or raise an
      OSError, possibly leaving a partial file behind. */
  datatype CopyOutcome =
    | Copied
    | CopiedCorrupt(written: Bytes)
    | CopyFailed(err: OsError, partial: Option<Bytes>)

  /** The outcome of attempt `i`; attempts beyond the supplied ones copy cleanly. */
  function OutcomeAt(outcomes: seq<CopyOutcome>, i: nat): CopyOutcome {
    if i < |outcomes| then outcomes[i] else Copied
  }

  /** The bytes a successful attempt leaves at the destination. */
  function WrittenBytes(o: CopyOutcome, data: Bytes): Bytes
    requires !o.CopyFailed?
  {
    match o
    case Copied => data
    case CopiedCorrupt(written) => written
  }

  function Max(a: int, b: int): int {
    if a >= b then a else b
  }

  /** The state after the retry loop: the filesystem, how many copy attempts
      were made and how many sleeps happened in all, and the OSError re-raised
      when the loop gave up. */
  datatype CopyRun = CopyRun(fs: Fs, attempts: nat, sleeps: nat, failure: Option<OsError>)

  /** The `while True` loop of `fixity_copy`, entered after `retries` failed
      attempts. It stops at the first attempt that does not raise; a failed
      attempt is retried after a sleep until `moveRetries` attempts have
      failed (at least one attempt is always made), and then the last OSError
      is re-raised. Only the destination entry ever changes. */
  function CopyLoop(fs: Fs, data: Bytes, dest: Path, outcomes: seq<CopyOutcome>, retries: nat, moveRetries: int): (r: CopyRun)
    ensures retries < r.attempts <= Max(moveRetries, retries + 1)
    ensures r.sleeps + 1 == r.attempts
    ensures forall i :: retries <= i < r.attempts - 1 ==> OutcomeAt(outcomes, i).CopyFailed?
    ensures r.failure.None? <==> !OutcomeAt(outcomes, r.attempts - 1).CopyFailed?
    ensures r.failure.Some? ==> r.attempts >= moveRetries && r.failure.value == OutcomeAt(outcomes, r.attempts - 1).err
    ensures r.fs - {dest} == fs - {dest}
    ensures r.failure.None? ==> dest in r.fs && r.fs[dest] == File(WrittenBytes(OutcomeAt(outcomes, r.attempts - 1), data))
    decreases if moveRetries > retries then moveRetries - retries else 0
  {
    match OutcomeAt(outcomes, retries)
    case Copied => CopyRun(fs[dest := File(data)], retries + 1, retries, None)
    case CopiedCorrupt(written) => CopyRun(fs[dest := File(written)], retries + 1, retries, None)
    case CopyFailed(err, partial) =>
      var fs' := if partial.Some? then fs[dest := File(partial.value)] else fs;
      if retries + 1 >= moveRetries then CopyRun(fs', retries + 1, retries, Some(err))
      else CopyLoop(fs', data, dest, outcomes, retries + 1, moveRetries)
  }

  /** k failed attempts followed by one that does not raise, with k below the
      bound: the copy goes through on attempt k + 1 after exactly k sleeps. */
  lemma {:induction false} RetryThenSucceed(fs: Fs, data: Bytes, dest: Path, outcomes: seq<CopyOutcome>, k: nat, moveRetries: int)
    requires k < moveRetries
    requires forall i :: 0 <= i < k ==> OutcomeAt(outcomes, i).CopyFailed?
    requires !OutcomeAt(outcomes, k).CopyFailed?
    ensures var r := CopyLoop(fs, data, dest, outcomes, 0, moveRetries);
            r.failure.None? && r.attempts == k + 1 && r.sleeps == k
            && dest in r.fs && r.fs[dest] == File(WrittenBytes(OutcomeAt(outcomes, k), data))
  {
    var r := CopyLoop(fs, data, dest, outcomes, 0, moveRetries);
    // An attempt before k + 1 would have failed without reaching the bound.
    var last: nat := r.attempts - 1;
    assert last < k ==> OutcomeAt(outcomes, last).CopyFailed?;
  }

  /** `moveRetries` consecutive failures: the last OSError is re-raised after
      exactly `moveRetries` attempts and `moveRetries - 1` sleeps. */
  lemma {:induction false} RetriesExhausted(fs: Fs, data: Bytes, dest: Path, outcomes: seq<CopyOutcome>, moveRetries: nat)
    requires moveRetries >= 1
    requires forall i :: 0 <= i < moveRetries ==> OutcomeAt(outcomes, i).CopyFailed?
    ensures var r := CopyLoop(fs, data, dest, outcomes, 0, moveRetries);
            r.failure == Some(OutcomeAt(outcomes, moveRetries - 1).err)
            && r.attempts == moveRetries && r.sleeps == moveRetries - 1
  {
  }

  // ---------------------------------------------------------------------
  // fixity_copy and fixity_move

  datatype Operation = CopyOp | MoveOp

  function OperationName(op: Operation): string {
    match op
    case CopyOp => "copy"
    case MoveOp => "move"
  }

  /** What a fixity transfer raises: an OSError (unreadable source, copy
      retries exhausted, failed move or removal), the refusal to overwrite,
      or the digest mismatch. */
  datatype FixityError =
    | Os(err: OsError)
    | AlreadyExists(operation: string, path: Path)
    | Md5Mismatch

  /** The text of the IOErrors `fixity_copy` raises itself. */
  function Message(e: FixityError): string
    requires !e.Os?
  {
    match e
    case AlreadyExists(op, p) => "Cannot " + op + ": Destination " + p + " already exists."
    case Md5Mismatch => "MD5 of source and destination files don't match."
  }

  /** The filesystem afterwards, the number of sleeps, and the resolved
      destination or the error raised. */
  datatype Transfer = Transfer(fs: Fs, sleeps: nat, result: Result<Path, FixityError>)

  /** `fixity_copy(source, destination, store_md5s, is_move)`. */
  function FixityCopy(fs: Fs, md5: Hasher, source: Path, destination: Path, storeMd5s: bool, op: Operation,
                      outcomes: seq<CopyOutcome>, moveRetries: int): (t: Transfer)
    // an unreadable source is reported before anything is written
    ensures !IsFileAt(fs, source) ==> t.fs == fs && t.result.Err? && t.result.error.Os?
    // the verified copy: the returned path is a new file whose digest is the source's
    ensures t.result.Ok? ==> IsFileAt(fs, source) && t.result.value !in fs
    ensures t.result.Ok? && storeMd5s ==> t.result.value != SidecarPath(source)
    ensures t.result.Ok? ==> IsFileAt(t.fs, t.result.value) && md5(t.fs[t.result.value].data) == md5(fs[source].data)
    ensures t.result.Ok? ==> t.result.value == PostMoveFilename(fs, source, destination)
    // the source file itself is left as it was, unless it is the sidecar of the destination
    ensures IsFileAt(fs, source) ==>
              source in t.fs && (t.fs[source] == fs[source]
                                 || (storeMd5s && source == SidecarPath(PostMoveFilename(fs, source, destination))))
    // on success nothing changes but the source's sidecar, the new file and its sidecar
    ensures t.result.Ok? ==>
              var d, h := t.result.value, md5(fs[source].data);
              t.fs == if storeMd5s then fs[SidecarPath(source) := File(h)][d := t.fs[d]][SidecarPath(d) := File(h)]
                      else fs[d := t.fs[d]]
    // with storing, both sidecars hold the source's digest, and the source is still a file
    ensures t.result.Ok? && storeMd5s ==>
              SidecarPath(source) in t.fs && t.fs[SidecarPath(source)] == File(md5(fs[source].data))
              && SidecarPath(t.result.value) in t.fs && t.fs[SidecarPath(t.result.value)] == File(md5(fs[source].data))
    ensures t.result.Ok? ==> IsFileAt(t.fs, source)
    // the refusal to overwrite: no copy was attempted and the existing entry is kept
    ensures t.result.Err? && t.result.error.AlreadyExists? ==>
              t.sleeps == 0 && t.result.error.operation == OperationName(op) && t.result.error.path in t.fs
              && IsFileAt(fs, source) && t.fs == if storeMd5s then fs[SidecarPath(source) := File(md5(fs[source].data))] else fs
    // never more sleeps than the retry bound allows
    ensures t.sleeps < Max(moveRetries, 1)
  {
    match GenerateFileMd5(fs, md5, source, storeMd5s)
    case Err(e) => Transfer(fs, 0, Err(Os(e)))
    case Ok(h1) =>
      var dest := PostMoveFilename(h1.fs, source, destination);
      if dest in h1.fs then Transfer(h1.fs, 0, Err(AlreadyExists(OperationName(op), dest)))
      else
        var run := CopyLoop(h1.fs, h1.fs[source].data, dest, outcomes, 0, moveRetries);
        SameOutside(h1.fs, run.fs, dest, source);
        if run.failure.Some? then Transfer(run.fs, run.sleeps, Err(Os(run.failure.value)))
        else
          match GenerateFileMd5(run.fs, md5, dest, storeMd5s)
          case Err(e) => Transfer(run.fs, run.sleeps, Err(Os(e)))
          case Ok(h2) =>
            UpdatedAt(h1.fs, run.fs, dest);
            if h1.digest == h2.digest then Transfer(h2.fs, run.sleeps, Ok(dest))
            else Transfer(h2.fs, run.sleeps, Err(Md5Mismatch))
  }

  /** Everything `fixity_copy` checks before its copy loop holds: the source
      is a readable file, its sidecar can be written, and the resolved
      destination is a free path whose sidecar can be written too. */
  predicate Ready(fs: Fs, source: Path, destination: Path, storeMd5s: bool) {
    var dest := PostMoveFilename(fs, source, destination);
    IsFileAt(fs, source) && destination != SidecarPath(source) && dest !in fs
    && !(storeMd5s && (IsDirAt(fs, SidecarPath(source)) || dest == SidecarPath(source) || IsDirAt(fs, SidecarPath(dest))))
  }

  /** Where a ready transfer's copy loop starts from and writes to. */
  lemma ReadyStart(fs: Fs, md5: Hasher, source: Path, destination: Path, storeMd5s: bool)
    requires Ready(fs, source, destination, storeMd5s)
    ensures var h1 := GenerateFileMd5(fs, md5, source, storeMd5s);
            var dest := PostMoveFilename(fs, source, destination);
            h1.Ok? && PostMoveFilename(h1.value.fs, source, destination) == dest && dest !in h1.value.fs
            && h1.value.fs[source] == fs[source] && !(storeMd5s && IsDirAt(h1.value.fs, SidecarPath(dest)))
  {
    var dest := PostMoveFilename(fs, source, destination);
    SidecarInjective(dest, source);
  }

  /** A ready transfer whose copy goes through cleanly after `k` failed
      attempts, with `k` below the bound: the resolved destination is
      returned, holds the source's bytes, and `k` sleeps were taken. */
  lemma CleanTransfer(fs: Fs, md5: Hasher, source: Path, destination: Path, storeMd5s: bool, op: Operation,
                      outcomes: seq<CopyOutcome>, k: nat, moveRetries: int)
    requires Ready(fs, source, destination, storeMd5s)
    requires k < moveRetries
    requires forall i :: 0 <= i < k ==> OutcomeAt(outcomes, i).CopyFailed?
    requires OutcomeAt(outcomes, k) == Copied
    ensures var t := FixityCopy(fs, md5, source, destination, storeMd5s, op, outcomes, moveRetries);
            var dest := PostMoveFilename(fs, source, destination);
            t.result == Ok(dest) && t.sleeps == k && dest in t.fs && t.fs[dest] == fs[source]
  {
    ReadyStart(fs, md5, source, destination, storeMd5s);
    var h1 := GenerateFileMd5(fs, md5, source, storeMd5s).value;
    var dest := PostMoveFilename(fs, source, destination);
    RetryThenSucceed(h1.fs, h1.fs[source].data, dest, outcomes, k, moveRetries);
    var run := CopyLoop(h1.fs, h1.fs[source].data, dest, outcomes, 0, moveRetries);
    SameOutside(h1.fs, run.fs, dest, source);
    SameOutside(h1.fs, run.fs, dest, SidecarPath(dest));
  }

  /** A ready transfer whose copy writes bytes with a different digest: the
      mismatch is reported and the bad copy, with its own digest in its
      sidecar when storing, is left where it was written. */
  lemma CorruptTransfer(fs: Fs, md5: Hasher, source: Path, destination: Path, storeMd5s: bool, op: Operation,
                        outcomes: seq<CopyOutcome>, k: nat, moveRetries: int, bad: Bytes)
    requires Ready(fs, source, destination, storeMd5s)
    requires k < moveRetries
    requires forall i :: 0 <= i < k ==> OutcomeAt(outcomes, i).CopyFailed?
    requires OutcomeAt(outcomes, k) == CopiedCorrupt(bad) && md5(bad) != md5(fs[source].data)
    ensures var t := FixityCopy(fs, md5, source, destination, storeMd5s, op, outcomes, moveRetries);
            var dest := PostMoveFilename(fs, source, destination);
            t.result == Err(Md5Mismatch) && t.sleeps == k && dest in t.fs && t.fs[dest] == File(bad)
            && (storeMd5s ==> SidecarPath(dest) in t.fs && t.fs[SidecarPath(dest)] == File(md5(bad)))
  {
    ReadyStart(fs, md5, source, destination, storeMd5s);
    var h1 := GenerateFileMd5(fs, md5, source, storeMd5s).value;
    var dest := PostMoveFilename(fs, source, destination);
    RetryThenSucceed(h1.fs, h1.fs[source].data, dest, outcomes, k, moveRetries);
    var run := CopyLoop(h1.fs, h1.fs[source].data, dest, outcomes, 0, moveRetries);
    SameOutside(h1.fs, run.fs, dest, source);
    SameOutside(h1.fs, run.fs, dest, SidecarPath(dest));
  }

  /** A ready transfer whose every attempt fails: the last OSError is
      re-raised after `moveRetries - 1` sleeps. */
  lemma FailedTransfer(fs: Fs, md5: Hasher, source: Path, destination: Path, storeMd5s: bool, op: Operation,
                       outcomes: seq<CopyOutcome>, moveRetries: nat)
    requires Ready(fs, source, destination, storeMd5s)
    requires moveRetries >= 1
    requires forall i :: 0 <= i < moveRetries ==> OutcomeAt(outcomes, i).CopyFailed?
    ensures var t := FixityCopy(fs, md5, source, destination, storeMd5s, op, outcomes, moveRetries);
            t.result == Err(Os(OutcomeAt(outcomes, moveRetries - 1).err)) && t.sleeps == moveRetries - 1
  {
    ReadyStart(fs, md5, source, destination, storeMd5s);
    var h1 := GenerateFileMd5(fs, md5, source, storeMd5s).value;
    RetriesExhausted(h1.fs, h1.fs[source].data, PostMoveFilename(fs, source, destination), outcomes, moveRetries);
  }

  /** After a successful transfer the destination resolves to the new file
      again. */
  lemma ResolvesAgain(fs: Fs, md5: Hasher, source: Path, destination: Path, storeMd5s: bool, op: Operation,
                      outcomes: seq<CopyOutcome>, moveRetries: int)
    requires destination != SidecarPath(source)
    requires FixityCopy(fs, md5, source, destination, storeMd5s, op, outcomes, moveRetries).result.Ok?
    ensures var t1 := FixityCopy(fs, md5, source, destination, storeMd5s, op, outcomes, moveRetries);
            PostMoveFilename(t1.fs, source, destination) == t1.result.value
  {
    var t1 := FixityCopy(fs, md5, source, destination, storeMd5s, op, outcomes, moveRetries);
    var d := t1.result.value;
    if destination != d {
      assert destination != SidecarPath(d) by {
        assert d == Join(destination, Basename(source));
        assert |d| >= |destination|;
      }
      PostMoveFilenameFrame(fs, t1.fs, source, destination);
    }
  }

  /** A transfer whose resolved destination is taken is refused with nothing
      written beyond the source's sidecar. */
  lemma RefusedWhenTaken(fs: Fs, md5: Hasher, source: Path, destination: Path, storeMd5s: bool, op: Operation,
                         outcomes: seq<CopyOutcome>, moveRetries: int)
    requires GenerateFileMd5(fs, md5, source, storeMd5s).Ok?
    requires var h := GenerateFileMd5(fs, md5, source, storeMd5s).value;
             PostMoveFilename(h.fs, source, destination) in h.fs
    ensures var h := GenerateFileMd5(fs, md5, source, storeMd5s).value;
            var t := FixityCopy(fs, md5, source, destination, storeMd5s, op, outcomes, moveRetries);
            t.result == Err(AlreadyExists(OperationName(op), PostMoveFilename(h.fs, source, destination)))
            && t.sleeps == 0 && t.fs == h.fs
  {
  }

  /** Repeating a transfer that succeeded is refused: the file it wrote now
      occupies the resolved destination, and it is left as it is. */
  lemma SecondTransferRefused(fs: Fs, md5: Hasher, source: Path, destination: Path, storeMd5s: bool, op: Operation,
                              outcomes: seq<CopyOutcome>, moveRetries: int,
                              op2: Operation, outcomes2: seq<CopyOutcome>, moveRetries2: int)
    requires destination != SidecarPath(source)
    requires FixityCopy(fs, md5, source, destination, storeMd5s, op, outcomes, moveRetries).result.Ok?
    ensures var t1 := FixityCopy(fs, md5, source, destination, storeMd5s, op, outcomes, moveRetries);
            var t2 := FixityCopy(t1.fs, md5, source, destination, storeMd5s, op2, outcomes2, moveRetries2);
            var d := t1.result.value;
            t2.result == Err(AlreadyExists(OperationName(op2), d)) && t2.sleeps == 0 && d in t1.fs && d in t2.fs && t2.fs[d] == t1.fs[d]
  {
    var t1 := FixityCopy(fs, md5, source, destination, storeMd5s, op, outcomes, moveRetries);
    var d := t1.result.value;
    // the source is still a file, so it hashes again, writing only its own sidecar
    assert IsFileAt(t1.fs, source);
    assert !(storeMd5s && IsDirAt(t1.fs, SidecarPath(source)));
    var h := GenerateFileMd5(t1.fs, md5, source, storeMd5s).value;
    assert storeMd5s ==> d != SidecarPath(source);
    assert d in h.fs && h.fs[d] == t1.fs[d];
    // the destination entry is the only one resolution reads
    ResolvesAgain(fs, md5, source, destination, storeMd5s, op, outcomes, moveRetries);
    PostMoveFilenameFrame(t1.fs, h.fs, source, destination);
    RefusedWhenTaken(t1.fs, md5, source, destination, storeMd5s, op2, outcomes2, moveRetries2);
  }

  /** The source and its sidecar are files, and the failsafe target and its
      sidecar slot are not folders (a file there is replaced) nor the
      source's own sidecar. */
  predicate SidecarParkable(fs: Fs, source: Path, target: Path) {
    IsFileAt(fs, source) && IsFileAt(fs, SidecarPath(source)) && target != SidecarPath(source)
    && !IsDirAt(fs, target) && !IsDirAt(fs, SidecarPath(target))
  }

  /** A failsafe folder counts only when it is given and not empty. */
  predicate HasFailsafe(failsafe: Option<Path>) {
    failsafe.Some? && failsafe.value != ""
  }

  /** `fixity_move(source, destination, store_md5s, failsafe_folder)`: a
      fixity copy, and then, when it returned a non-empty path, the source
      (and its sidecar when storing) is moved into the failsafe folder or
      deleted. */
  function FixityMove(fs: Fs, md5: Hasher, source: Path, destination: Path, storeMd5s: bool,
                      failsafe: Option<Path>, outcomes: seq<CopyOutcome>, moveRetries: int): (t: Transfer)
    // a failed copy is passed on as it is, with the source left alone
    ensures var c := FixityCopy(fs, md5, source, destination, storeMd5s, MoveOp, outcomes, moveRetries);
            (c.result.Err? || c.result.value == "") ==> t == c
    ensures var c := FixityCopy(fs, md5, source, destination, storeMd5s, MoveOp, outcomes, moveRetries);
            t.sleeps == c.sleeps
            && (t.result.Ok? ==> t.result == c.result)
            && (t.result.Err? ==> t.result == c.result || (c.result.Ok? && t.result.error.Os?))
    // without a failsafe folder the source and its sidecar are deleted, and nothing else
    ensures var c := FixityCopy(fs, md5, source, destination, storeMd5s, MoveOp, outcomes, moveRetries);
            c.result.Ok? && c.result.value != "" && !HasFailsafe(failsafe) ==>
              t.result == c.result
              && t.fs == c.fs - (if storeMd5s then {source, SidecarPath(source)} else {source})
    // with one, the source is moved to where `post_move_filename` puts it, replacing a file there
    ensures var c := FixityCopy(fs, md5, source, destination, storeMd5s, MoveOp, outcomes, moveRetries);
            c.result.Ok? && c.result.value != "" && HasFailsafe(failsafe) && !storeMd5s
            && !IsDirAt(c.fs, PostMoveFilename(c.fs, source, failsafe.value)) ==>
              var target := PostMoveFilename(c.fs, source, failsafe.value);
              t.result == c.result && source in c.fs && t.fs == (c.fs - {source})[target := c.fs[source]]
    // and with sidecars both the source and its sidecar move, each replacing a file there
    ensures var c := FixityCopy(fs, md5, source, destination, storeMd5s, MoveOp, outcomes, moveRetries);
            var target := PostMoveFilename(c.fs, source, if failsafe.Some? then failsafe.value else "");
            c.result.Ok? && c.result.value != "" && HasFailsafe(failsafe) && storeMd5s
            && target != SidecarPath(source) && !IsDirAt(c.fs, target) && !IsDirAt(c.fs, SidecarPath(target)) ==>
              t.result == c.result && source in c.fs && SidecarPath(source) in c.fs
              && t.fs == ((c.fs - {source, SidecarPath(source)})[target := c.fs[source]])[SidecarPath(target) := c.fs[SidecarPath(source)]]
  {
    var c := FixityCopy(fs, md5, source, destination, storeMd5s, MoveOp, outcomes, moveRetries);
    assert c.result.Ok? ==> IsFileAt(c.fs, source);
    assert c.result.Ok? && storeMd5s ==> IsFileAt(c.fs, SidecarPath(source));
    FinishMove(c, source, storeMd5s, failsafe)
  }

  /** The part of `fixity_move` after the copy returned `c`. The source (and
      its sidecar) is only touched when the copy returned a non-empty path;
      when they are files where the copy left them, deleting removes exactly
      them, and parking moves the source to the path `post_move_filename`
      gives in the failsafe folder. */
  function FinishMove(c: Transfer, source: Path, storeMd5s: bool, failsafe: Option<Path>): (t: Transfer)
    ensures (c.result.Err? || c.result.value == "") ==> t == c
    ensures t.sleeps == c.sleeps
            && (t.result.Ok? ==> t.result == c.result)
            && (t.result.Err? ==> t.result == c.result || (c.result.Ok? && t.result.error.Os?))
    ensures c.result.Ok? && c.result.value != "" && !HasFailsafe(failsafe)
            && IsFileAt(c.fs, source) && (storeMd5s ==> IsFileAt(c.fs, SidecarPath(source))) ==>
              t.result == c.result
              && t.fs == c.fs - (if storeMd5s then {source, SidecarPath(source)} else {source})
    ensures c.result.Ok? && c.result.value != "" && HasFailsafe(failsafe) && !storeMd5s
            && IsFileAt(c.fs, source) && !IsDirAt(c.fs, PostMoveFilename(c.fs, source, failsafe.value)) ==>
              var target := PostMoveFilename(c.fs, source, failsafe.value);
              t.result == c.result && t.fs == (c.fs - {source})[target := c.fs[source]]
    ensures c.result.Ok? && c.result.value != "" && HasFailsafe(failsafe) && storeMd5s
            && SidecarParkable(c.fs, source, PostMoveFilename(c.fs, source, failsafe.value)) ==>
              var target := PostMoveFilename(c.fs, source, failsafe.value);
              t.result == c.result
              && t.fs == ((c.fs - {source, SidecarPath(source)})[target := c.fs[source]])[SidecarPath(target) := c.fs[SidecarPath(source)]]
  {
    if c.result.Err? || c.result.value == "" then c
    else if HasFailsafe(failsafe) then
      var target := PostMoveFilename(c.fs, source, failsafe.value);
      match Move(c.fs, source, target)
      case Err(e) => Transfer(c.fs, c.sleeps, Err(Os(e)))
      case Ok(moved) =>
        if !storeMd5s then Transfer(moved.0, c.sleeps, c.result)
        else
          match Move(moved.0, SidecarPath(source), SidecarPath(target))
          case Err(e) => Transfer(moved.0, c.sleeps, Err(Os(e)))
          case Ok(moved2) => Transfer(moved2.0, c.sleeps, c.result)
    else
      match Remove(c.fs, source)
      case Err(e) => Transfer(c.fs, c.sleeps, Err(Os(e)))
      case Ok(fs1) =>
        if !storeMd5s then Transfer(fs1, c.sleeps, c.result)
        else
          match Remove(fs1, SidecarPath(source))
          case Err(e) => Transfer(fs1, c.sleeps, Err(Os(e)))
          case Ok(fs2) =>
            assert fs2 == c.fs - {source, SidecarPath(source)};
            Transfer(fs2, c.sleeps, c.result)
  }

  /** Parking in a failsafe folder with sidecars: the source and its sidecar
      leave their folder and arrive there unchanged, replacing whatever files
      had those names in the failsafe folder. */
  lemma FailsafeParks(fs: Fs, md5: Hasher, source: Path, destination: Path,
                      failsafe: Path, outcomes: seq<CopyOutcome>, moveRetries: int)
    requires var c := FixityCopy(fs, md5, source, destination, true, MoveOp, outcomes, moveRetries);
             var target := PostMoveFilename(c.fs, source, failsafe);
             c.result.Ok? && c.result.value != "" && failsafe != ""
             && target != SidecarPath(source) && !IsDirAt(c.fs, target) && !IsDirAt(c.fs, SidecarPath(target))
    ensures var c := FixityCopy(fs, md5, source, destination, true, MoveOp, outcomes, moveRetries);
            var t := FixityMove(fs, md5, source, destination, true, Some(failsafe), outcomes, moveRetries);
            var target := PostMoveFilename(c.fs, source, failsafe);
            t.result == c.result && source in c.fs && SidecarPath(source) in c.fs
            && target in t.fs && SidecarPath(target) in t.fs
            && t.fs[target] == c.fs[source] && t.fs[SidecarPath(target)] == c.fs[SidecarPath(source)]
            && (source != target && source != SidecarPath(target) ==> source !in t.fs && SidecarPath(source) !in t.fs)
  {
    var c := FixityCopy(fs, md5, source, destination, true, MoveOp, outcomes, moveRetries);
    var target := PostMoveFilename(c.fs, source, failsafe);
    ParkBoth(c, source, target);
  }

  /** The filesystem the parking step leaves: the moved source and sidecar
      keep their contents, and unless one of them landed back on the source
      path, both old paths are gone. */
  lemma ParkBoth(c: Transfer, source: Path, target: Path)
    requires SidecarParkable(c.fs, source, target)
    ensures var fs := ((c.fs - {source, SidecarPath(source)})[target := c.fs[source]])[SidecarPath(target) := c.fs[SidecarPath(source)]];
            target in fs && SidecarPath(target) in fs
            && fs[target] == c.fs[source] && fs[SidecarPath(target)] == c.fs[SidecarPath(source)]
            && (source != target && source != SidecarPath(target) ==> source !in fs && SidecarPath(source) !in fs)
  {
    assert SidecarPath(target) != target;
    SidecarInjective(source, target);
  }

  /** The whole move of a ready file whose copy goes through at once, without
      a failsafe folder: the file and its digest now live only at the
      destination. */
  lemma CleanMove(fs: Fs, md5: Hasher, source: Path, destination: Path, storeMd5s: bool,
                  outcomes: seq<CopyOutcome>, moveRetries: int)
    requires Ready(fs, source, destination, storeMd5s)
    requires moveRetries >= 1 && OutcomeAt(outcomes, 0) == Copied
    requires PostMoveFilename(fs, source, destination) != ""
    // the new sidecar would otherwise be written over the source itself
    requires !(storeMd5s && SidecarPath(PostMoveFilename(fs, source, destination)) == source)
    ensures var t := FixityMove(fs, md5, source, destination, storeMd5s, None, outcomes, moveRetries);
            var dest := PostMoveFilename(fs, source, destination);
            t.result == Ok(dest) && t.sleeps == 0 && source !in t.fs && dest in t.fs && t.fs[dest] == fs[source]
            && (storeMd5s ==> SidecarPath(source) !in t.fs && SidecarPath(dest) in t.fs
                              && t.fs[SidecarPath(dest)] == File(md5(fs[source].data)))
  {
    CleanTransfer(fs, md5, source, destination, storeMd5s, MoveOp, outcomes, 0, moveRetries);
    var c := FixityCopy(fs, md5, source, destination, storeMd5s, MoveOp, outcomes, moveRetries);
    var dest := PostMoveFilename(fs, source, destination);
    var gone := if storeMd5s then {source, SidecarPath(source)} else {source};
    assert dest !in gone;
    if storeMd5s {
      SidecarInjective(dest, source);
      assert SidecarPath(dest) !in gone;
    }
  }
}
