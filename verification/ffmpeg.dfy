/** The filesystem side of `app/lib/ffmpeg.py`: the video extensions it
    recognises, the adjacent `.lock` markers, the watch-folder scanner, and
    the text of `FFMPEGError`. */
module Ffmpeg {
  import opened Wrappers
  import opened Strings
  import opened Paths
  import opened FileSystem

  /** `VIDEO_MIME_TYPES`: extension (with its dot, case-sensitive) to MIME type. */
  const VideoMimeTypes: map<string, string> := map[
    ".flv" := "video/x-flv",
    ".mp4" := "video/mp4",
    ".ts" := "video/MP2T",
    ".3gp" := "video/3gpp",
    ".mov" := "video/quicktime",
    ".avi" := "video/x-msvideo",
    ".wmv" := "video/x-ms-wmv",
    ".mpg" := "video/mpeg",
    ".mpeg" := "video/mpeg"
  ]

  /** `VIDEO_MIME_TYPES.get(ext, None)` for the extension `splitext` gives. */
  function MimeTypeOf(path: Path): (r: Option<string>)
    ensures r.Some? <==> SplitExt(path).1 in VideoMimeTypes
    ensures r.Some? ==> r.value == VideoMimeTypes[SplitExt(path).1]
  {
    var ext := SplitExt(path).1;
    if ext in VideoMimeTypes then Some(VideoMimeTypes[ext]) else None
  }

  /** The scanner's filter: the file name's extension is a known video one. */
  predicate IsVideoName(name: string) {
    SplitExt(name).1 in VideoMimeTypes
  }

  // ---------------------------------------------------------------------
  // Lock markers

  /** `_lockfile(filepath)`. */
  function LockPath(p: Path): (r: Path)
    ensures |r| == |p| + 5 && r[..|p|] == p
  {
    p + ".lock"
  }

  /** `is_locked(filepath)`: `os.path.exists` of the lock path, so a
      directory there counts as a lock too. */
  predicate IsLocked(fs: Fs, p: Path) {
    LockPath(p) in fs
  }

  /** `lock(filepath)`: `Path.touch()` creates an empty file, or leaves an
      existing entry's content alone. */
  function Lock(fs: Fs, p: Path): (r: Fs)
    ensures IsLocked(r, p)
    ensures r - {LockPath(p)} == fs - {LockPath(p)}
    ensures IsLocked(fs, p) ==> r == fs
    ensures !IsLocked(fs, p) ==> r == fs[LockPath(p) := File([])]
  {
    if LockPath(p) in fs then fs else fs[LockPath(p) := File([])]
  }

  /** `unlock(filepath)`: `os.remove` of the lock path, which fails when it is
      missing (or a directory). */
  function Unlock(fs: Fs, p: Path): (r: Result<Fs, OsError>)
    ensures r.Ok? <==> IsFileAt(fs, LockPath(p))
    ensures r.Ok? ==> r.value == fs - {LockPath(p)} && !IsLocked(r.value, p)
    ensures !IsLocked(fs, p) ==> r == Err(FileNotFound(LockPath(p)))
  {
    Remove(fs, LockPath(p))
  }

  /** Locking twice is locking once. */
  lemma LockIdempotent(fs: Fs, p: Path)
    ensures Lock(Lock(fs, p), p) == Lock(fs, p)
  {
  }

  /** Locking a path that was not locked and unlocking it again restores the
      filesystem exactly. */
  lemma LockUnlock(fs: Fs, p: Path)
    requires !IsLocked(fs, p)
    ensures Unlock(Lock(fs, p), p) == Ok(fs)
  {
    assert fs[LockPath(p) := File([])] - {LockPath(p)} == fs;
  }

  /** Unlocking twice fails the second time. */
  lemma UnlockTwice(fs: Fs, p: Path)
    requires Unlock(fs, p).Ok?
    ensures Unlock(Unlock(fs, p).value, p) == Err(FileNotFound(LockPath(p)))
  {
  }

  /** A lock marker never has a video extension of its own: `splitext` of
      `n + ".lock"` gives ".lock" or nothing. The same holds for the `.md5`
      and `.json` sidecars. */
  lemma SidecarNotVideo(n: string, suffix: string)
    requires suffix == ".lock" || suffix == ".md5" || suffix == ".json"
    ensures !IsVideoName(n + suffix)
  {
    SidecarSuffix(suffix);
    var p := n + suffix;
    assert p[|n|..] == suffix;
    var ext := SplitExt(p).1;
    if ext != "" {
      DotSuffixUnique(p, ext, suffix);
    }
  }

  /** The sidecar suffixes start with their only dot and are not video
      extensions. */
  lemma SidecarSuffix(suffix: string)
    requires suffix == ".lock" || suffix == ".md5" || suffix == ".json"
    ensures |suffix| > 0 && suffix[0] == '.' && '.' !in suffix[1..]
    ensures suffix !in VideoMimeTypes
  {
  }

  /** Two suffixes of `p` that each start with their only dot are the same. */
  lemma DotSuffixUnique(p: string, a: string, b: string)
    requires EndsWith(p, a) && |a| > 0 && a[0] == '.' && '.' !in a[1..]
    requires EndsWith(p, b) && |b| > 0 && b[0] == '.' && '.' !in b[1..]
    ensures a == b
  {
  }

  // ---------------------------------------------------------------------
  // find_video_files as a resumable generator

  /** One file name of the walk, with the folder it was found in. */
  datatype Entry = Entry(dirpath: Path, name: string)

  function EntryPath(e: Entry): Path {
    Join(e.dirpath, e.name)
  }

  /** The generator between two `next()` calls: the walk entries not yet
      looked at, whether it locks, and the path it yielded last and will
      unlock when resumed. */
  datatype Scanner = Scanner(pending: seq<Entry>, lockFiles: bool, held: Option<Path>)

  function StartScan(listing: seq<Entry>, lockFiles: bool): Scanner {
    Scanner(listing, lockFiles, None)
  }

  /** An entry the scanner yields: a video name that still exists and, when
      locking, is not locked. */
  predicate Eligible(fs: Fs, e: Entry, lockFiles: bool) {
    IsVideoName(e.name) && EntryPath(e) in fs && !(lockFiles && IsLocked(fs, EntryPath(e)))
  }

  /** What the scan does between resuming and the next `yield`. */
  datatype Advanced = Advanced(fs: Fs, rest: seq<Entry>, yielded: Option<Path>)

  /** How many entries the scan passes over before the first eligible one
      (all of them when none is); see `FirstEligibleIsFirst`. */
  function FirstEligible(fs: Fs, pending: seq<Entry>, lockFiles: bool): (i: nat)
    ensures i <= |pending|
  {
    if |pending| == 0 then 0
    else if Eligible(fs, pending[0], lockFiles) then 0
    else 1 + FirstEligible(fs, pending[1..], lockFiles)
  }

  /** Every entry passed over is ineligible, and the one stopped at is
      eligible. */
  lemma {:induction false} FirstEligibleIsFirst(fs: Fs, pending: seq<Entry>, lockFiles: bool)
    ensures var i := FirstEligible(fs, pending, lockFiles);
            (forall j :: 0 <= j < i ==> !Eligible(fs, pending[j], lockFiles))
            && (i < |pending| ==> Eligible(fs, pending[i], lockFiles))
    decreases |pending|
  {
    if |pending| > 0 && !Eligible(fs, pending[0], lockFiles) {
      var k := FirstEligible(fs, pending[1..], lockFiles);
      FirstEligibleIsFirst(fs, pending[1..], lockFiles);
      assert forall j :: 1 <= j <= k ==> pending[j] == pending[1..][j - 1];
    }
  }

  /** Skips entries until one is eligible, locks it when locking, and stops
      there; or runs out of entries. */
  function Advance(fs: Fs, pending: seq<Entry>, lockFiles: bool): (r: Advanced)
    ensures r.yielded.None? ==> r.rest == [] && r.fs == fs
    ensures r.yielded.Some? ==> |r.rest| < |pending| && r.rest == pending[|pending| - |r.rest|..]
  {
    var i := FirstEligible(fs, pending, lockFiles);
    if i == |pending| then Advanced(fs, [], None)
    else
      var p := EntryPath(pending[i]);
      var rest := pending[i + 1..];
      assert |pending| - |rest| == i + 1;
      Advanced(if lockFiles then Lock(fs, p) else fs, rest, Some(p))
  }

  /** The entry the scan stops at is the first eligible one (see
      `FirstEligible`); when locking, only its lock is added. */
  lemma AdvanceYields(fs: Fs, pending: seq<Entry>, lockFiles: bool)
    ensures var r := Advance(fs, pending, lockFiles);
            r.yielded.Some? ==>
              var i := |pending| - |r.rest| - 1;
              i == FirstEligible(fs, pending, lockFiles)
              && Eligible(fs, pending[i], lockFiles) && r.yielded.value == EntryPath(pending[i])
              && r.fs == (if lockFiles then Lock(fs, EntryPath(pending[i])) else fs)
  {
    var k := FirstEligible(fs, pending, lockFiles);
    var r := Advance(fs, pending, lockFiles);
    FirstEligibleIsFirst(fs, pending, lockFiles);
    if k < |pending| {
      var p := EntryPath(pending[k]);
      assert r == Advanced(if lockFiles then Lock(fs, p) else fs, pending[k + 1..], Some(p));
      assert |pending| - |r.rest| - 1 == k;
    }
  }

  /** The scan ends only when no pending entry is eligible. */
  lemma AdvanceExhausted(fs: Fs, pending: seq<Entry>, lockFiles: bool)
    ensures Advance(fs, pending, lockFiles).yielded.None? <==>
            forall j :: 0 <= j < |pending| ==> !Eligible(fs, pending[j], lockFiles)
  {
    FirstEligibleIsFirst(fs, pending, lockFiles);
  }

  /** The outcome of one `next()`: the filesystem afterwards, the generator,
      and the path yielded (None when the walk is exhausted). */
  datatype Step = Step(fs: Fs, scanner: Scanner, yielded: Option<Path>)

  /** `next()` on the generator: first the path yielded last is unlocked
      (an error if its lock has gone), then the scan advances. */
  function Resume(fs: Fs, s: Scanner): (r: Result<Step, OsError>)
    ensures s.held.Some? && !IsFileAt(fs, LockPath(s.held.value)) ==> r.Err?
    ensures r.Ok? ==> r.value.scanner.lockFiles == s.lockFiles
    ensures r.Ok? ==> r.value.scanner.held == (if s.lockFiles then r.value.yielded else None)
  {
    var fs1 :- if s.held.Some? then Unlock(fs, s.held.value) else Ok(fs);
    var a := Advance(fs1, s.pending, s.lockFiles);
    Ok(Step(a.fs, Scanner(a.rest, s.lockFiles, if s.lockFiles then a.yielded else None), a.yielded))
  }

  /** Without locking, the scan never touches the filesystem and yields the
      first pending entry that is an existing video path, skipping everything
      else. */
  lemma NoLockingLeavesFs(fs: Fs, s: Scanner)
    requires !s.lockFiles && s.held.None?
    ensures Resume(fs, s).Ok? && Resume(fs, s).value.fs == fs
    ensures var r := Resume(fs, s).value;
            var i := FirstEligible(fs, s.pending, false);
            r.yielded.Some? ==>
              i < |s.pending| && r.yielded.value == EntryPath(s.pending[i])
              && IsVideoName(s.pending[i].name) && EntryPath(s.pending[i]) in fs
              && forall j :: 0 <= j < i ==> !IsVideoName(s.pending[j].name) || EntryPath(s.pending[j]) !in fs
  {
    AdvanceYields(fs, s.pending, false);
    FirstEligibleIsFirst(fs, s.pending, false);
  }

  /** With locking, a yielded path was unlocked before and is locked while
      the consumer holds it; nothing else changes. Abandoning the generator
      here leaves the lock behind. */
  lemma YieldedIsLocked(fs: Fs, s: Scanner)
    requires s.lockFiles && s.held.None?
    ensures var r := Resume(fs, s);
            r.Ok? && (r.value.yielded.Some? ==>
              var p := r.value.yielded.value;
              !IsLocked(fs, p) && IsLocked(r.value.fs, p) && r.value.fs == fs[LockPath(p) := File([])]
              && r.value.scanner.held == Some(p))
  {
    AdvanceYields(fs, s.pending, true);
  }

  /** Resuming after a yield removes exactly the lock taken for it, before
      looking at the next entry. */
  lemma ResumeUnlocks(fs: Fs, s: Scanner, p: Path)
    requires s.lockFiles && s.held == Some(p) && IsFileAt(fs, LockPath(p))
    ensures var r := Resume(fs, s);
            r.Ok? && r.value == (var a := Advance(fs - {LockPath(p)}, s.pending, true);
                                 Step(a.fs, Scanner(a.rest, true, a.yielded), a.yielded))
  {
  }

  /** A path whose lock exists is never yielded by a locking scan. */
  lemma LockedNeverYielded(fs: Fs, pending: seq<Entry>)
    ensures var a := Advance(fs, pending, true);
            a.yielded.Some? ==> !IsLocked(fs, a.yielded.value)
  {
    AdvanceYields(fs, pending, true);
  }

  // ---------------------------------------------------------------------
  // FFMPEGError

  /** The arguments `get_video_metadata` runs ffprobe with. */
  function ProbeArgs(location: Path): (r: seq<string>)
    ensures |r| == 8 && r[0] == "ffprobe" && r[7] == location
  {
    ["ffprobe", "-v", "quiet", "-print_format", "json", "-show_format", "-show_streams", location]
  }

  /** The fixed pieces of `FFMPEGError`'s message, around the command and
      the exit status. */
  const CommandOpen := "Command '"
  const StatusOpen := "' didn't complete successfully (exit status "
  const MessageClose := "). Perhaps not a valid video file?"

  /** `FFMPEGError.__str__`: the command joined by spaces and the exit status
      with `%d`. */
  function FfmpegErrorMessage(cmd: seq<string>, returnCode: int): string {
    CommandOpen + JoinWith(cmd, " ") + StatusOpen + FormatInt(returnCode, 0) + MessageClose
  }

  /** Reading a message back: the words of the quoted command and the exit
      status, or `None` for text not shaped like the message. */
  function ReadErrorMessage(msg: string): Option<(seq<string>, int)> {
    ReadBetween(msg, CommandOpen, StatusOpen, MessageClose)
  }

  /** Reads `open`, then the inside of the message, then `close`. */
  function ReadBetween(msg: string, open: string, middle: string, close: string): Option<(seq<string>, int)> {
    if |msg| < |open| + |close| || !StartsWith(msg, open) || !EndsWith(msg, close) then None
    else ReadQuoted(msg[|open|..|msg| - |close|], middle)
  }

  /** The inside: a command up to the quote that starts `middle`, then
      `middle` and a status. */
  function ReadQuoted(body: string, middle: string): Option<(seq<string>, int)> {
    var command := UpTo(body, '\'');
    var rest := body[|command|..];
    if !StartsWith(rest, middle) then None
    else match ParseInt(rest[|middle|..])
      case None => None
      case Some(status) => Some((Split(command, ' '), status))
  }

  /** The message reads back to the command and exit status it was made
      from, as long as no argument contains a space or a quote. */
  lemma ErrorMessageReadsBack(cmd: seq<string>, returnCode: int)
    requires |cmd| >= 1 && forall i :: 0 <= i < |cmd| ==> ' ' !in cmd[i] && '\'' !in cmd[i]
    ensures ReadErrorMessage(FfmpegErrorMessage(cmd, returnCode)) == Some((cmd, returnCode))
  {
    var command := JoinWith(cmd, " ");
    var status := FormatInt(returnCode, 0);
    JoinAvoids(cmd, " ", '\'');
    assert StatusOpen[0] == '\'';
    ReadPieces(CommandOpen, command, StatusOpen, status, MessageClose);
    StatusReadsBack(returnCode);
    CommandTextSplits(cmd);
  }

  /** The reader takes apart what was put together, when the command holds
      no quote and `middle` starts with one. */
  lemma ReadPieces(open: string, command: string, middle: string, status: string, close: string)
    requires '\'' !in command && |middle| > 0 && middle[0] == '\''
    ensures ReadBetween(open + command + middle + status + close, open, middle, close)
            == if ParseInt(status).Some? then Some((Split(command, ' '), ParseInt(status).value)) else None
  {
    var body := command + middle + status;
    ReadOuter(open, body, close);
    assert open + command + middle + status + close == open + body + close;
    ReadInner(command, middle, status);
  }

  /** The reader strips `open` and `close`. */
  lemma ReadOuter(open: string, body: string, close: string)
    ensures forall middle :: ReadBetween(open + body + close, open, middle, close) == ReadQuoted(body, middle)
  {
    var msg := open + body + close;
    assert msg[..|open|] == open;
    assert msg[|msg| - |close|..] == close;
    assert msg[|open|..|msg| - |close|] == body;
  }

  /** Inside, the command ends at the quote that starts `middle`. */
  lemma ReadInner(command: string, middle: string, status: string)
    requires '\'' !in command && |middle| > 0 && middle[0] == '\''
    ensures ReadQuoted(command + middle + status, middle)
            == if ParseInt(status).Some? then Some((Split(command, ' '), ParseInt(status).value)) else None
  {
    var body := command + middle + status;
    var rest := middle + status;
    var tail := middle[1..] + status;
    assert rest == ['\''] + tail;
    assert body == command + ['\''] + tail;
    UpToFirst(command, '\'', tail);
    assert body[|command|..] == rest;
    assert rest[..|middle|] == middle;
    assert rest[|middle|..] == status;
  }

  /** The command text in the message names exactly the arguments, in order,
      as long as none of them contains a space. */
  lemma CommandTextSplits(cmd: seq<string>)
    requires |cmd| >= 1 && forall i :: 0 <= i < |cmd| ==> ' ' !in cmd[i]
    ensures Split(JoinWith(cmd, " "), ' ') == cmd
  {
    SplitJoin(cmd, ' ');
  }

  /** The exit status in the message reads back with `int()`. */
  lemma StatusReadsBack(returnCode: int)
    ensures ParseInt(FormatInt(returnCode, 0)) == Some(returnCode)
  {
    ParseFormatInt(returnCode, 0);
  }
}
