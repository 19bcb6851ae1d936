# easyaccess transcoder core, modelled in Dafny

ACMI's easyaccess transcoder watches a folder for video files. For each
preservation master it takes a lock, reads the technical metadata that
ffprobe reports, and derives the collection names of the master, access
and web copies from the master's file name (`<Vernon ID>_<type>_<title>`).
It moves the files with fixity checking (MD5 digests written to `.md5`
sidecars, copy retries, a failsafe folder) and announces new files on
Slack with SMB links.

This project models that core as pure functions over an immutable
filesystem (`map<Path, Node>`) and proves what the code promises:

- `Strings`, `Paths`: `str()`/`int()`, `%0Nd`, `str.split`/`join`/`replace`,
  and `os.path.basename`/`dirname`/`join`/`splitext`, each with its
  defining properties.
- `FileSystem`: files and folders, and the OSErrors of read, write,
  remove and move.
- `Checksum`: `generate_file_md5`, both its whole-file and its streaming
  form. MD5 itself is an uninterpreted function.
- `Fixity`: `post_move_filename`, `fixity_copy` with its retry loop, and
  `fixity_move` with its failsafe folder.
- `Formatting`: `seconds_to_hms` as written and as evidently intended,
  and `hms_to_seconds`, with round trips between them and the examples
  from the test module.
- `Ffmpeg`: the video MIME table, the `.lock` mini library, the
  `find_video_files` generator (one `next()` at a time), and the
  FFMPEGError message.
- `VideoMetadata`: `get_video_metadata` after ffprobe has run. This
  covers the stream promotion, the frame-rate ratio, `int(x) or None`,
  the creation-date fallback, the sidecar read and the record.
- `CollectionFiles`: the two name regexes, written as matchers,
  `parse_collection_file_path`/`parse_collection_folder_path`, the
  folder name of `get_or_create_collection_folder`, and
  `master_to_access_filename`.
- `EasyAccess`: the naming block of `main`, covering flexible naming,
  destination folders and paths, and the folders it makes, plus the
  cancel guard of `convert_and_get_metadata`.
- `Slack`: `slack_link`, the file URL, and the text and buttons of
  `new_file_slack_message`.

Python floats are modelled as exact reals. Python's `round` is modelled
as round-half-to-even on those reals. `divmod` is Python's floored
division.

## Model

| member | source | states |
|---|---|---|
| Strings.ParseFormatInt | app/lib/formatting.py:44 | `int()` reads back every `%0Nd` rendering of an integer, sign and zero padding included |
| Strings.SplitJoin | app/lib/formatting.py:35 | splitting a join of separator-free pieces gives back exactly those pieces |
| Strings.ReplaceAbsent | app/lib/slack.py:42 | `str.replace` leaves text without the pattern unchanged |
| Paths.BasenameAppend | app/lib/fixity.py:13 | appending slash-free text to a path appends it to the path's basename |
| Paths.JoinBasename | app/lib/fixity.py:28 | `os.path.join(dest, name)` ends in `name` when the name has no '/' |
| Paths.SplitExt | app/lib/collection_files.py:29 | `splitext` splits a path into root and extension that concatenate back to it; the extension is empty or one dot followed by no other dot or '/' |
| Paths.SplitExtAppend | app/lib/collection_files.py:29 | `splitext` takes off exactly a single-dot extension appended to a path whose basename is not all dots |
| FileSystem.Move | app/lib/fixity.py:107 | `shutil.move` of an existing file succeeds unless the target is a folder already holding an entry of the source's name; the source's content lands at the target (inside a target folder), the source is gone, and nothing else changes. Paths are literal keys, so a missing parent folder of the target is not an error here (see Left out) |
| FileSystem.ReadFile | app/lib/ffmpeg.py:114-115 | reading succeeds exactly on a file and returns its bytes; a missing path or a folder is an OSError |
| FileSystem.WriteFile | app/lib/fixity.py:42-43 | `open(p, "w").write` fails exactly on a folder; otherwise the path holds exactly the new bytes and nothing else changes (no parent folder is checked; see Left out) |
| FileSystem.Remove | app/lib/fixity.py:111 | `os.remove` deletes exactly one file and fails on a missing path or a folder |
| Checksum.SidecarInjective | app/lib/fixity.py:42 | distinct files have distinct `.md5` sidecar paths |
| Checksum.GenerateFileMd5 | app/lib/fixity.py:31-45 | succeeds exactly on a readable file whose sidecar slot is not a folder; returns the digest of the whole content; with `store` it writes only the sidecar, otherwise nothing |
| Checksum.FeedBlocks | app/lib/fixity.py:34-38 | the read loop feeds the whole file for any non-zero block size, including negative ones, and nothing for block size 0 |
| Checksum.StreamFileMd5 | app/lib/fixity.py:31-45 | the streaming digest equals the whole-file digest whenever the block size is not 0 |
| Checksum.DigestDeterministic | app/lib/fixity.py:31-45 | hashing again after storing gives the same digest and the same filesystem |
| Fixity.PostMoveFilename | app/lib/fixity.py:10-28 | an existing folder, or a missing dot-free name, gets the source's file name appended; an existing file, or a missing name with a dot, is the target itself |
| Fixity.PostMoveKeepsName | app/lib/fixity.py:25-28 | the resolved path is either the destination itself or ends in the source's file name |
| Fixity.TrailingSeparatorIsFolder | app/lib/fixity.py:20-23 | a missing destination ending in '/' is always treated as a folder |
| Fixity.PostMoveFilenameFrame | app/lib/fixity.py:17-22 | the resolution depends only on the destination entry |
| Fixity.CopyLoop | app/lib/fixity.py:64-80 | at least one attempt; it stops at the first attempt that does not raise; every earlier attempt failed; one sleep between attempts; the last OSError is re-raised only after `MOVE_RETRIES` failures; only the destination changes |
| Fixity.RetryThenSucceed | app/lib/fixity.py:64-80 | k failures below the bound then a clean attempt: success on attempt k+1 after exactly k sleeps |
| Fixity.RetriesExhausted | app/lib/fixity.py:71-75 | `MOVE_RETRIES` failures re-raise the last OSError after `MOVE_RETRIES - 1` sleeps |
| Fixity.FixityCopy | app/lib/fixity.py:48-89 | an unreadable source fails before any write; a success returns the destination `post_move_filename` resolves against the original filesystem, a previously free path holding a file with the source's digest; the source's content is kept unless it is the new file's sidecar; only the two sidecars and the new file change |
| Fixity.CleanTransfer | app/lib/fixity.py:57-87 | a ready transfer whose copy succeeds after k failures returns the resolved path, holding the source's bytes, after k sleeps |
| Fixity.CorruptTransfer | app/lib/fixity.py:83-89 | a copy with a different digest raises the mismatch and leaves the bad copy (and its sidecar) in place |
| Fixity.FailedTransfer | app/lib/fixity.py:64-75 | a ready transfer whose every attempt fails re-raises the last OSError |
| Fixity.SecondTransferRefused | app/lib/fixity.py:60-62 | repeating a successful transfer is refused and leaves the first copy as it is |
| Fixity.RefusedWhenTaken | app/lib/fixity.py:57-62 | when the resolved destination already exists the transfer is refused naming it, after no sleep, with only the source's sidecar written |
| Fixity.ResolvesAgain | app/lib/fixity.py:10-28 | after a successful transfer the same destination resolves to the file just written |
| Fixity.FixityMove | app/lib/fixity.py:93-115 | a failed copy passes through unchanged; without a failsafe the source (and its sidecar when storing) is deleted; with a failsafe and storing, the source and its sidecar move byte for byte to the slot `post_move_filename` gives and to that slot's sidecar, and nothing else changes; the copy's path is returned |
| Fixity.FinishMove | app/lib/fixity.py:100-115 | the step after the copy: nothing happens after a failed or empty copy; a returned path is passed on; without a failsafe exactly the source (and its sidecar) are removed; with a failsafe and storing, both are moved to the failsafe slot and its sidecar |
| Fixity.FailsafeParks | app/lib/fixity.py:102-109 | with a failsafe and storing, when neither failsafe slot is a folder, the source and its sidecar end up there byte for byte, replacing any file already there (`shutil.move` overwrites), and no longer exist at the source |
| Fixity.CleanMove | app/lib/fixity.py:93-115 | a clean move without failsafe leaves the source's bytes only at the destination, with the source's digest in the new sidecar |
| Formatting.RoundHalfEven | app/lib/formatting.py:10 | Python's `round`: within 0.5, ties to the even integer |
| Formatting.RoundHalfEvenUnique | app/lib/formatting.py:20 | the rounding is the only integer meeting that description |
| Formatting.DivMod60 | app/lib/formatting.py:22 | `divmod(x, 60)` is a floored quotient and a remainder in [0, 60) that recompose `x` |
| Formatting.DivMod60Unique | app/lib/formatting.py:22-23 | any such split is the one `divmod` gives |
| Formatting.FormatFixed | app/lib/formatting.py:25-26 | `%0N.Pf` is at least N characters wide |
| Formatting.FormatFixedNegative | app/lib/formatting.py:25-29 | a negative value is a '-' followed by its magnitude written one character narrower |
| Formatting.FrameOffset | app/lib/formatting.py:9-10 | the fractional second measured in frames lies in [0, framerate) |
| Formatting.SplitFrames | app/lib/formatting.py:7-13 | definition only: `divmod(seconds, 1)`, the rounded frame number, and the carry when it equals the rate; its properties are `FractionalRateNeverCarries`, `SplitFramesAgree` and `VideoMetadata.ZeroRateCarries` |
| Formatting.FractionalRateNeverCarries | app/lib/formatting.py:10-13 | at a frame rate that is not a whole number the written carry never fires: the split is the floor of the seconds and the rounded frame offset |
| Formatting.SecondsToHms | app/lib/formatting.py:5-31 | definition only: `seconds_to_hms` as written; stated by the examples from the test module, `WrittenRoundTrip`, `AgreesWithFixed` and the as-written members of the Findings |
| Formatting.SecondsToHmsFixed | app/lib/formatting.py:5-31 | definition only: the intended `seconds_to_hms`; stated by `FixedFramesRoundTrip`, `AgreesWithFixed` and the corrected members of the Findings |
| Formatting.SplitFramesFixed | app/lib/formatting.py:7-13 | the intended frame split never yields a frame number at or above a positive rate, and moves the whole seconds by at most one |
| Formatting.ToTimecode | app/lib/formatting.py:18-23 | the intended time code has minutes and seconds below 60 and counts exactly the seconds rounded to the decimal places |
| Formatting.HmsToSeconds | app/lib/formatting.py:34-44 | anything but 3 or 4 ':'-separated segments is rejected |
| Formatting.ParseField | app/lib/formatting.py:44 | `int()` of a segment succeeds exactly when it parses and names the bad text otherwise |
| Formatting.SecondsOnlyExample | app/tests.py:17 | 75 s is written `01:15` |
| Formatting.HoursExample | app/tests.py:20 | 3600 s is written `01:00:00` |
| Formatting.AlwaysHoursExample | app/tests.py:23 | 75 s with hours forced is `00:01:15` |
| Formatting.DecimalUnderAnHour | app/lib/formatting.py:18-31 | with decimal places and no hours shown, any time below an hour is written `mm:` then `%0N.Pf` of the seconds left after the whole minutes |
| Formatting.DecimalWithHours | app/lib/formatting.py:18-31 | with decimal places and hours shown (non-zero hours or `always_include_hours`), any time is written `hh:mm:` then `%0N.Pf` of the seconds left after the whole minutes |
| Formatting.SecondsDecimalsExample | app/tests.py:26 | 72.5 s to one place is `01:12.5` |
| Formatting.SecondsDecimalsTwoExample | app/tests.py:29 | 72.5 s to two places is `01:12.50` |
| Formatting.FramesExample | app/tests.py:32 | 72.5 s at 24 fps is `01:12:12` |
| Formatting.FramesThirtyExample | app/tests.py:35 | 72.5 s at 30 fps is `01:12:15` |
| Formatting.IgnoreDecimalsExample | app/tests.py:38 | with frames the decimal places are ignored |
| Formatting.HoursAndFramesExample | app/tests.py:41-44 | hours and frames together: `00:01:12:15` |
| Formatting.FramesRoundingExample | app/tests.py:47 | 65.16 s at 25 fps rounds to frame 4 |
| Formatting.FramesRoundingTwoExample | app/tests.py:50 | 65.99 s at 24 fps rounds up to the rate and carries into the next second: `01:06:00` |
| Formatting.ParseRenderSeconds | app/lib/formatting.py:34-44 | `hms_to_seconds` reads every `hh:mm:ss` time code back to its exact seconds |
| Formatting.ParseRenderFrames | app/lib/formatting.py:34-44 | `hms_to_seconds` reads every `hh:mm:ss:ff` time code back, frames at 25 per second |
| Formatting.ParseThreeFields | app/lib/formatting.py:35-44 | three ':'-free segments that `int()` reads as h, m, s give h*3600 + m*60 + s |
| Formatting.ParseFourFields | app/lib/formatting.py:35-44 | four segments h, m, s, f give h*3600 + m*60 + s + f/25 |
| Formatting.SplitFramesAgree | app/lib/formatting.py:11-13 | at a whole positive frame rate the written carry test is the intended one |
| Formatting.AgreesWithFixed | app/lib/formatting.py:5-31 | with frames at a whole rate, or with no decimal places, the written and the intended `seconds_to_hms` produce the same text |
| Formatting.FramesRoundTrip | app/lib/formatting.py:5-44 | a time on a 25 fps frame boundary, written with hours and frames, reads back exactly |
| Formatting.WrittenRoundTrip | app/lib/formatting.py:5-44 | the same round trip holds for the written `seconds_to_hms` |
| Formatting.FixedFramesRoundTrip | app/lib/formatting.py:5-44 | the same round trip holds for the intended `seconds_to_hms` |
| Formatting.LeadingZeroDropped | app/lib/formatting.py:25-31 | as written, 65.5 s to one place is `01:5.5` |
| Formatting.LeadingZeroKept | app/lib/formatting.py:25-31 | intended: 65.5 s to one place is `01:05.5` |
| Formatting.SixtySecondsShown | app/lib/formatting.py:18-23 | as written, 59.96 s to one place is `00:60.0` |
| Formatting.SixtySecondsCarried | app/lib/formatting.py:18-23 | intended: 59.96 s to one place is `01:00.0` |
| Formatting.FrameRateExceeded | app/lib/formatting.py:10-13 | as written, 0.99 s at 29.97 fps gets frame 30, which no second has |
| Formatting.FrameRateCarried | app/lib/formatting.py:10-13 | intended: the frame number carries, giving `00:01:00` |
| Ffmpeg.MimeTypeOf | app/lib/ffmpeg.py:22-32 | a MIME type exactly for the nine video extensions, taken from the table |
| Ffmpeg.Lock | app/lib/ffmpeg.py:158-159 | afterwards the file is locked; an existing lock entry is left alone, otherwise an empty lock file is added; nothing else changes |
| Ffmpeg.IsLocked | app/lib/ffmpeg.py:152-156 | definition only: something exists at the path plus `.lock`; `Lock`, `Unlock` and `LockUnlock` state how it changes |
| Ffmpeg.Unlock | app/lib/ffmpeg.py:161-162 | removes exactly the lock file and fails when there is none |
| Ffmpeg.LockIdempotent | app/lib/ffmpeg.py:158-159 | locking twice is locking once |
| Ffmpeg.LockUnlock | app/lib/ffmpeg.py:152-162 | lock then unlock restores an unlocked filesystem exactly |
| Ffmpeg.UnlockTwice | app/lib/ffmpeg.py:161-162 | a second unlock fails |
| Ffmpeg.SidecarNotVideo | app/lib/ffmpeg.py:169 | `.lock`, `.md5` and `.json` sidecars are never taken for videos |
| Ffmpeg.Advance | app/lib/ffmpeg.py:167-180 | the scan either runs out of entries without touching the filesystem, or stops having consumed at least one entry |
| Ffmpeg.FirstEligible | app/lib/ffmpeg.py:168-176 | the index of the entry the scan stops at is within the listing |
| Ffmpeg.FirstEligibleIsFirst | app/lib/ffmpeg.py:168-176 | every entry before that index is skipped (not a video, gone, or locked when locking), and the one at it is eligible |
| Ffmpeg.AdvanceYields | app/lib/ffmpeg.py:168-177 | the path yielded is that of the first eligible entry, and locking adds only its lock |
| Ffmpeg.AdvanceExhausted | app/lib/ffmpeg.py:167-180 | the walk ends exactly when no remaining entry is an existing, unlocked video |
| Ffmpeg.Resume | app/lib/ffmpeg.py:174-178 | resuming fails when the held lock has vanished; a locking scan holds exactly what it yielded |
| Ffmpeg.NoLockingLeavesFs | app/lib/ffmpeg.py:166-179 | without locking the generator never changes the filesystem, and what it yields is the first pending entry with a video extension whose path exists, every entry before it being skipped |
| Ffmpeg.YieldedIsLocked | app/lib/ffmpeg.py:174-177 | a locking scan yields only a path that was unlocked and is now locked by it |
| Ffmpeg.ResumeUnlocks | app/lib/ffmpeg.py:178 | the next `next()` first removes exactly that lock |
| Ffmpeg.LockedNeverYielded | app/lib/ffmpeg.py:175 | a path already locked is never yielded |
| Ffmpeg.ProbeArgs | app/lib/ffmpeg.py:81 | ffprobe is run with eight arguments, the video location last |
| Ffmpeg.CommandTextSplits | app/lib/ffmpeg.py:61 | the `" ".join(cmd)` of the FFMPEGError message splits back into the arguments when none holds a space; the command half of `ErrorMessageReadsBack`, and applied to the ffprobe command by `VideoMetadata.ProbeCommandReadsBack` |
| Ffmpeg.StatusReadsBack | app/lib/ffmpeg.py:61 | the `%d` exit status of the FFMPEGError message reads back with `int()`; the status half of `ErrorMessageReadsBack` |
| Ffmpeg.FfmpegErrorMessage | app/lib/ffmpeg.py:59-61 | definition only: `FFMPEGError.__str__`; its partner is `ReadErrorMessage`, related by `ErrorMessageReadsBack` |
| Ffmpeg.ReadErrorMessage | app/lib/ffmpeg.py:59-61 | definition only: reads a command and an exit status back out of that message text |
| Ffmpeg.ErrorMessageReadsBack | app/lib/ffmpeg.py:59-61 | the message of any command whose arguments hold no space or quote reads back as exactly that command and exit status |
| VideoMetadata.Get | app/lib/ffmpeg.py:96-97 | `.get` works only on a dict and returns the value or the default |
| VideoMetadata.Index | app/lib/ffmpeg.py:92-93 | `d[key]` raises KeyError naming a missing key |
| VideoMetadata.PyInt | app/lib/ffmpeg.py:131 | `int()` keeps an int, reads a string exactly when it parses as an integer, and raises TypeError on null, list or dict |
| VideoMetadata.IntOrNone | app/lib/ffmpeg.py:131-145 | `int(x) or None` is None exactly when `int(x)` is 0, and the number otherwise |
| VideoMetadata.PyFloat | app/lib/ffmpeg.py:118 | `float()` keeps numbers, parses decimal strings, and raises TypeError on null, list or dict |
| VideoMetadata.ParseDecimalInt | app/lib/ffmpeg.py:118 | `float()` reads back every `str(int)` |
| VideoMetadata.ParseDecimalFraction | app/lib/ffmpeg.py:118 | `float()` of `w.f` counts the fraction in units of `10^-len(f)` |
| VideoMetadata.ParseSigned | app/lib/ffmpeg.py:118 | `float()` of digits is their value, and a leading '-' negates it |
| VideoMetadata.FormatFixedReadsBack | app/lib/formatting.py:25-29 | for a non-negative x, `float()` of `%0N.Pf % x` is x times 10^P rounded half to even, divided by 10^P (with `FormatFixedNegative` and `ParseSigned`, a negative x reads back as the negated magnitude) |
| VideoMetadata.PromoteOk | app/lib/ffmpeg.py:92-94 | promotion succeeds exactly when every stream is a dict with a hashable `codec_type` |
| VideoMetadata.PromoteKeeps | app/lib/ffmpeg.py:93 | keys the document already has are never overwritten |
| VideoMetadata.PromotedKeeps | app/lib/ffmpeg.py:91-94 | every entry of the ffprobe document survives promotion unchanged |
| VideoMetadata.PromoteAddsCodecTypes | app/lib/ffmpeg.py:92-94 | every added key is some stream's `codec_type` |
| VideoMetadata.PromoteFirst | app/lib/ffmpeg.py:92-94 | the first stream of each new `codec_type` is the one promoted |
| VideoMetadata.Promote | app/lib/ffmpeg.py:92-94 | definition only: the promotion loop; stated by `PromoteOk`, `PromoteKeeps`, `PromoteAddsCodecTypes` and `PromoteFirst` |
| VideoMetadata.FrameRate | app/lib/ffmpeg.py:99-100 | a frame rate that is not a string raises AttributeError |
| VideoMetadata.FrameRateRatio | app/lib/ffmpeg.py:99-100 | `n/d` reads as n / d, and a zero denominator raises ZeroDivisionError |
| VideoMetadata.FrameRateDefault | app/lib/ffmpeg.py:99-100 | the default `0/1` is 0.0 |
| VideoMetadata.FrameRateNoSlash | app/lib/ffmpeg.py:99-100 | a rate without '/' raises IndexError |
| VideoMetadata.CreationDate | app/lib/ffmpeg.py:105-110 | without a `format` dict holding `tags` (the caught KeyError or TypeError) the file's ctime; `tags` that is not a dict raises the uncaught AttributeError; a missing, null or non-string `creation_time` (TypeError in the parser) gives the ctime; a string tag gives its parsed date, or the ctime when it does not parse (ValueError) |
| VideoMetadata.PromotedDocument | app/lib/ffmpeg.py:81-94 | a non-zero ffprobe exit raises FFMPEGError with the exact command; success promotes the streams of the decoded document |
| VideoMetadata.SelectStreams | app/lib/ffmpeg.py:96-100 | without a video entry the frame rate is 0.0 and the video part empty; otherwise it is the promoted stream |
| VideoMetadata.ReadSidecar | app/lib/ffmpeg.py:114-115 | reading succeeds exactly when the sidecar is a file, and the checksum is its content taken as text unchanged (the text-mode decode is left out) |
| VideoMetadata.Duration | app/lib/ffmpeg.py:117-118 | a missing `format` is a KeyError and a non-dict one an AttributeError; a missing duration reads as 0.0; otherwise the duration is `float()` of the entry, failing exactly when that fails |
| VideoMetadata.Build | app/lib/ffmpeg.py:117-147 | the record carries the MIME type, date, size, duration, frame rate and checksum it was given and the codec, size and channel fields of the selected streams; a missing bit rate is None; none of the `or None` fields is 0; and the duration text is `seconds_to_hms` as written, with hours and frames at the frame rate |
| VideoMetadata.Stages | app/lib/ffmpeg.py:72-147 | a successful call passed every stage and builds the record from their results |
| VideoMetadata.GetVideoMetadata | app/lib/ffmpeg.py:72-147 | definition only: the stages in the order the code meets them; stated by `Stages`, `ProbeFailureReported`, `RecordFacts`, `NeedsSidecarAndStat`, `FirstVideoStream` and `AudioOnly` |
| VideoMetadata.ProbeFailureReported | app/lib/ffmpeg.py:59-89 | a failed ffprobe is reported as FFMPEGError with the exact command and exit status; with no space in the location the command text splits back into the arguments, and with no quote either the whole message reads back as the command and exit status |
| VideoMetadata.ProbeCommandReadsBack | app/lib/ffmpeg.py:59-61 | the ffprobe command line of a space-free location splits back into its words, and without a quote its whole FFMPEGError message reads back |
| VideoMetadata.RecordFacts | app/lib/ffmpeg.py:112-147 | the record has the extension's MIME type, the sidecar's content taken as text unchanged, the stat's size, no zero `or None` field, and a duration text that is `seconds_to_hms` as written at the video frame rate |
| VideoMetadata.RecordCreation | app/lib/ffmpeg.py:101-110 | in a successful record, the date is the probe's `creation_time` tag when that is a string the parser reads, and the file's ctime in every other case; the probe's `format` is a dict and its `tags`, when present, are too |
| VideoMetadata.NeedsSidecarAndStat | app/lib/ffmpeg.py:106-115 | a missing sidecar or a failed stat is an error: no checksum is computed here |
| VideoMetadata.FirstVideoStream | app/lib/ffmpeg.py:92-97 | the video fields come from the first video stream |
| VideoMetadata.AudioOnly | app/lib/ffmpeg.py:96-122 | without a video stream the frame rate is 0.0, the video fields are empty or None, and the duration text is `seconds_to_hms` as written at rate 0 |
| VideoMetadata.ZeroRateCarries | app/lib/formatting.py:10-13 | at frame rate 0 the rounded frame 0 equals the rate, so the written code always adds a second |
| VideoMetadata.FrameLayoutsAgree | app/lib/formatting.py:14-31 | the written and the intended renderings lay out any given (seconds, frame) split identically |
| VideoMetadata.FixedFramesLayout | app/lib/formatting.py:5-31 | with frames, the intended `seconds_to_hms` is the written layout applied to the intended split |
| VideoMetadata.AudioOnlyDurationAsWritten | app/lib/ffmpeg.py:117-122 | as written, a 5 s audio-only file is reported as `00:00:06:00` |
| VideoMetadata.AudioOnlyDurationFixed | app/lib/ffmpeg.py:117-122 | intended: it is reported as `00:00:05:00` |
| CollectionFiles.AlnumRun | app/lib/collection_files.py:20 | `[a-zA-Z0-9]+` matches greedily up to the first other character |
| CollectionFiles.LineRun | app/lib/collection_files.py:20 | `.+` stops at the first newline |
| CollectionFiles.MatchFile | app/lib/collection_files.py:20 | a match of `FILE_REGEX` has a type of the form `[ma][a-z]\d\d`; `MatchFileSound` and `MatchFileComplete` state the rest |
| CollectionFiles.MatchFileSound | app/lib/collection_files.py:20 | a match is a valid ID, type and title whose text starts the stem, followed by nothing or a newline |
| CollectionFiles.MatchFileComplete | app/lib/collection_files.py:20 | every valid name is matched back from its text |
| CollectionFiles.ParseCollectionFilePath | app/lib/collection_files.py:24-36 | the extensionless basename must match `FILE_REGEX`, taken with ASCII digits only (see Left out), and the error names the basename |
| CollectionFiles.ParsedNoSlash | app/lib/collection_files.py:28-34 | no parsed group ever contains '/' |
| CollectionFiles.MatchFolderSound | app/lib/collection_files.py:21 | a folder match is an ID and a title whose text starts the name |
| CollectionFiles.MatchFolderComplete | app/lib/collection_files.py:21 | every ID and title are matched back from their folder text |
| CollectionFiles.MatchFolder | app/lib/collection_files.py:21 | definition only: `re.match(FOLDER_REGEX, name)`; stated by `MatchFolderSound` and `MatchFolderComplete` |
| CollectionFiles.ParseCollectionFolderPath | app/lib/collection_files.py:38-50 | one trailing '/' is dropped, the basename must match, and the error names the basename |
| CollectionFiles.FolderTextParses | app/lib/collection_files.py:38-50 | a folder's text parses back to its ID and title |
| CollectionFiles.FolderTrailingSlash | app/lib/collection_files.py:42-43 | a trailing '/' makes no difference |
| CollectionFiles.FolderUnderRoot | app/lib/collection_files.py:38-50 | a folder `<id>_<title>/` inside any folder ending in '/' reads back as that ID and title |
| CollectionFiles.CollectionFolderName | app/lib/collection_files.py:53-54 | fails exactly when the file name does not parse, with the same error |
| CollectionFiles.CollectionFolderParses | app/lib/collection_files.py:67-68 | the folder name made for a file parses back as that file's ID and title |
| CollectionFiles.MasterToAccessFilename | app/lib/collection_files.py:71-86 | an unparsable path passes the parse error on; a non-master type is refused naming the path |
| CollectionFiles.NamedFileParses | app/lib/collection_files.py:24-36 | a conventionally named file in any folder parses back as its name |
| CollectionFiles.AccessFilenameShape | app/lib/collection_files.py:78-86 | the access name is the master's ID and title around `a` plus the rest of the master type, and the extension |
| CollectionFiles.AccessFilenameParses | app/lib/collection_files.py:71-86 | the access file name parses back as the master's ID and title with the access type |
| EasyAccess.Configured | app/settings.py:4-24 | every destination root ends in '/', and both extensions are single dot-led extensions |
| EasyAccess.MasterNaming | app/easyaccess.py:164-176 | an accepted name always has a master type |
| EasyAccess.MasterNamingAgrees | app/easyaccess.py:164-176 | a conventional master keeps its parsed name; any other name is accepted exactly when flexible naming is `True` |
| EasyAccess.MasterNamingError | app/easyaccess.py:176 | the refusal names the file and the environment variable |
| EasyAccess.FlexibleTitle | app/easyaccess.py:171-174 | under flexible naming the whole extensionless name becomes the title, with an empty ID |
| EasyAccess.DestinationsFor | app/easyaccess.py:179-195 | types `a`/`w` plus the rest of the master type; each path is its folder plus its file name; every folder ends in '/' (the folder names themselves are stated by `NamedDestinations`, `DestinationFoldersParse` and `FlexibleDestinations`) |
| EasyAccess.MakeDirIfMissing | app/easyaccess.py:188 | the folder exists afterwards, and existing entries are kept |
| EasyAccess.MakeFolders | app/easyaccess.py:188-191 | the master and access folders always exist afterwards, and the web folder with a web copy; only folders are added |
| EasyAccess.PrepareDestinations | app/easyaccess.py:161-204 | a naming failure is reported with the fixed prefix; otherwise the name is the master naming's and the destinations are derived from it, no existing entry changes, exactly the missing destination folders are added as directories, and the master keeps its file name |
| EasyAccess.PrepareNamed | app/easyaccess.py:179-195 | for a given name: the derived destinations, only the destination folders added, and the master's own file name kept |
| EasyAccess.PreparedAccessParses | app/easyaccess.py:181-194 | for a master named by the convention, the access path the naming block derives parses back as the master's ID and title with the access type |
| EasyAccess.MasterKeepsName | app/easyaccess.py:193 | the master lands under its own file name |
| EasyAccess.AccessNameAgrees | app/easyaccess.py:181 | for a conventional master the access name is what `master_to_access_filename` gives |
| EasyAccess.AccessPathParses | app/easyaccess.py:181-194 | the access path parses back as the master's ID and title with the access type |
| EasyAccess.FlexibleDestinations | app/easyaccess.py:180-185 | without an ID the prefix vanishes: `a_<title>` and `<root><title>/` |
| EasyAccess.NamedDestinations | app/easyaccess.py:181-186 | with a Vernon ID each folder is `<root><id>_<title>/` and each transcode `<id>_<type>_<title><ext>` |
| EasyAccess.DestinationFoldersParse | app/easyaccess.py:184-186 | for a conventionally named master, each of the three destination folders reads back with `parse_collection_folder_path` as the master's ID and title |
| EasyAccess.MakeFoldersIdempotent | app/easyaccess.py:188-191 | making the folders twice is making them once |
| EasyAccess.ConversionGuard | app/easyaccess.py:42-47 | an existing destination cancels the conversion with a message naming it; otherwise conversion proceeds |
| Slack.SlackLink | app/lib/slack.py:28-36 | the link is wrapped in angle brackets, holding the URL and, after '\|', a non-empty text |
| Slack.SlackLinkRoundTrip | app/lib/slack.py:28-36 | a link whose URL has no '\|' reads back as its URL and text |
| Slack.ConfiguredRoots | app/settings.py:46-48 | every URL starts with `smb:`, followed by the environment variable when set |
| Slack.RootFor | app/lib/slack.py:41-47 | the master folder when it starts the path; else the access folder when it does; else the web folder when it does; none exactly when none does |
| Slack.FileUrl | app/lib/slack.py:41-48 | a path outside all three folders is refused naming it; otherwise the URL starts with the URL of the folder `RootFor` chose (its rest, as `str.replace` rewrites it, is pinned by `FileUrlAgrees` and `NestedFolderRewritten`) |
| Slack.FileUrlFixed | app/lib/slack.py:41-48 | the URL starts with the folder's URL, and putting the folder back gives the path |
| Slack.FileUrlAgrees | app/lib/slack.py:41-46 | for whichever folder (master, access or web) starts the path, when it does not occur again in the rest, the written URL is that folder's URL followed by the rest, the same as the intended one |
| Slack.NestedFolderRewritten | app/lib/slack.py:42 | as written, a path repeating the folder name has every occurrence rewritten, unlike the intended URL |
| Slack.NewFileMessage | app/lib/slack.py:39-71 | the posted text is "<message>: <basename of the URL> (Duration <duration>)"; two buttons, to the file's URL as the code's `str.replace` writes it (`FileUrl`) and to that URL's folder, and the folder in the fallback; a path outside the folders is refused naming it |
| Slack.MessageNamesFile | app/lib/slack.py:39-70 | for a file under any of the three folders, where the folder and its URL end in '/' and the rest does not repeat the folder, the message names the file by its own file name and the first button leads to the folder's URL followed by the rest |
| Slack.AccessCopyAnnounced | app/lib/slack.py:39-70 | with the configured folders, an access copy under "/mount/access/" (as `app/easyaccess.py:63` posts it) is announced by its own file name and linked under the access share |

## Left out

- Running ffprobe and ffmpeg, and decoding their JSON, are left out. The probe's exit status and the decoded document are inputs (`ProbeRun`).
- The timezone-aware dates of dateutil and pytz are left out. Date parsing is a function parameter, and the stat result is an input.
- MD5 is an uninterpreted function (`Hasher`); digests are compared only for equality.
- Sleeping is counted, not performed. `RETRY_WAIT` is kept as a constant.
- The outcome of each copy attempt is an input (`CopyOutcome`), since the OS decides it.
- Concurrency is left out: another process creating or deleting files between the lock check and the lock is not modelled. The walk listing is an input.
- Floats are exact reals. Binary rounding of float values is not modelled.
- `int()` and `float()` accept ASCII digits, an optional sign and (for `float`) one '.'. Whitespace, underscores, exponents, `inf` and `nan` are not modelled.
- `get_or_create_collection_folder` with a `parent` folder is left out. Only the folder name without a parent is modelled.
- Left out of `main`: `file_path_to_url`, the conversion in a temporary folder, the `while` loop, the CSV summary, and the S3, XOS and Slack posting calls. Posting is out of scope; only the message built for it is modelled.
- `find_video_file` and `restricted_file`: `app/easyaccess.py:27` and `app/tests.py:10` import them from `lib.ffmpeg`, which defines neither (it defines `find_video_files`, modelled as `Ffmpeg.Advance`), so there is nothing to model.
- `os.mkdir` failing for a missing parent folder is not modelled. Folders are created as if the roots existed.
- `TRANSCODE_WEB_COPY` is read by `main` but not defined in the settings module, so it is a parameter of `Configured`.
- FileSystem.Move: paths are literal map keys. There is no parent-folder tree, so a missing parent folder of the target is not the FileNotFoundError Python raises, and "/x" and "/x/" are different paths. `WriteFile` and `os.mkdir` share this.
- CollectionFiles.ParseCollectionFilePath: Python's `\d` also matches other Unicode decimal digits, so "12_ma٣٤_x" matches in Python; the model accepts ASCII digits only.
- VideoMetadata.ReadSidecar: the sidecar is opened in text mode, so Python decodes it with the locale's encoding, translates `\r\n` to `\n`, and raises UnicodeDecodeError on undecodable bytes; none of that is modelled, and the content is taken as the text unchanged. The program's own sidecars are ASCII hex digests, for which the two agree.
- VideoMetadata.CreationDate: the code catches only KeyError, ValueError and TypeError, so an OverflowError from the date parser propagates. The parser is a parameter from text to a date or nothing, and nothing stands for the caught ValueError only; the time-zone handling of the ctime (`timezone.localize`) is not modelled.
- Fixity.FixityMove: the failsafe promise excludes a failsafe slot that is the source's own sidecar path, or whose slot or sidecar slot is a folder. There `shutil.move` moves into the folder instead, or the second move overwrites the first.
- CollectionFiles.MasterToAccessFilename: the default argument `extension=".mp4"` is not modelled. The extension is always passed in.
- Formatting.HmsToSeconds: its contract states only the segment-count error. The values it reads are stated by `ParseRenderSeconds`, `ParseRenderFrames`, `ParseThreeFields` and `ParseFourFields`.

## Findings

| source | as written | input that shows it | evidently intended | confidence | as-written member | corrected member |
|---|---|---|---|---|---|---|
| app/lib/formatting.py:25-31 | the seconds field is `%0<places+2>.<places>f`, which counts the '.' in the width | 65.5 s, one decimal place: `01:5.5` | `01:05.5` | not executed | Formatting.LeadingZeroDropped | Formatting.LeadingZeroKept |
| app/lib/formatting.py:18-23 | with decimal places the seconds are split off before rounding | 59.96 s, one decimal place: `00:60.0` | `01:00.0` | not executed | Formatting.SixtySecondsShown | Formatting.SixtySecondsCarried |
| app/lib/formatting.py:10-13 | the carry fires only when the rounded frame number equals the rate exactly | 0.99 s at 29.97 fps: frame 30, `00:00:30` | `00:01:00` | not executed | Formatting.FrameRateExceeded | Formatting.FrameRateCarried |
| app/lib/ffmpeg.py:99-122 | without a video stream the frame rate is 0, and frame 0 equals it, so a second is always added | a 5 s audio-only file: `00:00:06:00` | `00:00:05:00` | not executed | VideoMetadata.AudioOnlyDurationAsWritten | VideoMetadata.AudioOnlyDurationFixed |
| app/lib/slack.py:42-46 | `str.replace` rewrites every occurrence of the folder in the path | `/mount/master/a/mount/master/b.mov` becomes `smb:…/asmb:…/b.mov` | only the leading folder is replaced | not executed | Slack.NestedFolderRewritten | Slack.FileUrlFixed |
