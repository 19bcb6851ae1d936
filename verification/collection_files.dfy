/** The collection file naming convention of `app/lib/collection_files.py`:
    files are `ID_xxdd_Title.ext` and folders `ID_Title`, matched with
    `re.match` (anchored at the start only). */
module CollectionFiles {
  import opened Wrappers
  import opened Strings
  import opened Paths

  predicate IsAlnum(c: char) {
    'a' <= c <= 'z' || 'A' <= c <= 'Z' || '0' <= c <= '9'
  }

  predicate IsLower(c: char) {
    'a' <= c <= 'z'
  }

  /** The length of the longest prefix of `[a-zA-Z0-9]` characters. */
  function AlnumRun(s: string): (n: nat)
    ensures n <= |s|
    ensures forall i :: 0 <= i < n ==> IsAlnum(s[i])
    ensures n < |s| ==> !IsAlnum(s[n])
  {
    if |s| == 0 || !IsAlnum(s[0]) then 0
    else
      var k := AlnumRun(s[1..]);
      assert forall i :: 1 <= i <= k ==> s[i] == s[1..][i - 1];
      1 + k
  }

  /** The length of the longest prefix `.` matches: no newline. */
  function LineRun(s: string): (n: nat)
    ensures n <= |s|
    ensures '\n' !in s[..n]
    ensures n < |s| ==> s[n] == '\n'
  {
    if |s| == 0 || s[0] == '\n' then 0
    else
      var k := LineRun(s[1..]);
      assert s[..1 + k] == [s[0]] + s[1..][..k];
      1 + k
  }

  /** `[ma][a-z]\d\d`. */
  predicate IsFileType(t: string) {
    |t| == 4 && (t[0] == 'm' || t[0] == 'a') && IsLower(t[1]) && IsDigit(t[2]) && IsDigit(t[3])
  }

  /** The groups of FILE_REGEX: Vernon ID, file type and title. */
  datatype CollectionName = CollectionName(id: string, fileType: string, title: string)

  /** The groups of FOLDER_REGEX: Vernon ID and title. */
  datatype FolderName = FolderName(id: string, title: string)

  predicate IsId(id: string) {
    |id| > 0 && forall i :: 0 <= i < |id| ==> IsAlnum(id[i])
  }

  predicate IsTitle(title: string) {
    |title| > 0 && '\n' !in title
  }

  /** The names FILE_REGEX can produce. */
  predicate ValidName(n: CollectionName) {
    IsId(n.id) && IsFileType(n.fileType) && IsTitle(n.title)
  }

  /** The text a name's groups were read from. */
  function FileStem(n: CollectionName): string {
    n.id + "_" + n.fileType + "_" + n.title
  }

  /** `re.match(FILE_REGEX, stem)`: the ID is the whole alphanumeric run (the
      class excludes '_', so no shorter run can be followed by '_'), and the
      title runs to the first newline. */
  function MatchFile(stem: string): (r: Option<CollectionName>)
    ensures r.Some? ==> IsFileType(r.value.fileType)
  {
    var i := AlnumRun(stem);
    if i > 0 && i + 7 <= |stem| && stem[i] == '_' && IsFileType(stem[i + 1..i + 5]) && stem[i + 5] == '_' then
      var rest := stem[i + 6..];
      var k := LineRun(rest);
      if k > 0 then Some(CollectionName(stem[..i], stem[i + 1..i + 5], rest[..k])) else None
    else None
  }

  /** A match is a valid name whose text starts the stem, followed by nothing
      or a newline. */
  lemma MatchFileSound(stem: string)
    requires MatchFile(stem).Some?
    ensures var n := MatchFile(stem).value;
            var t := FileStem(n);
            ValidName(n) && StartsWith(stem, t) && (|t| < |stem| ==> stem[|t|] == '\n')
  {
    var n := MatchFile(stem).value;
    var i := AlnumRun(stem);
    var rest := stem[i + 6..];
    var k := LineRun(rest);
    assert n.title == rest[..k];
    assert stem[..i + 6 + k] == stem[..i] + "_" + stem[i + 1..i + 5] + "_" + rest[..k];
  }

  /** An alphanumeric run followed by anything else is read as exactly that run. */
  lemma {:induction false} AlnumRunPrefix(id: string, rest: string)
    requires forall j :: 0 <= j < |id| ==> IsAlnum(id[j])
    requires |rest| > 0 && !IsAlnum(rest[0])
    ensures AlnumRun(id + rest) == |id|
    decreases |id|
  {
    if |id| == 0 {
      assert id + rest == rest;
    } else {
      assert (id + rest)[1..] == id[1..] + rest;
      AlnumRunPrefix(id[1..], rest);
    }
  }

  /** A newline-free line followed by nothing or a newline is read as exactly that line. */
  lemma {:induction false} LineRunPrefix(line: string, tail: string)
    requires '\n' !in line && (tail == "" || tail[0] == '\n')
    ensures LineRun(line + tail) == |line|
    decreases |line|
  {
    if |line| == 0 {
      assert line + tail == tail;
    } else {
      assert (line + tail)[1..] == line[1..] + tail;
      LineRunPrefix(line[1..], tail);
    }
  }

  /** Where the groups of a name sit in its text. */
  lemma StemSlices(n: CollectionName, tail: string)
    requires |n.fileType| == 4
    ensures var s := FileStem(n) + tail;
            var i := |n.id|;
            |s| == i + 6 + |n.title| + |tail| && s[..i] == n.id && s[i] == '_'
            && s[i + 1..i + 5] == n.fileType && s[i + 5] == '_' && s[i + 6..] == n.title + tail
  {
    var s := FileStem(n) + tail;
    var body := "_" + n.fileType + "_" + n.title + tail;
    assert s == n.id + body;
    assert s[|n.id|..] == body;
  }

  /** Every valid name is matched back from its text, whatever follows a
      newline after it. */
  lemma MatchFileComplete(n: CollectionName, tail: string)
    requires ValidName(n) && (tail == "" || tail[0] == '\n')
    ensures MatchFile(FileStem(n) + tail) == Some(n)
  {
    var s := FileStem(n) + tail;
    var i := |n.id|;
    StemSlices(n, tail);
    assert s == n.id + s[i..];
    AlnumRunPrefix(n.id, s[i..]);
    var rest := s[i + 6..];
    LineRunPrefix(n.title, tail);
    assert rest[..|n.title|] == n.title;
  }

  /** `parse_collection_file_path(path)`: the basename with its last
      extension dropped must match; the error names the basename. */
  function ParseCollectionFilePath(path: string): (r: Result<CollectionName, string>)
    ensures r.Ok? <==> MatchFile(SplitExt(Basename(path)).0).Some?
    ensures r.Ok? ==> r.value == MatchFile(SplitExt(Basename(path)).0).value
    ensures r.Err? ==> r.error == "Can't find Vernon ID, type and title in '" + Basename(path) + "'."
  {
    var filename := Basename(path);
    match MatchFile(SplitExt(filename).0)
    case Some(n) => Ok(n)
    case None => Err("Can't find Vernon ID, type and title in '" + filename + "'.")
  }

  /** The groups of a match are slices of the stem, so a character the stem
      lacks is in none of them. */
  lemma MatchFileLacks(stem: string, c: char)
    requires c !in stem && MatchFile(stem).Some?
    ensures var n := MatchFile(stem).value;
            c !in n.id && c !in n.fileType && c !in n.title
  {
  }

  /** A name parsed from a path never contains a '/'. */
  lemma ParsedNoSlash(path: string)
    requires ParseCollectionFilePath(path).Ok?
    ensures var n := ParseCollectionFilePath(path).value;
            '/' !in n.id && '/' !in n.fileType && '/' !in n.title
  {
    var b := Basename(path);
    var parts := SplitExt(b);
    assert b == parts.0 + parts.1;
    MatchFileLacks(parts.0, '/');
  }

  /** The folder regex: an ID, '_', and a title up to the first newline. */
  function MatchFolder(name: string): (r: Option<FolderName>)
  {
    var i := AlnumRun(name);
    if i > 0 && i + 2 <= |name| && name[i] == '_' then
      var rest := name[i + 1..];
      var k := LineRun(rest);
      if k > 0 then Some(FolderName(name[..i], rest[..k])) else None
    else None
  }

  function FolderText(f: FolderName): string {
    f.id + "_" + f.title
  }

  /** A folder match is an ID and a title whose text starts the name. */
  lemma MatchFolderSound(name: string)
    requires MatchFolder(name).Some?
    ensures var f := MatchFolder(name).value;
            IsId(f.id) && IsTitle(f.title) && StartsWith(name, FolderText(f))
  {
    var i := AlnumRun(name);
    var rest := name[i + 1..];
    var k := LineRun(rest);
    assert name[..i + 1 + k] == name[..i] + "_" + rest[..k];
  }

  /** Where the groups of a folder name sit in its text. */
  lemma FolderSlices(f: FolderName, tail: string)
    ensures var s := FolderText(f) + tail;
            var i := |f.id|;
            s == f.id + s[i..] && s[i] == '_' && s[i + 1..] == f.title + tail
  {
    var s := FolderText(f) + tail;
    var body := "_" + f.title + tail;
    assert s == f.id + body;
    assert s[|f.id|..] == body;
  }

  /** Every ID and title are matched back from their folder text. */
  lemma MatchFolderComplete(f: FolderName, tail: string)
    requires IsId(f.id) && IsTitle(f.title) && (tail == "" || tail[0] == '\n')
    ensures MatchFolder(FolderText(f) + tail) == Some(f)
  {
    var s := FolderText(f) + tail;
    var i := |f.id|;
    FolderSlices(f, tail);
    AlnumRunPrefix(f.id, s[i..]);
    var rest := s[i + 1..];
    LineRunPrefix(f.title, tail);
    assert rest[..|f.title|] == f.title;
  }

  /** `parse_collection_folder_path(path)`: one trailing '/' is dropped before
      taking the basename. */
  function ParseCollectionFolderPath(path: string): (r: Result<FolderName, string>)
    ensures var p := if EndsWith(path, "/") then path[..|path| - 1] else path;
            (r.Ok? <==> MatchFolder(Basename(p)).Some?) && (r.Ok? ==> r.value == MatchFolder(Basename(p)).value)
    ensures var p := if EndsWith(path, "/") then path[..|path| - 1] else path;
            r.Err? ==> r.error == "Can't find Vernon ID and title in '" + Basename(p) + "'."
  {
    var p := if EndsWith(path, "/") then path[..|path| - 1] else path;
    var name := Basename(p);
    match MatchFolder(name)
    case Some(f) => Ok(f)
    case None => Err("Can't find Vernon ID and title in '" + name + "'.")
  }

  /** A basename of slash-free text is the text itself. */
  lemma BasenameOfPlain(p: string)
    requires '/' !in p
    ensures Basename(p) == p
  {
  }

  /** Slash-free text does not end with '/'. */
  lemma NoTrailingSlash(t: string)
    requires '/' !in t
    ensures !EndsWith(t, "/")
  {
    if |t| > 0 {
      assert t[|t| - 1..][0] == t[|t| - 1];
    }
  }

  /** A folder's own text parses back as its ID and title. */
  lemma FolderTextParses(f: FolderName)
    requires IsId(f.id) && IsTitle(f.title) && '/' !in f.title
    ensures ParseCollectionFolderPath(FolderText(f)) == Ok(f)
  {
    var t := FolderText(f);
    NoTrailingSlash(t);
    BasenameOfPlain(t);
    MatchFolderComplete(f, "");
    assert t + "" == t;
  }

  /** A folder path with or without its trailing '/' parses the same. */
  lemma FolderTrailingSlash(f: FolderName)
    requires IsId(f.id) && IsTitle(f.title) && '/' !in f.title
    ensures ParseCollectionFolderPath(FolderText(f) + "/") == Ok(f)
  {
    var t := FolderText(f);
    FolderTextParses(f);
    assert EndsWith(t + "/", "/");
    assert (t + "/")[..|t|] == t;
  }

  /** `get_or_create_collection_folder(filename)` without a parent: the
      folder name `id_title`, with no effect on the filesystem. */
  function CollectionFolderName(filename: string): (r: Result<string, string>)
    ensures r.Err? <==> ParseCollectionFilePath(filename).Err?
    ensures r.Err? ==> r.error == ParseCollectionFilePath(filename).error
  {
    var n :- ParseCollectionFilePath(filename);
    Ok(FolderText(FolderName(n.id, n.title)))
  }

  /** A collection folder named "<id>_<title>/" inside any folder ending in
      '/' reads back as that ID and title. */
  lemma FolderUnderRoot(root: string, f: FolderName)
    requires EndsWith(root, "/")
    requires IsId(f.id) && IsTitle(f.title) && '/' !in f.title
    ensures ParseCollectionFolderPath(root + FolderText(f) + "/") == Ok(f)
  {
    var t := FolderText(f);
    var p := root + t + "/";
    assert forall i :: 0 <= i < |f.id| ==> f.id[i] != '/';
    assert t == f.id + "_" + f.title;
    assert '/' !in t;
    assert EndsWith(p, "/");
    assert p[..|p| - 1] == root + t;
    assert root[|root| - 1..][0] == root[|root| - 1];
    assert Basename(root) == "";
    BasenameAppend(root, t);
    FolderTextParses(f);
    NoTrailingSlash(t);
    BasenameOfPlain(t);
  }

  /** The folder name made for a file reads back, with the folder parser, as
      that file's ID and title. */
  lemma CollectionFolderParses(filename: string)
    requires CollectionFolderName(filename).Ok?
    ensures var n := ParseCollectionFilePath(filename).value;
            ParseCollectionFolderPath(CollectionFolderName(filename).value) == Ok(FolderName(n.id, n.title))
  {
    var n := ParseCollectionFilePath(filename).value;
    ParsedValid(filename);
    FolderTextParses(FolderName(n.id, n.title));
  }

  /** `master_to_access_filename(master_path, extension)`: the master's ID and
      title around the access type `a` + the rest of the master type. */
  function MasterToAccessFilename(masterPath: string, extension: string): (r: Result<string, string>)
    ensures ParseCollectionFilePath(masterPath).Err? ==> r == Err(ParseCollectionFilePath(masterPath).error)
    ensures ParseCollectionFilePath(masterPath).Ok? && ParseCollectionFilePath(masterPath).value.fileType[0] != 'm'
            ==> r == Err(masterPath + " is not named like a master file.")
  {
    var n :- ParseCollectionFilePath(masterPath);
    if n.fileType[0] != 'm' then Err(masterPath + " is not named like a master file.")
    else Ok(n.id + "_" + ("a" + n.fileType[1..]) + "_" + n.title + extension)
  }

  /** An extension `splitext` takes off whole: a dot and no other dot or '/'. */
  predicate IsExtension(ext: string) {
    |ext| > 0 && ext[0] == '.' && '.' !in ext[1..] && '/' !in ext
  }

  /** The text of a valid name has no '/' when its title has none. */
  lemma StemPlain(n: CollectionName)
    requires '/' !in n.id && '/' !in n.fileType && '/' !in n.title
    ensures '/' !in FileStem(n)
  {
  }

  /** The basename of a slash-free file name joined to a folder path ending
      in '/' is that file name. */
  lemma FileInFolder(folder: string, file: string)
    requires folder == "" || folder[|folder| - 1] == '/'
    requires '/' !in file
    ensures Basename(folder + file) == file
  {
    BasenameAppend(folder, file);
    assert Basename(folder) == "";
  }

  /** `splitext` takes off exactly the extension appended to a name's text. */
  lemma StemExtension(n: CollectionName, extension: string)
    requires ValidName(n) && '/' !in n.title && IsExtension(extension)
    ensures SplitExt(FileStem(n) + extension) == (FileStem(n), extension)
  {
    var stem := FileStem(n);
    StemPlain(n);
    BasenameOfPlain(stem);
    StemSlices(n, "");
    SplitExtAppend(stem, extension);
  }

  /** A path parses as whatever its extensionless basename matches. */
  lemma ParsedFrom(path: string, stem: string, n: CollectionName)
    requires SplitExt(Basename(path)).0 == stem && MatchFile(stem) == Some(n)
    ensures ParseCollectionFilePath(path) == Ok(n)
  {
  }

  /** A conventional file name in a folder is the basename of its path. */
  lemma NamedBasename(folder: string, n: CollectionName, extension: string)
    requires folder == "" || folder[|folder| - 1] == '/'
    requires ValidName(n) && '/' !in n.title && IsExtension(extension)
    ensures Basename(folder + (FileStem(n) + extension)) == FileStem(n) + extension
  {
    StemPlain(n);
    FileInFolder(folder, FileStem(n) + extension);
  }

  /** The text of a valid name matches as that name. */
  lemma NamedMatch(n: CollectionName)
    requires ValidName(n)
    ensures MatchFile(FileStem(n)) == Some(n)
  {
    MatchFileComplete(n, "");
    assert FileStem(n) + "" == FileStem(n);
  }

  /** A file named by the convention, in any folder, parses back as its name. */
  lemma NamedFileParses(folder: string, n: CollectionName, extension: string)
    requires folder == "" || folder[|folder| - 1] == '/'
    requires ValidName(n) && '/' !in n.title && IsExtension(extension)
    ensures ParseCollectionFilePath(folder + (FileStem(n) + extension)) == Ok(n)
  {
    NamedBasename(folder, n, extension);
    StemExtension(n, extension);
    NamedMatch(n);
    ParsedFrom(folder + (FileStem(n) + extension), FileStem(n), n);
  }

  /** A file name made by the convention, without folder, parses back as its name. */
  lemma BareFileParses(n: CollectionName, extension: string)
    requires ValidName(n) && '/' !in n.title && IsExtension(extension)
    ensures ParseCollectionFilePath(FileStem(n) + extension) == Ok(n)
  {
    StemPlain(n);
    BasenameOfPlain(FileStem(n) + extension);
    StemExtension(n, extension);
    NamedMatch(n);
    ParsedFrom(FileStem(n) + extension, FileStem(n), n);
  }

  /** The access name of a parsed master: its ID and title around the access type. */
  lemma AccessFilenameShape(masterPath: string, extension: string)
    requires MasterToAccessFilename(masterPath, extension).Ok?
    ensures var m := ParseCollectionFilePath(masterPath).value;
            m.fileType[0] == 'm'
            && MasterToAccessFilename(masterPath, extension).value
               == FileStem(CollectionName(m.id, "a" + m.fileType[1..], m.title)) + extension
  {
  }

  /** A parsed name is a valid name with no '/' in it. */
  lemma ParsedValid(path: string)
    requires ParseCollectionFilePath(path).Ok?
    ensures var n := ParseCollectionFilePath(path).value;
            ValidName(n) && '/' !in n.title
  {
    MatchFileSound(SplitExt(Basename(path)).0);
    ParsedNoSlash(path);
  }

  /** Swapping the leading 'm' of a valid name's type for 'a' keeps it valid. */
  lemma AccessTypeValid(m: CollectionName)
    requires ValidName(m)
    ensures ValidName(CollectionName(m.id, "a" + m.fileType[1..], m.title))
  {
  }

  /** The access file name parses back as the master's ID and title with the
      access type. */
  lemma AccessFilenameParses(masterPath: string, extension: string)
    requires IsExtension(extension)
    requires MasterToAccessFilename(masterPath, extension).Ok?
    ensures var m := ParseCollectionFilePath(masterPath).value;
            ParseCollectionFilePath(MasterToAccessFilename(masterPath, extension).value)
            == Ok(CollectionName(m.id, "a" + m.fileType[1..], m.title))
  {
    var m := ParseCollectionFilePath(masterPath).value;
    ParsedValid(masterPath);
    AccessFilenameShape(masterPath, extension);
    var a := CollectionName(m.id, "a" + m.fileType[1..], m.title);
    AccessTypeValid(m);
    BareFileParses(a, extension);
  }
}
