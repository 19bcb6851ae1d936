/** The naming block of `main` in `app/easyaccess.py`: from a master file
    found in the watch folder it derives the Vernon ID, file types, file
    names and destination folders, and creates the folders that are missing;
    and the guard of `convert_and_get_metadata` that refuses to convert onto
    an existing destination. */
module EasyAccess {
  import opened Wrappers
  import opened Strings
  import opened Paths
  import opened FileSystem
  import opened CollectionFiles

  /** The destination roots and extensions of the settings module, and
      whether a web copy is made. */
  datatype Settings = Settings(
    masterRoot: Path,
    accessRoot: Path,
    webRoot: Path,
    accessExtension: string,
    webExtension: string,
    transcodeWebCopy: bool)

  /** The configured values. TRANSCODE_WEB_COPY is read by the code but not
      defined in the settings module, so it is a parameter. */
  function Configured(transcodeWebCopy: bool): (s: Settings)
    ensures EndsWith(s.masterRoot, "/") && EndsWith(s.accessRoot, "/") && EndsWith(s.webRoot, "/")
    ensures IsExtension(s.accessExtension) && IsExtension(s.webExtension)
  {
    Settings("/mount/master/", "/mount/access/", "/tmp/", ".mp4", ".mp4", transcodeWebCopy)
  }

  /** The value FLEXIBLE_MASTER_NAMING must have to accept any file name. */
  const FlexibleOn: string := "True"

  /** Python's `t[1:]`, which is empty for an empty `t`. */
  function Rest(t: string): (r: string)
    ensures |t| > 0 ==> r == t[1..]
    ensures |t| == 0 ==> r == ""
  {
    if |t| == 0 then "" else t[1..]
  }

  /** The Vernon ID, master file type and title of a master file: the file
      name pattern with an 'm' type; otherwise, with flexible naming on, an
      empty ID, the type "m" and the whole extensionless file name as title;
      otherwise a ValueError naming the file. `flexibleNaming` is the value of
      the environment variable, if set. */
  function MasterNaming(sourcePath: Path, flexibleNaming: Option<string>): (r: Result<CollectionName, string>)
    ensures r.Ok? ==> |r.value.fileType| > 0 && r.value.fileType[0] == 'm'
  {
    var masterFilename := Basename(sourcePath);
    var masterBasename := SplitExt(masterFilename).0;
    var parts := MatchFile(masterBasename);
    if parts.Some? && parts.value.fileType[0] == 'm' then Ok(parts.value)
    else if flexibleNaming == Some(FlexibleOn) then Ok(CollectionName("", "m", masterBasename))
    else Err(masterFilename + " is not named like a collections preservation master file. "
             + "Consider setting the environment variable FLEXIBLE_MASTER_NAMING=True.")
  }

  /** The naming agrees with `parse_collection_file_path`: a name it parses
      with an 'm' type is taken as is; any other name is accepted exactly
      when flexible naming is on. */
  lemma MasterNamingAgrees(sourcePath: Path, flexibleNaming: Option<string>)
    ensures var p := ParseCollectionFilePath(sourcePath);
            var r := MasterNaming(sourcePath, flexibleNaming);
            var named := p.Ok? && p.value.fileType[0] == 'm';
            (named ==> r == Ok(p.value))
            && (!named ==> (r.Ok? <==> flexibleNaming == Some(FlexibleOn)))
  {
  }

  /** The error text when the name does not fit and flexible naming is off. */
  lemma MasterNamingError(sourcePath: Path, flexibleNaming: Option<string>)
    requires MasterNaming(sourcePath, flexibleNaming).Err?
    ensures flexibleNaming != Some(FlexibleOn)
    ensures MasterNaming(sourcePath, flexibleNaming).error
            == Basename(sourcePath) + " is not named like a collections preservation master file. "
               + "Consider setting the environment variable FLEXIBLE_MASTER_NAMING=True."
  {
  }

  /** With flexible naming on, a file name that does not fit becomes the title
      under an empty ID. */
  lemma FlexibleTitle(sourcePath: Path)
    requires var p := ParseCollectionFilePath(sourcePath); !(p.Ok? && p.value.fileType[0] == 'm')
    ensures MasterNaming(sourcePath, Some(FlexibleOn))
            == Ok(CollectionName("", "m", SplitExt(Basename(sourcePath)).0))
  {
  }

  /** Everything the naming block derives. */
  datatype Destinations = Destinations(
    accessFileType: string,
    webFileType: string,
    accessFilename: string,
    webFilename: string,
    masterFolder: Path,
    accessFolder: Path,
    webFolder: Path,
    masterPath: Path,
    accessPath: Path,
    webPath: Path)

  /** `vernon_id + "_"`, or nothing for an empty ID. */
  function IdPrefix(id: string): (r: string)
    ensures id != "" ==> r == id + "_"
    ensures id == "" ==> r == ""
  {
    if id != "" then id + "_" else ""
  }

  /** The derived names: the access and web types replace the leading 'm';
      each file name is the ID prefix, the type, '_', the title and the
      configured extension; each folder is a root, the ID prefix, the title
      and '/'; the master keeps its own file name. */
  function DestinationsFor(s: Settings, masterFilename: string, n: CollectionName): (d: Destinations)
    ensures d.accessFileType == "a" + Rest(n.fileType) && d.webFileType == "w" + Rest(n.fileType)
    ensures d.masterPath == d.masterFolder + masterFilename
    ensures d.accessPath == d.accessFolder + d.accessFilename
    ensures d.webPath == d.webFolder + d.webFilename
    ensures EndsWith(d.masterFolder, "/") && EndsWith(d.accessFolder, "/") && EndsWith(d.webFolder, "/")
  {
    var accessFileType := "a" + Rest(n.fileType);
    var webFileType := "w" + Rest(n.fileType);
    var prefix := IdPrefix(n.id);
    var accessFilename := prefix + accessFileType + "_" + n.title + s.accessExtension;
    var webFilename := prefix + webFileType + "_" + n.title + s.webExtension;
    var masterFolder := s.masterRoot + prefix + n.title + "/";
    var accessFolder := s.accessRoot + prefix + n.title + "/";
    var webFolder := s.webRoot + prefix + n.title + "/";
    Destinations(accessFileType, webFileType, accessFilename, webFilename,
                 masterFolder, accessFolder, webFolder,
                 masterFolder + masterFilename, accessFolder + accessFilename, webFolder + webFilename)
  }

  /** `os.mkdir(p)` unless `p` exists. */
  function MakeDirIfMissing(fs: Fs, p: Path): (r: Fs)
    ensures p in r && r.Keys == fs.Keys + {p}
    ensures forall q :: q in fs ==> r[q] == fs[q]
    ensures p !in fs ==> r[p] == Dir
  {
    if p in fs then fs else fs[p := Dir]
  }

  /** `after` keeps every entry of `before` and adds only directories. */
  ghost predicate Extends(before: Fs, after: Fs) {
    (forall q :: q in before ==> q in after && after[q] == before[q])
    && (forall q :: q in after && q !in before ==> after[q] == Dir)
  }

  /** The folders the naming block makes sure of: master and access always,
      web only when a web copy is made. */
  function MakeFolders(fs: Fs, s: Settings, d: Destinations): (r: Fs)
    ensures d.masterFolder in r && d.accessFolder in r
    ensures s.transcodeWebCopy ==> d.webFolder in r
    ensures Extends(fs, r)
    ensures r.Keys == fs.Keys + {d.masterFolder, d.accessFolder} + (if s.transcodeWebCopy then {d.webFolder} else {})
  {
    var withMaster := MakeDirIfMissing(fs, d.masterFolder);
    var withAccess := MakeDirIfMissing(withMaster, d.accessFolder);
    if s.transcodeWebCopy then MakeDirIfMissing(withAccess, d.webFolder) else withAccess
  }

  /** The text `main` reports when the naming block fails. */
  function FolderFailure(reason: string): string {
    "Could not make sure we have the destination folders. There may be something funny with the file name: " + reason
  }

  /** What the naming block promises for a name `n` it accepted: the
      destinations derived from `n`, every existing entry kept, exactly the
      destination folders added as directories, and the master's own file
      name kept. Paths are literal keys here, so an entry already at a
      folder path is kept whatever it is; on a real filesystem a path ending
      in '/' names only a folder. */
  ghost predicate PreparedFor(fs: Fs, s: Settings, sourcePath: Path, n: CollectionName,
                              out: (Fs, CollectionName, Destinations)) {
    var d := out.2;
    out.1 == n && d == DestinationsFor(s, Basename(sourcePath), n)
    && Extends(fs, out.0)
    && out.0.Keys == fs.Keys + {d.masterFolder, d.accessFolder} + (if s.transcodeWebCopy then {d.webFolder} else {})
    && Basename(d.masterPath) == Basename(sourcePath)
  }

  /** The naming block of `main`: a failure is reported with the reason
      appended; an accepted name gives the destinations and the filesystem
      with the folders made, as `PreparedFor` describes. See
      `PreparedAccessParses` for the access path. */
  function PrepareDestinations(fs: Fs, s: Settings, sourcePath: Path, flexibleNaming: Option<string>)
    : (r: Result<(Fs, CollectionName, Destinations), string>)
    ensures var naming := MasterNaming(sourcePath, flexibleNaming);
            (naming.Err? ==> r == Err(FolderFailure(naming.error)))
            && (naming.Ok? ==> r.Ok? && PreparedFor(fs, s, sourcePath, naming.value, r.value))
  {
    var naming := MasterNaming(sourcePath, flexibleNaming);
    if naming.Err? then Err(FolderFailure(naming.error))
    else Ok(PrepareNamed(fs, s, sourcePath, naming.value))
  }

  /** The success half of the naming block, for a given name. */
  function PrepareNamed(fs: Fs, s: Settings, sourcePath: Path, n: CollectionName): (r: (Fs, CollectionName, Destinations))
    ensures PreparedFor(fs, s, sourcePath, n, r)
  {
    var d := DestinationsFor(s, Basename(sourcePath), n);
    MasterKeepsName(s, sourcePath, n);
    (MakeFolders(fs, s, d), n, d)
  }

  /** The last promise of `PrepareDestinations`: for a master named by the
      convention, the access path it derives parses back to the master's ID
      and title with the access type. */
  lemma PreparedAccessParses(fs: Fs, s: Settings, sourcePath: Path, flexibleNaming: Option<string>)
    requires IsExtension(s.accessExtension)
    requires var p := ParseCollectionFilePath(sourcePath); p.Ok? && p.value.fileType[0] == 'm'
    ensures var r := PrepareDestinations(fs, s, sourcePath, flexibleNaming);
            r.Ok? && ParseCollectionFilePath(r.value.2.accessPath)
                     == Ok(CollectionName(r.value.1.id, r.value.2.accessFileType, r.value.1.title))
  {
    MasterNamingAgrees(sourcePath, flexibleNaming);
    AccessPathParses(s, sourcePath, flexibleNaming);
    var r := PrepareDestinations(fs, s, sourcePath, flexibleNaming);
    assert PreparedFor(fs, s, sourcePath, MasterNaming(sourcePath, flexibleNaming).value, r.value);
  }

  /** The master lands in its folder under its own file name. */
  lemma MasterKeepsName(s: Settings, sourcePath: Path, n: CollectionName)
    ensures var d := DestinationsFor(s, Basename(sourcePath), n);
            Basename(d.masterPath) == Basename(sourcePath)
  {
    var d := DestinationsFor(s, Basename(sourcePath), n);
    FileInFolder(d.masterFolder, Basename(sourcePath));
  }

  /** For a master named by the convention, the access file name is the one
      `master_to_access_filename` gives. */
  lemma AccessNameAgrees(s: Settings, sourcePath: Path, flexibleNaming: Option<string>)
    requires var p := ParseCollectionFilePath(sourcePath); p.Ok? && p.value.fileType[0] == 'm'
    ensures var n := MasterNaming(sourcePath, flexibleNaming).value;
            DestinationsFor(s, Basename(sourcePath), n).accessFilename
            == MasterToAccessFilename(sourcePath, s.accessExtension).value
  {
    var n := ParseCollectionFilePath(sourcePath).value;
    MasterNamingAgrees(sourcePath, flexibleNaming);
    ParsedValid(sourcePath);
    assert n.id != "";
  }

  /** With a Vernon ID, the access file name is the text of the access name
      plus the access extension. */
  lemma AccessFilenameIsStem(s: Settings, masterFilename: string, n: CollectionName)
    requires n.id != ""
    ensures DestinationsFor(s, masterFilename, n).accessFilename
            == FileStem(CollectionName(n.id, "a" + Rest(n.fileType), n.title)) + s.accessExtension
  {
  }

  /** For a master named by the convention, the access file in its
      destination folder parses back as the master's ID and title with the
      access type. */
  lemma AccessPathParses(s: Settings, sourcePath: Path, flexibleNaming: Option<string>)
    requires IsExtension(s.accessExtension)
    requires var p := ParseCollectionFilePath(sourcePath); p.Ok? && p.value.fileType[0] == 'm'
    ensures var n := MasterNaming(sourcePath, flexibleNaming).value;
            var d := DestinationsFor(s, Basename(sourcePath), n);
            ParseCollectionFilePath(d.accessPath) == Ok(CollectionName(n.id, d.accessFileType, n.title))
  {
    var n := ParseCollectionFilePath(sourcePath).value;
    MasterNamingAgrees(sourcePath, flexibleNaming);
    ParsedValid(sourcePath);
    var d := DestinationsFor(s, Basename(sourcePath), n);
    var a := CollectionName(n.id, d.accessFileType, n.title);
    AccessTypeValid(n);
    AccessFilenameIsStem(s, Basename(sourcePath), n);
    NamedFileParses(d.accessFolder, a, s.accessExtension);
  }

  /** Under flexible naming the ID prefix vanishes: the access file is
      "a_" + title + extension and each folder is its root, the title and '/'. */
  lemma FlexibleDestinations(s: Settings, masterFilename: string, title: string)
    ensures var d := DestinationsFor(s, masterFilename, CollectionName("", "m", title));
            d.accessFileType == "a" && d.webFileType == "w"
            && d.accessFilename == "a_" + title + s.accessExtension
            && d.webFilename == "w_" + title + s.webExtension
            && d.masterFolder == s.masterRoot + title + "/"
            && d.accessFolder == s.accessRoot + title + "/"
            && d.webFolder == s.webRoot + title + "/"
  {
    var d := DestinationsFor(s, masterFilename, CollectionName("", "m", title));
    assert "" + "a" + "_" + title + s.accessExtension == "a_" + title + s.accessExtension;
    assert "" + "w" + "_" + title + s.webExtension == "w_" + title + s.webExtension;
    assert s.masterRoot + "" + title + "/" == s.masterRoot + title + "/";
    assert s.accessRoot + "" + title + "/" == s.accessRoot + title + "/";
    assert s.webRoot + "" + title + "/" == s.webRoot + title + "/";
  }

  /** For a master with a Vernon ID, every name carries "<id>_": each folder
      is its root, the ID, '_', the title and '/', and each transcode is
      named ID, '_', type, '_', title and extension. */
  lemma NamedDestinations(s: Settings, masterFilename: string, n: CollectionName)
    requires n.id != ""
    ensures var d := DestinationsFor(s, masterFilename, n);
            d.masterFolder == s.masterRoot + n.id + "_" + n.title + "/"
            && d.accessFolder == s.accessRoot + n.id + "_" + n.title + "/"
            && d.webFolder == s.webRoot + n.id + "_" + n.title + "/"
            && d.accessFilename == n.id + "_" + d.accessFileType + "_" + n.title + s.accessExtension
            && d.webFilename == n.id + "_" + d.webFileType + "_" + n.title + s.webExtension
  {
  }

  /** Each destination folder of a conventionally named master reads back,
      with `parse_collection_folder_path`, as the master's ID and title. */
  lemma DestinationFoldersParse(s: Settings, masterFilename: string, n: CollectionName)
    requires EndsWith(s.masterRoot, "/") && EndsWith(s.accessRoot, "/") && EndsWith(s.webRoot, "/")
    requires IsId(n.id) && IsTitle(n.title) && '/' !in n.title
    ensures var d := DestinationsFor(s, masterFilename, n);
            var f := FolderName(n.id, n.title);
            ParseCollectionFolderPath(d.masterFolder) == Ok(f)
            && ParseCollectionFolderPath(d.accessFolder) == Ok(f)
            && ParseCollectionFolderPath(d.webFolder) == Ok(f)
  {
    var d := DestinationsFor(s, masterFilename, n);
    var f := FolderName(n.id, n.title);
    var t := FolderText(f);
    NamedDestinations(s, masterFilename, n);
    assert d.masterFolder == s.masterRoot + t + "/";
    assert d.accessFolder == s.accessRoot + t + "/";
    assert d.webFolder == s.webRoot + t + "/";
    FolderUnderRoot(s.masterRoot, f);
    FolderUnderRoot(s.accessRoot, f);
    FolderUnderRoot(s.webRoot, f);
  }

  /** Making the folders twice is making them once. */
  lemma MakeFoldersIdempotent(fs: Fs, s: Settings, d: Destinations)
    ensures MakeFolders(MakeFolders(fs, s, d), s, d) == MakeFolders(fs, s, d)
  {
  }

  /** What `convert_and_get_metadata` does first: an existing destination
      cancels the conversion with a warning; otherwise conversion proceeds. */
  function ConversionGuard(fs: Fs, destination: Path): (r: Option<string>)
    ensures r.Some? <==> destination in fs
    ensures r.Some? ==> |r.value| == 29 + |destination| + 16
                        && StartsWith(r.value, "Cancelling video conversion: ")
                        && r.value[29..29 + |destination|] == destination
                        && EndsWith(r.value, " already exists.")
  {
    if destination in fs then
      var message := "Cancelling video conversion: " + destination + " already exists.";
      assert message[29..29 + |destination|] == destination;
      assert message[29 + |destination|..] == " already exists.";
      Some(message)
    else None
  }
}
