/** The text helpers of `app/lib/slack.py`: Slack's link markup, the mapping
    from a file under one of the mounted folders to its SMB URL, and the
    message and buttons announcing a new file. Posting is not modelled. */
module Slack {
  import opened Wrappers
  import opened Strings
  import opened Paths

  /** `slack_link(url, text)`: `<url|text>`, or `<url>` when the text is empty. */
  function SlackLink(url: string, text: string): (r: string)
    ensures |r| >= 2 && r[0] == '<' && r[|r| - 1] == '>'
    ensures text == "" ==> r[1..|r| - 1] == url
    ensures text != "" ==> r[1..|r| - 1] == url + "|" + text
  {
    if text != "" then
      var r := "<" + url + "|" + text + ">";
      assert r[1..|r| - 1] == url + "|" + text;
      r
    else
      var r := "<" + url + ">";
      assert r[1..|r| - 1] == url;
      r
  }

  /** The position of the first `c` in `s`, or `|s|`. */
  function FirstIndexOf(s: string, c: char): (i: nat)
    ensures i <= |s| && c !in s[..i]
    ensures i < |s| ==> s[i] == c
  {
    if |s| == 0 || s[0] == c then 0
    else
      var k := FirstIndexOf(s[1..], c);
      assert s[..1 + k] == [s[0]] + s[1..][..k];
      1 + k
  }

  /** Reads link markup back: the text between the angle brackets, split at
      its first '|'. */
  function ParseSlackLink(s: string): (r: Option<(string, string)>)
    ensures r.Some? <==> |s| >= 2 && s[0] == '<' && s[|s| - 1] == '>'
  {
    if |s| >= 2 && s[0] == '<' && s[|s| - 1] == '>' then
      var inner := s[1..|s| - 1];
      var i := FirstIndexOf(inner, '|');
      if i == |inner| then Some((inner, "")) else Some((inner[..i], inner[i + 1..]))
    else None
  }

  /** The first '|' after '|'-free text is the one that follows it. */
  lemma {:induction false} FirstBar(url: string, rest: string)
    requires '|' !in url
    ensures FirstIndexOf(url + "|" + rest, '|') == |url|
    decreases |url|
  {
    var s := url + "|" + rest;
    if |url| == 0 {
      assert s[0] == '|';
    } else {
      assert s[0] == url[0];
      assert s[1..] == url[1..] + "|" + rest;
      FirstBar(url[1..], rest);
    }
  }

  /** A link whose URL has no '|' reads back as its URL and text. */
  lemma SlackLinkRoundTrip(url: string, text: string)
    requires '|' !in url
    ensures ParseSlackLink(SlackLink(url, text)) == Some((url, text))
  {
    if text != "" {
      var inner := url + "|" + text;
      FirstBar(url, text);
      assert inner[..|url|] == url && inner[|url| + 1..] == text;
    } else {
      assert FirstIndexOf(url, '|') == |url|;
    }
  }

  /** The mounted folders, in the order they are tried, and the SMB URL each
      stands for. */
  datatype UrlRoots = UrlRoots(
    masterFolder: string, masterUrl: string,
    accessFolder: string, accessUrl: string,
    webFolder: string, webUrl: string)

  /** The settings: each URL is "smb:" followed by the environment variable
      SMB_MASTER, SMB_ACCESS or SMB_WEB when set, else the share on the
      collections NAS. */
  function ConfiguredRoots(smbMaster: Option<string>, smbAccess: Option<string>, smbWeb: Option<string>): (r: UrlRoots)
    ensures StartsWith(r.masterUrl, "smb:") && StartsWith(r.accessUrl, "smb:") && StartsWith(r.webUrl, "smb:")
    ensures smbMaster.Some? ==> r.masterUrl == "smb:" + smbMaster.value
    ensures smbAccess.Some? ==> r.accessUrl == "smb:" + smbAccess.value
    ensures smbWeb.Some? ==> r.webUrl == "smb:" + smbWeb.value
  {
    UrlRoots("/mount/master/", SmbUrl(smbMaster, "//fsqcollnas.corp.acmi.net.au/Preservation%20Masters/"),
             "/mount/access/", SmbUrl(smbAccess, "//fsqcollnas.corp.acmi.net.au/Access%20Copies/"),
             "/tmp/", SmbUrl(smbWeb, "//fsqcollnas.corp.acmi.net.au/Web%20Copies/"))
  }

  /** "smb:" followed by the environment variable when set, else the share. */
  function SmbUrl(env: Option<string>, share: string): (r: string)
    ensures StartsWith(r, "smb:")
    ensures env.Some? ==> r == "smb:" + env.value
  {
    var path := if env.Some? then env.value else share;
    var r := "smb:" + path;
    assert r[..4] == "smb:";
    r
  }

  /** The first folder, in the order master, access, web, that starts the
      path, with its URL. */
  function RootFor(roots: UrlRoots, filePath: string): (r: Option<(string, string)>)
    ensures r.Some? ==> StartsWith(filePath, r.value.0)
    ensures r.None? <==> !StartsWith(filePath, roots.masterFolder) && !StartsWith(filePath, roots.accessFolder)
                         && !StartsWith(filePath, roots.webFolder)
    ensures StartsWith(filePath, roots.masterFolder) ==> r == Some((roots.masterFolder, roots.masterUrl))
    ensures !StartsWith(filePath, roots.masterFolder) && StartsWith(filePath, roots.accessFolder) ==>
              r == Some((roots.accessFolder, roots.accessUrl))
    ensures !StartsWith(filePath, roots.masterFolder) && !StartsWith(filePath, roots.accessFolder)
              && StartsWith(filePath, roots.webFolder) ==>
              r == Some((roots.webFolder, roots.webUrl))
  {
    if StartsWith(filePath, roots.masterFolder) then Some((roots.masterFolder, roots.masterUrl))
    else if StartsWith(filePath, roots.accessFolder) then Some((roots.accessFolder, roots.accessUrl))
    else if StartsWith(filePath, roots.webFolder) then Some((roots.webFolder, roots.webUrl))
    else None
  }

  /** The ValueError raised for a path under none of the folders. */
  datatype UrlError = OutsideFolders(filePath: string)
  {
    /** The error's message. */
    function Message(): string {
      filePath + " doesn't seem to be in either the Master, Access or Web folders. Not sure how to make a URL for this."
    }
  }

  /** The URL of a file as `new_file_slack_message` computes it: `str.replace`
      of the chosen folder by its URL, which rewrites every occurrence of the
      folder in the path, not only the leading one. */
  function FileUrl(roots: UrlRoots, filePath: string): (r: Result<string, UrlError>)
    ensures r.Err? <==> RootFor(roots, filePath).None?
    ensures r.Err? ==> r.error == OutsideFolders(filePath)
    ensures r.Ok? ==> StartsWith(r.value, RootFor(roots, filePath).value.1)
  {
    var root := RootFor(roots, filePath);
    if root.None? then Err(OutsideFolders(filePath))
    else
      var folder, url := root.value.0, root.value.1;
      var u := Replace(filePath, folder, url);
      assert |folder| > 0 ==> filePath[..|folder|] == folder;
      assert u[..|url|] == url;
      Ok(u)
  }

  /** The evidently intended URL: the leading folder alone is swapped for its
      URL, so the rest of the path is kept and the path can be read back. */
  function FileUrlFixed(roots: UrlRoots, filePath: string): (r: Result<string, UrlError>)
    ensures r.Err? <==> RootFor(roots, filePath).None?
    ensures r.Err? ==> r.error == OutsideFolders(filePath)
    ensures r.Ok? ==> var root := RootFor(roots, filePath).value;
                      StartsWith(r.value, root.1) && root.0 + r.value[|root.1|..] == filePath
  {
    var root := RootFor(roots, filePath);
    if root.None? then Err(OutsideFolders(filePath))
    else
      var folder, url := root.value.0, root.value.1;
      var r := url + filePath[|folder|..];
      assert r[|url|..] == filePath[|folder|..];
      assert folder == filePath[..|folder|];
      Ok(r)
  }

  /** `replace` on text that starts with the pattern swaps that occurrence and
      carries on after it. */
  lemma ReplaceLeading(pat: string, rest: string, repl: string)
    requires |pat| > 0
    ensures Replace(pat + rest, pat, repl) == repl + Replace(rest, pat, repl)
  {
    var s := pat + rest;
    assert s[..|pat|] == pat;
    assert s[|pat|..] == rest;
  }

  /** When the chosen folder occurs only at the start of the path, the
      as-written URL is the intended one: the folder's URL followed by the
      rest of the path. This holds for the master, access and web folders
      alike. */
  lemma FileUrlAgrees(roots: UrlRoots, filePath: string)
    requires RootFor(roots, filePath).Some?
    requires var folder := RootFor(roots, filePath).value.0;
             |folder| > 0 && Absent(filePath[|folder|..], folder)
    ensures FileUrl(roots, filePath) == FileUrlFixed(roots, filePath)
    ensures var root := RootFor(roots, filePath).value;
            FileUrl(roots, filePath) == Ok(root.1 + filePath[|root.0|..])
  {
    var root := RootFor(roots, filePath).value;
    var rest := filePath[|root.0|..];
    assert filePath == root.0 + rest;
    ReplaceOnce(root.0, rest, root.1);
  }

  /** `replace` keeps a character that does not start the pattern. */
  lemma ReplaceSkip(c: char, rest: string, pat: string, repl: string)
    requires |pat| > 0 && pat[0] != c
    ensures Replace([c] + rest, pat, repl) == [c] + Replace(rest, pat, repl)
  {
    var s := [c] + rest;
    if |s| >= |pat| {
      assert s[..|pat|][0] != pat[0];
    }
    assert s[1..] == rest;
  }

  /** `replace` swaps the leading pattern of `pat + y` and leaves `y`, which
      holds none. */
  lemma ReplaceOnce(pat: string, y: string, repl: string)
    requires |pat| > 0 && Absent(y, pat)
    ensures Replace(pat + y, pat, repl) == repl + y
  {
    ReplaceLeading(pat, y, repl);
    ReplaceAbsent(y, pat, repl);
  }

  /** `replace` rewrites both occurrences in `pat + "a" + pat + y` when `y`
      has none. */
  lemma ReplaceNested(pat: string, y: string, repl: string)
    requires |pat| > 0 && pat[0] != 'a' && Absent(y, pat)
    ensures Replace(pat + (['a'] + (pat + y)), pat, repl) == repl + (['a'] + (repl + y))
  {
    ReplaceOnce(pat, y, repl);
    ReplaceSkip('a', pat + y, pat, repl);
    ReplaceLeading(pat, ['a'] + (pat + y), repl);
  }

  /** As written, a master path containing the master folder a second time
      ("/mount/master/a/mount/master/b.mov") has both occurrences rewritten,
      where only the leading one names the mount. */
  lemma NestedFolderRewritten(roots: UrlRoots, y: string)
    requires |roots.masterFolder| > 0 && roots.masterFolder[0] != 'a'
    requires Absent(y, roots.masterFolder)
    requires |roots.masterUrl| != |roots.masterFolder|
    ensures var p := roots.masterFolder + (['a'] + (roots.masterFolder + y));
            FileUrl(roots, p) == Ok(roots.masterUrl + (['a'] + (roots.masterUrl + y)))
            && FileUrlFixed(roots, p) == Ok(roots.masterUrl + (['a'] + (roots.masterFolder + y)))
            && FileUrl(roots, p) != FileUrlFixed(roots, p)
  {
    var f, u := roots.masterFolder, roots.masterUrl;
    var p := f + (['a'] + (f + y));
    assert p[..|f|] == f;
    ReplaceNested(f, y, u);
    assert p[|f|..] == ['a'] + (f + y);
    assert |u + (['a'] + (u + y))| != |u + (['a'] + (f + y))|;
  }

  /** A button of a message attachment. */
  datatype Button = Button(text: string, url: string, style: Option<string>)

  /** The text and attachment `new_file_slack_message` posts. */
  datatype Post = Post(text: string, fallback: string, buttons: seq<Button>)

  /** `new_file_slack_message(message, file_path, duration)` up to posting:
      "<message>: <file name> (Duration <duration>)", with buttons to the
      file's URL and to its folder; a path outside the folders fails before
      anything is posted. */
  function NewFileMessage(roots: UrlRoots, message: string, filePath: string, duration: string): (r: Result<Post, UrlError>)
    ensures r.Err? <==> RootFor(roots, filePath).None?
    ensures r.Err? ==> r.error == OutsideFolders(filePath)
    ensures r.Ok? ==> var url := FileUrl(roots, filePath).value;
                      |r.value.buttons| == 2
                      && r.value.buttons[0] == Button("View file :cinema:", url, Some("primary"))
                      && r.value.buttons[1] == Button("Open folder :open_file_folder:", Dirname(url), None)
                      && r.value.fallback == "Open folder at " + Dirname(url)
                      && r.value.text == message + ": " + Basename(url) + " (Duration " + duration + ")"
  {
    var url :- FileUrl(roots, filePath);
    var dirname := Dirname(url);
    Ok(Post(message + ": " + Basename(url) + " (Duration " + duration + ")",
            "Open folder at " + dirname,
            [Button("View file :cinema:", url, Some("primary")),
             Button("Open folder :open_file_folder:", dirname, None)]))
  }

  /** After a folder ending in '/', the basename is that of what follows. */
  lemma {:induction false} BasenameAfterFolder(folder: string, rest: string)
    requires |folder| > 0 && folder[|folder| - 1] == '/'
    ensures Basename(folder + rest) == Basename(rest)
    decreases |rest|
  {
    var s := folder + rest;
    if |rest| == 0 {
      assert s == folder;
    } else {
      assert s[|s| - 1] == rest[|rest| - 1];
      assert s[..|s| - 1] == folder + rest[..|rest| - 1];
      BasenameAfterFolder(folder, rest[..|rest| - 1]);
    }
  }

  /** The message names the file by its own file name, and its first button
      leads to the folder's URL followed by the rest of the path, whenever
      the chosen folder (master, access or web) and its URL end in '/' and
      the folder does not occur again further along the path (where
      `replace` would rewrite it too). */
  lemma MessageNamesFile(roots: UrlRoots, message: string, filePath: string, duration: string)
    requires RootFor(roots, filePath).Some?
    requires var root := RootFor(roots, filePath).value;
             |root.0| > 0 && root.0[|root.0| - 1] == '/' && |root.1| > 0 && root.1[|root.1| - 1] == '/'
             && Absent(filePath[|root.0|..], root.0)
    ensures var r := NewFileMessage(roots, message, filePath, duration);
            var root := RootFor(roots, filePath).value;
            r.Ok?
            && r.value.text == message + ": " + Basename(filePath) + " (Duration " + duration + ")"
            && r.value.buttons[0].url == root.1 + filePath[|root.0|..]
  {
    var root := RootFor(roots, filePath).value;
    var rest := filePath[|root.0|..];
    FileUrlAgrees(roots, filePath);
    assert filePath == root.0 + rest;
    BasenameAfterFolder(root.1, rest);
    BasenameAfterFolder(root.0, rest);
  }

  /** With the configured folders, an access copy is announced by its own
      file name and linked under the access share. */
  lemma AccessCopyAnnounced(smbAccess: Option<string>, message: string, rest: string, duration: string)
    requires smbAccess.Some? ==> |smbAccess.value| > 0 && smbAccess.value[|smbAccess.value| - 1] == '/'
    requires Absent(rest, "/mount/access/")
    ensures var roots := ConfiguredRoots(None, smbAccess, None);
            var r := NewFileMessage(roots, message, "/mount/access/" + rest, duration);
            r.Ok?
            && r.value.text == message + ": " + Basename("/mount/access/" + rest) + " (Duration " + duration + ")"
            && r.value.buttons[0].url == roots.accessUrl + rest
  {
    var roots := ConfiguredRoots(None, smbAccess, None);
    var p := "/mount/access/" + rest;
    assert p[..|"/mount/access/"|] == "/mount/access/";
    assert p[7] == 'a';
    assert !StartsWith(p, roots.masterFolder);
    assert RootFor(roots, p) == Some((roots.accessFolder, roots.accessUrl));
    assert p[|roots.accessFolder|..] == rest;
    MessageNamesFile(roots, message, p, duration);
  }
}
