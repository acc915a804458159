/** Routing an archive to a search by the lower-cased extension of its path:
    `.zip` to the in-process search, `.rar` to the 7z search when 7z is
    installed, anything else an error. */
module Dispatch {
  import opened Outcomes
  import opened Keyspace
  import opened Verifiers

  /** Position of the last `c` in `s`, or -1 (Python's `str.rfind`). */
  function RFind(s: string, c: char): (i: int)
    ensures -1 <= i < |s|
    ensures i >= 0 ==> s[i] == c
    ensures forall k :: i < k < |s| ==> s[k] != c
    decreases |s|
  {
    if |s| == 0 then -1
    else if s[|s| - 1] == c then |s| - 1
    else RFind(s[..|s| - 1], c)
  }

  /** No path separator at or after position `i`. */
  predicate InLastComponent(path: string, i: nat)
  {
    forall k :: i <= k < |path| ==> path[k] != '/'
  }

  /** The extension `os.path.splitext` gives on POSIX: from the last dot of
      the last path component, unless only dots precede it there. */
  function Extension(path: string): (ext: string)
    ensures |ext| <= |path|
    ensures ext == [] || (ext[0] == '.' && ext == path[|path| - |ext|..])
    ensures forall i :: 0 <= i < |ext| ==> ext[i] != '/'
    ensures forall i :: 1 <= i < |ext| ==> ext[i] != '.'
    ensures ext != [] <==>
              exists i, j :: 0 <= i < j < |path| && path[i] != '.' && path[j] == '.' && InLastComponent(path, i)
  {
    var sep := RFind(path, '/');
    var dot := RFind(path, '.');
    NonEmptyExtension(path, sep, dot);
    if dot > sep && exists i :: sep + 1 <= i < dot && path[i] != '.' then path[dot..] else ""
  }

  /** The last component has a dot with something other than dots before it
      exactly when the last dot follows the last separator with a non-dot
      in between. */
  lemma NonEmptyExtension(path: string, sep: int, dot: int)
    requires sep == RFind(path, '/') && dot == RFind(path, '.')
    ensures (dot > sep && exists i :: sep + 1 <= i < dot && path[i] != '.') <==>
            exists i, j :: 0 <= i < j < |path| && path[i] != '.' && path[j] == '.' && InLastComponent(path, i)
  {
    if dot > sep && exists i :: sep + 1 <= i < dot && path[i] != '.' {
      var i :| sep + 1 <= i < dot && path[i] != '.';
      assert InLastComponent(path, i);
    }
    if exists i, j :: 0 <= i < j < |path| && path[i] != '.' && path[j] == '.' && InLastComponent(path, i) {
      var i, j :| 0 <= i < j < |path| && path[i] != '.' && path[j] == '.' && InLastComponent(path, i);
      assert path[j] == '.';
      assert sep < i;
      assert j <= dot;
    }
  }

  /** A name whose last character is an ordinary one keeps a following
      extension: `Extension(stem + ext) == ext`. */
  lemma ExtensionOfStem(stem: string, ext: string)
    requires |stem| >= 1 && stem[|stem| - 1] != '.' && stem[|stem| - 1] != '/'
    requires |ext| >= 1 && ext[0] == '.'
    requires forall i :: 1 <= i < |ext| ==> ext[i] != '.' && ext[i] != '/'
    ensures Extension(stem + ext) == ext
  {
    var path := stem + ext;
    var dot := RFind(path, '.');
    var sep := RFind(path, '/');
    assert path[|stem|] == '.';
    assert dot == |stem|;
    assert sep < |stem| - 1;
    assert path[|stem| - 1] != '.';
    assert path[dot..] == ext;
  }

  /** A hidden file's name is all stem: ".zip" has no extension. */
  lemma HiddenFileExample()
    ensures Extension(".zip") == ""
  {
    var z := ".zip";
    assert z[..3] == ".zi" && ".zi"[..2] == ".z" && ".z"[..1] == "." && "."[..0] == "";
    assert RFind(z, '/') == -1;
    assert RFind(z, '.') == 0;
  }

  /** Only the last component counts, and the case of the extension is kept
      until it is lower-cased. */
  lemma DottedDirectoryExample()
    ensures Extension("a.b/archive.ZIP") == ".ZIP"
  {
    ExtensionOfStem("a.b/archive", ".ZIP");
    assert "a.b/archive" + ".ZIP" == "a.b/archive.ZIP";
  }

  function LowerChar(c: char): char
  {
    if 'A' <= c <= 'Z' then (c as int + 32) as char else c
  }

  /** `str.lower` on ASCII letters. */
  function Lower(s: string): (r: string)
    ensures |r| == |s|
    ensures forall i :: 0 <= i < |s| ==> r[i] == LowerChar(s[i])
  {
    seq(|s|, i requires 0 <= i < |s| => LowerChar(s[i]))
  }

  /** Lower-casing matches a lower-case target exactly when each character
      is the target's or its upper-case form. */
  lemma LowerMatches(s: string, target: string)
    requires forall i :: 0 <= i < |target| ==> !('A' <= target[i] <= 'Z')
    ensures Lower(s) == target <==>
              |s| == |target| &&
              forall i :: 0 <= i < |s| ==>
                s[i] == target[i] || ('a' <= target[i] <= 'z' && s[i] as int == target[i] as int - 32)
  {
    if |s| == |target| && forall i :: 0 <= i < |s| ==>
         s[i] == target[i] || ('a' <= target[i] <= 'z' && s[i] as int == target[i] as int - 32) {
      forall i | 0 <= i < |s| ensures Lower(s)[i] == target[i] {
      }
    }
  }

  /** Which tools `check_rar_tools` found. */
  datatype Tools = Tools(unrar: bool, sevenZip: bool, winrar: bool)

  /** The order in which `check_rar_tools` records the tools. */
  function ToolRank(name: string): int
  {
    if name == "unrar" then 0 else if name == "7z" then 1 else if name == "winrar" then 2 else 3
  }

  /** The names of the found tools, in the order `check_rar_tools` records
      them: unrar, 7z, winrar. */
  function Available(tools: Tools): (names: seq<string>)
    ensures "unrar" in names <==> tools.unrar
    ensures "7z" in names <==> tools.sevenZip
    ensures "winrar" in names <==> tools.winrar
    ensures forall i :: 0 <= i < |names| ==> ToolRank(names[i]) < 3
    ensures forall i, j :: 0 <= i < j < |names| ==> ToolRank(names[i]) < ToolRank(names[j])
  {
    (if tools.unrar then ["unrar"] else [])
    + (if tools.sevenZip then ["7z"] else [])
    + (if tools.winrar then ["winrar"] else [])
  }

  /** `sep.join(names)`. */
  function Join(names: seq<string>, sep: string): (r: string)
    ensures |names| == 0 ==> r == ""
    ensures |names| == 1 ==> r == names[0]
    ensures |names| >= 1 ==> names[0] <= r
  {
    if |names| == 0 then ""
    else if |names| == 1 then names[0]
    else names[0] + sep + Join(names[1..], sep)
  }

  /** Joining grows at the end: one more name adds the separator and the
      name, so the separator stands between consecutive names only. */
  lemma {:induction false} JoinAppend(names: seq<string>, last: string, sep: string)
    requires |names| >= 1
    ensures Join(names + [last], sep) == Join(names, sep) + sep + last
    decreases |names|
  {
    if |names| == 1 {
      assert (names + [last])[1..] == [last];
    } else {
      assert (names + [last])[1..] == names[1..] + [last];
      JoinAppend(names[1..], last, sep);
    }
  }

  /** With unrar and WinRAR but no 7z, the message lists both. */
  lemma RarMessageExample(archive: Archive)
    ensures Route(".rar", 4, "0123456789", Tools(true, false, true), archive)
         == Report(Raised("RAR support requires 7z tool. Available: unrar, winrar"), 0)
  {
    var names := Available(Tools(true, false, true));
    assert names == ["unrar", "winrar"];
    JoinAppend(["unrar"], "winrar", ", ");
    assert ["unrar"] + ["winrar"] == names;
  }

  /** What the uploaded file does under each library: whether `zipfile` can
      open it and how it reads each entry, and how `7z t` ends on it with no
      password and with each candidate. */
  datatype Archive = Archive(
    zipEntries: Result<seq<ZipEntry>>,
    read: EntryReader,
    probe: Process,
    test: string -> Process)

  const RarNeeds7z: string := "RAR support requires 7z tool. Available: "
  const RarNoTools: string := "RAR support requires 7z, unrar, or WinRAR. Please install one of these tools."
  const Unsupported: string := "Unsupported file format: "

  /** `brute_force_archive`. */
  function BruteForceArchive(path: string, maxLength: int, charset: Charset, tools: Tools, archive: Archive): (r: Report)
    ensures var ext := Lower(Extension(path));
            ext == ".zip" ==> r == BruteForceZip(archive.zipEntries, maxLength, charset, archive.read)
    ensures var ext := Lower(Extension(path));
            ext == ".rar" && tools.sevenZip ==> r == BruteForceRar(true, archive.probe, archive.test, maxLength, charset)
    ensures var ext := Lower(Extension(path));
            ext == ".rar" && !tools.sevenZip ==>
              && r.attempts == 0
              && r.result.Raised?
              && (tools.unrar || tools.winrar ==> r.result.message == RarNeeds7z + Join(Available(tools), ", "))
              && (!tools.unrar && !tools.winrar ==> r.result.message == RarNoTools)
    ensures var ext := Lower(Extension(path));
            ext != ".zip" && ext != ".rar" ==> r == Report(Raised(Unsupported + ext), 0)
  {
    Route(Lower(Extension(path)), maxLength, charset, tools, archive)
  }

  /** The body of `brute_force_archive` once the extension is known. */
  function Route(ext: string, maxLength: int, charset: Charset, tools: Tools, archive: Archive): (r: Report)
    ensures ext == ".zip" ==> r == BruteForceZip(archive.zipEntries, maxLength, charset, archive.read)
    ensures ext == ".rar" && tools.sevenZip ==> r == BruteForceRar(true, archive.probe, archive.test, maxLength, charset)
    ensures ext == ".rar" && !tools.sevenZip ==>
              && r.attempts == 0
              && (tools.unrar || tools.winrar ==> r.result == Raised(RarNeeds7z + Join(Available(tools), ", ")))
              && (!tools.unrar && !tools.winrar ==> r.result == Raised(RarNoTools))
    ensures ext != ".zip" && ext != ".rar" ==> r == Report(Raised(Unsupported + ext), 0)
  {
    if ext == ".zip" then
      BruteForceZip(archive.zipEntries, maxLength, charset, archive.read)
    else if ext == ".rar" then
      if tools.sevenZip then
        BruteForceRar(true, archive.probe, archive.test, maxLength, charset)
      else
        var names := Available(tools);
        if |names| > 0 then Report(Raised(RarNeeds7z + Join(names, ", ")), 0)
        else Report(Raised(RarNoTools), 0)
    else
      Report(Raised(Unsupported + ext), 0)
  }

  /** Dispatch ignores the case of the extension: "X.ZIP" and "X.zip", or
      "X.Rar" and "X.rar", are searched alike. */
  lemma DispatchIgnoresCase(stem: string, ext: string, maxLength: int, charset: Charset, tools: Tools, archive: Archive)
    requires |stem| >= 1 && stem[|stem| - 1] != '.' && stem[|stem| - 1] != '/'
    requires |ext| >= 1 && ext[0] == '.'
    requires forall i :: 1 <= i < |ext| ==> ext[i] != '.' && ext[i] != '/'
    ensures BruteForceArchive(stem + ext, maxLength, charset, tools, archive)
         == BruteForceArchive(stem + Lower(ext), maxLength, charset, tools, archive)
  {
    var lower := Lower(ext);
    ExtensionOfStem(stem, ext);
    ExtensionOfStem(stem, lower);
    LowerIdempotent(ext);
  }

  /** Lower-casing twice is lower-casing once. */
  lemma LowerIdempotent(s: string)
    ensures Lower(Lower(s)) == Lower(s)
  {
    var l := Lower(s);
    forall i | 0 <= i < |s| ensures Lower(l)[i] == l[i] {
      var c := s[i];
      if 'A' <= c <= 'Z' {
        assert l[i] as int == c as int + 32;
      }
    }
  }
}
