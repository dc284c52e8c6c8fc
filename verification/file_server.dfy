/**
 * The request handler of the file server (file-server/main.go): path
 * resolution, the containment check, the status dispatch, the directory
 * listing and the display path of its heading.
 *
 * The file system, the working directory and the home directory are inputs:
 * `os.Stat` and `os.ReadDir` are functions of a `FileSystem`, `os.Getwd`
 * (behind `filepath.Abs`) and `os.UserHomeDir` are fields of a `Host`.
 * A response is the status and message of `http.Error`, the path handed to
 * `http.ServeFile`, or the data of a listing page.
 */
module FileServer {
  import opened Wrappers
  import opened Paths
  import opened SizeFormat

  /** Outcome of `os.Stat`: an error that `os.IsNotExist` recognises, another error, or the kind of entry. */
  datatype StatResult = NotExist | StatError | IsDirectory | IsFile

  /** What `DirEntry.Info` yields; only the size is modelled. */
  datatype FileInfo = FileInfo(size: int)

  /** One entry of `os.ReadDir`: its name, whether it is a directory, and its `Info()`, `None` when that fails. */
  datatype DirEntry = DirEntry(name: string, isDir: bool, info: Option<FileInfo>)

  /** `os.Stat` and `os.ReadDir` (`None` when the read fails). */
  datatype FileSystem = FileSystem(stat: string -> StatResult, readDir: string -> Option<seq<DirEntry>>)

  /** Outcomes of `os.Getwd` and `os.UserHomeDir`, `None` when they fail. */
  datatype Host = Host(cwd: Option<string>, home: Option<string>)

  /** A row of the listing table: the link to the parent, or an entry with its link, name and size text. */
  datatype Row = ParentRow(link: string) | EntryRow(link: string, name: string, size: string)

  datatype Response =
    | ErrorResponse(status: int, message: string)
    | FileResponse(path: string)
    | ListingResponse(title: string, heading: string, rows: seq<Row>)

  // ---------------------------------------------------------------------
  // Containment and display path

  /** `isPathInDir`: both paths made absolute, then a character prefix test. */
  function IsPathInDir(path: string, baseDir: string, cwd: Option<string>): bool {
    match Abs(baseDir, cwd)
    case None => false
    case Some(baseAbs) =>
      match Abs(path, cwd)
      case None => false
      case Some(pathAbs) => HasPrefix(pathAbs, baseAbs)
  }

  /**
   * `getRelativePath`: the path written from `~/` when the home directory is
   * a character prefix of its absolute form, the absolute form otherwise, and
   * the path unchanged when the home directory or the absolute form is
   * unavailable.
   */
  function GetRelativePath(path: string, host: Host): string {
    match host.home
    case None => path
    case Some(homeDir) =>
      match Abs(path, host.cwd)
      case None => path
      case Some(absPath) =>
        if HasPrefix(absPath, homeDir) then
          match Rel(homeDir, absPath)
          case None => absPath
          case Some(relPath) => if relPath == "." then "~/" else "~/" + relPath
        else absPath
  }

  // ---------------------------------------------------------------------
  // Directory listing

  /** The row of an entry whose `Info()` succeeded. */
  function RowFor(urlPath: string, e: DirEntry): Row
    requires e.info.Some?
  {
    EntryRow(Join(urlPath, e.name),
             if e.isDir then e.name + "/" else e.name,
             if e.isDir then "-" else FormatFileSize(e.info.value.size))
  }

  /** The rows one entry contributes: none when its `Info()` fails. */
  function RowsOf(urlPath: string, e: DirEntry): seq<Row> {
    if e.info.Some? then [RowFor(urlPath, e)] else []
  }

  /** The entry rows of a listing, in read order. */
  function EntryRows(urlPath: string, files: seq<DirEntry>): (rows: seq<Row>)
    ensures forall i :: 0 <= i < |rows| ==> rows[i].EntryRow?
  {
    if files == [] then []
    else EntryRows(urlPath, files[..|files| - 1]) + RowsOf(urlPath, files[|files| - 1])
  }

  /** The parent row, present unless the request path is `/`. */
  function ParentRows(urlPath: string): seq<Row> {
    if urlPath != "/" then [ParentRow(Dir(urlPath))] else []
  }

  /** The entries whose `Info()` succeeded, in read order. */
  function Readable(files: seq<DirEntry>): (r: seq<DirEntry>)
    ensures |r| <= |files|
    ensures forall i :: 0 <= i < |r| ==> r[i].info.Some? && r[i] in files
  {
    if files == [] then []
    else
      var init := Readable(files[..|files| - 1]);
      var last := files[|files| - 1];
      assert forall e :: e in init ==> e in files[..|files| - 1];
      if last.info.Some? then init + [last] else init
  }

  /** `serveDirectoryListing` given the outcome of `os.ReadDir`. */
  function DirectoryListing(path: string, urlPath: string, host: Host, listing: Option<seq<DirEntry>>): Response {
    match listing
    case None => ErrorResponse(500, "Unable to read directory")
    case Some(files) =>
      ListingResponse(urlPath, GetRelativePath(path, host), ParentRows(urlPath) + EntryRows(urlPath, files))
  }

  /** One pass of the listing loop for an entry whose `Info()` succeeded: size text, link, then the name. */
  method BuildRow(urlPath: string, file: DirEntry) returns (row: Row)
    requires file.info.Some?
    ensures row == RowFor(urlPath, file)
  {
    var name := file.name;
    var size := "-";
    if !file.isDir {
      size := FormatFileSize(file.info.value.size);
    }
    var link := Join(urlPath, name);
    if file.isDir {
      name := name + "/";
    }
    row := EntryRow(link, name, size);
  }

  /**
   * The loop of `serveDirectoryListing`: one pass over the entries that skips
   * an entry whose `Info()` fails and appends the row of every other one to
   * the rows written so far.
   */
  method AppendEntryRows(urlPath: string, files: seq<DirEntry>, written: seq<Row>) returns (rows: seq<Row>)
    ensures rows == written + EntryRows(urlPath, files)
  {
    rows := written;
    var i := 0;
    while i < |files|
      invariant 0 <= i <= |files|
      invariant rows == written + EntryRows(urlPath, files[..i])
    {
      var file := files[i];
      assert EntryRows(urlPath, files[..i + 1]) == EntryRows(urlPath, files[..i]) + RowsOf(urlPath, file) by {
        assert files[..i + 1][..i] == files[..i];
      }
      if file.info.None? {
        i := i + 1;
        continue;
      }
      var row := BuildRow(urlPath, file);
      rows := rows + [row];
      i := i + 1;
    }
    assert files[..i] == files;
  }

  /**
   * `serveDirectoryListing` as the source runs it: a failed `os.ReadDir`
   * ends it with 500; otherwise the parent row is written first, unless the
   * request path is `/`, and then the loop over the entries.
   */
  method ServeDirectoryListing(path: string, urlPath: string, host: Host, listing: Option<seq<DirEntry>>)
    returns (resp: Response)
    ensures resp == DirectoryListing(path, urlPath, host, listing)
  {
    if listing.None? {
      return ErrorResponse(500, "Unable to read directory");
    }
    var files := listing.value;
    var displayPath := GetRelativePath(path, host);
    var rows: seq<Row> := [];
    if urlPath != "/" {
      rows := rows + [ParentRow(Dir(urlPath))];
    }
    rows := AppendEntryRows(urlPath, files, rows);
    resp := ListingResponse(urlPath, displayPath, rows);
  }

  // ---------------------------------------------------------------------
  // The handler

  /** The handler's `filepath.Join` followed by `filepath.Abs`; `None` is the error of `Abs`. */
  function Resolve(dir: string, urlPath: string, cwd: Option<string>): Option<string> {
    Abs(Join(dir, urlPath), cwd)
  }

  /** Which containment check the handler applies. */
  datatype Containment = CharacterPrefix | SegmentAware

  /**
   * The segment-aware check the handler's comment describes: the clean
   * absolute path's elements start with those of the clean absolute root.
   */
  function IsWithinDir(path: string, baseDir: string, cwd: Option<string>): bool {
    match Abs(baseDir, cwd)
    case None => false
    case Some(baseAbs) =>
      match Abs(path, cwd)
      case None => false
      case Some(pathAbs) => SegmentPrefix(Segments(baseAbs), Segments(pathAbs))
  }

  function Admits(check: Containment, path: string, dir: string, cwd: Option<string>): bool {
    match check
    case CharacterPrefix => IsPathInDir(path, dir, cwd)
    case SegmentAware => IsWithinDir(path, dir, cwd)
  }

  /** The handler's early-return dispatch, with a choice of containment check. */
  function Dispatch(check: Containment, dir: string, urlPath: string, host: Host, fs: FileSystem): Response {
    match Resolve(dir, urlPath, host.cwd)
    case None => ErrorResponse(400, "Invalid path")
    case Some(path) =>
      if !Admits(check, path, dir, host.cwd) then ErrorResponse(403, "Access denied: Path outside directory")
      else match fs.stat(path)
        case NotExist => ErrorResponse(404, "Not found")
        case StatError => ErrorResponse(500, "Server error")
        case IsDirectory => DirectoryListing(path, urlPath, host, fs.readDir(path))
        case IsFile => FileResponse(path)
  }

  /** `fileServerWithUI(dir)` answering a request for `urlPath`, with `isPathInDir` as written. */
  function Handle(dir: string, urlPath: string, host: Host, fs: FileSystem): Response {
    Dispatch(CharacterPrefix, dir, urlPath, host, fs)
  }

  /** The handler with the segment-aware containment check. */
  function HandleSegmentAware(dir: string, urlPath: string, host: Host, fs: FileSystem): Response {
    Dispatch(SegmentAware, dir, urlPath, host, fs)
  }

  // ---------------------------------------------------------------------
  // Dispatch

  /**
   * The status dispatch: 400 exactly when `Abs` fails, 403 exactly when the
   * containment check fails, then 404, 500, a file or a listing according to
   * `os.Stat` (and `os.ReadDir` for a directory).
   */
  lemma DispatchOrder(dir: string, urlPath: string, host: Host, fs: FileSystem)
    ensures var r := Handle(dir, urlPath, host, fs);
      var resolved := Resolve(dir, urlPath, host.cwd);
      var admitted := resolved.Some? && IsPathInDir(resolved.value, dir, host.cwd);
      && (r.ErrorResponse? && r.status == 400 <==> resolved.None?)
      && (r.ErrorResponse? && r.status == 403 <==> resolved.Some? && !admitted)
      && (r.ErrorResponse? && r.status == 404 <==> admitted && fs.stat(resolved.value) == NotExist)
      && (r.ErrorResponse? && r.status == 500 <==>
            admitted && (fs.stat(resolved.value) == StatError
                         || (fs.stat(resolved.value) == IsDirectory && fs.readDir(resolved.value).None?)))
      && (r.FileResponse? <==> admitted && fs.stat(resolved.value) == IsFile)
      && (r.FileResponse? ==> r.path == resolved.value)
      && (r.ListingResponse? <==> admitted && fs.stat(resolved.value) == IsDirectory && fs.readDir(resolved.value).Some?)
  {
    var resolved := Resolve(dir, urlPath, host.cwd);
    if resolved.Some? && IsPathInDir(resolved.value, dir, host.cwd) {
      var path := resolved.value;
      assert Handle(dir, urlPath, host, fs) == match fs.stat(path)
        case NotExist => ErrorResponse(404, "Not found")
        case StatError => ErrorResponse(500, "Server error")
        case IsDirectory => DirectoryListing(path, urlPath, host, fs.readDir(path))
        case IsFile => FileResponse(path);
    }
  }

  /** A request the containment check refuses gets 403 whatever the file system holds: `os.Stat` is not consulted. */
  lemma ForbiddenBeforeStat(dir: string, urlPath: string, host: Host, fs1: FileSystem, fs2: FileSystem)
    requires Resolve(dir, urlPath, host.cwd).Some?
    requires !IsPathInDir(Resolve(dir, urlPath, host.cwd).value, dir, host.cwd)
    ensures Handle(dir, urlPath, host, fs1) == Handle(dir, urlPath, host, fs2)
    ensures Handle(dir, urlPath, host, fs1) == ErrorResponse(403, "Access denied: Path outside directory")
  {
  }

  /**
   * With an absolute root, as the server's startup guarantees, the resolved
   * path is the clean form of root + "/" + request path: absolute, made of
   * names only (no `.` or `..` element), so the 400 branch is never taken.
   */
  lemma AbsoluteRootResolves(dir: string, urlPath: string, host: Host, fs: FileSystem)
    requires IsAbs(dir)
    ensures Resolve(dir, urlPath, host.cwd) == Some(Clean(dir + "/" + urlPath))
    ensures Clean(dir + "/" + urlPath) == Render(true, Segments(dir + "/" + urlPath))
    ensures AllNames(Segments(dir + "/" + urlPath))
    ensures !(Handle(dir, urlPath, host, fs).ErrorResponse? && Handle(dir, urlPath, host, fs).status == 400)
  {
    JoinOntoAbsolute(dir, urlPath, host.cwd);
  }

  // ---------------------------------------------------------------------
  // Containment

  lemma PrefixAfterSlash(a: string, b: string)
    ensures [Slash] + a <= [Slash] + b <==> a <= b
  {
    if [Slash] + a <= [Slash] + b {
      assert a == ([Slash] + a)[1..];
      assert forall i :: 0 <= i < |a| ==> a[i] == ([Slash] + a)[i + 1] == ([Slash] + b)[i + 1] == b[i];
    }
  }

  /**
   * What `isPathInDir` accepts for an absolute root `R` and a resolved
   * request `S`, in terms of their elements: every element of the root but
   * the last starts the request, and the root's last element is only a
   * CHARACTER prefix of the request's next one.  A request inside the root
   * (segment-wise) is always accepted; one accepted without being inside is a
   * sibling whose name extends the root's last name.
   */
  lemma ContainmentCharacterised(dir: string, urlPath: string, cwd: Option<string>)
    requires IsAbs(dir)
    ensures var root, target := Segments(dir), Segments(dir + "/" + urlPath);
      && (IsPathInDir(Join(dir, urlPath), dir, cwd) <==> LoosePrefix(root, target))
      && (SegmentPrefix(root, target) ==> IsPathInDir(Join(dir, urlPath), dir, cwd))
      && (IsPathInDir(Join(dir, urlPath), dir, cwd) && !SegmentPrefix(root, target) ==>
            root != [] && root[..|root| - 1] == target[..|root| - 1] && root[|root| - 1] < target[|root| - 1])
  {
    var root, target := Segments(dir), Segments(dir + "/" + urlPath);
    JoinOntoAbsolute(dir, urlPath, cwd);
    AbsoluteSegmentsAreNames(dir);
    CleanRendered(target);
    PrefixAfterSlash(JoinSlash(root), JoinSlash(target));
    JoinPrefixIff(root, target);
    SegmentPrefixVersusLoose(root, target);
  }

  /** A request path without a `..` field stays inside the root and passes the check. */
  lemma WithoutUpStaysInside(dir: string, urlPath: string, cwd: Option<string>)
    requires IsAbs(dir)
    requires ".." !in Split(urlPath)
    ensures SegmentPrefix(Segments(dir), Segments(dir + "/" + urlPath))
    ensures IsPathInDir(Join(dir, urlPath), dir, cwd)
  {
    var fields := Split(urlPath);
    JoinOntoAbsolute(dir, urlPath, cwd);
    NormalizeWithoutUp(true, Segments(dir), fields);
    ContainmentCharacterised(dir, urlPath, cwd);
  }

  /** Only a request path with a `..` field can be refused with 403. */
  lemma ForbiddenNeedsUp(dir: string, urlPath: string, host: Host, fs: FileSystem)
    requires IsAbs(dir)
    ensures Handle(dir, urlPath, host, fs) == ErrorResponse(403, "Access denied: Path outside directory") ==>
              ".." in Split(urlPath)
  {
    if ".." !in Split(urlPath) {
      WithoutUpStaysInside(dir, urlPath, host.cwd);
      ContainmentDecides(dir, urlPath, host, fs);
    }
  }

  /**
   * With an absolute root, a request the containment check refuses is
   * answered 403 and one it admits is never answered 400 or 403.
   */
  lemma ContainmentDecides(dir: string, urlPath: string, host: Host, fs: FileSystem)
    requires IsAbs(dir)
    ensures !IsPathInDir(Join(dir, urlPath), dir, host.cwd) ==>
              Handle(dir, urlPath, host, fs) == ErrorResponse(403, "Access denied: Path outside directory")
    ensures IsPathInDir(Join(dir, urlPath), dir, host.cwd) && Handle(dir, urlPath, host, fs).ErrorResponse? ==>
              Handle(dir, urlPath, host, fs).status !in {400, 403}
  {
    JoinOntoAbsolute(dir, urlPath, host.cwd);
  }

  /** The fields of a request `/../b/...`. */
  lemma ClimbingRequestFields(down: seq<string>)
    requires AllNames(down)
    ensures Split(Render(true, [".."] + down)) == [[], ".."] + down
  {
    var steps := [".."] + down;
    assert NoSlashIn(steps) by {
      StepsHaveNoSlash(1, down);
      assert Ups(1) == [".."];
    }
    SplitRooted(steps);
    assert [[]] + steps == [[], ".."] + down;
  }

  /** Scanned below the elements `parent + [a]`, the fields of `/../b/...` climb to `parent` and descend. */
  lemma ClimbOneLevel(parent: seq<string>, a: string, down: seq<string>)
    requires AllNames(parent) && IsName(a) && AllNames(down)
    ensures Normalize(true, parent + [a], [[], ".."] + down) == parent + down
  {
    assert Normalize(true, parent + [a], [[], ".."]) == parent by {
      assert (parent + [a])[..|parent|] == parent;
    }
    NormalizeAppend(true, parent + [a], [[], ".."], down);
    NormalizeNames(parent, down);
  }

  /** The elements of a sibling start loosely, but not segment-wise, with the root's. */
  lemma SiblingElements(parent: seq<string>, a: string, b: string, tail: seq<string>)
    requires a < b
    ensures LoosePrefix(parent + [a], parent + [b] + tail)
    ensures !SegmentPrefix(parent + [a], parent + [b] + tail)
  {
    var root, target := parent + [a], parent + [b] + tail;
    assert root[..|parent|] == parent == target[..|parent|];
    assert target[|parent|] == b;
    assert a != b;
    assert target[..|root|][|parent|] == b;
  }

  /**
   * The sibling case in general: below a root whose last element is `a`, a
   * request that climbs one level and descends into `b`, a longer name that
   * starts with `a`, resolves outside the root, and the check accepts it.
   */
  lemma SiblingAccepted(parent: seq<string>, a: string, b: string, tail: seq<string>, cwd: Option<string>)
    requires AllNames(parent) && IsName(a) && IsName(b) && AllNames(tail)
    requires a < b
    ensures var dir, req := Render(true, parent + [a]), Render(true, ["..", b] + tail);
      && Join(dir, req) == Render(true, parent + [b] + tail)
      && !SegmentPrefix(Segments(dir), Segments(dir + [Slash] + req))
      && IsPathInDir(Join(dir, req), dir, cwd)
  {
    var root, down := parent + [a], [b] + tail;
    var dir, req := Render(true, root), Render(true, [".."] + down);
    assert ["..", b] + tail == [".."] + down;
    assert AllNames(root) && AllNames(down);
    CleanRendered(root);
    ClimbingRequestFields(down);
    ClimbOneLevel(parent, a, down);
    JoinOntoAbsolute(dir, req, cwd);
    assert parent + down == parent + [b] + tail;
    SiblingElements(parent, a, b, tail);
    ContainmentCharacterised(dir, req, cwd);
  }

  /** The paths of the sibling example, written out from their elements. */
  lemma SiblingExamplePaths()
    ensures Render(true, ["srv"] + ["data"]) == "/srv/data"
    ensures Render(true, ["..", "data2"] + ["x"]) == "/../data2/x"
    ensures Render(true, ["srv"] + ["data2"] + ["x"]) == "/srv/data2/x"
  {
    assert JoinSlash(["srv", "data"]) == "srv" + "/" + "data";
    var t := ["..", "data2", "x"];
    assert JoinSlash(t[1..]) == "data2" + "/" + "x";
    assert JoinSlash(t) == ".." + "/" + "data2/x";
    assert ["..", "data2"] + ["x"] == t;
    var u := ["srv", "data2", "x"];
    assert JoinSlash(u[1..]) == "data2" + "/" + "x";
    assert JoinSlash(u) == "srv" + "/" + "data2/x";
    assert ["srv"] + ["data2"] + ["x"] == u;
  }

  /**
   * The sibling case: for root `/srv/data` the request `/../data2/x`
   * resolves to `/srv/data2/x`, outside the root, and the check accepts it.
   */
  lemma SiblingDirectoryAccepted(cwd: Option<string>)
    ensures Join("/srv/data", "/../data2/x") == "/srv/data2/x"
    ensures !SegmentPrefix(Segments("/srv/data"), Segments("/srv/data" + [Slash] + "/../data2/x"))
    ensures IsPathInDir(Join("/srv/data", "/../data2/x"), "/srv/data", cwd)
  {
    SiblingExamplePaths();
    assert "data" < "data2";
    SiblingAccepted(["srv"], "data", "data2", ["x"], cwd);
  }

  /**
   * A request that climbs out of the root with as many `..` as the root has
   * elements resolves to `/` followed by its remaining elements, and is
   * refused with 403 when those do not extend the root's elements.
   */
  lemma ClimbOutRefused(root: seq<string>, tail: seq<string>, host: Host, fs: FileSystem)
    requires AllNames(root) && AllNames(tail) && !LoosePrefix(root, tail)
    ensures var dir, req := Render(true, root), Render(true, Ups(|root|) + tail);
      && Join(dir, req) == Render(true, tail)
      && Handle(dir, req, host, fs) == ErrorResponse(403, "Access denied: Path outside directory")
  {
    var steps := Ups(|root|) + tail;
    var dir, req := Render(true, root), Render(true, steps);
    assert |steps| >= 1;
    StepsHaveNoSlash(|root|, tail);
    SplitRooted(steps);
    CleanRendered(root);
    assert Normalize(true, root, [[]] + steps) == tail by {
      NormalizeAppend(true, root, [[]], steps);
      NormalizeAppend(true, root, Ups(|root|), tail);
      NormalizeUps(root, |root|);
      assert root[..0] == [];
      NormalizeNames([], tail);
      assert [] + tail == tail;
    }
    JoinOntoAbsolute(dir, req, host.cwd);
    ContainmentCharacterised(dir, req, host.cwd);
    ContainmentDecides(dir, req, host, fs);
  }

  /** The paths of the traversal example, written out from their elements. */
  lemma TraversalExamplePaths()
    ensures Render(true, ["srv", "data"]) == "/srv/data"
    ensures Render(true, Ups(2) + ["etc"]) == "/../../etc"
    ensures Render(true, ["etc"]) == "/etc"
  {
    assert JoinSlash(["srv", "data"]) == "srv" + "/" + "data";
    var t := ["..", "..", "etc"];
    assert Ups(2) + ["etc"] == t;
    assert JoinSlash(t[1..]) == ".." + "/" + "etc";
    assert JoinSlash(t) == ".." + "/" + "../etc";
  }

  /** A traversal to `/etc` from root `/srv/data` is refused with 403. */
  lemma TraversalRefused(host: Host, fs: FileSystem)
    ensures Join("/srv/data", "/../../etc") == "/etc"
    ensures Handle("/srv/data", "/../../etc", host, fs) == ErrorResponse(403, "Access denied: Path outside directory")
  {
    TraversalExamplePaths();
    assert !LoosePrefix(["srv", "data"], ["etc"]);
    ClimbOutRefused(["srv", "data"], ["etc"], host, fs);
  }

  // ---------------------------------------------------------------------
  // The listing

  lemma {:induction false} EntryRowsAppend(urlPath: string, xs: seq<DirEntry>, ys: seq<DirEntry>)
    ensures EntryRows(urlPath, xs + ys) == EntryRows(urlPath, xs) + EntryRows(urlPath, ys)
    decreases |ys|
  {
    if ys != [] {
      var init := ys[..|ys| - 1];
      assert (xs + ys)[..|xs + ys| - 1] == xs + init;
      assert (xs + ys)[|xs + ys| - 1] == ys[|ys| - 1];
      EntryRowsAppend(urlPath, xs, init);
    } else {
      assert xs + ys == xs;
    }
  }

  /**
   * The listing holds one row per entry whose `Info()` succeeds, in the
   * order `os.ReadDir` returned them; an entry whose `Info()` fails leaves
   * no trace.
   */
  lemma {:induction false} EntryRowsFollowReadable(urlPath: string, files: seq<DirEntry>)
    ensures |EntryRows(urlPath, files)| == |Readable(files)|
    ensures forall i :: 0 <= i < |Readable(files)| ==> EntryRows(urlPath, files)[i] == RowFor(urlPath, Readable(files)[i])
  {
    if files != [] {
      EntryRowsFollowReadable(urlPath, files[..|files| - 1]);
    }
  }

  /** Skipping an entry whose `Info()` fails: the rows are those of the other entries. */
  lemma UnreadableEntrySkipped(urlPath: string, before: seq<DirEntry>, e: DirEntry, after: seq<DirEntry>)
    requires e.info.None?
    ensures EntryRows(urlPath, before + [e] + after) == EntryRows(urlPath, before) + EntryRows(urlPath, after)
  {
    assert EntryRows(urlPath, [e]) == [] by {
      assert [e][..0] == [];
    }
    assert EntryRows(urlPath, before + [e]) == EntryRows(urlPath, before) by {
      EntryRowsAppend(urlPath, before, [e]);
    }
    EntryRowsAppend(urlPath, before + [e], after);
  }

  /**
   * A directory's row has `-` for its size and its name followed by `/`; a
   * file's row has its formatted size and its name as it is.
   */
  lemma EntryRowColumns(urlPath: string, e: DirEntry)
    requires e.info.Some? && Slash !in e.name
    ensures var row := RowFor(urlPath, e);
      && (row.size == "-" <==> e.isDir)
      && (e.isDir <==> |row.name| > 0 && row.name[|row.name| - 1] == Slash)
      && (e.isDir ==> row.name == e.name + "/")
      && (!e.isDir ==> row.size == FormatFileSize(e.info.value.size) && row.name == e.name)
  {
    var row := RowFor(urlPath, e);
    if !e.isDir {
      var size := e.info.value.size;
      if size < KiB {
        SmallSizeExact(size);
      } else {
        ScaledSizeRounded(size);
      }
      assert |row.size| >= 3;
    }
  }

  /** The parent row goes before any entry rows, and it is the only parent row. */
  lemma ParentRowFirst(urlPath: string, entries: seq<Row>)
    requires forall i :: 0 <= i < |entries| ==> entries[i].EntryRow?
    ensures var rows, parents := ParentRows(urlPath) + entries, if urlPath != "/" then 1 else 0;
      && |rows| == parents + |entries|
      && (forall i :: 0 <= i < |rows| ==> (rows[i].ParentRow? <==> i < parents))
      && (urlPath != "/" ==> rows[0] == ParentRow(Dir(urlPath)))
      && (forall i :: 0 <= i < |entries| ==> rows[parents + i] == entries[i])
  {
    var parentRows := ParentRows(urlPath);
    var rows, parents := parentRows + entries, |parentRows|;
    forall i | 0 <= i < |rows|
      ensures rows[i].ParentRow? <==> i < parents
    {
      if i < parents {
        assert rows[i] == parentRows[i];
      } else {
        assert rows[i] == entries[i - parents];
      }
    }
  }

  /**
   * The rows of a listing page: a parent row, linking to `Dir` of the request
   * path, comes first exactly when the request path is not `/`; no other row
   * is a parent row; then, position by position, the row of each entry whose
   * `Info()` succeeded, in read order.
   */
  lemma ListingRows(path: string, urlPath: string, host: Host, files: seq<DirEntry>)
    ensures var resp, parents := DirectoryListing(path, urlPath, host, Some(files)), if urlPath != "/" then 1 else 0;
      && resp.ListingResponse?
      && |resp.rows| == parents + |Readable(files)|
      && (forall i :: 0 <= i < |resp.rows| ==> (resp.rows[i].ParentRow? <==> i < parents))
      && (urlPath != "/" ==> resp.rows[0] == ParentRow(Dir(urlPath)))
      && (forall i :: 0 <= i < |Readable(files)| ==> resp.rows[parents + i] == RowFor(urlPath, Readable(files)[i]))
  {
    var entries := EntryRows(urlPath, files);
    assert DirectoryListing(path, urlPath, host, Some(files)).rows == ParentRows(urlPath) + entries;
    ParentRowFirst(urlPath, entries);
    EntryRowsFollowReadable(urlPath, files);
  }

  /** For a clean request path, the parent row links to the path with its last element dropped. */
  lemma ParentLinkDropsLast(names: seq<string>)
    requires names != [] && AllNames(names)
    ensures ParentRows(Render(true, names)) == [ParentRow(Render(true, names[..|names| - 1]))]
  {
    DirDropsLast(names);
    assert Render(true, names)[1..] == JoinSlash(names);
    assert |JoinSlash(names)| > 0 by {
      if |names| == 1 {
        assert JoinSlash(names) == names[0];
      }
    }
  }

  /**
   * A request path with a trailing slash, which `ServeMux` passes on as it
   * is, gets a parent row linking to the same path without the slash: the
   * directory of the page itself, not its parent.
   */
  lemma TrailingSlashParentIsSelf(names: seq<string>)
    requires names != [] && AllNames(names)
    ensures ParentRows(Render(true, names) + "/") == [ParentRow(Render(true, names))]
  {
    var p := Render(true, names) + "/";
    assert p == ParentPrefix(names);
    assert p[..LastSlash(p) + 1] == p;
    CleanParentPrefix(names);
  }

  /** A trailing slash after a clean absolute path is cleaned away. */
  lemma CleanTrailingSlash(names: seq<string>)
    requires AllNames(names)
    ensures Clean(Render(true, names) + "/") == Render(true, names)
  {
    var p := Render(true, names) + "/";
    if names == [] {
      assert p == [] + [Slash] + ([] + [Slash] + []);
      SplitAppend([], []);
      SplitAppend([], [Slash]);
      var fields: seq<string> := [[], [], []];
      assert Split(p) == fields;
      assert fields[1..][1..] == [[]];
      assert Normalize(true, [], [[]]) == [];
      assert Normalize(true, [], fields[1..]) == [];
    } else {
      assert p == ParentPrefix(names);
      CleanParentPrefix(names);
    }
  }

  /** The parent row as intended: it links to `Dir` of the cleaned request path. */
  function LexicalParentRows(urlPath: string): seq<Row> {
    var clean := Clean(urlPath);
    if clean != "/" then [ParentRow(Dir(clean))] else []
  }

  /**
   * With or without a trailing slash, the intended parent row links to the
   * request path with its last element dropped, and the root has none; on
   * a clean request path it is the row the listing builds.
   */
  lemma LexicalParentDropsLast(names: seq<string>, trailingSlash: bool)
    requires AllNames(names)
    ensures var urlPath := Render(true, names) + (if trailingSlash then "/" else "");
      && LexicalParentRows(urlPath) == (if names == [] then [] else [ParentRow(Render(true, names[..|names| - 1]))])
      && (!trailingSlash ==> LexicalParentRows(urlPath) == ParentRows(urlPath))
  {
    var p := Render(true, names);
    var urlPath := p + (if trailingSlash then "/" else "");
    assert Clean(urlPath) == p by {
      if trailingSlash {
        assert urlPath == p + "/";
        CleanTrailingSlash(names);
      } else {
        assert urlPath == p;
        CleanRendered(names);
      }
    }
    if names == [] {
      assert p == "/";
    } else {
      assert p != "/" by {
        assert p[1..] == JoinSlash(names);
        assert |JoinSlash(names)| > 0 by {
          if |names| == 1 {
            assert JoinSlash(names) == names[0];
          }
        }
      }
      DirDropsLast(names);
      assert LexicalParentRows(urlPath) == [ParentRow(Dir(p))];
      if !trailingSlash {
        assert urlPath == p;
      }
    }
  }

  /** The root page `/` has no parent row. */
  lemma RootHasNoParent()
    ensures ParentRows("/") == []
    ensures ParentRows(Render(true, [])) == []
  {
  }

  /** For a clean request path, an entry's link is the path extended by the entry's name. */
  lemma EntryLinkExtends(names: seq<string>, e: DirEntry)
    requires AllNames(names) && IsName(e.name) && e.info.Some?
    ensures RowFor(Render(true, names), e).link == Render(true, names + [e.name])
  {
    var dir := Render(true, names);
    JoinOntoAbsolute(dir, e.name, None);
    CleanRendered(names);
    SplitNoSlash(e.name);
    NormalizeNames(names, [e.name]);
  }

  // ---------------------------------------------------------------------
  // The display path

  /** Joining `.` or nothing onto an absolute path only cleans it. */
  lemma JoinNothing(home: string)
    requires IsAbs(home)
    ensures Join(home, ".") == Clean(home)
    ensures Join(home, "") == Clean(home)
  {
    JoinOntoAbsolute(home, ".", None);
    SplitNoSlash(".");
    JoinOntoAbsolute(home, "", None);
    SplitNoSlash("");
  }

  /**
   * The heading of a listing (whose path is absolute): the path itself when
   * the home directory is unavailable; otherwise (`os.UserHomeDir` yields a
   * non-empty home, which need not be absolute), when the home directory is
   * a character prefix of the clean path, `~/` followed by a relative path
   * that leads from the home directory back to it (`~/` alone exactly when
   * the two are the same directory); otherwise the clean path.
   */
  lemma DisplayPath(path: string, host: Host)
    requires IsAbs(path)
    requires host.home.Some? ==> host.home.value != ""
    ensures host.home.None? ==> GetRelativePath(path, host) == path
    ensures host.home.Some? ==>
      var d, home, abs := GetRelativePath(path, host), host.home.value, Clean(path);
      && (!HasPrefix(abs, home) ==> d == abs)
      && (HasPrefix(abs, home) ==>
            && |d| >= 2 && d[..2] == "~/"
            && (d == "~/" <==> Clean(home) == abs)
            && (d != "~/" ==> Join(home, d[2..]) == abs))
  {
    if host.home.Some? {
      var home, abs := host.home.value, Clean(path);
      var d := GetRelativePath(path, host);
      assert Abs(path, host.cwd) == Some(abs);
      if HasPrefix(abs, home) {
        assert IsAbs(abs);
        assert IsAbs(home) by {
          assert home[0] == abs[0];
        }
        RelJoinRoundTrip(home, abs);
        CleanIdempotent(path);
        JoinNothing(home);
        var r := Rel(home, abs).value;
        if r != "." {
          assert d == "~/" + r;
          assert d[2..] == r;
        }
      }
    }
  }

  /** Below the home directory (segment-wise), the heading is `~/` and the remaining elements. */
  lemma DisplayPathBelowHome(path: string, host: Host)
    requires IsAbs(path) && host.home.Some? && host.home.value != ""
    requires HasPrefix(Clean(path), host.home.value)
    requires SegmentPrefix(Segments(host.home.value), Segments(path))
    requires Segments(host.home.value) != Segments(path)
    ensures GetRelativePath(path, host) == "~/" + JoinSlash(Segments(path)[|Segments(host.home.value)|..])
  {
    var home, abs := host.home.value, Clean(path);
    assert Abs(path, host.cwd) == Some(abs);
    assert IsAbs(home) by {
      assert IsAbs(abs) && home[0] == abs[0];
    }
    CleanRendered(Segments(path)) by {
      AbsoluteSegmentsAreNames(path);
    }
    assert Segments(abs) == Segments(path);
    RelBelow(home, abs);
    var rest := Segments(path)[|Segments(home)|..];
    assert rest != [] && IsName(rest[0]) by {
      AbsoluteSegmentsAreNames(path);
    }
    assert JoinSlash(rest) != "." by {
      if |rest| == 1 {
        assert JoinSlash(rest) == rest[0];
      } else {
        assert JoinSlash(rest)[|rest[0]|] == Slash;
      }
    }
  }

  /** Below a common parent, the root's last element is shared by no longer sibling. */
  lemma SiblingCommonPrefix(parent: seq<string>, a: string, b: string)
    requires a < b
    ensures CommonPrefix(parent + [a], parent + [b]) == |parent|
  {
    var r, s := parent + [a], parent + [b];
    assert r[..|parent|] == s[..|parent|];
    CommonPrefixAtLeast(r, s, |parent|);
    assert r != s by {
      assert r[|parent|] == a != b == s[|parent|];
    }
    if CommonPrefix(r, s) > |parent| {
      CommonPrefixOfEqual(r, s);
      assert false;
    }
  }

  /**
   * The character prefix on the heading: with a home directory whose last
   * element is `a`, the sibling directory `b`, a longer name that starts
   * with `a`, is displayed as `~/../b` although it is not below home.
   */
  lemma SiblingOfHome(parent: seq<string>, a: string, b: string, cwd: Option<string>)
    requires AllNames(parent) && IsName(a) && IsName(b) && a < b
    ensures GetRelativePath(Render(true, parent + [b]), Host(cwd, Some(Render(true, parent + [a])))) == "~/../" + b
  {
    var r, s := parent + [a], parent + [b];
    var home, path := Render(true, r), Render(true, s);
    assert AllNames(r) && AllNames(s);
    CleanRendered(r);
    CleanRendered(s);
    assert Abs(path, cwd) == Some(path);
    assert HasPrefix(path, home) by {
      SiblingElements(parent, a, b, []);
      assert parent + [b] + [] == s;
      JoinPrefixIff(r, s);
    }
    assert Clean(path) != Clean(home) by {
      RenderInjective(r, s);
      assert r[|parent|] != s[|parent|];
    }
    SiblingCommonPrefix(parent, a, b);
    assert Ups(|r| - |parent|) + s[|parent|..] == ["..", b];
    assert JoinSlash(["..", b]) == ".." + "/" + b;
  }

  /** The paths of the home example, written out from their elements. */
  lemma HomeExamplePaths()
    ensures Render(true, ["a"] + ["b"]) == "/a/b"
    ensures Render(true, ["a"] + ["bc"]) == "/a/bc"
  {
    assert JoinSlash(["a", "b"]) == "a" + "/" + "b";
    assert JoinSlash(["a", "bc"]) == "a" + "/" + "bc";
  }

  /** With home `/a/b`, the directory `/a/bc` is displayed as `~/../bc`. */
  lemma SiblingOfHomeDisplay(cwd: Option<string>)
    ensures GetRelativePath("/a/bc", Host(cwd, Some("/a/b"))) == "~/../bc"
  {
    HomeExamplePaths();
    assert "b" < "bc";
    SiblingOfHome(["a"], "b", "bc", cwd);
  }

  // ---------------------------------------------------------------------
  // The segment-aware check

  /**
   * With an absolute root, the segment-aware check admits exactly the
   * requests whose resolved elements start with the root's, and it admits
   * nothing the character-prefix check refuses.
   */
  lemma SegmentAwareCharacterised(dir: string, urlPath: string, cwd: Option<string>)
    requires IsAbs(dir)
    ensures IsWithinDir(Join(dir, urlPath), dir, cwd) <==> SegmentPrefix(Segments(dir), Segments(dir + "/" + urlPath))
    ensures IsWithinDir(Join(dir, urlPath), dir, cwd) ==> IsPathInDir(Join(dir, urlPath), dir, cwd)
  {
    JoinOntoAbsolute(dir, urlPath, cwd);
    CleanRendered(Segments(dir + "/" + urlPath));
    AbsoluteSegmentsAreNames(dir);
    CleanRendered(Segments(dir));
    ContainmentCharacterised(dir, urlPath, cwd);
  }

  /**
   * The handler with the segment-aware check serves a file or a listing only
   * for a path whose elements start with the root's, and it answers every
   * such request exactly as the handler as written does.
   */
  lemma SegmentAwareStaysInside(dir: string, urlPath: string, host: Host, fs: FileSystem)
    requires IsAbs(dir)
    ensures var r := HandleSegmentAware(dir, urlPath, host, fs);
      (r.FileResponse? || r.ListingResponse?) ==> SegmentPrefix(Segments(dir), Segments(dir + "/" + urlPath))
    ensures SegmentPrefix(Segments(dir), Segments(dir + "/" + urlPath)) ==>
              HandleSegmentAware(dir, urlPath, host, fs) == Handle(dir, urlPath, host, fs)
  {
    JoinOntoAbsolute(dir, urlPath, host.cwd);
    SegmentAwareCharacterised(dir, urlPath, host.cwd);
  }

  /**
   * Every sibling request `SiblingAccepted` describes is refused with 403 by
   * the handler with the segment-aware check.
   */
  lemma SegmentAwareRefusesSibling(parent: seq<string>, a: string, b: string, tail: seq<string>, host: Host, fs: FileSystem)
    requires AllNames(parent) && IsName(a) && IsName(b) && AllNames(tail)
    requires a < b
    ensures var dir, req := Render(true, parent + [a]), Render(true, ["..", b] + tail);
      HandleSegmentAware(dir, req, host, fs) == ErrorResponse(403, "Access denied: Path outside directory")
  {
    var dir, req := Render(true, parent + [a]), Render(true, ["..", b] + tail);
    SiblingAccepted(parent, a, b, tail, host.cwd);
    assert IsAbs(dir);
    assert !IsWithinDir(Join(dir, req), dir, host.cwd) by {
      SegmentAwareCharacterised(dir, req, host.cwd);
    }
    JoinOntoAbsolute(dir, req, host.cwd);
  }
}
