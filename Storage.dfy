/** Storage.cs: the per-job workspace under "temp", the download of the
    source document, and the shared result PDF under "result". */
module Storage {
  import opened Wrappers
  import opened Strings
  import opened Paths
  import opened Disk
  import Uris
  import Locator

  /** StorageOptions: the bucket and the optional base URL for relative locators. */
  datatype StorageOptions = StorageOptions(awsS3BucketName: string, baseDownloadUrl: Option<string>)

  /** What the HTTP GET gives: no response at all (network failure or
      cancellation), or a status and the bytes that arrived, `complete` being
      false when the stream broke off after them. */
  datatype Fetch = Unreachable | Response(status: int, body: seq<byte>, complete: bool)

  /** The tree after a storage operation and whether it returned normally. */
  datatype Step = Step(tree: Tree, ok: bool)

  const ExtractDirectory: string := "temp"
  const ResultDirectory: string := "result"
  const ResultPdfName: string := "file.pdf"

  /** Path.Combine(ResultDirectory, "file.pdf"). */
  function ResultPdf(): (p: string)
    ensures p == "result\\file.pdf"
  {
    Combine(ResultDirectory, ResultPdfName)
  }

  /** A uuid as its publishers mean it: ASCII letters, digits, '-' and '_'.
      Its folder name needs no resolution, and two such uuids name the same
      folder on Windows exactly when they agree up to ASCII case. */
  predicate PlainUuid(u: string)
  {
    u != [] && forall i :: 0 <= i < |u| ==> UuidChar(u[i])
  }

  predicate UuidChar(c: char)
  {
    'a' <= c <= 'z' || 'A' <= c <= 'Z' || '0' <= c <= '9' || c == '-' || c == '_'
  }

  lemma PlainUuidParts(u: string)
    requires PlainUuid(u)
    ensures PlainSegment(u) && !IsRooted(u) && ':' !in u
  {
    assert UuidChar(u[|u| - 1]);
    if |u| >= 2 {
      assert UuidChar(u[1]);
    }
  }

  /** Path.Combine(ExtractDirectory, uuid). */
  function UuidFolder(uuid: string): string
  {
    Combine(ExtractDirectory, uuid)
  }

  /** GetTempFullPath: the save name below "temp", '/' turned into the
      directory separator. */
  function TempFullPath(saveName: string): string
  {
    Combine(ExtractDirectory, ReplaceChar(saveName, '/', Separator))
  }

  predicate IsSuccessStatus(status: int)
  {
    200 <= status <= 299
  }

  /** The base of a relative download URL: BaseDownloadUrl unless it is null
      or blank, else "https://" and the bucket; trailing '/' trimmed. */
  function DownloadBase(opts: StorageOptions): string
  {
    if !IsNullOrWhiteSpace(opts.baseDownloadUrl) then TrimEnd(opts.baseDownloadUrl.value, '/')
    else "https://" + TrimEnd(opts.awsS3BucketName, '/')
  }

  /** The URL DownloadSourceDocumentAsync requests. */
  function DownloadUrl(opts: StorageOptions, locator: string): string
  {
    match Uris.WebAddress(locator)
    case Some(url) => url
    case None => DownloadBase(opts) + "/" + TrimStart(locator, '/')
  }

  /** DeleteUuidFolder: recursive delete when `temp/{uuid}` is a directory. */
  function DeleteFolder(t: Tree, uuid: string, locked: bool): Step
  {
    var dir := UuidFolder(uuid);
    if !IsDir(t, dir) then Step(t, true)
    else if locked then Step(t, false)
    else Step(RemoveTree(t, dir), true)
  }

  /** CreateUuidFolder. */
  function CreateFolder(t: Tree, uuid: string): Step
  {
    match MakeDirs(t, UuidFolder(uuid))
    case Some(t1) => Step(t1, true)
    case None => Step(t, false)
  }

  /** The file-system side of DownloadSourceDocumentAsync: create the
      destination's directory, then handle the response. */
  function Download(t: Tree, saveName: string, fetch: Fetch, destLocked: bool): Step
  {
    var dest := TempFullPath(saveName);
    match MakeDirs(t, Parent(dest))
    case None => Step(t, false)
    case Some(t1) => Receive(t1, dest, fetch, destLocked)
  }

  /** Stop on a failed request, write `.part`, delete an existing
      destination file, move `.part` into place. */
  function Receive(t: Tree, dest: string, fetch: Fetch, destLocked: bool): Step
  {
    var part := dest + ".part";
    if !fetch.Response? || !IsSuccessStatus(fetch.status) then Step(t, false)
    else match WriteFile(t, part, fetch.body)
      case None => Step(t, false)
      case Some(t2) =>
        if !fetch.complete then Step(t2, false)
        else if IsFile(t2, dest) && destLocked then Step(t2, false)
        else
          var t3 := if IsFile(t2, dest) then RemoveFile(t2, dest) else t2;
          match MoveFile(t3, part, dest)
          case None => Step(t3, false)
          case Some(t4) => Step(t4, true)
  }

  /** GetResultPdfPath: creates "result"; the returned path is constant. */
  function PrepareResult(t: Tree): Step
  {
    match MakeDirs(t, ResultDirectory)
    case Some(t1) => Step(t1, true)
    case None => Step(t, false)
  }

  /** DeleteResultPdf: deletes result/file.pdf when it is a file; a failed
      delete (`locked`) is logged and absorbed. */
  function ClearResult(t: Tree, locked: bool): Tree
  {
    if IsFile(t, ResultPdf()) && !locked then RemoveFile(t, ResultPdf()) else t
  }

  // ---- folder reset ----

  /** Deleting a folder that is absent changes nothing; deleting a present
      one removes exactly its subtree. */
  lemma DeleteFolderEffect(t: Tree, uuid: string, locked: bool)
    ensures !IsDir(t, UuidFolder(uuid)) ==> DeleteFolder(t, uuid, locked) == Step(t, true)
    ensures IsDir(t, UuidFolder(uuid)) && !locked ==>
      var r := DeleteFolder(t, uuid, locked).tree;
      forall p :: (p in r <==> p in t && !InTree(UuidFolder(uuid), p)) && (p in r ==> r[p] == t[p])
    ensures !DeleteFolder(t, uuid, locked).ok <==> IsDir(t, UuidFolder(uuid)) && locked
  {
  }

  /** Deleting twice is deleting once. */
  lemma DeleteFolderIdempotent(t: Tree, uuid: string, locked: bool)
    requires DeleteFolder(t, uuid, locked).ok
    ensures DeleteFolder(DeleteFolder(t, uuid, locked).tree, uuid, locked) == DeleteFolder(t, uuid, locked)
  {
    var d := UuidFolder(uuid);
    if IsDir(t, d) {
      assert d !in RemoveTree(t, d);
      RemoveTreeIdempotent(t, d);
    }
  }

  /** A plain uuid is the first segment of every path in its folder. */
  lemma FolderOf(u: string, p: string)
    requires u != [] && NoSeparator(u) && !IsRooted(u)
    requires InTree(UuidFolder(u), p)
    ensures |p| >= 5 && u == p[5..][..IndexOfAny(p[5..], Separators)]
  {
    var du := UuidFolder(u);
    assert du == "temp\\" + u;
    var s := p[5..];
    assert s[..|u|] == u by {
      assert p[..|du|] == du;
    }
    assert forall j :: 0 <= j < |u| ==> s[j] !in Separators by {
      assert forall j :: 0 <= j < |u| ==> s[j] == u[j];
    }
    assert |u| == |s| || s[|u|] in Separators by {
      if p != du {
        assert s[|u|] == p[|du|];
      }
    }
  }

  /** Two plain uuids whose folders share a path are the same uuid. */
  lemma SameFolder(u: string, v: string, p: string)
    requires PlainUuid(u) && PlainUuid(v)
    ensures InTree(UuidFolder(u), p) && InTree(UuidFolder(v), p) ==> u == v
  {
    if InTree(UuidFolder(u), p) && InTree(UuidFolder(v), p) {
      PlainUuidParts(u);
      PlainUuidParts(v);
      FolderOf(u, p);
      FolderOf(v, p);
    }
  }

  /** The folders of two plain uuids that differ in more than case are
      disjoint: resetting one leaves the other and everything in it
      untouched. */
  lemma OtherFoldersUntouched(t: Tree, u: string, v: string, locked: bool, p: string)
    requires PlainUuid(u) && PlainUuid(v) && ToLowerInvariant(u) != ToLowerInvariant(v)
    requires p in t && InTree(UuidFolder(v), p)
    ensures p in DeleteFolder(t, u, locked).tree && DeleteFolder(t, u, locked).tree[p] == t[p]
  {
    SameFolder(u, v, p);
  }

  /** An empty uuid names "temp" itself: resetting or cleaning it up removes
      every job's workspace. */
  lemma EmptyUuidIsWholeWorkspace(v: string)
    requires v != [] && NoSeparator(v) && !IsRooted(v)
    ensures UuidFolder([]) == ExtractDirectory
    ensures InTree(UuidFolder([]), UuidFolder(v))
  {
    assert UuidFolder(v) == ExtractDirectory + "\\" + v;
    assert UuidFolder(v)[..|ExtractDirectory|] == ExtractDirectory;
  }

  /** A uuid ".." names "temp\\..", which Windows resolves to the base
      directory itself, the one holding "temp" and "result". */
  lemma DotDotUuidIsBaseDirectory()
    ensures UuidFolder("..") == "temp\\.."
    ensures Resolve(UuidFolder("..")) == []
  {
    assert UuidFolder("..") == "temp" + [Separator] + "..";
    ClimbBack("temp");
  }

  /** A uuid "..\\{d}" saves its download in the sibling "{d}" of "temp":
      with d = "result" and extension "pdf" that is the shared result PDF. */
  lemma ParentUuidEscapesWorkspace(d: string, extension: string)
    requires PlainSegment(d) && PlainSegment(extension)
    ensures Resolve(TempFullPath(Locator.SaveName(".." + [Separator] + d, extension))) == d + [Separator] + "file." + extension
    ensures d == "result" && extension == "pdf" ==>
      Resolve(TempFullPath(Locator.SaveName(".." + [Separator] + d, extension))) == ResultPdf()
  {
    var uuid := ".." + [Separator] + d;
    var file := "file." + extension;
    var p := TempFullPath(Locator.SaveName(uuid, extension));
    assert p == "temp" + [Separator] + ".." + [Separator] + (d + [Separator] + file) by {
      assert !IsRooted(uuid) && '/' !in uuid;
      TempPathOfPlainJob(uuid, extension);
    }
    assert PlainSegment(file) by {
      assert file[|file| - 1] == extension[|extension| - 1];
      assert forall k :: 0 <= k < |file| ==> file[k] == if k < 5 then "file."[k] else extension[k - 5];
    }
    assert Resolve(p) == d + [Separator] + file by {
      ClimbOut("temp", d + [Separator] + file);
      ResolvePlainPair(d, file);
    }
    assert d + [Separator] + file == d + [Separator] + "file." + extension;
  }

  /** Reset then create: the folder exists and is empty. */
  lemma ResetThenCreate(t: Tree, uuid: string)
    requires Consistent(t)
    requires forall a :: a in Ancestors(UuidFolder(uuid)) ==> !IsFile(t, a)
    ensures var r := CreateFolder(DeleteFolder(t, uuid, false).tree, uuid);
      && r.ok && IsDir(r.tree, UuidFolder(uuid))
      && forall p :: p in r.tree && InTree(UuidFolder(uuid), p) ==> p == UuidFolder(uuid)
  {
    var d := UuidFolder(uuid);
    assert d != [] && d in Ancestors(d);
    if !IsDir(t, d) {
      NothingUnderMissingFolder(t, d);
    }
    assert DeleteFolder(t, uuid, false).tree == RemoveTree(t, d);
    FreshDirectoryEmpty(t, d);
  }

  /** Where neither a directory nor a file stands, a consistent tree holds
      nothing below. */
  lemma NothingUnderMissingFolder(t: Tree, d: string)
    requires Consistent(t) && d != [] && !IsDir(t, d) && !IsFile(t, d)
    ensures RemoveTree(t, d) == t
  {
    forall p | p in t && InTree(d, p)
      ensures false
    {
      if p != d {
        DescendantHasDirAncestor(t, d, p);
      }
    }
  }

  // ---- download URL ----

  /** An http(s) locator in canonical form is requested verbatim. */
  lemma DownloadUrlVerbatim(opts: StorageOptions, scheme: string, host: string, path: string)
    requires Uris.IsWebScheme(scheme)
    requires host != [] && '/' !in host && '?' !in host && '#' !in host
    requires path != [] && path[0] == '/' && '?' !in path && '#' !in path
    requires !Uris.IsLws(path[|path| - 1])
    ensures DownloadUrl(opts, scheme + "://" + host + path) == scheme + "://" + host + path
  {
    Uris.WebSchemeValid(scheme);
    Uris.AuthorityUrlVerbatim(scheme, host, path);
  }

  /** A relative locator is appended to the base with one '/' between them:
      the base never ends in '/' (unless it is the bare "https://" of an
      empty bucket) and the locator part never starts with one. */
  lemma RelativeDownloadUrl(opts: StorageOptions, locator: string)
    requires Uris.WebAddress(locator).None?
    ensures var base, rest := DownloadBase(opts), TrimStart(locator, '/');
      && DownloadUrl(opts, locator) == base + "/" + rest
      && (rest == [] || rest[0] != '/')
      && (base == [] || base[|base| - 1] != '/' || base == "https://")
  {
    DownloadBaseEnd(opts);
  }

  /** The base ends in no '/', unless it is the bare "https://". */
  lemma DownloadBaseEnd(opts: StorageOptions)
    ensures var base := DownloadBase(opts);
      base == [] || base[|base| - 1] != '/' || base == "https://"
  {
    if IsNullOrWhiteSpace(opts.baseDownloadUrl) {
      var bucket := TrimEnd(opts.awsS3BucketName, '/');
      if bucket == [] {
        assert DownloadBase(opts) == "https://" + [];
      } else {
        LastOfConcat("https://", bucket);
      }
    }
  }

  lemma LastOfConcat(p: string, q: string)
    requires q != []
    ensures (p + q)[|p + q| - 1] == q[|q| - 1]
  {
  }

  /** A blank or whitespace BaseDownloadUrl falls back to the bucket, and a
      bucket that is empty once trimmed yields "https:///" + locator. */
  lemma BlankBaseUsesBucket(opts: StorageOptions, locator: string)
    requires Uris.WebAddress(locator).None? && IsNullOrWhiteSpace(opts.baseDownloadUrl)
    ensures DownloadUrl(opts, locator) == "https://" + TrimEnd(opts.awsS3BucketName, '/') + "/" + TrimStart(locator, '/')
    ensures TrimEnd(opts.awsS3BucketName, '/') == [] ==> DownloadUrl(opts, locator) == "https:///" + TrimStart(locator, '/')
  {
    var rest := TrimStart(locator, '/');
    if TrimEnd(opts.awsS3BucketName, '/') == [] {
      assert DownloadBase(opts) == "https://";
      assert "https://" + "/" == "https:///";
      assert ("https://" + "/") + rest == "https://" + "/" + rest;
    }
  }

  // ---- download ----

  /** No file is written before the status is known to be a success: a
      failed request leaves every file, the destination included, as it was;
      only the destination's directory may have been created. */
  lemma FailedRequestWritesNothing(t: Tree, saveName: string, fetch: Fetch, destLocked: bool)
    requires !fetch.Response? || !IsSuccessStatus(fetch.status)
    ensures var r := Download(t, saveName, fetch, destLocked);
      && !r.ok
      && (forall p :: IsFile(t, p) <==> IsFile(r.tree, p))
      && (forall p :: IsFile(t, p) ==> r.tree[p] == t[p])
  {
  }

  /** A successful download leaves the destination holding exactly the
      downloaded bytes, replacing any earlier file, and no `.part` file; no
      other file changes. */
  lemma DownloadStoresBody(t: Tree, saveName: string, fetch: Fetch, destLocked: bool)
    requires Download(t, saveName, fetch, destLocked).ok
    ensures fetch.Response? && IsSuccessStatus(fetch.status) && fetch.complete
    ensures var r, dest := Download(t, saveName, fetch, destLocked).tree, TempFullPath(saveName);
      && IsFile(r, dest) && r[dest] == File(fetch.body)
      && dest + ".part" !in r
      && forall p :: p != dest && p != dest + ".part" && IsFile(t, p) ==> IsFile(r, p) && r[p] == t[p]
  {
    var dest := TempFullPath(saveName);
    assert dest + ".part" != dest by {
      assert |dest + ".part"| != |dest|;
    }
  }

  /** A stream that breaks off after a success status leaves the partial
      `.part` file behind (the consumer's cleanup removes it with the folder). */
  lemma BrokenStreamLeavesPart(t: Tree, saveName: string, body: seq<byte>, status: int, destLocked: bool)
    requires IsSuccessStatus(status)
    requires MakeDirs(t, Parent(TempFullPath(saveName))).Some?
    requires WriteFile(MakeDirs(t, Parent(TempFullPath(saveName))).value, TempFullPath(saveName) + ".part", body).Some?
    ensures var r := Download(t, saveName, Response(status, body, false), destLocked);
      !r.ok && IsFile(r.tree, TempFullPath(saveName) + ".part") && r.tree[TempFullPath(saveName) + ".part"].data == body
  {
  }

  /** Every operation keeps the tree consistent. */
  lemma StepsConsistent(t: Tree, uuid: string, saveName: string, fetch: Fetch, locked: bool)
    requires Consistent(t)
    ensures Consistent(DeleteFolder(t, uuid, locked).tree)
    ensures Consistent(CreateFolder(t, uuid).tree)
    ensures Consistent(Download(t, saveName, fetch, locked).tree)
    ensures Consistent(PrepareResult(t).tree)
    ensures Consistent(ClearResult(t, locked))
  {
    RemoveTreeConsistent(t, UuidFolder(uuid));
    if MakeDirs(t, UuidFolder(uuid)).Some? {
      MakeDirsConsistent(t, UuidFolder(uuid));
    }
    if MakeDirs(t, ResultDirectory).Some? {
      MakeDirsConsistent(t, ResultDirectory);
    }
    if IsFile(t, ResultPdf()) {
      RemoveFileConsistent(t, ResultPdf());
    }
    DownloadConsistent(t, saveName, fetch, locked);
  }

  lemma DownloadConsistent(t: Tree, saveName: string, fetch: Fetch, destLocked: bool)
    requires Consistent(t)
    ensures Consistent(Download(t, saveName, fetch, destLocked).tree)
  {
    var dest := TempFullPath(saveName);
    match MakeDirs(t, Parent(dest))
    case None =>
    case Some(t1) =>
      MakeDirsConsistent(t, Parent(dest));
      ReceiveConsistent(t1, dest, fetch, destLocked);
  }

  lemma ReceiveConsistent(t: Tree, dest: string, fetch: Fetch, destLocked: bool)
    requires Consistent(t)
    ensures Consistent(Receive(t, dest, fetch, destLocked).tree)
  {
    var part := dest + ".part";
    if fetch.Response? && IsSuccessStatus(fetch.status) && WriteFile(t, part, fetch.body).Some? {
      var t2 := WriteFile(t, part, fetch.body).value;
      WriteFileConsistent(t, part, fetch.body);
      var t3 := if IsFile(t2, dest) then RemoveFile(t2, dest) else t2;
      if IsFile(t2, dest) {
        RemoveFileConsistent(t2, dest);
      }
      if MoveFile(t3, part, dest).Some? {
        MoveFileConsistent(t3, part, dest);
      }
    }
  }

  /** A download keeps every directory, and every entry other than the
      destination and its `.part` file. */
  lemma DownloadFrame(t: Tree, saveName: string, fetch: Fetch, destLocked: bool)
    ensures var r, dest := Download(t, saveName, fetch, destLocked).tree, TempFullPath(saveName);
      && (forall p :: IsDir(t, p) ==> IsDir(r, p))
      && (forall p :: p in t && p != dest && p != dest + ".part" ==> p in r && r[p] == t[p])
  {
    var dest := TempFullPath(saveName);
    if MakeDirs(t, Parent(dest)).Some? {
      ReceiveFrame(MakeDirs(t, Parent(dest)).value, dest, fetch, destLocked);
    }
  }

  lemma ReceiveFrame(t: Tree, dest: string, fetch: Fetch, destLocked: bool)
    ensures var r := Receive(t, dest, fetch, destLocked).tree;
      && (forall p :: IsDir(t, p) ==> IsDir(r, p))
      && (forall p :: p in t && p != dest && p != dest + ".part" ==> p in r && r[p] == t[p])
  {
    var part := dest + ".part";
    if fetch.Response? && IsSuccessStatus(fetch.status) && WriteFile(t, part, fetch.body).Some? {
      var t2 := WriteFile(t, part, fetch.body).value;
      assert forall p :: IsDir(t, p) ==> IsDir(t2, p);
      if fetch.complete && !(IsFile(t2, dest) && destLocked) {
        var t3 := if IsFile(t2, dest) then RemoveFile(t2, dest) else t2;
        assert forall p :: IsDir(t, p) ==> IsDir(t3, p);
      }
    }
  }

  /** The result PDF lies outside a plain uuid's workspace, whose folder
      needs no resolution, and is never the job's download destination (which
      lies inside that folder) or its `.part` file. */
  lemma ResultOutsideWorkspace(uuid: string, extension: string)
    requires PlainUuid(uuid) && NoSeparator(extension)
    ensures Resolve(UuidFolder(uuid)) == UuidFolder(uuid)
    ensures !InTree(UuidFolder(uuid), ResultPdf())
    ensures var dest := TempFullPath(Locator.SaveName(uuid, extension));
      && InTree(UuidFolder(uuid), dest)
      && dest != ResultPdf() && dest + ".part" != ResultPdf()
  {
    PlainUuidParts(uuid);
    var d := UuidFolder(uuid);
    assert d == "temp" + [Separator] + uuid;
    assert Resolve(d) == d by {
      assert PlainSegment("temp");
      ResolvePlainPair("temp", uuid);
    }
    var dest := TempFullPath(Locator.SaveName(uuid, extension));
    TempPathOfPlainJob(uuid, extension);
    assert dest[..|d|] == d && dest[|d|] == Separator;
    WorkspacePathsApart(uuid, Locator.SaveName(uuid, extension));
  }

  /** For a uuid that is not rooted and holds no '/', and an extension
      without separators, the downloaded file and the file given to the
      converter are temp\{uuid}\file.{ext}. */
  lemma TempPathOfPlainJob(uuid: string, extension: string)
    requires uuid != [] && '/' !in uuid && !IsRooted(uuid) && NoSeparator(extension)
    ensures TempFullPath(Locator.SaveName(uuid, extension)) == "temp\\" + uuid + "\\file." + extension
  {
    Locator.SaveNameVerbatim(uuid, extension);
    var s := uuid + "/file." + extension;
    var r := uuid + "\\file." + extension;
    assert ReplaceChar(s, '/', Separator) == r by {
      forall i | 0 <= i < |s|
        ensures (if s[i] == '/' then Separator else s[i]) == r[i]
      {
        if i < |uuid| {
          assert s[i] == uuid[i] && r[i] == uuid[i];
        } else if i > |uuid| {
          assert s[i] == r[i];
        }
      }
    }
    assert !IsRooted(r) by {
      assert r[0] == uuid[0];
      if |uuid| >= 2 {
        assert r[1] == uuid[1];
      } else {
        assert r[1] == Separator;
      }
    }
  }

  /** As strings, no folder "temp\{uuid}" holds the result PDF, and no path
      below "temp" is the result PDF or its `.part` file. */
  lemma WorkspacePathsApart(uuid: string, saveName: string)
    ensures !InTree(UuidFolder(uuid), ResultPdf())
    ensures TempFullPath(saveName) != ResultPdf() && TempFullPath(saveName) + ".part" != ResultPdf()
  {
    var d := UuidFolder(uuid);
    var r := ResultPdf();
    assert r[0] == 'r' && r[1] == 'e' && |r| > 2;
    assert d != [] && (d[0] == 't' || IsRooted(d)) by {
      if uuid != [] && !IsRooted(uuid) {
        assert d == "temp" + [Separator] + uuid;
      }
    }
    var dest := TempFullPath(saveName);
    var rest := ReplaceChar(saveName, '/', Separator);
    assert dest != [] && (dest[0] == 't' || IsRooted(dest)) by {
      if rest != [] && !IsRooted(rest) {
        assert dest == "temp" + [Separator] + rest;
      }
    }
    assert (dest + ".part")[0] == dest[0];
    assert |dest| >= 2 ==> (dest + ".part")[1] == dest[1];
    assert |dest| == 1 ==> (dest + ".part")[1] == '.';
  }

  // ---- result PDF ----

  /** GetResultPdfPath guarantees "result" exists whenever it returns, and it
      returns unless "result" is a file. */
  lemma PrepareResultEffect(t: Tree)
    ensures PrepareResult(t).ok <==> !IsFile(t, ResultDirectory)
    ensures PrepareResult(t).ok ==> IsDir(PrepareResult(t).tree, ResultDirectory)
    ensures forall p :: p in t ==> p in PrepareResult(t).tree && PrepareResult(t).tree[p] == t[p]
  {
    assert Parent(ResultDirectory) == [];
    assert Ancestors(ResultDirectory) == {ResultDirectory};
  }

  /** DeleteResultPdf touches result/file.pdf only, leaves no file there unless
      the delete failed, and is idempotent. */
  lemma ClearResultEffect(t: Tree, locked: bool)
    ensures forall p :: p != ResultPdf() ==> (p in ClearResult(t, locked) <==> p in t)
    ensures forall p :: p != ResultPdf() && p in t ==> ClearResult(t, locked)[p] == t[p]
    ensures !locked ==> !IsFile(ClearResult(t, locked), ResultPdf())
    ensures ClearResult(ClearResult(t, locked), locked) == ClearResult(t, locked)
  {
  }

  // ---- the class ----

  /** The Storage service over the shared file system. */
  class Storage {
    const fs: FileSystem
    const options: StorageOptions

    constructor (fs: FileSystem, options: StorageOptions)
      ensures this.fs == fs && this.options == options
    {
      this.fs := fs;
      this.options := options;
    }

    /** DeleteUuidFolder; `locked` makes the recursive delete throw. */
    method DeleteUuidFolder(uuid: string, locked: bool) returns (ok: bool)
      requires fs.Valid()
      modifies fs
      ensures fs.Valid()
      ensures Step(fs.tree, ok) == DeleteFolder(old(fs.tree), uuid, locked)
    {
      var dir := Combine(ExtractDirectory, uuid);
      var present := fs.DirectoryExists(dir);
      ok := true;
      if present {
        ok := fs.DeleteDirectory(dir, locked);
      }
    }

    /** CreateUuidFolder. */
    method CreateUuidFolder(uuid: string) returns (ok: bool)
      requires fs.Valid()
      modifies fs
      ensures fs.Valid()
      ensures Step(fs.tree, ok) == CreateFolder(old(fs.tree), uuid)
    {
      var dir := Combine(ExtractDirectory, uuid);
      ok := fs.CreateDirectory(dir);
    }

    /** DownloadSourceDocumentAsync: returns the URL it requests. */
    method DownloadSourceDocument(downloadPathOrUrl: string, savePath: string, fetch: Fetch, destLocked: bool)
      returns (url: string, ok: bool)
      requires fs.Valid()
      modifies fs
      ensures fs.Valid()
      ensures url == DownloadUrl(options, downloadPathOrUrl)
      ensures Step(fs.tree, ok) == Download(old(fs.tree), savePath, fetch, destLocked)
    {
      url := ResolveUrl(downloadPathOrUrl);
      var destFull := Combine(ExtractDirectory, ReplaceChar(savePath, '/', Separator));
      ok := fs.CreateDirectory(Parent(destFull));
      if !ok {
        return;
      }
      ok := StoreResponse(destFull, fetch, destLocked);
    }

    /** The response handling of DownloadSourceDocumentAsync: the body goes
        to `{dest}.part`, which replaces `dest` once the stream is complete. */
    method StoreResponse(destFull: string, fetch: Fetch, destLocked: bool) returns (ok: bool)
      requires fs.Valid()
      modifies fs
      ensures fs.Valid()
      ensures Step(fs.tree, ok) == Receive(old(fs.tree), destFull, fetch, destLocked)
    {
      if !fetch.Response? || !IsSuccessStatus(fetch.status) {
        return false;
      }
      var tmp := destFull + ".part";
      ok := fs.CreateFile(tmp, fetch.body);
      if !ok {
        return;
      }
      if !fetch.complete {
        return false;
      }
      var present := fs.FileExists(destFull);
      if present {
        ok := fs.DeleteFile(destFull, destLocked);
        if !ok {
          return;
        }
      }
      ok := fs.Move(tmp, destFull);
    }

    /** The URL DownloadSourceDocumentAsync requests: an absolute http(s)
        address as it is, otherwise the configured base joined to the
        locator. */
    method ResolveUrl(downloadPathOrUrl: string) returns (url: string)
      ensures url == DownloadUrl(options, downloadPathOrUrl)
      ensures Uris.WebAddress(downloadPathOrUrl).Some? ==> Uris.WebAddress(url) == Uris.WebAddress(downloadPathOrUrl)
    {
      match Uris.WebAddress(downloadPathOrUrl) {
        case Some(abs) =>
          url := abs;
          Uris.WebAddressStable(downloadPathOrUrl);
        case None =>
          var baseUrl := if !IsNullOrWhiteSpace(options.baseDownloadUrl) then TrimEnd(options.baseDownloadUrl.value, '/')
                         else "https://" + TrimEnd(options.awsS3BucketName, '/');
          url := baseUrl + "/" + TrimStart(downloadPathOrUrl, '/');
      }
    }

    /** GetTempFullPath. */
    method GetTempFullPath(saveName: string) returns (path: string)
      ensures path == TempFullPath(saveName)
    {
      path := Combine(ExtractDirectory, ReplaceChar(saveName, '/', Separator));
    }

    /** GetResultPdfPath: `ok` is false when creating "result" throws. */
    method GetResultPdfPath() returns (path: string, ok: bool)
      requires fs.Valid()
      modifies fs
      ensures fs.Valid()
      ensures path == ResultPdf()
      ensures Step(fs.tree, ok) == PrepareResult(old(fs.tree))
    {
      ok := fs.CreateDirectory(ResultDirectory);
      path := Combine(ResultDirectory, ResultPdfName);
    }

    /** DeleteResultPdf: never throws. */
    method DeleteResultPdf(locked: bool)
      requires fs.Valid()
      modifies fs
      ensures fs.Valid()
      ensures fs.tree == ClearResult(old(fs.tree), locked)
    {
      var pdf := Combine(ResultDirectory, ResultPdfName);
      var present := fs.FileExists(pdf);
      if present {
        var _ := fs.DeleteFile(pdf, locked);
      }
    }
  }
}
