/** The pure string work of the consumer: BuildSourceAndSaveName, which picks
    where the document is fetched from and where it is saved, and the S3 key
    computed in UploadPdfToS3Async. */
module Locator {
  import opened Wrappers
  import opened Strings
  import opened Paths
  import Percent
  import Uris

  /** The fetch locator: the URI when the decoded name is an http(s) URL,
      otherwise the relative key built from the name as received (still
      URL-encoded), with one "//" -> "/" pass. */
  function Source(uuid: string, fileName: string, extension: string): string
  {
    match Uris.WebAddress(Percent.UrlDecode(fileName))
    case Some(url) => url
    case None => CollapseSlashes(uuid + "/" + fileName + "." + extension)
  }

  /** The save name `{uuid}/file.{extension}` after one "//" -> "/" pass. */
  function SaveName(uuid: string, extension: string): string
  {
    CollapseSlashes(uuid + "/file." + extension)
  }

  /** Consumer.BuildSourceAndSaveName. */
  function BuildSourceAndSaveName(uuid: string, fileName: string, extension: string): (string, string)
  {
    (Source(uuid, fileName, extension), SaveName(uuid, extension))
  }

  /** The base name of the uploaded PDF: the decoded name, or the LocalPath of
      the URI it denotes (any scheme), reduced to its last segment without
      its extension. */
  function BaseName(fileName: string): (b: string)
    ensures forall i :: 0 <= i < |b| ==> !IsSep(b[i])
  {
    var raw := Percent.UrlDecode(fileName);
    GetFileNameWithoutExtension(
      match Uris.TryCreate(raw)
      case Some(u) => Uris.LocalPath(u)
      case None => raw)
  }

  /** Nothing to decode, and no ':' that could make the name a URI. */
  predicate Plain(s: string)
  {
    '%' !in s && '+' !in s && ':' !in s
  }

  /** The S3 key `{uuid}/{baseName}.pdf`: the uuid, a '/', then one segment
      with no separator in it that ends in ".pdf". */
  function UploadKey(uuid: string, fileName: string): (key: string)
    ensures |key| >= |uuid| + 5
    ensures key[..|uuid|] == uuid && key[|uuid|] == '/'
    ensures key[|key| - 4..] == ".pdf"
    ensures forall i :: |uuid| < i < |key| - 4 ==> !IsSep(key[i])
  {
    var b := BaseName(fileName);
    OneSegment(uuid, b);
    uuid + "/" + b + ".pdf"
  }

  lemma OneSegment(uuid: string, b: string)
    requires forall i :: 0 <= i < |b| ==> !IsSep(b[i])
    ensures var key := uuid + "/" + b + ".pdf";
      && key[..|uuid|] == uuid && key[|uuid|] == '/' && key[|key| - 4..] == ".pdf"
      && forall i :: |uuid| < i < |key| - 4 ==> !IsSep(key[i])
  {
    var key := uuid + "/" + b + ".pdf";
    forall i | |uuid| < i < |key| - 4
      ensures !IsSep(key[i])
    {
      assert key[i] == b[i - |uuid| - 1];
    }
  }

  /** The save name keeps the uuid part and the extension part apart: the
      literal "file." between them is never touched by the "//" pass, and
      the file name plays no part in it. */
  lemma SaveNameSplit(uuid: string, extension: string)
    ensures SaveName(uuid, extension) == CollapseSlashes(uuid + "/") + "file." + CollapseSlashes(extension)
  {
    assert uuid + "/file." + extension == (uuid + "/") + ("file." + extension);
    CollapseConcat(uuid + "/", "file." + extension);
    CollapseConcat("file.", extension);
    CollapseIdentity("file.");
  }

  /** A uuid and extension without '/' give exactly `uuid/file.extension`. */
  lemma SaveNameVerbatim(uuid: string, extension: string)
    requires '/' !in uuid && '/' !in extension
    ensures SaveName(uuid, extension) == uuid + "/file." + extension
  {
    var s := uuid + "/file." + extension;
    forall i | 0 <= i < |s| - 1
      ensures s[i] != '/' || s[i + 1] != '/'
    {
      if i < |uuid| {
        assert s[i] == uuid[i];
      } else if i > |uuid| + 5 {
        assert s[i] == extension[i - |uuid| - 6];
      } else {
        assert s[i + 1] != '/';
      }
    }
    NoDoubleSlash(s);
    CollapseIdentity(s);
  }

  /** "//" survives in the save name only where the uuid or extension held a
      run of three slashes: the pass is not a normalisation. */
  lemma SaveNameDoubleSlash(uuid: string, extension: string)
    ensures Contains(SaveName(uuid, extension), "//") <==> Contains(uuid + "/file." + extension, "///")
  {
    CollapseLeavesDoubleIffTriple(uuid + "/file." + extension);
  }

  /** A name that is no URI (no ':' once decoded, and nothing to decode) is
      fetched by the relative key, the name being kept as received. */
  lemma SourceOfPlainName(uuid: string, fileName: string, extension: string)
    requires Plain(fileName)
    ensures Source(uuid, fileName, extension) == CollapseSlashes(uuid + "/" + fileName + "." + extension)
  {
    Percent.UnescapeIdentity(fileName, true);
    Uris.NoColonNoUri(fileName);
  }

  /** An encoded name whose decoding is a canonical http(s) URL is fetched
      from exactly that URL. */
  lemma SourceOfWebUrl(uuid: string, fileName: string, extension: string, scheme: string, host: string, path: string)
    requires Uris.IsWebScheme(scheme)
    requires host != [] && '/' !in host && '?' !in host && '#' !in host
    requires path != [] && path[0] == '/' && '?' !in path && '#' !in path
    requires !Uris.IsLws(path[|path| - 1])
    requires Percent.UrlDecode(fileName) == scheme + "://" + host + path
    ensures Source(uuid, fileName, extension) == scheme + "://" + host + path
  {
    Uris.AuthorityUrlVerbatim(scheme, host, path);
  }

  /** A name that decodes to an http(s) URI is fetched from the URI's
      canonical text, and that text parses back to the same URI. */
  lemma SourceOfUri(uuid: string, fileName: string, extension: string, u: Uris.Uri)
    requires Uris.TryCreate(Percent.UrlDecode(fileName)) == Some(u) && Uris.IsHttp(u)
    ensures Source(uuid, fileName, extension) == Uris.ToString(u)
    ensures Uris.TryCreate(Source(uuid, fileName, extension)) == Some(u)
  {
    var decoded := Percent.UrlDecode(fileName);
    assert Uris.WebAddress(decoded) == Some(Uris.ToString(u));
    assert Uris.WellFormed(u) by {
      Uris.TryCreateWellFormed(decoded);
    }
    Uris.ToStringReparses(u);
  }

  /** For a plain name the key's base is the name without its last
      extension, whatever directories or dots it holds. */
  lemma UploadKeyOfPlainName(uuid: string, dir: string, name: string, ext: string)
    requires dir == [] || IsSep(dir[|dir| - 1])
    requires NoSeparator(name) && NoSeparator(ext) && '.' !in ext
    requires Plain(dir) && Plain(name) && Plain(ext)
    ensures UploadKey(uuid, dir + name + "." + ext) == uuid + "/" + name + ".pdf"
  {
    var f := dir + name + "." + ext;
    forall i | 0 <= i < |f|
      ensures f[i] != '%' && f[i] != '+' && f[i] != ':'
    {
      if i < |dir| {
        assert f[i] == dir[i];
      } else if i < |dir| + |name| {
        assert f[i] == name[i - |dir|];
      } else if i > |dir| + |name| {
        assert f[i] == ext[i - |dir| - |name| - 1];
      }
    }
    Percent.UnescapeIdentity(f, true);
    Uris.NoColonNoUri(f);
    FileNameWithoutExtensionOf(dir, name, ext);
  }

  /** For a URI of any scheme with an authority, the key's base comes from
      the last segment of its path, not from the text before it. */
  lemma UploadKeyOfUri(uuid: string, fileName: string, scheme: string, host: string, dir: string, name: string, ext: string)
    requires Uris.ValidScheme(scheme) && ToLowerInvariant(scheme) == scheme
    requires host != [] && '/' !in host && '?' !in host && '#' !in host
    requires dir != [] && dir[0] == '/' && dir[|dir| - 1] == '/'
    requires NoSeparator(name) && NoSeparator(ext) && '.' !in ext
    requires '%' !in dir + name + ext && '?' !in dir + name + ext && '#' !in dir + name + ext
    requires ext == [] || !Uris.IsLws(ext[|ext| - 1])
    requires Percent.UrlDecode(fileName) == scheme + "://" + host + (dir + name + "." + ext)
    ensures UploadKey(uuid, fileName) == uuid + "/" + name + ".pdf"
  {
    var path := dir + name + "." + ext;
    DottedPathChars(dir, name, ext);
    DottedPathEnd(dir, name, ext);
    Uris.AuthorityUrlVerbatim(scheme, host, path);
    BaseNameOfUri(fileName, Uris.Uri(scheme, Some(host), path, ""), dir, name, ext);
  }

  /** Joining with a '.' adds no '%', '?' or '#'. */
  lemma DottedPathChars(dir: string, name: string, ext: string)
    ensures var path, plain := dir + name + "." + ext, dir + name + ext;
      forall i :: 0 <= i < |path| && path[i] in {'%', '?', '#'} ==> path[i] in plain
  {
    var path, plain := dir + name + "." + ext, dir + name + ext;
    forall i | 0 <= i < |path| && path[i] in {'%', '?', '#'}
      ensures path[i] in plain
    {
      if i < |dir| + |name| {
        assert path[i] == plain[i];
      } else {
        assert path[i] == plain[i - 1];
      }
    }
  }

  /** The last character of name + "." + ext is that of ext, or the '.'. */
  lemma DottedPathEnd(dir: string, name: string, ext: string)
    requires ext == [] || !Uris.IsLws(ext[|ext| - 1])
    ensures var path := dir + name + "." + ext; !Uris.IsLws(path[|path| - 1])
  {
    var path := dir + name + "." + ext;
    if ext != [] {
      assert path[|path| - 1] == ext[|ext| - 1];
    }
  }

  lemma BaseNameOfUri(fileName: string, u: Uris.Uri, dir: string, name: string, ext: string)
    requires Uris.TryCreate(Percent.UrlDecode(fileName)) == Some(u)
    requires u.path == dir + name + "." + ext && '%' !in u.path
    requires dir == [] || IsSep(dir[|dir| - 1])
    requires dir != [] || !HasDriveRoot(name)
    requires NoSeparator(name) && NoSeparator(ext) && '.' !in ext
    ensures BaseName(fileName) == name
  {
    Percent.UnescapeIdentity(u.path, false);
    FileNameWithoutExtensionOf(dir, name, ext);
  }

  /** A name sent as Uri.EscapeDataString of a canonical http(s) URL (the
      form of `https%3A%2F%2Fex.com%2Fq%2Freport.docx`) is fetched from that
      URL, and the key's base is the last segment of the URL's path. */
  lemma EncodedUrlMessage(uuid: string, extension: string, url: string, scheme: string, host: string, dir: string, name: string, ext: string)
    requires Uris.IsWebScheme(scheme)
    requires host != [] && '/' !in host && '?' !in host && '#' !in host
    requires dir != [] && dir[0] == '/' && dir[|dir| - 1] == '/'
    requires NoSeparator(name) && NoSeparator(ext) && '.' !in ext
    requires '%' !in dir + name + ext && '?' !in dir + name + ext && '#' !in dir + name + ext
    requires ext == [] || !Uris.IsLws(ext[|ext| - 1])
    requires url == scheme + "://" + host + (dir + name + "." + ext)
    requires forall i :: 0 <= i < |url| ==> url[i] as int < 0x80
    ensures Source(uuid, Percent.EscapeDataString(url), extension) == url
    ensures UploadKey(uuid, Percent.EscapeDataString(url)) == uuid + "/" + name + ".pdf"
  {
    var path := dir + name + "." + ext;
    var encoded := Percent.EscapeDataString(url);
    Percent.UrlDecodeInvertsDataEscapeAscii(url);
    DottedPathChars(dir, name, ext);
    DottedPathEnd(dir, name, ext);
    SourceOfWebUrl(uuid, encoded, extension, scheme, host, path);
    Uris.WebSchemeValid(scheme);
    UploadKeyOfUri(uuid, encoded, scheme, host, dir, name, ext);
  }

  /** A plain name whose encoded form ends in "%2e" (a '.') keeps its own
      extension in the key: `My Report.pdf%2e` with uuid b3 gives
      `b3/My Report.pdf.pdf`. */
  lemma UploadKeyOfTrailingDot(uuid: string, name: string)
    requires Plain(name) && NoSeparator(name)
    ensures UploadKey(uuid, name + "%2e") == uuid + "/" + name + ".pdf"
  {
    var decoded := name + ".";
    assert Percent.UrlDecode(name + "%2e") == decoded by {
      Percent.UnescapePlainPrefix(name, "%2e", true);
      assert Percent.Unescape("%2e", true) == ".";
    }
    Uris.NoColonNoUri(decoded);
    assert decoded == [] + name + "." + [];
    FileNameWithoutExtensionOf([], name, []);
  }

  /** A '+' in front of an encoded URL decodes to a space, which System.Uri
      ignores: `+https%3A%2F%2Fx%2Fy.docx` is still fetched from
      `https://x/y.docx`, and keyed by its last path segment. */
  lemma SpaceBeforeEncodedUrl(uuid: string, extension: string, url: string, scheme: string, host: string, dir: string, name: string, ext: string)
    requires Uris.IsWebScheme(scheme)
    requires host != [] && '/' !in host && '?' !in host && '#' !in host
    requires dir != [] && dir[0] == '/' && dir[|dir| - 1] == '/'
    requires NoSeparator(name) && NoSeparator(ext) && '.' !in ext
    requires '%' !in dir + name + ext && '?' !in dir + name + ext && '#' !in dir + name + ext
    requires ext == [] || !Uris.IsLws(ext[|ext| - 1])
    requires url == scheme + "://" + host + (dir + name + "." + ext)
    requires forall i :: 0 <= i < |url| ==> url[i] as int < 0x80
    ensures Source(uuid, "+" + Percent.EscapeDataString(url), extension) == url
    ensures UploadKey(uuid, "+" + Percent.EscapeDataString(url)) == uuid + "/" + name + ".pdf"
  {
    var encoded := Percent.EscapeDataString(url);
    EncodedUrlParses(url, scheme, host, dir, name, ext);
    SpacedUrlParses(url, "+" + encoded);
    EncodedUrlMessage(uuid, extension, url, scheme, host, dir, name, ext);
    SameUriSameKeys(uuid, extension, "+" + encoded, encoded);
  }

  /** The decoded escaped URL parses back as the http(s) URI it spells. */
  lemma EncodedUrlParses(url: string, scheme: string, host: string, dir: string, name: string, ext: string)
    requires Uris.IsWebScheme(scheme)
    requires host != [] && '/' !in host && '?' !in host && '#' !in host
    requires dir != [] && dir[0] == '/' && dir[|dir| - 1] == '/'
    requires NoSeparator(name) && NoSeparator(ext) && '.' !in ext
    requires '%' !in dir + name + ext && '?' !in dir + name + ext && '#' !in dir + name + ext
    requires ext == [] || !Uris.IsLws(ext[|ext| - 1])
    requires url == scheme + "://" + host + (dir + name + "." + ext)
    requires forall i :: 0 <= i < |url| ==> url[i] as int < 0x80
    ensures Percent.UrlDecode(Percent.EscapeDataString(url)) == url
    ensures Uris.TryCreate(url) == Some(Uris.Uri(scheme, Some(host), dir + name + "." + ext, ""))
    ensures Uris.IsHttp(Uris.Uri(scheme, Some(host), dir + name + "." + ext, ""))
  {
    Percent.UrlDecodeInvertsDataEscapeAscii(url);
    DottedPathChars(dir, name, ext);
    DottedPathEnd(dir, name, ext);
    Uris.WebSchemeValid(scheme);
    Uris.AuthorityUrlVerbatim(scheme, host, dir + name + "." + ext);
  }

  /** "+" + EscapeDataString(url) decodes to " " + url, which parses as url. */
  lemma SpacedUrlParses(url: string, fileName: string)
    requires forall i :: 0 <= i < |url| ==> url[i] as int < 0x80
    requires fileName == "+" + Percent.EscapeDataString(url)
    ensures Uris.TryCreate(Percent.UrlDecode(fileName)) == Uris.TryCreate(url)
  {
    Percent.UrlDecodeInvertsDataEscapeAscii(url);
    assert fileName[1..] == Percent.EscapeDataString(url);
    assert Percent.UrlDecode(fileName) == " " + url + [];
    Uris.LwsAroundIgnored(" ", url, []);
  }

  /** Two names whose decodings parse as the same http(s) URI are fetched
      from the same place and uploaded under the same key. */
  lemma SameUriSameKeys(uuid: string, extension: string, f: string, g: string)
    requires Uris.TryCreate(Percent.UrlDecode(f)) == Uris.TryCreate(Percent.UrlDecode(g))
    requires Uris.TryCreate(Percent.UrlDecode(f)).Some? && Uris.IsHttp(Uris.TryCreate(Percent.UrlDecode(f)).value)
    ensures Source(uuid, f, extension) == Source(uuid, g, extension)
    ensures UploadKey(uuid, f) == UploadKey(uuid, g)
  {
    var df, dg := Percent.UrlDecode(f), Percent.UrlDecode(g);
    assert Uris.WebAddress(df) == Uris.WebAddress(dg);
    assert BaseName(f) == BaseName(g);
  }

  /** A drive-relative Windows name such as `C:Report.docx` is no URI: it is
      fetched by the relative key with the drive part kept, while the S3 key
      drops the drive root along with the extension. */
  lemma DriveNameKeys(uuid: string, extension: string, drive: string, name: string, ext: string)
    requires |drive| == 2 && HasDriveRoot(drive)
    requires NoSeparator(name) && NoSeparator(ext) && '.' !in ext
    requires Plain(name) && Plain(ext)
    ensures Source(uuid, drive + name + "." + ext, extension) == CollapseSlashes(uuid + "/" + (drive + name + "." + ext) + "." + extension)
    ensures UploadKey(uuid, drive + name + "." + ext) == uuid + "/" + name + ".pdf"
  {
    var f := drive + name + "." + ext;
    DriveNameDecodes(drive, name, ext);
    Uris.DriveRootNoUri(f);
    FileNameWithoutExtensionAfterDrive(drive, name, ext);
  }

  lemma DriveNameDecodes(drive: string, name: string, ext: string)
    requires |drive| == 2 && HasDriveRoot(drive)
    requires Plain(name) && Plain(ext)
    ensures var f := drive + name + "." + ext;
      Percent.UrlDecode(f) == f && |f| >= 2 && f[1] == ':' && Uris.IsSchemeStart(f[0])
  {
    var f := drive + name + "." + ext;
    forall i | 0 <= i < |f|
      ensures f[i] != '%' && f[i] != '+'
    {
      if i < 2 {
        assert f[i] == drive[i];
      } else if i < 2 + |name| {
        assert f[i] == name[i - 2];
      } else if i > 2 + |name| {
        assert f[i] == ext[i - |name| - 3];
      }
    }
    Percent.UnescapeIdentity(f, true);
    assert f[1] == ':' && f[0] == drive[0];
  }
}
