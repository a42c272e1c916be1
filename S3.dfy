/** S3Uploader.cs: one public-read PUT of the result PDF and the public URL
    of the stored object. The AWS client and the network are outside the
    model: `accepted` says whether the store took the object. */
module S3 {
  import opened Wrappers
  import opened Strings
  import opened Disk
  import Percent

  datatype S3Options = S3Options(awsKey: string, awsSecret: string, awsS3EndPoint: string, awsS3BucketName: string)

  /** The fields of the PutObjectRequest built in UploadPdfAsync. */
  datatype PutObjectRequest = PutObjectRequest(
    bucketName: string,
    key: string,
    filePath: string,
    cannedAcl: string,
    contentType: string,
    cacheControl: string)

  /** A request together with the bytes the client read from its file. */
  datatype Put = Put(request: PutObjectRequest, body: seq<byte>)

  const PublicRead: string := "public-read"
  const PdfContentType: string := "application/pdf"
  const OneYearCache: string := "max-age=31536000"

  function Request(opts: S3Options, localPath: string, key: string): PutObjectRequest
  {
    PutObjectRequest(opts.awsS3BucketName, key, localPath, PublicRead, PdfContentType, OneYearCache)
  }

  /** `{endpoint without trailing '/'}/{bucket}/{EscapeDataString(key) with
      "%2F" put back to "/"}`. */
  function ObjectUrl(opts: S3Options, key: string): string
  {
    TrimEnd(opts.awsS3EndPoint, '/') + "/" + opts.awsS3BucketName + "/"
      + Replace(Percent.EscapeDataString(key), "%2F", "/")
  }

  /** The path of the URL escapes every key character except '/', which is
      kept as the segment separator. */
  lemma ObjectUrlEscapesKey(opts: S3Options, key: string)
    ensures ObjectUrl(opts, key) == TrimEnd(opts.awsS3EndPoint, '/') + "/" + opts.awsS3BucketName + "/" + Percent.EscapeKeepSlash(key)
    ensures '/' in Percent.EscapeKeepSlash(key) <==> '/' in key
  {
    Percent.EscapeThenRestoreSlashes(key);
    Percent.EscapeKeepSlashSlashes(key);
  }

  /** A key `{prefix}/{name}` becomes the URL of the prefix, a '/', and the
      escaped name: the uuid folder stays a path segment of the URL. */
  lemma ObjectUrlSegments(opts: S3Options, prefix: string, name: string)
    ensures ObjectUrl(opts, prefix + "/" + name) == ObjectUrl(opts, prefix) + "/" + Percent.EscapeKeepSlash(name)
  {
    ObjectUrlEscapesKey(opts, prefix + "/" + name);
    ObjectUrlEscapesKey(opts, prefix);
    KeepSlashJoin(prefix, name);
  }

  lemma KeepSlashJoin(prefix: string, name: string)
    ensures Percent.EscapeKeepSlash(prefix + "/" + name) == Percent.EscapeKeepSlash(prefix) + "/" + Percent.EscapeKeepSlash(name)
  {
    Percent.EscapeKeepSlashConcat(prefix + "/", name);
    Percent.EscapeKeepSlashConcat(prefix, "/");
    assert Percent.EscapeKeepSlash("/") == "/" by {
      assert "/"[1..] == [];
    }
  }

  /** Unescaping the URL's path gives back the key's UTF-8 bytes, so an
      ASCII key is recovered exactly. */
  lemma ObjectUrlDecodesToKey(opts: S3Options, key: string)
    ensures var prefix := TrimEnd(opts.awsS3EndPoint, '/') + "/" + opts.awsS3BucketName + "/";
      && ObjectUrl(opts, key)[..|prefix|] == prefix
      && Percent.Unescape(ObjectUrl(opts, key)[|prefix|..], false) == Percent.BytesAsChars(Percent.Utf8Bytes(key))
    ensures (forall i :: 0 <= i < |key| ==> key[i] as int < 0x80) ==>
      var prefix := TrimEnd(opts.awsS3EndPoint, '/') + "/" + opts.awsS3BucketName + "/";
      Percent.Unescape(ObjectUrl(opts, key)[|prefix|..], false) == key
  {
    var prefix := TrimEnd(opts.awsS3EndPoint, '/') + "/" + opts.awsS3BucketName + "/";
    ObjectUrlEscapesKey(opts, key);
    assert ObjectUrl(opts, key)[|prefix|..] == Percent.EscapeKeepSlash(key);
    Percent.UnescapeInvertsEscape(key, false);
    if forall i :: 0 <= i < |key| ==> key[i] as int < 0x80 {
      Percent.AsciiBytesAsChars(key);
    }
  }

  /** The endpoint's trailing slashes are dropped, so the URL never has an
      empty segment between endpoint and bucket unless the endpoint is
      nothing but slashes. */
  lemma ObjectUrlJoin(opts: S3Options, key: string)
    ensures var e := TrimEnd(opts.awsS3EndPoint, '/');
      && ObjectUrl(opts, key)[..|e| + 1] == e + "/"
      && (e == [] || e[|e| - 1] != '/')
  {
  }

  /** The uploader: reads the options once per call and the PDF through the
      shared file system. */
  class S3Uploader {
    const fs: FileSystem
    const options: S3Options

    constructor (fs: FileSystem, options: S3Options)
      ensures this.fs == fs && this.options == options
    {
      this.fs := fs;
      this.options := options;
    }

    /** UploadPdfAsync: no request leaves when the file cannot be read; the
        URL is returned only when the store accepted the object. */
    method UploadPdf(localPath: string, key: string, accepted: bool) returns (put: Option<Put>, url: Option<string>)
      ensures put.Some? <==> IsFile(fs.tree, localPath)
      ensures put.Some? ==> put.value == Put(Request(options, localPath, key), fs.tree[localPath].data)
      ensures url.Some? <==> put.Some? && accepted
      ensures url.Some? ==> url.value == ObjectUrl(options, key)
    {
      var s3Options := options;
      var readable := fs.FileExists(localPath);
      if !readable {
        return None, None;
      }
      var request := PutObjectRequest(s3Options.awsS3BucketName, key, localPath, PublicRead, PdfContentType, OneYearCache);
      put := Some(Put(request, fs.tree[localPath].data));
      if !accepted {
        return put, None;
      }
      url := Some(TrimEnd(s3Options.awsS3EndPoint, '/') + "/" + s3Options.awsS3BucketName + "/"
                  + Replace(Percent.EscapeDataString(key), "%2F", "/"));
    }
  }
}
