# ms-converter, modelled in Dafny

ms-converter is a queue worker. For each job message it does five things:

- It downloads an Office document (by relative key or by absolute http(s) URL).
- It converts the document to PDF through Word or PowerPoint automation.
- It uploads the PDF to S3-compatible storage under `{uuid}/{baseName}.pdf`.
- It cleans up its local working files.
- It acks or nacks the delivery.

This project models the handling of one delivery and every routine it drives.

- **Message**: `Consumer.ParseMessage`. The parsed JSON body is the `Document` datatype. The three key look-ups follow `json[key]?.ToString()`.
- **Locator**: `Consumer.BuildSourceAndSaveName` and the S3 key expression of `Consumer.UploadPdfToS3Async`.
  - The .NET routines they use are modelled concretely:
    - `String.Replace` as one left-to-right, non-overlapping pass (**Strings**);
    - `WebUtility.UrlDecode` and `Uri.EscapeDataString`, per RFC 3986 sections 2.1 and 2.3 (**Percent**);
    - `Uri.TryCreate`, `Uri.ToString` and `Uri.LocalPath`, over the generic syntax of RFC 3986 section 3 (**Uris**);
    - `Path.Combine`, `GetFileName`, `GetFileNameWithoutExtension`, `GetExtension` and `GetDirectoryName`, and the way Windows resolves `.` and `..` segments when a path is used (**Paths**).
- **Disk**: the local file system, as a map from paths to directories and files, with a `FileSystem` class whose methods update it in place. Paths are relative to `AppContext.BaseDirectory`, `\` is the separator, and paths are compared as written.
- **Storage**: the `Storage` class (`DeleteUuidFolder`, `CreateUuidFolder`, `DownloadSourceDocumentAsync`, `GetTempFullPath`, `GetResultPdfPath`, `DeleteResultPdf`).
  - Each method is proved equal to a function on the file system.
  - Lemmas about those functions state what the methods promise.
- **Converter**: `Converter.ConvertToPdf`, which dispatches on the extension.
  - `ConvertWord` and `ConvertPowerPoint` are imperative methods. They assign the nullable handles step by step and dispose them in `finally`.
  - Each Office call is an abstract step that may throw (`OfficeRun.fault`).
- **S3**: `S3Uploader.UploadPdfAsync`, covering the `PutObjectRequest` fields and the public URL it returns.
- **Consumer**: `OnReceivedAsync`, in two forms.
  - A function `Handle` gives the calls made (a trace of `Effect`s), the file system left behind and the object sent to the store.
  - A `Consumer` class method `OnReceived` runs the same try/catch/finally step by step over the shared `FileSystem`, and is proved equal to `Handle`.
  - The outside world on one delivery is a `World` value: HTTP response, Office faults, S3 acceptance, and locked files.

Where the service's written design and its code differ, the model follows the code:

- **Empty values.** Message values are not checked for emptiness. An empty string is accepted, and a JSON `null` reads as `""` (`Message.NullReadsAsEmpty`).
- **No error classification, no outcome message.**
  - Every failure nacks with `requeue: false`, and a missing PDF is simply "not success" (`Consumer.OneDecisionLast`).
  - The status publisher is never called.
- **No HTML output.** Only Word (`doc`, `docx`) and PowerPoint (`ppt`, `pptx`) are converted. Every other extension is a silent no-op.
- **Any http(s) URL is a source.** Its path need not name a file.
- **The result PDF is always cleared.** The finally block deletes `result\file.pdf` whatever the outcome (`Consumer.ResultPdfCleared`).
- **The key keeps the name's own extension.** It is `uuid/` plus `GetFileNameWithoutExtension` of the decoded name. A name sent as `My Report.pdf%2e` with uuid `b3` is stored as `b3/My Report.pdf.pdf`, not `b3/My Report.pdf` (`Locator.UploadKeyOfTrailingDot`).

The model also proves several consequences of the code as written:

- **Word handle leak.** If setting `Visible` in Word's object initializer throws, the application has started but `word` is still null, so it is never disposed (`Converter.LaunchedButNotDisposed`). PowerPoint has no such gap (`Converter.PowerPointAlwaysDisposed`).
- **Stale PDF upload.** For an extension that is not converted, a `result\file.pdf` left over from before is uploaded as this job's result (`Consumer.StalePdfUploaded`).
- **Whitespace uuid.** A uuid made only of white space above U+0020, such as U+00A0 or U+3000, is a valid folder name. Its workspace is created, but the cleanup guard `IsNullOrWhiteSpace` skips deleting it, so it survives the delivery (`Consumer.WhiteSpaceUuidLeaksWorkspace`). Other white space goes wrong in other ways on Windows, which the tree does not model. Windows trims trailing spaces, so a uuid of spaces names `temp` itself and its reset deletes every workspace. Tab, CR and LF are invalid in file names, so creating the folder throws.
- **Empty uuid.** It saves at `\file.{ext}`, a rooted path, which `Path.Combine` does not put under `temp` (`Consumer.EmptyUuidSavesAtRoot`). Its workspace is all of `temp` (`Storage.EmptyUuidIsWholeWorkspace`).
- **Dot segments in the uuid.** `Path.Combine` keeps them, and Windows resolves them when the path is used.
  - The uuid `..` names `temp\..`, which is the base directory holding both `temp` and `result` (`Storage.DotDotUuidIsBaseDirectory`). Resetting or cleaning up that "workspace" deletes the base directory's contents.
  - The uuid `..\result` with extension `pdf` downloads onto `result\file.pdf` (`Storage.ParentUuidEscapesWorkspace`).
- **Drive-relative names.** `C:Report.docx` is no URI, so it is fetched by the relative key `{uuid}/C:Report.docx.{ext}`. Its S3 key is `{uuid}/Report.pdf`, because `GetFileName` cuts the drive root (`Locator.DriveNameKeys`).
- **A leading `+`.** It decodes to a space, which `Uri.TryCreate` ignores, so `+https%3A%2F%2Fx%2Fy.docx` is fetched from `https://x/y.docx` (`Locator.SpaceBeforeEncodedUrl`).
- **Empty base URL and bucket.** A blank base URL and an empty bucket give download URLs starting `https:///` (`Storage.BlankBaseUsesBucket`).

## Model

| member | source | states |
|---|---|---|
| Message.AsText | ms-converter/service/Consumer.cs:148-150 | `JToken.ToString()`: a JSON string is returned unchanged, a JSON null as "" |
| Message.Field | ms-converter/service/Consumer.cs:148 | a look-up fails exactly when the key is absent, and the error names that key; otherwise it gives the value's text |
| Message.ParseFailsIff | ms-converter/service/Consumer.cs:145-152 | parsing fails iff the body is not a JSON object or one of uuid, urlEncodedFileName, extension is absent; the first absent key in that order is the one reported |
| Message.ParseMessage | ms-converter/service/Consumer.cs:145-152 | `ParseMessage`: a body that is no JSON object fails with `NotAnObject`; otherwise uuid, urlEncodedFileName and extension are looked up in that order, and the first absent key is the error. Its properties are `Message.ParseFailsIff`, `Message.ParseReturnsValues` and `Message.NullReadsAsEmpty` |
| Message.ParseReturnsValues | ms-converter/service/Consumer.cs:148-151 | with all three keys present, parsing returns exactly their texts |
| Message.StringValuesUnchanged | ms-converter/service/Consumer.cs:151 | string values, empty ones included, come back unchanged |
| Message.NullReadsAsEmpty | ms-converter/service/Consumer.cs:148 | a null uuid is not an error; it parses as the empty uuid |
| Locator.Source | ms-converter/service/Consumer.cs:156-158 | the fetch locator: the canonical text when the decoded name is an http(s) URI, otherwise the relative key `uuid/name.extension` built from the name as received, after one "//" pass. Its properties are `Locator.SourceOfUri`, `Locator.SourceOfWebUrl`, `Locator.SourceOfPlainName` and `Locator.DriveNameKeys` |
| Locator.SaveName | ms-converter/service/Consumer.cs:159 | the save name `uuid/file.extension` after one "//" pass. Its properties are `Locator.SaveNameSplit`, `Locator.SaveNameVerbatim` and `Locator.SaveNameDoubleSlash` |
| Locator.BuildSourceAndSaveName | ms-converter/service/Consumer.cs:154-161 | `BuildSourceAndSaveName`: the pair of `Locator.Source` and `Locator.SaveName`, each computed from the message fields |
| Locator.SaveNameSplit | ms-converter/service/Consumer.cs:159 | the save name is the collapsed `uuid/`, then `file.`, then the collapsed extension; the file name plays no part |
| Locator.SaveNameVerbatim | ms-converter/service/Consumer.cs:159 | without '/' in uuid and extension, the save name is exactly `uuid/file.extension` |
| Locator.SaveNameDoubleSlash | ms-converter/service/Consumer.cs:159 | "//" remains in the save name iff the raw text held "///": the replace is one pass, not a normalisation |
| Locator.SourceOfPlainName | ms-converter/service/Consumer.cs:156-158 | a name with nothing to decode and no ':' is fetched by the relative key `uuid/name.extension` (one "//" pass), the name as received |
| Locator.SourceOfWebUrl | ms-converter/service/Consumer.cs:156-158 | a name that decodes to a canonical http(s) URL is fetched from exactly that URL |
| Locator.BaseName | ms-converter/service/Consumer.cs:165-168 | the base name never contains a path separator |
| Locator.UploadKey | ms-converter/service/Consumer.cs:169 | the key is the uuid, one '/', one segment without separators, then ".pdf" |
| Locator.UploadKeyOfPlainName | ms-converter/service/Consumer.cs:165-169 | for a plain name, the key's base is the last path segment without its last extension |
| Locator.UploadKeyOfUri | ms-converter/service/Consumer.cs:165-169 | for a URI of any scheme, the key's base is the last segment of the URI's path without its extension |
| Locator.EncodedUrlMessage | ms-converter/service/Consumer.cs:156-169 | a job naming `EscapeDataString(url)` fetches `url` and uploads under the last path segment of `url` |
| Locator.UploadKeyOfTrailingDot | ms-converter/service/Consumer.cs:165-169 | `name%2e` keeps `name`'s own extension in the key |
| Locator.SourceOfUri | ms-converter/service/Consumer.cs:156-158 | a name that decodes to an http(s) URI is fetched from the URI's canonical text, which parses back to the same URI |
| Locator.SpacedUrlParses | ms-converter/service/Consumer.cs:156-157 | `+` followed by `EscapeDataString(url)` parses as `url` itself |
| Locator.SpaceBeforeEncodedUrl | ms-converter/service/Consumer.cs:156-169 | a job naming `+` and `EscapeDataString(url)` still fetches `url` and uploads under the last path segment of `url` |
| Locator.DriveNameKeys | ms-converter/service/Consumer.cs:156-169 | `X:name.ext` is fetched by the relative key with the drive part kept, and uploaded as `{uuid}/name.pdf` |
| Strings.Replace | ms-converter/service/Consumer.cs:158-159 | `String.Replace` with a non-empty pattern: one left-to-right pass over non-overlapping occurrences; replaced text is not scanned again. Its behaviour on "//" is stated by `Strings.CollapseIdentity`, `Strings.CollapseConcat` and `Strings.CollapseLeavesDoubleIffTriple` |
| Strings.CollapseSlashes | ms-converter/service/Consumer.cs:158-159 | the `.Replace("//", "/")` pass over locators and save names, stated by `Strings.CollapseIdentity`, `Strings.CollapseConcat`, `Strings.CollapseLeavesDoubleIffTriple` and `Strings.CollapseKeepsHead` |
| Strings.IsNullOrWhiteSpace | ms-converter/service/Consumer.cs:129 | `string.IsNullOrWhiteSpace`: null, or every character in `char.IsWhiteSpace`'s set. Its effect is stated by `Consumer.BlankUuidNotCleaned`, `Consumer.WhiteSpaceUuidLeaksWorkspace` and `Storage.BlankBaseUsesBucket` |
| Strings.CollapseIdentity | ms-converter/service/Consumer.cs:159 | `Replace("//", "/")` leaves text without "//" unchanged |
| Strings.CollapseConcat | ms-converter/service/Consumer.cs:158 | the replace pass distributes over a join that does not put two slashes together |
| Strings.CollapseLeavesDoubleIffTriple | ms-converter/service/Consumer.cs:158 | after one pass, "//" remains iff the input held "///" |
| Strings.CollapseKeepsHead | ms-converter/service/Consumer.cs:158 | the pass keeps the first character |
| Strings.TrimStart | ms-converter/service/Storage.cs:47 | the result is a suffix of the input, starts with another character, and only that character was removed |
| Strings.TrimEnd | ms-converter/service/Storage.cs:46 | the result is a prefix of the input, ends with another character, and only that character was removed |
| Percent.EscapeDataString | ms-converter/service/S3Uploader.cs:38 | `Uri.EscapeDataString`: every character outside the unreserved set becomes the percent-encoding of its UTF-8 bytes. Its properties are `Percent.EscapeDataStringConcat`, `Percent.EscapeThenRestoreSlashes` and the inverse lemmas `Percent.UnescapeInvertsDataEscape` and `Percent.UrlDecodeInvertsDataEscapeAscii` |
| Percent.Unescape | ms-converter/service/Consumer.cs:156 | the decoding loop: '+' is a space when asked, `%XY` with two hex digits is one character, anything else is copied. Its properties are `Percent.UnescapeIdentity`, `Percent.UnescapePlainPrefix` and `Percent.UnescapeInvertsEscape` |
| Percent.UrlDecode | ms-converter/service/Consumer.cs:156 | `WebUtility.UrlDecode`: `Percent.Unescape` with '+' read as a space. It inverts `EscapeDataString` on ASCII text (`Percent.UrlDecodeInvertsDataEscapeAscii`) |
| Percent.HexDigit | ms-converter/service/S3Uploader.cs:38 | the digit written for a nibble reads back as that nibble and is never '%', '+' or '/' |
| Percent.Utf8 | ms-converter/service/S3Uploader.cs:38 | a character is 1 to 4 UTF-8 bytes; one byte exactly for ASCII, and only bytes of 0x80 or more otherwise |
| Percent.Utf8RoundTrip | ms-converter/service/S3Uploader.cs:38 | decoding a character's UTF-8 bytes gives the character back |
| Percent.EscapeDataStringConcat | ms-converter/service/S3Uploader.cs:38 | `EscapeDataString` escapes character by character |
| Percent.NoSlashInEncoding | ms-converter/service/S3Uploader.cs:38 | a percent-encoded byte never contains '/' |
| Percent.EscapeThenRestoreSlashes | ms-converter/service/S3Uploader.cs:38 | escaping then turning "%2F" back into "/" escapes every character but '/' |
| Percent.EscapeKeepSlashConcat | ms-converter/service/S3Uploader.cs:38 | that escape distributes over concatenation |
| Percent.EscapeKeepSlashSlashes | ms-converter/service/S3Uploader.cs:38 | the escaped key holds a '/' iff the key does |
| Percent.UnescapeInvertsEscape | ms-converter/service/S3Uploader.cs:38 | unescaping the URL path gives back the key's UTF-8 bytes |
| Percent.UrlDecodeInvertsEscapeAscii | ms-converter/service/S3Uploader.cs:38 | `UrlDecode` of the escaped ASCII key is the key |
| Percent.UnescapeInvertsDataEscape | ms-converter/service/Consumer.cs:156 | `UrlDecode` inverts `EscapeDataString` up to UTF-8 bytes |
| Percent.UrlDecodeInvertsDataEscapeAscii | ms-converter/service/Consumer.cs:156 | `UrlDecode(EscapeDataString(s)) == s` for ASCII `s` |
| Percent.UnescapeIdentity | ms-converter/service/Consumer.cs:156 | text without '%' or '+' decodes to itself |
| Percent.UnescapePlainPrefix | ms-converter/service/Consumer.cs:156 | a plain prefix passes through decoding unchanged |
| Uris.TryCreate | ms-converter/service/Consumer.cs:157 | `Uri.TryCreate(s, UriKind.Absolute)`: white space at the ends is trimmed, then a scheme up to the first ':' and the hierarchical part are parsed. Its properties are `Uris.LwsAroundIgnored`, `Uris.TryCreateWellFormed`, `Uris.SchemeSplit`, `Uris.NoColonNoUri` and `Uris.DriveRootNoUri` |
| Uris.ToString | ms-converter/service/Consumer.cs:157-158 | `Uri.ToString()`: scheme, ':', "//" and the authority when there is one, then path and tail. `Uris.ToStringReparses` proves it parses back to the same URI, and `Uris.ToStringTrimmed` that nothing is trimmed from it |
| Uris.LocalPath | ms-converter/service/Consumer.cs:167 | `Uri.LocalPath` of a non-file URI: the path with its `%XY` escapes decoded, used by `Locator.UploadKeyOfUri` |
| Uris.WebAddress | ms-converter/service/Consumer.cs:157 | a string is used as a URL iff, once white space at its ends is dropped, it parses as an absolute URI with scheme http or https |
| Uris.TrimLws | ms-converter/service/Consumer.cs:157 | the trimmed text has no white space at either end and only characters of the input; it is a prefix of a text that does not start with white space, and the text itself when neither end is white space |
| Uris.LwsAroundIgnored | ms-converter/service/Consumer.cs:157 | white space put before or after a text does not change the URI it parses as |
| Uris.DriveRootNoUri | ms-converter/service/Consumer.cs:167 | a text that starts with a letter and ':' (a drive root) is never an absolute URI |
| Uris.ToStringTrimmed | ms-converter/service/Consumer.cs:157-158 | the text `ToString()` gives has no white space to trim |
| Uris.TryCreateWellFormed | ms-converter/service/Consumer.cs:157 | every URI the parser produces is well formed |
| Uris.SchemeSplit | ms-converter/service/Consumer.cs:157 | `scheme:` followed by the rest parses as the hierarchical part after that scheme |
| Uris.ToStringReparses | ms-converter/service/Consumer.cs:157-158 | `abs.ToString()` parses back to the same URI |
| Uris.AuthorityUrlVerbatim | ms-converter/service/Consumer.cs:157-158 | a canonical `scheme://host/path` parses to its parts and prints back unchanged |
| Uris.NoColonNoUri | ms-converter/service/Consumer.cs:157 | text without ':' is never an absolute URI |
| Uris.WebAddressStable | ms-converter/service/Storage.cs:40-43 | the URL the consumer picks is picked again unchanged by the download |
| Uris.LowerSchemeValid | ms-converter/service/Consumer.cs:157 | lower-casing keeps a scheme valid and is idempotent |
| Paths.Combine | ms-converter/service/Storage.cs:21 | an empty second part gives the first, a rooted one replaces it, and a first part not ending in a separator gets exactly one before the second |
| Paths.Parent | ms-converter/service/Storage.cs:52 | the directory name is a strictly shorter prefix ending just before the last separator |
| Paths.GetFileName | ms-converter/service/Consumer.cs:166 | the file name is a suffix without separators, preceded by a separator or by a drive root `X:`; it never reaches into a drive root |
| Paths.LastSegment | ms-converter/service/Converter.cs:11 | the text after the last separator, holding none |
| Paths.GetFileNameWithoutExtension | ms-converter/service/Consumer.cs:166 | the result holds no separator |
| Paths.GetExtension | ms-converter/service/Converter.cs:11 | the extension is empty, or a '.' followed by at least one character and no further '.' or separator |
| Paths.FileNameOf | ms-converter/service/Consumer.cs:166 | `dir` + `name` has file name `name`, unless `name` alone starts with a drive root |
| Paths.FileNameWithoutExtensionOf | ms-converter/service/Consumer.cs:166 | `dir` + `name.ext` reduces to `name`, unless `name` alone starts with a drive root |
| Paths.FileNameAfterDrive | ms-converter/service/Consumer.cs:166 | after a drive root, a name without separators is the whole file name |
| Paths.FileNameWithoutExtensionAfterDrive | ms-converter/service/Consumer.cs:166 | `X:name.ext` reduces to `name` |
| Paths.ExtensionOf | ms-converter/service/Converter.cs:11 | `dir` + `name.ext` has extension `.ext` |
| Paths.NormalizePlain | ms-converter/service/Storage.cs:21 | segments that are not empty, `.`, `..` or ending in '.' or ' ' resolve to themselves |
| Paths.NormalizeDotDot | ms-converter/service/Storage.cs:21 | a `..` right after a plain segment cancels it |
| Paths.ClimbBack | ms-converter/service/Storage.cs:21-24 | `a\..` resolves to the base directory |
| Paths.ClimbOut | ms-converter/service/Storage.cs:51 | `a\..\b` resolves as `b` does |
| Paths.ResolvePlainPair | ms-converter/service/Storage.cs:21 | `a\b` of two plain segments resolves to itself |
| Disk.RemoveTree | ms-converter/service/Storage.cs:24 | a recursive delete removes the directory and all below it, and nothing else |
| Disk.MakeDirs | ms-converter/service/Storage.cs:32 | `CreateDirectory` succeeds iff no ancestor is a file, and then adds exactly the missing ancestors as directories |
| Disk.WriteFile | ms-converter/service/Storage.cs:59 | creating a file needs an existing parent and no directory at the path, and changes that path only |
| Disk.RemoveFile | ms-converter/service/Storage.cs:63 | deleting a file removes that path only |
| Disk.MoveFile | ms-converter/service/Storage.cs:64 | a move needs a source file and a free destination with an existing parent; it relocates the bytes, nothing else changes |
| Disk.RemoveTreeIdempotent | ms-converter/service/Storage.cs:24 | deleting a tree twice equals deleting it once |
| Disk.FreshDirectoryEmpty | ms-converter/service/Storage.cs:19-34 | a directory deleted and then created is present and empty |
| Disk.MakeDirsConsistent | ms-converter/service/Storage.cs:32 | creating directories keeps every entry inside an existing directory |
| Disk.MoveFileConsistent | ms-converter/service/Storage.cs:64 | so does a move |
| Disk.FileSystem.DirectoryExists | ms-converter/service/Storage.cs:22 | true iff a directory is at the path |
| Disk.FileSystem.FileExists | ms-converter/service/Storage.cs:78 | true iff a file is at the path |
| Disk.FileSystem.DeleteDirectory | ms-converter/service/Storage.cs:24 | a recursive delete of an existing, unlocked directory; otherwise it throws and nothing changes |
| Disk.FileSystem.CreateDirectory | ms-converter/service/Storage.cs:32 | `Directory.CreateDirectory` as `MakeDirs` |
| Disk.FileSystem.CreateFile | ms-converter/service/Storage.cs:59 | `File.Create` plus the copy, as `WriteFile` |
| Disk.FileSystem.DeleteFile | ms-converter/service/Storage.cs:63 | `File.Delete` throws on a directory or a locked file, and is a no-op for a missing one |
| Disk.FileSystem.Move | ms-converter/service/Storage.cs:64 | `File.Move` as `MoveFile` |
| Storage.UuidFolder | ms-converter/service/Storage.cs:21 | `Path.Combine(ExtractDirectory, uuid)`. Its properties are `Storage.SameFolder`, `Storage.EmptyUuidIsWholeWorkspace` and `Storage.DotDotUuidIsBaseDirectory` |
| Storage.TempFullPath | ms-converter/service/Storage.cs:67 | `GetTempFullPath`: `temp` combined with the save name, '/' made the separator. Its properties are `Storage.TempPathOfPlainJob` and `Consumer.EmptyUuidSavesAtRoot` |
| Storage.DownloadBase | ms-converter/service/Storage.cs:46 | the base of a relative URL: `BaseDownloadUrl` unless it is null or blank, else `https://` and the bucket, trailing '/' trimmed (`Storage.BlankBaseUsesBucket`, `Storage.DownloadBaseEnd`) |
| Storage.DownloadUrl | ms-converter/service/Storage.cs:38-48 | the URL `DownloadSourceDocumentAsync` requests. Its properties are `Storage.DownloadUrlVerbatim`, `Storage.RelativeDownloadUrl` and `Uris.WebAddressStable` |
| Storage.DeleteFolder | ms-converter/service/Storage.cs:19-27 | `DeleteUuidFolder` on the tree. Its properties are `Storage.DeleteFolderEffect` and `Storage.DeleteFolderIdempotent` |
| Storage.CreateFolder | ms-converter/service/Storage.cs:29-34 | `CreateUuidFolder` on the tree, through `Disk.MakeDirs` (`Storage.ResetThenCreate`) |
| Storage.Download | ms-converter/service/Storage.cs:51-64 | the file-system side of the download: create the destination's directory, then `Storage.Receive`. Its properties are `Storage.DownloadStoresBody`, `Storage.FailedRequestWritesNothing` and `Storage.DownloadFrame` |
| Storage.Receive | ms-converter/service/Storage.cs:54-64 | stop on a failed request, write `.part`, delete an existing destination, move `.part` into place (`Storage.BrokenStreamLeavesPart`, `Storage.DownloadStoresBody`) |
| Storage.PrepareResult | ms-converter/service/Storage.cs:69-73 | `GetResultPdfPath` on the tree (`Storage.PrepareResultEffect`) |
| Storage.ClearResult | ms-converter/service/Storage.cs:75-90 | `DeleteResultPdf` on the tree (`Storage.ClearResultEffect`) |
| Storage.ResultPdf | ms-converter/service/Storage.cs:72 | the result PDF is always `result\file.pdf` |
| Storage.DeleteFolderEffect | ms-converter/service/Storage.cs:19-27 | a missing folder is a no-op; a present one loses its whole subtree and nothing else; the call fails iff the folder exists and is locked |
| Storage.DeleteFolderIdempotent | ms-converter/service/Storage.cs:19-27 | deleting a uuid folder twice equals deleting it once |
| Storage.OtherFoldersUntouched | ms-converter/service/Storage.cs:19-27 | deleting the folder of one plain uuid leaves every entry of another plain uuid's folder as it was, unless the two differ only in case |
| Storage.SameFolder | ms-converter/service/Storage.cs:21 | two plain uuids (ASCII letters, digits, '-' and '_') share no entry unless they are equal |
| Storage.PlainUuidParts | ms-converter/service/Storage.cs:21 | a plain uuid is one plain segment, not rooted and without ':' |
| Storage.EmptyUuidIsWholeWorkspace | ms-converter/service/Storage.cs:21 | the empty uuid's folder is `temp` itself, which holds every other uuid's folder |
| Storage.DotDotUuidIsBaseDirectory | ms-converter/service/Storage.cs:19-24 | the uuid `..` names `temp\..`, which resolves to the base directory holding `temp` and `result` |
| Storage.ParentUuidEscapesWorkspace | ms-converter/service/Storage.cs:51 | the uuid `..\{d}` downloads to `{d}\file.{ext}` once resolved; `..\result` with `pdf` is the result PDF |
| Storage.ResetThenCreate | ms-converter/service/Storage.cs:19-34 | delete then create leaves `temp\{uuid}` present and empty |
| Storage.DownloadUrlVerbatim | ms-converter/service/Storage.cs:40-43 | a canonical http(s) locator is requested verbatim |
| Storage.RelativeDownloadUrl | ms-converter/service/Storage.cs:44-48 | any other locator is the base, one '/', and the locator without leading '/'; the base carries no trailing '/' |
| Storage.BlankBaseUsesBucket | ms-converter/service/Storage.cs:46 | a null or blank base URL falls back to `https://` and the trimmed bucket, and an empty bucket gives `https:///` |
| Storage.FailedRequestWritesNothing | ms-converter/service/Storage.cs:54-55 | no response or a non-2xx status fails with every file as it was |
| Storage.DownloadStoresBody | ms-converter/service/Storage.cs:57-64 | a download that returns had a complete 2xx response; the destination holds its bytes, no `.part` remains, other files are unchanged |
| Storage.BrokenStreamLeavesPart | ms-converter/service/Storage.cs:57-62 | a stream that breaks off fails and leaves the bytes received in the `.part` file |
| Storage.DownloadFrame | ms-converter/service/Storage.cs:51-64 | a download changes only the destination and its `.part` file, and removes no directory |
| Storage.StepsConsistent | ms-converter/service/Storage.cs:19-90 | every storage step keeps every entry inside an existing directory |
| Storage.ResultOutsideWorkspace | ms-converter/service/Storage.cs:16-17 | a plain uuid's folder needs no resolution, holds the download destination and not the result PDF; neither the destination nor its `.part` file is the result PDF |
| Storage.WorkspacePathsApart | ms-converter/service/Storage.cs:16-17 | as written, no uuid folder holds `result\file.pdf`, and no path below `temp` is it or its `.part` file |
| Storage.PrepareResultEffect | ms-converter/service/Storage.cs:69-73 | `GetResultPdfPath` fails iff a file is at `result`; it then leaves `result` a directory and keeps every entry |
| Storage.ClearResultEffect | ms-converter/service/Storage.cs:75-90 | only `result\file.pdf` may change; it is gone unless locked, and clearing twice equals clearing once |
| Storage.Storage.DeleteUuidFolder | ms-converter/service/Storage.cs:19-27 | updates the file system as `DeleteFolder` and reports whether it threw |
| Storage.Storage.CreateUuidFolder | ms-converter/service/Storage.cs:29-34 | updates the file system as `CreateFolder` |
| Storage.Storage.DownloadSourceDocument | ms-converter/service/Storage.cs:36-65 | requests `DownloadUrl` and updates the file system as `Download` |
| Storage.Storage.StoreResponse | ms-converter/service/Storage.cs:54-64 | writes `.part`, deletes the old destination and moves into place, as `Receive` |
| Storage.Storage.ResolveUrl | ms-converter/service/Storage.cs:38-48 | computes `DownloadUrl`; an http(s) locator keeps its URI |
| Storage.Storage.GetTempFullPath | ms-converter/service/Storage.cs:67 | `temp` combined with the save name, '/' made the separator |
| Storage.Storage.GetResultPdfPath | ms-converter/service/Storage.cs:69-73 | returns `result\file.pdf` and creates `result` as `PrepareResult` |
| Storage.Storage.DeleteResultPdf | ms-converter/service/Storage.cs:75-90 | updates the file system as `ClearResult`; a failed delete is absorbed |
| Converter.NormalizedExtension | ms-converter/service/Converter.cs:11 | `Path.GetExtension(srcPath).TrimStart('.').ToLowerInvariant()` (`Converter.DispatchOf`) |
| Converter.Dispatch | ms-converter/service/Converter.cs:11-22 | the switch of `ConvertToPdf`: Word, PowerPoint or nothing (`Converter.DispatchIff`, `Converter.DispatchOf`) |
| Converter.Steps | ms-converter/service/Converter.cs:29-66 | the calls inside each application's try block, in order (`Converter.ReachedWord`, `Converter.ReachedPowerPoint`) |
| Converter.Session | ms-converter/service/Converter.cs:25-72 | one `ConvertWord` or `ConvertPowerPoint`: the calls that returned, then the disposals, and the PDF once the save returned. Its properties are `Converter.SessionSucceedsIff`, `Converter.SessionAfter`, `Converter.DisposedIffAcquired` and `Converter.OutputIffSaved` |
| Converter.Convert | ms-converter/service/Converter.cs:8-23 | `ConvertToPdf`. Its properties are `Converter.SkippedExtension`, `Converter.ConvertFrame`, `Converter.ConvertWritesAtMostOutput` and `Converter.ConvertedPdf` |
| Converter.OutputPath | ms-converter/service/Converter.cs:10 | the output is always `result\file.pdf` |
| Converter.DispatchIff | ms-converter/service/Converter.cs:11-22 | Word iff the normalised extension is doc or docx, PowerPoint iff ppt or pptx, nothing otherwise |
| Converter.DispatchOf | ms-converter/service/Converter.cs:11 | the normalised extension of `dir\name.ext` is `ext` lower-cased |
| Converter.SkippedExtension | ms-converter/service/Converter.cs:12-22 | any other extension makes no call, returns normally and leaves the file system unchanged |
| Converter.Position | ms-converter/service/Converter.cs:31-36 | the index of a call in an application's sequence, or -1 when it has none |
| Converter.Reached | ms-converter/service/Converter.cs:29-37 | the number of calls that returned: all before it returned, and the next one threw |
| Converter.Calls | ms-converter/service/Converter.cs:29-37 | one returned event per call made, in order |
| Converter.ReachedWord | ms-converter/service/Converter.cs:31-36 | Word stops at the first of launch, Visible, DisplayAlerts, Open, SaveAs2, Close, Quit that throws |
| Converter.ReachedPowerPoint | ms-converter/service/Converter.cs:51-65 | PowerPoint stops at the first of launch, DisplayAlerts, Open, SaveAs, Close, Quit that throws |
| Converter.ReturnedIffPast | ms-converter/service/Converter.cs:29-37 | a call returned iff it comes before the one that threw |
| Converter.SessionSucceedsIff | ms-converter/service/Converter.cs:29-37 | a session returns normally iff no call of its application throws, the source exists and the output can be written |
| Converter.SessionAfter | ms-converter/service/Converter.cs:38-42 | the events are the calls that returned, then the document's disposal if it was opened, then the application's if it was assigned |
| Converter.DisposedIffAcquired | ms-converter/service/Converter.cs:38-42 | the document is disposed iff Open returned; the application iff the call assigning it returned |
| Converter.LaunchedButNotDisposed | ms-converter/service/Converter.cs:31 | Word launched, then `Visible` threw: the application is never disposed |
| Converter.PowerPointAlwaysDisposed | ms-converter/service/Converter.cs:51 | a launched PowerPoint is always disposed |
| Converter.DisposalsLast | ms-converter/service/Converter.cs:38-42 | disposals come after every call, document before application |
| Converter.OutputIffSaved | ms-converter/service/Converter.cs:34 | the output holds the PDF iff the save returned; no other path changes; success implies the save returned |
| Converter.LateFaultKeepsPdf | ms-converter/service/Converter.cs:35-36 | a Close or Quit failure throws, but the PDF stays written |
| Converter.ConvertFrame | ms-converter/service/Converter.cs:8-23 | conversion changes at most the output path, removes no directory and keeps the tree consistent |
| Converter.ConvertWritesAtMostOutput | ms-converter/service/Converter.cs:8-23 | the tree is unchanged or has exactly the PDF written at the output |
| Converter.ConvertedPdf | ms-converter/service/Converter.cs:14-21 | a dispatched conversion that returns leaves the PDF at the output |
| Converter.Converter.ConvertToPdf | ms-converter/service/Converter.cs:8-23 | the events, tree and outcome are those of `Convert` |
| Converter.Converter.ConvertWord | ms-converter/service/Converter.cs:25-43 | the events, tree and outcome are those of the Word `Session` |
| Converter.Converter.RunWord | ms-converter/service/Converter.cs:29-37 | returns how many calls returned and which handles were assigned; the PDF is written iff SaveAs2 returned |
| Converter.Converter.ConvertPowerPoint | ms-converter/service/Converter.cs:45-72 | the events, tree and outcome are those of the PowerPoint `Session` |
| Converter.Converter.RunPowerPoint | ms-converter/service/Converter.cs:49-66 | the same for PowerPoint's six calls |
| S3.Request | ms-converter/service/S3Uploader.cs:29-36 | the `PutObjectRequest`: bucket, key, file path, public-read, application/pdf and a one-year cache (`S3.S3Uploader.UploadPdf`, `Consumer.UploadsFoundPdf`) |
| S3.ObjectUrl | ms-converter/service/S3Uploader.cs:38 | the returned URL. Its properties are `S3.ObjectUrlEscapesKey`, `S3.ObjectUrlJoin`, `S3.ObjectUrlSegments` and `S3.ObjectUrlDecodesToKey` |
| S3.ObjectUrlEscapesKey | ms-converter/service/S3Uploader.cs:38 | the URL is the trimmed endpoint, '/', the bucket, '/', and the key with everything but '/' escaped |
| S3.ObjectUrlSegments | ms-converter/service/S3Uploader.cs:38 | the key `{uuid}/{name}` keeps the uuid as its own URL segment |
| S3.KeepSlashJoin | ms-converter/service/S3Uploader.cs:38 | escaping `prefix/name` escapes each side and keeps the '/' |
| S3.ObjectUrlDecodesToKey | ms-converter/service/S3Uploader.cs:38 | decoding the URL's path gives back the key's UTF-8 bytes, and the key itself when it is ASCII |
| S3.ObjectUrlJoin | ms-converter/service/S3Uploader.cs:38 | exactly one '/' joins endpoint and bucket unless the endpoint is only slashes |
| S3.S3Uploader.UploadPdf | ms-converter/service/S3Uploader.cs:21-39 | a request leaves only when the file exists; it carries the bucket, key, path, public-read, application/pdf and one-year cache, plus the file's bytes; the URL is returned only when the store accepted |
| Consumer.Workspace | ms-converter/service/Consumer.cs:103-107 | the storage steps of the try block, each run only when the one before returned. Its properties are `Consumer.WorkspaceTrace`, `Consumer.WorkspaceStopsEarly`, `Consumer.WorkspaceFromDownload` and `Consumer.WorkspaceFollowsPlan` |
| Consumer.Fetched | ms-converter/service/Consumer.cs:105-107 | after the download: the result directory is prepared only when the download returned (`Consumer.WorkspaceTreeFromDownload`) |
| Consumer.Finish | ms-converter/service/Consumer.cs:108-113 | conversion, then `Consumer.Uploaded` (`Consumer.FinishFollowsPlan`, `Consumer.FinishUploadsFoundPdf`) |
| Consumer.Uploaded | ms-converter/service/Consumer.cs:109-113 | upload only when the conversion returned and the PDF exists (`Consumer.UploadedFollowsPlan`, `Consumer.UploadsFoundPdf`) |
| Consumer.Attempt | ms-converter/service/Consumer.cs:93-119 | the try block after parsing. Its properties are `Consumer.AttemptFollowsPlan`, `Consumer.AttemptStages`, `Consumer.AttemptConsistent` and `Consumer.NoDecisionPlanned` |
| Consumer.Finally | ms-converter/service/Consumer.cs:125-141 | the finally block, then the ack or nack. Its properties are `Consumer.FinallyAppends`, `Consumer.DecisionLast`, `Consumer.WorkspaceRemoved` and `Consumer.BlankUuidNotCleaned` |
| Consumer.Handle | ms-converter/service/Consumer.cs:89-142 | `OnReceivedAsync` as a whole. Its properties are `Consumer.CallsInPlannedOrder`, `Consumer.OneDecisionLast`, `Consumer.MalformedMessageRejected` and `Consumer.ResultPdfCleared` |
| Consumer.Planned | ms-converter/service/Consumer.cs:103-113 | the six calls of a delivery that goes all the way, in order (`Consumer.PlanStartsWithStorage`, `Consumer.WorkspaceFollowsPlan`, `Consumer.AttemptFollowsPlan`) |
| Consumer.PlannedStorage | ms-converter/service/Consumer.cs:103-107 | the storage calls in order: reset folder, create folder, download, result directory |
| Consumer.PlanStartsWithStorage | ms-converter/service/Consumer.cs:103-112 | the full plan begins with those four calls |
| Consumer.WorkspaceTrace | ms-converter/service/Consumer.cs:103-107 | the storage stage makes a prefix of its planned calls, and all four when it is ready |
| Consumer.WorkspaceStopsEarly | ms-converter/service/Consumer.cs:103-104 | a failed reset or create stops before the download |
| Consumer.WorkspaceFromDownload | ms-converter/service/Consumer.cs:105-107 | once the folder exists, the download is called |
| Consumer.WorkspaceTreeFromDownload | ms-converter/service/Consumer.cs:105-107 | after the folder steps, the tree is the download's, then the result directory's if the download returned |
| Consumer.WorkspaceFollowsPlan | ms-converter/service/Consumer.cs:103-107 | the calls made are a prefix of the full plan |
| Consumer.UploadedFollowsPlan | ms-converter/service/Consumer.cs:109-113 | the upload is called iff the PDF exists; success iff it was called and accepted |
| Consumer.FinishFollowsPlan | ms-converter/service/Consumer.cs:108-113 | conversion, then upload only when the PDF exists; success only on an accepted upload |
| Consumer.AttemptFollowsPlan | ms-converter/service/Consumer.cs:103-113 | the try block's calls are a prefix of the plan; it uploads only as the plan's last call, and succeeds iff that upload was accepted |
| Consumer.AttemptStages | ms-converter/service/Consumer.cs:103-118 | conversion runs only after every storage step returned |
| Consumer.UploadsFoundPdf | ms-converter/service/Consumer.cs:109-112 | what is uploaded is the file at `result\file.pdf` under the job's key |
| Consumer.FinishUploadsFoundPdf | ms-converter/service/Consumer.cs:108-112 | the same, after conversion |
| Consumer.NoDecisionPlanned | ms-converter/service/Consumer.cs:103-113 | the try block never acks, nacks or cleans up |
| Consumer.FinallyAppends | ms-converter/service/Consumer.cs:125-141 | the finally block appends the folder cleanup (non-blank uuid only), the result-PDF delete, then ack on success or nack without requeue |
| Consumer.DecisionLast | ms-converter/service/Consumer.cs:136-141 | the decision follows the result-PDF delete and is the only ack or nack |
| Consumer.OneDecisionLast | ms-converter/service/Consumer.cs:138-141 | every delivery ends in one decision: ack iff a PDF was uploaded and accepted, otherwise nack with requeue false |
| Consumer.CallsInPlannedOrder | ms-converter/service/Consumer.cs:89-142 | a parsed message makes a prefix of the planned calls, then the cleanup, the result-PDF delete and the decision |
| Consumer.MalformedMessageRejected | ms-converter/service/Consumer.cs:98-141 | an unparsable message only clears the result PDF and nacks; no uuid folder is touched |
| Consumer.UploadCarriesConvertedPdf | ms-converter/service/Consumer.cs:108-112 | for a converted extension, the uploaded bytes are the PDF Office wrote |
| Consumer.StepsKeepResultPdf | ms-converter/service/Consumer.cs:103-107 | for a plain uuid and an extension without separators, no storage step before conversion touches `result\file.pdf` |
| Consumer.WorkspaceKeepsResultPdf | ms-converter/service/Consumer.cs:103-107 | for a plain uuid and an extension without separators, the storage stage keeps any earlier `result\file.pdf` |
| Consumer.StalePdfUploaded | ms-converter/service/Consumer.cs:107-112 | for a plain uuid, an unconverted extension uploads a stale `result\file.pdf` |
| Consumer.WorkspaceConsistent | ms-converter/service/Consumer.cs:103-107 | the storage stage keeps the tree consistent |
| Consumer.AttemptConsistent | ms-converter/service/Consumer.cs:103-112 | so does the whole try block |
| Consumer.WorkspaceRemoved | ms-converter/service/Consumer.cs:129-130 | with a non-blank uuid and an unlocked folder, the workspace is gone afterwards |
| Consumer.BlankUuidNotCleaned | ms-converter/service/Consumer.cs:129 | with a blank uuid, the finally block only clears the result PDF |
| Consumer.BlankUuidNoCleanupCall | ms-converter/service/Consumer.cs:129 | with a blank uuid, no folder cleanup is called |
| Consumer.NoCleanupAppended | ms-converter/service/Consumer.cs:129 | a blank uuid adds no cleanup call to the trace |
| Consumer.LaterStepsKeepDirectories | ms-converter/service/Consumer.cs:105-108 | download, result directory and conversion remove no directory |
| Consumer.WorkspaceSurvivesAttempt | ms-converter/service/Consumer.cs:104-112 | a created workspace still exists at the end of the try block |
| Consumer.WhiteSpaceUuidLeaksWorkspace | ms-converter/service/Consumer.cs:129 | a uuid made only of white space above U+0020 gets a workspace and leaves it behind |
| Consumer.ResultPdfCleared | ms-converter/service/Consumer.cs:136 | no delivery leaves a `result\file.pdf` behind unless it is locked |
| Storage.TempPathOfPlainJob | ms-converter/service/Consumer.cs:173 | a job whose uuid is neither empty nor rooted and holds no '/' downloads to `temp\{uuid}\file.{extension}` |
| Consumer.EmptyUuidSavesAtRoot | ms-converter/service/Consumer.cs:173 | an empty uuid gives the rooted path `\file.{extension}` |
| Consumer.Consumer.OnReceived | ms-converter/service/Consumer.cs:89-142 | calls, tree and upload are those of `Handle` |
| Consumer.Consumer.FinallyBlock | ms-converter/service/Consumer.cs:125-141 | calls and tree are those of `Finally` |
| Consumer.Consumer.Process | ms-converter/service/Consumer.cs:98-118 | the try block as `Attempt` |
| Consumer.Consumer.PrepareWorkspace | ms-converter/service/Consumer.cs:103-107 | the storage steps as `Workspace`; when ready, the expected path is `result\file.pdf` |
| Consumer.Consumer.ConvertAndUpload | ms-converter/service/Consumer.cs:108-118 | conversion, existence check and upload as `Finish` |
| Consumer.Consumer.UploadPdfToS3 | ms-converter/service/Consumer.cs:163-171 | puts the PDF under `UploadKey(uuid, fileName)` with the uploader's options, iff the file exists |

## Left out

- RabbitMQ connection, topology, subscription and teardown (Consumer.cs:27-87): these are broker I/O. Ack and nack appear only as trace events.
- The `SemaphoreSlim` gate (Consumer.cs:25, 74-85): its point is concurrency, and the handler is modelled as one sequential call.
- Logging, and options-reload callbacks (Storage.cs:13-14, S3Uploader.cs:18-19). The options are a fixed value per handler. A single snapshot therefore serves a whole call.
- Cancellation timing: a cancelled step is one more failure outcome (`Fetch.Unreachable`, an Office fault, an upload not accepted). Both catch clauses do the same thing. The ack and nack (Consumer.cs:138-141) are awaited with the same token, so after a cancellation they may throw themselves; the model always records the ack or nack.
- The UTF-8 decoding of the body and `JObject.Parse`: the parsed body is the `Document` value. `Message.AsText` takes numbers and nested values as the text Newtonsoft would print. Dates are not modelled. By default (`DateParseHandling.DateTime`), `JObject.Parse` (Consumer.cs:147) reads an ISO-8601 string or a `/Date(…)/` string as a date. `ToString()` (Consumer.cs:148-150) then prints that date in the current culture's format.
- HTTP streaming, the AWS SDK call and the NetOffice COM calls: each is an outcome in `World`. Client construction (credentials, `ServiceURL`) is left out.
- ms-converter/service/StatusPublisher.cs is not part of this model: the handler never calls it.
- ms-converter/cmd/Program.cs is not part of this model: it is host configuration.
- Percent.Unescape: a `%XX` byte of 0x80 or more becomes the Latin-1 character of that byte. `WebUtility.UrlDecode` instead reassembles UTF-8 sequences, so the round trips are stated for ASCII text.
- Uris.TryCreate: the RFC 3986 generic syntax only, with these differences from .NET:
  - for http and https, .NET reads '\' as '/'. So `https:\\x\y.docx`, sent as `https%3A%5C%5Cx%5Cy.docx`, is the URL `https://x/y.docx` in .NET. The model requires a literal `//` after the scheme, so it fetches that name by the relative key instead;
  - the scheme is lower-cased;
  - one-letter schemes (drive letters) are rejected;
  - there is no host, port or path normalisation and no implicit file URIs;
  - hosts and ports are not validated: `http://exa mple/x.docx` or `http://x:99999/` is a URI here, while .NET rejects it and the name becomes a relative key;
  - white space is trimmed only at the ends; what .NET does with white space inside the text is not modelled;
  - `ToString` prints the parts as parsed.
- Uris.WebAddress: inherits the differences of `Uris.TryCreate` above, among them host and port validation and backslashes in http(s) URLs.
- Strings.ToLowerInvariant: lower-cases ASCII letters only.
- Paths.Parent: `Path.GetDirectoryName` without its drive-root and UNC handling.
- Paths.GetFileName: only a drive root `X:` is cut. UNC (`\\server\share`) and device (`\\?\`) roots are not, so for `\\server\share` the model gives `share` where .NET gives an empty name.
- Paths.Resolve: resolves `.`, `..` and empty segments of a relative path only. It does not trim trailing dots and spaces or fold case, and it is used only to state the consequences above.
- Disk: paths are compared ordinally. Windows resolves `.` and `..` segments, ignores case, and trims trailing dots and spaces of each segment; the tree does not. Reserved device names (`CON`, `NUL`, …), alternate data streams and invalid path characters are ordinary text here.
- Message.AsText: a JSON string comes back unchanged only when Newtonsoft keeps it a string. A date-shaped string becomes a date and is printed in the culture's format. For example, `2024-05-01T10:00:00` may come back as `05/01/2024 10:00:00`, whose '/' changes the save name and the key.
- Message.StringValuesUnchanged: holds only for strings that Newtonsoft does not read as dates, as the `Message.AsText` line says.
- Consumer.WhiteSpaceUuidLeaksWorkspace: stated for uuids whose white space lies above U+0020, such as U+0085, U+00A0 and U+2000. Windows trims trailing spaces, so a uuid of spaces names `temp` itself, and its reset deletes every workspace. Tab, CR, LF and the other control characters are invalid in file names, so creating the folder throws.
- Storage.SameFolder: stated for plain uuids (ASCII letters, digits, '-' and '_'). Two of them that differ only in case (`A1`, `a1`) share a folder on Windows, while the tree keeps them apart.
- Storage.OtherFoldersUntouched: stated for plain uuids that differ in more than case. A uuid with dot segments or a trailing dot or space can share a folder with another on Windows (`Storage.DotDotUuidIsBaseDirectory`).
- Storage.ResultOutsideWorkspace: stated for plain uuids and extensions without separators, because the uuid `..\result` reaches the result PDF (`Storage.ParentUuidEscapesWorkspace`).
- Consumer.StepsKeepResultPdf: stated for plain uuids and extensions without separators, for the same reason.
- Consumer.WorkspaceKeepsResultPdf: stated for plain uuids and extensions without separators, for the same reason.
- Consumer.StalePdfUploaded: stated for plain uuids and extensions without separators, for the same reason.
- Paths.Combine: a drive-relative or UNC second part is treated as rooted, as on Windows. `AppContext.BaseDirectory` is left implicit, because every path is relative to it.
- Disk.FileSystem.DeleteDirectory: a recursive delete either removes the whole tree or, when a file in it is locked, nothing. A partial delete is not modelled.
- Converter.SessionAfter: a `Dispose` that throws is swallowed in the source. The model records each disposal as an event and does not model its failure.
