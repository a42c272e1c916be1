/** Consumer.cs: the handling of one delivery, OnReceivedAsync. The message is
    parsed, the job's workspace reset, the source downloaded and converted,
    the PDF uploaded; the workspace and the result PDF are cleaned up in all
    cases, and the delivery is acked on success and nacked without requeue
    otherwise. The broker, Office, HTTP and S3 are outside the model: a
    `World` says how each of them behaves on this delivery. */
module Consumer {
  import opened Wrappers
  import opened Strings
  import opened Paths
  import opened Disk
  import opened Message
  import Locator
  import Storage
  import Converter
  import S3

  /** How the outside world behaves while one delivery is handled. */
  datatype World = World(
    resetLocked: bool,             // a file in the old workspace is in use: the first delete throws
    fetch: Storage.Fetch,          // the HTTP GET of the source document
    destLocked: bool,              // an existing destination file cannot be deleted
    office: Converter.OfficeRun,   // how Office behaves
    accepted: bool,                // the object store accepts the PUT
    cleanupLocked: bool,           // the final delete of the workspace throws
    resultLocked: bool)            // result/file.pdf cannot be deleted

  /** The options the services read. */
  datatype Config = Config(storage: Storage.StorageOptions, s3: S3.S3Options)

  /** The calls the handler makes, in order. */
  datatype Effect =
    | ResetFolder(uuid: string)
    | CreateFolder(uuid: string)
    | Download(url: string, saveName: string)
    | PrepareResult
    | ConvertDocument(srcPath: string)
    | Upload(request: S3.PutObjectRequest)
    | CleanupFolder(uuid: string)
    | ClearResultPdf
    | Ack
    | Nack(requeue: bool)

  /** The state at the end of the try block. */
  datatype Attempted = Attempted(trace: seq<Effect>, tree: Tree, upload: Option<S3.Put>, success: bool)

  /** Everything one delivery does: its calls, the file system it leaves
      and the object it sent to the store, if any. */
  datatype Delivery = Delivery(trace: seq<Effect>, tree: Tree, upload: Option<S3.Put>)

  /** Where the try block stands after its storage steps: the calls made,
      the file system, and whether all of them returned. */
  datatype Staged = Staged(trace: seq<Effect>, tree: Tree, ready: bool)

  /** The storage steps of the try block: reset the workspace, create it,
      download the source, create the result directory; each runs only when
      the one before returned. */
  function Workspace(job: Job, w: World, cfg: Config, t: Tree): Staged
  {
    var source, saveName := Locator.Source(job.uuid, job.fileName, job.extension), Locator.SaveName(job.uuid, job.extension);
    var r1 := Storage.DeleteFolder(t, job.uuid, w.resetLocked);
    if !r1.ok then Staged([ResetFolder(job.uuid)], r1.tree, false) else
    var r2 := Storage.CreateFolder(r1.tree, job.uuid);
    if !r2.ok then Staged([ResetFolder(job.uuid), CreateFolder(job.uuid)], r2.tree, false) else
    Fetched([ResetFolder(job.uuid), CreateFolder(job.uuid), Download(Storage.DownloadUrl(cfg.storage, source), saveName)],
            Storage.Download(r2.tree, saveName, w.fetch, w.destLocked))
  }

  /** The workspace after the download returned `r`: the result file is
      prepared only when the download succeeded. */
  function Fetched(trace: seq<Effect>, r: Storage.Step): Staged
  {
    if !r.ok then Staged(trace, r.tree, false) else
    var r4 := Storage.PrepareResult(r.tree);
    Staged(trace + [PrepareResult], r4.tree, r4.ok)
  }

  /** The rest of the try block: convert the downloaded file, then upload. */
  function Finish(job: Job, w: World, cfg: Config, trace: seq<Effect>, t: Tree): Attempted
  {
    var src := Storage.TempFullPath(Locator.SaveName(job.uuid, job.extension));
    Uploaded(job, w, cfg, trace + [ConvertDocument(src)], Converter.Convert(t, src, w.office))
  }

  /** After the conversion: the PDF is uploaded only when the conversion
      returned and the PDF is found at the result path. */
  function Uploaded(job: Job, w: World, cfg: Config, trace: seq<Effect>, r: Converter.Outcome): Attempted
  {
    if !r.ok || !IsFile(r.tree, Storage.ResultPdf()) then Attempted(trace, r.tree, None, false) else
    var put := S3.Put(S3.Request(cfg.s3, Storage.ResultPdf(), Locator.UploadKey(job.uuid, job.fileName)),
                      r.tree[Storage.ResultPdf()].data);
    Attempted(trace + [Upload(put.request)], r.tree, Some(put), w.accepted)
  }

  /** The try block of OnReceivedAsync after the message was parsed. */
  function Attempt(job: Job, w: World, cfg: Config, t: Tree): Attempted
  {
    var s := Workspace(job, w, cfg, t);
    if !s.ready then Attempted(s.trace, s.tree, None, false) else Finish(job, w, cfg, s.trace, s.tree)
  }

  /** OnReceivedAsync: the try block, then the finally block and the ack or
      nack; the uuid to clean up is known only once the message is parsed. */
  function Handle(doc: Document, w: World, cfg: Config, t: Tree): Delivery
  {
    var parsed := ParseMessage(doc);
    if parsed.Success? then Finally(Some(parsed.value.uuid), Attempt(parsed.value, w, cfg, t), w)
    else Finally(None, Attempted([], t, None, false), w)
  }

  /** The finally block (delete the workspace of a non-blank uuid, delete
      the result PDF), then the ack or the nack without requeue. */
  function Finally(uuidForCleanup: Option<string>, p: Attempted, w: World): Delivery
  {
    var cleanup := !IsNullOrWhiteSpace(uuidForCleanup);
    var e6 := p.trace + (if cleanup then [CleanupFolder(uuidForCleanup.value)] else []);
    var t6 := if cleanup then Storage.DeleteFolder(p.tree, uuidForCleanup.value, w.cleanupLocked).tree else p.tree;
    Delivery(e6 + [ClearResultPdf, if p.success then Ack else Nack(false)],
             Storage.ClearResult(t6, w.resultLocked), p.upload)
  }

  /** The steps of a delivery that goes all the way, in order. */
  function Planned(job: Job, cfg: Config): seq<Effect>
  {
    var saveName := Locator.SaveName(job.uuid, job.extension);
    Steps(job.uuid,
          Storage.DownloadUrl(cfg.storage, Locator.Source(job.uuid, job.fileName, job.extension)),
          saveName,
          Storage.TempFullPath(saveName),
          S3.Request(cfg.s3, Storage.ResultPdf(), Locator.UploadKey(job.uuid, job.fileName)))
  }

  /** The six calls of the try block, given their arguments. */
  function Steps(uuid: string, url: string, saveName: string, src: string, request: S3.PutObjectRequest): seq<Effect>
  {
    [ResetFolder(uuid), CreateFolder(uuid), Download(url, saveName), PrepareResult, ConvertDocument(src), Upload(request)]
  }

  // ---- the order of the calls and the decision ----

  /** The first four calls of the plan. */
  function PlannedStorage(job: Job, cfg: Config): (e: seq<Effect>)
  {
    [ ResetFolder(job.uuid),
      CreateFolder(job.uuid),
      Download(Storage.DownloadUrl(cfg.storage, Locator.Source(job.uuid, job.fileName, job.extension)),
               Locator.SaveName(job.uuid, job.extension)),
      PrepareResult ]
  }

  lemma PlanStartsWithStorage(job: Job, cfg: Config)
    ensures Planned(job, cfg)[..4] == PlannedStorage(job, cfg)
  {
    var saveName := Locator.SaveName(job.uuid, job.extension);
    StepsStartWithStorage(job.uuid,
      Storage.DownloadUrl(cfg.storage, Locator.Source(job.uuid, job.fileName, job.extension)),
      saveName,
      Storage.TempFullPath(saveName),
      S3.Request(cfg.s3, Storage.ResultPdf(), Locator.UploadKey(job.uuid, job.fileName)));
  }

  lemma StepsStartWithStorage(uuid: string, url: string, saveName: string, src: string, request: S3.PutObjectRequest)
    ensures Steps(uuid, url, saveName, src, request)[..4] == [ResetFolder(uuid), CreateFolder(uuid), Download(url, saveName), PrepareResult]
  {
  }

  lemma WorkspaceTrace(job: Job, w: World, cfg: Config, t: Tree)
    ensures var s, e := Workspace(job, w, cfg, t), PlannedStorage(job, cfg);
      && 1 <= |s.trace| <= 4 && s.trace == e[..|s.trace|]
      && (s.ready ==> |s.trace| == 4)
  {
    var r1 := Storage.DeleteFolder(t, job.uuid, w.resetLocked);
    var r2 := Storage.CreateFolder(r1.tree, job.uuid);
    if r1.ok && r2.ok {
      WorkspaceFromDownload(job, w, cfg, t, r1.tree, r2.tree);
    } else {
      WorkspaceStopsEarly(job, w, cfg, t);
    }
  }

  /** The workspace when the reset or the creation throws. */
  lemma WorkspaceStopsEarly(job: Job, w: World, cfg: Config, t: Tree)
    requires var r1 := Storage.DeleteFolder(t, job.uuid, w.resetLocked);
      !r1.ok || !Storage.CreateFolder(r1.tree, job.uuid).ok
    ensures var s, e := Workspace(job, w, cfg, t), PlannedStorage(job, cfg);
      var r1 := Storage.DeleteFolder(t, job.uuid, w.resetLocked);
      && 1 <= |s.trace| <= 2 && s.trace == e[..|s.trace|] && !s.ready
      && s.tree == (if r1.ok then Storage.CreateFolder(r1.tree, job.uuid).tree else r1.tree)
  {
    var s, e := Workspace(job, w, cfg, t), PlannedStorage(job, cfg);
    if Storage.DeleteFolder(t, job.uuid, w.resetLocked).ok {
      assert |s.trace| == 2 && s.trace[0] == e[0] && s.trace[1] == e[1];
    } else {
      assert |s.trace| == 1 && s.trace[0] == e[0];
    }
    SamePrefix(s.trace, e);
  }

  /** The calls of the workspace once the reset and the creation returned. */
  lemma WorkspaceFromDownload(job: Job, w: World, cfg: Config, t: Tree, t1: Tree, t2: Tree)
    requires Storage.DeleteFolder(t, job.uuid, w.resetLocked) == Storage.Step(t1, true)
    requires Storage.CreateFolder(t1, job.uuid) == Storage.Step(t2, true)
    ensures var s, e := Workspace(job, w, cfg, t), PlannedStorage(job, cfg);
      && 3 <= |s.trace| <= 4 && s.trace == e[..|s.trace|]
      && (s.ready ==> |s.trace| == 4)
  {
    var saveName := Locator.SaveName(job.uuid, job.extension);
    var url := Storage.DownloadUrl(cfg.storage, Locator.Source(job.uuid, job.fileName, job.extension));
    var e3 := [ResetFolder(job.uuid), CreateFolder(job.uuid), Download(url, saveName)];
    var e := PlannedStorage(job, cfg);
    assert e3 == e[..3] by {
      SamePrefix(e3, e);
    }
    WorkspaceIsFetched(job, w, cfg, t, t1, t2);
    FetchedTrace(e3, Storage.Download(t2, saveName, w.fetch, w.destLocked), e);
  }

  /** Once the reset and the creation returned, the workspace is what the
      download makes of the three calls so far. */
  lemma WorkspaceIsFetched(job: Job, w: World, cfg: Config, t: Tree, t1: Tree, t2: Tree)
    requires Storage.DeleteFolder(t, job.uuid, w.resetLocked) == Storage.Step(t1, true)
    requires Storage.CreateFolder(t1, job.uuid) == Storage.Step(t2, true)
    ensures var saveName := Locator.SaveName(job.uuid, job.extension);
      var url := Storage.DownloadUrl(cfg.storage, Locator.Source(job.uuid, job.fileName, job.extension));
      Workspace(job, w, cfg, t)
        == Fetched([ResetFolder(job.uuid), CreateFolder(job.uuid), Download(url, saveName)],
                   Storage.Download(t2, saveName, w.fetch, w.destLocked))
  {
  }

  lemma FetchedTrace(trace: seq<Effect>, r: Storage.Step, e: seq<Effect>)
    requires |e| == 4 && e[3] == PrepareResult && trace == e[..3]
    ensures var s := Fetched(trace, r);
      && 3 <= |s.trace| <= 4 && s.trace == e[..|s.trace|]
      && (s.ready ==> |s.trace| == 4)
  {
    PrefixGrows(e, 3);
  }

  /** The file system of the workspace once the reset and the creation
      returned. */
  lemma WorkspaceTreeFromDownload(job: Job, w: World, cfg: Config, t: Tree, t1: Tree, t2: Tree)
    requires Storage.DeleteFolder(t, job.uuid, w.resetLocked) == Storage.Step(t1, true)
    requires Storage.CreateFolder(t1, job.uuid) == Storage.Step(t2, true)
    ensures var s := Workspace(job, w, cfg, t);
      var r3 := Storage.Download(t2, Locator.SaveName(job.uuid, job.extension), w.fetch, w.destLocked);
      && s.tree == (if r3.ok then Storage.PrepareResult(r3.tree).tree else r3.tree)
      && (s.ready <==> r3.ok && Storage.PrepareResult(r3.tree).ok)
  {
  }

  lemma SamePrefix<T>(a: seq<T>, b: seq<T>)
    requires |a| <= |b| && forall i :: 0 <= i < |a| ==> a[i] == b[i]
    ensures a == b[..|a|]
  {
  }

  lemma WorkspaceFollowsPlan(job: Job, w: World, cfg: Config, t: Tree)
    ensures var s := Workspace(job, w, cfg, t);
      && 1 <= |s.trace| <= 4 && s.trace == Planned(job, cfg)[..|s.trace|]
      && (s.ready ==> |s.trace| == 4)
  {
    WorkspaceTrace(job, w, cfg, t);
    PlanStartsWithStorage(job, cfg);
    assert |Planned(job, cfg)| == 6;
    PrefixOfPrefix(Planned(job, cfg), PlannedStorage(job, cfg), Workspace(job, w, cfg, t).trace);
  }

  lemma PrefixOfPrefix<T>(plan: seq<T>, first: seq<T>, s: seq<T>)
    requires |plan| >= 4 && plan[..4] == first && |s| <= 4 && s == first[..|s|]
    ensures s == plan[..|s|]
  {
    assert plan[..|s|] == plan[..4][..|s|];
  }

  lemma PrefixGrows<T>(s: seq<T>, k: nat)
    requires k < |s|
    ensures s[..k] + [s[k]] == s[..k + 1]
  {
  }

  lemma UploadedFollowsPlan(job: Job, w: World, cfg: Config, trace: seq<Effect>, r: Converter.Outcome)
    requires trace == Planned(job, cfg)[..5]
    ensures var f := Uploaded(job, w, cfg, trace, r);
      && 5 <= |f.trace| <= 6 && f.trace == Planned(job, cfg)[..|f.trace|]
      && (f.upload.Some? <==> |f.trace| == 6)
      && (f.success <==> f.upload.Some? && w.accepted)
  {
    PrefixGrows(Planned(job, cfg), 5);
  }

  lemma FinishFollowsPlan(job: Job, w: World, cfg: Config, trace: seq<Effect>, t: Tree)
    requires trace == Planned(job, cfg)[..4]
    ensures var f := Finish(job, w, cfg, trace, t);
      && 5 <= |f.trace| <= 6 && f.trace == Planned(job, cfg)[..|f.trace|]
      && (f.upload.Some? <==> |f.trace| == 6)
      && (f.success <==> f.upload.Some? && w.accepted)
  {
    var src := Storage.TempFullPath(Locator.SaveName(job.uuid, job.extension));
    PrefixGrows(Planned(job, cfg), 4);
    UploadedFollowsPlan(job, w, cfg, trace + [ConvertDocument(src)], Converter.Convert(t, src, w.office));
  }

  /** The try block makes its calls in the planned order and stops at the
      first one that throws; the upload is its last call, and the try block
      succeeds exactly when the upload was made and accepted. */
  lemma AttemptFollowsPlan(job: Job, w: World, cfg: Config, t: Tree)
    ensures var p := Attempt(job, w, cfg, t);
      && 1 <= |p.trace| <= 6 && p.trace == Planned(job, cfg)[..|p.trace|]
      && (p.upload.Some? <==> |p.trace| == 6)
      && (p.success <==> p.upload.Some? && w.accepted)
  {
    var s := Workspace(job, w, cfg, t);
    WorkspaceFollowsPlan(job, w, cfg, t);
    if s.ready {
      FinishFollowsPlan(job, w, cfg, s.trace, s.tree);
    }
  }

  /** After the conversion the PDF is uploaded exactly when the conversion
      returned and a file is at the result path, and what is uploaded is
      that file, under the job's key. */
  lemma UploadsFoundPdf(job: Job, w: World, cfg: Config, trace: seq<Effect>, r: Converter.Outcome)
    ensures var f := Uploaded(job, w, cfg, trace, r);
      && f.tree == r.tree
      && (f.upload.Some? <==> r.ok && IsFile(r.tree, Storage.ResultPdf()))
      && (f.upload.Some? ==>
            f.upload.value == S3.Put(S3.Request(cfg.s3, Storage.ResultPdf(), Locator.UploadKey(job.uuid, job.fileName)),
                                     r.tree[Storage.ResultPdf()].data))
  {
  }

  lemma FinishUploadsFoundPdf(job: Job, w: World, cfg: Config, trace: seq<Effect>, t: Tree)
    ensures var src := Storage.TempFullPath(Locator.SaveName(job.uuid, job.extension));
      var r, f := Converter.Convert(t, src, w.office), Finish(job, w, cfg, trace, t);
      && f.tree == r.tree
      && (f.upload.Some? <==> r.ok && IsFile(r.tree, Storage.ResultPdf()))
      && (f.upload.Some? ==>
            f.upload.value == S3.Put(S3.Request(cfg.s3, Storage.ResultPdf(), Locator.UploadKey(job.uuid, job.fileName)),
                                     r.tree[Storage.ResultPdf()].data))
  {
    var src := Storage.TempFullPath(Locator.SaveName(job.uuid, job.extension));
    UploadsFoundPdf(job, w, cfg, trace + [ConvertDocument(src)], Converter.Convert(t, src, w.office));
  }

  lemma AttemptStages(job: Job, w: World, cfg: Config, t: Tree)
    ensures var s, p := Workspace(job, w, cfg, t), Attempt(job, w, cfg, t);
      var src := Storage.TempFullPath(Locator.SaveName(job.uuid, job.extension));
      && (!s.ready ==> p.tree == s.tree && p.upload == None)
      && (s.ready ==> p == Finish(job, w, cfg, s.trace, s.tree))
  {
  }

  lemma NoDecisionPlanned(job: Job, cfg: Config, e: seq<Effect>)
    requires |e| <= 6 && e == Planned(job, cfg)[..|e|]
    ensures forall i :: 0 <= i < |e| ==> !e[i].Ack? && !e[i].Nack? && !e[i].CleanupFolder?
  {
    var saveName := Locator.SaveName(job.uuid, job.extension);
    NoDecisionInSteps(job.uuid,
          Storage.DownloadUrl(cfg.storage, Locator.Source(job.uuid, job.fileName, job.extension)),
          saveName,
          Storage.TempFullPath(saveName),
          S3.Request(cfg.s3, Storage.ResultPdf(), Locator.UploadKey(job.uuid, job.fileName)), e);
  }

  lemma NoDecisionInSteps(uuid: string, url: string, saveName: string, src: string, request: S3.PutObjectRequest, e: seq<Effect>)
    requires |e| <= 6 && e == Steps(uuid, url, saveName, src, request)[..|e|]
    ensures forall i :: 0 <= i < |e| ==> !e[i].Ack? && !e[i].Nack? && !e[i].CleanupFolder?
  {
    var plan := Steps(uuid, url, saveName, src, request);
    forall i | 0 <= i < |e|
      ensures !e[i].Ack? && !e[i].Nack? && !e[i].CleanupFolder?
    {
      assert e[i] == plan[i];
    }
  }

  lemma FinallyAppends(u: Option<string>, p: Attempted, w: World)
    ensures var e, k := Finally(u, p, w).trace, |p.trace|;
      && k <= |e| && e[..k] == p.trace
      && e[k..] == (if IsNullOrWhiteSpace(u) then [] else [CleanupFolder(u.value)])
                   + [ClearResultPdf, if p.success then Ack else Nack(false)]
  {
  }

  lemma DecisionLast(u: Option<string>, p: Attempted, w: World)
    requires forall i :: 0 <= i < |p.trace| ==> !p.trace[i].Ack? && !p.trace[i].Nack?
    ensures var e := Finally(u, p, w).trace;
      && |e| >= 2 && e[|e| - 2] == ClearResultPdf
      && e[|e| - 1] == (if p.success then Ack else Nack(false))
      && forall i :: 0 <= i < |e| - 1 ==> !e[i].Ack? && !e[i].Nack?
  {
    var cleanup := if IsNullOrWhiteSpace(u) then [] else [CleanupFolder(u.value)];
    FinallyAppends(u, p, w);
    DecidedOnce(p.trace, cleanup, if p.success then Ack else Nack(false), Finally(u, p, w).trace);
  }

  lemma DecidedOnce(pre: seq<Effect>, cleanup: seq<Effect>, decision: Effect, e: seq<Effect>)
    requires forall i :: 0 <= i < |pre| ==> !pre[i].Ack? && !pre[i].Nack?
    requires forall i :: 0 <= i < |cleanup| ==> cleanup[i].CleanupFolder?
    requires |pre| <= |e| && e[..|pre|] == pre && e[|pre|..] == cleanup + [ClearResultPdf, decision]
    ensures |e| >= 2 && e[|e| - 2] == ClearResultPdf && e[|e| - 1] == decision
    ensures forall i :: 0 <= i < |e| - 1 ==> !e[i].Ack? && !e[i].Nack?
  {
    var k, tail := |pre|, cleanup + [ClearResultPdf, decision];
    forall i | 0 <= i < |e| - 1
      ensures !e[i].Ack? && !e[i].Nack?
    {
      if i < k {
        assert e[i] == e[..k][i];
      } else {
        assert e[i] == e[k..][i - k] == tail[i - k];
      }
    }
    assert e[|e| - 1] == e[k..][|tail| - 1];
    assert e[|e| - 2] == e[k..][|tail| - 2];
  }

  /** Every delivery ends with the deletion of the result PDF and then
      exactly one decision: an ack when the upload was made and accepted,
      otherwise a nack that never asks for redelivery. */
  lemma OneDecisionLast(doc: Document, w: World, cfg: Config, t: Tree)
    ensures var d := Handle(doc, w, cfg, t); var e := d.trace;
      && |e| >= 2 && e[|e| - 2] == ClearResultPdf
      && (e[|e| - 1] == Ack <==> d.upload.Some? && w.accepted)
      && (e[|e| - 1] != Ack ==> e[|e| - 1] == Nack(false))
      && forall i :: 0 <= i < |e| - 1 ==> !e[i].Ack? && !e[i].Nack?
  {
    var parsed := ParseMessage(doc);
    if parsed.Success? {
      var job := parsed.value;
      var p := Attempt(job, w, cfg, t);
      AttemptFollowsPlan(job, w, cfg, t);
      NoDecisionPlanned(job, cfg, p.trace);
      DecisionLast(Some(job.uuid), p, w);
    } else {
      DecisionLast(None, Attempted([], t, None, false), w);
    }
  }

  /** A parsed message is handled in the planned order up to the first call
      that throws; then the workspace of a non-blank uuid is deleted, then
      the result PDF, then the decision. */
  lemma CallsInPlannedOrder(doc: Document, w: World, cfg: Config, t: Tree)
    requires ParseMessage(doc).Success?
    ensures var job, e := ParseMessage(doc).value, Handle(doc, w, cfg, t).trace;
      var k := |Attempt(job, w, cfg, t).trace|;
      && 1 <= k <= 6 && k <= |e|
      && e[..k] == Planned(job, cfg)[..k]
      && e[k..] == (if IsNullOrWhiteSpace(Some(job.uuid)) then [] else [CleanupFolder(job.uuid)])
                   + [ClearResultPdf, if Attempt(job, w, cfg, t).success then Ack else Nack(false)]
  {
    var job := ParseMessage(doc).value;
    AttemptFollowsPlan(job, w, cfg, t);
    FinallyAppends(Some(job.uuid), Attempt(job, w, cfg, t), w);
  }

  /** A body that is not a JSON object, or lacks one of the three keys,
      touches no workspace: only the result PDF is deleted, and the delivery
      is nacked without requeue. */
  lemma MalformedMessageRejected(doc: Document, w: World, cfg: Config, t: Tree)
    requires ParseMessage(doc).Failure?
    ensures Handle(doc, w, cfg, t) == Delivery([ClearResultPdf, Nack(false)], Storage.ClearResult(t, w.resultLocked), None)
  {
  }

  // ---- what is uploaded ----

  /** The object sent to the store is Office's PDF of the downloaded file,
      under the key built from the uuid and the file name. */
  lemma UploadCarriesConvertedPdf(doc: Document, w: World, cfg: Config, t: Tree)
    requires ParseMessage(doc).Success?
    requires var job := ParseMessage(doc).value;
      Converter.Dispatch(Storage.TempFullPath(Locator.SaveName(job.uuid, job.extension))).Some?
    requires Handle(doc, w, cfg, t).upload.Some?
    ensures var job := ParseMessage(doc).value;
      Handle(doc, w, cfg, t).upload.value ==
        S3.Put(S3.Request(cfg.s3, Storage.ResultPdf(), Locator.UploadKey(job.uuid, job.fileName)), w.office.pdf)
  {
    var job := ParseMessage(doc).value;
    var s := Workspace(job, w, cfg, t);
    var src := Storage.TempFullPath(Locator.SaveName(job.uuid, job.extension));
    AttemptStages(job, w, cfg, t);
    FinishUploadsFoundPdf(job, w, cfg, s.trace, s.tree);
    Converter.ConvertedPdf(s.tree, src, w.office);
  }

  /** No storage step of a plain job touches result/file.pdf. */
  lemma StepsKeepResultPdf(t: Tree, uuid: string, extension: string, fetch: Storage.Fetch, locked: bool, destLocked: bool)
    requires Storage.PlainUuid(uuid) && NoSeparator(extension)
    requires Storage.ResultPdf() in t
    ensures var pdf, saveName := Storage.ResultPdf(), Locator.SaveName(uuid, extension);
      && pdf in Storage.DeleteFolder(t, uuid, locked).tree && Storage.DeleteFolder(t, uuid, locked).tree[pdf] == t[pdf]
      && pdf in Storage.CreateFolder(t, uuid).tree && Storage.CreateFolder(t, uuid).tree[pdf] == t[pdf]
      && pdf in Storage.Download(t, saveName, fetch, destLocked).tree && Storage.Download(t, saveName, fetch, destLocked).tree[pdf] == t[pdf]
      && pdf in Storage.PrepareResult(t).tree && Storage.PrepareResult(t).tree[pdf] == t[pdf]
  {
    ResetKeepsResultPdf(t, uuid, locked);
    CreateKeepsResultPdf(t, uuid);
    DownloadKeepsResultPdf(t, uuid, extension, fetch, destLocked);
    Storage.PrepareResultEffect(t);
  }

  lemma ResetKeepsResultPdf(t: Tree, uuid: string, locked: bool)
    requires Storage.PlainUuid(uuid) && Storage.ResultPdf() in t
    ensures var pdf, r := Storage.ResultPdf(), Storage.DeleteFolder(t, uuid, locked).tree;
      pdf in r && r[pdf] == t[pdf]
  {
    Storage.ResultOutsideWorkspace(uuid, []);
    Storage.DeleteFolderEffect(t, uuid, locked);
  }

  lemma CreateKeepsResultPdf(t: Tree, uuid: string)
    requires Storage.ResultPdf() in t
    ensures var pdf, r := Storage.ResultPdf(), Storage.CreateFolder(t, uuid).tree;
      pdf in r && r[pdf] == t[pdf]
  {
  }

  lemma DownloadKeepsResultPdf(t: Tree, uuid: string, extension: string, fetch: Storage.Fetch, destLocked: bool)
    requires Storage.PlainUuid(uuid) && NoSeparator(extension) && Storage.ResultPdf() in t
    ensures var pdf, r := Storage.ResultPdf(), Storage.Download(t, Locator.SaveName(uuid, extension), fetch, destLocked).tree;
      pdf in r && r[pdf] == t[pdf]
  {
    Storage.ResultOutsideWorkspace(uuid, extension);
    Storage.DownloadFrame(t, Locator.SaveName(uuid, extension), fetch, destLocked);
  }


  /** The storage steps of the try block keep result/file.pdf as it was,
      for a job with a plain uuid and an extension without separators. */
  lemma WorkspaceKeepsResultPdf(job: Job, w: World, cfg: Config, t: Tree)
    requires Storage.PlainUuid(job.uuid) && NoSeparator(job.extension)
    ensures var r, pdf := Workspace(job, w, cfg, t).tree, Storage.ResultPdf();
      pdf in t ==> pdf in r && r[pdf] == t[pdf]
  {
    var pdf, saveName := Storage.ResultPdf(), Locator.SaveName(job.uuid, job.extension);
    if pdf in t {
      StepsKeepResultPdf(t, job.uuid, job.extension, w.fetch, w.resetLocked, w.destLocked);
      var r1 := Storage.DeleteFolder(t, job.uuid, w.resetLocked);
      StepsKeepResultPdf(r1.tree, job.uuid, job.extension, w.fetch, w.resetLocked, w.destLocked);
      var r2 := Storage.CreateFolder(r1.tree, job.uuid);
      if r1.ok && r2.ok {
        StepsKeepResultPdf(r2.tree, job.uuid, job.extension, w.fetch, w.resetLocked, w.destLocked);
        var r3 := Storage.Download(r2.tree, saveName, w.fetch, w.destLocked);
        StepsKeepResultPdf(r3.tree, job.uuid, job.extension, w.fetch, w.resetLocked, w.destLocked);
        WorkspaceTreeFromDownload(job, w, cfg, t, r1.tree, r2.tree);
      } else {
        WorkspaceStopsEarly(job, w, cfg, t);
      }
    }
  }

  /** A file that is neither Word nor PowerPoint is not converted, yet a
      result/file.pdf left behind by an earlier delivery (whose deletion
      failed) is found and uploaded under this job's key. */
  lemma StalePdfUploaded(doc: Document, w: World, cfg: Config, t: Tree)
    requires ParseMessage(doc).Success?
    requires var job := ParseMessage(doc).value;
      && Storage.PlainUuid(job.uuid) && NoSeparator(job.extension)
      && Converter.Dispatch(Storage.TempFullPath(Locator.SaveName(job.uuid, job.extension))).None?
      && Workspace(job, w, cfg, t).ready
    requires IsFile(t, Storage.ResultPdf())
    ensures var job := ParseMessage(doc).value;
      Handle(doc, w, cfg, t).upload ==
        Some(S3.Put(S3.Request(cfg.s3, Storage.ResultPdf(), Locator.UploadKey(job.uuid, job.fileName)), t[Storage.ResultPdf()].data))
  {
    var job := ParseMessage(doc).value;
    var s := Workspace(job, w, cfg, t);
    var src := Storage.TempFullPath(Locator.SaveName(job.uuid, job.extension));
    WorkspaceKeepsResultPdf(job, w, cfg, t);
    AttemptStages(job, w, cfg, t);
    FinishUploadsFoundPdf(job, w, cfg, s.trace, s.tree);
    assert Converter.Convert(s.tree, src, w.office) == Converter.Outcome([], s.tree, true);
  }

  // ---- cleanup ----

  lemma WorkspaceConsistent(job: Job, w: World, cfg: Config, t: Tree)
    requires Consistent(t)
    ensures Consistent(Workspace(job, w, cfg, t).tree)
  {
    var saveName := Locator.SaveName(job.uuid, job.extension);
    Storage.StepsConsistent(t, job.uuid, saveName, w.fetch, w.resetLocked);
    var r1 := Storage.DeleteFolder(t, job.uuid, w.resetLocked);
    Storage.StepsConsistent(r1.tree, job.uuid, saveName, w.fetch, w.destLocked);
    var r2 := Storage.CreateFolder(r1.tree, job.uuid);
    if r1.ok && r2.ok {
      Storage.StepsConsistent(r2.tree, job.uuid, saveName, w.fetch, w.destLocked);
      var r3 := Storage.Download(r2.tree, saveName, w.fetch, w.destLocked);
      Storage.StepsConsistent(r3.tree, job.uuid, saveName, w.fetch, w.destLocked);
      WorkspaceTreeFromDownload(job, w, cfg, t, r1.tree, r2.tree);
    } else {
      WorkspaceStopsEarly(job, w, cfg, t);
    }
  }

  lemma AttemptConsistent(job: Job, w: World, cfg: Config, t: Tree)
    requires Consistent(t)
    ensures Consistent(Attempt(job, w, cfg, t).tree)
  {
    var s := Workspace(job, w, cfg, t);
    WorkspaceConsistent(job, w, cfg, t);
    AttemptStages(job, w, cfg, t);
    if s.ready {
      var src := Storage.TempFullPath(Locator.SaveName(job.uuid, job.extension));
      FinishUploadsFoundPdf(job, w, cfg, s.trace, s.tree);
      Converter.ConvertFrame(s.tree, src, w.office);
    }
  }

  /** For a non-blank uuid whose final delete does not throw, nothing is
      left of its workspace: the folder is gone and nothing below it
      remains. */
  lemma WorkspaceRemoved(doc: Document, w: World, cfg: Config, t: Tree)
    requires Consistent(t) && ParseMessage(doc).Success?
    requires !IsNullOrWhiteSpace(Some(ParseMessage(doc).value.uuid)) && !w.cleanupLocked
    ensures var r, dir := Handle(doc, w, cfg, t).tree, Storage.UuidFolder(ParseMessage(doc).value.uuid);
      && !IsDir(r, dir)
      && forall q :: q in r && InTree(dir, q) ==> q == dir
  {
    var job := ParseMessage(doc).value;
    var dir := Storage.UuidFolder(job.uuid);
    var p := Attempt(job, w, cfg, t);
    AttemptConsistent(job, w, cfg, t);
    assert dir != [];
    forall q | q in p.tree && InTree(dir, q) && q != dir
      ensures IsDir(p.tree, dir)
    {
      DescendantHasDirAncestor(p.tree, dir, q);
    }
    Storage.DeleteFolderEffect(p.tree, job.uuid, false);
    var t6 := Storage.DeleteFolder(p.tree, job.uuid, false).tree;
    Storage.ClearResultEffect(t6, w.resultLocked);
    Storage.WorkspacePathsApart(job.uuid, []);
    assert InTree(dir, dir);
  }

  /** A blank uuid (empty or white space) is never cleaned up: the finally
      block skips the workspace delete and only the result PDF is deleted. */
  lemma BlankUuidNotCleaned(doc: Document, w: World, cfg: Config, t: Tree)
    requires ParseMessage(doc).Success? && IsNullOrWhiteSpace(Some(ParseMessage(doc).value.uuid))
    ensures var job := ParseMessage(doc).value;
      Handle(doc, w, cfg, t).tree == Storage.ClearResult(Attempt(job, w, cfg, t).tree, w.resultLocked)
  {
  }

  /** No call of a delivery with a blank uuid deletes a workspace. */
  lemma BlankUuidNoCleanupCall(doc: Document, w: World, cfg: Config, t: Tree)
    requires ParseMessage(doc).Success? && IsNullOrWhiteSpace(Some(ParseMessage(doc).value.uuid))
    ensures forall i :: 0 <= i < |Handle(doc, w, cfg, t).trace| ==> !Handle(doc, w, cfg, t).trace[i].CleanupFolder?
  {
    var job := ParseMessage(doc).value;
    var p := Attempt(job, w, cfg, t);
    AttemptFollowsPlan(job, w, cfg, t);
    NoDecisionPlanned(job, cfg, p.trace);
    NoCleanupAppended(Some(job.uuid), p, w);
  }

  lemma NoCleanupAppended(u: Option<string>, p: Attempted, w: World)
    requires IsNullOrWhiteSpace(u)
    requires forall i :: 0 <= i < |p.trace| ==> !p.trace[i].CleanupFolder?
    ensures forall i :: 0 <= i < |Finally(u, p, w).trace| ==> !Finally(u, p, w).trace[i].CleanupFolder?
  {
    var e := Finally(u, p, w).trace;
    var tail := [ClearResultPdf, if p.success then Ack else Nack(false)];
    assert e == p.trace + [] + tail;
    forall i | 0 <= i < |e|
      ensures !e[i].CleanupFolder?
    {
      if i < |p.trace| {
        assert e[i] == p.trace[i];
      } else {
        assert e[i] == tail[i - |p.trace|];
      }
    }
  }

  /** No step after the creation of the workspace removes a directory. */
  lemma LaterStepsKeepDirectories(t: Tree, saveName: string, fetch: Storage.Fetch, destLocked: bool, src: string, run: Converter.OfficeRun, d: string)
    requires IsDir(t, d)
    ensures IsDir(Storage.Download(t, saveName, fetch, destLocked).tree, d)
    ensures IsDir(Storage.PrepareResult(t).tree, d)
    ensures IsDir(Converter.Convert(t, src, run).tree, d)
  {
    Storage.DownloadFrame(t, saveName, fetch, destLocked);
    Storage.PrepareResultEffect(t);
    Converter.ConvertFrame(t, src, run);
  }

  /** Once reset and created, the workspace is still a directory at the end
      of the try block. */
  lemma WorkspaceSurvivesAttempt(job: Job, w: World, cfg: Config, t: Tree)
    requires var r1 := Storage.DeleteFolder(t, job.uuid, w.resetLocked);
      r1.ok && Storage.CreateFolder(r1.tree, job.uuid).ok
      && IsDir(Storage.CreateFolder(r1.tree, job.uuid).tree, Storage.UuidFolder(job.uuid))
    ensures IsDir(Attempt(job, w, cfg, t).tree, Storage.UuidFolder(job.uuid))
  {
    var dir, saveName := Storage.UuidFolder(job.uuid), Locator.SaveName(job.uuid, job.extension);
    var src := Storage.TempFullPath(saveName);
    var r1 := Storage.DeleteFolder(t, job.uuid, w.resetLocked);
    var r2 := Storage.CreateFolder(r1.tree, job.uuid);
    WorkspaceTreeFromDownload(job, w, cfg, t, r1.tree, r2.tree);
    LaterStepsKeepDirectories(r2.tree, saveName, w.fetch, w.destLocked, src, w.office, dir);
    var r3 := Storage.Download(r2.tree, saveName, w.fetch, w.destLocked);
    LaterStepsKeepDirectories(r3.tree, saveName, w.fetch, w.destLocked, src, w.office, dir);
    var s := Workspace(job, w, cfg, t);
    LaterStepsKeepDirectories(s.tree, saveName, w.fetch, w.destLocked, src, w.office, dir);
    AttemptStages(job, w, cfg, t);
    FinishUploadsFoundPdf(job, w, cfg, s.trace, s.tree);
  }

  /** A uuid of white space gets a workspace that is created and then left
      behind for good. Stated for white space above U+0020 (U+00A0, U+3000,
      ...), which a Windows file name keeps as it is. */
  lemma WhiteSpaceUuidLeaksWorkspace(doc: Document, w: World, cfg: Config, t: Tree)
    requires ParseMessage(doc).Success?
    requires var u := ParseMessage(doc).value.uuid;
      u != [] && IsNullOrWhiteSpace(Some(u)) && forall i :: 0 <= i < |u| ==> u[i] > ' '
    requires Consistent(t) && !w.resetLocked
    requires forall a :: a in Ancestors(Storage.UuidFolder(ParseMessage(doc).value.uuid)) ==> !IsFile(t, a)
    ensures IsDir(Handle(doc, w, cfg, t).tree, Storage.UuidFolder(ParseMessage(doc).value.uuid))
  {
    var job := ParseMessage(doc).value;
    var dir := Storage.UuidFolder(job.uuid);
    Storage.ResetThenCreate(t, job.uuid);
    WorkspaceSurvivesAttempt(job, w, cfg, t);
    BlankUuidNotCleaned(doc, w, cfg, t);
    Storage.ClearResultEffect(Attempt(job, w, cfg, t).tree, w.resultLocked);
    Storage.WorkspacePathsApart(job.uuid, []);
    assert InTree(dir, dir);
  }

  /** Unless its deletion throws, no result/file.pdf survives a delivery. */
  lemma ResultPdfCleared(doc: Document, w: World, cfg: Config, t: Tree)
    requires !w.resultLocked
    ensures !IsFile(Handle(doc, w, cfg, t).tree, Storage.ResultPdf())
  {
    var parsed := ParseMessage(doc);
    var p := if parsed.Success? then Attempt(parsed.value, w, cfg, t) else Attempted([], t, None, false);
    var u := if parsed.Success? then Some(parsed.value.uuid) else None;
    var t6 := if !IsNullOrWhiteSpace(u) then Storage.DeleteFolder(p.tree, u.value, w.cleanupLocked).tree else p.tree;
    Storage.ClearResultEffect(t6, false);
  }

  // ---- where the source is saved ----

  /** An empty uuid puts the download at the root of the drive, outside
      "temp": the save name "/file.{ext}" becomes a rooted path. */
  lemma EmptyUuidSavesAtRoot(extension: string)
    requires NoSeparator(extension)
    ensures Storage.TempFullPath(Locator.SaveName([], extension)) == "\\file." + extension
  {
    Locator.SaveNameVerbatim([], extension);
    var s := "/file." + extension;
    var r := "\\file." + extension;
    assert [] + "/file." + extension == s;
    assert ReplaceChar(s, '/', Separator) == r by {
      forall i | 0 <= i < |s|
        ensures (if s[i] == '/' then Separator else s[i]) == r[i]
      {
        if i > 0 {
          assert s[i] == r[i];
        }
      }
    }
  }

  /** The consumer and the services it drives, all over one file system. */
  class Consumer {
    const fs: FileSystem
    const storage: Storage.Storage
    const converter: Converter.Converter
    const uploader: S3.S3Uploader

    ghost predicate Valid()
      reads this, fs
    {
      storage.fs == fs && converter.fs == fs && uploader.fs == fs && fs.Valid()
    }

    constructor (fs: FileSystem, storage: Storage.Storage, converter: Converter.Converter, uploader: S3.S3Uploader)
      requires fs.Valid() && storage.fs == fs && converter.fs == fs && uploader.fs == fs
      ensures Valid()
      ensures this.fs == fs && this.storage == storage && this.converter == converter && this.uploader == uploader
    {
      this.fs := fs;
      this.storage := storage;
      this.converter := converter;
      this.uploader := uploader;
    }

    function Options(): Config
      reads this, storage, uploader
    {
      Config(storage.options, uploader.options)
    }

    /** OnReceivedAsync: the try block (see Process), the finally block and
        the ack or nack. */
    method OnReceived(doc: Document, w: World) returns (trace: seq<Effect>, upload: Option<S3.Put>)
      requires Valid()
      modifies fs
      ensures Valid()
      ensures Delivery(trace, fs.tree, upload) == Handle(doc, w, Options(), old(fs.tree))
    {
      var uuidForCleanup: Option<string> := None;
      var success := false;
      trace, upload := [], None;
      var parsed := ParseMessage(doc);
      if parsed.Success? {
        uuidForCleanup := Some(parsed.value.uuid);
        trace, upload, success := Process(parsed.value, w);
      }
      trace := FinallyBlock(uuidForCleanup, trace, success, w);
    }

    /** The finally block, then the ack or the nack. */
    method FinallyBlock(uuidForCleanup: Option<string>, trace0: seq<Effect>, success: bool, w: World) returns (trace: seq<Effect>)
      requires Valid()
      modifies fs
      ensures Valid()
      ensures var d := Finally(uuidForCleanup, Attempted(trace0, old(fs.tree), None, success), w);
        trace == d.trace && fs.tree == d.tree
    {
      var cleanup := [];
      if !IsNullOrWhiteSpace(uuidForCleanup) {
        cleanup := [CleanupFolder(uuidForCleanup.value)];
        var _ := storage.DeleteUuidFolder(uuidForCleanup.value, w.cleanupLocked);
      }
      storage.DeleteResultPdf(w.resultLocked);
      trace := trace0 + cleanup + [ClearResultPdf, if success then Ack else Nack(false)];
    }

    /** The try block of OnReceivedAsync once the message is parsed. */
    method Process(job: Job, w: World) returns (trace: seq<Effect>, upload: Option<S3.Put>, success: bool)
      requires Valid()
      modifies fs
      ensures Valid()
      ensures Attempted(trace, fs.tree, upload, success) == Attempt(job, w, Options(), old(fs.tree))
    {
      var ready, expectedPdfPath;
      trace, expectedPdfPath, ready := PrepareWorkspace(job, w);
      if !ready {
        return trace, None, false;
      }
      trace, upload, success := ConvertAndUpload(job, w, trace, expectedPdfPath);
    }

    /** The storage calls of the try block: the first one that throws ends it. */
    method PrepareWorkspace(job: Job, w: World) returns (trace: seq<Effect>, expectedPdfPath: string, ready: bool)
      requires Valid()
      modifies fs
      ensures Valid()
      ensures ready ==> expectedPdfPath == Storage.ResultPdf()
      ensures Staged(trace, fs.tree, ready) == Workspace(job, w, Options(), old(fs.tree))
    {
      var names := Locator.BuildSourceAndSaveName(job.uuid, job.fileName, job.extension);
      var source, saveName := names.0, names.1;
      trace := [ResetFolder(job.uuid)];
      ready := storage.DeleteUuidFolder(job.uuid, w.resetLocked);
      expectedPdfPath := [];
      if !ready { return; }
      trace := [ResetFolder(job.uuid), CreateFolder(job.uuid)];
      ready := storage.CreateUuidFolder(job.uuid);
      if !ready { return; }
      var url;
      url, ready := storage.DownloadSourceDocument(source, saveName, w.fetch, w.destLocked);
      trace := [ResetFolder(job.uuid), CreateFolder(job.uuid), Download(url, saveName)];
      if !ready { return; }
      expectedPdfPath, ready := storage.GetResultPdfPath();
      trace := trace + [PrepareResult];
    }

    /** Conversion, the check for the PDF, and the upload; `success` is set
        only after the upload returned. */
    method ConvertAndUpload(job: Job, w: World, trace0: seq<Effect>, expectedPdfPath: string) returns (trace: seq<Effect>, upload: Option<S3.Put>, success: bool)
      requires Valid() && expectedPdfPath == Storage.ResultPdf()
      modifies fs
      ensures Valid()
      ensures Attempted(trace, fs.tree, upload, success) == Finish(job, w, Options(), trace0, old(fs.tree))
    {
      var saveName := Locator.SaveName(job.uuid, job.extension);
      var srcFull := storage.GetTempFullPath(saveName);
      trace, upload, success := trace0 + [ConvertDocument(srcFull)], None, false;
      var _, converted := converter.ConvertToPdf(srcFull, w.office);
      if !converted { return; }
      var found := fs.FileExists(expectedPdfPath);
      if !found { return; }
      var put, stored := UploadPdfToS3(job.uuid, job.fileName, expectedPdfPath, w.accepted);
      trace := trace + [Upload(put.value.request)];
      upload := put;
      success := stored.Some?;
    }

    /** UploadPdfToS3Async: the key is `{uuid}/{base name}.pdf`. */
    method UploadPdfToS3(uuid: string, fileName: string, pdfFull: string, accepted: bool) returns (put: Option<S3.Put>, url: Option<string>)
      requires Valid()
      ensures put.Some? <==> IsFile(fs.tree, pdfFull)
      ensures put.Some? ==> put.value == S3.Put(S3.Request(uploader.options, pdfFull, Locator.UploadKey(uuid, fileName)), fs.tree[pdfFull].data)
      ensures url.Some? <==> put.Some? && accepted
    {
      var s3Key := uuid + "/" + Locator.BaseName(fileName) + ".pdf";
      put, url := uploader.UploadPdf(pdfFull, s3Key, accepted);
    }
  }
}
