/** Converter.cs: Office automation that turns a Word or PowerPoint document
    into result/file.pdf. Office itself is outside the model: an `OfficeRun`
    says at which call, if any, it throws and which bytes it saves. */
module Converter {
  import opened Wrappers
  import opened Strings
  import opened Paths
  import opened Disk

  datatype App = Word | PowerPoint

  /** The automation calls of one conversion, in the order they are made. */
  datatype ComStep =
    | Launch         // new Application()
    | HideWindow     // the `Visible = false` initializer (Word only)
    | SilenceAlerts  // DisplayAlerts = none
    | Open           // Documents.Open / Presentations.Open
    | SaveAsPdf      // SaveAs2 / SaveAs in PDF format
    | Close          // closing the document
    | Quit           // Application.Quit()

  /** A call that returned, or a Dispose in the finally block. */
  datatype ComEvent = Returned(step: ComStep) | DisposeDocument | DisposeApplication

  /** How Office behaves on this run: the call that throws (if any) and the
      PDF bytes it saves. */
  datatype OfficeRun = OfficeRun(fault: Option<ComStep>, pdf: seq<byte>)

  /** What a conversion leaves behind: the calls and disposals made, the file
      system, and whether it returned without throwing. */
  datatype Outcome = Outcome(events: seq<ComEvent>, tree: Tree, ok: bool)

  /** Path.Combine(Path.Combine(AppContext.BaseDirectory, "result"), "file.pdf"),
      relative to the base directory. */
  function OutputPath(): (p: string)
    ensures p == "result\\file.pdf"
  {
    Combine(Combine([], "result"), "file.pdf")
  }

  /** Path.GetExtension(srcPath).TrimStart('.').ToLowerInvariant(). */
  function NormalizedExtension(srcPath: string): string
  {
    ToLowerInvariant(TrimStart(GetExtension(srcPath), '.'))
  }

  /** The switch of ConvertToPdf: which application handles the file, if any. */
  function Dispatch(srcPath: string): Option<App>
  {
    var ext := NormalizedExtension(srcPath);
    if ext == "doc" || ext == "docx" then Some(Word)
    else if ext == "ppt" || ext == "pptx" then Some(PowerPoint)
    else None
  }

  /** The calls ConvertWord and ConvertPowerPoint make inside their try. */
  function Steps(app: App): seq<ComStep>
  {
    match app
    case Word => [Launch, HideWindow, SilenceAlerts, Open, SaveAsPdf, Close, Quit]
    case PowerPoint => [Launch, SilenceAlerts, Open, SaveAsPdf, Close, Quit]
  }

  /** The call after which the local holding the application is non-null:
      Word's object initializer must finish before `word` is assigned. */
  function Holder(app: App): ComStep
  {
    match app
    case Word => HideWindow
    case PowerPoint => Launch
  }

  /** Whether `step` throws: Office faults there, the source file cannot be
      opened, or the PDF cannot be written. */
  predicate Fails(t: Tree, src: string, dst: string, run: OfficeRun, step: ComStep)
  {
    || run.fault == Some(step)
    || (step == Open && !IsFile(t, src))
    || (step == SaveAsPdf && WriteFile(t, dst, run.pdf).None?)
  }

  /** Where `step` comes in Steps(app); -1 when the application does not
      make that call. */
  function Position(app: App, step: ComStep): (k: int)
    ensures -1 <= k < |Steps(app)|
    ensures k >= 0 <==> step in Steps(app)
    ensures k >= 0 ==> Steps(app)[k] == step
  {
    match (app, step)
    case (_, Launch) => 0
    case (Word, HideWindow) => 1
    case (PowerPoint, HideWindow) => -1
    case (Word, SilenceAlerts) => 2
    case (PowerPoint, SilenceAlerts) => 1
    case (Word, Open) => 3
    case (PowerPoint, Open) => 2
    case (Word, SaveAsPdf) => 4
    case (PowerPoint, SaveAsPdf) => 3
    case (Word, Close) => 5
    case (PowerPoint, Close) => 4
    case (Word, Quit) => 6
    case (PowerPoint, Quit) => 5
  }

  /** How many of `steps` from index `i` on return before the first one that
      throws, counted from the start. */
  function ReachedFrom(steps: seq<ComStep>, i: nat, t: Tree, src: string, dst: string, run: OfficeRun): (n: nat)
    requires i <= |steps|
    ensures i <= n <= |steps|
    ensures forall j :: i <= j < n ==> !Fails(t, src, dst, run, steps[j])
    ensures n < |steps| ==> Fails(t, src, dst, run, steps[n])
    decreases |steps| - i
  {
    if i == |steps| || Fails(t, src, dst, run, steps[i]) then i
    else ReachedFrom(steps, i + 1, t, src, dst, run)
  }

  /** How many of `steps` return before the first one that throws. */
  function Reached(steps: seq<ComStep>, t: Tree, src: string, dst: string, run: OfficeRun): (n: nat)
    ensures n <= |steps|
    ensures forall i :: 0 <= i < n ==> !Fails(t, src, dst, run, steps[i])
    ensures n < |steps| ==> Fails(t, src, dst, run, steps[n])
  {
    ReachedFrom(steps, 0, t, src, dst, run)
  }

  function Calls(done: seq<ComStep>): (r: seq<ComEvent>)
    ensures |r| == |done| && forall i :: 0 <= i < |r| ==> r[i] == Returned(done[i])
  {
    seq(|done|, i requires 0 <= i < |done| => Returned(done[i]))
  }

  /** One ConvertWord or ConvertPowerPoint: the calls that returned, then
      the document disposed if it was opened, then the application disposed
      if its local was assigned; the PDF is on disk once the save returned. */
  function Session(app: App, t: Tree, src: string, dst: string, run: OfficeRun): Outcome
  {
    var steps := Steps(app);
    var n := Reached(steps, t, src, dst, run);
    Outcome(
      Calls(steps[..n])
        + (if Position(app, Open) < n then [DisposeDocument] else [])
        + (if Position(app, Holder(app)) < n then [DisposeApplication] else []),
      if Position(app, SaveAsPdf) < n then WriteFile(t, dst, run.pdf).value else t,
      n == |steps|)
  }

  /** ConvertToPdf: a file with another extension is skipped silently. */
  function Convert(t: Tree, src: string, run: OfficeRun): Outcome
  {
    match Dispatch(src)
    case None => Outcome([], t, true)
    case Some(app) => Session(app, t, src, OutputPath(), run)
  }

  // ---- lemmas ----

  /** The count of returned calls is the index of the first call that throws. */
  lemma ReachedUnique(steps: seq<ComStep>, t: Tree, src: string, dst: string, run: OfficeRun, k: nat)
    requires k <= |steps|
    requires forall i :: 0 <= i < k ==> !Fails(t, src, dst, run, steps[i])
    requires k < |steps| ==> Fails(t, src, dst, run, steps[k])
    ensures Reached(steps, t, src, dst, run) == k
  {
  }

  /** Word's calls, tried one after the other: the count of those that
      returned, step by step. */
  lemma ReachedWord(t: Tree, src: string, dst: string, run: OfficeRun)
    ensures Reached(Steps(Word), t, src, dst, run) ==
      if Fails(t, src, dst, run, Launch) then 0
      else if Fails(t, src, dst, run, HideWindow) then 1
      else if Fails(t, src, dst, run, SilenceAlerts) then 2
      else if Fails(t, src, dst, run, Open) then 3
      else if Fails(t, src, dst, run, SaveAsPdf) then 4
      else if Fails(t, src, dst, run, Close) then 5
      else if Fails(t, src, dst, run, Quit) then 6
      else 7
  {
    var steps := Steps(Word);
    assert steps == [Launch, HideWindow, SilenceAlerts, Open, SaveAsPdf, Close, Quit];
    var n := Reached(steps, t, src, dst, run);
    assert n >= 1 ==> !Fails(t, src, dst, run, steps[0]);
    assert n >= 2 ==> !Fails(t, src, dst, run, steps[1]);
    assert n >= 3 ==> !Fails(t, src, dst, run, steps[2]);
    assert n >= 4 ==> !Fails(t, src, dst, run, steps[3]);
    assert n >= 5 ==> !Fails(t, src, dst, run, steps[4]);
    assert n >= 6 ==> !Fails(t, src, dst, run, steps[5]);
    assert n >= 7 ==> !Fails(t, src, dst, run, steps[6]);
  }

  /** PowerPoint's calls, tried one after the other. */
  lemma ReachedPowerPoint(t: Tree, src: string, dst: string, run: OfficeRun)
    ensures Reached(Steps(PowerPoint), t, src, dst, run) ==
      if Fails(t, src, dst, run, Launch) then 0
      else if Fails(t, src, dst, run, SilenceAlerts) then 1
      else if Fails(t, src, dst, run, Open) then 2
      else if Fails(t, src, dst, run, SaveAsPdf) then 3
      else if Fails(t, src, dst, run, Close) then 4
      else if Fails(t, src, dst, run, Quit) then 5
      else 6
  {
    var steps := Steps(PowerPoint);
    assert steps == [Launch, SilenceAlerts, Open, SaveAsPdf, Close, Quit];
    var n := Reached(steps, t, src, dst, run);
    assert n >= 1 ==> !Fails(t, src, dst, run, steps[0]);
    assert n >= 2 ==> !Fails(t, src, dst, run, steps[1]);
    assert n >= 3 ==> !Fails(t, src, dst, run, steps[2]);
    assert n >= 4 ==> !Fails(t, src, dst, run, steps[3]);
    assert n >= 5 ==> !Fails(t, src, dst, run, steps[4]);
    assert n >= 6 ==> !Fails(t, src, dst, run, steps[5]);
  }

  /** A call has returned exactly when the run got past its position. */
  lemma ReturnedIffPast(app: App, n: nat, step: ComStep)
    requires n <= |Steps(app)|
    ensures Returned(step) in Calls(Steps(app)[..n]) <==> 0 <= Position(app, step) < n
  {
    var calls := Calls(Steps(app)[..n]);
    if Returned(step) in calls {
      var i :| 0 <= i < |calls| && calls[i] == Returned(step);
      assert Steps(app)[i] == step;
      PositionUnique(app, i);
    }
    if 0 <= Position(app, step) < n {
      assert calls[Position(app, step)] == Returned(step);
    }
  }

  /** Each call comes once in an application's sequence. */
  lemma PositionUnique(app: App, i: nat)
    requires i < |Steps(app)|
    ensures Position(app, Steps(app)[i]) == i
  {
  }

  /** The extension test ignores case and the directories and dots of the
      name: only the text after the last '.' decides. */
  lemma DispatchOf(dir: string, name: string, ext: string)
    requires dir == [] || IsSep(dir[|dir| - 1])
    requires NoSeparator(name) && NoSeparator(ext) && '.' !in ext && ext != []
    ensures NormalizedExtension(dir + name + "." + ext) == ToLowerInvariant(ext)
  {
    ExtensionOf(dir, name, ext);
    TrimLeadingDot(ext);
  }

  lemma TrimLeadingDot(ext: string)
    requires ext != [] && ext[0] != '.'
    ensures TrimStart("." + ext, '.') == ext
  {
    assert ("." + ext)[1..] == ext;
  }

  /** Dispatch is decided by the lower-cased extension alone. */
  lemma DispatchIff(srcPath: string)
    ensures Dispatch(srcPath) == Some(Word) <==> NormalizedExtension(srcPath) in {"doc", "docx"}
    ensures Dispatch(srcPath) == Some(PowerPoint) <==> NormalizedExtension(srcPath) in {"ppt", "pptx"}
    ensures Dispatch(srcPath).None? <==> NormalizedExtension(srcPath) !in {"doc", "docx", "ppt", "pptx"}
  {
  }

  /** A run succeeds exactly when Office does not fault on any of its calls,
      the source file exists and the PDF can be written. */
  lemma SessionSucceedsIff(app: App, t: Tree, src: string, dst: string, run: OfficeRun)
    ensures Session(app, t, src, dst, run).ok <==>
      (run.fault.None? || run.fault.value !in Steps(app)) && IsFile(t, src) && WriteFile(t, dst, run.pdf).Some?
  {
    var steps := Steps(app);
    if Reached(steps, t, src, dst, run) == |steps| {
      assert !Fails(t, src, dst, run, steps[Position(app, Open)]);
      assert !Fails(t, src, dst, run, steps[Position(app, SaveAsPdf)]);
    }
  }

  /** Each handle is disposed exactly when it was obtained: the document once
      Open returned, the application once its local was assigned. */
  lemma DisposedIffAcquired(app: App, t: Tree, src: string, dst: string, run: OfficeRun)
    ensures var r := Session(app, t, src, dst, run);
      && (DisposeDocument in r.events <==> Returned(Open) in r.events)
      && (DisposeApplication in r.events <==> Returned(Holder(app)) in r.events)
  {
    var steps := Steps(app);
    var n := Reached(steps, t, src, dst, run);
    var calls := Calls(steps[..n]);
    ReturnedIffPast(app, n, Open);
    ReturnedIffPast(app, n, Holder(app));
    assert DisposeDocument !in calls && DisposeApplication !in calls;
  }

  /** Word's object initializer runs before `word` is assigned: when hiding
      the window throws, Word has been started but is never disposed.
      PowerPoint's application is disposed whenever it was started. */
  lemma LaunchedButNotDisposed(t: Tree, src: string, dst: string, run: OfficeRun)
    requires run.fault == Some(HideWindow)
    ensures Returned(Launch) in Session(Word, t, src, dst, run).events
    ensures DisposeApplication !in Session(Word, t, src, dst, run).events
  {
    ReachedUnique(Steps(Word), t, src, dst, run, 1);
    ReturnedIffPast(Word, 1, Launch);
  }

  lemma PowerPointAlwaysDisposed(t: Tree, src: string, dst: string, run: OfficeRun)
    ensures Returned(Launch) in Session(PowerPoint, t, src, dst, run).events ==>
            DisposeApplication in Session(PowerPoint, t, src, dst, run).events
  {
    DisposedIffAcquired(PowerPoint, t, src, dst, run);
  }

  /** Every disposal comes after every call, the document's before the
      application's. */
  lemma DisposalsLast(app: App, t: Tree, src: string, dst: string, run: OfficeRun, i: nat, j: nat)
    requires var e := Session(app, t, src, dst, run).events; i < j < |e|
    ensures var e := Session(app, t, src, dst, run).events;
      && (e[i].DisposeDocument? || e[i].DisposeApplication? ==> !e[j].Returned?)
      && (e[i].DisposeApplication? ==> !e[j].DisposeDocument?)
  {
  }

  /** Only the output path changes, and it holds Office's PDF exactly when
      the save call returned. */
  lemma OutputIffSaved(app: App, t: Tree, src: string, dst: string, run: OfficeRun)
    ensures var r := Session(app, t, src, dst, run);
      && (forall p :: p != dst ==> (p in r.tree <==> p in t) && (p in t ==> r.tree[p] == t[p]))
      && (Returned(SaveAsPdf) in r.events ==> IsFile(r.tree, dst) && r.tree[dst].data == run.pdf)
      && (Returned(SaveAsPdf) !in r.events ==> r.tree == t)
      && (r.ok ==> Returned(SaveAsPdf) in r.events)
  {
    var steps := Steps(app);
    var n := Reached(steps, t, src, dst, run);
    ReturnedIffPast(app, n, SaveAsPdf);
    var e := Session(app, t, src, dst, run).events;
    assert Returned(SaveAsPdf) in e <==> Returned(SaveAsPdf) in Calls(steps[..n]);
  }

  /** A fault while closing or quitting makes the conversion throw although
      the PDF has already been written. */
  lemma LateFaultKeepsPdf(app: App, t: Tree, src: string, dst: string, run: OfficeRun)
    requires run.fault == Some(Close) || run.fault == Some(Quit)
    requires IsFile(t, src) && WriteFile(t, dst, run.pdf).Some?
    ensures !Session(app, t, src, dst, run).ok
    ensures IsFile(Session(app, t, src, dst, run).tree, dst)
    ensures Session(app, t, src, dst, run).tree[dst].data == run.pdf
  {
    var k := Position(app, run.fault.value);
    ReachedUnique(Steps(app), t, src, dst, run, k);
    assert Reached(Steps(app), t, src, dst, run) == k;
    assert Position(app, SaveAsPdf) < k < |Steps(app)|;
  }

  /** A conversion changes nothing but the output file: every other entry,
      every directory and the tree's consistency are kept. */
  lemma ConvertFrame(t: Tree, src: string, run: OfficeRun)
    ensures var r := Convert(t, src, run).tree;
      && (forall p :: p != OutputPath() ==> (p in r <==> p in t) && (p in t ==> r[p] == t[p]))
      && (forall p :: IsDir(t, p) ==> IsDir(r, p))
      && (Consistent(t) ==> Consistent(r))
  {
    ConvertWritesAtMostOutput(t, src, run);
    if Convert(t, src, run).tree != t && Consistent(t) {
      WriteFileConsistent(t, OutputPath(), run.pdf);
    }
  }

  lemma ConvertWritesAtMostOutput(t: Tree, src: string, run: OfficeRun)
    ensures var r := Convert(t, src, run).tree;
      r == t || (WriteFile(t, OutputPath(), run.pdf).Some? && r == WriteFile(t, OutputPath(), run.pdf).value)
  {
    match Dispatch(src)
    case None =>
    case Some(app) => SessionWritesAtMostOutput(app, t, src, OutputPath(), run);
  }

  lemma SessionWritesAtMostOutput(app: App, t: Tree, src: string, dst: string, run: OfficeRun)
    ensures var r := Session(app, t, src, dst, run).tree;
      r == t || (WriteFile(t, dst, run.pdf).Some? && r == WriteFile(t, dst, run.pdf).value)
  {
  }

  /** A conversion that returns has written Office's PDF to the output path,
      unless the file was skipped for its extension. */
  lemma ConvertedPdf(t: Tree, src: string, run: OfficeRun)
    requires Dispatch(src).Some? && Convert(t, src, run).ok
    ensures IsFile(Convert(t, src, run).tree, OutputPath())
    ensures Convert(t, src, run).tree[OutputPath()].data == run.pdf
  {
    OutputIffSaved(Dispatch(src).value, t, src, OutputPath(), run);
  }

  /** A file that is neither Word nor PowerPoint is left alone and the call
      returns normally. */
  lemma SkippedExtension(t: Tree, src: string, run: OfficeRun)
    requires NormalizedExtension(src) !in {"doc", "docx", "ppt", "pptx"}
    ensures Convert(t, src, run) == Outcome([], t, true)
  {
  }

  /** The handles a run left assigned, read back from the number of calls
      that returned. */
  lemma SessionAfter(app: App, t: Tree, src: string, dst: string, run: OfficeRun, n: nat, doc: bool, application: bool)
    requires n == Reached(Steps(app), t, src, dst, run)
    requires doc <==> Position(app, Open) < n
    requires application <==> Position(app, Holder(app)) < n
    ensures Session(app, t, src, dst, run).events ==
      Calls(Steps(app)[..n]) + (if doc then [DisposeDocument] else []) + (if application then [DisposeApplication] else [])
    ensures Session(app, t, src, dst, run).ok == (n == |Steps(app)|)
  {
  }

  // ---- the class ----

  /** The converter, writing through the shared file system. */
  class Converter {
    const fs: FileSystem

    constructor (fs: FileSystem)
      ensures this.fs == fs
    {
      this.fs := fs;
    }

    /** ConvertToPdf: picks the application from the extension. */
    method ConvertToPdf(srcPath: string, run: OfficeRun) returns (events: seq<ComEvent>, ok: bool)
      requires fs.Valid()
      modifies fs
      ensures fs.Valid()
      ensures Outcome(events, fs.tree, ok) == Convert(old(fs.tree), srcPath, run)
    {
      var dstPath := Combine(Combine([], "result"), "file.pdf");
      var ext := ToLowerInvariant(TrimStart(GetExtension(srcPath), '.'));
      if ext == "doc" || ext == "docx" {
        events, ok := ConvertWord(srcPath, dstPath, run);
      } else if ext == "ppt" || ext == "pptx" {
        events, ok := ConvertPowerPoint(srcPath, dstPath, run);
      } else {
        events, ok := [], true;
      }
    }

    /** ConvertWord: the try block (RunWord), then the finally block, which
        disposes whatever handles were assigned. */
    method ConvertWord(srcPath: string, dstPath: string, run: OfficeRun) returns (events: seq<ComEvent>, ok: bool)
      requires fs.Valid()
      modifies fs
      ensures fs.Valid()
      ensures Outcome(events, fs.tree, ok) == Session(Word, old(fs.tree), srcPath, dstPath, run)
    {
      var n, word, doc := RunWord(srcPath, dstPath, run);
      ReachedWord(old(fs.tree), srcPath, dstPath, run);
      SessionAfter(Word, old(fs.tree), srcPath, dstPath, run, n, doc, word);
      events := Calls(Steps(Word)[..n]);
      if doc {
        events := events + [DisposeDocument];
      }
      if word {
        events := events + [DisposeApplication];
      }
      ok := n == |Steps(Word)|;
    }

    /** The try block of ConvertWord: it stops at the first call that
        throws; `n` counts the calls that returned, `word` and `doc` say
        which locals were assigned. */
    method RunWord(srcPath: string, dstPath: string, run: OfficeRun) returns (n: nat, word: bool, doc: bool)
      requires fs.Valid()
      modifies fs
      ensures fs.Valid()
      ensures var t := old(fs.tree);
        n == if Fails(t, srcPath, dstPath, run, Launch) then 0
             else if Fails(t, srcPath, dstPath, run, HideWindow) then 1
             else if Fails(t, srcPath, dstPath, run, SilenceAlerts) then 2
             else if Fails(t, srcPath, dstPath, run, Open) then 3
             else if Fails(t, srcPath, dstPath, run, SaveAsPdf) then 4
             else if Fails(t, srcPath, dstPath, run, Close) then 5
             else if Fails(t, srcPath, dstPath, run, Quit) then 6
             else 7
      ensures word <==> n >= 2
      ensures doc <==> n >= 4
      ensures fs.tree == if n >= 5 then WriteFile(old(fs.tree), dstPath, run.pdf).value else old(fs.tree)
    {
      word, doc, n := false, false, 0;
      label attempt: {
        if run.fault == Some(Launch) { break attempt; }
        n := 1;
        if run.fault == Some(HideWindow) { break attempt; }
        n := 2;
        word := true;
        if run.fault == Some(SilenceAlerts) { break attempt; }
        n := 3;
        var found := fs.FileExists(srcPath);
        if run.fault == Some(Open) || !found { break attempt; }
        n := 4;
        doc := true;
        if run.fault == Some(SaveAsPdf) { break attempt; }
        var saved := fs.CreateFile(dstPath, run.pdf);
        if !saved { break attempt; }
        n := 5;
        if run.fault == Some(Close) { break attempt; }
        n := 6;
        if run.fault == Some(Quit) { break attempt; }
        n := 7;
      }
    }

    /** ConvertPowerPoint: as ConvertWord, with no initializer between
        starting PowerPoint and assigning `ppt`. */
    method ConvertPowerPoint(srcPath: string, dstPath: string, run: OfficeRun) returns (events: seq<ComEvent>, ok: bool)
      requires fs.Valid()
      modifies fs
      ensures fs.Valid()
      ensures Outcome(events, fs.tree, ok) == Session(PowerPoint, old(fs.tree), srcPath, dstPath, run)
    {
      var n, ppt, pres := RunPowerPoint(srcPath, dstPath, run);
      ReachedPowerPoint(old(fs.tree), srcPath, dstPath, run);
      SessionAfter(PowerPoint, old(fs.tree), srcPath, dstPath, run, n, pres, ppt);
      events := Calls(Steps(PowerPoint)[..n]);
      if pres {
        events := events + [DisposeDocument];
      }
      if ppt {
        events := events + [DisposeApplication];
      }
      ok := n == |Steps(PowerPoint)|;
    }

    /** The try block of ConvertPowerPoint. */
    method RunPowerPoint(srcPath: string, dstPath: string, run: OfficeRun) returns (n: nat, ppt: bool, pres: bool)
      requires fs.Valid()
      modifies fs
      ensures fs.Valid()
      ensures var t := old(fs.tree);
        n == if Fails(t, srcPath, dstPath, run, Launch) then 0
             else if Fails(t, srcPath, dstPath, run, SilenceAlerts) then 1
             else if Fails(t, srcPath, dstPath, run, Open) then 2
             else if Fails(t, srcPath, dstPath, run, SaveAsPdf) then 3
             else if Fails(t, srcPath, dstPath, run, Close) then 4
             else if Fails(t, srcPath, dstPath, run, Quit) then 5
             else 6
      ensures ppt <==> n >= 1
      ensures pres <==> n >= 3
      ensures fs.tree == if n >= 4 then WriteFile(old(fs.tree), dstPath, run.pdf).value else old(fs.tree)
    {
      ppt, pres, n := false, false, 0;
      label attempt: {
        if run.fault == Some(Launch) { break attempt; }
        n := 1;
        ppt := true;
        if run.fault == Some(SilenceAlerts) { break attempt; }
        n := 2;
        var found := fs.FileExists(srcPath);
        if run.fault == Some(Open) || !found { break attempt; }
        n := 3;
        pres := true;
        if run.fault == Some(SaveAsPdf) { break attempt; }
        var saved := fs.CreateFile(dstPath, run.pdf);
        if !saved { break attempt; }
        n := 4;
        if run.fault == Some(Close) { break attempt; }
        n := 5;
        if run.fault == Some(Quit) { break attempt; }
        n := 6;
      }
    }
  }
}
