/**
 The `/upload` request handler as one decision: the platform and empty-upload
 checks, the conversion loop, the empty-result check, the archive, and what
 becomes of the request's temporary workspace on each way out.
 */
module Upload {
  import opened Paths
  import opened Items
  import opened Batch

  /**
   One request: whether the host is Windows, the `files` field (absent, or the
   uploaded items in order), and the exception writing the archive raises, if any.
   */
  datatype Request = Request(onWindows: bool, files: Option<seq<UploadItem>>, archiveFault: Option<string>)

  datatype Response =
    | PlatformUnsupported
    | NoFilesUploaded
    | NoValidFiles
    | ConversionError(fileName: string, err: Option<string>)
    | ServerError(message: string)
    | Download(downloadName: string, entries: seq<string>)

  /** What happens to the temporary workspace once the handler returns. */
  datatype WorkspaceFate =
    | NeverCreated
    | LeftInPlace
    | RemovedNow
    | RemovalScheduled(delay: nat)

  /** The response, the workspace's fate, and the indices of the items handed to the engine. */
  datatype Reply = Reply(response: Response, workspace: WorkspaceFate, submitted: seq<nat>)

  const CleanupDelay: nat := 5
  const ArchiveName: string := "converted_pdfs.zip"

  function Status(r: Response): nat {
    match r
    case PlatformUnsupported => 400
    case NoFilesUploaded => 400
    case NoValidFiles => 400
    case ConversionError(_, _) => 500
    case ServerError(_) => 500
    case Download(_, _) => 200
  }

  /** How an engine error is rendered in a message; a missing error prints as `None`. */
  function ErrText(e: Option<string>): string {
    match e
    case None => "None"
    case Some(s) => s
  }

  /** The plain-text body of an error response. */
  function Body(r: Response): string
    requires !r.Download?
  {
    match r
    case PlatformUnsupported => "This service currently only supports Windows with MS PowerPoint installed."
    case NoFilesUploaded => "No files uploaded"
    case NoValidFiles => "No valid PPT/PPTX files converted."
    case ConversionError(name, err) => "Conversion failed for " + name + ": " + ErrText(err)
    case ServerError(message) => "Server error: " + message
  }

  /** The archive's entry names: the last component of each created path, in order. */
  function ArchiveEntries(created: seq<string>): seq<string> {
    seq(|created|, i requires 0 <= i < |created| => Basename(created[i]))
  }

  predicate NoFiles(req: Request) {
    req.files.None? || |req.files.value| == 0
  }

  function Handle(env: Setting, req: Request): (r: Reply)
    ensures r.response.PlatformUnsupported? <==> !req.onWindows
    ensures r.response.NoFilesUploaded? <==> req.onWindows && NoFiles(req)
    ensures r.workspace == NeverCreated <==> r.response.PlatformUnsupported? || r.response.NoFilesUploaded?
    ensures r.workspace == NeverCreated ==> r.submitted == []
    ensures r.workspace == LeftInPlace <==> r.response.NoValidFiles? || r.response.ConversionError?
    ensures r.workspace == RemovedNow <==> r.response.ServerError?
    ensures r.workspace.RemovalScheduled? <==> r.response.Download?
    ensures r.workspace.RemovalScheduled? ==> r.workspace.delay == CleanupDelay
    ensures r.response.Download? ==> r.response.downloadName == ArchiveName && |r.response.entries| > 0
  {
    if !req.onWindows then Reply(PlatformUnsupported, NeverCreated, [])
    else if NoFiles(req) then Reply(NoFilesUploaded, NeverCreated, [])
    else
      match ConvertAll(env, req.files.value)
      case ConversionAborted(_, name, err, submitted) => Reply(ConversionError(name, err), LeftInPlace, submitted)
      case Raised(_, message, submitted) => Reply(ServerError(message), RemovedNow, submitted)
      case Completed(created, submitted) =>
        if |created| == 0 then Reply(NoValidFiles, LeftInPlace, submitted)
        else
          match req.archiveFault
          case Some(message) => Reply(ServerError(message), RemovedNow, submitted)
          case None => Reply(Download(ArchiveName, ArchiveEntries(created)), RemovalScheduled(CleanupDelay), submitted)
  }

  /** The request got past both 400 checks and carries these items. */
  predicate Admitted(req: Request, items: seq<UploadItem>) {
    req.onWindows && req.files == Some(items) && |items| > 0
  }

  /**
   Fail-fast: the first stopping item decides the reply. A failed conversion is a
   500 naming that item and leaves the workspace; an exception while saving it is
   a 500 "Server error" and removes the workspace at once. No archive is returned,
   so the items converted before it are discarded, and nothing after it was saved
   or submitted.
   */
  lemma FailFast(env: Setting, req: Request, items: seq<UploadItem>, k: nat)
    requires Admitted(req, items)
    requires k < |items| && Stops(Outcome(env, items[k]))
    requires forall j :: 0 <= j < k ==> !Stops(Outcome(env, items[j]))
    ensures var r := Handle(env, req);
      && Status(r.response) == 500
      && (Outcome(env, items[k]).ConversionFailed? ==>
            && r.response == ConversionError(ItemName(env, items[k]), items[k].verdict.err)
            && Body(r.response) == "Conversion failed for " + ItemName(env, items[k]) + ": "
                 + (if items[k].verdict.err.Some? then items[k].verdict.err.value else "None")
            && r.workspace == LeftInPlace)
      && (Outcome(env, items[k]).SaveRaised? ==>
            && r.response == ServerError(items[k].saveFault.value)
            && r.workspace == RemovedNow)
    ensures var r := Handle(env, req);
      forall j :: j in r.submitted <==>
        (0 <= j < k && Accepted(ItemName(env, items[j]))) || (j == k && Outcome(env, items[k]).ConversionFailed?)
  {
    ConvertAllStops(env, items, k);
    ConvertAllStopsSubmitted(env, items, k);
  }

  /**
   The 400 "No valid PPT/PPTX files converted." is returned exactly when every
   uploaded item was skipped; nothing was submitted and the workspace stays.
   */
  lemma NoValidFilesIffAllSkipped(env: Setting, req: Request)
    ensures Handle(env, req).response.NoValidFiles? <==>
      && req.onWindows && req.files.Some? && |req.files.value| > 0
      && forall j :: 0 <= j < |req.files.value| ==> !Accepted(ItemName(env, req.files.value[j]))
    ensures Handle(env, req).response.NoValidFiles? ==>
      Handle(env, req).submitted == [] && Handle(env, req).workspace == LeftInPlace
  {
    if req.onWindows && !NoFiles(req) {
      var items := req.files.value;
      var r := ConvertAll(env, items);
      ConvertAllCompletesIff(env, items);
      if forall j :: 0 <= j < |items| ==> !Accepted(ItemName(env, items[j])) {
        ConvertAllCompletes(env, items);
      } else if r.Completed? {
        ConvertAllCompletes(env, items);
      }
    }
  }

  /**
   An archive is returned exactly when the request was admitted, no item stopped
   the loop, at least one item passed the filter, and writing the archive did
   not raise. Its removal is then scheduled after the grace delay.
   */
  lemma DownloadIff(env: Setting, req: Request)
    ensures Handle(env, req).response.Download? <==>
      && req.onWindows && req.files.Some? && |req.files.value| > 0
      && (forall j :: 0 <= j < |req.files.value| ==> !Stops(Outcome(env, req.files.value[j])))
      && (exists j :: 0 <= j < |req.files.value| && Accepted(ItemName(env, req.files.value[j])))
      && req.archiveFault.None?
    ensures Handle(env, req).response.Download? ==> Handle(env, req).workspace == RemovalScheduled(CleanupDelay)
  {
    NoValidFilesIffAllSkipped(env, req);
    if req.onWindows && !NoFiles(req) {
      ConvertAllCompletesIff(env, req.files.value);
    }
  }

  /**
   The archive holds one entry per item that passed the filter, in input order,
   each named by the last component of that item's output name: the item's name
   with its final extension replaced by `.pdf`. Names are not made unique.
   */
  lemma DownloadEntries(env: Setting, req: Request)
    requires Handle(env, req).response.Download?
    ensures req.files.Some?
    ensures var items, r := req.files.value, Handle(env, req);
      && (forall j :: j in r.submitted <==> 0 <= j < |items| && Accepted(ItemName(env, items[j])))
      && (forall a, b :: 0 <= a < b < |r.submitted| ==> r.submitted[a] < r.submitted[b])
      && |r.response.entries| == |r.submitted|
      && forall t :: 0 <= t < |r.submitted| ==>
           r.submitted[t] < |items| &&
           r.response.entries[t] == Basename(PdfName(ItemName(env, items[r.submitted[t]])))
  {
    DownloadIff(env, req);
    var items := req.files.value;
    ConvertAllCompletes(env, items);
    var c := ConvertAll(env, items);
    forall t | 0 <= t < |c.submitted|
      ensures ArchiveEntries(c.created)[t] == Basename(PdfName(ItemName(env, items[c.submitted[t]])))
    {
      BasenameJoin(OutDir(env.root), PdfName(ItemName(env, items[c.submitted[t]])));
    }
  }

  /** An exception while writing the archive is a 500 "Server error" and removes the workspace at once. */
  lemma ArchiveFaultRemovesWorkspace(env: Setting, req: Request, items: seq<UploadItem>)
    requires Admitted(req, items)
    requires forall j :: 0 <= j < |items| ==> !Stops(Outcome(env, items[j]))
    requires exists j :: 0 <= j < |items| && Accepted(ItemName(env, items[j]))
    requires req.archiveFault.Some?
    ensures Handle(env, req) == Reply(ServerError(req.archiveFault.value), RemovedNow, ConvertAll(env, items).submitted)
  {
    ConvertAllCompletes(env, items);
  }

  /**
   A "Server error" reply comes only from an exception: saving the first stopping
   item raised it, or writing the archive did.
   */
  lemma ServerErrorCause(env: Setting, req: Request)
    requires Handle(env, req).response.ServerError?
    ensures req.onWindows && req.files.Some?
    ensures var items, m := req.files.value, Handle(env, req).response.message;
      || req.archiveFault == Some(m)
      || exists k: nat :: k < |items| && IsFirstStop(Outcomes(env, items), k) && items[k].saveFault == Some(m)
  {
    var items := req.files.value;
    var r := ConvertAll(env, items);
    if r.Raised? {
      LoopSpec(Outcomes(env, items));
      ConvertAllStops(env, items, r.index);
    }
  }

  /**
   A kept item whose save raises, ahead of any other stopping item, gives the 500
   "Server error" with the exception's text and removes the workspace at once,
   whatever the engine would have answered for it.
   */
  lemma SaveFaultIsServerError(env: Setting, req: Request, items: seq<UploadItem>, k: nat)
    requires Admitted(req, items)
    requires k < |items| && Accepted(ItemName(env, items[k])) && items[k].saveFault.Some?
    requires forall j :: 0 <= j < k ==> !Stops(Outcome(env, items[j]))
    ensures Handle(env, req).response == ServerError(items[k].saveFault.value)
    ensures Handle(env, req).workspace == RemovedNow
  {
    assert Outcome(env, items[k]).SaveRaised?;
    FailFast(env, req, items, k);
  }

  /** `stem` plus a presentation extension is accepted, and its archive entry is `stem` plus `.pdf`. */
  lemma PlainNameEntry(stem: string, ext: string)
    requires |stem| > 0 && stem[0] != ExtSep
    requires forall j :: 0 <= j < |stem| ==> !IsSep(stem[j])
    requires IsPptExtension(ext)
    ensures Accepted(stem + ext)
    ensures Basename(PdfName(stem + ext)) == stem + PdfSuffix
  {
    SepIndexUnique(stem, -1);
    assert HasStem(stem) by {
      assert -1 < 0 < |stem| && stem[0] != ExtSep;
    }
    PdfNameReplacesExtension(stem, ext);
    var out := stem + PdfSuffix;
    assert forall j :: 0 <= j < |out| ==> !IsSep(out[j]) by {
      assert PdfSuffix == ['.', 'p', 'd', 'f'];
      forall j | 0 <= j < |out|
        ensures !IsSep(out[j])
      {
        if j >= |stem| {
          assert out[j] == PdfSuffix[j - |stem|];
        }
      }
    }
    BasenameOfPlainName(out);
  }

  /** The upload converts cleanly: nothing raises while saving and the engine reports success with a file. */
  predicate ConvertsCleanly(item: UploadItem) {
    item.saveFault.None? && item.verdict.ok && item.verdict.artifactExists
  }

  lemma ArchiveEntriesOfTwo(p: string, q: string)
    ensures ArchiveEntries([p, q]) == [Basename(p), Basename(q)]
  {
  }

  /** Two accepted uploads that both convert cleanly are both submitted, in order, and both saved. */
  lemma TwoCleanConversions(env: Setting, a: UploadItem, b: UploadItem)
    requires Accepted(ItemName(env, a)) && Accepted(ItemName(env, b))
    requires ConvertsCleanly(a) && ConvertsCleanly(b)
    ensures ConvertAll(env, [a, b])
         == Completed([PdfPath(env.root, ItemName(env, a)), PdfPath(env.root, ItemName(env, b))], [0, 1])
  {
    var os := Outcomes(env, [a, b]);
    var p, q := PdfPath(env.root, ItemName(env, a)), PdfPath(env.root, ItemName(env, b));
    assert os[0] == Converted(p);
    assert os[1] == Converted(q);
    var none: seq<nat> := [];
    assert [] + [p] == [p] && [p] + [q] == [p, q];
    assert none + [0] == [0] && [0] + [1] == [0, 1];
    assert RunLoop(os, 2, [p, q], [0, 1]) == Completed([p, q], [0, 1]);
    assert RunLoop(os, 1, [p], [0]) == RunLoop(os, 2, [p, q], [0, 1]);
    assert RunLoop(os, 0, [], none) == RunLoop(os, 1, [p], [0]);
    assert ConvertAll(env, [a, b]) == RunLoop(os, 0, [], none);
  }

  /**
   Two uploads whose names share a stem and differ only in their presentation extension
   (`a.ppt` and `a.pptx`) are both converted to the same `out\a.pdf`, and the archive
   lists that entry name twice.
   */
  lemma SameStemSameEntry(env: Setting, a: UploadItem, b: UploadItem, stem: string, ea: string, eb: string)
    requires |stem| > 0 && stem[0] != ExtSep
    requires forall j :: 0 <= j < |stem| ==> !IsSep(stem[j])
    requires IsPptExtension(ea) && IsPptExtension(eb)
    requires ItemName(env, a) == stem + ea && ItemName(env, b) == stem + eb
    requires ConvertsCleanly(a) && ConvertsCleanly(b)
    ensures Handle(env, Request(true, Some([a, b]), None))
         == Reply(Download(ArchiveName, [stem + PdfSuffix, stem + PdfSuffix]), RemovalScheduled(CleanupDelay), [0, 1])
  {
    PlainNameEntry(stem, ea);
    PlainNameEntry(stem, eb);
    TwoCleanConversions(env, a, b);
    var p, q := PdfPath(env.root, stem + ea), PdfPath(env.root, stem + eb);
    BasenameJoin(OutDir(env.root), PdfName(stem + ea));
    BasenameJoin(OutDir(env.root), PdfName(stem + eb));
    ArchiveEntriesOfTwo(p, q);
  }
}
