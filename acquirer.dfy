/**
 * The acquirer-downloader (index.js): for each link record, open a browser
 * page to find the media source, then download it to `videos/<title>.mp4`
 * unless that file already exists, pausing between items.
 *
 * The browser and the HTTP transfer are outside the model: what they do for
 * an item arrives as an injected outcome (`ItemEnv`), and so does the value
 * of `Math.random()` for the pause. The files already in `videos/` are a set
 * of names, held by a `VideoStore` whose set the downloads extend.
 */
module Acquirer {
  import opened Wrappers
  import opened Naming
  import opened Extractor

  /** What the page script returns: `{videoSrc, userAgent}`; a null source is the empty string. */
  datatype Descriptor = Descriptor(videoSrc: string, userAgent: string)

  /**
   * What the page shows after the navigation of line 113:
   * - `VisitFailed`: that navigation or the pause of lines 118-120 rejected;
   * - `NoPlayer(video)`: `#video-player` did not appear within the 10 s of
   *   `waitForSelector` (line 124), which rejects; `video` is what a plain
   *   `video` element of the page would have given, which the code never reads;
   * - `Probed(primary, fallback)`: the player appeared, and the page scripts of
   *   lines 127-136 and 140-149 returned these; the fallback is reached only
   *   when the player is gone again by the time of the first script.
   */
  datatype Probe =
    | VisitFailed
    | NoPlayer(video: Option<Descriptor>)
    | Probed(primary: Option<Descriptor>, fallback: Option<Descriptor>)

  /**
   * How one page of the browser behaves for one item: whether `newPage()`
   * (line 70) resolved; for which raw addresses the set-up of lines 72-108
   * resolves (its navigation at line 76 uses the item's url as it is, before
   * any prefix rule); what the page shows when sent to a given address at
   * line 113; and whether `page.close()` (line 166) resolved.
   */
  datatype PageSession = PageSession(newPageOk: bool, setupOk: string -> bool, visit: string -> Probe, closeOk: bool)

  /** How `getVideoUrl` completes: it returns a descriptor, returns null, or rejects. */
  datatype PageResult = Found(info: Descriptor) | NotFound | Threw

  /**
   * The name lines 111 and 163 use for the address. `Param` is the parameter
   * `url` of line 69, as intended; `Undeclared` is `pageUrl`, as written,
   * which nothing in scope declares.
   */
  datatype UrlRef = Param | Undeclared

  /** Evaluating the name: `pageUrl` throws a ReferenceError. */
  function UrlValue(ref: UrlRef, url: string): Option<string>
  {
    match ref
    case Param => Some(url)
    case Undeclared => None
  }

  /** The descriptor the page scripts give, the player's first: what lines 151-158 return. */
  function Preferred(primary: Option<Descriptor>, fallback: Option<Descriptor>): Option<Descriptor>
  {
    if primary.Some? then primary else fallback
  }

  /**
   * The try block of lines 72-159. It never completes with null: it returns a
   * descriptor exactly when the set-up accepts the raw address, the address
   * can be evaluated, and the page at its full form shows the player and one
   * of the two scripts gives a descriptor (the player's first); otherwise it throws.
   */
  function TryBlock(ref: UrlRef, url: string, s: PageSession): (r: PageResult)
    ensures !r.NotFound?
    ensures r.Found? <==>
              && s.setupOk(url) && ref == Param
              && s.visit(FullUrl(url)).Probed?
              && Preferred(s.visit(FullUrl(url)).primary, s.visit(FullUrl(url)).fallback).Some?
    ensures r.Found? ==> Some(r.info) == Preferred(s.visit(FullUrl(url)).primary, s.visit(FullUrl(url)).fallback)
  {
    if !s.setupOk(url) then Threw
    else match UrlValue(ref, url)
      case None => Threw  // line 111
      case Some(u) =>
        match s.visit(FullUrl(u))
        case VisitFailed => Threw
        case NoPlayer(_) => Threw  // line 124
        case Probed(primary, fallback) =>
          match Preferred(primary, fallback)
          case Some(d) => Found(d)
          case None => Threw  // line 152
  }

  /**
   * The catch block of lines 161-164: log the address and return null, unless
   * reading the address throws again (line 163).
   */
  function CatchBlock(ref: UrlRef, url: string): (r: PageResult)
    ensures !r.Found?
    ensures r.NotFound? <==> ref == Param
  {
    if UrlValue(ref, url).Some? then NotFound else Threw
  }

  /**
   * `getVideoUrl` with the given name at lines 111 and 163. A rejected
   * `newPage()` escapes (it is outside the try); a failure inside the try
   * goes to the catch; a rejected `close()` in the finally replaces the
   * outcome. So it finds a descriptor exactly when the page opens and closes
   * and the try block finds one; it returns null exactly when the page opens
   * and closes, the try block throws and the catch survives.
   */
  function GetVideoUrlVia(ref: UrlRef, url: string, s: PageSession): (r: PageResult)
    ensures r.Found? <==> s.newPageOk && s.closeOk && TryBlock(ref, url, s).Found?
    ensures r.Found? ==> r == TryBlock(ref, url, s)
    ensures r.NotFound? <==> s.newPageOk && s.closeOk && TryBlock(ref, url, s).Threw? && ref == Param
  {
    if !s.newPageOk then Threw
    else
      var tried := TryBlock(ref, url, s);
      var completed := if tried.Threw? then CatchBlock(ref, url) else tried;
      if s.closeOk then completed else Threw
  }

  /**
   * `getVideoUrl` as intended (with `url` at line 111). It rejects exactly
   * when the page cannot be opened or closed. It finds a descriptor exactly
   * when the set-up accepts the raw address, the page at `FullUrl(url)` shows
   * `#video-player` in time, and a page script then gives a descriptor, the
   * player's first. Otherwise it returns null.
   */
  function GetVideoUrl(url: string, s: PageSession): (r: PageResult)
    ensures r.Threw? <==> !s.newPageOk || !s.closeOk
    ensures r.Found? <==>
              && s.newPageOk && s.setupOk(url) && s.closeOk
              && s.visit(FullUrl(url)).Probed?
              && (s.visit(FullUrl(url)).primary.Some? || s.visit(FullUrl(url)).fallback.Some?)
    ensures r.Found? ==>
              r.info == (if s.visit(FullUrl(url)).primary.Some? then s.visit(FullUrl(url)).primary.value
                         else s.visit(FullUrl(url)).fallback.value)
  {
    GetVideoUrlVia(Param, url, s)
  }

  /**
   * A page without `#video-player` gives null even when it has a `video`
   * element: `waitForSelector` rejects before the fallback script can run.
   */
  lemma NoPlayerGivesNull(url: string, s: PageSession, d: Descriptor)
    requires s.newPageOk && s.closeOk && s.setupOk(url)
    requires s.visit(FullUrl(url)) == NoPlayer(Some(d))
    ensures GetVideoUrl(url, s) == NotFound
  {
  }

  /**
   * The first navigation uses the raw url: when the set-up rejects it, the
   * item gives null whatever the page at the full address would show.
   */
  lemma RawAddressRejectedGivesNull(url: string, s: PageSession)
    requires s.newPageOk && s.closeOk && !s.setupOk(url)
    ensures GetVideoUrl(url, s) == NotFound
  {
  }

  /**
   * `getVideoUrl` as written: whatever the browser does, it rejects. Either
   * `newPage()` rejects, or the try block fails (at the latest at line 111,
   * where `pageUrl` throws) and the catch block throws again at line 163.
   */
  lemma AsWrittenAlwaysRejects(url: string, s: PageSession)
    ensures GetVideoUrlVia(Undeclared, url, s) == Threw
  {
  }

  /** What the streamed GET of lines 193-236 does once issued. */
  datatype Transfer =
    | HttpError                          // axios rejects: HTTP error, timeout, too many redirects
    | WriteError(leftPartialFile: bool)  // the writer emits 'error'; the file may already exist
    | StreamFinished                     // the writer emits 'finish'

  /** How `downloadVideo` completes. */
  datatype DownloadResult =
    | Saved(file: string)  // resolves with the path of the new file
    | Existing             // returns null: the file was already there
    | RequestFailed        // returns null: the catch of line 238 took the axios rejection
    | WriterFailed         // rejects: the returned promise is not awaited inside the try

  datatype DownloadOut = DownloadOut(result: DownloadResult, files: set<string>)

  /**
   * `downloadVideo` on the set of existing file names, for the target name
   * computed at line 183. It skips, without a
   * request and without change, exactly when the target name exists; it saves
   * exactly when the transfer finishes, adding the target name; in no case
   * does it add any other name.
   */
  function Download(files: set<string>, target: string, transfer: Transfer): (o: DownloadOut)
    ensures o.result.Existing? <==> target in files
    ensures o.result.Existing? ==> o.files == files
    ensures o.result.Saved? <==> target !in files && transfer.StreamFinished?
    ensures o.result.Saved? ==> o.result.file == target && o.files == files + {target}
    ensures o.result.RequestFailed? ==> o.files == files
    ensures files <= o.files <= files + {target}
  {
    if target in files then DownloadOut(Existing, files)
    else
      match transfer
      case HttpError => DownloadOut(RequestFailed, files)
      case WriteError(left) => DownloadOut(WriterFailed, if left then files + {target} else files)
      case StreamFinished => DownloadOut(Saved(target), files + {target})
  }

  /** The `videos/` directory, seen as the set of file names it holds. */
  class VideoStore {
    var files: set<string>

    constructor (existing: set<string>)
      ensures files == existing
    {
      files := existing;
    }

    /**
     * `downloadVideo(videoInfo, fileName)` (lines 171-242). The descriptor
     * only feeds the GET request (its address and headers); what the server
     * sends back is `transfer`, so `info` does not enter the result.
     */
    method DownloadVideo(info: Descriptor, title: string, transfer: Transfer) returns (r: DownloadResult)
      modifies this
      ensures DownloadOut(r, files) == Download(old(files), TargetName(title), transfer)
    {
      var sanitizedFileName := TargetName(title);
      if sanitizedFileName in files {
        return Existing;
      }
      match transfer
      case HttpError =>
        r := RequestFailed;
      case WriteError(left) =>
        if left {
          files := files + {sanitizedFileName};
        }
        r := WriterFailed;
      case StreamFinished =>
        files := files + {sanitizedFileName};
        r := Saved(sanitizedFileName);
    }
  }

  /** How the loop of `main` ends one item, by the line it logs. */
  datatype ItemStatus =
    | Downloaded(file: string)  // line 286
    | AlreadyPresent            // line 288, the file existed
    | RequestAborted            // line 288 too: downloadVideo caught the HTTP failure and returned null
    | NoVideoSource             // line 291
    | Errored                   // line 302, an exception reached main's catch

  /**
   * What happened to one item: its status, the descriptor of the GET request
   * issued for it (if any), and the pause that followed it (if any).
   */
  datatype ItemReport = ItemReport(status: ItemStatus, request: Option<Descriptor>, delay: Option<int>)

  /** The injected outcomes for one item: its browser page, its transfer, its `Math.random()` draw. */
  datatype ItemEnv = ItemEnv(session: PageSession, transfer: Transfer, draw: Fraction)

  /** Lines 295-299: a pause follows only an item that has a successor. */
  function DelayAfter(hasNext: bool, draw: Fraction): Option<int>
  {
    if hasNext then Some(InterItemDelayMs(draw)) else None
  }

  /**
   * The report of one item, from the outcome of `getVideoUrl` and, when a
   * download was attempted, of `downloadVideo`. An exception skips the rest
   * of the try block, the pause included.
   */
  function ReportOf(page: PageResult, download: Option<DownloadResult>, hasNext: bool, draw: Fraction): (r: ItemReport)
    ensures r.status.Errored? <==> page.Threw? || (page.Found? && download == Some(WriterFailed))
    ensures r.delay.Some? <==> hasNext && !r.status.Errored?
    ensures r.delay.Some? ==> r.delay.value == InterItemDelayMs(draw)
    ensures r.request.Some? <==> page.Found? && download.Some? && !download.value.Existing?
    ensures r.request.Some? ==> r.request == Some(page.info)
    ensures r.status.Downloaded? <==> page.Found? && download.Some? && download.value.Saved?
    ensures r.status.Downloaded? ==> r.status.file == download.value.file
  {
    match page
    case Threw => ItemReport(Errored, None, None)
    case NotFound => ItemReport(NoVideoSource, None, DelayAfter(hasNext, draw))
    case Found(info) =>
      match download
      case None => ItemReport(NoVideoSource, None, DelayAfter(hasNext, draw))
      case Some(Existing) => ItemReport(AlreadyPresent, None, DelayAfter(hasNext, draw))
      case Some(Saved(file)) => ItemReport(Downloaded(file), Some(info), DelayAfter(hasNext, draw))
      case Some(RequestFailed) => ItemReport(RequestAborted, Some(info), DelayAfter(hasNext, draw))
      case Some(WriterFailed) => ItemReport(Errored, Some(info), None)
  }

  /** A download is attempted only for a descriptor with a non-empty source (line 282). */
  predicate Downloadable(page: PageResult)
  {
    page.Found? && page.info.videoSrc != ""
  }

  datatype Step = Step(report: ItemReport, files: set<string>)

  /**
   * One pass of the loop body of lines 273-303, on the set of existing files.
   * `name` is the rule that turns a title into its file name: `main` uses
   * `TargetName` (line 183), and what is proved below holds for any rule.
   */
  function ItemStep(ref: UrlRef, name: string -> string, files: set<string>, hasNext: bool, item: LinkRecord, e: ItemEnv): (s: Step)
    ensures files <= s.files <= files + {name(item.text)}
    ensures s.report.status.Downloaded? ==> s.report.status.file == name(item.text) && name(item.text) in s.files
    ensures s.report.status.AlreadyPresent? ==> name(item.text) in s.files
  {
    var page := GetVideoUrlVia(ref, item.url, e.session);
    if Downloadable(page) then
      var out := Download(files, name(item.text), e.transfer);
      Step(ReportOf(page, Some(out.result), hasNext, e.draw), out.files)
    else
      Step(ReportOf(page, None, hasNext, e.draw), files)
  }

  /**
   * What one pass promises. A pause follows the item exactly when it has a
   * successor and its try block ended normally, and lasts 30000 to 34999 ms.
   * A request is issued exactly for a found, non-empty source whose target
   * file is missing, and the item is downloaded exactly when that transfer
   * then finishes. An item without a source fails (lines 290-292) and changes
   * no file; one whose target exists is skipped or fails in the browser. The
   * only file that can appear is the item's target. With `pageUrl` the item
   * always fails.
   */
  lemma ItemStepFacts(ref: UrlRef, name: string -> string, files: set<string>, hasNext: bool, item: LinkRecord, e: ItemEnv)
    ensures var s, page, target := ItemStep(ref, name, files, hasNext, item, e), GetVideoUrlVia(ref, item.url, e.session), name(item.text);
            && (s.report.delay.Some? <==> hasNext && !s.report.status.Errored?)
            && (s.report.delay.Some? ==> s.report.delay.value == InterItemDelayMs(e.draw))
            && (s.report.request.Some? <==> Downloadable(page) && target !in files)
            && (s.report.request.Some? ==> s.report.request == Some(page.info))
            && (s.report.status.Downloaded? <==> Downloadable(page) && target !in files && e.transfer.StreamFinished?)
            && (s.report.status.Downloaded? ==> s.report.status.file == target && s.files == files + {target})
            && (s.report.status.AlreadyPresent? <==> Downloadable(page) && target in files)
            && (!Downloadable(page) ==>
                  s.files == files && s.report.request.None? && s.report.status in {NoVideoSource, Errored})
            && (target in files ==>
                  s.files == files && s.report.request.None? && s.report.status in {AlreadyPresent, NoVideoSource, Errored})
            && (ref == Undeclared ==> s == Step(ItemReport(Errored, None, None), files))
  {
    if ref == Undeclared {
      AsWrittenAlwaysRejects(item.url, e.session);
    }
  }

  /** The state of the batch: the existing files and the reports so far. */
  datatype Batch = Batch(files: set<string>, reports: seq<ItemReport>)

  /** The batch after the loop has handled items 0 .. k-1, in that order. */
  function RunPrefix(ref: UrlRef, name: string -> string, files0: set<string>, items: seq<LinkRecord>, env: seq<ItemEnv>, k: nat): (b: Batch)
    requires |env| == |items| && k <= |items|
    ensures |b.reports| == k
  {
    if k == 0 then Batch(files0, [])
    else
      var before := RunPrefix(ref, name, files0, items, env, k - 1);
      var s := ItemStep(ref, name, before.files, k - 1 < |items| - 1, items[k - 1], env[k - 1]);
      Batch(s.files, before.reports + [s.report])
  }

  /**
   * `main`: nothing is processed when the browser does not launch (the outer
   * catch of line 307) or the list is empty (line 265); otherwise every item,
   * one report each.
   */
  function Run(ref: UrlRef, name: string -> string, launched: bool, files0: set<string>, items: seq<LinkRecord>, env: seq<ItemEnv>): (b: Batch)
    requires |env| == |items|
    ensures !launched || items == [] ==> b == Batch(files0, [])
    ensures launched ==> |b.reports| == |items|
  {
    if !launched || |items| == 0 then Batch(files0, [])
    else RunPrefix(ref, name, files0, items, env, |items|)
  }

  /**
   * One pass of the try block of lines 278-299, with `url` at line 111: find
   * the media descriptor on a fresh page, download when there is a source,
   * and report the item with the pause that follows it.
   */
  method ProcessItem(store: VideoStore, item: LinkRecord, e: ItemEnv, hasNext: bool) returns (report: ItemReport)
    modifies store
    ensures Step(report, store.files) == ItemStep(Param, TargetName, old(store.files), hasNext, item, e)
  {
    var videoInfo := GetVideoUrl(item.url, e.session);
    var download: Option<DownloadResult> := None;
    if Downloadable(videoInfo) {
      var r := store.DownloadVideo(videoInfo.info, item.text, e.transfer);
      download := Some(r);
    }
    report := ReportOf(videoInfo, download, hasNext, e.draw);
  }

  /**
   * The loop of `main` (lines 272-304), with `url` at line 111: every item in
   * order, each on the files the items before it left.
   */
  method ProcessItems(store: VideoStore, launched: bool, items: seq<LinkRecord>, env: seq<ItemEnv>)
    returns (reports: seq<ItemReport>)
    requires |env| == |items|
    modifies store
    ensures Batch(store.files, reports) == Run(Param, TargetName, launched, old(store.files), items, env)
  {
    reports := [];
    if !launched || |items| == 0 {
      return;
    }
    ghost var files0 := store.files;
    var i := 0;
    while i < |items|
      invariant 0 <= i <= |items|
      invariant Batch(store.files, reports) == RunPrefix(Param, TargetName, files0, items, env, i)
    {
      var report := ProcessItem(store, items[i], env[i], i < |items| - 1);
      reports := reports + [report];
      i := i + 1;
      assert Batch(store.files, reports) == RunPrefix(Param, TargetName, files0, items, env, i);
    }
  }

  /** Report j, once written, stays as it is while later items are handled. */
  lemma {:induction false} PrefixStable(ref: UrlRef, name: string -> string, files0: set<string>, items: seq<LinkRecord>, env: seq<ItemEnv>, j: nat, k: nat)
    requires |env| == |items| && j < k <= |items|
    ensures RunPrefix(ref, name, files0, items, env, k).reports[j] == RunPrefix(ref, name, files0, items, env, j + 1).reports[j]
  {
    if j + 1 < k {
      PrefixStable(ref, name, files0, items, env, j, k - 1);
      var before := RunPrefix(ref, name, files0, items, env, k - 1);
      var after := RunPrefix(ref, name, files0, items, env, k);
      assert after.reports[..k - 1] == before.reports;
    }
  }

  /**
   * Items are handled in index order, each exactly once: report j is the
   * report of item j alone, on the files that items 0 .. j-1 left. What
   * happened to earlier items, failures included, changes nothing else.
   */
  lemma PrefixReports(ref: UrlRef, name: string -> string, files0: set<string>, items: seq<LinkRecord>, env: seq<ItemEnv>, k: nat)
    requires |env| == |items| && k <= |items|
    ensures forall j :: 0 <= j < k ==>
              RunPrefix(ref, name, files0, items, env, k).reports[j] ==
                ItemStep(ref, name, RunPrefix(ref, name, files0, items, env, j).files, j < |items| - 1, items[j], env[j]).report
  {
    forall j | 0 <= j < k
      ensures RunPrefix(ref, name, files0, items, env, k).reports[j] ==
              ItemStep(ref, name, RunPrefix(ref, name, files0, items, env, j).files, j < |items| - 1, items[j], env[j]).report
    {
      PrefixStable(ref, name, files0, items, env, j, k);
    }
  }

  /** The batch's own statement of the loop: every item, in order, each on the files left before it. */
  lemma ItemsInOrder(ref: UrlRef, name: string -> string, files0: set<string>, items: seq<LinkRecord>, env: seq<ItemEnv>)
    requires |env| == |items|
    ensures forall j :: 0 <= j < |items| ==>
              Run(ref, name, true, files0, items, env).reports[j] ==
                ItemStep(ref, name, RunPrefix(ref, name, files0, items, env, j).files, j < |items| - 1, items[j], env[j]).report
  {
    if items != [] {
      PrefixReports(ref, name, files0, items, env, |items|);
    }
  }

  /**
   * Pauses: one follows item j exactly when j is not the last item and the
   * item did not end in an exception, and it lasts 30000 to 34999 ms.
   */
  lemma DelaysBetweenItems(ref: UrlRef, name: string -> string, launched: bool, files0: set<string>, items: seq<LinkRecord>, env: seq<ItemEnv>)
    requires |env| == |items|
    ensures var rs := Run(ref, name, launched, files0, items, env).reports;
            forall j :: 0 <= j < |rs| ==>
              && (rs[j].delay.Some? <==> j < |items| - 1 && !rs[j].status.Errored?)
              && (rs[j].delay.Some? ==> rs[j].delay.value == InterItemDelayMs(env[j].draw))
              && (rs[j].delay.Some? ==> 30000 <= rs[j].delay.value < 35000)
  {
    if launched && items != [] {
      ItemsInOrder(ref, name, files0, items, env);
      forall j | 0 <= j < |items|
      {
        ItemStepFacts(ref, name, RunPrefix(ref, name, files0, items, env, j).files, j < |items| - 1, items[j], env[j]);
      }
    }
  }

  /**
   * Requests: item j issues a GET request exactly when a non-empty source was
   * found for it and its target file was not there when its turn came, and
   * the request carries the descriptor found.
   */
  lemma RequestsNeedVideoSource(ref: UrlRef, name: string -> string, launched: bool, files0: set<string>, items: seq<LinkRecord>, env: seq<ItemEnv>)
    requires |env| == |items|
    ensures var rs := Run(ref, name, launched, files0, items, env).reports;
            forall j :: 0 <= j < |rs| ==>
              && (rs[j].request.Some? <==>
                    Downloadable(GetVideoUrlVia(ref, items[j].url, env[j].session)) &&
                    name(items[j].text) !in RunPrefix(ref, name, files0, items, env, j).files)
              && (rs[j].request.Some? ==> rs[j].request.value == GetVideoUrlVia(ref, items[j].url, env[j].session).info)
  {
    if launched && items != [] {
      ItemsInOrder(ref, name, files0, items, env);
      forall j | 0 <= j < |items|
      {
        ItemStepFacts(ref, name, RunPrefix(ref, name, files0, items, env, j).files, j < |items| - 1, items[j], env[j]);
      }
    }
  }

  /**
   * Downloads: item j is reported as downloaded exactly when a non-empty
   * source was found, its target was missing and the transfer finished; the
   * reported file is the item's target.
   */
  lemma DownloadsWhenPossible(ref: UrlRef, name: string -> string, launched: bool, files0: set<string>, items: seq<LinkRecord>, env: seq<ItemEnv>)
    requires |env| == |items|
    ensures var rs := Run(ref, name, launched, files0, items, env).reports;
            forall j :: 0 <= j < |rs| ==>
              && (rs[j].status.Downloaded? <==>
                    && Downloadable(GetVideoUrlVia(ref, items[j].url, env[j].session))
                    && name(items[j].text) !in RunPrefix(ref, name, files0, items, env, j).files
                    && env[j].transfer.StreamFinished?)
              && (rs[j].status.Downloaded? ==> rs[j].status.file == name(items[j].text))
  {
    if launched && items != [] {
      ItemsInOrder(ref, name, files0, items, env);
      forall j | 0 <= j < |items|
      {
        ItemStepFacts(ref, name, RunPrefix(ref, name, files0, items, env, j).files, j < |items| - 1, items[j], env[j]);
      }
    }
  }

  /**
   * Items without a playable source: no request, and the item is reported as
   * having no source or as failed.
   */
  lemma NoSourceNoRequest(ref: UrlRef, name: string -> string, launched: bool, files0: set<string>, items: seq<LinkRecord>, env: seq<ItemEnv>)
    requires |env| == |items|
    ensures var rs := Run(ref, name, launched, files0, items, env).reports;
            forall j :: 0 <= j < |rs| && !Downloadable(GetVideoUrlVia(ref, items[j].url, env[j].session)) ==>
              rs[j].request.None? && rs[j].status in {NoVideoSource, Errored}
  {
    if launched && items != [] {
      ItemsInOrder(ref, name, files0, items, env);
      forall j | 0 <= j < |items|
      {
        ItemStepFacts(ref, name, RunPrefix(ref, name, files0, items, env, j).files, j < |items| - 1, items[j], env[j]);
      }
    }
  }

  /** An item without a playable source leaves the files as they were. */
  lemma {:induction false} NoSourceKeepsFiles(ref: UrlRef, name: string -> string, files0: set<string>, items: seq<LinkRecord>, env: seq<ItemEnv>, j: nat)
    requires |env| == |items| && j < |items|
    requires !Downloadable(GetVideoUrlVia(ref, items[j].url, env[j].session))
    ensures RunPrefix(ref, name, files0, items, env, j + 1).files == RunPrefix(ref, name, files0, items, env, j).files
  {
    ItemStepFacts(ref, name, RunPrefix(ref, name, files0, items, env, j).files, j < |items| - 1, items[j], env[j]);
  }

  /** The target names of the first k items. */
  function TargetNames(name: string -> string, items: seq<LinkRecord>, k: nat): set<string>
    requires k <= |items|
  {
    set j | 0 <= j < k :: name(items[j].text)
  }

  /** One more item adds its own target name. */
  lemma TargetNamesStep(name: string -> string, items: seq<LinkRecord>, k: nat)
    requires k < |items|
    ensures TargetNames(name, items, k + 1) == TargetNames(name, items, k) + {name(items[k].text)}
  {
  }

  /** The files only grow, and only by target names of handled items. */
  lemma {:induction false} PrefixFiles(ref: UrlRef, name: string -> string, files0: set<string>, items: seq<LinkRecord>, env: seq<ItemEnv>, k: nat)
    requires |env| == |items| && k <= |items|
    ensures files0 <= RunPrefix(ref, name, files0, items, env, k).files <= files0 + TargetNames(name, items, k)
  {
    if k > 0 {
      PrefixFiles(ref, name, files0, items, env, k - 1);
      var before := RunPrefix(ref, name, files0, items, env, k - 1);
      var s := ItemStep(ref, name, before.files, k - 1 < |items| - 1, items[k - 1], env[k - 1]);
      assert RunPrefix(ref, name, files0, items, env, k).files == s.files;
      TargetNamesStep(name, items, k - 1);
    }
  }

  /** Files are never removed along the loop. */
  lemma {:induction false} PrefixFilesGrow(ref: UrlRef, name: string -> string, files0: set<string>, items: seq<LinkRecord>, env: seq<ItemEnv>, j: nat, k: nat)
    requires |env| == |items| && j <= k <= |items|
    ensures RunPrefix(ref, name, files0, items, env, j).files <= RunPrefix(ref, name, files0, items, env, k).files
  {
    if j < k {
      PrefixFilesGrow(ref, name, files0, items, env, j, k - 1);
      var before := RunPrefix(ref, name, files0, items, env, k - 1);
      var s := ItemStep(ref, name, before.files, k - 1 < |items| - 1, items[k - 1], env[k - 1]);
      assert RunPrefix(ref, name, files0, items, env, k).files == s.files;
    }
  }

  /** Every item reported so far as downloaded or already present has its target among the files. */
  lemma {:induction false} PrefixReportedInFiles(ref: UrlRef, name: string -> string, files0: set<string>, items: seq<LinkRecord>, env: seq<ItemEnv>, k: nat)
    requires |env| == |items| && k <= |items|
    ensures var b := RunPrefix(ref, name, files0, items, env, k);
            forall j :: 0 <= j < k ==>
              && (b.reports[j].status.Downloaded? ==> b.reports[j].status.file == name(items[j].text))
              && (b.reports[j].status.Downloaded? || b.reports[j].status.AlreadyPresent? ==> name(items[j].text) in b.files)
  {
    if k > 0 {
      PrefixReportedInFiles(ref, name, files0, items, env, k - 1);
      var before := RunPrefix(ref, name, files0, items, env, k - 1);
      var s := ItemStep(ref, name, before.files, k - 1 < |items| - 1, items[k - 1], env[k - 1]);
      var after := RunPrefix(ref, name, files0, items, env, k);
      assert after.reports == before.reports + [s.report] && after.files == s.files;
      forall j | 0 <= j < k - 1 ensures after.reports[j] == before.reports[j] {
      }
    }
  }

  /**
   * After the run: the existing files are still there, every new file is the
   * target of some item, each item reported as downloaded has its target
   * file in the set, and so has each item reported as already present.
   */
  lemma RunFiles(ref: UrlRef, name: string -> string, launched: bool, files0: set<string>, items: seq<LinkRecord>, env: seq<ItemEnv>)
    requires |env| == |items|
    ensures var b := Run(ref, name, launched, files0, items, env);
            && files0 <= b.files <= files0 + TargetNames(name, items, |items|)
            && (forall j :: 0 <= j < |b.reports| && b.reports[j].status.Downloaded? ==>
                  b.reports[j].status.file == name(items[j].text) && name(items[j].text) in b.files)
            && (forall j :: 0 <= j < |b.reports| && b.reports[j].status.AlreadyPresent? ==>
                  name(items[j].text) in b.files)
  {
    if launched && items != [] {
      PrefixFiles(ref, name, files0, items, env, |items|);
      PrefixReportedInFiles(ref, name, files0, items, env, |items|);
    }
  }

  /** When every target already exists, the loop requests nothing, downloads nothing and changes no file. */
  lemma {:induction false} PrefixAllPresent(ref: UrlRef, name: string -> string, files0: set<string>, items: seq<LinkRecord>, env: seq<ItemEnv>, k: nat)
    requires |env| == |items| && k <= |items|
    requires forall j :: 0 <= j < |items| ==> name(items[j].text) in files0
    ensures RunPrefix(ref, name, files0, items, env, k).files == files0
    ensures forall j :: 0 <= j < k ==>
              && RunPrefix(ref, name, files0, items, env, k).reports[j].request.None?
              && RunPrefix(ref, name, files0, items, env, k).reports[j].status in {AlreadyPresent, NoVideoSource, Errored}
  {
    if k > 0 {
      PrefixAllPresent(ref, name, files0, items, env, k - 1);
      var before := RunPrefix(ref, name, files0, items, env, k - 1);
      ItemStepFacts(ref, name, before.files, k - 1 < |items| - 1, items[k - 1], env[k - 1]);
      var s := ItemStep(ref, name, before.files, k - 1 < |items| - 1, items[k - 1], env[k - 1]);
      assert RunPrefix(ref, name, files0, items, env, k).reports == before.reports + [s.report];
    }
  }

  /**
   * A second run over the same list, with every target file already on disk:
   * no GET request, no new file, no item downloaded; each item is skipped, or
   * fails in the browser as before.
   */
  lemma RerunRequestsNothing(ref: UrlRef, name: string -> string, launched: bool, files0: set<string>, items: seq<LinkRecord>, env: seq<ItemEnv>)
    requires |env| == |items|
    requires forall j :: 0 <= j < |items| ==> name(items[j].text) in files0
    ensures var b := Run(ref, name, launched, files0, items, env);
            && b.files == files0
            && forall j :: 0 <= j < |b.reports| ==>
                 b.reports[j].request.None? && b.reports[j].status in {AlreadyPresent, NoVideoSource, Errored}
  {
    if launched && items != [] {
      PrefixAllPresent(ref, name, files0, items, env, |items|);
    }
  }

  /**
   * Running twice: when the first run downloaded every item or found it
   * already present, the second run
   * over the same list, on the files the first left, downloads nothing more
   * and issues no request.
   */
  lemma RunTwice(name: string -> string, files0: set<string>, items: seq<LinkRecord>, env1: seq<ItemEnv>, env2: seq<ItemEnv>)
    requires |env1| == |items| && |env2| == |items|
    requires forall j :: 0 <= j < |items| ==>
               Run(Param, name, true, files0, items, env1).reports[j].status.Downloaded? ||
               Run(Param, name, true, files0, items, env1).reports[j].status.AlreadyPresent?
    ensures var first := Run(Param, name, true, files0, items, env1);
            var second := Run(Param, name, true, first.files, items, env2);
            && second.files == first.files
            && forall j :: 0 <= j < |items| ==> second.reports[j].request.None?
  {
    var first := Run(Param, name, true, files0, items, env1);
    RunFiles(Param, name, true, files0, items, env1);
    RerunRequestsNothing(Param, name, true, first.files, items, env2);
  }

  /**
   * The loop as written (`pageUrl` at lines 111 and 163): every item ends in
   * main's catch, so no request, no file and no pause, whatever the browser does.
   */
  lemma {:induction false} AsWrittenPrefix(name: string -> string, files0: set<string>, items: seq<LinkRecord>, env: seq<ItemEnv>, k: nat)
    requires |env| == |items| && k <= |items|
    ensures RunPrefix(Undeclared, name, files0, items, env, k).files == files0
    ensures forall j :: 0 <= j < k ==> RunPrefix(Undeclared, name, files0, items, env, k).reports[j] == ItemReport(Errored, None, None)
  {
    if k > 0 {
      AsWrittenPrefix(name, files0, items, env, k - 1);
      var before := RunPrefix(Undeclared, name, files0, items, env, k - 1);
      ItemStepFacts(Undeclared, name, before.files, k - 1 < |items| - 1, items[k - 1], env[k - 1]);
      var s := ItemStep(Undeclared, name, before.files, k - 1 < |items| - 1, items[k - 1], env[k - 1]);
      assert RunPrefix(Undeclared, name, files0, items, env, k).reports == before.reports + [s.report];
    }
  }

  /** `main` as written: whatever the browser and the network do, the run saves nothing. */
  lemma AsWrittenSavesNothing(name: string -> string, launched: bool, files0: set<string>, items: seq<LinkRecord>, env: seq<ItemEnv>)
    requires |env| == |items|
    ensures var b := Run(Undeclared, name, launched, files0, items, env);
            && b.files == files0
            && forall j :: 0 <= j < |b.reports| ==> b.reports[j] == ItemReport(Errored, None, None)
  {
    if launched && items != [] {
      AsWrittenPrefix(name, files0, items, env, |items|);
    }
  }

  /**
   * The discrepancy on one item: a page that opens, shows a player with a
   * source and closes, and a transfer that finishes. With `url` the file is
   * saved; as written the item fails and nothing is saved.
   */
  lemma AsWrittenDiffersFromIntended(name: string -> string, item: LinkRecord, page: PageSession, d: Descriptor, draw: Fraction)
    requires page.newPageOk && page.setupOk(item.url) && page.closeOk
    requires page.visit(FullUrl(item.url)) == Probed(Some(d), None) && d.videoSrc != ""
    ensures var env := [ItemEnv(page, StreamFinished, draw)];
            && Run(Param, name, true, {}, [item], env) == Batch({name(item.text)}, [ItemReport(Downloaded(name(item.text)), Some(d), None)])
            && Run(Undeclared, name, true, {}, [item], env) == Batch({}, [ItemReport(Errored, None, None)])
  {
    var env := [ItemEnv(page, StreamFinished, draw)];
    assert GetVideoUrl(item.url, page) == Found(d);
    assert ItemStep(Param, name, {}, false, item, env[0]) ==
           Step(ItemReport(Downloaded(name(item.text)), Some(d), None), {name(item.text)});
    assert RunPrefix(Param, name, {}, [item], env, 0) == Batch({}, []);
    ItemStepFacts(Undeclared, name, {}, false, item, env[0]);
    assert RunPrefix(Undeclared, name, {}, [item], env, 0) == Batch({}, []);
  }
}
