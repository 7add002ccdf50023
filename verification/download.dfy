/**
  One download request end to end, with everything the outside world
  decides passed in as a `World`: whether the uploaded cookie file could be
  saved (and when), the run id, how the downloader process ended, the
  directory listing and clock at the scan, and the log text if it could be
  read back. The result is either an archive path with the success message
  or no archive with an error message, never both.
 */
module Download {
  import opened Wrappers
  import opened Text
  import opened Artifacts
  import opened Command
  import opened Results

  const MissingUrlMessage: string := "Please provide a URL."
  const CookieSaveFailurePrefix: string := "Failed to save uploaded cookies file: "
  const TimeoutMessage: string := "Download timed out after 30 minutes."
  const MissingBinaryMessage: string :=
    "yt-dlp binary not found. Make sure yt-dlp is installed in the environment (see README)."
  /** First line of the message returned when nothing was produced. */
  const NoOutputLine: string := "No output files were produced. See log:"
  const LogUnreadableMessage: string := "No output files were produced; check server logs."
  const SuccessMessage: string := "Download completed successfully."
  /** At most this many characters of the log are returned. */
  const LogExcerptLimit: nat := 8000

  /** The user's choices, as the form hands them over. */
  datatype Request = Request(url: string, targetFormat: string, quality: string, autoCookies: bool, advanced: string)

  /** What became of the uploaded cookie file: none was uploaded, it was
      copied at the given time, or the copy failed with the given reason. */
  datatype CookieUpload = NoUpload | Saved(stamp: int) | SaveFailed(reason: string)

  /** How the downloader process ended. The exit code is not looked at. */
  datatype ProcessResult = Exited(code: int) | TimedOut | BinaryMissing

  datatype World = World(upload: CookieUpload, runId: int, process: ProcessResult,
                         listing: seq<Entry>, now: int, log: Option<string>)

  /** The pair returned to the form: archive path (if any) and status text. */
  datatype Response = Response(archive: Option<string>, message: string)

  /** A request's observable effects: the argument vector handed to the
      process runner (if it got that far), the names written into the
      archive, and the response. */
  datatype Trace = Trace(command: Option<seq<string>>, archived: seq<string>, response: Response)

  /** `log_text[:8000]`. */
  function LogExcerpt(log: string): (r: string)
    ensures |r| <= LogExcerptLimit && r <= log
    ensures |log| <= LogExcerptLimit ==> r == log
    ensures |log| > LogExcerptLimit ==> |r| == LogExcerptLimit
  {
    if |log| <= LogExcerptLimit then log else log[..LogExcerptLimit]
  }

  /** The no-output message as the source spells it: the heading is followed
      by a backslash, `n`, a backslash and `n`, not by line breaks. */
  function NoOutputMessageAsWritten(log: string): string {
    NoOutputLine + "\\n\\n" + LogExcerpt(log)
  }

  /** The no-output message with the line breaks the heading evidently means. */
  function NoOutputMessage(log: string): string {
    NoOutputLine + "\n\n" + LogExcerpt(log)
  }

  /** As written, the heading runs straight into four visible characters
      (backslash, `n`, backslash, `n`) and the log excerpt follows on the
      same line: nothing in front of the excerpt is a line break, whatever
      the log holds. */
  lemma NoOutputMessageAsWrittenRunsIntoLog(log: string)
    ensures var m := NoOutputMessageAsWritten(log);
      && |m| == |NoOutputLine| + 4 + |LogExcerpt(log)|
      && m[..|NoOutputLine|] == NoOutputLine
      && m[|NoOutputLine|..|NoOutputLine| + 4] == ['\\', 'n', '\\', 'n']
      && m[|NoOutputLine| + 4..] == LogExcerpt(log)
      && '\n' !in m[..|NoOutputLine| + 4]
  {
    var m := NoOutputMessageAsWritten(log);
    var sep, excerpt := ['\\', 'n', '\\', 'n'], LogExcerpt(log);
    assert m == (NoOutputLine + sep) + excerpt;
    assert m[..|NoOutputLine| + 4] == NoOutputLine + sep;
    HeadingHasNoLineBreak();
  }

  /** The heading is a single line. */
  lemma HeadingHasNoLineBreak()
    ensures '\n' !in NoOutputLine
  {
  }

  /** Corrected: the heading is the message's first line, a blank line
      follows, and the log excerpt starts on the third line. */
  lemma NoOutputMessageSeparatesLog(log: string)
    ensures var m := NoOutputMessage(log);
      && '\n' !in NoOutputLine
      && |m| == |NoOutputLine| + 2 + |LogExcerpt(log)|
      && m[..|NoOutputLine|] == NoOutputLine
      && m[|NoOutputLine|] == '\n' && m[|NoOutputLine| + 1] == '\n'
      && m[|NoOutputLine| + 2..] == LogExcerpt(log)
      && |m| <= |NoOutputLine| + 2 + LogExcerptLimit
  {
    var m := NoOutputMessage(log);
    assert m == NoOutputLine + (['\n', '\n'] + LogExcerpt(log));
    HeadingHasNoLineBreak();
  }

  /** Where an uploaded cookie file is copied to; empty when there is none. */
  function CookiesPath(upload: CookieUpload): string {
    match upload
    case Saved(stamp) => InOutputDir(CookieFileName(stamp))
    case _ => ""
  }

  /**
    The name `ZipFile.write(p, arcname=p.name)` stores for one result: the
    file name, with a `/` appended for a directory. A directory is stored as
    that single entry, without any of its contents.
   */
  function ArchiveName(e: Entry): (r: string)
    ensures e.name <= r
    ensures |r| == |e.name| + (if e.isDir then 1 else 0)
    ensures e.isDir ==> r[|r| - 1] == '/'
    ensures '/' !in e.name ==> (e.isDir <==> '/' in r)
  {
    if e.isDir then e.name + "/" else e.name
  }

  /** The archive entry names: one per result, in order. */
  function ArchiveMembers(results: seq<Entry>): seq<string> {
    if results == [] then [] else [ArchiveName(results[0])] + ArchiveMembers(results[1..])
  }

  lemma {:induction false} ArchiveMembersNames(results: seq<Entry>)
    ensures |ArchiveMembers(results)| == |results|
    ensures forall i :: 0 <= i < |results| ==> ArchiveMembers(results)[i] == ArchiveName(results[i])
    decreases |results|
  {
    if results != [] {
      ArchiveMembersNames(results[1..]);
    }
  }

  /**
    After the scan: with results, the run's archive and the success message;
    without, no archive and the log excerpt (or a fallback when the log
    cannot be read).
   */
  function Conclude(results: seq<Entry>, runId: int, log: Option<string>): (r: Response)
    ensures r.archive.Some? <==> results != []
    ensures r.archive.Some? ==> r.archive.value == InOutputDir(ArchiveFileName(runId))
    ensures r.archive.Some? <==> r.message == SuccessMessage
    ensures results == [] && log.Some? ==>
      r.message == NoOutputMessage(log.value) && |r.message| <= |NoOutputLine| + 2 + LogExcerptLimit
    ensures results == [] && log.None? ==> r.message == LogUnreadableMessage
  {
    if results == [] then
      match log
      case Some(text) =>
        NoOutputMessageSeparatesLog(text);
        assert NoOutputMessage(text)[0] != SuccessMessage[0];
        Response(None, NoOutputMessage(text))
      case None => Response(None, LogUnreadableMessage)
    else Response(Some(InOutputDir(ArchiveFileName(runId))), SuccessMessage)
  }

  /** The same branch with the no-output message spelled as the source spells it. */
  function ConcludeAsWritten(results: seq<Entry>, runId: int, log: Option<string>): (r: Response)
    ensures r.archive.Some? <==> results != []
    ensures r.archive.Some? ==> r.archive.value == InOutputDir(ArchiveFileName(runId))
    ensures r.archive.Some? <==> r.message == SuccessMessage
    ensures results == [] && log.Some? ==> r.message == NoOutputMessageAsWritten(log.value)
    ensures results == [] && log.None? ==> r.message == LogUnreadableMessage
  {
    if results == [] then
      match log
      case Some(text) =>
        assert NoOutputMessageAsWritten(text)[0] != SuccessMessage[0];
        Response(None, NoOutputMessageAsWritten(text))
      case None => Response(None, LogUnreadableMessage)
    else Response(Some(InOutputDir(ArchiveFileName(runId))), SuccessMessage)
  }

  /** The corrected branch and the one as written agree on everything except
      the message for no results with a readable log, and there they differ
      for every log. */
  lemma ConcludeOnlyMessageDiffers(results: seq<Entry>, runId: int, log: Option<string>)
    ensures ConcludeAsWritten(results, runId, log).archive == Conclude(results, runId, log).archive
    ensures ConcludeAsWritten(results, runId, log) == Conclude(results, runId, log)
      <==> !(results == [] && log.Some?)
  {
    if results == [] && log.Some? {
      var n := |NoOutputLine|;
      NoOutputMessageAsWrittenRunsIntoLog(log.value);
      NoOutputMessageSeparatesLog(log.value);
      assert NoOutputMessageAsWritten(log.value)[n] == '\\';
      assert NoOutputMessage(log.value)[n] == '\n';
    }
  }

  /** `run_download`. */
  function RunDownload(req: Request, w: World): (t: Trace)
    ensures IsBlank(req.url) ==> t == Trace(None, [], Response(None, MissingUrlMessage))
    ensures t.command.Some? <==> !IsBlank(req.url) && !w.upload.SaveFailed?
    ensures t.command.Some? ==>
      t.command.value == BuildCommand(req.url, req.targetFormat, req.quality, req.autoCookies,
                                      CookiesPath(w.upload), req.advanced)
    ensures t.response.archive.Some? <==>
      t.command.Some? && w.process.Exited? && Select(w.listing, w.now) != []
    ensures t.response.archive.Some? <==> t.response.message == SuccessMessage
    ensures t.response.archive.Some? ==>
      && t.response.archive.value == InOutputDir(ArchiveFileName(w.runId))
      && |t.archived| == |Select(w.listing, w.now)|
      && forall i :: 0 <= i < |t.archived| ==> t.archived[i] == ArchiveName(Select(w.listing, w.now)[i])
    ensures t.response.archive.None? ==> t.archived == []
  {
    StripEmptyIffBlank(req.url);
    if |req.url| == 0 || |Strip(req.url)| == 0 then
      Trace(None, [], Response(None, MissingUrlMessage))
    else
      match w.upload
      case SaveFailed(reason) =>
        assert (CookieSaveFailurePrefix + reason)[0] != SuccessMessage[0];
        Trace(None, [], Response(None, CookieSaveFailurePrefix + reason))
      case _ =>
        var cmd := BuildCommand(req.url, req.targetFormat, req.quality, req.autoCookies,
                                CookiesPath(w.upload), req.advanced);
        match w.process
        case TimedOut => Trace(Some(cmd), [], Response(None, TimeoutMessage))
        case BinaryMissing => Trace(Some(cmd), [], Response(None, MissingBinaryMessage))
        case Exited(_) =>
          var results := Select(w.listing, w.now);
          var r := Conclude(results, w.runId, w.log);
          ArchiveMembersNames(results);
          Trace(Some(cmd), if r.archive.Some? then ArchiveMembers(results) else [], r)
  }

  /** The exit code does not matter: only whether fresh results exist does. */
  lemma ExitCodeIgnored(req: Request, w: World, a: int, b: int)
    ensures RunDownload(req, w.(process := Exited(a))) == RunDownload(req, w.(process := Exited(b)))
  {
    var wa, wb := w.(process := Exited(a)), w.(process := Exited(b));
    assert wa.upload == wb.upload && wa.listing == wb.listing && wa.now == wb.now;
    assert wa.runId == wb.runId && wa.log == wb.log;
  }

  /** With no fresh results, the response carries the first 8000 characters of
      the log after the heading, and no archive. */
  lemma NoResultsReportsLog(req: Request, w: World)
    requires !IsBlank(req.url) && !w.upload.SaveFailed? && w.process.Exited?
    requires Select(w.listing, w.now) == [] && w.log.Some?
    ensures RunDownload(req, w).response == Response(None, NoOutputMessage(w.log.value))
    ensures |RunDownload(req, w).response.message| <= |NoOutputLine| + 2 + LogExcerptLimit
  {
  }

  /** Exactly one fresh result: the archive holds exactly that entry, under its
      name (with a trailing `/` when it is a directory). */
  lemma SingleResultArchive(req: Request, w: World, e: Entry)
    requires !IsBlank(req.url) && !w.upload.SaveFailed? && w.process.Exited?
    requires Select(w.listing, w.now) == [e]
    ensures RunDownload(req, w).archived == [ArchiveName(e)]
    ensures RunDownload(req, w).response == Response(Some(InOutputDir(ArchiveFileName(w.runId))), SuccessMessage)
  {
  }
}
