/** The flash workflow of `FlashService`: download an OS image, reboot the
    device into recovery, push the image, run the recovery installer, and
    publish a status record per device at every step.

    The service is modelled as a pure function from a `Script` (what the HTTP
    server, the debug bridge and the filesystem answer) to a `FlashRun`: the
    ordered trace of effects, the resulting status table and the returned
    `{success, message}` result. */
module FlashService {

  import opened Options
  import opened Strings
  import opened Arith
  import opened Seqs
  import Process

  /** Directory where downloaded images are stored. */
  const DownloadDir: string := "/tmp/lineage_downloads"

  /** The `status` strings a record can carry. */
  datatype Stage = Idle | Starting | Downloading | Rebooting | Pushing | Flashing | Completed | Error {

    function Name(): string {
      match this
      case Idle => "idle"
      case Starting => "starting"
      case Downloading => "downloading"
      case Rebooting => "rebooting"
      case Pushing => "pushing"
      case Flashing => "flashing"
      case Completed => "completed"
      case Error => "error"
    }
  }

  /** One `{status, progress, message}` entry of the status table. */
  datatype StatusRecord = StatusRecord(status: Stage, progress: int, message: string)

  /** The service's `flash_status` dictionary, keyed by device id. */
  type StatusTable = map<string, StatusRecord>

  const IdleRecord := StatusRecord(Idle, 0, "No flash operation in progress")
  const StartingRecord := StatusRecord(Starting, 0, "Initializing flash process...")
  const DownloadingMessage := "Downloading OS image..."
  const RebootingRecord := StatusRecord(Rebooting, 30, "Rebooting to recovery mode...")
  const PushingRecord := StatusRecord(Pushing, 50, "Pushing OS image to device...")
  const FlashingRecord := StatusRecord(Flashing, 70, "Flashing OS image...")
  const CompletedMessage := "Flash completed successfully"
  const CompletedRecord := StatusRecord(Completed, 100, CompletedMessage)

  function DownloadingAt(progress: int): StatusRecord {
    StatusRecord(Downloading, progress, DownloadingMessage)
  }

  function ErrorRecord(progress: int, message: string): StatusRecord {
    StatusRecord(Error, progress, message)
  }

  /** An observable effect of the workflow, in the order it happens. A write
      of the status record for the device (the in-place progress update of the
      download loop is a write of the updated record), the HTTP request for the
      image, a device command, or the removal of the local image file. */
  datatype Event =
    | Write(record: StatusRecord)
    | HttpGet(url: string)
    | Exec(command: AdbCommand)
    | RemoveFile(path: string)

  predicate IsErrorWrite(e: Event) {
    e.Write? && e.record.status == Error
  }

  /** No status write in `es` reports an error. */
  predicate NoErrorWrite(es: seq<Event>) {
    forall e :: e in es ==> !IsErrorWrite(e)
  }

  /** `es` talks to neither the network nor the device. */
  predicate NoOutsideCall(es: seq<Event>) {
    forall e :: e in es ==> !e.Exec? && !e.HttpGet?
  }

  /** What the HTTP fetch produced. `TransportFailure` is an exception raised
      before any chunk is read: a connection error, a failure to open the local
      file, or a `content-length` header that is not an integer. `Response`
      carries the status, the parsed `content-length` (0 when absent), the
      sizes of the chunks read, and an exception that ended the stream after
      those chunks, if any. */
  datatype HttpOutcome =
    | TransportFailure(message: string)
    | Response(status: nat, contentLength: int, chunks: seq<nat>, streamFailure: Option<string>)

  /** What happens to the local image once the flash completed: removed, found
      already missing by `os.path.exists`, or `os.remove` raised. */
  datatype Cleanup = Removed | AlreadyGone | RemoveFailed(message: string)

  /** The answers of everything outside the service for one run. */
  datatype Script = Script(
    http: HttpOutcome,
    reboot: Process.Outcome,
    push: Process.Outcome,
    install: Process.Outcome,
    cleanup: Cleanup)

  /** Result of one step method: it returned `value`, or it raised an exception
      whose `str()` is `message`; `events` is what it did either way. */
  datatype Step<T> = Done(events: seq<Event>, value: T) | Raised(events: seq<Event>, message: string)

  /** The dictionary `flash_device_complete` returns. */
  datatype FlashResult = FlashResult(success: bool, message: string)

  datatype FlashRun = FlashRun(events: seq<Event>, table: StatusTable, result: FlashResult)

  // ---------------------------------------------------------------------------
  // Image file name

  /** Local file name of the image for `url`: the URL's last `/`-segment when
      it ends in `.zip`, otherwise `lineage_<device id>.zip`. */
  function ImageFilename(url: string, deviceId: string): (name: string)
    ensures EndsWith(name, ".zip")
    ensures '/' !in deviceId ==> '/' !in name
    ensures StartsWith(name, "lineage_") || EndsWith(url, name)
  {
    var segment := LastPiece(url, '/');
    if EndsWith(segment, ".zip") then segment
    else
      var name := "lineage_" + deviceId + ".zip";
      assert name[|name| - 4..] == ".zip";
      assert name[..8] == "lineage_";
      name
  }

  /** The rule stated against any decomposition of the URL into everything up
      to its last `/` and the segment after it. */
  lemma ImageFilenameRule(prefix: string, segment: string, deviceId: string)
    requires prefix == [] || prefix[|prefix| - 1] == '/'
    requires '/' !in segment
    ensures ImageFilename(prefix + segment, deviceId)
            == if EndsWith(segment, ".zip") then segment else "lineage_" + deviceId + ".zip"
  {
    LastPieceUnique(prefix, segment, '/');
  }

  /** A URL whose last segment names a `.zip` decides the file name alone. */
  lemma ImageFilenameIgnoresDevice(url: string, id1: string, id2: string)
    requires EndsWith(LastPiece(url, '/'), ".zip")
    ensures ImageFilename(url, id1) == ImageFilename(url, id2) == LastPiece(url, '/')
  {
  }

  /** `str(self.download_dir / filename)`, joined as strings: path
      normalisation of a device id holding `/` is not modelled. */
  function ImagePath(url: string, deviceId: string): (path: string)
    ensures StartsWith(path, DownloadDir + "/") && EndsWith(path, ".zip")
  {
    DownloadDir + "/" + ImageFilename(url, deviceId)
  }

  /** For a device id without `/` the file name is one path segment, so the
      image lies directly in the download directory and `Path(path).name`
      gives the file name back. */
  lemma ImagePathName(url: string, deviceId: string)
    requires '/' !in deviceId
    ensures StartsWith(ImagePath(url, deviceId), DownloadDir + "/")
    ensures LastPiece(ImagePath(url, deviceId), '/') == ImageFilename(url, deviceId)
  {
    LastPieceUnique(DownloadDir + "/", ImageFilename(url, deviceId), '/');
  }

  // ---------------------------------------------------------------------------
  // Download

  function Sum(chunks: seq<nat>): nat {
    if chunks == [] then 0 else chunks[0] + Sum(chunks[1..])
  }

  /** Integer stand-in for `int((downloaded / total_size) * 100)`: the floor
      of the exact quotient. */
  function Percent(downloaded: nat, total: int): (p: nat)
    requires total > 0
    ensures p * total <= downloaded * 100 < (p + 1) * total
  {
    DivIsFloor(downloaded * 100, total);
    Div(downloaded * 100, total)
  }

  /** The progress value after each chunk, `before` bytes having been
      received already. */
  function ProgressValues(total: int, before: nat, chunks: seq<nat>): (ps: seq<nat>)
    requires total > 0
    ensures |ps| == |chunks|
    decreases |chunks|
  {
    if chunks == [] then []
    else
      var received := before + chunks[0];
      [Percent(received, total)] + ProgressValues(total, received, chunks[1..])
  }

  function AsDownloadWrites(ps: seq<nat>): (ws: seq<Event>)
    ensures |ws| == |ps|
    ensures forall i :: 0 <= i < |ws| ==> ws[i] == Write(DownloadingAt(ps[i]))
  {
    if ps == [] then [] else [Write(DownloadingAt(ps[0]))] + AsDownloadWrites(ps[1..])
  }

  /** The progress updates of the chunk loop: one per chunk when the content
      length is positive, none otherwise. Each changes only the `progress`
      field of the downloading record. */
  function ProgressWrites(total: int, chunks: seq<nat>): (ws: seq<Event>)
    ensures total <= 0 ==> ws == []
    ensures total > 0 ==> |ws| == |chunks|
    ensures forall e :: e in ws ==>
              e.Write? && e.record.status == Downloading && e.record.message == DownloadingMessage
  {
    if total > 0 then AsDownloadWrites(ProgressValues(total, 0, chunks)) else []
  }

  predicate Within(ps: seq<int>, lo: int, hi: int) {
    forall i :: 0 <= i < |ps| ==> lo <= ps[i] <= hi
  }

  predicate NonDecreasing(ps: seq<int>) {
    forall i, j :: 0 <= i <= j < |ps| ==> ps[i] <= ps[j]
  }

  /** While no more bytes arrive than announced, every progress value lies in
      0..100 and the values never decrease. */
  lemma {:induction false} ProgressBounded(total: int, before: nat, chunks: seq<nat>)
    requires total > 0 && before + Sum(chunks) <= total
    ensures Within(ProgressValues(total, before, chunks), Percent(before, total), 100)
    ensures NonDecreasing(ProgressValues(total, before, chunks))
    decreases |chunks|
  {
    if chunks != [] {
      var received := before + chunks[0];
      ProgressBounded(total, received, chunks[1..]);
      PercentMonotone(before, received, total);
      var ps := ProgressValues(total, before, chunks);
      var rest := ProgressValues(total, received, chunks[1..]);
      assert ps == [Percent(received, total)] + rest;
      forall i | 0 < i < |ps|
        ensures ps[i] == rest[i - 1]
      {
      }
    }
  }

  lemma PercentMonotone(a: nat, b: nat, total: int)
    requires total > 0 && a <= b
    ensures Percent(a, total) <= Percent(b, total)
    ensures b <= total ==> Percent(b, total) <= 100
  {
    DivMonotone(a * 100, b * 100, total);
    if b <= total {
      DivAtMost(b * 100, total, 100);
    }
  }

  /** The last progress value reflects every byte received. */
  lemma {:induction false} LastProgress(total: int, before: nat, chunks: seq<nat>)
    requires total > 0 && chunks != []
    ensures ProgressValues(total, before, chunks)[|chunks| - 1] == Percent(before + Sum(chunks), total)
    decreases |chunks|
  {
    var received := before + chunks[0];
    if |chunks| > 1 {
      LastProgress(total, received, chunks[1..]);
    }
  }

  /** A download of exactly the announced size ends at 100. */
  lemma ProgressReachesHundred(total: int, chunks: seq<nat>)
    requires total > 0 && Sum(chunks) == total && chunks != []
    ensures ProgressValues(total, 0, chunks)[|chunks| - 1] == 100
  {
    LastProgress(total, 0, chunks);
    DivExact(100, total);
  }

  /** What the download writes before it either returns or raises: the
      downloading record, the request, and one progress update per chunk
      when the answer was 200. */
  function Streamed(url: string, http: HttpOutcome): (es: seq<Event>)
    ensures |es| >= 2 && es[0] == Write(DownloadingAt(0)) && es[1] == HttpGet(url)
  {
    [Write(DownloadingAt(0)), HttpGet(url)]
    + (if http.Response? && http.status == 200 then ProgressWrites(http.contentLength, http.chunks) else [])
  }

  /** The streamed part of the download records no error and touches neither
      the device nor the file system. */
  lemma StreamedQuiet(url: string, http: HttpOutcome)
    ensures NoErrorWrite(Streamed(url, http))
    ensures forall e :: e in Streamed(url, http) ==> !e.Exec? && !e.RemoveFile?
  {
  }

  /** The message of the exception the download raises, if any: the
      transport's own, a non-200 status, or a failure while streaming. */
  function DownloadFailure(http: HttpOutcome): (m: Option<string>)
    ensures m.None? <==> http.Response? && http.status == 200 && http.streamFailure.None?
  {
    match http
    case TransportFailure(m) => Some(m)
    case Response(status, _, _, failure) =>
      if status != 200 then Some("Failed to download: HTTP " + NatToString(status)) else failure
  }

  /** `download_os_image`: write the downloading record, fetch, stream the
      chunks updating progress, and return the local path; on any exception
      write an error record with progress 0 and re-raise. */
  function DownloadOsImage(url: string, deviceId: string, http: HttpOutcome): (s: Step<string>)
    ensures s.Done? <==> DownloadFailure(http).None?
    ensures s.Done? ==> s.value == ImagePath(url, deviceId)
    ensures s.Raised? ==> s.message == DownloadFailure(http).value
    ensures s.events == Streamed(url, http)
                        + (if s.Raised? then [Write(ErrorRecord(0, "Download failed: " + s.message))] else [])
  {
    match DownloadFailure(http)
    case Some(m) => Raised(Streamed(url, http) + [Write(ErrorRecord(0, "Download failed: " + m))], m)
    case None => Done(Streamed(url, http), ImagePath(url, deviceId))
  }

  // ---------------------------------------------------------------------------
  // Device steps

  /** The three device commands the workflow runs through `adb`. */
  datatype AdbCommand =
    | RebootRecovery(deviceId: string)
    | Push(deviceId: string, imagePath: string)
    | Install(deviceId: string, imagePath: string)

  /** The argument vector handed to the process launcher; the installer
      names the image by its file name under `/sdcard/`. Every command is
      addressed to its own device with `-s`. */
  function Argv(c: AdbCommand): (argv: seq<string>)
    ensures |argv| >= 5 && argv[..3] == ["adb", "-s", c.deviceId]
  {
    match c
    case RebootRecovery(id) => ["adb", "-s", id, "reboot", "recovery"]
    case Push(id, path) => ["adb", "-s", id, "push", path, "/sdcard/"]
    case Install(id, path) => ["adb", "-s", id, "shell", "twrp", "install", "/sdcard/" + LastPiece(path, '/')]
  }

  /** The installer is given the file the push left on the device: `adb push
      <path> /sdcard/` keeps the file's last path segment, and that segment
      under the push's destination is what `twrp install` receives. */
  lemma InstallNamesPushedFile(deviceId: string, path: string)
    ensures var push := Argv(Push(deviceId, path));
            var install := Argv(Install(deviceId, path));
            && |push| == 6 && |install| == 7
            && StartsWith(install[6], push[5])
            && LastPiece(install[6], '/') == LastPiece(push[4], '/')
  {
    LastPieceUnique("/sdcard/", LastPiece(path, '/'), '/');
  }

  /** The message of the exception a checked command leads to, if any: the
      launch's own exception, or `<prefix><stderr>` for a non-zero exit. */
  function CommandFailure(o: Process.Outcome, prefix: string): (m: Option<string>)
    ensures m.None? <==> o.Succeeded()
  {
    match o
    case Raised(e) => Some(e)
    case Exited(code, _, err) => if code != 0 then Some(prefix + err) else None
  }

  /** `reboot_to_recovery`: write the rebooting record (progress 30), run
      `adb -s <id> reboot recovery`; a non-zero exit raises, and any exception
      is recorded with progress 30 and re-raised. */
  function RebootToRecovery(deviceId: string, reboot: Process.Outcome): (s: Step<bool>)
    ensures s.Done? <==> reboot.Succeeded()
    ensures s.events == [Write(RebootingRecord), Exec(RebootRecovery(deviceId))]
                        + (if s.Raised? then [Write(ErrorRecord(30, "Reboot failed: " + s.message))] else [])
  {
    var issued := [Write(RebootingRecord), Exec(RebootRecovery(deviceId))];
    match CommandFailure(reboot, "Failed to reboot: ")
    case Some(m) => Raised(issued + [Write(ErrorRecord(30, "Reboot failed: " + m))], m)
    case None => Done(issued, true)
  }

  /** `push_and_flash`: write the pushing record (50), push the image; a
      non-zero exit raises. Then write the flashing record (70) and run the
      installer, whose exit status is never looked at; only an exception from
      launching it fails the step. Any exception is recorded with progress 70
      and re-raised. */
  function PushAndFlash(deviceId: string, imagePath: string, push: Process.Outcome, install: Process.Outcome)
    : (s: Step<bool>)
    ensures s.Done? <==> push.Succeeded() && install.Exited?
    ensures s.events == [Write(PushingRecord), Exec(Push(deviceId, imagePath))]
                        + (if push.Succeeded() then [Write(FlashingRecord), Exec(Install(deviceId, imagePath))] else [])
                        + (if s.Raised? then [Write(ErrorRecord(70, "Flash failed: " + s.message))] else [])
  {
    var pushed := [Write(PushingRecord), Exec(Push(deviceId, imagePath))];
    match CommandFailure(push, "Failed to push image: ")
    case Some(m) => Raised(pushed + [Write(ErrorRecord(70, "Flash failed: " + m))], m)
    case None =>
      var installed := pushed + [Write(FlashingRecord), Exec(Install(deviceId, imagePath))];
      match install
      case Raised(m) => Raised(installed + [Write(ErrorRecord(70, "Flash failed: " + m))], m)
      case Exited(_, _, _) => Done(installed, true)
  }

  // ---------------------------------------------------------------------------
  // Status table

  /** The record of the last status write in `es`, if any. */
  function LastWrite(es: seq<Event>): Option<StatusRecord>
    decreases |es|
  {
    if es == [] then None
    else if es[|es| - 1].Write? then Some(es[|es| - 1].record)
    else LastWrite(es[..|es| - 1])
  }

  lemma LastWriteIsLast(es: seq<Event>)
    requires |es| > 0 && es[|es| - 1].Write?
    ensures LastWrite(es) == Some(es[|es| - 1].record)
  {
  }

  lemma LastWriteSkips(es: seq<Event>, e: Event)
    requires !e.Write?
    ensures LastWrite(es + [e]) == LastWrite(es)
  {
    assert (es + [e])[..|es|] == es;
  }

  /** The table after the status writes of `es` for device `deviceId`. */
  function Replay(t: StatusTable, deviceId: string, es: seq<Event>): (r: StatusTable)
    ensures LastWrite(es).None? ==> r == t
    ensures LastWrite(es).Some? ==> r == t[deviceId := LastWrite(es).value]
    decreases |es|
  {
    if es == [] then t
    else
      var earlier := Replay(t, deviceId, es[..|es| - 1]);
      if es[|es| - 1].Write? then earlier[deviceId := es[|es| - 1].record] else earlier
  }

  /** `get_flash_status`: the stored record, or the idle record when none. */
  function GetFlashStatus(t: StatusTable, deviceId: string): (r: StatusRecord)
    ensures deviceId in t ==> r == t[deviceId]
    ensures deviceId !in t ==> r.status == Idle && r.progress == 0
                               && r.message == "No flash operation in progress"
  {
    if deviceId in t then t[deviceId] else IdleRecord
  }

  // ---------------------------------------------------------------------------
  // The complete workflow

  /** The outer handler: append the error record with progress 0 and return
      `{success: False, message: str(e)}`. */
  function Fail(t: StatusTable, deviceId: string, es: seq<Event>, message: string): (run: FlashRun)
    ensures run.events == es + [Write(ErrorRecord(0, "Flash failed: " + message))]
    ensures run.table == t[deviceId := ErrorRecord(0, "Flash failed: " + message)]
    ensures run.result == FlashResult(false, message)
  {
    var events := es + [Write(ErrorRecord(0, "Flash failed: " + message))];
    FlashRun(events, Replay(t, deviceId, events), FlashResult(false, message))
  }

  /** After the completed record: remove the local image if it exists. */
  function Finish(t: StatusTable, deviceId: string, completed: seq<Event>, path: string, cleanup: Cleanup)
    : (run: FlashRun)
    requires |completed| > 0 && completed[|completed| - 1] == Write(CompletedRecord)
    ensures run.result.success <==> !cleanup.RemoveFailed?
    ensures run.result.success ==> run.result.message == CompletedMessage
                                   && run.table == t[deviceId := CompletedRecord]
    ensures run.events == completed + (if cleanup.AlreadyGone? then [] else [RemoveFile(path)])
                          + (if cleanup.RemoveFailed? then [Write(ErrorRecord(0, "Flash failed: " + run.result.message))] else [])
    ensures !run.result.success ==> run.table == t[deviceId := ErrorRecord(0, "Flash failed: " + run.result.message)]
  {
    LastWriteIsLast(completed);
    match cleanup
    case AlreadyGone =>
      FlashRun(completed, Replay(t, deviceId, completed), FlashResult(true, CompletedMessage))
    case Removed =>
      var events := completed + [RemoveFile(path)];
      LastWriteSkips(completed, RemoveFile(path));
      FlashRun(events, Replay(t, deviceId, events), FlashResult(true, CompletedMessage))
    case RemoveFailed(m) =>
      Fail(t, deviceId, completed + [RemoveFile(path)], m)
  }

  predicate DownloadSucceeds(s: Script) {
    s.http.Response? && s.http.status == 200 && s.http.streamFailure.None?
  }

  /** Every outside step answers as a successful flash needs. The installer
      only has to start: its exit status is not consulted. */
  predicate AllStepsSucceed(s: Script) {
    && DownloadSucceeds(s)
    && s.reboot.Succeeded()
    && s.push.Succeeded()
    && s.install.Exited?
    && !s.cleanup.RemoveFailed?
  }

  /** `flash_device_complete`: starting record, download, reboot, push and
      install, completed record, removal of the local image. The first
      exception stops the sequence; the handler then writes an error record
      with progress 0 and returns `{success: False, message: str(e)}`. It
      never raises: every outcome yields a result. */
  function FlashDeviceComplete(t: StatusTable, deviceId: string, url: string, script: Script): (run: FlashRun)
    ensures run.result.success <==> AllStepsSucceed(script)
    ensures run.result.success ==> && run.result.message == CompletedMessage
                                   && run.table == t[deviceId := CompletedRecord]
    ensures !run.result.success ==>
              && |run.events| > 0
              && run.events[|run.events| - 1] == Write(ErrorRecord(0, "Flash failed: " + run.result.message))
              && run.table == t[deviceId := ErrorRecord(0, "Flash failed: " + run.result.message)]
    ensures |run.events| > 0 && run.events[0] == Write(StartingRecord)
  {
    var begun := [Write(StartingRecord)];
    var download := DownloadOsImage(url, deviceId, script.http);
    if download.Raised? then Fail(t, deviceId, begun + download.events, download.message)
    else
      var fetched := begun + download.events;
      var reboot := RebootToRecovery(deviceId, script.reboot);
      if reboot.Raised? then Fail(t, deviceId, fetched + reboot.events, reboot.message)
      else
        var rebooted := fetched + reboot.events;
        var flash := PushAndFlash(deviceId, download.value, script.push, script.install);
        if flash.Raised? then Fail(t, deviceId, rebooted + flash.events, flash.message)
        else Finish(t, deviceId, rebooted + flash.events + [Write(CompletedRecord)], download.value, script.cleanup)
  }

  // ---------------------------------------------------------------------------
  // Properties of the workflow

  /** A fully successful run writes exactly starting/0, downloading/0 (then
      its progress updates), rebooting/30, pushing/50, flashing/70 and
      completed/100, issues the three device commands in order, and removes
      the image last. */
  lemma SuccessfulRun(t: StatusTable, deviceId: string, url: string, script: Script)
    requires AllStepsSucceed(script)
    ensures var run := FlashDeviceComplete(t, deviceId, url, script);
            var path := ImagePath(url, deviceId);
            run.events
            == [Write(StartingRecord), Write(DownloadingAt(0)), HttpGet(url)]
               + ProgressWrites(script.http.contentLength, script.http.chunks)
               + [Write(RebootingRecord), Exec(RebootRecovery(deviceId)),
                  Write(PushingRecord), Exec(Push(deviceId, path)),
                  Write(FlashingRecord), Exec(Install(deviceId, path)),
                  Write(CompletedRecord)]
               + (if script.cleanup.Removed? then [RemoveFile(path)] else [])
  {
    var path := ImagePath(url, deviceId);
    var progress := ProgressWrites(script.http.contentLength, script.http.chunks);
    var completed := SuccessfulSteps(t, deviceId, url, script);
    var head := [Write(StartingRecord), Write(DownloadingAt(0)), HttpGet(url)] + progress;
    var devices := [Write(RebootingRecord), Exec(RebootRecovery(deviceId)),
                    Write(PushingRecord), Exec(Push(deviceId, path)),
                    Write(FlashingRecord), Exec(Install(deviceId, path)),
                    Write(CompletedRecord)];
    Regroup([Write(StartingRecord)], [Write(DownloadingAt(0)), HttpGet(url)], progress,
            [Write(RebootingRecord), Exec(RebootRecovery(deviceId))],
            [Write(PushingRecord), Exec(Push(deviceId, path)),
             Write(FlashingRecord), Exec(Install(deviceId, path))],
            [Write(CompletedRecord)]);
    Displays(Write(RebootingRecord), Exec(RebootRecovery(deviceId)),
             Write(PushingRecord), Exec(Push(deviceId, path)),
             Write(FlashingRecord), Exec(Install(deviceId, path)),
             Write(CompletedRecord));
    Displays(Write(StartingRecord), Write(DownloadingAt(0)), HttpGet(url), HttpGet(url),
             HttpGet(url), HttpGet(url), HttpGet(url));
    assert completed == head + devices;
    AppendEmpty(completed + (if script.cleanup.AlreadyGone? then [] else [RemoveFile(path)]));
  }

  /** The three steps of a fully successful run, and the trace they leave
      before the clean-up. */
  lemma SuccessfulSteps(t: StatusTable, deviceId: string, url: string, script: Script)
    returns (completed: seq<Event>)
    requires AllStepsSucceed(script)
    ensures var path := ImagePath(url, deviceId);
            && completed == [Write(StartingRecord)]
                            + ([Write(DownloadingAt(0)), HttpGet(url)]
                               + ProgressWrites(script.http.contentLength, script.http.chunks))
                            + [Write(RebootingRecord), Exec(RebootRecovery(deviceId))]
                            + [Write(PushingRecord), Exec(Push(deviceId, path)),
                               Write(FlashingRecord), Exec(Install(deviceId, path))]
                            + [Write(CompletedRecord)]
            && FlashDeviceComplete(t, deviceId, url, script) == Finish(t, deviceId, completed, path, script.cleanup)
  {
    var download := DownloadOsImage(url, deviceId, script.http);
    var reboot := RebootToRecovery(deviceId, script.reboot);
    var flash := PushAndFlash(deviceId, download.value, script.push, script.install);
    SuccessfulStepEvents(deviceId, url, script);
    completed := [Write(StartingRecord)] + download.events + reboot.events + flash.events + [Write(CompletedRecord)];
  }

  /** The traces the three steps leave when each of them succeeds. */
  lemma SuccessfulStepEvents(deviceId: string, url: string, script: Script)
    requires AllStepsSucceed(script)
    ensures var path := ImagePath(url, deviceId);
            var download := DownloadOsImage(url, deviceId, script.http);
            && download.Done? && download.value == path
            && download.events == [Write(DownloadingAt(0)), HttpGet(url)]
                                  + ProgressWrites(script.http.contentLength, script.http.chunks)
            && RebootToRecovery(deviceId, script.reboot)
               == Done([Write(RebootingRecord), Exec(RebootRecovery(deviceId))], true)
            && PushAndFlash(deviceId, path, script.push, script.install)
               == Done([Write(PushingRecord), Exec(Push(deviceId, path)),
                        Write(FlashingRecord), Exec(Install(deviceId, path))], true)
  {
  }

  /** Whatever happens, the table changes only at the device's own key, and
      polling it afterwards yields completed/100 or error/0. */
  lemma StatusAfterRun(t: StatusTable, deviceId: string, url: string, script: Script, other: string)
    requires other != deviceId
    ensures var run := FlashDeviceComplete(t, deviceId, url, script);
            && GetFlashStatus(run.table, other) == GetFlashStatus(t, other)
            && (GetFlashStatus(run.table, deviceId) == CompletedRecord <==> run.result.success)
            && (!run.result.success ==> GetFlashStatus(run.table, deviceId).status == Error
                                        && GetFlashStatus(run.table, deviceId).progress == 0)
  {
  }

  // ---------------------------------------------------------------------------
  // Projections of a trace

  function CommandOf(e: Event): Option<AdbCommand> {
    if e.Exec? then Some(e.command) else None
  }

  function ErrorProgressOf(e: Event): Option<int> {
    if IsErrorWrite(e) then Some(e.record.progress) else None
  }

  function RemovalOf(e: Event): Option<string> {
    if e.RemoveFile? then Some(e.path) else None
  }

  /** The device commands of a trace, in order. */
  function Commands(es: seq<Event>): seq<AdbCommand> {
    FilterMap(CommandOf, es)
  }

  /** The progress values of the error records of a trace, in order. */
  function ErrorProgress(es: seq<Event>): seq<int> {
    FilterMap(ErrorProgressOf, es)
  }

  /** The files a trace removes, in order. */
  function Removals(es: seq<Event>): seq<string> {
    FilterMap(RemovalOf, es)
  }

  /** What the clean-up adds after the completed record. */
  function CleanupEvents(cleanup: Cleanup, path: string, message: string): seq<Event> {
    (if cleanup.AlreadyGone? then [] else [RemoveFile(path)])
    + (if cleanup.RemoveFailed? then [Write(ErrorRecord(0, "Flash failed: " + message))] else [])
  }

  /** The trace of a run is the starting record followed by the traces of the
      steps up to the first one that raised, closed by the handler's error
      record; or, when none raised, by the completed record and the clean-up. */
  lemma RunSegments(t: StatusTable, deviceId: string, url: string, script: Script)
    ensures var run := FlashDeviceComplete(t, deviceId, url, script);
            var path := ImagePath(url, deviceId);
            var d := DownloadOsImage(url, deviceId, script.http);
            var r := RebootToRecovery(deviceId, script.reboot);
            var f := PushAndFlash(deviceId, path, script.push, script.install);
            var fin := [Write(ErrorRecord(0, "Flash failed: " + run.result.message))];
            && (d.Raised? ==> run.events == [Write(StartingRecord)] + d.events + fin)
            && (d.Done? && r.Raised? ==> run.events == [Write(StartingRecord)] + d.events + r.events + fin)
            && (d.Done? && r.Done? && f.Raised? ==>
                  run.events == [Write(StartingRecord)] + d.events + r.events + f.events + fin)
            && (d.Done? && r.Done? && f.Done? ==>
                  run.events == [Write(StartingRecord)] + d.events + r.events + f.events + [Write(CompletedRecord)]
                                + CleanupEvents(script.cleanup, path, run.result.message))
  {
    var run := FlashDeviceComplete(t, deviceId, url, script);
    var path := ImagePath(url, deviceId);
    var d := DownloadOsImage(url, deviceId, script.http);
    var r := RebootToRecovery(deviceId, script.reboot);
    var f := PushAndFlash(deviceId, path, script.push, script.install);
    if d.Done? && r.Done? && f.Done? {
      RunSegmentsDone(t, deviceId, url, script);
    }
  }

  lemma RunSegmentsDone(t: StatusTable, deviceId: string, url: string, script: Script)
    requires DownloadSucceeds(script) && script.reboot.Succeeded()
    requires script.push.Succeeded() && script.install.Exited?
    ensures var run := FlashDeviceComplete(t, deviceId, url, script);
            var path := ImagePath(url, deviceId);
            run.events == [Write(StartingRecord)] + DownloadOsImage(url, deviceId, script.http).events
                          + RebootToRecovery(deviceId, script.reboot).events
                          + PushAndFlash(deviceId, path, script.push, script.install).events
                          + [Write(CompletedRecord)] + CleanupEvents(script.cleanup, path, run.result.message)
  {
    var run := FlashDeviceComplete(t, deviceId, url, script);
    var path := ImagePath(url, deviceId);
    var d := DownloadOsImage(url, deviceId, script.http);
    var r := RebootToRecovery(deviceId, script.reboot);
    var f := PushAndFlash(deviceId, path, script.push, script.install);
    var completed := [Write(StartingRecord)] + d.events + r.events + f.events + [Write(CompletedRecord)];
    assert run == Finish(t, deviceId, completed, path, script.cleanup);
    AppendAssoc(completed, if script.cleanup.AlreadyGone? then [] else [RemoveFile(path)],
                if script.cleanup.RemoveFailed? then [Write(ErrorRecord(0, "Flash failed: " + run.result.message))] else []);
  }

  /** The projections of the download step: no command, no removal, and one
      error record with progress 0 when it raised. */
  lemma DownloadProjections(url: string, deviceId: string, http: HttpOutcome)
    ensures var s := DownloadOsImage(url, deviceId, http);
            && Commands(s.events) == []
            && Removals(s.events) == []
            && ErrorProgress(s.events) == (if s.Raised? then [0] else [])
  {
    var s := DownloadOsImage(url, deviceId, http);
    var streamed := Streamed(url, http);
    StreamedQuiet(url, http);
    FilterMapNone(CommandOf, streamed);
    FilterMapNone(RemovalOf, streamed);
    FilterMapNone(ErrorProgressOf, streamed);
    if s.Raised? {
      var err := Write(ErrorRecord(0, "Download failed: " + s.message));
      ProjectAppend(streamed, [err]);
      Projections1(err);
    } else {
      AppendEmpty(streamed);
    }
  }

  /** Projections of a short trace written as a display. */
  lemma Projections2(a: Event, b: Event)
    ensures Commands([a, b]) == Commands([a]) + Commands([b])
    ensures Removals([a, b]) == Removals([a]) + Removals([b])
    ensures ErrorProgress([a, b]) == ErrorProgress([a]) + ErrorProgress([b])
  {
    assert [a, b] == [a] + [b];
    FilterMapAppend(CommandOf, [a], [b]);
    FilterMapAppend(RemovalOf, [a], [b]);
    FilterMapAppend(ErrorProgressOf, [a], [b]);
  }

  lemma Projections1(a: Event)
    ensures Commands([a]) == (if a.Exec? then [a.command] else [])
    ensures Removals([a]) == (if a.RemoveFile? then [a.path] else [])
    ensures ErrorProgress([a]) == (if IsErrorWrite(a) then [a.record.progress] else [])
  {
    FilterMapSingle(CommandOf, a);
    FilterMapSingle(RemovalOf, a);
    FilterMapSingle(ErrorProgressOf, a);
  }

  /** Projections of `a + b`. */
  lemma ProjectAppend(a: seq<Event>, b: seq<Event>)
    ensures Commands(a + b) == Commands(a) + Commands(b)
    ensures Removals(a + b) == Removals(a) + Removals(b)
    ensures ErrorProgress(a + b) == ErrorProgress(a) + ErrorProgress(b)
  {
    FilterMapAppend(CommandOf, a, b);
    FilterMapAppend(RemovalOf, a, b);
    FilterMapAppend(ErrorProgressOf, a, b);
  }

  /** A status write followed by a device command. */
  lemma WriteThenExec(w: StatusRecord, argv: AdbCommand)
    requires w.status != Error
    ensures Commands([Write(w), Exec(argv)]) == [argv]
    ensures Removals([Write(w), Exec(argv)]) == []
    ensures ErrorProgress([Write(w), Exec(argv)]) == []
  {
    Projections2(Write(w), Exec(argv));
    Projections1(Write(w));
    Projections1(Exec(argv));
  }

  /** The projections of the reboot step. */
  lemma RebootProjections(deviceId: string, reboot: Process.Outcome)
    ensures var s := RebootToRecovery(deviceId, reboot);
            && Commands(s.events) == [RebootRecovery(deviceId)]
            && Removals(s.events) == []
            && ErrorProgress(s.events) == (if s.Raised? then [30] else [])
  {
    var s := RebootToRecovery(deviceId, reboot);
    var issued := [Write(RebootingRecord), Exec(RebootRecovery(deviceId))];
    WriteThenExec(RebootingRecord, RebootRecovery(deviceId));
    if s.Raised? {
      var err := Write(ErrorRecord(30, "Reboot failed: " + s.message));
      ProjectAppend(issued, [err]);
      Projections1(err);
    } else {
      AppendEmpty(issued);
    }
  }

  /** The projections of the push-and-install step. */
  lemma FlashProjections(deviceId: string, imagePath: string, push: Process.Outcome, install: Process.Outcome)
    ensures var s := PushAndFlash(deviceId, imagePath, push, install);
            && Commands(s.events) == [Push(deviceId, imagePath)]
                                     + (if push.Succeeded() then [Install(deviceId, imagePath)] else [])
            && Removals(s.events) == []
            && ErrorProgress(s.events) == (if s.Raised? then [70] else [])
  {
    var s := PushAndFlash(deviceId, imagePath, push, install);
    var pushed := [Write(PushingRecord), Exec(Push(deviceId, imagePath))];
    var installed := if push.Succeeded() then [Write(FlashingRecord), Exec(Install(deviceId, imagePath))] else [];
    var err := if s.Raised? then [Write(ErrorRecord(70, "Flash failed: " + s.message))] else [];
    WriteThenExec(PushingRecord, Push(deviceId, imagePath));
    WriteThenExec(FlashingRecord, Install(deviceId, imagePath));
    ProjectAppend(pushed, installed);
    ProjectAppend(pushed + installed, err);
    if s.Raised? {
      Projections1(err[0]);
    }
  }

  /** The projections of the handler's error record. */
  lemma HandlerProjections(message: string)
    ensures var fin := [Write(ErrorRecord(0, "Flash failed: " + message))];
            && Commands(fin) == [] && Removals(fin) == [] && ErrorProgress(fin) == [0]
  {
    Projections1(Write(ErrorRecord(0, "Flash failed: " + message)));
  }

  /** The projections of the completed record and of the clean-up. */
  lemma CleanupProjections(cleanup: Cleanup, path: string, message: string)
    ensures var c := CleanupEvents(cleanup, path, message);
            && Commands(c) == []
            && Removals(c) == (if cleanup.AlreadyGone? then [] else [path])
            && ErrorProgress(c) == (if cleanup.RemoveFailed? then [0] else [])
    ensures Commands([Write(CompletedRecord)]) == [] && Removals([Write(CompletedRecord)]) == []
            && ErrorProgress([Write(CompletedRecord)]) == []
  {
    var fin := Write(ErrorRecord(0, "Flash failed: " + message));
    Projections1(fin);
    Projections1(RemoveFile(path));
    Projections1(Write(CompletedRecord));
    ProjectAppend(if cleanup.AlreadyGone? then [] else [RemoveFile(path)],
                  if cleanup.RemoveFailed? then [fin] else []);
  }

  /** A projection of a run that stopped at the download. */
  lemma ProjectDownloadRaised<B>(f: Event -> Option<B>, t: StatusTable, deviceId: string, url: string, script: Script)
    requires !DownloadSucceeds(script)
    ensures var run := FlashDeviceComplete(t, deviceId, url, script);
            FilterMap(f, run.events)
            == FilterMap(f, [Write(StartingRecord)]) + FilterMap(f, DownloadOsImage(url, deviceId, script.http).events)
               + FilterMap(f, [Write(ErrorRecord(0, "Flash failed: " + run.result.message))])
  {
    var run := FlashDeviceComplete(t, deviceId, url, script);
    RunSegments(t, deviceId, url, script);
    FilterMapAppend3(f, [Write(StartingRecord)], DownloadOsImage(url, deviceId, script.http).events,
                     [Write(ErrorRecord(0, "Flash failed: " + run.result.message))]);
  }

  /** A projection of a run that stopped at the reboot. */
  lemma ProjectRebootRaised<B>(f: Event -> Option<B>, t: StatusTable, deviceId: string, url: string, script: Script)
    requires DownloadSucceeds(script) && !script.reboot.Succeeded()
    ensures var run := FlashDeviceComplete(t, deviceId, url, script);
            FilterMap(f, run.events)
            == FilterMap(f, [Write(StartingRecord)] + DownloadOsImage(url, deviceId, script.http).events)
               + FilterMap(f, RebootToRecovery(deviceId, script.reboot).events)
               + FilterMap(f, [Write(ErrorRecord(0, "Flash failed: " + run.result.message))])
  {
    var run := FlashDeviceComplete(t, deviceId, url, script);
    RunSegments(t, deviceId, url, script);
    FilterMapAppend3(f, [Write(StartingRecord)] + DownloadOsImage(url, deviceId, script.http).events,
                     RebootToRecovery(deviceId, script.reboot).events,
                     [Write(ErrorRecord(0, "Flash failed: " + run.result.message))]);
  }

  /** A projection of a run that stopped at the push or the installer. */
  lemma ProjectFlashRaised<B>(f: Event -> Option<B>, t: StatusTable, deviceId: string, url: string, script: Script)
    requires DownloadSucceeds(script) && script.reboot.Succeeded()
    requires !(script.push.Succeeded() && script.install.Exited?)
    ensures var run := FlashDeviceComplete(t, deviceId, url, script);
            var path := ImagePath(url, deviceId);
            FilterMap(f, run.events)
            == FilterMap(f, [Write(StartingRecord)] + DownloadOsImage(url, deviceId, script.http).events
                            + RebootToRecovery(deviceId, script.reboot).events)
               + FilterMap(f, PushAndFlash(deviceId, path, script.push, script.install).events)
               + FilterMap(f, [Write(ErrorRecord(0, "Flash failed: " + run.result.message))])
  {
    var run := FlashDeviceComplete(t, deviceId, url, script);
    var path := ImagePath(url, deviceId);
    RunSegments(t, deviceId, url, script);
    FilterMapAppend3(f, [Write(StartingRecord)] + DownloadOsImage(url, deviceId, script.http).events
                        + RebootToRecovery(deviceId, script.reboot).events,
                     PushAndFlash(deviceId, path, script.push, script.install).events,
                     [Write(ErrorRecord(0, "Flash failed: " + run.result.message))]);
  }

  /** A projection of a run whose every step returned. */
  lemma ProjectStepsDone<B>(f: Event -> Option<B>, t: StatusTable, deviceId: string, url: string, script: Script)
    requires DownloadSucceeds(script) && script.reboot.Succeeded()
    requires script.push.Succeeded() && script.install.Exited?
    ensures var run := FlashDeviceComplete(t, deviceId, url, script);
            var path := ImagePath(url, deviceId);
            FilterMap(f, run.events)
            == FilterMap(f, [Write(StartingRecord)] + DownloadOsImage(url, deviceId, script.http).events
                            + RebootToRecovery(deviceId, script.reboot).events)
               + FilterMap(f, PushAndFlash(deviceId, path, script.push, script.install).events)
               + FilterMap(f, [Write(CompletedRecord)])
               + FilterMap(f, CleanupEvents(script.cleanup, path, run.result.message))
  {
    var run := FlashDeviceComplete(t, deviceId, url, script);
    var path := ImagePath(url, deviceId);
    RunSegments(t, deviceId, url, script);
    FilterMapAppend4(f, [Write(StartingRecord)] + DownloadOsImage(url, deviceId, script.http).events
                        + RebootToRecovery(deviceId, script.reboot).events,
                     PushAndFlash(deviceId, path, script.push, script.install).events,
                     [Write(CompletedRecord)],
                     CleanupEvents(script.cleanup, path, run.result.message));
  }

  /** The projections of what precedes the reboot. */
  lemma HeadProjections(deviceId: string, url: string, script: Script)
    requires DownloadSucceeds(script)
    ensures var head := [Write(StartingRecord)] + DownloadOsImage(url, deviceId, script.http).events;
            && Commands(head) == [] && Removals(head) == [] && ErrorProgress(head) == []
  {
    var d := DownloadOsImage(url, deviceId, script.http);
    DownloadProjections(url, deviceId, script.http);
    Projections1(Write(StartingRecord));
    ProjectAppend([Write(StartingRecord)], d.events);
  }

  /** The projections of what precedes the push. */
  lemma RebootHeadProjections(deviceId: string, url: string, script: Script)
    requires DownloadSucceeds(script) && script.reboot.Succeeded()
    ensures var head := [Write(StartingRecord)] + DownloadOsImage(url, deviceId, script.http).events
                        + RebootToRecovery(deviceId, script.reboot).events;
            && Commands(head) == [RebootRecovery(deviceId)] && Removals(head) == [] && ErrorProgress(head) == []
  {
    var head := [Write(StartingRecord)] + DownloadOsImage(url, deviceId, script.http).events;
    var r := RebootToRecovery(deviceId, script.reboot);
    HeadProjections(deviceId, url, script);
    RebootProjections(deviceId, script.reboot);
    ProjectAppend(head, r.events);
  }

  /** The projections of the pieces of a run that stopped at the download. */
  lemma DownloadRaisedParts(url: string, deviceId: string, http: HttpOutcome, message: string)
    requires DownloadFailure(http).Some?
    ensures var begun := [Write(StartingRecord)];
            var d := DownloadOsImage(url, deviceId, http).events;
            var fin := [Write(ErrorRecord(0, "Flash failed: " + message))];
            && Commands(begun) + Commands(d) + Commands(fin) == []
            && ErrorProgress(begun) + ErrorProgress(d) + ErrorProgress(fin) == [0, 0]
            && Removals(begun) + Removals(d) + Removals(fin) == []
  {
    var begun := [Write(StartingRecord)];
    var d := DownloadOsImage(url, deviceId, http).events;
    var fin := [Write(ErrorRecord(0, "Flash failed: " + message))];
    HandlerProjections(message);
    DownloadProjections(url, deviceId, http);
    Projections1(Write(StartingRecord));
    Join3Empty(Commands(begun), Commands(d), Commands(fin));
    Join3Pair(ErrorProgress(begun), ErrorProgress(d), ErrorProgress(fin), 0, 0);
    Join3Empty(Removals(begun), Removals(d), Removals(fin));
  }

  /** The device commands of a run that stopped at the download. */
  lemma DownloadRaisedCommands(t: StatusTable, deviceId: string, url: string, script: Script)
    requires !DownloadSucceeds(script)
    ensures var es := FlashDeviceComplete(t, deviceId, url, script).events;
            Commands(es) == []
  {
    var run := FlashDeviceComplete(t, deviceId, url, script);
    ProjectDownloadRaised(CommandOf, t, deviceId, url, script);
    DownloadRaisedParts(url, deviceId, script.http, run.result.message);
  }

  /** The error records of a run that stopped at the download. */
  lemma DownloadRaisedErrorProgress(t: StatusTable, deviceId: string, url: string, script: Script)
    requires !DownloadSucceeds(script)
    ensures var es := FlashDeviceComplete(t, deviceId, url, script).events;
            ErrorProgress(es) == [0, 0]
  {
    var run := FlashDeviceComplete(t, deviceId, url, script);
    ProjectDownloadRaised(ErrorProgressOf, t, deviceId, url, script);
    DownloadRaisedParts(url, deviceId, script.http, run.result.message);
  }

  /** The removals of a run that stopped at the download. */
  lemma DownloadRaisedRemovals(t: StatusTable, deviceId: string, url: string, script: Script)
    requires !DownloadSucceeds(script)
    ensures var es := FlashDeviceComplete(t, deviceId, url, script).events;
            Removals(es) == []
  {
    var run := FlashDeviceComplete(t, deviceId, url, script);
    ProjectDownloadRaised(RemovalOf, t, deviceId, url, script);
    DownloadRaisedParts(url, deviceId, script.http, run.result.message);
  }

  /** The projections of a run that stopped at the download. */
  lemma DownloadRaisedRun(t: StatusTable, deviceId: string, url: string, script: Script)
    requires !DownloadSucceeds(script)
    ensures var es := FlashDeviceComplete(t, deviceId, url, script).events;
            Commands(es) == [] && ErrorProgress(es) == [0, 0] && Removals(es) == []
  {
    DownloadRaisedCommands(t, deviceId, url, script);
    DownloadRaisedErrorProgress(t, deviceId, url, script);
    DownloadRaisedRemovals(t, deviceId, url, script);
  }

  /** The device commands of a run that stopped at the reboot. */
  lemma RebootRaisedCommands(t: StatusTable, deviceId: string, url: string, script: Script)
    requires DownloadSucceeds(script) && !script.reboot.Succeeded()
    ensures var es := FlashDeviceComplete(t, deviceId, url, script).events;
            Commands(es) == [RebootRecovery(deviceId)]
  {
    var run := FlashDeviceComplete(t, deviceId, url, script);
    HandlerProjections(run.result.message);
    HeadProjections(deviceId, url, script);
    RebootProjections(deviceId, script.reboot);
    var head := [Write(StartingRecord)] + DownloadOsImage(url, deviceId, script.http).events;
    var r := RebootToRecovery(deviceId, script.reboot).events;
    var fin := [Write(ErrorRecord(0, "Flash failed: " + run.result.message))];
    ProjectRebootRaised(CommandOf, t, deviceId, url, script);
    Join3Single(Commands(head), Commands(r), Commands(fin), RebootRecovery(deviceId));
  }

  /** The error records of a run that stopped at the reboot. */
  lemma RebootRaisedErrorProgress(t: StatusTable, deviceId: string, url: string, script: Script)
    requires DownloadSucceeds(script) && !script.reboot.Succeeded()
    ensures var es := FlashDeviceComplete(t, deviceId, url, script).events;
            ErrorProgress(es) == [30, 0]
  {
    var run := FlashDeviceComplete(t, deviceId, url, script);
    HandlerProjections(run.result.message);
    HeadProjections(deviceId, url, script);
    RebootProjections(deviceId, script.reboot);
    var head := [Write(StartingRecord)] + DownloadOsImage(url, deviceId, script.http).events;
    var r := RebootToRecovery(deviceId, script.reboot).events;
    var fin := [Write(ErrorRecord(0, "Flash failed: " + run.result.message))];
    ProjectRebootRaised(ErrorProgressOf, t, deviceId, url, script);
    Join3Pair(ErrorProgress(head), ErrorProgress(r), ErrorProgress(fin), 30, 0);
  }

  /** The removals of a run that stopped at the reboot. */
  lemma RebootRaisedRemovals(t: StatusTable, deviceId: string, url: string, script: Script)
    requires DownloadSucceeds(script) && !script.reboot.Succeeded()
    ensures var es := FlashDeviceComplete(t, deviceId, url, script).events;
            Removals(es) == []
  {
    var run := FlashDeviceComplete(t, deviceId, url, script);
    HandlerProjections(run.result.message);
    HeadProjections(deviceId, url, script);
    RebootProjections(deviceId, script.reboot);
    var head := [Write(StartingRecord)] + DownloadOsImage(url, deviceId, script.http).events;
    var r := RebootToRecovery(deviceId, script.reboot).events;
    var fin := [Write(ErrorRecord(0, "Flash failed: " + run.result.message))];
    ProjectRebootRaised(RemovalOf, t, deviceId, url, script);
    Join3Empty(Removals(head), Removals(r), Removals(fin));
  }

  /** The projections of a run that stopped at the reboot. */
  lemma RebootRaisedRun(t: StatusTable, deviceId: string, url: string, script: Script)
    requires DownloadSucceeds(script) && !script.reboot.Succeeded()
    ensures var es := FlashDeviceComplete(t, deviceId, url, script).events;
            Commands(es) == [RebootRecovery(deviceId)] && ErrorProgress(es) == [30, 0] && Removals(es) == []
  {
    RebootRaisedCommands(t, deviceId, url, script);
    RebootRaisedErrorProgress(t, deviceId, url, script);
    RebootRaisedRemovals(t, deviceId, url, script);
  }

  /** The device commands of a run that stopped at the push or the installer. */
  lemma FlashRaisedCommands(t: StatusTable, deviceId: string, url: string, script: Script)
    requires DownloadSucceeds(script) && script.reboot.Succeeded()
    requires !(script.push.Succeeded() && script.install.Exited?)
    ensures var es := FlashDeviceComplete(t, deviceId, url, script).events;
            var path := ImagePath(url, deviceId);
            Commands(es) == [RebootRecovery(deviceId), Push(deviceId, path)]
                           + (if script.push.Succeeded() then [Install(deviceId, path)] else [])
  {
    var run := FlashDeviceComplete(t, deviceId, url, script);
    var path := ImagePath(url, deviceId);
    HandlerProjections(run.result.message);
    RebootHeadProjections(deviceId, url, script);
    FlashProjections(deviceId, path, script.push, script.install);
    var head := [Write(StartingRecord)] + DownloadOsImage(url, deviceId, script.http).events
                + RebootToRecovery(deviceId, script.reboot).events;
    var f := PushAndFlash(deviceId, path, script.push, script.install).events;
    var fin := [Write(ErrorRecord(0, "Flash failed: " + run.result.message))];
    ProjectFlashRaised(CommandOf, t, deviceId, url, script);
    Join3Lead(Commands(head), Commands(f), Commands(fin), RebootRecovery(deviceId), Push(deviceId, path),
              if script.push.Succeeded() then [Install(deviceId, path)] else []);
  }

  /** The error records of a run that stopped at the push or the installer. */
  lemma FlashRaisedErrorProgress(t: StatusTable, deviceId: string, url: string, script: Script)
    requires DownloadSucceeds(script) && script.reboot.Succeeded()
    requires !(script.push.Succeeded() && script.install.Exited?)
    ensures var es := FlashDeviceComplete(t, deviceId, url, script).events;
            var path := ImagePath(url, deviceId);
            ErrorProgress(es) == [70, 0]
  {
    var run := FlashDeviceComplete(t, deviceId, url, script);
    var path := ImagePath(url, deviceId);
    HandlerProjections(run.result.message);
    RebootHeadProjections(deviceId, url, script);
    FlashProjections(deviceId, path, script.push, script.install);
    var head := [Write(StartingRecord)] + DownloadOsImage(url, deviceId, script.http).events
                + RebootToRecovery(deviceId, script.reboot).events;
    var f := PushAndFlash(deviceId, path, script.push, script.install).events;
    var fin := [Write(ErrorRecord(0, "Flash failed: " + run.result.message))];
    ProjectFlashRaised(ErrorProgressOf, t, deviceId, url, script);
    Join3Pair(ErrorProgress(head), ErrorProgress(f), ErrorProgress(fin), 70, 0);
  }

  /** The removals of a run that stopped at the push or the installer. */
  lemma FlashRaisedRemovals(t: StatusTable, deviceId: string, url: string, script: Script)
    requires DownloadSucceeds(script) && script.reboot.Succeeded()
    requires !(script.push.Succeeded() && script.install.Exited?)
    ensures var es := FlashDeviceComplete(t, deviceId, url, script).events;
            var path := ImagePath(url, deviceId);
            Removals(es) == []
  {
    var run := FlashDeviceComplete(t, deviceId, url, script);
    var path := ImagePath(url, deviceId);
    HandlerProjections(run.result.message);
    RebootHeadProjections(deviceId, url, script);
    FlashProjections(deviceId, path, script.push, script.install);
    var head := [Write(StartingRecord)] + DownloadOsImage(url, deviceId, script.http).events
                + RebootToRecovery(deviceId, script.reboot).events;
    var f := PushAndFlash(deviceId, path, script.push, script.install).events;
    var fin := [Write(ErrorRecord(0, "Flash failed: " + run.result.message))];
    ProjectFlashRaised(RemovalOf, t, deviceId, url, script);
    Join3Empty(Removals(head), Removals(f), Removals(fin));
  }

  /** The projections of a run that stopped at the push or the installer. */
  lemma FlashRaisedRun(t: StatusTable, deviceId: string, url: string, script: Script)
    requires DownloadSucceeds(script) && script.reboot.Succeeded()
    requires !(script.push.Succeeded() && script.install.Exited?)
    ensures var es := FlashDeviceComplete(t, deviceId, url, script).events;
            var path := ImagePath(url, deviceId);
            && Commands(es) == [RebootRecovery(deviceId), Push(deviceId, path)]
                               + (if script.push.Succeeded() then [Install(deviceId, path)] else [])
            && ErrorProgress(es) == [70, 0]
            && Removals(es) == []
  {
    FlashRaisedCommands(t, deviceId, url, script);
    FlashRaisedErrorProgress(t, deviceId, url, script);
    FlashRaisedRemovals(t, deviceId, url, script);
  }

  /** The device commands of a run whose every step returned. */
  lemma StepsDoneCommands(t: StatusTable, deviceId: string, url: string, script: Script)
    requires DownloadSucceeds(script) && script.reboot.Succeeded()
    requires script.push.Succeeded() && script.install.Exited?
    ensures var es := FlashDeviceComplete(t, deviceId, url, script).events;
            var path := ImagePath(url, deviceId);
            Commands(es) == [RebootRecovery(deviceId), Push(deviceId, path), Install(deviceId, path)]
  {
    var run := FlashDeviceComplete(t, deviceId, url, script);
    var path := ImagePath(url, deviceId);
    CleanupProjections(script.cleanup, path, run.result.message);
    RebootHeadProjections(deviceId, url, script);
    FlashProjections(deviceId, path, script.push, script.install);
    var head := [Write(StartingRecord)] + DownloadOsImage(url, deviceId, script.http).events
                + RebootToRecovery(deviceId, script.reboot).events;
    var f := PushAndFlash(deviceId, path, script.push, script.install).events;
    var done := [Write(CompletedRecord)];
    var tail := CleanupEvents(script.cleanup, path, run.result.message);
    ProjectStepsDone(CommandOf, t, deviceId, url, script);
    Join4Triple(Commands(head), Commands(f), Commands(done), Commands(tail),
                RebootRecovery(deviceId), Push(deviceId, path), Install(deviceId, path));
  }

  /** The error records of a run whose every step returned. */
  lemma StepsDoneErrorProgress(t: StatusTable, deviceId: string, url: string, script: Script)
    requires DownloadSucceeds(script) && script.reboot.Succeeded()
    requires script.push.Succeeded() && script.install.Exited?
    ensures var es := FlashDeviceComplete(t, deviceId, url, script).events;
            var path := ImagePath(url, deviceId);
            ErrorProgress(es) == (if script.cleanup.RemoveFailed? then [0] else [])
  {
    var run := FlashDeviceComplete(t, deviceId, url, script);
    var path := ImagePath(url, deviceId);
    CleanupProjections(script.cleanup, path, run.result.message);
    RebootHeadProjections(deviceId, url, script);
    FlashProjections(deviceId, path, script.push, script.install);
    var head := [Write(StartingRecord)] + DownloadOsImage(url, deviceId, script.http).events
                + RebootToRecovery(deviceId, script.reboot).events;
    var f := PushAndFlash(deviceId, path, script.push, script.install).events;
    var done := [Write(CompletedRecord)];
    var tail := CleanupEvents(script.cleanup, path, run.result.message);
    ProjectStepsDone(ErrorProgressOf, t, deviceId, url, script);
    Join4Last(ErrorProgress(head), ErrorProgress(f), ErrorProgress(done), ErrorProgress(tail));
  }

  /** The removals of a run whose every step returned. */
  lemma StepsDoneRemovals(t: StatusTable, deviceId: string, url: string, script: Script)
    requires DownloadSucceeds(script) && script.reboot.Succeeded()
    requires script.push.Succeeded() && script.install.Exited?
    ensures var es := FlashDeviceComplete(t, deviceId, url, script).events;
            var path := ImagePath(url, deviceId);
            Removals(es) == (if script.cleanup.AlreadyGone? then [] else [path])
  {
    var run := FlashDeviceComplete(t, deviceId, url, script);
    var path := ImagePath(url, deviceId);
    CleanupProjections(script.cleanup, path, run.result.message);
    RebootHeadProjections(deviceId, url, script);
    FlashProjections(deviceId, path, script.push, script.install);
    var head := [Write(StartingRecord)] + DownloadOsImage(url, deviceId, script.http).events
                + RebootToRecovery(deviceId, script.reboot).events;
    var f := PushAndFlash(deviceId, path, script.push, script.install).events;
    var done := [Write(CompletedRecord)];
    var tail := CleanupEvents(script.cleanup, path, run.result.message);
    ProjectStepsDone(RemovalOf, t, deviceId, url, script);
    Join4Last(Removals(head), Removals(f), Removals(done), Removals(tail));
  }

  /** The projections of a run whose every step returned. */
  lemma StepsDoneRun(t: StatusTable, deviceId: string, url: string, script: Script)
    requires DownloadSucceeds(script) && script.reboot.Succeeded()
    requires script.push.Succeeded() && script.install.Exited?
    ensures var es := FlashDeviceComplete(t, deviceId, url, script).events;
            var path := ImagePath(url, deviceId);
            && Commands(es) == [RebootRecovery(deviceId), Push(deviceId, path), Install(deviceId, path)]
            && ErrorProgress(es) == (if script.cleanup.RemoveFailed? then [0] else [])
            && Removals(es) == (if script.cleanup.AlreadyGone? then [] else [path])
  {
    StepsDoneCommands(t, deviceId, url, script);
    StepsDoneErrorProgress(t, deviceId, url, script);
    StepsDoneRemovals(t, deviceId, url, script);
  }

  /** The device commands of a run are the reboot, the push and the
      installer, each issued only when every earlier step succeeded. */
  lemma RunCommands(t: StatusTable, deviceId: string, url: string, script: Script)
    ensures var es := FlashDeviceComplete(t, deviceId, url, script).events;
            var path := ImagePath(url, deviceId);
            && (!DownloadSucceeds(script) ==> Commands(es) == [])
            && (DownloadSucceeds(script) && !script.reboot.Succeeded() ==> Commands(es) == [RebootRecovery(deviceId)])
            && (DownloadSucceeds(script) && script.reboot.Succeeded() && !script.push.Succeeded() ==>
                  Commands(es) == [RebootRecovery(deviceId), Push(deviceId, path)])
            && (DownloadSucceeds(script) && script.reboot.Succeeded() && script.push.Succeeded() ==>
                  Commands(es) == [RebootRecovery(deviceId), Push(deviceId, path), Install(deviceId, path)])
  {
    if !DownloadSucceeds(script) {
      DownloadRaisedRun(t, deviceId, url, script);
    } else if !script.reboot.Succeeded() {
      RebootRaisedRun(t, deviceId, url, script);
    } else if !(script.push.Succeeded() && script.install.Exited?) {
      FlashRaisedRun(t, deviceId, url, script);
      AppendEmpty([RebootRecovery(deviceId), Push(deviceId, ImagePath(url, deviceId))]);
    } else {
      StepsDoneRun(t, deviceId, url, script);
    }
  }

  /** Each failing step writes its own error record (0 for the download, 30
      for the reboot, 70 for push or install) and the handler then writes a
      second one with progress 0; a failed removal leads to the handler's
      record alone; a successful run writes none. */
  lemma RunErrorRecords(t: StatusTable, deviceId: string, url: string, script: Script)
    ensures var es := FlashDeviceComplete(t, deviceId, url, script).events;
            && (AllStepsSucceed(script) ==> ErrorProgress(es) == [])
            && (!DownloadSucceeds(script) ==> ErrorProgress(es) == [0, 0])
            && (DownloadSucceeds(script) && !script.reboot.Succeeded() ==> ErrorProgress(es) == [30, 0])
            && ((DownloadSucceeds(script) && script.reboot.Succeeded()
                 && !(script.push.Succeeded() && script.install.Exited?)) ==> ErrorProgress(es) == [70, 0])
            && ((DownloadSucceeds(script) && script.reboot.Succeeded() && script.push.Succeeded()
                 && script.install.Exited? && script.cleanup.RemoveFailed?) ==> ErrorProgress(es) == [0])
  {
    if !DownloadSucceeds(script) {
      DownloadRaisedRun(t, deviceId, url, script);
    } else if !script.reboot.Succeeded() {
      RebootRaisedRun(t, deviceId, url, script);
    } else if !(script.push.Succeeded() && script.install.Exited?) {
      FlashRaisedRun(t, deviceId, url, script);
    } else {
      StepsDoneRun(t, deviceId, url, script);
    }
  }

  /** The local image is removed at most once, only after every step up to
      the installer succeeded and only when it still exists; the path removed
      is the one the file-name rule derives. */
  lemma RunRemovals(t: StatusTable, deviceId: string, url: string, script: Script)
    ensures var es := FlashDeviceComplete(t, deviceId, url, script).events;
            Removals(es) == (if DownloadSucceeds(script) && script.reboot.Succeeded() && script.push.Succeeded()
                                && script.install.Exited? && !script.cleanup.AlreadyGone?
                             then [ImagePath(url, deviceId)] else [])
  {
    if !DownloadSucceeds(script) {
      DownloadRaisedRun(t, deviceId, url, script);
    } else if !script.reboot.Succeeded() {
      RebootRaisedRun(t, deviceId, url, script);
    } else if !(script.push.Succeeded() && script.install.Exited?) {
      FlashRaisedRun(t, deviceId, url, script);
    } else {
      StepsDoneRun(t, deviceId, url, script);
    }
  }

  /** No device command or HTTP request follows an error record. */
  predicate NoCallAfterError(es: seq<Event>) {
    forall i, j :: 0 <= i < j < |es| && IsErrorWrite(es[i]) ==> !es[j].Exec? && !es[j].HttpGet?
  }

  /** A trace made of an error-free part followed by a part with no outside
      call has no device command or request after any error record. */
  lemma QuietAfterError(prefix: seq<Event>, suffix: seq<Event>)
    requires NoErrorWrite(prefix) && NoOutsideCall(suffix)
    ensures NoCallAfterError(prefix + suffix)
  {
    var es := prefix + suffix;
    forall i, j | 0 <= i < j < |es| && IsErrorWrite(es[i])
      ensures !es[j].Exec? && !es[j].HttpGet?
    {
      assert es[j] in suffix;
    }
  }

  /** Two traces without a call after an error stay so when joined, provided
      the first records no error or the second makes no call. */
  lemma QuietAppend(a: seq<Event>, b: seq<Event>)
    requires NoCallAfterError(a) && NoCallAfterError(b)
    requires NoErrorWrite(a) || NoOutsideCall(b)
    ensures NoCallAfterError(a + b)
  {
    var es := a + b;
    forall i, j | 0 <= i < j < |es| && IsErrorWrite(es[i])
      ensures !es[j].Exec? && !es[j].HttpGet?
    {
      if j < |a| {
        assert es[i] == a[i] && es[j] == a[j];
      } else if i >= |a| {
        assert es[i] == b[i - |a|] && es[j] == b[j - |a|];
      } else {
        assert es[i] in a && es[j] in b;
      }
    }
  }

  /** Each step stops calling out once it has recorded an error, and records
      none when it returns. */
  lemma StepsQuiet(url: string, deviceId: string, script: Script)
    ensures var d := DownloadOsImage(url, deviceId, script.http);
            NoCallAfterError(d.events) && (d.Done? ==> NoErrorWrite(d.events))
    ensures var r := RebootToRecovery(deviceId, script.reboot);
            NoCallAfterError(r.events) && (r.Done? ==> NoErrorWrite(r.events))
    ensures var f := PushAndFlash(deviceId, ImagePath(url, deviceId), script.push, script.install);
            NoCallAfterError(f.events) && (f.Done? ==> NoErrorWrite(f.events))
  {
    DownloadQuiet(url, deviceId, script.http);
    RebootQuiet(deviceId, script.reboot);
    FlashQuiet(deviceId, ImagePath(url, deviceId), script.push, script.install);
  }

  lemma DownloadQuiet(url: string, deviceId: string, http: HttpOutcome)
    ensures var d := DownloadOsImage(url, deviceId, http);
            NoCallAfterError(d.events) && (d.Done? ==> NoErrorWrite(d.events))
  {
    var d := DownloadOsImage(url, deviceId, http);
    var streamed := Streamed(url, http);
    StreamedQuiet(url, http);
    QuietAfterError(streamed, d.events[|streamed|..]);
    assert d.events == streamed + d.events[|streamed|..];
  }

  lemma RebootQuiet(deviceId: string, reboot: Process.Outcome)
    ensures var r := RebootToRecovery(deviceId, reboot);
            NoCallAfterError(r.events) && (r.Done? ==> NoErrorWrite(r.events))
  {
    var r := RebootToRecovery(deviceId, reboot);
    var issued := [Write(RebootingRecord), Exec(RebootRecovery(deviceId))];
    QuietAfterError(issued, r.events[2..]);
    assert r.events == issued + r.events[2..];
  }

  lemma FlashQuiet(deviceId: string, path: string, push: Process.Outcome, install: Process.Outcome)
    ensures var f := PushAndFlash(deviceId, path, push, install);
            NoCallAfterError(f.events) && (f.Done? ==> NoErrorWrite(f.events))
  {
    var f := PushAndFlash(deviceId, path, push, install);
    var pushed := [Write(PushingRecord), Exec(Push(deviceId, path))]
                  + (if push.Succeeded() then [Write(FlashingRecord), Exec(Install(deviceId, path))] else []);
    QuietAfterError(pushed, f.events[|pushed|..]);
    assert f.events == pushed + f.events[|pushed|..];
  }

  /** A trace of pieces that each stop calling out after an error, where every
      piece but the last records no error, stops calling out after an error
      provided the last piece makes no call. */
  lemma QuietChain(a: seq<Event>, b: seq<Event>, c: seq<Event>, d: seq<Event>, e: seq<Event>, f: seq<Event>)
    requires NoCallAfterError(e) && NoOutsideCall(f)
    requires NoErrorWrite(a) && NoErrorWrite(b) && NoErrorWrite(c) && NoErrorWrite(d)
    ensures NoCallAfterError(a + b + c + d + e + f)
  {
    assert NoErrorWrite(a + b + c + d) by {
      assert forall x :: x in a + b + c + d ==> x in a || x in b || x in c || x in d;
    }
    QuietAppend(a + b + c + d, e);
    QuietAfterError([], f);
    AppendEmpty(f);
    assert [] + f == f;
    QuietAppend(a + b + c + d + e, f);
  }

  /** The handler's record makes no call, and neither does the clean-up. */
  lemma TailsQuiet(message: string, cleanup: Cleanup, path: string)
    ensures NoOutsideCall([Write(ErrorRecord(0, "Flash failed: " + message))])
    ensures NoOutsideCall(CleanupEvents(cleanup, path, message))
    ensures NoErrorWrite([Write(StartingRecord)]) && NoErrorWrite([Write(CompletedRecord)])
  {
  }

  /** Once any step has recorded an error, nothing more is sent to the network
      or the device. */
  lemma NoStepAfterFailure(t: StatusTable, deviceId: string, url: string, script: Script)
    ensures NoCallAfterError(FlashDeviceComplete(t, deviceId, url, script).events)
  {
    var run := FlashDeviceComplete(t, deviceId, url, script);
    var path := ImagePath(url, deviceId);
    var d := DownloadOsImage(url, deviceId, script.http).events;
    var r := RebootToRecovery(deviceId, script.reboot).events;
    var f := PushAndFlash(deviceId, path, script.push, script.install).events;
    var fin := [Write(ErrorRecord(0, "Flash failed: " + run.result.message))];
    var begun := [Write(StartingRecord)];
    RunSegments(t, deviceId, url, script);
    StepsQuiet(url, deviceId, script);
    TailsQuiet(run.result.message, script.cleanup, path);
    if !DownloadSucceeds(script) {
      QuietChain([], [], [], begun, d, fin);
      assert [] + [] + [] + begun == begun;
    } else if !script.reboot.Succeeded() {
      QuietChain([], [], begun, d, r, fin);
      assert [] + [] + begun == begun;
    } else if !(script.push.Succeeded() && script.install.Exited?) {
      QuietChain([], begun, d, r, f, fin);
      assert [] + begun == begun;
    } else {
      var done := [Write(CompletedRecord)];
      QuietChain(begun, d, r, f, done, CleanupEvents(script.cleanup, path, run.result.message));
    }
  }
}
