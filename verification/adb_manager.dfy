/** The Android Debug Bridge wrapper: parsing the `adb devices -l` listing,
    the device-exists guard in front of a flash request, and the background
    task that reboots the device into its bootloader. */
module AdbManager {

  import opened Options
  import opened Strings
  import opened Seqs
  import Process

  /** The attribute token that carries the device model in a long listing. */
  const ModelKey: string := "model:"
  /** Lines mentioning this word anywhere are skipped. */
  const OfflineWord: string := "offline"
  const Online: string := "online"
  const UnknownModel: string := "Unknown"

  /** One entry of the device list returned to the API. */
  datatype Device = Device(id: string, model: string, status: string)

  /** `part.split(':', 1)[1]` for a `model:` token: everything after the first
      colon, which is everything after the key. */
  function ModelValue(part: string): (r: string)
    requires StartsWith(part, ModelKey)
    ensures r == part[|ModelKey|..]
  {
    assert part[5] == ':';
    assert ':' !in part[..5] by {
      assert part[..5] == "model";
    }
    var i := IndexOf(part, ':');
    part[i + 1..]
  }

  /** The model of the first token that starts with `model:`, or "Unknown"
      when none does. The device id itself takes part in the scan. */
  function ModelOf(parts: seq<string>): (m: string)
    ensures (forall k :: 0 <= k < |parts| ==> !StartsWith(parts[k], ModelKey)) ==> m == UnknownModel
    ensures forall k ::
              (0 <= k < |parts| && StartsWith(parts[k], ModelKey)
               && (forall j :: 0 <= j < k ==> !StartsWith(parts[j], ModelKey)))
              ==> m == parts[k][|ModelKey|..]
    decreases |parts|
  {
    if parts == [] then UnknownModel
    else if StartsWith(parts[0], ModelKey) then ModelValue(parts[0])
    else
      var m := ModelOf(parts[1..]);
      assert forall k :: 1 <= k < |parts| ==> parts[1..][k - 1] == parts[k];
      m
  }

  /** One line after the header: skipped when blank, when it mentions
      "offline" anywhere, or when it has fewer than two fields; otherwise
      the first field is the id, and every listed device is "online"
      whatever state adb reported. */
  function ParseDeviceLine(line: string): (r: Option<Device>)
    ensures r.Some? <==> !AllSpace(line) && !Contains(line, OfflineWord) && |Tokens(line)| >= 2
    ensures r.Some? ==> r.value.id == Tokens(line)[0] && r.value.status == Online
    ensures r.Some? ==> r.value.model == ModelOf(Tokens(line))
  {
    if AllSpace(line) || Contains(line, OfflineWord) then None
    else
      var parts := Tokens(line);
      if |parts| >= 2 then Some(Device(parts[0], ModelOf(parts), Online)) else None
  }

  /** The lines `adb devices -l` printed, after the header line. */
  function ListedLines(stdout: string): (lines: seq<string>)
    ensures forall k :: 0 <= k < |lines| ==> '\n' !in lines[k]
  {
    Split(Strip(stdout), '\n')[1..]
  }

  /** The listed lines are everything after the first line of the stripped
      output: one header line, glued to them with line breaks, gives the
      output back. */
  lemma ListedLinesAfterHeader(stdout: string)
    ensures exists header :: '\n' !in header && Join([header] + ListedLines(stdout), '\n') == Strip(stdout)
  {
    var pieces := Split(Strip(stdout), '\n');
    assert pieces == [pieces[0]] + ListedLines(stdout);
  }

  /** Devices reported by a finished `adb devices -l`: nothing when adb could
      not be started or exited non-zero, otherwise the parsed lines in order. */
  function GetConnectedDevices(listing: Process.Outcome): (r: seq<Device>)
    ensures !listing.Succeeded() ==> r == []
    ensures listing.Succeeded() ==> |r| <= |ListedLines(listing.stdout)|
    ensures forall d :: d in r ==> d.status == Online && |d.id| > 0 && NoSpace(d.id)
  {
    if !listing.Succeeded() then []
    else
      var lines := ListedLines(listing.stdout);
      ParsedDevicesWellFormed(lines);
      FilterMap(ParseDeviceLine, lines)
  }

  lemma ParsedDevicesWellFormed(lines: seq<string>)
    ensures forall d :: d in FilterMap(ParseDeviceLine, lines) ==>
              d.status == Online && |d.id| > 0 && NoSpace(d.id)
  {
    forall d | d in FilterMap(ParseDeviceLine, lines)
      ensures d.status == Online && |d.id| > 0 && NoSpace(d.id)
    {
      FilterMapSound(ParseDeviceLine, lines, d);
    }
  }

  /** The blank-line test is redundant: a line is listed exactly when it does
      not mention "offline" and has at least two fields. */
  lemma ParseDeviceLineFields(line: string)
    ensures ParseDeviceLine(line).Some? <==> !Contains(line, OfflineWord) && |Tokens(line)| >= 2
  {
  }

  // ---------------------------------------------------------------------
  // The listing adb prints, as a reference for the parser

  const Header: string := "List of devices attached"

  /** A device line of the long listing: id, state `device`, model attribute. */
  function DeviceLine(d: Device): string
  {
    Join(DeviceWords(d), ' ')
  }

  function DeviceWords(d: Device): seq<string>
  {
    [d.id, "device", ModelKey + d.model]
  }

  function DeviceLines(devs: seq<Device>): seq<string>
  {
    seq(|devs|, k requires 0 <= k < |devs| => DeviceLine(devs[k]))
  }

  /** The output of `adb devices -l`: a first line, one line per device, and
      the blank line adb ends with. */
  function AdbListing(first: string, devs: seq<Device>): string
  {
    Join([first] + DeviceLines(devs), '\n') + "\n\n"
  }

  /** A device the parser can reproduce: an id and a model made of visible
      characters, neither mentioning "offline", and an id that does not itself
      look like a model attribute. */
  predicate Listable(d: Device)
  {
    && |d.id| > 0 && NoSpace(d.id) && !StartsWith(d.id, ModelKey) && !Contains(d.id, OfflineWord)
    && NoSpace(d.model) && !Contains(d.model, OfflineWord)
    && d.status == Online
  }

  lemma DeviceWordsVisible(d: Device)
    requires Listable(d)
    ensures forall k :: 0 <= k < |DeviceWords(d)| ==> |DeviceWords(d)[k]| > 0 && NoSpace(DeviceWords(d)[k])
  {
    var w := ModelKey + d.model;
    assert forall i :: 0 <= i < |w| ==> w[i] == (if i < 6 then ModelKey[i] else d.model[i - 6]);
  }

  lemma DeviceLineNotOffline(d: Device)
    requires Listable(d)
    ensures !Contains(DeviceLine(d), OfflineWord)
  {
    var words := DeviceWords(d);
    if Contains(Join(words, ' '), OfflineWord) {
      ContainsJoin(words, ' ', OfflineWord);
      var k :| 0 <= k < |words| && Contains(words[k], OfflineWord);
      if k == 2 {
        ContainsAppend(ModelKey, d.model, OfflineWord);
      }
      assert false;
    }
  }

  lemma ModelOfDeviceWords(d: Device)
    ensures ModelOf(DeviceWords(d)) == d.model || StartsWith(d.id, ModelKey)
  {
    var words := DeviceWords(d);
    assert words[1][..6][0] != ModelKey[0];
    assert !StartsWith(words[1], ModelKey);
    assert StartsWith(words[2], ModelKey) && words[2][|ModelKey|..] == d.model;
  }

  /** The line of a listable device parses back to that device. */
  lemma DeviceLineRoundTrip(d: Device)
    requires Listable(d)
    ensures ParseDeviceLine(DeviceLine(d)) == Some(d)
  {
    DeviceWordsVisible(d);
    TokensJoin(DeviceWords(d));
    DeviceLineNotOffline(d);
    ModelOfDeviceWords(d);
  }

  lemma DeviceLinesRoundTrip(devs: seq<Device>)
    requires forall d :: d in devs ==> Listable(d)
    ensures FilterMap(ParseDeviceLine, DeviceLines(devs)) == devs
  {
    forall k | 0 <= k < |devs|
      ensures ParseDeviceLine(DeviceLines(devs)[k]) == Some(devs[k])
    {
      assert devs[k] in devs;
      DeviceLineRoundTrip(devs[k]);
    }
    FilterMapAll(ParseDeviceLine, DeviceLines(devs), devs);
  }

  lemma DeviceLineShape(d: Device)
    requires Listable(d)
    ensures TrimmedLine(DeviceLine(d))
  {
    var words := DeviceWords(d);
    DeviceWordsVisible(d);
    JoinFirst(words, ' ');
    LastCharOfJoin(words, ' ');
    var w := words[2];
    assert !IsSpace(w[|w| - 1]);
    forall k | 0 <= k < |words|
      ensures '\n' !in words[k]
    {
    }
    JoinAvoids(words, ' ', '\n');
  }

  /** Whatever the first line says, the devices on the following lines are
      exactly the ones reported, in order. */
  lemma ListingRoundTrip(first: string, devs: seq<Device>, stderr: string)
    requires TrimmedLine(first)
    requires forall d :: d in devs ==> Listable(d)
    ensures GetConnectedDevices(Process.Exited(0, AdbListing(first, devs), stderr)) == devs
  {
    var lines := DeviceLines(devs);
    var parts := [first] + lines;
    forall k | 0 <= k < |parts|
      ensures TrimmedLine(parts[k])
    {
      if k > 0 {
        assert devs[k - 1] in devs;
        DeviceLineShape(devs[k - 1]);
      }
    }
    assert AllSpace("\n\n") by {
      assert "\n\n"[0] == '\n' && "\n\n"[1] == '\n';
    }
    SplitJoinedLines(parts, "\n\n");
    assert parts[1..] == lines;
    DeviceLinesRoundTrip(devs);
  }

  /** The real header is dropped and the devices come back in order. */
  lemma AdbListingRoundTrip(devs: seq<Device>, stderr: string)
    requires forall d :: d in devs ==> Listable(d)
    ensures GetConnectedDevices(Process.Exited(0, AdbListing(Header, devs), stderr)) == devs
  {
    ListingRoundTrip(Header, devs, stderr);
  }

  /** The first line is discarded unread: a listing that lacks the header
      loses its first device. */
  lemma FirstDeviceDropped(d: Device, devs: seq<Device>, stderr: string)
    requires Listable(d)
    requires forall e :: e in devs ==> Listable(e)
    ensures GetConnectedDevices(Process.Exited(0, Join(DeviceLines([d] + devs), '\n') + "\n\n", stderr)) == devs
  {
    DeviceLineShape(d);
    ListingRoundTrip(DeviceLine(d), devs, stderr);
    var a, b := DeviceLines([d] + devs), [DeviceLine(d)] + DeviceLines(devs);
    assert forall k :: 0 < k < |a| ==> a[k] == b[k];
    assert a == b;
  }

  lemma ContainsShift(a: string, b: string, sub: string)
    requires Contains(b, sub)
    ensures Contains(a + b, sub)
  {
    var i :| 0 <= i <= |b| - |sub| && OccursAt(b, sub, i);
    assert (a + b)[|a| + i..|a| + i + |sub|] == b[i..i + |sub|];
    assert OccursAt(a + b, sub, |a| + i);
  }

  /** A device whose model name mentions "offline" is never listed, even
      though adb reports it as an ordinary attached device. */
  lemma OfflineModelHidden(d: Device)
    requires Contains(d.model, OfflineWord)
    ensures ParseDeviceLine(DeviceLine(d)) == None
  {
    var words := DeviceWords(d);
    var prefix := d.id + [' '] + "device" + [' '] + ModelKey;
    assert words[1..][1..] == [ModelKey + d.model];
    assert Join(words[1..], ' ') == "device" + [' '] + (ModelKey + d.model);
    assert DeviceLine(d) == prefix + d.model;
    ContainsShift(prefix, d.model, OfflineWord);
  }

  /** A device in any other state (for example `unauthorized`, or `recovery`)
      is listed as "online"; without a model attribute its model is "Unknown". */
  lemma OtherStatesListedOnline(id: string, state: string)
    requires |id| > 0 && NoSpace(id) && !StartsWith(id, ModelKey) && !Contains(id, OfflineWord)
    requires |state| > 0 && NoSpace(state) && !StartsWith(state, ModelKey) && !Contains(state, OfflineWord)
    ensures ParseDeviceLine(Join([id, state], ' ')) == Some(Device(id, UnknownModel, Online))
  {
    var words := [id, state];
    TokensJoin(words);
    if Contains(Join(words, ' '), OfflineWord) {
      ContainsJoin(words, ' ', OfflineWord);
      assert false;
    }
  }

  // ---------------------------------------------------------------------
  // Flash request

  /** The JSON-like reply of `flash_device`. */
  datatype Reply = Reply(success: bool, message: string)

  /** Observable effects of the background task, in order. */
  datatype TaskEvent = Log(text: string) | RunAdb(argv: seq<string>) | Sleep(seconds: nat)

  /** The reply, and the background task's effects when one was started. */
  datatype FlashStart = FlashStart(reply: Reply, task: Option<seq<TaskEvent>>)

  const BootloaderWait: nat := 10

  function RebootBootloaderArgv(deviceId: string): seq<string>
  {
    ["adb", "-s", deviceId, "reboot", "bootloader"]
  }

  /** The background task. The outcome of the reboot command is awaited but
      never inspected: only an exception diverts the task. */
  function FlashBackground(deviceId: string, osUrl: string, reboot: Process.Outcome): (trace: seq<TaskEvent>)
    ensures |trace| >= 4
    ensures trace[0] == Log("Starting flash process for device " + deviceId)
    ensures trace[1] == Log("OS URL: " + osUrl)
    ensures trace[2] == RunAdb(RebootBootloaderArgv(deviceId))
    ensures reboot.Raised? ==> trace[3..] == [Log("Error flashing device " + deviceId + ": " + reboot.message)]
    ensures reboot.Exited? ==> trace[3] == Sleep(BootloaderWait)
    ensures reboot.Exited? ==> trace[|trace| - 1] == Log("Flashing completed for device " + deviceId)
  {
    var started := [Log("Starting flash process for device " + deviceId), Log("OS URL: " + osUrl),
                    RunAdb(RebootBootloaderArgv(deviceId))];
    match reboot
    case Raised(m) => started + [Log("Error flashing device " + deviceId + ": " + m)]
    case Exited(_, _, _) =>
      started + [Sleep(BootloaderWait),
                 Log("Device " + deviceId + " is in bootloader mode"),
                 Log("Download OS from: " + osUrl),
                 Log("Flashing completed for device " + deviceId)]
  }

  /** The reboot's exit status and output make no difference to the background task: a
      failed reboot still reports the flash as completed. */
  lemma RebootStatusIgnored(deviceId: string, osUrl: string, a: Process.Outcome, b: Process.Outcome)
    requires a.Exited? && b.Exited?
    ensures FlashBackground(deviceId, osUrl, a) == FlashBackground(deviceId, osUrl, b)
  {
  }

  /** `flash_device`: the device must appear in a fresh listing; then the
      background task is started and the reply does not wait for it. */
  function FlashDevice(listing: Process.Outcome, deviceId: string, osUrl: string, reboot: Process.Outcome): (r: FlashStart)
    ensures r.reply.success <==> exists d :: d in GetConnectedDevices(listing) && d.id == deviceId
    ensures r.task.Some? <==> r.reply.success
    ensures !r.reply.success ==> r.reply.message == "Device " + deviceId + " not found"
    ensures r.reply.success ==> r.reply.message == "Flashing started for device " + deviceId
    ensures r.task.Some? ==> r.task.value == FlashBackground(deviceId, osUrl, reboot)
  {
    var devices := GetConnectedDevices(listing);
    if exists d :: d in devices && d.id == deviceId then
      FlashStart(Reply(true, "Flashing started for device " + deviceId),
                 Some(FlashBackground(deviceId, osUrl, reboot)))
    else
      FlashStart(Reply(false, "Device " + deviceId + " not found"), None)
  }

  /** When adb cannot list devices, every flash request is refused and no
      task starts. */
  lemma FlashNeedsListing(listing: Process.Outcome, deviceId: string, osUrl: string, reboot: Process.Outcome)
    requires !listing.Succeeded()
    ensures FlashDevice(listing, deviceId, osUrl, reboot) == FlashStart(Reply(false, "Device " + deviceId + " not found"), None)
  {
  }

  /** A device on the listing is accepted and its background task starts. */
  lemma FlashListedDevice(devs: seq<Device>, d: Device, stderr: string, osUrl: string, reboot: Process.Outcome)
    requires forall e :: e in devs ==> Listable(e)
    requires d in devs
    ensures var r := FlashDevice(Process.Exited(0, AdbListing(Header, devs), stderr), d.id, osUrl, reboot);
            r.reply.success && r.task == Some(FlashBackground(d.id, osUrl, reboot))
  {
    AdbListingRoundTrip(devs, stderr);
  }

  /** An id that no listed device carries is refused. */
  lemma FlashUnlistedDevice(devs: seq<Device>, deviceId: string, stderr: string, osUrl: string, reboot: Process.Outcome)
    requires forall e :: e in devs ==> Listable(e)
    requires forall e :: e in devs ==> e.id != deviceId
    ensures FlashDevice(Process.Exited(0, AdbListing(Header, devs), stderr), deviceId, osUrl, reboot).task == None
  {
    AdbListingRoundTrip(devs, stderr);
  }
}
