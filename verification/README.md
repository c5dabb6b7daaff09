# Lineage flasher backend: a Dafny model

This project models the core of a small web backend that finds Android phones
and tablets attached over USB, downloads a LineageOS image, and flashes it onto
a device through the Android Debug Bridge (`adb`). The model covers:

- the flash workflow of `FlashService`:
  - the local file name of the image;
  - the status record published per device at each step (`starting`,
    `downloading` with its progress, `rebooting`, `pushing`, `flashing`,
    `completed`, `error`);
  - the order of the steps, and which step a failure stops at;
  - the status lookup.
- the `adb devices -l` parser and the `flash_device` request of `ADBManager`:
  - the device-list parser;
  - the "device not found" guard;
  - the background task, whose reboot result is never checked.
- the `lsusb` parsers of `USBManager`:
  - the listing regex and the record built from each match;
  - extraction of the `iManufacturer`, `iProduct` and `iSerial` descriptor
    strings from `lsusb -v`.
- the OS-image endpoints:
  - the listing of cached `.zip` images, sorted newest first;
  - the delete endpoint and its chain of checks.

Everything outside the process is an input, not an action:

- what `adb` and `lsusb` print and their exit statuses;
- the HTTP response and its chunks;
- the directory entries with their kinds, sizes, times and resolved paths;
- the outcome of `os.remove`.

A flash run is a pure function from these answers (a `Script`) to a
`FlashRun`. A `FlashRun` holds the ordered trace of effects, the final status
table and the returned `{success, message}`.

Modules:

- `Options` and `Process`: an optional value, and the outcome of a
  subprocess (it exited with a code and output, or launching it raised).
- `Seqs`: the filter-and-map loops. `Arith`: floor division.
- `Strings`: the Python string operations the code relies on:
  - `strip`;
  - `split(sep)` and `split()`;
  - `split('/')[-1]`;
  - `startswith`, `endswith` and `in`.
- `Regex`: the fragment of `re` the USB parsers use. It covers literals,
  greedy `C+` with backtracking, `C{n}`, `re.match` and `re.search`, and
  records the text each item consumed.
- `AdbManager`, `UsbManager`, `FlashService` and `OsImages`: one module per
  source file.

The code, and so the model, works as follows:

- The download is not cached. Every run fetches the image again, and there is
  no `cached` or `download_complete` stage.
- The installer is `adb shell twrp install`, not a sideload. There is no
  bootloader mode selected by the `.img` suffix.
- `adb devices -l` lines are split on any whitespace.
- The USB listing returns every `lsusb` line that matches the pattern, with no
  vendor filter.
- Status records have no `errorDetail` field.

## Model

| member | source | states |
|---|---|---|
| Strings.Strip | backend/utils/usb_manager.py:34 | `strip()` leaves neither leading nor trailing whitespace, and yields the empty string exactly when the text is all whitespace |
| Strings.StripUnique | backend/utils/usb_manager.py:34 | any whitespace-only margins around a core that does not start or end with whitespace are exactly what `strip()` removes |
| Strings.StripIdempotent | backend/utils/usb_manager.py:34 | stripping twice is stripping once |
| Strings.Split | backend/utils/adb_manager.py:20 | `split('\n')` gives at least one piece, no piece contains the separator, and joining the pieces with it gives back the text |
| Strings.SplitJoin | backend/utils/adb_manager.py:20 | splitting what was joined from separator-free pieces recovers those pieces |
| Strings.Tokens | backend/utils/adb_manager.py:26 | `split()` yields non-empty words without whitespace, and no words exactly when the line is blank |
| Strings.TokensJoin | backend/utils/adb_manager.py:26 | `split()` of words joined by single spaces recovers the words |
| Strings.LastPiece | backend/services/flash_service.py:16 | `split('/')[-1]` holds no `/`, is a suffix of the URL, and starts the URL or follows a `/` |
| Strings.LastPieceUnique | backend/services/flash_service.py:16 | the segment after the last `/` is the piece `split('/')[-1]` returns |
| Seqs.FilterMapSound | backend/utils/adb_manager.py:22-40 | every record the line loop appends comes from some input line the parser accepted |
| Seqs.FilterMapComplete | backend/utils/adb_manager.py:22-40 | every line the parser accepts contributes its record to the result |
| Regex.RunEnd | backend/utils/usb_manager.py:24 | a greedy `C+` first takes the longest run of class characters: every character up to the end is in the class, and the next one is not |
| Regex.Run | backend/utils/usb_manager.py:24 | `re.match` at a position yields one text per pattern item when it succeeds; RunSound and RunExact state what those texts are |
| Regex.TryPlus | backend/utils/usb_manager.py:24 | a greedy `C+` allowed at most k characters consumes between one and k of the next characters, followed by one text per remaining item; TryPlusMaximal states that the longest run is tried first |
| Regex.SearchFrom | backend/utils/usb_manager.py:67 | `re.search` finds a match at the leftmost position where one exists, and finds none exactly when no position matches |
| Regex.SearchAt | backend/utils/usb_manager.py:67 | a match at a position before which nothing matches is the one `re.search` returns |
| Regex.Search | backend/utils/usb_manager.py:67 | `re.search` over the whole text returns a match at the leftmost position where one exists, and none exactly when no position matches |
| Regex.RunSound | backend/utils/usb_manager.py:24 | the texts of an anchored match fit their items (literal, class run, fixed count) and spell a prefix of the input |
| Regex.SearchSound | backend/utils/usb_manager.py:67 | the same for the leftmost match of `re.search` |
| Regex.TryPlusMaximal | backend/utils/usb_manager.py:24 | backtracking a greedy `C+` of at most k characters tries the longest run first: when the rest of the pattern matches after no shorter non-empty run, the match is the k-character run followed by the rest, or fails |
| Regex.RunExact | backend/utils/usb_manager.py:24 | a text laid out as the pattern's pieces, with each class run stopped by a character outside its class, matches with exactly those pieces |
| UsbManager.LsusbMatchSound | backend/utils/usb_manager.py:24-26 | a matched `lsusb` line starts with `Bus <digits> Device <digits>: ID <4 hex>:<4 hex> <description>`, and the description stays on that line |
| UsbManager.ParseLsusbLine | backend/utils/usb_manager.py:24-37 | a record has decimal bus and device numbers, lower-case 4-digit hex ids, id `bus-device`, status `connected`, and the stripped description from its line |
| UsbManager.LsusbLineRoundTrip | backend/utils/usb_manager.py:24-37 | every line of the listing's shape, whatever follows it after a newline, is parsed into the record of its fields |
| UsbManager.GetConnectedTablets | backend/utils/usb_manager.py:16-40 | a failed `lsusb` gives no devices; otherwise at most one well-formed record per output line |
| UsbManager.TabletLineRoundTrip | backend/utils/usb_manager.py:24-37 | the line `lsusb` prints for a device parses back to that device |
| UsbManager.TabletLinesRoundTrip | backend/utils/usb_manager.py:23-37 | the line loop returns the reported devices in order |
| UsbManager.ListingRoundTrip | backend/utils/usb_manager.py:16-40 | the devices parsed from an `lsusb` listing are exactly the devices it lists, in order |
| UsbManager.DescriptorMatchSound | backend/utils/usb_manager.py:67-77 | a descriptor match starts at the key, then has a gap, a decimal index, a gap and a non-empty string without a line break, and spells a prefix of the dump from the key on |
| UsbManager.DescriptorAsWritten | backend/utils/usb_manager.py:67-77 | a descriptor value, read with `\s` gaps, is only found when the key occurs, and never contains a line break |
| UsbManager.DescriptorReadings | backend/utils/usb_manager.py:67-77 | a well-formed descriptor line gives its stripped string, both as written and line by line |
| UsbManager.DescriptorAsWrittenCrossesLines | backend/utils/usb_manager.py:67-77 | as written, a descriptor whose string is empty takes the next line's text as its value |
| UsbManager.SerialReadsNextLine | backend/utils/usb_manager.py:75-77 | an `iSerial 0` line followed by `bNumConfigurations 1` yields the serial `bNumConfigurations 1` |
| UsbManager.DescriptorOnLine | backend/utils/usb_manager.py:67-77 | with the gaps kept to one line, a descriptor value is only found when the key occurs, and never contains a line break |
| UsbManager.DescriptorOnOneLine | backend/utils/usb_manager.py:67-77 | the line-local match never crosses a line break |
| UsbManager.DescriptorOnLineStaysOnLine | backend/utils/usb_manager.py:67-77 | on the same dump, the line-local reading finds no value |
| UsbManager.GetDeviceDetails | backend/utils/usb_manager.py:58-79 | a failed `lsusb -v` gives an empty map. Otherwise the map has `raw_info` holding the dump. Each of `manufacturer`, `product` and `serial` is present exactly when its descriptor is found, and holds its value |
| UsbManager.SerialFromDump | backend/utils/usb_manager.py:75-77 | the first `iSerial` line of the dump supplies the `serial` entry |
| AdbManager.ModelValue | backend/utils/adb_manager.py:33 | `split(':', 1)[1]` of a `model:` token is everything after the key |
| AdbManager.ModelOf | backend/utils/adb_manager.py:29-34 | the model is the value of the first `model:` token, or `Unknown` when there is none |
| AdbManager.ParseDeviceLine | backend/utils/adb_manager.py:23-40 | a line yields a device exactly when it is not blank, does not mention `offline`, and has at least two words. The device's id is the first word, its status is `online`, and its model comes from its words |
| AdbManager.ParseDeviceLineFields | backend/utils/adb_manager.py:23-27 | the blank-line test is redundant: a line yields a device exactly when it does not mention `offline` and has at least two words |
| AdbManager.ListedLines | backend/utils/adb_manager.py:20 | the lines read after the header hold no line break |
| AdbManager.ListedLinesAfterHeader | backend/utils/adb_manager.py:20 | `strip().split('\n')[1:]` is everything after the first line: one line-break-free header glued to the listed lines gives back the stripped output |
| AdbManager.GetConnectedDevices | backend/utils/adb_manager.py:16-42 | a failed `adb` gives no devices; otherwise at most one device per line after the first, each `online` with a non-empty id free of whitespace |
| AdbManager.DeviceLineRoundTrip | backend/utils/adb_manager.py:23-40 | the line `adb devices -l` prints for a device parses back to that device |
| AdbManager.ListingRoundTrip | backend/utils/adb_manager.py:16-42 | whatever the first line says, the devices listed after it come back in order |
| AdbManager.AdbListingRoundTrip | backend/utils/adb_manager.py:16-42 | a listing under adb's usual header gives back its devices in order |
| AdbManager.FirstDeviceDropped | backend/utils/adb_manager.py:20 | the first line is dropped unread, so output that lacks the header loses its first device |
| AdbManager.OfflineModelHidden | backend/utils/adb_manager.py:23 | the `offline` test looks at the whole line, so a device whose model mentions `offline` is never listed |
| AdbManager.OtherStatesListedOnline | backend/utils/adb_manager.py:26-40 | a device in any state other than `offline` (`unauthorized`, `recovery`, …) is listed as `online` with model `Unknown` |
| AdbManager.FlashBackground | backend/utils/adb_manager.py:72-91 | the background task logs its start and the URL, then runs `adb -s <id> reboot bootloader`. If launching that raises, it logs the error and stops. Otherwise it sleeps 10 s and ends with the completion log |
| AdbManager.RebootStatusIgnored | backend/utils/adb_manager.py:77-89 | the reboot's exit status and output make no difference to the background task |
| AdbManager.FlashDevice | backend/utils/adb_manager.py:48-64 | the request succeeds exactly when some listed device has the id, and a background task starts exactly then. A refusal says `Device <id> not found` |
| AdbManager.FlashNeedsListing | backend/utils/adb_manager.py:50-57 | when `adb` cannot list devices, every request is refused and no task starts |
| AdbManager.FlashListedDevice | backend/utils/adb_manager.py:50-64 | a listed device is accepted and its task starts |
| AdbManager.FlashUnlistedDevice | backend/utils/adb_manager.py:50-57 | an id no listed device carries starts no task |
| FlashService.ImageFilename | backend/services/flash_service.py:16-18 | the local name always ends in `.zip`, holds no `/` when the device id holds none, and is either `lineage_…` or a suffix of the URL |
| FlashService.ImageFilenameRule | backend/services/flash_service.py:16-18 | the name is the URL's last `/`-segment when that segment ends in `.zip`, and `lineage_<id>.zip` otherwise |
| FlashService.ImageFilenameIgnoresDevice | backend/services/flash_service.py:16-17 | a URL whose last segment ends in `.zip` gives the same name for every device |
| FlashService.ImagePath | backend/services/flash_service.py:20 | the image path lies under the download directory and ends in `.zip`; ImagePathName states that its last segment is the file name |
| FlashService.ImagePathName | backend/services/flash_service.py:20 | for a device id without `/`, the image lies directly in the download directory, and its last path segment is the file name the installer is given |
| FlashService.ProgressWrites | backend/services/flash_service.py:37-43 | one progress update per chunk when the content length is positive, none otherwise. Each update keeps the `downloading` stage and its message |
| FlashService.Percent | backend/services/flash_service.py:42 | the percentage is the floor of `downloaded * 100 / total_size`: the largest whole number whose multiple of the size does not exceed `downloaded * 100` |
| FlashService.ProgressValues | backend/services/flash_service.py:37-43 | one progress value per chunk; ProgressBounded, LastProgress and ProgressReachesHundred state their range, order and last value |
| FlashService.ProgressBounded | backend/services/flash_service.py:37-43 | while no more bytes arrive than announced, every progress value lies between the starting percentage and 100, and the values never decrease |
| FlashService.PercentMonotone | backend/services/flash_service.py:42 | more bytes never give a lower percentage, and at most the announced size gives at most 100 |
| FlashService.LastProgress | backend/services/flash_service.py:39-43 | the last progress value reflects every byte received |
| FlashService.ProgressReachesHundred | backend/services/flash_service.py:39-43 | a download of exactly the announced size ends at 100 |
| FlashService.Streamed | backend/services/flash_service.py:22-29 | the download first writes the `downloading` record at 0, then issues the request |
| FlashService.DownloadFailure | backend/services/flash_service.py:28-43 | the download raises exactly when the transport fails, the status is not 200, or the stream breaks |
| FlashService.DownloadOsImage | backend/services/flash_service.py:13-52 | the download returns the image path exactly when nothing raised. Otherwise it writes an `error` record at 0 with `Download failed: …` after what it had written, and re-raises |
| FlashService.CommandFailure | backend/services/flash_service.py:63-71 | a checked command fails exactly when it did not exit with status 0 |
| FlashService.Argv | backend/services/flash_service.py:63-111 | every device command (reboot, push and installer) starts `adb -s <device id>`, so it goes to the device being flashed |
| FlashService.InstallNamesPushedFile | backend/services/flash_service.py:92-111 | the installer is given the file the push left on the device: its path lies in the push destination `/sdcard/` and ends in the pushed file's last segment |
| FlashService.RebootToRecovery | backend/services/flash_service.py:54-81 | the reboot writes `rebooting` at 30, runs `adb reboot recovery`, and fails exactly when that does not exit with 0. A failure writes an `error` record at 30 |
| FlashService.PushAndFlash | backend/services/flash_service.py:83-126 | the step writes `pushing` at 50 and pushes. Only after a successful push does it write `flashing` at 70 and run the installer. It succeeds exactly when the push exits with 0 and the installer launches, whatever the installer's exit status. A failure writes an `error` record at 70 |
| FlashService.Replay | backend/services/flash_service.py:22-165 | after a trace, the table holds the device's last written record, or is unchanged when nothing was written |
| FlashService.GetFlashStatus | backend/services/flash_service.py:167-173 | the stored record, or `idle`, 0, `No flash operation in progress` for a device never seen |
| FlashService.StatusAfterRun | backend/services/flash_service.py:128-173 | a run changes no other device's status. Afterwards, polling the device gives `completed` exactly when the run succeeded, and `error` at 0 otherwise |
| FlashService.Fail | backend/services/flash_service.py:156-165 | the handler appends an `error` record at 0 with `Flash failed: <message>`, leaves it in the table, and returns failure with the message |
| FlashService.Finish | backend/services/flash_service.py:143-165 | after `completed`, the image is removed unless already gone. Success holds exactly when the removal did not raise, and leaves `completed` in the table. A raising removal ends in the handler's error record |
| FlashService.FlashDeviceComplete | backend/services/flash_service.py:128-165 | a run succeeds exactly when every step succeeds, and then leaves `completed` at 100. Otherwise its last write, and the table, is the handler's error record at 0. The first write is always `starting` |
| FlashService.SuccessfulRun | backend/services/flash_service.py:128-155 | a fully successful run writes `starting`, `downloading` and its progress, `rebooting`, `pushing`, `flashing` and `completed`, in that order. It issues the three device commands in order, and removes the image last |
| FlashService.RunSegments | backend/services/flash_service.py:128-165 | a run's trace is `starting`, then the traces of the steps up to the first that raised, closed by the handler's record. When none raised, it is closed by `completed` and the clean-up |
| FlashService.DownloadRaisedRun | backend/services/flash_service.py:46-52 | a run stopped by the download issues no device command, writes error records at 0 and 0, and removes nothing |
| FlashService.RebootRaisedRun | backend/services/flash_service.py:75-81 | a run stopped by the reboot issues only the reboot, writes error records at 30 and 0, and removes nothing |
| FlashService.FlashRaisedRun | backend/services/flash_service.py:120-126 | a run stopped by push or installer issues the reboot and the push (plus the installer if the push succeeded), writes error records at 70 and 0, and removes nothing |
| FlashService.StepsDoneRun | backend/services/flash_service.py:143-165 | a run whose steps all returned issues all three commands, removes the image unless it is already gone, and writes the handler's error record only when the removal raised |
| FlashService.RunCommands | backend/services/flash_service.py:137-141 | each device command is issued only when every earlier step succeeded |
| FlashService.RunErrorRecords | backend/services/flash_service.py:46-165 | each failing step writes its own error record (0, 30 or 70) and then the handler writes one at 0. A raising removal leads to the handler's alone, and a successful run writes none |
| FlashService.RunRemovals | backend/services/flash_service.py:149-150 | the image is removed at most once, only after every step succeeded and only if it still exists, and the removed path is the one the file-name rule derives |
| FlashService.QuietAfterError | backend/services/flash_service.py:137-141 | an error-free trace followed by one without outside calls has no call after an error |
| FlashService.NoStepAfterFailure | backend/services/flash_service.py:137-165 | once any error record is written, nothing more goes to the network or the device |
| OsImages.RFind | backend/app/api/os_images.py:17 | `rfind` gives the last index of the character, or -1 when it is absent |
| OsImages.Suffix | backend/app/api/os_images.py:17 | `PurePath.suffix` is empty exactly when the name is empty, ends in a dot, or has no dot after its first character; otherwise it is a dot-led tail of the name with no other dot, shorter than the name |
| OsImages.SuffixZip | backend/app/api/os_images.py:17 | a name has suffix `.zip` exactly when it ends in `.zip` after at least one other character |
| OsImages.Insert | backend/app/api/os_images.py:25 | one step of the stable sort; InsertPermutes, InsertFrom and InsertNewestFirst state that it adds the new image, keeps every other one, and keeps the order newest first |
| OsImages.SortNewestFirst | backend/app/api/os_images.py:25 | the sort is a permutation of the images and puts them newest first |
| OsImages.SortStable | backend/app/api/os_images.py:25 | images with equal times keep the order the directory gave them |
| OsImages.ListOsImages | backend/app/api/os_images.py:9-28 | a missing directory lists nothing. Otherwise the listing holds exactly the listed entries, each as many times as it occurs, newest first |
| OsImages.ListingMembers | backend/app/api/os_images.py:16-23 | an image is listed exactly when the directory holds a regular `.zip` file with that name, size and time |
| OsImages.NewestFirstUnique | backend/app/api/os_images.py:25 | two newest-first sequences with the same images of each time, in the same order, are equal |
| OsImages.ListingCharacterized | backend/app/api/os_images.py:16-26 | the listing is the one newest-first arrangement of the listed entries that keeps directory order among images of equal time |
| OsImages.Lookup | backend/app/api/os_images.py:33-36 | `DOWNLOAD_DIR / filename` leads to the entry of that name, to the directory itself for `.`, and to the parent for `..` (through the directory, so only when it exists), and otherwise nowhere |
| OsImages.DeleteOsImage | backend/app/api/os_images.py:30-52 | a rejection leaves the directory unchanged; a deletion answers `Deleted <filename>` and removes that name's entry |
| OsImages.DeleteNotFound | backend/app/api/os_images.py:35-36 | the 404 happens exactly when the name leads nowhere: the directory is missing (whatever the name, `.` and `..` included), no entry has the name, or it is a dangling link |
| OsImages.DeleteNotAFile | backend/app/api/os_images.py:38-39 | `Not a file` happens exactly when the directory exists and the name leads to a directory or special file, `.` and `..` included |
| OsImages.DeleteWrongType | backend/app/api/os_images.py:41-42 | `Invalid file type` happens exactly for a regular file whose name does not end in `.zip` after another character |
| OsImages.DeleteOutside | backend/app/api/os_images.py:44-45 | `Invalid file path` happens exactly for a regular `.zip` file whose resolved path does not start with the resolved directory |
| OsImages.DeleteAccepted | backend/app/api/os_images.py:35-52 | the file is removed exactly when every check passes and `os.remove` succeeds. A raising `os.remove` becomes a 500 carrying its message. Any other rejection is a 400 or 404 |
| OsImages.WithoutOne | backend/app/api/os_images.py:47 | removing a name from a directory with unique names cuts out exactly that entry |
| OsImages.DeleteRemovesOne | backend/app/api/os_images.py:47-48 | a successful delete removes exactly the named entry, keeps every other entry in order, and keeps the directory |
| OsImages.DeleteKeepsWellFormed | backend/app/api/os_images.py:47 | deleting keeps names valid and unique |
| OsImages.SiblingPrefixAccepted | backend/app/api/os_images.py:44-48 | the containment check is a plain string prefix test, so a link into a sibling directory whose name extends the download directory's name passes it and is deleted |

## Left out

- Process I/O, the event loop and timing are left out. This covers
  `asyncio.create_subprocess_exec`, `communicate`, `create_task` and the sleeps
  (15 s after the reboot, 5 s after the installer). Their results are inputs.
  The sleep in the `adb` background task shows only as an event.
- Concurrency is left out: two runs for the same device interleaving their
  status writes.
- Some `print` diagnostics are left out, because they change no result. These
  are adb_manager.py line 44 and usb_manager.py lines 17, 39, 43 and 82. The
  prints of the `adb` background task (adb_manager.py lines 74-91) are
  modelled as `Log` events of `AdbManager.FlashBackground`.
- Progress arithmetic is not float. `int((downloaded / total_size) * 100)` is
  modelled as the floor of `downloaded * 100 / total_size`, which can differ
  from Python's float result by one at rare values.
- Only the sizes of the HTTP chunks are modelled, not their bytes, and not the
  file writes. An exception from `open` or from the `content-length` conversion
  is a transport failure raised before any chunk.
- `\d` is ASCII digits only. Python's `re` also accepts other Unicode decimal
  digits.
- Byte decoding (`decode()`) is not modelled. Output is text, and a decode
  error is a launch failure.
- AdbManager.FlashDevice: its outer `except` (adb_manager.py lines 65-69) is
  not modelled. Neither the device listing nor starting the background task can raise in
  the model.
- OsImages.ListOsImages: an OS error during the listing (a 500 from the
  handler) is not modelled. The directory listing is an input, and each
  entry's kind, size and time are taken as already resolved.
- Path resolution and link semantics are not modelled. Each entry carries its
  kind, after following links, and the string of its resolved path. The
  directory carries the string of its own resolved path.
- OsImages.Lookup: when the directory exists, `..` is taken to lead to its
  parent `/tmp`, a directory, so it is rejected with `Not a file`. When the
  directory is missing, `..` leads nowhere, as every other name does. A name
  with `/` is not modelled: the router hands over one path segment, and
  `DeleteOsImage` requires that.
- FlashService.ImagePath: the path is the download directory, `/` and the file
  name, joined as strings; `pathlib`'s normalisation is not modelled. It makes
  a difference only for a device id holding `/` (id `a//b` gives
  `lineage_a/b.zip` in the source and `lineage_a//b.zip` here). For any other
  id, `FlashService.ImagePathName` shows the name is one path segment, so
  nothing is normalised.
- The modification time is an integer key. Python's `st_mtime` is a float,
  and only its order is used.
- The other source files are not part of this model. That covers
  `backend/app/api/devices.py`, `backend/app/main.py`,
  `backend/config/settings.py` and the frontend, which route requests and
  display results.
- The `FlashService` constructor creating the download directory is not
  modelled.
- UsbManager.GetDeviceDetails: it uses the line-local descriptor reading
  `DescriptorOnLine`, the corrected behaviour from the finding below. The
  as-written reading is `DescriptorAsWritten`.

## Findings

| source | as written | input that shows it | evidently intended | confidence | as-written member | corrected member |
|---|---|---|---|---|---|---|
| backend/utils/usb_manager.py:67-77 | the descriptor patterns `KEY\s+\d+\s+(.+)` let `\s+` match a line break, so a descriptor with an empty string (index 0) reads the next line of the dump | the `lsusb -v` text `iSerial 0 \n  bNumConfigurations 1` gives the serial `bNumConfigurations 1` | the descriptor string comes from the descriptor's own line, and is absent when that line has none | high (not executed) | UsbManager.SerialReadsNextLine | UsbManager.DescriptorOnLineStaysOnLine |
