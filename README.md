# Super Metroid Archipelago client: the server-socket core

This project models `assets/serverSocket.js` of the Super Metroid client for
Archipelago. That script connects the SNES memory bridge (SNI) to an
Archipelago multiworld session server. It does four things:

- It opens a WebSocket to the session server and authenticates with the ROM name.
- It reacts to the server's commands: `RoomInfo`, `Connected`,
  `ConnectionRefused`, `ReceivedItems`, `LocationInfo`, `DataPackage`, and so on.
- It polls the game's memory on an interval. It reports newly checked
  locations and writes the ROM's check-array cursor back.
- It reconnects a bounded number of times after the connection drops.

The model is organised in modules:

- `Protocol`: the commands in both directions, the console messages the
  client chooses, and the constants (at most 10 reconnect attempts, the
  GOAL status 30, the 300000 ms keep-alive period, default port 38281).
- `Text`: server-address normalisation, the capitalise-first-letter
  formatter, the decimal rendering `localStorage` gives a stored number,
  and the UTF-8 decoding and `btoa` step the ROM name goes through.
- `Device`: device memory as a map from address to byte, ranged reads and
  writes that fail (the read or write rejects), little-endian
  decoding, and the scan of the 8-byte check records.
- `Tick`: the body of the interval callback once it has claimed the
  interval, as a pure function (`RunTick`), with the properties of a tick
  proved about it as lemmas. `RunTick` takes a `CursorRule`: the value the
  program writes back to the cursor (`AsWritten`, `checkedLocations - 1`)
  or the index past the reported records (`Advance`), which the code's own
  comment describes. The re-entrancy guard and the catch block are in
  `ClientModel.Client.Tick`.
- `Session`: the received-item merge, the scouted-location insert, the
  id-to-name inversion of the data package, the data-package cache, the
  client id, the `ConnectionRefused` message, and the reconnect supervisor.
  The cache test and the scouted entry exist twice: as written
  (`CacheStaleAsWritten`, `ScoutEntryAsWritten`) and as intended
  (`CacheStale`, `ScoutEntry`).
- `ClientModel`: the class `Client`. Its fields are the script's module
  globals. It has a method per socket event, per sender and for the interval
  tick, each proved against the pure definitions above. It runs the program
  as written: the `AsWritten` cursor rule, the as-written cache test (so the
  cached data package is never loaded), the as-written scouted entry and
  the address handler without an early return for an empty address.
  Its invariant
  `Valid` says:
  - no check-bound item is queued twice;
  - the GOAL status was sent exactly once iff the game is marked completed;
  - at most 10 supervisor reconnects happen between two `Connected`.
- `Findings`: four places where the script, read with JavaScript's own
  semantics, does something other than what it evidently intends, each
  shown on concrete inputs next to the intended definition.

## Model

| member | source | states |
|---|---|---|
| Protocol.GoalCountSnoc | assets/serverSocket.js:177-183 | One more command adds one to the number of GOAL reports exactly when it is a `StatusUpdate`; the client's "GOAL sent once" invariant rests on this. |
| Text.TrailingDigits | assets/serverSocket.js:60 | The length of the digit run that ends the string: every character in it is a digit, and the one before it is not. |
| Text.EndsWithPortMeansRegex | assets/serverSocket.js:60 | The port test agrees with the regular expression `:\d+$`: some ':' is followed only by digits, at least one of them. |
| Text.AppendedPortIsPort | assets/serverSocket.js:60 | Appending ':' and a non-empty run of digits always gives an address that ends with a port. |
| Text.NormalizeAddress | assets/serverSocket.js:58-60 | The result always ends in ':digits'. It extends the address with "/connect " removed, and it equals that address iff the address already ends with a port; otherwise ":38281" is appended. An address without the prefix that already ends with a port is unchanged. |
| Text.NormalizeIdempotent | assets/serverSocket.js:58-60 | Normalising a normalised address changes nothing (unless the result itself starts with "/connect "). |
| Text.Capitalize | assets/serverSocket.js:85 | Fails (throws) iff the string is empty. Otherwise it keeps the length and agrees with the input up to case; the first letter is not lower case and no later letter is upper case. |
| Text.CapitalizeIdempotent | assets/serverSocket.js:85 | Capitalising a capitalised mode changes nothing. |
| Text.NatToString | assets/serverSocket.js:357 | The decimal form of a stored version is a non-empty run of digits, a single digit exactly below 10. |
| Text.IntToStringInjective | assets/serverSocket.js:357 | Distinct data-package versions are stored as distinct strings. |
| Text.Latin1RoundTrip | assets/serverSocket.js:105 | Decoding the UTF-8 encoding of any Latin-1 text gives that text back, so `btoa` accepts it. |
| Text.Latin1OnlyFromEncoding | assets/serverSocket.js:105 | Conversely, bytes that decode to text `btoa` accepts are exactly the UTF-8 encoding of that text; every other byte sequence (U+FFFD or a character above 255) makes `btoa` throw. |
| Text.AsciiRomName | assets/serverSocket.js:105 | An ASCII ROM name passes through decoding and `btoa` unchanged. |
| Text.RomNameWithFFThrows | assets/serverSocket.js:105 | The ROM name bytes 0x53 0x4D 0xFF decode to a U+FFFD, on which `btoa` throws. |
| Device.ReadRange | assets/serverSocket.js:101 | A read succeeds iff the device is online and every address of the range is mapped, and then returns the bytes at those addresses in order. |
| Device.LE16OfBytes | assets/serverSocket.js:195-196 | Splitting a 16-bit value into its low and high byte and decoding them gives the value back. |
| Device.BytesOfLE16 | assets/serverSocket.js:195-196 | Decoding two bytes and splitting the value gives the two bytes back. |
| Device.ItemIndex | assets/serverSocket.js:208 | The item index of a record is below 8192. |
| Device.ReadRecord | assets/serverSocket.js:204-212 | A record yields an id iff its 8 bytes at +0x700 + 8k can be read, and the id lies in the 8192 ids after LOCATIONS_START_ID. |
| Device.ScanRecords | assets/serverSocket.js:203-213 | A successful scan holds max(0, length - cursor) ids, one per record. |
| Device.ScanSucceedsIffReadable | assets/serverSocket.js:203-213 | The scan succeeds iff every record from the cursor up to the length can be read; the first unreadable record makes the loop throw. |
| Device.ScanIds | assets/serverSocket.js:203-213 | The i-th id of a successful scan is the id of record cursor + i, so ids come in record order. |
| Device.ScanExtends | assets/serverSocket.js:203-213 | One more readable record extends the scan by that record's id. |
| Device.ScanFailsAt | assets/serverSocket.js:205 | A record that cannot be read makes every scan over it fail. |
| Device.Write16 | assets/serverSocket.js:225-230 | The write succeeds iff both bytes are mapped and the device is online. It keeps the same addresses, the two bytes decode to the written value, and every other byte is unchanged. |
| Device.ScanIdsInRange | assets/serverSocket.js:208-212 | Every id of a successful scan lies in [LOCATIONS_START_ID, LOCATIONS_START_ID + 8191]. |
| Tick.RunTick | assets/serverSocket.js:153-245 | A tick that was allowed to start never reports itself as skipped. What it sends and writes is stated by `Tick.TickReportsGoalOnce`, `Tick.TickBounce`, `Tick.OfflineTickFails`, `Tick.ScanReportsRecords`, `Tick.ScanWritesCursor` and `Tick.ScanCompletes`. |
| Tick.CheckMode | assets/serverSocket.js:170-189 | After the keep-alive, the bounce time is fixed and the tick ends, fails or scans. |
| Tick.ScanAndReport | assets/serverSocket.js:194-245 | The scanning step never ends the game and never touches the bounce time or the completed flag. What it sends and writes is stated by `Tick.ScanAndReportSendsNoGoal`, `Tick.ScanAndReportSends` and `Tick.ScanAndReportWrites`. |
| Tick.ReadBatch | assets/serverSocket.js:194-213 | A batch that was read is a scan outcome whose cursor plus batch size fits in 16 bits. |
| Tick.ReportBatch | assets/serverSocket.js:216-245 | Reporting a batch never ends the game and leaves the bounce time and the completed flag alone. What it sends and writes is stated by `Tick.ReportBatchOutcome` and `Tick.ReportBatchWrites`. |
| Tick.CursorWrittenAsWritten | assets/serverSocket.js:225-229 | As written, the value written back is a 16-bit value that depends on `checkedLocations` alone. |
| Tick.CursorBytesAsWritten | assets/serverSocket.js:227-228 | Its low and high bytes are `x & 0xFF` and `(x >> 8) & 0xFF` of `x = checkedLocations - 1`: 0xFF 0xFF for `[]`, the bytes of `n - 1` for `[n]`, 0 0 for NaN. |
| Tick.GoalCountNoStatus | assets/serverSocket.js:162-166 | Traffic without a `StatusUpdate` (the keep-alive) holds no GOAL report. |
| Tick.TickReportsGoalOnce | assets/serverSocket.js:174-189 | A tick sends GOAL exactly when it turns the completed flag on. That happens only over an open socket in an endgame mode, and the flag never turns off, so GOAL goes out at most once over any run of ticks. |
| Tick.ScanAndReportSendsNoGoal | assets/serverSocket.js:194-245 | The scanning step sends no GOAL and leaves the completed flag as it was. |
| Tick.ScanAndReportSends | assets/serverSocket.js:215-222 | The scanning step sends nothing, or exactly one `LocationChecks` after what was sent before. |
| Tick.EndgameTickWritesNothing | assets/serverSocket.js:186-188 | An endgame tick leaves device memory as it was and sends no location checks. |
| Tick.OfflineTickFails | assets/serverSocket.js:170-171 | When the bridge does not answer, the tick fails at its first read, writes nothing and sends only the keep-alive. |
| Tick.TickBounce | assets/serverSocket.js:157-168 | The keep-alive carrying the own slot is the first thing sent exactly when more than 300000 ms have passed and the socket is open; the bounce time moves only then. |
| Tick.ScanAndReportFacts | assets/serverSocket.js:194-213 | A completed scanning step completed the header read and the record scan and reports exactly the batch read. |
| Tick.ReadBatchFacts | assets/serverSocket.js:194-213 | A batch that was read decoded the cursor and the length from the 4 header bytes and scanned exactly the records between them. |
| Tick.ReportBatchOutcome | assets/serverSocket.js:215-245 | A completed report names the cursor, the length and the batch it was given. |
| Tick.ReportBatchWrites | assets/serverSocket.js:215-231 | A completed report of an empty batch sends and writes nothing. A non-empty batch sends `LocationChecks` only over an open socket, and memory becomes the cursor write of the value the rule picks (`NewCursor`). |
| Tick.RunTickIsScan | assets/serverSocket.js:170-194 | A tick that completes a scan went through the scanning step after the keep-alive. |
| Tick.RunTickScanned | assets/serverSocket.js:194-213 | A completed tick rests on a successful header read and record scan. |
| Tick.ScanDecodesCursor | assets/serverSocket.js:194-196 | A completed tick took the cursor from bytes 0-1 and the length from bytes 2-3 at +0x680, each little-endian. |
| Tick.ScanReportsRecords | assets/serverSocket.js:199-213 | A completed tick reports max(0, length - cursor) ids in record order, one per record, each in the 8192 ids after LOCATIONS_START_ID. |
| Tick.ScanFactsRecords | assets/serverSocket.js:203-213 | The batch facts of `ScanReportsRecords`, stated for the scanning step alone. |
| Tick.ScanWritesCursor | assets/serverSocket.js:215-231 | For either rule: the cursor bytes are written iff the batch is non-empty, open socket or not. The two bytes decode to the value the rule picks, and every other byte is left alone. `LocationChecks` with the batch goes out iff the batch is non-empty and the socket is open. |
| Tick.ScanAdvancesCursor | assets/serverSocket.js:224 | Under the intended `Advance` rule, a non-empty batch moves the cursor by exactly the batch size, to the length. |
| Tick.ScanAndReportWrites | assets/serverSocket.js:215-231 | `Tick.ScanWritesCursor` for the scanning step alone, relative to what was sent before it. |
| Tick.ScanCompletes | assets/serverSocket.js:170-245 | Conversely, a tick outside the endgame completes its scan when every read it makes succeeds. |
| Session.MergeAppendOnly | assets/serverSocket.js:288-296 | Merging received items only appends: the old queue is a prefix of the new one, which grows by at most the batch size. |
| Session.MergeContents | assets/serverSocket.js:288-296 | After a merge every delivered item is in the queue, and every queued item was queued before or delivered. |
| Session.MergeKeepsNoDuplicates | assets/serverSocket.js:292-295 | If no (item, location, player) triple with location > 0 is queued twice before a batch, none is after it, counting duplicates within the batch. |
| Session.MergeKeepsServerItems | assets/serverSocket.js:290 | Every special item (location ≤ 0) is appended, in order, even when repeated. |
| Session.ServerItemsSnoc | assets/serverSocket.js:290 | Appending one item adds it to the special items exactly when its location is ≤ 0. |
| Session.MergeItemServerItems | assets/serverSocket.js:290-295 | Merging one item adds it to the special items exactly when its location is ≤ 0. |
| Session.DuplicateDeliveryScenario | assets/serverSocket.js:288-296 | The same check-bound item delivered twice in one batch is queued once, and a special item delivered twice is queued twice. |
| Session.ScoutKeys | assets/serverSocket.js:303-311 | After a `LocationInfo` batch the scouted keys are the old keys plus every location in the batch. |
| Session.ScoutKeepsExisting | assets/serverSocket.js:305 | A location already scouted keeps its entry. |
| Session.ScoutFirstWins | assets/serverSocket.js:303-311 | For any entry function: a new location gets the entry of its first occurrence in the batch. |
| Session.ScoutRecordsItem | assets/serverSocket.js:303-311 | With the intended entry, a newly scouted location records the item found there and the player it belongs to, from its first occurrence in the batch. |
| Session.ScoutEntryAsWritten | assets/serverSocket.js:306-309 | As written, the stored object has `undefined` item and player, whatever the entry. |
| Session.InvertKeys | assets/serverSocket.js:460-468 | The id-to-name table has exactly the ids named in the data package. |
| Session.InvertLastWins | assets/serverSocket.js:460-468 | An id named more than once maps to its last name in game and table order. |
| Session.InvertRoundTrip | assets/serverSocket.js:457-468 | When ids are distinct, every name is recovered from its id. |
| Session.PersistDataPackage | assets/serverSocket.js:356-359 | A version-0 package leaves storage as it was; any other is stored together with its version rendered as a decimal string; the client id is never touched. |
| Session.CacheServesPersistedVersion | assets/serverSocket.js:92-98 | After a non-zero package is stored, the cache is used exactly when the server announces that same version. |
| Session.CacheStaleAsWritten | assets/serverSocket.js:92-93 | As written, the test of line 92 holds for every storage and every announced version, since a number is never `===` a string or null. |
| Session.ResolveClientId | assets/serverSocket.js:418-425 | A stored non-empty id is returned unchanged; otherwise the drawn id is used. |
| Session.ClientIdStable | assets/serverSocket.js:418-425 | Once an id is resolved and stored, every later call returns it, whatever is drawn then. |
| Session.RefusalNotice | assets/serverSocket.js:273-280 | "Password required" iff `InvalidPassword` is among the errors and no password was given; "password rejected" iff it is and one was given; otherwise the joined errors. |
| Session.Supervise | assets/serverSocket.js:388-406 | The delayed close handler does nothing iff the socket is open or an auth error happened. Otherwise the counter goes up by one, with a retry while it is at most 10 and giving up after. |
| Session.RetriesBounded | assets/serverSocket.js:388-406 | However many times the close handler fires, counter and retries together never pass 10, so at most 10 reconnects follow a counter reset. |
| Session.EleventhFailureGivesUp | assets/serverSocket.js:397-405 | From a reset counter, eleven failed firings give exactly ten reconnects, and the eleventh gives up. |
| ClientModel.Client.constructor | assets/serverSocket.js:3-25 | The script's initial globals: no socket, nothing sent, empty queues, no attempts, the interval free. |
| ClientModel.Client.Send | assets/serverSocket.js:451-454 | An unguarded send appends to the traffic only over an open socket; it succeeds (does not throw) iff the socket is open or closed. |
| ClientModel.Client.SendMessageToServer | assets/serverSocket.js:427-434 | A `Say` goes out iff the socket is open; nothing else changes. |
| ClientModel.Client.ServerSync | assets/serverSocket.js:436-440 | A `Sync` goes out iff the socket is open. |
| ClientModel.Client.RequestDataPackage | assets/serverSocket.js:442-447 | A `GetDataPackage` goes out iff the socket is open. |
| ClientModel.Client.SendLocationChecks | assets/serverSocket.js:449-455 | The ids are appended to the checked locations in order whatever the socket state. They are sent over an open socket, and the call throws unless the socket is open or closed. |
| ClientModel.Client.ConnectToServer | assets/serverSocket.js:45-66 | An open socket is dropped and the auth-error flag cleared. Without a device nothing else happens. With one, the password is stored; then the call fails iff the normalised address has no host (the WebSocket constructor throws), keeping the socket, URL and address; otherwise a socket to "ws://" plus the normalised address starts connecting, remembering the address. |
| ClientModel.Client.OnAddressEntered | assets/serverSocket.js:29-41 | An empty address over an open socket forgets the last server. Then `connectToServer` runs with no password, with the same cases; the empty address itself fails once a device is present. |
| ClientModel.Client.OnAddressEnteredIntended | assets/serverSocket.js:32-38 | The handler with the early return its comment describes: an empty address forgets the last server and drops an open socket, and nothing else changes (no attempt, auth-error flag and password kept). Any other address behaves as `OnAddressEntered`. |
| ClientModel.Client.OnOpen | assets/serverSocket.js:67-72 | On open the received-item queue is empty, whatever it held. |
| ClientModel.Client.OnError | assets/serverSocket.js:409-415 | An open socket reports the lost connection and closes; otherwise nothing happens. |
| ClientModel.Client.OnClose | assets/serverSocket.js:375-388 | The socket is closed. The delayed reconnect is scheduled iff the address field is non-empty and a device is present. |
| ClientModel.Client.ReconnectTimer | assets/serverSocket.js:388-406 | Does what `Supervise` decides. A skip changes nothing at all. Giving up announces it and stores the counter, and the socket, URL, address, password and auth-error flag stay as they were. A retry announces "n of 10" and reconnects to the same address with the stored password: the URL and socket follow `connectToServer`, including failure on an address with no host. The supervisor-reconnect bound is kept. |
| ClientModel.Client.Reconnect | assets/serverSocket.js:397-405 | One counted and announced attempt, then `connectToServer` with the stored password, with its cases for no device, no host, and a socket to "ws://" plus the normalised address. |
| ClientModel.Client.CountAttempt | assets/serverSocket.js:397-404 | The counter takes the new value and the attempt is announced. |
| ClientModel.Client.BuildItemAndLocationData | assets/serverSocket.js:457-470 | Both tables are rebuilt from scratch as the inversion of every game's name-to-id tables. |
| ClientModel.Client.AddPairs | assets/serverSocket.js:461-467 | One `forEach` over a name-to-id table extends the inversion by that table's entries. |
| ClientModel.Client.GetClientId | assets/serverSocket.js:418-425 | Returns the stored id, or stores and returns the drawn one. |
| ClientModel.Client.OnRoomInfo | assets/serverSocket.js:80-112 | Succeeds iff nothing throws: neither mode is empty, the ROM name can be read and decoded for `btoa`, and the socket is open or closed. Empty modes change nothing. Otherwise `GetDataPackage` goes out over an open socket whatever is cached, and the tables are not touched. A ROM name that decodes sends `Connect` with the decoded name, the client id and the stored password; one that does not stores no id and sends nothing more. |
| ClientModel.Client.LoadDataPackage | assets/serverSocket.js:91-98 | As written the cache test always holds: the package is requested over an open socket and the cached one is never loaded. |
| ClientModel.Client.Authenticate | assets/serverSocket.js:100-111 | An unreadable ROM name, or one whose decoding `btoa` rejects, throws before the client id is looked up: nothing is stored or sent. Otherwise the client id is resolved and stored, and `Connect` carrying the decoded name goes out over an open socket. |
| ClientModel.Client.OnConnected | assets/serverSocket.js:114-145 | The last server becomes this socket's address. The reconnect counter is 0. The checked and missing locations are replaced. The item queue is empty whatever its length. A new interval is live. |
| ClientModel.Client.ResetReconnects | assets/serverSocket.js:115-119 | The last server is remembered and the counter starts over. |
| ClientModel.Client.LoadSlot | assets/serverSocket.js:121-143 | The slot's checked and missing locations, an empty item queue, and the own team and slot. |
| ClientModel.Client.OnConnectionRefused | assets/serverSocket.js:268-284 | Only over an open socket: the chosen message is shown, the auth-error flag is set and the socket is closed. |
| ClientModel.Client.OnReceivedItems | assets/serverSocket.js:286-297 | The queue becomes the merge of the batch into it, entry by entry, and keeps the no-duplicate invariant. |
| ClientModel.Client.OnLocationInfo | assets/serverSocket.js:299-312 | The scouted map becomes the first-write-wins insert of the batch with the as-written entry, `{item: undefined, player: undefined}`. |
| ClientModel.Client.OnDataPackage | assets/serverSocket.js:354-361 | The package is persisted unless its version is 0, and the tables are always rebuilt from it. |
| ClientModel.Client.HandleCommand | assets/serverSocket.js:79-371 | A handler fails iff it throws in the starting state, and only `RoomInfo` and `RoomUpdate` can. Each command has its handler's effect: `RoomInfo` as `OnRoomInfo` (outbox and stored id), `Connected`, `ConnectionRefused`, `ReceivedItems` (the merge), `LocationInfo` (the scout insert) and `DataPackage` (persisted package and both tables). `Bounced`, unknown commands, `Print`, `PrintJSON`, a non-throwing `RoomUpdate`, a `RoomInfo` with an empty mode and a refusal over a socket that is not open change no state. |
| ClientModel.Client.HandleRoomCommand | assets/serverSocket.js:80-112 | The two room commands: failure iff the handler throws, a `RoomUpdate` changes no state, and a `RoomInfo` has the effect of `OnRoomInfo`. |
| ClientModel.Client.HandleSessionCommand | assets/serverSocket.js:114-361 | The commands that cannot throw, each with its handler's effect; display-only commands change no state. |
| ClientModel.Client.HandleBatch | assets/serverSocket.js:75-77 | The commands run in order. A batch stops only at a command that can throw, and the invariant holds after it. |
| ClientModel.Client.DeviceFailure | assets/serverSocket.js:246-264 | The catch block: the problem is shown, the latest interval is cleared, the interval is free again, an open socket is closed and the device is dropped. |
| ClientModel.Client.Tick | assets/serverSocket.js:145-265 | A tick started while another runs changes nothing. Otherwise traffic, bounce time, completed flag and memory are exactly those of `RunTick` with the as-written cursor rule, and the interval is free again on every exit path. A device failure runs the catch block; any other outcome leaves socket, device and interval alone. |
| ClientModel.Client.RunInterval | assets/serverSocket.js:153-245 | The callback body once it has claimed the interval (`snesIntervalComplete` is false until the callback's end) agrees with `RunTick` under the as-written cursor rule. |
| ClientModel.Client.FinishTick | assets/serverSocket.js:244-264 | Every exit frees the interval, and only a failure runs the catch block. |
| ClientModel.Client.KeepAlive | assets/serverSocket.js:157-168 | The keep-alive goes out and the bounce time moves exactly when a bounce is due; nothing else the tick reads changes. |
| ClientModel.Client.CheckModeStep | assets/serverSocket.js:170-245 | Agrees with `CheckMode` under the as-written cursor rule from the game-mode read on. |
| ClientModel.Client.ReportGoal | assets/serverSocket.js:174-188 | GOAL goes out and the completed flag turns on iff it was off and the socket is open. |
| ClientModel.Client.ScanAndReportStep | assets/serverSocket.js:194-245 | Agrees with `ScanAndReport` under the as-written cursor rule: the header read, the scan, then the report. |
| ClientModel.Client.ReportBatchStep | assets/serverSocket.js:215-245 | Agrees with `ReportBatch` under the as-written cursor rule: a non-empty batch is reported and `checkedLocations - 1` is written to the cursor, then the received-item counter is read if items are accepted. |
| ClientModel.Client.ReportAndWriteCursor | assets/serverSocket.js:215-231 | The batch goes out only over an open socket, and the cursor write is attempted either way. |
| ClientModel.Client.ReportLocationChecks | assets/serverSocket.js:217-222 | `LocationChecks` goes out iff the socket is open. |
| ClientModel.Client.WriteCursor | assets/serverSocket.js:224-230 | Device memory becomes the result of the two-byte cursor write when it succeeds and is unchanged otherwise. |
| ClientModel.Client.ReadChecks | assets/serverSocket.js:199-213 | The record loop computes exactly `ScanRecords` from the cursor up to the length. |
| Findings.CursorAsWrittenIgnoresScan | assets/serverSocket.js:227-228 | As written, with two or more checked locations the cursor is reset to 0 on every report. |
| Findings.CursorAsWrittenRescans | assets/serverSocket.js:224-229 | As written, a tick that reports a non-empty batch with two or more checked locations leaves the cursor at 0 although it scanned up to a positive length, so the next tick reports the same records again. |
| Findings.CacheNeverUsedAsWritten | assets/serverSocket.js:92-93 | As written, the cache is stale even right after the server's own version was stored, whereas the intended test uses it. |
| Text.EmptyAddressHasNoHost | assets/serverSocket.js:58-66 | The empty address and "/connect " alone normalise to ":38281", an address with no host. |
| Findings.EmptyAddressAttemptsConnection | assets/serverSocket.js:32-41 | As written, the empty address still reaches `connectToServer`, which builds the URL "ws://:38281" with an empty host. |
| Findings.ScoutAsWrittenLosesData | assets/serverSocket.js:304-309 | As written, every location a batch adds to the table stores `undefined` item and player; the intended entry keeps both (`Session.ScoutRecordsItem`). |

## Left out

- DOM and console output: the sidebar, the status header and console text. Only the choice of message is modelled, as `Notice` values.
- The hint cost (lines 88, 130-131, 331-335): floating-point arithmetic feeding only the display.
- `buildLocationData` (lines 476-556): it depends on location tables and lookups defined outside assets/serverSocket.js and assets/globals.js. `buildItemAndLocationData` is modelled up to the call.
- WebSocket transport, `JSON.parse`/`JSON.stringify`, `setInterval`/`setTimeout`/`clearInterval`: events are method calls, traffic is the `outbox` sequence, and each handler runs to completion. Handlers of an older socket firing after a newer one exists are not modelled.
- Overlapping interval callbacks and `await` interleaving: a tick runs to completion. The re-entrancy guard is modelled through `intervalComplete`.
- The SNES bridge (`readFromAddress`/`writeToAddress`, IPC in main.js) is a byte map plus an online flag. A read or write fails iff the device is offline or an address is unmapped.
- `initializeSNIConnection` after a device failure and `writeToLog`: foreign calls. Only `devicePresent := false` is modelled.
- ROMNAME_START/SIZE, WRAM_START, RECV_PROGRESS_ADDR, LOCATIONS_START_ID and ENDGAME_MODES are defined outside assets/serverSocket.js and assets/globals.js. They are fields of `Layout`, and the endgame test is membership of the mode byte in a set.
- The base64 text `btoa` produces: `Connect.name` carries the Latin-1 text that `btoa` encodes, not its base64 form.
- `Math.random` in `getClientId` is the `drawn` parameter; `localStorage` is the `Storage` value.
- The `players` list and the `RoomInfo`/`RoomUpdate` display fields (version, points, hint points): display only.
- Case mapping is ASCII-only; `toUpperCase`/`toLowerCase` outside ASCII are not modelled.
- `new WebSocket` on a malformed URL other than one with no host (which is modelled as a failed call) is not modelled; any other URL starts connecting.
- Item delivery to the device (lines 239-241) is an empty TODO in the source. Only the counter read, which can fail, is modelled.
- main.js (window lifecycle, ROM patching, SNI launch), forge.config.js (packaging) and the declarations of assets/globals.js are not part of this model beyond the constants they supply.
- ClientModel.Client.ConnectToServer: states the socket URL as "ws://" plus `NormalizeAddress(address)`. That this URL ends with a port follows from `Text.NormalizeAddress` and is not repeated on the method.
- Tick.ScanAdvancesCursor: states the intended cursor write (`Advance`). The client class runs the `AsWritten` rule, for which `Tick.ScanWritesCursor` and `Findings.CursorAsWrittenRescans` state what is written.
- Session.CacheServesPersistedVersion: states the intended cache test. The client class runs `Session.CacheStaleAsWritten`, so it never loads the cached package.
- Session.ScoutRecordsItem: states the intended scouted entry. The client class stores `Session.ScoutEntryAsWritten`.
- ClientModel.Client.HandleCommand: states, for each command, the fields its handler writes. That no other field changes is each handler's `modifies` clause and is not repeated on the method, except where the command changes nothing at all.
- ClientModel.Client.OnAddressEnteredIntended: states the intended handler. The client class's entry point is `OnAddressEntered`, as written.
- ClientModel.Client.HandleBatch: states the invariant and where a batch stops, not the combined effect of the whole batch; each command's effect is stated by its own handler.

## Findings

| source | as written | input that shows it | evidently intended | confidence | as-written member | corrected member |
|---|---|---|---|---|---|---|
| assets/serverSocket.js:225-229 | The cursor written back is `(checkedLocations - 1)` split into bytes. `checkedLocations` is an array, so the value is NaN (0) for two or more entries. | `checkedLocations = [1, 2]`, cursor 5, length 7: the cursor is reset to 0 and the records get reported again on the next tick | write cursor + batch size, the index past the last reported record | not executed | Findings.CursorAsWrittenRescans | Tick.ScanAdvancesCursor |
| assets/serverSocket.js:92-93 | `command.datapackage_version !== localStorage.getItem('dataPackageVersion')` compares a number with the string `localStorage` returns. | a stored package of version 5 and a server announcing 5: `5 !== "5"`, so the package is requested again every time | use the cache when the stored version equals the announced one | not executed | Findings.CacheNeverUsedAsWritten | Session.CacheServesPersistedVersion |
| assets/serverSocket.js:304-309 | The scouted entry stores `location[0]` and `location[2]` of a `NetworkItem` object, which has no such properties. | `{item: 7, location: 12, player: 1}` stores `{item: undefined, player: undefined}` | store the entry's `item` and `player` | not executed | Findings.ScoutAsWrittenLosesData | Session.ScoutRecordsItem |
| assets/serverSocket.js:32-41 | The comment says an empty address makes no reconnect attempt, but no `return` follows the block, so `connectToServer("")` runs: it clears the auth-error flag, stores a null password and builds "ws://:38281". | an empty address with a device present: `new WebSocket("ws://:38281")` throws because the host is empty | return after forgetting the last server and closing the socket | not executed | Findings.EmptyAddressAttemptsConnection | ClientModel.Client.OnAddressEnteredIntended |
