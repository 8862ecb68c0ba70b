/**
 * The interval tick of the client as a function of the state it reads: what
 * it sends, what it writes to device memory and how it ends. The `Client`
 * class runs the same steps statement by statement and is proved equal to
 * `RunTick`.
 */
module Tick {
  import opened Wrappers
  import opened Protocol
  import opened Device

  /** What a tick reads: device memory, whether the bridge answers, the socket, and the tick's own variables. */
  datatype TickState = TickState(
    mem: map<int, Byte>,
    online: bool,
    socketOpen: bool,
    lastBounce: int,
    gameCompleted: bool,
    receiveItems: bool,
    slot: int,
    checkedLocations: seq<int>)

  /**
   * How a tick ended: skipped by the re-entrancy guard, stopped at the end of
   * the game, completed a scan of records `cursor` to `length`, or failed on
   * the device (the catch block).
   */
  datatype TickOutcome =
    | Skipped
    | Ended
    | Scanned(cursor: nat, length: nat, batch: seq<int>)
    | DeviceFailed

  datatype TickResult = TickResult(
    outcome: TickOutcome,
    sent: seq<Outbound>,
    lastBounce: int,
    gameCompleted: bool,
    mem: map<int, Byte>)

  // ---------------------------------------------------------------- the value written back to the cursor

  /**
   * `checkedLocations - 1` with `checkedLocations` an array of numbers: the
   * array becomes a number through its string form, so [] is 0, [x] is x and
   * a longer array is NaN (`None`).
   */
  function ArrayMinusOne(a: seq<int>): Option<int> {
    if |a| == 0 then Some(-1) else if |a| == 1 then Some(a[0] - 1) else None
  }

  /** `x & 0xFF`: NaN converts to 0; an integer keeps the low eight bits of its two's complement. */
  function JsLowByte(x: Option<int>): Byte {
    match x
    case None => 0
    case Some(v) => v % 256
  }

  /** `(x >> 8) & 0xFF`: bits 8 to 15 of the two's complement, 0 for NaN. */
  function JsHighByte(x: Option<int>): Byte {
    match x
    case None => 0
    case Some(v) => (v / 256) % 256
  }

  /**
   * The cursor value the tick writes back as written: a function of
   * `checkedLocations` alone, the 16-bit value whose bytes are those of
   * lines 227-228 (`CursorBytesAsWritten`).
   */
  function CursorWrittenAsWritten(checkedLocations: seq<int>): (v: nat)
    ensures v < 0x1_0000
  {
    match ArrayMinusOne(checkedLocations)
    case None => 0
    case Some(x) => x % 0x1_0000
  }

  /** Splitting that value into bytes gives `x & 0xFF` and `(x >> 8) & 0xFF` of `checkedLocations - 1`. */
  lemma CursorBytesAsWritten(checkedLocations: seq<int>)
    ensures var x := ArrayMinusOne(checkedLocations);
      var v := CursorWrittenAsWritten(checkedLocations);
      LowByte(v) == JsLowByte(x) && HighByte(v) == JsHighByte(x)
  {
    var x := ArrayMinusOne(checkedLocations);
    if x.Some? {
      var n := x.value;
      var q, r := n / 0x1_0000, n % 0x1_0000;
      var h, l := r / 256, r % 256;
      DivMod256(r, h, l);
      DivMod256(n, 256 * q + h, l);
      DivMod256(256 * q + h, q, h);
    }
  }

  /** Division by 256 of a value written as 256 q + r with 0 <= r < 256. */
  lemma DivMod256(n: int, q: int, r: int)
    requires n == 256 * q + r && 0 <= r < 256
    ensures n / 256 == q && n % 256 == r
  {
  }

  /**
   * Which value a tick writes back to the cursor after a non-empty batch: the
   * program's `checkedLocations - 1` (lines 227-228), or the index past the
   * last reported record, which the comment at line 224 describes.
   */
  datatype CursorRule = AsWritten | Advance

  function NewCursor(rule: CursorRule, s: TickState, cursor: nat, batch: seq<int>): (v: nat)
    ensures rule.AsWritten? || cursor + |batch| < 0x1_0000 ==> v < 0x1_0000
    ensures rule.Advance? ==> v == cursor + |batch|
    ensures rule.AsWritten? ==> v == CursorWrittenAsWritten(s.checkedLocations)
  {
    match rule
    case AsWritten => CursorWrittenAsWritten(s.checkedLocations)
    case Advance => cursor + |batch|
  }

  // ---------------------------------------------------------------- one tick

  /** A keep-alive is due: more than five minutes since the last one, and the socket is open. */
  predicate BounceDue(s: TickState, now: int) {
    now > s.lastBounce + BounceIntervalMs && s.socketOpen
  }

  function BounceMessages(s: TickState, now: int): seq<Outbound> {
    if BounceDue(s, now) then [Bounce([s.slot], now)] else []
  }

  /** One tick started while no other tick is running. */
  function RunTick(layout: Layout, rule: CursorRule, s: TickState, now: int): (r: TickResult)
    ensures !r.outcome.Skipped?
  {
    CheckMode(layout, rule, s, BounceMessages(s, now), if BounceDue(s, now) then now else s.lastBounce)
  }

  /**
   * Steps 2 to 5, after the keep-alive: read the game mode, report the goal in
   * an endgame mode, otherwise scan and report; `sent` is what went out before.
   */
  function CheckMode(layout: Layout, rule: CursorRule, s: TickState, sent: seq<Outbound>, lastBounce: int): (r: TickResult)
    ensures !r.outcome.Skipped? && r.lastBounce == lastBounce
  {
    match ReadRange(s.online, s.mem, GameModeAddr(layout), 1)
    case None => TickResult(DeviceFailed, sent, lastBounce, s.gameCompleted, s.mem)
    case Some(mode) =>
      if IsEndgame(layout, mode[0]) then
        var goal := !s.gameCompleted && s.socketOpen;
        TickResult(Ended, sent + (if goal then [StatusUpdate(ClientGoal)] else []),
                   lastBounce, s.gameCompleted || goal, s.mem)
      else
        ScanAndReport(layout, rule, s, sent, lastBounce)
  }

  /** Steps 3 and 4: read the cursor, scan the records, report them and write the cursor back. */
  function ScanAndReport(layout: Layout, rule: CursorRule, s: TickState, sent: seq<Outbound>, lastBounce: int): (r: TickResult)
    ensures !r.outcome.Skipped? && !r.outcome.Ended?
    ensures r.lastBounce == lastBounce && r.gameCompleted == s.gameCompleted
  {
    match ReadBatch(layout, s)
    case None => TickResult(DeviceFailed, sent, lastBounce, s.gameCompleted, s.mem)
    case Some(b) => ReportBatch(layout, rule, s, sent, lastBounce, b.cursor, b.length, b.batch)
  }

  /**
   * Step 3: the cursor and the length at +0x680 and the location ids of the
   * records between them, or `None` when a read fails.
   */
  function ReadBatch(layout: Layout, s: TickState): (r: Option<TickOutcome>)
    ensures r.Some? ==> r.value.Scanned? && r.value.cursor + |r.value.batch| < 0x1_0000
  {
    match ReadRange(s.online, s.mem, CursorAddr(layout), 4)
    case None => None
    case Some(header) =>
      var cursor := LE16(header[0], header[1]);
      var length := LE16(header[2], header[3]);
      match ScanRecords(layout, s.online, s.mem, cursor, length)
      case None => None
      case Some(batch) => Some(Scanned(cursor, length, batch))
  }

  /**
   * Step 4 once the batch is known: a non-empty batch is reported while the
   * socket is open and the value the rule picks is written to the cursor;
   * then step 5.
   */
  function ReportBatch(layout: Layout, rule: CursorRule, s: TickState, sent: seq<Outbound>, lastBounce: int,
                       cursor: nat, length: nat, batch: seq<int>): (r: TickResult)
    requires cursor + |batch| < 0x1_0000
    ensures !r.outcome.Skipped? && !r.outcome.Ended?
    ensures r.lastBounce == lastBounce && r.gameCompleted == s.gameCompleted
  {
    if batch == [] then
      PollReceived(layout, s, sent, lastBounce, s.mem, Scanned(cursor, length, batch))
    else
      var sent' := sent + (if s.socketOpen then [LocationChecks(batch)] else []);
      match Write16(s.online, s.mem, CursorAddr(layout), NewCursor(rule, s, cursor, batch))
      case None => TickResult(DeviceFailed, sent', lastBounce, s.gameCompleted, s.mem)
      case Some(mem') => PollReceived(layout, s, sent', lastBounce, mem', Scanned(cursor, length, batch))
  }

  /** Step 5: when items are accepted, read the received-item counter (delivery itself is not written yet). */
  function PollReceived(layout: Layout, s: TickState, sent: seq<Outbound>, lastBounce: int,
                        mem: map<int, Byte>, done: TickOutcome): TickResult
  {
    if s.receiveItems && !Readable(s.online, mem, ReceivedCountAddr(layout), 4) then
      TickResult(DeviceFailed, sent, lastBounce, s.gameCompleted, mem)
    else
      TickResult(done, sent, lastBounce, s.gameCompleted, mem)
  }

  /** No command but `StatusUpdate` counts toward the goal report. */
  lemma GoalCountNoStatus(sent: seq<Outbound>)
    requires forall m :: m in sent ==> !m.StatusUpdate?
    ensures GoalCount(sent) == 0
    decreases |sent|
  {
    if sent != [] {
      GoalCountNoStatus(sent[..|sent| - 1]);
    }
  }

  /**
   * The GOAL status is sent by a tick only if it was not reported before and
   * the socket is open, and exactly when the completed flag turns on; so over
   * any run of ticks it is sent at most once.
   */
  lemma TickReportsGoalOnce(layout: Layout, rule: CursorRule, s: TickState, now: int)
    ensures var r := RunTick(layout, rule, s, now);
      && GoalCount(r.sent) == (if r.gameCompleted && !s.gameCompleted then 1 else 0)
      && (s.gameCompleted ==> r.gameCompleted)
      && (r.gameCompleted && !s.gameCompleted ==> s.socketOpen && r.outcome == Ended)
  {
    var bounce := BounceMessages(s, now);
    var lastBounce := if BounceDue(s, now) then now else s.lastBounce;
    GoalCountNoStatus(bounce);
    var mode := ReadRange(s.online, s.mem, GameModeAddr(layout), 1);
    if mode.Some? && IsEndgame(layout, mode.value[0]) {
      if !s.gameCompleted && s.socketOpen {
        GoalCountSnoc(bounce, StatusUpdate(ClientGoal));
      } else {
        assert bounce + [] == bounce;
      }
    } else if mode.Some? {
      ScanAndReportSendsNoGoal(layout, rule, s, bounce, lastBounce);
    }
  }

  /** The scanning step sends no `StatusUpdate` and leaves the completed flag alone. */
  lemma ScanAndReportSendsNoGoal(layout: Layout, rule: CursorRule, s: TickState, sent: seq<Outbound>, lastBounce: int)
    ensures GoalCount(ScanAndReport(layout, rule, s, sent, lastBounce).sent) == GoalCount(sent)
    ensures ScanAndReport(layout, rule, s, sent, lastBounce).gameCompleted == s.gameCompleted
  {
    var r := ScanAndReport(layout, rule, s, sent, lastBounce);
    ScanAndReportSends(layout, rule, s, sent, lastBounce);
    if r.sent != sent {
      assert r.sent == sent + [r.sent[|sent|]];
      GoalCountSnoc(sent, r.sent[|sent|]);
    }
  }

  /** An endgame tick sends no location checks and leaves device memory as it was. */
  lemma EndgameTickWritesNothing(layout: Layout, rule: CursorRule, s: TickState, now: int)
    requires RunTick(layout, rule, s, now).outcome == Ended
    ensures RunTick(layout, rule, s, now).mem == s.mem
    ensures forall m :: m in RunTick(layout, rule, s, now).sent ==> !m.LocationChecks?
  {
  }

  /** When the bridge does not answer, the tick fails at its first read and writes nothing. */
  lemma OfflineTickFails(layout: Layout, rule: CursorRule, s: TickState, now: int)
    requires !s.online
    ensures RunTick(layout, rule, s, now).outcome == DeviceFailed
    ensures RunTick(layout, rule, s, now).mem == s.mem
    ensures RunTick(layout, rule, s, now).sent == BounceMessages(s, now)
  {
  }

  /** The keep-alive is sent exactly when it is due, and the bounce time moves only then. */
  lemma TickBounce(layout: Layout, rule: CursorRule, s: TickState, now: int)
    ensures var r := RunTick(layout, rule, s, now);
      && (BounceDue(s, now) <==> |r.sent| > 0 && r.sent[0] == Bounce([s.slot], now))
      && r.lastBounce == (if BounceDue(s, now) then now else s.lastBounce)
  {
    var mode := ReadRange(s.online, s.mem, GameModeAddr(layout), 1);
    if !BounceDue(s, now) && mode.Some? && !IsEndgame(layout, mode.value[0]) {
      ScanAndReportSends(layout, rule, s, [], s.lastBounce);
    }
  }

  /** The scanning step sends nothing, or one `LocationChecks` after what was sent before. */
  lemma ScanAndReportSends(layout: Layout, rule: CursorRule, s: TickState, sent: seq<Outbound>, lastBounce: int)
    ensures var r := ScanAndReport(layout, rule, s, sent, lastBounce);
      || r.sent == sent
      || (|r.sent| == |sent| + 1 && r.sent[..|sent|] == sent && r.sent[|sent|].LocationChecks?)
  {
  }

  /** The facts a completed scan rests on, stated for the scanning step alone. */
  predicate ScanFacts(layout: Layout, s: TickState, o: TickOutcome)
    requires o.Scanned?
  {
    var c := CursorAddr(layout);
    && Readable(s.online, s.mem, c, 4)
    && o.cursor == LE16(s.mem[c], s.mem[c + 1])
    && o.length == LE16(s.mem[c + 2], s.mem[c + 3])
    && ScanRecords(layout, s.online, s.mem, o.cursor, o.length) == Some(o.batch)
  }

  /** A completed scanning step completed the read of the batch and reports that batch as its outcome. */
  lemma ScanAndReportFacts(layout: Layout, rule: CursorRule, s: TickState, sent: seq<Outbound>, lastBounce: int)
    requires ScanAndReport(layout, rule, s, sent, lastBounce).outcome.Scanned?
    ensures ReadBatch(layout, s) == Some(ScanAndReport(layout, rule, s, sent, lastBounce).outcome)
  {
    var b := ReadBatch(layout, s);
    assert b.Some?;
    ReportBatchOutcome(layout, rule, s, sent, lastBounce, b.value.cursor, b.value.length, b.value.batch);
  }

  /** A batch that was read rests on the facts of `ScanFacts`. */
  lemma ReadBatchFacts(layout: Layout, s: TickState)
    requires ReadBatch(layout, s).Some?
    ensures ScanFacts(layout, s, ReadBatch(layout, s).value)
  {
    var header := ReadRange(s.online, s.mem, CursorAddr(layout), 4);
    assert header.Some?;
  }

  /** A batch report that completes names the cursor, the length and the batch it was given. */
  lemma ReportBatchOutcome(layout: Layout, rule: CursorRule, s: TickState, sent: seq<Outbound>, lastBounce: int,
                           cursor: nat, length: nat, batch: seq<int>)
    requires cursor + |batch| < 0x1_0000
    ensures var o := ReportBatch(layout, rule, s, sent, lastBounce, cursor, length, batch).outcome;
      o.Scanned? ==> o == Scanned(cursor, length, batch)
  {
  }

  /**
   * What a completed batch report sends and writes: nothing for an empty
   * batch; otherwise `LocationChecks` over an open socket and the cursor
   * write of the value the rule picks.
   */
  lemma ReportBatchWrites(layout: Layout, rule: CursorRule, s: TickState, sent: seq<Outbound>, lastBounce: int,
                          cursor: nat, length: nat, batch: seq<int>)
    requires cursor + |batch| < 0x1_0000
    requires ReportBatch(layout, rule, s, sent, lastBounce, cursor, length, batch).outcome.Scanned?
    ensures var r := ReportBatch(layout, rule, s, sent, lastBounce, cursor, length, batch);
      && (batch == [] ==> r.mem == s.mem && r.sent == sent)
      && (batch != [] ==>
            && r.sent == sent + (if s.socketOpen then [LocationChecks(batch)] else [])
            && Write16(s.online, s.mem, CursorAddr(layout), NewCursor(rule, s, cursor, batch)) == Some(r.mem))
  {
  }

  /** A tick that completed a scan got past the game-mode read and was not in an endgame mode. */
  lemma RunTickIsScan(layout: Layout, rule: CursorRule, s: TickState, now: int)
    requires RunTick(layout, rule, s, now).outcome.Scanned?
    ensures RunTick(layout, rule, s, now)
         == ScanAndReport(layout, rule, s, BounceMessages(s, now), if BounceDue(s, now) then now else s.lastBounce)
  {
    var mode := ReadRange(s.online, s.mem, GameModeAddr(layout), 1);
    assert mode.Some?;
    assert !IsEndgame(layout, mode.value[0]);
  }

  lemma RunTickScanned(layout: Layout, rule: CursorRule, s: TickState, now: int)
    requires RunTick(layout, rule, s, now).outcome.Scanned?
    ensures ScanFacts(layout, s, RunTick(layout, rule, s, now).outcome)
  {
    RunTickIsScan(layout, rule, s, now);
    ScanAndReportFacts(layout, rule, s, BounceMessages(s, now), if BounceDue(s, now) then now else s.lastBounce);
    ReadBatchFacts(layout, s);
  }

  /** A completed scan decodes the cursor and the length as little-endian 16-bit values at +0x680. */
  lemma ScanDecodesCursor(layout: Layout, rule: CursorRule, s: TickState, now: int)
    requires RunTick(layout, rule, s, now).outcome.Scanned?
    ensures var o := RunTick(layout, rule, s, now).outcome;
      var c := CursorAddr(layout);
      && Readable(s.online, s.mem, c, 4)
      && o.cursor == LE16(s.mem[c], s.mem[c + 1])
      && o.length == LE16(s.mem[c + 2], s.mem[c + 3])
  {
    RunTickScanned(layout, rule, s, now);
  }

  /**
   * A completed scan reports one id per record from the cursor up to the
   * length (none when the length is not above the cursor), in record order,
   * each within the 8192 ids after LOCATIONS_START_ID.
   */
  lemma ScanReportsRecords(layout: Layout, rule: CursorRule, s: TickState, now: int, o: TickOutcome)
    requires o == RunTick(layout, rule, s, now).outcome && o.Scanned?
    ensures |o.batch| == (if o.length > o.cursor then o.length - o.cursor else 0)
    ensures forall i :: 0 <= i < |o.batch| ==> ReadRecord(layout, s.online, s.mem, o.cursor + i) == Some(o.batch[i])
    ensures forall i :: 0 <= i < |o.batch| ==>
              layout.locationsStartId <= o.batch[i] < layout.locationsStartId + 8192
  {
    RunTickScanned(layout, rule, s, now);
    ScanFactsRecords(layout, s, o);
  }

  lemma ScanFactsRecords(layout: Layout, s: TickState, o: TickOutcome)
    requires o.Scanned? && ScanFacts(layout, s, o)
    ensures |o.batch| == (if o.length > o.cursor then o.length - o.cursor else 0)
    ensures forall i :: 0 <= i < |o.batch| ==> ReadRecord(layout, s.online, s.mem, o.cursor + i) == Some(o.batch[i])
    ensures forall i :: 0 <= i < |o.batch| ==>
              layout.locationsStartId <= o.batch[i] < layout.locationsStartId + 8192
  {
    ScanIds(layout, s.online, s.mem, o.cursor, o.length);
    ScanIdsInRange(layout, s.online, s.mem, o.cursor, o.length);
  }

  /**
   * After a completed scan the cursor bytes are written iff the batch is
   * non-empty, whether or not the socket is open; the write touches only the
   * two cursor bytes and stores the value the rule picks. A `LocationChecks`
   * with the batch goes out iff the batch is non-empty and the socket is open.
   */
  lemma ScanWritesCursor(layout: Layout, rule: CursorRule, s: TickState, now: int)
    requires RunTick(layout, rule, s, now).outcome.Scanned?
    ensures var r := RunTick(layout, rule, s, now);
      var o := r.outcome;
      var c := CursorAddr(layout);
      && (o.batch == [] ==> r.mem == s.mem)
      && (o.batch != [] ==>
            && r.mem.Keys == s.mem.Keys
            && LE16(r.mem[c], r.mem[c + 1]) == NewCursor(rule, s, o.cursor, o.batch)
            && o.cursor < o.length
            && (forall a :: a in s.mem && a != c && a != c + 1 ==> r.mem[a] == s.mem[a]))
      && (LocationChecks(o.batch) in r.sent <==> o.batch != [] && s.socketOpen)
  {
    var bounce := BounceMessages(s, now);
    RunTickIsScan(layout, rule, s, now);
    ScanAndReportWrites(layout, rule, s, bounce, if BounceDue(s, now) then now else s.lastBounce);
    var o := RunTick(layout, rule, s, now).outcome;
    assert LocationChecks(o.batch) !in bounce;
  }

  /**
   * The intended rule: a completed scan with a non-empty batch moves the
   * cursor to the length, past exactly the records it reported, so the next
   * tick starts after them.
   */
  lemma ScanAdvancesCursor(layout: Layout, s: TickState, now: int)
    requires RunTick(layout, Advance, s, now).outcome.Scanned?
    ensures var r := RunTick(layout, Advance, s, now);
      var o := r.outcome;
      var c := CursorAddr(layout);
      o.batch != [] ==> LE16(r.mem[c], r.mem[c + 1]) == o.cursor + |o.batch| == o.length
  {
    ScanWritesCursor(layout, Advance, s, now);
    RunTickScanned(layout, Advance, s, now);
    var o := RunTick(layout, Advance, s, now).outcome;
    ScanFactsRecords(layout, s, o);
  }

  /** `ScanWritesCursor` for the scanning step alone, relative to what was sent before it. */
  lemma ScanAndReportWrites(layout: Layout, rule: CursorRule, s: TickState, sent: seq<Outbound>, lastBounce: int)
    requires ScanAndReport(layout, rule, s, sent, lastBounce).outcome.Scanned?
    ensures var r := ScanAndReport(layout, rule, s, sent, lastBounce);
      var o := r.outcome;
      var c := CursorAddr(layout);
      && (o.batch == [] ==> r.mem == s.mem && r.sent == sent)
      && (o.batch != [] ==>
            && r.sent == sent + (if s.socketOpen then [LocationChecks(o.batch)] else [])
            && r.mem.Keys == s.mem.Keys
            && LE16(r.mem[c], r.mem[c + 1]) == NewCursor(rule, s, o.cursor, o.batch)
            && o.cursor < o.length
            && (forall a :: a in s.mem && a != c && a != c + 1 ==> r.mem[a] == s.mem[a]))
  {
    ScanAndReportFacts(layout, rule, s, sent, lastBounce);
    var o := ScanAndReport(layout, rule, s, sent, lastBounce).outcome;
    ReportBatchWrites(layout, rule, s, sent, lastBounce, o.cursor, o.length, o.batch);
  }

  /**
   * Conversely, a tick that is not at the end of the game completes its scan
   * when every read it makes succeeds: the game mode, the cursor header, each
   * record from the cursor up to the length and, when items are accepted,
   * the received-item counter.
   */
  lemma ScanCompletes(layout: Layout, rule: CursorRule, s: TickState, now: int)
    requires Readable(s.online, s.mem, GameModeAddr(layout), 1)
    requires !IsEndgame(layout, s.mem[GameModeAddr(layout)])
    requires Readable(s.online, s.mem, CursorAddr(layout), 4)
    requires var c := CursorAddr(layout);
      forall k :: LE16(s.mem[c], s.mem[c + 1]) <= k < LE16(s.mem[c + 2], s.mem[c + 3]) ==>
        ReadRecord(layout, s.online, s.mem, k).Some?
    requires s.receiveItems ==> Readable(s.online, s.mem, ReceivedCountAddr(layout), 4)
    ensures RunTick(layout, rule, s, now).outcome.Scanned?
  {
    var c := CursorAddr(layout);
    var mode := ReadRange(s.online, s.mem, GameModeAddr(layout), 1);
    assert mode.value[0] == s.mem[GameModeAddr(layout)];
    var header := ReadRange(s.online, s.mem, c, 4).value;
    assert header[0] == s.mem[c] && header[1] == s.mem[c + 1];
    assert header[2] == s.mem[c + 2] && header[3] == s.mem[c + 3];
    var cursor := LE16(header[0], header[1]);
    ScanSucceedsIffReadable(layout, s.online, s.mem, cursor, LE16(header[2], header[3]));
    var batch := ScanRecords(layout, s.online, s.mem, cursor, LE16(header[2], header[3])).value;
    if batch != [] {
      assert Readable(s.online, s.mem, c, 2);
      var mem' := Write16(s.online, s.mem, c, NewCursor(rule, s, cursor, batch)).value;
      assert s.receiveItems ==> Readable(s.online, mem', ReceivedCountAddr(layout), 4);
    }
  }
}
