/**
 * Four places where assets/serverSocket.js, read with JavaScript's own
 * semantics, does something other than what the code's own comments
 * describe. The client class runs the code as written; each lemma here shows
 * the difference on a concrete class of inputs, next to the intended
 * definition (`Tick.ScanAdvancesCursor`, `Session.CacheServesPersistedVersion`,
 * `Session.ScoutRecordsItem`, `ClientModel.Client.OnAddressEnteredIntended`).
 */
module Findings {
  import opened Wrappers
  import opened Protocol
  import opened Device
  import opened Tick
  import opened Session
  import opened Text

  // ---------------------------------------------------------------- the cursor write

  /** As written, the value does not depend on the scan at all: with two or more checked locations it is always 0. */
  lemma CursorAsWrittenIgnoresScan(checkedLocations: seq<int>)
    requires |checkedLocations| >= 2
    ensures CursorWrittenAsWritten(checkedLocations) == 0
  {
  }

  /**
   * So a tick that reports a non-empty batch while the slot has two or more
   * checked locations sets the cursor back to 0 although it scanned up to a
   * positive length: the next tick scans and reports the same records again.
   */
  lemma CursorAsWrittenRescans(layout: Layout, s: TickState, now: int, r: TickResult)
    requires r == RunTick(layout, AsWritten, s, now)
    requires r.outcome.Scanned? && r.outcome.batch != []
    requires |s.checkedLocations| >= 2
    ensures var c := CursorAddr(layout);
      && c in r.mem && c + 1 in r.mem
      && LE16(r.mem[c], r.mem[c + 1]) == 0 < r.outcome.length
  {
    ScanWritesCursor(layout, AsWritten, s, now);
    RunTickScanned(layout, AsWritten, s, now);
  }

  // ---------------------------------------------------------------- the data-package cache test

  /**
   * As written, a package just saved is requested again when the server
   * announces the same version; the intended test serves it from the cache.
   */
  lemma CacheNeverUsedAsWritten(st: Storage, data: DataPackage)
    requires data.version != 0
    ensures CacheStaleAsWritten(PersistDataPackage(st, data), data.version)
    ensures !CacheStale(PersistDataPackage(st, data), data.version)
  {
    CacheServesPersistedVersion(st, data, data.version);
  }

  // ---------------------------------------------------------------- the LocationInfo entry

  /**
   * As written, every location a `LocationInfo` batch adds to the table
   * stores `undefined` for its item and its player, where the intended entry
   * keeps both (`ScoutRecordsItem`).
   */
  lemma ScoutAsWrittenLosesData(m: map<int, JsScout>, locations: seq<NetworkItem>, i: nat)
    requires i < |locations| && locations[i].location !in m
    requires forall j :: 0 <= j < i ==> locations[j].location != locations[i].location
    ensures var t := ScoutAll(m, locations, ScoutEntryAsWritten);
      locations[i].location in t && t[locations[i].location] == JsScout(None, None)
  {
    ScoutFirstWins(m, locations, ScoutEntryAsWritten, i);
  }

  // ---------------------------------------------------------------- the empty address

  /**
   * The address handler's comment says an empty value makes no reconnect
   * attempt, but nothing returns early: `connectToServer("")` goes on to
   * build the URL "ws://:38281", whose host is empty, so with a device
   * present the WebSocket constructor throws (`OnAddressEntered` fails).
   */
  lemma EmptyAddressAttemptsConnection()
    ensures "ws://" + NormalizeAddress("") == "ws://:38281"
    ensures HostMissing("")
  {
    EmptyAddressHasNoHost("");
  }
}
