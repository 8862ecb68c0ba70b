/**
 * Pure logic of the session side of the client: the received-item merge with
 * deduplication, the first-write-wins scout map, the id-to-name tables built
 * from a data package, the data-package cache test, the client id, the
 * ConnectionRefused message and the reconnect policy.
 */
module Session {
  import opened Wrappers
  import opened Protocol
  import opened Text

  // ---------------------------------------------------------------- ReceivedItems

  /** No (item, location, player) triple occurs twice among entries with location > 0. */
  predicate NoDuplicateChecks(q: seq<NetworkItem>) {
    forall i, j :: 0 <= i < j < |q| && q[i].location > 0 ==> q[i] != q[j]
  }

  /** One `forEach` step: location <= 0 is always pushed, otherwise only when no equal triple is queued. */
  function MergeItem(q: seq<NetworkItem>, it: NetworkItem): seq<NetworkItem> {
    if it.location <= 0 || it !in q then q + [it] else q
  }

  /** The whole `ReceivedItems` batch, merged in order. */
  function MergeItems(q: seq<NetworkItem>, items: seq<NetworkItem>): seq<NetworkItem>
    decreases |items|
  {
    if items == [] then q else MergeItem(MergeItems(q, items[..|items| - 1]), items[|items| - 1])
  }

  /** The merge is append-only: the old queue is an unchanged prefix. */
  lemma {:induction false} MergeAppendOnly(q: seq<NetworkItem>, items: seq<NetworkItem>)
    ensures |MergeItems(q, items)| >= |q| && MergeItems(q, items)[..|q|] == q
    ensures |MergeItems(q, items)| <= |q| + |items|
    decreases |items|
  {
    if items != [] {
      var q' := MergeItems(q, items[..|items| - 1]);
      MergeAppendOnly(q, items[..|items| - 1]);
      var it := items[|items| - 1];
      if it.location <= 0 || it !in q' {
        assert (q' + [it])[..|q|] == q'[..|q|];
      }
    }
  }

  /** Every entry of the batch is in the queue afterwards, and nothing else was added. */
  lemma {:induction false} MergeContents(q: seq<NetworkItem>, items: seq<NetworkItem>)
    ensures forall it :: it in items ==> it in MergeItems(q, items)
    ensures forall it :: it in MergeItems(q, items) ==> it in q || it in items
    decreases |items|
  {
    if items != [] {
      var front := items[..|items| - 1];
      MergeContents(q, front);
      MergeAppendOnly(q, front);
      var q' := MergeItems(q, front);
      var r := MergeItems(q, items);
      assert r[..|q'|] == q' by { MergeAppendOnly(q', [items[|items| - 1]]); assert [items[|items| - 1]][..0] == []; }
      forall it | it in items ensures it in r {
        if it != items[|items| - 1] {
          var k :| 0 <= k < |items| && items[k] == it;
          assert it in front by { assert front[k] == it; }
          var j :| 0 <= j < |q'| && q'[j] == it;
          assert r[j] == it;
        }
      }
      forall it | it in r ensures it in q || it in items {
        if it in q' && it !in q {
          assert it in front;
          var k :| 0 <= k < |front| && front[k] == it;
          assert items[k] == it;
        }
      }
    }
  }

  /** The merge keeps the no-duplicate invariant of the queue. */
  lemma {:induction false} MergeKeepsNoDuplicates(q: seq<NetworkItem>, items: seq<NetworkItem>)
    requires NoDuplicateChecks(q)
    ensures NoDuplicateChecks(MergeItems(q, items))
    decreases |items|
  {
    if items != [] {
      var q' := MergeItems(q, items[..|items| - 1]);
      MergeKeepsNoDuplicates(q, items[..|items| - 1]);
      var it := items[|items| - 1];
      if it.location > 0 && it !in q' {
        var r := q' + [it];
        forall i, j | 0 <= i < j < |r| && r[i].location > 0 ensures r[i] != r[j] {
          if j == |q'| {
            assert r[i] == q'[i];
          }
        }
      }
    }
  }

  /** The entries with location <= 0, in order. */
  function ServerItems(q: seq<NetworkItem>): seq<NetworkItem>
    decreases |q|
  {
    if q == [] then []
    else ServerItems(q[..|q| - 1]) + (if q[|q| - 1].location <= 0 then [q[|q| - 1]] else [])
  }

  /** Entries with location <= 0 are kept exactly as received, repeats included. */
  lemma {:induction false} MergeKeepsServerItems(q: seq<NetworkItem>, items: seq<NetworkItem>)
    ensures ServerItems(MergeItems(q, items)) == ServerItems(q) + ServerItems(items)
    decreases |items|
  {
    if items == [] {
      assert ServerItems(q) + [] == ServerItems(q);
    } else {
      var front := items[..|items| - 1];
      var it := items[|items| - 1];
      MergeKeepsServerItems(q, front);
      MergeItemServerItems(MergeItems(q, front), it);
      ServerItemsSnoc(front, it);
    }
  }

  lemma ServerItemsSnoc(q: seq<NetworkItem>, it: NetworkItem)
    ensures ServerItems(q + [it]) == ServerItems(q) + (if it.location <= 0 then [it] else [])
  {
    assert (q + [it])[..|q|] == q;
  }

  /** One merge step adds to the server items exactly the entry itself when its location is <= 0. */
  lemma MergeItemServerItems(q: seq<NetworkItem>, it: NetworkItem)
    ensures ServerItems(MergeItem(q, it)) == ServerItems(q) + (if it.location <= 0 then [it] else [])
  {
    if it.location <= 0 || it !in q {
      ServerItemsSnoc(q, it);
    } else {
      assert ServerItems(q) + [] == ServerItems(q);
    }
  }

  /** The same entry delivered twice: a check-bound item is queued once, a server item (location 0) twice. */
  lemma DuplicateDeliveryScenario()
    ensures |MergeItems([], [NetworkItem(7, 12, 1), NetworkItem(7, 12, 1)])| == 1
    ensures |MergeItems([], [NetworkItem(7, 0, 1), NetworkItem(7, 0, 1)])| == 2
  {
    var a := [NetworkItem(7, 12, 1), NetworkItem(7, 12, 1)];
    assert a[..1] == [NetworkItem(7, 12, 1)] && a[..1][..0] == [];
    var b := [NetworkItem(7, 0, 1), NetworkItem(7, 0, 1)];
    assert b[..1] == [NetworkItem(7, 0, 1)] && b[..1][..0] == [];
  }

  // ---------------------------------------------------------------- LocationInfo

  /** What the scouting table is meant to keep about a location: the item there and the player it belongs to. */
  datatype ScoutedItem = ScoutedItem(item: int, player: int)

  function ScoutEntry(e: NetworkItem): ScoutedItem {
    ScoutedItem(e.item, e.player)
  }

  /** A `{item, location, player}` entry as the JavaScript object it is parsed into. */
  function EntryObject(e: NetworkItem): map<string, int> {
    map["item" := e.item, "location" := e.location, "player" := e.player]
  }

  /** Property lookup; `None` is `undefined`. */
  function Property(obj: map<string, int>, key: string): Option<int> {
    if key in obj then Some(obj[key]) else None
  }

  /** What lines 306-309 store: an `{item, player}` object whose properties may be `undefined`. */
  datatype JsScout = JsScout(item: Option<int>, player: Option<int>)

  /** The entry as written: `location[0]` and `location[2]` of an object that has neither property. */
  function ScoutEntryAsWritten(e: NetworkItem): (r: JsScout)
    ensures r == JsScout(None, None)
  {
    assert "0" !in EntryObject(e) && "2" !in EntryObject(e);
    JsScout(Property(EntryObject(e), "0"), Property(EntryObject(e), "2"))
  }

  /**
   * The `LocationInfo` batch merged in order, keyed by location, each new
   * location storing `entry` of its entry: a key already present is never
   * overwritten.
   */
  function ScoutAll<V>(m: map<int, V>, locations: seq<NetworkItem>, entry: NetworkItem -> V): map<int, V>
    decreases |locations|
  {
    if locations == [] then m
    else
      var m' := ScoutAll(m, locations[..|locations| - 1], entry);
      var e := locations[|locations| - 1];
      if e.location in m' then m' else m'[e.location := entry(e)]
  }

  /** Afterwards the keys are the old keys plus every location of the batch. */
  lemma {:induction false} ScoutKeys<V>(m: map<int, V>, locations: seq<NetworkItem>, entry: NetworkItem -> V)
    ensures ScoutAll(m, locations, entry).Keys == m.Keys + set e | e in locations :: e.location
    decreases |locations|
  {
    if locations != [] {
      var front := locations[..|locations| - 1];
      ScoutKeys(m, front, entry);
      assert forall e :: e in locations <==> e in front || e == locations[|locations| - 1];
    }
  }

  /** A location already scouted keeps its entry. */
  lemma {:induction false} ScoutKeepsExisting<V>(m: map<int, V>, locations: seq<NetworkItem>, entry: NetworkItem -> V, k: int)
    requires k in m
    ensures k in ScoutAll(m, locations, entry) && ScoutAll(m, locations, entry)[k] == m[k]
    decreases |locations|
  {
    if locations != [] {
      ScoutKeepsExisting(m, locations[..|locations| - 1], entry, k);
    }
  }

  /** A new location gets the entry of its first occurrence in the batch. */
  lemma {:induction false} ScoutFirstWins<V>(m: map<int, V>, locations: seq<NetworkItem>, entry: NetworkItem -> V, i: nat)
    requires i < |locations| && locations[i].location !in m
    requires forall j :: 0 <= j < i ==> locations[j].location != locations[i].location
    ensures locations[i].location in ScoutAll(m, locations, entry)
    ensures ScoutAll(m, locations, entry)[locations[i].location] == entry(locations[i])
    decreases |locations|
  {
    var k := locations[i].location;
    var front := locations[..|locations| - 1];
    if i == |locations| - 1 {
      ScoutKeys(m, front, entry);
      forall e | e in front ensures e.location != k {
        var j :| 0 <= j < |front| && front[j] == e;
        assert locations[j] == e;
      }
    } else {
      ScoutFirstWins(m, front, entry, i);
      ScoutKeepsExisting(ScoutAll(m, front, entry), [locations[|locations| - 1]], entry, k);
      assert [locations[|locations| - 1]][..0] == [];
    }
  }

  /**
   * With the intended entry, a newly scouted location records the item found
   * there and the player it belongs to, taken from its first occurrence.
   */
  lemma ScoutRecordsItem(m: map<int, ScoutedItem>, locations: seq<NetworkItem>, i: nat)
    requires i < |locations| && locations[i].location !in m
    requires forall j :: 0 <= j < i ==> locations[j].location != locations[i].location
    ensures var t := ScoutAll(m, locations, ScoutEntry);
      locations[i].location in t && t[locations[i].location] == ScoutedItem(locations[i].item, locations[i].player)
  {
    ScoutFirstWins(m, locations, ScoutEntry, i);
  }

  // ---------------------------------------------------------------- DataPackage

  /** The name-to-id pairs of all games, game by game, in order. */
  function ItemPairs(games: seq<GameTables>): seq<(string, int)>
    decreases |games|
  {
    if games == [] then [] else ItemPairs(games[..|games| - 1]) + games[|games| - 1].itemNameToId
  }

  function LocationPairs(games: seq<GameTables>): seq<(string, int)>
    decreases |games|
  {
    if games == [] then [] else LocationPairs(games[..|games| - 1]) + games[|games| - 1].locationNameToId
  }

  /** `table[id] = name` for every pair in order: an id named twice keeps its last name. */
  function Invert(pairs: seq<(string, int)>): map<int, string>
    decreases |pairs|
  {
    if pairs == [] then map[]
    else Invert(pairs[..|pairs| - 1])[pairs[|pairs| - 1].1 := pairs[|pairs| - 1].0]
  }

  /** Every id of the tables is a key of the inverted table, and nothing else is. */
  lemma {:induction false} InvertKeys(pairs: seq<(string, int)>)
    ensures Invert(pairs).Keys == set p | p in pairs :: p.1
    decreases |pairs|
  {
    if pairs != [] {
      var front := pairs[..|pairs| - 1];
      InvertKeys(front);
      assert forall p :: p in pairs <==> p in front || p == pairs[|pairs| - 1];
    }
  }

  /** The name stored for an id is the name of the last pair that carries that id. */
  lemma {:induction false} InvertLastWins(pairs: seq<(string, int)>, i: nat)
    requires i < |pairs|
    requires forall j :: i < j < |pairs| ==> pairs[j].1 != pairs[i].1
    ensures pairs[i].1 in Invert(pairs) && Invert(pairs)[pairs[i].1] == pairs[i].0
    decreases |pairs|
  {
    if i < |pairs| - 1 {
      var front := pairs[..|pairs| - 1];
      InvertLastWins(front, i);
    }
  }

  /** When no id is repeated, the inverted table maps each id back to its name. */
  lemma InvertRoundTrip(pairs: seq<(string, int)>)
    requires forall i, j :: 0 <= i < j < |pairs| ==> pairs[i].1 != pairs[j].1
    ensures forall i :: 0 <= i < |pairs| ==> pairs[i].1 in Invert(pairs) && Invert(pairs)[pairs[i].1] == pairs[i].0
  {
    forall i | 0 <= i < |pairs| ensures pairs[i].1 in Invert(pairs) && Invert(pairs)[pairs[i].1] == pairs[i].0 {
      InvertLastWins(pairs, i);
    }
  }

  /** What the client keeps in `localStorage`. */
  datatype Storage = Storage(clientId: Option<string>, dataPackageVersion: Option<string>, dataPackage: Option<DataPackage>)

  /** A stored string that is missing or empty reads as false. */
  predicate Falsy(v: Option<string>) { v.None? || v.value == "" }

  /** A `DataPackage` is saved unless its version is 0; the version is stored as a string. */
  function PersistDataPackage(st: Storage, data: DataPackage): (r: Storage)
    ensures r.clientId == st.clientId
    ensures data.version == 0 ==> r == st
    ensures data.version != 0 ==> r.dataPackage == Some(data)
    ensures data.version != 0 ==> r.dataPackageVersion == Some(IntToString(data.version))
  {
    if data.version != 0 then
      st.(dataPackageVersion := Some(IntToString(data.version)), dataPackage := Some(data))
    else st
  }

  /** `RoomInfo` must request the data package: nothing cached, or a cached version other than the server's. */
  predicate CacheStale(st: Storage, serverVersion: int) {
    Falsy(st.dataPackageVersion) || st.dataPackage.None? || st.dataPackageVersion.value != IntToString(serverVersion)
  }

  /** After a package of version v != 0 is saved, the cache serves exactly version v. */
  lemma CacheServesPersistedVersion(st: Storage, data: DataPackage, serverVersion: int)
    requires data.version != 0
    ensures !CacheStale(PersistDataPackage(st, data), serverVersion) <==> serverVersion == data.version
  {
    if IntToString(data.version) == IntToString(serverVersion) {
      IntToStringInjective(data.version, serverVersion);
    }
  }

  /** The JavaScript values on the two sides of the `!==` at line 93. */
  datatype JsValue = JsNumber(n: int) | JsString(s: string) | JsNull

  /** `localStorage.getItem('dataPackageVersion')`: a string or null. */
  function StoredVersion(st: Storage): JsValue {
    if st.dataPackageVersion.None? then JsNull else JsString(st.dataPackageVersion.value)
  }

  /**
   * The test as written: the server's numeric version is compared with `!==`
   * to the stored string, and a number is never strictly equal to a string,
   * so the test holds whatever is stored.
   */
  predicate CacheStaleAsWritten(st: Storage, serverVersion: int)
    ensures CacheStaleAsWritten(st, serverVersion)
  {
    Falsy(st.dataPackageVersion) || st.dataPackage.None? || JsNumber(serverVersion) != StoredVersion(st)
  }

  // ---------------------------------------------------------------- client id

  /** `getClientId`: a stored id is returned; when none (or an empty one) is stored, the new random one. */
  function ResolveClientId(stored: Option<string>, drawn: string): (id: string)
    requires drawn != ""
    ensures id != ""
    ensures !Falsy(stored) ==> id == stored.value
    ensures Falsy(stored) ==> id == drawn
  {
    if Falsy(stored) then drawn else stored.value
  }

  /** Once an id is stored, every later call returns it, whatever random value it draws. */
  lemma ClientIdStable(stored: Option<string>, drawn: string, later: string)
    requires drawn != "" && later != ""
    ensures ResolveClientId(Some(ResolveClientId(stored, drawn)), later) == ResolveClientId(stored, drawn)
  {
  }

  // ---------------------------------------------------------------- ConnectionRefused

  /** The message shown for a refused connection. */
  function RefusalNotice(errors: seq<string>, password: Option<string>): (n: Notice)
    ensures n == PasswordRequired <==> "InvalidPassword" in errors && password.None?
    ensures n == PasswordRejected <==> "InvalidPassword" in errors && password.Some?
    ensures n == ConnectError(errors) <==> "InvalidPassword" !in errors
  {
    if "InvalidPassword" in errors then
      (if password.None? then PasswordRequired else PasswordRejected)
    else ConnectError(errors)
  }

  // ---------------------------------------------------------------- reconnect policy

  /** What the delayed close handler does. */
  datatype Decision = Skip | GiveUp(attempts: nat) | Retry(attempts: nat)

  /**
   * Nothing while a socket is open or after an auth error; otherwise the
   * counter goes up, and a reconnect follows only while it is at most 10.
   */
  function Supervise(socketOpen: bool, authError: bool, attempts: nat): (d: Decision)
    ensures d.Skip? <==> socketOpen || authError
    ensures d.Retry? ==> d.attempts == attempts + 1 <= MaxReconnectAttempts
    ensures d.GiveUp? ==> d.attempts == attempts + 1 > MaxReconnectAttempts
  {
    if socketOpen || authError then Skip
    else if attempts + 1 > MaxReconnectAttempts then GiveUp(attempts + 1)
    else Retry(attempts + 1)
  }

  function AttemptsAfter(attempts: nat, d: Decision): nat {
    match d
    case Skip => attempts
    case GiveUp(a) => a
    case Retry(a) => a
  }

  /** The situation in which one delayed close handler runs. */
  datatype Firing = Firing(socketOpen: bool, authError: bool)

  /** How many reconnects a run of close handlers makes, starting from a counter value. */
  function RetriesFrom(attempts: nat, firings: seq<Firing>): nat
    decreases |firings|
  {
    if firings == [] then 0
    else
      var d := Supervise(firings[0].socketOpen, firings[0].authError, attempts);
      (if d.Retry? then 1 else 0) + RetriesFrom(AttemptsAfter(attempts, d), firings[1..])
  }

  /** Between two resets of the counter (to 0 on `Connected`) there are at most 10 reconnects. */
  lemma {:induction false} RetriesBounded(attempts: nat, firings: seq<Firing>)
    ensures RetriesFrom(attempts, firings) + (if attempts < MaxReconnectAttempts then attempts else MaxReconnectAttempts)
              <= MaxReconnectAttempts
    decreases |firings|
  {
    if firings != [] {
      var d := Supervise(firings[0].socketOpen, firings[0].authError, attempts);
      RetriesBounded(AttemptsAfter(attempts, d), firings[1..]);
    }
  }

  /** Eleven unblocked close handlers after a reset: ten reconnects, then the give-up message. */
  lemma EleventhFailureGivesUp()
    ensures RetriesFrom(0, seq(11, _ => Firing(false, false))) == 10
    ensures Supervise(false, false, 10) == GiveUp(11)
  {
    var fs := seq(11, _ => Firing(false, false));
    assert forall k :: 0 <= k <= 11 ==> fs[k..] == seq(11 - k, _ => Firing(false, false));
    assert RetriesFrom(10, fs[10..]) == 0 by { assert fs[10..][1..] == []; }
    assert RetriesFrom(9, fs[9..]) == 1;
    assert RetriesFrom(8, fs[8..]) == 2;
    assert RetriesFrom(7, fs[7..]) == 3;
    assert RetriesFrom(6, fs[6..]) == 4;
    assert RetriesFrom(5, fs[5..]) == 5;
    assert RetriesFrom(4, fs[4..]) == 6;
    assert RetriesFrom(3, fs[3..]) == 7;
    assert RetriesFrom(2, fs[2..]) == 8;
    assert RetriesFrom(1, fs[1..]) == 9;
  }
}
