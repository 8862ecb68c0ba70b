/**
 * The client state machine of assets/serverSocket.js: one object whose fields
 * are the script's module globals, with a method per entry point (the socket
 * events, the interval tick, the delayed close handler and the senders).
 * Events arrive one at a time and each handler runs to completion; every
 * event is taken to come from the current socket.
 */
module ClientModel {
  import opened Wrappers
  import opened Protocol
  import opened Device
  import opened Text
  import opened Tick
  import opened Session

  /** `serverSocket`: null, or a socket that is connecting, open, or closing/closed. */
  datatype SocketState = NoSocket | Connecting | Open | Closed

  /** The socket after `connectToServer`'s first step: an open one is closed and dropped. */
  function Dropped(s: SocketState): (r: SocketState)
    ensures r != Open && (s != Open ==> r == s)
  {
    if s == Open then NoSocket else s
  }

  /** Only these commands have a handler that can throw; a throw abandons the rest of the batch. */
  predicate MayThrow(cmd: Inbound) {
    cmd.RoomInfo? || cmd.RoomUpdate?
  }

  class Client {
    /** The game's memory map (ROMNAME_START, WRAM_START, RECV_PROGRESS_ADDR, ...). */
    const layout: Layout

    // The session server connection.
    var socket: SocketState
    var socketUrl: string
    /** The `address` the current socket was opened for (captured by its handlers). */
    var socketAddress: string
    var password: Option<string>
    var authError: bool
    var lastServerAddress: Option<string>
    /** Everything sent to the server, in order. */
    var outbox: seq<Outbound>
    /** The console messages the client chose, in order. */
    var notices: seq<Notice>

    // What the server told the client.
    var itemsReceived: seq<NetworkItem>
    var scoutedLocations: map<int, JsScout>
    var checkedLocations: seq<int>
    var missingLocations: seq<int>
    var playerTeam: int
    var playerSlot: int

    // The reconnect supervisor.
    var reconnectAttempts: nat
    /** Reconnects the supervisor made since the last `Connected`. */
    ghost var supervisorReconnects: nat

    // The SNES device and the interval that polls it.
    var devicePresent: bool
    var deviceOnline: bool
    var mem: map<int, Byte>
    var intervalComplete: bool
    /** Intervals started by `Connected` and not cleared; only the latest one can be cleared. */
    var liveIntervals: nat
    var latestIntervalLive: bool
    var lastBounce: int
    var gameCompleted: bool
    var receiveItems: bool

    // localStorage and the tables built from the data package.
    var storage: Storage
    var itemsById: map<int, string>
    var locationMap: map<int, string>

    /**
     * The invariants the client keeps: no duplicate check-bound item in the
     * queue, the GOAL status sent exactly once iff the game is marked
     * completed, at most 10 supervisor reconnects since the last
     * `Connected`, and a latest interval that is live is counted.
     */
    ghost predicate Valid()
      reads this`itemsReceived, this`outbox, this`gameCompleted, this`supervisorReconnects,
            this`reconnectAttempts, this`latestIntervalLive, this`liveIntervals
    {
      && NoDuplicateChecks(itemsReceived)
      && GoalCount(outbox) == (if gameCompleted then 1 else 0)
      && supervisorReconnects <= reconnectAttempts
      && supervisorReconnects <= MaxReconnectAttempts
      && (latestIntervalLive ==> liveIntervals >= 1)
    }

    /** The script's initial globals, with a device found or not. */
    constructor(layout: Layout, mem: map<int, Byte>, deviceOnline: bool, devicePresent: bool,
                storage: Storage, receiveItems: bool)
      ensures Valid()
      ensures this.layout == layout && this.mem == mem && this.deviceOnline == deviceOnline
      ensures this.devicePresent == devicePresent && this.storage == storage && this.receiveItems == receiveItems
      ensures socket == NoSocket && password.None? && !authError && lastServerAddress.None?
      ensures outbox == [] && notices == [] && itemsReceived == [] && scoutedLocations == map[]
      ensures checkedLocations == [] && missingLocations == [] && reconnectAttempts == 0
      ensures intervalComplete && liveIntervals == 0 && !latestIntervalLive && lastBounce == 0 && !gameCompleted
    {
      this.layout := layout;
      socket := NoSocket;
      socketUrl := "";
      socketAddress := "";
      password := None;
      authError := false;
      lastServerAddress := None;
      outbox := [];
      notices := [];
      itemsReceived := [];
      scoutedLocations := map[];
      checkedLocations := [];
      missingLocations := [];
      playerTeam := 0;
      playerSlot := 0;
      reconnectAttempts := 0;
      supervisorReconnects := 0;
      this.devicePresent := devicePresent;
      this.deviceOnline := deviceOnline;
      this.mem := mem;
      intervalComplete := true;
      liveIntervals := 0;
      latestIntervalLive := false;
      lastBounce := 0;
      gameCompleted := false;
      this.receiveItems := receiveItems;
      this.storage := storage;
      itemsById := map[];
      locationMap := map[];
    }

    // ------------------------------------------------------------ senders

    /**
     * An unguarded `serverSocket.send`: an open socket sends, a closing or
     * closed one drops the data, and no socket or a connecting one throws.
     */
    method Send(cmd: Outbound) returns (ok: bool)
      requires Valid() && !cmd.StatusUpdate?
      modifies this`outbox
      ensures Valid()
      ensures ok <==> socket == Open || socket == Closed
      ensures outbox == if socket == Open then old(outbox) + [cmd] else old(outbox)
    {
      ok := socket == Open || socket == Closed;
      if socket == Open {
        GoalCountSnoc(outbox, cmd);
        outbox := outbox + [cmd];
      }
    }

    /** `sendMessageToServer`: a `Say` only while the socket is open. */
    method SendMessageToServer(text: string)
      requires Valid()
      modifies this`outbox
      ensures Valid()
      ensures socket == Open ==> outbox == old(outbox) + [Say(text)]
      ensures socket != Open ==> outbox == old(outbox)
    {
      if socket == Open {
        GoalCountSnoc(outbox, Say(text));
        outbox := outbox + [Say(text)];
      }
    }

    /** `serverSync`: a `Sync` only while the socket is open. */
    method ServerSync()
      requires Valid()
      modifies this`outbox
      ensures Valid()
      ensures socket == Open ==> outbox == old(outbox) + [Sync]
      ensures socket != Open ==> outbox == old(outbox)
    {
      if socket == Open {
        GoalCountSnoc(outbox, Sync);
        outbox := outbox + [Sync];
      }
    }

    /** `requestDataPackage`: a `GetDataPackage` only while the socket is open. */
    method RequestDataPackage()
      requires Valid()
      modifies this`outbox
      ensures Valid()
      ensures socket == Open ==> outbox == old(outbox) + [GetDataPackage]
      ensures socket != Open ==> outbox == old(outbox)
    {
      if socket != Open {
        return;
      }
      GoalCountSnoc(outbox, GetDataPackage);
      outbox := outbox + [GetDataPackage];
    }

    /**
     * `sendLocationChecks`: the ids are appended to `checkedLocations` first,
     * then sent with an unguarded send (so they are recorded even when the
     * send throws or is dropped).
     */
    method SendLocationChecks(ids: seq<int>) returns (ok: bool)
      requires Valid()
      modifies this`checkedLocations, this`outbox
      ensures Valid()
      ensures checkedLocations == old(checkedLocations) + ids
      ensures ok <==> socket == Open || socket == Closed
      ensures socket == Open ==> outbox == old(outbox) + [LocationChecks(ids)]
      ensures socket != Open ==> outbox == old(outbox)
    {
      for i := 0 to |ids|
        invariant checkedLocations == old(checkedLocations) + ids[..i]
        invariant outbox == old(outbox) && Valid()
      {
        assert ids[..i + 1] == ids[..i] + [ids[i]];
        checkedLocations := checkedLocations + [ids[i]];
      }
      assert ids[..|ids|] == ids;
      ok := Send(LocationChecks(ids));
    }

    // ------------------------------------------------------------ connection lifecycle

    /**
     * `connectToServer`: an open socket is closed and dropped, the auth-error
     * flag is cleared, and, when a device is present, the password is stored
     * and a socket to "ws://" plus the normalised address starts connecting.
     * The WebSocket constructor throws on a URL with no host, so then the call
     * fails with the old socket, URL and address kept.
     */
    method ConnectToServer(address: string, pwd: Option<string>) returns (ok: bool)
      modifies this`socket, this`socketUrl, this`socketAddress, this`password, this`authError
      ensures !authError
      ensures ok <==> !(devicePresent && HostMissing(address))
      ensures password == if devicePresent then pwd else old(password)
      ensures ok && devicePresent ==>
        socket == Connecting && socketAddress == address && socketUrl == "ws://" + NormalizeAddress(address)
      ensures !(ok && devicePresent) ==>
        socket == Dropped(old(socket)) && socketUrl == old(socketUrl) && socketAddress == old(socketAddress)
    {
      if socket == Open {
        socket := NoSocket;
      }
      authError := false;
      if !devicePresent {
        return true;
      }
      var serverAddress := NormalizeAddress(address);
      password := pwd;
      if serverAddress[0] == ':' {
        return false;
      }
      socket := Connecting;
      socketUrl := "ws://" + serverAddress;
      socketAddress := address;
      ok := true;
    }

    /**
     * The Enter key in the address field: an empty value first forgets the
     * last server and drops an open socket; then `connectToServer` runs with
     * no password, which for the empty value (host missing) fails once a
     * device is present.
     */
    method OnAddressEntered(value: string) returns (ok: bool)
      requires Valid()
      modifies this`socket, this`socketUrl, this`socketAddress, this`password, this`authError, this`lastServerAddress
      ensures Valid() && !authError
      ensures lastServerAddress == if value == "" && old(socket) == Open then None else old(lastServerAddress)
      ensures ok <==> !(devicePresent && HostMissing(value))
      ensures value == "" && devicePresent ==> !ok
      ensures password == if devicePresent then None else old(password)
      ensures ok && devicePresent ==>
        socket == Connecting && socketAddress == value && socketUrl == "ws://" + NormalizeAddress(value)
      ensures !(ok && devicePresent) ==>
        socket == Dropped(old(socket)) && socketUrl == old(socketUrl) && socketAddress == old(socketAddress)
    {
      if value == "" && socket == Open {
        lastServerAddress := None;
        socket := NoSocket;
      }
      ok := ConnectToServer(value, None);
      if value == "" {
        EmptyAddressHasNoHost(value);
      }
    }

    /**
     * The handler as its comment intends it: an empty value forgets the last
     * server, drops an open socket and stops there, making no attempt;
     * any other value goes on to `connectToServer` as before.
     */
    method OnAddressEnteredIntended(value: string) returns (ok: bool)
      requires Valid()
      modifies this`socket, this`socketUrl, this`socketAddress, this`password, this`authError, this`lastServerAddress
      ensures Valid()
      ensures lastServerAddress == if value == "" && old(socket) == Open then None else old(lastServerAddress)
      ensures value == "" ==> ok && socket == Dropped(old(socket)) && authError == old(authError)
      ensures value == "" ==>
        password == old(password) && socketUrl == old(socketUrl) && socketAddress == old(socketAddress)
      ensures value != "" ==> !authError && (ok <==> !(devicePresent && HostMissing(value)))
      ensures value != "" ==> password == if devicePresent then None else old(password)
      ensures value != "" && ok && devicePresent ==>
        socket == Connecting && socketAddress == value && socketUrl == "ws://" + NormalizeAddress(value)
      ensures value != "" && !(ok && devicePresent) ==>
        socket == Dropped(old(socket)) && socketUrl == old(socketUrl) && socketAddress == old(socketAddress)
    {
      if value == "" {
        if socket == Open {
          lastServerAddress := None;
          socket := NoSocket;
        }
        return true;
      }
      ok := ConnectToServer(value, None);
    }

    /** `onopen`: the socket is open and the received-item queue starts empty (no seed bleed). */
    method OnOpen()
      requires Valid() && socket == Connecting
      modifies this`socket, this`itemsReceived
      ensures Valid()
      ensures socket == Open && itemsReceived == []
    {
      itemsReceived := [];
      socket := Open;
    }

    /** `onerror`: an open socket reports the lost connection and is closed; otherwise nothing. */
    method OnError()
      modifies this`socket, this`notices
      ensures old(socket) == Open ==> socket == Closed && notices == old(notices) + [ConnectionLost]
      ensures old(socket) != Open ==> socket == old(socket) && notices == old(notices)
    {
      if socket == Open {
        notices := notices + [ConnectionLost];
        socket := Closed;
      }
    }

    /**
     * `onclose`: the socket is closed; the delayed reconnect is scheduled
     * only when the address field is not empty and a device is present.
     */
    method OnClose(addressField: string) returns (scheduled: bool)
      modifies this`socket
      ensures socket == (if old(socket) == NoSocket then NoSocket else Closed)
      ensures scheduled <==> addressField != "" && devicePresent
    {
      if socket != NoSocket {
        socket := Closed;
      }
      scheduled := addressField != "" && devicePresent;
    }

    /**
     * The delayed close handler, five seconds later: nothing while a socket
     * is open or after an auth error; otherwise the counter goes up and the
     * client reconnects to `address` with the stored password while the
     * counter is at most 10, and gives up with a message after that.
     */
    method ReconnectTimer(address: string) returns (d: Decision, ok: bool)
      requires Valid()
      modifies this`reconnectAttempts, this`supervisorReconnects, this`notices,
               this`socket, this`socketUrl, this`socketAddress, this`password, this`authError
      ensures Valid()
      ensures d == Supervise(old(socket) == Open, old(authError), old(reconnectAttempts))
      ensures ok <==> !(d.Retry? && devicePresent && HostMissing(address))
      ensures d.Skip? ==> unchanged(this)
      ensures d.GiveUp? ==> reconnectAttempts == d.attempts && notices == old(notices) + [GaveUp]
      ensures d.GiveUp? ==> supervisorReconnects == old(supervisorReconnects) && authError == old(authError)
      ensures d.GiveUp? ==> socket == old(socket) && socketUrl == old(socketUrl) &&
                            socketAddress == old(socketAddress) && password == old(password)
      ensures d.Retry? ==> reconnectAttempts == d.attempts && notices == old(notices) + [ReconnectAttempt(d.attempts, MaxReconnectAttempts)]
      ensures d.Retry? ==> supervisorReconnects == old(supervisorReconnects) + 1 && !authError && password == old(password)
      ensures d.Retry? && ok && devicePresent ==>
        socket == Connecting && socketAddress == address && socketUrl == "ws://" + NormalizeAddress(address)
      ensures d.Retry? && !(ok && devicePresent) ==>
        socket == old(socket) && socketUrl == old(socketUrl) && socketAddress == old(socketAddress)
    {
      d := Supervise(socket == Open, authError, reconnectAttempts);
      ok := true;
      if d.GiveUp? {
        reconnectAttempts := d.attempts;
        notices := notices + [GaveUp];
      } else if d.Retry? {
        ok := Reconnect(d.attempts, address);
      }
    }

    /**
     * Lines 397-404: one more attempt is counted and announced, then
     * `connectToServer` with the stored password (no socket is open here).
     */
    method Reconnect(attempts: nat, address: string) returns (ok: bool)
      requires Valid() && attempts <= MaxReconnectAttempts && supervisorReconnects < attempts
      modifies this`reconnectAttempts, this`supervisorReconnects, this`notices,
               this`socket, this`socketUrl, this`socketAddress, this`password, this`authError
      ensures Valid()
      ensures reconnectAttempts == attempts && supervisorReconnects == old(supervisorReconnects) + 1 && !authError
      ensures notices == old(notices) + [ReconnectAttempt(attempts, MaxReconnectAttempts)]
      ensures ok <==> !(devicePresent && HostMissing(address))
      ensures password == old(password)
      ensures ok && devicePresent ==>
        socket == Connecting && socketAddress == address && socketUrl == "ws://" + NormalizeAddress(address)
      ensures !(ok && devicePresent) ==>
        socket == Dropped(old(socket)) && socketUrl == old(socketUrl) && socketAddress == old(socketAddress)
    {
      CountAttempt(attempts);
      ok := ConnectToServer(address, password);
    }

    /** Lines 397-403: the counter takes the new value and the attempt is announced. */
    method CountAttempt(attempts: nat)
      requires Valid() && attempts <= MaxReconnectAttempts && supervisorReconnects < attempts
      modifies this`reconnectAttempts, this`supervisorReconnects, this`notices
      ensures Valid()
      ensures reconnectAttempts == attempts && supervisorReconnects == old(supervisorReconnects) + 1
      ensures notices == old(notices) + [ReconnectAttempt(attempts, MaxReconnectAttempts)]
    {
      reconnectAttempts := attempts;
      supervisorReconnects := supervisorReconnects + 1;
      notices := notices + [ReconnectAttempt(attempts, MaxReconnectAttempts)];
    }

    // ------------------------------------------------------------ data package and client id

    /**
     * `buildItemAndLocationData`: both tables are rebuilt from scratch by
     * inverting every game's name-to-id table, game by game and entry by
     * entry, so an id named twice keeps its last name.
     */
    method BuildItemAndLocationData(data: DataPackage)
      modifies this`itemsById, this`locationMap
      ensures itemsById == Invert(ItemPairs(data.games))
      ensures locationMap == Invert(LocationPairs(data.games))
    {
      itemsById := map[];
      var locations: map<int, string> := map[];
      for g := 0 to |data.games|
        invariant itemsById == Invert(ItemPairs(data.games[..g]))
        invariant locations == Invert(LocationPairs(data.games[..g]))
      {
        assert data.games[..g + 1][..g] == data.games[..g];
        itemsById := AddPairs(itemsById, ItemPairs(data.games[..g]), data.games[g].itemNameToId);
        locations := AddPairs(locations, LocationPairs(data.games[..g]), data.games[g].locationNameToId);
      }
      assert data.games[..|data.games|] == data.games;
      locationMap := locations;
    }

    /** One `forEach` over a name-to-id table: `table[id] = name` for each entry in order. */
    static method AddPairs(table: map<int, string>, ghost before: seq<(string, int)>, pairs: seq<(string, int)>)
      returns (r: map<int, string>)
      requires table == Invert(before)
      ensures r == Invert(before + pairs)
    {
      r := table;
      assert before + pairs[..0] == before;
      for k := 0 to |pairs|
        invariant r == Invert(before + pairs[..k])
      {
        var (name, id) := pairs[k];
        assert (before + pairs[..k + 1])[..|before| + k] == before + pairs[..k];
        r := r[id := name];
      }
      assert pairs[..|pairs|] == pairs;
    }

    /** `getClientId`: the stored id, or the drawn one, which is stored for next time. */
    method GetClientId(drawn: string) returns (id: string)
      requires drawn != ""
      modifies this`storage
      ensures id == ResolveClientId(old(storage).clientId, drawn)
      ensures storage == old(storage).(clientId := Some(id))
    {
      var stored := storage.clientId;
      if stored.None? || stored.value == "" {
        id := drawn;
        storage := storage.(clientId := Some(id));
      } else {
        id := stored.value;
      }
    }

    // ------------------------------------------------------------ inbound commands

    /**
     * The ROM name as `Connect` carries it: the name bytes read from the
     * device, decoded and accepted by `btoa`; None when either step fails.
     */
    function RomName(): (r: Option<seq<Byte>>)
      reads this`deviceOnline, this`mem
      ensures r.Some? ==> ReadRange(deviceOnline, mem, layout.romNameStart, layout.romNameSize).Some?
    {
      var rom := ReadRange(deviceOnline, mem, layout.romNameStart, layout.romNameSize);
      if rom.Some? then RomNameText(rom.value) else None
    }

    /** Whether the handler of `cmd` throws in the current state. */
    predicate Throws(cmd: Inbound)
      reads this`deviceOnline, this`mem, this`socket
    {
      match cmd
      case RoomInfo(forfeitMode, remainingMode, _) =>
        || Capitalize(forfeitMode).None? || Capitalize(remainingMode).None?
        || RomName().None?
        || socket == NoSocket || socket == Connecting
      case RoomUpdate(forfeitMode, remainingMode) =>
        (forfeitMode.Some? && Capitalize(forfeitMode.value).None?)
        || (remainingMode.Some? && Capitalize(remainingMode.value).None?)
      case _ => false
    }

    /**
     * `RoomInfo`: both modes are capitalised (an empty one throws before
     * anything changes); the data package is requested, since the cache test
     * as written never finds the cache fresh; then the ROM name is read and
     * decoded (a failed read, or a name `btoa` rejects, throws) and `Connect`
     * is sent with an unguarded send carrying the client id and the stored
     * password.
     */
    method OnRoomInfo(forfeitMode: string, remainingMode: string, version: int, drawn: string) returns (ok: bool)
      requires Valid() && drawn != ""
      modifies this`outbox, this`storage
      ensures Valid()
      ensures ok <==> !Throws(RoomInfo(forfeitMode, remainingMode, version))
      ensures Capitalize(forfeitMode).None? || Capitalize(remainingMode).None? ==>
        outbox == old(outbox) && storage == old(storage)
      ensures Capitalize(forfeitMode).Some? && Capitalize(remainingMode).Some? ==>
        var name := RomName();
        var id := ResolveClientId(old(storage).clientId, drawn);
        && (name.None? ==> storage == old(storage))
        && (name.Some? ==> storage == old(storage).(clientId := Some(id)))
        && outbox == old(outbox)
             + (if socket == Open then [GetDataPackage] else [])
             + (if name.Some? && socket == Open
                then [Connect(GameName, name.value, id, ClientTags, password, ArchipelagoProtocolVersion)]
                else [])
    {
      var forfeit := Capitalize(forfeitMode);
      if forfeit.None? {
        return false;
      }
      var remaining := Capitalize(remainingMode);
      if remaining.None? {
        return false;
      }
      LoadDataPackage(version);
      ok := Authenticate(drawn);
    }

    /**
     * Lines 92-98 of `RoomInfo`: the data package is requested when the test
     * of line 92 holds and loaded from the cache otherwise. As written the
     * test always holds (`CacheStaleAsWritten`), so the cached package is
     * never loaded and the tables stay as they are.
     */
    method LoadDataPackage(version: int)
      requires Valid()
      modifies this`outbox
      ensures Valid()
      ensures outbox == (if socket == Open then old(outbox) + [GetDataPackage] else old(outbox))
    {
      if CacheStaleAsWritten(storage, version) {
        RequestDataPackage();
      } else {
        // buildItemAndLocationData from the cached package: unreachable as written
        assert false;
      }
    }

    /**
     * Lines 101-111 of `RoomInfo`: read the ROM name (a failed read throws),
     * decode it as UTF-8 and hand it to `btoa` (a character above 255
     * throws, before the client id is looked up), and send `Connect` with an
     * unguarded send.
     */
    method Authenticate(drawn: string) returns (ok: bool)
      requires Valid() && drawn != ""
      modifies this`outbox, this`storage
      ensures Valid()
      ensures var name := RomName();
        && (ok <==> name.Some? && (socket == Open || socket == Closed))
        && (name.None? ==> outbox == old(outbox) && storage == old(storage))
        && (name.Some? ==>
              var id := ResolveClientId(old(storage).clientId, drawn);
              var connect := Connect(GameName, name.value, id, ClientTags, password, ArchipelagoProtocolVersion);
              && storage == old(storage).(clientId := Some(id))
              && outbox == (if socket == Open then old(outbox) + [connect] else old(outbox)))
    {
      var rom := ReadRange(deviceOnline, mem, layout.romNameStart, layout.romNameSize);
      if rom.None? {
        return false;
      }
      var name := RomNameText(rom.value);
      if name.None? {
        return false;
      }
      var id := GetClientId(drawn);
      var connect := Connect(GameName, name.value, id, ClientTags, password, ArchipelagoProtocolVersion);
      ok := Send(connect);
    }

    /**
     * `Connected`: the server this socket was opened for becomes the last
     * server, the reconnect counter is reset, the checked and missing
     * locations are replaced, the received-item queue is emptied whatever
     * its length, and a new polling interval starts (earlier ones are not
     * cleared).
     */
    method OnConnected(team: int, slot: int, checked: seq<int>, missing: seq<int>)
      requires Valid()
      modifies this`lastServerAddress, this`reconnectAttempts, this`supervisorReconnects, this`checkedLocations,
               this`missingLocations, this`itemsReceived, this`playerTeam, this`playerSlot,
               this`liveIntervals, this`latestIntervalLive
      ensures Valid()
      ensures lastServerAddress == Some(socketAddress)
      ensures reconnectAttempts == 0 && supervisorReconnects == 0
      ensures checkedLocations == checked && missingLocations == missing && itemsReceived == []
      ensures playerTeam == team && playerSlot == slot
      ensures liveIntervals == old(liveIntervals) + 1 && latestIntervalLive
    {
      ResetReconnects();
      LoadSlot(team, slot, checked, missing);
      liveIntervals := liveIntervals + 1;
      latestIntervalLive := true;
    }

    /** Lines 115-119: the server this socket was opened for is remembered and the reconnect counter starts over. */
    method ResetReconnects()
      requires Valid()
      modifies this`lastServerAddress, this`reconnectAttempts, this`supervisorReconnects
      ensures Valid()
      ensures lastServerAddress == Some(socketAddress)
      ensures reconnectAttempts == 0 && supervisorReconnects == 0
    {
      lastServerAddress := Some(socketAddress);
      reconnectAttempts := 0;
      supervisorReconnects := 0;
    }

    /** Lines 121-143: the slot's checked and missing locations, an empty item queue, and the own team and slot. */
    method LoadSlot(team: int, slot: int, checked: seq<int>, missing: seq<int>)
      requires Valid()
      modifies this`checkedLocations, this`missingLocations, this`itemsReceived, this`playerTeam, this`playerSlot
      ensures Valid()
      ensures checkedLocations == checked && missingLocations == missing && itemsReceived == []
      ensures playerTeam == team && playerSlot == slot
    {
      checkedLocations := checked;
      missingLocations := missing;
      itemsReceived := [];
      playerTeam := team;
      playerSlot := slot;
    }

    /**
     * `ConnectionRefused`: only while the socket is open, the message is
     * chosen, the auth-error flag is set (blocking reconnects) and the
     * socket is closed.
     */
    method OnConnectionRefused(errors: seq<string>)
      modifies this`notices, this`authError, this`socket
      ensures old(socket) == Open ==>
        notices == old(notices) + [RefusalNotice(errors, password)] && authError && socket == Closed
      ensures old(socket) != Open ==>
        notices == old(notices) && authError == old(authError) && socket == old(socket)
    {
      if socket == Open {
        notices := notices + [RefusalNotice(errors, password)];
        authError := true;
        socket := Closed;
      }
    }

    /** `ReceivedItems`: each entry is merged in turn into the queue (`MergeItems`). */
    method OnReceivedItems(items: seq<NetworkItem>)
      requires Valid()
      modifies this`itemsReceived
      ensures Valid()
      ensures itemsReceived == MergeItems(old(itemsReceived), items)
    {
      for i := 0 to |items|
        invariant itemsReceived == MergeItems(old(itemsReceived), items[..i])
      {
        assert items[..i + 1][..i] == items[..i];
        var item := items[i];
        if item.location <= 0 {
          itemsReceived := itemsReceived + [item];
        } else if item !in itemsReceived {
          itemsReceived := itemsReceived + [item];
        }
      }
      assert items[..|items|] == items;
      MergeKeepsNoDuplicates(old(itemsReceived), items);
    }

    /**
     * `LocationInfo`: each entry is stored under its location unless that key
     * is already present (`ScoutAll`), as the object of lines 306-309, whose
     * item and player read properties the entry does not have.
     */
    method OnLocationInfo(locations: seq<NetworkItem>)
      modifies this`scoutedLocations
      ensures scoutedLocations == ScoutAll(old(scoutedLocations), locations, ScoutEntryAsWritten)
    {
      for i := 0 to |locations|
        invariant scoutedLocations == ScoutAll(old(scoutedLocations), locations[..i], ScoutEntryAsWritten)
      {
        assert locations[..i + 1][..i] == locations[..i];
        var entry := locations[i];
        if entry.location !in scoutedLocations {
          scoutedLocations := scoutedLocations[entry.location := ScoutEntryAsWritten(entry)];
        }
      }
      assert locations[..|locations|] == locations;
    }

    /** `DataPackage`: saved unless its version is 0, and the tables are always rebuilt from it. */
    method OnDataPackage(data: DataPackage)
      modifies this`storage, this`itemsById, this`locationMap
      ensures storage == PersistDataPackage(old(storage), data)
      ensures itemsById == Invert(ItemPairs(data.games))
      ensures locationMap == Invert(LocationPairs(data.games))
    {
      if data.version != 0 {
        storage := storage.(dataPackageVersion := Some(IntToString(data.version)), dataPackage := Some(data));
      }
      BuildItemAndLocationData(data);
    }

    /**
     * One command of a batch; `ok` is false when its handler threw. Each
     * command has the effect of its handler. `Print`, `PrintJSON`, `Bounced`,
     * unknown commands and a `RoomUpdate` that does not throw change nothing
     * but the display.
     */
    method HandleCommand(cmd: Inbound, drawn: string) returns (ok: bool)
      requires Valid() && drawn != ""
      modifies this
      ensures Valid()
      ensures ok <==> !old(Throws(cmd))
      ensures !ok ==> MayThrow(cmd)
      ensures cmd.Bounced? || cmd.Unknown? || cmd.Print? || cmd.PrintJSON? || cmd.RoomUpdate? ==> unchanged(this)
      ensures cmd.RoomInfo? && (Capitalize(cmd.forfeitMode).None? || Capitalize(cmd.remainingMode).None?) ==>
        unchanged(this)
      ensures cmd.RoomInfo? && Capitalize(cmd.forfeitMode).Some? && Capitalize(cmd.remainingMode).Some? ==>
        var name := old(RomName());
        var id := ResolveClientId(old(storage).clientId, drawn);
        && storage == (if name.Some? then old(storage).(clientId := Some(id)) else old(storage))
        && outbox == old(outbox)
             + (if old(socket) == Open then [GetDataPackage] else [])
             + (if name.Some? && old(socket) == Open
                then [Connect(GameName, name.value, id, ClientTags, old(password), ArchipelagoProtocolVersion)]
                else [])
      ensures cmd.Connected? ==>
        && lastServerAddress == Some(old(socketAddress)) && reconnectAttempts == 0
        && checkedLocations == cmd.checkedLocations && missingLocations == cmd.missingLocations
        && itemsReceived == [] && playerTeam == cmd.team && playerSlot == cmd.slot
        && liveIntervals == old(liveIntervals) + 1 && latestIntervalLive
      ensures cmd.ConnectionRefused? && old(socket) == Open ==>
        notices == old(notices) + [RefusalNotice(cmd.errors, old(password))] && authError && socket == Closed
      ensures cmd.ConnectionRefused? && old(socket) != Open ==> unchanged(this)
      ensures cmd.ReceivedItems? ==> itemsReceived == MergeItems(old(itemsReceived), cmd.items)
      ensures cmd.LocationInfo? ==>
        scoutedLocations == ScoutAll(old(scoutedLocations), cmd.locations, ScoutEntryAsWritten)
      ensures cmd.DataPackageCmd? ==>
        && storage == PersistDataPackage(old(storage), cmd.data)
        && itemsById == Invert(ItemPairs(cmd.data.games))
        && locationMap == Invert(LocationPairs(cmd.data.games))
    {
      if cmd.RoomInfo? || cmd.RoomUpdate? {
        ok := HandleRoomCommand(cmd, drawn);
      } else {
        HandleSessionCommand(cmd);
        ok := true;
      }
    }

    /** The two room commands, whose handlers can throw. */
    method HandleRoomCommand(cmd: Inbound, drawn: string) returns (ok: bool)
      requires Valid() && drawn != "" && (cmd.RoomInfo? || cmd.RoomUpdate?)
      modifies this`outbox, this`storage
      ensures Valid()
      ensures ok <==> !old(Throws(cmd))
      ensures cmd.RoomUpdate? ==> unchanged(this)
      ensures cmd.RoomInfo? && (Capitalize(cmd.forfeitMode).None? || Capitalize(cmd.remainingMode).None?) ==>
        unchanged(this)
      ensures cmd.RoomInfo? && Capitalize(cmd.forfeitMode).Some? && Capitalize(cmd.remainingMode).Some? ==>
        var name := old(RomName());
        var id := ResolveClientId(old(storage).clientId, drawn);
        && storage == (if name.Some? then old(storage).(clientId := Some(id)) else old(storage))
        && outbox == old(outbox)
             + (if old(socket) == Open then [GetDataPackage] else [])
             + (if name.Some? && old(socket) == Open
                then [Connect(GameName, name.value, id, ClientTags, old(password), ArchipelagoProtocolVersion)]
                else [])
    {
      if cmd.RoomInfo? {
        ok := OnRoomInfo(cmd.forfeitMode, cmd.remainingMode, cmd.datapackageVersion, drawn);
      } else {
        ok := !Throws(cmd);
      }
    }

    /** The commands whose handlers cannot throw. */
    method HandleSessionCommand(cmd: Inbound)
      requires Valid() && !cmd.RoomInfo? && !cmd.RoomUpdate?
      modifies this
      ensures Valid()
      ensures cmd.Bounced? || cmd.Unknown? || cmd.Print? || cmd.PrintJSON? ==> unchanged(this)
      ensures cmd.Connected? ==>
        && lastServerAddress == Some(old(socketAddress)) && reconnectAttempts == 0
        && checkedLocations == cmd.checkedLocations && missingLocations == cmd.missingLocations
        && itemsReceived == [] && playerTeam == cmd.team && playerSlot == cmd.slot
        && liveIntervals == old(liveIntervals) + 1 && latestIntervalLive
      ensures cmd.ConnectionRefused? && old(socket) == Open ==>
        notices == old(notices) + [RefusalNotice(cmd.errors, old(password))] && authError && socket == Closed
      ensures cmd.ConnectionRefused? && old(socket) != Open ==> unchanged(this)
      ensures cmd.ReceivedItems? ==> itemsReceived == MergeItems(old(itemsReceived), cmd.items)
      ensures cmd.LocationInfo? ==>
        scoutedLocations == ScoutAll(old(scoutedLocations), cmd.locations, ScoutEntryAsWritten)
      ensures cmd.DataPackageCmd? ==>
        && storage == PersistDataPackage(old(storage), cmd.data)
        && itemsById == Invert(ItemPairs(cmd.data.games))
        && locationMap == Invert(LocationPairs(cmd.data.games))
    {
      match cmd
      case Connected(team, slot, checked, missing) =>
        OnConnected(team, slot, checked, missing);
      case ConnectionRefused(errors) =>
        OnConnectionRefused(errors);
      case ReceivedItems(items) =>
        OnReceivedItems(items);
      case LocationInfo(locations) =>
        OnLocationInfo(locations);
      case DataPackageCmd(data) =>
        OnDataPackage(data);
      case _ =>
    }

    /**
     * `onmessage`: the commands of one message in order; the first handler
     * that throws ends the batch, and `handled` counts the commands before it.
     */
    method HandleBatch(cmds: seq<Inbound>, drawn: string) returns (handled: nat)
      requires Valid() && drawn != ""
      modifies this
      ensures Valid()
      ensures handled <= |cmds|
      ensures handled < |cmds| ==> MayThrow(cmds[handled])
    {
      handled := 0;
      while handled < |cmds|
        invariant Valid() && handled <= |cmds|
      {
        var ok := HandleCommand(cmds[handled], drawn);
        if !ok {
          return;
        }
        handled := handled + 1;
      }
    }

    // ------------------------------------------------------------ the interval tick

    /** What a tick reads of the client and the device. */
    function TickView(): TickState
      reads this`mem, this`deviceOnline, this`socket, this`lastBounce, this`gameCompleted, this`receiveItems,
            this`playerSlot, this`checkedLocations
    {
      TickState(mem, deviceOnline, socket == Open, lastBounce, gameCompleted, receiveItems, playerSlot, checkedLocations)
    }

    /**
     * The catch block of the tick: the message is shown, the latest interval
     * is cleared, an open socket is closed and the device is dropped.
     */
    method DeviceFailure()
      requires Valid()
      modifies this`notices, this`latestIntervalLive, this`liveIntervals, this`intervalComplete,
               this`socket, this`devicePresent
      ensures Valid()
      ensures notices == old(notices) + [DeviceProblem]
      ensures !latestIntervalLive && liveIntervals == (if old(latestIntervalLive) then old(liveIntervals) - 1 else old(liveIntervals))
      ensures intervalComplete && !devicePresent
      ensures socket == (if old(socket) == Open then Closed else old(socket))
    {
      notices := notices + [DeviceProblem];
      if latestIntervalLive {
        liveIntervals := liveIntervals - 1;
        latestIntervalLive := false;
      }
      intervalComplete := true;
      if socket == Open {
        socket := Closed;
      }
      devicePresent := false;
    }

    /**
     * One run of the interval callback at time `now`. A run that finds the
     * previous one unfinished does nothing; otherwise it does what `RunTick`
     * says and finishes with `intervalComplete` set, after running the catch
     * block when the device failed.
     */
    method Tick(now: int) returns (outcome: TickOutcome)
      requires Valid() && liveIntervals > 0
      modifies this`intervalComplete, this`outbox, this`lastBounce, this`gameCompleted, this`mem,
               this`notices, this`latestIntervalLive, this`liveIntervals, this`socket, this`devicePresent
      ensures Valid()
      ensures !old(intervalComplete) ==> outcome == Skipped && unchanged(this)
      ensures old(intervalComplete) ==>
        var r := RunTick(layout, AsWritten, old(TickView()), now);
        && outcome == r.outcome
        && outbox == old(outbox) + r.sent
        && lastBounce == r.lastBounce && gameCompleted == r.gameCompleted && mem == r.mem
        && intervalComplete
      ensures old(intervalComplete) && outcome == DeviceFailed ==>
        && notices == old(notices) + [DeviceProblem] && !devicePresent && !latestIntervalLive
        && liveIntervals == (if old(latestIntervalLive) then old(liveIntervals) - 1 else old(liveIntervals))
        && socket == (if old(socket) == Open then Closed else old(socket))
      ensures outcome != DeviceFailed ==>
        && notices == old(notices) && devicePresent == old(devicePresent) && socket == old(socket)
        && latestIntervalLive == old(latestIntervalLive) && liveIntervals == old(liveIntervals)
    {
      if !intervalComplete {
        return Skipped;
      }
      outcome := RunInterval(TickView(), now);
      assert notices == old(notices) && devicePresent == old(devicePresent) && socket == old(socket)
        && latestIntervalLive == old(latestIntervalLive) && liveIntervals == old(liveIntervals);
      FinishTick(outcome == DeviceFailed);
    }

    /**
     * Lines 153-245: the body of the callback once it has claimed the
     * interval, up to the point where it either completes or throws.
     */
    method RunInterval(ghost s: TickState, now: int) returns (outcome: TickOutcome)
      requires Valid() && TickView() == s
      modifies this`intervalComplete, this`outbox, this`lastBounce, this`gameCompleted, this`mem
      ensures Valid()
      ensures var r := RunTick(layout, AsWritten, s, now);
        && outcome == r.outcome
        && outbox == old(outbox) + r.sent
        && lastBounce == r.lastBounce && gameCompleted == r.gameCompleted && mem == r.mem
      ensures !intervalComplete
    {
      intervalComplete := false;
      KeepAlive(s, now);
      outcome := CheckModeStep(s, old(outbox), BounceMessages(s, now));
    }

    /** The end of the callback: the catch block after a device failure, `snesIntervalComplete = true` otherwise. */
    method FinishTick(failed: bool)
      requires Valid()
      modifies this`notices, this`latestIntervalLive, this`liveIntervals, this`intervalComplete,
               this`socket, this`devicePresent
      ensures Valid() && intervalComplete
      ensures failed ==>
        && notices == old(notices) + [DeviceProblem] && !devicePresent && !latestIntervalLive
        && liveIntervals == (if old(latestIntervalLive) then old(liveIntervals) - 1 else old(liveIntervals))
        && socket == (if old(socket) == Open then Closed else old(socket))
      ensures !failed ==>
        && notices == old(notices) && devicePresent == old(devicePresent) && socket == old(socket)
        && latestIntervalLive == old(latestIntervalLive) && liveIntervals == old(liveIntervals)
    {
      if failed {
        DeviceFailure();
      } else {
        intervalComplete := true;
      }
    }

    /** Lines 158-168: a Bounce carrying the own slot once every five minutes while the socket is open. */
    method KeepAlive(ghost s: TickState, now: int)
      requires Valid() && TickView() == s
      modifies this`outbox, this`lastBounce
      ensures Valid() && TickView() == s.(lastBounce := lastBounce)
      ensures outbox == old(outbox) + BounceMessages(s, now)
      ensures lastBounce == if BounceDue(s, now) then now else s.lastBounce
    {
      if now > lastBounce + BounceIntervalMs && socket == Open {
        lastBounce := now;
        GoalCountSnoc(outbox, Bounce([playerSlot], now));
        outbox := outbox + [Bounce([playerSlot], now)];
      }
    }

    /**
     * Lines 170-245, after the keep-alive: read the game mode, report the goal
     * in an endgame mode, otherwise `ScanAndReportStep`. A failed read ends
     * the step with `DeviceFailed`, and the caller runs the catch block.
     */
    method CheckModeStep(ghost s: TickState, ghost before: seq<Outbound>, ghost sent: seq<Outbound>)
      returns (outcome: TickOutcome)
      requires Valid() && TickView() == s.(lastBounce := lastBounce)
      requires outbox == before + sent
      modifies this`outbox, this`gameCompleted, this`mem
      ensures Valid()
      ensures var r := CheckMode(layout, AsWritten, s, sent, lastBounce);
        outcome == r.outcome && outbox == before + r.sent && gameCompleted == r.gameCompleted && mem == r.mem
    {
      var mode := ReadRange(deviceOnline, mem, GameModeAddr(layout), 1);
      if mode.None? {
        outcome := DeviceFailed;
      } else if IsEndgame(layout, mode.value[0]) {
        ReportGoal();
        outcome := Ended;
      } else {
        outcome := ScanAndReportStep(s, before, sent);
      }
    }

    /** Lines 178-187: in an endgame mode the goal status goes out once, and only over an open socket. */
    method ReportGoal()
      requires Valid()
      modifies this`outbox, this`gameCompleted
      ensures Valid()
      ensures var goal := !old(gameCompleted) && socket == Open;
        && outbox == old(outbox) + (if goal then [StatusUpdate(ClientGoal)] else [])
        && gameCompleted == (old(gameCompleted) || goal)
    {
      if !gameCompleted && socket == Open {
        GoalCountSnoc(outbox, StatusUpdate(ClientGoal));
        outbox := outbox + [StatusUpdate(ClientGoal)];
        gameCompleted := true;
      }
    }

    /**
     * Steps 3 to 5 of a tick (lines 194-245): read the cursor and the length,
     * scan the records, then `ReportBatchStep`; `sent` is what this tick sent
     * before.
     */
    method ScanAndReportStep(ghost s: TickState, ghost before: seq<Outbound>, ghost sent: seq<Outbound>)
      returns (outcome: TickOutcome)
      requires Valid()
      requires s.mem == mem && s.online == deviceOnline && s.socketOpen == (socket == Open)
      requires s.gameCompleted == gameCompleted && s.receiveItems == receiveItems
      requires s.checkedLocations == checkedLocations
      requires outbox == before + sent
      modifies this`outbox, this`mem
      ensures Valid()
      ensures var r := ScanAndReport(layout, AsWritten, s, sent, lastBounce);
        outcome == r.outcome && outbox == before + r.sent && mem == r.mem
    {
      var header := ReadRange(deviceOnline, mem, CursorAddr(layout), 4);
      if header.None? {
        return DeviceFailed;
      }
      var cursor := LE16(header.value[0], header.value[1]);
      var length := LE16(header.value[2], header.value[3]);
      var checks := ReadChecks(cursor, length);
      if checks.None? {
        return DeviceFailed;
      }
      assert ScanAndReport(layout, AsWritten, s, sent, lastBounce) == ReportBatch(layout, AsWritten, s, sent, lastBounce, cursor, length, checks.value);
      outcome := ReportBatchStep(s, before, sent, cursor, length, checks.value);
    }

    /**
     * Lines 216-245 once the records are scanned: a non-empty batch is
     * reported and `checkedLocations - 1` is written to the cursor bytes
     * (`CursorWrittenAsWritten`); then the received-item counter is
     * read when items are accepted (delivering the items is not written yet).
     */
    method ReportBatchStep(ghost s: TickState, ghost before: seq<Outbound>, ghost sent: seq<Outbound>,
                           cursor: nat, length: nat, batch: seq<int>)
      returns (outcome: TickOutcome)
      requires Valid() && cursor + |batch| < 0x1_0000
      requires s.mem == mem && s.online == deviceOnline && s.socketOpen == (socket == Open)
      requires s.receiveItems == receiveItems && s.checkedLocations == checkedLocations
      requires outbox == before + sent
      modifies this`outbox, this`mem
      ensures Valid()
      ensures var r := ReportBatch(layout, AsWritten, s, sent, lastBounce, cursor, length, batch);
        outcome == r.outcome && outbox == before + r.sent && mem == r.mem
    {
      var ok := true;
      if |batch| > 0 {
        ghost var sent' := sent + (if socket == Open then [LocationChecks(batch)] else []);
        var v := CursorWrittenAsWritten(checkedLocations);
        assert v == NewCursor(AsWritten, s, cursor, batch);
        ok := ReportAndWriteCursor(batch, v);
        if socket == Open {
          assert before + sent' == before + sent + [LocationChecks(batch)];
        }
      }
      if ok && receiveItems {
        var counter := ReadRange(deviceOnline, mem, ReceivedCountAddr(layout), 4);
        ok := counter.Some?;
      }
      outcome := if ok then Scanned(cursor, length, batch) else DeviceFailed;
    }

    /**
     * Lines 216-230 for a non-empty batch: the batch goes out only while the
     * socket is open, and the cursor bytes are written either way.
     */
    method ReportAndWriteCursor(batch: seq<int>, v: nat) returns (ok: bool)
      requires Valid() && v < 0x1_0000
      modifies this`outbox, this`mem
      ensures Valid()
      ensures socket == Open ==> outbox == old(outbox) + [LocationChecks(batch)]
      ensures socket != Open ==> outbox == old(outbox)
      ensures ok <==> Write16(deviceOnline, old(mem), CursorAddr(layout), v).Some?
      ensures mem == if ok then Write16(deviceOnline, old(mem), CursorAddr(layout), v).value else old(mem)
    {
      ReportLocationChecks(batch);
      ok := WriteCursor(v);
    }

    /** Line 217-222: the batch goes out as LocationChecks only while the socket is open. */
    method ReportLocationChecks(batch: seq<int>)
      requires Valid()
      modifies this`outbox
      ensures Valid()
      ensures socket == Open ==> outbox == old(outbox) + [LocationChecks(batch)]
      ensures socket != Open ==> outbox == old(outbox)
    {
      if socket == Open {
        GoalCountSnoc(outbox, LocationChecks(batch));
        outbox := outbox + [LocationChecks(batch)];
      }
    }

    /** Lines 225-230: the new cursor goes back to the device as two little-endian bytes. */
    method WriteCursor(v: nat) returns (ok: bool)
      requires Valid() && v < 0x1_0000
      modifies this`mem
      ensures Valid()
      ensures ok <==> Write16(deviceOnline, old(mem), CursorAddr(layout), v).Some?
      ensures mem == if ok then Write16(deviceOnline, old(mem), CursorAddr(layout), v).value else old(mem)
    {
      var written := Write16(deviceOnline, mem, CursorAddr(layout), v);
      ok := written.Some?;
      if ok {
        mem := written.value;
      }
    }

    /**
     * The record loop (lines 203-213): the location id of each record from
     * `cursor` up to `length`, in order, or `None` when a read fails.
     */
    method ReadChecks(cursor: nat, length: nat) returns (checks: Option<seq<int>>)
      ensures checks == ScanRecords(layout, deviceOnline, mem, cursor, length)
    {
      var batch: seq<int> := [];
      var index := cursor;
      while index < length
        invariant cursor <= index && (cursor < length ==> index <= length) && (length <= cursor ==> index == cursor)
        invariant ScanRecords(layout, deviceOnline, mem, cursor, index) == Some(batch)
      {
        var itemData := ReadRange(deviceOnline, mem, RecordAddr(layout, index), 8);
        if itemData.None? {
          ScanFailsAt(layout, deviceOnline, mem, cursor, index, length);
          return None;
        }
        var itemIndex := ItemIndex(itemData.value[4], itemData.value[5]);
        ScanExtends(layout, deviceOnline, mem, cursor, index);
        batch := batch + [layout.locationsStartId + itemIndex];
        index := index + 1;
      }
      return Some(batch);
    }
  }
}
