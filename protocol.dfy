/**
 * The Archipelago session protocol as the client sees it: the entries of
 * `ReceivedItems`/`LocationInfo`, the inbound commands it dispatches on `cmd`,
 * the outbound commands it sends, and the client's constants.
 */
module Protocol {
  import opened Wrappers
  import opened Device

  /** A `{item, location, player}` entry (a NetworkItem on the wire). */
  datatype NetworkItem = NetworkItem(item: int, location: int, player: int)

  /** One game's `item_name_to_id` and `location_name_to_id` tables, in key order. */
  datatype GameTables = GameTables(
    game: string,
    itemNameToId: seq<(string, int)>,
    locationNameToId: seq<(string, int)>)

  /** The `data` of a `DataPackage` command; version 0 marks a custom package. */
  datatype DataPackage = DataPackage(version: int, games: seq<GameTables>)

  /**
   * Inbound commands. Fields that only feed the sidebar (server version,
   * points, hint cost, player list) are not carried.
   */
  datatype Inbound =
    | RoomInfo(forfeitMode: string, remainingMode: string, datapackageVersion: int)
    | Connected(team: int, slot: int, checkedLocations: seq<int>, missingLocations: seq<int>)
    | ConnectionRefused(errors: seq<string>)
    | ReceivedItems(items: seq<NetworkItem>)
    | LocationInfo(locations: seq<NetworkItem>)
    | RoomUpdate(newForfeitMode: Option<string>, newRemainingMode: Option<string>)
    | Print(text: string)
    | PrintJSON
    | DataPackageCmd(data: DataPackage)
    | Bounced
    | Unknown(cmd: string)

  datatype ProtocolVersion = ProtocolVersion(major: nat, minor: nat, build: nat)

  /**
   * Outbound commands; `Connect.name` carries the Latin-1 code points that
   * `btoa` encodes, as decoded from the ROM name (base64 is serialisation).
   */
  datatype Outbound =
    | Connect(game: string, name: seq<Byte>, uuid: string, tags: seq<string>,
              password: Option<string>, version: ProtocolVersion)
    | LocationChecks(locations: seq<int>)
    | StatusUpdate(status: int)
    | Bounce(slots: seq<int>, data: int)
    | Sync
    | GetDataPackage
    | Say(text: string)

  /** Which console message the client chose (the wording itself is UI). */
  datatype Notice =
    | PasswordRequired
    | PasswordRejected
    | ConnectError(errors: seq<string>)
    | ReconnectAttempt(attempt: nat, max: nat)
    | GaveUp
    | ConnectionLost
    | DeviceProblem

  const MaxReconnectAttempts: nat := 10
  const ClientGoal: int := 30
  const BounceIntervalMs: int := 300000
  const DefaultServerPort: string := "38281"
  const ArchipelagoProtocolVersion: ProtocolVersion := ProtocolVersion(0, 1, 9)
  const GameName: string := "Super Metroid"
  const ClientTags: seq<string> := ["Super Metroid Client"]

  /** Number of `StatusUpdate` commands in a sequence of sent commands. */
  function GoalCount(sent: seq<Outbound>): (n: nat)
    ensures n <= |sent|
  {
    if sent == [] then 0
    else GoalCount(sent[..|sent| - 1]) + (if sent[|sent| - 1].StatusUpdate? then 1 else 0)
  }

  /** Sending one more command adds one to the count exactly when it is a `StatusUpdate`. */
  lemma GoalCountSnoc(a: seq<Outbound>, m: Outbound)
    ensures GoalCount(a + [m]) == GoalCount(a) + (if m.StatusUpdate? then 1 else 0)
  {
    assert (a + [m])[..|a|] == a;
  }
}
