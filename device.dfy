/**
 * The SNES memory bridge as seen by the client: device memory is a map from
 * address to byte, and a read or write of a range fails (the read or write
 * rejects) when the device is offline or an address of the range is not
 * mapped. Also the byte decoding the client does on what it reads.
 */
module Device {
  import opened Wrappers

  /** One byte of device memory, as the bridge's Uint8Array delivers it. */
  type Byte = b: int | 0 <= b < 256

  /**
   * Addresses and ids the client takes from the game's memory map. They are
   * defined outside assets/serverSocket.js and assets/globals.js, so they are
   * parameters here;
   * `endgameModes` stands for ENDGAME_MODES as a set of game-mode bytes.
   */
  datatype Layout = Layout(
    wramStart: int,
    recvProgressAddr: int,
    romNameStart: int,
    romNameSize: nat,
    locationsStartId: int,
    endgameModes: set<Byte>)

  function GameModeAddr(layout: Layout): int { layout.wramStart + 0x998 }
  function ReceivedCountAddr(layout: Layout): int { layout.recvProgressAddr + 0x600 }
  function CursorAddr(layout: Layout): int { layout.recvProgressAddr + 0x680 }
  /** Each check record is eight bytes long; the array starts at +0x700. */
  function RecordAddr(layout: Layout, k: int): int { layout.recvProgressAddr + 0x700 + k * 8 }

  predicate IsEndgame(layout: Layout, mode: Byte) { mode in layout.endgameModes }

  predicate Readable(online: bool, mem: map<int, Byte>, addr: int, n: nat) {
    online && forall a :: addr <= a < addr + n ==> a in mem
  }

  /** `readFromAddress(addr, n)`. */
  function ReadRange(online: bool, mem: map<int, Byte>, addr: int, n: nat): (r: Option<seq<Byte>>)
    ensures r.Some? <==> Readable(online, mem, addr, n)
    ensures r.Some? ==> |r.value| == n && forall i :: 0 <= i < n ==> r.value[i] == mem[addr + i]
  {
    if Readable(online, mem, addr, n) then Some(seq(n, i requires 0 <= i < n => mem[addr + i])) else None
  }

  /** `b0 | (b1 << 8)`: a little-endian 16-bit value (the two bytes do not overlap, so `|` is `+`). */
  function LE16(b0: Byte, b1: Byte): (v: nat)
    ensures v < 0x1_0000
  {
    b0 + 256 * b1
  }

  /** `v & 0xFF` of a non-negative 16-bit value. */
  function LowByte(v: nat): Byte
    requires v < 0x1_0000
  {
    v % 256
  }

  /** `(v >> 8) & 0xFF` of a non-negative 16-bit value. */
  function HighByte(v: nat): Byte
    requires v < 0x1_0000
  {
    v / 256
  }

  /** Splitting a 16-bit value into bytes and decoding them gives it back. */
  lemma LE16OfBytes(v: nat)
    requires v < 0x1_0000
    ensures LE16(LowByte(v), HighByte(v)) == v
  {
  }

  /** Decoding two bytes and splitting the value gives the bytes back. */
  lemma BytesOfLE16(b0: Byte, b1: Byte)
    ensures LowByte(LE16(b0, b1)) == b0 && HighByte(LE16(b0, b1)) == b1
  {
  }

  /** `(itemData[4] | (itemData[5] << 8)) >> 3`: the item index of a check record (a shift of a non-negative value is a floor division). */
  function ItemIndex(b4: Byte, b5: Byte): (i: nat)
    ensures i < 8192
  {
    LE16(b4, b5) / 8
  }

  /** The location id reported for check record `k`, or `None` if the record cannot be read. */
  function ReadRecord(layout: Layout, online: bool, mem: map<int, Byte>, k: int): (r: Option<int>)
    ensures r.Some? <==> Readable(online, mem, RecordAddr(layout, k), 8)
    ensures r.Some? ==> layout.locationsStartId <= r.value < layout.locationsStartId + 8192
  {
    match ReadRange(online, mem, RecordAddr(layout, k), 8)
    case None => None
    case Some(rec) => Some(layout.locationsStartId + ItemIndex(rec[4], rec[5]))
  }

  /**
   * The ids of records `from` up to (not including) `to`, in record order;
   * `None` as soon as one record cannot be read.
   */
  function ScanRecords(layout: Layout, online: bool, mem: map<int, Byte>, from: int, to: int): (r: Option<seq<int>>)
    decreases to - from
    ensures r.Some? ==> |r.value| == (if to > from then to - from else 0)
  {
    if to <= from then Some([])
    else
      match ScanRecords(layout, online, mem, from, to - 1)
      case None => None
      case Some(ids) =>
        match ReadRecord(layout, online, mem, to - 1)
        case None => None
        case Some(id) => Some(ids + [id])
  }

  /** A scan succeeds exactly when every record from `from` up to `to` can be read. */
  lemma {:induction false} ScanSucceedsIffReadable(layout: Layout, online: bool, mem: map<int, Byte>, from: int, to: int)
    decreases to - from
    ensures ScanRecords(layout, online, mem, from, to).Some?
        <==> (forall k :: from <= k < to ==> ReadRecord(layout, online, mem, k).Some?)
  {
    if to > from {
      ScanSucceedsIffReadable(layout, online, mem, from, to - 1);
    }
  }

  /** The i-th id of a successful scan is the id of record `from + i`. */
  lemma {:induction false} ScanIds(layout: Layout, online: bool, mem: map<int, Byte>, from: int, to: int)
    decreases to - from
    requires ScanRecords(layout, online, mem, from, to).Some?
    ensures var ids := ScanRecords(layout, online, mem, from, to).value;
      forall i :: 0 <= i < |ids| ==> ReadRecord(layout, online, mem, from + i) == Some(ids[i])
  {
    if to > from {
      ScanIds(layout, online, mem, from, to - 1);
      var front := ScanRecords(layout, online, mem, from, to - 1).value;
      var ids := ScanRecords(layout, online, mem, from, to).value;
      assert ids == front + [ReadRecord(layout, online, mem, to - 1).value];
    }
  }

  /** One more readable record extends a scan by that record's id. */
  lemma ScanExtends(layout: Layout, online: bool, mem: map<int, Byte>, from: int, k: int)
    requires from <= k
    requires ScanRecords(layout, online, mem, from, k).Some? && ReadRecord(layout, online, mem, k).Some?
    ensures ScanRecords(layout, online, mem, from, k + 1)
         == Some(ScanRecords(layout, online, mem, from, k).value + [ReadRecord(layout, online, mem, k).value])
  {
  }

  /** A record that cannot be read makes every scan over it fail. */
  lemma ScanFailsAt(layout: Layout, online: bool, mem: map<int, Byte>, from: int, k: int, to: int)
    requires from <= k < to && ReadRecord(layout, online, mem, k).None?
    ensures ScanRecords(layout, online, mem, from, to).None?
  {
    ScanSucceedsIffReadable(layout, online, mem, from, to);
  }

  /** `writeToAddress(addr, [v & 0xFF, (v >> 8) & 0xFF])`. */
  function Write16(online: bool, mem: map<int, Byte>, addr: int, v: nat): (r: Option<map<int, Byte>>)
    requires v < 0x1_0000
    ensures r.Some? <==> Readable(online, mem, addr, 2)
    ensures r.Some? ==> r.value.Keys == mem.Keys
    ensures r.Some? ==> LE16(r.value[addr], r.value[addr + 1]) == v
    ensures r.Some? ==> forall a :: a in mem && a != addr && a != addr + 1 ==> r.value[a] == mem[a]
  {
    if Readable(online, mem, addr, 2) then
      assert addr in mem && addr + 1 in mem;
      Some(mem[addr := LowByte(v)][addr + 1 := HighByte(v)])
    else None
  }

  /** Every id of a successful scan lies in the 8192 ids after LOCATIONS_START_ID. */
  lemma ScanIdsInRange(layout: Layout, online: bool, mem: map<int, Byte>, from: int, to: int)
    requires ScanRecords(layout, online, mem, from, to).Some?
    ensures var ids := ScanRecords(layout, online, mem, from, to).value;
      forall i :: 0 <= i < |ids| ==> layout.locationsStartId <= ids[i] < layout.locationsStartId + 8192
  {
    var ids := ScanRecords(layout, online, mem, from, to).value;
    ScanIds(layout, online, mem, from, to);
    forall i | 0 <= i < |ids|
      ensures layout.locationsStartId <= ids[i] < layout.locationsStartId + 8192
    {
      assert ReadRecord(layout, online, mem, from + i) == Some(ids[i]);
    }
  }
}
