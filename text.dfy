/**
 * String helpers of the client: server-address normalisation, the
 * capitalise-first-letter formatter and the decimal rendering that
 * `localStorage` applies to a stored number, and the UTF-8 decoding and
 * base64 step the ROM name goes through.
 */
module Text {
  import opened Wrappers
  import opened Protocol
  import opened Device

  const ConnectPrefix: string := "/connect "

  predicate IsDigit(c: char) { '0' <= c <= '9' }

  /** The input begins with "/connect " (the regular expression `^\/connect `). */
  predicate HasConnectPrefix(s: string) {
    |s| >= |ConnectPrefix| && s[..|ConnectPrefix|] == ConnectPrefix
  }

  /** Length of the longest run of ASCII digits at the end of `s`. */
  function TrailingDigits(s: string): (n: nat)
    ensures n <= |s|
    ensures forall j :: |s| - n <= j < |s| ==> IsDigit(s[j])
    ensures n < |s| ==> !IsDigit(s[|s| - 1 - n])
  {
    if s == [] || !IsDigit(s[|s| - 1]) then 0 else TrailingDigits(s[..|s| - 1]) + 1
  }

  /** The input ends in ':' followed by at least one digit (the regular expression `:\d+$`). */
  predicate EndsWithPort(s: string) {
    var n := TrailingDigits(s);
    0 < n < |s| && s[|s| - 1 - n] == ':'
  }

  /** The same test stated as the regular expression reads: some ':' followed only by digits, at least one. */
  ghost predicate PortSuffixAt(s: string, k: int) {
    0 <= k < |s| - 1 && s[k] == ':' && forall j :: k < j < |s| ==> IsDigit(s[j])
  }

  lemma EndsWithPortMeansRegex(s: string)
    ensures EndsWithPort(s) <==> exists k :: PortSuffixAt(s, k)
  {
    var n := TrailingDigits(s);
    if EndsWithPort(s) {
      assert PortSuffixAt(s, |s| - 1 - n);
    }
    if k :| PortSuffixAt(s, k) {
      // every character after k is a digit and s[k] is not, so the trailing run stops at k
      assert !IsDigit(s[k]);
      assert n == |s| - 1 - k;
    }
  }

  lemma {:induction false} TrailingDigitsOfDigitSuffix(s: string, d: string)
    requires forall j :: 0 <= j < |d| ==> IsDigit(d[j])
    ensures TrailingDigits(s + [':'] + d) == |d|
    decreases |d|
  {
    var t := s + [':'] + d;
    if d == [] {
      assert t[|t| - 1] == ':';
    } else {
      var d' := d[..|d| - 1];
      assert t[..|t| - 1] == s + [':'] + d';
      assert t[|t| - 1] == d[|d| - 1];
      TrailingDigitsOfDigitSuffix(s, d');
    }
  }

  /** `s + ":" + d` ends with a port when `d` is a non-empty run of digits. */
  lemma AppendedPortIsPort(s: string, d: string)
    requires |d| > 0 && forall j :: 0 <= j < |d| ==> IsDigit(d[j])
    ensures EndsWithPort(s + [':'] + d)
  {
    TrailingDigitsOfDigitSuffix(s, d);
    var t := s + [':'] + d;
    assert t[|t| - 1 - |d|] == ':';
  }

  /** The address with a leading "/connect " removed. */
  function StripConnect(address: string): string {
    if HasConnectPrefix(address) then address[|ConnectPrefix|..] else address
  }

  /**
   * Server-address normalisation of `connectToServer`: strip "/connect ",
   * then add the default port unless the address already ends in ":digits".
   */
  function NormalizeAddress(address: string): (r: string)
    ensures EndsWithPort(r)
    ensures var b := StripConnect(address);
      |r| >= |b| && r[..|b|] == b && (r == b <==> EndsWithPort(b))
    ensures !EndsWithPort(StripConnect(address)) ==> r == StripConnect(address) + [':'] + DefaultServerPort
    ensures !HasConnectPrefix(address) && EndsWithPort(address) ==> r == address
  {
    var b := StripConnect(address);
    if EndsWithPort(b) then b
    else
      AppendedPortIsPort(b, DefaultServerPort);
      b + [':'] + DefaultServerPort
  }

  /** Normalising twice changes nothing unless the result itself starts with "/connect ". */
  lemma NormalizeIdempotent(address: string)
    requires !HasConnectPrefix(NormalizeAddress(address))
    ensures NormalizeAddress(NormalizeAddress(address)) == NormalizeAddress(address)
  {
  }

  /**
   * The normalised address has no host: it starts with the port separator,
   * so `ws://` followed by it is a URL the WebSocket constructor rejects.
   */
  predicate HostMissing(address: string) {
    var a := NormalizeAddress(address);
    |a| > 0 && a[0] == ':'
  }

  /** The empty address (and "/connect " alone) normalise to the bare default port. */
  lemma EmptyAddressHasNoHost(address: string)
    requires address == "" || address == ConnectPrefix
    ensures NormalizeAddress(address) == [':'] + DefaultServerPort
    ensures HostMissing(address)
  {
    assert StripConnect(address) == "";
  }

  predicate IsLower(c: char) { 'a' <= c <= 'z' }
  predicate IsUpper(c: char) { 'A' <= c <= 'Z' }

  function ToUpper(c: char): char {
    if IsLower(c) then (c as int - 32) as char else c
  }

  function ToLower(c: char): char {
    if IsUpper(c) then (c as int + 32) as char else c
  }

  function LowerString(s: string): (r: string)
    ensures |r| == |s|
  {
    seq(|s|, i requires 0 <= i < |s| => ToLower(s[i]))
  }

  /**
   * `s[0].toUpperCase() + s.substring(1).toLowerCase()`; on the empty string
   * `s[0]` is undefined and the call throws, which is `None` here.
   */
  function Capitalize(s: string): (r: Option<string>)
    ensures r.Some? <==> |s| > 0
    ensures r.Some? ==> |r.value| == |s|
    ensures r.Some? ==> !IsLower(r.value[0]) && forall i :: 1 <= i < |s| ==> !IsUpper(r.value[i])
    ensures r.Some? ==> forall i :: 0 <= i < |s| ==> ToLower(r.value[i]) == ToLower(s[i])
  {
    if |s| == 0 then None else Some([ToUpper(s[0])] + LowerString(s[1..]))
  }

  /** Capitalising an already capitalised string changes nothing. */
  lemma CapitalizeIdempotent(s: string)
    requires |s| > 0
    ensures Capitalize(Capitalize(s).value) == Capitalize(s)
  {
    var r := Capitalize(s).value;
    var rr := Capitalize(r).value;
    assert |rr| == |r|;
    forall i | 0 <= i < |r| ensures rr[i] == r[i] {
      if i == 0 {
        assert rr[0] == ToUpper(r[0]) && r[0] == ToUpper(s[0]);
      } else {
        assert rr[i] == LowerString(r[1..])[i - 1] == ToLower(r[i]);
        assert r[i] == LowerString(s[1..])[i - 1] == ToLower(s[i]);
      }
    }
    assert rr == r;
  }

  function DigitChar(d: nat): (c: char)
    requires d < 10
    ensures IsDigit(c)
  {
    ('0' as int + d) as char
  }

  /** Decimal rendering of a natural number, no leading zeros. */
  function NatToString(n: nat): (r: string)
    ensures 0 < |r|
    ensures forall j :: 0 <= j < |r| ==> IsDigit(r[j])
    ensures |r| == 1 <==> n < 10
  {
    if n < 10 then [DigitChar(n)] else NatToString(n / 10) + [DigitChar(n % 10)]
  }

  /** `String(v)` for an integer `v`, as `localStorage.setItem` stores it. */
  function IntToString(v: int): (r: string)
    ensures 0 < |r|
    ensures r[0] == '-' <==> v < 0
  {
    if v < 0 then "-" + NatToString(-v) else NatToString(v)
  }

  lemma {:induction false} NatToStringInjective(a: nat, b: nat)
    requires NatToString(a) == NatToString(b)
    ensures a == b
    decreases a
  {
    var s := NatToString(a);
    if a >= 10 && b >= 10 {
      assert NatToString(a / 10) == s[..|s| - 1] == NatToString(b / 10);
      NatToStringInjective(a / 10, b / 10);
      assert DigitChar(a % 10) == s[|s| - 1] == DigitChar(b % 10);
    } else if a < 10 && b < 10 {
      assert DigitChar(a) == s[0] == DigitChar(b);
    }
  }

  /** Distinct versions are stored as distinct strings. */
  lemma IntToStringInjective(a: int, b: int)
    requires IntToString(a) == IntToString(b)
    ensures a == b
  {
    var s := IntToString(a);
    if a < 0 && b < 0 {
      assert NatToString(-a) == s[1..] == NatToString(-b);
      NatToStringInjective(-a, -b);
    } else {
      NatToStringInjective(a, b);
    }
  }

  // ---------------------------------------------------------------- the ROM name

  /** The byte-order mark that `TextDecoder` drops from the front of its input. */
  const Utf8Bom: seq<Byte> := [0xEF, 0xBB, 0xBF]

  predicate IsContinuation(b: Byte) { 0x80 <= b < 0xC0 }

  /**
   * UTF-8 decoding followed by `btoa`'s check that every character is below
   * 256: the code points when the bytes are ASCII bytes and two-byte
   * sequences led by 0xC2 or 0xC3, `None` when `btoa` throws. Any other lead
   * byte either starts an ill-formed sequence (decoded as U+FFFD) or a
   * well-formed one for a code point of 256 or more.
   */
  function Latin1OfUtf8(b: seq<Byte>): Option<seq<Byte>>
    decreases |b|
  {
    if b == [] then Some([])
    else if b[0] < 0x80 then
      match Latin1OfUtf8(b[1..])
      case None => None
      case Some(rest) => Some([b[0]] + rest)
    else if (b[0] == 0xC2 || b[0] == 0xC3) && |b| >= 2 && IsContinuation(b[1]) then
      match Latin1OfUtf8(b[2..])
      case None => None
      case Some(rest) => Some([(b[0] - 0xC0) * 64 + (b[1] - 0x80)] + rest)
    else None
  }

  /** `btoa(new TextDecoder().decode(romName))` before base64: the Latin-1 text, or `None` when `btoa` throws. */
  function RomNameText(rom: seq<Byte>): Option<seq<Byte>> {
    if |rom| >= 3 && rom[..3] == Utf8Bom then Latin1OfUtf8(rom[3..]) else Latin1OfUtf8(rom)
  }

  /** The UTF-8 encoding of Latin-1 text: one byte below 0x80, two bytes otherwise. */
  function Utf8OfLatin1(t: seq<Byte>): (b: seq<Byte>)
    ensures |t| <= |b| <= 2 * |t|
    decreases |t|
  {
    if t == [] then []
    else if t[0] < 0x80 then [t[0]] + Utf8OfLatin1(t[1..])
    else [0xC0 + t[0] / 64, 0x80 + t[0] % 64] + Utf8OfLatin1(t[1..])
  }

  /** Decoding the UTF-8 encoding of Latin-1 text gives the text back. */
  lemma {:induction false} Latin1RoundTrip(t: seq<Byte>)
    ensures Latin1OfUtf8(Utf8OfLatin1(t)) == Some(t)
    decreases |t|
  {
    if t != [] {
      Latin1RoundTrip(t[1..]);
      var b := Utf8OfLatin1(t);
      if t[0] < 0x80 {
        assert b[1..] == Utf8OfLatin1(t[1..]);
      } else {
        assert b[2..] == Utf8OfLatin1(t[1..]);
      }
      assert t == [t[0]] + t[1..];
    }
  }

  /** Conversely, the bytes `btoa` accepts are exactly such encodings: nothing else decodes. */
  lemma {:induction false} Latin1OnlyFromEncoding(b: seq<Byte>)
    requires Latin1OfUtf8(b).Some?
    ensures Utf8OfLatin1(Latin1OfUtf8(b).value) == b
    decreases |b|
  {
    if b != [] {
      var t := Latin1OfUtf8(b).value;
      if b[0] < 0x80 {
        Latin1OnlyFromEncoding(b[1..]);
        assert t[1..] == Latin1OfUtf8(b[1..]).value;
        assert b == [b[0]] + b[1..];
      } else {
        Latin1OnlyFromEncoding(b[2..]);
        assert t[1..] == Latin1OfUtf8(b[2..]).value;
        assert b == [b[0], b[1]] + b[2..];
      }
    }
  }

  /** An ASCII ROM name passes through unchanged. */
  lemma {:induction false} AsciiRomName(rom: seq<Byte>)
    requires forall i :: 0 <= i < |rom| ==> rom[i] < 0x80
    ensures RomNameText(rom) == Some(rom)
  {
    AsciiUnchanged(rom);
  }

  lemma {:induction false} AsciiUnchanged(b: seq<Byte>)
    requires forall i :: 0 <= i < |b| ==> b[i] < 0x80
    ensures Latin1OfUtf8(b) == Some(b)
    decreases |b|
  {
    if b != [] {
      AsciiUnchanged(b[1..]);
      assert b == [b[0]] + b[1..];
    }
  }

  /** A byte 0xFF is never part of UTF-8, so it decodes to U+FFFD and `btoa` throws. */
  lemma RomNameWithFFThrows()
    ensures RomNameText([0x53, 0x4D, 0xFF]) == None
  {
    var c: seq<Byte> := [0xFF];
    assert Latin1OfUtf8(c) == None;
    var b2: seq<Byte> := [0x4D, 0xFF];
    assert b2[1..] == c;
    assert Latin1OfUtf8(b2) == None;
    var b: seq<Byte> := [0x53, 0x4D, 0xFF];
    assert b[1..] == b2;
  }
}
