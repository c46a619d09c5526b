/**
 * The wireless queries of src/wifi.py (class Wireless) and src/monitor.py
 * (the same code as Monitor.wifi_*): building the request buffer handed to
 * ioctl, decoding the kernel's reply into a mode name or a bit rate,
 * reading the ESSID out of the buffer the kernel writes, and the MAC
 * address text of get_address. The ioctl itself is a parameter: a function
 * from the request number and buffer to the reply, or to the exception it
 * raised. Byte order is little-endian, as on the x86 machines the native
 * struct formats run on.
 */
module Wireless {
  import opened Wrappers
  import opened PyText

  type byte = x: int | 0 <= x < 256

  /** A Python 2 byte string. */
  type Bytes = seq<byte>

  /** The wireless request numbers. */
  const SIOCGIWMODE: int := 0x8B07   // get operation mode
  const SIOCGIWRATE: int := 0x8B21   // get default bit rate
  const SIOCGIWESSID: int := 0x8B1B  // get essid

  /** The wireless modes, in the order the kernel numbers them. */
  const Modes: seq<string> := ["Auto", "Ad-Hoc", "Managed", "Master", "Repeat", "Second", "Monitor"]

  /** What fcntl.ioctl did: returned the buffer after the call, or raised. */
  datatype Reply = Replied(data: Bytes) | Raised

  /** The exceptions the decoders let escape. */
  datatype DecodeError =
    | NoReply            // the call returned None and the decoder sliced it (TypeError)
    | ShortReply         // struct.unpack got fewer bytes than its format needs (struct.error)
    | UnknownMode(i: int) // self.modes[mode] was out of range (IndexError)

  function Zeros(n: nat): (z: Bytes)
    ensures |z| == n && forall i :: 0 <= i < n ==> z[i] == 0
  {
    seq(n, _ => 0)
  }

  /** (s + '\0' * width)[:width]: NUL-padded, then cut to exactly width bytes. */
  function Pad(s: Bytes, width: nat): (r: Bytes)
    ensures |r| == width
    ensures forall i :: 0 <= i < width ==> r[i] == if i < |s| then s[i] else 0
  {
    (s + Zeros(width))[..width]
  }

  /**
   * The buffer call()/wifi_ioctl() passes to ioctl. `arg` is the optional
   * argument; an empty one counts as absent, as `if not arg` has it.
   */
  function Request(iface: Bytes, arg: Bytes): Bytes {
    if arg == [] then Pad(iface, 32) else Pad(iface, 16) + arg
  }

  /**
   * Without an argument the request is exactly 32 bytes, with one it is 16
   * bytes followed by the argument unchanged; in both the interface name
   * (cut to the width) comes first and NULs fill the rest of the name area.
   */
  lemma RequestLayout(iface: Bytes, arg: Bytes)
    ensures var r := Request(iface, arg);
      var width := if arg == [] then 32 else 16;
      |r| == width + |arg| &&
      (forall i :: 0 <= i < width ==> r[i] == if i < |iface| then iface[i] else 0) &&
      r[width..] == arg
  {
  }

  /**
   * call(iface, func, arg): the reply buffer, or None when ioctl raised.
   * fcntl.ioctl given a string returns a string of the same length, so a
   * real reply to a request without argument is 32 bytes; the shorter and
   * empty replies the decoders handle cannot come from a successful call,
   * and the model states what the code would do with them all the same.
   */
  function Call(ioctl: (int, Bytes) -> Reply, iface: Bytes, func: int, arg: Bytes): (r: Option<Bytes>)
    ensures r.None? <==> ioctl(func, Request(iface, arg)).Raised?
    ensures r.Some? ==> r.value == ioctl(func, Request(iface, arg)).data
  {
    match ioctl(func, Request(iface, arg))
    case Raised => None
    case Replied(data) => Some(data)
  }

  // ---------------------------------------------------------------------
  // Little-endian integers, as struct.unpack reads them

  /** The unsigned value of little-endian bytes. */
  function Unsigned(b: Bytes): (u: nat)
    ensures u < Power256(|b|)
  {
    if b == [] then 0 else b[0] + 256 * Unsigned(b[1..])
  }

  function Power256(n: nat): (p: int)
    ensures p >= 1
  {
    if n == 0 then 1 else 256 * Power256(n - 1)
  }

  /** The signed (two's complement) value of little-endian bytes: 'i', 'h' and 'b'. */
  function Signed(b: Bytes): (v: int)
    requires b != []
    ensures -Power256(|b|) / 2 <= v < Power256(|b|) / 2
  {
    var u := Unsigned(b);
    if u < Power256(|b|) / 2 then u else u - Power256(|b|)
  }

  /** The n little-endian bytes of an unsigned value below 256**n. */
  function UnsignedBytes(u: nat, n: nat): (b: Bytes)
    requires u < Power256(n)
    ensures |b| == n
  {
    if n == 0 then [] else [u % 256] + UnsignedBytes(u / 256, n - 1)
  }

  /** The n bytes struct.pack writes for a signed value in range. */
  function SignedBytes(v: int, n: nat): (b: Bytes)
    requires n > 0 && -Power256(n) / 2 <= v < Power256(n) / 2
    ensures |b| == n
  {
    UnsignedBytes(if v < 0 then v + Power256(n) else v, n)
  }

  lemma {:induction false} UnsignedRoundTrip(u: nat, n: nat)
    requires u < Power256(n)
    ensures Unsigned(UnsignedBytes(u, n)) == u
  {
    if n > 0 {
      UnsignedRoundTrip(u / 256, n - 1);
    }
  }

  lemma {:induction false} UnsignedBytesRoundTrip(b: Bytes)
    ensures UnsignedBytes(Unsigned(b), |b|) == b
  {
    if b != [] {
      var rest := Unsigned(b[1..]);
      DigitSplit(b[0], rest);
      UnsignedBytesRoundTrip(b[1..]);
    }
  }

  /** A byte below 256 plus 256 * r splits back into the byte and r. */
  lemma DigitSplit(d: byte, r: nat)
    ensures (d + 256 * r) % 256 == d && (d + 256 * r) / 256 == r
  {
  }

  /** Decoding what was encoded gives the value back. */
  lemma SignedRoundTrip(v: int, n: nat)
    requires n > 0 && -Power256(n) / 2 <= v < Power256(n) / 2
    ensures Signed(SignedBytes(v, n)) == v
  {
    UnsignedRoundTrip(if v < 0 then v + Power256(n) else v, n);
  }

  /** Encoding what was decoded gives the bytes back. */
  lemma SignedBytesRoundTrip(b: Bytes)
    requires b != []
    ensures SignedBytes(Signed(b), |b|) == b
  {
    UnsignedBytesRoundTrip(b);
  }

  /** s[lo:hi] on a byte string: both ends clamped to its length. */
  function Slice(s: Bytes, lo: nat, hi: nat): (r: Bytes)
    requires lo <= hi
    ensures |r| == (if hi <= |s| then hi - lo else if lo <= |s| then |s| - lo else 0)
    ensures hi <= |s| ==> r == s[lo..hi]
    ensures lo <= |s| < hi ==> r == s[lo..]
  {
    if lo >= |s| then [] else if hi >= |s| then s[lo..] else s[lo..hi]
  }

  // ---------------------------------------------------------------------
  // get_mode / wifi_get_mode

  /**
   * The mode name from a SIOCGIWMODE reply: the signed int at bytes 16..20
   * indexes the table, a negative index counting from its end as Python
   * lists do.
   */
  function ModeOf(result: Option<Bytes>): Result<string, DecodeError> {
    match result
    case None => Err(NoReply)
    case Some(reply) =>
      var field := Slice(reply, 16, 20);
      if |field| != 4 then Err(ShortReply)
      else
        var mode := Signed(field);
        if -|Modes| <= mode < 0 then Ok(Modes[mode + |Modes|])
        else if 0 <= mode < |Modes| then Ok(Modes[mode])
        else Err(UnknownMode(mode))
  }

  /** get_mode(iface): the request carries no argument. */
  function GetMode(ioctl: (int, Bytes) -> Reply, iface: Bytes): Result<string, DecodeError> {
    ModeOf(Call(ioctl, iface, SIOCGIWMODE, []))
  }

  /**
   * A reply whose bytes 16..20 hold k names mode k of the table: 0 is
   * "Auto", 2 is "Managed"; -1 is the last entry; anything else outside
   * -7..6 raises.
   */
  lemma ModeOfIndex(reply: Bytes, k: int)
    requires |reply| >= 20 && -0x8000_0000 <= k < 0x8000_0000
    requires reply[16..20] == SignedBytes(k, 4)
    ensures 0 <= k < 7 ==> ModeOf(Some(reply)) == Ok(Modes[k])
    ensures -7 <= k < 0 ==> ModeOf(Some(reply)) == Ok(Modes[k + 7])
    ensures (k < -7 || k >= 7) <==> ModeOf(Some(reply)).Err?
    ensures k == 0 ==> ModeOf(Some(reply)) == Ok("Auto")
    ensures k == 2 ==> ModeOf(Some(reply)) == Ok("Managed")
  {
    assert Power256(4) == 0x1_0000_0000;
    SignedRoundTrip(k, 4);
  }

  /** No reply and a reply shorter than 20 bytes both raise. */
  lemma ModeOfShortReply(result: Option<Bytes>)
    requires result.None? || |result.value| < 20
    ensures ModeOf(result) == if result.None? then Err(NoReply) else Err(ShortReply)
  {
  }

  // ---------------------------------------------------------------------
  // get_bitrate / wifi_get_bitrate

  /** A bit rate: an integral value, or the float m * 10**e of a negative exponent. */
  datatype Rate = Bits(n: int) | Fraction(mantissa: int, exponent: int)

  /**
   * The bit rate from a SIOCGIWRATE reply: no reply or an empty one gives
   * the sentinel -1; otherwise bytes 16..24 hold the mantissa (int), the
   * exponent (short) and two single bytes ('ihbb'), and the rate is m when
   * e is 0 and m * 10**e otherwise.
   */
  function BitrateOf(result: Option<Bytes>): Result<Rate, DecodeError> {
    if result.None? || result.value == [] then Ok(Bits(-1))
    else
      var field := Slice(result.value, 16, 24);
      if |field| != 8 then Err(ShortReply)
      else
        var m, e := Signed(field[..4]), Signed(field[4..6]);
        if e == 0 then Ok(Bits(m))
        else if e > 0 then Ok(Bits(m * Pow10(e)))
        else Ok(Fraction(m, e))
  }

  /** get_bitrate(iface): the request carries no argument. */
  function GetBitrate(ioctl: (int, Bytes) -> Reply, iface: Bytes): Result<Rate, DecodeError> {
    BitrateOf(Call(ioctl, iface, SIOCGIWRATE, []))
  }

  /** The eight bytes struct.pack('ihbb', m, e, i, pad) writes. */
  function RateField(m: int, e: int, i: int, pad: int): Bytes
    requires -0x8000_0000 <= m < 0x8000_0000 && -0x8000 <= e < 0x8000
    requires -0x80 <= i < 0x80 && -0x80 <= pad < 0x80
  {
    assert Power256(4) == 0x1_0000_0000 && Power256(2) == 0x1_0000 && Power256(1) == 0x100;
    SignedBytes(m, 4) + SignedBytes(e, 2) + SignedBytes(i, 1) + SignedBytes(pad, 1)
  }

  /**
   * A reply carrying (m, e) at byte 16 decodes to m for e = 0 and to
   * m * 10**e for a positive e; a failed call gives -1.
   */
  lemma BitrateOfField(reply: Bytes, m: int, e: int, i: int, pad: int)
    requires -0x8000_0000 <= m < 0x8000_0000 && -0x8000 <= e < 0x8000
    requires -0x80 <= i < 0x80 && -0x80 <= pad < 0x80
    requires |reply| >= 24 && reply[16..24] == RateField(m, e, i, pad)
    ensures BitrateOf(Some(reply)) ==
      Ok(if e == 0 then Bits(m) else if e > 0 then Bits(m * Pow10(e)) else Fraction(m, e))
    ensures BitrateOf(None) == Ok(Bits(-1))
  {
    assert Power256(4) == 0x1_0000_0000 && Power256(2) == 0x1_0000;
    var field := reply[16..24];
    assert field[..4] == SignedBytes(m, 4) && field[4..6] == SignedBytes(e, 2);
    SignedRoundTrip(m, 4);
    SignedRoundTrip(e, 2);
  }

  // ---------------------------------------------------------------------
  // get_essid / wifi_get_essid

  /** How many NULs str.strip('\0') drops from the front. */
  function LeadingNuls(b: Bytes): (n: nat)
    ensures n <= |b|
    ensures forall i :: 0 <= i < n ==> b[i] == 0
    ensures n < |b| ==> b[n] != 0
  {
    if b == [] || b[0] != 0 then 0 else 1 + LeadingNuls(b[1..])
  }

  /** How many NULs str.strip('\0') drops from the back. */
  function TrailingNuls(b: Bytes): (n: nat)
    ensures n <= |b|
    ensures forall i :: |b| - n <= i < |b| ==> b[i] == 0
    ensures n < |b| ==> b[|b| - 1 - n] != 0
  {
    if b == [] || b[|b| - 1] != 0 then 0 else 1 + TrailingNuls(b[..|b| - 1])
  }

  /** str.strip('\0') */
  function StripNuls(b: Bytes): Bytes {
    var t := b[LeadingNuls(b)..];
    t[..|t| - TrailingNuls(t)]
  }

  /** The ESSID buffer after the call: the bytes the kernel wrote over sixteen NULs. */
  function EssidBuffer(written: Option<Bytes>): (buf: Bytes)
    ensures |buf| == 16
  {
    Pad(if written.Some? then written.value else [], 16)
  }

  /**
   * get_essid: a 16-byte NUL buffer whose address goes to the kernel, which
   * copies the ESSID into it (`written`; None when the call raised and
   * nothing was written; the kernel writes at most the buffer's length);
   * the answer is the buffer with the NULs at both ends stripped.
   */
  method GetEssid(written: Option<Bytes>) returns (essid: Bytes)
    ensures essid == StripNuls(EssidBuffer(written))
  {
    var buffer := new byte[16](_ => 0);
    if written.Some? {
      var w := written.value;
      var n := if |w| < 16 then |w| else 16;
      for i := 0 to n
        invariant forall j :: 0 <= j < i ==> buffer[j] == w[j]
        invariant forall j :: i <= j < 16 ==> buffer[j] == 0
      {
        buffer[i] := w[i];
      }
    }
    assert buffer[..] == EssidBuffer(written);
    essid := StripNuls(buffer[..]);
  }

  /**
   * An ESSID of at most 16 bytes that neither starts nor ends with a NUL
   * comes back whole; a failed call or an empty one gives the empty string.
   */
  lemma EssidReadsBack(name: Bytes)
    requires |name| <= 16
    requires name == [] || (name[0] != 0 && name[|name| - 1] != 0)
    ensures StripNuls(EssidBuffer(Some(name))) == name
    ensures StripNuls(EssidBuffer(None)) == []
  {
    var buf := EssidBuffer(Some(name));
    if name != [] {
      assert LeadingNuls(buf) == 0;
      assert buf[0..] == buf;
      var k := TrailingNuls(buf);
      assert buf[|buf| - 1 - k] != 0;
      assert k == 16 - |name|;
      assert buf[..|name|] == name;
    } else {
      assert LeadingNuls(buf) == 16;
    }
    assert LeadingNuls(EssidBuffer(None)) == 16;
  }

  // ---------------------------------------------------------------------
  // The MAC address text of get_address

  function HexDigit(d: nat): (c: char)
    requires d < 16
  {
    if d < 10 then ('0' as int + d) as char else ('a' as int + d - 10) as char
  }

  /** "%02x" % b: two lower-case hexadecimal digits. */
  function Hex2(b: byte): string {
    [HexDigit(b / 16), HexDigit(b % 16)]
  }

  /** ":".join(["%02x" % ord(char) for char in mac_struct]) */
  function FormatMac(bs: Bytes): string {
    if bs == [] then ""
    else if |bs| == 1 then Hex2(bs[0])
    else Hex2(bs[0]) + ":" + FormatMac(bs[1..])
  }

  /** The value of one lower-case hexadecimal digit. */
  function HexValue(c: char): Option<nat> {
    if '0' <= c <= '9' then Some(c as int - '0' as int)
    else if 'a' <= c <= 'f' then Some(c as int - 'a' as int + 10)
    else None
  }

  /** Reads a MAC text back: pairs of hexadecimal digits separated by ':'. */
  function ParseMac(s: string): Option<Bytes>
    decreases |s|
  {
    if s == [] then Some([])
    else if |s| < 2 || HexValue(s[0]).None? || HexValue(s[1]).None? then None
    else
      var b := HexValue(s[0]).value * 16 + HexValue(s[1]).value;
      if |s| == 2 then Some([b])
      else if s[2] != ':' || |s| == 3 then None
      else match ParseMac(s[3..])
        case None => None
        case Some(rest) => Some([b] + rest)
  }

  lemma HexDigitValue(d: nat)
    requires d < 16
    ensures HexValue(HexDigit(d)) == Some(d)
  {
  }

  /**
   * The MAC text is three characters per byte less one (17 for six bytes),
   * and reading it back gives the bytes.
   */
  lemma {:induction false} FormatMacReadsBack(bs: Bytes)
    ensures bs != [] ==> |FormatMac(bs)| == 3 * |bs| - 1
    ensures ParseMac(FormatMac(bs)) == Some(bs)
  {
    if bs != [] {
      var b := bs[0];
      HexDigitValue(b / 16);
      HexDigitValue(b % 16);
      if |bs| > 1 {
        FormatMacReadsBack(bs[1..]);
        var s := FormatMac(bs);
        assert s == Hex2(b) + [':'] + FormatMac(bs[1..]);
        assert s[0] == HexDigit(b / 16) && s[1] == HexDigit(b % 16) && s[2] == ':';
        assert s[3..] == FormatMac(bs[1..]);
        assert [b] + bs[1..] == bs;
      } else {
        assert bs == [b];
      }
    }
  }

  /** The text shown when the MAC request fails. */
  const NoPhysicalAddress: string := "No physical address"
  /** The text shown when the address request fails. */
  const NoAddress: string := "No address assigned"

  /**
   * get_address(ifname) with both ioctl outcomes given: `ip` is the dotted
   * address read (None when that request raised), `macReply` the reply of
   * SIOCGIFHWADDR, whose bytes 18..24 are the hardware address. As written,
   * a failing MAC request resets the address text, not the MAC text.
   */
  function GetAddress(ip: Option<string>, macReply: Option<Bytes>): (r: (string, string))
    ensures macReply.None? ==> r == (NoAddress, NoPhysicalAddress)
    ensures macReply.Some? ==> r.0 == (if ip.Some? then ip.value else NoAddress)
    ensures macReply.Some? && |macReply.value| >= 24 ==>
      |r.1| == 17 && ParseMac(r.1) == Some(macReply.value[18..24])
    ensures macReply.Some? ==> ParseMac(r.1) == Some(Slice(macReply.value, 18, 24))
  {
    var addr := if ip.Some? then ip.value else NoAddress;
    match macReply
    case None => (NoAddress, NoPhysicalAddress)
    case Some(reply) =>
      var mac := Slice(reply, 18, 24);
      FormatMacReadsBack(mac);
      (addr, FormatMac(mac))
  }
}
