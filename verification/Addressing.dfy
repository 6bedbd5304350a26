/** Instance ids and the network names derived from them. */
module Addressing {
  import opened Decimal
  import opened Text

  const MAX_INSTANCES: nat := 16384
  // 172.16.0.0 as a number.
  const NET_BASE: nat := 172 * 0x100_0000 + 16 * 0x1_0000
  // Addresses in a /16 and in a /30.
  const NET_SIZE: nat := 0x1_0000
  const BLOCK_SIZE: nat := 4

  function HostIp(k: nat): string {
    "172.16." + Dec(k / 64) + "." + Dec(4 * (k % 64) + 1)
  }

  function GuestIp(k: nat): string {
    "172.16." + Dec(k / 64) + "." + Dec(4 * (k % 64) + 2)
  }

  function HexChar(d: nat): (c: char)
    requires d < 16
  {
    "0123456789ABCDEF"[d]
  }

  /** printf %02X */
  function Hex2(n: nat): string
    requires n < 256
  {
    [HexChar(n / 16), HexChar(n % 16)]
  }

  function Mac(k: nat): string
    requires k < MAX_INSTANCES
  {
    "06:00:AC:10:" + Hex2(k / 64) + ":" + Hex2(4 * (k % 64) + 2)
  }

  function TapName(k: nat): string {
    "tap" + Dec(k)
  }

  // Readers of the printed forms, independent of how they are printed.

  /** A decimal octet, or -1. */
  function ReadDecimalOctet(s: string): int {
    if s != "" && AllDigits(s) && Value(s) < 256 then Value(s) else -1
  }

  /** Four octets to a number, or -1. */
  function FromOctets(a: int, b: int, c: int, d: int): int {
    if a >= 0 && b >= 0 && c >= 0 && d >= 0 then ((a * 256 + b) * 256 + c) * 256 + d else -1
  }

  /** Dotted quad to number, or -1. */
  function ReadIpv4(s: string): int {
    var f := Split(s, '.');
    if |f| == 4
    then FromOctets(ReadDecimalOctet(f[0]), ReadDecimalOctet(f[1]), ReadDecimalOctet(f[2]), ReadDecimalOctet(f[3]))
    else -1
  }

  function HexValue(c: char): int {
    if '0' <= c <= '9' then c as int - '0' as int
    else if 'A' <= c <= 'F' then c as int - 'A' as int + 10
    else -1
  }

  function ReadOctet(s: string): int {
    if |s| == 2 && HexValue(s[0]) >= 0 && HexValue(s[1]) >= 0
    then 16 * HexValue(s[0]) + HexValue(s[1])
    else -1
  }

  /** The address a colon-separated MAC carries in its last four octets. */
  function ReadMacTail(s: string): int {
    var f := Split(s, ':');
    if |f| == 6 then FromOctets(ReadOctet(f[2]), ReadOctet(f[3]), ReadOctet(f[4]), ReadOctet(f[5])) else -1
  }

  /** Network address of the /30 an address lies in. */
  function BlockOf(address: int): int {
    address - address % BLOCK_SIZE
  }

  lemma ReadDottedQuad(a: nat, b: nat, c: nat, d: nat)
    requires a < 256 && b < 256 && c < 256 && d < 256
    ensures ReadIpv4(Dec(a) + "." + Dec(b) + "." + Dec(c) + "." + Dec(d)) == ((a * 256 + b) * 256 + c) * 256 + d
  {
    hide Split, Dec, ReadDecimalOctet;
    SplitDottedQuad(Dec(a), Dec(b), Dec(c), Dec(d));
    ReadOctetBack(a); ReadOctetBack(b); ReadOctetBack(c); ReadOctetBack(d);
  }

  lemma ReadOctetBack(n: nat)
    requires n < 256
    ensures ReadDecimalOctet(Dec(n)) == n
  {
    ValueOfDec(n);
  }

  /** Splitting takes off the first of several fields. */
  lemma SplitNext(w: string, sep: char, rest: string, fields: seq<string>)
    requires sep !in w && Split(rest, sep) == fields
    ensures Split(w + [sep] + rest, sep) == [w] + fields
  {
    SplitFirst(w, sep, rest);
  }

  lemma SplitDottedQuad(a: string, b: string, c: string, d: string)
    requires AllDigits(a) && AllDigits(b) && AllDigits(c) && AllDigits(d)
    ensures Split(a + "." + b + "." + c + "." + d, '.') == [a, b, c, d]
  {
    hide Split;
    SplitWhole(d, '.');
    SplitNext(c, '.', d, [d]);
    SplitNext(b, '.', c + "." + d, [c, d]);
    SplitNext(a, '.', b + "." + (c + "." + d), [b, c, d]);
    DottedQuad(a, b, c, d);
  }

  lemma DottedQuad(a: string, b: string, c: string, d: string)
    ensures a + "." + b + "." + c + "." + d == a + "." + (b + "." + (c + "." + d))
  {
  }

  /** The printed host and guest addresses, read back, are base + 4k + 1 and base + 4k + 2. */
  lemma PrintedAddresses(k: nat)
    requires k < MAX_INSTANCES
    ensures ReadIpv4(HostIp(k)) == NET_BASE + BLOCK_SIZE * k + 1
    ensures ReadIpv4(GuestIp(k)) == NET_BASE + BLOCK_SIZE * k + 2
  {
    assert Dec(172) == Dec(17) + "2" && Dec(17) == "17";
    assert Dec(16) == "16";
    ReadDottedQuad(172, 16, k / 64, 4 * (k % 64) + 1);
    ReadDottedQuad(172, 16, k / 64, 4 * (k % 64) + 2);
    assert Dec(172) + "." + Dec(16) + "." == "172.16.";
    assert HostIp(k) == Dec(172) + "." + Dec(16) + "." + Dec(k / 64) + "." + Dec(4 * (k % 64) + 1);
    assert GuestIp(k) == Dec(172) + "." + Dec(16) + "." + Dec(k / 64) + "." + Dec(4 * (k % 64) + 2);
  }

  /**
   * The /30s of the instances tile 172.16.0.0/16: every address of the /16 lies in the
   * block of exactly one instance, and no block reaches outside the /16.
   */
  lemma BlocksTile(address: int)
    ensures NET_BASE <= address < NET_BASE + NET_SIZE <==>
            exists k: nat :: k < MAX_INSTANCES && BlockOf(address) == BlockOf(ReadIpv4(HostIp(k)))
    ensures forall k: nat, m: nat ::
              k < MAX_INSTANCES && m < MAX_INSTANCES && BlockOf(ReadIpv4(HostIp(k))) == BlockOf(ReadIpv4(HostIp(m))) ==> k == m
  {
    hide ReadIpv4, HostIp;
    forall k: nat | k < MAX_INSTANCES
      ensures BlockOf(ReadIpv4(HostIp(k))) == NET_BASE + BLOCK_SIZE * k
    {
      PrintedAddresses(k);
    }
    if NET_BASE <= address < NET_BASE + NET_SIZE {
      var k := (address - NET_BASE) / BLOCK_SIZE;
      assert k < MAX_INSTANCES && BlockOf(address) == BlockOf(ReadIpv4(HostIp(k)));
    }
  }

  /** Host and guest are the two distinct usable addresses of one block: neither its first nor its last. */
  lemma UsableAddresses(k: nat)
    requires k < MAX_INSTANCES
    ensures var host, guest := ReadIpv4(HostIp(k)), ReadIpv4(GuestIp(k));
            && host != guest && BlockOf(host) == BlockOf(guest)
            && BlockOf(host) < host < BlockOf(host) + BLOCK_SIZE - 1
            && BlockOf(guest) < guest < BlockOf(guest) + BLOCK_SIZE - 1
  {
    hide ReadIpv4, HostIp, GuestIp;
    PrintedAddresses(k);
  }

  lemma HexDigit(d: nat)
    requires d < 16
    ensures HexValue(HexChar(d)) == d && HexChar(d) != ':'
  {
    assert "0123456789ABCDEF"[..10] == "0123456789";
    assert "0123456789ABCDEF"[10..] == "ABCDEF";
  }

  lemma ReadHex2(n: nat)
    requires n < 256
    ensures ReadOctet(Hex2(n)) == n && ':' !in Hex2(n)
  {
    hide HexChar, HexValue;
    HexDigit(n / 16);
    HexDigit(n % 16);
  }

  lemma SplitMac(hi: string, lo: string)
    requires ':' !in hi && ':' !in lo
    ensures Split("06:00:AC:10:" + hi + ":" + lo, ':') == ["06", "00", "AC", "10", hi, lo]
  {
    hide Split;
    SplitWhole(lo, ':');
    SplitNext(hi, ':', lo, [lo]);
    var tail := hi + ":" + lo;
    SplitNext("10", ':', tail, [hi, lo]);
    SplitNext("AC", ':', "10" + ":" + tail, ["10", hi, lo]);
    SplitNext("00", ':', "AC" + ":" + ("10" + ":" + tail), ["AC", "10", hi, lo]);
    SplitNext("06", ':', "00" + ":" + ("AC" + ":" + ("10" + ":" + tail)), ["00", "AC", "10", hi, lo]);
    MacPrefix(tail);
    assert "06:00:AC:10:" + hi + ":" + lo == "06:00:AC:10:" + tail;
  }

  lemma MacPrefix(tail: string)
    ensures "06" + ":" + ("00" + ":" + ("AC" + ":" + ("10" + ":" + tail))) == "06:00:AC:10:" + tail
  {
    assert "06" + ":" + ("00" + ":" + ("AC" + ":" + ("10" + ":"))) == "06:00:AC:10:";
  }

  /** The printed MAC carries the guest address in its last four octets, and so identifies the instance. */
  lemma MacCarriesGuestAddress(k: nat)
    requires k < MAX_INSTANCES
    ensures ReadMacTail(Mac(k)) == ReadIpv4(GuestIp(k))
    ensures (ReadMacTail(Mac(k)) - NET_BASE) / BLOCK_SIZE == k
  {
    hide Split, ReadIpv4, GuestIp, Hex2, ReadOctet;
    PrintedAddresses(k);
    ReadHex2(k / 64);
    ReadHex2(4 * (k % 64) + 2);
    SplitMac(Hex2(k / 64), Hex2(4 * (k % 64) + 2));
    FixedOctets();
  }

  lemma FixedOctets()
    ensures ReadOctet("AC") == 172 && ReadOctet("10") == 16
  {
  }

  /** No two instances share a tap device. */
  lemma TapNamesDistinct(k: nat, m: nat)
    requires TapName(k) == TapName(m)
    ensures k == m
  {
    assert TapName(k)[3..] == Dec(k) && TapName(m)[3..] == Dec(m);
    DecInjective(k, m);
  }
}
