/** Byte strings as big-endian numbers: the hexadecimal detour by which MAC addresses are compared
    (apis/flowconfig/v1/validate.go) and the conversion of IPv4 addresses (flow/ipv4.go). */
module Bytes {

  import opened Wrappers
  import opened FlowTypes

  /** The number whose base-256 digits, most significant first, are bs. */
  function BigEndian(bs: seq<byte>): nat {
    if bs == [] then 0 else 256 * BigEndian(bs[..|bs| - 1]) + bs[|bs| - 1]
  }

  function Pow256(n: nat): nat {
    if n == 0 then 1 else 256 * Pow256(n - 1)
  }

  lemma {:induction false} BigEndianBound(bs: seq<byte>)
    ensures BigEndian(bs) < Pow256(|bs|)
  {
    if bs != [] {
      BigEndianBound(bs[..|bs| - 1]);
    }
  }

  /** The value of a concatenation: the front counts in units of the size of the back. */
  lemma {:induction false} BigEndianConcat(front: seq<byte>, back: seq<byte>)
    ensures BigEndian(front + back) == BigEndian(front) * Pow256(|back|) + BigEndian(back)
  {
    if back == [] {
      assert front + back == front;
    } else {
      var back', d := back[..|back| - 1], back[|back| - 1];
      BigEndianConcat(front, back');
      assert (front + back)[..|front + back| - 1] == front + back';
      ShiftIn(BigEndian(front), Pow256(|back'|), BigEndian(back'), d);
    }
  }

  lemma ShiftIn(front: nat, p: nat, back: nat, d: nat)
    ensures 256 * (front * p + back) + d == front * (256 * p) + (256 * back + d)
  {}

  /** Division with a known quotient and remainder. */
  lemma Quotient(q: nat, d: nat, r: nat)
    requires r < d
    ensures (q * d + r) / d == q && (q * d + r) % d == r
  {
    var k := (q * d + r) / d;
    assert k * d + (q * d + r) % d == q * d + r;
    assert (q - k) * d == q * d - k * d;
    MultipleSize(q - k, d);
  }

  lemma MultipleSize(x: int, d: nat)
    ensures x >= 1 ==> x * d >= d
    ensures x <= -1 ==> x * d + d <= 0
  {
    assert x * d == (x - 1) * d + d;
    assert x * d == (x + 1) * d - d;
  }

  // ---------------------------------------------------------------------- MAC addresses

  /** A hexadecimal digit, as its value. */
  type nibble = x: int | 0 <= x < 16

  /** hex.Encode: two digits for each byte. */
  function HexEncode(addr: seq<byte>): seq<nibble> {
    if addr == [] then []
    else HexEncode(addr[..|addr| - 1]) + [addr[|addr| - 1] / 16, addr[|addr| - 1] % 16]
  }

  function HexValue(digits: seq<nibble>): nat {
    if digits == [] then 0 else 16 * HexValue(digits[..|digits| - 1]) + digits[|digits| - 1]
  }

  /** strconv.ParseInt(_, 16, 64): the empty string and values of 2^63 and more are errors. */
  function ParseInt64(digits: seq<nibble>): Option<nat> {
    if digits == [] || HexValue(digits) >= 0x8000_0000_0000_0000 then None else Some(HexValue(digits))
  }

  /** encodeHexMacAddress: encode, parse, and keep the low 32 bits. */
  function EncodeHexMacAddress(addr: seq<byte>): Option<uint32> {
    match ParseInt64(HexEncode(addr))
    case None => None
    case Some(v) => Some(v % 0x1_0000_0000)
  }

  /** Encoding to hexadecimal and reading the digits back is the big-endian value. */
  lemma {:induction false} HexRoundTrip(addr: seq<byte>)
    ensures HexValue(HexEncode(addr)) == BigEndian(addr)
    ensures |HexEncode(addr)| == 2 * |addr|
  {
    if addr != [] {
      var front, last := addr[..|addr| - 1], addr[|addr| - 1];
      HexRoundTrip(front);
      var digits := HexEncode(addr);
      assert digits[..|digits| - 1] == HexEncode(front) + [last / 16];
      assert (HexEncode(front) + [last / 16])[..|HexEncode(front)|] == HexEncode(front);
      assert HexValue(digits[..|digits| - 1]) == 16 * HexValue(HexEncode(front)) + last / 16;
    }
  }

  /** What the encoding of a MAC address is: an error for no bytes or for a value that does not fit
      in a signed 64-bit integer, otherwise the value of its last four bytes. */
  lemma MacEncodingIsLastFourBytes(addr: seq<byte>)
    ensures EncodeHexMacAddress(addr).None? <==> addr == [] || BigEndian(addr) >= 0x8000_0000_0000_0000
    ensures EncodeHexMacAddress(addr).Some? && |addr| >= 4 ==>
              EncodeHexMacAddress(addr).value == BigEndian(addr[|addr| - 4..])
    ensures |addr| == 6 ==> EncodeHexMacAddress(addr).Some?
  {
    HexRoundTrip(addr);
    if |addr| >= 4 { LowWord(addr); }
    if |addr| == 6 { SplitMac(addr); Pow256Of4(); BigEndianBound(addr); }
  }

  lemma LowWord(addr: seq<byte>)
    requires |addr| >= 4
    ensures BigEndian(addr) % 0x1_0000_0000 == BigEndian(addr[|addr| - 4..])
  {
    var front, back := addr[..|addr| - 4], addr[|addr| - 4..];
    assert addr == front + back;
    BigEndianConcat(front, back);
    BigEndianBound(back);
    Pow256Of4();
    Quotient(BigEndian(front), 0x1_0000_0000, BigEndian(back));
  }

  lemma Pow256Of4()
    ensures Pow256(2) == 0x1_0000 && Pow256(4) == 0x1_0000_0000 && Pow256(6) == 0x1_0000_0000_0000
  {
    assert Pow256(1) == 256;
    assert Pow256(3) == 256 * Pow256(2);
    assert Pow256(5) == 256 * Pow256(4);
  }

  /** The test "last is at least spec" works on the truncated values. It agrees with the order of
      the 48-bit addresses exactly when the top two bytes are in the same order as the rest; in
      particular for all addresses that share their top two bytes. */
  lemma TruncatedOrderAgreesIff(spec: seq<byte>, last: seq<byte>)
    requires |spec| == 6 && |last| == 6
    ensures EncodeHexMacAddress(spec).Some? && EncodeHexMacAddress(last).Some?
    ensures (EncodeHexMacAddress(spec).value <= EncodeHexMacAddress(last).value
             <==> BigEndian(spec) <= BigEndian(last))
            <==> || BigEndian(spec[..2]) == BigEndian(last[..2])
                 || (BigEndian(spec[2..]) <= BigEndian(last[2..]) <==> BigEndian(spec[..2]) < BigEndian(last[..2]))
    ensures spec[..2] == last[..2] ==>
              (EncodeHexMacAddress(spec).value <= EncodeHexMacAddress(last).value
               <==> BigEndian(spec) <= BigEndian(last))
  {
    MacEncodingIsLastFourBytes(spec);
    MacEncodingIsLastFourBytes(last);
    SplitMac(spec);
    SplitMac(last);
  }

  lemma SplitMac(addr: seq<byte>)
    requires |addr| == 6
    ensures BigEndian(addr) == BigEndian(addr[..2]) * 0x1_0000_0000 + BigEndian(addr[2..])
    ensures BigEndian(addr[2..]) < 0x1_0000_0000
  {
    assert addr == addr[..2] + addr[2..];
    BigEndianConcat(addr[..2], addr[2..]);
    BigEndianBound(addr[2..]);
    Pow256Of4();
  }

  /** The order test is wrong for 00:01:00:00:00:00 after 00:00:00:00:00:01. */
  lemma TruncatedOrderCanDisagree(spec: seq<byte>, last: seq<byte>)
    requires spec == [0, 0, 0, 0, 0, 1] && last == [0, 1, 0, 0, 0, 0]
    ensures BigEndian(spec) < BigEndian(last)
    ensures EncodeHexMacAddress(spec) == Some(1) && EncodeHexMacAddress(last) == Some(0)
  {
    MacValue(0, 0, 0, 0, 0, 1);
    MacValue(0, 1, 0, 0, 0, 0);
  }

  lemma MacValue(a: byte, b: byte, c: byte, d: byte, e: byte, f: byte)
    ensures BigEndian([a, b, c, d, e, f]) == (256 * a as int + b) * 0x1_0000_0000 + Pack(c, d, e, f)
    ensures EncodeHexMacAddress([a, b, c, d, e, f]) == Some(Pack(c, d, e, f))
  {
    var addr: seq<byte> := [a, b, c, d, e, f];
    assert addr[..2] == [a, b] && addr[2..] == [c, d, e, f];
    SplitMac(addr);
    TwoBytes(a, b);
    FourBytes(c, d, e, f);
    MacEncodingIsLastFourBytes(addr);
  }

  lemma TwoBytes(a: byte, b: byte)
    ensures BigEndian([a, b]) == 256 * (a as int) + b
  {
    var w: seq<byte> := [a, b];
    assert w[..1] == [a] && [a][..0] == [];
    assert BigEndian([a]) == a as int;
    assert BigEndian(w) == 256 * BigEndian(w[..1]) + w[1];
  }

  lemma FourBytes(a: byte, b: byte, c: byte, d: byte)
    ensures BigEndian([a, b, c, d]) == Pack(a, b, c, d)
  {
    assert [a, b, c, d] == [a, b] + [c, d];
    BigEndianConcat([a, b], [c, d]);
    Pow256Of4();
    TwoBytes(a, b);
    TwoBytes(c, d);
  }

  // ---------------------------------------------------------------------- IPv4 addresses

  /** ipToUint32. None stands for the index-out-of-range panic of binary.BigEndian.Uint32. */
  function IpToUint32(ip: seq<byte>): Option<uint32> {
    if |ip| == 16 then Some(Word(ip[12..16]))
    else if |ip| < 3 then Some(0)
    else if |ip| < 4 then None
    else Some(Word(ip[..4]))
  }

  /** binary.BigEndian.Uint32 */
  function Word(b: seq<byte>): (w: uint32)
    requires |b| == 4
    ensures w == BigEndian(b)
  {
    FourBytes(b[0], b[1], b[2], b[3]);
    assert b == [b[0], b[1], b[2], b[3]];
    Pack(b[0], b[1], b[2], b[3])
  }

  function Pack(a: nat, b: nat, c: nat, d: nat): nat {
    0x100_0000 * a + 0x1_0000 * b + 0x100 * c + d
  }

  /** Uint32ToIP fills a four-byte buffer. */
  method Uint32ToIP(val: uint32) returns (ip: array<byte>)
    ensures fresh(ip) && ip[..] == IpBytes(val)
  {
    ip := new byte[4];
    ip[0] := val / 0x100_0000;
    ip[1] := val / 0x1_0000 % 0x100;
    ip[2] := val / 0x100 % 0x100;
    ip[3] := val % 0x100;
  }

  function IpBytes(val: uint32): seq<byte> {
    [val / 0x100_0000, val / 0x1_0000 % 0x100, val / 0x100 % 0x100, val % 0x100]
  }

  /** The two conversions undo each other on four-byte addresses, on every 32-bit value, and from a
      sixteen-byte address recover its last four bytes. Only a three-byte input panics: the guard
      in the code stops at lengths below three although four bytes are read. */
  lemma IpRoundTrip(ip: seq<byte>, val: uint32)
    ensures IpToUint32(IpBytes(val)) == Some(val)
    ensures |ip| == 4 ==> IpToUint32(ip).Some? && IpBytes(IpToUint32(ip).value) == ip
    ensures |ip| == 16 ==> IpToUint32(ip).Some? && IpBytes(IpToUint32(ip).value) == ip[12..]
    ensures IpToUint32(ip).None? <==> |ip| == 3
  {
    assert IpBytes(val)[..4] == IpBytes(val);
    WordOfBytes(val);
    if |ip| == 4 {
      assert ip[..4] == ip;
      BytesOfWord(ip[0], ip[1], ip[2], ip[3]);
    }
    if |ip| == 16 {
      BytesOfWord(ip[12], ip[13], ip[14], ip[15]);
    }
  }

  lemma BytesOfWord(a: byte, b: byte, c: byte, d: byte)
    ensures Pack(a, b, c, d) < 0x1_0000_0000
    ensures IpBytes(Pack(a, b, c, d)) == [a, b, c, d]
  {
    var w := Pack(a, b, c, d);
    Quotient(a, 0x100_0000, 0x1_0000 * b as int + 0x100 * c as int + d);
    Quotient(0x100 * a as int + b, 0x1_0000, 0x100 * c as int + d);
    Quotient(a, 0x100, b);
    Quotient(0x1_0000 * a as int + 0x100 * b as int + c, 0x100, d);
    Quotient(0x100 * a as int + b, 0x100, c);
    assert w / 0x100_0000 == a && w / 0x1_0000 == 0x100 * a as int + b;
    assert w / 0x100 == 0x1_0000 * a as int + 0x100 * b as int + c;
  }

  lemma WordOfBytes(val: uint32)
    ensures Pack(val / 0x100_0000, val / 0x1_0000 % 0x100, val / 0x100 % 0x100, val % 0x100) == val
  {
    var v1, d := val / 0x100, val % 0x100;
    var v2, c := v1 / 0x100, v1 % 0x100;
    var v3, b := v2 / 0x100, v2 % 0x100;
    Quotient(v2, 0x1_0000, 0x100 * c + d);
    Quotient(v3, 0x100_0000, 0x1_0000 * b + 0x100 * c + d);
  }
}
