/** The identifier format of `RequestMessage.gen_uuid`: sixteen bytes printed
    with `%02x` each, in groups of 4, 2, 2, 2 and 6 bytes joined by `-`.
    The random bytes are a parameter. */
module Uuid {

  type Byte = b: int | 0 <= b < 256

  predicate IsLowerHex(c: char) {
    '0' <= c <= '9' || 'a' <= c <= 'f'
  }

  /** The value of a lowercase hex digit. */
  function HexValue(c: char): (d: int)
    requires IsLowerHex(c)
    ensures 0 <= d < 16
  {
    if c <= '9' then c as int - '0' as int else c as int - 'a' as int + 10
  }

  /** One lowercase hex digit, as `%x` prints it. */
  function HexDigit(d: int): (c: char)
    requires 0 <= d < 16
    ensures IsLowerHex(c) && HexValue(c) == d
  {
    if d < 10 then ('0' as int + d) as char else ('a' as int + d - 10) as char
  }

  /** `"%02x" % b`: always two digits for a byte, high nibble first. */
  function Hex2(b: Byte): (s: string)
    ensures |s| == 2 && IsLowerHex(s[0]) && IsLowerHex(s[1])
    ensures HexValue(s[0]) * 16 + HexValue(s[1]) == b
  {
    [HexDigit(b / 16), HexDigit(b % 16)]
  }

  predicate AllLowerHex(s: string) {
    forall i | 0 <= i < |s| :: IsLowerHex(s[i])
  }

  /** The bytes printed one after another with `%02x`. */
  function HexBytes(bs: seq<Byte>): (s: string)
    ensures |s| == 2 * |bs|
    ensures AllLowerHex(s)
  {
    if bs == [] then [] else Hex2(bs[0]) + HexBytes(bs[1..])
  }

  /** Reads back bytes written by HexBytes, two digits per byte. */
  function UnhexBytes(s: string): (bs: seq<Byte>)
    requires AllLowerHex(s)
    ensures |bs| == |s| / 2
  {
    if |s| < 2 then [] else [HexValue(s[0]) * 16 + HexValue(s[1])] + UnhexBytes(s[2..])
  }

  lemma {:induction false} UnhexHexBytes(bs: seq<Byte>)
    ensures UnhexBytes(HexBytes(bs)) == bs
  {
    if bs != [] {
      var s := HexBytes(bs);
      assert s[2..] == HexBytes(bs[1..]);
      UnhexHexBytes(bs[1..]);
    }
  }

  lemma {:induction false} HexBytesAppend(a: seq<Byte>, b: seq<Byte>)
    ensures HexBytes(a + b) == HexBytes(a) + HexBytes(b)
  {
    if a == [] {
      assert a + b == b;
    } else {
      assert (a + b)[0] == a[0] && (a + b)[1..] == a[1..] + b;
      HexBytesAppend(a[1..], b);
    }
  }

  /** Positions of the four dashes in a formatted identifier. */
  predicate IsDashPosition(i: int) {
    i == 8 || i == 13 || i == 18 || i == 23
  }

  /** The 8-4-4-4-12 shape: 36 characters, dashes at 8, 13, 18 and 23,
      lowercase hex digits everywhere else. */
  predicate IsUuidShape(u: string) {
    && |u| == 36
    && forall i | 0 <= i < 36 :: if IsDashPosition(i) then u[i] == '-' else IsLowerHex(u[i])
  }

  /** `gen_uuid`, given the sixteen bytes it draws. */
  function GenUuid(bytes: seq<Byte>): (u: string)
    requires |bytes| == 16
    ensures IsUuidShape(u)
  {
    var u := HexBytes(bytes[..4]) + "-" + HexBytes(bytes[4..6]) + "-" + HexBytes(bytes[6..8])
             + "-" + HexBytes(bytes[8..10]) + "-" + HexBytes(bytes[10..]);
    assert forall i | 0 <= i < 36 && !IsDashPosition(i) :: IsLowerHex(u[i]) by {
      forall i | 0 <= i < 36 && !IsDashPosition(i) ensures IsLowerHex(u[i]) {
        if i < 8 { assert u[i] == HexBytes(bytes[..4])[i]; }
        else if i < 13 { assert u[i] == HexBytes(bytes[4..6])[i - 9]; }
        else if i < 18 { assert u[i] == HexBytes(bytes[6..8])[i - 14]; }
        else if i < 23 { assert u[i] == HexBytes(bytes[8..10])[i - 19]; }
        else { assert u[i] == HexBytes(bytes[10..])[i - 24]; }
      }
    }
    u
  }

  /** The bytes an identifier of the right shape spells, dashes skipped. */
  function UuidBytes(u: string): (bs: seq<Byte>)
    requires IsUuidShape(u)
    ensures |bs| == 16
  {
    var digits := u[..8] + u[9..13] + u[14..18] + u[19..23] + u[24..];
    assert AllLowerHex(digits) by {
      forall i | 0 <= i < |digits| ensures IsLowerHex(digits[i]) {
        if i < 8 { assert digits[i] == u[i]; }
        else if i < 12 { assert digits[i] == u[i + 1]; }
        else if i < 16 { assert digits[i] == u[i + 2]; }
        else if i < 20 { assert digits[i] == u[i + 3]; }
        else { assert digits[i] == u[i + 4]; }
      }
    }
    UnhexBytes(digits)
  }

  /** No byte is lost: the identifier spells exactly the bytes it was made from. */
  lemma UuidRoundTrip(bytes: seq<Byte>)
    requires |bytes| == 16
    ensures UuidBytes(GenUuid(bytes)) == bytes
  {
    var u := GenUuid(bytes);
    var g0, g1, g2, g3, g4 := bytes[..4], bytes[4..6], bytes[6..8], bytes[8..10], bytes[10..];
    assert u[..8] == HexBytes(g0);
    assert u[9..13] == HexBytes(g1);
    assert u[14..18] == HexBytes(g2);
    assert u[19..23] == HexBytes(g3);
    assert u[24..] == HexBytes(g4);
    HexBytesAppend(g0, g1);
    HexBytesAppend(g0 + g1, g2);
    HexBytesAppend(g0 + g1 + g2, g3);
    HexBytesAppend(g0 + g1 + g2 + g3, g4);
    assert g0 + g1 + g2 + g3 + g4 == bytes;
    UnhexHexBytes(bytes);
  }
}
