/**
 * The output file name `vbios_%x_%x.bin`: `%x` prints an unsigned value in
 * lower-case hexadecimal with no padding and no prefix.
 */
module HexName {
  import opened Wrappers

  predicate IsHexDigit(c: char) {
    '0' <= c <= '9' || 'a' <= c <= 'f'
  }

  predicate AllHex(s: string) {
    forall i :: 0 <= i < |s| ==> IsHexDigit(s[i])
  }

  function DigitValue(c: char): (d: nat)
    requires IsHexDigit(c)
    ensures d < 16
  {
    if c <= '9' then c as int - '0' as int else c as int - 'a' as int + 10
  }

  /** The lower-case digit `%x` prints for a value below 16. */
  function Digit(d: nat): (c: char)
    requires d < 16
    ensures IsHexDigit(c) && DigitValue(c) == d
  {
    if d < 10 then ('0' as int + d) as char else ('a' as int + d - 10) as char
  }

  /** `%x` of `n`: lower-case hexadecimal, most significant digit first, no leading zeros. */
  function Hex(n: nat): (s: string)
    ensures |s| >= 1 && AllHex(s)
    decreases n
  {
    if n < 16 then [Digit(n)] else Hex(n / 16) + [Digit(n % 16)]
  }

  /** The value of a string of hexadecimal digits. */
  function HexValue(s: string): nat
    requires AllHex(s)
  {
    if s == [] then 0 else HexValue(s[..|s| - 1]) * 16 + DigitValue(s[|s| - 1])
  }

  /** Appending a digit multiplies the value by 16 and adds the digit. */
  lemma {:induction false} HexValueSnoc(front: string, c: char)
    requires AllHex(front) && IsHexDigit(c)
    ensures AllHex(front + [c]) && HexValue(front + [c]) == HexValue(front) * 16 + DigitValue(c)
  {
    var s := front + [c];
    assert s[..|s| - 1] == front;
  }

  lemma {:induction false} HexRoundTrip(n: nat)
    ensures HexValue(Hex(n)) == n
    decreases n
  {
    if n >= 16 {
      HexRoundTrip(n / 16);
      HexValueSnoc(Hex(n / 16), Digit(n % 16));
    }
  }

  /** `%x` pads with no zeros: only zero itself prints a leading '0'. */
  lemma {:induction false} HexUnpadded(n: nat)
    ensures (Hex(n)[0] == '0') <==> n == 0
    decreases n
  {
    if n >= 16 {
      HexUnpadded(n / 16);
    }
  }

  /** A 16-bit value prints in at most four digits. */
  lemma {:induction false} HexWidth(n: nat)
    ensures n < 0x1_0000 ==> |Hex(n)| <= 4
    ensures n < 0x1000 ==> |Hex(n)| <= 3
    ensures n < 0x100 ==> |Hex(n)| <= 2
    decreases n
  {
    if n >= 16 {
      HexWidth(n / 16);
    }
  }

  /** The name snprintf builds from `"vbios_%x_%x.bin"`, VendorID and DeviceID. */
  function FileName(vendorId: nat, deviceId: nat): (name: string)
    ensures |name| == 11 + |Hex(vendorId)| + |Hex(deviceId)|
    ensures name[..6] == "vbios_" && name[|name| - 4..] == ".bin"
  {
    "vbios_" + Hex(vendorId) + "_" + Hex(deviceId) + ".bin"
  }

  /** The 0x400-byte `vbios_name` buffer never truncates a name built from two 16-bit IDs. */
  lemma {:induction false} FileNameFits(vendorId: nat, deviceId: nat)
    requires vendorId < 0x1_0000 && deviceId < 0x1_0000
    ensures |FileName(vendorId, deviceId)| <= 19 < 0x400
  {
    HexWidth(vendorId);
    HexWidth(deviceId);
  }

  /** Index of the first occurrence of `c` in `s`. */
  function IndexOf(s: string, c: char): (r: Option<nat>)
    ensures r.Some? ==> r.value < |s| && s[r.value] == c && c !in s[..r.value]
    ensures r.None? ==> c !in s
  {
    if s == [] then None
    else if s[0] == c then Some(0)
    else match IndexOf(s[1..], c)
      case None => None
      case Some(i) => Some(i + 1)
  }

  /** Recovers the vendor and device IDs from a name FileName produced. */
  function ParseFileName(name: string): Option<(nat, nat)>
  {
    if |name| < 10 || name[..6] != "vbios_" || name[|name| - 4..] != ".bin" then None
    else ParseIds(name[6..|name| - 4])
  }

  /** Splits `<hex>_<hex>` at its first underscore and reads both halves. */
  function ParseIds(body: string): Option<(nat, nat)>
  {
    match IndexOf(body, '_')
    case None => None
    case Some(k) =>
      var v, d := body[..k], body[k + 1..];
      if v != [] && d != [] && AllHex(v) && AllHex(d) then Some((HexValue(v), HexValue(d)))
      else None
  }

  /** The first `c` is found just past a prefix that holds none. */
  lemma {:induction false} IndexOfFirst(a: string, c: char, b: string)
    requires c !in a
    ensures IndexOf(a + [c] + b, c) == Some(|a|)
    decreases |a|
  {
    if a != [] {
      assert (a + [c] + b)[1..] == a[1..] + [c] + b;
      IndexOfFirst(a[1..], c, b);
    }
  }

  lemma {:induction false} ParseFrame(body: string)
    ensures ParseFileName("vbios_" + body + ".bin") == ParseIds(body)
  {
    var name := "vbios_" + body + ".bin";
    assert name[..6] == "vbios_";
    assert name[|name| - 4..] == ".bin";
    assert name[6..|name| - 4] == body;
  }

  lemma {:induction false} ParseIdsRoundTrip(vendorId: nat, deviceId: nat)
    ensures ParseIds(Hex(vendorId) + "_" + Hex(deviceId)) == Some((vendorId, deviceId))
  {
    var hv, hd := Hex(vendorId), Hex(deviceId);
    var body := hv + "_" + hd;
    assert '_' !in hv by {
      forall i | 0 <= i < |hv| ensures hv[i] != '_' {
        assert IsHexDigit(hv[i]);
      }
    }
    IndexOfFirst(hv, '_', hd);
    assert body[..|hv|] == hv;
    assert body[|hv| + 1..] == hd;
    HexRoundTrip(vendorId);
    HexRoundTrip(deviceId);
  }

  lemma {:induction false} FileNameRoundTrip(vendorId: nat, deviceId: nat)
    ensures ParseFileName(FileName(vendorId, deviceId)) == Some((vendorId, deviceId))
  {
    var body := Hex(vendorId) + "_" + Hex(deviceId);
    assert FileName(vendorId, deviceId) == "vbios_" + body + ".bin";
    ParseFrame(body);
    ParseIdsRoundTrip(vendorId, deviceId);
  }

  /** The name determines the (VendorID, DeviceID) pair: distinct pairs never share a file. */
  lemma {:induction false} FileNameInjective(v1: nat, d1: nat, v2: nat, d2: nat)
    ensures FileName(v1, d1) == FileName(v2, d2) <==> v1 == v2 && d1 == d2
  {
    FileNameRoundTrip(v1, d1);
    FileNameRoundTrip(v2, d2);
  }
}
