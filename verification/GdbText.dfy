/** ASCII and hexadecimal text as bytes. */
module GdbText {
  import opened Bytes
  import opened Options

  predicate IsAscii(s: string) {
    forall i :: 0 <= i < |s| ==> s[i] < 128 as char
  }

  function Ascii(s: string): (r: seq<byte>)
    requires IsAscii(s)
    ensures |r| == |s| && forall i :: 0 <= i < |s| ==> r[i] == s[i] as int
  {
    seq(|s|, i requires 0 <= i < |s| => s[i] as int)
  }

  /** A lower-case hexadecimal digit. */
  function HexDigit(d: nat): byte
    requires d < 16
  {
    if d < 10 then 0x30 + d else 0x61 + d - 10
  }

  function HexValue(c: byte): (r: Option<nat>)
    ensures r.Some? ==> r.value < 16
  {
    if 0x30 <= c <= 0x39 then Some(c - 0x30)
    else if 0x61 <= c <= 0x66 then Some(c - 0x61 + 10)
    else if 0x41 <= c <= 0x46 then Some(c - 0x41 + 10)
    else None
  }

  /** `c` is the digit for `d`, in either case. */
  predicate IsDigit(c: byte, d: nat) {
    d < 16 && (c == "0123456789abcdef"[d] as int || c == "0123456789ABCDEF"[d] as int)
  }

  lemma {:induction false} HexValueIff(c: byte, d: nat)
    ensures HexValue(c) == Some(d) <==> IsDigit(c, d)
  {
  }

  lemma {:induction false} HexDigitIs(d: nat)
    requires d < 16
    ensures HexDigit(d) == "0123456789abcdef"[d] as int
  {
  }

  lemma {:induction false} HexValueDigit(d: nat)
    requires d < 16
    ensures HexValue(HexDigit(d)) == Some(d)
  {
  }

  /** `{:x}` */
  function Hex(n: nat): (r: seq<byte>)
    ensures r != []
  {
    if n < 16 then [HexDigit(n)] else Hex(n / 16) + [HexDigit(n % 16)]
  }

  /** `{:02x}` of a byte. */
  function Hex2(b: byte): (r: seq<byte>)
    ensures |r| == 2
  {
    [HexDigit(b / 16), HexDigit(b % 16)]
  }

  function HexBytes(bs: seq<byte>): seq<byte> {
    if bs == [] then [] else HexBytes(bs[..|bs| - 1]) + Hex2(bs[|bs| - 1])
  }

  predicate IsHex(s: seq<byte>) {
    forall i :: 0 <= i < |s| ==> HexValue(s[i]).Some?
  }

  lemma {:induction false} HexIsHex(n: nat)
    ensures IsHex(Hex(n))
  {
    if n >= 16 {
      HexIsHex(n / 16);
      HexValueDigit(n % 16);
    }
  }

  lemma {:induction false} HexBytesIsHex(bs: seq<byte>)
    ensures IsHex(HexBytes(bs))
  {
    if bs != [] {
      HexBytesIsHex(bs[..|bs| - 1]);
      HexValueDigit(bs[|bs| - 1] / 16);
      HexValueDigit(bs[|bs| - 1] % 16);
    }
  }
}
