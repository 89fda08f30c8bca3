/**
  Lower-case hexadecimal, as Rust's `{:x}` prints an MD5 digest: two digits
  per byte, high nibble first, each in 0-9a-f.
 */
module Hex {
  import opened Wrappers
  import opened FileSystem

  /** An MD5 digest (RFC 1321): sixteen bytes. */
  type Digest = d: seq<byte> | |d| == 16 witness [0, 0, 0, 0, 0, 0, 0, 0, 0, 0, 0, 0, 0, 0, 0, 0]

  predicate IsLowerHexDigit(c: char)
  {
    '0' <= c <= '9' || 'a' <= c <= 'f'
  }

  /** The value of a lower-case hex digit; None for any other character. */
  function DigitValue(c: char): (r: Option<nat>)
    ensures r.Some? <==> IsLowerHexDigit(c)
    ensures r.Some? ==> r.value < 16
  {
    if '0' <= c <= '9' then Some(c as nat - '0' as nat)
    else if 'a' <= c <= 'f' then Some(c as nat - 'a' as nat + 10)
    else None
  }

  /** The lower-case digit of a nibble. */
  function HexDigit(n: nat): (c: char)
    requires n < 16
    ensures IsLowerHexDigit(c) && DigitValue(c) == Some(n)
  {
    if n < 10 then ('0' as nat + n) as char else ('a' as nat + n - 10) as char
  }

  /** `{:02x}` of every byte in turn. */
  function LowerHex(bytes: seq<byte>): (s: string)
    ensures |s| == 2 * |bytes|
    ensures forall i :: 0 <= i < |s| ==> IsLowerHexDigit(s[i])
  {
    if bytes == [] then []
    else [HexDigit(bytes[0] as nat / 16), HexDigit(bytes[0] as nat % 16)] + LowerHex(bytes[1..])
  }

  /** Reads a lower-case hex string back into bytes; None for an odd length or a non-digit. */
  function ParseHex(s: string): (r: Option<seq<byte>>)
    ensures r.Some? ==> 2 * |r.value| == |s|
  {
    if s == [] then Some([])
    else if |s| == 1 then None
    else match (DigitValue(s[0]), DigitValue(s[1]), ParseHex(s[2..]))
      case (Some(hi), Some(lo), Some(rest)) => Some([(hi * 16 + lo) as byte] + rest)
      case _ => None
  }

  /** Byte `i` is printed at positions 2i (high nibble) and 2i + 1 (low nibble). */
  lemma {:induction false} LowerHexAt(bytes: seq<byte>, i: nat)
    requires i < |bytes|
    ensures LowerHex(bytes)[2 * i] == HexDigit(bytes[i] as nat / 16)
    ensures LowerHex(bytes)[2 * i + 1] == HexDigit(bytes[i] as nat % 16)
  {
    if i > 0 {
      LowerHexAt(bytes[1..], i - 1);
    }
  }

  /** Parsing undoes printing. */
  lemma {:induction false} ParseLowerHex(bytes: seq<byte>)
    ensures ParseHex(LowerHex(bytes)) == Some(bytes)
  {
    if bytes != [] {
      var b := bytes[0] as nat;
      var s := LowerHex(bytes);
      assert s[2..] == LowerHex(bytes[1..]);
      assert DigitValue(s[0]) == Some(b / 16) && DigitValue(s[1]) == Some(b % 16);
      ParseLowerHex(bytes[1..]);
      assert (b / 16 * 16 + b % 16) as byte == bytes[0];
      assert [bytes[0]] + bytes[1..] == bytes;
    }
  }

  /** Distinct byte strings print differently. */
  lemma LowerHexInjective(a: seq<byte>, b: seq<byte>)
    ensures LowerHex(a) == LowerHex(b) ==> a == b
  {
    ParseLowerHex(a);
    ParseLowerHex(b);
  }
}
