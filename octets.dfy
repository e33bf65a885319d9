/**
 * Bytes and byte strings. Every string of the chat system is modelled by its
 * UTF-8 bytes, so encoding and decoding text are the identity here; string
 * literals are written in ASCII and converted with Ascii.
 */
module Octets {

  type byte = x: int | 0 <= x < 256

  /** A string, as the bytes of its UTF-8 encoding. */
  type Text = seq<byte>

  const NEWLINE: byte := 10

  /** The bytes of an ASCII string literal. */
  function Ascii(s: string): (r: Text)
    ensures |r| == |s|
  {
    seq(|s|, i requires 0 <= i < |s| => (s[i] as int) % 256)
  }

  // ---------------------------------------------------------------------
  // Unsigned big-endian integers (struct's "!B" and "!I", int.to_bytes)
  // ---------------------------------------------------------------------

  function Pow256(k: nat): (r: nat)
    ensures r >= 1
  {
    if k == 0 then 1 else 256 * Pow256(k - 1)
  }

  /** The k-byte big-endian form of n modulo 256^k. */
  function ToBE(n: nat, k: nat): (r: seq<byte>)
    ensures |r| == k
  {
    if k == 0 then [] else ToBE(n / 256, k - 1) + [n % 256]
  }

  /** The unsigned value of a big-endian byte string. */
  function FromBE(s: seq<byte>): nat
  {
    if s == [] then 0 else FromBE(s[..|s| - 1]) * 256 + s[|s| - 1]
  }

  lemma {:induction false} FromBEBound(s: seq<byte>)
    ensures FromBE(s) < Pow256(|s|)
  {
    if s != [] {
      FromBEBound(s[..|s| - 1]);
      assert FromBE(s[..|s| - 1]) + 1 <= Pow256(|s| - 1);
      assert (FromBE(s[..|s| - 1]) + 1) * 256 <= Pow256(|s| - 1) * 256;
    }
  }

  /** Reading back k big-endian bytes gives the number that was written. */
  lemma {:induction false} FromToBE(n: nat, k: nat)
    requires n < Pow256(k)
    ensures FromBE(ToBE(n, k)) == n
  {
    if k > 0 {
      var s := ToBE(n, k);
      assert s[..k - 1] == ToBE(n / 256, k - 1);
      assert n / 256 < Pow256(k - 1);
      FromToBE(n / 256, k - 1);
    }
  }

  const U32_LIMIT: nat := 0x1_0000_0000

  lemma Pow256Four()
    ensures Pow256(4) == U32_LIMIT && Pow256(1) == 256
  {
  }

  /** struct.pack("!I", n) for 0 <= n < 2^32. */
  function U32(n: nat): (r: seq<byte>)
    ensures |r| == 4
  {
    ToBE(n, 4)
  }

  lemma U32RoundTrip(n: nat)
    requires n < U32_LIMIT
    ensures FromBE(U32(n)) == n
  {
    Pow256Four();
    FromToBE(n, 4);
  }

  lemma U32Bound(s: seq<byte>)
    requires |s| == 4
    ensures FromBE(s) < U32_LIMIT
  {
    Pow256Four();
    FromBEBound(s);
  }

  // ---------------------------------------------------------------------
  // Decimal rendering of integers (what an f-string prints for an int)
  // ---------------------------------------------------------------------

  predicate IsDigit(b: byte) { 48 <= b <= 57 }

  function NatDigits(n: nat): (r: Text)
    ensures |r| >= 1
  {
    if n < 10 then [48 + n] else NatDigits(n / 10) + [48 + n % 10]
  }

  function IntText(n: int): (r: Text)
  {
    if n < 0 then [45] + NatDigits(-n) else NatDigits(n)
  }

  /** The value of a string of decimal digits. */
  function DigitsValue(s: Text): nat
  {
    if s == [] then 0 else DigitsValue(s[..|s| - 1]) * 10 + (if IsDigit(s[|s| - 1]) then s[|s| - 1] - 48 else 0)
  }

  lemma {:induction false} NatDigitsRoundTrip(n: nat)
    ensures forall i | 0 <= i < |NatDigits(n)| :: IsDigit(NatDigits(n)[i])
    ensures DigitsValue(NatDigits(n)) == n
  {
    if n >= 10 {
      NatDigitsRoundTrip(n / 10);
      var s := NatDigits(n);
      assert s[..|s| - 1] == NatDigits(n / 10);
    }
  }

  /**
   * The decimal text of an integer is a minus sign exactly for negative
   * numbers, followed by digits whose value is the magnitude.
   */
  lemma IntTextRoundTrip(n: int)
    ensures var r := IntText(n);
      && (n < 0 <==> (|r| > 0 && r[0] == 45))
      && (n < 0 ==> DigitsValue(r[1..]) == -n)
      && (n >= 0 ==> DigitsValue(r) == n)
  {
    if n < 0 {
      NatDigitsRoundTrip(-n);
      assert IntText(n)[1..] == NatDigits(-n);
    } else {
      NatDigitsRoundTrip(n);
      assert IsDigit(NatDigits(n)[0]);
    }
  }

  // ---------------------------------------------------------------------
  // Single-placeholder templates ("{} has joined the chat".format(x))
  // ---------------------------------------------------------------------

  const OPEN_BRACE: byte := 123
  const CLOSE_BRACE: byte := 125

  predicate NoBraces(s: Text)
  {
    forall i | 0 <= i < |s| :: s[i] != OPEN_BRACE && s[i] != CLOSE_BRACE
  }

  /** str.format with one positional argument: the first "{}" becomes arg. */
  function Format(template: Text, arg: Text): Text
  {
    if |template| < 2 then template
    else if template[0] == OPEN_BRACE && template[1] == CLOSE_BRACE then arg + template[2..]
    else [template[0]] + Format(template[1..], arg)
  }

  lemma {:induction false} FormatOnePlaceholder(pre: Text, post: Text, arg: Text)
    requires NoBraces(pre)
    ensures Format(pre + [OPEN_BRACE, CLOSE_BRACE] + post, arg) == pre + arg + post
  {
    var t := pre + [OPEN_BRACE, CLOSE_BRACE] + post;
    if pre != [] {
      assert t[1..] == pre[1..] + [OPEN_BRACE, CLOSE_BRACE] + post;
      FormatOnePlaceholder(pre[1..], post, arg);
    } else {
      assert t[2..] == post;
    }
  }
}
