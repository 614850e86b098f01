/**
 * Bytes on the wire and the few conversions between bytes and text that the
 * server performs: `new String(bytes)`, `getBytes()` of ASCII text, and the
 * decimal rendering of a length.
 */
module Bytes {
  import opened Seqs

  newtype byte = b: int | 0 <= b < 256

  const CR: byte := 13
  const LF: byte := 10
  const CRLF: seq<byte> := [CR, LF]
  const CRLFCRLF: seq<byte> := [CR, LF, CR, LF]

  /**
   * `new String(bytes)`: each byte becomes the character with that code
   * (ISO-8859-1, which agrees with every ASCII-compatible platform charset
   * on ASCII input).
   */
  function Decode(bs: seq<byte>): (s: string)
    ensures |s| == |bs|
    ensures forall i | 0 <= i < |bs| :: s[i] as int == bs[i] as int
  {
    seq(|bs|, i requires 0 <= i < |bs| => bs[i] as int as char)
  }

  predicate IsAscii(s: string) {
    forall i | 0 <= i < |s| :: s[i] as int < 128
  }

  /** `getBytes()` of ASCII text; decoding gives the text back. */
  function Ascii(s: string): (r: seq<byte>)
    requires IsAscii(s)
    ensures |r| == |s|
    ensures Decode(r) == s
  {
    seq(|s|, i requires 0 <= i < |s| => s[i] as int as byte)
  }

  /** Encoding distributes over concatenation. */
  lemma AsciiConcat(a: string, b: string)
    requires IsAscii(a) && IsAscii(b)
    ensures IsAscii(a + b) && Ascii(a + b) == Ascii(a) + Ascii(b)
  {
    assert IsAscii(a + b) by {
      forall i | 0 <= i < |a + b| ensures (a + b)[i] as int < 128 {
        if i >= |a| { assert (a + b)[i] == b[i - |a|]; }
      }
    }
    var l, r := Ascii(a + b), Ascii(a) + Ascii(b);
    forall i | 0 <= i < |l| ensures l[i] == r[i] {
      assert Decode(l)[i] == (a + b)[i];
      if i < |a| {
        assert Decode(Ascii(a))[i] == a[i];
      } else {
        assert Decode(Ascii(b))[i - |a|] == b[i - |a|];
      }
    }
  }

  /** Decoding commutes with slicing. */
  lemma DecodeSlice(bs: seq<byte>, i: int, j: int)
    requires 0 <= i <= j <= |bs|
    ensures Decode(bs[i..j]) == Decode(bs)[i..j]
  {
  }

  /** A byte pattern occurs exactly where its decoded text occurs in the decoded text. */
  lemma DecodeMatches(bs: seq<byte>, t: seq<byte>, k: int)
    ensures MatchesAt(bs, t, k) <==> MatchesAt(Decode(bs), Decode(t), k)
  {
    if 0 <= k && k + |t| <= |bs| {
      DecodeSlice(bs, k, k + |t|);
      var a, b := bs[k..k + |t|], t;
      if Decode(a) == Decode(b) {
        forall i | 0 <= i < |a| ensures a[i] == b[i] {
          assert Decode(a)[i] == Decode(b)[i];
        }
      }
    }
  }

  /** CRLF holds exactly the two characters carriage return and line feed. */
  lemma DecodeCrlf()
    ensures Decode(CRLF) == "\r\n" && Decode(CRLFCRLF) == "\r\n\r\n"
  {
  }

  /** Searching the bytes finds what searching the decoded text finds. */
  lemma {:induction false} FirstMatchDecode(bs: seq<byte>, t: seq<byte>, start: int, max: int)
    requires 0 <= start && max <= |bs|
    ensures FirstMatch(bs, t, start, max) == FirstMatch(Decode(bs), Decode(t), start, max)
    decreases max - start
  {
    if start <= max - |t| {
      DecodeMatches(bs, t, start);
      FirstMatchDecode(bs, t, start + 1, max);
    }
  }

  predicate IsDigit(b: byte) {
    48 <= b <= 57
  }

  /** Java's decimal rendering of a non-negative number (`"" + n`), as ASCII bytes. */
  function Decimal(n: nat): (r: seq<byte>)
    ensures |r| >= 1
    ensures forall i | 0 <= i < |r| :: IsDigit(r[i])
    ensures r[0] == 48 ==> n == 0
    decreases n
  {
    if n < 10 then [(48 + n) as byte] else Decimal(n / 10) + [(48 + n % 10) as byte]
  }

  /** The number a reader of a `Content-Length` value takes a string of digits to mean. */
  function DigitsValue(s: seq<byte>): nat
    requires forall i | 0 <= i < |s| :: IsDigit(s[i])
  {
    if s == [] then 0
    else
      assert IsDigit(s[|s| - 1]);
      10 * DigitsValue(s[..|s| - 1]) + (s[|s| - 1] as int - 48)
  }

  /** Reading back the rendered length gives the length. */
  lemma {:induction false} DecimalRoundTrip(n: nat)
    ensures DigitsValue(Decimal(n)) == n
    decreases n
  {
    if n >= 10 {
      var r := Decimal(n);
      DecimalRoundTrip(n / 10);
      assert r[..|r| - 1] == Decimal(n / 10);
    }
  }
}
