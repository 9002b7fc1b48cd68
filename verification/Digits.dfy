/** Decimal and hexadecimal text: printing, and reading back what was printed. */
module Digits {
  import opened Wrappers

  // ---- Decimal ----

  function Digit(d: nat): char
    requires d < 10
  {
    '0' + d as char
  }

  /** `v` in decimal, most significant digit first, no leading zeros. */
  function Decimal(v: nat): string {
    if v < 10 then [Digit(v)] else Decimal(v / 10) + [Digit(v % 10)]
  }

  function Pow10(k: nat): nat {
    if k == 0 then 1 else 10 * Pow10(k - 1)
  }

  lemma {:induction false} DecimalFits(v: nat, k: nat)
    requires k >= 1 && v < Pow10(k)
    ensures |Decimal(v)| <= k
  {
    if v >= 10 {
      DecimalFits(v / 10, k - 1);
    }
  }

  lemma {:induction false} DecimalLengthGrows(u: nat, v: nat)
    requires u <= v
    ensures |Decimal(u)| <= |Decimal(v)|
  {
    if u >= 10 {
      DecimalLengthGrows(u / 10, v / 10);
    }
  }

  /** Every 64-bit count prints in the twenty bytes the source sets aside. */
  lemma U64Fits(v: nat)
    requires v < 0x1_0000_0000_0000_0000
    ensures |Decimal(v)| <= 20
  {
    assert Pow10(4) == 10_000;
    assert Pow10(8) == 10_000 * Pow10(4);
    assert Pow10(12) == 10_000 * Pow10(8);
    assert Pow10(16) == 10_000 * Pow10(12);
    assert Pow10(20) == 10_000 * Pow10(16);
    DecimalFits(v, 20);
  }

  function Reversed(s: string): string {
    if s == "" then "" else Reversed(s[1..]) + [s[0]]
  }

  lemma {:induction false} ReversedAppend(s: string, c: char)
    ensures Reversed(s + [c]) == [c] + Reversed(s)
  {
    if s != "" {
      assert (s + [c])[1..] == s[1..] + [c];
      ReversedAppend(s[1..], c);
    }
  }

  /** The digit loop shared by `Text::num` and `personal_sign_digest`: least significant digit
      first into a twenty-byte buffer, then reversed. */
  method PrintDecimal(value: nat) returns (text: string)
    requires value < 0x1_0000_0000_0000_0000
    ensures text == Decimal(value)
  {
    U64Fits(value);
    var buf := new char[20];
    var n := 0;
    var v := value;
    while true
      invariant 0 <= n < 20
      invariant n == 0 ==> v == value
      invariant n > 0 ==> v > 0
      invariant |Decimal(v)| + n <= 20
      invariant Decimal(value) == Decimal(v) + Reversed(buf[..n])
      decreases v
    {
      ghost var before := buf[..n];
      buf[n] := Digit(v % 10);
      ReversedAppend(before, Digit(v % 10));
      assert buf[..n + 1] == before + [Digit(v % 10)];
      assert Decimal(value) == (if v < 10 then "" else Decimal(v / 10)) + Reversed(buf[..n + 1]);
      v := v / 10;
      n := n + 1;
      if v == 0 {
        break;
      }
    }
    text := Reversed(buf[..n]);
  }

  // ---- Hexadecimal ----

  const HEX: string := "0123456789abcdef"

  function Hex(b: seq<Byte>): (r: string)
    ensures |r| == 2 * |b|
  {
    if b == [] then "" else [HEX[b[0] / 16], HEX[b[0] % 16]] + Hex(b[1..])
  }

  lemma {:induction false} HexAt(b: seq<Byte>, i: nat)
    requires i < |b|
    ensures Hex(b)[2 * i] == HEX[b[i] / 16] && Hex(b)[2 * i + 1] == HEX[b[i] % 16]
  {
    if i > 0 {
      HexAt(b[1..], i - 1);
      assert Hex(b)[2 * i] == Hex(b[1..])[2 * (i - 1)];
      assert Hex(b)[2 * i + 1] == Hex(b[1..])[2 * (i - 1) + 1];
    }
  }

  lemma {:induction false} HexAppend(b: seq<Byte>, x: Byte)
    ensures Hex(b + [x]) == Hex(b) + [HEX[x / 16], HEX[x % 16]]
  {
    if b != [] {
      assert (b + [x])[1..] == b[1..] + [x];
      HexAppend(b[1..], x);
    }
  }

  function Nibble(c: char): (r: Option<nat>)
    ensures r.Some? ==> r.value < 16
  {
    if '0' <= c <= '9' then Some((c - '0') as nat)
    else if 'a' <= c <= 'f' then Some((c - 'a') as nat + 10)
    else if 'A' <= c <= 'F' then Some((c - 'A') as nat + 10)
    else None
  }

  function ToLower(c: char): char {
    if 'A' <= c <= 'Z' then c + ('a' - 'A') else c
  }

  function ToUpper(c: char): char {
    if 'a' <= c <= 'z' then c - ('a' - 'A') else c
  }

  /** A character reads as digit `d` exactly when it is `HEX[d]` in either case. */
  lemma NibbleReadsHex(c: char, d: nat)
    requires d < 16
    ensures Nibble(c) == Some(d) <==> ToLower(c) == HEX[d]
  {
  }
}
