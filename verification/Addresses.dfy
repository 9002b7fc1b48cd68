/** Wallet addresses as text: lowercase hex, EIP-55's checksummed case, and the strict reader that
    refuses rather than pads. */
module Addresses {
  import opened Wrappers
  import opened Digits

  function Lower(s: string): (r: string)
    ensures |r| == |s| && forall i :: 0 <= i < |s| ==> r[i] == ToLower(s[i])
  {
    seq(|s|, i requires 0 <= i < |s| => ToLower(s[i]))
  }

  predicate Blank(c: char) {
    c == ' ' || '\t' <= c <= '\r'
  }

  function TrimStart(s: string): string {
    if s != "" && Blank(s[0]) then TrimStart(s[1..]) else s
  }

  function TrimEnd(s: string): string {
    if s != "" && Blank(s[|s| - 1]) then TrimEnd(s[..|s| - 1]) else s
  }

  function Trim(s: string): string {
    TrimEnd(TrimStart(s))
  }

  /** `s` spells the bytes `b`: `0x` and their hex digits, in any case, blanks around them. */
  predicate Spells(s: string, b: seq<Byte>) {
    Lower(Trim(s)) == "0x" + Hex(b)
  }

  /** Hex of exactly `n` bytes. It succeeds exactly when `s` spells some `n` bytes, with those. */
  method ParseHex(s: string, n: nat) returns (r: Option<seq<Byte>>)
    ensures r.Some? ==> |r.value| == n && Spells(s, r.value)
    ensures r.None? ==> forall b: seq<Byte> :: |b| == n ==> !Spells(s, b)
  {
    hide Spells, Trim, Nibble, ReadsAs;
    var b := Trim(s);
    if |b| != 2 + n * 2 || b[0] != '0' || (b[1] != 'x' && b[1] != 'X') {
      RefusedHead(s, n);
      return None;
    }
    var out: seq<Byte> := [];
    for i := 0 to n
      invariant |out| == i
      invariant forall j :: 0 <= j < i ==> ReadsAs(b, j, out[j])
    {
      var hi := Nibble(b[2 + i * 2]);
      var lo := Nibble(b[3 + i * 2]);
      if hi.None? || lo.None? {
        RefusedDigit(s, n, i);
        return None;
      }
      JoinReads(b, i, hi.value, lo.value);
      out := out + [16 * hi.value + lo.value];
    }
    ReadsSpell(s, out);
    return Some(out);
  }

  lemma RefusedHead(s: string, n: nat)
    requires var b := Trim(s); |b| != 2 + n * 2 || b[0] != '0' || (b[1] != 'x' && b[1] != 'X')
    ensures forall b: seq<Byte> :: |b| == n ==> !Spells(s, b)
  {
    hide Trim, Hex;
    forall c: seq<Byte> | |c| == n
      ensures !Spells(s, c)
    {
      var t := "0x" + Hex(c);
      assert t[0] == '0' && t[1] == 'x' && |t| == 2 + 2 * n;
    }
  }

  lemma RefusedDigit(s: string, n: nat, i: nat)
    requires i < n && |Trim(s)| == 2 + n * 2
    requires Nibble(Trim(s)[2 + i * 2]).None? || Nibble(Trim(s)[3 + i * 2]).None?
    ensures forall b: seq<Byte> :: |b| == n ==> !Spells(s, b)
  {
    hide Trim, Hex, Nibble, Lower;
    forall c: seq<Byte> | |c| == n
      ensures !Spells(s, c)
    {
      if Spells(s, c) {
        SpelledReads(Trim(s), c, i);
      }
    }
  }

  lemma JoinReads(b: string, i: nat, hi: nat, lo: nat)
    requires 3 + i * 2 < |b| && Nibble(b[2 + i * 2]) == Some(hi) && Nibble(b[3 + i * 2]) == Some(lo)
    ensures 16 * hi + lo < 256 && ReadsAs(b, i, 16 * hi + lo)
  {
    hide Nibble, ToLower, HEX;
    NibbleReadsHex(b[2 + i * 2], hi);
    NibbleReadsHex(b[3 + i * 2], lo);
  }

  /** Digits `2j` and `2j + 1` after the prefix are byte `x`'s, in either case. */
  predicate ReadsAs(b: string, j: nat, x: Byte)
    requires 3 + j * 2 < |b|
  {
    ToLower(b[2 + j * 2]) == HEX[x / 16] && ToLower(b[3 + j * 2]) == HEX[x % 16]
  }

  lemma SpelledReads(b: string, c: seq<Byte>, i: nat)
    requires i < |c| && Lower(b) == "0x" + Hex(c)
    ensures 3 + i * 2 < |b| && Nibble(b[2 + i * 2]) == Some(c[i] / 16) && Nibble(b[3 + i * 2]) == Some(c[i] % 16)
  {
    hide Nibble, ToLower, HEX, Hex;
    HexAt(c, i);
    assert |b| == 2 + 2 * |c|;
    assert Lower(b)[2 + i * 2] == Hex(c)[2 * i];
    assert Lower(b)[3 + i * 2] == Hex(c)[2 * i + 1];
    NibbleReadsHex(b[2 + i * 2], c[i] / 16);
    NibbleReadsHex(b[3 + i * 2], c[i] % 16);
  }

  lemma ReadsSpell(s: string, out: seq<Byte>)
    requires var b := Trim(s); |b| == 2 + 2 * |out| && b[0] == '0' && (b[1] == 'x' || b[1] == 'X')
    requires var b := Trim(s); forall j :: 0 <= j < |out| ==> ReadsAs(b, j, out[j])
    ensures Spells(s, out)
  {
    var b := Trim(s);
    var want := "0x" + Hex(out);
    forall i | 0 <= i < |b|
      ensures Lower(b)[i] == want[i]
    {
      if i >= 2 {
        var j := (i - 2) / 2;
        HexAt(out, j);
        assert ReadsAs(b, j, out[j]);
        assert i == 2 + 2 * j || i == 3 + 2 * j;
        assert want[i] == Hex(out)[i - 2];
      }
    }
  }

  /** No text spells two byte strings. */
  lemma SpellsOne(s: string, a: seq<Byte>, b: seq<Byte>)
    requires Spells(s, a) && Spells(s, b)
    ensures a == b
  {
    assert Hex(a) == ("0x" + Hex(a))[2..];
    assert Hex(b) == ("0x" + Hex(b))[2..];
    HexInjective(a, b);
  }

  lemma HexInjective(a: seq<Byte>, b: seq<Byte>)
    requires Hex(a) == Hex(b)
    ensures a == b
  {
    forall i | 0 <= i < |a|
      ensures a[i] == b[i]
    {
      HexAt(a, i);
      HexAt(b, i);
      NibbleReadsHex(HEX[a[i] / 16], a[i] / 16);
      NibbleReadsHex(HEX[a[i] / 16], b[i] / 16);
      NibbleReadsHex(HEX[a[i] % 16], a[i] % 16);
      NibbleReadsHex(HEX[a[i] % 16], b[i] % 16);
    }
  }

  /** `0x` and lowercase hex digits, into a fixed array. */
  method LowerHex(a: seq<Byte>) returns (out: array<char>)
    requires |a| == 20
    ensures fresh(out) && out[..] == "0x" + Hex(a)
  {
    out := new char[42](_ => '0');
    out[1] := 'x';
    for i := 0 to 20
      invariant out[0] == '0' && out[1] == 'x'
      invariant forall j :: 0 <= j < i ==> out[2 + j * 2] == HEX[a[j] / 16] && out[3 + j * 2] == HEX[a[j] % 16]
    {
      out[2 + i * 2] := HEX[a[i] / 16];
      out[3 + i * 2] := HEX[a[i] % 16];
    }
    HexText(a, out[..]);
  }

  lemma HexText(a: seq<Byte>, s: string)
    requires |s| == 2 + 2 * |a| && s[0] == '0' && s[1] == 'x'
    requires forall j :: 0 <= j < |a| ==> s[2 + j * 2] == HEX[a[j] / 16] && s[3 + j * 2] == HEX[a[j] % 16]
    ensures s == "0x" + Hex(a)
  {
    var want := "0x" + Hex(a);
    forall i | 0 <= i < |s|
      ensures s[i] == want[i]
    {
      if i >= 2 {
        var j := (i - 2) / 2;
        HexAt(a, j);
        assert i == 2 + 2 * j || i == 3 + 2 * j;
        assert want[i] == Hex(a)[i - 2];
      }
    }
  }

  /** Nibble `i` of a 32-byte hash, high half first. */
  function HashNibble(hash: seq<Byte>, i: nat): nat
    requires |hash| == 32 && i < 40
  {
    hash[i / 2] / (if i % 2 == 0 then 16 else 1) % 16
  }

  /** EIP-55: digit `i` is upper case where the hash of the lowercase digits says so. */
  function ChecksumText(a: seq<Byte>, hash: seq<Byte>): (r: string)
    requires |a| == 20 && |hash| == 32
    ensures |r| == 42
  {
    var low := "0x" + Hex(a);
    seq(42, i requires 0 <= i < 42 => if i >= 2 && HashNibble(hash, i - 2) >= 8 then ToUpper(low[i]) else low[i])
  }

  /** The rule as EIP-55 gives it: a digit is upper case exactly where the hash's own hex digit there is 8 or more. */
  lemma ChecksumIsEip55(a: seq<Byte>, hash: seq<Byte>, i: nat)
    requires |a| == 20 && |hash| == 32 && i < 40
    ensures ChecksumText(a, hash)[2 + i] == if Hex(hash)[i] in "89abcdef" then ToUpper(Hex(a)[i]) else Hex(a)[i]
    ensures ChecksumText(a, hash)[..2] == "0x"
  {
    hide Hex, HashNibble, HEX, ToUpper;
    NibbleDigit(hash, i);
    HighDigits(HashNibble(hash, i));
    assert ("0x" + Hex(a))[2 + i] == Hex(a)[i];
  }

  lemma NibbleDigit(hash: seq<Byte>, i: nat)
    requires |hash| == 32 && i < 40
    ensures HashNibble(hash, i) < 16 && Hex(hash)[i] == HEX[HashNibble(hash, i)]
  {
    hide Hex, HEX;
    var k := i / 2;
    HexAt(hash, k);
    assert i == 2 * k || i == 2 * k + 1;
  }

  lemma HighDigits(d: nat)
    requires d < 16
    ensures HEX[d] in "89abcdef" <==> d >= 8
  {
    var low, high := "01234567", "89abcdef";
    if d >= 8 {
      assert HEX[d] == high[d - 8];
    } else {
      assert HEX[d] == low[d];
    }
  }

  method ChecksumHex(a: seq<Byte>, keccak: string -> seq<Byte>) returns (out: array<char>)
    requires |a| == 20 && |keccak(Hex(a))| == 32
    ensures fresh(out) && out[..] == ChecksumText(a, keccak(Hex(a)))
  {
    out := LowerHex(a);
    var low := out[..];
    assert low[2..] == Hex(a);
    var hash := keccak(low[2..]);
    for i := 0 to 40
      invariant forall j :: 0 <= j < 42 ==>
                  out[j] == if 2 <= j < 2 + i && HashNibble(hash, j - 2) >= 8 then ToUpper(low[j]) else low[j]
    {
      if HashNibble(hash, i) >= 8 {
        out[2 + i] := ToUpper(out[2 + i]);
      }
    }
  }

  lemma {:induction false} HexDigitsOnly(b: seq<Byte>, i: nat)
    requires i < 2 * |b|
    ensures Hex(b)[i] in HEX
  {
    HexAt(b, i / 2);
    assert i == 2 * (i / 2) || i == 2 * (i / 2) + 1;
  }

  lemma TrimKeeps(s: string)
    requires s != "" && !Blank(s[0]) && !Blank(s[|s| - 1])
    ensures Trim(s) == s
  {
  }

  /** Whatever the hash, the checksummed text spells the address it was made from; so reading it
      back gives that address, and it is injective. */
  lemma ChecksumSpells(a: seq<Byte>, hash: seq<Byte>)
    requires |a| == 20 && |hash| == 32
    ensures Spells(ChecksumText(a, hash), a)
  {
    var low := "0x" + Hex(a);
    var s := ChecksumText(a, hash);
    forall i | 0 <= i < 42
      ensures ToLower(s[i]) == low[i] && !Blank(s[i])
    {
      if i >= 2 {
        HexDigitsOnly(a, i - 2);
        assert low[i] in HEX;
      }
    }
    TrimKeeps(s);
    assert Lower(s) == low;
  }

  lemma ChecksumInjective(a: seq<Byte>, b: seq<Byte>, ha: seq<Byte>, hb: seq<Byte>)
    requires |a| == 20 && |b| == 20 && |ha| == 32 && |hb| == 32
    requires ChecksumText(a, ha) == ChecksumText(b, hb)
    ensures a == b
  {
    ChecksumSpells(a, ha);
    ChecksumSpells(b, hb);
    SpellsOne(ChecksumText(a, ha), a, b);
  }
}
