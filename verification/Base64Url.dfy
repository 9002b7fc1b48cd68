/** Unpadded base64url (section 5 of RFC 4648): the streaming decoder over a 32-bit accumulator, and
    the streaming encoder, each proved against the bit stream it stands for. */
module Base64Url {
  import opened Wrappers

  const ALPHABET: string := UPPER + LOWER + REST
  const WORD: nat := 0x1_0000_0000

  // ---- Bit streams ----

  function Pow2(k: nat): (r: nat)
    ensures r >= 1
  {
    if k == 0 then 1 else 2 * Pow2(k - 1)
  }

  /** The low `w` bits of `v`, most significant first. */
  function Bits(v: nat, w: nat): (r: seq<bool>)
    ensures |r| == w
  {
    if w == 0 then [] else Bits(v / 2, w - 1) + [v % 2 == 1]
  }

  /** The stream's value without its low `k` bits, and those bits' own value. */
  function Hi(v: nat, k: nat): nat {
    Quotient(v, Pow2(k))
  }

  function Quotient(v: nat, d: nat): nat
    requires d > 0
  {
    v / d
  }

  function Lo(v: nat, k: nat): (r: nat)
    ensures r < Pow2(k)
  {
    v % Pow2(k)
  }

  predicate Joins(v: nat, hi: nat, lo: nat, k: nat) {
    v == hi * Pow2(k) + lo && lo < Pow2(k)
  }

  lemma JoinsUnique(v: nat, hi: nat, lo: nat, k: nat)
    ensures Joins(v, hi, lo, k) <==> hi == Hi(v, k) && lo == Lo(v, k)
  {
    var d := Pow2(k);
    if Joins(v, hi, lo, k) {
      DivModUnique(v, d, hi, lo);
    }
  }

  lemma DivModUnique(v: nat, d: nat, q: nat, r: nat)
    requires d > 0 && v == d * q + r && r < d
    ensures v / d == q && v % d == r
  {
    var e := v / d - q;
    assert v == d * (v / d) + v % d;
    assert d * e == r - v % d;
    MulFar(d, e);
  }

  lemma MulFar(d: int, e: int)
    requires d > 0
    ensures e >= 1 ==> d * e >= d
    ensures e <= -1 ==> d * e <= -d
  {
  }

  /** Halving keeps a value's parts at a smaller place. */
  lemma HalvesJoin(v: nat, hi: nat, lo: nat, k: nat)
    requires Joins(v, hi, lo, k + 1)
    ensures Joins(v / 2, hi, lo / 2, k) && v % 2 == lo % 2
  {
    var t := hi * Pow2(k);
    assert hi * Pow2(k + 1) == 2 * t;
  }

  lemma {:induction false} JoinedBits(v: nat, a: nat, k: nat, hi: nat, lo: nat)
    requires Joins(v, hi, lo, k)
    ensures Bits(v, a + k) == Bits(hi, a) + Bits(lo, k)
  {
    if k > 0 {
      HalvesJoin(v, hi, lo, k - 1);
      JoinedBits(v / 2, a, k - 1, hi, lo / 2);
    }
  }

  /** A stream of `a + k` bits is its top `a` followed by its low `k`. */
  lemma BitsSplit(v: nat, a: nat, k: nat)
    ensures Bits(v, a + k) == Bits(Hi(v, k), a) + Bits(Lo(v, k), k)
  {
    hide Hi, Lo, Joins, Bits;
    JoinsUnique(v, Hi(v, k), Lo(v, k), k);
    JoinedBits(v, a, k, Hi(v, k), Lo(v, k));
  }

  /** Only the low bits count. */
  lemma BitsLow(v: nat, w: nat)
    ensures Bits(Lo(v, w), w) == Bits(v, w)
  {
    hide Lo, Hi;
    BitsSplit(v, 0, w);
    assert Bits(Hi(v, w), 0) == [];
  }

  lemma {:induction false} BitsInjective(u: nat, v: nat, w: nat)
    requires u < Pow2(w) && v < Pow2(w) && Bits(u, w) == Bits(v, w)
    ensures u == v
  {
    if w > 0 {
      var bu, bv := Bits(u, w), Bits(v, w);
      assert bu[..w - 1] == Bits(u / 2, w - 1) && bv[..w - 1] == Bits(v / 2, w - 1);
      assert bu[w - 1] == bv[w - 1];
      BitsInjective(u / 2, v / 2, w - 1);
    }
  }

  function ByteBits(b: seq<Byte>): (r: seq<bool>)
    ensures |r| == 8 * |b|
  {
    if b == [] then [] else ByteBits(b[..|b| - 1]) + Bits(b[|b| - 1], 8)
  }

  lemma ByteBitsAppend(b: seq<Byte>, x: Byte)
    ensures ByteBits(b + [x]) == ByteBits(b) + Bits(x, 8)
  {
    assert (b + [x])[..|b|] == b;
  }

  lemma {:induction false} ByteBitsPrefix(a: seq<Byte>, b: seq<Byte>)
    requires |a| == |b| && ByteBits(a) == ByteBits(b)
    ensures a == b
  {
    if a != [] {
      var n := |a| - 1;
      assert ByteBits(a)[..8 * n] == ByteBits(a[..n]) && ByteBits(b)[..8 * n] == ByteBits(b[..n]);
      assert ByteBits(a)[8 * n..] == Bits(a[n], 8) && ByteBits(b)[8 * n..] == Bits(b[n], 8);
      ByteBitsPrefix(a[..n], b[..n]);
      PowValues();
      BitsInjective(a[n], b[n], 8);
      assert a == a[..n] + [a[n]] && b == b[..n] + [b[n]];
    }
  }

  lemma PowValues()
    ensures Pow2(0) == 1 && Pow2(2) == 4 && Pow2(4) == 16 && Pow2(6) == 64 && Pow2(8) == 256
    ensures Pow2(10) == 1024 && Pow2(12) == 4096 && Pow2(14) == 16384 && Pow2(32) == WORD
  {
    assert Pow2(6) == 64;
    assert Pow2(8) == 4 * Pow2(6);
    assert Pow2(10) == 4 * Pow2(8);
    assert Pow2(12) == 4 * Pow2(10);
    assert Pow2(14) == 4 * Pow2(12);
    assert Pow2(16) == 4 * Pow2(14);
    assert Pow2(20) == 16 * Pow2(16);
    assert Pow2(24) == 16 * Pow2(20);
    assert Pow2(28) == 16 * Pow2(24);
    assert Pow2(32) == 16 * Pow2(28);
  }

  // ---- Characters ----

  /** The decoder's table. */
  function Value(c: char): (r: Option<nat>)
    ensures r.Some? ==> r.value < 64
  {
    if 'A' <= c <= 'Z' then Some((c - 'A') as nat)
    else if 'a' <= c <= 'z' then Some((c - 'a') as nat + 26)
    else if '0' <= c <= '9' then Some((c - '0') as nat + 52)
    else if c == '-' then Some(62)
    else if c == '_' then Some(63)
    else None
  }

  predicate InAlphabet(s: string) {
    forall i :: 0 <= i < |s| ==> Value(s[i]).Some?
  }

  /** The encoder's alphabet and the decoder's table are inverse. */
  lemma AlphabetAt(v: nat)
    requires v < 64
    ensures Value(ALPHABET[v]) == Some(v)
  {
    AlphabetSpelt(v);
    hide ALPHABET;
  }

  /** The alphabet is the capitals, the small letters, the digits, a minus and an underscore. */
  lemma AlphabetSpelt(v: nat)
    requires v < 64
    ensures |ALPHABET| == 64
    ensures ALPHABET[v] == if v < 26 then 'A' + v as char else if v < 52 then 'a' + (v - 26) as char
                           else if v < 62 then '0' + (v - 52) as char else if v == 62 then '-' else '_'
  {
    hide Value;
    if v < 26 {
      UpperAt(v);
    } else if v < 52 {
      LowerAt(v - 26);
    } else {
      RestAt(v - 52);
    }
  }

  const UPPER: string := "ABCDEFGHIJKLMNOPQRSTUVWXYZ"
  const LOWER: string := "abcdefghijklmnopqrstuvwxyz"
  const REST: string := "0123456789-_"

  lemma UpperAt(v: nat)
    requires v < 26
    ensures |UPPER| == 26 && UPPER[v] == 'A' + v as char
  {
  }

  lemma LowerAt(v: nat)
    requires v < 26
    ensures |LOWER| == 26 && LOWER[v] == 'a' + v as char
  {
  }

  lemma RestAt(v: nat)
    requires v < 12
    ensures |REST| == 12 && REST[v] == if v < 10 then '0' + v as char else if v == 10 then '-' else '_'
  {
  }

  lemma ValueAt(c: char)
    requires Value(c).Some?
    ensures ALPHABET[Value(c).value] == c
  {
    AlphabetSpelt(Value(c).value);
    hide ALPHABET;
  }

  /** Six bits a character. */
  function CharBits(s: string): (r: seq<bool>)
    requires InAlphabet(s)
    ensures |r| == 6 * |s|
  {
    if s == "" then [] else CharBits(s[..|s| - 1]) + Bits(Value(s[|s| - 1]).value, 6)
  }

  lemma CharBitsAppend(s: string, c: char)
    requires InAlphabet(s) && Value(c).Some?
    ensures InAlphabet(s + [c]) && CharBits(s + [c]) == CharBits(s) + Bits(Value(c).value, 6)
  {
    assert (s + [c])[..|s|] == s;
  }

  lemma {:induction false} CharBitsInjective(s: string, t: string)
    requires InAlphabet(s) && InAlphabet(t) && CharBits(s) == CharBits(t)
    ensures s == t
  {
    hide Bits, Value, Pow2, ALPHABET;
    assert |s| == |t|;
    if s != "" {
      var n := |s| - 1;
      assert CharBits(s)[..6 * n] == CharBits(s[..n]) && CharBits(t)[..6 * n] == CharBits(t[..n]);
      assert CharBits(s)[6 * n..] == Bits(Value(s[n]).value, 6) && CharBits(t)[6 * n..] == Bits(Value(t[n]).value, 6);
      CharBitsInjective(s[..n], t[..n]);
      PowValues();
      BitsInjective(Value(s[n]).value, Value(t[n]).value, 6);
      ValueAt(s[n]);
      ValueAt(t[n]);
      assert s == s[..n] + [s[n]] && t == t[..n] + [t[n]];
    }
  }

  // ---- The decoder ----

  /** `b` is what `s` decodes to: the whole bytes at the front of its bit stream, dropping fewer than
      eight bits left over. */
  ghost predicate Decodes(s: string, b: seq<Byte>) {
    InAlphabet(s) && |b| == 6 * |s| / 8 && ByteBits(b) == CharBits(s)[..8 * |b|]
  }

  lemma DecodesOne(s: string, a: seq<Byte>, b: seq<Byte>)
    requires Decodes(s, a) && Decodes(s, b)
    ensures a == b
  {
    ByteBitsPrefix(a, b);
  }

  /** The low `have` bits of the accumulator. */
  function Low(bits: nat, have: nat): (r: seq<bool>)
    ensures |r| == have
  {
    Bits(Lo(bits, have), have)
  }

  /** Shifts a 32-bit accumulator up by a character or a byte, dropping what goes past the top. */
  function PushChar(bits: nat, v: nat): (r: nat)
    ensures r < WORD
  {
    (bits * 64 + v) % WORD
  }

  function PushByte(bits: nat, v: nat): (r: nat)
    ensures r < WORD
  {
    (bits * 256 + v) % WORD
  }

  function TopByte(bits: nat, have: nat): (r: nat)
    ensures r < 256
  {
    PowValues();
    Lo(Hi(bits, have), 8)
  }

  function TopChar(bits: nat, have: nat): (r: nat)
    ensures r < 64
  {
    PowValues();
    Lo(Hi(bits, have), 6)
  }

  /** A word of 32 bits keeps the low bits of what is pushed into it. */
  lemma {:induction false} LoLo(v: nat, a: nat, b: nat)
    ensures Lo(Lo(v, a + b), a) == Lo(v, a)
  {
    var hi, mid := Hi(v, a + b), Lo(v, a + b);
    JoinsUnique(v, hi, mid, a + b);
    JoinsUnique(mid, Hi(mid, a), Lo(mid, a), a);
    PowSum(a, b);
    JoinTwice(hi, Pow2(a), Pow2(b), Hi(mid, a), Lo(mid, a));
    JoinsUnique(v, hi * Pow2(b) + Hi(mid, a), Lo(mid, a), a);
  }

  lemma JoinTwice(hi: nat, pa: nat, pb: nat, m: nat, l: nat)
    ensures hi * (pa * pb) + (m * pa + l) == (hi * pb + m) * pa + l
  {
  }

  lemma {:induction false} PowSum(a: nat, b: nat)
    ensures Pow2(a + b) == Pow2(a) * Pow2(b)
  {
    if b > 0 {
      PowSum(a, b - 1);
    }
  }

  lemma WordKeepsLow(v: nat, a: nat)
    requires a <= 32
    ensures Low(v % WORD, a) == Bits(v, a)
  {
    assert v % WORD == Lo(v, 32) by {
      PowValues();
    }
    hide Lo, Hi, Pow2;
    LoLo(v, a, 32 - a);
    BitsLow(v, a);
  }

  /** Pushing `v`, of `k` bits, behind `bits`. */
  lemma PushedBits(bits: nat, v: nat, have: nat, k: nat, wide: nat)
    requires Joins(wide, bits, v, k)
    ensures Bits(wide, have + k) == Low(bits, have) + Bits(v, k)
  {
    hide Lo, Hi, Joins;
    JoinedBits(wide, have, k, bits, v);
    BitsLow(bits, have);
  }

  /** One character into the accumulator: the low `have` bits and the character's six, in a word
      that drops everything above 32 bits, still hold the low `have + 6` bits of the stream. */
  lemma Accumulate(bits: nat, have: nat, v: nat)
    requires have <= 8 && v < 64
    ensures Low(PushChar(bits, v), have + 6) == Low(bits, have) + Bits(v, 6)
  {
    hide Low, Bits;
    var wide := bits * 64 + v;
    assert Joins(wide, bits, v, 6) by {
      PowValues();
    }
    PushedBits(bits, v, have, 6, wide);
    WordKeepsLow(wide, have + 6);
  }

  /** Taking `k` bits off the top of `have`. */
  lemma TakeTop(bits: nat, have: nat, k: nat)
    requires have >= k
    ensures Low(bits, have) == Bits(Lo(Hi(bits, have - k), k), k) + Low(bits, have - k)
  {
    hide Lo, Hi;
    BitsLow(bits, have);
    BitsSplit(bits, k, have - k);
    BitsLow(Hi(bits, have - k), k);
  }

  lemma TakeByte(bits: nat, have: nat)
    requires have >= 8
    ensures Low(bits, have) == Bits(TopByte(bits, have - 8), 8) + Low(bits, have - 8)
  {
    TakeTop(bits, have, 8);
  }

  lemma Assoc(a: seq<bool>, b: seq<bool>, c: seq<bool>)
    ensures a + b + c == a + (b + c)
  {
  }

  /** base64url without padding into `out`; the number of bytes written. It fails exactly when a
      character is not of the alphabet or the bytes do not fit. */
  method Decode(s: string, out: array<Byte>) returns (r: Option<nat>)
    modifies out
    ensures r.Some? <==> InAlphabet(s) && 6 * |s| / 8 <= out.Length
    ensures r.Some? ==> r.value <= out.Length && Decodes(s, out[..r.value])
  {
    hide Pow2, Bits, Value, Low, PushChar, TopByte, ByteBits, CharBits;
    var bits: nat := 0;
    var have: nat := 0;
    var n := 0;
    var i := 0;
    while i < |s|
      invariant 0 <= i <= |s| && InAlphabet(s[..i])
      invariant 0 <= have < 8 && 0 <= n <= out.Length && 8 * n + have == 6 * i
      invariant bits < WORD
      invariant ByteBits(out[..n]) + Low(bits, have) == CharBits(s[..i])
    {
      var v := Value(s[i]);
      if v.None? {
        return None;
      }
      assert s[..i + 1] == s[..i] + [s[i]];
      CharBitsAppend(s[..i], s[i]);
      ghost var before := out[..n];
      Accumulate(bits, have, v.value);
      Assoc(ByteBits(before), Low(bits, have), Bits(v.value, 6));
      bits := PushChar(bits, v.value);
      have := have + 6;
      if have >= 8 {
        TakeByte(bits, have);
        have := have - 8;
        if n >= out.Length {
          return None;
        }
        out[n] := TopByte(bits, have);
        ByteBitsAppend(before, out[n]);
        Assoc(ByteBits(before), Bits(out[n], 8), Low(bits, have));
        assert out[..n + 1] == before + [out[n]];
        n := n + 1;
      }
      i := i + 1;
    }
    assert s[..|s|] == s;
    return Some(n);
  }

  // ---- The encoder ----

  function Zeros(n: nat): (r: seq<bool>)
    ensures |r| == n
  {
    Bits(0, n)
  }

  /** How many zero bits close the last character of `n` bytes. */
  function Padding(n: nat): nat {
    match n % 3 case 0 => 0 case 1 => 4 case _ => 2
  }

  /** `s` is the encoding of `b`: its bits, then zeros out to a whole character. */
  ghost predicate Encodes(b: seq<Byte>, s: string) {
    InAlphabet(s) && CharBits(s) == ByteBits(b) + Zeros(Padding(|b|))
  }

  method Encode(bytes: seq<Byte>) returns (s: string)
    ensures Encodes(bytes, s)
  {
    hide Pow2, Bits, ALPHABET, Low, PushByte, ByteBits, CharBits;
    var bits: nat := 0;
    var have: nat := 0;
    s := "";
    for i := 0 to |bytes|
      invariant 0 <= have < 6 && 6 * |s| + have == 8 * i && bits < WORD
      invariant InAlphabet(s)
      invariant CharBits(s) + Low(bits, have) == ByteBits(bytes[..i])
    {
      assert bytes[..i + 1] == bytes[..i] + [bytes[i]];
      ByteBitsAppend(bytes[..i], bytes[i]);
      AccumulateByte(bits, have, bytes[i]);
      Assoc(CharBits(s), Low(bits, have), Bits(bytes[i], 8));
      bits := PushByte(bits, bytes[i]);
      have := have + 8;
      s, have := Drain(s, bits, have);
    }
    assert bytes[..|bytes|] == bytes;
    s := Finish(s, bits, have);
    PaddingIs(|bytes|, |s|, have);
  }

  method Finish(start: string, bits: nat, have: nat) returns (s: string)
    requires InAlphabet(start) && have < 6
    ensures InAlphabet(s) && |s| == |start| + (if have > 0 then 1 else 0)
    ensures CharBits(s) == CharBits(start) + Low(bits, have) + Zeros(if have > 0 then 6 - have else 0)
  {
    hide Bits, Low, CharBits, LastValue;
    s := start;
    if have > 0 {
      LastChar(bits, have);
      s := Emit(s, LastValue(bits, have));
      Assoc(CharBits(start), Low(bits, have), Zeros(6 - have));
    }
  }

  lemma PaddingIs(n: nat, chars: nat, have: nat)
    requires have < 6 && 6 * (chars - (if have > 0 then 1 else 0)) + have == 8 * n
    ensures Padding(n) == if have > 0 then 6 - have else 0
  {
    var whole := chars - (if have > 0 then 1 else 0);
    assert 6 * (whole - 4 * (n / 3)) == 8 * (n % 3) - have;
  }

  /** Six bits a character leave over what closes the last byte's characters, unless one dangles. */
  lemma LeftOver(chars: nat)
    ensures 6 * chars % 8 == Padding(6 * chars / 8) <==> chars % 4 != 1
  {
    var q := chars / 4;
    if chars % 4 == 0 {
      assert 6 * chars == 8 * (3 * q);
      assert 6 * chars / 8 == 3 * q;
    } else if chars % 4 == 1 {
      assert 6 * chars == 8 * (3 * q) + 6;
      assert 6 * chars / 8 == 3 * q;
    } else if chars % 4 == 2 {
      assert 6 * chars == 8 * (3 * q + 1) + 4;
      assert 6 * chars / 8 == 3 * q + 1;
    } else {
      assert 6 * chars == 8 * (3 * q + 2) + 2;
      assert 6 * chars / 8 == 3 * q + 2;
    }
  }

  /** The inner loop: whole characters off the top of the accumulator. */
  method Drain(start: string, bits: nat, held: nat) returns (s: string, have: nat)
    requires InAlphabet(start) && held < 14
    ensures have < 6 && 6 * |s| + have == 6 * |start| + held && InAlphabet(s)
    ensures CharBits(s) + Low(bits, have) == CharBits(start) + Low(bits, held)
  {
    hide Bits, Low, TopChar;
    s, have := start, held;
    while have >= 6
      invariant 0 <= have <= held && 6 * |s| + have == 6 * |start| + held && InAlphabet(s)
      invariant CharBits(s) + Low(bits, have) == CharBits(start) + Low(bits, held)
    {
      TakeChar(bits, have);
      have := have - 6;
      Assoc(CharBits(s), Bits(TopChar(bits, have), 6), Low(bits, have));
      s := Emit(s, TopChar(bits, have));
    }
  }

  method Emit(s: string, v: nat) returns (r: string)
    requires InAlphabet(s) && v < 64
    ensures |r| == |s| + 1 && InAlphabet(r) && CharBits(r) == CharBits(s) + Bits(v, 6)
  {
    AlphabetAt(v);
    r := s + [ALPHABET[v]];
    CharBitsAppend(s, ALPHABET[v]);
  }

  lemma AccumulateByte(bits: nat, have: nat, v: Byte)
    requires have <= 8
    ensures Low(PushByte(bits, v), have + 8) == Low(bits, have) + Bits(v, 8)
  {
    hide Low, Bits;
    var wide := bits * 256 + v;
    assert Joins(wide, bits, v, 8) by {
      PowValues();
    }
    PushedBits(bits, v, have, 8, wide);
    WordKeepsLow(wide, have + 8);
  }

  lemma TakeChar(bits: nat, have: nat)
    requires have >= 6
    ensures Low(bits, have) == Bits(TopChar(bits, have - 6), 6) + Low(bits, have - 6)
  {
    TakeTop(bits, have, 6);
  }

  /** The bits left over, moved to the top of a last character. */
  function LastValue(bits: nat, have: nat): (r: nat)
    requires have <= 6
    ensures r < 64
  {
    bits * Pow2(6 - have) % WORD % 64
  }

  /** They are followed by zeros. */
  lemma LastChar(bits: nat, have: nat)
    requires 0 < have < 6
    ensures Bits(LastValue(bits, have), 6) == Low(bits, have) + Zeros(6 - have)
  {
    var shifted := bits * Pow2(6 - have);
    assert Joins(shifted, bits, 0, 6 - have);
    PushedBits(bits, 0, have, 6 - have, shifted);
    WordKeepsLow(shifted, 6);
    assert LastValue(bits, have) == Lo(shifted % WORD, 6) by {
      PowValues();
    }
  }

  // ---- Main results ----

  /** Decoding undoes encoding: whatever decodes from the encoding of `b` is `b`. */
  lemma DecodeUndoesEncode(b: seq<Byte>, s: string)
    requires Encodes(b, s)
    ensures 6 * |s| / 8 == |b| && Decodes(s, b)
  {
    assert |CharBits(s)| == 8 * |b| + Padding(|b|);
    assert CharBits(s)[..8 * |b|] == ByteBits(b);
  }

  lemma EncodesOne(b: seq<Byte>, s: string, t: string)
    requires Encodes(b, s) && Encodes(b, t)
    ensures s == t
  {
    CharBitsInjective(s, t);
  }

  /** Nothing but zeros is left over, and less than a character of it. */
  predicate Canonical(s: string)
    requires InAlphabet(s)
  {
    |s| % 4 != 1 && CharBits(s)[8 * (6 * |s| / 8)..] == Zeros(6 * |s| % 8)
  }

  /** The decoder also takes texts no encoder writes. Encoding what `s` decodes to gives `s` back
      exactly when `s` has no dangling character and its leftover bits are zero. */
  lemma EncodeUndoesDecodeIff(s: string, b: seq<Byte>)
    requires Decodes(s, b)
    ensures Encodes(b, s) <==> Canonical(s)
  {
    hide CharBits, ByteBits, Zeros;
    LeftOver(|s|);
    var bits, n := CharBits(s), 8 * |b|;
    assert |bits| == n + 6 * |s| % 8;
    assert bits == bits[..n] + bits[n..];
    if Encodes(b, s) {
      assert |bits| == n + Padding(|b|);
      assert bits[n..] == Zeros(Padding(|b|));
    }
  }

  /** A text the decoder takes though no encoder writes it: `AB` and `AA` both decode to one zero byte. */
  lemma NotInjective()
    ensures Decodes("AA", [0]) && Decodes("AB", [0]) && !Canonical("AB")
  {
    hide Bits;
    TwoChars('A', 'A');
    TwoChars('A', 'B');
    PowValues();
    BitsSplit(0, 6, 2);
    BitsSplit(0, 2, 4);
    BitsSplit(1, 2, 4);
    var z: seq<Byte> := [0];
    assert ByteBits(z) == ByteBits([]) + Bits(0, 8);
    assert CharBits("AA")[..8] == Bits(0, 8);
    assert CharBits("AB")[..8] == Bits(0, 8);
    assert CharBits("AB")[8..] == Bits(1, 4);
    if Bits(1, 4) == Bits(0, 4) {
      BitsInjective(1, 0, 4);
    }
  }

  lemma TwoChars(a: char, b: char)
    requires Value(a).Some? && Value(b).Some?
    ensures InAlphabet([a, b]) && CharBits([a, b]) == Bits(Value(a).value, 6) + Bits(Value(b).value, 6)
  {
    hide Bits, Value;
    CharBitsAppend("", a);
    assert "" + [a] == [a];
    CharBitsAppend([a], b);
    assert [a] + [b] == [a, b];
  }

  // ---- Every byte string has an encoding ----

  /** The number some bits spell, most significant first. */
  function Spelled(bits: seq<bool>): (v: nat)
    ensures v < Pow2(|bits|)
  {
    if bits == [] then 0 else 2 * Spelled(bits[..|bits| - 1]) + (if bits[|bits| - 1] then 1 else 0)
  }

  lemma {:induction false} BitsSpelled(bits: seq<bool>)
    ensures Bits(Spelled(bits), |bits|) == bits
  {
    if bits != [] {
      var front := bits[..|bits| - 1];
      BitsSpelled(front);
      assert Spelled(bits) / 2 == Spelled(front);
      assert bits == front + [bits[|bits| - 1]];
    }
  }

  lemma {:induction false} CharsFor(bits: seq<bool>) returns (s: string)
    requires |bits| % 6 == 0
    ensures InAlphabet(s) && CharBits(s) == bits
  {
    hide Bits, Value, Spelled;
    if bits == [] {
      s := "";
    } else {
      var n := |bits| - 6;
      var front := CharsFor(bits[..n]);
      var v := Spelled(bits[n..]);
      BitsSpelled(bits[n..]);
      PowValues();
      AlphabetAt(v);
      CharBitsAppend(front, ALPHABET[v]);
      assert bits == bits[..n] + bits[n..];
      s := front + [ALPHABET[v]];
    }
  }

  lemma EncodingExists(b: seq<Byte>) returns (s: string)
    ensures Encodes(b, s)
  {
    hide ByteBits, Zeros, Padding, CharBits;
    WholeChars(|b|);
    s := CharsFor(ByteBits(b) + Zeros(Padding(|b|)));
  }

  lemma WholeChars(n: nat)
    ensures (8 * n + Padding(n)) % 6 == 0
  {
    var q := n / 3;
    assert 8 * n + Padding(n) == 6 * (4 * q + (match n % 3 case 0 => 0 case 1 => 2 case _ => 3));
  }
}
