/** Elo Pros passes: a signed text of exactly seven lines, checked against this server and spent
    against its single-use nonces. Signatures, UTF-8 and player ids are parameters. */
module Passes {
  import opened Wrappers
  import Base64Url
  import Nonces
  import Digits

  const PASS_TEXT_MAX: nat := 768
  const SIG_MAX: nat := 64

  datatype PassError = Malformed | WrongSigner | Elsewhere | Replayed | Expired

  /** A player id as parsed: what it spells, and whether it is a wallet (else an account). */
  datatype PlayerId = PlayerId(text: string, isWallet: bool)

  datatype Passed = Passed(account: PlayerId, wallet: Option<PlayerId>)

  /** What the check is made against. */
  datatype Env = Env(
    signed: (seq<Byte>, seq<Byte>) -> bool,
    utf8: seq<Byte> -> bool,
    playerId: string -> Option<PlayerId>,
    slug: string,
    hosts: seq<string>,
    mac: string -> string)

  // ---- Lines ----

  function IndexOf(s: string, c: char): (r: nat)
    ensures r <= |s| && c !in s[..r]
    ensures r < |s| ==> s[r] == c
    ensures r == |s| <==> c !in s
  {
    if s == "" then 0
    else if s[0] == c then 0
    else
      var r := IndexOf(s[1..], c);
      assert s[..1 + r] == [s[0]] + s[1..][..r];
      assert s == [s[0]] + s[1..];
      1 + r
  }

  lemma IndexOfIs(a: string, c: char, rest: string)
    requires c !in a
    ensures IndexOf(a + [c] + rest, c) == |a|
  {
    var s := a + [c] + rest;
    var r := IndexOf(s, c);
    forall i | 0 <= i < |a|
      ensures s[i] != c
    {
      assert s[i] == a[i];
    }
    forall i | 0 <= i < r
      ensures s[i] != c
    {
      assert s[i] == s[..r][i];
    }
    assert s[|a|] == c;
  }

  function Lines(s: string): seq<string> {
    var k := IndexOf(s, '\n');
    if k == |s| then [s] else [s[..k]] + Lines(s[k + 1..])
  }

  function Unlines(lines: seq<string>): string {
    if lines == [] then "" else if |lines| == 1 then lines[0] else lines[0] + "\n" + Unlines(lines[1..])
  }

  predicate OneLine(s: string) {
    '\n' !in s
  }

  lemma {:induction false} LinesJoin(s: string)
    ensures Lines(s) != [] && Unlines(Lines(s)) == s
  {
    hide Unlines, IndexOf;
    var k := IndexOf(s, '\n');
    if k == |s| {
      UnlinesOne(s);
    } else {
      var tail := s[k + 1..];
      LinesJoin(tail);
      UnlinesCons(s[..k], Lines(tail));
      assert s == s[..k] + "\n" + tail;
    }
  }

  lemma UnlinesOne(a: string)
    ensures Unlines([a]) == a
  {
  }

  lemma UnlinesCons(a: string, rest: seq<string>)
    requires rest != []
    ensures Unlines([a] + rest) == a + "\n" + Unlines(rest)
  {
    assert ([a] + rest)[1..] == rest;
  }

  lemma {:induction false} LinesAreLines(s: string)
    ensures forall i :: 0 <= i < |Lines(s)| ==> OneLine(Lines(s)[i])
  {
    var k := IndexOf(s, '\n');
    if k < |s| {
      LinesAreLines(s[k + 1..]);
    }
  }

  lemma {:induction false} JoinLines(lines: seq<string>)
    requires lines != [] && forall i :: 0 <= i < |lines| ==> OneLine(lines[i])
    ensures Lines(Unlines(lines)) == lines
  {
    if |lines| > 1 {
      var rest := Unlines(lines[1..]);
      JoinLines(lines[1..]);
      var s := lines[0] + "\n" + rest;
      IndexOfIs(lines[0], '\n', rest);
      assert s[..|lines[0]|] == lines[0] && s[|lines[0]| + 1..] == rest;
    }
  }

  // ---- The seven lines ----

  /** The values after the names, as written. */
  datatype Fields = Fields(id: string, game: string, shard: string, nonce: string, wallet: string, exp: string)

  function StripPrefix(s: string, p: string): (r: Option<string>)
    ensures r.Some? ==> s == p + r.value
    ensures r.None? ==> forall t: string :: s != p + t
  {
    if p <= s then Some(s[|p|..]) else
      assert forall t: string :: p <= p + t;
      None
  }

  function Field(line: string, name: string): (r: Option<string>)
    ensures r.Some? ==> line == name + ": " + r.value
    ensures r.None? ==> forall t: string :: line != name + ": " + t
  {
    match StripPrefix(line, name)
    case None =>
      assert forall t: string :: name + ": " + t == name + (": " + t);
      None
    case Some(l) =>
      assert forall t: string :: name + ": " + t == name + (": " + t);
      StripPrefix(l, ": ")
  }

  function ParseText(text: string): Result<Fields, PassError> {
    var lines := Lines(text);
    if |lines| != 7 || lines[0] != "elo account" then Err(Malformed)
    else
      match (Field(lines[1], "id"), Field(lines[2], "for"), Field(lines[3], "shard"),
             Field(lines[4], "nonce"), Field(lines[5], "wallet"), Field(lines[6], "exp"))
      case (Some(id), Some(game), Some(shard), Some(nonce), Some(wallet), Some(exp)) =>
        Ok(Fields(id, game, shard, nonce, wallet, exp))
      case _ => Err(Malformed)
  }

  function PrintedLines(f: Fields): seq<string> {
    ["elo account", "id" + ": " + f.id, "for" + ": " + f.game, "shard" + ": " + f.shard,
     "nonce" + ": " + f.nonce, "wallet" + ": " + f.wallet, "exp" + ": " + f.exp]
  }

  /** The seven-line print of `f`. */
  function Print(f: Fields): string {
    Unlines(PrintedLines(f))
  }

  predicate OneLiners(f: Fields) {
    OneLine(f.id) && OneLine(f.game) && OneLine(f.shard) && OneLine(f.nonce) && OneLine(f.wallet) && OneLine(f.exp)
  }

  lemma OneLineAppend(a: string, b: string)
    ensures OneLine(a + b) <==> OneLine(a) && OneLine(b)
  {
    forall c | c in a || c in b
      ensures c in a + b
    {
      if c in a {
        var i :| 0 <= i < |a| && a[i] == c;
        assert (a + b)[i] == c;
      } else {
        var i :| 0 <= i < |b| && b[i] == c;
        assert (a + b)[|a| + i] == c;
      }
    }
  }

  lemma PrintedLinesAreLines(f: Fields)
    ensures OneLiners(f) <==> forall i :: 0 <= i < 7 ==> OneLine(PrintedLines(f)[i])
  {
    var l := PrintedLines(f);
    OneLineAppend("id" + ": ", f.id);
    OneLineAppend("for" + ": ", f.game);
    OneLineAppend("shard" + ": ", f.shard);
    OneLineAppend("nonce" + ": ", f.nonce);
    OneLineAppend("wallet" + ": ", f.wallet);
    OneLineAppend("exp" + ": ", f.exp);
    if forall i :: 0 <= i < 7 ==> OneLine(l[i]) {
      assert OneLine(l[1]) && OneLine(l[2]) && OneLine(l[3]) && OneLine(l[4]) && OneLine(l[5]) && OneLine(l[6]);
    }
  }

  lemma FieldReads(line: string, name: string, value: string)
    requires line == name + ": " + value
    ensures Field(line, name) == Some(value)
  {
    var r := Field(line, name);
    assert r.Some?;
    assert line[|name| + 2..] == r.value && line[|name| + 2..] == value;
  }

  lemma ParsedIsPrinted(text: string, f: Fields)
    requires ParseText(text) == Ok(f)
    ensures text == Print(f) && OneLiners(f)
  {
    hide Lines, Unlines, OneLine;
    LinesJoin(text);
    LinesAreLines(text);
    assert Lines(text) == PrintedLines(f);
    assert forall i :: 0 <= i < 7 ==> OneLine(PrintedLines(f)[i]);
    PrintedLinesAreLines(f);
  }

  lemma PrintedParses(f: Fields)
    requires OneLiners(f)
    ensures ParseText(Print(f)) == Ok(f)
  {
    hide Lines, Unlines, OneLine, Field;
    var l := PrintedLines(f);
    PrintedLinesAreLines(f);
    JoinLines(l);
    FieldReads(l[1], "id", f.id);
    FieldReads(l[2], "for", f.game);
    FieldReads(l[3], "shard", f.shard);
    FieldReads(l[4], "nonce", f.nonce);
    FieldReads(l[5], "wallet", f.wallet);
    FieldReads(l[6], "exp", f.exp);
  }

  /** A text parses to `f` exactly when it is the seven-line print of `f`. */
  lemma ParsesIffPrinted(text: string, f: Fields)
    ensures ParseText(text) == Ok(f) <==> text == Print(f) && OneLiners(f)
  {
    hide ParseText, Print, OneLiners;
    if ParseText(text) == Ok(f) {
      ParsedIsPrinted(text, f);
    }
    if text == Print(f) && OneLiners(f) {
      PrintedParses(f);
    }
  }

  // ---- Numbers ----

  function DigitsValue(s: string): Option<nat> {
    if s == "" then Some(0)
    else
      var c := s[|s| - 1];
      match DigitsValue(s[..|s| - 1])
      case Some(v) => if '0' <= c <= '9' then Some(10 * v + (c - '0') as nat) else None
      case None => None
  }

  /** `str::parse::<u64>`: an optional plus, at least one digit, and it must fit. */
  function ParseU64(s: string): Option<nat> {
    var digits := if s != "" && s[0] == '+' then s[1..] else s;
    if digits == "" then None
    else
      match DigitsValue(digits)
      case Some(v) => if v < 0x1_0000_0000_0000_0000 then Some(v) else None
      case None => None
  }

  function Zeroes(k: nat): (s: string)
    ensures |s| == k
  {
    if k == 0 then "" else Zeroes(k - 1) + "0"
  }

  lemma {:induction false} PaddedReads(k: nat, v: nat)
    ensures DigitsValue(Zeroes(k) + Digits.Decimal(v)) == Some(v)
  {
    var s := Zeroes(k) + Digits.Decimal(v);
    if v >= 10 {
      assert s[..|s| - 1] == Zeroes(k) + Digits.Decimal(v / 10);
      PaddedReads(k, v / 10);
    } else {
      assert s[..|s| - 1] == Zeroes(k);
      ZeroesRead(k);
    }
  }

  lemma {:induction false} ZeroesRead(k: nat)
    ensures DigitsValue(Zeroes(k)) == Some(0)
  {
    if k > 0 {
      var s := Zeroes(k);
      assert s[..k - 1] == Zeroes(k - 1) && s[k - 1] == '0';
      ZeroesRead(k - 1);
    }
  }

  /** Digits read as `v` are its decimal digits behind zeros. */
  lemma {:induction false} ReadIsPadded(s: string, v: nat) returns (k: nat)
    requires s != "" && DigitsValue(s) == Some(v)
    ensures s == Zeroes(k) + Digits.Decimal(v)
  {
    var front, c := s[..|s| - 1], s[|s| - 1];
    assert s == front + [c];
    if front == "" {
      k := 0;
    } else {
      var u := DigitsValue(front).value;
      k := ReadIsPadded(front, u);
      if u == 0 {
        assert Zeroes(k + 1) == front;
        k := k + 1;
      }
    }
  }

  /** `s` is a numeral of `v`: perhaps a plus, perhaps zeros, and its decimal digits. */
  predicate Numeral(s: string, plus: bool, k: nat, v: nat) {
    s == (if plus then "+" else "") + Zeroes(k) + Digits.Decimal(v)
  }

  /** A text parses as a number exactly when it is one of its numerals, and the number has 64 bits. */
  lemma ParsesU64Iff(s: string, v: nat)
    ensures ParseU64(s) == Some(v) <==> v < 0x1_0000_0000_0000_0000 && exists plus, k :: Numeral(s, plus, k, v)
  {
    hide Digits.Decimal, DigitsValue;
    if ParseU64(s) == Some(v) {
      var plus := s != "" && s[0] == '+';
      var k := ReadIsPadded(if plus then s[1..] else s, v);
      assert Numeral(s, plus, k, v);
    }
    if exists plus, k :: Numeral(s, plus, k, v) {
      var plus, k: nat :| Numeral(s, plus, k, v);
      var digits := Zeroes(k) + Digits.Decimal(v);
      PaddedReads(k, v);
      NoPlus(k, v);
      assert s == if plus then "+" + digits else digits;
      assert plus ==> s[1..] == digits;
    }
  }

  lemma NoPlus(k: nat, v: nat)
    ensures var s := Zeroes(k) + Digits.Decimal(v); s != "" && s[0] != '+'
  {
    if k > 0 {
      ZeroesOnly(k, 0);
    } else {
      DecimalDigits(v);
    }
  }

  lemma {:induction false} ZeroesOnly(k: nat, i: nat)
    requires i < k
    ensures Zeroes(k)[i] == '0'
  {
    if i < k - 1 {
      ZeroesOnly(k - 1, i);
    }
  }

  // ---- The check ----

  /** What a decoder with room for `cap` bytes makes of `s`. */
  ghost function DecodeTo(s: string, cap: nat): Option<seq<Byte>> {
    if exists b :: Base64Url.Decodes(s, b) && |b| <= cap
    then
      var b :| Base64Url.Decodes(s, b) && |b| <= cap;
      Some(b)
    else None
  }

  /** The bytes of a text, as the characters they stand for. */
  function AsText(b: seq<Byte>): (r: string)
    ensures |r| == |b|
  {
    seq(|b|, i requires 0 <= i < |b| => b[i] as char)
  }

  /** Everything up to the signature. */
  ghost function OpenPass(env: Env, pass: string): Result<string, PassError> {
    var dot := IndexOf(pass, '.');
    if dot == |pass| then Err(Malformed)
    else
      match DecodeTo(pass[..dot], PASS_TEXT_MAX)
      case None => Err(Malformed)
      case Some(text) =>
        match DecodeTo(pass[dot + 1..], SIG_MAX)
        case None => Err(Malformed)
        case Some(sig) =>
          if !env.signed(text, sig) then Err(WrongSigner)
          else if !env.utf8(text) then Err(Malformed)
          else Ok(AsText(text))
  }

  function CheckFields(env: Env, f: Fields, now: nat): Result<Passed, PassError> {
    var account := env.playerId(f.id);
    if account.None? || account.value.isWallet then Err(Malformed)
    else
      var wallet := env.playerId(f.wallet);
      if f.wallet != "none" && (wallet.None? || !wallet.value.isWallet) then Err(Malformed)
      else
        match ParseU64(f.exp)
        case None => Err(Malformed)
        case Some(exp) =>
          if f.game != "play:" + env.slug || f.shard !in env.hosts then Err(Elsewhere)
          else if exp <= now then Err(Expired)
          else Ok(Passed(account.value, if f.wallet == "none" then None else wallet))
  }

  /** What a pass comes to before its nonce is spent: who it is for and the fields it was read from. */
  ghost function Checked(env: Env, pass: string, now: nat): Result<(Passed, Fields), PassError> {
    match OpenPass(env, pass)
    case Err(e) => Err(e)
    case Ok(text) =>
      match ParseText(text)
      case Err(e) => Err(e)
      case Ok(f) =>
        match CheckFields(env, f, now)
        case Err(e) => Err(e)
        case Ok(p) => Ok((p, f))
  }

  /** One attempt against the store of used nonces, read at `clock`. */
  ghost function Attempt(env: Env, pass: string, now: nat, clock: nat, used: map<string, nat>):
    (Result<Passed, PassError>, map<string, nat>)
  {
    match Checked(env, pass, now)
    case Err(e) => (Err(e), used)
    case Ok((p, f)) =>
      var (took, after) := Nonces.Take(env.mac, used, f.nonce, clock);
      (if took then Ok(p) else Err(Replayed), after)
  }

  method DecodeInto(s: string, cap: nat) returns (r: Option<seq<Byte>>)
    ensures r == DecodeTo(s, cap)
  {
    var out := new Byte[cap];
    var n := Base64Url.Decode(s, out);
    if n.None? {
      return None;
    }
    var b := out[..n.value];
    forall c | Base64Url.Decodes(s, c)
      ensures c == b
    {
      Base64Url.DecodesOne(s, b, c);
    }
    return Some(b);
  }

  method VerifyPass(env: Env, pass: string, now: nat, nonces: Nonces.Store, clock: nat)
    returns (r: Result<Passed, PassError>)
    requires nonces.mac == env.mac
    modifies nonces
    ensures (r, nonces.used) == Attempt(env, pass, now, clock, old(nonces.used))
  {
    var dot := IndexOf(pass, '.');
    if dot == |pass| {
      return Err(Malformed);
    }
    var text := DecodeInto(pass[..dot], PASS_TEXT_MAX);
    if text.None? {
      return Err(Malformed);
    }
    var sig := DecodeInto(pass[dot + 1..], SIG_MAX);
    if sig.None? {
      return Err(Malformed);
    }
    if !env.signed(text.value, sig.value) {
      return Err(WrongSigner);
    }
    if !env.utf8(text.value) {
      return Err(Malformed);
    }
    var parsed := ParseText(AsText(text.value));
    if parsed.Err? {
      return Err(parsed.error);
    }
    var passed := CheckFields(env, parsed.value, now);
    if passed.Err? {
      return Err(passed.error);
    }
    var took := nonces.TakeAt(parsed.value.nonce, clock);
    return if took then Ok(passed.value) else Err(Replayed);
  }

  // ---- Main results ----

  /** A pass's two halves and what they decode to. */
  datatype Halves = Halves(left: string, right: string, text: seq<Byte>, sig: seq<Byte>)

  /** The pass is two base64url halves round its first dot, of at most 768 and 64 bytes. */
  ghost predicate Splits(pass: string, w: Halves) {
    && pass == w.left + "." + w.right && '.' !in w.left
    && Base64Url.Decodes(w.left, w.text) && Base64Url.Decodes(w.right, w.sig) && |w.text| <= 768 && |w.sig| <= 64
  }

  lemma SplitsHalves(env: Env, pass: string, w: Halves)
    requires Splits(pass, w)
    ensures OpenPass(env, pass) == if !env.signed(w.text, w.sig) then Err(WrongSigner)
                                   else if !env.utf8(w.text) then Err(Malformed) else Ok(AsText(w.text))
  {
    hide AsText;
    IndexOfIs(w.left, '.', w.right);
    assert w.left + "." + w.right == w.left + ['.'] + w.right;
    assert pass[..|w.left|] == w.left && pass[|w.left| + 1..] == w.right;
    DecodesToIs(w.left, w.text, PASS_TEXT_MAX);
    DecodesToIs(w.right, w.sig, SIG_MAX);
  }

  lemma DecodesToIs(s: string, b: seq<Byte>, cap: nat)
    requires Base64Url.Decodes(s, b) && |b| <= cap
    ensures DecodeTo(s, cap) == Some(b)
  {
    hide Base64Url.Decodes;
    var c := DecodeTo(s, cap);
    Base64Url.DecodesOne(s, b, c.value);
  }

  /** Whatever is not split so is malformed. */
  lemma OpenedSplits(env: Env, pass: string) returns (w: Halves)
    requires OpenPass(env, pass) != Err(Malformed)
    ensures Splits(pass, w)
  {
    hide Base64Url.Decodes, AsText;
    var dot := IndexOf(pass, '.');
    var text, sig := DecodeTo(pass[..dot], PASS_TEXT_MAX).value, DecodeTo(pass[dot + 1..], SIG_MAX).value;
    w := Halves(pass[..dot], pass[dot + 1..], text, sig);
    assert pass == w.left + "." + w.right;
  }

  /** The seven lines of a pass. */
  function Lettered(f: Fields): string {
    "elo account" + "\n" + ("id: " + f.id) + "\n" + ("for: " + f.game) + "\n" + ("shard: " + f.shard) + "\n"
      + ("nonce: " + f.nonce) + "\n" + ("wallet: " + f.wallet) + "\n" + ("exp: " + f.exp)
  }

  lemma PrintIsLettered(f: Fields)
    ensures Print(f) == Lettered(f)
  {
    assert "id" + ": " == "id: " && "for" + ": " == "for: " && "shard" + ": " == "shard: ";
    assert "nonce" + ": " == "nonce: " && "wallet" + ": " == "wallet: " && "exp" + ": " == "exp: ";
    hide Unlines;
    UnlinesSeven(PrintedLines(f));
  }

  lemma UnlinesSeven(l: seq<string>)
    requires |l| == 7
    ensures Unlines(l)
         == l[0] + "\n" + l[1] + "\n" + l[2] + "\n" + l[3] + "\n" + l[4] + "\n" + l[5] + "\n" + l[6]
  {
    hide Unlines;
    var l6 := UnlinesFrom(l, 6, "");
    var l5 := UnlinesFrom(l, 5, l6);
    var l4 := UnlinesFrom(l, 4, l5);
    var l3 := UnlinesFrom(l, 3, l4);
    var l2 := UnlinesFrom(l, 2, l3);
    var l1 := UnlinesFrom(l, 1, l2);
    var l0 := UnlinesFrom(l, 0, l1);
    assert l[0..] == l;
    Regrouped(l[0], l[1], l[2], l[3], l[4], l[5], l[6]);
  }

  lemma UnlinesFrom(l: seq<string>, i: nat, rest: string) returns (text: string)
    requires i < |l| && (i + 1 < |l| ==> rest == Unlines(l[i + 1..]))
    ensures text == Unlines(l[i..]) && text == if i + 1 < |l| then l[i] + "\n" + rest else l[i]
  {
    text := Unlines(l[i..]);
    if i + 1 < |l| {
      assert l[i..][1..] == l[i + 1..];
    }
  }

  lemma Regrouped(a: string, b: string, c: string, d: string, e: string, f: string, g: string)
    ensures a + "\n" + (b + "\n" + (c + "\n" + (d + "\n" + (e + "\n" + (f + "\n" + g)))))
         == a + "\n" + b + "\n" + c + "\n" + d + "\n" + e + "\n" + f + "\n" + g
  {
    var p := a + "\n" + b;
    var q := p + "\n" + c + "\n" + d;
    assert a + "\n" + (b + "\n" + (c + "\n" + (d + "\n" + (e + "\n" + (f + "\n" + g)))))
        == p + "\n" + (c + "\n" + (d + "\n" + (e + "\n" + (f + "\n" + g))));
    assert p + "\n" + (c + "\n" + (d + "\n" + (e + "\n" + (f + "\n" + g))))
        == q + "\n" + (e + "\n" + (f + "\n" + g));
  }

  /** The pass is signed by Elo Pros and says `f`, each value on one line. */
  ghost predicate Says(env: Env, pass: string, f: Fields) {
    && (exists w :: Splits(pass, w) && env.signed(w.text, w.sig) && env.utf8(w.text) && AsText(w.text) == Lettered(f))
    && OneLiners(f)
  }

  /** Its names are names: an account, a wallet or `none`, and a number for the expiry. */
  predicate Named(env: Env, f: Fields) {
    && env.playerId(f.id).Some? && !env.playerId(f.id).value.isWallet
    && (f.wallet == "none" || (env.playerId(f.wallet).Some? && env.playerId(f.wallet).value.isWallet))
    && ParseU64(f.exp).Some?
  }

  /** It is for this game, handed to one of these hosts. */
  predicate ForHere(env: Env, f: Fields) {
    f.game == "play:" + env.slug && f.shard in env.hosts
  }

  lemma SaysIff(env: Env, pass: string, f: Fields)
    ensures Says(env, pass, f) <==> OpenPass(env, pass).Ok? && ParseText(OpenPass(env, pass).value) == Ok(f)
  {
    hide OpenPass, ParseText, Print, Splits, AsText, Lettered, OneLiners;
    PrintIsLettered(f);
    if Says(env, pass, f) {
      var w :| Splits(pass, w) && env.signed(w.text, w.sig) && env.utf8(w.text) && AsText(w.text) == Lettered(f);
      SplitsHalves(env, pass, w);
      ParsesIffPrinted(Print(f), f);
    }
    if OpenPass(env, pass).Ok? && ParseText(OpenPass(env, pass).value) == Ok(f) {
      var w := OpenedSplits(env, pass);
      SplitsHalves(env, pass, w);
      ParsesIffPrinted(OpenPass(env, pass).value, f);
    }
  }

  /** What a pass must be to admit somebody: signed, saying `f`, its names in order, for here, unexpired, with a
      nonce the store welcomes. */
  ghost predicate Acceptable(env: Env, pass: string, now: nat, clock: nat, used: map<string, nat>, f: Fields) {
    && Says(env, pass, f) && Named(env, f) && ForHere(env, f)
    && now < ParseU64(f.exp).value && Nonces.Welcome(env.mac, used, f.nonce, clock)
  }

  /** An attempt admits somebody exactly when its pass is acceptable, and then as the fields say. */
  lemma AcceptedIff(env: Env, pass: string, now: nat, clock: nat, used: map<string, nat>)
    ensures Attempt(env, pass, now, clock, used).0.Ok? <==> exists f :: Acceptable(env, pass, now, clock, used, f)
    ensures forall f :: Acceptable(env, pass, now, clock, used, f) ==>
              Attempt(env, pass, now, clock, used).0
              == Ok(Passed(env.playerId(f.id).value, if f.wallet == "none" then None else env.playerId(f.wallet)))
  {
    hide OpenPass, ParseText, Says, Nonces.Take, Nonces.Welcome, ParseU64;
    if Attempt(env, pass, now, clock, used).0.Ok? {
      var f := Checked(env, pass, now).value.1;
      SaysIff(env, pass, f);
      Nonces.TakenIff(env.mac, used, f.nonce, clock);
      assert Acceptable(env, pass, now, clock, used, f);
    }
    forall f | Acceptable(env, pass, now, clock, used, f)
      ensures Attempt(env, pass, now, clock, used).0
           == Ok(Passed(env.playerId(f.id).value, if f.wallet == "none" then None else env.playerId(f.wallet)))
    {
      SaysIff(env, pass, f);
      Nonces.TakenIff(env.mac, used, f.nonce, clock);
    }
  }

  /** The answer is `WrongSigner` exactly to a pass whose halves decode, but not to a text and its signature. */
  lemma WrongSignerIff(env: Env, pass: string, now: nat, clock: nat, used: map<string, nat>)
    ensures Attempt(env, pass, now, clock, used).0 == Err(WrongSigner)
       <==> exists w :: Splits(pass, w) && !env.signed(w.text, w.sig)
  {
    hide OpenPass, ParseText, Splits, Nonces.Take, CheckFields;
    OnlyOpeningBlamesSigner(env, pass, now, clock, used);
    if OpenPass(env, pass) == Err(WrongSigner) {
      var w := OpenedSplits(env, pass);
      SplitsHalves(env, pass, w);
    }
    forall w | Splits(pass, w) && !env.signed(w.text, w.sig)
      ensures OpenPass(env, pass) == Err(WrongSigner)
    {
      SplitsHalves(env, pass, w);
    }
  }

  lemma OnlyOpeningBlamesSigner(env: Env, pass: string, now: nat, clock: nat, used: map<string, nat>)
    ensures Attempt(env, pass, now, clock, used).0 == Err(WrongSigner) <==> OpenPass(env, pass) == Err(WrongSigner)
  {
    hide OpenPass, Nonces.Take;
  }

  /** The pass says something with its names in order, whatever else is wrong with it. */
  ghost predicate SaysNamed(env: Env, pass: string, f: Fields) {
    Says(env, pass, f) && Named(env, f)
  }

  /** The answers to a pass in order but for one thing: for elsewhere, expired, or with a nonce not welcome; so
      whatever is refused for none of these, nor for its signer, is malformed. */
  lemma RefusedFor(env: Env, pass: string, now: nat, clock: nat, used: map<string, nat>)
    ensures var r := Attempt(env, pass, now, clock, used).0;
      && (r == Err(Elsewhere) <==> exists f :: SaysNamed(env, pass, f) && !ForHere(env, f))
      && (r == Err(Expired) <==> exists f :: SaysNamed(env, pass, f) && ForHere(env, f) && ParseU64(f.exp).value <= now)
      && (r == Err(Replayed) <==>
            exists f :: SaysNamed(env, pass, f) && ForHere(env, f) && now < ParseU64(f.exp).value
                        && !Nonces.Welcome(env.mac, used, f.nonce, clock))
  {
    hide OpenPass, ParseText, Says, Nonces.Take, Nonces.Welcome, ParseU64;
    var o := OpenPass(env, pass);
    forall f
      ensures Says(env, pass, f) <==> o.Ok? && ParseText(o.value) == Ok(f)
    {
      SaysIff(env, pass, f);
    }
    ReadingBlames(env, pass);
    if o.Ok? && ParseText(o.value).Ok? {
      var f := ParseText(o.value).value;
      assert Says(env, pass, f);
      Nonces.TakenIff(env.mac, used, f.nonce, clock);
      assert SaysNamed(env, pass, f) <==> Named(env, f);
    }
  }

  /** Reading a pass fails for its form or its signer alone. */
  lemma ReadingBlames(env: Env, pass: string)
    ensures OpenPass(env, pass).Err? ==> OpenPass(env, pass).error in {Malformed, WrongSigner}
    ensures forall text :: ParseText(text).Err? ==> ParseText(text).error == Malformed
  {
  }

  /** A refused attempt spends nothing, however the clock reads: every nonce that would have been taken still
      is; and where the clock has not fallen since, every one that would have been refused still is too. */
  lemma RefusedSpendsNothing(env: Env, pass: string, now: nat, clock: nat, used: map<string, nat>,
                             n: string, later: nat)
    requires Attempt(env, pass, now, clock, used).0.Err?
    ensures Nonces.Take(env.mac, used, n, later).0
        ==> Nonces.Take(env.mac, Attempt(env, pass, now, clock, used).1, n, later).0
    ensures clock <= later ==> Nonces.SameOutcome(env.mac, used, Attempt(env, pass, now, clock, used).1, n, later)
  {
    hide Nonces.Take, Checked;
    var c := Checked(env, pass, now);
    if c.Ok? {
      Nonces.RefusedTakeSpendsNothing(env.mac, used, c.value.1.nonce, clock, n, later);
    }
  }

  /** The pass checks out, and its nonce is one of the server's, in its time. */
  ghost predicate ReachesStore(env: Env, pass: string, now: nat, clock: nat) {
    var c := Checked(env, pass, now);
    c.Ok? && Nonces.Genuine(env.mac, c.value.1.nonce) && Nonces.Live(Nonces.IssuedAt(c.value.1.nonce), clock)
  }

  /** A refusal leaves every take as it was, at whatever reading, exactly when its pass never got as far as the
      store or no nonce remembered there has run out. */
  lemma RefusalChangesNothingIff(env: Env, pass: string, now: nat, clock: nat, used: map<string, nat>)
    requires Nonces.WellKept(env.mac, used) && Attempt(env, pass, now, clock, used).0.Err?
    ensures (forall n: string, later: nat ::
               Nonces.SameOutcome(env.mac, used, Attempt(env, pass, now, clock, used).1, n, later))
       <==> !(ReachesStore(env, pass, now, clock) && Nonces.SomeRunOut(used, clock))
  {
    hide Nonces.Take, Checked, Nonces.WellKept, Nonces.Genuine, Nonces.Live, Nonces.SomeRunOut;
    var c := Checked(env, pass, now);
    if c.Ok? {
      Nonces.RefusalChangesNothingIff(env.mac, used, c.value.1.nonce, clock);
    }
  }

  /** An attempt made on this server: the pass, the time it is checked against, and the reading its
      nonce is taken at. */
  datatype Presented = Presented(pass: string, now: nat, clock: nat)

  predicate ClockRises(run: seq<Presented>) {
    forall i, j :: 0 <= i < j < |run| ==> run[i].clock <= run[j].clock
  }

  /** The store after a run of attempts. */
  ghost function After(env: Env, run: seq<Presented>, used: map<string, nat>): map<string, nat> {
    if run == [] then used
    else
      var p := run[|run| - 1];
      Attempt(env, p.pass, p.now, p.clock, After(env, run[..|run| - 1], used)).1
  }

  /** The `i`th attempt of a run admits somebody. */
  ghost predicate Admits(env: Env, run: seq<Presented>, used: map<string, nat>, i: nat)
    requires i < |run|
  {
    Attempt(env, run[i].pass, run[i].now, run[i].clock, After(env, run[..i], used)).0.Ok?
  }

  /** The nonce of an attempt whose pass checks out. */
  ghost function NonceOf(env: Env, p: Presented): Option<string> {
    match Checked(env, p.pass, p.now)
    case Ok((_, f)) => Some(f.nonce)
    case Err(_) => None
  }

  lemma AdmittedIsSpent(env: Env, p: Presented, used: map<string, nat>)
    requires Attempt(env, p.pass, p.now, p.clock, used).0.Ok?
    ensures NonceOf(env, p).Some?
    ensures Nonces.Spent(Attempt(env, p.pass, p.now, p.clock, used).1, NonceOf(env, p).value, p.clock)
  {
    hide Checked, Nonces.Take, Nonces.Spent;
    Nonces.TakenIsSpent(env.mac, used, NonceOf(env, p).value, p.clock);
  }

  lemma AttemptKeepsSpent(env: Env, p: Presented, used: map<string, nat>, n: string, before: nat)
    requires Nonces.Spent(used, n, before) && before <= p.clock
    ensures Nonces.Spent(Attempt(env, p.pass, p.now, p.clock, used).1, n, p.clock)
  {
    hide Checked, Nonces.Take;
    var c := Checked(env, p.pass, p.now);
    if c.Ok? {
      hide Nonces.Spent;
      Nonces.SpentStays(env.mac, used, n, before, c.value.1.nonce, p.clock);
    }
  }

  /** Once a nonce has admitted somebody it stays spent for the rest of the run. */
  lemma {:induction false} StaysSpent(env: Env, run: seq<Presented>, used: map<string, nat>, i: nat, j: nat)
    requires ClockRises(run) && i < j <= |run| && Admits(env, run, used, i)
    ensures NonceOf(env, run[i]).Some?
    ensures Nonces.Spent(After(env, run[..j], used), NonceOf(env, run[i]).value, run[j - 1].clock)
    decreases j
  {
    hide Attempt, NonceOf, Nonces.Spent;
    var p := run[j - 1];
    assert run[..j][..j - 1] == run[..j - 1] && run[..j][j - 1] == p;
    var before := After(env, run[..j - 1], used);
    assert After(env, run[..j], used) == Attempt(env, p.pass, p.now, p.clock, before).1;
    if i == j - 1 {
      AdmittedIsSpent(env, p, before);
    } else {
      StaysSpent(env, run, used, i, j - 1);
      AttemptKeepsSpent(env, p, before, NonceOf(env, run[i]).value, run[j - 2].clock);
    }
  }

  /** What a run shows the nonce store: a pass that does not check out shows it nothing. */
  ghost function Shown(env: Env, run: seq<Presented>): seq<Nonces.Taking> {
    seq(|run|, i requires 0 <= i < |run| => ShownBy(env, run[i]))
  }

  ghost function ShownBy(env: Env, p: Presented): Nonces.Taking {
    Nonces.Taking(if NonceOf(env, p).Some? then NonceOf(env, p).value else "", p.clock)
  }

  function Readings(run: seq<Presented>): seq<nat> {
    seq(|run|, i requires 0 <= i < |run| => run[i].clock)
  }

  lemma AttemptTakes(env: Env, p: Presented, used: map<string, nat>)
    ensures var t := ShownBy(env, p);
            var a := Attempt(env, p.pass, p.now, p.clock, used);
            && a.1 == Nonces.Take(env.mac, used, t.nonce, t.now).1
            && (a.0.Ok? <==> Nonces.Take(env.mac, used, t.nonce, t.now).0)
  {
    hide Checked;
  }

  lemma {:induction false} SameStore(env: Env, run: seq<Presented>, used: map<string, nat>, k: nat)
    requires k <= |run|
    ensures After(env, run[..k], used) == Nonces.After(env.mac, used, Shown(env, run), k)
  {
    hide Attempt, Nonces.Take, ShownBy;
    if k > 0 {
      SameStore(env, run, used, k - 1);
      assert run[..k][..k - 1] == run[..k - 1] && run[..k][k - 1] == run[k - 1];
      AttemptTakes(env, run[k - 1], After(env, run[..k - 1], used));
    }
  }

  lemma AdmitsIffTakes(env: Env, run: seq<Presented>, used: map<string, nat>, i: nat)
    requires i < |run|
    ensures Admits(env, run, used, i) <==> Nonces.Takes(env.mac, used, Shown(env, run), i)
    ensures Admits(env, run, used, i) ==> NonceOf(env, run[i]) == Some(Shown(env, run)[i].nonce)
  {
    hide Checked, Nonces.Take;
    SameStore(env, run, used, i);
    AttemptTakes(env, run[i], After(env, run[..i], used));
  }

  /** Main result: whatever the server remembered at first, no nonce admits anybody twice where the clock never
      falls back. */
  lemma NonceAdmitsOnce(env: Env, run: seq<Presented>, used: map<string, nat>, i: nat, j: nat)
    requires Nonces.NeverFallsBack(Readings(run)) && i < j < |run|
    requires Admits(env, run, used, i) && Admits(env, run, used, j)
    ensures NonceOf(env, run[i]) != NonceOf(env, run[j])
  {
    hide Admits, NonceOf, Nonces.Takes, Nonces.NeverFallsBack;
    AdmitsIffTakes(env, run, used, i);
    AdmitsIffTakes(env, run, used, j);
    if NonceOf(env, run[i]) == NonceOf(env, run[j]) {
      Nonces.NotTakenTwice(env.mac, used, Shown(env, run), Readings(run), i, j);
    }
  }

  /** So none does while its readings never fall. */
  lemma NonceAdmitsOnceRising(env: Env, run: seq<Presented>, used: map<string, nat>, i: nat, j: nat)
    requires ClockRises(run) && i < j < |run|
    requires Admits(env, run, used, i) && Admits(env, run, used, j)
    ensures NonceOf(env, run[i]) != NonceOf(env, run[j])
  {
    hide Admits, NonceOf, Nonces.NeverFallsBack;
    Nonces.RisingNeverFallsBack(Readings(run));
    NonceAdmitsOnce(env, run, used, i, j);
  }

  ghost predicate AdmitsTwice(env: Env, run: seq<Presented>) {
    exists i, k :: 0 <= i < k < |run| && NonceOf(env, run[i]) == NonceOf(env, run[k])
                   && Admits(env, run, map[], i) && Admits(env, run, map[], k)
  }

  /** A print of fields in order, signed, both parts encoded, checks out as those fields. */
  lemma SignedPrintChecks(env: Env, f: Fields, text: seq<Byte>, sig: seq<Byte>, t: string, s: string, now: nat)
    requires Base64Url.Encodes(text, t) && Base64Url.Encodes(sig, s) && |text| <= PASS_TEXT_MAX && |sig| <= SIG_MAX
    requires AsText(text) == Print(f) && OneLiners(f) && env.signed(text, sig) && env.utf8(text)
    requires CheckFields(env, f, now).Ok?
    ensures Checked(env, t + "." + s, now) == Ok((CheckFields(env, f, now).value, f))
  {
    hide ParseText, Print, OneLiners, CheckFields, AsText;
    var pass := t + "." + s;
    assert '.' !in t by {
      assert Base64Url.Value('.') == None;
    }
    IndexOfIs(t, '.', s);
    assert pass == t + ['.'] + s;
    assert pass[..|t|] == t && pass[|t| + 1..] == s;
    DecodesTo(text, t, PASS_TEXT_MAX);
    DecodesTo(sig, s, SIG_MAX);
    ParsesIffPrinted(Print(f), f);
  }

  lemma DecodesTo(b: seq<Byte>, s: string, cap: nat)
    requires Base64Url.Encodes(b, s) && |b| <= cap
    ensures DecodeTo(s, cap) == Some(b)
  {
    Base64Url.DecodeUndoesEncode(b, s);
    DecodesToIs(s, b, cap);
  }

  // ---- Passes a server is shown in step with its clock ----

  /** Each pass is checked against the time its nonce is taken at, and the clock reads so. */
  predicate InStep(run: seq<Presented>, clock: seq<nat>) {
    |run| == |clock| && forall i :: 0 <= i < |run| ==> run[i].now == run[i].clock == clock[i]
  }

  /** Readings a number of seconds fits, with room for an expiry past it. */
  predicate Readable(clock: seq<nat>) {
    forall i :: 0 <= i < |clock| ==> clock[i] + 1 < Nonces.U64
  }

  ghost predicate HasPass(env: Env, n: string, at: nat) {
    exists pass :: NonceOf(env, Presented(pass, at, at)) == Some(n)
  }

  /** For every nonce of the server's and every reading, some pass carrying it checks out at that reading. */
  ghost predicate Issuable(env: Env) {
    forall n: string, at: nat :: Nonces.Genuine(env.mac, n) && at + 1 < Nonces.U64 ==> HasPass(env, n, at)
  }

  /** A pass to show at `at` for nonce `n`; none for a nonce that is not the server's. */
  ghost function PassFor(env: Env, n: string, at: nat): string
    requires Issuable(env) && at + 1 < Nonces.U64
  {
    if Nonces.Genuine(env.mac, n)
    then
      assert HasPass(env, n, at);
      var pass :| NonceOf(env, Presented(pass, at, at)) == Some(n);
      pass
    else ""
  }

  lemma PassForShows(env: Env, t: Nonces.Taking)
    requires Issuable(env) && t.now + 1 < Nonces.U64
    ensures var p := Presented(PassFor(env, t.nonce, t.now), t.now, t.now);
            && ShownBy(env, p).now == t.now
            && (Nonces.Genuine(env.mac, t.nonce) ==> NonceOf(env, p) == Some(t.nonce) && ShownBy(env, p) == t)
            && (!Nonces.Genuine(env.mac, t.nonce) ==> !Nonces.Genuine(env.mac, ShownBy(env, p).nonce))
  {
    hide CheckFields, ParseText, Issuable;
  }

  /** Passes in step with the clock that show the store what `takings` does, but for nonces it never issued. */
  ghost function PresentedFor(env: Env, takings: seq<Nonces.Taking>, clock: seq<nat>): seq<Presented>
    requires Issuable(env) && Readable(clock) && Nonces.ReadsAs(takings, clock)
  {
    seq(|takings|, i requires 0 <= i < |takings| =>
      Presented(PassFor(env, takings[i].nonce, clock[i]), clock[i], clock[i]))
  }

  lemma {:induction false} SameTakings(env: Env, takings: seq<Nonces.Taking>, clock: seq<nat>, k: nat)
    requires Issuable(env) && Readable(clock) && Nonces.ReadsAs(takings, clock) && k <= |takings|
    ensures var run := PresentedFor(env, takings, clock);
            && Nonces.After(env.mac, map[], Shown(env, run), k) == Nonces.After(env.mac, map[], takings, k)
            && (k < |takings| ==>
                  (Nonces.Takes(env.mac, map[], Shown(env, run), k) <==> Nonces.Takes(env.mac, map[], takings, k)))
  {
    hide Issuable, Nonces.Genuine, ShownBy, PassFor, NonceOf;
    if k > 0 {
      SameTakings(env, takings, clock, k - 1);
      PassForShows(env, takings[k - 1]);
    }
    if k < |takings| {
      PassForShows(env, takings[k]);
    }
  }

  lemma TwiceShown(env: Env, takings: seq<Nonces.Taking>, clock: seq<nat>)
    requires Issuable(env) && Readable(clock) && Nonces.ReadsAs(takings, clock)
    requires Nonces.TakenTwice(env.mac, map[], takings)
    ensures AdmitsTwice(env, PresentedFor(env, takings, clock))
  {
    hide Issuable, Nonces.Genuine, ShownBy, PassFor, NonceOf, Admits, Nonces.After;
    var run := PresentedFor(env, takings, clock);
    var i: nat, k: nat :| i < k < |takings| && takings[i].nonce == takings[k].nonce
                          && Nonces.Takes(env.mac, map[], takings, i) && Nonces.Takes(env.mac, map[], takings, k);
    SameTakings(env, takings, clock, i);
    SameTakings(env, takings, clock, k);
    AdmitsIffTakes(env, run, map[], i);
    AdmitsIffTakes(env, run, map[], k);
    PassForShows(env, takings[i]);
    PassForShows(env, takings[k]);
  }

  /** Main result: from its start, whatever passes are presented, a server whose clock reads so lets no nonce
      admit anybody twice if and only if the clock never falls back. */
  lemma AdmitOnceIff(env: Env, clock: seq<nat>)
    requires Nonces.PrintsHex(env.mac) && Issuable(env) && Readable(clock)
    ensures (forall run :: InStep(run, clock) ==> !AdmitsTwice(env, run)) <==> Nonces.NeverFallsBack(clock)
  {
    hide Nonces.NeverFallsBack, Admits, NonceOf, Issuable, Nonces.PrintsHex, Nonces.TakenTwice, AdmitsTwice;
    if Nonces.NeverFallsBack(clock) {
      forall run | InStep(run, clock)
        ensures !AdmitsTwice(env, run)
      {
        assert Readings(run) == clock;
        NeverTwice(env, run);
      }
    } else {
      var takings := TakenTwiceSo(env.mac, clock);
      TwiceShown(env, takings, clock);
      assert InStep(PresentedFor(env, takings, clock), clock);
    }
  }

  lemma TakenTwiceSo(mac: string -> string, clock: seq<nat>) returns (takings: seq<Nonces.Taking>)
    requires Nonces.PrintsHex(mac) && Readable(clock) && !Nonces.NeverFallsBack(clock)
    ensures Nonces.ReadsAs(takings, clock) && Nonces.TakenTwice(mac, map[], takings)
  {
    hide Nonces.NeverFallsBack, Nonces.PrintsHex, Nonces.ReadsAs, Nonces.TakenTwice;
    Nonces.SingleUseIff(mac, clock);
    takings :| Nonces.ReadsAs(takings, clock) && Nonces.TakenTwice(mac, map[], takings);
  }

  lemma NeverTwice(env: Env, run: seq<Presented>)
    requires Nonces.NeverFallsBack(Readings(run))
    ensures !AdmitsTwice(env, run)
  {
    hide Admits, NonceOf, Nonces.NeverFallsBack;
    forall i, k | 0 <= i < k < |run| && Admits(env, run, map[], i) && Admits(env, run, map[], k)
      ensures NonceOf(env, run[i]) != NonceOf(env, run[k])
    {
      NonceAdmitsOnce(env, run, map[], i, k);
    }
  }

  // ---- A signer that will sign ----

  /** Characters of ASCII, on one line. */
  predicate Plain(s: string) {
    forall i :: 0 <= i < |s| ==> s[i] < 128 as char && s[i] != '\n'
  }

  predicate Ascii(b: seq<Byte>) {
    forall i :: 0 <= i < |b| ==> b[i] < 128
  }

  ghost predicate Signable(env: Env, text: seq<Byte>) {
    exists sig :: |sig| <= SIG_MAX && env.signed(text, sig)
  }

  /** The signer signs whatever it is asked to, for an account here whose names leave room for the rest. */
  ghost predicate Signs(env: Env, id: string, shard: string) {
    && env.playerId(id).Some? && !env.playerId(id).value.isWallet && shard in env.hosts
    && Plain(id) && Plain(shard) && Plain(env.slug) && |id| + |shard| + |env.slug| <= 600
    && (forall text :: Signable(env, text)) && (forall text :: Ascii(text) ==> env.utf8(text))
  }

  function BytesOf(s: string): (b: seq<Byte>)
    requires forall i :: 0 <= i < |s| ==> s[i] < 128 as char
    ensures Ascii(b) && |b| == |s| && AsText(b) == s
  {
    seq(|s|, i requires 0 <= i < |s| => s[i] as int)
  }

  predicate PlainLines(lines: seq<string>) {
    forall i :: 0 <= i < |lines| ==> Plain(lines[i])
  }

  function Total(lines: seq<string>): nat {
    if lines == [] then 0 else |lines[0]| + 1 + Total(lines[1..])
  }

  lemma {:induction false} JoinedPlain(lines: seq<string>)
    requires PlainLines(lines)
    ensures |Unlines(lines)| <= Total(lines)
    ensures forall i :: 0 <= i < |Unlines(lines)| ==> Unlines(lines)[i] < 128 as char
  {
    if |lines| > 1 {
      JoinedPlain(lines[1..]);
    }
  }

  lemma {:induction false} DecimalReads(v: nat)
    ensures DigitsValue(Digits.Decimal(v)) == Some(v)
  {
    if v >= 10 {
      DecimalReads(v / 10);
      var s := Digits.Decimal(v);
      assert s[..|s| - 1] == Digits.Decimal(v / 10);
    } else {
      assert Digits.Decimal(v)[..0] == "";
    }
  }

  lemma {:induction false} DecimalDigits(v: nat)
    ensures forall i :: 0 <= i < |Digits.Decimal(v)| ==> '0' <= Digits.Decimal(v)[i] <= '9'
  {
    if v >= 10 {
      DecimalDigits(v / 10);
    }
  }

  lemma DecimalParses(v: nat)
    requires v < Nonces.U64
    ensures ParseU64(Digits.Decimal(v)) == Some(v)
    ensures Plain(Digits.Decimal(v)) && |Digits.Decimal(v)| <= 20
  {
    DecimalReads(v);
    DecimalDigits(v);
    Digits.U64Fits(v);
    assert Digits.Decimal(v)[0] != '+';
  }

  /** What it signs at `at`: good for a second, for a nonce of the server's. */
  function SignedFields(env: Env, id: string, shard: string, n: string, at: nat): Fields {
    Fields(id, "play:" + env.slug, shard, n, "none", Digits.Decimal(at + 1))
  }

  lemma PlainAppend(a: string, b: string)
    requires Plain(a) && Plain(b)
    ensures Plain(a + b)
  {
  }

  lemma PlainIsOneLine(s: string)
    requires Plain(s)
    ensures OneLine(s)
  {
  }

  /** Such fields are one-liners, and their print is ASCII and no longer than a pass's text may be. */
  lemma SignedFieldsPrint(env: Env, id: string, shard: string, n: string, at: nat)
    requires Signs(env, id, shard) && Nonces.Genuine(env.mac, n) && at + 1 < Nonces.U64
    ensures var f := SignedFields(env, id, shard, n, at);
            && OneLiners(f) && PlainLines(PrintedLines(f)) && Total(PrintedLines(f)) <= PASS_TEXT_MAX
  {
    hide Digits.Decimal, ParseU64, Plain, OneLine;
    var f := SignedFields(env, id, shard, n, at);
    DecimalParses(at + 1);
    NoncePlain(env.mac, n);
    Literals();
    PlainAppend("play:", env.slug);
    PlainIsOneLine(f.id);
    PlainIsOneLine(f.game);
    PlainIsOneLine(f.shard);
    PlainIsOneLine(f.nonce);
    PlainIsOneLine(f.wallet);
    PlainIsOneLine(f.exp);
    PlainAppend("id" + ": ", f.id);
    PlainAppend("for" + ": ", f.game);
    PlainAppend("shard" + ": ", f.shard);
    PlainAppend("nonce" + ": ", f.nonce);
    PlainAppend("wallet" + ": ", f.wallet);
    PlainAppend("exp" + ": ", f.exp);
    SevenLines(PrintedLines(f));
  }

  lemma NoncePlain(mac: string -> string, n: string)
    requires Nonces.Genuine(mac, n)
    ensures Plain(n) && |n| == 64
  {
  }

  lemma Literals()
    ensures Plain("elo account") && Plain("play:") && Plain("none") && Plain("id" + ": ") && Plain("for" + ": ")
    ensures Plain("shard" + ": ") && Plain("nonce" + ": ") && Plain("wallet" + ": ") && Plain("exp" + ": ")
  {
  }

  lemma SevenLines(lines: seq<string>)
    requires |lines| == 7
    ensures Total(lines) == |lines[0]| + |lines[1]| + |lines[2]| + |lines[3]| + |lines[4]| + |lines[5]| + |lines[6]| + 7
  {
    assert Total(lines[5..]) == |lines[5]| + 1 + Total(lines[6..]);
    assert Total(lines[3..]) == |lines[3]| + 1 + (|lines[4]| + 1 + Total(lines[5..]));
    assert Total(lines[1..]) == |lines[1]| + 1 + (|lines[2]| + 1 + Total(lines[3..]));
  }

  /** Then there is a pass for every nonce of the server's, at every reading. */
  lemma SignerIssues(env: Env, id: string, shard: string)
    requires Signs(env, id, shard)
    ensures Issuable(env)
  {
    hide Signs, NonceOf, Nonces.Genuine;
    forall n: string, at: nat | Nonces.Genuine(env.mac, n) && at + 1 < Nonces.U64
      ensures HasPass(env, n, at)
    {
      var pass := SignedPass(env, id, shard, n, at);
      assert NonceOf(env, Presented(pass, at, at)) == Some(n);
    }
  }

  lemma SignedFieldsCheck(env: Env, id: string, shard: string, n: string, at: nat)
    requires Signs(env, id, shard) && at + 1 < Nonces.U64
    ensures CheckFields(env, SignedFields(env, id, shard, n, at), at).Ok?
  {
    hide ParseU64, Digits.Decimal;
    DecimalParses(at + 1);
  }

  /** Its print as bytes, and a signature of them. */
  lemma SignedText(env: Env, id: string, shard: string, f: Fields) returns (text: seq<Byte>, sig: seq<Byte>)
    requires Signs(env, id, shard) && PlainLines(PrintedLines(f)) && Total(PrintedLines(f)) <= PASS_TEXT_MAX
    ensures |text| <= PASS_TEXT_MAX && |sig| <= SIG_MAX && AsText(text) == Print(f)
    ensures env.signed(text, sig) && env.utf8(text)
  {
    hide Unlines, PlainLines, PrintedLines, AsText;
    JoinedPlain(PrintedLines(f));
    text := BytesOf(Print(f));
    assert Signable(env, text);
    sig :| |sig| <= SIG_MAX && env.signed(text, sig);
  }

  lemma SignedPass(env: Env, id: string, shard: string, n: string, at: nat) returns (pass: string)
    requires Signs(env, id, shard) && Nonces.Genuine(env.mac, n) && at + 1 < Nonces.U64
    ensures NonceOf(env, Presented(pass, at, at)) == Some(n)
  {
    hide Signs, Nonces.Genuine, Print, OneLiners, PlainLines, PrintedLines, Total, CheckFields, Checked, AsText;
    var f := SignedFields(env, id, shard, n, at);
    SignedFieldsPrint(env, id, shard, n, at);
    SignedFieldsCheck(env, id, shard, n, at);
    var text, sig := SignedText(env, id, shard, f);
    var t := Base64Url.EncodingExists(text);
    var s := Base64Url.EncodingExists(sig);
    SignedPrintChecks(env, f, text, sig, t, s, at);
    pass := t + "." + s;
  }

  // ---- One pass, its expiry included ----

  /** Until when a pass checks out: its expiry, if nothing else about it is wrong. */
  ghost function GoodUntil(env: Env, pass: string): nat {
    match OpenPass(env, pass)
    case Err(_) => 0
    case Ok(text) =>
      match ParseText(text)
      case Err(_) => 0
      case Ok(f) => if CheckFields(env, f, 0).Ok? then ParseU64(f.exp).value else 0
  }

  /** The nonce such a pass carries. */
  ghost function Carried(env: Env, pass: string): string {
    match Checked(env, pass, 0)
    case Ok((_, f)) => f.nonce
    case Err(_) => ""
  }

  lemma ChecksUntil(env: Env, pass: string, now: nat, clock: nat)
    ensures NonceOf(env, Presented(pass, now, clock))
         == if now < GoodUntil(env, pass) then Some(Carried(env, pass)) else None
  {
    hide OpenPass, ParseText, ParseU64;
  }

  /** This pass admits somebody twice in the run. */
  ghost predicate PassAdmitsTwice(env: Env, run: seq<Presented>, pass: string) {
    exists i, k :: 0 <= i < k < |run| && run[i].pass == run[k].pass == pass
                   && Admits(env, run, map[], i) && Admits(env, run, map[], k)
  }

  /** At readings `i` and `k` the pass and its nonce are both good, and at `j` the nonce has run out. */
  ghost predicate ReplayableAt(env: Env, pass: string, clock: seq<nat>, i: nat, j: nat, k: nat)
    requires i < j < k < |clock|
  {
    && clock[i] < GoodUntil(env, pass) && clock[k] < GoodUntil(env, pass) && Nonces.Genuine(env.mac, Carried(env, pass))
    && Nonces.Revives(Nonces.IssuedAt(Carried(env, pass)), clock[i], clock[j], clock[k])
  }

  ghost predicate Replayable(env: Env, pass: string, clock: seq<nat>) {
    exists i, j, k :: 0 <= i < j < k < |clock| && ReplayableAt(env, pass, clock, i, j, k)
  }

  lemma TwiceIsReplayable(env: Env, run: seq<Presented>, clock: seq<nat>, pass: string, i: nat, k: nat)
    requires InStep(run, clock) && i < k < |run| && run[i].pass == run[k].pass == pass
    requires Admits(env, run, map[], i) && Admits(env, run, map[], k)
    ensures Replayable(env, pass, clock)
  {
    hide Admits, NonceOf, GoodUntil, Carried, Nonces.Takes, Nonces.Genuine, Nonces.Revives;
    AdmitsIffTakes(env, run, map[], i);
    AdmitsIffTakes(env, run, map[], k);
    ChecksUntil(env, pass, run[i].now, run[i].clock);
    ChecksUntil(env, pass, run[k].now, run[k].clock);
    assert run[i] == Presented(pass, run[i].now, run[i].clock) && run[k] == Presented(pass, run[k].now, run[k].clock);
    var j := Nonces.TakenTwiceRevives(env.mac, map[], Shown(env, run), i, k);
    assert ReplayableAt(env, pass, clock, i, j, k);
  }

  /** The pass at `i` and `k`, and at `j` one for a nonce issued then. */
  ghost function ReplayOf(env: Env, pass: string, m: string, clock: seq<nat>, i: nat, j: nat, k: nat): seq<Presented>
    requires Issuable(env) && Readable(clock)
  {
    seq(|clock|, x requires 0 <= x < |clock| =>
      Presented(if x == i || x == k then pass else if x == j then PassFor(env, m, clock[x]) else "",
                clock[x], clock[x]))
  }

  lemma ReplayShows(env: Env, pass: string, m: string, clock: seq<nat>, i: nat, j: nat, k: nat)
    requires Issuable(env) && Readable(clock) && i < j < k < |clock| && ReplayableAt(env, pass, clock, i, j, k)
    requires Nonces.Genuine(env.mac, m)
    ensures Shown(env, ReplayOf(env, pass, m, clock, i, j, k)) == Nonces.Replay(Carried(env, pass), m, clock, i, j, k)
  {
    hide Issuable, NonceOf, GoodUntil, Carried, Nonces.Genuine, PassFor, Nonces.Revives;
    var run := ReplayOf(env, pass, m, clock, i, j, k);
    forall x | 0 <= x < |clock|
      ensures ShownBy(env, run[x]) == Nonces.Replay(Carried(env, pass), m, clock, i, j, k)[x]
    {
      if x == i || x == k {
        ChecksUntil(env, pass, clock[x], clock[x]);
      } else if x == j {
        PassForShows(env, Nonces.Taking(m, clock[x]));
      } else {
        NothingChecks(env, clock[x], clock[x]);
      }
    }
  }

  lemma NothingChecks(env: Env, now: nat, clock: nat)
    ensures NonceOf(env, Presented("", now, clock)) == None
  {
  }

  lemma ReplayableIsReplayed(env: Env, pass: string, clock: seq<nat>, i: nat, j: nat, k: nat)
    requires Nonces.PrintsHex(env.mac) && Issuable(env) && Readable(clock)
    requires i < j < k < |clock| && ReplayableAt(env, pass, clock, i, j, k)
    ensures exists run :: InStep(run, clock) && PassAdmitsTwice(env, run, pass)
  {
    hide Issuable, NonceOf, GoodUntil, Carried, Nonces.Genuine, PassFor, Nonces.Revives, Nonces.PrintsHex, Admits,
         Nonces.Takes, Shown;
    var salt: seq<Byte> := [0, 0, 0, 0, 0, 0, 0, 0];
    var m := Nonces.Issue(env.mac, clock[j], salt);
    Nonces.IssuedIsGenuine(env.mac, clock[j], salt);
    ReplayShows(env, pass, m, clock, i, j, k);
    Nonces.ReplayTakesTwice(env.mac, Carried(env, pass), m, clock, i, j, k);
    var run := ReplayOf(env, pass, m, clock, i, j, k);
    AdmitsIffTakes(env, run, map[], i);
    AdmitsIffTakes(env, run, map[], k);
    assert InStep(run, clock) && PassAdmitsTwice(env, run, pass);
  }

  /** Main result: shown as often as anyone likes, among whatever other passes, one pass admits somebody at most
      once if and only if the clock has no two readings at which it and its nonce are good with one between at
      which the nonce has run out. */
  lemma PassAdmitsOnceIff(env: Env, pass: string, clock: seq<nat>)
    requires Nonces.PrintsHex(env.mac) && Issuable(env) && Readable(clock)
    ensures (forall run :: InStep(run, clock) ==> !PassAdmitsTwice(env, run, pass)) <==> !Replayable(env, pass, clock)
  {
    hide Nonces.PrintsHex, Issuable, Readable, ReplayableAt, Admits;
    forall run: seq<Presented> | InStep(run, clock) && PassAdmitsTwice(env, run, pass)
      ensures Replayable(env, pass, clock)
    {
      var i: nat, k: nat :| i < k < |run| && run[i].pass == run[k].pass == pass
                            && Admits(env, run, map[], i) && Admits(env, run, map[], k);
      TwiceIsReplayable(env, run, clock, pass, i, k);
    }
    if Replayable(env, pass, clock) {
      var i: nat, j: nat, k: nat :| i < j < k < |clock| && ReplayableAt(env, pass, clock, i, j, k);
      ReplayableIsReplayed(env, pass, clock, i, j, k);
    }
  }
}
