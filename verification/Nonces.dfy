/** The single-use nonces a pass must carry: each proves itself by its MAC, so the server remembers
    only the ones used and not yet expired. */
module Nonces {
  import opened Wrappers
  import opened Digits
  import opened FiniteSets

  const NONCE_TTL: nat := 15 * 60
  const NONCE_CAP: nat := 100_000
  const SKEW: nat := 5

  predicate LowerHexDigit(c: char) {
    '0' <= c <= '9' || 'a' <= c <= 'f'
  }

  /** 64 lowercase hex digits whose second half is the MAC of the first. */
  predicate Genuine(mac: string -> string, n: string) {
    |n| == 64 && (forall i :: 0 <= i < 64 ==> LowerHexDigit(n[i])) && mac(n[..32]) == n[32..]
  }

  function HexValue(s: string): nat {
    if s == "" then 0
    else
      var d := Nibble(s[|s| - 1]);
      16 * HexValue(s[..|s| - 1]) + (if d.Some? then d.value else 0)
  }

  /** When a nonce says it was issued. */
  function IssuedAt(n: string): nat {
    if |n| < 16 then 0 else HexValue(n[..16])
  }

  function Since(now: nat, then_: nat): nat {
    if now < then_ then 0 else now - then_
  }

  predicate Live(at: nat, now: nat) {
    at <= now + SKEW && Since(now, at) < NONCE_TTL
  }

  /** The used nonces still worth remembering at `now`. */
  function Remembered(used: map<string, nat>, now: nat): map<string, nat> {
    map n | n in used && Since(now, used[n]) < NONCE_TTL :: used[n]
  }

  /** One take: whether it succeeds, and what is remembered as used afterwards. */
  function Take(mac: string -> string, used: map<string, nat>, n: string, now: nat): (bool, map<string, nat>) {
    if !Genuine(mac, n) || !Live(IssuedAt(n), now) then (false, used)
    else
      var kept := Remembered(used, now);
      if n in kept || |kept| >= NONCE_CAP then (false, kept)
      else (true, kept[n := IssuedAt(n)])
  }

  class Store {
    const mac: string -> string
    var used: map<string, nat>

    constructor (mac: string -> string)
      ensures this.mac == mac && used == map[]
    {
      this.mac := mac;
      used := map[];
    }

    method TakeAt(n: string, now: nat) returns (ok: bool)
      modifies this
      ensures (ok, used) == Take(mac, old(used), n, now)
    {
      if |n| != 64 || !(forall i :: 0 <= i < 64 ==> LowerHexDigit(n[i])) {
        return false;
      }
      var head, tail := n[..32], n[32..];
      if mac(head) != tail {
        return false;
      }
      assert n[..16] == head[..16];
      var at := HexValue(head[..16]);
      if at > now + SKEW || Since(now, at) >= NONCE_TTL {
        return false;
      }
      used := map m | m in used && Since(now, used[m]) < NONCE_TTL :: used[m];
      if n in used || |used| >= NONCE_CAP {
        return false;
      }
      used := used[n := at];
      return true;
    }
  }

  // ---- Spending ----

  /** No take of `n` from `now` on can succeed: it is remembered under its own time, or expired. */
  predicate Spent(used: map<string, nat>, n: string, now: nat) {
    (n in used && used[n] == IssuedAt(n)) || Since(now, IssuedAt(n)) >= NONCE_TTL
  }

  lemma TakenIsSpent(mac: string -> string, used: map<string, nat>, n: string, now: nat)
    requires Take(mac, used, n, now).0
    ensures Spent(Take(mac, used, n, now).1, n, now)
  {
  }

  lemma SpentRefuses(mac: string -> string, used: map<string, nat>, n: string, before: nat, now: nat)
    requires Spent(used, n, before) && before <= now
    ensures !Take(mac, used, n, now).0
  {
  }

  lemma SpentStays(mac: string -> string, used: map<string, nat>, n: string, before: nat, m: string, now: nat)
    requires Spent(used, n, before) && before <= now
    ensures Spent(Take(mac, used, m, now).1, n, now)
  {
  }

  lemma RememberedTwice(used: map<string, nat>, now: nat, later: nat)
    requires now <= later
    ensures Remembered(Remembered(used, now), later) == Remembered(used, later)
  {
  }

  /** A refused take spends nothing, however the clock reads: what would have been taken still is. If the clock
      has not fallen since, what would have been refused still is, too. */
  lemma RefusedTakeSpendsNothing(mac: string -> string, used: map<string, nat>, m: string, now: nat,
                                 n: string, later: nat)
    requires !Take(mac, used, m, now).0
    ensures Take(mac, used, n, later).0 ==> Take(mac, Take(mac, used, m, now).1, n, later).0
    ensures now <= later ==> SameOutcome(mac, used, Take(mac, used, m, now).1, n, later)
  {
    if now <= later {
      RememberedTwice(used, now, later);
    }
    var kept := Remembered(used, now);
    SubsetSize(Remembered(kept, later).Keys, Remembered(used, later).Keys);
  }

  predicate SameOutcome(mac: string -> string, a: map<string, nat>, b: map<string, nat>, n: string, now: nat) {
    Take(mac, a, n, now).0 <==> Take(mac, b, n, now).0
  }

  /** What a store holds: genuine nonces under their own times, no more than it has room for. */
  ghost predicate WellKept(mac: string -> string, used: map<string, nat>) {
    (forall n :: n in used ==> Genuine(mac, n) && used[n] == IssuedAt(n)) && |used| <= NONCE_CAP
  }

  lemma TakeKeepsWell(mac: string -> string, used: map<string, nat>, n: string, now: nat)
    requires WellKept(mac, used)
    ensures WellKept(mac, Take(mac, used, n, now).1)
  {
    hide Genuine, IssuedAt;
    var kept := Remembered(used, now);
    SubsetSize(kept.Keys, used.Keys);
    assert kept[n := IssuedAt(n)].Keys == kept.Keys + {n};
  }

  /** Some remembered nonce has run out. */
  predicate SomeRunOut(used: map<string, nat>, now: nat) {
    exists n :: n in used && Since(now, used[n]) >= NONCE_TTL
  }

  /** A refusal leaves every take as it was, at whatever reading, exactly when it forgets nothing: the nonce it
      refuses is none of the server's or out of its time, or none remembered has run out. */
  lemma RefusalChangesNothingIff(mac: string -> string, used: map<string, nat>, m: string, now: nat)
    requires WellKept(mac, used) && !Take(mac, used, m, now).0
    ensures (forall n: string, later: nat :: SameOutcome(mac, used, Take(mac, used, m, now).1, n, later))
       <==> !(Genuine(mac, m) && Live(IssuedAt(m), now) && SomeRunOut(used, now))
  {
    hide Genuine, IssuedAt;
    var after := Take(mac, used, m, now).1;
    if Genuine(mac, m) && Live(IssuedAt(m), now) {
      if SomeRunOut(used, now) {
        var n :| n in used && Since(now, used[n]) >= NONCE_TTL;
        Forgotten(mac, used, n, now);
        assert !SameOutcome(mac, used, after, n, used[n]);
      } else {
        assert Remembered(used, now) == used;
      }
    }
  }

  /** A nonce forgotten is taken again, should the clock fall back to its time. */
  lemma Forgotten(mac: string -> string, used: map<string, nat>, n: string, now: nat)
    requires WellKept(mac, used) && n in used && Since(now, used[n]) >= NONCE_TTL
    ensures !Take(mac, used, n, used[n]).0 && Take(mac, Remembered(used, now), n, used[n]).0
  {
    hide Genuine, IssuedAt;
    var kept := Remembered(used, now);
    SubsetSize(kept.Keys, used.Keys - {n});
    SubsetSize(Remembered(kept, used[n]).Keys, kept.Keys);
  }

  /** So refusing a second showing of `m` makes the older `n` good again at a reading in its time. */
  lemma RefusalCanRevive(mac: string -> string, n: string, m: string, now: nat, later: nat)
    requires Genuine(mac, n) && Genuine(mac, m) && IssuedAt(m) == now && Since(now, IssuedAt(n)) >= NONCE_TTL
    requires Live(IssuedAt(n), later)
    ensures var used := map[n := IssuedAt(n), m := now];
            && !Take(mac, used, n, later).0 && !Take(mac, used, m, now).0
            && Take(mac, Take(mac, used, m, now).1, n, later).0
  {
    hide Genuine, IssuedAt;
    var used := map[n := IssuedAt(n), m := now];
    var kept := Take(mac, used, m, now).1;
    assert kept == map[m := now];
    assert Remembered(kept, later).Keys <= {m};
    SubsetSize(Remembered(kept, later).Keys, {m});
  }

  // ---- Issuing ----

  const U64: nat := 0x1_0000_0000_0000_0000
  const SALT_BYTES: nat := 8

  /** The MAC comes out as 32 lowercase hex digits. */
  ghost predicate PrintsHex(mac: string -> string) {
    forall head :: |mac(head)| == 32 && AllLowerHex(mac(head))
  }

  predicate AllLowerHex(s: string) {
    forall i :: 0 <= i < |s| ==> LowerHexDigit(s[i])
  }

  /** The last `n` bytes of a number, most significant first. */
  function BigEndian(v: nat, n: nat): (r: seq<Byte>)
    ensures |r| == n
  {
    if n == 0 then [] else BigEndian(v / 256, n - 1) + [v % 256]
  }

  function Pow256(n: nat): nat {
    if n == 0 then 1 else 256 * Pow256(n - 1)
  }

  function Head(at: nat, salt: seq<Byte>): string {
    Hex(BigEndian(at, 8)) + Hex(salt)
  }

  /** The nonce handed out at `at`, its salt drawn at random. */
  function Issue(mac: string -> string, at: nat, salt: seq<Byte>): string {
    Head(at, salt) + mac(Head(at, salt))
  }

  lemma HexIsLower(b: seq<Byte>)
    ensures AllLowerHex(Hex(b))
  {
    forall i | 0 <= i < |Hex(b)|
      ensures LowerHexDigit(Hex(b)[i])
    {
      HexAt(b, i / 2);
    }
  }

  lemma HexValueAppend(s: string, x: Byte)
    ensures HexValue(s + [HEX[x / 16], HEX[x % 16]]) == 256 * HexValue(s) + x
  {
    var a, b := HEX[x / 16], HEX[x % 16];
    assert (s + [a, b])[..|s| + 1] == s + [a] && (s + [a])[..|s|] == s;
    NibbleReadsHex(a, x / 16);
    NibbleReadsHex(b, x % 16);
    assert HexValue(s + [a]) == 16 * HexValue(s) + x / 16;
  }

  lemma {:induction false} HexValueReads(v: nat, n: nat)
    requires v < Pow256(n)
    ensures HexValue(Hex(BigEndian(v, n))) == v
  {
    if n > 0 {
      HexValueReads(v / 256, n - 1);
      HexAppend(BigEndian(v / 256, n - 1), v % 256);
      HexValueAppend(Hex(BigEndian(v / 256, n - 1)), v % 256);
    }
  }

  lemma Eight()
    ensures Pow256(8) == U64
  {
    assert Pow256(4) == 0x1_0000_0000;
  }

  /** A nonce as issued proves itself and carries its time. */
  lemma IssuedIsGenuine(mac: string -> string, at: nat, salt: seq<Byte>)
    requires PrintsHex(mac) && at < U64 && |salt| == SALT_BYTES
    ensures Genuine(mac, Issue(mac, at, salt)) && IssuedAt(Issue(mac, at, salt)) == at
  {
    var time, rest, head := Hex(BigEndian(at, 8)), Hex(salt), Head(at, salt);
    var n := Issue(mac, at, salt);
    assert n[..32] == head && n[32..] == mac(head) && n[..16] == time;
    HexIsLower(BigEndian(at, 8));
    HexIsLower(salt);
    forall i | 0 <= i < 64
      ensures LowerHexDigit(n[i])
    {
      assert n[i] == if i < 16 then time[i] else if i < 32 then rest[i - 16] else mac(head)[i - 32];
    }
    Eight();
    HexValueReads(at, 8);
  }

  /** It is taken exactly when the reading is within its life, it is not still remembered as used, and there is
      room for another. */
  lemma IssuedIsTakenIff(mac: string -> string, at: nat, salt: seq<Byte>, used: map<string, nat>, now: nat)
    requires PrintsHex(mac) && at < U64 && |salt| == SALT_BYTES
    ensures var n, kept := Issue(mac, at, salt), Remembered(used, now);
            Take(mac, used, n, now).0 <==> at <= now + SKEW && now < at + NONCE_TTL && n !in kept && |kept| < NONCE_CAP
  {
    IssuedIsGenuine(mac, at, salt);
    hide Genuine, IssuedAt, Issue, PrintsHex;
  }

  // ---- What a take asks of a nonce, spelled out ----

  /** Some lowercase hex digits. */
  predicate Spelt(s: string) {
    forall i :: 0 <= i < |s| ==> s[i] in "0123456789abcdef"
  }

  lemma SpeltIsLower(s: string)
    ensures Spelt(s) <==> AllLowerHex(s)
  {
    var hex := "0123456789abcdef";
    forall i | 0 <= i < |s|
      ensures s[i] in hex <==> LowerHexDigit(s[i])
    {
      if LowerHexDigit(s[i]) {
        var d := if s[i] <= '9' then (s[i] - '0') as nat else (s[i] - 'a') as nat + 10;
        assert hex[d] == s[i];
      }
    }
  }

  /** Lowercase hex digits, two a byte, are the print of the number they spell. */
  lemma {:induction false} HexValuePrints(s: string, n: nat)
    requires |s| == 2 * n && AllLowerHex(s)
    ensures HexValue(s) < Pow256(n) && Hex(BigEndian(HexValue(s), n)) == s
  {
    hide HexValue, Hex, HEX;
    if n == 0 {
      NoDigits(s);
    } else {
      var front := s[..|s| - 2];
      HexValuePrints(front, n - 1);
      var x := LastByte(s);
      HexValueAppend(front, x);
      HexAppend(BigEndian(HexValue(front), n - 1), x);
    }
  }

  lemma NoDigits(s: string)
    requires s == ""
    ensures HexValue(s) == 0 && Hex([]) == s
  {
  }

  lemma LastByte(s: string) returns (x: Byte)
    requires |s| >= 2 && AllLowerHex(s)
    ensures s == s[..|s| - 2] + [HEX[x / 16], HEX[x % 16]]
  {
    var hi := LowerNibble(s[|s| - 2]);
    var lo := LowerNibble(s[|s| - 1]);
    hide HEX, AllLowerHex;
    x := 16 * hi + lo;
    assert x / 16 == hi && x % 16 == lo;
    assert s[|s| - 2..] == [HEX[hi], HEX[lo]];
  }

  lemma LowerNibble(c: char) returns (d: nat)
    requires LowerHexDigit(c)
    ensures d < 16 && HEX[d] == c
  {
    d := if c <= '9' then (c - '0') as nat else (c - 'a') as nat + 10;
  }

  /** The nonce's first half opens with time `at`, sixteen digits most significant first. */
  predicate Opens(n: string, at: nat) {
    at < U64 && Hex(BigEndian(at, 8)) <= n
  }

  lemma OpensAtItsTime(n: string, at: nat)
    requires |n| == 64 && AllLowerHex(n)
    ensures Opens(n, at) <==> at == IssuedAt(n)
  {
    Eight();
    var head := n[..16];
    HexValuePrints(head, 8);
    if at < U64 {
      HexValueReads(at, 8);
    }
    if Opens(n, at) {
      assert n[..16] == Hex(BigEndian(at, 8));
    }
  }

  /** Used nonces a server still has to refuse at `now`: those issued less than fifteen minutes before. */
  function Held(used: map<string, nat>, now: nat): set<string> {
    set n | n in used && now < used[n] + 900
  }

  /** What is asked: 64 lowercase hex digits, the second 32 the MAC of the first, opening with a time at most five
      seconds ahead and less than fifteen minutes gone, not held already, and room for one more. */
  ghost predicate Welcome(mac: string -> string, used: map<string, nat>, n: string, now: nat) {
    && |n| == 64 && Spelt(n) && mac(n[..32]) == n[32..]
    && (exists at: nat :: Opens(n, at) && at <= now + 5 && now < at + 900)
    && n !in Held(used, now) && |Held(used, now)| < 100_000
  }

  /** Main result: a nonce is taken if and only if it is all that; and then it is held from then on, under the time
      it opens with, with those that were. */
  lemma TakenIff(mac: string -> string, used: map<string, nat>, n: string, now: nat)
    ensures Take(mac, used, n, now).0 <==> Welcome(mac, used, n, now)
    ensures var after := Take(mac, used, n, now).1;
            Take(mac, used, n, now).0 ==>
              after.Keys == Held(used, now) + {n} && Opens(n, after[n])
              && forall m :: m in Held(used, now) ==> after[m] == used[m]
  {
    hide Opens, IssuedAt, Spelt;
    SpeltIsLower(n);
    assert Remembered(used, now).Keys == Held(used, now);
    if |n| == 64 && AllLowerHex(n) {
      forall at: nat
        ensures Opens(n, at) <==> at == IssuedAt(n)
      {
        OpensAtItsTime(n, at);
      }
      assert Opens(n, IssuedAt(n));
    }
  }

  // ---- Runs of takes, and how the clock may read ----

  /** A take: the nonce shown, and the clock's reading. */
  datatype Taking = Taking(nonce: string, now: nat)

  /** What is remembered after the first `k` takes of a run. */
  function After(mac: string -> string, used: map<string, nat>, run: seq<Taking>, k: nat): map<string, nat>
    requires k <= |run|
  {
    if k == 0 then used else Take(mac, After(mac, used, run, k - 1), run[k - 1].nonce, run[k - 1].now).1
  }

  lemma {:induction false} AfterIsWellKept(mac: string -> string, run: seq<Taking>, k: nat)
    requires k <= |run|
    ensures WellKept(mac, After(mac, map[], run, k))
  {
    hide WellKept, Take;
    if k == 0 {
      NothingIsWellKept(mac);
    } else {
      AfterIsWellKept(mac, run, k - 1);
      TakeKeepsWell(mac, After(mac, map[], run, k - 1), run[k - 1].nonce, run[k - 1].now);
    }
  }

  lemma NothingIsWellKept(mac: string -> string)
    ensures WellKept(mac, map[])
  {
  }

  predicate Takes(mac: string -> string, used: map<string, nat>, run: seq<Taking>, i: nat)
    requires i < |run|
  {
    Take(mac, After(mac, used, run, i), run[i].nonce, run[i].now).0
  }

  predicate ReadsAs(run: seq<Taking>, clock: seq<nat>) {
    |run| == |clock| && forall i :: 0 <= i < |run| ==> run[i].now == clock[i]
  }

  ghost predicate TakenTwice(mac: string -> string, used: map<string, nat>, run: seq<Taking>) {
    exists i, k :: 0 <= i < k < |run| && run[i].nonce == run[k].nonce
                   && Takes(mac, used, run, i) && Takes(mac, used, run, k)
  }

  /** Whatever is shown, a server whose clock reads so from its start takes no nonce twice. */
  ghost predicate SingleUse(mac: string -> string, clock: seq<nat>) {
    forall run :: ReadsAs(run, clock) ==> !TakenTwice(mac, map[], run)
  }

  /** The clock reads ahead of an earlier reading, then falls back to near that one: nearer than a nonce's life
      and its skew. */
  predicate FallsBack(clock: seq<nat>, i: nat, j: nat, k: nat)
    requires i < j < k < |clock|
  {
    && clock[i] < clock[j] && clock[k] < clock[j] && NONCE_TTL <= clock[j]
    && clock[i] < clock[k] + NONCE_TTL + SKEW && clock[k] < clock[i] + NONCE_TTL + SKEW
  }

  predicate NeverFallsBack(clock: seq<nat>) {
    forall i, j, k :: 0 <= i < j < k < |clock| ==> !FallsBack(clock, i, j, k)
  }

  /** A time of issue good at both readings `a` and `c` and run out at `b`. */
  predicate Revives(t: nat, a: nat, b: nat, c: nat) {
    Live(t, a) && Since(b, t) >= NONCE_TTL && Live(t, c)
  }

  /** The earliest time good at both readings. */
  function Earliest(a: nat, c: nat): nat {
    var later := if a < c then c else a;
    if later < NONCE_TTL then 0 else later - NONCE_TTL + 1
  }

  lemma FallsBackIff(clock: seq<nat>, i: nat, j: nat, k: nat)
    requires i < j < k < |clock|
    ensures FallsBack(clock, i, j, k) <==> Revives(Earliest(clock[i], clock[k]), clock[i], clock[j], clock[k])
    ensures FallsBack(clock, i, j, k) <==> exists t :: Revives(t, clock[i], clock[j], clock[k])
  {
  }

  /** A nonce taken stays remembered until some reading has it run out. */
  lemma {:induction false} RememberedUntil(mac: string -> string, used: map<string, nat>, run: seq<Taking>, i: nat,
                                           k: nat)
    requires i < k <= |run| && Takes(mac, used, run, i)
    requires forall j :: i < j < k ==> Since(run[j].now, IssuedAt(run[i].nonce)) < NONCE_TTL
    ensures var n := run[i].nonce; var u := After(mac, used, run, k); n in u && u[n] == IssuedAt(n)
    decreases k
  {
    hide Genuine, IssuedAt, Since;
    if i < k - 1 {
      RememberedUntil(mac, used, run, i, k - 1);
    }
  }

  /** A nonce taken twice had run out at a reading in between, and was good at both ends. */
  lemma TakenTwiceRevives(mac: string -> string, used: map<string, nat>, run: seq<Taking>, i: nat, k: nat)
    returns (j: nat)
    requires i < k < |run| && run[i].nonce == run[k].nonce && Takes(mac, used, run, i) && Takes(mac, used, run, k)
    ensures i < j < k && Genuine(mac, run[i].nonce)
    ensures Revives(IssuedAt(run[i].nonce), run[i].now, run[j].now, run[k].now)
  {
    hide Genuine, IssuedAt, Since;
    var t := IssuedAt(run[i].nonce);
    if forall j :: i < j < k ==> Since(run[j].now, t) < NONCE_TTL {
      RememberedUntil(mac, used, run, i, k);
    }
    j :| i < j < k && Since(run[j].now, t) >= NONCE_TTL;
  }

  /** No nonce is taken twice, whatever was remembered at first, where the clock never falls back. */
  lemma NotTakenTwice(mac: string -> string, used: map<string, nat>, run: seq<Taking>, clock: seq<nat>, i: nat, k: nat)
    requires ReadsAs(run, clock) && NeverFallsBack(clock) && i < k < |run| && run[i].nonce == run[k].nonce
    ensures !(Takes(mac, used, run, i) && Takes(mac, used, run, k))
  {
    hide Genuine, IssuedAt, Takes, Revives, FallsBack;
    if Takes(mac, used, run, i) && Takes(mac, used, run, k) {
      var j := TakenTwiceRevives(mac, used, run, i, k);
      FallsBackIff(clock, i, j, k);
    }
  }

  /** In every run each nonce taken carries the MAC of its own head: nobody without the key can make one. */
  lemma TakenCarriesMac(mac: string -> string, used: map<string, nat>, run: seq<Taking>, i: nat)
    requires i < |run| && Takes(mac, used, run, i)
    ensures |run[i].nonce| == 64 && mac(run[i].nonce[..32]) == run[i].nonce[32..]
  {
    hide After, Take;
    TakenIff(mac, After(mac, used, run, i), run[i].nonce, run[i].now);
  }

  /** Where it does, this is shown: a nonce at `i`, another at `j` that has the first forgotten, and the first
      again at `k`. */
  function Replay(n: string, m: string, clock: seq<nat>, i: nat, j: nat, k: nat): seq<Taking> {
    seq(|clock|, x requires 0 <= x < |clock| =>
      Taking(if x == i || x == k then n else if x == j then m else "", clock[x]))
  }

  lemma {:induction false} NothingShown(mac: string -> string, used: map<string, nat>, run: seq<Taking>, a: nat, b: nat)
    requires a <= b <= |run| && forall x :: a <= x < b ==> run[x].nonce == ""
    ensures After(mac, used, run, b) == After(mac, used, run, a)
    decreases b
  {
    if a < b {
      NothingShown(mac, used, run, a, b - 1);
    }
  }

  lemma ReplayTakesTwice(mac: string -> string, n: string, m: string, clock: seq<nat>, i: nat, j: nat, k: nat)
    requires i < j < k < |clock| && Genuine(mac, n) && Genuine(mac, m) && IssuedAt(m) == clock[j]
    requires Revives(IssuedAt(n), clock[i], clock[j], clock[k])
    ensures var run := Replay(n, m, clock, i, j, k); Takes(mac, map[], run, i) && Takes(mac, map[], run, k)
    ensures TakenTwice(mac, map[], Replay(n, m, clock, i, j, k))
  {
    hide Genuine, IssuedAt, Take, After, NeverFallsBack;
    var run := Replay(n, m, clock, i, j, k);
    var u, v := map[n := IssuedAt(n)], map[m := IssuedAt(m)];
    AtFirst(mac, run);
    NothingShown(mac, map[], run, 0, i);
    TakeForgets(mac, map[], n, clock[i]);
    NextIs(mac, map[], run, i);
    NothingShown(mac, map[], run, i + 1, j);
    TakeForgets(mac, u, m, clock[j]);
    NextIs(mac, map[], run, j);
    NothingShown(mac, map[], run, j + 1, k);
    assert After(mac, map[], run, k) == v;
    TakenBesides(mac, v, n, clock[k]);
    assert Takes(mac, map[], run, i) && Takes(mac, map[], run, k);
  }

  lemma AtFirst(mac: string -> string, run: seq<Taking>)
    ensures After(mac, map[], run, 0) == map[]
  {
  }

  lemma NextIs(mac: string -> string, used: map<string, nat>, run: seq<Taking>, k: nat)
    requires k < |run|
    ensures After(mac, used, run, k + 1) == Take(mac, After(mac, used, run, k), run[k].nonce, run[k].now).1
  {
  }

  lemma TakenBesides(mac: string -> string, used: map<string, nat>, n: string, now: nat)
    requires Genuine(mac, n) && Live(IssuedAt(n), now) && n !in used && |used| == 1
    ensures Take(mac, used, n, now).0
  {
    var kept := Remembered(used, now);
    assert kept.Keys <= used.Keys;
    SubsetSize(kept.Keys, used.Keys);
  }

  /** Once all that was remembered has run out, a good nonce is taken and remembered alone. */
  lemma TakeForgets(mac: string -> string, used: map<string, nat>, n: string, now: nat)
    requires Genuine(mac, n) && Live(IssuedAt(n), now) && forall m :: m in used ==> Since(now, used[m]) >= NONCE_TTL
    ensures Take(mac, used, n, now) == (true, map[n := IssuedAt(n)])
  {
    assert Remembered(used, now) == map[];
  }

  /** Main result: nonces are single use, whatever is shown and whatever the key, if and only if the clock
      never reads ahead and then falls back near an earlier reading. */
  lemma SingleUseIff(mac: string -> string, clock: seq<nat>)
    requires PrintsHex(mac) && forall i :: 0 <= i < |clock| ==> clock[i] < U64
    ensures SingleUse(mac, clock) <==> NeverFallsBack(clock)
  {
    hide PrintsHex, Takes, FallsBack;
    if NeverFallsBack(clock) {
      forall run: seq<Taking> | ReadsAs(run, clock)
        ensures !TakenTwice(mac, map[], run)
      {
        forall i, k | 0 <= i < k < |run| && run[i].nonce == run[k].nonce
          ensures !(Takes(mac, map[], run, i) && Takes(mac, map[], run, k))
        {
          NotTakenTwice(mac, map[], run, clock, i, k);
        }
      }
    } else {
      var i: nat, j: nat, k: nat :| i < j < k < |clock| && FallsBack(clock, i, j, k);
      FallingClockReuses(mac, clock, i, j, k);
    }
  }

  lemma FallingClockReuses(mac: string -> string, clock: seq<nat>, i: nat, j: nat, k: nat)
    requires PrintsHex(mac) && (forall x :: 0 <= x < |clock| ==> clock[x] < U64)
    requires i < j < k < |clock| && FallsBack(clock, i, j, k)
    ensures !SingleUse(mac, clock)
  {
    var salt: seq<Byte> := [0, 0, 0, 0, 0, 0, 0, 0];
    FallsBackIff(clock, i, j, k);
    var t := Earliest(clock[i], clock[k]);
    IssuedIsGenuine(mac, t, salt);
    IssuedIsGenuine(mac, clock[j], salt);
    var n, m := Issue(mac, t, salt), Issue(mac, clock[j], salt);
    ReplayTakesTwice(mac, n, m, clock, i, j, k);
    assert ReadsAs(Replay(n, m, clock, i, j, k), clock);
  }

  /** A clock that never falls never falls back. */
  lemma RisingNeverFallsBack(clock: seq<nat>)
    requires forall i, j :: 0 <= i < j < |clock| ==> clock[i] <= clock[j]
    ensures NeverFallsBack(clock)
  {
  }
}
