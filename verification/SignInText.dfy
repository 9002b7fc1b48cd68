/** The sign-in messages (EIP-4361, Message Format): a fixed 512-byte buffer that keeps what fits of
    a plain concatenation, and what the text it holds pins down. */
module SignInText {
  import opened Wrappers
  import opened Digits
  import Calendar

  const SIWE_MAX: nat := 512

  /** What the buffer keeps of a text. */
  function Clip(s: string): (r: string)
    ensures |r| <= SIWE_MAX && r <= s
  {
    if |s| <= SIWE_MAX then s else s[..SIWE_MAX]
  }

  // ---- Dates ----

  function Pad2(v: nat): (r: string)
    ensures |r| == 2
  {
    [Digit(v / 10 % 10), Digit(v % 10)]
  }

  /** `YYYY-MM-DDTHH:MM:SSZ`, the year in two halves. */
  function StampText(y1: nat, y2: nat, m: nat, d: nat, h: nat, mi: nat, se: nat): (r: string)
    ensures |r| == 20 && r[19] == 'Z' && r[18] != 'Z'
  {
    Pad2(y1) + Pad2(y2) + "-" + Pad2(m) + "-" + Pad2(d) + "T" + Pad2(h) + ":" + Pad2(mi) + ":" + Pad2(se) + "Z"
  }

  function IsoText(secs: nat): (r: string)
    ensures |r| == 20 && r[19] == 'Z' && r[18] != 'Z'
  {
    var c := Calendar.CivilFromDays(secs / 86_400);
    var rem := secs % 86_400;
    StampText(c.year / 100, c.year % 100, c.month, c.day, rem / 3_600, rem % 3_600 / 60, rem % 60)
  }

  /** 10000-01-01T00:00:00Z. */
  const YEAR_10000: nat := 253_402_300_800

  /** A date and time as written, field by field. */
  datatype Stamp = Stamp(date: Calendar.Civil, hour: nat, minute: nat, second: nat)

  function ReadDigit(c: char): (r: Option<nat>)
    ensures r.Some? ==> r.value < 10
  {
    if '0' <= c <= '9' then Some((c - '0') as nat) else None
  }

  function ReadPad2(s: string, at: nat): (r: Option<nat>)
    requires at + 1 < |s|
    ensures r.Some? ==> r.value < 100
  {
    match (ReadDigit(s[at]), ReadDigit(s[at + 1]))
    case (Some(a), Some(b)) => Some(10 * a + b)
    case _ => None
  }

  /** Reads the RFC 3339 form: four-digit year, two digits for everything else. */
  function ReadStamp(s: string): Option<Stamp> {
    if |s| != 20 || s[4] != '-' || s[7] != '-' || s[10] != 'T' || s[13] != ':' || s[16] != ':' || s[19] != 'Z' then None
    else
      match (ReadPad2(s, 0), ReadPad2(s, 2), ReadPad2(s, 5), ReadPad2(s, 8), ReadPad2(s, 11), ReadPad2(s, 14),
             ReadPad2(s, 17))
      case (Some(y1), Some(y2), Some(m), Some(d), Some(h), Some(mi), Some(se)) =>
        Some(Stamp(Calendar.Civil(100 * y1 + y2, m, d), h, mi, se))
      case _ => None
  }

  predicate ValidStamp(t: Stamp) {
    Calendar.Valid(t.date) && t.hour < 24 && t.minute < 60 && t.second < 60
  }

  /** Seconds from the Unix epoch to `t`, by counting days. */
  function SecondsOf(t: Stamp): int
    requires ValidStamp(t)
  {
    86_400 * (Calendar.DayNumber(t.date) - Calendar.EPOCH_DAY) + 3_600 * t.hour + 60 * t.minute + t.second
  }

  lemma Pad2Reads(v: nat)
    ensures ReadPad2(Pad2(v), 0) == Some(v % 100)
  {
    var t := v / 10;
    assert v == 100 * (t / 10) + (10 * (t % 10) + v % 10);
    assert v % 100 == 10 * (t % 10) + v % 10;
  }

  lemma ReadPad2At(s: string, at: nat, v: nat)
    requires at + 1 < |s| && s[at] == Pad2(v)[0] && s[at + 1] == Pad2(v)[1]
    ensures ReadPad2(s, at) == Some(v % 100)
  {
    Pad2Reads(v);
  }

  lemma StampTextReads(y1: nat, y2: nat, m: nat, d: nat, h: nat, mi: nat, se: nat)
    ensures ReadStamp(StampText(y1, y2, m, d, h, mi, se))
         == Some(Stamp(Calendar.Civil(100 * (y1 % 100) + y2 % 100, m % 100, d % 100), h % 100, mi % 100, se % 100))
  {
    var s := StampText(y1, y2, m, d, h, mi, se);
    ReadPad2At(s, 0, y1);
    ReadPad2At(s, 2, y2);
    ReadPad2At(s, 5, m);
    ReadPad2At(s, 8, d);
    ReadPad2At(s, 11, h);
    ReadPad2At(s, 14, mi);
    ReadPad2At(s, 17, se);
  }

  /** The fields of the date and time `secs` after the epoch. */
  function StampOf(secs: nat): Stamp {
    var rem := secs % 86_400;
    Stamp(Calendar.CivilFromDays(secs / 86_400), rem / 3_600, rem % 3_600 / 60, rem % 60)
  }

  lemma StampOfCountsBack(secs: nat)
    ensures ValidStamp(StampOf(secs)) && SecondsOf(StampOf(secs)) == secs
  {
    hide Calendar.CivilFromDays;
    Calendar.CivilCountsBack(secs / 86_400);
    var rem := secs % 86_400;
    assert (rem / 3_600) * 3_600 + (rem % 3_600 / 60) * 60 + rem % 60 == rem;
  }

  /** The year printed is the year modulo 10000; the other fields are printed whole. */
  lemma IsoTextReads(secs: nat)
    ensures var t := StampOf(secs);
            ReadStamp(IsoText(secs)) == Some(t.(date := t.date.(year := t.date.year % 10_000)))
  {
    hide Calendar.CivilFromDays, StampText, ReadStamp;
    var t := StampOf(secs);
    StampOfCountsBack(secs);
    var y := t.date.year;
    StampTextReads(y / 100, y % 100, t.date.month, t.date.day, t.hour, t.minute, t.second);
    YearHalves(y);
  }

  lemma YearHalves(y: nat)
    ensures 100 * (y / 100 % 100) + y % 100 % 100 == y % 10_000
  {
    assert y == 10_000 * (y / 10_000) + y % 10_000;
    assert y / 100 == 100 * (y / 10_000) + y % 10_000 / 100;
  }

  /** Year 10000 begins exactly at `YEAR_10000`. */
  lemma YearBelow10000(days: nat)
    ensures Calendar.CivilFromDays(days).year < 10_000 <==> days < YEAR_10000 / 86_400
  {
    hide Calendar.CivilFromDays;
    var c := Calendar.CivilFromDays(days);
    Calendar.CivilCountsBack(days);
    Calendar.MonthTable(c.year);
    Calendar.DaysBeforeYearClosed(10_000);
    assert Calendar.DaysBeforeYear(10_000) == YEAR_10000 / 86_400 + Calendar.EPOCH_DAY;
    if c.year < 10_000 {
      assert Calendar.DaysBeforeYear(c.year + 1) == Calendar.DaysBeforeYear(c.year) + Calendar.YearLength(c.year);
      Calendar.YearsOrder(c.year + 1, 10_000);
    } else {
      Calendar.YearsOrder(10_000, c.year);
    }
  }

  /** Before year 10000 the printed stamp is a valid date and time, and counting to it gives back
      the second it was printed from; from year 10000 on it never does. */
  lemma IsoTextRoundTrips(secs: nat)
    ensures var t := ReadStamp(IsoText(secs));
            secs < YEAR_10000 <==> (t.Some? && ValidStamp(t.value) && SecondsOf(t.value) == secs)
  {
    hide Calendar.CivilFromDays, IsoText, ReadStamp, Calendar.DayNumber;
    var whole := StampOf(secs);
    StampOfCountsBack(secs);
    YearBelow10000(secs / 86_400);
    IsoTextReads(secs);
    var t := ReadStamp(IsoText(secs)).value;
    if whole.date.year >= 10_000 && ValidStamp(t) {
      Calendar.DayNumberOrders(t.date, whole.date);
    }
  }

  lemma IsoTextInjective(s: nat, t: nat)
    requires s < YEAR_10000 && t < YEAR_10000 && IsoText(s) == IsoText(t)
    ensures s == t
  {
    IsoTextRoundTrips(s);
    IsoTextRoundTrips(t);
  }

  // ---- The writer ----

  class Text {
    const out: array<char>
    var at: nat
    /** Everything written so far, whether or not it fitted. */
    ghost var whole: string

    ghost predicate Valid()
      reads this, out
    {
      out.Length == SIWE_MAX && at == |Clip(whole)| && out[..at] == Clip(whole)
    }

    constructor (out: array<char>)
      requires out.Length == SIWE_MAX
      ensures this.out == out && Valid() && whole == ""
    {
      this.out := out;
      at := 0;
      whole := "";
    }

    method Bytes(b: string)
      requires Valid()
      modifies this, out
      ensures Valid() && whole == old(whole) + b
    {
      var end := if at + |b| < SIWE_MAX then at + |b| else SIWE_MAX;
      var n := end - at;
      ghost var held := out[..at];
      forall i | 0 <= i < n {
        out[at + i] := b[i];
      }
      assert out[..end] == held + b[..n];
      at := end;
      whole := whole + b;
      assert out[..at] == Clip(whole);
    }

    method HexBytes(b: seq<Byte>)
      requires Valid()
      modifies this, out
      ensures Valid() && whole == old(whole) + Hex(b)
    {
      for i := 0 to |b|
        invariant Valid() && whole == old(whole) + Hex(b[..i])
      {
        assert b[..i + 1] == b[..i] + [b[i]];
        HexAppend(b[..i], b[i]);
        Bytes([HEX[b[i] / 16], HEX[b[i] % 16]]);
      }
      assert b[..|b|] == b;
    }

    method Num(v: nat)
      requires Valid() && v < 0x1_0000_0000_0000_0000
      modifies this, out
      ensures Valid() && whole == old(whole) + Decimal(v)
    {
      var text := PrintDecimal(v);
      Bytes(text);
    }

    method WritePad2(v: nat)
      requires Valid()
      modifies this, out
      ensures Valid() && whole == old(whole) + Pad2(v)
    {
      Bytes([Digit(v / 10 % 10), Digit(v % 10)]);
    }

    method Iso8601(secs: nat)
      requires Valid()
      modifies this, out
      ensures Valid() && whole == old(whole) + IsoText(secs)
    {
      hide Calendar.CivilFromDays;
      var c := Calendar.CivilFromDays(secs / 86_400);
      var rem := secs % 86_400;
      WriteDate(c);
      ghost var date := whole;
      WritePad2(rem / 3_600);
      Bytes(":");
      WritePad2(rem % 3_600 / 60);
      Bytes(":");
      WritePad2(rem % 60);
      Bytes("Z");
      assert whole == date + (Pad2(rem / 3_600) + ":" + Pad2(rem % 3_600 / 60) + ":" + Pad2(rem % 60) + "Z");
      StampHalves(c, rem);
    }

    method WriteDate(c: Calendar.Civil)
      requires Valid()
      modifies this, out
      ensures Valid() && whole == old(whole) + DateText(c)
    {
      WritePad2(c.year / 100);
      WritePad2(c.year % 100);
      Bytes("-");
      WritePad2(c.month);
      Bytes("-");
      WritePad2(c.day);
      Bytes("T");
    }
  }

  function DateText(c: Calendar.Civil): string {
    Pad2(c.year / 100) + Pad2(c.year % 100) + "-" + Pad2(c.month) + "-" + Pad2(c.day) + "T"
  }

  lemma StampHalves(c: Calendar.Civil, rem: nat)
    ensures StampText(c.year / 100, c.year % 100, c.month, c.day, rem / 3_600, rem % 3_600 / 60, rem % 60)
         == DateText(c) + (Pad2(rem / 3_600) + ":" + Pad2(rem % 3_600 / 60) + ":" + Pad2(rem % 60) + "Z")
  {
  }

  // ---- Messages ----

  datatype Chain = Id(id: nat) | Named(name: string)

  function LastColon(s: string): (r: Option<nat>)
    ensures r.Some? ==> r.value < |s| && s[r.value] == ':' && ':' !in s[r.value + 1..]
    ensures r.None? ==> ':' !in s
  {
    if s == "" then None
    else if s[|s| - 1] == ':' then Some(|s| - 1)
    else
      var r := LastColon(s[..|s| - 1]);
      assert r.Some? ==> s[r.value + 1..] == s[..|s| - 1][r.value + 1..] + [s[|s| - 1]];
      assert s == s[..|s| - 1] + [s[|s| - 1]];
      r
  }

  /** Whether the page comes from this machine, served over plain http. */
  predicate Loopback(domain: string) {
    var colon := LastColon(domain);
    var host := if colon.Some? then domain[..colon.value] else domain;
    LocalHost(host)
  }

  predicate LocalHost(host: string) {
    host == "127.0.0.1" || host == "localhost" || host == "[::1]"
  }

  /** A host with no port: a name or an IPv4 address, or an IPv6 address in brackets. */
  predicate Bare(host: string) {
    ':' !in host || (|host| >= 2 && host[0] == '[' && host[|host| - 1] == ']' && ']' !in host[..|host| - 1])
  }

  /** With a port given, the page is local exactly when its host is. */
  lemma LoopbackIff(host: string, port: string)
    requires ':' !in port
    ensures Loopback(host + ":" + port) <==> LocalHost(host)
  {
    LastColonAt(host, port);
    assert (host + ":" + port)[..|host|] == host;
  }

  /** Without one the answer is right exactly for a host with no colon of its own or none that is local: the
      last colon of a bracketed address is taken for the port's, so what is left of it is no local host. */
  lemma BareLoopbackIff(host: string)
    requires Bare(host)
    ensures (Loopback(host) <==> LocalHost(host)) <==> ':' !in host || !LocalHost(host)
    ensures ':' in host ==> !Loopback(host)
  {
    var colon := LastColon(host);
    if colon.Some? {
      var left := host[..colon.value];
      assert colon.value < |host| - 1;
      assert left <= host[..|host| - 1];
      if left != "" {
        assert left[0] == '[';
        assert left[|left| - 1] == host[..|host| - 1][|left| - 1];
      }
    }
  }

  /** The one that is wrong. */
  lemma BareIpv6IsRemote()
    ensures Bare("[::1]") && LocalHost("[::1]") && !Loopback("[::1]")
  {
    var host := "[::1]";
    assert host[1] == ':';
    BareLoopbackIff(host);
  }

  lemma {:induction false} LastColonAt(left: string, right: string)
    requires ':' !in right
    ensures LastColon(left + ":" + right) == Some(|left|)
  {
    var s := left + ":" + right;
    if right == "" {
      assert s == left + ":";
    } else {
      var last := |right| - 1;
      assert s[..|s| - 1] == left + ":" + right[..last];
      assert s[|s| - 1] == right[last];
      LastColonAt(left, right[..last]);
    }
  }

  function Scheme(domain: string): string {
    if Loopback(domain) then "http://" else "https://"
  }

  /** With a port, the page's own scheme is plain exactly for the three local hosts. */
  lemma SchemeWithPort(host: string, port: string)
    requires ':' !in port
    ensures Scheme(host + ":" + port)
         == if host == "127.0.0.1" || host == "localhost" || host == "[::1]" then "http://" else "https://"
  {
    LoopbackIff(host, port);
  }

  /** Without one it is plain for two of them alone. */
  lemma SchemeBare(host: string)
    requires Bare(host)
    ensures Scheme(host) == if host == "127.0.0.1" || host == "localhost" then "http://" else "https://"
  {
    BareLoopbackIff(host);
    BareIpv6IsRemote();
    NoColons();
  }

  lemma NoColons()
    ensures ':' !in "127.0.0.1" && ':' !in "localhost"
  {
  }

  function ChainText(c: Chain): string {
    match c
    case Id(id) => Decimal(id)
    case Named(name) => name
  }

  const WANTS: string := " wants you to sign in with your "
  const ACCOUNT: string := " account:\n"
  const URI: string := "\n\nURI: "
  const VERSION: string := "\nVersion: 1\nChain ID: "
  const NONCE: string := "\nNonce: "
  const ISSUED: string := "\nIssued At: "

  /** From the domain to the domain's second appearance. */
  function Head(domain: string, family: string, address: string, statement: string): string {
    domain + WANTS + family + ACCOUNT + address + "\n\n" + statement + URI + Scheme(domain) + domain
  }

  /** A whole message, piece by piece: the form of EIP-4361. */
  function MessageText(domain: string, family: string, address: string, statement: string, chain: Chain,
                       nonce: seq<Byte>, issuedAt: nat): string
  {
    Head(domain, family, address, statement) + VERSION + ChainText(chain) + NONCE + Hex(nonce) + ISSUED
      + IsoText(issuedAt)
  }

  method WriteMessage(domain: string, family: string, address: string, statement: string, chain: Chain,
                      nonce: seq<Byte>, issuedAt: nat, out: array<char>) returns (len: nat)
    requires out.Length == SIWE_MAX
    requires chain.Id? ==> chain.id < 0x1_0000_0000_0000_0000
    modifies out
    ensures len <= SIWE_MAX
    ensures out[..len] == Clip(MessageText(domain, family, address, statement, chain, nonce, issuedAt))
  {
    var w := new Text(out);
    WriteHead(w, domain, family, address, statement);
    w.Bytes(VERSION);
    match chain {
      case Id(id) => w.Num(id);
      case Named(name) => w.Bytes(name);
    }
    w.Bytes(NONCE);
    w.HexBytes(nonce);
    w.Bytes(ISSUED);
    w.Iso8601(issuedAt);
    len := w.at;
  }

  method WriteHead(w: Text, domain: string, family: string, address: string, statement: string)
    requires w.Valid() && w.whole == ""
    modifies w, w.out
    ensures w.Valid() && w.whole == Head(domain, family, address, statement)
  {
    hide Text.Valid, Clip, Scheme, WANTS, ACCOUNT, URI;
    w.Bytes(domain);
    w.Bytes(WANTS);
    w.Bytes(family);
    w.Bytes(ACCOUNT);
    w.Bytes(address);
    w.Bytes("\n\n");
    w.Bytes(statement);
    w.Bytes(URI);
    w.Bytes(Scheme(domain));
    w.Bytes(domain);
  }
}
