/** The three sign-in texts, and what a signature over one of them says: which text it is, and every
    field in it. */
module SignInMessages {
  import opened Wrappers
  import opened Digits
  import opened SignInText
  import Addresses

  datatype Kind = Siwe | Legacy | Siws

  const STATEMENT: string :=
    "Prove your identity to play " + "before-colony. This signature authorises nothing and moves no funds."
  const LEGACY_STATEMENT: string :=
    "Sign in to Before Colony. " + "This proves you own this address; it authorizes nothing and moves no funds."
  const CHAIN_ID: nat := 4663
  const LEGACY_CHAIN_ID: nat := 1
  const NONCE_BYTES: nat := 32

  function Family(k: Kind): string {
    if k.Siws? then "Solana" else "Ethereum"
  }

  function Statement(k: Kind): string {
    if k.Legacy? then LEGACY_STATEMENT else STATEMENT
  }

  function ChainOf(k: Kind): Chain {
    match k
    case Siwe => Id(CHAIN_ID)
    case Legacy => Id(LEGACY_CHAIN_ID)
    case Siws => Named("mainnet")
  }

  /** The text of kind `k`, its address as written. */
  function Message(k: Kind, domain: string, address: string, nonce: seq<Byte>, issuedAt: nat): string {
    MessageText(domain, Family(k), address, Statement(k), ChainOf(k), nonce, issuedAt)
  }

  method SiweMessage(domain: string, address: seq<Byte>, keccak: string -> seq<Byte>, nonce: seq<Byte>, issuedAt: nat,
                     out: array<char>) returns (len: nat)
    requires out.Length == SIWE_MAX && |address| == 20 && |keccak(Hex(address))| == 32
    modifies out
    ensures len <= SIWE_MAX
    ensures out[..len]
         == Clip(Message(Siwe, domain, Addresses.ChecksumText(address, keccak(Hex(address))), nonce, issuedAt))
  {
    var checksummed := Addresses.ChecksumHex(address, keccak);
    len := WriteMessage(domain, "Ethereum", checksummed[..], STATEMENT, Id(CHAIN_ID), nonce, issuedAt, out);
  }

  method LegacyMessage(domain: string, address: seq<Byte>, keccak: string -> seq<Byte>, nonce: seq<Byte>, issuedAt: nat,
                       out: array<char>) returns (len: nat)
    requires out.Length == SIWE_MAX && |address| == 20 && |keccak(Hex(address))| == 32
    modifies out
    ensures len <= SIWE_MAX
    ensures out[..len]
         == Clip(Message(Legacy, domain, Addresses.ChecksumText(address, keccak(Hex(address))), nonce, issuedAt))
  {
    var checksummed := Addresses.ChecksumHex(address, keccak);
    len := WriteMessage(domain, "Ethereum", checksummed[..], LEGACY_STATEMENT, Id(LEGACY_CHAIN_ID), nonce, issuedAt,
                        out);
  }

  method SiwsMessage(domain: string, address: string, nonce: seq<Byte>, issuedAt: nat, out: array<char>)
    returns (len: nat)
    requires out.Length == SIWE_MAX
    modifies out
    ensures len <= SIWE_MAX
    ensures out[..len] == Clip(Message(Siws, domain, address, nonce, issuedAt))
  {
    len := WriteMessage(domain, "Solana", address, STATEMENT, Named("mainnet"), nonce, issuedAt, out);
  }

  // ---- The texts, spelled out ----

  /** What a page at `domain`, reached by `scheme`, asks an Ethereum wallet to sign. */
  function SiweLetter(domain: string, scheme: string, address: string, nonce: seq<Byte>, issuedAt: nat): string {
    domain + " wants you to sign in with your " + "Ethereum" + " account:\n" + address + "\n\n"
      + ("Prove your identity to play " + "before-colony. This signature authorises nothing and moves no funds.")
      + "\n\nURI: " + scheme + domain + "\nVersion: 1\nChain ID: " + "4663" + "\nNonce: " + Hex(nonce)
      + "\nIssued At: " + IsoText(issuedAt)
  }

  /** What such a page first asked. */
  function LegacyLetter(domain: string, scheme: string, address: string, nonce: seq<Byte>, issuedAt: nat): string {
    domain + " wants you to sign in with your " + "Ethereum" + " account:\n" + address + "\n\n"
      + ("Sign in to Before Colony. " + "This proves you own this address; it authorizes nothing and moves no funds.")
      + "\n\nURI: " + scheme + domain + "\nVersion: 1\nChain ID: " + "1" + "\nNonce: " + Hex(nonce)
      + "\nIssued At: " + IsoText(issuedAt)
  }

  /** What it asks a Solana wallet. */
  function SiwsLetter(domain: string, scheme: string, address: string, nonce: seq<Byte>, issuedAt: nat): string {
    domain + " wants you to sign in with your " + "Solana" + " account:\n" + address + "\n\n"
      + ("Prove your identity to play " + "before-colony. This signature authorises nothing and moves no funds.")
      + "\n\nURI: " + scheme + domain + "\nVersion: 1\nChain ID: " + "mainnet" + "\nNonce: " + Hex(nonce)
      + "\nIssued At: " + IsoText(issuedAt)
  }

  function Letter(k: Kind, domain: string, scheme: string, address: string, nonce: seq<Byte>, issuedAt: nat): string {
    match k
    case Siwe => SiweLetter(domain, scheme, address, nonce, issuedAt)
    case Legacy => LegacyLetter(domain, scheme, address, nonce, issuedAt)
    case Siws => SiwsLetter(domain, scheme, address, nonce, issuedAt)
  }

  lemma ChainNumbers()
    ensures Decimal(4663) == "4663" && Decimal(1) == "1"
  {
    assert Decimal(46) == "46";
    assert Decimal(466) == "466";
  }

  lemma MessageIsLetter(k: Kind, domain: string, address: string, nonce: seq<Byte>, issuedAt: nat)
    ensures Message(k, domain, address, nonce, issuedAt) == Letter(k, domain, Scheme(domain), address, nonce, issuedAt)
  {
    hide Scheme, Hex, IsoText, Decimal;
    ChainNumbers();
  }

  /** Main result: each text is the letter, word for word, its address the page's own: plain for the three hosts
      that are this machine and secure for every other. */
  lemma TextWithPort(k: Kind, host: string, port: string, address: string, nonce: seq<Byte>, issuedAt: nat)
    requires ':' !in port
    ensures var here := host == "127.0.0.1" || host == "localhost" || host == "[::1]";
            var scheme := if here then "http://" else "https://";
            var domain := host + ":" + port;
            Message(k, domain, address, nonce, issuedAt) == Letter(k, domain, scheme, address, nonce, issuedAt)
  {
    hide Message, Letter, Scheme;
    MessageIsLetter(k, host + ":" + port, address, nonce, issuedAt);
    SchemeWithPort(host, port);
  }

  /** So it is where the page gives no port, but that the bracketed address is then taken for another machine. */
  lemma TextWithoutPort(k: Kind, host: string, address: string, nonce: seq<Byte>, issuedAt: nat)
    requires Bare(host)
    ensures var scheme := if host == "127.0.0.1" || host == "localhost" then "http://" else "https://";
            Message(k, host, address, nonce, issuedAt) == Letter(k, host, scheme, address, nonce, issuedAt)
  {
    hide Message, Letter, Scheme;
    MessageIsLetter(k, host, address, nonce, issuedAt);
    SchemeBare(host);
  }

  // ---- Cancelling equal pieces of equal texts ----

  lemma StripRight(a: string, b: string, c: string, d: string)
    requires a + b == c + d && |b| == |d|
    ensures a == c && b == d
  {
    assert a == (a + b)[..|a|] && c == (c + d)[..|c|];
    assert b == (a + b)[|a|..] && d == (c + d)[|c|..];
  }

  lemma TailCancel(h1: string, h2: string, v: string, c: string, n: string, x1: string, x2: string, i: string,
                   t1: string, t2: string)
    requires |x1| == |x2| && |t1| == |t2|
    requires h1 + v + c + n + x1 + i + t1 == h2 + v + c + n + x2 + i + t2
    ensures h1 == h2 && x1 == x2 && t1 == t2
  {
    StripRight(h1 + v + c + n + x1 + i, t1, h2 + v + c + n + x2 + i, t2);
    StripRight(h1 + v + c + n + x1, i, h2 + v + c + n + x2, i);
    StripRight(h1 + v + c + n, x1, h2 + v + c + n, x2);
    StripRight(h1 + v + c, n, h2 + v + c, n);
    StripRight(h1 + v, c, h2 + v, c);
    StripRight(h1, v, h2, v);
  }

  lemma HeadCancel(d: string, w: string, f: string, ac: string, a1: string, a2: string, b: string, s: string, u: string,
                   sc: string)
    requires d + w + f + ac + a1 + b + s + u + sc + d == d + w + f + ac + a2 + b + s + u + sc + d
    ensures a1 == a2
  {
    var p := d + w + f + ac;
    StripRight(p + a1 + b + s + u + sc, d, p + a2 + b + s + u + sc, d);
    StripRight(p + a1 + b + s + u, sc, p + a2 + b + s + u, sc);
    StripRight(p + a1 + b + s, u, p + a2 + b + s, u);
    StripRight(p + a1 + b, s, p + a2 + b, s);
    StripRight(p + a1, b, p + a2, b);
    assert |a1| == |a2|;
    StripRight(p, a1, p, a2);
  }

  /** Where the opening pieces lie in a message. */
  lemma Opening(d: string, w: string, f: string, ac: string, a: string, b: string, s: string, rest: string)
    requires w != "" && f != "" && s != ""
    ensures var m := d + w + f + ac + a + b + s + rest;
            && d <= m && |m| > |d| + |w| + |f| + |ac| + |a| + |b| && m[|d|] == w[0] && m[|d| + |w|] == f[0]
            && m[|d| + |w| + |f| + |ac| + |a| + |b|] == s[0]
  {
    var p := d + w + f + ac + a + b;
    assert p[|d|] == w[0] && p[|d| + |w|] == f[0];
    var m := p + s + rest;
    assert m[|p|] == s[0];
    assert m[..|d|] == d;
  }

  lemma Literals(k: Kind)
    ensures WANTS != "" && WANTS[0] == ' ' && Family(k) != "" && Statement(k) != ""
  {
    StatementsDiffer();
  }

  lemma MessageOpening(k: Kind, d: string, a: string, n: seq<Byte>, t: nat)
    ensures WANTS != "" && Family(k) != "" && Statement(k) != ""
    ensures var m := Message(k, d, a, n, t);
            var s := |d| + |WANTS| + |Family(k)| + |ACCOUNT| + |a| + 2;
            && d <= m && |m| > s > |d| + |WANTS|
            && m[|d|] == ' ' && m[|d| + |WANTS|] == Family(k)[0] && m[s] == Statement(k)[0]
  {
    hide IsoText, Hex, Scheme, ChainText, Family, Statement, WANTS, ACCOUNT, URI, VERSION, NONCE, ISSUED;
    var p := d + WANTS + Family(k) + ACCOUNT + a + "\n\n" + Statement(k);
    var q := URI + Scheme(d) + d + VERSION + ChainText(ChainOf(k)) + NONCE + Hex(n) + ISSUED + IsoText(t);
    Regroup(p, URI, Scheme(d), d, VERSION, ChainText(ChainOf(k)), NONCE, Hex(n), ISSUED, IsoText(t));
    assert Message(k, d, a, n, t) == p + q;
    Literals(k);
    Opening(d, WANTS, Family(k), ACCOUNT, a, "\n\n", Statement(k), q);
  }

  lemma Regroup(p: string, a: string, b: string, c: string, d: string, e: string, f: string, g: string, h: string,
                i: string)
    ensures p + a + b + c + d + e + f + g + h + i == p + (a + b + c + d + e + f + g + h + i)
  {
    assert p + a + b + c == p + (a + b + c);
    assert p + (a + b + c) + d + e == p + (a + b + c + d + e);
    assert p + (a + b + c + d + e) + f + g == p + (a + b + c + d + e + f + g);
  }

  lemma SpaceEndsDomain(m: string, d1: string, d2: string)
    requires d1 <= m && d2 <= m && |d1| < |m| && |d2| < |m|
    requires m[|d1|] == ' ' && m[|d2|] == ' ' && ' ' !in d1 && ' ' !in d2
    ensures d1 == d2
  {
    forall i | 0 <= i < |d1|
      ensures m[i] != ' '
    {
      assert m[i] == d1[i];
    }
    forall i | 0 <= i < |d2|
      ensures m[i] != ' '
    {
      assert m[i] == d2[i];
    }
  }

  /** A sign-in's fields as they appear in its text. */
  datatype Fields = Fields(kind: Kind, domain: string, address: string, nonce: seq<Byte>, issuedAt: nat)

  predicate Proper(f: Fields) {
    && ' ' !in f.domain && |f.nonce| == NONCE_BYTES && f.issuedAt < YEAR_10000
    && (!f.kind.Siws? ==> |f.address| == 42)
  }

  function TextOf(f: Fields): string {
    Message(f.kind, f.domain, f.address, f.nonce, f.issuedAt)
  }

  /** The whole text says which of the three it is and every field in it. */
  lemma TextPinsFields(x: Fields, y: Fields)
    requires Proper(x) && Proper(y) && TextOf(x) == TextOf(y)
    ensures x == y
  {
    hide Message, Hex, IsoText, WANTS, ACCOUNT, STATEMENT, LEGACY_STATEMENT;
    var m := TextOf(x);
    MessageOpening(x.kind, x.domain, x.address, x.nonce, x.issuedAt);
    MessageOpening(y.kind, y.domain, y.address, y.nonce, y.issuedAt);
    SpaceEndsDomain(m, x.domain, y.domain);
    assert x.kind == y.kind by {
      assert Family(x.kind)[0] == Family(y.kind)[0];
      StatementsDiffer();
    }
    SameKindPins(x, y);
  }

  lemma StatementsDiffer()
    ensures STATEMENT != "" && LEGACY_STATEMENT != "" && STATEMENT[0] == 'P' && LEGACY_STATEMENT[0] == 'S'
  {
    var p := "Prove your identity to play ";
    var s := "Sign in to Before Colony. ";
    assert STATEMENT[0] == p[0] && LEGACY_STATEMENT[0] == s[0];
  }

  lemma SameKindPins(x: Fields, y: Fields)
    requires Proper(x) && Proper(y) && TextOf(x) == TextOf(y) && x.kind == y.kind && x.domain == y.domain
    ensures x == y
  {
    hide Hex, IsoText, Scheme, ChainText, WANTS, ACCOUNT, URI, VERSION, NONCE, ISSUED, Statement, Family;
    var k := x.kind;
    var d := x.domain;
    TailCancel(Head(d, Family(k), x.address, Statement(k)), Head(d, Family(k), y.address, Statement(k)),
               VERSION, ChainText(ChainOf(k)), NONCE, Hex(x.nonce), Hex(y.nonce), ISSUED,
               IsoText(x.issuedAt), IsoText(y.issuedAt));
    HeadCancel(d, WANTS, Family(k), ACCOUNT, x.address, y.address, "\n\n", Statement(k), URI, Scheme(d));
    Addresses.HexInjective(x.nonce, y.nonce);
    IsoTextInjective(x.issuedAt, y.issuedAt);
  }

  // ---- What survives the 512-byte buffer ----

  /** How long a text is, from what a caller knows before writing it. */
  function TextLength(k: Kind, domain: string, address: string): nat {
    2 * |domain| + (if Loopback(domain) then 7 else 8) + |address|
    + (match k case Siwe => 285 case Legacy => 287 case Siws => 286)
  }

  lemma TextLengthIsRight(f: Fields)
    requires |f.nonce| == NONCE_BYTES
    ensures |TextOf(f)| == TextLength(f.kind, f.domain, f.address)
  {
    hide IsoText, Hex, Loopback;
    ChainNumbers();
    assert |WANTS| == 32 && |ACCOUNT| == 10 && |URI| == 7 && |VERSION| == 22 && |NONCE| == 8 && |ISSUED| == 12;
    assert |STATEMENT| == 96 && |LEGACY_STATEMENT| == 101;
  }

  lemma TextEndsInZ(f: Fields)
    ensures var m := TextOf(f);
            |m| >= 20 && m[|m| - 20..] == IsoText(f.issuedAt) && m[|m| - 1] == 'Z' && m[|m| - 2] != 'Z'
  {
    hide Head, Hex, ChainText;
    var m := TextOf(f);
    var t := IsoText(f.issuedAt);
    assert m[|m| - 20..] == t;
    assert m[|m| - 1] == t[19] && m[|m| - 2] == t[18];
  }

  /** A text one byte too long loses only its closing `Z`, which every text has. */
  lemma ClipKeepsText(a: string, b: string)
    requires 2 <= |a| <= SIWE_MAX + 1 && 2 <= |b| <= SIWE_MAX + 1 && Clip(a) == Clip(b)
    requires a[|a| - 1] == 'Z' && a[|a| - 2] != 'Z' && b[|b| - 1] == 'Z' && b[|b| - 2] != 'Z'
    ensures a == b
  {
    assert |a| == SIWE_MAX + 1 ==> Clip(a)[SIWE_MAX - 1] == a[|a| - 2];
    assert |b| == SIWE_MAX + 1 ==> Clip(b)[SIWE_MAX - 1] == b[|b| - 2];
    assert |a| == |b|;
    assert a == a[..|a| - 1] + ['Z'] && b == b[..|b| - 1] + ['Z'];
  }

  /** Main result: what the buffer holds pins down the text's kind and every field, for texts of at
      most 513 bytes. The Ethereum, legacy and Solana texts never coincide. */
  lemma BufferPinsFields(x: Fields, y: Fields)
    requires Proper(x) && Proper(y)
    requires TextLength(x.kind, x.domain, x.address) <= SIWE_MAX + 1
    requires TextLength(y.kind, y.domain, y.address) <= SIWE_MAX + 1
    requires Clip(TextOf(x)) == Clip(TextOf(y))
    ensures x == y
  {
    hide TextOf, IsoText, TextLength;
    TextLengthIsRight(x);
    TextLengthIsRight(y);
    TextEndsInZ(x);
    TextEndsInZ(y);
    ClipKeepsText(TextOf(x), TextOf(y));
    TextPinsFields(x, y);
  }

  /** Past 513 bytes the last digit of the time is lost: midnight and a second later write the same. */
  lemma LongTextsCollide(f: Fields)
    requires |f.nonce| == NONCE_BYTES && TextLength(f.kind, f.domain, f.address) > SIWE_MAX + 1
    ensures Clip(TextOf(f.(issuedAt := 0))) == Clip(TextOf(f.(issuedAt := 1)))
  {
    hide Hex, Head, ChainText, TextLength;
    var k := f.kind;
    var m := Head(f.domain, Family(k), f.address, Statement(k)) + VERSION + ChainText(ChainOf(k)) + NONCE
        + Hex(f.nonce) + ISSUED;
    var x := f.(issuedAt := 0);
    var y := f.(issuedAt := 1);
    assert TextOf(x) == m + IsoText(0) && TextOf(y) == m + IsoText(1);
    assert |m| + 20 > SIWE_MAX + 1 by {
      TextLengthIsRight(x);
    }
    MidnightAndAfter();
    SharedPrefix(m, IsoText(0), IsoText(1), 18);
  }

  lemma MidnightAndAfter()
    ensures IsoText(0)[..18] == IsoText(1)[..18]
  {
    hide Calendar.CivilFromDays, StampText;
    var c := Calendar.CivilFromDays(0);
    assert IsoText(0) == StampText(c.year / 100, c.year % 100, c.month, c.day, 0, 0, 0);
    assert IsoText(1) == StampText(c.year / 100, c.year % 100, c.month, c.day, 0, 0, 1);
    SecondsComeLast(c.year / 100, c.year % 100, c.month, c.day, 0, 0, 0, 1);
  }

  /** Stamps that differ in their seconds alone agree up to the last digit of them, below ten. */
  lemma SecondsComeLast(y1: nat, y2: nat, m: nat, d: nat, h: nat, mi: nat, s: nat, t: nat)
    requires s < 10 && t < 10
    ensures StampText(y1, y2, m, d, h, mi, s)[..18] == StampText(y1, y2, m, d, h, mi, t)[..18]
  {
    var front := Pad2(y1) + Pad2(y2) + "-" + Pad2(m) + "-" + Pad2(d) + "T" + Pad2(h) + ":" + Pad2(mi) + ":";
    assert Pad2(s)[0] == Pad2(t)[0];
    hide Pad2;
    assert StampText(y1, y2, m, d, h, mi, s) == front + Pad2(s) + "Z";
    assert StampText(y1, y2, m, d, h, mi, t) == front + Pad2(t) + "Z";
  }

  lemma SharedPrefix(m: string, a: string, b: string, n: nat)
    requires n <= |a| == |b| && a[..n] == b[..n] && |m| + n >= SIWE_MAX
    ensures Clip(m + a) == Clip(m + b)
  {
    if |m + a| > SIWE_MAX {
      forall i | 0 <= i < SIWE_MAX
        ensures (m + a)[i] == (m + b)[i]
      {
        if i >= |m| {
          assert (m + a)[i] == a[..n][i - |m|] && (m + b)[i] == b[..n][i - |m|];
        }
      }
    } else {
      assert n == |a| && a == a[..n] && b == b[..n];
    }
  }

  /** What the buffer holds of `f`'s text issued at `t`. */
  function Written(f: Fields, t: nat): string {
    Clip(TextOf(f.(issuedAt := t)))
  }

  /** The exact reach of the buffer: it tells every two issue times apart if and only if the text is
      at most one byte too long for it. */
  lemma TimesToldApartIff(f: Fields)
    requires Proper(f)
    ensures (forall s: nat, t: nat :: s < YEAR_10000 && t < YEAR_10000 && Written(f, s) == Written(f, t) ==> s == t)
       <==> TextLength(f.kind, f.domain, f.address) <= SIWE_MAX + 1
  {
    hide TextOf, Clip, TextLength;
    if TextLength(f.kind, f.domain, f.address) <= SIWE_MAX + 1 {
      forall s: nat, t: nat | s < YEAR_10000 && t < YEAR_10000 && Written(f, s) == Written(f, t)
        ensures s == t
      {
        BufferPinsFields(f.(issuedAt := s), f.(issuedAt := t));
      }
    } else {
      LongTextsCollide(f);
      var s: nat, t: nat := 0, 1;
      assert Written(f, s) == Written(f, t) && s < YEAR_10000 && t < YEAR_10000;
    }
  }

  // ---- The texts the program writes ----

  const MAX_DOMAIN: nat := 64
  const MAX_PLAYER_ID: nat := 44

  /** What is printable and no space, of a name. */
  function Graphic(s: string): string {
    if s == "" then "" else (if '!' <= s[0] <= '~' then [s[0]] else "") + Graphic(s[1..])
  }

  /** A server's name as pages see it: the first 64 such characters. */
  function DomainOf(s: string): string {
    var kept := Graphic(s);
    if |kept| <= MAX_DOMAIN then kept else kept[..MAX_DOMAIN]
  }

  lemma {:induction false} GraphicIs(s: string)
    ensures forall i :: 0 <= i < |Graphic(s)| ==> '!' <= Graphic(s)[i] <= '~'
  {
    if s != "" {
      GraphicIs(s[1..]);
    }
  }

  /** A sign-in for a server's name, from an Ethereum address or a Solana one. */
  ghost predicate Served(f: Fields) {
    && (exists name :: f.domain == DomainOf(name)) && |f.nonce| == NONCE_BYTES && f.issuedAt < YEAR_10000
    && (if f.kind.Siws? then |f.address| <= MAX_PLAYER_ID else |f.address| == 42)
  }

  /** Its domain holds no space, and its text fits the buffer with room to spare. */
  lemma ServedFits(f: Fields)
    requires Served(f)
    ensures Proper(f) && |TextOf(f)| <= 466 && Clip(TextOf(f)) == TextOf(f)
  {
    var name :| f.domain == DomainOf(name);
    GraphicIs(name);
    assert forall i :: 0 <= i < |f.domain| ==> f.domain[i] == Graphic(name)[i];
    hide TextOf;
    TextLengthIsRight(f);
  }

  /** Main result: for every server's name, what the buffer holds pins down the text's kind and every field. */
  lemma ServedPinsFields(x: Fields, y: Fields)
    requires Served(x) && Served(y) && Clip(TextOf(x)) == Clip(TextOf(y))
    ensures x == y
  {
    hide Served, Proper, TextOf, Clip;
    ServedFits(x);
    ServedFits(y);
    TextPinsFields(x, y);
  }

  // ---- What `personal_sign` signs ----

  /** The EIP-191 envelope around a message. */
  function Envelope(message: string): string {
    "\U{19}Ethereum Signed Message:\n" + Decimal(|message|) + message
  }

  /** No two messages share an envelope, though a message may itself begin with digits: the length
      printed ahead of it settles where it starts. */
  lemma EnvelopeInjective(a: string, b: string)
    requires Envelope(a) == Envelope(b)
    ensures a == b
  {
    var p := "\U{19}Ethereum Signed Message:\n";
    if |a| < |b| {
      EnvelopeGrows(a, b);
    } else if |b| < |a| {
      EnvelopeGrows(b, a);
    }
    StripRight(p + Decimal(|a|), a, p + Decimal(|b|), b);
  }

  lemma EnvelopeGrows(a: string, b: string)
    requires |a| < |b|
    ensures |Envelope(a)| < |Envelope(b)|
  {
    DecimalLengthGrows(|a|, |b|);
  }
}
