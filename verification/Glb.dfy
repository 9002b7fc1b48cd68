/** Binary glTF files (section 4.4 of the glTF 2.0 specification): one JSON chunk and one buffer. */
module Glb {
  import opened Wrappers

  const MAGIC: nat := 0x46546C67
  const JSON_CHUNK: nat := 0x4E4F534A
  const BIN_CHUNK: nat := 0x004E4942
  const WORD: nat := 0x1_0000_0000

  /** A short read, a number too large for its field, a file of another kind, or text that is no JSON. */
  datatype GlbError = Short | TooLarge | NotGlb | BadJson

  /** JSON as the file's text, and back. */
  datatype Json<!J> = Json(dumps: J -> seq<Byte>, loads: seq<Byte> -> Option<J>)

  /** Reading what was written, with trailing blanks, gives it back. */
  ghost predicate Faithful<J(!new)>(json: Json<J>) {
    forall j: J, n: nat :: n < 4 ==> json.loads(json.dumps(j) + Repeat(32, n)) == Some(j)
  }

  function Repeat(b: Byte, n: nat): (r: seq<Byte>)
    ensures |r| == n && forall i :: 0 <= i < n ==> r[i] == b
  {
    seq(n, _ => b)
  }

  /** How far `n` is short of a multiple of four. */
  function PadTo4(n: nat): (p: nat)
    ensures p < 4 && (n + p) % 4 == 0
  {
    (4 - n % 4) % 4
  }

  /** `b` filled out with zeros to a multiple of four. */
  function ZeroPadded(b: seq<Byte>): (r: seq<Byte>)
    ensures |r| % 4 == 0 && b <= r && |r| < |b| + 4 && forall i :: |b| <= i < |r| ==> r[i] == 0
  {
    b + Repeat(0, PadTo4(|b|))
  }

  function LittleEndian(n: nat): (r: seq<Byte>)
    requires n < WORD
    ensures |r| == 4
  {
    [n % 256, n / 256 % 256, n / 65536 % 256, n / 16777216]
  }

  function ReadWord(b: seq<Byte>, at: nat): nat
    requires at + 4 <= |b|
  {
    var b0: int, b1: int, b2: int, b3: int := b[at], b[at + 1], b[at + 2], b[at + 3];
    b0 + 256 * b1 + 65536 * b2 + 16777216 * b3
  }

  lemma WordReads(n: nat, b: seq<Byte>, at: nat)
    requires n < WORD && at + 4 <= |b| && b[at..at + 4] == LittleEndian(n)
    ensures ReadWord(b, at) == n
  {
    var w := b[at..at + 4];
    assert w[0] == b[at] && w[1] == b[at + 1] && w[2] == b[at + 2] && w[3] == b[at + 3];
    Digits256(n);
  }

  lemma Digits256(n: nat)
    ensures n % 256 + 256 * (n / 256 % 256) + 65536 * (n / 65536 % 256) + 16777216 * (n / 16777216) == n
  {
    var a := n / 256;
    var c := a / 256;
    assert n / 65536 == c && n / 16777216 == c / 256;
  }

  /** A slice as Python takes it: cut off at the end. */
  function Slice(b: seq<Byte>, from: nat, len: nat): (r: seq<Byte>)
    ensures from + len <= |b| ==> r == b[from..from + len]
  {
    if from >= |b| then [] else if from + len >= |b| then b[from..] else b[from..from + len]
  }

  function Write<J>(json: Json<J>, j: J, binary: seq<Byte>): Result<seq<Byte>, GlbError> {
    var text := json.dumps(j);
    var js := text + Repeat(32, PadTo4(|text|));
    var bin := ZeroPadded(binary);
    var total := 12 + 8 + |js| + 8 + |bin|;
    if total >= WORD then Err(TooLarge)
    else
      Ok(LittleEndian(MAGIC) + LittleEndian(2) + LittleEndian(total)
         + LittleEndian(|js|) + LittleEndian(JSON_CHUNK) + js
         + LittleEndian(|bin|) + LittleEndian(BIN_CHUNK) + bin)
  }

  function Read<J>(json: Json<J>, b: seq<Byte>): Result<(J, seq<Byte>), GlbError> {
    if |b| < 12 then Err(Short)
    else if ReadWord(b, 0) != MAGIC then Err(NotGlb)
    else if |b| < 20 then Err(Short)
    else
      var clen := ReadWord(b, 12);
      match json.loads(Slice(b, 20, clen))
      case None => Err(BadJson)
      case Some(j) =>
        var off := 20 + clen;
        if |b| < off + 8 then Err(Short)
        else Ok((j, Slice(b, off + 8, ReadWord(b, off))))
  }

  /** Where the pieces of a file lie. */
  lemma Layout(total: nat, js: seq<Byte>, bin: seq<Byte>, b: seq<Byte>)
    requires total < WORD && |js| < WORD && |bin| < WORD
    requires b == LittleEndian(MAGIC) + LittleEndian(2) + LittleEndian(total)
                  + LittleEndian(|js|) + LittleEndian(JSON_CHUNK) + js
                  + LittleEndian(|bin|) + LittleEndian(BIN_CHUNK) + bin
    ensures |b| == 28 + |js| + |bin|
    ensures ReadWord(b, 0) == MAGIC && ReadWord(b, 4) == 2 && ReadWord(b, 8) == total
    ensures ReadWord(b, 12) == |js| && ReadWord(b, 16) == JSON_CHUNK && b[20..20 + |js|] == js
    ensures ReadWord(b, 20 + |js|) == |bin| && ReadWord(b, 24 + |js|) == BIN_CHUNK && b[28 + |js|..] == bin
  {
    hide LittleEndian, ReadWord;
    WordReads(MAGIC, b, 0);
    WordReads(2, b, 4);
    WordReads(total, b, 8);
    WordReads(|js|, b, 12);
    WordReads(JSON_CHUNK, b, 16);
    WordReads(|bin|, b, 20 + |js|);
    WordReads(BIN_CHUNK, b, 24 + |js|);
  }

  /** Main result: reading a written file gives the same JSON and the buffer, zero-padded. */
  lemma ReadUndoesWrite<J(!new)>(json: Json<J>, j: J, binary: seq<Byte>)
    requires Faithful(json) && Write(json, j, binary).Ok?
    ensures Read(json, Write(json, j, binary).value) == Ok((j, ZeroPadded(binary)))
  {
    hide LittleEndian, ReadWord;
    var text := json.dumps(j);
    var js := text + Repeat(32, PadTo4(|text|));
    var bin := ZeroPadded(binary);
    var b := Write(json, j, binary).value;
    Layout(28 + |js| + |bin|, js, bin, b);
    assert Slice(b, 28 + |js|, |bin|) == bin;
  }

  /** The file's header and chunks are as the format asks: the length is the file's own, and both
      chunks start and end on multiples of four. */
  lemma WrittenInShape<J>(json: Json<J>, j: J, binary: seq<Byte>)
    requires Write(json, j, binary).Ok?
    ensures var b := Write(json, j, binary).value;
            && |b| >= 28 && |b| % 4 == 0 && ReadWord(b, 0) == MAGIC && ReadWord(b, 4) == 2 && ReadWord(b, 8) == |b|
            && ReadWord(b, 12) % 4 == 0 && ReadWord(b, 16) == JSON_CHUNK && 28 + ReadWord(b, 12) <= |b|
            && ReadWord(b, 24 + ReadWord(b, 12)) == BIN_CHUNK
            && 28 + ReadWord(b, 12) + ReadWord(b, 20 + ReadWord(b, 12)) == |b|
    ensures var b, text := Write(json, j, binary).value, json.dumps(j);
            |text| <= ReadWord(b, 12) < |text| + 4 && 28 + ReadWord(b, 12) <= |b| && b[20..20 + |text|] == text
            && forall i :: 20 + |text| <= i < 20 + ReadWord(b, 12) ==> b[i] == 32
  {
    hide LittleEndian, ReadWord;
    var text := json.dumps(j);
    var js := text + Repeat(32, PadTo4(|text|));
    var bin := ZeroPadded(binary);
    var b := Write(json, j, binary).value;
    Layout(28 + |js| + |bin|, js, bin, b);
    assert js[..|text|] == text;
    assert b[20..20 + |text|] == b[20..20 + |js|][..|text|];
    forall i | 20 + |text| <= i < 20 + |js|
      ensures b[i] == 32
    {
      assert b[i] == b[20..20 + |js|][i - 20] == js[i - 20];
    }
  }
}
