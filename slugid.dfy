/** The slugid generator: 16 random bytes are stamped with the version 4
    markers of RFC 4122 (and, for a "nice" slugid, the top bit of the first
    byte is cleared), then written in unpadded URL-safe base 64, which gives
    22 characters.

    The random source is a parameter: the answer it gives to one request for
    16 bytes. Every property below holds for every answer.

    Bytes are numbers from 0 to 255. The generator's masks on a byte x are
    written as arithmetic: `x & 0x3f` keeps the low six bits, x % 64, and
    setting bit 7 of a value below 128 adds 128; `x & 0x0f` is x % 16 and
    setting bit 6 of a value below 64 adds 64; `x & 0x7f` is x % 128. The
    mask lemmas prove these equal the bitwise forms on every 8-bit value. */
module Slugid {
  import opened Base64Url

  /** The 16 bytes of a UUID. */
  type Block = s: seq<Byte> | |s| == 16 witness seq(16, _ => 0)

  /** What a cryptographically secure generator answers when asked to fill a
      16-byte buffer: 16 bytes of its output, or a failure. */
  datatype SecureRandom = Supplies(bytes: Block) | FailsToFill

  /** The one way generation can fail: the generator could not fill the buffer. */
  datatype Error = CouldNotGenerateRandomValues

  datatype Result<+T> = Ok(value: T) | Err(error: Error) {
    predicate IsFailure() { Err? }
    function PropagateFailure<U>(): Result<U> requires Err? { Err(error) }
    function Extract(): T requires Ok? { value }
  }

  // ---------------------------------------------------------------------
  // The bytes
  // ---------------------------------------------------------------------

  /** The variant stamp on byte 8: `(x & 0x3f) | 0x80`. */
  function Variant(x: Byte): (y: Byte)
    ensures y / 64 == 2 && y % 64 == x % 64
  {
    x % 64 + 128
  }

  /** The version stamp on byte 6: `(x & 0x0f) | 0x40`. */
  function Version(x: Byte): (y: Byte)
    ensures y / 16 == 4 && y % 16 == x % 16
  {
    x % 16 + 64
  }

  /** The nice stamp on byte 0: `x & 0x7f`. */
  function ClearTop(x: Byte): (y: Byte)
    ensures y < 128 && y % 128 == x % 128
  {
    x % 128
  }

  /** The variant stamp is the generator's `(x & 0x3f) | 0x80`. */
  lemma VariantMask(x: bv8)
    ensures Variant(x as int) == ((x & 0x3f) | 0x80) as int
  {
  }

  /** The version stamp is the generator's `(x & 0x0f) | 0x40`. */
  lemma VersionMask(x: bv8)
    ensures Version(x as int) == ((x & 0x0f) | 0x40) as int
  {
  }

  /** The nice stamp is the generator's `x & 0x7f`. */
  lemma NiceMask(x: bv8)
    ensures ClearTop(x as int) == (x & 0x7f) as int
  {
  }

  /** The bytes `uuid_v4` produces from the random bytes `raw`: byte 8 carries
      the variant `10` in its top two bits (section 4.1.1 of RFC 4122), byte 6
      the version `0100` in its top four bits (sections 4.1.3 and 4.4 of
      RFC 4122); every other bit is as the generator produced it. */
  function V4Bytes(raw: Block): (r: Block)
    ensures r[8] / 64 == 2 && r[8] % 64 == raw[8] % 64
    ensures r[6] / 16 == 4 && r[6] % 16 == raw[6] % 16
    ensures forall i :: 0 <= i < 16 && i != 6 && i != 8 ==> r[i] == raw[i]
  {
    raw[8 := Variant(raw[8])][6 := Version(raw[6])]
  }

  /** The bytes `nice_rng` encodes: those of `uuid_v4`, with only the top bit
      of byte 0 cleared. */
  function NiceBytes(raw: Block): (r: Block)
    ensures r[0] < 128 && r[0] % 128 == raw[0] % 128
    ensures forall i :: 1 <= i < 16 ==> r[i] == V4Bytes(raw)[i]
  {
    var b := V4Bytes(raw);
    b[0 := ClearTop(b[0])]
  }

  /** The slugid `v4_rng` returns for the random bytes `raw`: whatever the
      bytes, it has the shape the tests expect. */
  function V4Slug(raw: Block): (s: string)
    ensures IsV4Slug(s)
  {
    var b := V4Bytes(raw);
    EncodeBlockShape(b);
    VersionChar(b);
    VariantChar(b);
    Encode(b)
  }

  /** The slugid `nice_rng` returns for the random bytes `raw`: whatever the
      bytes, it is nice. */
  function NiceSlug(raw: Block): (s: string)
    ensures IsNiceSlug(s)
  {
    var b := NiceBytes(raw);
    EncodeBlockShape(b);
    VersionChar(b);
    VariantChar(b);
    NiceChar(b);
    Encode(b)
  }

  // ---------------------------------------------------------------------
  // The generator
  // ---------------------------------------------------------------------

  /** The generator's `fill`: either every byte of `dest` is written with the
      generator's output, or it reports failure (and what `dest` then holds is
      not relied on). */
  method Fill(rng: SecureRandom, dest: array<Byte>) returns (ok: bool)
    requires dest.Length == 16
    modifies dest
    ensures ok <==> rng.Supplies?
    ensures ok ==> dest[..] == rng.bytes
  {
    match rng
    case FailsToFill =>
      ok := false;
    case Supplies(bytes) =>
      forall i | 0 <= i < 16 {
        dest[i] := bytes[i];
      }
      ok := true;
  }

  /** `uuid_v4`: a fresh zeroed 16-byte buffer is filled from `rng`, and the
      variant and version markers are stamped into it in place. A failed fill
      aborts with no bytes. */
  method UuidV4(rng: SecureRandom) returns (r: Result<array<Byte>>)
    ensures rng.FailsToFill? ==> r == Err(CouldNotGenerateRandomValues)
    ensures rng.Supplies? ==> r.Ok? && fresh(r.value) && r.value[..] == V4Bytes(rng.bytes)
  {
    var bytes := new Byte[16](_ => 0);
    var filled := Fill(rng, bytes);
    if !filled {
      return Err(CouldNotGenerateRandomValues);
    }
    bytes[8] := Variant(bytes[8]);
    bytes[6] := Version(bytes[6]);
    return Ok(bytes);
  }

  /** `v4_rng`: a slugid of the shape the tests expect, or no slugid at all
      when the generator fails. */
  method V4Rng(rng: SecureRandom) returns (r: Result<string>)
    ensures rng.FailsToFill? ==> r == Err(CouldNotGenerateRandomValues)
    ensures rng.Supplies? ==> r == Ok(V4Slug(rng.bytes))
    ensures r.Ok? ==> IsV4Slug(r.value)
  {
    var bytes :- UuidV4(rng);
    return Ok(Encode(bytes[..]));
  }

  /** `nice_rng`: as `v4_rng`, with the top bit of byte 0 cleared in place
      before encoding, so the slugid is nice. */
  method NiceRng(rng: SecureRandom) returns (r: Result<string>)
    ensures rng.FailsToFill? ==> r == Err(CouldNotGenerateRandomValues)
    ensures rng.Supplies? ==> r == Ok(NiceSlug(rng.bytes))
    ensures r.Ok? ==> IsNiceSlug(r.value)
  {
    var bytes :- UuidV4(rng);
    bytes[0] := ClearTop(bytes[0]);
    return Ok(Encode(bytes[..]));
  }

  // ---------------------------------------------------------------------
  // The shape of a slugid, as the tests state it
  // ---------------------------------------------------------------------

  // The character classes the generator's tests expect at each position.
  // CharsC and CharsAll are the same strings as the tests', written as
  // runs of upper-case letters, lower-case letters and digits.
  const Upper: string := "ABCDEFGHIJKLMNOPQRSTUVWXYZ"
  const Lower: string := "abcdefghijklmnopqrstuvwxyz"
  const Digits: string := "0123456789"
  const CharsAll: string := Upper + Lower + Digits + "-_"
  const CharsC: string := Upper + "abcdef"
  const CharsD: string := "QRST"
  const CharsE: string := "CGKOSWaeimquy26-"
  const CharsF: string := "AQgw"

  /** A slugid as the tests expect it: 22 characters of CharsAll, with
      character 8 in CharsD (it holds the version nibble), character 10 in
      CharsE (it holds the variant bits) and character 21 in CharsF (it holds
      the last two bits of byte 15 followed by four zero fill bits). */
  predicate IsV4Slug(s: string) {
    && |s| == 22
    && (forall i :: 0 <= i < 22 ==> s[i] in CharsAll)
    && s[8] in CharsD && s[10] in CharsE && s[21] in CharsF
  }

  /** A nice slugid: as above, and its first character is in CharsC, so it is
      never `-`, `_`, a digit or a letter after `f`. */
  predicate IsNiceSlug(s: string) {
    IsV4Slug(s) && s[0] in CharsC
  }

  /** The 6-bit values of 16 bytes: 22 of them; value 0 is the top six bits
      of byte 0, value 8 the top six bits of byte 6, value 10 the low four
      bits of byte 7 followed by the top two of byte 8, and value 21 the low
      two bits of byte 15 followed by four zero fill bits. */
  lemma BlockSextets(b: Block)
    ensures |Sextets(b)| == 22
    ensures Sextets(b)[0] == b[0] / 4
    ensures Sextets(b)[8] == b[6] / 4
    ensures Sextets(b)[10] == b[7] % 16 * 4 + b[8] / 64
    ensures Sextets(b)[21] == b[15] % 4 * 16
  {
    SextetsGroupAt(b, 0);
    assert Sextets(b)[0] == Sextets(b)[0..4][0];
    SextetsGroupAt(b, 2);
    assert Sextets(b)[8] == Sextets(b)[8..12][0];
    assert Sextets(b)[10] == Sextets(b)[8..12][2];
    SextetsAppend(b[..15], b[15..], 5);
    assert b == b[..15] + b[15..];
    assert Sextets(b[15..]) == Split(b[15], 0, 0)[..2];
  }

  /** Every symbol is in CharsAll. */
  lemma SymbolInCharsAll(v: Sextet)
    ensures Symbol(v) in CharsAll
  {
    if v < 32 {
      NiceSymbol(v);
    }
  }

  /** The symbols of values below 32 are CharsC. */
  lemma NiceSymbol(v: Sextet)
    requires v < 32
    ensures Symbol(v) in CharsC
  {
  }

  /** The symbols of values 16 to 19, which start with the version nibble
      `0100`, are CharsD. */
  lemma VersionSymbol(v: Sextet)
    requires 16 <= v < 20
    ensures Symbol(v) in CharsD
  {
  }

  /** The symbols of values that end with the variant bits `10` are CharsE. */
  lemma VariantSymbol(v: Sextet)
    requires v % 4 == 2
    ensures Symbol(v) in CharsE
  {
  }

  /** The symbols of values whose four low bits are zero fill are CharsF. */
  lemma FillSymbol(v: Sextet)
    requires v % 16 == 0
    ensures Symbol(v) in CharsF
  {
  }

  /** The last value of a 16-byte block, the low two bits of byte 15
      followed by four zero fill bits, is written in CharsF. */
  lemma LastSymbol(x: Byte)
    ensures x % 4 * 16 < 64 && Symbol(x % 4 * 16) in CharsF
  {
    FillSymbol(x % 4 * 16);
  }

  /** Value 8 of a block, the top six bits of a byte whose top nibble is the
      version `0100`, is written in CharsD. */
  lemma VersionBits(x: Byte)
    requires x / 16 == 4
    ensures x / 4 < 64 && Symbol(x / 4) in CharsD
  {
    VersionSymbol(x / 4);
  }

  /** Value 10 of a block, the low four bits of byte 7 followed by the top
      two bits of a byte 8 that carries the variant `10`, is written in
      CharsE. */
  lemma VariantBits(y: Byte, x: Byte)
    requires x / 64 == 2
    ensures y % 16 * 4 + x / 64 < 64 && Symbol(y % 16 * 4 + x / 64) in CharsE
  {
    VariantSymbol(y % 16 * 4 + 2);
  }

  /** Value 0 of a block, the top six bits of a byte below 128, is written in
      CharsC. */
  lemma NiceBits(x: Byte)
    requires x < 128
    ensures x / 4 < 64 && Symbol(x / 4) in CharsC
  {
    NiceSymbol(x / 4);
  }

  /** The symbols of any 6-bit values are all in CharsAll. */
  lemma SymbolsInCharsAll(vs: seq<Sextet>)
    ensures forall i :: 0 <= i < |vs| ==> Symbols(vs)[i] in CharsAll
  {
    forall i | 0 <= i < |vs| ensures Symbols(vs)[i] in CharsAll {
      SymbolInCharsAll(vs[i]);
    }
  }

  /** Any 16 bytes encode to 22 characters of CharsAll (so never `=`), and
      character 21 is in CharsF. */
  lemma EncodeBlockShape(b: Block)
    ensures var s := Encode(b);
      && |s| == 22 && '=' !in s
      && (forall i :: 0 <= i < 22 ==> s[i] in CharsAll)
      && s[21] in CharsF
  {
    BlockSextets(b);
    SymbolsInCharsAll(Sextets(b));
    EncodeAt(b, 21);
    LastSymbol(b[15]);
  }

  /** Character 8 of the encoding of bytes whose byte 6 carries the version
      nibble `0100` is in CharsD. */
  lemma VersionChar(b: Block)
    requires b[6] / 16 == 4
    ensures |Encode(b)| == 22 && Encode(b)[8] in CharsD
  {
    BlockSextets(b);
    EncodeAt(b, 8);
    VersionBits(b[6]);
  }

  /** Character 10 of the encoding of bytes whose byte 8 carries the variant
      bits `10` is in CharsE. */
  lemma VariantChar(b: Block)
    requires b[8] / 64 == 2
    ensures |Encode(b)| == 22 && Encode(b)[10] in CharsE
  {
    BlockSextets(b);
    EncodeAt(b, 10);
    VariantBits(b[7], b[8]);
  }

  /** Character 0 of the encoding of bytes whose byte 0 has its top bit
      clear is in CharsC. */
  lemma NiceChar(b: Block)
    requires b[0] < 128
    ensures |Encode(b)| == 22 && Encode(b)[0] in CharsC
  {
    BlockSextets(b);
    EncodeAt(b, 0);
    NiceBits(b[0]);
  }

  /** For the same random bytes, the nice slugid and the plain one differ at
      most in their first character. */
  lemma NiceAgreesWithV4(raw: Block)
    ensures |NiceSlug(raw)| == |V4Slug(raw)| == 22
    ensures forall i :: 1 <= i < 22 ==> NiceSlug(raw)[i] == V4Slug(raw)[i]
  {
    var n, v := NiceBytes(raw), V4Bytes(raw);
    assert n[1..] == v[1..];
    EncodeAfterFirstSymbol(n, v);
    BlockSextets(n);
  }

  // ---------------------------------------------------------------------
  // Every character the tests expect occurs
  // ---------------------------------------------------------------------

  /** Upper is the upper-case letters. */
  lemma UpperRange(c: char)
    requires c in Upper
    ensures 'A' <= c <= 'Z'
  {
  }

  /** Lower is the lower-case letters. */
  lemma LowerRange(c: char)
    requires c in Lower
    ensures 'a' <= c <= 'z'
  {
  }

  /** CharsAll is the URL-safe alphabet. */
  lemma CharsAllValue(c: char)
    requires c in CharsAll
    ensures IsUrlSafe(c)
  {
    if c in Upper {
      UpperRange(c);
    } else if c in Lower {
      LowerRange(c);
    } else {
      assert c in Digits || c in "-_";
    }
  }

  /** The characters of CharsC are the symbols of values below 32. */
  lemma CharsCValue(c: char)
    requires c in CharsC
    ensures IsUrlSafe(c) && SymbolValue(c).value < 32
  {
    if c in Upper {
      UpperRange(c);
    } else {
      assert c in "abcdef";
    }
  }

  /** The characters of CharsD are the symbols of values 16 to 19. */
  lemma CharsDValue(c: char)
    requires c in CharsD
    ensures IsUrlSafe(c) && 16 <= SymbolValue(c).value < 20
  {
  }

  /** The characters of CharsE are the symbols of values ending in `10`. */
  lemma CharsEValue(c: char)
    requires c in CharsE
    ensures IsUrlSafe(c) && SymbolValue(c).value % 4 == 2
  {
  }

  /** The characters of CharsF are the symbols of values with four zero
      low bits. */
  lemma CharsFValue(c: char)
    requires c in CharsF
    ensures IsUrlSafe(c) && SymbolValue(c).value % 16 == 0
  {
  }

  /** The 6-bit values of a string of slugid shape: value 8 starts with the
      version nibble, value 10 ends with the variant bits, value 21 ends
      with four zero fill bits, and a nice first character stands for a
      value below 32. */
  lemma ShapeValues(s: string)
    requires IsV4Slug(s)
    ensures Values(s).Some?
    ensures var vs := Values(s).value;
      && |vs| == 22 && 16 <= vs[8] < 20 && vs[10] % 4 == 2 && vs[21] % 16 == 0
      && (s[0] in CharsC ==> vs[0] < 32)
  {
    forall i | 0 <= i < 22 ensures IsUrlSafe(s[i]) {
      CharsAllValue(s[i]);
    }
    CharsDValue(s[8]);
    CharsEValue(s[10]);
    CharsFValue(s[21]);
    if s[0] in CharsC {
      CharsCValue(s[0]);
    }
  }

  /** 22 values whose fill bits are zero are the values of 16 bytes. */
  lemma BlockOfValues(vs: seq<Sextet>) returns (b: Block)
    requires |vs| == 22 && vs[21] % 16 == 0
    ensures Sextets(b) == vs
  {
    BytesDefined(vs);
    SextetsOfBytes(vs);
    b := Bytes(vs).value;
  }

  /** The 16 bytes a string of slugid shape decodes to: they already carry
      the version and variant stamps, and a nice top bit when the string is
      nice. */
  lemma ShapeDecodes(s: string) returns (b: Block)
    requires IsV4Slug(s)
    ensures Encode(b) == s
    ensures V4Bytes(b) == b
    ensures s[0] in CharsC ==> NiceBytes(b) == b
  {
    ShapeValues(s);
    var vs := Values(s).value;
    b := BlockOfValues(vs);
    SymbolsOfValues(s);
    BlockSextets(b);
    LowBits(b[7] % 16, b[8] / 64);
    Restamped(b);
  }

  /** The low two bits of a value are its last term when that is below 4. */
  lemma LowBits(hi: nat, lo: nat)
    requires lo < 4
    ensures (hi * 4 + lo) % 4 == lo
  {
  }

  /** Bytes that already carry the stamps are left as they are. */
  lemma Restamped(b: Block)
    requires b[6] / 16 == 4 && b[8] / 64 == 2
    ensures V4Bytes(b) == b
    ensures b[0] < 128 ==> NiceBytes(b) == b
  {
    assert Variant(b[8]) == b[8] && Version(b[6]) == b[6];
  }

  /** The converse of the contract of V4Slug: every string of the shape the tests
      expect is the slugid of some random bytes, so at each position every
      character of the expected class occurs. */
  lemma V4SlugOnto(s: string)
    requires IsV4Slug(s)
    ensures exists raw: Block :: V4Slug(raw) == s
  {
    var b := ShapeDecodes(s);
    assert V4Slug(b) == s;
  }

  /** The converse of the contract of NiceSlug: every nice string is the nice slugid
      of some random bytes. */
  lemma NiceSlugOnto(s: string)
    requires IsNiceSlug(s)
    ensures exists raw: Block :: NiceSlug(raw) == s
  {
    var b := ShapeDecodes(s);
    assert NiceSlug(b) == s;
  }

  /** CharsAll is the tests' literal `CHARS_ALL`. */
  lemma CharsAllLiteral()
    ensures CharsAll == "ABCDEFGHIJKLMNOPQRSTUVWXYZabcdefghijklmnopqrstuvwxyz0123456789-_"
  {
    assert Upper + Lower == "ABCDEFGHIJKLMNOPQRSTUVWXYZabcdefghijklmnopqrstuvwxyz";
    assert Upper + Lower + Digits == "ABCDEFGHIJKLMNOPQRSTUVWXYZabcdefghijklmnopqrstuvwxyz0123456789";
  }

  /** CharsC is the tests' literal `CHARS_C`. */
  lemma CharsCLiteral()
    ensures CharsC == "ABCDEFGHIJKLMNOPQRSTUVWXYZabcdef"
  {
  }

  /** The slugid determines the stamped bytes: decoding it gives them back. */
  lemma SlugDecodes(raw: Block)
    ensures Decode(V4Slug(raw)) == Some(V4Bytes(raw))
    ensures Decode(NiceSlug(raw)) == Some(NiceBytes(raw))
  {
    DecodeEncode(V4Bytes(raw));
    DecodeEncode(NiceBytes(raw));
  }
}
