/** Base 64 encoding with the URL and filename safe alphabet (section 5 of
    RFC 4648), written without the trailing `=` padding, which section 3.2 of
    RFC 4648 lets an application leave out when the length is known. This is
    the encoding a slugid is written in.

    Encoding is two steps, as section 4 of RFC 4648 describes them. First the
    input bits are regrouped, 3 bytes (24 bits) at a time, most significant
    bit first, into 6-bit values; a final group of one or two bytes is
    completed with zero bits and gives only the values that carry input bits.
    Then each 6-bit value is written as one symbol of the alphabet.

    Bytes and 6-bit values are numbers, so the top k bits of a byte are a
    division by 2^(8-k) and its low k bits a remainder modulo 2^k.

    Decode is the inverse of Encode: it accepts exactly the canonical
    unpadded encodings (section 3.5 of RFC 4648: the bits that fill out the
    last symbol are zero). */
module Base64Url {

  datatype Option<+T> = None | Some(value: T)

  /** An octet, as the value of its eight bits. */
  type Byte = b: int | 0 <= b < 256

  /** The value of six bits: what one symbol stands for. */
  type Sextet = v: int | 0 <= v < 64

  // ---------------------------------------------------------------------
  // The alphabet (Table 2 of RFC 4648, with `-` and `_` for 62 and 63)
  // ---------------------------------------------------------------------

  /** Is `c` one of the 64 symbols of the URL and filename safe alphabet? */
  predicate IsUrlSafe(c: char) {
    ('A' <= c <= 'Z') || ('a' <= c <= 'z') || ('0' <= c <= '9') || c == '-' || c == '_'
  }

  /** The symbol for the 6-bit value `v`: `A`-`Z` for 0-25, `a`-`z` for
      26-51, `0`-`9` for 52-61, `-` for 62 and `_` for 63. It is in the
      alphabet (so it is never `=`), and it is read back as `v`. */
  function Symbol(v: Sextet): (c: char)
    ensures IsUrlSafe(c) && c != '='
    ensures SymbolValue(c) == Some(v)
  {
    if v < 26 then ('A' as int + v) as char
    else if v < 52 then ('a' as int + (v - 26)) as char
    else if v < 62 then ('0' as int + (v - 52)) as char
    else if v == 62 then '-'
    else '_'
  }

  /** The 6-bit value a symbol stands for; None exactly for the characters
      outside the alphabet (which include `=`, `+` and `/`). */
  function SymbolValue(c: char): (v: Option<Sextet>)
    ensures v.Some? <==> IsUrlSafe(c)
  {
    if 'A' <= c <= 'Z' then Some(c as int - 'A' as int)
    else if 'a' <= c <= 'z' then Some(c as int - 'a' as int + 26)
    else if '0' <= c <= '9' then Some(c as int - '0' as int + 52)
    else if c == '-' then Some(62)
    else if c == '_' then Some(63)
    else None
  }

  /** Every symbol of the alphabet is the symbol of its own value. */
  lemma SymbolOfValue(c: char)
    requires IsUrlSafe(c)
    ensures Symbol(SymbolValue(c).value) == c
  {
  }

  /** The symbols of a sequence of 6-bit values, one for one: a string of
      the alphabet, without `=`. */
  function Symbols(vs: seq<Sextet>): (s: string)
    ensures |s| == |vs|
    ensures forall i :: 0 <= i < |s| ==> IsUrlSafe(s[i]) && s[i] != '='
  {
    seq(|vs|, i requires 0 <= i < |vs| => Symbol(vs[i]))
  }

  /** The values of a string of symbols, or None when one of its characters
      is outside the alphabet. */
  function Values(s: string): (r: Option<seq<Sextet>>)
    ensures r.Some? ==> |r.value| == |s|
  {
    if forall i :: 0 <= i < |s| ==> IsUrlSafe(s[i]) then
      Some(seq(|s|, i requires 0 <= i < |s| => SymbolValue(s[i]).value))
    else
      None
  }

  /** Writing values as symbols and reading them back gives the values. */
  lemma ValuesOfSymbols(vs: seq<Sextet>)
    ensures Values(Symbols(vs)) == Some(vs)
  {
    var s := Symbols(vs);
    assert forall i :: 0 <= i < |s| ==> SymbolValue(s[i]) == Some(vs[i]);
    assert Values(s).value == vs;
  }

  /** Reading a string of symbols and writing the values back gives the
      string. */
  lemma SymbolsOfValues(s: string)
    requires Values(s).Some?
    ensures Symbols(Values(s).value) == s
  {
    forall i | 0 <= i < |s| ensures Symbols(Values(s).value)[i] == s[i] {
      SymbolOfValue(s[i]);
    }
  }

  // ---------------------------------------------------------------------
  // Regrouping 8-bit bytes as 6-bit values and back
  // ---------------------------------------------------------------------

  /** The four 6-bit values of the 24-bit group `b0 b1 b2`: the top six bits
      of b0; the low two bits of b0 and the top four of b1; the low four bits
      of b1 and the top two of b2; the low six bits of b2. Read as digits in
      base 64 they are the same 24-bit number as the bytes in base 256. */
  function Split(b0: Byte, b1: Byte, b2: Byte): (vs: seq<Sextet>)
    ensures |vs| == 4
    ensures vs[0] as int * 262144 + vs[1] as int * 4096 + vs[2] as int * 64 + vs[3] as int
         == b0 as int * 65536 + b1 as int * 256 + b2 as int
  {
    [b0 / 4, b0 % 4 * 16 + b1 / 16, b1 % 16 * 4 + b2 / 64, b2 % 64]
  }

  /** The three bytes that four 6-bit values pack into, most significant
      bits first: the same 24-bit number in base 256. */
  function Join(v0: Sextet, v1: Sextet, v2: Sextet, v3: Sextet): (g: seq<Byte>)
    ensures |g| == 3
    ensures g[0] as int * 65536 + g[1] as int * 256 + g[2] as int
         == v0 as int * 262144 + v1 as int * 4096 + v2 as int * 64 + v3 as int
  {
    [v0 as int * 4 + v1 as int / 16, v1 as int % 16 * 16 + v2 as int / 4, v2 as int % 4 * 64 + v3 as int]
  }

  /** The 6-bit values of a byte sequence, group by group. */
  function Sextets(bytes: seq<Byte>): (vs: seq<Sextet>)
    ensures 6 * |vs| - 6 < 8 * |bytes| <= 6 * |vs|
    decreases |bytes|
  {
    if |bytes| >= 3 then Split(bytes[0], bytes[1], bytes[2]) + Sextets(bytes[3..])
    else if |bytes| == 2 then Split(bytes[0], bytes[1], 0)[..3]
    else if |bytes| == 1 then Split(bytes[0], 0, 0)[..2]
    else []
  }

  /** The bytes packed in a sequence of 6-bit values, or None when no byte
      sequence regroups to it: its length has the form 4k + 1, or the bits
      that fill out its last value are not zero. */
  function Bytes(vs: seq<Sextet>): (r: Option<seq<Byte>>)
    ensures r.Some? ==> 6 * |vs| - 6 < 8 * |r.value| <= 6 * |vs|
    decreases |vs|
  {
    if |vs| >= 4 then
      var rest := Bytes(vs[4..]);
      if rest.Some? then Some(Join(vs[0], vs[1], vs[2], vs[3]) + rest.value) else None
    else if |vs| == 3 then
      if vs[2] % 4 == 0 then Some(Join(vs[0], vs[1], vs[2], 0)[..2]) else None
    else if |vs| == 2 then
      if vs[1] % 16 == 0 then Some(Join(vs[0], vs[1], 0, 0)[..1]) else None
    else if |vs| == 1 then None
    else Some([])
  }

  /** Packing the four values of a group gives the group back. */
  lemma JoinSplit(b0: Byte, b1: Byte, b2: Byte)
    ensures var vs := Split(b0, b1, b2); Join(vs[0], vs[1], vs[2], vs[3]) == [b0, b1, b2]
  {
    var vs := Split(b0, b1, b2);
    assert vs[1] / 16 == b0 % 4 && vs[1] % 16 == b1 / 16 by { Unpack(b0 % 4, b1 / 16, 16); }
    assert vs[2] / 4 == b1 % 16 && vs[2] % 4 == b2 / 64 by { Unpack(b1 % 16, b2 / 64, 4); }
  }

  /** Splitting the bytes that four values pack into gives the values back. */
  lemma SplitJoin(v0: Sextet, v1: Sextet, v2: Sextet, v3: Sextet)
    ensures var g := Join(v0, v1, v2, v3); Split(g[0], g[1], g[2]) == [v0, v1, v2, v3]
  {
    var g := Join(v0, v1, v2, v3);
    assert g[0] / 4 == v0 && g[0] % 4 == v1 / 16 by { Unpack(v0, v1 / 16, 4); }
    assert g[1] / 16 == v1 % 16 && g[1] % 16 == v2 / 4 by { Unpack(v1 % 16, v2 / 4, 16); }
    assert g[2] / 64 == v2 % 4 && g[2] % 64 == v3 by { Unpack(v2 % 4, v3, 64); }
  }

  /** A value `hi` shifted up past `lo`, a value below d, splits back into
      the two. */
  lemma Unpack(hi: int, lo: int, d: int)
    requires d == 4 || d == 16 || d == 64
    requires 0 <= lo < d
    ensures (hi * d + lo) / d == hi && (hi * d + lo) % d == lo
  {
  }

  /** Regrouping bytes as 6-bit values and packing them again gives the
      bytes back. */
  lemma {:induction false} BytesOfSextets(bytes: seq<Byte>)
    ensures Bytes(Sextets(bytes)) == Some(bytes)
    decreases |bytes|
  {
    if |bytes| >= 3 {
      var vs, rest := Split(bytes[0], bytes[1], bytes[2]), Sextets(bytes[3..]);
      BytesOfSextets(bytes[3..]);
      JoinSplit(bytes[0], bytes[1], bytes[2]);
      assert (vs + rest)[4..] == rest;
      assert bytes == [bytes[0], bytes[1], bytes[2]] + bytes[3..];
    } else if |bytes| == 2 {
      var vs := Split(bytes[0], bytes[1], 0);
      JoinSplit(bytes[0], bytes[1], 0);
      assert Sextets(bytes) == vs[..3] && vs[3] == 0;
      assert Join(vs[0], vs[1], vs[2], 0)[..2] == bytes;
    } else if |bytes| == 1 {
      var vs := Split(bytes[0], 0, 0);
      JoinSplit(bytes[0], 0, 0);
      assert Sextets(bytes) == vs[..2] && vs[2] == 0 && vs[3] == 0;
      assert Join(vs[0], vs[1], 0, 0)[..1] == bytes;
    }
  }

  /** Every sequence of values that packs into bytes is the regrouping of
      those bytes. */
  lemma {:induction false} SextetsOfBytes(vs: seq<Sextet>)
    requires Bytes(vs).Some?
    ensures Sextets(Bytes(vs).value) == vs
    decreases |vs|
  {
    if |vs| >= 4 {
      var g, rest := Join(vs[0], vs[1], vs[2], vs[3]), Bytes(vs[4..]).value;
      SextetsOfBytes(vs[4..]);
      SplitJoin(vs[0], vs[1], vs[2], vs[3]);
      assert (g + rest)[3..] == rest;
      assert vs == vs[..4] + vs[4..];
    } else if |vs| == 3 {
      SplitJoin(vs[0], vs[1], vs[2], 0);
    } else if |vs| == 2 {
      SplitJoin(vs[0], vs[1], 0, 0);
    }
  }

  /** The values that come from some bytes: not one value short of a whole
      group, and a final partial group whose fill bits are zero (section 3.5
      of RFC 4648). */
  predicate Canonical(vs: seq<Sextet>) {
    && |vs| % 4 != 1
    && (|vs| % 4 == 2 ==> vs[|vs| - 1] % 16 == 0)
    && (|vs| % 4 == 3 ==> vs[|vs| - 1] % 4 == 0)
  }

  /** Values repack into bytes exactly when they are canonical. */
  lemma {:induction false} BytesDefined(vs: seq<Sextet>)
    ensures Bytes(vs).Some? <==> Canonical(vs)
    decreases |vs|
  {
    if |vs| >= 4 {
      BytesDefined(vs[4..]);
      assert Bytes(vs).Some? <==> Bytes(vs[4..]).Some?;
      CanonicalAfterGroup(vs);
    }
  }

  /** Dropping a whole group keeps the length modulo 4 and the last value. */
  lemma CanonicalAfterGroup(vs: seq<Sextet>)
    requires |vs| >= 4
    ensures Canonical(vs) <==> Canonical(vs[4..])
  {
    var rest := vs[4..];
    assert |rest| % 4 == |vs| % 4;
    if |rest| > 0 {
      assert rest[|rest| - 1] == vs[|vs| - 1];
    }
  }

  /** Whole 3-byte groups are regrouped independently of what follows them. */
  lemma {:induction false} SextetsAppend(a: seq<Byte>, b: seq<Byte>, groups: nat)
    requires |a| == 3 * groups
    ensures Sextets(a + b) == Sextets(a) + Sextets(b)
  {
    if groups > 0 {
      var ab := a + b;
      assert ab[0] == a[0] && ab[1] == a[1] && ab[2] == a[2];
      assert ab[3..] == a[3..] + b;
      SextetsAppend(a[3..], b, groups - 1);
    } else {
      assert a + b == b;
    }
  }

  /** The values of a suffix starting with a whole group: that group's four
      values, then the values of what follows it. */
  lemma SextetsFrom(bytes: seq<Byte>, k: nat)
    requires k + 3 <= |bytes|
    ensures Sextets(bytes[k..]) == Split(bytes[k], bytes[k + 1], bytes[k + 2]) + Sextets(bytes[k + 3..])
  {
    assert bytes[k..][3..] == bytes[k + 3..];
  }

  /** Values 4g to 4g + 3 are the values of byte group g. */
  lemma SextetsGroupAt(bytes: seq<Byte>, g: nat)
    requires 3 * g + 3 <= |bytes|
    ensures 4 * g + 4 <= |Sextets(bytes)|
    ensures Sextets(bytes)[4 * g .. 4 * g + 4] == Split(bytes[3 * g], bytes[3 * g + 1], bytes[3 * g + 2])
  {
    var front, back := bytes[..3 * g], bytes[3 * g..];
    assert bytes == front + back;
    SextetsAppend(front, back, g);
    assert |Sextets(front)| == 4 * g;
    assert Sextets(back)[..4] == Split(back[0], back[1], back[2]);
    SliceAfter(Sextets(front), Sextets(back));
  }

  /** The four values just past a prefix are the first four of the rest. */
  lemma SliceAfter(x: seq<Sextet>, y: seq<Sextet>)
    requires |y| >= 4
    ensures (x + y)[|x| .. |x| + 4] == y[..4]
  {
  }

  /** The first value holds only the top six bits of the first byte:
      changing those bits changes no other value. */
  lemma SextetsAfterFirst(a: seq<Byte>, b: seq<Byte>)
    requires |a| == |b| >= 1 && a[1..] == b[1..] && a[0] % 4 == b[0] % 4
    ensures |Sextets(a)| == |Sextets(b)|
    ensures Sextets(a)[1..] == Sextets(b)[1..]
  {
    if |a| >= 3 {
      GroupAfterFirst(a, b);
    } else if |a| == 2 {
      PairAfterFirst(a[0], b[0], a[1]);
      assert a == [a[0], a[1]] && b == [b[0], a[1]];
    } else {
      assert a == [a[0]] && b == [b[0]];
    }
  }

  lemma PairAfterFirst(x0: Byte, y0: Byte, b1: Byte)
    requires x0 % 4 == y0 % 4
    ensures Sextets([x0, b1])[1..] == Sextets([y0, b1])[1..]
  {
    assert Sextets([x0, b1]) == Split(x0, b1, 0)[..3];
    assert Sextets([y0, b1]) == Split(y0, b1, 0)[..3];
  }

  lemma GroupAfterFirst(a: seq<Byte>, b: seq<Byte>)
    requires |a| == |b| >= 3 && a[1..] == b[1..] && a[0] % 4 == b[0] % 4
    ensures |Sextets(a)| == |Sextets(b)|
    ensures Sextets(a)[1..] == Sextets(b)[1..]
  {
    assert a[1] == b[1] && a[2] == b[2] && a[3..] == b[3..];
    var rest := Sextets(a[3..]);
    var va, vb := Split(a[0], a[1], a[2]), Split(b[0], a[1], a[2]);
    assert Sextets(a) == va + rest;
    assert Sextets(b) == vb + rest;
    assert va[1..] == vb[1..] by {
      SplitAfterFirst(a[0], b[0], a[1], a[2]);
    }
    DropFirst(va, rest);
    DropFirst(vb, rest);
  }

  lemma SplitAfterFirst(x0: Byte, y0: Byte, b1: Byte, b2: Byte)
    requires x0 % 4 == y0 % 4
    ensures Split(x0, b1, b2)[1..] == Split(y0, b1, b2)[1..]
  {
  }

  lemma DropFirst(x: seq<Sextet>, rest: seq<Sextet>)
    requires |x| >= 1
    ensures (x + rest)[1..] == x[1..] + rest
  {
  }

  // ---------------------------------------------------------------------
  // The encoding and its inverse
  // ---------------------------------------------------------------------

  /** The unpadded encoding of `bytes`. It has the least number of symbols
      that hold all the input bits (4 for every 3 bytes, and 2 or 3 more for
      a final group of 1 or 2 bytes), all of them in the URL and filename
      safe alphabet, so `=` never occurs. */
  function Encode(bytes: seq<Byte>): (r: string)
    ensures |r| == (8 * |bytes| + 5) / 6
    ensures 6 * |r| - 6 < 8 * |bytes| <= 6 * |r|
    ensures forall i :: 0 <= i < |r| ==> IsUrlSafe(r[i]) && r[i] != '='
  {
    Symbols(Sextets(bytes))
  }

  /** The bytes of an unpadded encoding, or None when `s` is not the encoding
      of any byte sequence: a character outside the alphabet, a length of the
      form 4k + 1, or a nonzero fill bit in the last symbol. */
  function Decode(s: string): (r: Option<seq<Byte>>) {
    var vs := Values(s);
    if vs.Some? then Bytes(vs.value) else None
  }

  /** Decoding an encoding gives back the bytes. */
  lemma DecodeEncode(bytes: seq<Byte>)
    ensures Decode(Encode(bytes)) == Some(bytes)
  {
    ValuesOfSymbols(Sextets(bytes));
    BytesOfSextets(bytes);
  }

  /** Every string that decodes is the encoding of what it decodes to, so
      Encode is a bijection between byte sequences and canonical encodings. */
  lemma EncodeDecode(s: string)
    requires Decode(s).Some?
    ensures Encode(Decode(s).value) == s
  {
    var vs := Values(s).value;
    SextetsOfBytes(vs);
    SymbolsOfValues(s);
  }

  /** Decode accepts exactly the strings of alphabet symbols whose values are
      canonical. */
  lemma DecodeAccepts(s: string)
    ensures Decode(s).Some? <==> Values(s).Some? && Canonical(Values(s).value)
  {
    if Values(s).Some? {
      BytesDefined(Values(s).value);
    }
  }

  /** Distinct byte sequences have distinct encodings. */
  lemma EncodeInjective(a: seq<Byte>, b: seq<Byte>)
    requires Encode(a) == Encode(b)
    ensures a == b
  {
    DecodeEncode(a);
    DecodeEncode(b);
  }

  /** Whole 3-byte groups are encoded independently of what follows them. */
  lemma EncodeAppend(a: seq<Byte>, b: seq<Byte>)
    requires |a| % 3 == 0
    ensures Encode(a + b) == Encode(a) + Encode(b)
  {
    SextetsAppend(a, b, |a| / 3);
  }

  /** The first symbol of an encoding holds only the top six bits of the
      first byte: changing those bits changes no other symbol. */
  lemma EncodeAfterFirstSymbol(a: seq<Byte>, b: seq<Byte>)
    requires |a| == |b| >= 1 && a[1..] == b[1..] && a[0] % 4 == b[0] % 4
    ensures |Encode(a)| == |Encode(b)|
    ensures forall i :: 1 <= i < |Encode(a)| ==> Encode(a)[i] == Encode(b)[i]
  {
    SextetsAfterFirst(a, b);
    var va, vb := Sextets(a), Sextets(b);
    forall i | 1 <= i < |va| ensures va[i] == vb[i] {
      assert va[i] == va[1..][i - 1];
    }
  }

  /** Symbol i of an encoding is the symbol of 6-bit value i. */
  lemma EncodeAt(bytes: seq<Byte>, i: int)
    requires 0 <= i < |Encode(bytes)|
    ensures Encode(bytes)[i] == Symbol(Sextets(bytes)[i])
  {
  }
}
