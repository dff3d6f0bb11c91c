/** The Base64 encoder and the two decoders, loop by loop, proved to compute the texts and
    bytes of module `Base64`. */
module Base64Codec {
  import opened Streams
  import opened Bits
  import opened Base64
  import opened Base64Theorems

  const MOD_TABLE: seq<nat> := [0, 2, 1]

  // ---------- base64_encode ----------

  function ByteAt(x: Block, i: nat): byte { if i < |x| then x[i] else 0 }

  function Rest(x: Block): (r: Block)
    ensures x != [] ==> |r| < |x|
  {
    if |x| <= 3 then [] else x[3..]
  }

  /** The four characters of three bytes. */
  function FourChars(a: byte, b: byte, c: byte): (t: Block)
    ensures |t| == 4
  {
    Chars([Sextet0(a), Sextet1(a, b), Sextet2(b, c), Sextet3(c)])
  }

  /** The characters of the first group, missing bytes counting as zero. */
  function FilledGroup(x: Block): (t: Block)
    ensures |t| == 4
  {
    FourChars(ByteAt(x, 0), ByteAt(x, 1), ByteAt(x, 2))
  }

  /** The text before its tail is overwritten with padding. */
  function Filled(x: Block): (t: Block)
    decreases |x|
  {
    if x == [] then [] else FilledGroup(x) + Filled(Rest(x))
  }

  lemma {:induction false} FilledLength(x: Block)
    ensures |Filled(x)| == 4 * ((|x| + 2) / 3)
    decreases |x|
  {
    hide FilledGroup;
    if x != [] { FilledLength(Rest(x)); }
  }

  lemma GroupPrefix(x: Block)
    requires x != []
    ensures |x| <= 3 ==> Chars(Group(x)) == FilledGroup(x)[..|x| + 1]
    ensures |x| > 3 ==> Chars(Group(x[..3])) == FilledGroup(x)
  {
    hide Sextet0, Sextet1, Sextet2, Sextet3;
  }

  lemma {:induction false} FilledHoldsSextets(x: Block)
    ensures |Filled(x)| == |ToSextets(x)| + PadCount(|x|)
    ensures Chars(ToSextets(x)) == Filled(x)[..|ToSextets(x)|]
  {
    hide FilledGroup, Group;
    SextetsDecodeBack(x);
    FilledLength(x);
    if x != [] { GroupPrefix(x); }
    if |x| > 3 {
      FilledHoldsSextets(x[3..]);
      CharsConcat(Group(x[..3]), ToSextets(x[3..]));
    }
  }

  lemma CharsConcat(p: seq<Sextet>, q: seq<Sextet>)
    ensures Chars(p + q) == Chars(p) + Chars(q)
  {
  }

  /** Shifting and masking the 24-bit triple yields the group's sextets. */
  lemma TripleSextets(a: int, b: int, c: int)
    requires 0 <= a < 256 && 0 <= b < 256 && 0 <= c < 256
    ensures var v := a * 0x10000 + b * 0x100 + c;
            && v / 0x40000 % 0x40 == Sextet0(a) && v / 0x1000 % 0x40 == Sextet1(a, b)
            && v / 0x40 % 0x40 == Sextet2(b, c) && v % 0x40 == Sextet3(c)
  {
    Shifted18(a, b, c);
    Shifted12(a, b, c);
    Shifted6(a, b, c);
    Shifted0(a, b, c);
    hide *;
  }

  lemma Shifted18(a: int, b: int, c: int)
    requires 0 <= a < 256 && 0 <= b < 256 && 0 <= c < 256
    ensures (a * 0x10000 + b * 0x100 + c) / 0x40000 % 0x40 == Sextet0(a)
  {
    var r := a % 4 * 0x10000 + b * 0x100 + c;
    assert a * 0x10000 + b * 0x100 + c == 0x40000 * (a / 4) + r;
    assert (0x40000 * (a / 4) + r) / 0x40000 == a / 4;
  }

  lemma Shifted12(a: int, b: int, c: int)
    requires 0 <= a < 256 && 0 <= b < 256 && 0 <= c < 256
    ensures (a * 0x10000 + b * 0x100 + c) / 0x1000 % 0x40 == Sextet1(a, b)
  {
    var q, r := a * 16 + b / 16, b % 16 * 0x100 + c;
    assert a * 0x10000 + b * 0x100 + c == 0x1000 * q + r;
    assert (0x1000 * q + r) / 0x1000 == q;
    assert q == 0x40 * (a / 4) + (a % 4 * 16 + b / 16);
    Quotient64(a / 4, a % 4 * 16 + b / 16);
  }

  lemma Shifted6(a: int, b: int, c: int)
    requires 0 <= a < 256 && 0 <= b < 256 && 0 <= c < 256
    ensures (a * 0x10000 + b * 0x100 + c) / 0x40 % 0x40 == Sextet2(b, c)
  {
    var q := a * 0x400 + b * 4 + c / 64;
    assert a * 0x10000 + b * 0x100 + c == 0x40 * q + c % 64;
    Quotient64(q, c % 64);
    assert q == 0x40 * (a * 16 + b / 16) + (b % 16 * 4 + c / 64);
    Quotient64(a * 16 + b / 16, b % 16 * 4 + c / 64);
  }

  lemma Shifted0(a: int, b: int, c: int)
    requires 0 <= a < 256 && 0 <= b < 256 && 0 <= c < 256
    ensures (a * 0x10000 + b * 0x100 + c) % 0x40 == Sextet3(c)
  {
    var q := a * 0x400 + b * 4 + c / 64;
    assert a * 0x10000 + b * 0x100 + c == 0x40 * q + c % 64;
    Quotient64(q, c % 64);
  }

  lemma Quotient64(q: int, r: int)
    requires 0 <= r < 0x40
    ensures (0x40 * q + r) / 0x40 == q && (0x40 * q + r) % 0x40 == r
  {
  }

  method Encode(data: Block) returns (encoded: array<byte>)
    ensures encoded[..] == EncodedText(data)
  {
    FilledLength(data);
    var outputLength := 4 * ((|data| + 2) / 3);
    encoded := new byte[outputLength];
    EncodeGroups(data, encoded);
    OverwriteTail(encoded, MOD_TABLE[|data| % 3]);
    FilledHoldsSextets(data);
  }

  method EncodeGroups(data: Block, encoded: array<byte>)
    requires encoded.Length == 4 * ((|data| + 2) / 3)
    modifies encoded
    ensures encoded[..] == Filled(data)
  {
    hide FilledGroup;
    var i, j := 0, 0;
    ghost var g := 0;
    while i < |data|
      invariant 0 <= i <= |data| && 3 * g - 3 < i <= 3 * g && (i == 3 * g || i == |data|) && j == 4 * g
      invariant encoded[..j] + Filled(data[i..]) == Filled(data)
    {
      ghost var rest, done := data[i..], encoded[..j];
      assert j + 4 <= encoded.Length;
      i := EncodeGroup(data, i, encoded, j);
      j, g := j + 4, g + 1;
      assert encoded[..j] == done + FilledGroup(rest);
      Nested(done, FilledGroup(rest), Filled(data[i..]));
    }
    assert data[i..] == [] && encoded[..j] == encoded[..];
  }

  lemma Nested<T>(a: seq<T>, b: seq<T>, c: seq<T>)
    ensures a + (b + c) == (a + b) + c
  {
  }

  /** Reads up to three bytes and writes their four characters; returns the new read position. */
  method EncodeGroup(data: Block, i: nat, encoded: array<byte>, j: nat) returns (next: nat)
    requires i < |data| && j + 4 <= encoded.Length
    modifies encoded
    ensures encoded[..] == old(encoded[..j]) + FilledGroup(data[i..]) + old(encoded[j + 4..])
    ensures next == (if i + 3 <= |data| then i + 3 else |data|) && data[next..] == Rest(data[i..])
  {
    hide FourChars, ByteAt;
    var a, b, c;
    a, b, c, next := ReadThree(data, i);
    var c0, c1, c2, c3 := TripleChars(a, b, c);
    encoded[j], encoded[j + 1], encoded[j + 2], encoded[j + 3] := c0, c1, c2, c3;
    assert encoded[j..j + 4] == [c0, c1, c2, c3] == FilledGroup(data[i..]);
  }

  method ReadThree(data: Block, i: nat) returns (a: byte, b: byte, c: byte, next: nat)
    requires i < |data|
    ensures a == ByteAt(data[i..], 0) && b == ByteAt(data[i..], 1) && c == ByteAt(data[i..], 2)
    ensures next == (if i + 3 <= |data| then i + 3 else |data|) && data[next..] == Rest(data[i..])
  {
    next := i;
    a := data[next];
    next := next + 1;
    b := if next < |data| then data[next] else 0;
    if next < |data| { next := next + 1; }
    c := if next < |data| then data[next] else 0;
    if next < |data| { next := next + 1; }
  }

  method TripleChars(a: byte, b: byte, c: byte) returns (c0: byte, c1: byte, c2: byte, c3: byte)
    ensures [c0, c1, c2, c3] == FourChars(a, b, c)
  {
    var triple: int := (a as int) * 0x10000 + (b as int) * 0x100 + c;
    TripleSextets(a, b, c);
    hide Sextet0, Sextet1, Sextet2, Sextet3;
    c0 := ENCODING_TABLE[triple / 0x40000 % 0x40];
    c1 := ENCODING_TABLE[triple / 0x1000 % 0x40];
    c2 := ENCODING_TABLE[triple / 0x40 % 0x40];
    c3 := ENCODING_TABLE[triple % 0x40];
  }

  method OverwriteTail(encoded: array<byte>, count: nat)
    requires count <= encoded.Length
    modifies encoded
    ensures encoded[..] == old(encoded[..encoded.Length - count]) + Pads(count)
  {
    var i := 0;
    while i < count
      invariant 0 <= i <= count
      invariant encoded[..] == old(encoded[..encoded.Length - i]) + Pads(i)
    {
      encoded[encoded.Length - 1 - i] := PAD;
      i := i + 1;
    }
  }

  // ---------- base64_decode ----------

  class TableDecoder {
    var decodingTable: array?<int>

    ghost predicate Valid()
      reads this, decodingTable
    {
      decodingTable != null ==> Built(decodingTable[..])
    }

    constructor ()
      ensures Valid() && decodingTable == null
    {
      decodingTable := null;
    }

    method BuildDecodingTable()
      modifies this
      ensures Valid() && decodingTable != null && fresh(decodingTable)
    {
      TablesAgree();
      var table := new int[256];
      var i := 0;
      while i < 64
        invariant 0 <= i <= 64
        invariant forall k: Sextet :: k < i ==> table[ENCODING_TABLE[k]] == k
      {
        table[ENCODING_TABLE[i]] := i;
        i := i + 1;
      }
      decodingTable := table;
    }

    method Decode(data: Block) returns (decoded: Option<array<byte>>)
      requires Valid() && |data| > 0
      modifies this
      ensures Valid() && decodingTable != null && Built(decodingTable[..])
      ensures decoded.None? <==> |data| % 4 != 0
      ensures decoded.Some? ==> TableDecoded(decodingTable[..], data) == Some(decoded.value[..])
    {
      if decodingTable == null { BuildDecodingTable(); }
      if |data| % 4 != 0 { return None; }
      var outputLength := |data| / 4 * 3;
      if data[|data| - 1] == PAD { outputLength := outputLength - 1; }
      if data[|data| - 2] == PAD { outputLength := outputLength - 1; }
      var out := new byte[outputLength];
      DecodeGroups(data, out);
      decoded := Some(out);
    }

    method DecodeGroups(data: Block, out: array<byte>)
      requires decodingTable != null && decodingTable.Length == 256 && Built(decodingTable[..])
      requires |data| % 4 == 0 && out.Length <= |data| / 4 * 3
      modifies out
      ensures out[..] == Triples(decodingTable[..], data)[..out.Length]
    {
      hide Built, Triple, TripleBytes;
      ghost var table := decodingTable[..];
      ghost var all := Triples(table, data);
      var i, j := 0, 0;
      ghost var g := 0;
      while i < |data|
        invariant 0 <= i <= |data| && i == 4 * g && 3 * g <= |all| && decodingTable[..] == table
        invariant all[3 * g..] == Triples(table, data[i..])
        invariant j == (if 3 * g < out.Length then 3 * g else out.Length)
        invariant out[..j] == all[..j]
      {
        var triple := ReadTriple(data, i);
        NextTriple(table, data, all, g, triple);
        ghost var before := j;
        j := StoreTriple(triple, out, j);
        PrefixExtended(all, before, j, TripleBytes(triple));
        i, g := i + 4, g + 1;
      }
      assert out[..] == out[..j];
    }

    /** Stores as many of the triple's three bytes as there is room for. */
    method StoreTriple(triple: nat, out: array<byte>, j: nat) returns (next: nat)
      requires j <= out.Length
      modifies out
      ensures next == (if j + 3 <= out.Length then j + 3 else out.Length)
      ensures out[..next] == old(out[..j]) + TripleBytes(triple)[..next - j]
    {
      next := j;
      if next < out.Length { out[next] := triple / 0x10000 % 0x100; next := next + 1; }
      if next < out.Length { out[next] := triple / 0x100 % 0x100; next := next + 1; }
      if next < out.Length { out[next] := triple % 0x100; next := next + 1; }
    }

    lemma PrefixExtended(all: Block, before: nat, after: nat, group: Block)
      requires |group| == 3 && before <= after <= before + 3 && before <= |all|
      requires before < after ==> before + 3 <= |all| && all[before..before + 3] == group
      ensures after <= |all| && all[..after] == all[..before] + group[..after - before]
    {
      if before < after {
        assert all[before..after] == all[before..before + 3][..after - before];
        assert all[..after] == all[..before] + all[before..after];
      }
    }

    lemma NextTriple(table: seq<int>, data: Block, all: Block, g: nat, triple: nat)
      requires |table| == 256 && |data| % 4 == 0 && 4 * g + 4 <= |data| && 3 * g <= |all|
      requires triple == Triple(table, data[4 * g..4 * g + 4])
      requires all[3 * g..] == Triples(table, data[4 * g..])
      ensures |all| >= 3 * g + 3
      ensures all[3 * g..3 * g + 3] == TripleBytes(triple) && all[3 * g + 3..] == Triples(table, data[4 * g + 4..])
    {
      hide Triple, TripleBytes;
      var t, rest := data[4 * g..], all[3 * g..];
      assert t[..4] == data[4 * g..4 * g + 4] && t[4..] == data[4 * g + 4..];
      assert rest == TripleBytes(triple) + Triples(table, data[4 * g + 4..]);
      assert all[3 * g..3 * g + 3] == rest[..3] && all[3 * g + 3..] == rest[3..];
    }

    method ReadTriple(data: Block, i: nat) returns (triple: nat)
      requires i + 4 <= |data| && decodingTable != null && Built(decodingTable[..])
      ensures triple == Triple(decodingTable[..], data[i..i + 4])
    {
      var a := if data[i] == PAD then 0 else decodingTable[data[i]] % 0x1_0000_0000;
      var b := if data[i + 1] == PAD then 0 else decodingTable[data[i + 1]] % 0x1_0000_0000;
      var c := if data[i + 2] == PAD then 0 else decodingTable[data[i + 2]] % 0x1_0000_0000;
      var d := if data[i + 3] == PAD then 0 else decodingTable[data[i + 3]] % 0x1_0000_0000;
      triple := (a * 0x40000 + b * 0x1000 + c * 0x40 + d) % 0x1_0000_0000;
    }
  }

  // ---------- rvDecodeB64 ----------

  /** The or of shifted neighbours, kept to eight bits, is the byte of the specification. */
  lemma OrGivesBytes(a: int, b: int, c: int, d: int)
    requires 0 <= a < 64 && 0 <= b < 64 && 0 <= c < 64 && 0 <= d < 64
    ensures BitOr(a * 4, b / 16) % 0x100 == Byte0(a, b)
    ensures BitOr(b * 16, c / 4) % 0x100 == Byte1(b, c)
    ensures BitOr(c * 64 / 64 % 4 * 64, d) % 0x100 == Byte2(c, d)
  {
    hide BitOr;
    OrByte0(a, b);
    OrByte1(b, c);
    OrByte2(c, d);
    hide *;
  }

  lemma OrByte0(a: int, b: int)
    requires 0 <= a < 64 && 0 <= b < 64
    ensures BitOr(a * 4, b / 16) % 0x100 == Byte0(a, b)
  {
    hide BitOr;
    OrFields(a, b / 16, 2);
  }

  lemma OrByte1(b: int, c: int)
    requires 0 <= b < 64 && 0 <= c < 64
    ensures BitOr(b * 16, c / 4) % 0x100 == Byte1(b, c)
  {
    hide BitOr;
    OrFields(b, c / 4, 4);
    LowByte(b, c / 4);
  }

  lemma OrByte2(c: int, d: int)
    requires 0 <= c < 64 && 0 <= d < 64
    ensures BitOr(c * 64 / 64 % 4 * 64, d) % 0x100 == Byte2(c, d)
  {
    hide BitOr;
    assert c * 64 / 64 == c;
    OrFields(c % 4, d, 6);
  }

  lemma OrFields(hi: nat, lo: nat, k: nat)
    requires k == 2 || k == 4 || k == 6
    requires lo < (if k == 2 then 4 else if k == 4 then 16 else 64)
    ensures BitOr(hi * (if k == 2 then 4 else if k == 4 then 16 else 64), lo)
         == hi * (if k == 2 then 4 else if k == 4 then 16 else 64) + lo
  {
    hide BitOr;
    assert Pow2(2) == 4 && Pow2(4) == 16 && Pow2(6) == 64;
    OrDisjoint(hi, lo, k);
  }

  lemma LowByte(b: int, h: int)
    requires 0 <= b < 64 && 0 <= h < 16
    ensures (b * 16 + h) % 0x100 == b % 16 * 16 + h
  {
    assert b * 16 + h == 0x100 * (b / 16) + (b % 16 * 16 + h);
  }

  lemma {:induction false} ToBytesConcat(a: seq<Sextet>, b: seq<Sextet>)
    requires |a| % 4 == 0
    ensures ToBytes(a + b) == ToBytes(a) + ToBytes(b)
  {
    hide Ungroup;
    if a == [] {
      assert a + b == b;
    } else {
      var g, r := a[..4], a[4..];
      ToBytesConcat(r, b);
      assert a == g + r && a + b == g + (r + b);
      ToBytesCons(g, r);
      ToBytesCons(g, r + b);
    }
  }

  /** Decoding a prefix of whole groups and then one more group decodes the longer prefix. */
  lemma OneMoreGroup(t: Block, pos: nat, i: nat)
    requires pos % 4 == 0 && 2 <= i <= 4 && pos + i <= |t|
    requires forall k :: 0 <= k < pos + i ==> InAlphabet(t[k])
    ensures ToBytes(Values(t[..pos + i])) == ToBytes(Values(t[..pos])) + Ungroup(Values(t[pos..pos + i]))
  {
    hide ToBytes, Ungroup;
    assert Values(t[..pos + i]) == Values(t[..pos]) + Values(t[pos..pos + i]);
    ToBytesConcat(Values(t[..pos]), Values(t[pos..pos + i]));
    ShortToBytes(Values(t[pos..pos + i]));
  }

  /** Reads up to four characters into `quad`, stopping at '=' or the end of the text. */
  method ReadQuad(text: Block, pos: nat, quad: array<byte>) returns (i: nat, invalid: bool)
    requires pos <= Body(text) && quad.Length == 4
    requires forall k :: 0 <= k < |text| ==> text[k] < 128
    modifies quad
    ensures i <= 4 && pos + i <= Body(text)
    ensures forall k :: 0 <= k < i ==> quad[k] == Value(text[pos + k])
    ensures invalid ==> pos + i == Body(text) < |text| && text[pos + i] != PAD
    ensures !invalid && i < 4 ==> pos + i == Body(text) && (pos + i < |text| ==> text[pos + i] == PAD)
  {
    hide Body, Value, InAlphabet;
    TablesAgree();
    i, invalid := 0, false;
    while i < 4 && pos + i < |text|
      invariant i <= 4 && pos + i <= Body(text) && !invalid
      invariant forall k :: 0 <= k < i ==> quad[k] == Value(text[pos + k])
    {
      var c := DEC_TABLE[text[pos + i]];
      if c == INVALID {
        return i, true;
      }
      if c == STOP {
        break;
      }
      quad[i] := c;
      i := i + 1;
    }
  }

  /** Writes the bytes wholly contained in the sextets of `quad`. */
  method WriteGroup(quad: array<byte>, i: nat, out: array<byte>, at: nat, ghost q: seq<Sextet>)
    requires quad.Length == 4 && 2 <= i <= 4 && at + i - 1 <= out.Length && quad != out
    requires |q| == i && forall k :: 0 <= k < i ==> quad[k] == q[k]
    modifies out
    ensures out[..at] == old(out[..at]) && out[at..at + i - 1] == Ungroup(q)
    ensures out[at + i - 1..] == old(out[at + i - 1..])
  {
    OrGivesBytes(q[0], q[1], if i > 2 then q[2] else 0, if i > 3 then q[3] else 0);
    hide BitOr, Byte0, Byte1, Byte2;
    var a: int, b: int := quad[0], quad[1];
    out[at] := BitOr(a * 4, b / 16) % 0x100;
    if i > 2 {
      var c: int := quad[2];
      out[at + 1] := BitOr(b * 16, c / 4) % 0x100;
      if i == 4 {
        var d: int := quad[3];
        out[at + 2] := BitOr(c * 64 / 64 % 4 * 64, d) % 0x100;
      }
    }
  }

  /** A group read up to the end of the body has two characters or more, and its bytes are among
      those of the text. */
  lemma GroupLength(text: Block, pos: nat, i: nat)
    requires Decodable(text) && pos < |text| && pos % 4 == 0 && i <= 4 && pos + i <= Body(text)
    requires i < 4 ==> pos + i == Body(text) && (pos + i < |text| ==> text[pos + i] == PAD)
    ensures 2 <= i && pos / 4 * 3 + (i - 1) <= |BodyBytes(text)|
  {
    BodyBytesLength(text);
    hide Body, BodyBytes, InAlphabet, Value;
    GroupArithmetic(pos, i, Body(text));
  }

  lemma GroupArithmetic(pos: nat, i: nat, k: nat)
    requires pos % 4 == 0 && i <= 4 && pos + i <= k
    ensures i < 4 && pos + i == k ==> k % 4 == i
    ensures 2 <= i ==> pos / 4 * 3 + (i - 1) <= k / 4 * 3 + (if k % 4 == 0 then 0 else k % 4 - 1)
  {
    assert k / 4 >= pos / 4;
  }

  /** Decodes the group at `pos`; fails on an invalid character or when it does not fit. */
  method DecodeGroup(text: Block, pos: nat, out: array<byte>, at: nat, testLen: int) returns (i: nat, ok: bool)
    requires Decodable(text) && pos < |text| && pos <= Body(text) && pos % 4 == 0 && at == pos / 4 * 3
    requires at <= out.Length && at + testLen <= out.Length
    modifies out
    ensures ok ==>
      && 2 <= i <= 4 && pos + i <= Body(text) && i - 1 <= testLen
      && out[..at] == old(out[..at]) && out[at..at + i - 1] == Ungroup(Values(text[pos..pos + i]))
      && out[at + i - 1..] == old(out[at + i - 1..])
      && (i < 4 ==> pos + i == Body(text))
      && (pos + i == Body(text) < |text| && i < 4 ==> text[pos + i] == PAD)
    ensures !ok ==> out[..] == old(out[..]) && RvDecoded(text, at + testLen).None?
  {
    hide ToBytes, Ungroup, Body, Value, InAlphabet;
    var quad := new byte[4];
    var invalid;
    i, invalid := ReadQuad(text, pos, quad);
    if invalid {
      return i, false;
    }
    GroupLength(text, pos, i);
    if testLen < i - 1 {
      return i, false;
    }
    WriteGroup(quad, i, out, at, Values(text[pos..pos + i]));
    ok := true;
  }

  lemma SameAt(first: Block, was: Block, at: nat)
    requires |was| == |first| && at <= |was| && was[at..] == first[at..]
    ensures forall i :: at <= i < |was| ==> was[i] == first[i]
  {
    forall i | at <= i < |was| ensures was[i] == first[i] {
      assert was[i] == was[at..][i - at] && first[i] == first[at..][i - at];
    }
  }

  lemma GroupAppended(first: Block, was: Block, now: Block, group: Block, at: nat)
    requires |now| == |was| == |first| && at + |group| <= |was| && was[at..] == first[at..]
    requires now[..at] == was[..at] && now[at..at + |group|] == group && now[at + |group|..] == was[at + |group|..]
    ensures now[..at + |group|] == was[..at] + group
    ensures now[at + |group|..] == first[at + |group|..]
  {
    assert now[..at + |group|] == now[..at] + now[at..at + |group|];
    assert was[at + |group|..] == was[at..][|group|..] && first[at + |group|..] == first[at..][|group|..];
  }

  method RvDecodeB64(text: Block, out: array<byte>, capacity: int) returns (length: int)
    requires Decodable(text) && capacity <= out.Length
    modifies out
    ensures length == -1 || 0 <= length <= out.Length
    ensures RvDecoded(text, capacity) == if length == -1 then None else Some(out[..length])
    ensures length >= 0 ==> out[length..] == old(out[length..])
    ensures length == -1 ==> forall i :: 0 <= i < out.Length && i >= capacity ==> out[i] == old(out[i])
  {
    hide ToBytes, Ungroup, Body, Value, InAlphabet;
    var pos, testLen := 0, capacity;
    length := 0;
    assert Values(text[..0]) == [];
    EmptyBytes();
    while pos < |text|
      invariant pos <= Body(text) && pos % 4 == 0 && length == pos / 4 * 3 <= out.Length
      invariant testLen == capacity - length && (pos > 0 ==> testLen >= 0)
      invariant out[..length] == ToBytes(Values(text[..pos])) && out[length..] == old(out[length..])
    {
      ghost var was := out[..];
      assert was[..length] == out[..length] && was[length..] == out[length..];
      var i, ok := DecodeGroup(text, pos, out, length, testLen);
      if !ok {
        SameAt(old(out[..]), was, length);
        return -1;
      }
      testLen := testLen - (i - 1);
      OneMoreGroup(text, pos, i);
      GroupAppended(old(out[..]), was, out[..], Ungroup(Values(text[pos..pos + i])), length);
      length := length + (i - 1);
      pos := pos + i;
      if i < 4 {
        break;
      }
    }
  }
}
