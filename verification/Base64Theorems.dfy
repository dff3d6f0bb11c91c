/** What the Base64 encoder and the two decoders guarantee for each other. */
module Base64Theorems {
  import opened Streams
  import opened Bits
  import opened Base64

  // ---------- sextets and bytes ----------

  lemma BytesOfSextets(a: byte, b: byte, c: byte)
    ensures Byte0(Sextet0(a), Sextet1(a, b)) == a
    ensures Byte1(Sextet1(a, b), Sextet2(b, c)) == b
    ensures Byte2(Sextet2(b, c), Sextet3(c)) == c
  {
  }

  lemma SextetsOfBytes(a: Sextet, b: Sextet, c: Sextet, d: Sextet)
    ensures Sextet0(Byte0(a, b)) == a
    ensures Sextet1(Byte0(a, b), Byte1(b, c)) == b
    ensures Sextet2(Byte1(b, c), Byte2(c, d)) == c
    ensures Sextet3(Byte2(c, d)) == d
    ensures Sextet1(Byte0(a, b), 0) == b <==> b % 16 == 0
    ensures Sextet2(Byte1(b, c), 0) == c <==> c % 4 == 0
  {
  }

  lemma UngroupGroup(x: Block)
    requires 1 <= |x| <= 3
    ensures Ungroup(Group(x)) == x
  {
    hide Sextet0, Sextet1, Sextet2, Sextet3, Byte0, Byte1, Byte2;
    BytesOfSextets(x[0], if |x| > 1 then x[1] else 0, if |x| > 2 then x[2] else 0);
  }

  /** The low bits of the last sextet that no byte uses are all zero (section 3.5 of RFC 4648). */
  predicate UnusedBitsZero(q: seq<Sextet>) {
    && (|q| % 4 == 2 ==> q[|q| - 1] % 16 == 0)
    && (|q| % 4 == 3 ==> q[|q| - 1] % 4 == 0)
  }

  lemma GroupUngroup(q: seq<Sextet>)
    requires 2 <= |q| <= 4
    ensures Group(Ungroup(q)) == q <==> UnusedBitsZero(q)
  {
    hide Sextet0, Sextet1, Sextet2, Sextet3, Byte0, Byte1, Byte2;
    SextetsOfBytes(q[0], q[1], if |q| > 2 then q[2] else 0, if |q| > 3 then q[3] else 0);
  }

  lemma ToSextetsCons(g: Block, r: Block)
    requires |g| == 3
    ensures ToSextets(g + r) == Group(g) + ToSextets(r)
  {
    hide Group;
    if r == [] { assert g + r == g; } else { assert (g + r)[..3] == g && (g + r)[3..] == r; }
  }

  lemma ToBytesCons(g: seq<Sextet>, r: seq<Sextet>)
    requires |g| == 4
    ensures ToBytes(g + r) == Ungroup(g) + ToBytes(r)
  {
    hide Ungroup;
    if r == [] { assert g + r == g; } else { assert (g + r)[..4] == g && (g + r)[4..] == r; }
  }

  lemma {:induction false} SextetsDecodeBack(x: Block)
    ensures ToBytes(ToSextets(x)) == x
    ensures |ToSextets(x)| + PadCount(|x|) == 4 * ((|x| + 2) / 3)
    ensures x != [] ==> |ToSextets(x)| >= 2
  {
    hide Group, Ungroup;
    if x == [] {
    } else if |x| <= 3 {
      UngroupGroup(x);
    } else {
      SextetsDecodeBack(x[3..]);
      UngroupGroup(x[..3]);
      ToBytesCons(Group(x[..3]), ToSextets(x[3..]));
      assert x == x[..3] + x[3..];
    }
  }

  lemma {:induction false} ToBytesLength(q: seq<Sextet>)
    ensures |ToBytes(q)| == |q| / 4 * 3 + (if |q| % 4 == 0 then 0 else |q| % 4 - 1)
  {
    hide Ungroup;
    if |q| > 4 { ToBytesLength(q[4..]); }
  }

  lemma UnusedBitsTail(q: seq<Sextet>)
    requires |q| > 4 && |q| % 4 != 1
    ensures UnusedBitsZero(q) <==> UnusedBitsZero(q[4..])
  {
    assert q[4..][|q| - 5] == q[|q| - 1];
  }

  lemma NothingEncodesBack()
    ensures ToSextets(ToBytes([])) == [] && UnusedBitsZero([])
  {
  }

  lemma {:induction false} BytesEncodeBack(q: seq<Sextet>)
    requires |q| % 4 != 1
    ensures ToSextets(ToBytes(q)) == q <==> UnusedBitsZero(q)
  {
    hide Group, Ungroup, UnusedBitsZero;
    if |q| < 2 {
      NothingEncodesBack();
    } else if |q| <= 4 {
      GroupUngroup(q);
    } else {
      hide *;
      var g, r := q[..4], q[4..];
      BytesEncodeBack(r);
      UnusedBitsTail(q);
      FullGroupBack(g);
      assert q == g + r;
      ToBytesCons(g, r);
      ToSextetsCons(Ungroup(g), ToBytes(r));
      SameFront(g, r, ToSextets(ToBytes(r)));
    }
  }

  lemma FullGroupBack(g: seq<Sextet>)
    requires |g| == 4
    ensures Group(Ungroup(g)) == g
  {
    GroupUngroup(g);
  }

  lemma SameFront<T>(g: seq<T>, r: seq<T>, t: seq<T>)
    ensures g + t == g + r <==> t == r
  {
    assert (g + t)[|g|..] == t && (g + r)[|g|..] == r;
  }

  // ---------- texts ----------

  /** Where the alphabet characters of a text end is determined by what follows them. */
  lemma {:induction false} BodyIs(t: Block, k: nat)
    requires k <= |t| && (forall i :: 0 <= i < k ==> InAlphabet(t[i])) && (k < |t| ==> !InAlphabet(t[k]))
    ensures Body(t) == k
  {
    if k > 0 { BodyIs(t[1..], k - 1); }
  }

  lemma EncodedBody(x: Block)
    ensures var t, q := EncodedText(x), ToSextets(x);
            Body(t) == |q| && t[..|q|] == Chars(q) && Values(t[..|q|]) == q
  {
    TablesAgree();
    BodyIs(EncodedText(x), |ToSextets(x)|);
  }

  /** rvDecodeB64 undoes base64_encode for every byte string, into any buffer that has room,
      and reports -1 for any that has not. */
  lemma RvRoundTrip(x: Block, capacity: nat)
    ensures Decodable(EncodedText(x))
    ensures RvDecoded(EncodedText(x), capacity) == if capacity >= |x| then Some(x) else None
  {
    hide ToSextets, ToBytes, PadCount;
    TablesAgree();
    EncodedBody(x);
    SextetsDecodeBack(x);
    LengthLeavesNoSingle(x);
  }

  /** No group of a single character is ever left over. */
  lemma LengthLeavesNoSingle(x: Block)
    ensures |ToSextets(x)| % 4 != 1 && (PadCount(|x|) > 0 ==> |ToSextets(x)| % 4 >= 2)
  {
    hide ToSextets, ToBytes;
    SextetsDecodeBack(x);
    MultipleOfFour(|ToSextets(x)|, PadCount(|x|), (|x| + 2) / 3);
  }

  lemma MultipleOfFour(q: int, p: int, m: int)
    requires q + p == 4 * m && 0 <= p <= 2
    ensures q % 4 != 1 && (p > 0 ==> q % 4 >= 2)
  {
    if p == 0 { assert q % 4 == 0; } else { assert q == 4 * (m - 1) + (4 - p); }
  }

  /** The same with the padding left out. */
  lemma RvRoundTripUnpadded(x: Block, capacity: nat)
    ensures Decodable(Chars(ToSextets(x)))
    ensures RvDecoded(Chars(ToSextets(x)), capacity) == if capacity >= |x| then Some(x) else None
  {
    hide ToSextets, ToBytes, PadCount;
    LengthLeavesNoSingle(x);
    SextetsDecodeBack(x);
    CharsDecode(ToSextets(x), capacity);
  }

  lemma CharsDecode(q: seq<Sextet>, capacity: nat)
    requires |q| % 4 != 1
    ensures Decodable(Chars(q))
    ensures RvDecoded(Chars(q), capacity) == if capacity >= |ToBytes(q)| then Some(ToBytes(q)) else None
  {
    hide ToBytes;
    TablesAgree();
    var t := Chars(q);
    BodyIs(t, |q|);
    assert t[..|q|] == t && Values(t) == q;
    if q == [] { EmptyBytes(); }
  }

  lemma EmptyBytes()
    ensures ToBytes([]) == []
  {
  }

  /** Once a group of two or three characters is cut short by '=', nothing after it matters. */
  lemma RvIgnoresTail(p: Block, tail: Block, capacity: int)
    requires (forall i :: 0 <= i < |p| ==> InAlphabet(p[i])) && |p| % 4 >= 2
    requires forall i :: 0 <= i < |tail| ==> tail[i] < 128
    ensures Decodable(p + [PAD] + tail) && Decodable(p)
    ensures RvDecoded(p + [PAD] + tail, capacity) == RvDecoded(p, capacity)
  {
    var t := p + [PAD] + tail;
    BodyIs(t, |p|);
    BodyIs(p, |p|);
    assert t[..|p|] == p && p[..|p|] == p;
  }

  /** Non-empty, a multiple of four long, '=' only as the last character or the last two. */
  predicate WellFormed(t: Block) {
    && |t| > 0 && |t| % 4 == 0 && Body(t) >= |t| - 2
    && forall i :: Body(t) <= i < |t| ==> t[i] == PAD
  }

  lemma GroupTriple(table: seq<int>, t: Block)
    requires Built(table) && |t| == 4
    requires forall i :: 0 <= i < 4 ==> InAlphabet(t[i])
    ensures TripleBytes(Triple(table, t)) == Ungroup(Values(t))
  {
    hide TripleBytes, Byte0, Byte1, Byte2, Lookup, Value;
    AlphabetLookup(table, t[0]); AlphabetLookup(table, t[1]);
    AlphabetLookup(table, t[2]); AlphabetLookup(table, t[3]);
    TripleSplit(Value(t[0]), Value(t[1]), Value(t[2]), Value(t[3]));
  }

  lemma AlphabetLookup(table: seq<int>, c: byte)
    requires Built(table) && InAlphabet(c)
    ensures Lookup(table, c) == Value(c)
  {
    assert table[ENCODING_TABLE[Value(c)]] == Value(c);
  }

  lemma SextetsPacked(a: int, b: int, c: int, d: int)
    requires 0 <= a < 64 && 0 <= b < 64 && 0 <= c < 64 && 0 <= d < 64
    ensures a * 0x40000 + b * 0x1000 + c * 0x40 + d
         == (Byte0(a, b) as int) * 0x10000 + (Byte1(b, c) as int) * 0x100 + (Byte2(c, d) as int)
  {
    assert b == 16 * (b / 16) + b % 16 && c == 4 * (c / 4) + c % 4;
  }

  lemma BytesUnpacked(x: int, y: int, z: int)
    requires 0 <= x < 256 && 0 <= y < 256 && 0 <= z < 256
    ensures TripleBytes((x * 0x10000 + y * 0x100 + z) % 0x1_0000_0000) == [x, y, z]
  {
    var v := x * 0x10000 + y * 0x100 + z;
    assert v % 0x1_0000_0000 == v && v / 0x10000 == x && v / 0x100 == x * 0x100 + y;
    assert (x * 0x100 + y) % 0x100 == y && v % 0x100 == z;
  }

  lemma TripleSplit(a: int, b: int, c: int, d: int)
    requires 0 <= a < 64 && 0 <= b < 64 && 0 <= c < 64 && 0 <= d < 64
    ensures TripleBytes((a * 0x40000 + b * 0x1000 + c * 0x40 + d) % 0x1_0000_0000)
         == [Byte0(a, b), Byte1(b, c), Byte2(c, d)]
  {
    hide *;
    SextetsPacked(a, b, c, d);
    BytesUnpacked(Byte0(a, b), Byte1(b, c), Byte2(c, d));
  }

  /** On a short last group the table decoder's missing sextets read as zero. */
  lemma PaddedTriple(table: seq<int>, t: Block, k: nat)
    requires Built(table) && |t| == 4 && 2 <= k <= 3
    requires forall i :: 0 <= i < k ==> InAlphabet(t[i])
    requires forall i :: k <= i < 4 ==> t[i] == PAD
    ensures TripleBytes(Triple(table, t))[..k - 1] == Ungroup(Values(t[..k]))
  {
    hide TripleBytes, Byte0, Byte1, Byte2, Value;
    var c: Sextet := if k == 3 then Value(t[2]) else 0;
    AlphabetLookup(table, t[0]); AlphabetLookup(table, t[1]);
    if k == 3 { AlphabetLookup(table, t[2]); }
    TripleSplit(Value(t[0]), Value(t[1]), c, 0);
  }

  lemma BodyTail(t: Block)
    requires |t| >= 4 && Body(t) >= 4
    ensures Body(t[4..]) == Body(t) - 4
    ensures Values(t[..Body(t)]) == Values(t[..4]) + Values(t[4..][..Body(t) - 4])
  {
    BodyIs(t[4..], Body(t) - 4);
    hide Body, InAlphabet, Value;
    ValuesSplit(t, Body(t));
  }

  lemma ValuesSplit(t: Block, k: nat)
    requires 4 <= k <= |t| && forall i :: 0 <= i < k ==> InAlphabet(t[i])
    ensures Values(t[..k]) == Values(t[..4]) + Values(t[4..][..k - 4])
  {
    hide InAlphabet, Value;
    assert t[..k] == t[..4] + t[4..][..k - 4];
  }

  lemma SingleGroupDecodes(table: seq<int>, t: Block)
    requires Built(table) && WellFormed(t) && |t| == 4
    ensures TableDecoded(table, t) == Some(BodyBytes(t))
  {
    var k := Body(t);
    if k == 4 { GroupTriple(table, t); } else { PaddedTriple(table, t, k); }
    assert TripleBytes(Triple(table, t))[..k - 1] == Ungroup(Values(t[..k])) by { assert t[..4] == t; }
    hide Built, TripleBytes, Triple, Ungroup, Body, Values;
    OneTriple(table, t);
    assert ToBytes(Values(t[..k])) == Ungroup(Values(t[..k])) by { ShortToBytes(Values(t[..k])); }
  }

  lemma OneTriple(table: seq<int>, t: Block)
    requires |table| == 256 && |t| == 4
    ensures Triples(table, t) == TripleBytes(Triple(table, t))
  {
    hide TripleBytes, Triple;
    assert t[..4] == t && t[4..] == [];
  }

  lemma ShortToBytes(q: seq<Sextet>)
    requires 2 <= |q| <= 4
    ensures ToBytes(q) == Ungroup(q)
  {
    hide Ungroup;
  }

  /** On a well-formed text base64_decode yields the bytes wholly contained in its characters,
      whatever the unused trailing bits are and whatever else the table holds. */
  lemma {:induction false} TableDecodesBody(table: seq<int>, t: Block)
    requires Built(table) && WellFormed(t)
    ensures TableDecoded(table, t) == Some(BodyBytes(t))
  {
    hide TripleBytes, Triple, Ungroup, Body, InAlphabet, Value;
    if |t| == 4 {
      SingleGroupDecodes(table, t);
    } else {
      var g, r := t[..4], t[4..];
      BodyTail(t);
      BodyBytesCons(t);
      TableDecodesBody(table, r);
      GroupTriple(table, g);
      hide Built, ToBytes, BodyBytes, InAlphabet;
      var head, rest := TripleBytes(Triple(table, g)), Triples(table, r);
      assert OutputLength(t) == 3 + OutputLength(r) by {
        assert r[|r| - 1] == t[|t| - 1] && r[|r| - 2] == t[|t| - 2];
      }
      assert (head + rest)[..3 + OutputLength(r)] == head + rest[..OutputLength(r)];
    }
  }

  lemma BodyBytesCons(t: Block)
    requires |t| >= 4 && Body(t) >= 4
    ensures BodyBytes(t) == Ungroup(Values(t[..4])) + BodyBytes(t[4..])
  {
    hide *;
    BodyTail(t);
    var a, b := Values(t[..4]), Values(t[4..][..Body(t[4..])]);
    ToBytesCons(a, b);
    BodyBytesAre(t, a + b);
    BodyBytesAre(t[4..], b);
  }

  lemma BodyBytesAre(t: Block, q: seq<Sextet>)
    requires q == Values(t[..Body(t)])
    ensures BodyBytes(t) == ToBytes(q)
  {
  }

  /** The two decoders agree on a text of alphabet characters and '=' that both can take exactly
      when it is well formed; unused trailing bits make no difference. */
  lemma DecodersAgreeIff(table: seq<int>, t: Block, capacity: int)
    requires Built(table) && |t| > 0 && |t| % 4 == 0 && Decodable(t)
    requires forall i :: 0 <= i < |t| ==> InAlphabet(t[i]) || t[i] == PAD
    requires capacity >= |t| / 4 * 3
    ensures TableDecoded(table, t) == RvDecoded(t, capacity) <==> WellFormed(t)
  {
    hide Built, Triples, ToBytes, Body;
    BodyBytesLength(t);
    if WellFormed(t) {
      TableDecodesBody(table, t);
    } else {
      IllFormedIsShort(t);
    }
  }

  lemma BodyBytesLength(t: Block)
    ensures var k := Body(t); |BodyBytes(t)| == k / 4 * 3 + (if k % 4 == 0 then 0 else k % 4 - 1)
  {
    ToBytesLength(Values(t[..Body(t)]));
  }

  /** An '=' out of place makes rvDecodeB64 stop short of what base64_decode produces. */
  lemma IllFormedIsShort(t: Block)
    requires |t| > 0 && |t| % 4 == 0 && Decodable(t) && !WellFormed(t)
    requires forall i :: 0 <= i < |t| ==> InAlphabet(t[i]) || t[i] == PAD
    ensures |BodyBytes(t)| < OutputLength(t)
  {
    hide ToBytes, BodyBytes, Body;
    BodyBytesLength(t);
    var k := Body(t);
    assert k < |t| && k % 4 >= 2;
    if k < |t| - 4 {
      assert k / 4 + 1 <= |t| / 4 - 1;
    } else {
      assert k == |t| - 2 && t[|t| - 1] != PAD;
    }
  }

  /** Encoding what was decoded gives the text back exactly when its unused bits are zero. */
  lemma CanonicalIff(table: seq<int>, t: Block)
    requires Built(table) && WellFormed(t)
    ensures TableDecoded(table, t).Some? && TableDecoded(table, t).value != []
    ensures EncodedText(TableDecoded(table, t).value) == t <==> UnusedBitsZero(Values(t[..Body(t)]))
  {
    hide Built, Triples, ToBytes, ToSextets, UnusedBitsZero, Body;
    TableDecodesBody(table, t);
    var q, x := Values(t[..Body(t)]), BodyBytes(t);
    BytesEncodeBack(q);
    BodyBytesLength(t);
    EncodedBody(x);
    if ToSextets(x) == q {
      PaddingMatches(t);
      hide PadCount;
      assert Chars(q) == t[..Body(t)];
      assert EncodedText(x) == t;
    }
  }

  lemma PaddingMatches(t: Block)
    requires WellFormed(t)
    ensures PadCount(|BodyBytes(t)|) == |t| - Body(t)
  {
    hide ToBytes, BodyBytes, Body;
    BodyBytesLength(t);
  }

  predicate Canonical(t: Block) { WellFormed(t) && UnusedBitsZero(Values(t[..Body(t)])) }

  /** base64_encode is a bijection from the non-empty byte strings onto the canonical texts,
      and base64_decode is its inverse. */
  lemma EncoderBijective(table: seq<int>)
    requires Built(table)
    ensures forall x: Block :: x != [] ==>
      Canonical(EncodedText(x)) && TableDecoded(table, EncodedText(x)) == Some(x)
    ensures forall t: Block :: Canonical(t) ==>
      && TableDecoded(table, t).Some? && TableDecoded(table, t).value != []
      && EncodedText(TableDecoded(table, t).value) == t
  {
    hide ToSextets, ToBytes, UnusedBitsZero, TableDecoded, EncodedText, Body;
    forall x: Block | x != []
      ensures Canonical(EncodedText(x)) && TableDecoded(table, EncodedText(x)) == Some(x)
    {
      EncodedDecodes(table, x);
    }
    forall t: Block | Canonical(t)
      ensures TableDecoded(table, t).Some? && TableDecoded(table, t).value != []
      ensures EncodedText(TableDecoded(table, t).value) == t
    {
      CanonicalDecodes(table, t);
    }
  }

  lemma EncodedDecodes(table: seq<int>, x: Block)
    requires Built(table) && x != []
    ensures Canonical(EncodedText(x)) && TableDecoded(table, EncodedText(x)) == Some(x)
  {
    hide Built, ToSextets, ToBytes, EncodedText, UnusedBitsZero, Body;
    EncodedIsCanonical(x);
    TableDecodesBody(table, EncodedText(x));
    EncodedBody(x);
    SextetsDecodeBack(x);
  }

  lemma CanonicalDecodes(table: seq<int>, t: Block)
    requires Built(table) && Canonical(t)
    ensures TableDecoded(table, t).Some? && TableDecoded(table, t).value != []
    ensures EncodedText(TableDecoded(table, t).value) == t
  {
    hide Built, EncodedText, UnusedBitsZero, TableDecoded, Body;
    CanonicalIff(table, t);
  }

  lemma EncodedIsCanonical(x: Block)
    requires x != []
    ensures Canonical(EncodedText(x))
  {
    hide ToSextets, ToBytes, UnusedBitsZero, Body;
    EncodedWellFormed(x);
    EncodedBody(x);
    SextetsDecodeBack(x);
    LengthLeavesNoSingle(x);
    BytesEncodeBack(ToSextets(x));
  }

  lemma EncodedWellFormed(x: Block)
    requires x != []
    ensures WellFormed(EncodedText(x))
  {
    EncodedBody(x);
    SextetsDecodeBack(x);
    PadsAtMostTwo(|x|);
    hide ToSextets, ToBytes, Body, Chars, Pads, PadCount, InAlphabet, Value;
    FoursLength(|EncodedText(x)|, (|x| + 2) / 3);
  }

  lemma PadsAtMostTwo(n: nat)
    ensures PadCount(n) <= 2
  {
  }

  lemma FoursLength(n: nat, m: nat)
    requires n == 4 * m
    ensures n % 4 == 0
  {
  }
}
