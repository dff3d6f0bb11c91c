/** The encoding as section 4 of RFC 4648 states it: on bits. */
module Base64Bits {
  import opened Streams
  import opened Bits
  import opened Base64
  import opened Base64Theorems

  /** The bits of a byte string, eight each. */
  function ByteBits(x: Block): (bits: seq<bool>)
    ensures |bits| == 8 * |x|
  {
    if x == [] then [] else BitString(x[0], 8) + ByteBits(x[1..])
  }

  /** The bits of a string of sextets, six each. */
  function SextetBits(q: seq<Sextet>): (bits: seq<bool>)
    ensures |bits| == 6 * |q|
  {
    if q == [] then [] else BitString(q[0], 6) + SextetBits(q[1..])
  }

  function ZeroBits(n: nat): seq<bool> { seq(n, _ => false) }

  lemma AppendByte(hi: nat, b: byte, w: nat)
    ensures BitString(hi * 0x100 + b, w + 8) == BitString(hi, w) + BitString(b, 8)
  {
    hide BitString;
    assert Pow2(8) == 0x100;
    BitStringSplit(hi, b, w, 8);
  }

  lemma AppendSextet(hi: nat, s: Sextet, w: nat)
    ensures BitString(hi * 0x40 + s, w + 6) == BitString(hi, w) + BitString(s, 6)
  {
    hide BitString;
    assert Pow2(6) == 0x40;
    BitStringSplit(hi, s, w, 6);
  }

  function Bits3(a: byte, b: byte, c: byte): seq<bool> {
    BitString(a, 8) + BitString(b, 8) + BitString(c, 8)
  }

  function Bits4(a: Sextet, b: Sextet, c: Sextet, d: Sextet): seq<bool> {
    BitString(a, 6) + BitString(b, 6) + BitString(c, 6) + BitString(d, 6)
  }

  lemma SextetsOfNumber(a: byte, b: byte, c: byte)
    ensures ((Sextet0(a) * 0x40 + Sextet1(a, b)) * 0x40 + Sextet2(b, c)) * 0x40 + Sextet3(c)
         == (a * 0x100 + b) * 0x100 + c
  {
    assert a == 4 * (a / 4) + a % 4 && b == 16 * (b / 16) + b % 16 && c == 64 * (c / 64) + c % 64;
  }

  /** Three bytes and the four sextets that carry them hold the same 24 bits. */
  lemma GroupBits(a: byte, b: byte, c: byte)
    ensures Bits3(a, b, c) == Bits4(Sextet0(a), Sextet1(a, b), Sextet2(b, c), Sextet3(c))
  {
    hide BitString, Sextet0, Sextet1, Sextet2, Sextet3;
    var p: int, q: int, r: int, s: int := Sextet0(a), Sextet1(a, b), Sextet2(b, c), Sextet3(c);
    AppendByte(a, b, 8);
    AppendByte(a * 0x100 + b, c, 16);
    AppendSextet(p, q, 6);
    AppendSextet(p * 0x40 + q, r, 12);
    AppendSextet((p * 0x40 + q) * 0x40 + r, s, 18);
    SextetsOfNumber(a, b, c);
  }

  lemma ByteBitsFrom(x: Block, i: nat)
    requires i < |x|
    ensures ByteBits(x[i..]) == BitString(x[i], 8) + ByteBits(x[i + 1..])
  {
    hide BitString;
    assert x[i..][1..] == x[i + 1..];
  }

  lemma FirstByteGroup(x: Block)
    requires |x| >= 3
    ensures ByteBits(x) == Bits3(x[0], x[1], x[2]) + ByteBits(x[3..])
  {
    hide BitString, ByteBits;
    assert x[0..] == x;
    ByteBitsFrom(x, 0);
    ByteBitsFrom(x, 1);
    ByteBitsFrom(x, 2);
    Nested3(BitString(x[0], 8), BitString(x[1], 8), BitString(x[2], 8), ByteBits(x[3..]));
  }

  lemma Nested3<T>(a: seq<T>, b: seq<T>, c: seq<T>, r: seq<T>)
    ensures a + (b + (c + r)) == a + b + c + r
  {
  }

  lemma SextetBitsFrom(q: seq<Sextet>, i: nat)
    requires i < |q|
    ensures SextetBits(q[i..]) == BitString(q[i], 6) + SextetBits(q[i + 1..])
  {
    hide BitString;
    assert q[i..][1..] == q[i + 1..];
  }

  lemma FirstSextetGroup(q: seq<Sextet>)
    requires |q| >= 4
    ensures SextetBits(q) == Bits4(q[0], q[1], q[2], q[3]) + SextetBits(q[4..])
  {
    hide BitString, SextetBits;
    assert q[0..] == q;
    SextetBitsFrom(q, 0);
    SextetBitsFrom(q, 1);
    SextetBitsFrom(q, 2);
    SextetBitsFrom(q, 3);
    Nested4(BitString(q[0], 6), BitString(q[1], 6), BitString(q[2], 6), BitString(q[3], 6), SextetBits(q[4..]));
  }

  lemma Nested4<T>(a: seq<T>, b: seq<T>, c: seq<T>, d: seq<T>, r: seq<T>)
    ensures a + (b + (c + (d + r))) == a + b + c + d + r
  {
    Nested3(b, c, d, r);
  }

  /** A full group: the bits of its sextets are the bits of its bytes. */
  lemma FullGroupBits(x: Block)
    requires |x| == 3
    ensures SextetBits(Group(x)) == ByteBits(x)
  {
    hide BitString, Sextet0, Sextet1, Sextet2, Sextet3;
    GroupBits(x[0], x[1], x[2]);
    FirstByteGroup(x);
    FirstSextetGroup(Group(x));
  }

  lemma {:induction false} SextetBitsConcat(a: seq<Sextet>, b: seq<Sextet>)
    ensures SextetBits(a + b) == SextetBits(a) + SextetBits(b)
  {
    hide BitString;
    if a == [] { assert a + b == b; } else {
      SextetBitsConcat(a[1..], b);
      assert (a + b)[1..] == a[1..] + b;
    }
  }

  lemma {:induction false} ByteBitsConcat(a: Block, b: Block)
    ensures ByteBits(a + b) == ByteBits(a) + ByteBits(b)
  {
    hide BitString;
    if a == [] { assert a + b == b; } else {
      ByteBitsConcat(a[1..], b);
      assert (a + b)[1..] == a[1..] + b;
    }
  }

  lemma CommonPrefix(a: seq<bool>, b: seq<bool>, c: seq<bool>, n: nat)
    requires a + b == c + ZeroBits(n) && |a| >= |c|
    ensures a == c + ZeroBits(|a| - |c|)
  {
    assert a == (a + b)[..|a|];
  }

  lemma ZeroFilledGroup(x: Block)
    requires 1 <= |x| <= 3
    ensures var y := x + Zeros(3 - |x|); Group(y) == Group(x) + Group(y)[|x| + 1..]
  {
    hide Sextet0, Sextet1, Sextet2, Sextet3;
  }

  /** A short group is a full group of zero-filled bytes with the unused sextets dropped. */
  lemma ShortGroupBits(x: Block)
    requires 1 <= |x| <= 2
    ensures SextetBits(Group(x)) == ByteBits(x) + ZeroBits(2 * (3 - |x|))
  {
    hide *;
    var y, q := x + Zeros(3 - |x|), Group(x);
    var dropped := Group(y)[|q|..];
    ZeroFilledGroup(x);
    FullGroupBits(y);
    SextetBitsConcat(q, dropped);
    ByteBitsConcat(x, Zeros(3 - |x|));
    ZeroByteBits(3 - |x|);
    CommonPrefix(SextetBits(q), SextetBits(dropped), ByteBits(x), 8 * (3 - |x|));
  }

  lemma {:induction false} ZeroByteBits(n: nat)
    ensures ByteBits(Zeros(n)) == ZeroBits(8 * n)
  {
    if n > 0 {
      ZeroByteBits(n - 1);
      assert Zeros(n)[1..] == Zeros(n - 1);
      ZeroBitString(8);
    }
  }

  lemma {:induction false} ZeroBitString(w: nat)
    ensures BitString(0, w) == ZeroBits(w)
  {
    if w > 0 { ZeroBitString(w - 1); }
  }

  /** The sextets carry the bits of the input in order, followed by as many zero bits as fill
      the last sextet. */
  lemma {:induction false} EncoderKeepsBits(x: Block)
    ensures SextetBits(ToSextets(x)) == ByteBits(x) + ZeroBits(2 * PadCount(|x|))
  {
    hide Group, SextetBits, ByteBits;
    if x == [] {
      NoBits();
    } else if |x| < 3 {
      ShortGroupBits(x);
    } else {
      EncoderKeepsBits(x[3..]);
      FullGroupBits(x[..3]);
      ToSextetsCons(x[..3], x[3..]);
      SextetBitsConcat(Group(x[..3]), ToSextets(x[3..]));
      ByteBitsConcat(x[..3], x[3..]);
      assert x == x[..3] + x[3..];
    }
  }

  lemma NoBits()
    ensures SextetBits([]) == [] && ByteBits([]) == []
  {
  }

  function ZeroSextets(n: nat): (z: seq<Sextet>)
    ensures |z| == n
  {
    seq(n, _ => 0)
  }

  lemma ZeroFilledUngroup(q: seq<Sextet>)
    requires 2 <= |q| <= 4
    ensures var full := q + ZeroSextets(4 - |q|); Ungroup(full) == Ungroup(q) + Ungroup(full)[|q| - 1..]
  {
    hide Byte0, Byte1, Byte2;
  }

  lemma FullIsCanonical(q: seq<Sextet>)
    requires |q| == 4
    ensures UnusedBitsZero(q)
  {
  }

  /** What a group of sextets decodes to does not change when it is filled up with zeros. */
  lemma UngroupBits(q: seq<Sextet>)
    requires 2 <= |q| <= 4
    ensures ByteBits(Ungroup(q)) <= SextetBits(q)
  {
    hide *;
    var zeros := ZeroSextets(4 - |q|);
    var full := q + zeros;
    var more := Ungroup(full)[|q| - 1..];
    ZeroFilledUngroup(q);
    GroupUngroup(full);
    FullIsCanonical(full);
    FullGroupBits(Ungroup(full));
    SextetBitsConcat(q, zeros);
    ByteBitsConcat(Ungroup(q), more);
    PrefixBySize(ByteBits(Ungroup(q)), ByteBits(more), SextetBits(q), SextetBits(zeros));
  }

  lemma PrefixBySize<T>(a: seq<T>, b: seq<T>, c: seq<T>, d: seq<T>)
    requires a + b == c + d && |a| <= |c|
    ensures a <= c
  {
    assert a == (a + b)[..|a|] && c == (c + d)[..|c|];
  }

  /** Decoding reads the whole bytes off the front of the bit string and drops the rest. */
  lemma {:induction false} DecoderKeepsBits(q: seq<Sextet>)
    requires |q| % 4 != 1
    ensures ByteBits(ToBytes(q)) <= SextetBits(q)
    ensures 0 <= |SextetBits(q)| - |ByteBits(ToBytes(q))| < 8
  {
    hide Ungroup, SextetBits, ByteBits;
    ToBytesLength(q);
    if |q| < 2 {
      NoBits();
    } else if |q| <= 4 {
      UngroupBits(q);
    } else {
      var g, r := q[..4], q[4..];
      DecoderKeepsBits(r);
      UngroupBits(g);
      ToBytesCons(g, r);
      assert q == g + r;
      SextetBitsConcat(g, r);
      ByteBitsConcat(Ungroup(g), ToBytes(r));
    }
  }
}
