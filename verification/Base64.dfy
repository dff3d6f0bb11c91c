/** The Base64 tables and what the encoder and the two decoders compute, on values. */
module Base64 {
  import opened Streams
  import opened Bits

  type Sextet = x: int | 0 <= x < 64

  const PAD: byte := 61
  const INVALID := -2
  const STOP := -1

  /** `n` consecutive table entries, counting up from `first`. */
  function Ascending(first: nat, n: nat): (entries: seq<int>)
    ensures |entries| == n && forall i :: 0 <= i < n ==> entries[i] == first + i
  {
    seq(n, i => first + i)
  }

  function NotInAlphabet(n: nat): (entries: seq<int>)
    ensures |entries| == n && forall i :: 0 <= i < n ==> entries[i] == INVALID
  {
    seq(n, _ => INVALID)
  }

  const ENCODING_TABLE: seq<byte> :=
    Ascending(65, 26) + Ascending(97, 26) + Ascending(48, 10) + [43, 47]

  const DEC_TABLE: seq<int> :=
    NotInAlphabet(43) + [62] + NotInAlphabet(3) + [63] + Ascending(52, 10) + NotInAlphabet(3) + [STOP]
    + NotInAlphabet(3) + Ascending(0, 26) + NotInAlphabet(6) + Ascending(26, 26) + NotInAlphabet(5)

  predicate InAlphabet(c: byte) {
    65 <= c <= 90 || 97 <= c <= 122 || 48 <= c <= 57 || c == 43 || c == 47
  }

  function Value(c: byte): (v: Sextet)
    requires InAlphabet(c)
    ensures ENCODING_TABLE[v] == c
  {
    if 65 <= c <= 90 then c - 65 else if 97 <= c <= 122 then c - 71
    else if 48 <= c <= 57 then c + 4 else if c == 43 then 62 else 63
  }

  lemma TablesAgree()
    ensures |ENCODING_TABLE| == 64 && |DEC_TABLE| == 128
    ensures forall i: Sextet :: InAlphabet(ENCODING_TABLE[i]) && Value(ENCODING_TABLE[i]) == i
    ensures forall c: byte :: c < 128 ==>
      DEC_TABLE[c] == if InAlphabet(c) then Value(c) else if c == PAD then STOP else INVALID
  {
  }

  // ---------- sextets and bytes ----------

  /** The four sextets of three bytes; a missing byte counts as zero. */
  function Sextet0(a: int): Sextet
    requires 0 <= a < 256
  {
    a / 4
  }

  function Sextet1(a: int, b: int): Sextet
    requires 0 <= a < 256 && 0 <= b < 256
  {
    a % 4 * 16 + b / 16
  }

  function Sextet2(b: int, c: int): Sextet
    requires 0 <= b < 256 && 0 <= c < 256
  {
    b % 16 * 4 + c / 64
  }

  function Sextet3(c: int): Sextet
    requires 0 <= c < 256
  {
    c % 64
  }

  /** The three bytes of four sextets. */
  function Byte0(a: int, b: int): byte
    requires 0 <= a < 64 && 0 <= b < 64
  {
    a * 4 + b / 16
  }

  function Byte1(b: int, c: int): byte
    requires 0 <= b < 64 && 0 <= c < 64
  {
    b % 16 * 16 + c / 4
  }

  function Byte2(c: int, d: int): byte
    requires 0 <= c < 64 && 0 <= d < 64
  {
    c % 4 * 64 + d
  }

  /** The sextets that carry one group of up to three bytes. */
  function Group(x: Block): (q: seq<Sextet>)
    requires 1 <= |x| <= 3
    ensures |q| == |x| + 1
  {
    if |x| == 1 then [Sextet0(x[0]), Sextet1(x[0], 0)]
    else if |x| == 2 then [Sextet0(x[0]), Sextet1(x[0], x[1]), Sextet2(x[1], 0)]
    else [Sextet0(x[0]), Sextet1(x[0], x[1]), Sextet2(x[1], x[2]), Sextet3(x[2])]
  }

  /** The bytes wholly contained in a group of two to four sextets. */
  function Ungroup(q: seq<Sextet>): (x: Block)
    requires 2 <= |q| <= 4
    ensures |x| == |q| - 1
  {
    if |q| == 2 then [Byte0(q[0], q[1])]
    else if |q| == 3 then [Byte0(q[0], q[1]), Byte1(q[1], q[2])]
    else [Byte0(q[0], q[1]), Byte1(q[1], q[2]), Byte2(q[2], q[3])]
  }

  function ToSextets(x: Block): seq<Sextet> {
    if x == [] then [] else if |x| <= 3 then Group(x) else Group(x[..3]) + ToSextets(x[3..])
  }

  function ToBytes(q: seq<Sextet>): Block {
    if |q| < 2 then [] else if |q| <= 4 then Ungroup(q) else Ungroup(q[..4]) + ToBytes(q[4..])
  }

  function PadCount(n: nat): nat { if n % 3 == 0 then 0 else 3 - n % 3 }

  function Pads(n: nat): (p: Block)
    ensures |p| == n && forall i :: 0 <= i < n ==> p[i] == PAD
  {
    seq(n, _ => PAD)
  }

  function Chars(q: seq<Sextet>): (t: Block)
    ensures |t| == |q| && forall i :: 0 <= i < |q| ==> t[i] == ENCODING_TABLE[q[i]]
  {
    seq(|q|, i requires 0 <= i < |q| => ENCODING_TABLE[q[i]])
  }

  /** The text of section 4 of RFC 4648. */
  function EncodedText(x: Block): Block { Chars(ToSextets(x)) + Pads(PadCount(|x|)) }

  // ---------- what base64_decode computes ----------

  /** A decoding table after its 64 entries were filled in; the others hold anything. */
  ghost predicate Built(table: seq<int>) {
    |table| == 256 && forall i: Sextet :: table[ENCODING_TABLE[i]] == i
  }

  function Lookup(table: seq<int>, c: byte): nat
    requires |table| == 256
  {
    if c == PAD then 0 else table[c] % 0x1_0000_0000
  }

  function Triple(table: seq<int>, t: Block): nat
    requires |table| == 256 && |t| == 4
  {
    (Lookup(table, t[0]) * 0x40000 + Lookup(table, t[1]) * 0x1000
     + Lookup(table, t[2]) * 0x40 + Lookup(table, t[3])) % 0x1_0000_0000
  }

  function TripleBytes(v: nat): (b: Block)
    ensures |b| == 3
  {
    [v / 0x10000 % 0x100, v / 0x100 % 0x100, v % 0x100]
  }

  function Triples(table: seq<int>, t: Block): (b: Block)
    requires |table| == 256 && |t| % 4 == 0
    ensures |b| == |t| / 4 * 3
  {
    if t == [] then [] else TripleBytes(Triple(table, t[..4])) + Triples(table, t[4..])
  }

  function OutputLength(t: Block): nat
    requires |t| > 0 && |t| % 4 == 0
  {
    |t| / 4 * 3 - (if t[|t| - 1] == PAD then 1 else 0) - (if t[|t| - 2] == PAD then 1 else 0)
  }

  /** None is the NULL returned for a length that is not a multiple of four. */
  function TableDecoded(table: seq<int>, t: Block): Option<Block>
    requires |table| == 256 && |t| > 0
  {
    if |t| % 4 != 0 then None else Some(Triples(table, t)[..OutputLength(t)])
  }

  // ---------- what rvDecodeB64 computes ----------

  /** Where the alphabet characters at the start of a text end. */
  function Body(t: Block): (k: nat)
    ensures k <= |t|
    ensures forall i :: 0 <= i < k ==> InAlphabet(t[i])
    ensures k < |t| ==> !InAlphabet(t[k])
  {
    if t == [] || !InAlphabet(t[0]) then 0 else 1 + Body(t[1..])
  }

  function Values(t: Block): (q: seq<Sextet>)
    requires forall i :: 0 <= i < |t| ==> InAlphabet(t[i])
    ensures |q| == |t| && forall i :: 0 <= i < |t| ==> q[i] == Value(t[i])
  {
    seq(|t|, i requires 0 <= i < |t| => Value(t[i]))
  }

  function BodyBytes(t: Block): Block { ToBytes(Values(t[..Body(t)])) }

  /** The texts the code can take: bytes under 128, and no decoded group of 0 or 1 characters. */
  predicate Decodable(t: Block) {
    && (forall i :: 0 <= i < |t| ==> t[i] < 128)
    && var k := Body(t);
       if k == |t| then k % 4 != 1 else t[k] == PAD ==> k % 4 >= 2
  }

  /** None is the -1 for an invalid character or too small a buffer. */
  function RvDecoded(t: Block, capacity: int): Option<Block> {
    var k := Body(t);
    if t == [] then Some([])
    else if (k < |t| && t[k] != PAD) || capacity < |BodyBytes(t)| then None
    else Some(BodyBytes(t))
  }
}
