/** Bignums: stripping leading zero words, and the predicates that rely on it. */
module BigNum {

  /** One more than BN_MASK2, words being 64 bits. */
  const BASE := 0x1_0000_0000_0000_0000
  type Word = x: int | 0 <= x < 0x1_0000_0000_0000_0000

  /** The number written by a sequence of words, least significant first. */
  function Value(d: seq<Word>): nat {
    if d == [] then 0 else (d[0] as int) + BASE * Value(d[1..])
  }

  /** No leading zero word. */
  predicate Normalised(d: seq<Word>) { d == [] || d[|d| - 1] != 0 }

  lemma {:induction false} ZeroOnTop(d: seq<Word>)
    requires d != [] && d[|d| - 1] == 0
    ensures Value(d[..|d| - 1]) == Value(d)
  {
    if |d| > 1 {
      ZeroOnTop(d[1..]);
      assert d[1..][..|d| - 2] == d[..|d| - 1][1..];
    } else {
      assert d[1..] == [] && d[..0] == [];
    }
  }

  lemma {:induction false} ValueZeroIff(d: seq<Word>)
    ensures Value(d) == 0 <==> forall i :: 0 <= i < |d| ==> d[i] == 0
  {
    if d != [] {
      ValueZeroIff(d[1..]);
      if forall i :: 0 <= i < |d| ==> d[i] == 0 {
        assert forall i :: 0 <= i < |d[1..]| ==> d[1..][i] == d[i + 1];
      }
      if Value(d) == 0 {
        forall i | 0 <= i < |d| ensures d[i] == 0 {
          if i > 0 { assert d[i] == d[1..][i - 1]; }
        }
      }
    }
  }

  lemma NormalisedPositive(d: seq<Word>)
    requires Normalised(d) && d != []
    ensures Value(d) > 0
  {
    ValueZeroIff(d);
  }

  /** A value has one normalised representation. */
  lemma {:induction false} NormalisedUnique(d: seq<Word>, e: seq<Word>)
    requires Normalised(d) && Normalised(e) && Value(d) == Value(e)
    ensures d == e
  {
    if d == [] {
      if e != [] { NormalisedPositive(e); }
    } else if e == [] {
      NormalisedPositive(d);
    } else {
      assert Value(d) % BASE == d[0] as int && Value(e) % BASE == e[0] as int;
      NormalisedUnique(d[1..], e[1..]);
      assert d == [d[0]] + d[1..] && e == [e[0]] + e[1..];
    }
  }

  class BigNumber {
    var d: array<Word>
    var top: nat
    var neg: bool

    ghost predicate Valid()
      reads this
    {
      top <= d.Length
    }

    /** The words in use. */
    ghost function Words(): seq<Word>
      reads this, d
      requires Valid()
    {
      d[..top]
    }

    ghost function Signed(): int
      reads this, d
      requires Valid()
    {
      if neg then 0 - Value(Words()) else Value(Words())
    }

    constructor (d: array<Word>, top: nat, neg: bool)
      requires top <= d.Length
      ensures Valid() && this.d == d && this.top == top && this.neg == neg
    {
      this.d, this.top, this.neg := d, top, neg;
    }

    /** bn_correct_top: strips leading zero words in place. */
    method CorrectTop()
      requires Valid()
      modifies this`top
      ensures Valid() && Normalised(Words()) && Signed() == old(Signed())
      ensures top <= old(top) && forall i :: top <= i < old(top) ==> d[i] == 0
    {
      if top > 0 {
        var ftl := top - 1;
        while top > 0
          invariant 0 <= top <= old(top) && ftl == top - 1
          invariant Value(d[..top]) == Value(old(d[..top]))
          invariant forall i :: top <= i < old(top) ==> d[i] == 0
        {
          var w := d[ftl];
          ftl := ftl - 1;
          if w != 0 { break; }
          ZeroOnTop(d[..top]);
          assert d[..top][..top - 1] == d[..top - 1];
          top := top - 1;
        }
      }
    }

    predicate AbsIsWord(w: Word)
      reads this, d
      requires Valid()
    {
      (top == 1 && d[0] == w) || (w == 0 && top == 0)
    }

    predicate IsZero()
      reads this
    {
      top == 0
    }

    predicate IsWord(w: Word)
      reads this, d
      requires Valid()
    {
      AbsIsWord(w) && (w == 0 || !neg)
    }

    predicate IsOdd()
      reads this, d
      requires Valid()
    {
      top > 0 && d[0] % 2 == 1
    }

    /** On a normalised number the predicates decide what their names say about its value; the
        sign of a zero does not matter. */
    lemma PredicatesDecide(w: Word)
      requires Valid() && Normalised(Words())
      ensures AbsIsWord(w) <==> Value(Words()) == w as int
      ensures IsWord(w) <==> Signed() == w as int
      ensures IsZero() <==> Signed() == 0
    {
      OneWord(Words(), w);
      if top > 0 { NormalisedPositive(Words()); }
    }

    /** Parity needs no normalisation. */
    lemma OddDecides()
      requires Valid()
      ensures IsOdd() <==> Signed() % 2 != 0
    {
      if top > 0 {
        assert Words()[0] == d[0];
        assert Value(Words()) == (d[0] as int) + 2 * (0x8000_0000_0000_0000 * Value(Words()[1..]));
      }
    }

    /** Without normalisation BN_is_word goes wrong for some word exactly when the number has a
        leading zero word above its lowest and its value is a word after all. */
    lemma IsWordExact()
      requires Valid()
      ensures (forall w: Word :: IsWord(w) <==> Signed() == w as int)
         <==> (top <= 1 || d[top - 1] != 0 || Signed() < 0 || Signed() >= BASE)
    {
      if Normalised(Words()) {
        forall w: Word ensures IsWord(w) <==> Signed() == w as int { PredicatesDecide(w); }
      } else if top == 1 {
        assert Words()[1..] == [];
        ValueZeroIff([]);
      } else if 0 <= Signed() < BASE {
        var w: Word := Signed();
        assert !IsWord(w);
      }
    }

    /** Without normalisation BN_is_zero is right exactly when it is normalised or not zero. */
    lemma IsZeroExact()
      requires Valid()
      ensures (IsZero() <==> Signed() == 0) <==> (top == 0 || exists i :: 0 <= i < top && d[i] != 0)
    {
      ValueZeroIff(Words());
      assert forall i :: 0 <= i < top ==> Words()[i] == d[i];
    }
  }

  lemma OneWord(d: seq<Word>, w: Word)
    requires Normalised(d)
    ensures Value(d) == w as int <==> (d == [w] && w != 0) || (d == [] && w == 0)
  {
    if |d| == 1 {
      assert d[1..] == [];
    } else if |d| > 1 {
      NormalisedPositive(d[1..]);
    }
  }
}
