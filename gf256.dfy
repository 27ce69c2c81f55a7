/** Arithmetic in GF(2^8), the field of FIPS 197 section 4.2 (reduction polynomial
  * x^8 + x^4 + x^3 + x + 1), as crates/shamir/src/gf256.rs implements it: addition is XOR;
  * multiplication, inverse and division go through the logarithm and exponential tables of
  * the module GF256Tables.
  *
  * The table product is tied to an independent definition: the exponential table holds the
  * successive powers of the generator 0x03 (`ExpIsPower`), where "times 0x03" is computed without
  * the tables as b XOR xtime(b) (FIPS 197 section 4.2.1). So multiplying b by a nonzero a is
  * applying "times 0x03" Log(a) times to b (`MulAsPow`). Since "times 0x03" distributes over XOR,
  * so does the table product, and the remaining field laws follow. */
module GF256 {
  import opened GF256Tables

  /** An element of the field, stored as its byte. */
  datatype GF256 = GF256(value: bv8)

  const ZERO: GF256 := GF256(0)
  const ONE: GF256 := GF256(1)

  /** Addition is the XOR of the two bytes. */
  function Add(a: GF256, b: GF256): GF256 {
    GF256(a.value ^ b.value)
  }

  /** Subtraction is addition. */
  function Sub(a: GF256, b: GF256): GF256 {
    Add(a, b)
  }

  /** The logarithm-table entry of a nonzero element, as `mul` and `inverse` read it: an exponent
    * below 255 to which 0x03 must be raised to give the element back (`LogIsPower`). */
  function Log(a: GF256): (e: nat)
    requires a != ZERO
    ensures e < 255
  {
    LogInverse(a.value);
    LookupIsIndex(GF256_LOG, a.value as int, 0);
    Lookup(GF256_LOG, a.value as int, 0) as int
  }

  /** Multiplication through the tables: zero if either factor is zero, otherwise 0x03 raised to
    * the sum of the two logarithms, which is below 509 so the lookup in the doubled exponential
    * table stays in bounds. There are no zero divisors. */
  function Mul(a: GF256, b: GF256): (r: GF256)
    ensures r == ZERO <==> a == ZERO || b == ZERO
  {
    if a == ZERO || b == ZERO then
      ZERO
    else
      var x := Log(a);
      var y := Log(b);
      ExpNonZero(x + y);
      LookupIsIndex(GF256_EXP, x + y, 0);
      GF256(Lookup(GF256_EXP, x + y, 0))
  }

  /** The multiplicative inverse: 0x03 raised to 255 minus the logarithm. The source panics on
    * zero, so zero is excluded. */
  function Inverse(a: GF256): (r: GF256)
    requires a != ZERO
    ensures r != ZERO && Mul(a, r) == ONE
  {
    var k := 255 - Log(a);
    ExpIsPower(k);
    LookupIsIndex(GF256_EXP, k, 0);
    MulAsPow(a, GF256(GF256_EXP[k]));
    PowCycle(Log(a), k);
    GF256(Lookup(GF256_EXP, k, 0))
  }

  /** Division is multiplication by the inverse of the divisor; the source panics on a zero
    * divisor. Multiplying the quotient back by the divisor gives the dividend. */
  function Div(a: GF256, b: GF256): (r: GF256)
    requires b != ZERO
    ensures Mul(r, b) == a
  {
    var ib := Inverse(b);
    MulAssoc(a, ib, b);
    MulComm(ib, b);
    MulOne(a);
    Mul(a, ib)
  }

  /** Entry k of a table, reached by stepping from position i; it is `table[k]` (`LookupIsIndex`).
    * The operations read the constant tables through it, so that a proof about one of them meets
    * the tables only at the entries it names. */
  function Lookup<T>(table: seq<T>, k: nat, i: nat): T
    requires i <= k < |table|
    decreases k - i
  {
    if i == k then table[i] else Lookup(table, k, i + 1)
  }

  lemma {:induction false} LookupIsIndex<T>(table: seq<T>, k: nat, i: nat)
    requires i <= k < |table|
    ensures Lookup(table, k, i) == table[k]
    decreases k - i
  {
    if i < k {
      LookupIsIndex(table, k, i + 1);
    }
  }

  /** `Sum`: the fold of `+` from ZERO over the elements in order. */
  function Sum(s: seq<GF256>): GF256 {
    if |s| == 0 then ZERO else Add(Sum(s[..|s| - 1]), s[|s| - 1])
  }

  /** `Product`: the fold of `*` from ONE over the elements in order. It is zero exactly when one
    * of the factors is. */
  function Product(s: seq<GF256>): (r: GF256)
    ensures r == ZERO <==> ZERO in s
  {
    if |s| == 0 then ONE
    else
      InPrefixOrLast(s, ZERO);
      Mul(Product(s[..|s| - 1]), s[|s| - 1])
  }

  lemma InPrefixOrLast<T>(s: seq<T>, x: T)
    requires |s| > 0
    ensures x in s <==> x in s[..|s| - 1] || x == s[|s| - 1]
  {
    assert s == s[..|s| - 1] + [s[|s| - 1]];
  }

  // ---------------------------------------------------------------------------------------
  // The reference product: repeated multiplication by the generator

  /** Multiplication by x, the byte 0x02: `xtime` of FIPS 197 section 4.2.1. */
  function Double(a: GF256): GF256 {
    GF256(XTime(a.value))
  }

  /** Multiplication by the generator 0x03 = x + 1, computed without the tables. */
  function Triple(a: GF256): GF256 {
    Add(a, Double(a))
  }

  /** `a` multiplied k times by the generator 0x03, computed without the tables. */
  function TriplePow(a: GF256, k: nat): GF256
    decreases k
  {
    if k == 0 then a else Triple(TriplePow(a, k - 1))
  }

  lemma DoubleAdd(a: GF256, b: GF256)
    ensures Double(Add(a, b)) == Add(Double(a), Double(b))
  {
  }

  lemma AddShuffle(a: GF256, b: GF256, c: GF256, d: GF256)
    ensures Add(Add(a, b), Add(c, d)) == Add(Add(a, c), Add(b, d))
  {
  }

  /** `Triple` is the table module's multiplication by 0x03. */
  lemma TripleIsTimes3(v: bv8)
    ensures Triple(GF256(v)) == GF256(Times3(v))
  {
  }

  /** Multiplication by the generator distributes over addition. */
  lemma TripleAdd(a: GF256, b: GF256)
    ensures Triple(Add(a, b)) == Add(Triple(a), Triple(b))
  {
    DoubleAdd(a, b);
    AddShuffle(a, b, Double(a), Double(b));
  }

  /** Multiplication by the generator sends nonzero elements to nonzero elements. */
  lemma TripleNonZero(a: GF256)
    requires a != ZERO
    ensures Triple(a) != ZERO
  {
  }

  lemma {:induction false} PowAdd(a: GF256, b: GF256, k: nat)
    ensures TriplePow(Add(a, b), k) == Add(TriplePow(a, k), TriplePow(b, k))
    decreases k
  {
    if k > 0 {
      PowAdd(a, b, k - 1);
      TripleAdd(TriplePow(a, k - 1), TriplePow(b, k - 1));
    }
  }

  lemma {:induction false} PowZero(k: nat)
    ensures TriplePow(ZERO, k) == ZERO
    decreases k
  {
    if k > 0 {
      PowZero(k - 1);
    }
  }

  lemma {:induction false} PowNonZero(a: GF256, k: nat)
    requires a != ZERO
    ensures TriplePow(a, k) != ZERO
    decreases k
  {
    if k > 0 {
      PowNonZero(a, k - 1);
      TripleNonZero(TriplePow(a, k - 1));
    }
  }

  lemma {:induction false} PowPow(a: GF256, i: nat, j: nat)
    ensures TriplePow(TriplePow(a, i), j) == TriplePow(a, i + j)
    decreases j
  {
    if j > 0 {
      PowPow(a, i, j - 1);
    }
  }

  /** Two runs of "times 0x03" can be taken in either order. */
  lemma PowSwap(a: GF256, i: nat, j: nat)
    ensures TriplePow(TriplePow(a, i), j) == TriplePow(TriplePow(a, j), i)
  {
    PowPow(a, i, j);
    PowPow(a, j, i);
  }

  // ---------------------------------------------------------------------------------------
  // The tables hold powers of the generator

  /** Consecutive entries of a table differ by a factor 0x03. */
  predicate IsStep(exp: seq<bv8>, i: nat)
    requires i + 1 < |exp|
  {
    exp[i + 1] == Times3(exp[i])
  }

  /** A table that starts at one and steps by 0x03 holds the powers of 0x03. */
  lemma {:induction false} PowersOfGenerator(exp: seq<bv8>, i: nat)
    requires i < |exp| && exp[0] == 1
    requires forall j | 0 <= j < |exp| - 1 :: IsStep(exp, j)
    ensures GF256(exp[i]) == TriplePow(ONE, i)
    decreases i
  {
    if i > 0 {
      PowersOfGenerator(exp, i - 1);
      assert IsStep(exp, i - 1);
      TripleIsTimes3(exp[i - 1]);
    }
  }

  /** In a table that steps by 0x03, entry x + y is entry y multiplied x times by 0x03. */
  lemma {:induction false} ShiftedPowers(exp: seq<bv8>, x: nat, y: nat)
    requires x + y < |exp|
    requires forall j | 0 <= j < |exp| - 1 :: IsStep(exp, j)
    ensures GF256(exp[x + y]) == TriplePow(GF256(exp[y]), x)
    decreases x
  {
    if x > 0 {
      ShiftedPowers(exp, x - 1, y);
      assert IsStep(exp, x - 1 + y);
      TripleIsTimes3(exp[x - 1 + y]);
    }
  }

  /** Entry x + y of the exponential table is entry y multiplied x times by 0x03. */
  lemma ExpShift(x: nat, y: nat)
    requires x + y < 510
    ensures GF256(GF256_EXP[x + y]) == TriplePow(GF256(GF256_EXP[y]), x)
  {
    forall j | 0 <= j < |GF256_EXP| - 1
      ensures IsStep(GF256_EXP, j)
    {
      ExpStep(j);
    }
    ShiftedPowers(GF256_EXP, x, y);
  }

  /** Entry i of the exponential table is 0x03 to the power i. */
  lemma ExpIsPower(i: nat)
    requires i < 510
    ensures GF256(GF256_EXP[i]) == TriplePow(ONE, i)
  {
    ExpZero();
    forall j | 0 <= j < |GF256_EXP| - 1
      ensures IsStep(GF256_EXP, j)
    {
      ExpStep(j);
    }
    PowersOfGenerator(GF256_EXP, i);
  }

  /** No entry of the exponential table is zero. */
  lemma ExpNonZero(k: nat)
    requires k < 510
    ensures GF256_EXP[k] != 0
  {
    ExpIsPower(k);
    PowNonZero(ONE, k);
  }

  /** The generator raised to 255 is one: the exponential table wraps around after 255 entries. */
  lemma GeneratorOrder()
    ensures TriplePow(ONE, 255) == ONE
  {
    ExpIsPower(255);
    ExpPeriodic(0);
    ExpZero();
  }

  /** 0x03^k times 0x03^l is one when k + l is 255. */
  lemma PowCycle(l: nat, k: nat)
    requires l + k == 255
    ensures TriplePow(TriplePow(ONE, k), l) == ONE
  {
    PowPow(ONE, k, l);
    GeneratorOrder();
  }

  /** The logarithm of a is its entry in the logarithm table. */
  lemma LogEntry(a: GF256)
    requires a != ZERO
    ensures Log(a) == GF256_LOG[a.value as int] as int
  {
    LookupIsIndex(GF256_LOG, a.value as int, 0);
  }

  /** The exponential table at the logarithm of a gives a back. */
  lemma ExpOfLog(a: GF256)
    requires a != ZERO
    ensures GF256(GF256_EXP[Log(a)]) == a
  {
    LogEntry(a);
    LogInverse(a.value);
  }

  /** 0x03 raised to the logarithm of a is a. */
  lemma LogIsPower(a: GF256)
    requires a != ZERO
    ensures TriplePow(ONE, Log(a)) == a
  {
    ExpOfLog(a);
    ExpIsPower(Log(a));
  }

  /** The product of two nonzero elements is the lookup at the sum of their logarithms. */
  lemma MulLookup(a: GF256, b: GF256)
    requires a != ZERO && b != ZERO
    ensures Mul(a, b) == GF256(Lookup(GF256_EXP, Log(a) + Log(b), 0))
  {
    var x, y := Log(a), Log(b);
    assert Mul(a, b) == GF256(Lookup(GF256_EXP, x + y, 0));
  }

  /** The product of two nonzero elements is the exponential-table entry at the sum of their
    * logarithms. */
  lemma MulOfLogs(a: GF256, b: GF256)
    requires a != ZERO && b != ZERO
    ensures Mul(a, b) == GF256(GF256_EXP[Log(a) + Log(b)])
  {
    MulLookup(a, b);
    LookupIsIndex(GF256_EXP, Log(a) + Log(b), 0);
  }

  /** The product of two nonzero elements is 0x03 raised to the sum of their logarithms. */
  lemma MulIsPower(a: GF256, b: GF256)
    requires a != ZERO && b != ZERO
    ensures Mul(a, b) == TriplePow(ONE, Log(a) + Log(b))
  {
    MulOfLogs(a, b);
    ExpIsPower(Log(a) + Log(b));
  }

  /** Multiplying b by a nonzero a is multiplying b Log(a) times by the generator. */
  lemma MulAsPow(a: GF256, b: GF256)
    requires a != ZERO
    ensures Mul(a, b) == TriplePow(b, Log(a))
  {
    if b == ZERO {
      PowZero(Log(a));
    } else {
      MulOfLogs(a, b);
      ExpShift(Log(a), Log(b));
      ExpOfLog(b);
    }
  }

  // ---------------------------------------------------------------------------------------
  // Addition

  lemma AddLaws(a: GF256, b: GF256, c: GF256)
    ensures Add(a, b) == Add(b, a)
    ensures Add(Add(a, b), c) == Add(a, Add(b, c))
    ensures Add(a, ZERO) == a && Add(ZERO, a) == a
    ensures Add(a, a) == ZERO
  {
    AddComm(a, b);
    AddAssoc(a, b, c);
    AddIdentity(a);
  }

  lemma AddComm(a: GF256, b: GF256)
    ensures Add(a, b) == Add(b, a)
  {
  }

  lemma AddAssoc(a: GF256, b: GF256, c: GF256)
    ensures Add(Add(a, b), c) == Add(a, Add(b, c))
  {
  }

  lemma AddIdentity(a: GF256)
    ensures Add(a, ZERO) == a && Add(ZERO, a) == a && Add(a, a) == ZERO
  {
  }

  /** Subtraction undoes addition. */
  lemma SubUndoesAdd(a: GF256, b: GF256)
    ensures Sub(Add(a, b), b) == a && Add(Sub(a, b), b) == a
  {
  }

  lemma {:induction false} SumAppend(s: seq<GF256>, t: seq<GF256>)
    ensures Sum(s + t) == Add(Sum(s), Sum(t))
    decreases |t|
  {
    if |t| == 0 {
      assert s + t == s;
    } else {
      assert (s + t)[..|s + t| - 1] == s + t[..|t| - 1];
      SumAppend(s, t[..|t| - 1]);
      AddLaws(Sum(s), Sum(t[..|t| - 1]), t[|t| - 1]);
    }
  }

  // ---------------------------------------------------------------------------------------
  // Multiplication

  lemma MulZero(a: GF256)
    ensures Mul(a, ZERO) == ZERO && Mul(ZERO, a) == ZERO
  {
  }

  lemma LogOne()
    ensures Log(ONE) == 0
  {
    LogRowAt0(1);
  }

  lemma MulOne(a: GF256)
    ensures Mul(a, ONE) == a && Mul(ONE, a) == a
  {
    LogOne();
    MulAsPow(ONE, a);
    MulComm(a, ONE);
  }

  lemma MulComm(a: GF256, b: GF256)
    ensures Mul(a, b) == Mul(b, a)
  {
    if a != ZERO && b != ZERO {
      MulAsPow(a, b);
      MulAsPow(b, a);
      LogIsPower(a);
      LogIsPower(b);
      PowSwap(ONE, Log(a), Log(b));
    }
  }

  lemma MulAssoc(a: GF256, b: GF256, c: GF256)
    ensures Mul(Mul(a, b), c) == Mul(a, Mul(b, c))
  {
    if a != ZERO && b != ZERO && c != ZERO {
      var la, lb, lc := Log(a), Log(b), Log(c);
      MulComm(Mul(a, b), c);
      MulAsPow(c, Mul(a, b));
      MulAsPow(a, b);
      PowPow(b, la, lc);
      MulComm(b, c);
      MulAsPow(a, Mul(c, b));
      MulAsPow(c, b);
      PowPow(b, lc, la);
    }
  }

  lemma MulDistributes(a: GF256, b: GF256, c: GF256)
    ensures Mul(a, Add(b, c)) == Add(Mul(a, b), Mul(a, c))
    ensures Mul(Add(a, b), c) == Add(Mul(a, c), Mul(b, c))
  {
    LeftDistributes(a, b, c);
    LeftDistributes(c, a, b);
    MulComm(Add(a, b), c);
    MulComm(a, c);
    MulComm(b, c);
  }

  lemma LeftDistributes(a: GF256, b: GF256, c: GF256)
    ensures Mul(a, Add(b, c)) == Add(Mul(a, b), Mul(a, c))
  {
    if a != ZERO {
      MulAsPow(a, Add(b, c));
      MulAsPow(a, b);
      MulAsPow(a, c);
      PowAdd(b, c, Log(a));
    }
  }

  /** `a` multiplied by itself n times with the table product, starting from one. */
  function Power(a: GF256, n: nat): GF256
    decreases n
  {
    if n == 0 then ONE else Mul(Power(a, n - 1), a)
  }

  /** n times multiplied by the generator l times, computed without the tables. */
  function RepeatPow(l: nat, n: nat): GF256
    decreases n
  {
    if n == 0 then ONE else TriplePow(RepeatPow(l, n - 1), l)
  }

  /** The n-th power of a nonzero a is the generator applied n times Log(a) times. */
  lemma {:induction false} PowerAsRepeat(a: GF256, n: nat)
    requires a != ZERO
    ensures Power(a, n) == RepeatPow(Log(a), n)
    decreases n
  {
    if n > 0 {
      PowerAsRepeat(a, n - 1);
      MulComm(Power(a, n - 1), a);
      MulAsPow(a, Power(a, n - 1));
    }
  }

  /** Applying the generator l times, n times over, is applying it n * l times. */
  lemma {:induction false} RepeatIsPow(l: nat, n: nat)
    ensures RepeatPow(l, n) == TriplePow(ONE, n * l)
    decreases n
  {
    if n > 0 {
      RepeatIsPow(l, n - 1);
      PowPow(ONE, (n - 1) * l, l);
      assert (n - 1) * l + l == n * l;
    }
  }

  /** The generator raised to any multiple of 255 is one. */
  lemma {:induction false} GeneratorCycles(m: nat)
    ensures TriplePow(ONE, 255 * m) == ONE
    decreases m
  {
    if m > 0 {
      GeneratorCycles(m - 1);
      GeneratorOrder();
      PowPow(ONE, 255 * (m - 1), 255);
      assert 255 * (m - 1) + 255 == 255 * m;
    }
  }

  /** Every nonzero element raised to 255 is one, so its order divides 255, and raised to 256
    * it is itself. */
  lemma NonZeroOrder(a: GF256)
    requires a != ZERO
    ensures Power(a, 255) == ONE && Power(a, 256) == a
  {
    PowerAsRepeat(a, 255);
    RepeatIsPow(Log(a), 255);
    GeneratorCycles(Log(a));
    assert 255 * Log(a) == Log(a) * 255;
    MulOne(a);
  }

  // ---------------------------------------------------------------------------------------
  // Inverse and division

  /** Two elements that both invert a are equal. */
  lemma InverseUnique(a: GF256, x: GF256, y: GF256)
    requires Mul(a, x) == ONE && Mul(a, y) == ONE
    ensures x == y
  {
    MulAssoc(x, a, y);
    MulComm(x, a);
    MulOne(x);
    MulOne(y);
  }

  /** The inverse is read from the exponential table at 255 minus the logarithm. */
  lemma InverseOfLog(a: GF256)
    requires a != ZERO
    ensures Inverse(a) == GF256(GF256_EXP[255 - Log(a)])
  {
    var k := 255 - Log(a);
    assert Inverse(a) == GF256(Lookup(GF256_EXP, k, 0));
    LookupIsIndex(GF256_EXP, k, 0);
  }

  lemma InverseInvolutive(a: GF256)
    requires a != ZERO
    ensures Inverse(Inverse(a)) == a
  {
    var ia := Inverse(a);
    MulComm(a, ia);
    InverseUnique(ia, Inverse(ia), a);
  }

  lemma InverseInjective(a: GF256, b: GF256)
    requires a != ZERO && b != ZERO
    ensures Inverse(a) == Inverse(b) ==> a == b
  {
    InverseInvolutive(a);
    InverseInvolutive(b);
  }

  lemma DivSelf(b: GF256)
    requires b != ZERO
    ensures Div(b, b) == ONE
  {
    MulComm(b, Inverse(b));
  }

  lemma DivByOne(a: GF256)
    ensures Div(a, ONE) == a
  {
    InverseOfOne();
    MulOne(a);
  }

  // ---------------------------------------------------------------------------------------
  // Examples from the source's own tests

  lemma AddExample()
    ensures Add(GF256(3), GF256(5)) == GF256(6)
  {
  }

  lemma LogThree()
    ensures Log(GF256(3)) == 1
  {
    LogRowAt0(3);
  }

  lemma LogTwo()
    ensures Log(GF256(2)) == 25
  {
    LogRowAt0(2);
  }

  lemma MulExamples()
    ensures Mul(GF256(3), GF256(5)) == GF256(15)
    ensures Mul(GF256(2), GF256(3)) == GF256(6)
  {
    LogThree();
    MulAsPow(GF256(3), GF256(5));
    MulAsPow(GF256(3), GF256(2));
    MulComm(GF256(2), GF256(3));
  }

  /** The table product of two nonzero elements whose logarithms are known. */
  lemma MulByLogs(a: GF256, b: GF256, x: nat, y: nat)
    requires a != ZERO && b != ZERO && Log(a) == x && Log(b) == y
    ensures x + y < 510 && Mul(a, b) == GF256(GF256_EXP[x + y])
  {
    MulOfLogs(a, b);
  }

  lemma SquareExamples()
    ensures Mul(GF256(2), GF256(2)) == GF256(4)
    ensures Mul(GF256(4), GF256(4)) == GF256(16)
  {
    LogTwo();
    LogRowAt0(4);
    MulByLogs(GF256(2), GF256(2), 25, 25);
    MulByLogs(GF256(4), GF256(4), 50, 50);
    ExpRowAt3(50);
    AppendLeft(EXP_CYCLE, EXP_CYCLE, 50);
    ExpRowAt6(100);
    AppendLeft(EXP_CYCLE, EXP_CYCLE, 100);
  }

  lemma InverseOfOne()
    ensures Inverse(ONE) == ONE
  {
    MulOne(ONE);
    InverseUnique(ONE, Inverse(ONE), ONE);
  }

  lemma InverseOfTwo()
    ensures Inverse(GF256(2)) == GF256(141)
  {
    LogTwo();
    InverseOfLog(GF256(2));
    ExpRowAt14(230);
    AppendLeft(EXP_CYCLE, EXP_CYCLE, 230);
    assert EXP_ROW_14[6] == 141;
  }

  lemma InverseOfThree()
    ensures Inverse(GF256(3)) == GF256(246)
  {
    LogThree();
    InverseOfLog(GF256(3));
    ExpRowAt15(254);
    AppendLeft(EXP_CYCLE, EXP_CYCLE, 254);
    assert EXP_ROW_15[14] == 246;
  }
}
