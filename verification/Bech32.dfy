/** Bech32 strings (the "Bech32" section of BIP 173): a checksum that is the remainder of a
    polynomial over GF(32), computed on coefficients packed into a 32-bit word, and the
    strings that carry it.  Characters and symbols are bytes. */
module Bech32 {

  type Byte = bv8
  type Word = bv32

  // ---------------------------------------------------------------------------------
  // Arithmetic in GF(32) = GF(2)[a] / (a^5 + a^3 + 1)
  // ---------------------------------------------------------------------------------

  /** An element, as the five bits of its number; addition is exclusive or. */
  datatype Gf32 = Gf(b4: bool, b3: bool, b2: bool, b1: bool, b0: bool)

  const G0 := Gf(false, false, false, false, false)
  const G1 := Gf(false, false, false, false, true)

  function Add(x: Gf32, y: Gf32): Gf32 {
    Gf(x.b4 != y.b4, x.b3 != y.b3, x.b2 != y.b2, x.b1 != y.b1, x.b0 != y.b0)
  }

  /** Multiplication by a. */
  function Double(x: Gf32): Gf32 {
    Gf(x.b3, x.b2 != x.b4, x.b1, x.b0, x.b4)
  }

  function Pick(b: bool, k: Gf32): Gf32 { if b then k else G0 }

  function Mul(k: Gf32, x: Gf32): Gf32 {
    var k2 := Double(k);
    var k4 := Double(k2);
    var k8 := Double(k4);
    Add(Add(Add(Add(Pick(x.b0, k), Pick(x.b1, k2)), Pick(x.b2, k4)), Pick(x.b3, k8)), Pick(x.b4, Double(k8)))
  }

  lemma Regroup(a: Gf32, b: Gf32, c: Gf32, d: Gf32)
    ensures Add(Add(a, b), Add(c, d)) == Add(Add(a, c), Add(b, d))
  {}

  lemma AddZero(x: Gf32)
    ensures Add(x, G0) == x == Add(G0, x)
  {}

  lemma PickLinear(x: bool, y: bool, k: Gf32)
    ensures Pick(x != y, k) == Add(Pick(x, k), Pick(y, k))
  {}

  lemma MulZero(k: Gf32)
    ensures Mul(k, G0) == G0
  {}

  lemma MulLinear(k: Gf32, x: Gf32, y: Gf32)
    ensures Mul(k, Add(x, y)) == Add(Mul(k, x), Mul(k, y))
  {
    hide Double, Pick;
    var k2 := Double(k);
    var k4 := Double(k2);
    var k8 := Double(k4);
    var k16 := Double(k8);
    PickLinear(x.b0, y.b0, k);
    PickLinear(x.b1, y.b1, k2);
    PickLinear(x.b2, y.b2, k4);
    PickLinear(x.b3, y.b3, k8);
    PickLinear(x.b4, y.b4, k16);
    var x1, y1 := Add(Pick(x.b0, k), Pick(x.b1, k2)), Add(Pick(y.b0, k), Pick(y.b1, k2));
    var x2, y2 := Add(x1, Pick(x.b2, k4)), Add(y1, Pick(y.b2, k4));
    var x3, y3 := Add(x2, Pick(x.b3, k8)), Add(y2, Pick(y.b3, k8));
    Regroup(Pick(x.b0, k), Pick(y.b0, k), Pick(x.b1, k2), Pick(y.b1, k2));
    Regroup(x1, y1, Pick(x.b2, k4), Pick(y.b2, k4));
    Regroup(x2, y2, Pick(x.b3, k8), Pick(y.b3, k8));
    Regroup(x3, y3, Pick(x.b4, k16), Pick(y.b4, k16));
  }

  // ---------------------------------------------------------------------------------
  // Polynomials of degree at most five, highest coefficient first
  // ---------------------------------------------------------------------------------

  datatype Poly = Poly(c0: Gf32, c1: Gf32, c2: Gf32, c3: Gf32, c4: Gf32, c5: Gf32)

  const ZERO := Poly(G0, G0, G0, G0, G0, G0)
  const ONE := Poly(G0, G0, G0, G0, G0, G1)

  function Plus(p: Poly, q: Poly): Poly {
    Poly(Add(p.c0, q.c0), Add(p.c1, q.c1), Add(p.c2, q.c2), Add(p.c3, q.c3), Add(p.c4, q.c4), Add(p.c5, q.c5))
  }

  /** The elements {18}, {20}, {21}, {22} and {29}. */
  const G18 := Gf(true, false, false, true, false)
  const G20 := Gf(true, false, true, false, false)
  const G21 := Gf(true, false, true, false, true)
  const G22 := Gf(true, false, true, true, false)
  const G29 := Gf(true, true, true, false, true)

  /** (p(x) * x + v) mod g(x), where g(x) is the Bech32 generator
      x^6 + {29}x^5 + {22}x^4 + {20}x^3 + {21}x^2 + {29}x + {18}. */
  function TimesXPlus(p: Poly, v: Gf32): Poly {
    Poly(Add(p.c1, Mul(G29, p.c0)), Add(p.c2, Mul(G22, p.c0)), Add(p.c3, Mul(G20, p.c0)),
         Add(p.c4, Mul(G21, p.c0)), Add(p.c5, Mul(G29, p.c0)), Add(v, Mul(G18, p.c0)))
  }

  lemma TimesXPlusLinear(p: Poly, q: Poly, v: Gf32, w: Gf32)
    ensures TimesXPlus(Plus(p, q), Add(v, w)) == Plus(TimesXPlus(p, v), TimesXPlus(q, w))
  {
    hide Mul, Add;
    var x, y := p.c0, q.c0;
    MulLinear(G29, x, y);
    MulLinear(G22, x, y);
    MulLinear(G20, x, y);
    MulLinear(G21, x, y);
    MulLinear(G18, x, y);
    Regroup(p.c1, q.c1, Mul(G29, x), Mul(G29, y));
    Regroup(p.c2, q.c2, Mul(G22, x), Mul(G22, y));
    Regroup(p.c3, q.c3, Mul(G20, x), Mul(G20, y));
    Regroup(p.c4, q.c4, Mul(G21, x), Mul(G21, y));
    Regroup(p.c5, q.c5, Mul(G29, x), Mul(G29, y));
    Regroup(v, w, Mul(G18, x), Mul(G18, y));
  }

  /** The constant term of g(x) is not zero, so shifting in nothing loses nothing. */
  lemma TimesXInjective(p: Poly)
    requires TimesXPlus(p, G0) == ZERO
    ensures p == ZERO
  {
    assert p.c0 == G0;
  }

  // ---------------------------------------------------------------------------------
  // The packed form
  // ---------------------------------------------------------------------------------

  /** The low five bits of a word. */
  function Low5(w: Word): Gf32 {
    Gf(w & 16 != 0, w & 8 != 0, w & 4 != 0, w & 2 != 0, w & 1 != 0)
  }

  function Group(w: Word, shift: Word): Gf32
    requires shift <= 25
  {
    Low5(w >> shift)
  }

  /** The 5-bit groups of a 30-bit word, high bits first. */
  function Unpack(w: Word): Poly {
    Poly(Group(w, 25), Group(w, 20), Group(w, 15), Group(w, 10), Group(w, 5), Group(w, 0))
  }

  function PickWord(b: bool, k: Word): Word { if b then k else 0 }

  /** The constants {2^n}k(x), one for every bit of c0. */
  function Feedback(c0: Word): Word {
    Xor(Xor(Xor(Xor(PickWord(c0 & 1 != 0, 0x3b6a57b2),
                    PickWord(c0 & 2 != 0, 0x26508e6d)),
                PickWord(c0 & 4 != 0, 0x1ea119fa)),
            PickWord(c0 & 8 != 0, 0x3d4233dd)),
        PickWord(c0 & 16 != 0, 0x2a1462b3))
  }

  function Xor(a: Word, b: Word): Word { a ^ b }
  function Top(c: Word): Word { c >> 25 }
  function ShiftIn(c: Word, v: Word): Word { ((c & 0x1ffffff) << 5) ^ v }

  /** One round of PolyMod's loop. */
  function Step(c: Word, v: Word): Word {
    Xor(ShiftIn(c, v), Feedback(Top(c)))
  }

  lemma StepBound(c: Word, v: Word)
    requires c <= 0x3fffffff && v < 32
    ensures Step(c, v) <= 0x3fffffff
  {}

  lemma UnpackInjective(w: Word, u: Word)
    requires w <= 0x3fffffff && u <= 0x3fffffff && Unpack(w) == Unpack(u)
    ensures w == u
  {}

  lemma Low5Xor(a: Word, b: Word)
    ensures Low5(a ^ b) == Add(Low5(a), Low5(b))
  {}

  lemma GroupXor(a: Word, b: Word, shift: Word)
    requires shift <= 25
    ensures Group(a ^ b, shift) == Add(Group(a, shift), Group(b, shift))
  {
    assert (a ^ b) >> shift == (a >> shift) ^ (b >> shift);
    Low5Xor(a >> shift, b >> shift);
  }

  lemma UnpackXor(a: Word, b: Word)
    ensures Unpack(Xor(a, b)) == Plus(Unpack(a), Unpack(b))
  {
    hide Group, Add;
    GroupXor(a, b, 25);
    GroupXor(a, b, 20);
    GroupXor(a, b, 15);
    GroupXor(a, b, 10);
    GroupXor(a, b, 5);
    GroupXor(a, b, 0);
  }

  lemma UnpackShift(c: Word)
    ensures var p := Unpack(c); Unpack((c & 0x1ffffff) << 5) == Poly(p.c1, p.c2, p.c3, p.c4, p.c5, G0)
    ensures Unpack(c).c0 == Low5(Top(c))
  {}

  lemma UnpackSymbol(v: Word)
    requires v < 32
    ensures Unpack(v) == Poly(G0, G0, G0, G0, G0, Low5(v))
  {}

  /** k(x) = x^6 mod g(x), times an element. */
  function ScaledK(x: Gf32): Poly {
    Poly(Mul(G29, x), Mul(G22, x), Mul(G20, x), Mul(G21, x), Mul(G29, x), Mul(G18, x))
  }

  /** The five constants are k(x) doubled again and again. */
  lemma Constants()
    ensures Unpack(0) == ZERO
    ensures Unpack(0x3b6a57b2) == Poly(G29, G22, G20, G21, G29, G18)
    ensures Unpack(0x26508e6d) == Doubled(Unpack(0x3b6a57b2)) && Unpack(0x1ea119fa) == Doubled(Unpack(0x26508e6d))
    ensures Unpack(0x3d4233dd) == Doubled(Unpack(0x1ea119fa)) && Unpack(0x2a1462b3) == Doubled(Unpack(0x3d4233dd))
  {}

  function Doubled(p: Poly): Poly {
    Poly(Double(p.c0), Double(p.c1), Double(p.c2), Double(p.c3), Double(p.c4), Double(p.c5))
  }

  lemma UnpackFeedback(c0: Word)
    ensures Unpack(Feedback(c0)) == ScaledK(Low5(c0))
  {
    hide Unpack, Double, Add, Xor;
    Constants();
    var p0, p1 := PickWord(c0 & 1 != 0, 0x3b6a57b2), PickWord(c0 & 2 != 0, 0x26508e6d);
    var p2, p3 := PickWord(c0 & 4 != 0, 0x1ea119fa), PickWord(c0 & 8 != 0, 0x3d4233dd);
    UnpackXor(p0, p1);
    UnpackXor(Xor(p0, p1), p2);
    UnpackXor(Xor(Xor(p0, p1), p2), p3);
    UnpackXor(Xor(Xor(Xor(p0, p1), p2), p3), PickWord(c0 & 16 != 0, 0x2a1462b3));
  }

  lemma UnpackShiftIn(c: Word, v: Word)
    requires v < 32
    ensures var p := Unpack(c);
            Unpack(ShiftIn(c, v)) == Poly(p.c1, p.c2, p.c3, p.c4, p.c5, Low5(v))
  {
    hide Low5, Unpack, Add;
    var p := Unpack(c);
    UnpackShift(c);
    UnpackSymbol(v);
    UnpackXor((c & 0x1ffffff) << 5, v);
    assert ShiftIn(c, v) == Xor((c & 0x1ffffff) << 5, v);
    AddZero(p.c1);
    AddZero(p.c2);
    AddZero(p.c3);
    AddZero(p.c4);
    AddZero(p.c5);
    AddZero(Low5(v));
  }

  /** The packed step is the polynomial step. */
  lemma StepRefines(c: Word, v: Word)
    requires v < 32
    ensures Unpack(Step(c, v)) == TimesXPlus(Unpack(c), Low5(v))
  {
    hide Mul, Low5, Feedback, Unpack, Add, Xor, Top, ShiftIn;
    UnpackShift(c);
    UnpackShiftIn(c, v);
    UnpackFeedback(Top(c));
    UnpackXor(ShiftIn(c, v), Feedback(Top(c)));
  }

  // ---------------------------------------------------------------------------------
  // Remainders of whole inputs
  // ---------------------------------------------------------------------------------

  /** What PolyMod's loop computes. */
  function Rem(v: seq<Byte>): Word {
    if v == [] then 1 else Step(Rem(v[..|v| - 1]), v[|v| - 1] as bv32)
  }

  method PolyMod(v: seq<Byte>) returns (c: Word)
    ensures c == Rem(v)
  {
    hide Step;
    c := 1;
    for i := 0 to |v|
      invariant c == Rem(v[..i])
    {
      c := Step(c, v[i] as bv32);
      assert v[..i + 1][..i] == v[..i];
    }
    assert v[..|v|] == v;
  }

  function Symbol(b: Byte): Gf32 { Low5(b as bv32) }

  function Symbols(v: seq<Byte>): (s: seq<Gf32>)
    ensures |s| == |v| && forall i :: 0 <= i < |v| ==> s[i] == Symbol(v[i])
  {
    seq(|v|, i requires 0 <= i < |v| => Symbol(v[i]))
  }

  predicate AllSymbols(v: seq<Byte>) { forall i :: 0 <= i < |v| ==> v[i] < 32 }

  lemma SymbolInjective(a: Byte, b: Byte)
    requires a < 32 && b < 32 && Symbol(a) == Symbol(b)
    ensures a == b
  {}

  /** The remainder of p(x) * x^|s| + s(x) mod g(x). */
  function Fold(p: Poly, s: seq<Gf32>): Poly {
    if s == [] then p else TimesXPlus(Fold(p, s[..|s| - 1]), s[|s| - 1])
  }

  lemma {:induction false} RemRefines(v: seq<Byte>)
    requires AllSymbols(v)
    ensures Rem(v) <= 0x3fffffff && Unpack(Rem(v)) == Fold(ONE, Symbols(v))
  {
    hide Step, Unpack, TimesXPlus;
    if v == [] {
      assert Unpack(1) == ONE by { UnpackOne(); }
    } else {
      var n := |v| - 1;
      RemRefines(v[..n]);
      StepBound(Rem(v[..n]), v[n] as bv32);
      StepRefines(Rem(v[..n]), v[n] as bv32);
      assert Symbols(v)[..n] == Symbols(v[..n]);
    }
  }

  lemma UnpackOne()
    ensures Unpack(1) == ONE
  {}

  lemma {:induction false} FoldConcat(p: Poly, s: seq<Gf32>, t: seq<Gf32>)
    ensures Fold(p, s + t) == Fold(Fold(p, s), t)
  {
    hide TimesXPlus;
    if t == [] {
      assert s + t == s;
    } else {
      assert (s + t)[..|s + t| - 1] == s + t[..|t| - 1];
      FoldConcat(p, s, t[..|t| - 1]);
    }
  }

  // ---------------------------------------------------------------------------------
  // The division: polynomials of any degree, highest coefficient first
  // ---------------------------------------------------------------------------------

  function At(q: seq<Gf32>, j: int): Gf32 { if 0 <= j < |q| then q[j] else G0 }

  /** Coefficient k of q(x) * g(x). */
  function Product(q: seq<Gf32>, k: int): Gf32 {
    Sum(At(q, k), Mul(G29, At(q, k - 1)), Mul(G22, At(q, k - 2)), Mul(G20, At(q, k - 3)),
        Mul(G21, At(q, k - 4)), Mul(G29, At(q, k - 5)), Mul(G18, At(q, k - 6)))
  }

  function Sum(a: Gf32, b: Gf32, c: Gf32, d: Gf32, e: Gf32, f: Gf32, g: Gf32): Gf32 {
    Add(Add(Add(a, b), Add(c, d)), Add(Add(e, f), g))
  }

  lemma SumLinear(a: Gf32, b: Gf32, c: Gf32, d: Gf32, e: Gf32, f: Gf32, g: Gf32,
                  a': Gf32, b': Gf32, c': Gf32, d': Gf32, e': Gf32, f': Gf32, g': Gf32)
    ensures Sum(Add(a, a'), Add(b, b'), Add(c, c'), Add(d, d'), Add(e, e'), Add(f, f'), Add(g, g')) ==
            Add(Sum(a, b, c, d, e, f, g), Sum(a', b', c', d', e', f', g'))
  {
    hide Add;
    Regroup(a, a', b, b');
    Regroup(c, c', d, d');
    Regroup(e, e', f, f');
    Regroup(Add(a, b), Add(a', b'), Add(c, d), Add(c', d'));
    Regroup(Add(e, f), Add(e', f'), g, g');
    Regroup(Add(Add(a, b), Add(c, d)), Add(Add(a', b'), Add(c', d')), Add(Add(e, f), g), Add(Add(e', f'), g'));
  }

  function Coefficients(p: Poly): seq<Gf32> { [p.c0, p.c1, p.c2, p.c3, p.c4, p.c5] }

  /** input(x) = q(x) * g(x) + r(x), with r(x) of lower degree than g(x). */
  predicate Division(input: seq<Gf32>, q: seq<Gf32>, r: Poly) {
    |input| == |q| + 6 && forall k :: 0 <= k < |input| ==> input[k] == Add(Product(q, k), At(Coefficients(r), k - |q|))
  }

  /** What leaves the register at the top, symbol after symbol. */
  function Quotient(p: Poly, s: seq<Gf32>): (q: seq<Gf32>)
    ensures |q| == |s|
  {
    if s == [] then [] else Quotient(p, s[..|s| - 1]) + [Fold(p, s[..|s| - 1]).c0]
  }

  /** One more coefficient of the quotient adds a multiple of g(x) at the end. */
  lemma ProductMore(q: seq<Gf32>, c: Gf32, k: int)
    ensures Product(q + [c], k) == Add(Product(q, k), Multiple(c, k - |q|))
    ensures k >= |q| + 6 ==> Product(q, k) == G0
  {
    hide Mul, Add, Sum, At, Multiple;
    var n := |q|;
    AtMore(q, c, k);
    TermMore(G29, q, c, k - 1);
    TermMore(G22, q, c, k - 2);
    TermMore(G20, q, c, k - 3);
    TermMore(G21, q, c, k - 4);
    TermMore(G29, q, c, k - 5);
    TermMore(G18, q, c, k - 6);
    SumLinear(At(q, k), Mul(G29, At(q, k - 1)), Mul(G22, At(q, k - 2)), Mul(G20, At(q, k - 3)),
              Mul(G21, At(q, k - 4)), Mul(G29, At(q, k - 5)), Mul(G18, At(q, k - 6)),
              Last(c, n, k), Mul(G29, Last(c, n, k - 1)), Mul(G22, Last(c, n, k - 2)), Mul(G20, Last(c, n, k - 3)),
              Mul(G21, Last(c, n, k - 4)), Mul(G29, Last(c, n, k - 5)), Mul(G18, Last(c, n, k - 6)));
    SumOfOne(c, n, k);
    if k >= n + 6 {
      NoProductHere(q, k);
    }
  }

  /** The coefficients of c * x^0 with n zeros before it. */
  function Last(c: Gf32, n: nat, j: int): Gf32 { if j == n then c else G0 }

  lemma AtMore(q: seq<Gf32>, c: Gf32, j: int)
    ensures At(q + [c], j) == Add(At(q, j), Last(c, |q|, j))
  {
    AddZero(At(q, j));
    AddZero(c);
  }

  lemma TermMore(g: Gf32, q: seq<Gf32>, c: Gf32, j: int)
    ensures Mul(g, At(q + [c], j)) == Add(Mul(g, At(q, j)), Mul(g, Last(c, |q|, j)))
  {
    hide Mul, At, Last;
    AtMore(q, c, j);
    MulLinear(g, At(q, j), Last(c, |q|, j));
  }

  lemma SumOfOne(c: Gf32, n: nat, k: int)
    ensures Sum(Last(c, n, k), Mul(G29, Last(c, n, k - 1)), Mul(G22, Last(c, n, k - 2)), Mul(G20, Last(c, n, k - 3)),
                Mul(G21, Last(c, n, k - 4)), Mul(G29, Last(c, n, k - 5)), Mul(G18, Last(c, n, k - 6))) ==
                  Multiple(c, k - n)
  {
    hide Mul, Sum;
    MulZeros();
    SumSingle(Multiple(c, k - n));
  }

  lemma SumSingle(x: Gf32)
    ensures Sum(x, G0, G0, G0, G0, G0, G0) == Sum(G0, x, G0, G0, G0, G0, G0) == Sum(G0, G0, x, G0, G0, G0, G0) == x
    ensures Sum(G0, G0, G0, x, G0, G0, G0) == Sum(G0, G0, G0, G0, x, G0, G0) == Sum(G0, G0, G0, G0, G0, x, G0) == x
    ensures Sum(G0, G0, G0, G0, G0, G0, x) == x
  {
    hide Add;
    AddZero(x);
    AddZero(G0);
  }

  lemma MulZeros()
    ensures Mul(G29, G0) == Mul(G22, G0) == Mul(G20, G0) == Mul(G21, G0) == Mul(G18, G0) == G0
  {
    hide Mul;
    MulZero(G29);
    MulZero(G22);
    MulZero(G20);
    MulZero(G21);
    MulZero(G18);
  }

  lemma NoProductHere(q: seq<Gf32>, k: int)
    requires k >= |q| + 6
    ensures Product(q, k) == G0
  {
    hide Mul;
    MulZeros();
  }

  /** Coefficient j of c * g(x). */
  function Multiple(c: Gf32, j: int): Gf32 {
    match j
    case 0 => c
    case 1 => Mul(G29, c)
    case 2 => Mul(G22, c)
    case 3 => Mul(G20, c)
    case 4 => Mul(G21, c)
    case 5 => Mul(G29, c)
    case 6 => Mul(G18, c)
    case _ => G0
  }

  lemma Cancels(a: Gf32, m: Gf32, x: Gf32)
    ensures Add(Add(a, m), Add(x, m)) == Add(a, x)
  {}

  /** A step of the register is a step of the division. */
  lemma StepDivides(r: Poly, v: Gf32, j: int, a: Gf32)
    ensures Add(Add(a, Multiple(r.c0, j)), At(Coefficients(TimesXPlus(r, v)), j - 1)) ==
            if j == 6 then Add(a, v) else Add(a, At(Coefficients(r), j))
  {
    hide Mul, Add;
    AddZero(a);
    AddZero(Add(a, r.c0));
    if 1 <= j <= 6 {
      Cancels(a, Multiple(r.c0, j), if j == 6 then v else At(Coefficients(r), j));
    }
  }

  /** Fold divides: it is the remainder modulo g(x) of everything shifted in. */
  lemma {:induction false} FoldDivides(p: Poly, s: seq<Gf32>)
    ensures Division(Coefficients(p) + s, Quotient(p, s), Fold(p, s))
  {
    hide TimesXPlus, Product, Multiple, Add;
    if s == [] {
      forall k | 0 <= k < 6 ensures Product([], k) == G0 {
        NoProduct(k);
      }
      forall k | 0 <= k < 6 ensures Add(G0, Coefficients(p)[k]) == Coefficients(p)[k] {
        AddZero(Coefficients(p)[k]);
      }
    } else {
      var n := |s| - 1;
      var (q, r, v) := (Quotient(p, s[..n]), Fold(p, s[..n]), s[n]);
      var (shorter, input) := (Coefficients(p) + s[..n], Coefficients(p) + s);
      FoldDivides(p, s[..n]);
      forall k | 0 <= k < |input|
        ensures input[k] == Add(Product(q + [r.c0], k), At(Coefficients(TimesXPlus(r, v)), k - (n + 1)))
      {
        ProductMore(q, r.c0, k);
        StepDivides(r, v, k - n, Product(q, k));
        AddZero(v);
        assert k < n + 6 ==> input[k] == shorter[k];
      }
    }
  }

  lemma NoProduct(k: int)
    ensures Product([], k) == G0
  {
    hide Mul;
    MulZeros();
  }

  /** There is one quotient and one remainder. */
  lemma DivisionUnique(input: seq<Gf32>, q: seq<Gf32>, r: Poly, q': seq<Gf32>, r': Poly)
    requires Division(input, q, r) && Division(input, q', r')
    ensures q == q' && r == r'
  {
    hide Mul, Product, Add;
    forall k | 0 <= k < |q| ensures q[k] == q'[k] {
      SameQuotient(input, q, r, q', r', k);
    }
    assert q == q';
    forall k | 0 <= k < 6 ensures Coefficients(r)[k] == Coefficients(r')[k] {
      AddCancels(Product(q, |q| + k), Coefficients(r)[k], Coefficients(r')[k]);
    }
    assert Coefficients(r)[0] == Coefficients(r')[0];
    assert Coefficients(r)[1] == Coefficients(r')[1] && Coefficients(r)[2] == Coefficients(r')[2];
    assert Coefficients(r)[3] == Coefficients(r')[3] && Coefficients(r)[4] == Coefficients(r')[4];
    assert Coefficients(r)[5] == Coefficients(r')[5];
  }

  lemma AddCancels(a: Gf32, x: Gf32, y: Gf32)
    requires Add(a, x) == Add(a, y)
    ensures x == y
  {}

  lemma {:induction false} SameQuotient(input: seq<Gf32>, q: seq<Gf32>, r: Poly, q': seq<Gf32>, r': Poly, k: nat)
    requires Division(input, q, r) && Division(input, q', r') && k < |q|
    ensures q[k] == q'[k]
  {
    hide Mul, Add;
    forall j | 0 <= j < k ensures q[j] == q'[j] {
      SameQuotient(input, q, r, q', r', j);
    }
    AddZero(Product(q, k));
    AddZero(Product(q', k));
    SameLead(q[k], q'[k], Mul(G29, At(q, k - 1)), Mul(G22, At(q, k - 2)), Mul(G20, At(q, k - 3)),
             Mul(G21, At(q, k - 4)), Mul(G29, At(q, k - 5)), Mul(G18, At(q, k - 6)));
  }

  lemma SameLead(x: Gf32, y: Gf32, b: Gf32, c: Gf32, d: Gf32, e: Gf32, f: Gf32, g: Gf32)
    requires Sum(x, b, c, d, e, f, g) == Sum(y, b, c, d, e, f, g)
    ensures x == y
  {}

  /** So the word that PolyMod computes holds the remainder of x^|v| + v(x) modulo g(x). */
  lemma RemIsRemainder(v: seq<Byte>)
    requires AllSymbols(v)
    ensures Division(Coefficients(ONE) + Symbols(v), Quotient(ONE, Symbols(v)), Unpack(Rem(v)))
  {
    hide Division, Unpack, Rem;
    RemRefines(v);
    FoldDivides(ONE, Symbols(v));
  }

  /** Symbol by symbol difference. */
  function Diff(s: seq<Gf32>, t: seq<Gf32>): (d: seq<Gf32>)
    requires |s| == |t|
    ensures |d| == |s| && forall i :: 0 <= i < |d| ==> d[i] == Add(s[i], t[i])
  {
    seq(|s|, i requires 0 <= i < |s| => Add(s[i], t[i]))
  }

  /** Two inputs differ in the register by what their difference would leave there. */
  lemma {:induction false} FoldLinear(p: Poly, q: Poly, s: seq<Gf32>, t: seq<Gf32>)
    requires |s| == |t|
    ensures Fold(Plus(p, q), Diff(s, t)) == Plus(Fold(p, s), Fold(q, t))
  {
    hide TimesXPlus, Plus, Add;
    if s == [] {
    } else {
      var n := |s| - 1;
      assert Diff(s, t)[..n] == Diff(s[..n], t[..n]);
      FoldLinear(p, q, s[..n], t[..n]);
      TimesXPlusLinear(Fold(p, s[..n]), Fold(q, t[..n]), s[n], t[n]);
    }
  }

  function Zeros(n: nat): (z: seq<Gf32>)
    ensures |z| == n && forall i :: 0 <= i < n ==> z[i] == G0
  {
    seq(n, _ => G0)
  }

  lemma ShiftsWhenTopEmpty(p: Poly, v: Gf32)
    requires p.c0 == G0
    ensures TimesXPlus(p, v) == Poly(p.c1, p.c2, p.c3, p.c4, p.c5, v)
  {
    hide Mul, Add;
    MulZero(G29);
    MulZero(G22);
    MulZero(G20);
    MulZero(G21);
    MulZero(G18);
    AddZero(p.c1);
    AddZero(p.c2);
    AddZero(p.c3);
    AddZero(p.c4);
    AddZero(p.c5);
    AddZero(v);
  }

  /** Zeros after a nonzero remainder never make it zero, and after zero they leave it. */
  lemma {:induction false} FoldZeros(p: Poly, n: nat)
    ensures Fold(p, Zeros(n)) == ZERO <==> p == ZERO
  {
    hide TimesXPlus;
    if n == 0 {
    } else {
      FoldZeros(p, n - 1);
      assert Zeros(n)[..n - 1] == Zeros(n - 1);
      var r := Fold(p, Zeros(n - 1));
      ShiftsWhenTopEmpty(ZERO, G0);
      if TimesXPlus(r, G0) == ZERO {
        TimesXInjective(r);
      }
    }
  }

  /** Six symbols fit into the register as they are. */
  lemma FoldSix(s: seq<Gf32>)
    requires |s| == 6
    ensures Fold(ZERO, s) == Poly(s[0], s[1], s[2], s[3], s[4], s[5])
  {
    hide TimesXPlus;
    var p1 := Poly(G0, G0, G0, G0, G0, s[0]);
    var p2 := Poly(G0, G0, G0, G0, s[0], s[1]);
    var p3 := Poly(G0, G0, G0, s[0], s[1], s[2]);
    var p4 := Poly(G0, G0, s[0], s[1], s[2], s[3]);
    var p5 := Poly(G0, s[0], s[1], s[2], s[3], s[4]);
    ShiftsWhenTopEmpty(ZERO, s[0]);
    ShiftsWhenTopEmpty(p1, s[1]);
    ShiftsWhenTopEmpty(p2, s[2]);
    ShiftsWhenTopEmpty(p3, s[3]);
    ShiftsWhenTopEmpty(p4, s[4]);
    ShiftsWhenTopEmpty(p5, s[5]);
    FoldStep(ZERO, [], s[0]);
    FoldStep(ZERO, s[..1], s[1]);
    FoldStep(ZERO, s[..2], s[2]);
    FoldStep(ZERO, s[..3], s[3]);
    FoldStep(ZERO, s[..4], s[4]);
    FoldStep(ZERO, s[..5], s[5]);
    assert [] + [s[0]] == s[..1] && s[..1] + [s[1]] == s[..2] && s[..2] + [s[2]] == s[..3];
    assert s[..3] + [s[3]] == s[..4] && s[..4] + [s[4]] == s[..5] && s[..5] + [s[5]] == s;
  }

  lemma FoldStep(p: Poly, s: seq<Gf32>, v: Gf32)
    ensures Fold(p, s + [v]) == TimesXPlus(Fold(p, s), v)
  {
    assert (s + [v])[..|s|] == s;
  }

  /** A nonzero difference of at most six symbols leaves a nonzero remainder. */
  lemma WindowZero(w: seq<Gf32>)
    requires |w| <= 6 && Fold(ZERO, w) == ZERO
    ensures forall i :: 0 <= i < |w| ==> w[i] == G0
  {
    hide TimesXPlus;
    var pad := 6 - |w|;
    FoldZeros(ZERO, pad);
    FoldConcat(ZERO, Zeros(pad), w);
    var s := Zeros(pad) + w;
    FoldSix(s);
    forall i | 0 <= i < |w| ensures w[i] == G0 {
      assert w[i] == s[pad + i];
    }
  }

  lemma PlusSelf(p: Poly)
    ensures Plus(p, p) == ZERO && Plus(p, ZERO) == p == Plus(ZERO, p)
  {}

  lemma PlusCancel(p: Poly, q: Poly)
    ensures Plus(p, Plus(p, q)) == q
  {}

  // ---------------------------------------------------------------------------------
  // Checksums
  // ---------------------------------------------------------------------------------

  function HighBits(c: Byte): Byte { c >> 5 }
  function LowBits(c: Byte): Byte { c & 0x1f }

  lemma BitsAreSymbols(c: Byte)
    ensures HighBits(c) < 32 && LowBits(c) < 32
  {}

  /** The high bits of every character of the human-readable part, a zero, the low bits. */
  function Expanded(hrp: seq<Byte>): (r: seq<Byte>)
    ensures |r| == 2 * |hrp| + 1
  {
    seq(|hrp|, i requires 0 <= i < |hrp| => HighBits(hrp[i])) + [0] +
    seq(|hrp|, i requires 0 <= i < |hrp| => LowBits(hrp[i]))
  }

  lemma ExpandedSymbols(hrp: seq<Byte>)
    ensures AllSymbols(Expanded(hrp))
  {
    hide HighBits, LowBits;
    forall i | 0 <= i < |hrp| ensures HighBits(hrp[i]) < 32 && LowBits(hrp[i]) < 32 {
      BitsAreSymbols(hrp[i]);
    }
  }

  method ExpandHRP(hrp: seq<Byte>) returns (ret: array<Byte>)
    ensures fresh(ret) && ret[..] == Expanded(hrp)
  {
    hide HighBits, LowBits;
    var n := |hrp|;
    ret := new Byte[2 * n + 1](_ => 0);
    for i := 0 to n
      invariant forall j :: 0 <= j < i ==> ret[j] == HighBits(hrp[j]) && ret[j + n + 1] == LowBits(hrp[j])
    {
      ret[i] := HighBits(hrp[i]);
      ret[i + n + 1] := LowBits(hrp[i]);
    }
    ret[n] := 0;
  }

  predicate Verifies(hrp: seq<Byte>, values: seq<Byte>) { Rem(Expanded(hrp) + values) == 1 }

  method VerifyChecksum(hrp: seq<Byte>, values: seq<Byte>) returns (ok: bool)
    ensures ok == Verifies(hrp, values)
  {
    hide Step, Expanded;
    var expanded := ExpandHRP(hrp);
    var c := PolyMod(expanded[..] + values);
    ok := c == 1;
  }

  /** The i-th 5-bit group of a word, from the top, as a byte. */
  function GroupByte(mod: Word, i: nat): Byte
    requires i < 6
  {
    (if i == 0 then (mod >> 25) & 31 else if i == 1 then (mod >> 20) & 31 else if i == 2 then (mod >> 15) & 31
     else if i == 3 then (mod >> 10) & 31 else if i == 4 then (mod >> 5) & 31 else mod & 31) as bv8
  }

  /** What CreateChecksum has to append to make the remainder one. */
  function Checksum(hrp: seq<Byte>, values: seq<Byte>): (r: seq<Byte>)
    ensures |r| == 6
  {
    var mod := Xor(Rem(Expanded(hrp) + values + [0, 0, 0, 0, 0, 0]), 1);
    [GroupByte(mod, 0), GroupByte(mod, 1), GroupByte(mod, 2), GroupByte(mod, 3), GroupByte(mod, 4), GroupByte(mod, 5)]
  }

  method CreateChecksum(hrp: seq<Byte>, values: seq<Byte>) returns (ret: seq<Byte>)
    ensures ret == Checksum(hrp, values)
  {
    hide Step, Expanded, GroupByte;
    var expanded := ExpandHRP(hrp);
    var mod := PolyMod(expanded[..] + values + [0, 0, 0, 0, 0, 0]);
    mod := mod ^ 1;
    ret := [];
    for i := 0 to 6
      invariant |ret| == i && forall j :: 0 <= j < i ==> ret[j] == GroupByte(mod, j)
    {
      ret := ret + [GroupByte(mod, i)];
    }
  }

  lemma GroupBytes(mod: Word)
    ensures forall i :: 0 <= i < 6 ==> GroupByte(mod, i) < 32
    ensures Poly(Symbol(GroupByte(mod, 0)), Symbol(GroupByte(mod, 1)), Symbol(GroupByte(mod, 2)),
                 Symbol(GroupByte(mod, 3)), Symbol(GroupByte(mod, 4)), Symbol(GroupByte(mod, 5))) == Unpack(mod)
  {}

  /** A checksum verifies exactly when the remainder polynomial is one. */
  lemma VerifiesIff(hrp: seq<Byte>, values: seq<Byte>)
    requires AllSymbols(values)
    ensures AllSymbols(Expanded(hrp) + values)
    ensures Verifies(hrp, values) <==> Fold(ONE, Symbols(Expanded(hrp) + values)) == ONE
  {
    hide Step, Unpack, TimesXPlus, Expanded;
    ExpandedSymbols(hrp);
    RemRefines(Expanded(hrp) + values);
    UnpackOne();
    if Fold(ONE, Symbols(Expanded(hrp) + values)) == ONE {
      UnpackInjective(Rem(Expanded(hrp) + values), 1);
    }
  }

  lemma SymbolZero()
    ensures Symbol(0) == G0
  {}

  /** The checksum holds the coefficients of x(x) + 1, where x(x) is the remainder with six
      zeros appended. */
  lemma ChecksumIs(hrp: seq<Byte>, values: seq<Byte>)
    requires AllSymbols(values)
    ensures AllSymbols(Checksum(hrp, values))
    ensures Fold(ZERO, Symbols(Checksum(hrp, values)))
            == Plus(Fold(Fold(ONE, Symbols(Expanded(hrp) + values)), Zeros(6)), ONE)
  {
    hide Step, Unpack, TimesXPlus, Expanded, GroupByte, Symbol, Plus, Add, Xor;
    var e, zeros := Expanded(hrp) + values, [0, 0, 0, 0, 0, 0];
    var mod := Xor(Rem(e + zeros), 1);
    ExpandedSymbols(hrp);
    GroupBytes(mod);
    RemRefines(e + zeros);
    UnpackXor(Rem(e + zeros), 1);
    UnpackOne();
    SymbolZero();
    assert Symbols(e + zeros) == Symbols(e) + Zeros(6);
    FoldConcat(ONE, Symbols(e), Zeros(6));
    FoldSix(Symbols(Checksum(hrp, values)));
  }

  /** Checksums created by the code always verify. */
  lemma ChecksumVerifies(hrp: seq<Byte>, values: seq<Byte>)
    requires AllSymbols(values)
    ensures AllSymbols(Checksum(hrp, values)) && Verifies(hrp, values + Checksum(hrp, values))
  {
    hide TimesXPlus, Expanded, Symbol, Plus, Verifies, Checksum;
    var e, sum := Expanded(hrp) + values, Checksum(hrp, values);
    var p := Fold(ONE, Symbols(e));
    ChecksumIs(hrp, values);
    ReplaceZeros(p, Fold(p, Zeros(6)), Symbols(sum));
    assert Symbols(e + sum) == Symbols(e) + Symbols(sum);
    FoldConcat(ONE, Symbols(e), Symbols(sum));
    assert e + sum == Expanded(hrp) + (values + sum);
    VerifiesIff(hrp, values + sum);
  }

  lemma ReplaceZeros(p: Poly, x: Poly, s: seq<Gf32>)
    requires |s| == 6 && x == Fold(p, Zeros(6)) && Fold(ZERO, s) == Plus(x, ONE)
    ensures Fold(p, s) == ONE
  {
    hide TimesXPlus;
    PlusSelf(p);
    PlusCancel(x, ONE);
    FoldLinear(p, ZERO, Zeros(6), s);
    assert Diff(Zeros(6), s) == s;
  }

  /** Two data parts of equal length under one human-readable part that differ only inside a
      window of six consecutive symbols never both verify. */
  lemma BurstsAreDetected(hrp: seq<Byte>, a: seq<Byte>, b: seq<Byte>, k: nat)
    requires AllSymbols(a) && AllSymbols(b) && |a| == |b| && k <= |a|
    requires forall i :: 0 <= i < |a| && !(k <= i < k + 6) ==> a[i] == b[i]
    requires Verifies(hrp, a) && Verifies(hrp, b)
    ensures a == b
  {
    hide Step, Unpack, TimesXPlus, Expanded, Symbol, Plus, Add, Verifies;
    VerifiesIff(hrp, a);
    VerifiesIff(hrp, b);
    var e := Expanded(hrp);
    var s, t := Symbols(e + a), Symbols(e + b);
    var d := Diff(s, t);
    FoldLinear(ONE, ONE, s, t);
    PlusSelf(ONE);
    var from := |e| + k;
    var upto := if from + 6 < |d| then from + 6 else |d|;
    forall i | 0 <= i < |d| && !(from <= i < upto) ensures d[i] == G0 {
      AddSelf(s[i]);
    }
    WindowOnly(d, from, upto);
    forall i | 0 <= i < |a| ensures a[i] == b[i] {
      assert d[|e| + i] == G0;
      AddEqual(s[|e| + i], t[|e| + i]);
      SymbolInjective(a[i], b[i]);
    }
  }

  lemma AddSelf(x: Gf32) ensures Add(x, x) == G0 {}
  lemma AddEqual(x: Gf32, y: Gf32) requires Add(x, y) == G0 ensures x == y {}

  lemma WindowOnly(d: seq<Gf32>, from: nat, upto: nat)
    requires from <= upto <= |d| && upto <= from + 6 && Fold(ZERO, d) == ZERO
    requires forall i :: 0 <= i < |d| && !(from <= i < upto) ==> d[i] == G0
    ensures forall i :: 0 <= i < |d| ==> d[i] == G0
  {
    hide TimesXPlus;
    var head, w, tail := d[..from], d[from..upto], d[upto..];
    assert d == head + w + tail && head == Zeros(from) && tail == Zeros(|d| - upto);
    FoldConcat(ZERO, head + w, tail);
    FoldConcat(ZERO, head, w);
    FoldZeros(ZERO, from);
    FoldZeros(Fold(ZERO, head + w), |d| - upto);
    WindowZero(w);
    forall i | 0 <= i < |d| ensures d[i] == G0 {
      if from <= i < upto { assert d[i] == w[i - from]; }
    }
  }

  // ---------------------------------------------------------------------------------
  // Strings
  // ---------------------------------------------------------------------------------

  const ONE_CHAR: Byte := 0x31   // '1', the separator

  /** CHARSET, "qpzry9x8gf2tvdw0s3jn54khce6mua7l". */
  function CharOf(v: Byte): Byte { if v < 16 then CharOfLow(v) else CharOfHigh(v) }

  function CharOfLow(v: Byte): Byte {
    if v == 0 then 0x71 else if v == 1 then 0x70 else if v == 2 then 0x7a else if v == 3 then 0x72 else
    if v == 4 then 0x79 else if v == 5 then 0x39 else if v == 6 then 0x78 else if v == 7 then 0x38 else
    if v == 8 then 0x67 else if v == 9 then 0x66 else if v == 10 then 0x32 else if v == 11 then 0x74 else
    if v == 12 then 0x76 else if v == 13 then 0x64 else if v == 14 then 0x77 else
    0x30
  }

  function CharOfHigh(v: Byte): Byte {
    if v == 16 then 0x73 else if v == 17 then 0x33 else if v == 18 then 0x6a else if v == 19 then 0x6e else
    if v == 20 then 0x35 else if v == 21 then 0x34 else if v == 22 then 0x6b else if v == 23 then 0x68 else
    if v == 24 then 0x63 else if v == 25 then 0x65 else if v == 26 then 0x36 else if v == 27 then 0x6d else
    if v == 28 then 0x75 else if v == 29 then 0x61 else if v == 30 then 0x37 else
    0x6c
  }

  /** The lower-case half of CHARSET_REV, with 0xff for -1. */
  function RevOfLower(c: Byte): Byte {
    if c == 0x71 then 0 else if c == 0x70 then 1 else if c == 0x7a then 2 else if c == 0x72 then 3 else
    if c == 0x79 then 4 else if c == 0x39 then 5 else if c == 0x78 then 6 else if c == 0x38 then 7 else
    if c == 0x67 then 8 else if c == 0x66 then 9 else if c == 0x32 then 10 else if c == 0x74 then 11 else
    if c == 0x76 then 12 else if c == 0x64 then 13 else if c == 0x77 then 14 else if c == 0x30 then 15 else
    if c == 0x73 then 16 else if c == 0x33 then 17 else if c == 0x6a then 18 else if c == 0x6e then 19 else
    if c == 0x35 then 20 else if c == 0x34 then 21 else if c == 0x6b then 22 else if c == 0x68 then 23 else
    if c == 0x63 then 24 else if c == 0x65 then 25 else if c == 0x36 then 26 else if c == 0x6d then 27 else
    if c == 0x75 then 28 else if c == 0x61 then 29 else if c == 0x37 then 30 else if c == 0x6c then 31 else
    0xff
  }

  /** CHARSET_REV, in which the upper-case letters repeat the lower-case ones. */
  function RevOf(c: Byte): Byte { RevOfLower(LowerCase(c)) }

  predicate IsLower(c: Byte) { 0x61 <= c <= 0x7a }
  predicate IsUpper(c: Byte) { 0x41 <= c <= 0x5a }
  predicate IsPrintable(c: Byte) { 33 <= c <= 126 }

  function LowerCase(c: Byte): Byte { if IsUpper(c) then (c - 0x41) + 0x61 else c }

  lemma CharsetBack(v: Byte)
    requires v < 32
    ensures RevOfLower(CharOf(v)) == v
  {
    if v < 16 { CharsetBackLow(v); } else { CharsetBackHigh(v); }
  }

  lemma CharsetBackLow(v: Byte)
    requires v < 16
    ensures RevOfLower(CharOfLow(v)) == v
  {}

  lemma CharsetBackHigh(v: Byte)
    requires 16 <= v < 32
    ensures RevOfLower(CharOfHigh(v)) == v
  {}

  lemma Charset(v: Byte)
    requires v < 32
    ensures RevOf(CharOf(v)) == v && CharOf(v) != ONE_CHAR && IsPrintable(CharOf(v)) && !IsUpper(CharOf(v))
  {
    CharsetBack(v);
    assert !IsUpper(CharOf(v)) by { hide RevOfLower; }
  }

  lemma CharsetRev(c: Byte)
    requires RevOf(c) != 0xff
    ensures RevOf(c) < 32 && CharOf(RevOf(c)) == LowerCase(c)
  {
    CharsetForth(LowerCase(c));
  }

  lemma CharsetForth(c: Byte)
    requires RevOfLower(c) != 0xff
    ensures RevOfLower(c) < 32 && CharOf(RevOfLower(c)) == c
  {
    if c < 0x38 {} else if c < 0x68 {} else if c < 0x70 {} else {}
  }

  function Lowered(s: seq<Byte>): (r: seq<Byte>)
    ensures |r| == |s| && forall i :: 0 <= i < |s| ==> r[i] == LowerCase(s[i])
  {
    seq(|s|, i requires 0 <= i < |s| => LowerCase(s[i]))
  }

  function Chars(v: seq<Byte>): (r: seq<Byte>)
    ensures |r| == |v| && forall i :: 0 <= i < |v| ==> r[i] == CharOf(v[i])
  {
    seq(|v|, i requires 0 <= i < |v| => CharOf(v[i]))
  }

  function Revs(s: seq<Byte>): (r: seq<Byte>)
    ensures |r| == |s| && forall i :: 0 <= i < |s| ==> r[i] == RevOf(s[i])
  {
    seq(|s|, i requires 0 <= i < |s| => RevOf(s[i]))
  }

  function Encoded(hrp: seq<Byte>, values: seq<Byte>): seq<Byte> {
    hrp + [ONE_CHAR] + Chars(values + Checksum(hrp, values))
  }

  method Encode(hrp: seq<Byte>, values: seq<Byte>) returns (ret: seq<Byte>)
    requires AllSymbols(values)
    ensures ret == Encoded(hrp, values)
  {
    hide CharOf, Checksum;
    var checksum := CreateChecksum(hrp, values);
    var combined := values + checksum;
    ret := hrp + [ONE_CHAR];
    for i := 0 to |combined|
      invariant ret == hrp + [ONE_CHAR] + Chars(combined)[..i]
    {
      ret := ret + [CharOf(combined[i])];
    }
  }

  /** rfind('1'), with -1 for npos. */
  function LastOne(s: seq<Byte>): (pos: int)
    ensures -1 <= pos < |s|
    ensures pos >= 0 ==> s[pos] == ONE_CHAR
    ensures forall i :: pos < i < |s| ==> s[i] != ONE_CHAR
  {
    if s == [] then -1 else if s[|s| - 1] == ONE_CHAR then |s| - 1 else LastOne(s[..|s| - 1])
  }

  /** Decode returns a pair of empty strings on failure. */
  datatype Decoded = Decoded(hrp: seq<Byte>, data: seq<Byte>)
  const FAILED := Decoded([], [])

  predicate AllPrintable(s: seq<Byte>) { forall i :: 0 <= i < |s| ==> IsPrintable(s[i]) }
  predicate AnyLower(s: seq<Byte>) { exists i :: 0 <= i < |s| && IsLower(s[i]) }
  predicate AnyUpper(s: seq<Byte>) { exists i :: 0 <= i < |s| && IsUpper(s[i]) }

  /** What Decode asks of a string before it looks at the checksum. */
  predicate WellFormed(s: seq<Byte>) {
    && AllPrintable(s) && !(AnyLower(s) && AnyUpper(s)) && |s| <= 90
    && 0 < LastOne(s) && LastOne(s) + 7 <= |s|
    && forall i :: LastOne(s) < i < |s| ==> RevOf(s[i]) != 0xff
  }

  function DecodedFrom(s: seq<Byte>): Decoded {
    if !WellFormed(s) then FAILED
    else
      var pos := LastOne(s);
      var hrp, values := Lowered(s[..pos]), Revs(s[pos + 1..]);
      if Verifies(hrp, values) then Decoded(hrp, values[..|values| - 6]) else FAILED
  }

  /** The scan of the characters. */
  method Scan(str: seq<Byte>) returns (bad: bool, mixed: bool)
    ensures bad == !AllPrintable(str)
    ensures !bad ==> mixed == (AnyLower(str) && AnyUpper(str))
  {
    hide IsLower, IsUpper, IsPrintable;
    var lower, upper := false, false;
    for i := 0 to |str|
      invariant AllPrintable(str[..i])
      invariant lower <==> AnyLower(str[..i])
      invariant upper <==> AnyUpper(str[..i])
    {
      var c := str[i];
      Letters(c);
      assert str[..i + 1] == str[..i] + [c];
      ScanStep(str[..i], c);
      if IsLower(c) {
        lower := true;
      } else if IsUpper(c) {
        upper := true;
      } else if c < 33 || c > 126 {
        return true, false;
      }
    }
    assert str[..|str|] == str;
    return false, lower && upper;
  }

  lemma Letters(c: Byte)
    ensures IsLower(c) || IsUpper(c) ==> IsPrintable(c)
    ensures !(IsLower(c) && IsUpper(c)) && (IsPrintable(c) <==> !(c < 33 || c > 126))
  {}

  lemma ScanStep(s: seq<Byte>, c: Byte)
    ensures AllPrintable(s + [c]) <==> AllPrintable(s) && IsPrintable(c)
    ensures AnyLower(s + [c]) <==> AnyLower(s) || IsLower(c)
    ensures AnyUpper(s + [c]) <==> AnyUpper(s) || IsUpper(c)
  {
    hide IsLower, IsUpper, IsPrintable;
    assert (s + [c])[|s|] == c;
    assert forall i :: 0 <= i < |s| ==> (s + [c])[i] == s[i];
  }

  method Decode(str: seq<Byte>) returns (r: Decoded)
    ensures r == DecodedFrom(str)
  {
    hide RevOf, LowerCase, Verifies, IsLower, IsUpper, IsPrintable;
    var bad, mixed := Scan(str);
    if bad || mixed {
      return FAILED;
    }
    var pos := LastOne(str);
    if |str| > 90 || pos == -1 || pos == 0 || pos + 7 > |str| {
      return FAILED;
    }
    var values := [];
    for i := 0 to |str| - 1 - pos
      invariant values == Revs(str[pos + 1..])[..i]
      invariant forall j :: pos < j <= pos + i ==> RevOf(str[j]) != 0xff
    {
      var rev := RevOf(str[i + pos + 1]);
      if rev == 0xff {
        return FAILED;
      }
      values := values + [rev];
    }
    var hrp := [];
    for i := 0 to pos
      invariant hrp == Lowered(str[..pos])[..i]
    {
      hrp := hrp + [LowerCase(str[i])];
    }
    assert hrp == Lowered(str[..pos]) && values == Revs(str[pos + 1..]);
    var ok := VerifyChecksum(hrp, values);
    if !ok {
      return FAILED;
    }
    r := Decoded(hrp, values[..|values| - 6]);
  }

  /** A human-readable part and data that survive the trip: a non-empty part of printable
      characters without upper case, and at most 90 characters in all. */
  predicate Encodable(hrp: seq<Byte>, values: seq<Byte>) {
    && hrp != [] && |hrp| + 1 + |values| + 6 <= 90
    && forall i :: 0 <= i < |hrp| ==> IsPrintable(hrp[i]) && !IsUpper(hrp[i])
  }

  lemma {:induction false} LastOneAt(hrp: seq<Byte>, tail: seq<Byte>)
    requires forall i :: 0 <= i < |tail| ==> tail[i] != ONE_CHAR
    ensures LastOne(hrp + [ONE_CHAR] + tail) == |hrp|
  {
    var s, n := hrp + [ONE_CHAR] + tail, |tail|;
    if n > 0 {
      assert s[|s| - 1] == tail[n - 1];
      assert s[..|s| - 1] == hrp + [ONE_CHAR] + tail[..n - 1];
      LastOneAt(hrp, tail[..n - 1]);
    }
  }

  lemma CharsOfSymbols(v: seq<Byte>)
    requires AllSymbols(v)
    ensures Revs(Chars(v)) == v
    ensures forall i :: 0 <= i < |v| ==> Chars(v)[i] != ONE_CHAR && IsPrintable(Chars(v)[i]) && !IsUpper(Chars(v)[i])
  {
    hide CharOf, RevOf, IsPrintable, IsUpper;
    forall i | 0 <= i < |v|
      ensures RevOf(CharOf(v[i])) == v[i]
      ensures CharOf(v[i]) != ONE_CHAR && IsPrintable(CharOf(v[i])) && !IsUpper(CharOf(v[i]))
    {
      Charset(v[i]);
    }
  }

  lemma LoweredIsSame(s: seq<Byte>)
    ensures Lowered(s) == s <==> forall i :: 0 <= i < |s| ==> !IsUpper(s[i])
  {
    hide LowerCase, IsUpper;
    forall c ensures LowerCase(c) == c <==> !IsUpper(c) { LowerChanges(c); }
    if Lowered(s) == s {
      forall i | 0 <= i < |s| ensures !IsUpper(s[i]) {
        assert Lowered(s)[i] == LowerCase(s[i]);
      }
    }
  }

  lemma LowerChanges(c: Byte)
    ensures LowerCase(c) == c <==> !IsUpper(c)
  {}

  /** What Encode produces, taken apart the way Decode does. */
  lemma EncodedParts(hrp: seq<Byte>, v: seq<Byte>)
    requires AllSymbols(v)
    ensures var s, tail := Encoded(hrp, v), v + Checksum(hrp, v);
            && AllSymbols(tail) && Verifies(hrp, tail)
            && LastOne(s) == |hrp| && |s| == |hrp| + 1 + |v| + 6
            && s[..|hrp|] == hrp && s[|hrp| + 1..] == Chars(tail) && Revs(s[|hrp| + 1..]) == tail
  {
    hide LastOne, Verifies, Checksum, CharOf, RevOf;
    ChecksumVerifies(hrp, v);
    var tail := v + Checksum(hrp, v);
    CharsOfSymbols(tail);
    LastOneAt(hrp, Chars(tail));
  }

  lemma EncodedWellFormed(hrp: seq<Byte>, v: seq<Byte>)
    requires AllSymbols(v)
    ensures Encodable(hrp, v) ==> WellFormed(Encoded(hrp, v))
    ensures WellFormed(Encoded(hrp, v)) && Lowered(hrp) == hrp ==> Encodable(hrp, v)
  {
    hide LastOne, Verifies, Checksum, CharOf, RevOf, IsPrintable, IsUpper, IsLower, LowerCase;
    EncodedParts(hrp, v);
    var s, tail := Encoded(hrp, v), v + Checksum(hrp, v);
    CharsOfSymbols(tail);
    LoweredIsSame(hrp);
    SeparatorChar();
    if Encodable(hrp, v) {
      forall i | 0 <= i < |s| ensures IsPrintable(s[i]) && !IsUpper(s[i]) && (i > |hrp| ==> RevOf(s[i]) != 0xff) {
        if i > |hrp| {
          var j := i - |hrp| - 1;
          assert s[i] == s[|hrp| + 1..][j] == Chars(tail)[j] && RevOf(s[i]) == tail[j];
          assert tail[j] < 32;
        } else if i < |hrp| {
          assert s[i] == hrp[i];
        } else {
          assert s[i] == ONE_CHAR;
        }
      }
    }
    if WellFormed(s) && Lowered(hrp) == hrp {
      forall i | 0 <= i < |hrp| ensures IsPrintable(hrp[i]) && !IsUpper(hrp[i]) {
        assert s[i] == hrp[i];
      }
    }
  }

  lemma SeparatorChar()
    ensures IsPrintable(ONE_CHAR) && !IsUpper(ONE_CHAR)
  {}

  /** Decoding undoes encoding for exactly the encodable pairs (and, by accident, for the pair
      of empty strings, which is what a failure looks like). */
  lemma RoundTrip(hrp: seq<Byte>, v: seq<Byte>)
    requires AllSymbols(v)
    ensures DecodedFrom(Encoded(hrp, v)) == Decoded(hrp, v) <==> Encodable(hrp, v) || (hrp == [] && v == [])
  {
    hide LastOne, Verifies, Checksum, CharOf, RevOf, IsPrintable, IsUpper, WellFormed, LowerCase;
    EncodedParts(hrp, v);
    EncodedWellFormed(hrp, v);
    LoweredIsSame(hrp);
    var s, tail := Encoded(hrp, v), v + Checksum(hrp, v);
    assert tail[..|tail| - 6] == v;
    if WellFormed(s) && Lowered(hrp) != hrp {
      assert DecodedFrom(s).hrp in {Lowered(hrp), []};
    }
  }

  /** Every string that decodes is, in lower case, the encoding of what it decodes to: the
      checksum symbols are determined by the rest. */
  lemma DecodedReencodes(s: seq<Byte>)
    requires DecodedFrom(s) != FAILED
    ensures AllSymbols(DecodedFrom(s).data)
    ensures Encoded(DecodedFrom(s).hrp, DecodedFrom(s).data) == Lowered(s)
  {
    hide LastOne, Verifies, Checksum, CharOf, RevOf, LowerCase, IsPrintable;
    var pos, r := LastOne(s), DecodedFrom(s);
    var values := Revs(s[pos + 1..]);
    forall i | 0 <= i < |values| ensures values[i] < 32 && CharOf(values[i]) == LowerCase(s[pos + 1 + i]) {
      CharsetRev(s[pos + 1 + i]);
    }
    ChecksumVerifies(r.hrp, r.data);
    var again := r.data + Checksum(r.hrp, r.data);
    BurstsAreDetected(r.hrp, values, again, |r.data|);
    LowerSeparator();
    var t := Encoded(r.hrp, r.data);
    assert |t| == |s|;
    forall i | 0 <= i < |s| ensures t[i] == LowerCase(s[i]) {
      if i > pos {
        assert t[i] == Chars(again)[i - pos - 1] == CharOf(values[i - pos - 1]);
      } else if i < pos {
        assert t[i] == Lowered(s[..pos])[i];
      }
    }
  }

  lemma LowerSeparator()
    ensures LowerCase(ONE_CHAR) == ONE_CHAR
  {}
}
