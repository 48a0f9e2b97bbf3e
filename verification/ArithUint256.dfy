/** 256-bit unsigned arithmetic on eight 32-bit limbs, least significant first, and the proof of
    work computed with it.  A limb is an integer below 2^32; wrap-around is written out. */
module ArithUint256 {

  const B: nat := 0x1_0000_0000
  const WIDTH: nat := 8

  // ---------------------------------------------------------------------------------
  // Powers and products
  // ---------------------------------------------------------------------------------

  function Pow2(n: nat): (p: nat)
    ensures p >= 1
  {
    if n == 0 then 1 else 2 * Pow2(n - 1)
  }

  /** The weight of limb i. */
  function W(i: nat): (w: nat)
    ensures w >= 1
  {
    if i == 0 then 1 else B * W(i - 1)
  }

  lemma MulMono(a: int, b: int, c: int)
    requires a <= b && c >= 0
    ensures a * c <= b * c
  {}

  lemma MulStrict(a: int, b: int, c: int)
    requires a < b && c > 0
    ensures a * c < b * c
  {}

  lemma MulAssoc(a: int, b: int, c: int)
    ensures a * (b * c) == a * b * c
  {}

  lemma MulComm(a: int, b: int)
    ensures a * b == b * a
  {}

  lemma Distribute(a: int, b: int, c: int)
    ensures (a + b) * c == a * c + b * c && (a - b) * c == a * c - b * c
  {}

  lemma {:induction false} Pow2Add(a: nat, b: nat)
    ensures Pow2(a + b) == Pow2(a) * Pow2(b)
  {
    if a == 0 {
    } else {
      Pow2Add(a - 1, b);
      MulAssoc(2, Pow2(a - 1), Pow2(b));
    }
  }

  lemma {:induction false} WIs(i: nat)
    ensures W(i) == Pow2(32 * i)
  {
    if i == 0 {
    } else {
      WIs(i - 1);
      Pow2Add(32, 32 * (i - 1));
      Pow2Is32();
    }
  }

  lemma Pow2Is32()
    ensures Pow2(32) == B && Pow2(8) == 256 && Pow2(16) == 0x1_0000 && Pow2(24) == 0x100_0000
  {
    assert Pow2(8) == 256;
    Pow2Add(8, 8);
    Pow2Add(16, 8);
    Pow2Add(16, 16);
  }

  lemma {:induction false} Pow2Mono(a: nat, b: nat)
    requires a <= b
    ensures Pow2(a) <= Pow2(b)
  {
    if a < b {
      Pow2Mono(a, b - 1);
    }
  }

  lemma {:induction false} WAdd(i: nat, j: nat)
    ensures W(i + j) == W(i) * W(j)
  {
    if i == 0 {
    } else {
      WAdd(i - 1, j);
      MulAssoc(B, W(i - 1), W(j));
    }
  }

  /** A quotient and remainder are determined by their equation. */
  lemma DivIs(n: nat, d: nat, q: int, r: int)
    requires d > 0 && n == q * d + r && 0 <= r < d
    ensures q == n / d && r == n % d
  {
    var k := q - n / d;
    assert n == n / d * d + n % d;
    Distribute(q, n / d, d);
    if k >= 1 {
      MulMono(1, k, d);
    } else if k <= -1 {
      MulMono(k, -1, d);
    }
  }

  function Quot(n: nat, d: nat): (q: nat)
    requires d > 0
    ensures n == q * d + n % d && q <= n
  {
    QuotBound(n, d);
    n / d
  }

  lemma QuotBound(n: nat, d: nat)
    requires d > 0
    ensures 0 <= n / d <= n && n == n / d * d + n % d
  {
    var q := n / d;
    assert n == q * d + n % d;
    if q < 0 {
      MulMono(q, -1, d);
      assert false;
    }
    MulMono(1, d, q);
    MulComm(d, q);
  }

  // ---------------------------------------------------------------------------------
  // Bits of a limb
  // ---------------------------------------------------------------------------------

  /** Bitwise or. */
  function Or(x: nat, y: nat): (z: nat)
    decreases x + y
  {
    if x == 0 then y else if y == 0 then x
    else 2 * Or(x / 2, y / 2) + if x % 2 == 1 || y % 2 == 1 then 1 else 0
  }

  /** Numbers that share no bit: one below 2^s, one a multiple of it. */
  lemma {:induction false} OrDisjoint(x: nat, k: nat, s: nat)
    requires x < Pow2(s)
    ensures Or(x, k * Pow2(s)) == x + k * Pow2(s) == Or(k * Pow2(s), x)
    decreases s
  {
    var y := k * Pow2(s);
    if s > 0 && x != 0 && y != 0 {
      MulAssoc(k, 2, Pow2(s - 1));
      MulComm(k, 2);
      MulAssoc(2, k, Pow2(s - 1));
      assert y == 2 * (k * Pow2(s - 1));
      OrDisjoint(x / 2, k, s - 1);
    }
  }

  /** Bit t of a number. */
  predicate Bit(x: nat, t: nat) { x / Pow2(t) % 2 == 1 }

  // ---------------------------------------------------------------------------------
  // Limbs
  // ---------------------------------------------------------------------------------

  predicate Limbs(s: seq<int>) { forall i :: 0 <= i < |s| ==> 0 <= s[i] < B }

  /** The value of the first n limbs. */
  function PVal(s: seq<int>, n: nat): int
    requires n <= |s|
  {
    if n == 0 then 0 else PVal(s, n - 1) + s[n - 1] * W(n - 1)
  }

  function Val(s: seq<int>): int
    requires |s| == WIDTH
  {
    PVal(s, WIDTH)
  }

  lemma {:induction false} PValBound(s: seq<int>, n: nat)
    requires Limbs(s) && n <= |s|
    ensures 0 <= PVal(s, n) < W(n)
  {
    if n == 0 {
    } else {
      PValBound(s, n - 1);
      MulMono(0, s[n - 1], W(n - 1));
      MulMono(s[n - 1] + 1, B, W(n - 1));
      Distribute(s[n - 1], 1, W(n - 1));
    }
  }

  lemma {:induction false} PValSame(s: seq<int>, t: seq<int>, n: nat)
    requires n <= |s| && n <= |t| && forall i :: 0 <= i < n ==> s[i] == t[i]
    ensures PVal(s, n) == PVal(t, n)
  {
    if n == 0 {
    } else {
      PValSame(s, t, n - 1);
    }
  }

  /** Zero limbs on top add nothing. */
  lemma {:induction false} PValTop(s: seq<int>, n: nat, m: nat)
    requires n <= m <= |s| && forall i :: n <= i < m ==> s[i] == 0
    ensures PVal(s, m) == PVal(s, n)
  {
    if n < m {
      PValTop(s, n, m - 1);
    }
  }

  /** 2^256. */
  function Top(): (m: nat)
    ensures m >= 1
  {
    W(WIDTH)
  }

  lemma ValBound(s: seq<int>)
    requires Limbs(s) && |s| == WIDTH
    ensures 0 <= Val(s) < Top()
  {
    PValBound(s, WIDTH);
  }

  /** One limb of an addition with carry. */
  lemma CarryStep(n: nat, w: nat)
    ensures n % B * w + n / B * (B * w) == n * w && 0 <= n % B < B && n / B >= 0
  {
    assert n == n % B + n / B * B;
    Distribute(n % B, n / B * B, w);
    MulAssoc(n / B, B, w);
  }

  class Uint256 {
    const pn: array<int>

    ghost predicate Valid()
      reads pn
    {
      pn.Length == WIDTH && Limbs(pn[..])
    }

    ghost function Value(): (v: nat)
      requires Valid()
      reads pn
      ensures v < Top()
    {
      ValBound(pn[..]);
      Val(pn[..])
    }

    constructor (b: nat)
      requires b < B * B
      ensures Valid() && fresh(pn) && Value() == b
    {
      pn := new int[WIDTH](i => if i == 0 then b % B else if i == 1 then b / B else 0);
      new;
      SmallValue(pn[..], b);
    }

    constructor Copy(b: Uint256)
      requires b.Valid()
      ensures Valid() && fresh(pn) && pn[..] == b.pn[..]
    {
      pn := new int[WIDTH];
      new;
      for i := 0 to WIDTH
        invariant pn.Length == WIDTH && b.Valid() && b.pn[..] == old(b.pn[..])
        invariant forall j :: 0 <= j < i ==> pn[j] == b.pn[j]
      {
        pn[i] := b.pn[i];
      }
    }

    /** Assigns a 64-bit number. */
    method Assign(b: nat)
      requires Valid() && b < B * B
      modifies pn
      ensures Valid() && Value() == b
    {
      pn[0], pn[1] := b % B, b / B;
      for i := 2 to WIDTH
        invariant pn[0] == b % B && pn[1] == b / B && forall j :: 2 <= j < i ==> pn[j] == 0
      {
        pn[i] := 0;
      }
      SmallValue(pn[..], b);
    }

    method Complement() returns (ret: Uint256)
      requires Valid()
      ensures ret.Valid() && fresh(ret) && fresh(ret.pn) && ret.Value() == Top() - 1 - Value()
    {
      ret := new Uint256(0);
      for i := 0 to WIDTH
        invariant ret.Valid() && forall j :: 0 <= j < i ==> ret.pn[j] == B - 1 - pn[j]
        modifies ret.pn
      {
        ret.pn[i] := B - 1 - pn[i];
      }
      ComplementValue(pn[..], ret.pn[..], WIDTH);
    }

    method Increment()
      requires Valid()
      modifies pn
      ensures Valid() && Value() == (old(Value()) + 1) % Top()
    {
      ghost var was := pn[..];
      ValBound(was);
      var i := 0;
      while i < WIDTH
        invariant i <= WIDTH && Valid() && (forall j :: i <= j < WIDTH ==> pn[j] == was[j])
        invariant forall j :: 0 <= j < i ==> pn[j] == 0 && was[j] == B - 1
      {
        pn[i] := (pn[i] + 1) % B;
        if pn[i] != 0 {
          CarriedUp(was, pn[..], i);
          ValBound(pn[..]);
          return;
        }
        i := i + 1;
      }
      AllOnes(was, WIDTH);
      PValTop(pn[..], 0, WIDTH);
    }

    /** Adds with carry, modulo 2^256; `b` may be this number itself. */
    method Add(b: Uint256)
      requires Valid() && b.Valid()
      modifies pn
      ensures Valid() && Value() == (old(Value()) + old(b.Value())) % Top()
    {
      ghost var (s, t) := (pn[..], b.pn[..]);
      var carry := 0;
      for i := 0 to WIDTH
        invariant Valid() && 0 <= carry <= 1
        invariant forall j :: i <= j < WIDTH ==> pn[j] == s[j] && b.pn[j] == t[j]
        invariant PVal(pn[..], i) + carry * W(i) == PVal(s, i) + PVal(t, i)
      {
        var n := carry + pn[i] + b.pn[i];
        ghost var before := pn[..];
        pn[i] := n % B;
        PValSame(before, pn[..], i);
        AddStep(carry, s[i], t[i], n, W(i));
        carry := n / B;
      }
      ValBound(pn[..]);
      ValBound(s);
      ValBound(t);
      DivIs(Val(s) + Val(t), Top(), carry, Val(pn[..]));
    }

    method Negate() returns (ret: Uint256)
      requires Valid()
      ensures ret.Valid() && fresh(ret) && fresh(ret.pn) && ret.Value() == (Top() - Value()) % Top()
    {
      ret := Complement();
      ret.Increment();
    }

    method Subtract(b: Uint256)
      requires Valid() && b.Valid()
      modifies pn
      ensures Valid() && Value() == (old(Value()) - old(b.Value())) % Top()
    {
      hide W, PVal, Top;
      var minus := b.Negate();
      ghost var (x, y) := (Value(), b.Value());
      Add(minus);
      SubtractIs(x, y, Top());
    }

    method CompareTo(b: Uint256) returns (r: int)
      requires Valid() && b.Valid()
      ensures r == if Value() < b.Value() then -1 else if Value() > b.Value() then 1 else 0
    {
      var i := WIDTH;
      while i > 0
        invariant 0 <= i <= WIDTH && forall j :: i <= j < WIDTH ==> pn[j] == b.pn[j]
      {
        i := i - 1;
        if pn[i] < b.pn[i] {
          LessAt(pn[..], b.pn[..], i);
          return -1;
        }
        if pn[i] > b.pn[i] {
          LessAt(b.pn[..], pn[..], i);
          return 1;
        }
      }
      assert pn[..] == b.pn[..];
      r := 0;
    }

    method EqualTo(b: nat) returns (r: bool)
      requires Valid() && b < B * B
      ensures r <==> Value() == b
    {
      var i := WIDTH;
      while i > 2
        invariant 2 <= i <= WIDTH && forall j :: i <= j < WIDTH ==> pn[j] == 0
      {
        i := i - 1;
        if pn[i] != 0 {
          BigAt(pn[..], i);
          return false;
        }
      }
      ghost var v := pn[0] + pn[1] * B;
      SmallValue(pn[..], v);
      r := pn[1] == b / B && pn[0] == b % B;
    }

    method SetZero()
      requires Valid()
      modifies pn
      ensures Valid() && forall j :: 0 <= j < WIDTH ==> pn[j] == 0
    {
      for i := 0 to WIDTH
        invariant Valid() && forall j :: 0 <= j < i ==> pn[j] == 0
      {
        pn[i] := 0;
      }
    }

    /** Multiplies by 2^shift, modulo 2^256. */
    method ShiftLeft(shift: nat)
      requires Valid()
      modifies pn
      ensures Valid() && Value() == old(Value()) * Pow2(shift) % Top()
    {
      hide Out, Stay, Or, Pow2, W, PVal, Shifted, LeftPartly;
      var a := pn[..];
      SetZero();
      var k, s := shift / 32, shift % 32;
      LeftStart(a, pn[..], k, s);
      for i := 0 to WIDTH
        invariant Valid() && LeftPartly(a, pn[..], k, s, i)
      {
        ghost var before := pn[..];
        if i + k + 1 < WIDTH && s != 0 {
          pn[i + k + 1] := Or(pn[i + k + 1], Out(a[i], s));
        }
        if i + k < WIDTH {
          pn[i + k] := Or(pn[i + k], Stay(a[i], s));
        }
        LeftStep(a, before, pn[..], k, s, i);
      }
      LeftDone(a, pn[..], k, s);
      LeftValue(a, pn[..], k, s);
      assert 32 * k + s == shift;
    }

    /** Divides by 2^shift. */
    method ShiftRight(shift: nat)
      requires Valid()
      modifies pn
      ensures Valid() && Value() == old(Value()) / Pow2(shift)
    {
      hide Up, Rest, Or, Pow2, W, PVal, RightPartly;
      var a := pn[..];
      SetZero();
      var k, s := shift / 32, shift % 32;
      RightStart(a, pn[..], k, s);
      for i := 0 to WIDTH
        invariant Valid() && RightPartly(a, pn[..], k, s, i)
      {
        ghost var before := pn[..];
        if i - k - 1 >= 0 && s != 0 {
          pn[i - k - 1] := Or(pn[i - k - 1], Up(a[i], s));
        }
        if i - k >= 0 {
          pn[i - k] := Or(pn[i - k], Rest(a[i], s));
        }
        RightStep(a, before, pn[..], k, s, i);
      }
      RightDone(a, pn[..], k, s);
      RightValue(a, pn[..], k, s);
      assert 32 * k + s == shift;
    }

    /** The position of the highest bit set plus one, or zero. */
    method Bits() returns (n: nat)
      requires Valid()
      ensures n <= 256 && (n == 0 <==> Value() == 0) && (n > 0 ==> Pow2(n - 1) <= Value() < Pow2(n))
    {
      hide Pow2, W, PVal;
      var pos := WIDTH;
      while pos > 0
        invariant 0 <= pos <= WIDTH && forall j :: pos <= j < WIDTH ==> pn[j] == 0
      {
        pos := pos - 1;
        if pn[pos] != 0 {
          var nbits := HighBit(pn[pos]);
          BitsValue(pn[..], pos, nbits);
          return 32 * pos + nbits + 1;
        }
      }
      RightAllOut(pn[..]);
      n := 0;
    }

    /** Divides, by shifting and subtracting; fails on zero, and is then zero itself. */
    method Divide(b: Uint256) returns (ok: bool)
      requires Valid() && b.Valid()
      modifies pn
      ensures Valid() && (ok <==> old(b.Value()) != 0)
      ensures Value() == if ok then old(Value()) / old(b.Value()) else 0
    {
      hide Pow2, W, PVal, Or, Bit;
      var div := new Uint256.Copy(b);
      var num := new Uint256.Copy(this);
      ghost var (n, d) := (num.Value(), div.Value());
      ValBound(num.pn[..]);
      ValBound(div.pn[..]);
      Assign(0);
      NoBits(pn[..]);
      var numBits := num.Bits();
      var divBits := div.Bits();
      if divBits == 0 {
        return false;
      }
      if divBits > numBits {
        ShorterIsLess(n, d, numBits, divBits);
        return true;
      }
      var shift := numBits - divBits;
      ShiftFits(n, d, numBits, divBits);
      div.ShiftLeft(shift);
      ghost var top := shift;
      while shift >= 0
        invariant -1 <= shift <= top && Valid() && num.Valid() && div.Valid() && Dividing(num, div, n, d, shift)
      {
        DivideStep(num, div, n, d, shift);
        shift := shift - 1;
      }
      DivideDone(n, d, Value(), num.Value());
      ok := true;
    }

    /** The state of a division: `d` is shifted by `shift`, the quotient so far has no bits up to
        there, and the rest is less than twice the shifted divisor. */
    ghost predicate Dividing(num: Uint256, div: Uint256, n: nat, d: nat, shift: int)
      requires Valid() && num.Valid() && div.Valid() && shift >= -1
      reads pn, num.pn, div.pn
    {
      && (shift >= 0 ==> div.Value() == d * Pow2(shift))
      && num.Value() + Value() * d == n && 0 <= num.Value() < d * Pow2(shift + 1)
      && forall t :: 0 <= t <= shift ==> BitClear(pn[..], t)
    }

    method DivideStep(num: Uint256, div: Uint256, ghost n: nat, ghost d: nat, shift: nat)
      requires Valid() && num.Valid() && div.Valid() && shift < 256 && Dividing(num, div, n, d, shift)
      requires pn != num.pn && pn != div.pn && num.pn != div.pn
      modifies pn, num.pn, div.pn
      ensures Valid() && num.Valid() && div.Valid() && Dividing(num, div, n, d, shift - 1)
    {
      hide Pow2, W, PVal, Or, Bit, BitClear;
      ghost var (x, q) := (num.Value(), Value());
      ValBound(num.pn[..]);
      ValBound(div.pn[..]);
      var order := num.CompareTo(div);
      Halve(d, shift);
      if order >= 0 {
        num.Subtract(div);
        Reduced(x, d * Pow2(shift));
        SetBit(shift);
        StepArith(x, q, d, Pow2(shift));
      }
      div.ShiftRight(1);
    }

    /** Sets a bit that is clear. */
    method SetBit(t: nat)
      requires Valid() && t < 256 && forall u :: 0 <= u <= t ==> BitClear(pn[..], u)
      modifies pn
      ensures Valid() && Value() == old(Value()) + Pow2(t) && forall u :: 0 <= u < t ==> BitClear(pn[..], u)
    {
      hide Pow2, W, PVal, Or, Bit;
      ghost var was := pn[..];
      assert BitClear(pn[..], t);
      OrBit(pn[t / 32], t % 32);
      pn[t / 32] := Or(pn[t / 32], Pow2(t % 32));
      BitSetValue(was, pn[..], t);
    }

    /** Multiplies by one limb, modulo 2^256. */
    method MultiplyLimb(b32: nat)
      requires Valid() && b32 < B
      modifies pn
      ensures Valid() && Value() == old(Value()) * b32 % Top()
    {
      hide W;
      ghost var s := pn[..];
      var carry := 0;
      for i := 0 to WIDTH
        invariant Valid() && 0 <= carry < B && forall j :: i <= j < WIDTH ==> pn[j] == s[j]
        invariant PVal(pn[..], i) + carry * W(i) == PVal(s, i) * b32
      {
        LimbProduct(b32, pn[i], carry, 0);
        var n := carry + b32 * pn[i];
        ghost var before := pn[..];
        pn[i] := n % B;
        PValSame(before, pn[..], i);
        WNext(i);
        ScaleStep(PVal(s, i), PVal(before, i), carry, b32, s[i], n, W(i));
        carry := n / B;
      }
      ValBound(pn[..]);
      ValBound(s);
      MulMono(0, Val(s), b32);
      DivIs(Val(s) * b32, Top(), carry, Val(pn[..]));
    }

    /** Multiplies, modulo 2^256, row by row. */
    method Multiply(b: Uint256)
      requires Valid() && b.Valid()
      modifies pn
      ensures Valid() && Value() == old(Value()) * old(b.Value()) % Top()
    {
      hide W, PVal;
      var a := new Uint256(0);
      ghost var (s, t) := (pn[..], b.pn[..]);
      ValBound(s);
      ValBound(t);
      PValNone(s);
      ghost var over := 0;
      for j := 0 to WIDTH
        invariant Valid() && b.Valid() && a.Valid() && pn[..] == s && b.pn[..] == t && over >= 0
        invariant a.Value() + over * Top() == PVal(s, j) * Val(t)
        modifies a.pn
      {
        ghost var before := a.pn[..];
        ghost var more := a.AddRow(pn[j], b, j);
        PValNext(s, j);
        RowArith(PVal(s, j), s[j], W(j), Val(t), Val(before), Val(a.pn[..]), over, more, Top());
        over := over + more;
      }
      ValBound(a.pn[..]);
      MulMono(0, Val(s), Val(t));
      DivIs(Val(s) * Val(t), Top(), over, a.Value());
      ghost var r := a.pn[..];
      for i := 0 to WIDTH
        invariant a.pn[..] == r && forall k :: 0 <= k < i ==> pn[k] == r[k]
        modifies pn
      {
        pn[i] := a.pn[i];
      }
      assert pn[..] == r;
    }

    /** Adds x times `b`, shifted up by j limbs. */
    method AddRow(x: nat, b: Uint256, j: nat) returns (ghost over: nat)
      requires Valid() && b.Valid() && x < B && j < WIDTH && b.pn != pn
      modifies pn
      ensures Valid() && Value() + over * Top() == old(Value()) + x * W(j) * b.Value()
    {
      hide W, PVal;
      ghost var (s, t) := (pn[..], b.pn[..]);
      var carry, i := 0, 0;
      PValNone(t);
      while i + j < WIDTH
        invariant i + j <= WIDTH && Valid() && 0 <= carry < B && b.pn[..] == t
        invariant forall k :: i + j <= k < WIDTH ==> pn[k] == s[k]
        invariant PVal(pn[..], i + j) + carry * W(i + j) == PVal(s, i + j) + x * W(j) * PVal(t, i)
      {
        LimbProduct(x, b.pn[i], carry, pn[i + j]);
        var n := carry + pn[i + j] + x * b.pn[i];
        ghost var before := pn[..];
        pn[i + j] := n % B;
        RowLimb(before, pn[..], s, t, i, j, x, carry, n);
        carry := n / B;
        i := i + 1;
      }
      var y := UpperPart(t, i, WIDTH);
      WAdd(j, i);
      RowRest(Value(), Val(s), x, W(j), PVal(t, i), y, W(i), Val(t), carry, Top());
      over := carry + x * y;
    }

    /** Reads the compact form of a number; exact unless it overflows. */
    method SetCompact(nCompact: nat) returns (negative: bool, overflow: bool)
      requires Valid() && nCompact < B
      modifies pn
      ensures Valid() && Value() == CompactValue(nCompact) % Top()
      ensures overflow <==> CompactValue(nCompact) >= Top()
      ensures negative <==> SignBit(nCompact) && CompactValue(nCompact) != 0
    {
      hide Pow2, W, PVal;
      var nSize, nWord := nCompact / 0x100_0000, nCompact % 0x80_0000;
      if nSize <= 3 {
        SmallCompact(nWord, nSize);
        nWord := Quot(nWord, Pow2(8 * (3 - nSize)));
        Assign(nWord);
      } else {
        LargeCompact(nWord, nSize);
        Assign(nWord);
        ShiftLeft(8 * (nSize - 3));
      }
      negative := nWord != 0 && SignBit(nCompact);
      overflow := nWord != 0 && (nSize > 34 || (nWord > 0xff && nSize > 33) || (nWord > 0xffff && nSize > 32));
    }

    /** The low 64 bits. */
    method GetLow64() returns (n: nat)
      requires Valid()
      ensures n == Value() % (B * B) && n < B * B
    {
      n := pn[0] + pn[1] * B;
      Low64(pn[..]);
    }

    /** The compact form of a number: its top bits, at most 23 and at least 16 of them. */
    method GetCompact(fNegative: bool) returns (nCompact: nat)
      requires Valid()
      ensures nCompact < B && CompactOf(Value(), Mantissa(nCompact), Exponent(nCompact))
              && CompactValue(nCompact) < Top()
      ensures SignBit(nCompact) <==> fNegative && Mantissa(nCompact) != 0
      ensures Canonical(nCompact)
    {
      hide Pow2, W, PVal, Top, ScaledBy, Unit, CompactOf, SignBit, Mantissa, Exponent, Canonical, Shaped;
      var bits := Bits();
      var nSize := (bits + 7) / 8;
      var m: nat;
      if nSize <= 3 {
        m := GetLow64();
        SmallGet(Value(), bits, nSize);
        SmallShape(Value(), bits, nSize);
        m := m * Pow2(8 * (3 - nSize));
      } else {
        var bn := new Uint256.Copy(this);
        bn.ShiftRight(8 * (nSize - 3));
        m := bn.GetLow64();
        LargeGet(Value(), bits, nSize);
        LargeShape(Value(), m, nSize);
      }
      if SignBit(m) {
        m := m / 256;
        nSize := nSize + 1;
      }
      assert m < 0x80_0000;
      assert nSize < 256;
      nCompact := nSize * 0x100_0000 + m + if fNegative && m != 0 then 0x80_0000 else 0;
      Packed(m, nSize, fNegative && m != 0);
      ShapedPacks(m, nSize, fNegative && m != 0);
      CompactFits(Value(), m, nSize);
    }
  }

  lemma SubtractIs(x: int, y: int, m: int)
    requires 0 <= x < m && 0 <= y < m
    ensures (x + (m - y) % m) % m == (x - y) % m
  {
    if y == 0 {
      DivIs(m, m, 1, 0);
    } else {
      DivIs(m - y, m, 0, m - y);
      if x >= y {
        DivIs(x + m - y, m, 1, x - y);
        DivIs(x - y, m, 0, x - y);
      } else {
        DivIs(x + m - y, m, 0, x + m - y);
        NegMod(x - y, m);
      }
    }
  }

  lemma NegMod(d: int, m: int)
    requires -m < d < 0
    ensures d % m == d + m
  {}

  lemma AddStep(carry: nat, a: nat, b: nat, n: nat, w: nat)
    requires n == carry + a + b && a < B && b < B && carry <= 1
    ensures n % B * w + n / B * (B * w) == carry * w + a * w + b * w && 0 <= n / B <= 1
  {
    CarryStep(n, w);
    Distribute(carry + a, b, w);
    Distribute(carry, a, w);
  }

  lemma {:induction false} AllOnes(s: seq<int>, n: nat)
    requires n <= |s| && forall j :: 0 <= j < n ==> s[j] == B - 1
    ensures PVal(s, n) == W(n) - 1
  {
    if n == 0 {
    } else {
      AllOnes(s, n - 1);
      Distribute(B, 1, W(n - 1));
    }
  }

  /** A difference in the lower limbs is the difference of the values. */
  lemma {:induction false} Difference(s: seq<int>, t: seq<int>, n: nat, m: nat)
    requires n <= m <= |s| && m <= |t| && forall j :: n <= j < m ==> s[j] == t[j]
    ensures PVal(t, m) - PVal(s, m) == PVal(t, n) - PVal(s, n)
  {
    if n < m {
      Difference(s, t, n, m - 1);
    }
  }

  lemma CarriedUp(s: seq<int>, t: seq<int>, i: nat)
    requires i < |s| == |t| == WIDTH && (forall j :: i < j < WIDTH ==> s[j] == t[j]) && t[i] == s[i] + 1
    requires forall j :: 0 <= j < i ==> t[j] == 0 && s[j] == B - 1
    ensures Val(t) == Val(s) + 1
  {
    AllOnes(s, i);
    PValTop(t, 0, i);
    Distribute(s[i], 1, W(i));
    Difference(s, t, i + 1, WIDTH);
  }

  lemma LessAt(s: seq<int>, t: seq<int>, i: nat)
    requires Limbs(s) && Limbs(t) && i < |s| == |t| == WIDTH && s[i] < t[i]
    requires forall j :: i < j < WIDTH ==> s[j] == t[j]
    ensures Val(s) < Val(t)
  {
    PValBound(s, i);
    PValBound(t, i);
    MulMono(s[i] + 1, t[i], W(i));
    Distribute(s[i], 1, W(i));
    Difference(s, t, i + 1, WIDTH);
  }

  lemma BigAt(s: seq<int>, i: nat)
    requires Limbs(s) && 2 <= i < |s| == WIDTH && s[i] != 0 && forall j :: i < j < WIDTH ==> s[j] == 0
    ensures Val(s) >= B * B
  {
    PValTop(s, i + 1, WIDTH);
    PValBound(s, i);
    MulMono(1, s[i], W(i));
    WAdd(i - 2, 2);
    MulMono(1, W(i - 2), W(2));
    assert W(2) == B * B;
  }

  lemma SmallValue(s: seq<int>, b: nat)
    requires |s| == WIDTH && b < B * B && s[0] == b % B && s[1] == b / B && forall i :: 2 <= i < WIDTH ==> s[i] == 0
    ensures Limbs(s) && Val(s) == b
  {
    PValTop(s, 2, WIDTH);
    assert W(0) == 1 && W(1) == B;
    assert PVal(s, 1) == s[0] && PVal(s, 2) == s[0] + s[1] * B;
  }

  lemma {:induction false} ComplementValue(s: seq<int>, t: seq<int>, n: nat)
    requires n <= |s| == |t| && forall j :: 0 <= j < n ==> t[j] == B - 1 - s[j]
    ensures PVal(t, n) == W(n) - 1 - PVal(s, n)
  {
    if n == 0 {
    } else {
      ComplementValue(s, t, n - 1);
      Distribute(B - 1, s[n - 1], W(n - 1));
      Distribute(B, 1, W(n - 1));
    }
  }

  // ---------------------------------------------------------------------------------
  // Shifting left
  // ---------------------------------------------------------------------------------

  /** The part of a limb that a shift by `s` bits moves into the next limb, and the part that stays. */
  function Out(a: nat, s: nat): nat
    requires s < 32
  {
    Quot(a, Pow2(32 - s))
  }

  function Stay(a: nat, s: nat): nat { a * Pow2(s) % B }

  lemma SplitLimb(a: nat, s: nat)
    requires a < B && s < 32
    ensures a * Pow2(s) == Out(a, s) * B + Stay(a, s) && 0 <= Out(a, s) < Pow2(s) && 0 <= Stay(a, s) < B
    ensures Stay(a, s) == a % Pow2(32 - s) * Pow2(s)
  {
    assert Pow2(32 - s) * Pow2(s) == B by {
      Pow2Add(32 - s, s);
      Pow2Is32();
    }
    SplitParts(a, Pow2(32 - s), Pow2(s));
  }

  lemma SplitParts(a: nat, d: nat, p: nat)
    requires d > 0 && p > 0 && d * p == B && a < B
    ensures a * p == a / d * B + a * p % B && 0 <= a / d < p && a * p % B == a % d * p
  {
    var (q, r) := (a / d, a % d);
    assert a == q * d + r;
    SplitInt(a, d, p, q, r);
    DivIs(a * p, B, q, r * p);
  }

  lemma SplitInt(a: nat, d: nat, p: nat, q: nat, r: nat)
    requires d > 0 && p > 0 && d * p == B && a == q * d + r && r < d && a < B
    ensures a * p == q * B + r * p && 0 <= r * p < B && q < p
  {
    Distribute(q * d, r, p);
    MulAssoc(q, d, p);
    MulMono(0, r, p);
    MulStrict(r, d, p);
    if q >= p {
      MulMono(p, q, d);
      MulComm(p, d);
      assert false;
    }
  }

  /** Limb j of a number shifted by less than a limb. */
  function Shifted(a: seq<int>, s: nat, j: nat): nat
    requires Limbs(a) && s < 32 && j < |a|
  {
    Stay(a[j], s) + if j == 0 then 0 else Out(a[j - 1], s)
  }

  lemma ShiftedLimb(a: seq<int>, s: nat, j: nat)
    requires Limbs(a) && s < 32 && j < |a|
    ensures 0 <= Shifted(a, s, j) < B
    ensures j > 0 ==> Or(Out(a[j - 1], s), Stay(a[j], s)) == Shifted(a, s, j)
  {
    hide Out, Stay, Or;
    SplitLimb(a[j], s);
    if j > 0 {
      SplitLimb(a[j - 1], s);
      OrDisjoint(Out(a[j - 1], s), a[j] % Pow2(32 - s), s);
    }
    MulMono(a[j] % Pow2(32 - s) + 1, Pow2(32 - s), Pow2(s));
    Distribute(a[j] % Pow2(32 - s), 1, Pow2(s));
    Pow2Add(32 - s, s);
    Pow2Is32();
  }

  /** What a shift by less than a limb does to the value; the part that leaves the first n limbs
      is kept apart. */
  lemma {:induction false} ShiftedValue(a: seq<int>, s: nat, c: seq<int>, n: nat)
    requires Limbs(a) && s < 32 && n <= |a| && n <= |c| && forall j :: 0 <= j < n ==> c[j] == Shifted(a, s, j)
    ensures PVal(c, n) + (if n == 0 then 0 else Out(a[n - 1], s) * W(n)) == PVal(a, n) * Pow2(s)
  {
    hide Out, Stay;
    if n == 0 {
    } else {
      ShiftedValue(a, s, c, n - 1);
      SplitLimb(a[n - 1], s);
      var (x, w, p) := (a[n - 1], W(n - 1), Pow2(s));
      var o := if n == 1 then 0 else Out(a[n - 2], s);
      Distribute(Stay(x, s), o, w);
      Distribute(Out(x, s) * B, Stay(x, s), w);
      MulAssoc(Out(x, s), B, w);
      Distribute(PVal(a, n - 1), x * w, p);
      MulAssoc(x, p, w);
      MulAssoc(x, w, p);
      MulComm(p, w);
    }
  }

  /** Moving limbs up by k positions multiplies by W(k). */
  lemma {:induction false} Moved(c: seq<int>, r: seq<int>, k: nat, n: nat)
    requires n <= |c| && k + n <= |r| && (forall j :: 0 <= j < k ==> r[j] == 0)
             && (forall j :: 0 <= j < n ==> r[k + j] == c[j])
    ensures PVal(r, k + n) == PVal(c, n) * W(k)
  {
    if n == 0 {
      PValTop(r, 0, k);
    } else {
      Moved(c, r, k, n - 1);
      assert r[k + (n - 1)] == c[n - 1];
      WAdd(n - 1, k);
      Distribute(PVal(c, n - 1), c[n - 1] * W(n - 1), W(k));
      MulAssoc(c[n - 1], W(n - 1), W(k));
    }
  }

  /** The value is that of the lower limbs plus a multiple of their weight. */
  lemma {:induction false} UpperPart(a: seq<int>, n: nat, m: nat) returns (x: nat)
    requires Limbs(a) && n <= m <= |a|
    ensures PVal(a, m) == PVal(a, n) + x * W(n)
  {
    if n == m {
      x := 0;
    } else {
      var y := UpperPart(a, n, m - 1);
      WAdd(m - 1 - n, n);
      x := y + a[m - 1] * W(m - 1 - n);
      Distribute(y, a[m - 1] * W(m - 1 - n), W(n));
      MulAssoc(a[m - 1], W(m - 1 - n), W(n));
      MulMono(0, a[m - 1], W(m - 1 - n));
    }
  }

  function ShiftedLimbs(a: seq<int>, s: nat, n: nat): (c: seq<int>)
    requires Limbs(a) && s < 32 && n <= |a|
    ensures |c| == n && forall j :: 0 <= j < n ==> c[j] == Shifted(a, s, j)
  {
    seq(n, j requires 0 <= j < n => Shifted(a, s, j))
  }

  /** The limbs of a number shifted left by k limbs and s bits. */
  ghost predicate LeftLimbs(a: seq<int>, r: seq<int>, k: nat, s: nat)
    requires Limbs(a) && |a| == |r| == WIDTH && s < 32
  {
    forall j :: 0 <= j < WIDTH ==> r[j] == if j < k then 0 else Shifted(a, s, j - k)
  }

  lemma LeftValue(a: seq<int>, r: seq<int>, k: nat, s: nat)
    requires Limbs(a) && |a| == |r| == WIDTH && s < 32 && Limbs(r) && LeftLimbs(a, r, k, s)
    ensures Val(r) == Val(a) * Pow2(32 * k + s) % Top()
  {
    hide Pow2, W, Out, Stay, PVal, Shifted;
    Pow2Add(32 * k, s);
    WIs(k);
    MulComm(W(k), Pow2(s));
    MulAssoc(Val(a), Pow2(s), W(k));
    ValBound(a);
    ValBound(r);
    if k >= WIDTH {
      LeftAllOut(a, r, k, s);
    } else {
      LeftSome(a, r, k, s);
    }
  }

  lemma LeftAllOut(a: seq<int>, r: seq<int>, k: nat, s: nat)
    requires Limbs(a) && |a| == |r| == WIDTH && s < 32 && LeftLimbs(a, r, k, s) && k >= WIDTH && 0 <= Val(a)
    ensures Val(r) == Val(a) * Pow2(s) * W(k) % Top()
  {
    hide Pow2, W, Out, Stay, Shifted;
    PValTop(r, 0, WIDTH);
    assert Val(r) == 0;
    WAdd(k - WIDTH, WIDTH);
    var n := Val(a) * Pow2(s);
    MulMono(0, Val(a), Pow2(s));
    MulAssoc(n, W(k - WIDTH), W(WIDTH));
    MulMono(0, n, W(k));
    DivIs(n * W(k), Top(), n * W(k - WIDTH), 0);
  }

  lemma LeftSome(a: seq<int>, r: seq<int>, k: nat, s: nat)
    requires Limbs(a) && |a| == |r| == WIDTH && s < 32 && Limbs(r) && LeftLimbs(a, r, k, s) && k < WIDTH
    requires 0 <= Val(a) && 0 <= Val(r) < Top()
    ensures Val(r) == Val(a) * Pow2(s) * W(k) % Top()
  {
    hide Pow2, W, Out, Stay, PVal, Shifted;
    var n := WIDTH - k;
    var c := ShiftedLimbs(a, s, n);
    ShiftedValue(a, s, c, n);
    Moved(c, r, k, n);
    var x := UpperPart(a, n, WIDTH);
    WAdd(n, k);
    SplitLimb(a[n - 1], s);
    LeftArith(Val(a), PVal(a, n), x, W(n), Pow2(s), PVal(c, n), Out(a[n - 1], s), W(k));
    MulMono(0, Val(a), Pow2(s));
    MulMono(0, Val(a) * Pow2(s), W(k));
    DivIs(Val(a) * Pow2(s) * W(k), Top(), Out(a[n - 1], s) + x * Pow2(s), Val(r));
  }

  lemma LeftArith(v: int, low: int, x: int, wn: int, p: int, c: int, o: int, wk: int)
    requires v == low + x * wn && c + o * wn == low * p
    ensures v * p * wk == (o + x * p) * (wn * wk) + c * wk
  {
    calc {
      v * p * wk;
      { Distribute(low, x * wn, p); }
      (low * p + x * wn * p) * wk;
      { MulAssoc(x, wn, p); MulComm(wn, p); MulAssoc(x, p, wn); }
      (c + o * wn + x * p * wn) * wk;
      { Distribute(o, x * p, wn); }
      (c + (o + x * p) * wn) * wk;
      { Distribute(c, (o + x * p) * wn, wk); MulAssoc(o + x * p, wn, wk); }
      c * wk + (o + x * p) * (wn * wk);
    }
  }

  /** The first i limbs are shifted; limb i + k holds what limb i - 1 sent up. */
  ghost predicate LeftPartly(a: seq<int>, r: seq<int>, k: nat, s: nat, i: nat)
    requires Limbs(a) && |a| == |r| == WIDTH && s < 32 && i <= WIDTH
  {
    forall j :: 0 <= j < WIDTH ==>
                  r[j] == if j < k then 0
                          else if j < i + k then Shifted(a, s, j - k)
                          else if j == i + k && i > 0 then Out(a[i - 1], s)
                          else 0
  }

  lemma LeftStart(a: seq<int>, r: seq<int>, k: nat, s: nat)
    requires Limbs(a) && |a| == |r| == WIDTH && s < 32 && forall j :: 0 <= j < WIDTH ==> r[j] == 0
    ensures LeftPartly(a, r, k, s, 0)
  {}

  lemma LeftDone(a: seq<int>, r: seq<int>, k: nat, s: nat)
    requires Limbs(a) && |a| == |r| == WIDTH && s < 32 && LeftPartly(a, r, k, s, WIDTH)
    ensures LeftLimbs(a, r, k, s)
  {}

  lemma LeftStep(a: seq<int>, r: seq<int>, t: seq<int>, k: nat, s: nat, i: nat)
    requires Limbs(a) && Limbs(r) && |a| == |r| == |t| == WIDTH && s < 32 && i < WIDTH && LeftPartly(a, r, k, s, i)
    requires forall j :: 0 <= j < WIDTH && j != i + k && j != i + k + 1 ==> t[j] == r[j]
    requires i + k < WIDTH ==> t[i + k] == Or(r[i + k], Stay(a[i], s))
    requires i + k + 1 < WIDTH ==> t[i + k + 1] == if s != 0 then Or(r[i + k + 1], Out(a[i], s)) else r[i + k + 1]
    ensures Limbs(t) && LeftPartly(a, t, k, s, i + 1)
  {
    hide Out, Stay, Or, Shifted;
    LeftLimb(a, k, s, i);
  }

  lemma LeftLimb(a: seq<int>, k: nat, s: nat, i: nat)
    requires Limbs(a) && |a| == WIDTH && s < 32 && i < WIDTH
    ensures 0 <= Out(a[i], s) < B && (s == 0 ==> Out(a[i], s) == 0) && Or(0, Out(a[i], s)) == Out(a[i], s)
    ensures 0 <= Shifted(a, s, i) < B
    ensures Or(if i == 0 then 0 else Out(a[i - 1], s), Stay(a[i], s)) == Shifted(a, s, i)
  {
    hide Pow2, Stay;
    SplitLimb(a[i], s);
    ShiftedLimb(a, s, i);
    Pow2Mono(s, 32);
    Pow2Is32();
  }

  // ---------------------------------------------------------------------------------
  // Shifting right
  // ---------------------------------------------------------------------------------

  /** The part of a limb that a shift by `s` bits leaves, and the part that goes to the top of the
      limb below. */
  function Rest(a: nat, s: nat): nat { Quot(a, Pow2(s)) }

  function Up(a: nat, s: nat): nat
    requires s < 32
  {
    a * Pow2(32 - s) % B
  }

  lemma SplitDown(a: nat, s: nat)
    requires a < B && s < 32
    ensures a == Rest(a, s) * Pow2(s) + a % Pow2(s) && 0 <= Rest(a, s) < Pow2(32 - s) <= B
    ensures Up(a, s) == a % Pow2(s) * Pow2(32 - s) && Up(a, s) * Pow2(s) == a % Pow2(s) * B && 0 <= Up(a, s) < B
    ensures s == 0 ==> Up(a, s) == 0
  {
    assert Pow2(s) * Pow2(32 - s) == B && Pow2(32 - s) <= B by {
      Pow2Add(s, 32 - s);
      Pow2Is32();
      Pow2Mono(32 - s, 32);
    }
    SplitDownParts(a, Pow2(s), Pow2(32 - s));
    assert s == 0 ==> Pow2(s) == 1;
  }

  lemma SplitDownParts(a: nat, d: nat, p: nat)
    requires d > 0 && p > 0 && d * p == B && a < B
    ensures a == a / d * d + a % d && 0 <= a / d < p && a * p % B == a % d * p && a * p % B * d == a % d * B
            && 0 <= a * p % B < B
    ensures d == 1 ==> a * p % B == 0
  {
    SplitParts(a, d, p);
    MulAssoc(a % d, p, d);
    MulComm(p, d);
  }

  /** Limb j of a number shifted down by less than a limb; `b` starts at limb 0 of the result. */
  function Lowered(b: seq<int>, s: nat, j: nat): nat
    requires Limbs(b) && s < 32 && j < |b|
  {
    Rest(b[j], s) + if j + 1 < |b| then Up(b[j + 1], s) else 0
  }

  lemma LoweredLimb(b: seq<int>, s: nat, j: nat)
    requires Limbs(b) && s < 32 && j < |b|
    ensures 0 <= Rest(b[j], s) < B && 0 <= Lowered(b, s, j) < B
    ensures j + 1 < |b| ==> Or(Rest(b[j], s), Up(b[j + 1], s)) == Lowered(b, s, j) && (s == 0 ==> Up(b[j + 1], s) == 0)
    ensures Or(0, Rest(b[j], s)) == Rest(b[j], s)
  {
    hide Rest, Up, Pow2;
    SplitDown(b[j], s);
    if j + 1 < |b| {
      SplitDown(b[j + 1], s);
      OrDisjoint(Rest(b[j], s), b[j + 1] % Pow2(s), 32 - s);
      MulMono(b[j + 1] % Pow2(s) + 1, Pow2(s), Pow2(32 - s));
      Distribute(b[j + 1] % Pow2(s), 1, Pow2(32 - s));
      Pow2Add(s, 32 - s);
      Pow2Is32();
    }
  }

  /** What such a shift does to the value, up to what leaves at the bottom and comes in on top. */
  lemma {:induction false} LoweredValue(b: seq<int>, s: nat, c: seq<int>, n: nat)
    requires Limbs(b) && s < 32 && 0 < n <= |b| && n <= |c| && forall j :: 0 <= j < n ==> c[j] == Lowered(b, s, j)
    ensures PVal(c, n) * Pow2(s) + b[0] % Pow2(s) == PVal(b, n) + if n < |b| then b[n] % Pow2(s) * W(n) else 0
  {
    hide Rest, Up, Pow2;
    var (w, p) := (W(n - 1), Pow2(s));
    SplitDown(b[n - 1], s);
    if n < |b| {
      SplitDown(b[n], s);
    }
    if n == 1 {
      assert PVal(c, 0) == 0 == PVal(b, 0) && W(0) == 1;
      Distribute(Rest(b[0], s), if n < |b| then Up(b[1], s) else 0, p);
    } else {
      LoweredValue(b, s, c, n - 1);
      LoweredArith(PVal(c, n - 1), PVal(b, n - 1), Rest(b[n - 1], s), if n < |b| then Up(b[n], s) else 0, b[n - 1],
                   b[n - 1] % p, if n < |b| then b[n] % p else 0, b[0] % p, w, p);
    }
  }

  lemma LoweredArith(c: int, v: int, q: int, u: int, x: int, m: int, next: int, m0: int, w: int, p: int)
    requires c * p + m0 == v + m * w && x == q * p + m && u * p == next * B
    ensures (c + (q + u) * w) * p + m0 == v + x * w + next * (B * w)
  {
    calc {
      (c + (q + u) * w) * p + m0;
      { Distribute(c, (q + u) * w, p); MulAssoc(q + u, w, p); MulComm(w, p); MulAssoc(q + u, p, w); }
      c * p + (q + u) * p * w + m0;
      { Distribute(q, u, p); Distribute(q * p, u * p, w); }
      v + m * w + q * p * w + u * p * w;
      { Distribute(q * p, m, w); }
      v + x * w + next * B * w;
      { MulAssoc(next, B, w); }
      v + x * w + next * (B * w);
    }
  }

  /** The limbs from k on are the quotient by their weight. */
  lemma {:induction false} Dropped(a: seq<int>, k: nat, n: nat)
    requires k + n <= |a|
    ensures PVal(a, k + n) == PVal(a, k) + PVal(a[k..], n) * W(k)
  {
    if n == 0 {
    } else {
      Dropped(a, k, n - 1);
      assert a[k..][n - 1] == a[k + n - 1];
      WAdd(n - 1, k);
      Distribute(PVal(a[k..], n - 1), a[k + n - 1] * W(n - 1), W(k));
      MulAssoc(a[k + n - 1], W(n - 1), W(k));
    }
  }

  ghost predicate RightLimbs(a: seq<int>, r: seq<int>, k: nat, s: nat)
    requires Limbs(a) && |a| == |r| == WIDTH && s < 32
  {
    forall j :: 0 <= j < WIDTH ==> r[j] == if j + k < WIDTH then Lowered(a[k..], s, j) else 0
  }

  lemma RightValue(a: seq<int>, r: seq<int>, k: nat, s: nat)
    requires Limbs(a) && |a| == |r| == WIDTH && s < 32 && Limbs(r) && RightLimbs(a, r, k, s)
    ensures Val(r) == Val(a) / Pow2(32 * k + s)
  {
    hide Pow2, W, PVal, Lowered;
    Pow2Add(32 * k, s);
    WIs(k);
    MulComm(W(k), Pow2(s));
    ValBound(a);
    if k >= WIDTH {
      RightAllOut(r);
      WAdd(k - WIDTH, WIDTH);
      MulMono(1, W(k - WIDTH), W(WIDTH));
      MulMono(1, Pow2(s), W(k));
      DivIs(Val(a), Pow2(s) * W(k), 0, Val(a));
    } else {
      RightSome(a, r, k, s);
    }
  }

  lemma RightAllOut(r: seq<int>)
    requires |r| == WIDTH && forall j :: 0 <= j < WIDTH ==> r[j] == 0
    ensures Val(r) == 0
  {
    PValTop(r, 0, WIDTH);
  }

  lemma RightSome(a: seq<int>, r: seq<int>, k: nat, s: nat)
    requires Limbs(a) && |a| == |r| == WIDTH && s < 32 && Limbs(r) && RightLimbs(a, r, k, s) && k < WIDTH && 0 <= Val(a)
    ensures Val(r) == Val(a) / (Pow2(s) * W(k))
  {
    hide Pow2, W, PVal, Lowered;
    var (n, b) := (WIDTH - k, a[k..]);
    assert |b| == n && forall j :: 0 <= j < n ==> b[j] == a[k + j];
    LoweredValue(b, s, r, n);
    PValTop(r, n, WIDTH);
    Dropped(a, k, n);
    PValBound(a, k);
    ModBound(b[0], Pow2(s));
    RightArith(Val(a), PVal(a, k), PVal(b, n), W(k), Pow2(s), Val(r), b[0] % Pow2(s));
  }

  lemma ModBound(x: nat, p: nat)
    requires p > 0
    ensures 0 <= x % p < p
  {}

  lemma RightArith(v: nat, low: int, high: int, wk: nat, p: nat, q: int, m: int)
    requires wk > 0 && p > 0 && v == low + high * wk && q * p + m == high && 0 <= low < wk && 0 <= m < p
    ensures p * wk > 0 && q == v / (p * wk)
  {
    MulStrict(0, p, wk);
    Distribute(q * p, m, wk);
    MulAssoc(q, p, wk);
    MulMono(0, m, wk);
    MulMono(m + 1, p, wk);
    Distribute(m, 1, wk);
    DivIs(v, p * wk, q, m * wk + low);
  }

  ghost predicate RightPartly(a: seq<int>, r: seq<int>, k: nat, s: nat, i: nat)
    requires Limbs(a) && |a| == |r| == WIDTH && s < 32 && i <= WIDTH
  {
    forall j :: 0 <= j < WIDTH ==>
                  r[j] == if j + k >= i then 0
                          else if j + k + 1 < i then Lowered(a[k..], s, j)
                          else Rest(a[j + k], s)
  }

  lemma RightStart(a: seq<int>, r: seq<int>, k: nat, s: nat)
    requires Limbs(a) && |a| == |r| == WIDTH && s < 32 && forall j :: 0 <= j < WIDTH ==> r[j] == 0
    ensures RightPartly(a, r, k, s, 0)
  {}

  lemma RightDone(a: seq<int>, r: seq<int>, k: nat, s: nat)
    requires Limbs(a) && |a| == |r| == WIDTH && s < 32 && RightPartly(a, r, k, s, WIDTH)
    ensures RightLimbs(a, r, k, s)
  {
    hide Rest, Up;
  }

  lemma RightStep(a: seq<int>, r: seq<int>, t: seq<int>, k: nat, s: nat, i: nat)
    requires Limbs(a) && Limbs(r) && |a| == |r| == |t| == WIDTH && s < 32 && i < WIDTH && RightPartly(a, r, k, s, i)
    requires forall j :: 0 <= j < WIDTH && j != i - k && j != i - k - 1 ==> t[j] == r[j]
    requires i - k >= 0 ==> t[i - k] == Or(r[i - k], Rest(a[i], s))
    requires i - k - 1 >= 0 ==> t[i - k - 1] == if s != 0 then Or(r[i - k - 1], Up(a[i], s)) else r[i - k - 1]
    ensures Limbs(t) && RightPartly(a, t, k, s, i + 1)
  {
    hide Rest, Up, Or;
    if i >= k {
      var b := a[k..];
      assert b[i - k] == a[i];
      LoweredLimb(b, s, i - k);
      if i > k {
        assert b[i - k - 1] == a[i - 1];
        LoweredLimb(b, s, i - k - 1);
      }
    }
  }

  // ---------------------------------------------------------------------------------
  // Bits and division
  // ---------------------------------------------------------------------------------

  method HighBit(x: nat) returns (t: nat)
    requires 0 < x < B
    ensures t < 32 && Pow2(t) <= x < Pow2(t + 1)
  {
    hide Pow2;
    Pow2Is32();
    t := 31;
    while t > 0
      invariant t < 32 && x < Pow2(t + 1)
    {
      BitOfTop(x, t);
      if Bit(x, t) {
        return;
      }
      t := t - 1;
    }
    Pow2One();
  }

  lemma Pow2One()
    ensures Pow2(0) == 1 && Pow2(1) == 2
  {}

  lemma BitOfTop(x: nat, t: nat)
    requires x < Pow2(t + 1)
    ensures Bit(x, t) <==> x >= Pow2(t)
  {
    var p := Pow2(t);
    if x >= p {
      DivIs(x, p, 1, x - p);
    } else {
      DivIs(x, p, 0, x);
    }
  }

  lemma BitsValue(s: seq<int>, pos: nat, t: nat)
    requires Limbs(s) && |s| == WIDTH && pos < WIDTH && t < 32 && Pow2(t) <= s[pos] < Pow2(t + 1)
    requires forall j :: pos < j < WIDTH ==> s[j] == 0
    ensures Pow2(32 * pos + t) <= Val(s) < Pow2(32 * pos + t + 1)
  {
    hide Pow2;
    PValTop(s, pos + 1, WIDTH);
    PValBound(s, pos);
    WIs(pos);
    Pow2Add(32 * pos, t);
    Pow2Add(32 * pos, t + 1);
    MulMono(Pow2(t), s[pos], W(pos));
    MulMono(s[pos] + 1, Pow2(t + 1), W(pos));
    Distribute(s[pos], 1, W(pos));
    MulComm(Pow2(t), W(pos));
    MulComm(Pow2(t + 1), W(pos));
  }

  ghost predicate BitClear(s: seq<int>, t: nat)
    requires Limbs(s) && |s| == WIDTH
  {
    t < 256 && !Bit(s[t / 32], t % 32)
  }

  lemma NoBits(s: seq<int>)
    requires Limbs(s) && |s| == WIDTH && Val(s) == 0
    ensures forall t :: 0 <= t < 256 ==> BitClear(s, t)
  {
    hide Pow2, W, PVal;
    forall j | 0 <= j < WIDTH ensures s[j] == 0 {
      ZeroLimb(s, j);
    }
    forall t | 0 <= t < 256 ensures BitClear(s, t) {
      DivIs(0, Pow2(t % 32), 0, 0);
    }
  }

  lemma ZeroLimb(s: seq<int>, j: nat)
    requires Limbs(s) && |s| == WIDTH && Val(s) == 0 && j < WIDTH
    ensures s[j] == 0
  {
    PValBound(s, j);
    var x := UpperPart(s, j + 1, WIDTH);
    MulMono(0, x, W(j + 1));
    if s[j] > 0 {
      MulMono(1, s[j], W(j));
      assert false;
    }
  }

  lemma {:induction false} OrBit(x: nat, t: nat)
    requires !Bit(x, t)
    ensures Or(x, Pow2(t)) == x + Pow2(t)
    decreases t
  {
    if t == 0 {
      assert Pow2(0) == 1;
      assert x / 1 == x;
      if x != 0 {
        assert Or(x / 2, 0) == x / 2;
      }
    } else if x != 0 {
      HalfDiv(x, Pow2(t - 1));
      OrBit(x / 2, t - 1);
    }
  }

  lemma HalfDiv(x: nat, p: nat)
    requires p > 0
    ensures x / 2 / p == x / (2 * p)
  {
    var (h, q) := (x / 2, x / 2 / p);
    assert h == q * p + h % p && x == 2 * h + x % 2;
    MulAssoc(2, q, p);
    MulComm(2, q);
    MulAssoc(q, 2, p);
    DivIs(x, 2 * p, q, 2 * (h % p) + x % 2);
  }

  /** Setting bit t of a limb where it is clear: the limb does not overflow. */
  lemma BitFits(x: nat, t: nat)
    requires x < B && t < 32 && !Bit(x, t)
    ensures x + Pow2(t) < B
  {
    hide Pow2;
    var (p, m) := (Pow2(t), Pow2(32 - t));
    Pow2Add(t, 32 - t);
    Pow2Add(1, 31 - t);
    Pow2One();
    Pow2Is32();
    BitFitsArith(x, p, Pow2(31 - t));
  }

  lemma BitFitsArith(x: nat, p: nat, h: nat)
    requires p > 0 && p * (2 * h) == B && x < B && x / p % 2 == 0
    ensures x + p < B
  {
    var y := x / p;
    assert x == y * p + x % p;
    if y + 2 > 2 * h {
      assert y >= 2 * h;
      MulMono(2 * h, y, p);
      MulComm(p, 2 * h);
      assert false;
    }
    MulMono(y + 2, 2 * h, p);
    Distribute(y, 2, p);
    MulComm(p, 2 * h);
  }

  /** ... and the bits below stay as they are. */
  lemma LowerBits(x: nat, t: nat, u: nat)
    requires u < t
    ensures Bit(x + Pow2(t), u) == Bit(x, u)
  {
    hide Pow2;
    Pow2Add(t - u, u);
    Pow2Add(1, t - u - 1);
    Pow2One();
    LowerBitsArith(x, Pow2(u), Pow2(t - u - 1));
  }

  lemma LowerBitsArith(x: nat, p: nat, h: nat)
    requires p > 0
    ensures x + 2 * h * p >= 0 && (x + 2 * h * p) / p % 2 == x / p % 2
  {
    var q := x / p;
    assert x == q * p + x % p;
    Distribute(q, 2 * h, p);
    MulMono(0, 2 * h, p);
    DivIs(x + 2 * h * p, p, q + 2 * h, x % p);
  }

  lemma BitSetValue(s: seq<int>, r: seq<int>, t: nat)
    requires Limbs(s) && |s| == |r| == WIDTH && t < 256 && forall u :: 0 <= u <= t ==> BitClear(s, u)
    requires r == s[t / 32 := s[t / 32] + Pow2(t % 32)]
    ensures Limbs(r) && Val(r) == Val(s) + Pow2(t) && forall u :: 0 <= u < t ==> BitClear(r, u)
  {
    hide Pow2, Bit;
    var (i, b) := (t / 32, t % 32);
    assert BitClear(s, t);
    BitFits(s[i], b);
    forall u | 0 <= u < t ensures BitClear(r, u) {
      assert BitClear(s, u);
      if u / 32 == i {
        LowerBits(s[i], b, u % 32);
      }
    }
    PValSame(s, r, i);
    Distribute(s[i], Pow2(b), W(i));
    Difference(s, r, i + 1, WIDTH);
    WIs(i);
    Pow2Add(b, 32 * i);
    assert t == b + 32 * i;
  }

  lemma ShorterIsLess(n: nat, d: nat, numBits: nat, divBits: nat)
    requires numBits < divBits && (numBits == 0 ==> n == 0) && (numBits > 0 ==> n < Pow2(numBits))
             && Pow2(divBits - 1) <= d
    ensures d > 0 && n / d == 0
  {
    hide Pow2;
    Pow2Mono(numBits, divBits - 1);
    DivIs(n, d, 0, n);
  }

  lemma ShiftFits(n: nat, d: nat, numBits: nat, divBits: nat)
    requires 0 < divBits <= numBits <= 256 && n < Pow2(numBits) && Pow2(divBits - 1) <= d < Pow2(divBits)
    ensures var s := numBits - divBits; d * Pow2(s) < Top() && d * Pow2(s) % Top() == d * Pow2(s) && n < d * Pow2(s + 1)
  {
    hide Pow2, W;
    var s := numBits - divBits;
    Pow2Add(divBits, s);
    MulStrict(d, Pow2(divBits), Pow2(s));
    Pow2Mono(numBits, 256);
    WIs(WIDTH);
    MulMono(0, d, Pow2(s));
    DivIs(d * Pow2(s), Top(), 0, d * Pow2(s));
    Pow2Add(divBits - 1, s + 1);
    MulMono(Pow2(divBits - 1), d, Pow2(s + 1));
  }

  lemma Halve(d: nat, shift: nat)
    ensures d * Pow2(shift + 1) == 2 * (d * Pow2(shift)) && Pow2(1) == 2
    ensures shift > 0 ==> d * Pow2(shift) / 2 == d * Pow2(shift - 1)
  {
    MulAssoc(2, d, Pow2(shift));
    MulComm(2, d);
    MulAssoc(d, 2, Pow2(shift));
    if shift > 0 {
      MulAssoc(2, d, Pow2(shift - 1));
      MulAssoc(d, 2, Pow2(shift - 1));
      DivIs(d * Pow2(shift), 2, d * Pow2(shift - 1), 0);
    }
  }

  lemma Reduced(x: int, y: int)
    requires 0 <= y <= x < Top()
    ensures (x - y) % Top() == x - y
  {
    hide W;
    DivIs(x - y, Top(), 0, x - y);
  }

  lemma StepArith(x: int, q: int, d: int, p: int)
    ensures x - d * p + (q + p) * d == x + q * d
  {
    Distribute(q, p, d);
    MulComm(p, d);
  }

  lemma DivideDone(n: nat, d: nat, q: int, r: int)
    requires d > 0 && r + q * d == n && 0 <= r < d * Pow2(0)
    ensures q == n / d
  {
    DivIs(n, d, q, r);
  }

  // ---------------------------------------------------------------------------------
  // Multiplication
  // ---------------------------------------------------------------------------------

  lemma WNext(i: nat)
    ensures W(i + 1) == B * W(i)
  {}

  lemma PValNone(s: seq<int>)
    ensures PVal(s, 0) == 0 && W(0) == 1
  {}

  lemma PValNext(s: seq<int>, i: nat)
    requires i < |s|
    ensures PVal(s, i + 1) == PVal(s, i) + s[i] * W(i)
  {}

  /** A product of limbs with two carries fits in two limbs. */
  lemma LimbProduct(x: nat, y: nat, c: nat, d: nat)
    requires x < B && y < B && c < B && d < B
    ensures 0 <= x * y && 0 <= c + d + x * y < B * B && (c + d + x * y) / B < B
  {
    MulMono(x, B - 1, y);
    MulMono(0, x, y);
    var n := c + d + x * y;
    assert n < B * B;
  }

  lemma ScaleStep(v: int, u: int, carry: int, b: int, x: int, n: nat, w: nat)
    requires u + carry * w == v * b && n == carry + b * x
    ensures u + n % B * w + n / B * (B * w) == (v + x * w) * b
  {
    CarryStep(n, w);
    Distribute(carry, b * x, w);
    Distribute(v, x * w, b);
    MulAssoc(b, x, w);
    MulComm(b, x * w);
  }

  lemma RowStep(u: int, v: int, p: int, carry: int, d: int, x: int, y: int, n: nat, wj: nat, wi: nat, w: nat)
    requires u + carry * w == v + x * wj * p && n == carry + d + x * y && w == wj * wi
    ensures u + n % B * w + n / B * (B * w) == v + d * w + x * wj * (p + y * wi)
  {
    CarryStep(n, w);
    Distribute(carry + d, x * y, w);
    Distribute(carry, d, w);
    Distribute(p, y * wi, x * wj);
    MulComm(x * wj, p);
    MulComm(x * wj, p + y * wi);
    RowProduct(x, y, wj, wi);
  }

  lemma RowLimb(before: seq<int>, after: seq<int>, s: seq<int>, t: seq<int>, i: nat, j: nat, x: nat, carry: nat, n: nat)
    requires |before| == |after| == |s| == |t| == WIDTH && i + j < WIDTH && after == before[i + j := n % B]
    requires n == carry + s[i + j] + x * t[i]
    requires PVal(before, i + j) + carry * W(i + j) == PVal(s, i + j) + x * W(j) * PVal(t, i)
    ensures PVal(after, i + j + 1) + n / B * W(i + j + 1) == PVal(s, i + j + 1) + x * W(j) * PVal(t, i + 1)
  {
    hide W, PVal;
    PValSame(before, after, i + j);
    PValNext(after, i + j);
    PValNext(s, i + j);
    PValNext(t, i);
    WNext(i + j);
    WAdd(j, i);
    RowStep(PVal(before, i + j), PVal(s, i + j), PVal(t, i), carry, s[i + j], x, t[i], n, W(j), W(i), W(i + j));
  }

  lemma RowProduct(x: int, y: int, wj: int, wi: int)
    ensures y * wi * (x * wj) == x * y * (wj * wi)
  {
    calc {
      y * wi * (x * wj);
      { MulComm(y, wi); MulAssoc(wi * y, x, wj); MulAssoc(wi, y, x); }
      wi * (y * x) * wj;
      { MulComm(wi, y * x); MulComm(y, x); }
      x * y * wi * wj;
      { MulAssoc(x * y, wi, wj); MulComm(wi, wj); }
      x * y * (wj * wi);
    }
  }

  /** What the truncated row leaves out is a multiple of 2^256. */
  lemma RowRest(u: int, v: int, x: nat, wj: nat, p: int, y: nat, wi: nat, t: int, carry: nat, top: nat)
    requires t == p + y * wi && wj * wi == top && u + carry * top == v + x * wj * p
    ensures 0 <= x * y && u + (carry + x * y) * top == v + x * wj * t
  {
    MulMono(0, x, y);
    Distribute(p, y * wi, x * wj);
    MulComm(x * wj, p);
    MulComm(x * wj, t);
    RowProduct(x, y, wj, wi);
    Distribute(carry, x * y, top);
  }

  lemma RowArith(v: int, x: int, w: int, t: int, before: int, after: int, over: int, more: int, top: int)
    requires before + over * top == v * t && after + more * top == before + x * w * t
    ensures after + (over + more) * top == (v + x * w) * t
  {
    Distribute(over, more, top);
    Distribute(v, x * w, t);
  }

  // ---------------------------------------------------------------------------------
  // The compact form
  // ---------------------------------------------------------------------------------

  function Mantissa(c: nat): nat { c % 0x80_0000 }

  function Exponent(c: nat): nat { c / 0x100_0000 }

  /** The sign of a compact form. */
  predicate SignBit(c: nat) { c / 0x80_0000 % 2 == 1 }

  /** mantissa * 256^(exponent - 3), rounded down. */
  function ScaledBy(m: nat, e: nat): nat {
    if e <= 3 then Quot(m, Pow2(8 * (3 - e))) else m * Pow2(8 * (e - 3))
  }

  function CompactValue(c: nat): nat { ScaledBy(Mantissa(c), Exponent(c)) }

  /** The weight of the lowest bit of the mantissa. */
  function Unit(e: nat): nat { if e <= 3 then 1 else Pow2(8 * (e - 3)) }

  /** `m` and `e` are a mantissa and exponent for v: exact up to the weight of the lowest bit. */
  predicate CompactOf(v: nat, m: nat, e: nat) {
    m < 0x80_0000 && ScaledBy(m, e) <= v < ScaledBy(m, e) + Unit(e) && (Unit(e) > 1 ==> m >= 0x8000)
  }

  /** A mantissa and exponent that GetCompact chooses: the exponent is as small as it can be, and what
      the mantissa has below the lowest bit of the number is zero. */
  predicate Shaped(m: nat, e: nat) {
    if m == 0 then e == 0 else m >= 0x8000 && (e < 3 ==> m % Pow2(8 * (3 - e)) == 0)
  }

  predicate Canonical(c: nat) { Shaped(Mantissa(c), Exponent(c)) && (Mantissa(c) == 0 ==> !SignBit(c)) }

  lemma ShapedPacks(m: nat, e: nat, sign: bool)
    requires m < 0x80_0000 && e < 256 && Shaped(m, e) && (sign ==> m != 0)
    ensures Canonical(e * 0x100_0000 + m + if sign then 0x80_0000 else 0)
  {
    hide Shaped;
    Packed(m, e, sign);
  }

  lemma TopIs()
    ensures Top() == Pow2(256) && Top() > B * B
  {
    hide Pow2;
    WIs(WIDTH);
    WAdd(2, 6);
    assert W(2) == B * B;
    MulMono(2, W(6), W(2));
    assert W(6) == B * W(5);
  }

  lemma SmallCompact(m: nat, e: nat)
    requires m < 0x80_0000 && e <= 3
    ensures ScaledBy(m, e) <= m && ScaledBy(m, e) < Top() && ScaledBy(m, e) % Top() == ScaledBy(m, e)
  {
    hide Pow2, W;
    TopIs();
    DivIs(ScaledBy(m, e), Top(), 0, ScaledBy(m, e));
  }

  /** Exactly when the number does not fit. */
  lemma LargeCompact(m: nat, e: nat)
    requires m < 0x80_0000 && e > 3
    ensures ScaledBy(m, e) >= Top() <==> m != 0 && (e > 34 || (m > 0xff && e > 33) || (m > 0xffff && e > 32))
    ensures ScaledBy(m, e) == 0 <==> m == 0
  {
    hide Pow2, W;
    TopIs();
    var p := Pow2(8 * (e - 3));
    if m > 0 {
      MulMono(1, m, p);
    }
    Pow2Is32();
    if e > 34 {
      Pow2Mono(256, 8 * (e - 3));
    } else if e == 34 {
      Pow2Add(8, 248);
      Threshold(m, 0x100, p);
    } else if e == 33 {
      Pow2Add(16, 240);
      Threshold(m, 0x1_0000, p);
    } else {
      Pow2Mono(8 * (e - 3), 232);
      Pow2Add(24, 232);
      MulMono(m, 0x80_0000, p);
      MulMono(p, Pow2(232), 0x100_0000);
      Pow2Mono(256, 256);
    }
  }

  lemma Threshold(m: nat, k: nat, p: nat)
    requires p > 0
    ensures m * p >= k * p <==> m >= k
  {
    if m >= k {
      MulMono(k, m, p);
    } else {
      MulStrict(m, k, p);
    }
  }

  lemma Low64(s: seq<int>)
    requires Limbs(s) && |s| == WIDTH
    ensures s[0] + s[1] * B == Val(s) % (B * B) && 0 <= s[0] + s[1] * B < B * B
  {
    ValBound(s);
    var x := UpperPart(s, 2, WIDTH);
    assert W(0) == 1 && W(1) == B && W(2) == B * B;
    assert PVal(s, 1) == s[0] && PVal(s, 2) == s[0] + s[1] * B;
    DivIs(Val(s), B * B, x, s[0] + s[1] * B);
  }

  lemma Packed(m: nat, e: nat, sign: bool)
    requires m < 0x80_0000 && e < 256
    ensures var c := e * 0x100_0000 + m + if sign then 0x80_0000 else 0;
            c < B && Mantissa(c) == m && Exponent(c) == e && (SignBit(c) <==> sign)
  {}

  lemma CompactFits(v: nat, m: nat, e: nat)
    requires CompactOf(v, m, e) && v < Top()
    ensures ScaledBy(m, e) < Top()
  {
    hide Pow2, W, ScaledBy;
  }

  /** A number of at most three bytes. */
  lemma SmallGet(v: nat, bits: nat, size: nat)
    requires (bits == 0 <==> v == 0) && (bits > 0 ==> v < Pow2(bits)) && size == (bits + 7) / 8 <= 3
    ensures v < B * B && v % (B * B) == v
    ensures var m := v * Pow2(8 * (3 - size));
            && 0 <= m < 0x100_0000
            && if SignBit(m) then CompactOf(v, m / 256, size + 1) else m < 0x80_0000 && CompactOf(v, m, size)
  {
    hide Pow2;
    Pow2Is32();
    Pow2One();
    var p := Pow2(8 * (3 - size));
    MulMono(0, v, p);
    if bits > 0 {
      Pow2Mono(bits, 8 * size);
      Pow2Add(8 * size, 8 * (3 - size));
      MulStrict(v, Pow2(8 * size), p);
    }
    Pow2Mono(8 * (3 - size), 24);
    MulMono(1, p, v);
    MulComm(p, v);
    var m := v * p;
    DivIs(m, p, v, 0);
    if SignBit(m) && size < 3 {
      Pow2Add(8, 8 * (2 - size));
      var r := Pow2(8 * (2 - size));
      MulAssoc(v, 256, r);
      MulComm(v, 256);
      MulAssoc(256, v, r);
      assert m == 256 * (v * r);
      DivIs(v * r, r, v, 0);
    }
  }

  lemma SmallShape(v: nat, bits: nat, size: nat)
    requires (bits == 0 <==> v == 0) && (bits > 0 ==> Pow2(bits - 1) <= v < Pow2(bits)) && size == (bits + 7) / 8 <= 3
    requires v * Pow2(8 * (3 - size)) < 0x100_0000
    ensures var m := v * Pow2(8 * (3 - size)); m >= 0 && if SignBit(m) then Shaped(m / 256, size + 1)
            else Shaped(m, size)
  {
    hide Pow2;
    var p := Pow2(8 * (3 - size));
    var m := v * p;
    MulMono(0, v, p);
    if v > 0 {
      Pow2Is32();
      Pow2Mono(8 * (size - 1), bits - 1);
      Pow2Add(8 * (size - 1), 8 * (3 - size));
      MulMono(Pow2(8 * (size - 1)), v, p);
      DivIs(m, p, v, 0);
      if size < 2 {
        Pow2Add(8, 8 * (2 - size));
        var r := Pow2(8 * (2 - size));
        MulAssoc(v, 256, r);
        MulComm(v, 256);
        MulAssoc(256, v, r);
        assert m == 256 * (v * r);
        DivIs(v * r, r, v, 0);
      }
    }
  }

  lemma LargeShape(v: nat, m: nat, size: nat)
    requires size > 3 && m < 0x100_0000 && if SignBit(m) then CompactOf(v, m / 256, size + 1) else CompactOf(v, m, size)
    ensures if SignBit(m) then Shaped(m / 256, size + 1) else Shaped(m, size)
  {
    hide Pow2, ScaledBy;
    Pow2Is32();
    Pow2Mono(8, 8 * (size - 3));
    Pow2Mono(8, 8 * (size - 2));
  }

  /** A longer number: its top three bytes. */
  lemma LargeGet(v: nat, bits: nat, size: nat)
    requires bits <= 256 && bits > 0 && Pow2(bits - 1) <= v < Pow2(bits) && size == (bits + 7) / 8 > 3
    ensures var m := v / Pow2(8 * (size - 3));
            && 0 <= m < 0x100_0000 && m % (B * B) == m && size <= 32
            && if SignBit(m) then CompactOf(v, m / 256, size + 1) else m < 0x80_0000 && CompactOf(v, m, size)
  {
    hide Pow2;
    var p := Pow2(8 * (size - 3));
    assert 0x1_0000 * p <= v < 0x100_0000 * p by {
      Pow2Is32();
      Pow2Mono(bits, 8 * size);
      Pow2Add(24, 8 * (size - 3));
      Pow2Mono(8 * (size - 1), bits - 1);
      Pow2Add(16, 8 * (size - 3));
    }
    assert Pow2(8 * (size - 2)) == 256 * p by {
      Pow2Is32();
      Pow2Add(8, 8 * (size - 3));
    }
    TopBytes(v, p);
  }

  lemma TopBytes(v: nat, p: nat)
    requires p > 0 && 0x1_0000 * p <= v < 0x100_0000 * p
    ensures var m := v / p;
            0x1_0000 <= m < 0x100_0000 && m * p <= v < m * p + p
            && m / 256 * (256 * p) <= v < m / 256 * (256 * p) + 256 * p
  {
    var m := v / p;
    QuotBound(v, p);
    if m >= 0x100_0000 {
      MulMono(0x100_0000, m, p);
      assert false;
    }
    if m < 0x1_0000 {
      MulMono(m + 1, 0x1_0000, p);
      Distribute(m, 1, p);
      assert false;
    }
    LowByte(m, p);
  }

  lemma LowByte(m: nat, p: nat)
    ensures m / 256 * (256 * p) <= m * p <= m / 256 * (256 * p) + 256 * p - p
  {
    var (h, l) := (m / 256, m % 256);
    assert m == h * 256 + l;
    Distribute(h * 256, l, p);
    MulAssoc(h, 256, p);
    MulMono(0, l, p);
    MulMono(l + 1, 256, p);
    Distribute(l, 1, p);
  }

  /** The value of a canonical form, scaled by 2^24, is its mantissa scaled by its exponent. */
  lemma CanonicalScaled(c: nat)
    requires Canonical(c) && Mantissa(c) != 0
    ensures Mantissa(c) * Pow2(8 * Exponent(c)) == CompactValue(c) * Pow2(24) && CompactValue(c) > 0
  {
    hide Pow2, Mantissa, Exponent;
    Pow2One();
    var (m, e, v) := (Mantissa(c), Exponent(c), CompactValue(c));
    if e <= 3 {
      Pow2Add(8 * (3 - e), 8 * e);
      var p := Pow2(8 * (3 - e));
      assert m == v * p + m % p;
      assert p == 1 ==> m % p == 0;
      MulAssoc(v, p, Pow2(8 * e));
    } else {
      Pow2Add(8 * (e - 3), 24);
      MulAssoc(m, Pow2(8 * (e - 3)), Pow2(24));
      MulMono(1, m, Pow2(8 * (e - 3)));
    }
  }

  lemma SameScale(m: nat, e: nat, m': nat, e': nat)
    requires 0x8000 <= m < 0x80_0000 && 0x8000 <= m' < 0x80_0000 && m * Pow2(8 * e) == m' * Pow2(8 * e')
    ensures e == e' && m == m'
  {
    hide Pow2;
    if e < e' {
      NoRoom(m, e, m', e');
    } else if e' < e {
      NoRoom(m', e', m, e);
    } else if m < m' {
      MulStrict(m, m', Pow2(8 * e));
    } else if m' < m {
      MulStrict(m', m, Pow2(8 * e));
    }
  }

  lemma NoRoom(m: nat, e: nat, m': nat, e': nat)
    requires m < 0x80_0000 && 0x8000 <= m' && e < e'
    ensures m * Pow2(8 * e) < m' * Pow2(8 * e')
  {
    hide Pow2;
    Pow2Is32();
    var p := Pow2(8 * e);
    Pow2Add(8, 8 * e);
    Pow2Mono(8 * e + 8, 8 * e');
    MulMono(256 * p, Pow2(8 * e'), m');
    MulComm(256 * p, m');
    MulComm(Pow2(8 * e'), m');
    MulAssoc(m', 256, p);
    MulStrict(m, m' * 256, p);
  }

  /** A value and a sign have one canonical form. */
  lemma CanonicalUnique(c: nat, d: nat)
    requires Canonical(c) && Canonical(d) && CompactValue(c) == CompactValue(d) && (SignBit(c) <==> SignBit(d))
    ensures c == d
  {
    hide Pow2, Canonical, CompactValue, Mantissa, Exponent, SignBit;
    var (m, e, m', e') := (Mantissa(c), Exponent(c), Mantissa(d), Exponent(d));
    if m != 0 && m' != 0 {
      CanonicalScaled(c);
      CanonicalScaled(d);
      CanonicalRange(c);
      CanonicalRange(d);
      SameScale(m, e, m', e');
    } else if m != 0 {
      CanonicalScaled(c);
      NoMantissa(d);
    } else if m' != 0 {
      CanonicalScaled(d);
      NoMantissa(c);
    } else {
      CanonicalRange(c);
      CanonicalRange(d);
    }
    SameParts(c, d);
  }

  lemma SameParts(c: nat, d: nat)
    requires Mantissa(c) == Mantissa(d) && Exponent(c) == Exponent(d) && (SignBit(c) <==> SignBit(d))
    ensures c == d
  {
    Halves(c);
    Halves(d);
  }

  lemma Halves(c: nat)
    ensures c == Exponent(c) * 0x100_0000 + (if SignBit(c) then 0x80_0000 else 0) + Mantissa(c)
  {
    var h := c / 0x80_0000;
    assert c == h * 0x80_0000 + Mantissa(c);
    assert Exponent(c) == h / 2;
  }

  lemma CanonicalRange(c: nat)
    requires Canonical(c)
    ensures if Mantissa(c) == 0 then Exponent(c) == 0 else 0x8000 <= Mantissa(c) < 0x80_0000
  {}

  lemma NoMantissa(c: nat)
    requires Mantissa(c) == 0
    ensures CompactValue(c) == 0
  {}

  /** Writing a value that was read from a compact form loses nothing. */
  lemma Lossless(c: nat, d: nat)
    requires CompactOf(CompactValue(c), Mantissa(d), Exponent(d))
    ensures CompactValue(d) == CompactValue(c)
  {
    hide Pow2, Mantissa, Exponent;
    var (m, e, m', e', v) := (Mantissa(c), Exponent(c), Mantissa(d), Exponent(d), CompactValue(c));
    MantissaBound(c);
    if e' > 3 {
      var u := Pow2(8 * (e' - 3));
      Pow2Is32();
      Pow2Mono(8, 8 * (e' - 3));
      MulMono(0x8000, m', u);
      assert e > 3;
      var x := Pow2(8 * (e - 3));
      if e < e' {
        NoRoom(m, e - 3, m', e' - 3);
      }
      Pow2Add(8 * (e - e'), 8 * (e' - 3));
      MulAssoc(m, Pow2(8 * (e - e')), u);
      Squeeze(m * Pow2(8 * (e - e')), m', u);
    }
  }

  lemma MantissaBound(c: nat)
    ensures Mantissa(c) < 0x80_0000
  {}

  lemma Squeeze(k: int, m: int, u: nat)
    requires m * u <= k * u < m * u + u
    ensures k == m
  {
    if k < m {
      MulStrict(k, m, u);
    } else if k > m {
      MulMono(m + 1, k, u);
      Distribute(m, 1, u);
    }
  }

  /** Reading a compact form and writing it again gives the same form exactly when it was canonical;
      the value survives in any case. */
  method Recompact(nBits: nat) returns (again: nat)
    requires nBits < B
    ensures CompactValue(nBits) < Top() ==> CompactValue(again) == CompactValue(nBits)
    ensures Canonical(again) && (CompactValue(nBits) < Top() ==> (again == nBits <==> Canonical(nBits)))
  {
    hide Pow2, W, PVal, CompactValue, CompactOf, Canonical, SignBit, Mantissa;
    var bn := new Uint256(0);
    var negative, overflow := bn.SetCompact(nBits);
    again := bn.GetCompact(negative);
    if !overflow {
      NoProof(nBits);
      Lossless(nBits, again);
      if Canonical(nBits) {
        CanonicalSign(nBits);
        CanonicalSign(again);
        CanonicalUnique(nBits, again);
      }
    }
  }

  lemma CanonicalSign(c: nat)
    requires Canonical(c)
    ensures Mantissa(c) == 0 <==> CompactValue(c) == 0
    ensures SignBit(c) ==> CompactValue(c) != 0
  {
    hide Shaped, CompactValue;
    if Mantissa(c) == 0 {
      NoMantissa(c);
    } else {
      CanonicalScaled(c);
    }
  }

  // ---------------------------------------------------------------------------------
  // Block proof
  // ---------------------------------------------------------------------------------

  /** The work a block stands for: 2^256 / (target + 1), for the target in its nBits. */
  method GetBlockProof(nBits: nat) returns (proof: Uint256)
    requires nBits < B
    ensures var target := CompactValue(nBits);
            proof.Valid() && fresh(proof) &&
            proof.Value() == if SignBit(nBits) || target >= Top() || target == 0 then 0 else Top() / (target + 1)
  {
    hide Pow2, W, PVal, CompactValue;
    var bnTarget := new Uint256(0);
    var negative, overflow := bnTarget.SetCompact(nBits);
    var isZero := bnTarget.EqualTo(0);
    if negative || overflow || isZero {
      proof := new Uint256(0);
      if !overflow {
        NoProof(nBits);
      }
      return;
    }
    TargetFits(nBits);
    NoProof(nBits);
    proof := ProofOf(bnTarget);
  }

  /** ~target / (target + 1) + 1 */
  method ProofOf(target: Uint256) returns (proof: Uint256)
    requires target.Valid() && 0 < target.Value() && target.Value() + 1 < Top()
    ensures proof.Valid() && fresh(proof) && proof.Value() == Top() / (target.Value() + 1)
  {
    hide Pow2, W, PVal, Top;
    ghost var (t, top) := (target.Value(), Top());
    var one := new Uint256(1);
    var next := new Uint256.Copy(target);
    next.Add(one);
    DivIs(t + 1, top, 0, t + 1);
    proof := target.Complement();
    var ok := proof.Divide(next);
    assert ok;
    ProofIs(t);
    proof.Add(one);
  }

  lemma NoProof(c: nat)
    requires CompactValue(c) < Top()
    ensures CompactValue(c) % Top() == CompactValue(c)
  {
    hide W, CompactValue;
    DivIs(CompactValue(c), Top(), 0, CompactValue(c));
  }

  /** A target is never 2^256 - 1, so that the division is never by zero. */
  lemma TargetFits(c: nat)
    requires c < B && CompactValue(c) < Top()
    ensures CompactValue(c) + 1 < Top()
  {
    hide Pow2, W;
    TopIs();
    var (m, e) := (Mantissa(c), Exponent(c));
    if e > 3 {
      Pow2Is32();
      Pow2Add(8, 8 * (e - 4));
      Pow2Add(8, 248);
      MulAssoc(m, 256, Pow2(8 * (e - 4)));
      MulComm(m, 256);
      MulAssoc(256, m, Pow2(8 * (e - 4)));
    }
  }

  lemma ProofIs(t: nat)
    requires 0 < t && t + 1 < Top()
    ensures (Top() - 1 - t) / (t + 1) + 1 == Top() / (t + 1) < Top()
    ensures (Top() / (t + 1)) % Top() == Top() / (t + 1)
  {
    hide W;
    ProofArith(Top(), t + 1);
  }

  lemma ProofArith(top: nat, d: nat)
    requires 1 < d < top
    ensures (top - d) / d + 1 == top / d && 0 <= top / d < top && top / d % top == top / d
  {
    var q := (top - d) / d;
    QuotBound(top - d, d);
    Distribute(q, 1, d);
    DivIs(top, d, q + 1, (top - d) % d);
    QuotBound(top, d);
    MulMono(2, d, top / d);
    MulComm(d, top / d);
    DivIs(top / d, top, 0, top / d);
  }
}
