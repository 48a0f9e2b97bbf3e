/** Base58 strings: a byte string read as one big number, leading zero bytes kept as leading
    '1's.  Bytes and characters are integers from 0 to 255. */
module Base58 {

  // ---------------------------------------------------------------------------------
  // Powers
  // ---------------------------------------------------------------------------------

  function Pow(b: nat, e: nat): (p: nat)
    ensures b > 0 ==> p > 0
  {
    if e == 0 then 1 else b * Pow(b, e - 1)
  }

  lemma MulAssoc(x: int, y: int, z: int)
    ensures x * (y * z) == x * y * z
  {}

  lemma {:induction false} PowAdd(b: nat, d: nat, e: nat)
    ensures Pow(b, d + e) == Pow(b, d) * Pow(b, e)
  {
    if d == 0 {
    } else {
      PowAdd(b, d - 1, e);
      MulAssoc(b, Pow(b, d - 1), Pow(b, e));
    }
  }

  lemma {:induction false} PowPow(b: nat, d: nat, e: nat)
    ensures Pow(Pow(b, d), e) == Pow(b, d * e)
  {
    if e == 0 {
      assert d * e == 0;
    } else {
      PowPow(b, d, e - 1);
      PowAdd(b, d, d * (e - 1));
      assert d + d * (e - 1) == d * e;
    }
  }

  lemma MulMono(a: nat, b: nat, c: nat, d: nat)
    requires a <= b && c <= d
    ensures a * c <= b * d
  {
    assert a * c <= b * c && b * c <= b * d;
  }

  lemma {:induction false} PowMono(b: nat, c: nat, e: nat)
    requires b <= c
    ensures Pow(b, e) <= Pow(c, e)
  {
    if e == 0 {
    } else {
      PowMono(b, c, e - 1);
      MulMono(b, c, Pow(b, e - 1), Pow(c, e - 1));
    }
  }

  lemma {:induction false} PowGrows(b: nat, d: nat, e: nat)
    requires b >= 2 && d < e
    ensures Pow(b, d) < Pow(b, e)
  {
    if d < e - 1 {
      PowGrows(b, d, e - 1);
    }
    assert Pow(b, e) >= 2 * Pow(b, e - 1) by { MulMono(2, b, Pow(b, e - 1), Pow(b, e - 1)); }
  }

  /** 256^100 <= 58^138, in powers of two: 58^7 >= 2^41 and 58^5 >= 2^29. */
  lemma EncodeRatio()
    ensures Pow(256, 100) <= Pow(58, 138)
  {
    hide Pow;
    Pow58Small();
    calc {
      Pow(256, 100);
    == { assert Pow(2, 8) == 256 by { SmallPowers(); } PowPow(2, 8, 100); }
      Pow(2, 800);
    <= { PowGrows(2, 800, 808); }
      Pow(2, 808);
    == { PowAdd(2, 779, 29); PowPow(2, 41, 19); }
      Pow(Pow(2, 41), 19) * Pow(2, 29);
    <= { PowMono(Pow(2, 41), Pow(58, 7), 19); MulMono(Pow(Pow(2, 41), 19), Pow(Pow(58, 7), 19), Pow(2, 29),
         Pow(58, 5)); }
      Pow(Pow(58, 7), 19) * Pow(58, 5);
    == { PowPow(58, 7, 19); PowAdd(58, 133, 5); }
      Pow(58, 138);
    }
  }

  /** 58^1000 <= 256^733, in powers of two: 58^29 <= 2^170 and 58^14 <= 2^83. */
  lemma DecodeRatio()
    ensures Pow(58, 1000) <= Pow(256, 733)
  {
    hide Pow;
    Pow58Small();
    calc {
      Pow(58, 1000);
    == { PowAdd(58, 986, 14); PowPow(58, 29, 34); }
      Pow(Pow(58, 29), 34) * Pow(58, 14);
    <= { PowMono(Pow(58, 29), Pow(2, 170), 34); MulMono(Pow(Pow(58, 29), 34), Pow(Pow(2, 170), 34), Pow(58, 14),
         Pow(2, 83)); }
      Pow(Pow(2, 170), 34) * Pow(2, 83);
    == { PowPow(2, 170, 34); PowAdd(2, 5780, 83); }
      Pow(2, 5863);
    <= { PowGrows(2, 5863, 5864); }
      Pow(2, 5864);
    == { assert Pow(2, 8) == 256 by { SmallPowers(); } PowPow(2, 8, 733); }
      Pow(256, 733);
    }
  }

  lemma SmallPowers()
    ensures Pow(2, 8) == 256 && Pow(2, 29) == 536870912 && Pow(2, 41) == 2199023255552
    ensures Pow(2, 83) == 9671406556917033397649408
    ensures Pow(2, 170) == 1496577676626844588240573268701473812127674924007424
  {
    hide Pow;
    PowBase();
    PowAdd(2, 5, 3); PowAdd(2, 8, 8); PowAdd(2, 16, 8); PowAdd(2, 24, 5); PowAdd(2, 24, 16); PowAdd(2, 40, 1);
    PowAdd(2, 41, 41); PowAdd(2, 82, 1); PowAdd(2, 83, 83); PowAdd(2, 166, 3); PowAdd(2, 169, 1);
  }

  lemma PowBase()
    ensures Pow(2, 1) == 2 && Pow(2, 3) == 8 && Pow(2, 5) == 32 && Pow(58, 1) == 58 && Pow(58, 2) == 3364
  {}

  lemma Pow58Small()
    ensures Pow(58, 7) >= Pow(2, 41) && Pow(58, 5) >= Pow(2, 29)
    ensures Pow(58, 14) <= Pow(2, 83) && Pow(58, 29) <= Pow(2, 170)
  {
    hide Pow;
    SmallPowers();
    PowBase();
    PowAdd(58, 2, 1); PowAdd(58, 3, 2); PowAdd(58, 5, 2); PowAdd(58, 7, 7); PowAdd(58, 14, 14); PowAdd(58, 28, 1);
  }

  /** If b^q <= c^p then b^n fits into n*p/q + 1 digits of base c. */
  lemma EnoughDigits(b: nat, c: nat, p: nat, q: nat, n: nat)
    requires b >= 2 && c >= 2 && q > 0 && Pow(b, q) <= Pow(c, p)
    ensures Pow(b, n) < Pow(c, n * p / q + 1)
  {
    var k := n * p / q + 1;
    assert n * p < k * q by {
      assert n * p == n * p / q * q + n * p % q;
      assert k * q == n * p / q * q + q;
    }
    if Pow(c, k) <= Pow(b, n) {
      calc {
        Pow(c, k * q);
      == { PowPow(c, k, q); }
        Pow(Pow(c, k), q);
      <= { PowMono(Pow(c, k), Pow(b, n), q); }
        Pow(Pow(b, n), q);
      == { PowPow(b, n, q); PowPow(b, q, n); assert n * q == q * n; }
        Pow(Pow(b, q), n);
      <= { PowMono(Pow(b, q), Pow(c, p), n); }
        Pow(Pow(c, p), n);
      == { PowPow(c, p, n); assert p * n == n * p; }
        Pow(c, n * p);
      }
      PowGrows(c, n * p, k * q);
      assert false;
    }
  }

  /** The two buffer estimates of the code. */
  lemma EncodeSize(n: nat)
    ensures Pow(256, n) < Pow(58, n * 138 / 100 + 1)
  {
    hide Pow;
    EncodeRatio();
    EnoughDigits(256, 58, 138, 100, n);
  }

  lemma DecodeSize(n: nat)
    ensures Pow(58, n) < Pow(256, n * 733 / 1000 + 1)
  {
    hide Pow;
    DecodeRatio();
    EnoughDigits(58, 256, 733, 1000, n);
  }

  // ---------------------------------------------------------------------------------
  // Numbers in a base, most significant digit first
  // ---------------------------------------------------------------------------------

  predicate Digits(base: nat, s: seq<int>) { forall i :: 0 <= i < |s| ==> 0 <= s[i] < base }

  function Val(base: nat, s: seq<int>): int {
    if s == [] then 0 else Val(base, s[..|s| - 1]) * base + s[|s| - 1]
  }

  /** The digits of a number, without leading zeros. */
  function Rep(base: nat, v: nat): (s: seq<int>)
    requires base >= 2
    ensures Digits(base, s) && (s != [] ==> s[0] != 0)
    decreases v
  {
    if v == 0 then []
    else
      DivShrinks(v, base);
      Rep(base, v / base) + [v % base]
  }

  lemma DivShrinks(v: nat, base: nat)
    requires base >= 2 && v > 0
    ensures 0 <= v / base < v && v == v / base * base + v % base && 0 <= v % base < base
  {
    if v / base >= v {
      MulMono(v, v / base, 2, base);
      assert false;
    }
  }

  lemma {:induction false} ValRep(base: nat, v: nat)
    requires base >= 2
    ensures Val(base, Rep(base, v)) == v
    decreases v
  {
    if v == 0 {
    } else {
      DivShrinks(v, base);
      ValRep(base, v / base);
      var s := Rep(base, v / base) + [v % base];
      assert Rep(base, v) == s && s[..|s| - 1] == Rep(base, v / base);
    }
  }

  lemma Shift(v: nat, p: nat, base: nat, d: int)
    requires v < p && 0 <= d < base
    ensures 0 <= v * base + d < base * p && (v > 0 || d > 0 ==> v * base + d > 0)
  {
    MulMono(v + 1, p, base, base);
    MulMono(0, v, base, base);
    if v > 0 {
      MulMono(1, v, base, base);
    }
  }

  lemma {:induction false} ValBound(base: nat, s: seq<int>)
    requires base >= 2 && Digits(base, s)
    ensures 0 <= Val(base, s) < Pow(base, |s|)
    ensures s != [] && s[0] != 0 ==> Val(base, s) > 0
  {
    if s == [] {
    } else {
      var h := s[..|s| - 1];
      ValBound(base, h);
      Shift(Val(base, h), Pow(base, |h|), base, s[|s| - 1]);
    }
  }

  /** A digit string without leading zeros is the digits of its value. */
  lemma {:induction false} RepVal(base: nat, s: seq<int>)
    requires base >= 2 && Digits(base, s) && (s != [] ==> s[0] != 0)
    ensures Val(base, s) >= 0 && Rep(base, Val(base, s)) == s
  {
    ValBound(base, s);
    if s == [] {
    } else {
      var h, d := s[..|s| - 1], s[|s| - 1];
      RepVal(base, h);
      DivMod(Val(base, h), base, d);
      assert s == h + [d];
    }
  }

  lemma DivMod(q: nat, base: nat, d: int)
    requires 0 <= d < base
    ensures (q * base + d) / base == q && (q * base + d) % base == d
  {
    var x: int := q * base + d;
    assert x == x / base * base + x % base;
    assert (x / base - q) * base == d - x % base;
    SmallMultiple(x / base - q, base);
  }

  lemma SmallMultiple(k: int, base: int)
    requires -base < k * base < base
    ensures k == 0
  {
    if k >= 1 {
      MulMono(1, k, base, base);
      assert false;
    }
    if k <= -1 {
      assert false;
    }
  }

  lemma {:induction false} ValConcat(base: nat, s: seq<int>, t: seq<int>)
    ensures Val(base, s + t) == Val(base, s) * Pow(base, |t|) + Val(base, t)
  {
    if t == [] {
      assert s + t == s;
    } else {
      var h := t[..|t| - 1];
      ValConcat(base, s, h);
      assert (s + t)[..|s + t| - 1] == s + h;
      assert (Val(base, s) * Pow(base, |h|) + Val(base, h)) * base
             == Val(base, s) * (base * Pow(base, |h|)) + Val(base, h) * base;
    }
  }

  function Zeros(n: nat): (z: seq<int>)
    ensures |z| == n && forall i :: 0 <= i < n ==> z[i] == 0
  {
    seq(n, _ => 0)
  }

  lemma {:induction false} ValZeros(base: nat, s: seq<int>)
    requires forall i :: 0 <= i < |s| ==> s[i] == 0
    ensures Val(base, s) == 0
  {
    if s == [] {
    } else {
      ValZeros(base, s[..|s| - 1]);
    }
  }

  // ---------------------------------------------------------------------------------
  // The digit buffer
  // ---------------------------------------------------------------------------------

  /** The inner loop of both directions, "number = number * mul + add" on a big-endian buffer
      whose digits before the last `length` are zero.  It touches at least `length` digits and
      then as many as the carry needs.  When the result fits into the buffer, the carry that
      comes out is zero, which the code asserts. */
  method MultiplyAdd(buf: array<int>, base: nat, mul: nat, add: nat, length: nat) returns (carry: nat, i: nat)
    requires base >= 2 && Digits(base, buf[..]) && length <= buf.Length
    requires forall j :: 0 <= j < buf.Length - length ==> buf[j] == 0
    modifies buf
    ensures Digits(base, buf[..]) && length <= i <= buf.Length
    ensures forall j :: 0 <= j < buf.Length - i ==> buf[j] == 0
    ensures Val(base, buf[..]) + carry * Pow(base, buf.Length) == Val(base, old(buf[..])) * mul + add
  {
    hide Val, Pow;
    var n := buf.Length;
    carry, i := add, 0;
    ValEmpty(base);
    ghost var before := buf[..];
    assert buf[n..] == [] && before[n..] == [];
    while (carry != 0 || i < length) && i < n
      invariant 0 <= i <= n
      invariant Digits(base, buf[..])
      invariant buf[..n - i] == before[..n - i]
      invariant Val(base, buf[n - i..]) + carry * Pow(base, i) == Val(base, before[n - i..]) * mul + add
      decreases n - i
    {
      var k := n - 1 - i;
      ghost var low := buf[n - i..];
      carry := carry + mul * buf[k];
      ghost var x := carry;
      buf[k] := carry % base;
      carry := carry / base;
      assert buf[k..] == [buf[k]] + low && before[k..] == [before[k]] + before[n - i..];
      StepArithmetic(base, mul, add, before[k], before[n - i..], low, x, buf[k], carry, i);
      i := i + 1;
    }
    assert before == before[..n - i] + before[n - i..] && buf[..] == buf[..n - i] + buf[n - i..];
    FinishArithmetic(base, mul, add, before[..n - i], before[n - i..], buf[n - i..], carry, i, n);
  }

  lemma ValCons(base: nat, d: int, s: seq<int>)
    ensures Val(base, [d] + s) == d * Pow(base, |s|) + Val(base, s)
  {
    ValConcat(base, [d], s);
    assert Val(base, [d]) == d;
  }

  lemma StepArithmetic(base: nat, mul: nat, add: nat, d: int, oldLow: seq<int>, low: seq<int>,
                       x: int, digit: int, carry: int, i: nat)
    requires base > 0 && |low| == |oldLow| == i && digit == x % base && carry == x / base
    requires Val(base, low) + (x - mul * d) * Pow(base, i) == Val(base, oldLow) * mul + add
    ensures Val(base, [digit] + low) + carry * Pow(base, i + 1) == Val(base, [d] + oldLow) * mul + add
  {
    hide Val, Pow;
    ValCons(base, digit, low);
    ValCons(base, d, oldLow);
    assert Pow(base, i + 1) == base * Pow(base, i) by { PowStep(base, i); }
    Ring(Val(base, low), Val(base, oldLow), x, mul, d, Pow(base, i), base, carry, digit, add);
  }

  lemma ValEmpty(base: nat)
    ensures Pow(base, 0) == 1 && Val(base, []) == 0
  {}

  lemma PowStep(base: nat, i: nat)
    ensures Pow(base, i + 1) == base * Pow(base, i)
  {}

  lemma Ring(v: int, w: int, x: int, mul: int, d: int, p: int, base: int, carry: int, digit: int, add: int)
    requires x == carry * base + digit && v + (x - mul * d) * p == w * mul + add
    ensures digit * p + v + carry * (base * p) == (d * p + w) * mul + add
  {
    assert carry * (base * p) + digit * p == x * p by {
      assert carry * (base * p) == (carry * base) * p;
    }
    assert (d * p + w) * mul == (mul * d) * p + w * mul by {
      assert (d * p) * mul == (mul * d) * p;
    }
    assert (x - mul * d) * p == x * p - (mul * d) * p;
  }

  lemma FinishArithmetic(base: nat, mul: nat, add: nat, high: seq<int>, oldLow: seq<int>, low: seq<int>,
                         carry: nat, i: nat, n: nat)
    requires |low| == |oldLow| == i && |high| == n - i && i <= n
    requires forall j :: 0 <= j < |high| ==> high[j] == 0
    requires carry == 0 || i == n
    requires Val(base, low) + carry * Pow(base, i) == Val(base, oldLow) * mul + add
    ensures Val(base, high + low) + carry * Pow(base, n) == Val(base, high + oldLow) * mul + add
  {
    hide Val, Pow;
    ValZeros(base, high);
    ValConcat(base, high, low);
    ValConcat(base, high, oldLow);
    ZeroTimes(Val(base, high), Pow(base, i));
    assert Val(base, high + low) == Val(base, low) && Val(base, high + oldLow) == Val(base, oldLow);
    if i < n {
      ZeroTimes(carry, Pow(base, i));
      ZeroTimes(carry, Pow(base, n));
    }
  }

  lemma ZeroTimes(x: int, p: int)
    requires x == 0
    ensures x * p == 0
  {}

  /** "Skip leading zeroes", then copy: the digits of the number in the buffer. */
  method Significant(buf: array<int>, base: nat, length: nat) returns (s: seq<int>)
    requires base >= 2 && Digits(base, buf[..]) && length <= buf.Length
    requires forall j :: 0 <= j < buf.Length - length ==> buf[j] == 0
    ensures Val(base, buf[..]) >= 0 && s == Rep(base, Val(base, buf[..]))
  {
    hide Val, Rep;
    var it := buf.Length - length;
    while it < buf.Length && buf[it] == 0
      invariant 0 <= it <= buf.Length && forall j :: 0 <= j < it ==> buf[j] == 0
    {
      it := it + 1;
    }
    s := buf[it..];
    assert buf[..] == buf[..it] + s;
    ValZeros(base, buf[..it]);
    ValConcat(base, buf[..it], s);
    ZeroTimes(Val(base, buf[..it]), Pow(base, |s|));
    RepVal(base, s);
  }

  /** A number below base^size leaves no carry. */
  lemma NoCarry(v: int, carry: nat, bound: nat)
    requires 0 <= v && v + carry * bound < bound
    ensures carry == 0
  {
    if carry >= 1 {
      MulMono(1, carry, bound, bound);
      assert false;
    }
  }

  // ---------------------------------------------------------------------------------
  // Characters
  // ---------------------------------------------------------------------------------

  /** pszBase58: all alphanumeric characters except "0", "I", "O" and "l". */
  function CharOf(d: int): int {
    if d < 9 then 0x31 + d              // '1' .. '9'
    else if d < 17 then 0x41 + d - 9    // 'A' .. 'H'
    else if d < 22 then 0x4a + d - 17   // 'J' .. 'N'
    else if d < 33 then 0x50 + d - 22   // 'P' .. 'Z'
    else if d < 44 then 0x61 + d - 33   // 'a' .. 'k'
    else 0x6d + d - 44                  // 'm' .. 'z'
  }

  /** mapBase58. */
  function DigitOf(c: int): int {
    if 0x31 <= c <= 0x39 then c - 0x31
    else if 0x41 <= c <= 0x48 then c - 0x41 + 9
    else if 0x4a <= c <= 0x4e then c - 0x4a + 17
    else if 0x50 <= c <= 0x5a then c - 0x50 + 22
    else if 0x61 <= c <= 0x6b then c - 0x61 + 33
    else if 0x6d <= c <= 0x7a then c - 0x6d + 44
    else -1
  }

  const ONE := 0x31   // '1', the digit zero

  predicate IsSpace(c: int) { c == 0x20 || 0x09 <= c <= 0x0d }

  function Chars(ds: seq<int>): (s: seq<int>)
    ensures |s| == |ds| && forall i :: 0 <= i < |ds| ==> s[i] == CharOf(ds[i])
  {
    seq(|ds|, i requires 0 <= i < |ds| => CharOf(ds[i]))
  }

  function DigitsOf(s: seq<int>): (ds: seq<int>)
    ensures |ds| == |s| && forall i :: 0 <= i < |s| ==> ds[i] == DigitOf(s[i])
  {
    seq(|s|, i requires 0 <= i < |s| => DigitOf(s[i]))
  }

  function Ones(n: nat): (s: seq<int>)
    ensures |s| == n && forall i :: 0 <= i < n ==> s[i] == ONE
  {
    seq(n, _ => ONE)
  }

  /** How often a string repeats `x` at its start. */
  function Leading(s: seq<int>, x: int): (n: nat)
    ensures n <= |s| && (forall i :: 0 <= i < n ==> s[i] == x) && (n < |s| ==> s[n] != x)
  {
    if s != [] && s[0] == x then 1 + Leading(s[1..], x) else 0
  }

  predicate Bytes(b: seq<int>) { Digits(256, b) }

  // ---------------------------------------------------------------------------------
  // Encoding
  // ---------------------------------------------------------------------------------

  function Encoded(b: seq<int>): seq<int>
    requires Bytes(b)
  {
    ValBound(256, b);
    Ones(Leading(b, 0)) + Chars(Rep(58, Val(256, b)))
  }

  method EncodeBase58(b: seq<int>) returns (str: seq<int>)
    requires Bytes(b)
    ensures str == Encoded(b)
  {
    hide Val, Rep, Pow, Leading;
    var zeroes := 0;
    while zeroes < |b| && b[zeroes] == 0
      invariant zeroes <= |b| && forall j :: 0 <= j < zeroes ==> b[j] == 0
    {
      zeroes := zeroes + 1;
    }
    var rest := b[zeroes..];
    var b58 := new int[|rest| * 138 / 100 + 1](_ => 0);
    var length := EncodeDigits(rest, b58);
    var digits := Significant(b58, 58, length);
    StrippedValue(b, zeroes);
    str := Ones(zeroes) + Chars(digits);
  }

  /** The main loop: the buffer is always large enough. */
  method EncodeDigits(rest: seq<int>, b58: array<int>) returns (length: nat)
    requires Bytes(rest) && b58.Length == |rest| * 138 / 100 + 1 && forall j :: 0 <= j < b58.Length ==> b58[j] == 0
    modifies b58
    ensures Digits(58, b58[..]) && length <= b58.Length && Val(58, b58[..]) == Val(256, rest)
    ensures forall j :: 0 <= j < b58.Length - length ==> b58[j] == 0
  {
    hide Val, Pow;
    length := 0;
    EncodeSize(|rest|);
    ValZeros(58, b58[..]);
    ValEmpty(256);
    assert rest[..0] == [];
    for k := 0 to |rest|
      invariant Digits(58, b58[..]) && length <= b58.Length && Val(58, b58[..]) == Val(256, rest[..k])
      invariant forall j :: 0 <= j < b58.Length - length ==> b58[j] == 0
    {
      ValSnoc(256, rest, k);
      PrefixBound(256, rest, k + 1);
      var carry;
      carry, length := MultiplyAdd(b58, 58, 256, rest[k], length);
      ValBound(58, b58[..]);
      NoCarry(Val(58, b58[..]), carry, Pow(58, b58.Length));
      assert carry == 0;
      ZeroTimes(carry, Pow(58, b58.Length));
    }
    assert rest[..|rest|] == rest;
  }

  lemma ValSnoc(base: nat, s: seq<int>, k: nat)
    requires k < |s|
    ensures Val(base, s[..k + 1]) == Val(base, s[..k]) * base + s[k]
  {
    assert s[..k + 1][..k] == s[..k];
  }

  lemma PrefixBound(base: nat, s: seq<int>, k: nat)
    requires base >= 2 && Digits(base, s) && k <= |s|
    ensures 0 <= Val(base, s[..k]) < Pow(base, |s|)
  {
    ValBound(base, s[..k]);
    if k < |s| {
      PowGrows(base, k, |s|);
    }
  }

  lemma StrippedValue(b: seq<int>, n: nat)
    requires n <= |b| && (forall j :: 0 <= j < n ==> b[j] == 0) && (n < |b| ==> b[n] != 0)
    ensures Val(256, b) == Val(256, b[n..]) && Leading(b, 0) == n
  {
    hide Val, Leading;
    assert b == b[..n] + b[n..];
    ValZeros(256, b[..n]);
    ValConcat(256, b[..n], b[n..]);
    ZeroTimes(Val(256, b[..n]), Pow(256, |b| - n));
  }

  // ---------------------------------------------------------------------------------
  // Decoding
  // ---------------------------------------------------------------------------------

  datatype Option<+T> = None | Some(value: T)

  /** How many spaces, or characters that are not spaces, start a string. */
  function Spaces(s: seq<int>): (n: nat)
    ensures n <= |s| && (forall i :: 0 <= i < n ==> IsSpace(s[i])) && (n < |s| ==> !IsSpace(s[n]))
  {
    if s != [] && IsSpace(s[0]) then 1 + Spaces(s[1..]) else 0
  }

  function WordLength(s: seq<int>): (n: nat)
    ensures n <= |s| && (forall i :: 0 <= i < n ==> !IsSpace(s[i])) && (n < |s| ==> IsSpace(s[n]))
  {
    if s != [] && !IsSpace(s[0]) then 1 + WordLength(s[1..]) else 0
  }

  /** The parts of a string: leading '1's, a word, what follows; surrounding spaces cut off. */
  function Trimmed(psz: seq<int>): seq<int> {
    var t := psz[Spaces(psz)..];
    t[..WordLength(t)]
  }

  predicate OneWord(psz: seq<int>) {
    var t := psz[Spaces(psz)..];
    var r := t[WordLength(t)..];
    Spaces(r) == |r|
  }

  function DecodedFrom(psz: seq<int>): Option<seq<int>> {
    var word := Trimmed(psz);
    var zeroes := Leading(word, ONE);
    if OneWord(psz) && Digits(58, DigitsOf(word)) then
      ValBound(58, DigitsOf(word));
      Some(Zeros(zeroes) + Rep(256, Val(58, DigitsOf(word))))
    else None
  }

  lemma DigitRange(c: int)
    ensures DigitOf(c) == -1 || 0 <= DigitOf(c) < 58
    ensures DigitOf(ONE) == 0 && !IsSpace(ONE) && (DigitOf(c) == 0 <==> c == ONE)
    ensures IsSpace(c) ==> DigitOf(c) == -1
    ensures DigitOf(c) != -1 ==> CharOf(DigitOf(c)) == c
  {}

  lemma CharRange(d: int)
    requires 0 <= d < 58
    ensures DigitOf(CharOf(d)) == d && !IsSpace(CharOf(d)) && (CharOf(d) == ONE <==> d == 0)
  {}

  /** `psz` is a C string: the terminating zero is the end of the sequence. */
  method DecodeBase58(psz: seq<int>) returns (vch: Option<seq<int>>)
    requires 0 !in psz
    ensures vch == DecodedFrom(psz)
  {
    hide Val, Rep, Pow, Leading, Spaces, WordLength, DigitOf, IsSpace;
    var i := 0;
    while i < |psz| && IsSpace(psz[i])
      invariant i <= |psz| && forall j :: 0 <= j < i ==> IsSpace(psz[j])
    {
      i := i + 1;
    }
    ghost var t := psz[i..];
    SpacesIs(psz, i);
    var zeroes := 0;
    while i + zeroes < |psz| && psz[i + zeroes] == ONE
      invariant i + zeroes <= |psz| && forall j :: i <= j < i + zeroes ==> psz[j] == ONE
    {
      zeroes := zeroes + 1;
    }
    var from := i + zeroes;
    var b256 := new int[(|psz| - from) * 733 / 1000 + 1](_ => 0);
    var ok, upto, length := DecodeDigits(psz, from, b256);
    DigitRange(ONE);
    if !ok {
      BadWord(psz, i, upto);
      return None;
    }
    GoodWord(psz, i, zeroes, upto);
    var k := upto;
    while k < |psz| && IsSpace(psz[k])
      invariant upto <= k <= |psz| && forall j :: upto <= j < k ==> IsSpace(psz[j])
    {
      k := k + 1;
    }
    ghost var r := psz[upto..];
    assert t[upto - i..] == r;
    SpacesIs(r, k - upto);
    if k < |psz| {
      return None;
    }
    var digits := Significant(b256, 256, length);
    vch := Some(Zeros(zeroes) + digits);
  }

  lemma SpacesIs(s: seq<int>, n: nat)
    requires n <= |s| && (forall i :: 0 <= i < n ==> IsSpace(s[i])) && (n < |s| ==> !IsSpace(s[n]))
    ensures Spaces(s) == n
  {
    hide IsSpace, Spaces;
  }

  lemma WordLengthIs(s: seq<int>, n: nat)
    requires n <= |s| && (forall i :: 0 <= i < n ==> !IsSpace(s[i])) && (n < |s| ==> IsSpace(s[n]))
    ensures WordLength(s) == n
  {
    hide IsSpace, WordLength;
    assert n < |s| ==> IsSpace(s[n]);
  }

  lemma LeadingIs(s: seq<int>, x: int, n: nat)
    requires n <= |s| && (forall i :: 0 <= i < n ==> s[i] == x) && (n < |s| ==> s[n] != x)
    ensures Leading(s, x) == n
  {
    hide Leading;
  }

  /** A bad character spoils the word it is in. */
  lemma BadWord(psz: seq<int>, from: nat, upto: nat)
    requires from <= upto < |psz| && Spaces(psz) == from && DigitOf(psz[upto]) == -1
    requires forall j :: from <= j <= upto ==> !IsSpace(psz[j])
    ensures !Digits(58, DigitsOf(Trimmed(psz)))
  {
    hide Spaces, WordLength, DigitOf, IsSpace;
    var t := psz[from..];
    var n := WordLength(t);
    assert forall j :: 0 <= j <= upto - from ==> t[j] == psz[from + j] && !IsSpace(t[j]);
    assert n > upto - from;
    assert DigitsOf(t[..n])[upto - from] == -1;
  }

  lemma GoodWord(psz: seq<int>, from: nat, zeroes: nat, upto: nat)
    requires from + zeroes <= upto <= |psz| && Spaces(psz) == from
    requires forall j :: from <= j < upto ==> !IsSpace(psz[j]) && DigitOf(psz[j]) != -1
    requires forall j :: from <= j < from + zeroes ==> psz[j] == ONE
    requires from + zeroes < |psz| ==> psz[from + zeroes] != ONE
    requires upto < |psz| ==> IsSpace(psz[upto])
    ensures var word := Trimmed(psz);
            && word == psz[from..upto] && Digits(58, DigitsOf(word)) && Leading(word, ONE) == zeroes
            && Val(58, DigitsOf(word)) == Val(58, DigitsOf(psz[from + zeroes..upto]))
  {
    hide Val, Leading, Spaces, WordLength, DigitOf, IsSpace;
    var t, word := psz[from..], psz[from..upto];
    WordLengthIs(t, upto - from);
    assert t[..upto - from] == word;
    DigitRange(ONE);
    assert zeroes < |word| ==> word[zeroes] == psz[from + zeroes];
    LeadingIs(word, ONE, zeroes);
    forall i | 0 <= i < |word| ensures 0 <= DigitOf(word[i]) < 58 { DigitRange(word[i]); }
    assert word[zeroes..] == psz[from + zeroes..upto];
    StrippedWord(word, zeroes);
  }

  lemma StrippedWord(word: seq<int>, zeroes: nat)
    requires zeroes <= |word| && forall i :: 0 <= i < zeroes ==> word[i] == ONE
    ensures Val(58, DigitsOf(word)) == Val(58, DigitsOf(word[zeroes..]))
  {
    hide Val, DigitOf;
    DigitRange(ONE);
    var ds := DigitsOf(word);
    assert ds == Zeros(zeroes) + ds[zeroes..] && ds[zeroes..] == DigitsOf(word[zeroes..]);
    PaddedValue(58, zeroes, ds[zeroes..]);
  }

  /** The main loop: reads digits up to a space, the end, or a bad character; the buffer is
      always large enough. */
  method DecodeDigits(psz: seq<int>, from: nat, b256: array<int>) returns (ok: bool, upto: nat, length: nat)
    requires from <= |psz| && b256.Length == (|psz| - from) * 733 / 1000 + 1
    requires forall j :: 0 <= j < b256.Length ==> b256[j] == 0
    modifies b256
    ensures from <= upto <= |psz| && length <= b256.Length && Digits(256, b256[..])
    ensures forall j :: from <= j < upto ==> !IsSpace(psz[j]) && DigitOf(psz[j]) != -1
    ensures if ok then upto < |psz| ==> IsSpace(psz[upto])
            else upto < |psz| && !IsSpace(psz[upto]) && DigitOf(psz[upto]) == -1
    ensures ok ==> Val(256, b256[..]) == Val(58, DigitsOf(psz[from..upto]))
    ensures forall j :: 0 <= j < b256.Length - length ==> b256[j] == 0
  {
    hide Val, Pow, DigitOf, IsSpace;
    length, upto := 0, from;
    DecodeSize(|psz| - from);
    ValZeros(256, b256[..]);
    ValEmpty(58);
    while upto < |psz| && !IsSpace(psz[upto])
      invariant from <= upto <= |psz| && length <= b256.Length && Digits(256, b256[..])
      invariant forall j :: from <= j < upto ==> !IsSpace(psz[j]) && DigitOf(psz[j]) != -1
      invariant Val(256, b256[..]) == Val(58, DigitsOf(psz[from..upto]))
      invariant forall j :: 0 <= j < b256.Length - length ==> b256[j] == 0
    {
      var digit := DigitOf(psz[upto]);
      if digit == -1 {
        return false, upto, length;
      }
      DigitRange(psz[upto]);
      NextDigit(psz, from, upto);
      var carry;
      carry, length := MultiplyAdd(b256, 256, 58, digit, length);
      ValBound(256, b256[..]);
      NoCarry(Val(256, b256[..]), carry, Pow(256, b256.Length));
      assert carry == 0;
      ZeroTimes(carry, Pow(256, b256.Length));
      upto := upto + 1;
    }
    ok := true;
  }

  lemma NextDigit(psz: seq<int>, from: nat, upto: nat)
    requires from <= upto < |psz| && forall j :: from <= j <= upto ==> DigitOf(psz[j]) != -1
    ensures Val(58, DigitsOf(psz[from..upto + 1])) == Val(58, DigitsOf(psz[from..upto])) * 58 + DigitOf(psz[upto])
    ensures 0 <= Val(58, DigitsOf(psz[from..upto + 1])) < Pow(58, |psz| - from)
  {
    hide Pow, DigitOf;
    forall c ensures DigitOf(c) == -1 || 0 <= DigitOf(c) < 58 { DigitRange(c); }
    var ds := DigitsOf(psz[from..upto + 1]);
    assert ds[..|ds| - 1] == DigitsOf(psz[from..upto]);
    ValBound(58, ds);
    if upto + 1 < |psz| {
      PowGrows(58, upto + 1 - from, |psz| - from);
    }
  }

  lemma WholeWord(s: seq<int>)
    requires forall i :: 0 <= i < |s| ==> !IsSpace(s[i])
    ensures Trimmed(s) == s && OneWord(s)
  {
    hide IsSpace;
    SpacesIs(s, 0);
    assert s[0..] == s;
    WordLengthIs(s, |s|);
    assert s[..|s|] == s && s[|s|..] == [];
  }

  lemma DecodeDigitsOnly(z: nat, ds: seq<int>)
    requires Digits(58, ds) && (ds != [] ==> ds[0] != 0)
    ensures Val(58, ds) >= 0 && DecodedFrom(Ones(z) + Chars(ds)) == Some(Zeros(z) + Rep(256, Val(58, ds)))
  {
    hide Val, Rep, Leading, Trimmed, OneWord, DigitOf, CharOf, IsSpace;
    var s := Ones(z) + Chars(ds);
    EncodedChars(z, ds);
    WholeWord(s);
    LeadingIs(s, ONE, z);
    assert DigitsOf(s) == Zeros(z) + ds;
    PaddedValue(58, z, ds);
    ValBound(58, ds);
  }

  /** Decoding undoes encoding, for every byte string. */
  lemma RoundTrip(b: seq<int>)
    requires Bytes(b)
    ensures DecodedFrom(Encoded(b)) == Some(b)
  {
    hide Val, Rep, Leading, DecodedFrom;
    var z, v := Leading(b, 0), Val(256, b);
    ValBound(256, b);
    DecodeDigitsOnly(z, Rep(58, v));
    ValRep(58, v);
    StrippedValue(b, z);
    RepVal(256, b[z..]);
    assert b == Zeros(z) + b[z..];
  }

  lemma EncodedChars(z: nat, ds: seq<int>)
    requires Digits(58, ds) && (ds != [] ==> ds[0] != 0)
    ensures var s := Ones(z) + Chars(ds);
            forall i :: 0 <= i < |s| ==>
                          && !IsSpace(s[i]) && DigitOf(s[i]) == (if i < z then 0 else ds[i - z])
                          && (i < z ==> s[i] == ONE) && (i == z ==> s[i] != ONE)
  {
    hide DigitOf, CharOf, IsSpace;
    DigitRange(ONE);
    var s := Ones(z) + Chars(ds);
    forall i | z <= i < |s|
      ensures s[i] == CharOf(ds[i - z]) && DigitOf(s[i]) == ds[i - z] && !IsSpace(s[i]) && (i == z ==> s[i] != ONE)
    {
      CharRange(ds[i - z]);
    }
  }

  lemma PaddedValue(base: nat, z: nat, ds: seq<int>)
    ensures Val(base, Zeros(z) + ds) == Val(base, ds)
  {
    hide Val;
    ValZeros(base, Zeros(z));
    ValConcat(base, Zeros(z), ds);
    ZeroTimes(Val(base, Zeros(z)), Pow(base, |ds|));
  }

  /** What decodes is, up to surrounding spaces, the encoding of what it decodes to. */
  lemma DecodedReencodes(psz: seq<int>)
    requires DecodedFrom(psz).Some?
    ensures Bytes(DecodedFrom(psz).value) && Encoded(DecodedFrom(psz).value) == Trimmed(psz)
  {
    hide Val, Rep, Leading, DigitOf, CharOf, IsSpace, Trimmed, OneWord;
    var word := Trimmed(psz);
    var z, ds := Leading(word, ONE), DigitsOf(word);
    ValBound(58, ds);
    var v := Val(58, ds);
    var b := Zeros(z) + Rep(256, v);
    assert DecodedFrom(psz).value == b;
    forall i | 0 <= i < |word| ensures CharOf(ds[i]) == word[i] && (ds[i] == 0 <==> word[i] == ONE) {
      DigitRange(word[i]);
    }
    // the word is '1's and the digits of its value
    assert ds == Zeros(z) + ds[z..];
    PaddedValue(58, z, ds[z..]);
    RepVal(58, ds[z..]);
    // the bytes are zeros and the bytes of that value
    PaddedValue(256, z, Rep(256, v));
    ValRep(256, v);
    StrippedValue(b, z);
    assert Ones(z) + Chars(ds[z..]) == word;
  }
}
