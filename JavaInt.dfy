/** Java's 32-bit `int`: the range of a board cell and the wrap-around of `+`. */
module JavaInt {

  const Modulus: int := 0x1_0000_0000
  const MinInt: int := -0x8000_0000
  const MaxInt: int := 0x7fff_ffff

  /** A value of Java type `int`. */
  type Int32 = x: int | -0x8000_0000 <= x < 0x8000_0000

  /** Java's `a + b` on two `int`s: the mathematical sum, brought back into
      range by one turn of 2^32 when it overflows. */
  function Add(a: Int32, b: Int32): (s: Int32)
    ensures MinInt <= a + b <= MaxInt ==> s == a + b
  {
    if a + b > MaxInt then a + b - Modulus
    else if a + b < MinInt then a + b + Modulus
    else a + b
  }

  /** Two mathematical values that Java cannot tell apart once stored in an
      `int`: they differ by a multiple of 2^32. */
  predicate Congruent(a: int, b: int) {
    (a - b) % Modulus == 0
  }

  /** The `int` that a sequence of Java additions yields for the mathematical
      value `x`: the unique Int32 congruent to `x`. */
  function Wrap(x: int): (w: Int32)
    ensures Congruent(w, x)
    ensures MinInt <= x <= MaxInt ==> w == x
  {
    (x + 0x8000_0000) % Modulus - 0x8000_0000
  }

  /** Java's `+` agrees with mathematical `+` up to congruence. */
  lemma AddCongruent(a: Int32, b: Int32)
    ensures Congruent(Add(a, b), a + b)
  {
  }

  lemma CongruentTransitive(a: int, b: int, c: int)
    requires Congruent(a, b) && Congruent(b, c)
    ensures Congruent(a, c)
  {
    var k := (a - b) / Modulus + (b - c) / Modulus;
    assert a - c == k * Modulus;
  }

  /** Congruence is kept by addition, so a sum may be wrapped at any step. */
  lemma CongruentAdd(a: int, b: int, c: int, d: int)
    requires Congruent(a, b) && Congruent(c, d)
    ensures Congruent(a + c, b + d)
  {
    var k := (a - b) / Modulus + (c - d) / Modulus;
    assert (a + c) - (b + d) == k * Modulus;
  }

  /** Replacing a part of a total by a congruent value keeps the total's class. */
  lemma CongruentReplace(total: int, part: int, w: int)
    requires Congruent(w, part)
    ensures Congruent(total - part + w, total)
  {
    assert (total - part + w) - total == w - part;
  }

  /** Congruent values wrap to the same `int`. */
  lemma WrapCongruent(a: int, b: int)
    requires Congruent(a, b)
    ensures Wrap(a) == Wrap(b)
  {
    var k := (a - b) / Modulus;
    assert a + 0x8000_0000 == (b + 0x8000_0000) + k * Modulus;
  }

  /** Folding one more addend into an already wrapped running total with
      Java's `+` gives the wrapped mathematical total. */
  lemma AddAccumulates(total: int, x: Int32)
    ensures Add(Wrap(total), x) == Wrap(total + x)
  {
    AddCongruent(Wrap(total), x);
    CongruentAdd(Wrap(total), total, x, x);
    CongruentTransitive(Add(Wrap(total), x), Wrap(total) + x, total + x);
    WrapCongruent(Add(Wrap(total), x), total + x);
  }

  /** Four congruent addends give congruent sums. */
  lemma CongruentSum4(x: int, y: int, a0: int, a1: int, a2: int, a3: int, b0: int, b1: int, b2: int, b3: int)
    requires x == a0 + a1 + a2 + a3 && y == b0 + b1 + b2 + b3
    requires Congruent(a0, b0) && Congruent(a1, b1) && Congruent(a2, b2) && Congruent(a3, b3)
    ensures Congruent(x, y)
  {
    CongruentAdd(a0, b0, a1, b1);
    CongruentAdd(a0 + a1, b0 + b1, a2, b2);
    CongruentAdd(a0 + a1 + a2, b0 + b1 + b2, a3, b3);
  }
}
