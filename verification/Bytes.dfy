/** Machine bytes, words and disk blocks. */
module Bytes {
  type byte = x: int | 0 <= x < 0x100

  type word = x: int | 0 <= x < 0x1_0000

  const SECTOR_SIZE := 512

  // One disk sector.
  type Block = s: seq<byte> | |s| == 512 witness seq(512, _ => 0)

  // Division and remainder of natural numbers, as C's operators on non-negative ints.
  function Quot(n: nat, d: nat): (q: nat)
    requires d >= 1
    ensures n == q * d + Rem(n, d)
  {
    n / d
  }

  function Rem(n: nat, d: nat): (r: nat)
    requires d >= 1
    ensures r < d
  {
    n % d
  }

  lemma MulMonotonic(a: nat, b: nat, k: nat)
    requires a <= b
    ensures a * k <= b * k
  {
  }

  // The processor's division of DX:AX by a word raises an error unless DX is below the divisor.
  method DivWord(dx: word, ax: word, divisor: word) returns (q: word, r: word)
    requires dx < divisor
    ensures dx * 0x1_0000 + ax == q * divisor + r && r < divisor
    ensures q == Quot(dx * 0x1_0000 + ax, divisor) && r == Rem(dx * 0x1_0000 + ax, divisor)
  {
    QuotientFits(dx, ax, divisor, 0x1_0000);
    q, r := Quot(dx * 0x1_0000 + ax, divisor), Rem(dx * 0x1_0000 + ax, divisor);
  }

  // Its division of AX by a byte needs the high byte of AX to be below the divisor.
  method DivByte(ax: word, divisor: byte) returns (al: byte, ah: byte)
    requires ax / 0x100 < divisor
    ensures ax == al * divisor + ah && ah < divisor
  {
    QuotientFits(ax / 0x100, ax % 0x100, divisor, 0x100);
    al, ah := Quot(ax, divisor), Rem(ax, divisor);
  }

  lemma QuotientFits(high: nat, low: nat, d: nat, base: nat)
    requires high < d && low < base
    ensures Quot(high * base + low, d) < base
  {
    MulMonotonic(high + 1, d, base);
    var q := Quot(high * base + low, d);
    MulMonotonic(if q < base then q else base, q, d);
    assert q * d <= high * base + low < d * base;
  }

  lemma QuotientIsUnique(n: nat, d: nat, q: nat, r: nat)
    requires n == q * d + r && r < d
    ensures Quot(n, d) == q && Rem(n, d) == r
  {
    var p := Quot(n, d);
    MulMonotonic(if p < q then p + 1 else p, if p < q then q else p, d);
    MulMonotonic(if q < p then q + 1 else q, if q < p then p else q, d);
  }

  // Dividing in two steps is dividing by the product.
  lemma QuotTwice(n: nat, a: nat, b: nat)
    requires a >= 1 && b >= 1
    ensures a * b >= 1 && Quot(Quot(n, a), b) == Quot(n, a * b)
  {
    var w := Quot(n, a);
    var x, t, u := Quot(w, b), Rem(w, b), Rem(n, a);
    hide Quot, Rem;
    MulMonotonic(t + 1, b, a);
    assert x * (a * b) == x * b * a;
    QuotientIsUnique(n, a * b, x, t * a + u);
  }
}
