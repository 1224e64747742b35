/** Machine words of the C sources, as ranges of the integers, and the division they use. */
module Words {

  type byte = x: int | 0 <= x < 0x100
  type uint32 = x: int | 0 <= x < 0x1_0000_0000
  type uint64 = x: int | 0 <= x < 0x1_0000_0000_0000_0000

  /** Wrap-around of 32-bit and 64-bit unsigned arithmetic. */
  function Wrap32(x: int): uint32 { x % 0x1_0000_0000 }
  function Wrap64(x: int): uint64 { x % 0x1_0000_0000_0000_0000 }

  /** Wrap-around composes with a further subtraction or addition. */
  lemma WrapAgain(a: int, b: int)
    ensures Wrap64(Wrap64(a) - b) == Wrap64(a - b)
    ensures Wrap64(Wrap64(a) + b) == Wrap64(a + b)
  {
    var q := a / 0x1_0000_0000_0000_0000;
    WrapMultiple(q, Wrap64(a) - b);
    WrapMultiple(q, Wrap64(a) + b);
  }

  lemma WrapMultiple(q: int, r: int)
    ensures Wrap64(q * 0x1_0000_0000_0000_0000 + r) == Wrap64(r)
  {
  }

  lemma WrapSame(x: uint64)
    ensures Wrap64(x) == x
  {
  }

  /** What wraps around is a multiple of 2^32, or of 2^64. */
  lemma WrapsAt(q: int, x: uint32, y: uint64)
    ensures Wrap32(q * 0x1_0000_0000 + x) == x && Wrap64(q * 0x1_0000_0000_0000_0000 + y) == y
  {
  }

  // ----- products, quotients and remainders -----

  lemma MultiplesApart(m: nat, a: nat, b: nat)
    requires a < b
    ensures a * m + m <= b * m
  {
    assert b * m == a * m + (b - a) * m;
    var k := b - a - 1;
    assert (b - a) * m == k * m + m;
  }

  /** a * m + s determines a and s < m. */
  lemma ProductSplit(m: nat, a: nat, s: nat, b: nat, t: nat)
    requires s < m && t < m
    ensures a * m + s == b * m + t <==> a == b && s == t
    ensures a < b ==> a * m + s < b * m
  {
    if a < b {
      MultiplesApart(m, a, b);
    } else if b < a {
      MultiplesApart(m, b, a);
    }
  }

  lemma DivModUnique(m: nat, q: nat, r: nat)
    requires r < m
    ensures (q * m + r) / m == q && (q * m + r) % m == r
  {
    var x := q * m + r;
    var q', r' := x / m, x % m;
    assert x == q' * m + r';
    ProductSplit(m, q, r, q', r');
  }

  datatype Option<+T> = None | Some(value: T)
}
