/** The few places where Java's fixed-width integers show through: `int`
    arithmetic wraps modulo 2^32 and `1 << p` uses only the low five bits of `p`; and
    Java's null, as an optional value. */
module JavaNum {

  /** A reference that may be null, or a result that may be missing. */
  datatype Option<T> = None | Some(value: T)

  const IntMin: int := -0x8000_0000
  const IntMax: int := 0x7fff_ffff
  const Modulus: int := 0x1_0000_0000

  predicate IsInt32(x: int) {
    IntMin <= x <= IntMax
  }

  /** The `int` that Java arithmetic yields for the mathematical result `x`:
      x moved into the `int` range by whole multiples of 2^32. */
  function Wrap32(x: int): (r: int)
    ensures IsInt32(r)
    ensures IsInt32(x) ==> r == x
    decreases if x > IntMax then x - IntMax else if x < IntMin then IntMin - x else 0
  {
    if x > IntMax then Wrap32(x - Modulus)
    else if x < IntMin then Wrap32(x + Modulus)
    else x
  }

  /** Wrapping is reduction modulo 2^32 into [-2^31, 2^31). */
  lemma {:induction false} Wrap32Mod(x: int)
    ensures Wrap32(x) == (x - IntMin) % Modulus + IntMin
    decreases if x > IntMax then x - IntMax else if x < IntMin then IntMin - x else 0
  {
    if x > IntMax {
      Wrap32Mod(x - Modulus);
      ModShift(x - IntMin, -1);
    } else if x < IntMin {
      Wrap32Mod(x + Modulus);
      ModShift(x - IntMin, 1);
    }
  }

  lemma ModShift(a: int, k: int)
    ensures (a + k * Modulus) % Modulus == a % Modulus
  {
  }

  function Pow2(p: nat): (r: nat)
    ensures 0 < r
  {
    if p == 0 then 1 else 2 * Pow2(p - 1)
  }

  /** Java's `1 << p`: the shift distance is taken modulo 32. */
  function Shl1(p: int): (r: int)
    ensures IsInt32(r)
    ensures 0 <= p < 31 ==> r == Pow2(p)
  {
    var s := p % 32;
    Pow2Bound(s);
    if s == 31 then IntMin else Pow2(s)
  }

  lemma Pow2Bound(p: nat)
    ensures p <= 30 ==> Pow2(p) <= 0x4000_0000
  {
    if p <= 30 {
      Pow2Monotone(p, 30);
      assert Pow2(10) == 0x400;
      Pow2Add(10, 10);
      Pow2Add(20, 10);
    }
  }

  lemma Pow2Thirty()
    ensures Pow2(30) == 0x4000_0000
  {
    assert Pow2(10) == 0x400;
    Pow2Add(10, 10);
    Pow2Add(20, 10);
  }

  lemma {:induction false} Pow2Monotone(p: nat, q: nat)
    requires p <= q
    ensures Pow2(p) <= Pow2(q)
  {
    if p < q {
      Pow2Monotone(p, q - 1);
    }
  }

  lemma {:induction false} Pow2Add(p: nat, q: nat)
    ensures Pow2(p + q) == Pow2(p) * Pow2(q)
  {
    if 0 < q {
      Pow2Add(p, q - 1);
    }
  }

  lemma Pow2Succ(p: nat)
    ensures Pow2(p + 1) == 2 * Pow2(p)
  {
  }
}
