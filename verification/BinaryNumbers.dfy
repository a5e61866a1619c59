/** Powers of two, bit lengths and odd parts of natural numbers. */
module BinaryNumbers {
  function Pow2(n: nat): (p: nat)
    ensures p >= 1
  {
    if n == 0 then 1 else 2 * Pow2(n - 1)
  }

  lemma {:induction false} Pow2Add(a: nat, b: nat)
    ensures Pow2(a + b) == Pow2(a) * Pow2(b)
    decreases a
  {
    if a > 0 {
      Pow2Add(a - 1, b);
      assert 2 * (Pow2(a - 1) * Pow2(b)) == (2 * Pow2(a - 1)) * Pow2(b);
    }
  }

  lemma {:induction false} Pow2Grows(a: nat, b: nat)
    requires a <= b
    ensures Pow2(a) <= Pow2(b)
    ensures a < b ==> 2 * Pow2(a) <= Pow2(b)
    decreases b - a
  {
    if a < b {
      Pow2Grows(a + 1, b);
    }
  }

  lemma WordPowers()
    ensures Pow2(32) == 0x1_0000_0000 && Pow2(52) == 0x10_0000_0000_0000 && Pow2(53) == 0x20_0000_0000_0000
    ensures Pow2(63) == 0x8000_0000_0000_0000 && Pow2(64) == 0x1_0000_0000_0000_0000
    ensures Pow2(127) == 0x8000_0000_0000_0000 * 0x1_0000_0000_0000_0000
    ensures Pow2(128) == 0x1_0000_0000_0000_0000 * 0x1_0000_0000_0000_0000
  {
    assert Pow2(10) == 0x400;
    Pow2Add(10, 10);
    Pow2Add(20, 10);
    Pow2Add(30, 2);
    Pow2Add(32, 20);
    Pow2Add(52, 1);
    Pow2Add(53, 10);
    Pow2Add(63, 1);
    Pow2Add(63, 64);
    Pow2Add(64, 64);
  }

  // ---- Products ----

  lemma TimesMonotone(a: nat, b: nat, c: nat)
    requires c > 0
    ensures a < b <==> a * c < b * c
    ensures a == b <==> a * c == b * c
  {
    if a < b {
      assert b * c == a * c + (b - a) * c;
    } else if b < a {
      assert a * c == b * c + (a - b) * c;
    }
  }

  /** Moving a power of two from one factor to the other. */
  lemma Shifted(n: nat, a: nat, b: nat)
    ensures n * Pow2(a) * Pow2(b) == n * Pow2(a + b)
  {
    Pow2Add(a, b);
    assert n * Pow2(a) * Pow2(b) == n * (Pow2(a) * Pow2(b));
  }

  // ---- Bits ----

  /** The number of bits up to and including the top set bit. */
  function BitLength(n: nat): nat {
    if n == 0 then 0 else 1 + BitLength(n / 2)
  }

  lemma {:induction false} BitLengthBounds(n: nat)
    requires n > 0
    ensures BitLength(n) > 0 && Pow2(BitLength(n) - 1) <= n < Pow2(BitLength(n))
    decreases n
  {
    if n > 1 {
      BitLengthBounds(n / 2);
    }
  }

  /** Bit length is the only position with the number between two neighbouring powers. */
  lemma BitLengthUnique(n: nat, bits: nat)
    requires n > 0 && bits > 0 && Pow2(bits - 1) <= n < Pow2(bits)
    ensures BitLength(n) == bits
  {
    BitLengthBounds(n);
    if BitLength(n) < bits {
      Pow2Grows(BitLength(n), bits - 1);
    } else if bits < BitLength(n) {
      Pow2Grows(bits, BitLength(n) - 1);
    }
  }

  lemma BitLengthAtMost(n: nat, bits: nat)
    ensures n < Pow2(bits) <==> BitLength(n) <= bits
  {
    if n > 0 {
      BitLengthBounds(n);
      if BitLength(n) <= bits {
        Pow2Grows(BitLength(n), bits);
      } else {
        Pow2Grows(bits, BitLength(n) - 1);
      }
    }
  }

  lemma {:induction false} BitLengthShifted(n: nat, k: nat)
    requires n > 0
    ensures BitLength(n * Pow2(k)) == BitLength(n) + k
    decreases k
  {
    if k == 0 {
      assert n * Pow2(0) == n;
    } else {
      BitLengthShifted(n, k - 1);
      assert n * Pow2(k) == 2 * (n * Pow2(k - 1));
    }
  }

  function TrailingZeros(n: nat): nat
    requires n > 0
  {
    if n % 2 == 1 then 0 else 1 + TrailingZeros(n / 2)
  }

  /** What is left of the number once its trailing zero bits are gone. */
  function OddPart(n: nat): (odd: nat)
    requires n > 0
    ensures odd % 2 == 1 && 0 < odd <= n
  {
    if n % 2 == 1 then n else OddPart(n / 2)
  }

  lemma {:induction false} OddPartTimes(n: nat)
    requires n > 0
    ensures n == OddPart(n) * Pow2(TrailingZeros(n))
    decreases n
  {
    if n % 2 == 0 {
      OddPartTimes(n / 2);
      assert OddPart(n) * (2 * Pow2(TrailingZeros(n / 2))) == 2 * (OddPart(n) * Pow2(TrailingZeros(n / 2)));
    }
  }

  /** The number with its k lowest bits dropped. */
  function ShiftRight(n: nat, k: nat): (r: nat)
    ensures r <= n
  {
    if k == 0 then n else ShiftRight(n / 2, k - 1)
  }

  lemma {:induction false} ShiftOutZeros(n: nat)
    requires n > 0
    ensures ShiftRight(n, TrailingZeros(n)) == OddPart(n)
    decreases n
  {
    if n % 2 == 0 {
      ShiftOutZeros(n / 2);
    }
  }

  /** A number splits into an odd part and a power of two in one way only. */
  lemma {:induction false} OddTimesPowerUnique(odd: nat, k: nat)
    requires odd % 2 == 1
    ensures odd * Pow2(k) > 0
    ensures OddPart(odd * Pow2(k)) == odd && TrailingZeros(odd * Pow2(k)) == k
    decreases k
  {
    if k == 0 {
      assert odd * Pow2(0) == odd;
    } else {
      OddTimesPowerUnique(odd, k - 1);
      assert odd * Pow2(k) == 2 * (odd * Pow2(k - 1));
    }
  }

  lemma OddTimesPowerInjective(odd: nat, k: nat, odd': nat, k': nat)
    requires odd % 2 == 1 && odd' % 2 == 1 && odd * Pow2(k) == odd' * Pow2(k')
    ensures odd == odd' && k == k'
  {
    OddTimesPowerUnique(odd, k);
    OddTimesPowerUnique(odd', k');
  }
}
