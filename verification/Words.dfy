/**
 uint64 as Go defines it: a number below 2^64, a left shift being that many
 doublings modulo 2^64, a right shift that many halvings, | and & bit by bit.
 */
module Words {
  import opened Bytes

  const WORD := 0x1_0000_0000_0000_0000

  /** w << n. */
  function Shl(w: u64, n: nat): u64 {
    if n == 0 then w else
    var half: int := Shl(w, n - 1);
    (2 * half) % WORD
  }

  /** w >> n. */
  function Shr(w: u64, n: nat): u64 {
    if n == 0 then w else Shr(w, n - 1) / 2
  }

  /** v | w and v & w. */
  function Or(v: nat, w: nat): nat {
    if v == 0 && w == 0 then 0 else
    2 * Or(v / 2, w / 2) + if v % 2 == 1 || w % 2 == 1 then 1 else 0
  }

  function And(v: nat, w: nat): nat {
    if v == 0 && w == 0 then 0 else
    2 * And(v / 2, w / 2) + if v % 2 == 1 && w % 2 == 1 then 1 else 0
  }

  /** Bit i of w, bit 0 being the least significant. */
  predicate Bit(w: nat, i: nat) {
    if i == 0 then w % 2 == 1 else Bit(w / 2, i - 1)
  }

  function Pow2(n: nat): (p: nat)
    ensures p > 0
  {
    if n == 0 then 1 else 2 * Pow2(n - 1)
  }

  /** w |= 1 << b sets bit b and no other, within the word. */
  lemma SetBits(w: u64, b: nat, i: nat)
    requires b < 64 && i < 64
    ensures Or(w, Shl(1, b)) < WORD
    ensures Bit(Or(w, Shl(1, b)), i) == (Bit(w, i) || i == b)
  {
    WordPow();
    OrBits(w, Shl(1, b), i);
    OrBound(w, Shl(1, b), 64);
    ShlBits(1, b, i);
    if i > b {
      BitsEnd(1, 1, i - b);
    }
  }

  /** w & (1 << b) != 0 tests bit b. */
  lemma TestBit(w: u64, b: nat)
    requires b < 64
    ensures (And(w, Shl(1, b)) != 0) == Bit(w, b)
  {
    OneShl(b);
    AndPow2(w, b);
  }

  /** hi << s | lo >> (64 - s): the low s bits come from the top of the word below. */
  lemma CarryBits(hi: u64, lo: u64, s: nat, i: nat)
    requires 0 < s < 64 && i < 64
    ensures Or(Shl(hi, s), Shr(lo, 64 - s)) < WORD
    ensures Bit(Or(Shl(hi, s), Shr(lo, 64 - s)), i) == if i >= s then Bit(hi, i - s) else Bit(lo, i + 64 - s)
  {
    WordPow();
    OrBits(Shl(hi, s), Shr(lo, 64 - s), i);
    OrBound(Shl(hi, s), Shr(lo, 64 - s), 64);
    ShlBits(hi, s, i);
    ShrBits(lo, 64 - s, i);
    if i >= s {
      BitsEnd(lo, 64, i + 64 - s);
    }
  }

  lemma {:induction false} ShlBits(w: u64, n: nat, i: nat)
    requires i < 64
    ensures Bit(Shl(w, n), i) == (i >= n && Bit(w, i - n))
  {
    if n > 0 {
      DoubledBits(Shl(w, n - 1), i);
      if i > 0 {
        ShlBits(w, n - 1, i - 1);
      }
    }
  }

  lemma DoubledBits(w: nat, i: nat)
    requires w < WORD && i < 64
    ensures Bit((2 * w) % WORD, i) == (i > 0 && Bit(w, i - 1))
  {
    WordPow();
    if 2 * w < WORD {
      assert (2 * w) % WORD == 2 * w;
    } else {
      assert (2 * w) % WORD == 2 * (w - Pow2(63));
      if i > 0 {
        DropTop(w, 63, i - 1);
      }
    }
  }

  lemma {:induction false} ShrBits(w: u64, n: nat, i: nat)
    ensures Bit(Shr(w, n), i) == Bit(w, i + n)
  {
    if n > 0 {
      ShrBits(w, n - 1, i + 1);
    }
  }

  lemma {:induction false} OrBits(v: nat, w: nat, i: nat)
    ensures Bit(Or(v, w), i) == (Bit(v, i) || Bit(w, i))
  {
    OrHalves(v, w);
    hide Or;
    if i > 0 {
      OrBits(v / 2, w / 2, i - 1);
    }
  }

  lemma OrHalves(v: nat, w: nat)
    ensures Or(v, w) / 2 == Or(v / 2, w / 2)
    ensures Or(v, w) % 2 == 1 <==> v % 2 == 1 || w % 2 == 1
  {
  }

  lemma {:induction false} OrBound(v: nat, w: nat, k: nat)
    requires v < Pow2(k) && w < Pow2(k)
    ensures Or(v, w) < Pow2(k)
  {
    if k > 0 {
      OrBound(v / 2, w / 2, k - 1);
    }
  }

  /** A number below 2^k has no bit from k up. */
  lemma {:induction false} BitsEnd(w: nat, k: nat, i: nat)
    requires w < Pow2(k) && k <= i
    ensures !Bit(w, i)
  {
    if i > 0 {
      BitsEnd(w / 2, if k == 0 then 0 else k - 1, i - 1);
    }
  }

  /** Taking 2^k away leaves the bits below k. */
  lemma {:induction false} DropTop(w: nat, k: nat, i: nat)
    requires Pow2(k) <= w && i < k
    ensures Bit(w - Pow2(k), i) == Bit(w, i)
  {
    if i > 0 {
      DropTop(w / 2, k - 1, i - 1);
    }
  }

  lemma {:induction false} AndPow2(w: nat, b: nat)
    ensures (And(w, Pow2(b)) != 0) == Bit(w, b)
  {
    if b > 0 {
      AndPow2(w / 2, b - 1);
    } else {
      AndZero(w / 2);
    }
  }

  lemma {:induction false} AndZero(w: nat)
    ensures And(w, 0) == 0
  {
    if w > 0 {
      AndZero(w / 2);
    }
  }

  lemma {:induction false} OneShl(b: nat)
    requires b < 64
    ensures Shl(1, b) == Pow2(b)
  {
    if b > 0 {
      OneShl(b - 1);
      Pow2Grows(b, 63);
      WordPow();
    }
  }

  lemma {:induction false} Pow2Grows(i: nat, j: nat)
    requires i <= j
    ensures Pow2(i) <= Pow2(j)
  {
    if i < j {
      Pow2Grows(i, j - 1);
    }
  }

  lemma Pow2Nibble(k: nat)
    ensures Pow2(k + 4) == 0x10 * Pow2(k)
  {
    assert Pow2(k + 1) == 2 * Pow2(k);
    assert Pow2(k + 2) == 2 * Pow2(k + 1);
    assert Pow2(k + 3) == 2 * Pow2(k + 2);
  }

  lemma Pow2Half(k: nat)
    ensures Pow2(k + 16) == 0x1_0000 * Pow2(k)
  {
    hide Pow2;
    Pow2Nibble(k);
    Pow2Nibble(k + 4);
    Pow2Nibble(k + 8);
    Pow2Nibble(k + 12);
  }

  lemma WordPow()
    ensures Pow2(64) == WORD && Pow2(63) == WORD / 2
  {
    OneAndDouble(63);
    hide Pow2;
    Pow2Half(0);
    Pow2Half(16);
    Pow2Half(32);
    Pow2Half(48);
  }

  lemma OneAndDouble(k: nat)
    ensures Pow2(0) == 1 && Pow2(k + 1) == 2 * Pow2(k)
  {
  }
}
