/**
 The anti-replay window of an inbound security association (section 3.4.3 of
 RFC 4303): a multi-word bitmap shifted in place, proved to be the set of all
 sequence numbers the window was ever advanced to.
 */
module Replay {
  import opened Bytes
  import opened Words

  const DEFAULT_REPLAY_WINDOW_SIZE: u32 := 128

  /** What the window stands for: the highest number and every number advanced to. */
  datatype Window = Window(size: nat, last: nat, seen: set<int>) {

    predicate Accepts(n: nat) {
      n != 0 && (n > last || (last - n < size && n !in seen))
    }

    function Advance(n: nat): Window {
      if n == 0 then this else Window(size, if n > last then n else last, seen + {n})
    }

    function AdvanceAll(ns: seq<nat>): Window {
      if ns == [] then this else AdvanceAll(ns[..|ns| - 1]).Advance(ns[|ns| - 1])
    }
  }

  function Fresh(size: nat): Window { Window(size, 0, {}) }

  /** The window size NewReplayWindow ends up with; uint32 arithmetic wraps. */
  function RoundedSize(requested: u32): u32 {
    var size := if requested == 0 then DEFAULT_REPLAY_WINDOW_SIZE else requested;
    ToU32(size + 63) / 64 * 64
  }

  /** The window never is smaller than asked for, unless the request is within 63 of 2^32. */
  lemma RoundedSizeSuffices(requested: u32)
    ensures RoundedSize(requested) % 64 == 0
    ensures RoundedSize(requested) >= requested <==> requested <= 0x1_0000_0000 - 64
    ensures requested > 0x1_0000_0000 - 64 ==> RoundedSize(requested) == 0
    ensures requested == 0 ==> RoundedSize(requested) == 128
    ensures 0 < requested <= 0x1_0000_0000 - 64 ==> RoundedSize(requested) < requested + 64
  {
  }

  /**
   The window after any run: a number is accepted exactly when it is not zero, was
   not advanced to before, and lies less than size below every number advanced to.
   */
  lemma {:induction false} AcceptsExactly(size: nat, ns: seq<nat>, n: nat)
    ensures Fresh(size).AdvanceAll(ns).Accepts(n) <==>
      n != 0 && n !in ns && forall m :: m in ns ==> m - n < size
  {
    History(size, ns);
    var w := Fresh(size).AdvanceAll(ns);
    if w.last > 0 {
      assert w.last in ns;
    }
  }

  lemma {:induction false} History(size: nat, ns: seq<nat>)
    ensures var w := Fresh(size).AdvanceAll(ns);
      w.size == size &&
      (forall m: int :: m in w.seen <==> m > 0 && m in ns) &&
      (forall m :: m in ns ==> m <= w.last) &&
      (w.last > 0 ==> w.last in ns)
  {
    if ns != [] {
      var most, n := ns[..|ns| - 1], ns[|ns| - 1];
      History(size, most);
      assert ns == most + [n];
    }
  }

  /** Bit d of the bitmap read as one bit string; bit 0 stands for the highest number. */
  predicate FlatBit(ws: seq<u64>, d: nat)
    requires d < 64 * |ws|
  {
    Bit(ws[d / 64], d % 64)
  }

  function Flat(ws: seq<u64>): (bits: seq<bool>)
    ensures |bits| == 64 * |ws|
    ensures forall d :: 0 <= d < 64 * |ws| ==> bits[d] == FlatBit(ws, d)
  {
    seq(64 * |ws|, d requires 0 <= d < 64 * |ws| => FlatBit(ws, d))
  }

  /** A bit string moved n places to higher positions, zeros coming in below. */
  function ShiftedIn(bits: seq<bool>, n: nat): (r: seq<bool>)
    ensures |r| == |bits|
    ensures forall d :: 0 <= d < |bits| ==> r[d] == (d >= n && bits[d - n])
  {
    if n >= |bits| then seq(|bits|, _ => false) else seq(n, _ => false) + bits[..|bits| - n]
  }

  lemma ShiftedTwice(bits: seq<bool>, m: nat, n: nat)
    ensures ShiftedIn(ShiftedIn(bits, m), n) == ShiftedIn(bits, m + n)
    ensures ShiftedIn(bits, 0) == bits
  {
  }

  /** Moving whole words by k moves the bit string by 64 * k. */
  lemma WordsMoved(ws: seq<u64>, k: nat, r: seq<u64>)
    requires |r| == |ws|
    requires forall j :: 0 <= j < |ws| ==> r[j] == if j >= k then ws[j - k] else 0
    ensures Flat(r) == ShiftedIn(Flat(ws), 64 * k)
  {
    forall d | 0 <= d < 64 * |ws|
      ensures FlatBit(r, d) == (d >= 64 * k && FlatBit(ws, d - 64 * k))
    {
      if d >= 64 * k {
        assert (d - 64 * k) / 64 == d / 64 - k && (d - 64 * k) % 64 == d % 64;
      } else {
        BitsEnd(0, 0, d % 64);
      }
    }
  }

  /** Shifting each word by s with a carry from the word below moves the bit string by s. */
  lemma BitsMoved(ws: seq<u64>, s: nat, r: seq<u64>)
    requires 0 < s < 64 && |r| == |ws|
    requires forall j :: 0 < j < |ws| ==> r[j] == Or(Shl(ws[j], s), Shr(ws[j - 1], 64 - s))
    requires |ws| > 0 ==> r[0] == Shl(ws[0], s)
    ensures Flat(r) == ShiftedIn(Flat(ws), s)
  {
    forall d | 0 <= d < 64 * |ws|
      ensures FlatBit(r, d) == (d >= s && FlatBit(ws, d - s))
    {
      BitMoved(ws, s, r, d);
    }
  }

  lemma BitMoved(ws: seq<u64>, s: nat, r: seq<u64>, d: nat)
    requires 0 < s < 64 && |r| == |ws| && d < 64 * |ws|
    requires d / 64 > 0 ==> r[d / 64] == Or(Shl(ws[d / 64], s), Shr(ws[d / 64 - 1], 64 - s))
    requires d / 64 == 0 ==> r[0] == Shl(ws[0], s)
    ensures FlatBit(r, d) == (d >= s && FlatBit(ws, d - s))
  {
    var j, i := d / 64, d % 64;
    if j == 0 {
      ShlBits(ws[0], s, i);
    } else {
      CarryBits(ws[j], ws[j - 1], s, i);
      if i >= s {
        assert (d - s) / 64 == j && (d - s) % 64 == i - s;
      } else {
        assert (d - s) / 64 == j - 1 && (d - s) % 64 == i + 64 - s;
      }
    }
  }

  /** The bitmap marks exactly the numbers in seen that lie within the window. */
  ghost predicate Marks(ws: seq<u64>, last: int, seen: set<int>) {
    forall d :: 0 <= d < 64 * |ws| ==> FlatBit(ws, d) == (last - d in seen)
  }

  /** Moving the window up to n and setting bit 0 marks the same numbers, and n. */
  lemma MarksMoved(was: seq<u64>, ws: seq<u64>, last: nat, n: nat, seen: set<int>)
    requires Marks(was, last, seen) && last < n && |ws| == |was|
    requires forall m :: m in seen ==> m <= last
    requires forall d :: 0 <= d < 64 * |ws| ==> FlatBit(ws, d) == (ShiftedIn(Flat(was), n - last)[d] || d == 0)
    ensures Marks(ws, n, seen + {n})
  {
    forall d | 0 <= d < 64 * |ws|
      ensures FlatBit(ws, d) == (n - d in seen + {n})
    {
      if d >= n - last {
        assert Flat(was)[d - (n - last)] == (last - (d - (n - last)) in seen);
      }
    }
  }

  class ReplayWindow {
    const bitmap: array<u64>
    var lastSeq: u64
    const size: u32
    ghost var seen: set<int>

    ghost predicate Sized() {
      size == 64 * bitmap.Length
    }

    ghost predicate Valid()
      reads this, bitmap
    {
      && Sized()
      && (if lastSeq == 0 then seen == {} else lastSeq in seen)
      && (forall n :: n in seen ==> 0 < n <= lastSeq)
      && Marks(bitmap[..], lastSeq, seen)
    }

    ghost function State(): Window
      reads this
    {
      Window(size, lastSeq, seen)
    }

    constructor (requested: u32)
      ensures Valid() && fresh(bitmap)
      ensures State() == Fresh(RoundedSize(requested))
    {
      var asked := if requested == 0 then DEFAULT_REPLAY_WINDOW_SIZE else requested;
      var words := ToU32(asked + 63) / 64;
      size := words * 64;
      bitmap := new u64[words](_ => 0);
      lastSeq := 0;
      seen := {};
      new;
      forall d | 0 <= d < size
        ensures !FlatBit(bitmap[..], d)
      {
        BitsEnd(0, 0, d % 64);
      }
    }

    method Check(n: u64) returns (ok: bool)
      requires Valid()
      ensures ok == State().Accepts(n)
    {
      if n == 0 {
        return false;
      }
      if lastSeq == 0 {
        return true;
      }
      if n > lastSeq {
        return true;
      }
      var diff := lastSeq - n;
      if diff >= size {
        return false;
      }
      var wordIndex, bitIndex := diff / 64, diff % 64;
      TestBit(bitmap[wordIndex], bitIndex);
      assert FlatBit(bitmap[..], diff) == (lastSeq - diff in seen);
      ok := And(bitmap[wordIndex], Shl(1, bitIndex)) == 0;
    }

    method Advance(n: u64)
      requires Valid()
      modifies this, bitmap
      ensures Valid()
      ensures State() == old(State()).Advance(n)
      ensures lastSeq >= old(lastSeq)
    {
      if n == 0 {
        return;
      }
      if lastSeq == 0 {
        lastSeq := n;
        SetBit(0);
        seen := {n as int};
        return;
      }
      if n > lastSeq {
        ghost var was := bitmap[..];
        var shift := n - lastSeq;
        ShiftBitmap(shift);
        assert forall d :: 0 <= d < size ==> FlatBit(bitmap[..], d) == Flat(bitmap[..])[d];
        SetBit(0);
        MarksMoved(was, bitmap[..], lastSeq, n, seen);
        lastSeq := n;
        seen := seen + {n};
        return;
      }
      var diff := lastSeq - n;
      if diff < size {
        SetBit(diff);
      }
      seen := seen + {n};
    }

    method SetBit(offset: u64)
      requires Sized()
      modifies bitmap
      ensures forall d :: 0 <= d < size ==>
        FlatBit(bitmap[..], d) == (old(FlatBit(bitmap[..], d)) || d == offset)
    {
      var wordIndex, bitIndex := offset / 64, offset % 64;
      if wordIndex < bitmap.Length {
        ghost var was := bitmap[wordIndex];
        SetBits(was, bitIndex, bitIndex);
        bitmap[wordIndex] := Or(bitmap[wordIndex], Shl(1, bitIndex));
        forall d | 0 <= d < size
          ensures FlatBit(bitmap[..], d) == (old(FlatBit(bitmap[..], d)) || d == offset)
        {
          if d / 64 == wordIndex {
            SetBits(was, bitIndex, d % 64);
          }
        }
      }
    }

    method ShiftBitmap(n: u64)
      requires Sized()
      modifies bitmap
      ensures Flat(bitmap[..]) == ShiftedIn(old(Flat(bitmap[..])), n)
    {
      hide Flat, ShiftedIn;
      if n >= size {
        Clear();
        return;
      }
      var wordShift, bitShift := n / 64, n % 64;
      assert n == 64 * wordShift + bitShift;
      ShiftInPlace(wordShift, bitShift);
    }

    /** The whole-word pass and then the in-word pass, each in place. */
    method ShiftInPlace(wordShift: u64, bitShift: u64)
      requires wordShift < bitmap.Length < WORD && bitShift < 64
      modifies bitmap
      ensures Flat(bitmap[..]) == ShiftedIn(old(Flat(bitmap[..])), 64 * wordShift + bitShift)
    {
      hide Flat, ShiftedIn;
      ghost var bits, m := Flat(bitmap[..]), 64 * wordShift;
      ShiftedTwice(bits, m, bitShift);
      if wordShift > 0 {
        ShiftWords(wordShift);
      } else {
        assert m == 0;
      }
      if bitShift > 0 {
        ShiftWithCarry(bitShift);
      } else {
        assert m + bitShift == m;
      }
    }

    method Clear()
      modifies bitmap
      ensures forall k :: k >= 64 * bitmap.Length ==> Flat(bitmap[..]) == ShiftedIn(old(Flat(bitmap[..])), k)
    {
      for i := 0 to bitmap.Length
        invariant forall j :: 0 <= j < i ==> bitmap[j] == 0
      {
        bitmap[i] := 0;
      }
      WordsMoved(old(bitmap[..]), bitmap.Length, bitmap[..]);
    }

    method ShiftWords(wordShift: u64)
      requires 0 < wordShift < bitmap.Length < WORD
      modifies bitmap
      ensures Flat(bitmap[..]) == ShiftedIn(old(Flat(bitmap[..])), 64 * wordShift)
    {
      ghost var before := bitmap[..];
      var words := bitmap.Length;
      var i: u64 := words - 1;
      while i >= wordShift
        invariant wordShift - 1 <= i < words
        invariant forall j :: i < j < words ==> bitmap[j] == before[j - wordShift]
        invariant forall j :: 0 <= j <= i ==> bitmap[j] == before[j]
      {
        bitmap[i] := bitmap[i - wordShift];
        i := i - 1;
      }
      i := 0;
      while i < wordShift && i < words
        invariant i <= wordShift
        invariant forall j :: wordShift <= j < words ==> bitmap[j] == before[j - wordShift]
        invariant forall j :: 0 <= j < i ==> bitmap[j] == 0
      {
        bitmap[i] := 0;
        i := i + 1;
      }
      WordsMoved(before, wordShift, bitmap[..]);
    }

    method ShiftWithCarry(bitShift: u64)
      requires 0 < bitShift < 64 && 0 < bitmap.Length < WORD
      modifies bitmap
      ensures Flat(bitmap[..]) == ShiftedIn(old(Flat(bitmap[..])), bitShift)
    {
      ghost var before := bitmap[..];
      var i: u64 := bitmap.Length - 1;
      while i > 0
        invariant i < bitmap.Length
        invariant forall j :: i < j < bitmap.Length ==>
          bitmap[j] == Or(Shl(before[j], bitShift), Shr(before[j - 1], 64 - bitShift))
        invariant forall j :: 0 <= j <= i ==> bitmap[j] == before[j]
      {
        CarryBits(bitmap[i], bitmap[i - 1], bitShift, 0);
        bitmap[i] := Or(Shl(bitmap[i], bitShift), Shr(bitmap[i - 1], 64 - bitShift));
        i := i - 1;
      }
      bitmap[0] := Shl(bitmap[0], bitShift);
      BitsMoved(before, bitShift, bitmap[..]);
    }
  }
}
