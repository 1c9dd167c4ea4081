/** The address pool: a bitmap with a hint where to look first. */
module Ipam {
  import opened Bytes
  import opened Ranges

  const MAX_SIZE := 65536

  predicate Marked(start: int, b: seq<bool>, a: int) {
    start <= a < start + |b| && b[a - start]
  }

  /** The addresses a bitmap starting at an address marks as allocated. */
  ghost function HeldIn(start: int, b: seq<bool>): set<int> {
    set a: int | start <= a < start + |b| && Marked(start, b, a)
  }

  lemma HeldStep(start: int, b: seq<bool>, x: bool)
    ensures HeldIn(start, b + [x]) == HeldIn(start, b) + if x then {start + |b|} else {}
    ensures start + |b| !in HeldIn(start, b)
  {
    assert forall a :: Marked(start, b + [x], a) <==> Marked(start, b, a) || (x && a == start + |b|);
  }

  /** At most |b| addresses are held, and as many exactly when none is free. */
  lemma FullExactly(start: int, b: seq<bool>)
    ensures |HeldIn(start, b)| <= |b|
    ensures |HeldIn(start, b)| == |b| <==> forall i :: 0 <= i < |b| ==> b[i]
  {
    var held := HeldIn(start, b);
    PartOfRange(held, start, |b|);
    if |held| == |b| {
      forall i | 0 <= i < |b| ensures b[i] {
        assert start + i in held;
      }
    }
    if forall i :: 0 <= i < |b| ==> b[i] {
      forall a | start <= a < start + |b| ensures a in held {
        assert Marked(start, b, a);
      }
    }
  }

  lemma MarkStep(start: int, b: seq<bool>, i: nat, x: bool)
    requires i < |b|
    ensures HeldIn(start, b[i := x]) == if x then HeldIn(start, b) + {start + i} else HeldIn(start, b) - {start + i}
    ensures start + i in HeldIn(start, b) <==> b[i]
  {
    forall a ensures Marked(start, b[i := x], a) <==> (if a == start + i then x else Marked(start, b, a)) {
      if start <= a < start + |b| {
        assert b[i := x][a - start] == if a - start == i then x else b[a - start];
      }
    }
    assert Marked(start, b, start + i) <==> b[i];
  }

  lemma AllBelow(start: int, b: seq<bool>, n: nat)
    requires n <= |b| && forall i :: 0 <= i < n ==> b[i]
    ensures forall a :: start <= a < start + n ==> a in HeldIn(start, b)
  {
    assert forall a :: start <= a < start + n ==> Marked(start, b, a);
  }

  /** An index counted on from another, around the end. */
  function Around(n: nat, i: nat, size: nat): (r: nat)
    requires n < size && i <= size
    ensures r == if n + i < size then n + i else n + i - size
  {
    OnceAround(n + i, size);
    (n + i) % size
  }

  lemma OnceAround(x: nat, size: nat)
    requires 0 < size && x < 2 * size
    ensures x % size == if x < size then x else x - size
  {
    var q, r := x / size, x % size;
    assert x == q * size + r;
    if q >= 2 {
      Multiply(2, q, size);
    } else {
      assert q == 0 || q == 1;
    }
  }

  lemma Multiply(a: nat, b: nat, size: nat)
    requires a <= b
    ensures a * size <= b * size
  {
  }

  /** A pool from the two ends of a range, both IPv4. */
  method NewPool(startIp: u32, endIp: u32) returns (r: Result<Pool>)
    ensures r.Ok? <==> 0 < startIp <= endIp && endIp - startIp < 65536
    ensures r.Ok? ==>
      && fresh(r.value) && fresh(r.value.bitmap) && r.value.Valid()
      && r.value.startIp == startIp && r.value.endIp == endIp && r.value.Held() == {}
  {
    if startIp > endIp {
      return Err;
    }
    if startIp == 0 || endIp == 0 {
      return Err;
    }
    var size: int := endIp - startIp + 1;
    if size > MAX_SIZE {
      return Err;
    }
    var p := new Pool(startIp, size);
    r := Ok(p);
  }

  class Pool {
    const startIp: u32
    const endIp: u32
    const size: nat
    const bitmap: array<bool>
    var nextFree: nat

    /** Everything below the hint is allocated. */
    ghost predicate Valid()
      reads this, bitmap
    {
      && size > 0 && bitmap.Length == size && startIp + size - 1 == endIp
      && nextFree < size
      && forall i :: 0 <= i < nextFree ==> bitmap[i]
    }

    ghost function Held(): set<int>
      reads bitmap
    {
      HeldIn(startIp, bitmap[..])
    }

    predicate Contains(ip: int) { startIp <= ip <= endIp }

    constructor (startIp: u32, size: nat)
      requires size > 0 && startIp + size - 1 < 0x1_0000_0000
      ensures Valid() && Held() == {} && fresh(bitmap)
      ensures this.startIp == startIp && this.size == size
    {
      this.startIp, this.endIp, this.size, nextFree := startIp, startIp + size - 1, size, 0;
      bitmap := new bool[size](_ => false);
    }

    /** The least free address, and an error only when there is none. */
    method Allocate() returns (r: Result<u32>)
      requires Valid()
      modifies this, bitmap
      ensures Valid()
      ensures |old(Held())| <= size && (r.Err? <==> |old(Held())| == size)
      ensures r.Err? ==> Held() == old(Held())
      ensures r.Ok? ==>
        && Contains(r.value) && r.value !in old(Held()) && Held() == old(Held()) + {r.value}
        && forall a :: Contains(a) && a < r.value ==> a in old(Held())
    {
      FullExactly(startIp, bitmap[..]);
      hide HeldIn, Marked, Around;
      for i := 0 to size
        invariant unchanged(this) && unchanged(bitmap)
        invariant forall j :: 0 <= j < size && (j < nextFree + i || j < nextFree) ==> bitmap[j]
      {
        var idx := Around(nextFree, i, size);
        if !bitmap[idx] {
          var ip := Take(idx);
          return Ok(ip);
        }
      }
      r := Err;
    }

    /** Taking the first free place moves the hint behind it, or back to the start. */
    method Take(idx: nat) returns (ip: u32)
      requires Valid() && idx < size && !bitmap[idx] && forall j :: 0 <= j < idx ==> bitmap[j]
      modifies this, bitmap
      ensures Valid() && ip == startIp + idx
      ensures ip !in old(Held()) && Held() == old(Held()) + {ip}
      ensures forall a :: Contains(a) && a < ip ==> a in old(Held())
    {
      AllBelow(startIp, bitmap[..], idx);
      MarkStep(startIp, bitmap[..], idx, true);
      hide HeldIn, Marked, Around;
      bitmap[idx] := true;
      nextFree := Around(idx, 1, size);
      assert bitmap[..] == old(bitmap[..])[idx := true];
      ip := startIp + idx;
    }

    /** None is an address that is not IPv4. */
    method AllocateSpecific(ip: Option<u32>) returns (r: Result<()>)
      requires Valid()
      modifies bitmap
      ensures Valid()
      ensures r.Ok? <==> ip.Some? && Contains(ip.value) && ip.value !in old(Held())
      ensures Held() == if r.Ok? then old(Held()) + {ip.value} else old(Held())
    {
      if ip.None? {
        return Err;
      }
      if ip.value < startIp || ip.value > endIp {
        return Err;
      }
      var idx := ip.value - startIp;
      if bitmap[idx] {
        return Err;
      }
      MarkStep(startIp, bitmap[..], idx, true);
      bitmap[idx] := true;
      assert bitmap[..] == old(bitmap[..])[idx := true];
      r := Ok(());
    }

    method Release(ip: Option<u32>) returns (r: Result<()>)
      requires Valid()
      modifies this, bitmap
      ensures Valid()
      ensures r.Ok? <==> ip.Some? && Contains(ip.value) && ip.value in old(Held())
      ensures Held() == if r.Ok? then old(Held()) - {ip.value} else old(Held())
    {
      if ip.None? {
        return Err;
      }
      if ip.value < startIp || ip.value > endIp {
        return Err;
      }
      var idx := ip.value - startIp;
      if !bitmap[idx] {
        return Err;
      }
      MarkStep(startIp, bitmap[..], idx, false);
      bitmap[idx] := false;
      assert bitmap[..] == old(bitmap[..])[idx := false];
      if idx < nextFree {
        nextFree := idx;
      }
      r := Ok(());
    }

    method Available() returns (count: nat)
      requires Valid()
      ensures count == size - |Held()|
    {
      count := 0;
      for i := 0 to bitmap.Length
        invariant count == i - |HeldIn(startIp, bitmap[..i])|
      {
        HeldStep(startIp, bitmap[..i], bitmap[i]);
        assert bitmap[..i + 1] == bitmap[..i] + [bitmap[i]];
        if !bitmap[i] {
          count := count + 1;
        }
      }
      assert bitmap[..bitmap.Length] == bitmap[..];
    }
  }
}
