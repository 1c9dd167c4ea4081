/** IKEv2 message fragmentation (RFC 7383): splitting, sealing, and reassembly in any order. */
module Fragment {
  import opened Bytes
  import EspPacket
  import opened IkePayload
  import opened IkeMessage
  import opened SkPayload
  import opened Ranges

  const DEFAULT_FRAGMENT_MTU := 1200

  // Splitting.

  function Pieces(plaintext: bytes, size: nat): (cs: seq<bytes>)
    requires size > 0
    ensures plaintext != [] <==> cs != []
    ensures forall c :: c in cs ==> 0 < |c| <= size
  {
    if |plaintext| == 0 then [] else
    if |plaintext| <= size then [plaintext] else [plaintext[..size]] + Pieces(plaintext[size..], size)
  }

  /** All pieces but the last are as long as can be. */
  lemma {:induction false} PiecesFull(plaintext: bytes, size: nat, i: nat)
    requires size > 0 && i + 1 < |Pieces(plaintext, size)|
    ensures |Pieces(plaintext, size)[i]| == size
  {
    if i > 0 {
      PiecesFull(plaintext[size..], size, i - 1);
    }
  }

  function Join(cs: seq<bytes>): bytes {
    if cs == [] then [] else Join(cs[..|cs| - 1]) + cs[|cs| - 1]
  }

  lemma {:induction false} JoinFront(c: bytes, cs: seq<bytes>)
    ensures Join([c] + cs) == c + Join(cs)
  {
    if cs == [] {
      assert [c] + cs == [c] && Join([c]) == Join([]) + c;
    } else {
      var most, last := cs[..|cs| - 1], cs[|cs| - 1];
      JoinFront(c, most);
      assert ([c] + cs)[..|cs|] == [c] + most;
      assert c + (Join(most) + last) == c + Join(most) + last;
    }
  }

  lemma {:induction false} JoinUndoesPieces(plaintext: bytes, size: nat)
    requires size > 0
    ensures Join(Pieces(plaintext, size)) == plaintext
  {
    if |plaintext| > size {
      JoinUndoesPieces(plaintext[size..], size);
      hide Join;
      JoinFront(plaintext[..size], Pieces(plaintext[size..], size));
    } else if |plaintext| > 0 {
      assert [plaintext][..0] == [];
    }
  }

  lemma PiecesStep(left: bytes, size: nat, c: bytes, rest: bytes, before: seq<bytes>)
    requires size > 0 && left == c + rest && 0 < |c| <= size && (|c| < size ==> rest == [])
    ensures before + Pieces(left, size) == before + [c] + Pieces(rest, size)
  {
    if rest == [] {
      assert left == c;
    } else {
      assert left[..size] == c && left[size..] == rest;
      assert before + ([c] + Pieces(rest, size)) == before + [c] + Pieces(rest, size);
    }
  }

  method Split(plaintext: bytes, size: nat) returns (chunks: seq<bytes>)
    requires size > 0
    ensures chunks == Pieces(plaintext, size)
  {
    hide Pieces;
    chunks := [];
    ghost var left := plaintext;
    var offset := 0;
    while offset < |plaintext|
      invariant left == if offset <= |plaintext| then plaintext[offset..] else []
      invariant Pieces(plaintext, size) == chunks + Pieces(left, size)
    {
      var end := offset + size;
      if end > |plaintext| {
        end := |plaintext|;
      }
      var c := plaintext[offset..end];
      PiecesStep(left, size, c, plaintext[end..], chunks);
      left := plaintext[end..];
      chunks := chunks + [c];
      offset := offset + size;
    }
    assert Pieces([], size) == [];
  }

  // Sealing.

  /** The limit on a fragment's data; none given means the default. */
  function Limit(maxFragSize: int): nat { if maxFragSize <= 0 then DEFAULT_FRAGMENT_MTU else maxFragSize }

  /** What all fragments of a message are sealed, and opened, with; the IVs are the random source's. */
  datatype Sealing = Sealing(enc: Encryptor, mac: Option<EspPacket.Mac>, header: bytes, rand: nat -> bytes) {
    ghost predicate Usable() {
      && enc.Ideal()
      && (enc.AesCbc? ==> mac.Some? && mac.value.Ideal())
      && forall i :: |rand(i)| == enc.IvSize()
    }

    /** The plaintext a fragment may carry: what the limit leaves beside IV, ICV and pad length. */
    function MaxPlain(maxFragSize: int): int {
      Limit(maxFragSize) - enc.IvSize() - (if enc.AesGcm? then 16 else if mac.Some? then mac.value.icvSize else 0) - 1
    }
  }

  lemma SealedOk(enc: Encryptor, mac: Option<EspPacket.Mac>, header: bytes, iv: bytes, plaintext: bytes)
    requires enc.AesCbc? ==> mac.Some?
    ensures Sealed(enc, mac, header, iv, plaintext).Ok?
  {
  }

  /** Fragment i of n, sealed under a header common to all fragments. */
  function FragmentOf(ctx: Sealing, chunks: seq<bytes>, i: nat): Payload
    requires i < |chunks| && (ctx.enc.AesCbc? ==> ctx.mac.Some?)
  {
    Skf(ToU16(i + 1), ToU16(|chunks|), Sealed(ctx.enc, ctx.mac, ctx.header, ctx.rand(i), chunks[i]).value)
  }

  method SealFragments(ctx: Sealing, chunks: seq<bytes>, firstPt: byte)
    returns (messages: seq<(byte, Payload)>)
    requires (ctx.enc.AesCbc? ==> ctx.mac.Some?) && |chunks| <= 0xFFFF
    ensures |messages| == |chunks|
    ensures forall i :: 0 <= i < |chunks| ==>
      messages[i] == (if i == 0 then firstPt else PAYLOAD_NONE, FragmentOf(ctx, chunks, i))
  {
    hide Sealed;
    var totalFrags := ToU16(|chunks|);
    messages := [];
    for i := 0 to |chunks|
      invariant |messages| == i
      invariant forall k :: 0 <= k < i ==>
        messages[k] == (if k == 0 then firstPt else PAYLOAD_NONE, FragmentOf(ctx, chunks, k))
    {
      var fragNum := ToU16(i + 1);
      var sealedBody := SealBody(ctx.enc, ctx.mac, ctx.header, ctx.rand(i), chunks[i]);
      SealedOk(ctx.enc, ctx.mac, ctx.header, ctx.rand(i), chunks[i]);
      var nextPt := PAYLOAD_NONE;
      if fragNum == 1 {
        nextPt := firstPt;
      }
      messages := messages + [(nextPt, Skf(fragNum, totalFrags, sealedBody.value))];
    }
  }

  /**
   The SKF payloads with the NextPayload fields meant for their messages.  A
   fragment limit too small and more than 65535 fragments are errors.
   */
  method FragmentSkPayload(ctx: Sealing, ps: seq<Payload>, maxFragSize: int)
    returns (r: Result<seq<(byte, Payload)>>)
    requires ctx.enc.AesCbc? ==> ctx.mac.Some?
    ensures var size := ctx.MaxPlain(maxFragSize);
      if size <= 0 then r == Err else
      var chunks := Pieces(ChainBytes(ps), size);
      if |chunks| > 0xFFFF then r == Err else
      && r.Ok? && |r.value| == |chunks|
      && forall i :: 0 <= i < |chunks| ==>
        r.value[i] == (if i == 0 then FirstType(ps) else PAYLOAD_NONE, FragmentOf(ctx, chunks, i))
  {
    hide Pieces, ChainBytes, FirstType, FragmentOf;
    var limit := maxFragSize;
    if limit <= 0 {
      limit := DEFAULT_FRAGMENT_MTU;
    }
    var plaintext, firstPt := MarshalPayloadChain(ps);
    var ivSize, icvSize := ctx.enc.IvSize(), 0;
    if ctx.enc.AesGcm? {
      icvSize := 16;
    } else if ctx.mac.Some? {
      icvSize := ctx.mac.value.icvSize;
    }
    var maxPlainPerFrag := limit - ivSize - icvSize - 1;
    if maxPlainPerFrag <= 0 {
      return Err;
    }
    var chunks := Split(plaintext, maxPlainPerFrag);
    var totalFrags := ToU16(|chunks|);
    if |chunks| > 0xFFFF {
      return Err;
    }
    var messages := SealFragments(ctx, chunks, firstPt);
    r := Ok(messages);
  }

  /** Under an AEAD cipher no fragment exceeds the limit. */
  lemma AeadFragmentsFit(ctx: Sealing, plaintext: bytes, maxFragSize: int, i: nat)
    requires ctx.Usable() && ctx.enc.AesGcm? && ctx.MaxPlain(maxFragSize) > 0
    requires i < |Pieces(plaintext, ctx.MaxPlain(maxFragSize))|
    ensures var chunks := Pieces(plaintext, ctx.MaxPlain(maxFragSize));
      |FragmentOf(ctx, chunks, i).data| <= Limit(maxFragSize)
  {
    var chunks := Pieces(plaintext, ctx.MaxPlain(maxFragSize));
    assert chunks[i] in chunks;
    SealedLength(ctx.enc, ctx.mac, ctx.header, ctx.rand(i), chunks[i]);
  }

  /** And a full one reaches it exactly. */
  lemma AeadFragmentFull(ctx: Sealing, chunks: seq<bytes>, maxFragSize: int, i: nat)
    requires ctx.Usable() && ctx.enc.AesGcm? && i < |chunks|
    ensures Limit(maxFragSize) == if maxFragSize <= 0 then 1200 else maxFragSize
    ensures |FragmentOf(ctx, chunks, i).data| == |chunks[i]| + 25
    ensures |chunks[i]| == ctx.MaxPlain(maxFragSize) ==> |FragmentOf(ctx, chunks, i).data| == Limit(maxFragSize)
  {
    SealedLength(ctx.enc, ctx.mac, ctx.header, ctx.rand(i), chunks[i]);
  }

  /** Under CBC a fragment fits exactly when both paddings do; a full one never does. */
  lemma CbcFragmentFits(ctx: Sealing, chunks: seq<bytes>, maxFragSize: int, i: nat)
    requires ctx.Usable() && ctx.enc.AesCbc? && i < |chunks| && 0 < |chunks[i]| <= ctx.MaxPlain(maxFragSize)
    ensures |FragmentOf(ctx, chunks, i).data| <= Limit(maxFragSize)
      <==> (|chunks[i]| + 16) / 16 * 16 + 32 + ctx.mac.value.icvSize <= Limit(maxFragSize)
    ensures |chunks[i]| == ctx.MaxPlain(maxFragSize) ==>
      Limit(maxFragSize) + 16 <= |FragmentOf(ctx, chunks, i).data| <= Limit(maxFragSize) + 31
  {
    SealedLength(ctx.enc, ctx.mac, ctx.header, ctx.rand(i), chunks[i]);
  }

  /** Marshal sets the header's NextPayload from the chain, so the first inner type is not sent. */
  lemma FirstTypeNotSent(h: Header, skf: Payload)
    requires skf.Skf? && |h.iSpi| == 8 && |h.rSpi| == 8
    ensures Updated(h, [skf]).nextPayload == h.nextPayload <==> h.nextPayload == PAYLOAD_SKF
  {
  }

  // Reassembly.

  /** total is 0 until the first fragment. */
  datatype Cache = Cache(total: u16, frags: map<int, bytes>) {

    /** AddFragment: whether all fragments are there, or an error that changes nothing. */
    function Add(num: u16, count: u16, plaintext: bytes): (Result<bool>, Cache) {
      if num == 0 || count == 0 || num > count || (total != 0 && total != count) then (Err, this) else
      var frags' := frags[num := plaintext];
      (Ok(ToU16(|frags'|) == count), Cache(count, frags'))
    }

    predicate Has(n: nat) {
      forall i :: 1 <= i <= n ==> i in frags
    }

    /** The scan index is a uint16: at 65535 fragments it wraps to 0 and finds nothing. */
    function Reassembled(): Result<bytes> {
      if total == 0 || ToU16(|frags|) != total || total == 0xFFFF then Err else
      if Has(total) then Ok(Concatenated(total)) else Err
    }

    function Concatenated(n: nat): bytes
      requires Has(n)
    {
      if n == 0 then [] else Concatenated(n - 1) + frags[n]
    }

    predicate Valid() {
      forall i :: i in frags ==> 1 <= i <= total
    }
  }

  const EMPTY := Cache(0, map[])

  /** What is refused changes nothing; what is not is kept under its number, and is the last when all are there. */
  lemma AddExactly(c: Cache, num: u16, total: u16, plaintext: bytes)
    requires |c.frags| < 0xFFFF
    ensures var (r, c') := c.Add(num, total, plaintext);
      && (r.Err? <==> num == 0 || total == 0 || num > total || (c.total != 0 && c.total != total))
      && (r.Err? ==> c' == c)
      && (r.Ok? ==>
            && c'.total == total && c'.frags == c.frags[num := plaintext]
            && r.value == (|c.frags| + (if num in c.frags then 0 else 1) == total))
  {
    var keys := c.frags[num := plaintext].Keys;
    assert keys == c.frags.Keys + {num as int};
    assert |c.frags.Keys| == |c.frags| && |keys| == |c.frags[num := plaintext]|;
  }

  predicate Numbers(order: seq<nat>, n: nat) {
    forall i :: 0 <= i < |order| ==> 1 <= order[i] <= n
  }

  /** Fragments of one message added in the order given, duplicates included. */
  function AddAll(chunks: seq<bytes>, order: seq<nat>): Cache
    requires |chunks| <= 0xFFFF && Numbers(order, |chunks|)
  {
    if order == [] then EMPTY else
    var n := order[|order| - 1];
    AddAll(chunks, order[..|order| - 1]).Add(n, |chunks|, chunks[n - 1]).1
  }

  lemma {:induction false} AddAllHolds(chunks: seq<bytes>, order: seq<nat>)
    requires |chunks| <= 0xFFFF && Numbers(order, |chunks|)
    ensures Collected(AddAll(chunks, order), chunks, order)
  {
    if order != [] {
      var most, n := order[..|order| - 1], order[|order| - 1];
      AddAllHolds(chunks, most);
      assert order == most + [n];
      hide Collected;
      AddCollects(AddAll(chunks, most), chunks, most, n);
    }
  }

  /** The cache holds the chunks of a fragmentation under the numbers that have come. */
  ghost predicate Collected(c: Cache, chunks: seq<bytes>, order: seq<nat>) {
    && c.total == (if order == [] then 0 else |chunks|)
    && (forall i :: i in c.frags <==> i in order)
    && (forall i :: i in c.frags ==> 1 <= i <= |chunks| && c.frags[i] == chunks[i - 1])
  }

  lemma AddCollects(c: Cache, chunks: seq<bytes>, order: seq<nat>, n: nat)
    requires 1 <= n <= |chunks| <= 0xFFFF && Collected(c, chunks, order)
    ensures Collected(c.Add(n, |chunks|, chunks[n - 1]).1, chunks, order + [n])
  {
    assert forall i :: i in order + [n] <==> i in order || i == n;
  }

  /** How many of the numbers 1..n a map holds decides whether it holds them all. */
  lemma FullExactly(frags: map<int, bytes>, n: nat)
    requires forall i :: i in frags ==> 1 <= i <= n
    ensures |frags| <= n
    ensures |frags| == n <==> forall i :: 1 <= i <= n ==> i in frags
  {
    PartOfRange(frags.Keys, 1, n);
    assert |frags.Keys| == |frags|;
  }

  predicate Complete(order: seq<nat>, n: nat, total: nat) {
    forall k :: 1 <= k <= total ==> k in order || k == n
  }

  /** A fragment's arrival is reported as the last one exactly when every number has been seen. */
  lemma CompleteExactly(chunks: seq<bytes>, order: seq<nat>, n: nat)
    requires 1 <= n <= |chunks| <= 0xFFFF && Numbers(order, |chunks|)
    ensures AddAll(chunks, order).Add(n, |chunks|, chunks[n - 1]).0 == Ok(Complete(order, n, |chunks|))
  {
    hide AddAll, Numbers;
    AddAllHolds(chunks, order);
    var c := AddAll(chunks, order);
    assert c.total == 0 || c.total == |chunks|;
    var frags := c.frags[n := chunks[n - 1]];
    FullExactly(frags, |chunks|);
    assert c.Add(n, |chunks|, chunks[n - 1]).0 == Ok(|frags| == |chunks|);
    assert forall k :: k in frags <==> k in order || k == n;
  }

  /**
   Once all fragments are there, in whatever order and however often, reassembly
   gives the plaintext back, if and only if there are fewer than 65535 of them.
   */
  lemma ReassemblyExactly(plaintext: bytes, size: nat, order: seq<nat>)
    requires size > 0 && 0 < |Pieces(plaintext, size)| <= 0xFFFF
    requires Numbers(order, |Pieces(plaintext, size)|)
    requires forall k :: 1 <= k <= |Pieces(plaintext, size)| ==> k in order
    ensures AddAll(Pieces(plaintext, size), order).Reassembled() == Ok(plaintext)
      <==> |Pieces(plaintext, size)| < 0xFFFF
  {
    hide *;
    var chunks := Pieces(plaintext, size);
    Gathered(chunks, order);
    JoinUndoesPieces(plaintext, size);
    ReassembledExactly(AddAll(chunks, order), |chunks|);
  }

  lemma ReassembledExactly(c: Cache, n: nat)
    requires c.total == n == |c.frags| && 0 < n <= 0xFFFF && c.Has(n)
    ensures c.Reassembled() == (if n < 0xFFFF then Ok(c.Concatenated(n)) else Err)
  {
  }

  lemma Gathered(chunks: seq<bytes>, order: seq<nat>)
    requires 0 < |chunks| <= 0xFFFF && Numbers(order, |chunks|) && forall k :: 1 <= k <= |chunks| ==> k in order
    ensures var c := AddAll(chunks, order);
      c.total == |chunks| == |c.frags| && c.Has(|chunks|) && c.Concatenated(|chunks|) == Join(chunks)
  {
    hide AddAll, Numbers, Join, Cache.Concatenated;
    AddAllHolds(chunks, order);
    assert 1 in order;
    var c := AddAll(chunks, order);
    FullExactly(c.frags, |chunks|);
    ConcatenatedJoins(c, chunks, |chunks|);
    assert chunks[..|chunks|] == chunks;
  }

  lemma {:induction false} ConcatenatedJoins(c: Cache, chunks: seq<bytes>, n: nat)
    requires n <= |chunks| && c.Has(n) && forall i :: 1 <= i <= n ==> c.frags[i] == chunks[i - 1]
    ensures c.Concatenated(n) == Join(chunks[..n])
  {
    if n > 0 {
      ConcatenatedJoins(c, chunks, n - 1);
      assert chunks[..n][..n - 1] == chunks[..n - 1];
    }
  }

  /** A fragment nobody with the keys has made is an error and leaves every reassembly as it was. */
  lemma ForgedFragmentIgnored(caches: map<Key, Cache>, key: Key, nextPayload: byte, num: u16, total: u16,
                              enc: Encryptor, mac: Option<EspPacket.Mac>, header: bytes, body: bytes)
    requires !Intact(enc, mac, header, body)
    ensures Arrive(caches, key, nextPayload, num, total, Unsealed(enc, mac, header, body)) == (Err, caches)
  {
    OpensOnlyIntact(enc, mac, header, body);
  }

  // Whole fragments arriving.

  /** A reassembly in progress is named by the SPI pair and the message ID. */
  type Key = (bytes, u32)

  /**
   One incoming fragment, already opened.  The inner payload type is known only
   when the completing fragment is number 1.
   */
  function Arrive(caches: map<Key, Cache>, key: Key, nextPayload: byte, num: u16, total: u16, plain: Result<bytes>)
    : (Result<Option<(bytes, byte)>>, map<Key, Cache>)
  {
    if plain.Err? then (Err, caches) else
    var (complete, c) := (if key in caches then caches[key] else EMPTY).Add(num, total, plain.value);
    if complete.Ok? && complete.value then
      match c.Reassembled()
      case Err => (Err, caches - {key})
      case Ok(whole) => (Ok(Some((whole, if num == 1 then nextPayload else PAYLOAD_NONE))), caches - {key})
    else (if complete.Err? then Err else Ok(None), caches[key := c])
  }

  /** Fragment i arriving, opened under the header it was sealed under. */
  function ArriveSealed(caches: map<Key, Cache>, key: Key, first: byte, ctx: Sealing, chunks: seq<bytes>, i: nat)
    : (Result<Option<(bytes, byte)>>, map<Key, Cache>)
    requires i < |chunks| && (ctx.enc.AesCbc? ==> ctx.mac.Some?)
  {
    var skf := FragmentOf(ctx, chunks, i);
    Arrive(caches, key, if i == 0 then first else PAYLOAD_NONE, skf.fragmentNumber, skf.totalFragments,
           Unsealed(ctx.enc, ctx.mac, ctx.header, skf.data))
  }

  function ArriveInOrder(caches: map<Key, Cache>, key: Key, first: byte, ctx: Sealing, chunks: seq<bytes>,
                         order: seq<nat>): map<Key, Cache>
    requires Numbers(order, |chunks|) && (ctx.enc.AesCbc? ==> ctx.mac.Some?)
  {
    if order == [] then caches else
    var n := order[|order| - 1];
    ArriveSealed(ArriveInOrder(caches, key, first, ctx, chunks, order[..|order| - 1]), key, first, ctx, chunks, n - 1).1
  }

  lemma ArriveSealedIs(caches: map<Key, Cache>, key: Key, first: byte, ctx: Sealing, chunks: seq<bytes>, i: nat)
    requires i < |chunks| <= 0xFFFF && ctx.Usable()
    ensures ArriveSealed(caches, key, first, ctx, chunks, i)
      == Arrive(caches, key, if i == 0 then first else PAYLOAD_NONE, i + 1, |chunks|, Ok(chunks[i]))
  {
    hide Sealed, Unsealed, Arrive;
    UnsealUndoesSeal(ctx.enc, ctx.mac, ctx.header, ctx.rand(i), chunks[i]);
  }

  function InProgress(caches: map<Key, Cache>, key: Key, chunks: seq<bytes>, order: seq<nat>): map<Key, Cache>
    requires Numbers(order, |chunks|) && |chunks| <= 0xFFFF
  {
    if order == [] then caches else caches[key := AddAll(chunks, order)]
  }

  /** The answer to fragment n, and the caches, once it has been added to its cache. */
  function After(caches: map<Key, Cache>, key: Key, next: byte, c: Cache, n: nat, complete: bool)
    : (Result<Option<(bytes, byte)>>, map<Key, Cache>)
  {
    if !complete then (Ok(None), caches[key := c]) else
    match c.Reassembled()
    case Err => (Err, caches)
    case Ok(whole) => (Ok(Some((whole, if n == 1 then next else PAYLOAD_NONE))), caches)
  }

  lemma NextArrives(caches: map<Key, Cache>, key: Key, next: byte, chunks: seq<bytes>, order: seq<nat>, n: nat)
    requires |chunks| <= 0xFFFF && key !in caches && 1 <= n <= |chunks|
    requires Numbers(order, |chunks|) && Numbers(order + [n], |chunks|)
    ensures Arrive(InProgress(caches, key, chunks, order), key, next, n, |chunks|, Ok(chunks[n - 1]))
      == After(caches, key, next, AddAll(chunks, order + [n]), n, Complete(order, n, |chunks|))
  {
    hide AddAll, Cache.Reassembled, Cache.Add, Numbers, Arrive, Complete;
    OneMore(chunks, order, n);
    CompleteExactly(chunks, order, n);
    ArriveFrom(caches, key, next, order == [], AddAll(chunks, order), n, |chunks|, chunks[n - 1]);
  }

  lemma OneMore(chunks: seq<bytes>, order: seq<nat>, n: nat)
    requires |chunks| <= 0xFFFF && Numbers(order, |chunks|) && 1 <= n <= |chunks|
    ensures Numbers(order + [n], |chunks|)
    ensures AddAll(chunks, order + [n]) == AddAll(chunks, order).Add(n, |chunks|, chunks[n - 1]).1
    ensures order == [] ==> AddAll(chunks, order) == EMPTY
  {
    var all := order + [n];
    assert all[|order|] == n && forall i :: 0 <= i < |order| ==> all[i] == order[i];
    assert all[..|all| - 1] == order;
    hide Cache.Add;
  }

  lemma ArriveFrom(caches: map<Key, Cache>, key: Key, next: byte, none: bool, c: Cache, n: u16, total: u16,
                   chunk: bytes)
    requires key !in caches && (none ==> c == EMPTY) && c.Add(n, total, chunk).0.Ok?
    ensures var (complete, c') := c.Add(n, total, chunk);
      Arrive(if none then caches else caches[key := c], key, next, n, total, Ok(chunk))
        == After(caches, key, next, c', n, complete.value)
  {
    hide Cache.Reassembled, Cache.Add;
    var now := if none then caches else caches[key := c];
    var c' := c.Add(n, total, chunk).1;
    assert now[key := c'] == caches[key := c'] && now - {key} == caches;
  }

  /** The answer to copy n, and the caches, when these copies have come since the message was last complete. */
  function Answered(caches: map<Key, Cache>, key: Key, next: byte, plaintext: bytes, chunks: seq<bytes>,
                    since: seq<nat>, n: nat): (Result<Option<(bytes, byte)>>, map<Key, Cache>)
    requires |chunks| <= 0xFFFF && Numbers(since, |chunks|) && 1 <= n <= |chunks|
  {
    if !Complete(since, n, |chunks|) then (Ok(None), InProgress(caches, key, chunks, since + [n])) else
    (if |chunks| < 0xFFFF then Ok(Some((plaintext, if n == 1 then next else PAYLOAD_NONE))) else Err, caches)
  }

  lemma CopyAnswered(caches: map<Key, Cache>, key: Key, next: byte, plaintext: bytes, size: nat, chunks: seq<bytes>,
                     since: seq<nat>, n: nat)
    requires key !in caches && size > 0 && chunks == Pieces(plaintext, size) && |chunks| <= 0xFFFF
    requires Numbers(since, |chunks|) && 1 <= n <= |chunks|
    ensures Arrive(InProgress(caches, key, chunks, since), key, next, n, |chunks|, Ok(chunks[n - 1]))
      == Answered(caches, key, next, plaintext, chunks, since, n)
  {
    hide Pieces, Arrive, AddAll, Numbers, Cache.Reassembled;
    OneMore(chunks, since, n);
    NextArrives(caches, key, next, chunks, since, n);
    if Complete(since, n, |chunks|) {
      assert forall k :: k in since || k == n ==> k in since + [n];
      Gathered(chunks, since + [n]);
      JoinUndoesPieces(plaintext, size);
      ReassembledExactly(AddAll(chunks, since + [n]), |chunks|);
    }
  }

  /** The copies that have come since all fragments were last there. */
  function Since(order: seq<nat>, total: nat): (r: seq<nat>)
    requires Numbers(order, total)
    ensures Numbers(r, total)
  {
    if order == [] then [] else
    var most, n := Since(order[..|order| - 1], total), order[|order| - 1];
    if Complete(most, n, total) then [] else most + [n]
  }

  /** How often all fragments have been there. */
  function Completions(order: seq<nat>, total: nat): nat
    requires Numbers(order, total)
  {
    if order == [] then 0 else
    var most, n := order[..|order| - 1], order[|order| - 1];
    Completions(most, total) + if Complete(Since(most, total), n, total) then 1 else 0
  }

  lemma {:induction false} CachesAfter(caches: map<Key, Cache>, key: Key, first: byte, ctx: Sealing, plaintext: bytes,
                                       size: nat, chunks: seq<bytes>, order: seq<nat>)
    requires ctx.Usable() && key !in caches && size > 0 && chunks == Pieces(plaintext, size) && |chunks| <= 0xFFFF
    requires Numbers(order, |chunks|)
    ensures ArriveInOrder(caches, key, first, ctx, chunks, order)
      == InProgress(caches, key, chunks, Since(order, |chunks|))
  {
    hide *;
    if order == [] {
      NoneSent(caches, key, first, ctx, chunks);
    } else {
      var most, n := order[..|order| - 1], order[|order| - 1];
      LastSent(caches, key, first, ctx, chunks, order);
      CachesAfter(caches, key, first, ctx, plaintext, size, chunks, most);
      var now, since := InProgress(caches, key, chunks, Since(most, |chunks|)), Since(most, |chunks|);
      CopyArrives(now, caches, key, first, ctx, plaintext, size, chunks, since, n);
      AnsweredCaches(caches, key, first, plaintext, chunks, since, n);
    }
  }

  lemma NoneSent(caches: map<Key, Cache>, key: Key, first: byte, ctx: Sealing, chunks: seq<bytes>)
    requires ctx.Usable() && |chunks| <= 0xFFFF
    ensures Numbers([], |chunks|) && Since([], |chunks|) == [] && (ctx.enc.AesCbc? ==> ctx.mac.Some?)
    ensures ArriveInOrder(caches, key, first, ctx, chunks, []) == InProgress(caches, key, chunks, []) == caches
  {
  }

  lemma LastSent(caches: map<Key, Cache>, key: Key, first: byte, ctx: Sealing, chunks: seq<bytes>, order: seq<nat>)
    requires ctx.Usable() && order != [] && Numbers(order, |chunks|)
    ensures var most, n := order[..|order| - 1], order[|order| - 1];
      && Numbers(most, |chunks|) && 1 <= n <= |chunks| && (ctx.enc.AesCbc? ==> ctx.mac.Some?)
      && ArriveInOrder(caches, key, first, ctx, chunks, order)
         == ArriveSealed(ArriveInOrder(caches, key, first, ctx, chunks, most), key, first, ctx, chunks, n - 1).1
      && var since := Since(most, |chunks|);
         Since(order, |chunks|) == if Complete(since, n, |chunks|) then [] else since + [n]
  {
    hide ArriveSealed, Complete;
  }

  lemma AnsweredCaches(caches: map<Key, Cache>, key: Key, first: byte, plaintext: bytes, chunks: seq<bytes>,
                       since: seq<nat>, n: nat)
    requires |chunks| <= 0xFFFF && Numbers(since, |chunks|) && 1 <= n <= |chunks|
    ensures Answered(caches, key, first, plaintext, chunks, since, n).1
      == InProgress(caches, key, chunks, if Complete(since, n, |chunks|) then [] else since + [n])
  {
    hide AddAll, Complete;
  }

  lemma CopyArrives(now: map<Key, Cache>, caches: map<Key, Cache>, key: Key, first: byte, ctx: Sealing,
                    plaintext: bytes, size: nat, chunks: seq<bytes>, since: seq<nat>, n: nat)
    requires ctx.Usable() && key !in caches && size > 0 && chunks == Pieces(plaintext, size) && |chunks| <= 0xFFFF
    requires Numbers(since, |chunks|) && 1 <= n <= |chunks| && now == InProgress(caches, key, chunks, since)
    ensures ArriveSealed(now, key, first, ctx, chunks, n - 1)
      == Answered(caches, key, first, plaintext, chunks, since, n)
  {
    hide *;
    ArriveSealedIs(now, key, first, ctx, chunks, n - 1);
    CopyAnswered(caches, key, if n == 1 then first else PAYLOAD_NONE, plaintext, size, chunks, since, n);
    AnsweredUnder(caches, key, first, plaintext, chunks, since, n);
  }

  lemma AnsweredUnder(caches: map<Key, Cache>, key: Key, first: byte, plaintext: bytes, chunks: seq<bytes>,
                      since: seq<nat>, n: nat)
    requires |chunks| <= 0xFFFF && Numbers(since, |chunks|) && 1 <= n <= |chunks|
    ensures Answered(caches, key, if n == 1 then first else PAYLOAD_NONE, plaintext, chunks, since, n)
      == Answered(caches, key, first, plaintext, chunks, since, n)
  {
  }

  /**
   Copies of the fragments of a message arriving in any order and any number: a copy
   hands the plaintext on exactly when it completes the set of those that have come
   since the plaintext was last handed on.  The manager forgets a completed message, so
   a second set of copies hands it on a second time.
   */
  lemma ArrivalsExactly(caches: map<Key, Cache>, key: Key, first: byte, ctx: Sealing, plaintext: bytes, size: nat,
                        chunks: seq<bytes>, order: seq<nat>, n: nat)
    requires ctx.Usable() && key !in caches && size > 0 && chunks == Pieces(plaintext, size) && |chunks| <= 0xFFFF
    requires Numbers(order, |chunks|) && 1 <= n <= |chunks|
    ensures ArriveSealed(ArriveInOrder(caches, key, first, ctx, chunks, order), key, first, ctx, chunks, n - 1)
      == Answered(caches, key, first, plaintext, chunks, Since(order, |chunks|), n)
  {
    hide *;
    CachesAfter(caches, key, first, ctx, plaintext, size, chunks, order);
    var now, since := InProgress(caches, key, chunks, Since(order, |chunks|)), Since(order, |chunks|);
    CopyArrives(now, caches, key, first, ctx, plaintext, size, chunks, since, n);
  }

  /** How many of the arrivals hand a message on. */
  function Deliveries(caches: map<Key, Cache>, key: Key, first: byte, ctx: Sealing, chunks: seq<bytes>,
                      order: seq<nat>): nat
    requires Numbers(order, |chunks|) && (ctx.enc.AesCbc? ==> ctx.mac.Some?)
  {
    if order == [] then 0 else
    var most, n := order[..|order| - 1], order[|order| - 1];
    var r := ArriveSealed(ArriveInOrder(caches, key, first, ctx, chunks, most), key, first, ctx, chunks, n - 1).0;
    Deliveries(caches, key, first, ctx, chunks, most) + if Delivers(r) then 1 else 0
  }

  /** A message of fewer than 65535 fragments is handed on once for each completed set of copies, a longer one never. */
  lemma {:induction false} DeliveriesExactly(caches: map<Key, Cache>, key: Key, first: byte, ctx: Sealing,
                                             plaintext: bytes, size: nat, chunks: seq<bytes>, order: seq<nat>)
    requires ctx.Usable() && key !in caches && size > 0 && chunks == Pieces(plaintext, size) && |chunks| <= 0xFFFF
    requires Numbers(order, |chunks|)
    ensures Deliveries(caches, key, first, ctx, chunks, order)
      == if |chunks| < 0xFFFF then Completions(order, |chunks|) else 0
  {
    hide *;
    if order == [] {
      NoneDelivered(caches, key, first, ctx, chunks);
    } else {
      var most, n := order[..|order| - 1], order[|order| - 1];
      LastSent(caches, key, first, ctx, chunks, order);
      LastDelivery(caches, key, first, ctx, chunks, order);
      DeliveriesExactly(caches, key, first, ctx, plaintext, size, chunks, most);
      ArrivalsExactly(caches, key, first, ctx, plaintext, size, chunks, most, n);
      AnswerDelivers(caches, key, first, plaintext, chunks, Since(most, |chunks|), n);
    }
  }

  predicate Delivers(r: Result<Option<(bytes, byte)>>) { r.Ok? && r.value.Some? }

  lemma NoneDelivered(caches: map<Key, Cache>, key: Key, first: byte, ctx: Sealing, chunks: seq<bytes>)
    requires ctx.Usable()
    ensures Numbers([], |chunks|) && (ctx.enc.AesCbc? ==> ctx.mac.Some?)
    ensures Deliveries(caches, key, first, ctx, chunks, []) == Completions([], |chunks|) == 0
  {
  }

  lemma LastDelivery(caches: map<Key, Cache>, key: Key, first: byte, ctx: Sealing, chunks: seq<bytes>,
                     order: seq<nat>)
    requires ctx.Usable() && order != [] && Numbers(order, |chunks|)
    ensures var most, n := order[..|order| - 1], order[|order| - 1];
      && Numbers(most, |chunks|) && 1 <= n <= |chunks| && (ctx.enc.AesCbc? ==> ctx.mac.Some?)
      && var r := ArriveSealed(ArriveInOrder(caches, key, first, ctx, chunks, most), key, first, ctx, chunks, n - 1).0;
         && Deliveries(caches, key, first, ctx, chunks, order)
            == Deliveries(caches, key, first, ctx, chunks, most) + (if Delivers(r) then 1 else 0)
         && Completions(order, |chunks|)
            == Completions(most, |chunks|) + if Complete(Since(most, |chunks|), n, |chunks|) then 1 else 0
  {
    hide ArriveSealed, ArriveInOrder, Complete, Since;
  }

  lemma AnswerDelivers(caches: map<Key, Cache>, key: Key, first: byte, plaintext: bytes, chunks: seq<bytes>,
                       since: seq<nat>, n: nat)
    requires |chunks| <= 0xFFFF && Numbers(since, |chunks|) && 1 <= n <= |chunks|
    ensures Delivers(Answered(caches, key, first, plaintext, chunks, since, n).0)
      <==> Complete(since, n, |chunks|) && |chunks| < 0xFFFF
  {
    hide Complete, InProgress;
  }

  /** So it is handed on no more often than its rarest fragment comes. */
  lemma {:induction false} CompletedNoMoreThanSent(order: seq<nat>, total: nat, k: nat)
    requires Numbers(order, total) && 1 <= k <= total
    ensures Completions(order, total) + (if k in Since(order, total) then 1 else 0) <= multiset(order)[k]
  {
    if order != [] {
      var most, n := order[..|order| - 1], order[|order| - 1];
      CompletedNoMoreThanSent(most, total, k);
      assert order == most + [n] && multiset(order) == multiset(most) + multiset{n};
      assert Complete(Since(most, total), n, total) ==> k in Since(most, total) || k == n;
      hide Complete;
    }
  }

  /** And everything that comes again after a completed set counts again. */
  lemma {:induction false} CompletedAgain(order: seq<nat>, again: seq<nat>, total: nat)
    requires Numbers(order, total) && Numbers(again, total) && Since(order, total) == []
    ensures Numbers(order + again, total)
    ensures Completions(order + again, total) == Completions(order, total) + Completions(again, total)
    ensures Since(order + again, total) == Since(again, total)
  {
    if again == [] {
      assert order + again == order;
    } else {
      var most, n := again[..|again| - 1], again[|again| - 1];
      CompletedAgain(order, most, total);
      var all := order + again;
      assert all[..|all| - 1] == order + most && all[|all| - 1] == n;
      hide Complete;
    }
  }

  lemma {:induction false} SinceAll(order: seq<nat>, total: nat, missing: nat)
    requires Numbers(order, total) && 1 <= missing <= total && missing !in order
    ensures Since(order, total) == order
  {
    if order != [] {
      var most, n := order[..|order| - 1], order[|order| - 1];
      assert order == most + [n];
      SinceAll(most, total, missing);
      assert !Complete(most, n, total);
    }
  }

  /**
   All fragments of a plaintext arriving, in any order and with any duplicates
   before the last one: the last one completes it, the plaintext comes back and
   the manager forgets the message.
   */
  lemma FragmentedPlaintextArrives(caches: map<Key, Cache>, key: Key, first: byte, ctx: Sealing, plaintext: bytes,
                                   size: nat, chunks: seq<bytes>, order: seq<nat>, last: nat)
    requires ctx.Usable() && key !in caches && size > 0 && chunks == Pieces(plaintext, size) && |chunks| < 0xFFFF
    requires Numbers(order, |chunks|) && 1 <= last <= |chunks| && last !in order
    requires forall k :: 1 <= k <= |chunks| ==> k in order || k == last
    ensures ArriveSealed(ArriveInOrder(caches, key, first, ctx, chunks, order), key, first, ctx, chunks, last - 1)
      == (Ok(Some((plaintext, if last == 1 then first else PAYLOAD_NONE))), caches)
  {
    assert Complete(order, last, |chunks|);
    hide Pieces, ArriveSealed, ArriveInOrder, Numbers, Complete, Since;
    SinceAll(order, |chunks|, last);
    ArrivalsExactly(caches, key, first, ctx, plaintext, size, chunks, order, last);
  }

  /** The inner chain: what a caller parses of a completed message under the type it is given. */
  function InnerChain(done: Result<Option<(bytes, byte)>>): Parsed<seq<Entry>> {
    if done.Err? || done.value.None? then Malformed else ParseChain(done.value.value.0, done.value.value.1)
  }

  /**
   From a payload chain to fragments, through their arrival in any order, to parsing:
   the chain comes back if and only if fragment 1 arrives last and its message's
   NextPayload is the first inner type.
   */
  lemma FragmentedChainParsesExactly(caches: map<Key, Cache>, key: Key, first: byte, ctx: Sealing, ps: seq<Payload>,
                                     size: nat, chunks: seq<bytes>, order: seq<nat>, last: nat)
    requires ctx.Usable() && key !in caches && ChainFits(ps) && size > 0
    requires chunks == Pieces(ChainBytes(ps), size) && |chunks| < 0xFFFF
    requires Numbers(order, |chunks|) && 1 <= last <= |chunks| && last !in order
    requires forall k :: 1 <= k <= |chunks| ==> k in order || k == last
    ensures var before := ArriveInOrder(caches, key, first, ctx, chunks, order);
      InnerChain(ArriveSealed(before, key, first, ctx, chunks, last - 1).0) == Done(Entries(ps)) <==>
        last == 1 && first == FirstType(ps)
  {
    SomePayload(ps, size);
    hide *;
    FragmentedPlaintextArrives(caches, key, first, ctx, ChainBytes(ps), size, chunks, order, last);
    ChainRoundTrip(ps);
    ChainUnderType(ps, first);
    ChainUnderType(ps, PAYLOAD_NONE);
    ChainOf(ChainBytes(ps), if last == 1 then first else PAYLOAD_NONE);
  }

  lemma ChainOf(plain: bytes, t: byte)
    ensures InnerChain(Ok(Some((plain, t)))) == ParseChain(plain, t)
  {
  }

  lemma SomePayload(ps: seq<Payload>, size: nat)
    requires size > 0 && Pieces(ChainBytes(ps), size) != []
    ensures ps != []
  {
  }

  /** A non-empty chain parses back only under its own first type. */
  lemma ChainUnderType(ps: seq<Payload>, t: byte)
    requires ps != [] && ChainFits(ps)
    ensures ParseChain(ChainBytes(ps), t) == Done(Entries(ps)) <==> t == FirstType(ps)
    ensures FirstType(ps) != PAYLOAD_NONE
  {
    ChainRoundTrip(ps);
    assert ps[0] in ps;
    NormalType(ps[0]);
    var buf := ChainBytes(ps);
    if |buf| >= PAYLOAD_HEADER_LEN && PAYLOAD_HEADER_LEN <= Get16(buf, 2) <= |buf| {
      TypeKept(t, buf[PAYLOAD_HEADER_LEN..Get16(buf, 2)]);
    }
    hide ParseTyped, TypeOf, Normal, Fits, Body, PayloadBytes, ChainBytes;
    if ParseChain(buf, t) == Done(Entries(ps)) {
      assert Entries(ps)[0].payload == Normal(ps[0]);
      assert t != PAYLOAD_NONE;
      FirstParsed(buf, t);
    }
  }

  lemma NormalType(p: Payload)
    ensures TypeOf(Normal(p)) == TypeOf(p)
  {
  }

  lemma FirstParsed(buf: bytes, t: byte)
    requires t != PAYLOAD_NONE && ParseChain(buf, t).Done?
    ensures |buf| >= PAYLOAD_HEADER_LEN && PAYLOAD_HEADER_LEN <= Get16(buf, 2) <= |buf|
    ensures |ParseChain(buf, t).value| > 0
    ensures ParseTyped(t, buf[PAYLOAD_HEADER_LEN..Get16(buf, 2)]) == Done(ParseChain(buf, t).value[0].payload)
  {
    hide ParseTyped;
  }

  class FragmentCache {
    const msgId: u32
    var total: u16
    var fragments: map<int, bytes>

    ghost function State(): Cache
      reads this
    {
      Cache(total, fragments)
    }

    constructor (msgId: u32)
      ensures State() == EMPTY && this.msgId == msgId
    {
      this.msgId, total, fragments := msgId, 0, map[];
    }

    method AddFragment(fragNum: u16, totalFrags: u16, plaintext: bytes) returns (r: Result<bool>)
      modifies this
      ensures (r, State()) == old(State()).Add(fragNum, totalFrags, plaintext)
    {
      if fragNum == 0 || totalFrags == 0 {
        return Err;
      }
      if fragNum > totalFrags {
        return Err;
      }
      if total != 0 && total != totalFrags {
        return Err;
      }
      total := totalFrags;
      fragments := fragments[fragNum := plaintext];
      r := Ok(ToU16(|fragments|) == total);
    }

    /** Number 0 never is in a cache, so a wrapped index ends the scan with an error. */
    method Reassemble() returns (r: Result<bytes>)
      requires State().Valid()
      ensures r == State().Reassembled()
    {
      if total == 0 || ToU16(|fragments|) != total {
        return Err;
      }
      var i: u16 := 1;
      while i <= total
        invariant i == 0 ==> total == 0xFFFF
        invariant i > 0 ==> i <= total + 1 && forall k :: 1 <= k < i ==> k in fragments
        decreases if i == 0 then 0 else 0x1_0000 - i
      {
        if i !in fragments {
          return Err;
        }
        i := ToU16((i as int) + 1);
      }
      var result: bytes := [];
      i := 1;
      while i <= total
        invariant 1 <= i <= total + 1 && State().Has(total)
        invariant result == State().Concatenated(i - 1)
        decreases total + 1 - i
      {
        result := result + fragments[i];
        i := ToU16((i as int) + 1);
      }
      r := Ok(result);
    }
  }

  class FragmentManager {
    var caches: map<Key, FragmentCache>

    ghost predicate Valid()
      reads this, caches.Values
    {
      && (forall j, k :: j in caches && k in caches && j != k ==> caches[j] != caches[k])
      && (forall k :: k in caches ==> caches[k].State().Valid())
    }

    ghost function State(): map<Key, Cache>
      reads this, caches.Values
    {
      map k | k in caches :: caches[k].State()
    }

    constructor ()
      ensures Valid() && State() == map[]
    {
      caches := map[];
    }

    method GetOrCreate(key: Key) returns (cache: FragmentCache)
      requires Valid()
      modifies this
      ensures Valid() && key in caches && caches[key] == cache
      ensures State() == if key in old(caches) then old(State()) else old(State())[key := EMPTY]
      ensures if key in old(caches) then caches == old(caches) else fresh(cache) && caches == old(caches)[key := cache]
    {
      if key in caches {
        return caches[key];
      }
      cache := new FragmentCache(key.1);
      caches := caches[key := cache];
    }

    method Remove(key: Key)
      requires Valid()
      modifies this
      ensures Valid() && State() == old(State()) - {key}
    {
      caches := caches - {key};
    }

    /** Adding to one cache is an update of the manager at that cache's key alone. */
    method AddTo(key: Key, cache: FragmentCache, fragNum: u16, totalFrags: u16, plaintext: bytes)
      returns (complete: Result<bool>)
      requires Valid() && key in caches && caches[key] == cache
      modifies cache
      ensures Valid() && (complete, cache.State()) == old(cache.State()).Add(fragNum, totalFrags, plaintext)
      ensures State() == old(State())[key := cache.State()]
    {
      complete := cache.AddFragment(fragNum, totalFrags, plaintext);
    }

    /** A complete message leaves the manager whether or not reassembly succeeds. */
    method Finish(key: Key, cache: FragmentCache, nextPayload: byte, fragNum: u16)
      returns (r: Result<Option<(bytes, byte)>>)
      requires Valid() && key in caches && caches[key] == cache
      modifies this
      ensures Valid() && State() == old(State()) - {key}
      ensures r == match old(cache.State()).Reassembled()
                   case Err => Err
                   case Ok(whole) => Ok(Some((whole, if fragNum == 1 then nextPayload else PAYLOAD_NONE)))
    {
      hide Cache.Reassembled;
      var whole := cache.Reassemble();
      Remove(key);
      if whole.Err? {
        return Err;
      }
      r := Ok(Some((whole.value, if fragNum == 1 then nextPayload else PAYLOAD_NONE)));
    }

    method Accept(key: Key, fragNum: u16, totalFrags: u16, plaintext: bytes)
      returns (cache: FragmentCache, complete: Result<bool>)
      requires Valid()
      modifies this, caches.Values
      ensures Valid() && key in caches && caches[key] == cache
      ensures var was := if key in old(State()) then old(State())[key] else EMPTY;
        var (done, c) := was.Add(fragNum, totalFrags, plaintext);
        complete == done && State() == old(State())[key := c]
    {
      hide Cache.Add;
      ghost var s0 := State();
      cache := GetOrCreate(key);
      ghost var c := cache.State();
      assert c == State()[key] == if key in s0 then s0[key] else EMPTY;
      complete := AddTo(key, cache, fragNum, totalFrags, plaintext);
      assert State() == s0[key := c.Add(fragNum, totalFrags, plaintext).1];
    }

    method ReassembleFragment(key: Key, nextPayload: byte, enc: Encryptor, mac: Option<EspPacket.Mac>, header: bytes,
                              fragNum: u16, totalFrags: u16, data: bytes)
      returns (r: Result<Option<(bytes, byte)>>)
      requires Valid()
      modifies this, caches.Values
      ensures Valid()
      ensures (r, State())
        == Arrive(old(State()), key, nextPayload, fragNum, totalFrags, Unsealed(enc, mac, header, data))
    {
      hide Unsealed, Cache.Reassembled, Cache.Add;
      ghost var s0 := State();
      var plainChunk := UnsealBody(enc, mac, header, data);
      if plainChunk.Err? {
        assert State() == s0;
        return Err;
      }
      var cache, complete := Accept(key, fragNum, totalFrags, plainChunk.value);
      if complete.Err? {
        return Err;
      }
      if !complete.value {
        return Ok(None);
      }
      ghost var c' := cache.State();
      assert c' == State()[key];
      r := Finish(key, cache, nextPayload, fragNum);
      assert State() == s0 - {key};
    }
  }
}
