/** Choosing a proposal (section 2.7 of RFC 7296), and the two records made of the choice. */
module ProposalSelection {
  import opened Bytes
  import opened SaPayload

  const ENCR: byte := 1
  const PRF: byte := 2
  const INTG: byte := 3
  const DH: byte := 4
  const ESN: byte := 5

  // Matching.

  predicate TransformMatch(o: Transform, t: Transform) {
    o.ttype == t.ttype && o.id == t.id && (o.keyLength != 0 && t.keyLength != 0 ==> o.keyLength == t.keyLength)
  }

  /** Our transform, with the peer's key length where we left ours open. */
  function Chosen(o: Transform, t: Transform): Transform {
    Transform(o.ttype, o.id, if o.keyLength == 0 then t.keyLength else o.keyLength, false)
  }

  function OfType(xs: seq<Transform>, ttype: byte): seq<Transform> {
    if xs == [] then [] else
    var x := xs[|xs| - 1];
    OfType(xs[..|xs| - 1], ttype) + if x.ttype == ttype then [x] else []
  }

  lemma {:induction false} OfTypeKeeps(xs: seq<Transform>, ttype: byte)
    ensures forall x :: x in OfType(xs, ttype) <==> x in xs && x.ttype == ttype
  {
    if xs != [] {
      OfTypeKeeps(xs[..|xs| - 1], ttype);
      assert xs == xs[..|xs| - 1] + [xs[|xs| - 1]];
    }
  }

  predicate Overlap(os: seq<Transform>, ts: seq<Transform>) {
    exists o, t :: o in os && t in ts && TransformMatch(o, t)
  }

  /** Every type we list is offered with an algorithm of ours; integrity may be missing altogether. */
  ghost predicate Compatible(ours: Proposal, theirs: Proposal) {
    && ours.protocolId == theirs.protocolId
    && forall ty :: TypeCompatible(ours.transforms, theirs.transforms, ty)
  }

  ghost predicate TypeCompatible(ours: seq<Transform>, theirs: seq<Transform>, ty: byte) {
    || OfType(ours, ty) == []
    || (if OfType(theirs, ty) == [] then ty == INTG else Overlap(OfType(ours, ty), OfType(theirs, ty)))
  }

  lemma OfTypeStep(xfs: seq<Transform>, i: nat, ty: byte)
    requires i < |xfs|
    ensures OfType(xfs[..i + 1], ty) == OfType(xfs[..i], ty) + if xfs[i].ttype == ty then [xfs[i]] else []
  {
    assert xfs[..i + 1][..i] == xfs[..i];
  }

  method GroupTransforms(xfs: seq<Transform>) returns (grouped: map<byte, seq<Transform>>)
    ensures forall ty: byte :: ty in grouped <==> OfType(xfs, ty) != []
    ensures forall ty: byte :: ty in grouped ==> grouped[ty] == OfType(xfs, ty)
  {
    grouped := map[];
    assert forall ty :: OfType(xfs[..0], ty) == [];
    hide OfType;
    for i := 0 to |xfs|
      invariant forall ty: byte :: ty in grouped <==> OfType(xfs[..i], ty) != []
      invariant forall ty: byte :: ty in grouped ==> grouped[ty] == OfType(xfs[..i], ty)
    {
      var xf := xfs[i];
      forall ty: byte {
        OfTypeStep(xfs, i, ty);
      }
      grouped := grouped[xf.ttype := (if xf.ttype in grouped then grouped[xf.ttype] else []) + [xf]];
    }
    assert xfs[..|xfs|] == xfs;
  }

  method HasMatchingTransform(ours: seq<Transform>, theirs: seq<Transform>) returns (found: bool)
    ensures found == Overlap(ours, theirs)
  {
    for i := 0 to |ours|
      invariant forall o, t :: o in ours[..i] && t in theirs ==> !TransformMatch(o, t)
    {
      for j := 0 to |theirs|
        invariant forall t :: t in theirs[..j] ==> !TransformMatch(ours[i], t)
      {
        if TransformMatch(ours[i], theirs[j]) {
          return true;
        }
      }
    }
    found := false;
  }

  /** Map iteration visits the types in an order that is not specified. */
  method ProposalMatch(ours: Proposal, theirs: Proposal) returns (ok: bool)
    requires ours.protocolId == theirs.protocolId
    ensures ok == Compatible(ours, theirs)
  {
    var ourByType := GroupTransforms(ours.transforms);
    var theirByType := GroupTransforms(theirs.transforms);
    var todo := ourByType.Keys;
    while todo != {}
      invariant todo <= ourByType.Keys
      invariant forall ty: byte :: ty !in todo ==> TypeCompatible(ours.transforms, theirs.transforms, ty)
    {
      var xfType :| xfType in todo;
      todo := todo - {xfType};
      if xfType !in theirByType {
        if xfType != INTG {
          assert !TypeCompatible(ours.transforms, theirs.transforms, xfType);
          return false;
        }
      } else {
        var found := HasMatchingTransform(ourByType[xfType], theirByType[xfType]);
        if !found {
          assert !TypeCompatible(ours.transforms, theirs.transforms, xfType);
          return false;
        }
      }
    }
    ok := true;
  }

  // What one of our transforms, and a list of them, comes to against the peer's.

  function Choice(o: Transform, ts: seq<Transform>): Option<Transform> {
    if ts == [] then None else
    if TransformMatch(o, ts[0]) then Some(Chosen(o, ts[0])) else Choice(o, ts[1..])
  }

  function FirstChoice(os: seq<Transform>, ts: seq<Transform>): Option<Transform> {
    if os == [] then None else
    if Choice(os[0], ts).Some? then Choice(os[0], ts) else FirstChoice(os[1..], ts)
  }

  function LastChoice(os: seq<Transform>, ts: seq<Transform>): Option<Transform> {
    if os == [] then None else
    var o := os[|os| - 1];
    if Choice(o, ts).Some? then Choice(o, ts) else LastChoice(os[..|os| - 1], ts)
  }

  /** A choice matches the transform of ours it comes from, and one of the peer's. */
  lemma {:induction false} ChoiceMatches(o: Transform, ts: seq<Transform>)
    ensures Choice(o, ts).Some? <==> exists t :: t in ts && TransformMatch(o, t)
    ensures Choice(o, ts).Some? ==>
      && TransformMatch(Choice(o, ts).value, o)
      && exists t :: t in ts && TransformMatch(Choice(o, ts).value, t)
  {
    if ts != [] {
      ChoiceMatches(o, ts[1..]);
      assert ts == [ts[0]] + ts[1..];
      if TransformMatch(o, ts[0]) {
        assert TransformMatch(Chosen(o, ts[0]), ts[0]) && ts[0] in ts;
      }
    }
  }

  lemma {:induction false} FirstChoiceMatches(os: seq<Transform>, ts: seq<Transform>)
    ensures FirstChoice(os, ts).Some? <==> Overlap(os, ts)
    ensures FirstChoice(os, ts).Some? ==> Both(FirstChoice(os, ts).value, os, ts)
  {
    if os != [] {
      ChoiceMatches(os[0], ts);
      FirstChoiceMatches(os[1..], ts);
      assert os == [os[0]] + os[1..];
    }
  }

  lemma {:induction false} LastChoiceMatches(os: seq<Transform>, ts: seq<Transform>)
    ensures LastChoice(os, ts).Some? <==> Overlap(os, ts)
    ensures LastChoice(os, ts).Some? ==> Both(LastChoice(os, ts).value, os, ts)
  {
    if os != [] {
      ChoiceMatches(os[|os| - 1], ts);
      LastChoiceMatches(os[..|os| - 1], ts);
      assert os == os[..|os| - 1] + [os[|os| - 1]];
    }
  }

  /** A transform that matches one on our side and one on the peer's. */
  ghost predicate Both(x: Transform, os: seq<Transform>, ts: seq<Transform>) {
    && (exists o :: o in os && TransformMatch(x, o))
    && (exists t :: t in ts && TransformMatch(x, t))
  }

  predicate Offered(os: seq<Transform>, ts: seq<Transform>, i: nat)
    requires i < |os|
  {
    Choice(os[i], ts).Some?
  }

  ghost predicate FirstOffered(os: seq<Transform>, ts: seq<Transform>, i: nat) {
    i < |os| && Offered(os, ts, i) && forall k :: 0 <= k < i ==> !Offered(os, ts, k)
  }

  ghost predicate LastOffered(os: seq<Transform>, ts: seq<Transform>, i: nat) {
    i < |os| && Offered(os, ts, i) && forall k :: i < k < |os| ==> !Offered(os, ts, k)
  }

  lemma {:induction false} FirstChoiceAt(os: seq<Transform>, ts: seq<Transform>, i: nat)
    requires FirstOffered(os, ts, i)
    ensures FirstChoice(os, ts) == Choice(os[i], ts)
  {
    if i > 0 {
      assert !Offered(os, ts, 0);
      forall k | 0 <= k < i - 1 ensures !Offered(os[1..], ts, k) {
        assert !Offered(os, ts, k + 1);
      }
      FirstChoiceAt(os[1..], ts, i - 1);
    }
  }

  lemma {:induction false} LastChoiceAt(os: seq<Transform>, ts: seq<Transform>, i: nat)
    requires LastOffered(os, ts, i)
    ensures LastChoice(os, ts) == Choice(os[i], ts)
  {
    if i < |os| - 1 {
      assert !Offered(os, ts, |os| - 1);
      var most := os[..|os| - 1];
      forall k: nat | i < k < |most| ensures !Offered(most, ts, k) {
        assert !Offered(os, ts, k);
      }
      LastChoiceAt(os[..|os| - 1], ts, i);
    }
  }

  // The two records.

  datatype Selected = Selected(proposalNum: byte, protocolId: byte, spi: bytes, encrId: u16, encrKeyLen: u16,
                               prfId: u16, integId: u16, dhId: u16, esn: u16)
  {
    /** The algorithm and key length recorded for a type; only ENCR has a key length. */
    function Field(ty: byte): (u16, u16) {
      if ty == ENCR then (encrId, encrKeyLen) else
      if ty == PRF then (prfId, 0) else
      if ty == INTG then (integId, 0) else
      if ty == DH then (dhId, 0) else
      if ty == ESN then (esn, 0) else (0, 0)
    }

    function With(ty: byte, x: Transform): (s: Selected)
      ensures forall u :: s.Field(u) == if u == ty then Recorded(ty, Some(x)) else Field(u)
      ensures s.proposalNum == proposalNum && s.protocolId == protocolId && s.spi == spi
    {
      if ty == ENCR then this.(encrId := x.id, encrKeyLen := x.keyLength) else
      if ty == PRF then this.(prfId := x.id) else
      if ty == INTG then this.(integId := x.id) else
      if ty == DH then this.(dhId := x.id) else
      if ty == ESN then this.(esn := x.id) else this
    }
  }

  /** What a chosen transform leaves in the record; no transform leaves zeros. */
  function Recorded(ty: byte, x: Option<Transform>): (u16, u16) {
    if x.None? || !(ENCR <= ty <= ESN) then (0, 0) else (x.value.id, if ty == ENCR then x.value.keyLength else 0)
  }

  function Extracted(ours: Proposal, theirs: Proposal, ty: byte): (u16, u16) {
    Recorded(ty, LastChoice(OfType(ours.transforms, ty), OfType(theirs.transforms, ty)))
  }

  /** The record for the key schedule: of each type, the last of our offered transforms. */
  ghost predicate IsExtracted(ours: Proposal, theirs: Proposal, sel: Selected) {
    && sel.proposalNum == theirs.number && sel.protocolId == theirs.protocolId && sel.spi == theirs.spi
    && forall ty: byte :: sel.Field(ty) == Extracted(ours, theirs, ty)
  }

  /** The proposal for the wire: of each type, the first of our offered transforms, in any order. */
  ghost predicate IsBuilt(ours: Proposal, theirs: Proposal, p: Proposal) {
    && p.number == theirs.number && p.protocolId == theirs.protocolId && p.spi == theirs.spi && p.isLast
    && Listing(ours.transforms, theirs.transforms, p.transforms, {})
  }

  function Pick(ours: seq<Transform>, theirs: seq<Transform>, ty: byte): Option<Transform> {
    FirstChoice(OfType(ours, ty), OfType(theirs, ty))
  }

  /** Exactly the picks of the types not in todo, each once. */
  ghost predicate Listing(ours: seq<Transform>, theirs: seq<Transform>, xs: seq<Transform>, todo: set<byte>) {
    && (forall i, j :: 0 <= i < j < |xs| ==> xs[i].ttype != xs[j].ttype)
    && (forall x :: x in xs ==> x.ttype !in todo && Pick(ours, theirs, x.ttype) == Some(x))
    && (forall ty: byte :: ty !in todo && Pick(ours, theirs, ty).Some? ==> Pick(ours, theirs, ty).value in xs)
  }

  /** One type's pass: the inner loop ends at a match, the outer one goes on. */
  method Extract(sel0: Selected, ty: byte, ourXfs: seq<Transform>, theirXfs: seq<Transform>) returns (sel: Selected)
    ensures var c := LastChoice(ourXfs, theirXfs); sel == if c.Some? then sel0.With(ty, c.value) else sel0
  {
    sel := sel0;
    for i := 0 to |ourXfs|
      invariant var c := LastChoice(ourXfs[..i], theirXfs); sel == if c.Some? then sel0.With(ty, c.value) else sel0
    {
      var o := ourXfs[i];
      assert ourXfs[..i + 1][..i] == ourXfs[..i];
      var j := 0;
      while j < |theirXfs| && !TransformMatch(o, theirXfs[j])
        invariant j <= |theirXfs| && Choice(o, theirXfs) == Choice(o, theirXfs[j..])
      {
        assert theirXfs[j..][1..] == theirXfs[j + 1..];
        j := j + 1;
      }
      if j < |theirXfs| {
        sel := sel.With(ty, Chosen(o, theirXfs[j]));
      }
    }
    assert ourXfs[..|ourXfs|] == ourXfs;
  }

  method ExtractSelected(ours: Proposal, theirs: Proposal) returns (sel: Selected)
    ensures IsExtracted(ours, theirs, sel)
  {
    sel := Selected(theirs.number, theirs.protocolId, theirs.spi, 0, 0, 0, 0, 0, 0);
    assert forall ty: byte :: sel.Field(ty) == (0, 0);
    var ourByType := GroupTransforms(ours.transforms);
    var theirByType := GroupTransforms(theirs.transforms);
    var todo := ourByType.Keys;
    assert forall ty: byte :: ty !in todo ==> Extracted(ours, theirs, ty) == (0, 0);
    hide OfType, LastChoice, Selected.Field, Selected.With;
    while todo != {}
      invariant todo <= ourByType.Keys
      invariant sel.proposalNum == theirs.number && sel.protocolId == theirs.protocolId && sel.spi == theirs.spi
      invariant forall ty: byte :: sel.Field(ty) == if ty in todo then (0, 0) else Extracted(ours, theirs, ty)
    {
      var xfType :| xfType in todo;
      todo := todo - {xfType};
      var theirXfs := if xfType in theirByType then theirByType[xfType] else [];
      assert theirXfs == OfType(theirs.transforms, xfType);
      assert Extracted(ours, theirs, xfType) == Recorded(xfType, LastChoice(ourByType[xfType], theirXfs));
      sel := Extract(sel, xfType, ourByType[xfType], theirXfs);
    }
  }

  method FirstOf(ourXfs: seq<Transform>, theirXfs: seq<Transform>) returns (x: Option<Transform>)
    ensures x == FirstChoice(ourXfs, theirXfs)
  {
    assert ourXfs[0..] == ourXfs;
    for i := 0 to |ourXfs|
      invariant FirstChoice(ourXfs, theirXfs) == FirstChoice(ourXfs[i..], theirXfs)
    {
      var o := ourXfs[i];
      assert theirXfs[0..] == theirXfs;
      for j := 0 to |theirXfs|
        invariant Choice(o, theirXfs) == Choice(o, theirXfs[j..])
      {
        if TransformMatch(o, theirXfs[j]) {
          return Some(Chosen(o, theirXfs[j]));
        }
        assert theirXfs[j..][1..] == theirXfs[j + 1..];
      }
      assert ourXfs[i..][1..] == ourXfs[i + 1..];
    }
    x := None;
  }

  method BuildSelectedProposal(theirs: Proposal, ours: Proposal) returns (p: Proposal)
    ensures IsBuilt(ours, theirs, p)
  {
    var xs: seq<Transform> := [];
    var ourByType := GroupTransforms(ours.transforms);
    var theirByType := GroupTransforms(theirs.transforms);
    var todo := ourByType.Keys;
    while todo != {}
      invariant todo <= ourByType.Keys
      invariant Listing(ours.transforms, theirs.transforms, xs, todo)
    {
      var xfType :| xfType in todo;
      ghost var was := todo;
      todo := todo - {xfType};
      var theirXfs := if xfType in theirByType then theirByType[xfType] else [];
      assert theirXfs == OfType(theirs.transforms, xfType);
      var x := FirstOf(ourByType[xfType], theirXfs);
      ListingGrows(ours.transforms, theirs.transforms, xs, was, xfType);
      if x.Some? {
        xs := xs + [x.value];
      }
    }
    p := Proposal(theirs.number, theirs.protocolId, theirs.spi, xs, true);
  }

  lemma PickType(ours: seq<Transform>, theirs: seq<Transform>, ty: byte)
    requires Pick(ours, theirs, ty).Some?
    ensures Pick(ours, theirs, ty).value.ttype == ty
  {
    FirstChoiceMatches(OfType(ours, ty), OfType(theirs, ty));
    OfTypeKeeps(ours, ty);
  }

  lemma ListingGrows(ours: seq<Transform>, theirs: seq<Transform>, xs: seq<Transform>, todo: set<byte>, ty: byte)
    requires ty in todo && Listing(ours, theirs, xs, todo)
    ensures var x := Pick(ours, theirs, ty);
      Listing(ours, theirs, if x.Some? then xs + [x.value] else xs, todo - {ty})
  {
    var x := Pick(ours, theirs, ty);
    hide Pick;
    if x.Some? {
      PickType(ours, theirs, ty);
    }
    if x.Some? {
      var xs' := xs + [x.value];
      assert forall y :: y in xs' <==> y in xs || y == x.value;
      assert forall i :: 0 <= i < |xs| ==> xs[i] in xs && xs'[i] == xs[i];
    }
  }

  // Selection.

  ghost predicate Pair(ours: seq<Proposal>, theirs: seq<Proposal>, i: nat, j: nat) {
    i < |ours| && j < |theirs| && Compatible(ours[i], theirs[j])
  }

  /** The first of our proposals with a partner, and its first partner. */
  ghost predicate LeastPair(ours: seq<Proposal>, theirs: seq<Proposal>, i: nat, j: nat) {
    && Pair(ours, theirs, i, j)
    && (forall k, l :: 0 <= k < i ==> !Pair(ours, theirs, k, l))
    && (forall l :: 0 <= l < j ==> !Pair(ours, theirs, i, l))
  }

  // The same spelled out, field by field.

  /** One of ours and one of theirs, of this type and algorithm, whose key lengths agree and come to this one. */
  ghost predicate Agreed(os: seq<Transform>, ts: seq<Transform>, ty: byte, id: u16, keyLength: u16) {
    exists o, t :: o in os && t in ts
      && o.ttype == ty && t.ttype == ty && o.id == id && t.id == id
      && (o.keyLength == t.keyLength || o.keyLength == 0 || t.keyLength == 0)
      && keyLength == if o.keyLength == 0 then t.keyLength else o.keyLength
  }

  /** Every type of ours but integrity is among theirs, and where it is they agree on an algorithm. */
  ghost predicate Acceptable(ours: Proposal, theirs: Proposal) {
    && ours.protocolId == theirs.protocolId
    && forall o :: o in ours.transforms ==> TypeAcceptable(ours.transforms, theirs.transforms, o.ttype)
  }

  ghost predicate TypeAcceptable(os: seq<Transform>, ts: seq<Transform>, ty: byte) {
    if exists t :: t in ts && t.ttype == ty then exists id, keyLength :: Agreed(os, ts, ty, id, keyLength) else ty == 3
  }

  /** The algorithm and key length recorded for a type are agreed; zeros where nothing is. */
  ghost predicate Settled(os: seq<Transform>, ts: seq<Transform>, ty: byte, id: u16, keyLength: u16) {
    if exists i, k :: Agreed(os, ts, ty, i, k) then Agreed(os, ts, ty, id, keyLength) else id == 0 && keyLength == 0
  }

  /** As Settled, for a type whose key length is not recorded. */
  ghost predicate SettledId(os: seq<Transform>, ts: seq<Transform>, ty: byte, id: u16) {
    exists keyLength :: Settled(os, ts, ty, id, keyLength)
  }

  ghost predicate BothAgreed(ours: Proposal, theirs: Proposal, sel: Selected, p: Proposal) {
    var os, ts := ours.transforms, theirs.transforms;
    && p.number == sel.proposalNum == theirs.number && p.protocolId == sel.protocolId == theirs.protocolId
    && p.spi == sel.spi == theirs.spi && p.isLast
    && (forall x :: x in p.transforms ==> Agreed(os, ts, x.ttype, x.id, x.keyLength))
    && Settled(os, ts, 1, sel.encrId, sel.encrKeyLen)
    && SettledId(os, ts, 2, sel.prfId) && SettledId(os, ts, 3, sel.integId)
    && SettledId(os, ts, 4, sel.dhId) && SettledId(os, ts, 5, sel.esn)
  }

  lemma {:induction false} ChoiceAgreed(o: Transform, ts: seq<Transform>)
    ensures Choice(o, ts).Some? ==>
      var x := Choice(o, ts).value; x.ttype == o.ttype && Agreed([o], ts, x.ttype, x.id, x.keyLength)
  {
    if ts != [] {
      assert ts[0] in ts && o in [o];
      ChoiceAgreed(o, ts[1..]);
      if !TransformMatch(o, ts[0]) && Choice(o, ts).Some? {
        var x := Choice(o, ts).value;
        AgreedAmongMore([o], ts[1..], [o], ts, x.ttype, x.id, x.keyLength);
      }
    }
  }

  lemma AgreedAmongMore(os: seq<Transform>, ts: seq<Transform>, os': seq<Transform>, ts': seq<Transform>,
                        ty: byte, id: u16, keyLength: u16)
    requires (forall o :: o in os ==> o in os') && (forall t :: t in ts ==> t in ts')
    ensures Agreed(os, ts, ty, id, keyLength) ==> Agreed(os', ts', ty, id, keyLength)
  {
  }

  lemma {:induction false} FirstAgreed(os: seq<Transform>, ts: seq<Transform>)
    ensures FirstChoice(os, ts).Some? ==>
      var x := FirstChoice(os, ts).value; Agreed(os, ts, x.ttype, x.id, x.keyLength)
  {
    if os != [] {
      FirstAgreed(os[1..], ts);
      ChoiceAgreed(os[0], ts);
      if FirstChoice(os, ts).Some? {
        var x := FirstChoice(os, ts).value;
        hide Agreed, Choice;
        AgreedAmongMore([os[0]], ts, os, ts, x.ttype, x.id, x.keyLength);
        AgreedAmongMore(os[1..], ts, os, ts, x.ttype, x.id, x.keyLength);
      }
    }
  }

  lemma {:induction false} LastAgreed(os: seq<Transform>, ts: seq<Transform>)
    ensures LastChoice(os, ts).Some? ==>
      var x := LastChoice(os, ts).value; Agreed(os, ts, x.ttype, x.id, x.keyLength)
  {
    if os != [] {
      var most, o := os[..|os| - 1], os[|os| - 1];
      LastAgreed(most, ts);
      ChoiceAgreed(o, ts);
      if LastChoice(os, ts).Some? {
        var x := LastChoice(os, ts).value;
        hide Agreed, Choice;
        AgreedAmongMore([o], ts, os, ts, x.ttype, x.id, x.keyLength);
        AgreedAmongMore(most, ts, os, ts, x.ttype, x.id, x.keyLength);
      }
    }
  }

  /** Two lists overlap in a type exactly when they agree on an algorithm of it. */
  lemma OverlapAgreed(os: seq<Transform>, ts: seq<Transform>, ty: byte)
    ensures Overlap(OfType(os, ty), OfType(ts, ty)) <==> exists id, keyLength :: Agreed(os, ts, ty, id, keyLength)
  {
    OfTypeKeeps(os, ty);
    OfTypeKeeps(ts, ty);
    hide OfType;
    if o, t :| o in OfType(os, ty) && t in OfType(ts, ty) && TransformMatch(o, t) {
      assert Agreed(os, ts, ty, o.id, if o.keyLength == 0 then t.keyLength else o.keyLength);
    }
    if id, keyLength :| Agreed(os, ts, ty, id, keyLength) {
      var o, t :| o in os && t in ts && o.ttype == ty && t.ttype == ty && o.id == id && t.id == id
        && (o.keyLength == t.keyLength || o.keyLength == 0 || t.keyLength == 0);
      assert o in OfType(os, ty) && t in OfType(ts, ty) && TransformMatch(o, t);
    }
  }

  lemma CompatibleExactly(ours: Proposal, theirs: Proposal)
    ensures Compatible(ours, theirs) <==> Acceptable(ours, theirs)
  {
    var os, ts := ours.transforms, theirs.transforms;
    hide TypeCompatible, TypeAcceptable;
    forall ty: byte | exists o :: o in os && o.ttype == ty
      ensures TypeCompatible(os, ts, ty) <==> TypeAcceptable(os, ts, ty)
    {
      TypeCompatibleExactly(os, ts, ty);
    }
    forall ty: byte | !exists o :: o in os && o.ttype == ty ensures TypeCompatible(os, ts, ty) {
      TypeCompatibleExactly(os, ts, ty);
    }
  }

  lemma TypeCompatibleExactly(os: seq<Transform>, ts: seq<Transform>, ty: byte)
    ensures TypeCompatible(os, ts, ty) <==> ((exists o :: o in os && o.ttype == ty) ==> TypeAcceptable(os, ts, ty))
  {
    OverlapAgreed(os, ts, ty);
    OfTypeKeeps(os, ty);
    OfTypeKeeps(ts, ty);
    hide OfType, Overlap, Agreed;
    if OfType(os, ty) != [] {
      assert OfType(os, ty)[0] in OfType(os, ty);
    }
    if OfType(ts, ty) != [] {
      assert OfType(ts, ty)[0] in OfType(ts, ty);
    }
  }

  lemma PickAgreed(os: seq<Transform>, ts: seq<Transform>, ty: byte)
    ensures var x := FirstChoice(OfType(os, ty), OfType(ts, ty));
      x.Some? ==> Agreed(os, ts, x.value.ttype, x.value.id, x.value.keyLength)
    ensures var x := LastChoice(OfType(os, ty), OfType(ts, ty));
      && (x.Some? ==> Agreed(os, ts, ty, x.value.id, x.value.keyLength))
      && (x.None? ==> !exists id, keyLength :: Agreed(os, ts, ty, id, keyLength))
  {
    var os', ts' := OfType(os, ty), OfType(ts, ty);
    FirstAgreed(os', ts');
    LastAgreed(os', ts');
    LastChoiceMatches(os', ts');
    OverlapAgreed(os, ts, ty);
    OfTypeKeeps(os, ty);
    OfTypeKeeps(ts, ty);
    hide OfType, Overlap, FirstChoice, LastChoice;
    var first, last := FirstChoice(os', ts'), LastChoice(os', ts');
    if first.Some? {
      AgreedAmongMore(os', ts', os, ts, first.value.ttype, first.value.id, first.value.keyLength);
    }
    if last.Some? {
      assert last.value.ttype == ty;
      AgreedAmongMore(os', ts', os, ts, ty, last.value.id, last.value.keyLength);
    }
  }

  lemma RecordSettled(ours: Proposal, theirs: Proposal, sel: Selected, ty: byte)
    requires IsExtracted(ours, theirs, sel) && 1 <= ty <= 5
    ensures ty == 1 ==> Settled(ours.transforms, theirs.transforms, ty, sel.Field(ty).0, sel.Field(ty).1)
    ensures SettledId(ours.transforms, theirs.transforms, ty, sel.Field(ty).0)
  {
    var os, ts := ours.transforms, theirs.transforms;
    PickAgreed(os, ts, ty);
    assert sel.Field(ty) == Extracted(ours, theirs, ty);
    var x := LastChoice(OfType(os, ty), OfType(ts, ty));
    hide Agreed, LastChoice, OfType, Selected.Field;
    assert Settled(os, ts, ty, sel.Field(ty).0, if x.Some? then x.value.keyLength else 0);
  }

  lemma RecordsAgreed(ours: Proposal, theirs: Proposal, sel: Selected, p: Proposal)
    requires IsExtracted(ours, theirs, sel) && IsBuilt(ours, theirs, p)
    ensures BothAgreed(ours, theirs, sel, p)
  {
    var os, ts := ours.transforms, theirs.transforms;
    forall x | x in p.transforms ensures Agreed(os, ts, x.ttype, x.id, x.keyLength) {
      PickAgreed(os, ts, x.ttype);
    }
    RecordSettled(ours, theirs, sel, 1);
    RecordSettled(ours, theirs, sel, 2);
    RecordSettled(ours, theirs, sel, 3);
    RecordSettled(ours, theirs, sel, 4);
    RecordSettled(ours, theirs, sel, 5);
    hide Agreed, Settled, SettledId;
  }

  /** An absent payload is an empty list. */
  method SelectProposal(ours: seq<Proposal>, theirs: seq<Proposal>) returns (r: Result<(Selected, Proposal)>)
    ensures r.Err? <==> forall i, j :: !Pair(ours, theirs, i, j)
    ensures r.Ok? ==> exists i: nat, j: nat ::
      && LeastPair(ours, theirs, i, j)
      && IsExtracted(ours[i], theirs[j], r.value.0) && IsBuilt(ours[i], theirs[j], r.value.1)
      && BothAgreed(ours[i], theirs[j], r.value.0, r.value.1)
    ensures r.Err? <==> forall i, j :: 0 <= i < |ours| && 0 <= j < |theirs| ==> !Acceptable(ours[i], theirs[j])
  {
    forall i, j | 0 <= i < |ours| && 0 <= j < |theirs|
      ensures Pair(ours, theirs, i, j) <==> Acceptable(ours[i], theirs[j])
    {
      CompatibleExactly(ours[i], theirs[j]);
    }
    hide Acceptable, Compatible, BothAgreed, IsExtracted, IsBuilt;
    if |theirs| == 0 || |ours| == 0 {
      return Err;
    }
    for i := 0 to |ours|
      invariant forall k, l :: 0 <= k < i ==> !Pair(ours, theirs, k, l)
    {
      for j := 0 to |theirs|
        invariant forall l :: 0 <= l < j ==> !Pair(ours, theirs, i, l)
      {
        if ours[i].protocolId == theirs[j].protocolId {
          var ok := ProposalMatch(ours[i], theirs[j]);
          if ok {
            var sel := ExtractSelected(ours[i], theirs[j]);
            var p := BuildSelectedProposal(theirs[j], ours[i]);
            RecordsAgreed(ours[i], theirs[j], sel, p);
            assert LeastPair(ours, theirs, i, j);
            return Ok((sel, p));
          }
        }
      }
    }
    r := Err;
  }

  // What both records have in common, and where they part.

  /** Every transform put on the wire matches one of ours and one of the peer's. */
  lemma BuiltMatchesBoth(ours: Proposal, theirs: Proposal, p: Proposal, x: Transform)
    requires IsBuilt(ours, theirs, p) && x in p.transforms
    ensures Both(x, ours.transforms, theirs.transforms)
  {
    FirstChoiceMatches(OfType(ours.transforms, x.ttype), OfType(theirs.transforms, x.ttype));
    OfTypeKeeps(ours.transforms, x.ttype);
    OfTypeKeeps(theirs.transforms, x.ttype);
  }

  /** A compatible pair yields a transform for each of our types that the peer has, and no other. */
  lemma BuiltTypes(ours: Proposal, theirs: Proposal, p: Proposal, ty: byte)
    requires Compatible(ours, theirs) && IsBuilt(ours, theirs, p)
    ensures (exists x :: x in p.transforms && x.ttype == ty)
      <==> OfType(ours.transforms, ty) != [] && OfType(theirs.transforms, ty) != []
  {
    var os, ts := OfType(ours.transforms, ty), OfType(theirs.transforms, ty);
    assert TypeCompatible(ours.transforms, theirs.transforms, ty);
    FirstChoiceMatches(os, ts);
    OfTypeKeeps(ours.transforms, ty);
    if os != [] && ts != [] {
      assert Pick(ours.transforms, theirs.transforms, ty).value in p.transforms;
    }
  }

  /** What the proposal on the wire says of a type. */
  ghost predicate Says(p: Proposal, ty: byte, said: (u16, u16)) {
    if exists x :: x in p.transforms && x.ttype == ty
    then exists x :: x in p.transforms && x.ttype == ty && Recorded(ty, Some(x)) == said
    else said == (0, 0)
  }

  /**
   For a type, the two records name the same algorithm if and only if the first
   and the last of our offered transforms of that type do.
   */
  lemma RecordsAgreeExactly(ours: Proposal, theirs: Proposal, sel: Selected, p: Proposal, ty: byte)
    requires IsExtracted(ours, theirs, sel) && IsBuilt(ours, theirs, p)
    ensures Says(p, ty, sel.Field(ty))
      <==> EndsAgree(OfType(ours.transforms, ty), OfType(theirs.transforms, ty), ty)
  {
    var os, ts := OfType(ours.transforms, ty), OfType(theirs.transforms, ty);
    SaysFirst(ours, theirs, p, ty, sel.Field(ty));
    ChoicesAgreeExactly(os, ts, ty);
    assert sel.Field(ty) == Extracted(ours, theirs, ty);
    hide *;
  }

  ghost predicate EndsAgree(os: seq<Transform>, ts: seq<Transform>, ty: byte) {
    forall i: nat, j: nat :: FirstOffered(os, ts, i) && LastOffered(os, ts, j) ==>
      Recorded(ty, Choice(os[i], ts)) == Recorded(ty, Choice(os[j], ts))
  }

  lemma ChoicesAgreeExactly(os: seq<Transform>, ts: seq<Transform>, ty: byte)
    ensures Recorded(ty, FirstChoice(os, ts)) == Recorded(ty, LastChoice(os, ts)) <==> EndsAgree(os, ts, ty)
  {
    FirstChoiceMatches(os, ts);
    LastChoiceMatches(os, ts);
    hide FirstChoice, LastChoice, Recorded, Choice;
    if FirstChoice(os, ts).Some? {
      var i, j := EndsOffered(os, ts);
      FirstChoiceAt(os, ts, i);
      LastChoiceAt(os, ts, j);
      assert forall k :: FirstOffered(os, ts, k) ==> k == i;
      assert forall k :: LastOffered(os, ts, k) ==> k == j;
    } else {
      assert forall i :: !FirstOffered(os, ts, i) by {
        forall i | FirstOffered(os, ts, i) ensures false { FirstChoiceAt(os, ts, i); }
      }
    }
  }

  lemma SaysFirst(ours: Proposal, theirs: Proposal, p: Proposal, ty: byte, said: (u16, u16))
    requires IsBuilt(ours, theirs, p)
    ensures Says(p, ty, said)
      <==> said == Recorded(ty, Pick(ours.transforms, theirs.transforms, ty))
  {
    var os, ts := OfType(ours.transforms, ty), OfType(theirs.transforms, ty);
    FirstChoiceMatches(os, ts);
    OfTypeKeeps(ours.transforms, ty);
    if FirstChoice(os, ts).Some? {
      var x := FirstChoice(os, ts).value;
      assert Pick(ours.transforms, theirs.transforms, ty) == Some(x);
      assert x in p.transforms && x.ttype == ty;
      assert forall y :: y in p.transforms && y.ttype == ty ==> y == x;
    }
  }

  lemma {:induction false} EndsOffered(os: seq<Transform>, ts: seq<Transform>) returns (i: nat, j: nat)
    requires Overlap(os, ts)
    ensures FirstOffered(os, ts, i) && LastOffered(os, ts, j)
  {
    var o :| o in os && exists t :: t in ts && TransformMatch(o, t);
    ChoiceMatches(o, ts);
    var m: nat :| m < |os| && os[m] == o;
    i, j := 0, |os| - 1;
    while !Offered(os, ts, i)
      invariant i <= m && forall k :: 0 <= k < i ==> !Offered(os, ts, k)
      decreases m - i
    {
      i := i + 1;
    }
    while !Offered(os, ts, j)
      invariant m <= j < |os| && forall k :: j < k < |os| ==> !Offered(os, ts, k)
      decreases j - m
    {
      j := j - 1;
    }
  }

  lemma FewAgree(os: seq<Transform>, ts: seq<Transform>, ty: byte)
    requires |os| <= 1
    ensures EndsAgree(os, ts, ty)
  {
    hide Choice, Recorded;
  }

  /** With at most one transform of a type on our side the records always agree. */
  lemma OnePerTypeAgrees(ours: Proposal, theirs: Proposal, sel: Selected, p: Proposal, ty: byte)
    requires IsExtracted(ours, theirs, sel) && IsBuilt(ours, theirs, p) && |OfType(ours.transforms, ty)| <= 1
    ensures Says(p, ty, sel.Field(ty))
  {
    hide *;
    FewAgree(OfType(ours.transforms, ty), OfType(theirs.transforms, ty), ty);
    RecordsAgreeExactly(ours, theirs, sel, p, ty);
  }

  /** Two key lengths offered and accepted: 256 goes on the wire, 128 into the key schedule. */
  lemma TwoOfATypeDisagree(p: Proposal, sel: Selected)
    requires var both := Proposal(1, 3, [], [Transform(ENCR, 20, 256, false), Transform(ENCR, 20, 128, true)], true);
      IsExtracted(both, both, sel) && IsBuilt(both, both, p)
    ensures sel.Field(ENCR) == (20, 128) && Says(p, ENCR, (20, 256)) && !Says(p, ENCR, sel.Field(ENCR))
  {
    var x, y := Transform(ENCR, 20, 256, false), Transform(ENCR, 20, 128, true);
    var both := Proposal(1, 3, [], [x, y], true);
    assert [x, y][..1] == [x] && [x][..0] == [];
    assert OfType([x], ENCR) == [x];
    assert OfType([x, y], ENCR) == [x, y];
    assert Choice(x, [x, y]) == Some(Chosen(x, x));
    assert [x, y][1..] == [y];
    assert Choice(y, [x, y]) == Choice(y, [y]) == Some(Chosen(y, y));
    SaysFirst(both, both, p, ENCR, (20, 256));
    SaysFirst(both, both, p, ENCR, (20, 128));
  }
}
