/**
 LCP negotiation on the wire, where a packet states its length in 16 bits: how long a
 request may be for negotiation to end, and a request the handler does not survive.
 */
module LcpWire {
  import opened Bytes
  import opened Ppp
  import opened ConfigOptions
  import opened ConfigWire
  import opened Lcp

  lemma HandlerAnswers(h: State, id: byte, os: seq<bytes>, rand: u32)
    requires |Concat(os)| <= 0xFFFB
    ensures h.Handle(RequestPacket(id, os), rand).0 == AnswerPacket(JudgeOption, id, os)
  {
    RequestIsRead(id, os);
    hide RequestPacket, Received, Response, Answer, ParseOptions, State.LearnedAll;
  }

  ghost predicate ConvergesUpTo(limit: nat) {
    forall ids, os :: AllWellFormed(os) && |Concat(os)| <= limit ==> ThirdAcked(JudgeOption, ids, os)
  }

  lemma LcpRoundIs(id: byte, os: seq<bytes>)
    requires AllWellFormed(os) && |Concat(os)| <= 0xFFFB
    requires NoReject(JudgeOption, os) ==> NakLength(os) <= 0xFFFB
    ensures WireRound(JudgeOption, id, os) == Some(Round(JudgeOption, os))
  {
    ParseUndoesConcat(os);
    AnswerLength(Concat(os));
    hide Answer, ParseOptions, Concat, NakLength, NoReject;
    WireRoundIs(JudgeOption, id, os);
  }

  // The lengths of successive requests.

  predicate GrowsByQuarter(os: seq<bytes>, next: seq<bytes>) {
    |next| == |os| && forall i :: 0 <= i < |os| ==> 4 * |next[i]| <= 5 * |os[i]|
  }

  lemma {:induction false} QuarterLonger(os: seq<bytes>, next: seq<bytes>)
    requires GrowsByQuarter(os, next)
    ensures 4 * |Concat(next)| <= 5 * |Concat(os)|
  {
    if os != [] {
      QuarterLonger(os[1..], next[1..]);
    }
  }

  lemma SuggestionIs(os: seq<bytes>, n: bytes)
    requires n in Suggestions(JudgeOption, os)
    ensures n == MRU_NAK || n == CHAP_NAK
  {
    JudgeIsSoundAndConsistent();
    SuggestionsReadBack(JudgeOption, os);
  }

  lemma SubstitutedGrows(os: seq<bytes>)
    requires AllWellFormed(os) && NoReject(JudgeOption, os)
    ensures GrowsByQuarter(os, Substituted(os, Suggestions(JudgeOption, os)))
  {
    var ns := Suggestions(JudgeOption, os);
    var next := Substituted(os, ns);
    forall i | 0 <= i < |os| ensures 4 * |next[i]| <= 5 * |os[i]| {
      assert WellFormed(os[i]) && !JudgeOption(os[i]).Reject?;
      FirstOfTypeHolds(ns, os[i][0]);
      if FirstOfType(ns, os[i][0]).Some? {
        SuggestionIs(os, FirstOfType(ns, os[i][0]).value);
      }
    }
  }

  /** What the next request of the option lists is, and its length. */
  lemma NextLength(os: seq<bytes>)
    requires AllWellFormed(os)
    ensures var next := Round(JudgeOption, os);
      && (!NoReject(JudgeOption, os) ==> |Concat(next)| <= |Concat(os)|)
      && (NoReject(JudgeOption, os) && !AllAck(JudgeOption, os) ==>
            next == Substituted(os, Suggestions(JudgeOption, os)) && 4 * |Concat(next)| <= 5 * |Concat(os)|)
      && (AllAck(JudgeOption, os) ==> next == os)
  {
    JudgeIsSoundAndConsistent();
    ParseUndoesConcat(os);
    RejectedExactly(JudgeOption, os);
    var next := Round(JudgeOption, os);
    hide JudgeOption, Concat, ParseOptions;
    if !NoReject(JudgeOption, os) {
      WithoutShorter(os, ParseOptions(Rejected(JudgeOption, os)));
    } else if !AllAck(JudgeOption, os) {
      NakedExactly(JudgeOption, os);
      SuggestionsReadBack(JudgeOption, os);
      SubstitutedGrows(os);
      QuarterLonger(os, next);
    } else {
      AckedAll(JudgeOption, os);
    }
  }

  lemma NakBound(os: seq<bytes>)
    requires AllWellFormed(os) && |Concat(os)| <= 0xFFFB
    ensures 4 * NakLength(os) <= 5 * |Concat(os)|
    ensures AllAck(JudgeOption, os) ==> NakLength(os) == 0
  {
    ParseUndoesConcat(os);
    AnswerLength(Concat(os));
    if AllAck(JudgeOption, os) {
      AckedAll(JudgeOption, os);
      NakedLength(os);
    }
  }

  /** One exchange on a request of at most 52425 option bytes, or on an acceptable one of any length. */
  lemma RoundOnWire(id: byte, os: seq<bytes>)
    requires AllWellFormed(os) && (|Concat(os)| <= 52425 || (AllAck(JudgeOption, os) && |Concat(os)| <= 0xFFFB))
    ensures var next := Round(JudgeOption, os);
      && WireRound(JudgeOption, id, os) == Some(next) && AllWellFormed(next) && NoReject(JudgeOption, next)
      && (NoReject(JudgeOption, os) ==> AllAck(JudgeOption, next))
      && (|Concat(next)| <= 52425 || (AllAck(JudgeOption, next) && |Concat(next)| <= 0xFFFB))
  {
    hide JudgeOption, Concat, NakLength, WireRound, Round;
    NakBound(os);
    LcpRoundIs(id, os);
    NextLength(os);
    JudgeIsSoundAndConsistent();
    var next := RoundImproves(JudgeOption, os);
  }

  lemma ShortConverges(ids: (byte, byte, byte), os: seq<bytes>)
    requires AllWellFormed(os) && |Concat(os)| <= 52425
    ensures ThirdAcked(JudgeOption, ids, os)
  {
    hide JudgeOption, Concat, WireRound, Round, ParseOptions;
    RoundOnWire(ids.0, os);
    var second := Round(JudgeOption, os);
    RoundOnWire(ids.1, second);
    var third := Round(JudgeOption, second);
    ParseUndoesConcat(third);
    AckedAll(JudgeOption, third);
  }

  // Two long requests.

  const BAD_AUTH: bytes := [OPT_AUTH_PROTO, 4, 0, 0]

  /** As often as n the shortest option that is answered with a longer one. */
  function BadAuths(n: nat): seq<bytes> { seq(n, _ => BAD_AUTH) }

  lemma {:induction false} BadAuthsLength(n: nat)
    ensures AllWellFormed(BadAuths(n)) && |Concat(BadAuths(n))| == 4 * n && NakLength(BadAuths(n)) == 5 * n
    ensures NoReject(JudgeOption, BadAuths(n))
  {
    if n > 0 {
      assert BadAuths(n)[1..] == BadAuths(n - 1) && BadAuths(n)[0] == BAD_AUTH;
      BadAuthsLength(n - 1);
    }
  }

  /** A request of 52432 bytes: 13107 suggestions of five bytes wrap the answer's length to 3. */
  lemma LongRequestPanics(h: State, id: byte, rand: u32)
    ensures |Concat(BadAuths(13107))| == 52428 && |RequestPacket(id, BadAuths(13107))| == 52432
    ensures h.Handle(RequestPacket(id, BadAuths(13107)), rand).0.Panics?
  {
    var os := BadAuths(13107);
    hide BadAuths, Concat, NakLength, ParseOptions, Received, State.Handle;
    BadAuthsLength(13107);
    RequestIsRead(id, os);
    ParseUndoesConcat(os);
    PanicsExactly(h, RequestPacket(id, os), rand);
  }

  lemma {:induction false} ConcatAppends(a: seq<bytes>, o: bytes)
    ensures Concat(a + [o]) == Concat(a) + o
  {
    if a == [] {
      assert a + [o] == [o] && [o][1..] == [];
    } else {
      ConcatAppends(a[1..], o);
      assert (a + [o])[1..] == a[1..] + [o];
    }
  }

  lemma {:induction false} FivesLength(os: seq<bytes>)
    requires forall i :: 0 <= i < |os| ==> |os[i]| == 5
    ensures |Concat(os)| == 5 * |os|
  {
    if os != [] {
      FivesLength(os[1..]);
    }
  }

  lemma {:induction false} NakLengthAppends(os: seq<bytes>, o: bytes)
    requires !BadMru(o) && !BadAuth(o)
    ensures NakLength(os + [o]) == NakLength(os)
  {
    if os == [] {
      assert [] + [o] == [o];
    } else {
      NakLengthAppends(os[1..], o);
      assert (os + [o])[1..] == os[1..] + [o];
    }
  }

  /** 52426 bytes are too many: the next request would not fit a packet. */
  lemma LongerStalls(id: byte)
    ensures var os := BadAuths(13106) + [[OPT_PF_COMPRESS, 2]];
      && AllWellFormed(os) && |Concat(os)| == 52426
      && WireRound(JudgeOption, id, os).Some? && WireRound(JudgeOption, id, WireRound(JudgeOption, id, os).value).None?
  {
    var bad, pfc := BadAuths(13106), [OPT_PF_COMPRESS, 2];
    var os := bad + [pfc];
    BadAuthsLength(13106);
    hide BadAuths, Concat, NakLength, ParseOptions, WireRound, Round;
    ConcatAppends(bad, pfc);
    NakLengthAppends(bad, pfc);
    LastAccepted(bad, pfc);
    LcpRoundIs(id, os);
    NextLength(os);
    StalledLength(bad, pfc);
    TooLongForWire(id, Round(JudgeOption, os));
  }

  lemma TooLongForWire(id: byte, os: seq<bytes>)
    requires |Concat(os)| > 0xFFFB
    ensures WireRound(JudgeOption, id, os) == None
  {
  }

  lemma LastAccepted(bad: seq<bytes>, pfc: bytes)
    requires AllWellFormed(bad) && NoReject(JudgeOption, bad) && pfc == [OPT_PF_COMPRESS, 2]
    requires bad != [] && bad[0] == BAD_AUTH
    ensures AllWellFormed(bad + [pfc]) && NoReject(JudgeOption, bad + [pfc]) && !AllAck(JudgeOption, bad + [pfc])
  {
    var os := bad + [pfc];
    assert JudgeOption(os[0]).Nak?;
  }

  lemma StalledLength(bad: seq<bytes>, pfc: bytes)
    requires |bad| == 13106 && pfc == [OPT_PF_COMPRESS, 2] && forall i :: 0 <= i < |bad| ==> bad[i] == BAD_AUTH
    ensures var os := bad + [pfc]; |Concat(Substituted(os, Suggestions(JudgeOption, os)))| == 65532
  {
    var os := bad + [pfc];
    var ns := Suggestions(JudgeOption, os);
    var next := Substituted(os, ns);
    var most := next[..13106];
    assert next == most + [next[13106]];
    SuggestsChap(os);
    FirstOfTypeHolds(ns, OPT_AUTH_PROTO);
    FirstOfTypeHolds(ns, OPT_PF_COMPRESS);
    assert CHAP_NAK in ns && CHAP_NAK[0] == OPT_AUTH_PROTO;
    SuggestionIs(os, FirstOfType(ns, OPT_AUTH_PROTO).value);
    if FirstOfType(ns, OPT_PF_COMPRESS).Some? {
      SuggestionIs(os, FirstOfType(ns, OPT_PF_COMPRESS).value);
    }
    hide Concat, Suggestions;
    assert forall i :: 0 <= i < |most| ==> most[i] == CHAP_NAK;
    FivesLength(most);
    ConcatAppends(most, next[13106]);
  }

  lemma SuggestsChap(os: seq<bytes>)
    requires os != [] && os[0] == BAD_AUTH
    ensures CHAP_NAK in Suggestions(JudgeOption, os)
  {
    assert JudgeOption(os[0]) == Nak(CHAP_NAK);
  }

  /**
   Every request of at most that many option bytes is followed by one that is
   acknowledged, the third at the latest, if and only if the limit is 52425.
   */
  lemma LcpConvergesExactly(limit: nat)
    ensures ConvergesUpTo(limit) <==> limit <= 52425
  {
    hide ThirdAcked, WireRound, Concat;
    if limit <= 52425 {
      forall ids, os | AllWellFormed(os) && |Concat(os)| <= limit ensures ThirdAcked(JudgeOption, ids, os) {
        ShortConverges(ids, os);
      }
    } else {
      var os := BadAuths(13106) + [[OPT_PF_COMPRESS, 2]];
      LongerStalls(1);
      NotThird((1, 1, 1), os);
    }
  }

  lemma NotThird(ids: (byte, byte, byte), os: seq<bytes>)
    requires var second := WireRound(JudgeOption, ids.0, os);
      second.Some? && WireRound(JudgeOption, ids.1, second.value).None?
    ensures !ThirdAcked(JudgeOption, ids, os)
  {
  }

  /** Any CHAP algorithm is acknowledged, MD5 (5) or not. */
  lemma AnyChapAlgorithmAcked(algorithm: byte)
    ensures AllAck(JudgeOption, [[OPT_AUTH_PROTO, 5, 0xC2, 0x23, algorithm]])
    ensures Answer(JudgeOption, [[OPT_AUTH_PROTO, 5, 0xC2, 0x23, algorithm]]).0 == CONFIGURE_ACK
  {
    var o := [OPT_AUTH_PROTO, 5, 0xC2, 0x23, algorithm];
    assert JudgeOption(o).Ack?;
    AckedAll(JudgeOption, [o]);
  }
}
