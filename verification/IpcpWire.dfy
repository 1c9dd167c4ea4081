/** IPCP negotiation on the wire: no answer and no next request is longer than the request it follows. */
module IpcpWire {
  import opened Bytes
  import opened Ppp
  import opened ConfigOptions
  import opened ConfigWire
  import opened Ipcp

  lemma HandlerAnswers(h: State, id: byte, os: seq<bytes>)
    requires |Concat(os)| <= 0xFFFB
    ensures h.Handle(RequestPacket(id, os)).0 == AnswerPacket(Rule(h.config), id, os)
  {
    RequestIsRead(id, os);
    hide RequestPacket, Received, Response, Answer, ParseOptions;
  }

  /** Some option that can be read asks for an address that is configured as 0.0.0.0. */
  predicate NamesZero(c: Config, os: seq<bytes>) {
    exists o :: o in os && AsksForZero(c, o)
  }

  predicate AsksForZero(c: Config, o: bytes) {
    |o| >= 6 && c.ValueOf(o[0]) == Some(ZERO_IP)
  }

  /**
   Every peer that takes over our answers is acknowledged by its third request, however
   long its first one is, if and only if that does not name an address configured as
   0.0.0.0.
   */
  lemma IpcpAckedExactly(c: Config, ids: (byte, byte, byte), os: seq<bytes>)
    requires c.Valid() && AllWellFormed(os) && |Concat(os)| <= 0xFFFB
    ensures ThirdAcked(Rule(c), ids, os) <==> !NamesZero(c, os)
  {
    var judge := Rule(c);
    hide Rule, JudgeOption, Round, WireRound, AnswerPacket, Concat, ParseOptions, Config.Valid;
    RuleIsSound(c);
    RoundOnWire(c, ids.0, os);
    var second := Round(judge, os);
    RoundOnWire(c, ids.1, second);
    var third := Round(judge, second);
    if NamesZero(c, os) {
      var o :| o in os && AsksForZero(c, o);
      ZeroNeverAcked(c, o[0], os, 2);
      TwoRounds(judge, os);
      OtherAnswer(c, ids.2, third);
    } else {
      SettlesWithoutZero(c, os);
      ThirdRequestAcked(judge, os);
      AnswerPacketIs(judge, ids.2, third);
    }
  }

  /** The same options as asked for, in order, each with the configured address. */
  predicate Granted(c: Config, os: seq<bytes>, granted: seq<bytes>) {
    |granted| == |os| && forall i :: 0 <= i < |os| ==>
      |os[i]| >= 1 && |granted[i]| >= 6 && granted[i][0] == os[i][0] && granted[i][2..6] == ValueFor(c, os[i][0])
  }

  /**
   A peer that asks for addresses gets them: with addresses configured, a request of known
   options only is never refused, and what is acknowledged, on its second request at the
   latest, are its own options in order with the configured addresses.
   */
  lemma AddressesGranted(c: Config, ids: (byte, byte), os: seq<bytes>)
    requires c.Valid() && AllNonZero(c) && AllWellFormed(os) && |Concat(os)| <= 0xFFFB
    requires forall o :: o in os ==> Asks(o)
    ensures var second := WireRound(Rule(c), ids.0, os);
      && second.Some? && Granted(c, os, second.value) && |Concat(second.value)| <= 0xFFFB
      && AnswerPacket(Rule(c), ids.1, second.value) == Response(2, ids.1, Concat(second.value))
  {
    var judge := Rule(c);
    RoundOnWire(c, ids.0, os);
    RuleIsSound(c);
    AllAsk(c, os);
    assert !NamesZero(c, os);
    SettlesWithoutZero(c, os);
    var next := RoundImproves(judge, os);
    NextGranted(c, os);
    ParseUndoesConcat(next);
    AckedAll(judge, next);
    hide Rule, Concat, ParseOptions, WireRound, Round, Granted, AllAck, Response, AnswerPacket;
    AnswerPacketIs(judge, ids.1, next);
  }

  lemma AllAsk(c: Config, os: seq<bytes>)
    requires c.Valid() && forall o :: o in os ==> Asks(o)
    ensures NoReject(Rule(c), os)
  {
    forall i | 0 <= i < |os| ensures !Rule(c)(os[i]).Reject? {
      assert Asks(os[i]);
      OptionJudged(c, os[i]);
    }
  }

  /** All options of a type are answered alike, so the first suggestion for the type is right for each. */
  lemma NextGranted(c: Config, os: seq<bytes>)
    requires c.Valid() && AllWellFormed(os) && forall o :: o in os ==> Asks(o)
    ensures Granted(c, os, Round(Rule(c), os))
  {
    var judge := Rule(c);
    RuleIsSound(c);
    AllAsk(c, os);
    ParseUndoesConcat(os);
    RejectedExactly(judge, os);
    var next := Round(judge, os);
    hide Concat, ParseOptions;
    if !AllAck(judge, os) {
      NakedExactly(judge, os);
      SuggestionsReadBack(judge, os);
      SubstitutedGranted(c, os);
    } else {
      AckedAll(judge, os);
      forall i | 0 <= i < |os| ensures os[i][2..6] == ValueFor(c, os[i][0]) {
        assert os[i] in os && judge(os[i]).Ack?;
        OptionJudged(c, os[i]);
      }
    }
  }

  lemma SubstitutedGranted(c: Config, os: seq<bytes>)
    requires c.Valid() && AllWellFormed(os) && forall o :: o in os ==> Asks(o)
    ensures Granted(c, os, Substituted(os, Suggestions(Rule(c), os)))
  {
    var judge, ns := Rule(c), Suggestions(Rule(c), os);
    RuleIsSound(c);
    SuggestionsReadBack(judge, os);
    var next := Substituted(os, ns);
    hide Rule, Suggestions, FirstOfType, ValueFor, Config.Valid;
    forall i | 0 <= i < |os|
      ensures |next[i]| >= 6 && next[i][0] == os[i][0] && next[i][2..6] == ValueFor(c, os[i][0])
    {
      assert os[i] in os && Asks(os[i]);
      OneGranted(c, os, ns, os[i]);
    }
  }

  lemma OneGranted(c: Config, os: seq<bytes>, ns: seq<bytes>, o: bytes)
    requires c.Valid() && o in os && Asks(o) && forall q :: q in os ==> Asks(q)
    requires forall n :: n in ns <==> exists q :: q in os && Rule(c)(q) == Nak(n)
    ensures var x := if FirstOfType(ns, o[0]).Some? then FirstOfType(ns, o[0]).value else o;
      |x| >= 6 && x[0] == o[0] && x[2..6] == ValueFor(c, o[0])
  {
    FirstOfTypeHolds(ns, o[0]);
    if FirstOfType(ns, o[0]).Some? {
      var n := FirstOfType(ns, o[0]).value;
      var q :| q in os && Rule(c)(q) == Nak(n);
      Suggests(c, q);
    } else {
      Suggests(c, o);
    }
  }

  lemma Suggests(c: Config, q: bytes)
    requires c.Valid() && Asks(q)
    ensures Rule(c)(q).Nak? ==>
      var n := Rule(c)(q).suggestion; |n| >= 6 && n[0] == q[0] && n[2..6] == ValueFor(c, q[0])
    ensures !Rule(c)(q).Nak? ==> Rule(c)(q).Ack? && q[2..6] == ValueFor(c, q[0])
    ensures Rule(c)(q).Nak? ==> Rule(c)(q) == Nak(Rule(c)(q).suggestion)
  {
    OptionJudged(c, q);
    var n := [q[0], 6] + ValueFor(c, q[0]);
    assert n[2..6] == ValueFor(c, q[0]);
  }

  lemma TwoRounds(judge: Judge, os: seq<bytes>)
    ensures Rounds(judge, os, 2) == Round(judge, Round(judge, os))
  {
    assert Rounds(judge, os, 1) == Round(judge, Rounds(judge, os, 0));
  }

  lemma AnswerPacketIs(judge: Judge, id: byte, os: seq<bytes>)
    ensures var (code, body) := Answer(judge, ParseOptions(Concat(os)));
      AnswerPacket(judge, id, os) == Response(code, id, body)
  {
  }

  lemma OtherAnswer(c: Config, id: byte, os: seq<bytes>)
    requires c.Valid() && |Concat(os)| <= 0xFFFB
    requires Answer(Rule(c), ParseOptions(Concat(os))).0 != CONFIGURE_ACK
    ensures AnswerPacket(Rule(c), id, os) != Response(CONFIGURE_ACK, id, Concat(os))
  {
    AnswerLength(c, Concat(os));
    var (code, body) := Answer(Rule(c), ParseOptions(Concat(os)));
    hide Answer, ParseOptions, Concat;
    StartsWithCode(code, id, body);
    StartsWithCode(CONFIGURE_ACK, id, Concat(os));
  }

  lemma StartsWithCode(code: byte, id: byte, data: bytes)
    requires |data| <= 0xFFFB
    ensures Response(code, id, data).Send? && |Response(code, id, data).packet| > 0
    ensures Response(code, id, data).packet[0] == code
  {
  }

  lemma SettlesWithoutZero(c: Config, os: seq<bytes>)
    requires c.Valid() && !NamesZero(c, os)
    ensures AllSettle(Rule(c), os)
  {
    forall o | o in os ensures Settles(Rule(c), o) {
      if JudgeOption(c, o).Nak? {
        assert !AsksForZero(c, o);
        SuggestionJudged(c, o);
      }
    }
  }

  // One exchange.

  lemma RoundOnWire(c: Config, id: byte, os: seq<bytes>)
    requires c.Valid() && AllWellFormed(os) && |Concat(os)| <= 0xFFFB
    ensures var next := Round(Rule(c), os);
      WireRound(Rule(c), id, os) == Some(next) && AllWellFormed(next) && |Concat(next)| <= |Concat(os)|
  {
    hide *;
    ParseUndoesConcat(os);
    AnswerLength(c, Concat(os));
    WireRoundIs(Rule(c), id, os);
    NextNoLonger(c, os);
  }

  lemma NextNoLonger(c: Config, os: seq<bytes>)
    requires c.Valid() && AllWellFormed(os)
    ensures var next := Round(Rule(c), os); AllWellFormed(next) && |Concat(next)| <= |Concat(os)|
  {
    var judge := Rule(c);
    RuleIsSound(c);
    ParseUndoesConcat(os);
    RejectedExactly(judge, os);
    hide Rule, JudgeOption, Concat, ParseOptions, Config.Valid;
    if !NoReject(judge, os) {
      AfterReject(judge, os);
      WithoutShorter(os, ParseOptions(Rejected(judge, os)));
    } else if !AllAck(judge, os) {
      NakedExactly(judge, os);
      SuggestionsReadBack(judge, os);
      SubstitutedNoLonger(c, os);
      NoLonger(os, Round(judge, os));
    } else {
      AckedAll(judge, os);
    }
  }

  predicate NowhereLonger(os: seq<bytes>, next: seq<bytes>) {
    |next| == |os| && forall i :: 0 <= i < |os| ==> |next[i]| <= |os[i]|
  }

  lemma {:induction false} NoLonger(os: seq<bytes>, next: seq<bytes>)
    requires NowhereLonger(os, next)
    ensures |Concat(next)| <= |Concat(os)|
  {
    if os != [] {
      NoLonger(os[1..], next[1..]);
    }
  }

  lemma SubstitutedNoLonger(c: Config, os: seq<bytes>)
    requires c.Valid() && AllWellFormed(os) && NoReject(Rule(c), os)
    ensures var next := Substituted(os, Suggestions(Rule(c), os)); NowhereLonger(os, next) && AllWellFormed(next)
  {
    var judge, ns := Rule(c), Suggestions(Rule(c), os);
    var next := Substituted(os, ns);
    RuleIsSound(c);
    SuggestionsReadBack(judge, os);
    forall i | 0 <= i < |os| ensures |next[i]| <= |os[i]| && WellFormed(next[i]) {
      assert WellFormed(os[i]) && !judge(os[i]).Reject?;
      FirstOfTypeHolds(ns, os[i][0]);
      if FirstOfType(ns, os[i][0]).Some? {
        var n := FirstOfType(ns, os[i][0]).value;
        var o :| o in os && judge(o) == Nak(n);
        assert |n| == 6;
      }
    }
  }
}
