/**
 Configuration option lists and the answer to a Configure-Request (sections 5.2
 to 5.4 of RFC 1661), for any rule that judges single options.
 */
module ConfigOptions {
  import opened Bytes
  import opened Ppp

  predicate WellFormed(o: bytes) { 2 <= |o| && o[1] == |o| }

  predicate AllWellFormed(os: seq<bytes>) {
    forall i :: 0 <= i < |os| ==> WellFormed(os[i])
  }

  /** The options of a list, up to the first malformed one. */
  function ParseOptions(b: bytes): (os: seq<bytes>)
    ensures AllWellFormed(os)
  {
    if |b| < 2 then [] else
    var len: int := b[1];
    if len < 2 || len > |b| then [] else [b[..len]] + ParseOptions(b[len..])
  }

  /** One turn of a loop over the options at an offset. */
  lemma ParseStep(b: bytes, offset: nat)
    requires offset <= |b|
    ensures offset + 2 > |b| ==> ParseOptions(b[offset..]) == []
    ensures offset + 2 <= |b| ==>
      var len: int := b[offset + 1];
      if len < 2 || offset + len > |b| then ParseOptions(b[offset..]) == [] else
      ParseOptions(b[offset..]) == [b[offset..offset + len]] + ParseOptions(b[offset + len..])
  {
    if offset + 2 <= |b| {
      var len: int := b[offset + 1];
      assert b[offset..][1] == len;
      if 2 <= len && offset + len <= |b| {
        assert b[offset..][..len] == b[offset..offset + len];
        assert b[offset..][len..] == b[offset + len..];
      }
    }
  }

  lemma {:induction false} ParseUndoesConcat(os: seq<bytes>)
    requires AllWellFormed(os)
    ensures ParseOptions(Concat(os)) == os
  {
    if os != [] {
      var b := Concat(os);
      ParseUndoesConcat(os[1..]);
      assert WellFormed(os[0]) && b[1] == os[0][1];
      assert b[..|os[0]|] == os[0] && b[|os[0]|..] == Concat(os[1..]);
    }
  }

  /** What is read is a prefix of the bytes, and what follows starts with no well-formed option. */
  lemma {:induction false} ParsedIsPrefix(b: bytes)
    ensures var read := Concat(ParseOptions(b)); read <= b && ParseOptions(b[|read|..]) == []
  {
    if |b| >= 2 && 2 <= b[1] <= |b| {
      var len: int := b[1];
      ParsedIsPrefix(b[len..]);
      var rest := Concat(ParseOptions(b[len..]));
      assert b == b[..len] + b[len..];
      assert ([b[..len]] + ParseOptions(b[len..]))[1..] == ParseOptions(b[len..]);
      assert b[len..][|rest|..] == b[len + |rest|..];
    } else {
      assert b[0..] == b;
    }
  }

  // Judging.

  datatype Verdict = Ack | Nak(suggestion: bytes) | Reject

  type Judge = bytes -> Verdict

  function Acked(judge: Judge, os: seq<bytes>): bytes {
    if os == [] then [] else (if judge(os[0]).Ack? then os[0] else []) + Acked(judge, os[1..])
  }

  function Naked(judge: Judge, os: seq<bytes>): bytes {
    if os == [] then [] else (if judge(os[0]).Nak? then judge(os[0]).suggestion else []) + Naked(judge, os[1..])
  }

  function Rejected(judge: Judge, os: seq<bytes>): bytes {
    if os == [] then [] else (if judge(os[0]).Reject? then os[0] else []) + Rejected(judge, os[1..])
  }

  /** A rejection outweighs a suggestion, which outweighs agreement. */
  function Answer(judge: Judge, os: seq<bytes>): (byte, bytes) {
    if Rejected(judge, os) != [] then (CONFIGURE_REJECT, Rejected(judge, os)) else
    if Naked(judge, os) != [] then (CONFIGURE_NAK, Naked(judge, os)) else (CONFIGURE_ACK, Acked(judge, os))
  }

  ghost predicate AllAck(judge: Judge, os: seq<bytes>) {
    forall i :: 0 <= i < |os| ==> judge(os[i]).Ack?
  }

  ghost predicate NoReject(judge: Judge, os: seq<bytes>) {
    forall i :: 0 <= i < |os| ==> !judge(os[i]).Reject?
  }

  /** Suggestions are options of the type objected to. */
  ghost predicate Sound(judge: Judge) {
    forall o :: judge(o).Nak? ==> |o| > 0 && WellFormed(judge(o).suggestion) && judge(o).suggestion[0] == o[0]
  }

  lemma {:induction false} AckedAll(judge: Judge, os: seq<bytes>)
    requires AllAck(judge, os)
    ensures Acked(judge, os) == Concat(os) && Naked(judge, os) == [] && Rejected(judge, os) == []
  {
    if os != [] {
      AckedAll(judge, os[1..]);
    }
  }

  lemma {:induction false} RejectedExactly(judge: Judge, os: seq<bytes>)
    requires AllWellFormed(os)
    ensures Rejected(judge, os) == [] <==> NoReject(judge, os)
  {
    if os != [] {
      RejectedExactly(judge, os[1..]);
      assert WellFormed(os[0]);
      assert NoReject(judge, os[1..]) && !judge(os[0]).Reject? ==> NoReject(judge, os) by {
        assert os == [os[0]] + os[1..];
      }
    }
  }

  lemma {:induction false} NakedExactly(judge: Judge, os: seq<bytes>)
    requires Sound(judge) && NoReject(judge, os)
    ensures Naked(judge, os) == [] <==> AllAck(judge, os)
  {
    if os != [] {
      NakedExactly(judge, os[1..]);
      assert judge(os[0]).Nak? ==> WellFormed(judge(os[0]).suggestion);
      assert AllAck(judge, os[1..]) && judge(os[0]).Ack? ==> AllAck(judge, os) by {
        assert os == [os[0]] + os[1..];
      }
    }
  }

  /**
   A request is acknowledged if and only if each of its options is acceptable,
   and then the acknowledgment is the options read, in order.
   */
  lemma AckExactly(judge: Judge, b: bytes)
    requires Sound(judge)
    ensures var os := ParseOptions(b);
      && (Answer(judge, os).0 == CONFIGURE_ACK <==> AllAck(judge, os))
      && (Answer(judge, os).0 == CONFIGURE_ACK ==> Answer(judge, os).1 == Concat(os) && Concat(os) <= b)
  {
    var os := ParseOptions(b);
    RejectedExactly(judge, os);
    ParsedIsPrefix(b);
    if NoReject(judge, os) {
      NakedExactly(judge, os);
    }
    if AllAck(judge, os) {
      AckedAll(judge, os);
    }
  }

  /** The three accumulators of a loop over the options, and what is still to come. */
  ghost predicate Accumulated(judge: Judge, os: seq<bytes>, acks: bytes, naks: bytes, rejs: bytes, rest: seq<bytes>) {
    && acks + Acked(judge, rest) == Acked(judge, os)
    && naks + Naked(judge, rest) == Naked(judge, os)
    && rejs + Rejected(judge, rest) == Rejected(judge, os)
  }

  lemma AccumulatedEnds(judge: Judge, os: seq<bytes>, acks: bytes, naks: bytes, rejs: bytes)
    ensures Accumulated(judge, os, [], [], [], os)
    ensures Accumulated(judge, os, acks, naks, rejs, []) <==>
      acks == Acked(judge, os) && naks == Naked(judge, os) && rejs == Rejected(judge, os)
  {
    assert [] + Acked(judge, os) == Acked(judge, os);
    assert [] + Naked(judge, os) == Naked(judge, os) && [] + Rejected(judge, os) == Rejected(judge, os);
  }

  lemma AccumulatedStep(judge: Judge, os: seq<bytes>, acks: bytes, naks: bytes, rejs: bytes, o: bytes, rest: seq<bytes>)
    requires Accumulated(judge, os, acks, naks, rejs, [o] + rest)
    ensures Accumulated(judge, os,
      if judge(o).Ack? then acks + o else acks,
      if judge(o).Nak? then naks + judge(o).suggestion else naks,
      if judge(o).Reject? then rejs + o else rejs, rest)
  {
    AnswerStep(judge, o, rest);
    var n := if judge(o).Nak? then judge(o).suggestion else [];
    hide Acked, Naked, Rejected;
    Associative(acks, if judge(o).Ack? then o else [], Acked(judge, rest));
    Associative(naks, n, Naked(judge, rest));
    Associative(rejs, if judge(o).Reject? then o else [], Rejected(judge, rest));
    assert acks + [] == acks && naks + [] == naks && rejs + [] == rejs;
  }

  /** Where no suggestion is empty an acknowledged request holds acceptable options only. */
  lemma {:induction false} NothingObjected(judge: Judge, os: seq<bytes>)
    requires AllWellFormed(os) && forall o :: judge(o).Nak? ==> judge(o).suggestion != []
    requires Answer(judge, os).0 == CONFIGURE_ACK
    ensures AllAck(judge, os)
  {
    if os != [] {
      assert WellFormed(os[0]);
      NothingObjected(judge, os[1..]);
      assert os == [os[0]] + os[1..];
    }
  }

  lemma AnswerStep(judge: Judge, o: bytes, rest: seq<bytes>)
    ensures Acked(judge, [o] + rest) == (if judge(o).Ack? then o else []) + Acked(judge, rest)
    ensures Naked(judge, [o] + rest) == (if judge(o).Nak? then judge(o).suggestion else []) + Naked(judge, rest)
    ensures Rejected(judge, [o] + rest) == (if judge(o).Reject? then o else []) + Rejected(judge, rest)
  {
    assert ([o] + rest)[1..] == rest;
  }

  /** No answer is longer than the options, but for suggestions longer than what they replace. */
  lemma {:induction false} AnswerBounded(judge: Judge, os: seq<bytes>)
    requires forall o :: o in os && judge(o).Nak? ==> 4 * |judge(o).suggestion| <= 5 * |o|
    ensures |Acked(judge, os)| <= |Concat(os)| && |Rejected(judge, os)| <= |Concat(os)|
    ensures 4 * |Naked(judge, os)| <= 5 * |Concat(os)|
  {
    if os != [] {
      assert os[0] in os && forall o :: o in os[1..] ==> o in os;
      AnswerBounded(judge, os[1..]);
    }
  }

  lemma {:induction false} NakedNoLonger(judge: Judge, os: seq<bytes>)
    requires forall o :: o in os && judge(o).Nak? ==> |judge(o).suggestion| <= |o|
    ensures |Naked(judge, os)| <= |Concat(os)|
  {
    if os != [] {
      assert os[0] in os && forall o :: o in os[1..] ==> o in os;
      NakedNoLonger(judge, os[1..]);
    }
  }

  // A peer that deletes what is rejected and takes over what is suggested.

  function RejectedOptions(judge: Judge, os: seq<bytes>): seq<bytes> {
    if os == [] then [] else (if judge(os[0]).Reject? then [os[0]] else []) + RejectedOptions(judge, os[1..])
  }

  function Suggestions(judge: Judge, os: seq<bytes>): seq<bytes> {
    if os == [] then [] else
    (if judge(os[0]).Nak? then [judge(os[0]).suggestion] else []) + Suggestions(judge, os[1..])
  }

  function Without(os: seq<bytes>, gone: seq<bytes>): seq<bytes> {
    if os == [] then [] else (if os[0] in gone then [] else [os[0]]) + Without(os[1..], gone)
  }

  function FirstOfType(os: seq<bytes>, t: byte): Option<bytes> {
    if os == [] then None else
    if |os[0]| > 0 && os[0][0] == t then Some(os[0]) else FirstOfType(os[1..], t)
  }

  function Substituted(os: seq<bytes>, suggested: seq<bytes>): seq<bytes> {
    seq(|os|, i requires 0 <= i < |os| =>
      if |os[i]| > 0 && FirstOfType(suggested, os[i][0]).Some? then FirstOfType(suggested, os[i][0]).value else os[i])
  }

  function NextRequest(os: seq<bytes>, answer: (byte, bytes)): seq<bytes> {
    if answer.0 == CONFIGURE_REJECT then Without(os, ParseOptions(answer.1)) else
    if answer.0 == CONFIGURE_NAK then Substituted(os, ParseOptions(answer.1)) else os
  }

  function Round(judge: Judge, os: seq<bytes>): seq<bytes> {
    NextRequest(os, Answer(judge, ParseOptions(Concat(os))))
  }

  lemma {:induction false} RejectedReadBack(judge: Judge, os: seq<bytes>)
    requires AllWellFormed(os)
    ensures ParseOptions(Rejected(judge, os)) == RejectedOptions(judge, os)
    ensures forall o :: o in os && judge(o).Reject? <==> o in RejectedOptions(judge, os)
  {
    if os != [] {
      RejectedReadBack(judge, os[1..]);
      assert WellFormed(os[0]) && os == [os[0]] + os[1..];
      if judge(os[0]).Reject? {
        var b, rest := Rejected(judge, os), Rejected(judge, os[1..]);
        assert b[1] == os[0][1] && b[..|os[0]|] == os[0] && b[|os[0]|..] == rest;
      } else {
        assert Rejected(judge, os) == Rejected(judge, os[1..]);
      }
    }
  }

  lemma {:induction false} SuggestionsReadBack(judge: Judge, os: seq<bytes>)
    requires Sound(judge)
    ensures ParseOptions(Naked(judge, os)) == Suggestions(judge, os)
    ensures forall n :: n in Suggestions(judge, os) <==> exists o :: o in os && judge(o) == Nak(n)
  {
    if os != [] {
      SuggestionsReadBack(judge, os[1..]);
      assert os == [os[0]] + os[1..];
      if judge(os[0]).Nak? {
        var n := judge(os[0]).suggestion;
        var b, rest := Naked(judge, os), Naked(judge, os[1..]);
        assert WellFormed(n) && b[1] == n[1] && b[..|n|] == n && b[|n|..] == rest;
        assert judge(os[0]) == Nak(n);
      } else {
        assert Naked(judge, os) == Naked(judge, os[1..]);
      }
    }
  }

  lemma {:induction false} WithoutHolds(os: seq<bytes>, gone: seq<bytes>)
    ensures forall o :: o in Without(os, gone) <==> o in os && o !in gone
  {
    if os != [] {
      WithoutHolds(os[1..], gone);
      assert os == [os[0]] + os[1..];
    }
  }

  lemma {:induction false} FirstOfTypeHolds(os: seq<bytes>, t: byte)
    ensures FirstOfType(os, t).Some? <==> exists o :: o in os && |o| > 0 && o[0] == t
    ensures FirstOfType(os, t).Some? ==>
      var o := FirstOfType(os, t).value; o in os && |o| > 0 && o[0] == t
  {
    if os != [] {
      FirstOfTypeHolds(os[1..], t);
      assert os == [os[0]] + os[1..];
    }
  }

  /** After a Reject, the next request holds nothing to reject. */
  lemma AfterReject(judge: Judge, os: seq<bytes>)
    requires AllWellFormed(os) && !NoReject(judge, os)
    ensures AllWellFormed(Round(judge, os)) && NoReject(judge, Round(judge, os))
    ensures forall o :: o in Round(judge, os) ==> o in os
  {
    ParseUndoesConcat(os);
    RejectedExactly(judge, os);
    RejectedReadBack(judge, os);
    var next := Round(judge, os);
    WithoutHolds(os, RejectedOptions(judge, os));
    forall i | 0 <= i < |next| ensures WellFormed(next[i]) && !judge(next[i]).Reject? {
      assert next[i] in next;
    }
  }

  /** The rule accepts its own suggestions. */
  ghost predicate Consistent(judge: Judge) {
    forall o :: Settles(judge, o)
  }

  predicate Settles(judge: Judge, o: bytes) {
    judge(o).Nak? ==> judge(judge(o).suggestion).Ack?
  }

  /** So far as the options of a request go. */
  ghost predicate AllSettle(judge: Judge, os: seq<bytes>) {
    forall o :: o in os ==> Settles(judge, o)
  }

  /** After a Nak, the next request holds only acceptable options. */
  lemma AfterNak(judge: Judge, os: seq<bytes>)
    requires Sound(judge) && AllSettle(judge, os) && AllWellFormed(os) && NoReject(judge, os) && !AllAck(judge, os)
    ensures AllWellFormed(Round(judge, os)) && AllAck(judge, Round(judge, os))
  {
    ParseUndoesConcat(os);
    RejectedExactly(judge, os);
    NakedExactly(judge, os);
    SuggestionsReadBack(judge, os);
    var suggested := Suggestions(judge, os);
    var next := Round(judge, os);
    assert next == Substituted(os, suggested);
    forall i | 0 <= i < |next| ensures WellFormed(next[i]) && judge(next[i]).Ack? {
      SubstituteAcceptable(judge, os, suggested, i);
    }
  }

  lemma SubstituteAcceptable(judge: Judge, os: seq<bytes>, suggested: seq<bytes>, i: nat)
    requires Sound(judge) && AllSettle(judge, os) && AllWellFormed(os) && NoReject(judge, os) && i < |os|
    requires forall n :: n in suggested <==> exists o :: o in os && judge(o) == Nak(n)
    ensures WellFormed(Substituted(os, suggested)[i]) && judge(Substituted(os, suggested)[i]).Ack?
  {
    var o := os[i];
    assert WellFormed(o);
    FirstOfTypeHolds(suggested, o[0]);
    if judge(o).Nak? {
      assert o in os && judge(o) == Nak(judge(o).suggestion);
      assert judge(o).suggestion in suggested;
    }
    if FirstOfType(suggested, o[0]).Some? {
      var n := FirstOfType(suggested, o[0]).value;
      var q :| q in os && judge(q) == Nak(n);
      assert Settles(judge, q);
    }
  }

  /** Negotiation ends: the third request at the latest is acknowledged. */
  lemma ThirdRequestAcked(judge: Judge, os: seq<bytes>)
    requires Sound(judge) && AllSettle(judge, os) && AllWellFormed(os)
    ensures var third := Round(judge, Round(judge, os));
      Answer(judge, ParseOptions(Concat(third))) == (CONFIGURE_ACK, Concat(third))
  {
    var second := RoundImproves(judge, os);
    var third := RoundImproves(judge, second);
    ParseUndoesConcat(third);
    AckedAll(judge, third);
  }

  // A suggestion that is itself objected to.

  function Rounds(judge: Judge, os: seq<bytes>, n: nat): seq<bytes> {
    if n == 0 then os else Round(judge, Rounds(judge, os, n - 1))
  }

  ghost predicate Objects(judge: Judge, os: seq<bytes>, t: byte) {
    exists o :: o in os && judge(o).Nak? && |o| > 0 && o[0] == t
  }

  predicate Insists(judge: Judge, t: byte, o: bytes) {
    judge(o).Nak? && |o| > 0 && o[0] == t ==> judge(judge(o).suggestion).Nak?
  }

  /** Where the suggestions for a type are objected to as well, no request is ever acknowledged. */
  lemma {:induction false} NeverAcked(judge: Judge, os: seq<bytes>, t: byte, n: nat)
    requires Sound(judge) && AllWellFormed(os) && Objects(judge, os, t)
    requires forall o :: Insists(judge, t, o)
    ensures var rs := Rounds(judge, os, n);
      AllWellFormed(rs) && Objects(judge, rs, t) && Answer(judge, ParseOptions(Concat(rs))).0 != CONFIGURE_ACK
  {
    var rs := os;
    if n > 0 {
      NeverAcked(judge, os, t, n - 1);
      rs := StillObjects(judge, Rounds(judge, os, n - 1), t);
    }
    hide *;
    NotAcked(judge, rs, t);
  }

  lemma NotAcked(judge: Judge, os: seq<bytes>, t: byte)
    requires Sound(judge) && AllWellFormed(os) && Objects(judge, os, t)
    ensures Answer(judge, ParseOptions(Concat(os))).0 != CONFIGURE_ACK
  {
    hide Answer, ParseOptions, Concat;
    var o :| o in os && judge(o).Nak?;
    ParseUndoesConcat(os);
    AckExactly(judge, Concat(os));
    var i :| 0 <= i < |os| && os[i] == o;
    assert !AllAck(judge, os);
  }

  lemma StillObjects(judge: Judge, os: seq<bytes>, t: byte) returns (next: seq<bytes>)
    requires Sound(judge) && AllWellFormed(os) && Objects(judge, os, t)
    requires forall o :: Insists(judge, t, o)
    ensures next == Round(judge, os) && AllWellFormed(next) && Objects(judge, next, t)
  {
    next := Round(judge, os);
    var o :| o in os && judge(o).Nak? && |o| > 0 && o[0] == t;
    if !NoReject(judge, os) {
      ParseUndoesConcat(os);
      RejectedExactly(judge, os);
      RejectedReadBack(judge, os);
      WithoutHolds(os, RejectedOptions(judge, os));
      AfterReject(judge, os);
      assert o in next;
    } else {
      ParseUndoesConcat(os);
      RejectedExactly(judge, os);
      var i :| 0 <= i < |os| && os[i] == o;
      assert !AllAck(judge, os);
      NakedExactly(judge, os);
      SuggestionsReadBack(judge, os);
      var suggested := Suggestions(judge, os);
      assert next == Substituted(os, suggested);
      assert judge(o) == Nak(judge(o).suggestion) && judge(o).suggestion in suggested;
      FirstOfTypeHolds(suggested, t);
      var n := FirstOfType(suggested, t).value;
      var q :| q in os && judge(q) == Nak(n);
      assert Insists(judge, t, q);
      assert next[i] == n && n in next;
      forall j | 0 <= j < |next| ensures WellFormed(next[j]) {
        FirstOfTypeHolds(suggested, os[j][0]);
      }
    }
  }

  lemma RoundImproves(judge: Judge, os: seq<bytes>) returns (next: seq<bytes>)
    requires Sound(judge) && AllSettle(judge, os) && AllWellFormed(os)
    ensures next == Round(judge, os) && AllWellFormed(next) && NoReject(judge, next) && AllSettle(judge, next)
    ensures NoReject(judge, os) ==> AllAck(judge, next)
  {
    next := Round(judge, os);
    if !NoReject(judge, os) {
      AfterReject(judge, os);
    } else if !AllAck(judge, os) {
      AfterNak(judge, os);
    } else {
      ParseUndoesConcat(os);
      AckedAll(judge, os);
    }
  }
}
