/** Two handshake drivers run against each other, as a client and a server run them
    (src/tls/handshake/core/fullhs/fullhs.c:199-294): both take the Certificate and the
    CertificateVerify into their transcripts, each sends the other its Finished, and each
    sets its policy, derives and confirms when it likes. */
module HandshakeExchange {
  import opened HandshakeCrypto
  import opened HsOrder
  import opened KeySets
  import opened FullHandshake
  import opened HandshakePair

  datatype Ends = Ends(a: Hs, b: Hs)

  datatype Event =
    | Certificate(msg: Bytes)
    | CertVerify(msg: Bytes, scheme: nat)
    | FinishedFromA
    | FinishedFromB
    | AtA(call: Call)
    | AtB(call: Call)

  /** What an end may do without the other. */
  predicate Local(call: Call)
  {
    call.SetPolicy? || call.SetStore? || call.AdvanceApplication? || call.HandshakeDone?
  }

  ghost predicate BothShaped(p: Ends)
  {
    Shaped(p.a) && Shaped(p.b)
  }

  /** The calls an event is at either end. */
  function CallsA(c: Crypto, p: Ends, e: Event): seq<Call>
  {
    match e
    case Certificate(msg) => [RecvCert(msg)]
    case CertVerify(msg, scheme) => [RecvCertVerify(msg, scheme)]
    case FinishedFromA => [SendFinished(FINISHED_LEN)]
    case FinishedFromB => [RecvFinished(OwnFinished(c, p.b))]
    case AtA(call) => [call]
    case AtB(_) => []
  }

  function CallsB(c: Crypto, p: Ends, e: Event): seq<Call>
  {
    match e
    case Certificate(msg) => [RecvCert(msg)]
    case CertVerify(msg, scheme) => [RecvCertVerify(msg, scheme)]
    case FinishedFromA => [RecvFinished(OwnFinished(c, p.a))]
    case FinishedFromB => [SendFinished(FINISHED_LEN)]
    case AtA(_) => []
    case AtB(call) => [call]
  }

  function Next(c: Crypto, p: Ends, e: Event): (p': Ends)
    requires BothShaped(p)
    ensures BothShaped(p')
  {
    Ends(Ran(c, p.a, CallsA(c, p, e)), Ran(c, p.b, CallsB(c, p, e)))
  }

  /** An end after all of these calls. */
  function Ran(c: Crypto, h: Hs, calls: seq<Call>): (h': Hs)
    requires Shaped(h)
    ensures Shaped(h')
  {
    After(c, h, calls, |calls|)
  }

  function Exchanged(c: Crypto, p: Ends, events: seq<Event>): (p': Ends)
    requires BothShaped(p)
    ensures BothShaped(p')
  {
    if events == [] then p else Next(c, Exchanged(c, p, events[..|events| - 1]), events[|events| - 1])
  }

  /** The ends agree on an event: they accept a Certificate both or neither, a Finished finds
      the other end waiting for it, and an end alone does only what is its own. */
  predicate Agreed(c: Crypto, p: Ends, e: Event)
  {
    match e
    case Certificate(msg) => ChainAccepted(c, p.a, msg) == ChainAccepted(c, p.b, msg)
    case CertVerify(_, _) => true
    case FinishedFromA => StepLegal(p.b.order, FIN_MSG)
    case FinishedFromB => StepLegal(p.a.order, FIN_MSG)
    case AtA(call) => Local(call)
    case AtB(call) => Local(call)
  }

  ghost predicate AllAgreed(c: Crypto, p: Ends, events: seq<Event>)
    requires BothShaped(p)
  {
    events == []
    || (AllAgreed(c, p, events[..|events| - 1])
        && Agreed(c, Exchanged(c, p, events[..|events| - 1]), events[|events| - 1]))
  }

  /** The same messages and certificates at both ends, in step until both wait for a Finished. */
  ghost predicate Twin(p: Ends)
  {
    Agree(p.a, p.b) && p.a.certs == p.b.certs
    && (p.a.order == p.b.order || (p.a.order.recvCount >= 5 && p.b.order.recvCount >= 5))
  }

  // ---- one event ----

  lemma {:induction false} RanOne(c: Crypto, h: Hs, call: Call)
    requires Shaped(h)
    ensures Ran(c, h, [call]) == FullHandshake.Step(c, h, call) && Ran(c, h, []) == h
  {
    hide FullHandshake.Step;
    assert After(c, h, [call], 0) == h;
  }

  lemma {:induction false} CertificateTwin(c: Crypto, p: Ends, msg: Bytes)
    requires BothShaped(p) && Twin(p) && ChainAccepted(c, p.a, msg) == ChainAccepted(c, p.b, msg)
    ensures Twin(Ends(CertStep(c, p.a, msg), CertStep(c, p.b, msg)))
  {
    hide ChainAccepted, CertChain;
  }

  lemma {:induction false} CertVerifyTwin(c: Crypto, p: Ends, msg: Bytes, scheme: nat)
    requires BothShaped(p) && Twin(p)
    ensures Twin(Ends(CertVerifyStep(c, p.a, msg, scheme), CertVerifyStep(c, p.b, msg, scheme)))
  {
    hide Signature, Cut;
    assert SignatureVerifies(c, p.a, msg, scheme) == SignatureVerifies(c, p.b, msg, scheme);
  }

  /** A Finished taken in its turn came at position 5. */
  lemma {:induction false} TakesFinished(c: Crypto, h: Hs, msg: Bytes)
    requires Shaped(h) && StepLegal(h.order, FIN_MSG)
    ensures h.order.recvCount == 5
    ensures FullHandshake.Step(c, h, RecvFinished(msg)).order.recvCount >= 5
    ensures FullHandshake.Step(c, h, RecvFinished(msg)).certs == h.certs
  {
  }

  lemma {:induction false} SendKeepsCerts(c: Crypto, h: Hs)
    requires Shaped(h)
    ensures FullHandshake.Step(c, h, SendFinished(FINISHED_LEN)).certs == h.certs
  {
  }

  lemma {:induction false} FinishedTwin(c: Crypto, a: Hs, b: Hs)
    requires Sound(c) && BothShaped(Ends(a, b)) && Twin(Ends(a, b)) && StepLegal(b.order, FIN_MSG)
    ensures var a' := FullHandshake.Step(c, a, SendFinished(FINISHED_LEN));
            var b' := FullHandshake.Step(c, b, RecvFinished(OwnFinished(c, a)));
            Twin(Ends(a', b')) && Twin(Ends(b', a'))
  {
    hide FullHandshake.Step, OwnFinished;
    FinishedAgrees(c, a, b);
    TakesFinished(c, b, OwnFinished(c, a));
    SendKeepsCerts(c, a);
  }

  lemma {:induction false} LocalKeeps(c: Crypto, h: Hs, call: Call)
    requires Inv(c, h) && Local(call)
    ensures var h' := FullHandshake.Step(c, h, call);
            h'.tr == h.tr && h'.masterLen == h.masterLen && h'.certs == h.certs
            && h'.selfSecret == h.selfSecret && h'.peerSecret == h.peerSecret && h'.isServer == h.isServer
            && h'.sched.master == h.sched.master
            && (h'.order == h.order || (h.order.recvCount >= 5 && h'.order.recvCount >= 5))
  {
    hide AppKeys;
  }

  lemma {:induction false} NextTwin(c: Crypto, p: Ends, e: Event)
    requires Sound(c) && Inv(c, p.a) && Inv(c, p.b) && BothShaped(p) && Twin(p) && Agreed(c, p, e)
    ensures Twin(Next(c, p, e))
  {
    hide FullHandshake.Step, Inv, ChainAccepted, StepLegal, After, OwnFinished, CertStep, CertVerifyStep;
    EventSteps(c, p, e);
    match e
    case Certificate(msg) => CertificateTwin(c, p, msg);
    case CertVerify(msg, scheme) => CertVerifyTwin(c, p, msg, scheme);
    case FinishedFromA => FinishedTwin(c, p.a, p.b);
    case FinishedFromB => FinishedTwin(c, p.b, p.a);
    case AtA(call) => LocalKeeps(c, p.a, call);
    case AtB(call) => LocalKeeps(c, p.b, call);
  }

  /** Each end takes at most one step in an event. */
  lemma {:induction false} EventSteps(c: Crypto, p: Ends, e: Event)
    requires BothShaped(p)
    ensures var xs, ys := CallsA(c, p, e), CallsB(c, p, e);
            Next(c, p, e) == Ends(if xs == [] then p.a else FullHandshake.Step(c, p.a, xs[0]),
                                  if ys == [] then p.b else FullHandshake.Step(c, p.b, ys[0]))
    ensures e.Certificate? ==> Next(c, p, e) == Ends(CertStep(c, p.a, e.msg), CertStep(c, p.b, e.msg))
    ensures e.CertVerify? ==>
              Next(c, p, e) == Ends(CertVerifyStep(c, p.a, e.msg, e.scheme), CertVerifyStep(c, p.b, e.msg, e.scheme))
  {
    hide CertStep, CertVerifyStep, FinishedStep, ApplicationStep, DoneStep, OwnFinished, Fold;
    RanOne(c, p.a, if CallsA(c, p, e) == [] then AdvanceApplication else CallsA(c, p, e)[0]);
    RanOne(c, p.b, if CallsB(c, p, e) == [] then AdvanceApplication else CallsB(c, p, e)[0]);
    assert CallsA(c, p, e) == [] || CallsA(c, p, e) == [CallsA(c, p, e)[0]];
    assert CallsB(c, p, e) == [] || CallsB(c, p, e) == [CallsB(c, p, e)[0]];
  }

  // ---- whole exchanges ----

  lemma {:induction false} ExchangeTwin(c: Crypto, p: Ends, events: seq<Event>)
    requires Sound(c) && Inv(c, p.a) && Inv(c, p.b) && BothShaped(p) && Twin(p) && AllAgreed(c, p, events)
    ensures var q := Exchanged(c, p, events);
            Inv(c, q.a) && Inv(c, q.b) && Twin(q)
  {
    hide FullHandshake.Step, Inv, Agreed, Twin, Next;
    if events != [] {
      var before, e := events[..|events| - 1], events[|events| - 1];
      ExchangeTwin(c, p, before);
      var q := Exchanged(c, p, before);
      NextInv(c, q, e);
      NextTwin(c, q, e);
    }
  }

  lemma {:induction false} NextInv(c: Crypto, p: Ends, e: Event)
    requires Sound(c) && Inv(c, p.a) && Inv(c, p.b) && BothShaped(p)
    ensures Inv(c, Next(c, p, e).a) && Inv(c, Next(c, p, e).b)
  {
    hide Inv, After;
    RunInv(c, p.a, CallsA(c, p, e), |CallsA(c, p, e)|);
    RunInv(c, p.b, CallsB(c, p, e), |CallsB(c, p, e)|);
  }

  lemma {:induction false} InstalledSameKeys(c: Crypto, a: Hs, b: Hs)
    requires Inv(c, a) && Inv(c, b) && Shaped(a) && Shaped(b) && Agree(a, b)
    requires a.keys.installed[LEVEL_ONERTT] && b.keys.installed[LEVEL_ONERTT]
    ensures SameKeys(a, b)
  {
    hide Consistent;
    assert AppKeys(c, a, false) && AppKeys(c, a, true) && AppKeys(c, b, false) && AppKeys(c, b, true);
  }

  ghost function Opened(c: Crypto, server: bool, ecdhe: Bytes, hello: Bytes, hello': Bytes,
                        transcript: Bytes): (p: Ends)
    requires |ecdhe| == 32
    ensures BothShaped(p)
  {
    Ends(Start(c, server, ecdhe, hello, transcript), Start(c, !server, ecdhe, hello', transcript))
  }

  /** Over every exchange the two ends agree on: their transcripts, recorded lengths and
      certificates stay equal, whenever both have 1-RTT keys they are the same keys, and
      whenever both wait, exchanging Finished messages completes both with the same keys. */
  lemma {:induction false} ExchangeAgrees(c: Crypto, server: bool, ecdhe: Bytes, hello: Bytes, hello': Bytes,
                                          transcript: Bytes, events: seq<Event>)
    requires Sound(c) && |ecdhe| == 32 && AllAgreed(c, Opened(c, server, ecdhe, hello, hello', transcript), events)
    ensures var q := Exchanged(c, Opened(c, server, ecdhe, hello, hello', transcript), events);
            var a', b' := FinishA(c, q.a, q.b), FinishB(c, q.a, q.b);
            Twin(q)
            && (q.a.keys.installed[LEVEL_ONERTT] && q.b.keys.installed[LEVEL_ONERTT] ==> SameKeys(q.a, q.b))
            && (StepLegal(q.a.order, FIN_MSG) && StepLegal(q.b.order, FIN_MSG) ==>
                  a'.order.complete && b'.order.complete && SameKeys(a', b'))
  {
    hide FullHandshake.Step, Inv, StepLegal, Agreed, Next, FinishA, FinishB, SameKeys, Start;
    var p := Opened(c, server, ecdhe, hello, hello', transcript);
    StartInv(c, server, ecdhe, hello, transcript);
    StartInv(c, !server, ecdhe, hello', transcript);
    OpenedTwin(c, server, ecdhe, hello, hello', transcript);
    ExchangeTwin(c, p, events);
    var q := Exchanged(c, p, events);
    if q.a.keys.installed[LEVEL_ONERTT] && q.b.keys.installed[LEVEL_ONERTT] {
      InstalledSameKeys(c, q.a, q.b);
    }
    if StepLegal(q.a.order, FIN_MSG) && StepLegal(q.b.order, FIN_MSG) {
      FinishesAgree(c, q.a, q.b);
    }
  }

  lemma {:induction false} OpenedTwin(c: Crypto, server: bool, ecdhe: Bytes, hello: Bytes, hello': Bytes,
                                      transcript: Bytes)
    requires |ecdhe| == 32
    ensures Twin(Opened(c, server, ecdhe, hello, hello', transcript))
  {
  }

  // ---- each end on its own ----

  /** All the calls of an exchange at either end. */
  function AllCallsA(c: Crypto, p: Ends, events: seq<Event>): seq<Call>
    requires BothShaped(p)
  {
    if events == [] then []
    else
      var before, e := events[..|events| - 1], events[|events| - 1];
      AllCallsA(c, p, before) + CallsA(c, Exchanged(c, p, before), e)
  }

  function AllCallsB(c: Crypto, p: Ends, events: seq<Event>): seq<Call>
    requires BothShaped(p)
  {
    if events == [] then []
    else
      var before, e := events[..|events| - 1], events[|events| - 1];
      AllCallsB(c, p, before) + CallsB(c, Exchanged(c, p, before), e)
  }

  lemma {:induction false} AfterPrefix(c: Crypto, h: Hs, xs: seq<Call>, ys: seq<Call>, n: nat)
    requires Shaped(h) && n <= |xs|
    ensures After(c, h, xs + ys, n) == After(c, h, xs, n)
  {
    hide FullHandshake.Step;
    if n > 0 {
      AfterPrefix(c, h, xs, ys, n - 1);
    }
  }

  lemma {:induction false} RanBoth(c: Crypto, h: Hs, xs: seq<Call>, ys: seq<Call>, n: nat)
    requires Shaped(h) && n <= |ys|
    ensures After(c, h, xs + ys, |xs| + n) == After(c, Ran(c, h, xs), ys, n)
  {
    hide FullHandshake.Step;
    if n == 0 {
      AfterPrefix(c, h, xs, ys, |xs|);
    } else {
      RanBoth(c, h, xs, ys, n - 1);
      assert (xs + ys)[|xs| + n - 1] == ys[n - 1];
    }
  }

  /** Each end sees only its own calls: when the other's happen in between does not matter, and
      every theorem about runs applies to it. */
  lemma {:induction false} EndsAreRuns(c: Crypto, p: Ends, events: seq<Event>)
    requires BothShaped(p)
    ensures Exchanged(c, p, events) == Ends(Ran(c, p.a, AllCallsA(c, p, events)), Ran(c, p.b, AllCallsB(c, p, events)))
  {
    hide FullHandshake.Step, CallsA, CallsB;
    if events != [] {
      var before, e := events[..|events| - 1], events[|events| - 1];
      EndsAreRuns(c, p, before);
      var q := Exchanged(c, p, before);
      var xs, ys := CallsA(c, q, e), CallsB(c, q, e);
      RanBoth(c, p.a, AllCallsA(c, p, before), xs, |xs|);
      RanBoth(c, p.b, AllCallsB(c, p, before), ys, |ys|);
    }
  }
}
