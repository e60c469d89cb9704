/** Two handshake drivers facing each other: the Finished messages they exchange and the
    application keys they end with (src/tls/handshake/core/fullhs/fullhs.c:242-285;
    sections 4.4.4 and 7.1 of RFC 8446). */
module HandshakePair {
  import opened HandshakeCrypto
  import opened HsOrder
  import opened KeySchedule
  import opened KeySets
  import opened FullHandshake

  /** Opposite roles over one shared secret: what one end sends with, the other checks with. */
  ghost predicate Paired(a: Hs, b: Hs)
  {
    a.selfSecret == b.peerSecret && a.peerSecret == b.selfSecret && a.sched.master == b.sched.master
    && a.isServer != b.isServer
  }

  /** Paired ends that have seen the same messages and recorded the same length. */
  ghost predicate Agree(a: Hs, b: Hs)
  {
    Paired(a, b) && a.tr == b.tr && a.masterLen == b.masterLen
  }

  lemma {:induction false} RunsPaired(c: Crypto, server: bool, ecdhe: Bytes, hello: Bytes, hello': Bytes,
                                      transcript: Bytes, calls: seq<Call>, m: nat, calls': seq<Call>, n: nat)
    requires Sound(c) && |ecdhe| == 32 && m <= |calls| && n <= |calls'|
    ensures var a := After(c, Start(c, server, ecdhe, hello, transcript), calls, m);
            var b := After(c, Start(c, !server, ecdhe, hello', transcript), calls', n);
            Inv(c, a) && Inv(c, b) && Paired(a, b)
  {
    hide FullHandshake.Step;
    var h0 := Start(c, server, ecdhe, hello, transcript);
    var h1 := Start(c, !server, ecdhe, hello', transcript);
    StartInv(c, server, ecdhe, hello, transcript);
    StartInv(c, !server, ecdhe, hello', transcript);
    RunInv(c, h0, calls, m);
    RunInv(c, h1, calls', n);
    RunGrows(c, h0, calls, 0, m);
    RunGrows(c, h1, calls', 0, n);
  }

  lemma {:induction false} OwnFinishedVerifies(c: Crypto, a: Hs, b: Hs)
    requires Sound(c) && Agree(a, b)
    ensures FinishedVerifies(c, b, OwnFinished(c, a))
  {
    assert OwnFinished(c, a)[HEADER..] == c.verifyData(a.selfSecret, c.hash(a.tr));
  }

  /** One end sends its Finished to the other, which is waiting for it: it is accepted and
      completes that end, and both have the same transcript and recorded length again,
      whether or not there was room for it. */
  lemma {:induction false} FinishedAgrees(c: Crypto, a: Hs, b: Hs)
    requires Sound(c) && Shaped(a) && Shaped(b) && Agree(a, b) && StepLegal(b.order, FIN_MSG)
    ensures var a' := FullHandshake.Step(c, a, SendFinished(FINISHED_LEN));
            var b' := FullHandshake.Step(c, b, RecvFinished(OwnFinished(c, a)));
            Agree(a', b') && b'.order.complete && a'.order == a.order && a'.sched == a.sched && b'.sched == b.sched
  {
    hide OwnFinished, FinishedVerifies;
    OwnFinishedVerifies(c, a, b);
  }

  /** Ends whose recorded transcripts are equal hold the same application keys, for both
      directions, once both have derived them. */
  lemma {:induction false} KeysAgree(c: Crypto, a: Hs, b: Hs)
    requires Inv(c, a) && Inv(c, b) && Paired(a, b) && a.tr[..a.masterLen] == b.tr[..b.masterLen]
    requires a.sched.stage == 2 && b.sched.stage == 2
    ensures a.sched.keys[CLIENT_AP] == b.sched.keys[CLIENT_AP] && a.sched.keys[SERVER_AP] == b.sched.keys[SERVER_AP]
  {
    hide Consistent;
    assert AppKeys(c, a, false) && AppKeys(c, a, true) && AppKeys(c, b, false) && AppKeys(c, b, true);
  }

  /** Deriving the application keys at completion. */
  lemma {:induction false} Derives(c: Crypto, h: Hs)
    requires Inv(c, h) && h.order.complete
    ensures var h' := FullHandshake.Step(c, h, AdvanceApplication);
            h'.sched.stage == 2 && h'.tr == h.tr && h'.masterLen == h.masterLen && h'.keys.installed[LEVEL_ONERTT]
            && h'.keys.keys[LEVEL_ONERTT] == h'.sched.keys[if h.isServer then SERVER_AP else CLIENT_AP]
  {
    hide Consistent, AppKeys;
  }

  /** The end of the handshake: a sends its Finished, b takes it and sends its own, a takes
      that, and both derive. */
  ghost function FinishA(c: Crypto, a: Hs, b: Hs): Hs
    requires Shaped(a) && Shaped(b)
  {
    var a1 := FullHandshake.Step(c, a, SendFinished(FINISHED_LEN));
    var b1 := FullHandshake.Step(c, b, RecvFinished(OwnFinished(c, a)));
    var a2 := FullHandshake.Step(c, a1, RecvFinished(OwnFinished(c, b1)));
    FullHandshake.Step(c, a2, AdvanceApplication)
  }

  ghost function FinishB(c: Crypto, a: Hs, b: Hs): Hs
    requires Shaped(a) && Shaped(b)
  {
    var b1 := FullHandshake.Step(c, b, RecvFinished(OwnFinished(c, a)));
    var b2 := FullHandshake.Step(c, b1, SendFinished(FINISHED_LEN));
    FullHandshake.Step(c, b2, AdvanceApplication)
  }

  /** Both ends hold the same application keys for both directions, and each has installed
      the one the other expects it to send with. */
  ghost predicate SameKeys(a: Hs, b: Hs)
    requires Shaped(a) && Shaped(b)
  {
    a.sched.keys[CLIENT_AP] == b.sched.keys[CLIENT_AP] && a.sched.keys[SERVER_AP] == b.sched.keys[SERVER_AP]
    && a.keys.installed[LEVEL_ONERTT] && b.keys.installed[LEVEL_ONERTT]
    && a.keys.keys[LEVEL_ONERTT] == b.sched.keys[if a.isServer then SERVER_AP else CLIENT_AP]
    && b.keys.keys[LEVEL_ONERTT] == a.sched.keys[if b.isServer then SERVER_AP else CLIENT_AP]
  }

  /** From any two runs over the same shared secret and hello transcript, in opposite roles,
      that reach equal transcripts with both ends authenticated and waiting: exchanging
      Finished messages completes both, and both install and hold the same application keys. */
  lemma {:induction false} BothEndsAgree(c: Crypto, server: bool, ecdhe: Bytes, hello: Bytes, hello': Bytes,
                                         transcript: Bytes, calls: seq<Call>, m: nat, calls': seq<Call>, n: nat)
    requires Sound(c) && |ecdhe| == 32 && m <= |calls| && n <= |calls'|
    ensures var a := After(c, Start(c, server, ecdhe, hello, transcript), calls, m);
            var b := After(c, Start(c, !server, ecdhe, hello', transcript), calls', n);
            var a', b' := FinishA(c, a, b), FinishB(c, a, b);
            a.tr == b.tr && a.masterLen == b.masterLen && StepLegal(a.order, FIN_MSG) && StepLegal(b.order, FIN_MSG) ==>
              a'.order.complete && b'.order.complete && Agree(a', b') && SameKeys(a', b')
  {
    hide FullHandshake.Step, Inv, StepLegal, Start;
    RunsPaired(c, server, ecdhe, hello, hello', transcript, calls, m, calls', n);
    var a := After(c, Start(c, server, ecdhe, hello, transcript), calls, m);
    var b := After(c, Start(c, !server, ecdhe, hello', transcript), calls', n);
    if a.tr == b.tr && a.masterLen == b.masterLen && StepLegal(a.order, FIN_MSG) && StepLegal(b.order, FIN_MSG) {
      FinishesAgree(c, a, b);
    }
  }

  lemma {:induction false} FinishesAgree(c: Crypto, a: Hs, b: Hs)
    requires Sound(c) && Inv(c, a) && Inv(c, b) && Agree(a, b) && StepLegal(a.order, FIN_MSG)
             && StepLegal(b.order, FIN_MSG)
    ensures var a', b' := FinishA(c, a, b), FinishB(c, a, b);
            a'.order.complete && b'.order.complete && Agree(a', b') && SameKeys(a', b')
  {
    hide FullHandshake.Step, Inv, StepLegal, OwnFinished;
    InvShaped(c, a);
    InvShaped(c, b);
    var fa := OwnFinished(c, a);
    var a1, b1 := FullHandshake.Step(c, a, SendFinished(FINISHED_LEN)), FullHandshake.Step(c, b, RecvFinished(fa));
    FinishedAgrees(c, a, b);
    StepKeeps(c, a, SendFinished(FINISHED_LEN));
    StepKeeps(c, b, RecvFinished(fa));
    var fb := OwnFinished(c, b1);
    var a2, b2 := FullHandshake.Step(c, a1, RecvFinished(fb)), FullHandshake.Step(c, b1, SendFinished(FINISHED_LEN));
    FinishedAgrees(c, b1, a1);
    StepKeeps(c, a1, RecvFinished(fb));
    StepKeeps(c, b1, SendFinished(FINISHED_LEN));
    StepKeeps(c, a2, AdvanceApplication);
    StepKeeps(c, b2, AdvanceApplication);
    Derives(c, a2);
    Derives(c, b2);
    var a3, b3 := FullHandshake.Step(c, a2, AdvanceApplication), FullHandshake.Step(c, b2, AdvanceApplication);
    StaysCompleteStep(c, a2);
    StaysCompleteStep(c, b2);
    KeysAgree(c, a3, b3);
  }

  lemma {:induction false} StaysCompleteStep(c: Crypto, h: Hs)
    requires Shaped(h)
    ensures FullHandshake.Step(c, h, AdvanceApplication).order == h.order
  {
    hide MasterStage;
  }
}
