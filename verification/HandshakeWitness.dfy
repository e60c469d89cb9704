/** Runs of the handshake driver in which the application keys do not cover the Finished
    that completed it: one for each side of the condition in `HandshakeKeys`. */
module HandshakeWitness {
  import opened Options
  import opened HandshakeCrypto
  import opened HsOrder
  import opened KeySets
  import opened FullHandshake
  import opened HandshakeKeys
  import opened CertMessages

  /** Any signature under any certificate verifies, and application keys are the transcript
      they are derived over, so that they show what they cover. */
  const SAMPLE := Crypto(
    (server: bool, msg: Bytes) => None, (priv: Bytes, pub: Bytes) => Zeros(),
    (b: Bytes) => [], (b: Bytes) => [], (b: Bytes) => [],
    (s: Bytes, t: Bytes, server: bool) => [], (s: Bytes, t: Bytes, server: bool) => [],
    (m: Bytes, t: Bytes, server: bool) => t,
    (s: Bytes, th: Bytes) => Zeros(),
    (cert: Bytes) => true, (cert: Bytes, now: nat) => true, (cert: Bytes, host: Bytes) => true,
    (scheme: nat, cert: Bytes, sig: Bytes, th: Bytes) => cert != [])

  /** A Certificate with one one-byte entry, a CertificateVerify with an empty signature,
      and the Finished both sides send. */
  const CERT: Bytes := CertMessage([CERTIFICATE, 0, 0, 10], [], [CertEntry([0x30], [])], [])
  const CV: Bytes := [CERT_VERIFY, 0, 0, 4, 8, 7, 0, 0]
  const FIN: Bytes := [FINISHED, 0, 0, VERIFY_DATA] + Zeros()

  lemma {:induction false} SampleSound()
    ensures Sound(SAMPLE)
  {
  }

  lemma {:induction false} CertLength()
    ensures |CERT| == 14 && |ListBytes([CertEntry([0x30], [])])| == 6
  {
    var es := [CertEntry([0x30], [])];
    assert es[1..] == [];
    VecLength(3, [0x30]);
    VecLength(2, []);
    VecLength(1, []);
    VecLength(3, ListBytes(es));
  }

  lemma {:induction false} CertAccepted(h: Hs)
    requires h.policy == Policy(0, []) && h.store == None
    ensures ChainAccepted(SAMPLE, h, CERT) && CertChain(CERT).Some? && CertChain(CERT).value != []
    ensures Cut(CERT, CertChain(CERT).value[0]) != []
  {
    hide CertChain, Cut, CertMessage, ListBytes;
    CertLength();
    ChainReadsBack([CERTIFICATE, 0, 0, 10], [], [CertEntry([0x30], [])], []);
  }

  lemma {:induction false} SignatureParses()
    ensures Signature(CV) == Some([])
  {
    hide Vec;
    var body := Body(CV);
    assert body == [8, 7, 0, 0];
    EmptyVec();
    LengthRanges();
    assert body == [8, 7] + Vec(2, []) + [];
    VecReads([8, 7], 2, [], []);
  }

  lemma {:induction false} EmptyVec()
    ensures Vec(2, []) == [0, 0]
  {
    assert Length(0, 1) == Length(0, 0) + [0];
  }

  /** A driver that has just taken both messages. */
  function Authenticated(h: Hs): Hs
    requires CertChain(CERT).Some?
  {
    h.(order := Order(5, true, PROT_HANDSHAKE, false, false), tr := h.tr + CERT + CV,
       certs := Shift(CertChain(CERT).value, |h.tr|))
  }

  lemma {:induction false} TakesBoth(h: Hs)
    requires h.order == PRIMED && h.policy == Policy(0, []) && h.store == None && |h.tr| + 22 <= TRANSCRIPT_MAX
    ensures CertChain(CERT).Some?
    ensures CertVerifyStep(SAMPLE, CertStep(SAMPLE, h, CERT), CV, 0) == Authenticated(h)
  {
    hide CertChain, Cut, CertMessage, ChainAccepted, Signature, Leaf;
    CertLength();
    CertAccepted(h);
    LeafStored(SAMPLE, h, CERT);
    SignatureParses();
  }

  lemma {:induction false} AfterNext(c: Crypto, h0: Hs, calls: seq<Call>, n: nat)
    requires Shaped(h0) && n < |calls|
    ensures After(c, h0, calls, n + 1) == FullHandshake.Step(c, After(c, h0, calls, n), calls[n])
    ensures After(c, h0, calls, 0) == h0
  {
    hide FullHandshake.Step;
  }

  lemma {:induction false} BothTaken(h0: Hs, calls: seq<Call>)
    requires Shaped(h0) && h0.order == PRIMED && h0.policy == Policy(0, []) && h0.store == None
             && |h0.tr| + 22 <= TRANSCRIPT_MAX
    requires |calls| >= 2 && calls[0] == RecvCert(CERT) && calls[1] == RecvCertVerify(CV, 0)
    ensures CertChain(CERT).Some? && After(SAMPLE, h0, calls, 2) == Authenticated(h0)
  {
    hide CertStep, CertVerifyStep, CertChain, Authenticated;
    AfterNext(SAMPLE, h0, calls, 0);
    AfterNext(SAMPLE, h0, calls, 1);
    TakesBoth(h0);
  }

  lemma {:induction false} SampleFinished(h: Hs)
    ensures OwnFinished(SAMPLE, h) == FIN && FinishedVerifies(SAMPLE, h, FIN) && |FIN| == FINISHED_LEN
  {
    assert FIN[HEADER..] == Zeros();
  }

  /** Advancing from completion installs keys over the transcript up to masterLen. */
  lemma {:induction false} Advances(h: Hs)
    requires Shaped(h) && h.order.complete && h.sched.stage == 1
    ensures ApplicationStep(SAMPLE, h).keys.installed[LEVEL_ONERTT]
    ensures ApplicationStep(SAMPLE, h).keys.keys[LEVEL_ONERTT] == h.tr[..h.masterLen]
  {
  }

  const OWN_FIRST := [RecvCert(CERT), RecvCertVerify(CV, 0), SendFinished(FINISHED_LEN), RecvFinished(FIN),
                      AdvanceApplication]

  /** The server's ordinary order: its own Finished goes out before the peer's comes in. The
      peer's fits and completes the handshake, and the keys end at the own one. */
  lemma {:induction false} OwnFinishedFirst(isServer: bool, ecdhe: Bytes, hello: Bytes, transcript: Bytes)
    requires |ecdhe| == 32 && |transcript| + 22 + 2 * FINISHED_LEN <= TRANSCRIPT_MAX
    ensures var h0 := Start(SAMPLE, isServer, ecdhe, hello, transcript);
            var h3, h := After(SAMPLE, h0, OWN_FIRST, 3), After(SAMPLE, h0, OWN_FIRST, 5);
            Sound(SAMPLE) && Completes(SAMPLE, h0, OWN_FIRST, 3) && Fits(h3, FIN)
            && h.keys.installed[LEVEL_ONERTT]
            && h.keys.keys[LEVEL_ONERTT] == transcript + CERT + CV + FIN != h3.tr + FIN
  {
    hide After, Authenticated, CertMessage, CertChain, ApplicationStep, Start, CertStep, CertVerifyStep,
         FinishedVerifies, OwnFinished;
    var h0 := Start(SAMPLE, isServer, ecdhe, hello, transcript);
    SampleSound();
    StartFacts(isServer, ecdhe, hello, transcript);
    CertLength();
    BothTaken(h0, OWN_FIRST);
    AuthenticatedFacts(h0);
    AfterNext(SAMPLE, h0, OWN_FIRST, 2);
    AfterNext(SAMPLE, h0, OWN_FIRST, 3);
    AfterNext(SAMPLE, h0, OWN_FIRST, 4);
    var h2, h3, h4 := After(SAMPLE, h0, OWN_FIRST, 2), After(SAMPLE, h0, OWN_FIRST, 3), After(SAMPLE, h0, OWN_FIRST, 4);
    SampleFinished(h2);
    SampleFinished(h3);
    assert h3.tr == h2.tr + FIN && h3.masterLen == |h3.tr|;
    assert h4.order.complete && h4.tr[..h4.masterLen] == h3.tr;
    Advances(h4);
  }

  lemma {:induction false} StartFacts(isServer: bool, ecdhe: Bytes, hello: Bytes, transcript: Bytes)
    requires |ecdhe| == 32 && |transcript| <= TRANSCRIPT_MAX
    ensures var h0 := Start(SAMPLE, isServer, ecdhe, hello, transcript);
            h0.order == PRIMED && h0.policy == Policy(0, []) && h0.store == None && h0.tr == transcript
            && h0.masterLen == 0
            && h0.sched.stage == 1
  {
  }

  lemma {:induction false} AuthenticatedFacts(h: Hs)
    requires CertChain(CERT).Some?
    ensures var h' := Authenticated(h);
            h'.order == Order(5, true, PROT_HANDSHAKE, false, false) && h'.tr == h.tr + CERT + CV
            && h'.masterLen == h.masterLen
            && h'.sched == h.sched
  {
  }

  const NO_ROOM := [RecvCert(CERT), RecvCertVerify(CV, 0), RecvFinished(FIN), AdvanceApplication]

  /** A hello transcript that leaves no room for the Finished: it completes the handshake all
      the same, and the keys cover nothing. */
  lemma {:induction false} NoRoomForFinished(isServer: bool, ecdhe: Bytes, hello: Bytes, transcript: Bytes)
    requires |ecdhe| == 32 && |transcript| + 22 <= TRANSCRIPT_MAX < |transcript| + 22 + FINISHED_LEN
    ensures var h0 := Start(SAMPLE, isServer, ecdhe, hello, transcript);
            var h2, h := After(SAMPLE, h0, NO_ROOM, 2), After(SAMPLE, h0, NO_ROOM, 4);
            Sound(SAMPLE) && Completes(SAMPLE, h0, NO_ROOM, 2) && !Fits(h2, FIN)
            && h.keys.installed[LEVEL_ONERTT] && h.keys.keys[LEVEL_ONERTT] == [] && h2.tr != []
  {
    hide After, Authenticated, CertMessage, CertChain, ApplicationStep, Start, CertStep, CertVerifyStep,
         FinishedVerifies, OwnFinished;
    var h0 := Start(SAMPLE, isServer, ecdhe, hello, transcript);
    SampleSound();
    StartFacts(isServer, ecdhe, hello, transcript);
    CertLength();
    BothTaken(h0, NO_ROOM);
    AuthenticatedFacts(h0);
    AfterNext(SAMPLE, h0, NO_ROOM, 2);
    AfterNext(SAMPLE, h0, NO_ROOM, 3);
    var h2, h3 := After(SAMPLE, h0, NO_ROOM, 2), After(SAMPLE, h0, NO_ROOM, 3);
    SampleFinished(h2);
    assert h3.order.complete && h3.tr[..h3.masterLen] == [];
    Advances(h3);
  }
}
