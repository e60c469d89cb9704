/** What a completed handshake has checked, in terms of the cryptographic functions, the
    messages and the calls alone (src/tls/handshake/core/fullhs/fullhs.c:107-285; sections
    4.4.2 to 4.4.4 of RFC 8446). */
module HandshakeAuth {
  import opened Arith
  import opened Limbs
  import opened Options
  import opened HandshakeCrypto
  import opened HsOrder
  import opened KeySchedule
  import opened KeySets
  import opened FullHandshake
  import opened CertMessages

  // ---- the transcript, spelled out from the calls ----

  /** What a call appends to the transcript. */
  ghost function Text(c: Crypto, h: Hs, call: Call): Bytes
  {
    match call
    case RecvCert(msg) => if AcceptsCert(c, h, call) then msg else []
    case RecvCertVerify(msg, _) => if VerifiesCert(c, h, call) && |h.tr| + |msg| <= 8192 then msg else []
    case RecvFinished(msg) => if VerifiesFinished(c, h, call) && |h.tr| + 36 <= 8192 then msg else []
    case SendFinished(cap) => if cap >= 36 && |h.tr| + 36 <= 8192 then OwnFinished(c, h) else []
    case _ => []
  }

  /** The messages the first n calls appended, one after another. */
  ghost function Log(c: Crypto, h0: Hs, calls: seq<Call>, n: nat): Bytes
    requires Shaped(h0) && n <= |calls|
  {
    if n == 0 then [] else Log(c, h0, calls, n - 1) + Text(c, After(c, h0, calls, n - 1), calls[n - 1])
  }

  lemma {:induction false} StepAppends(c: Crypto, h: Hs, call: Call)
    requires Sound(c) && Shaped(h)
    ensures FullHandshake.Step(c, h, call).tr == h.tr + Text(c, h, call)
  {
    hide ChainAccepted, SignatureVerifies, CertChain;
  }

  lemma {:induction false} TranscriptIsLog(c: Crypto, h0: Hs, calls: seq<Call>, n: nat)
    requires Sound(c) && Shaped(h0) && n <= |calls|
    ensures After(c, h0, calls, n).tr == h0.tr + Log(c, h0, calls, n)
  {
    hide FullHandshake.Step, Text;
    if n > 0 {
      TranscriptIsLog(c, h0, calls, n - 1);
      StepAppends(c, After(c, h0, calls, n - 1), calls[n - 1]);
    }
  }

  // ---- the messages ----

  /** A CertificateVerify: header, scheme, signature; what follows is never looked at. */
  function CertVerifyMessage(header: Bytes, scheme: Bytes, sig: Bytes, tail: Bytes): Bytes
  {
    header + scheme + Vec(2, sig) + tail
  }

  /** The parser finds the signature, byte for byte. */
  lemma {:induction false} SignatureReadsBack(header: Bytes, scheme: Bytes, sig: Bytes, tail: Bytes)
    requires |header| == 4 && |scheme| == 2 && |sig| < 0x1_0000
    ensures Signature(CertVerifyMessage(header, scheme, sig, tail)) == Some(sig)
  {
    hide Vec, Pow, TakeVec, Cut;
    var msg := CertVerifyMessage(header, scheme, sig, tail);
    LengthRanges();
    assert Body(msg) == scheme + Vec(2, sig) + tail;
    VecReads(scheme, 2, sig, tail);
  }

  /** Over all byte strings: what parses to a signature is a CertificateVerify carrying it. */
  ghost predicate SpelledVerify(msg: Bytes, scheme: Bytes, sig: Bytes, tail: Bytes)
  {
    |msg| >= 4 && |scheme| == 2 && |sig| < 0x1_0000 && msg == CertVerifyMessage(msg[..4], scheme, sig, tail)
  }

  lemma {:induction false} SignatureExactly(msg: Bytes, sig: Bytes)
    ensures Signature(msg) == Some(sig) <==> exists scheme, tail :: SpelledVerify(msg, scheme, sig, tail)
  {
    hide Vec, Pow, TakeVec, Cut;
    if Signature(msg) == Some(sig) {
      var body := Body(msg);
      LengthRanges();
      var b, tail := VecTaken(body, 2, 2);
      CutOfVec(body, 2, 2, b, tail);
      assert body == body[..2] + body[2..];
      assert msg == msg[..4] + body;
      assert SpelledVerify(msg, body[..2], sig, tail);
    }
    if scheme, tail :| SpelledVerify(msg, scheme, sig, tail) {
      SignatureReadsBack(msg[..4], scheme, sig, tail);
    }
  }

  /** Lengths on the wire are big-endian. */
  lemma {:induction false} LengthsBigEndian(b: Bytes)
    ensures BigEndian(b) == BeVal(b)
  {
    hide Val, Reversed;
    if b == [] {
      EmptyValue();
    } else {
      var n := |b| - 1;
      LengthsBigEndian(b[..n]);
      BeValPush(b[..n], b[n]);
      assert b[..n] + [b[n]] == b;
    }
  }

  lemma {:induction false} EmptyValue()
    ensures BeVal([]) == 0
  {
    assert Reversed([]) == [];
  }

  // ---- one call ----

  /** A well-formed CertificateVerify opens the gate exactly when its turn has come and its
      signature holds under the stored leaf over the hash of the transcript. */
  lemma {:induction false} CertVerifyExact(c: Crypto, h: Hs, header: Bytes, scheme: Bytes, sig: Bytes, tail: Bytes,
                                           alg: nat)
    requires Inv(c, h) && !h.order.certVerified && |header| == 4 && |scheme| == 2 && |sig| < 0x1_0000
    ensures var h' := FullHandshake.Step(c, h, RecvCertVerify(CertVerifyMessage(header, scheme, sig, tail), alg));
            Shaped(h)
            && (h'.order.certVerified <==>
                  h.order.recvCount == 4 && c.signatureOk(alg, Leaf(h), sig, c.hash(h.tr)))
  {
    hide Signature, Leaf, CertVerifyMessage;
    SignatureReadsBack(header, scheme, sig, tail);
  }

  /** A Finished completes the handshake exactly at its position behind an open gate, with 32
      octets made from the peer's secret over the hash of the transcript. */
  lemma {:induction false} FinishedExact(c: Crypto, h: Hs, msg: Bytes)
    requires Inv(c, h) && !h.order.complete
    ensures Shaped(h)
            && (FullHandshake.Step(c, h, RecvFinished(msg)).order.complete <==>
                  h.order.recvCount == 5 && h.order.certVerified && |msg| == 36
                  && msg[4..] == c.verifyData(h.peerSecret, c.hash(h.tr)))
  {
  }

  /** A well-formed Certificate in its turn that fits is stored exactly when its leaf meets
      the policy and the whole chain the store. */
  lemma {:induction false} CertificateExact(c: Crypto, h: Hs, header: Bytes, ctx: Bytes, es: seq<CertEntry>,
                                            tail: Bytes)
    requires Inv(c, h) && h.order.recvCount == 3 && |header| == 4 && |ctx| < 0x100 && FitsLengths(es)
    requires |ListBytes(es)| < 0x100_0000 && |h.tr| + |CertMessage(header, ctx, es, tail)| <= 8192
    ensures var h' := FullHandshake.Step(c, h, RecvCert(CertMessage(header, ctx, es, tail)));
            Shaped(h)
            && (h'.certs != [] <==>
                  1 <= |es| <= 4 && Meets(c, h.policy, es[0].cert) && (h.store.Some? ==> h.store.value(Certs(es))))
            && (h'.certs != [] ==> Leaf(h') == es[0].cert)
  {
    hide CertMessage, CertChain, Cut, PolicyOk;
    var msg := CertMessage(header, ctx, es, tail);
    ChainReadsBack(header, ctx, es, tail);
    if 1 <= |es| <= 4 {
      assert CutAll(msg, CertChain(msg).value) == Certs(es);
      PolicyMeets(c, h.policy, es[0].cert);
    }
    if ChainAccepted(c, h, msg) {
      LeafStored(c, h, msg);
    }
  }

  function Certs(es: seq<CertEntry>): (r: seq<Bytes>)
    ensures |r| == |es|
  {
    seq(|es|, i requires 0 <= i < |es| => es[i].cert)
  }

  /** A time that is set lies in the certificate's window, and a host that is set is one of
      its names. */
  ghost predicate Meets(c: Crypto, p: Policy, cert: Bytes)
  {
    (p.now != 0 ==> c.certParses(cert) && c.timeOk(cert, p.now))
    && (p.host != [] ==> c.certParses(cert) && c.hostOk(cert, p.host))
  }

  lemma {:induction false} PolicyMeets(c: Crypto, p: Policy, cert: Bytes)
    ensures PolicyOk(c, p, cert) <==> Meets(c, p, cert)
  {
  }

  // ---- whole runs ----

  /** The policy and the store in force before call n. */
  function PolicyBefore(calls: seq<Call>, n: nat): Policy
    requires n <= |calls|
  {
    if n == 0 then Policy(0, [])
    else if calls[n - 1].SetPolicy? then calls[n - 1].policy else PolicyBefore(calls, n - 1)
  }

  function StoreBefore(calls: seq<Call>, n: nat): Option<Store>
    requires n <= |calls|
  {
    if n == 0 then None
    else if calls[n - 1].SetStore? then calls[n - 1].store else StoreBefore(calls, n - 1)
  }

  lemma {:induction false} StepSettings(c: Crypto, h: Hs, call: Call)
    requires Shaped(h)
    ensures var h' := FullHandshake.Step(c, h, call);
            h'.policy == (if call.SetPolicy? then call.policy else h.policy)
            && h'.store == (if call.SetStore? then call.store else h.store)
  {
    hide ChainAccepted, SignatureVerifies, FinishedVerifies, CertChain, StepLegal, MasterStage, Installed, Discarded;
  }

  lemma {:induction false} SettingsInForce(c: Crypto, h0: Hs, calls: seq<Call>, n: nat)
    requires Shaped(h0) && h0.policy == Policy(0, []) && h0.store == None && n <= |calls|
    ensures var h := After(c, h0, calls, n); h.policy == PolicyBefore(calls, n) && h.store == StoreBefore(calls, n)
  {
    hide FullHandshake.Step;
    if n > 0 {
      SettingsInForce(c, h0, calls, n - 1);
      StepSettings(c, After(c, h0, calls, n - 1), calls[n - 1]);
    }
  }

  /** The leaf came in call i, checked against the policy and the store then in force. */
  ghost predicate LeafFrom(c: Crypto, calls: seq<Call>, i: nat, leaf: Bytes)
  {
    i < |calls| && calls[i].RecvCert? && CertChain(calls[i].msg).Some? && CertChain(calls[i].msg).value != []
    && leaf == Cut(calls[i].msg, CertChain(calls[i].msg).value[0]) && Meets(c, PolicyBefore(calls, i), leaf)
    && (StoreBefore(calls, i).Some? ==>
        StoreBefore(calls, i).value(CutAll(calls[i].msg, CertChain(calls[i].msg).value)))
  }

  /** Call j brought a signature that holds under the leaf over the transcript hash. */
  ghost predicate SignedAt(c: Crypto, calls: seq<Call>, j: nat, leaf: Bytes, transcript: Bytes)
  {
    j < |calls| && calls[j].RecvCertVerify? && Signature(calls[j].msg).Some?
    && c.signatureOk(calls[j].scheme, leaf, Signature(calls[j].msg).value, c.hash(transcript))
  }

  /** Call k brought verify_data made from the secret over the transcript hash. */
  ghost predicate FinishedAt(c: Crypto, calls: seq<Call>, k: nat, secret: Bytes, transcript: Bytes)
  {
    k < |calls| && calls[k].RecvFinished? && |calls[k].msg| == 36
    && calls[k].msg[4..] == c.verifyData(secret, c.hash(transcript))
  }

  /** All three, in this order, each over the hello transcript and what was appended to it
      before that call. */
  ghost predicate Checked(c: Crypto, h0: Hs, calls: seq<Call>, secret: Bytes, i: nat, j: nat, k: nat, leaf: Bytes)
    requires Shaped(h0)
  {
    i < j < k < |calls| && LeafFrom(c, calls, i, leaf)
    && SignedAt(c, calls, j, leaf, h0.tr + Log(c, h0, calls, j))
    && FinishedAt(c, calls, k, secret, h0.tr + Log(c, h0, calls, k))
  }

  lemma {:induction false} AcceptedMeets(c: Crypto, h0: Hs, calls: seq<Call>, n: nat, leaf: Bytes, i: nat)
    requires Sound(c) && Inv(c, h0) && Shaped(h0) && h0.policy == Policy(0, []) && h0.store == None && n <= |calls|
    requires StoredBy(c, h0, calls, n, leaf, i)
    ensures LeafFrom(c, calls, i, leaf)
  {
    hide Inv, FullHandshake.Step, CertChain, Cut, PolicyOk;
    SettingsInForce(c, h0, calls, i);
    PolicyMeets(c, PolicyBefore(calls, i), leaf);
  }

  lemma {:induction false} VerifiedSigned(c: Crypto, h0: Hs, calls: seq<Call>, j: nat)
    requires Sound(c) && Shaped(h0) && j < |calls| && VerifiesCert(c, After(c, h0, calls, j), calls[j])
    ensures SignedAt(c, calls, j, Leaf(After(c, h0, calls, j)), h0.tr + Log(c, h0, calls, j))
  {
    hide FullHandshake.Step, Signature, Leaf, Log;
    TranscriptIsLog(c, h0, calls, j);
  }

  lemma {:induction false} VerifiedFinished(c: Crypto, h0: Hs, calls: seq<Call>, k: nat)
    requires Sound(c) && Inv(c, h0) && Shaped(h0) && k < |calls|
             && VerifiesFinished(c, After(c, h0, calls, k), calls[k])
    ensures FinishedAt(c, calls, k, h0.peerSecret, h0.tr + Log(c, h0, calls, k))
  {
    hide FullHandshake.Step, Inv, Log;
    TranscriptIsLog(c, h0, calls, k);
    RunGrows(c, h0, calls, 0, k);
  }

  lemma {:induction false} StartSettings(c: Crypto, isServer: bool, ecdhe: Bytes, hello: Bytes, transcript: Bytes)
    requires |ecdhe| == 32
    ensures var h0 := Start(c, isServer, ecdhe, hello, transcript);
            h0.policy == Policy(0, []) && h0.store == None && h0.tr == (if |transcript| <= 8192 then transcript else [])
            && h0.peerSecret == c.handshakeTraffic(c.handshakeSecret(ecdhe), transcript, !isServer)
            && h0.selfSecret == c.handshakeTraffic(c.handshakeSecret(ecdhe), transcript, isServer)
  {
  }

  /** A handshake that completed was authenticated: some Certificate's leaf met the policy and
      its chain the store, a later signature held under that leaf over the transcript hash,
      and a still later Finished was made with the peer's traffic secret over it. */
  lemma {:induction false} CompletionChecked(c: Crypto, isServer: bool, ecdhe: Bytes, hello: Bytes, transcript: Bytes,
                                             calls: seq<Call>)
    requires Sound(c) && |ecdhe| == 32
    requires After(c, Start(c, isServer, ecdhe, hello, transcript), calls, |calls|).order.complete
    ensures var secret := c.handshakeTraffic(c.handshakeSecret(ecdhe), transcript, !isServer);
            var h0 := Start(c, isServer, ecdhe, hello, transcript);
            exists i, j, k, leaf :: Checked(c, h0, calls, secret, i, j, k, leaf)
  {
    hide FullHandshake.Step, Inv, Start, LeafFrom, SignedAt, FinishedAt, StoredBy, Leaf, VerifiesCert, VerifiesFinished,
         Log;
    var h0 := Start(c, isServer, ecdhe, hello, transcript);
    StartInv(c, isServer, ecdhe, hello, transcript);
    StartSettings(c, isServer, ecdhe, hello, transcript);
    CompleteIffAuthentic(c, h0, calls);
    var i, j, k :| Authentic(c, h0, calls, i, j, k);
    var leaf := Leaf(After(c, h0, calls, j));
    AcceptedMeets(c, h0, calls, j, leaf, i);
    VerifiedSigned(c, h0, calls, j);
    VerifiedFinished(c, h0, calls, k);
    assert Checked(c, h0, calls, h0.peerSecret, i, j, k, leaf);
  }

  /** What an end sends as its Finished, over any run. */
  lemma {:induction false} SendsOwnFinished(c: Crypto, isServer: bool, ecdhe: Bytes, hello: Bytes, transcript: Bytes,
                                            calls: seq<Call>, n: nat)
    requires Sound(c) && |ecdhe| == 32 && n <= |calls|
    ensures var h0 := Start(c, isServer, ecdhe, hello, transcript);
            var secret := c.handshakeTraffic(c.handshakeSecret(ecdhe), transcript, isServer);
            OwnFinished(c, After(c, h0, calls, n))
            == [20, 0, 0, 32] + c.verifyData(secret, c.hash(h0.tr + Log(c, h0, calls, n)))
  {
    hide FullHandshake.Step, Inv, Start, Log;
    var h0 := Start(c, isServer, ecdhe, hello, transcript);
    StartInv(c, isServer, ecdhe, hello, transcript);
    StartSettings(c, isServer, ecdhe, hello, transcript);
    TranscriptIsLog(c, h0, calls, n);
    RunGrows(c, h0, calls, 0, n);
  }

  // ---- Handshake keys over runs ----

  /** Both Handshake slots, and the client's one installed until the handshake is confirmed. */
  ghost predicate HandshakeKeysOf(c: Crypto, h: Hs, ecdhe: Bytes, hello: Bytes)
    requires Shaped(h)
  {
    var secret := c.handshakeSecret(ecdhe);
    h.sched.stage >= 1 && h.sched.master == c.masterSecret(secret)
    && h.sched.keys[0] == c.handshakeKeys(secret, hello, false)
    && h.sched.keys[1] == c.handshakeKeys(secret, hello, true)
    && (h.order.confirmed <==> !h.keys.installed[LEVEL_HANDSHAKE])
    && (!h.order.confirmed ==> h.keys.keys[LEVEL_HANDSHAKE] == c.handshakeKeys(secret, hello, false))
  }

  lemma {:induction false} HandshakeKeysKept(c: Crypto, h: Hs, call: Call, ecdhe: Bytes, hello: Bytes)
    requires Shaped(h) && HandshakeKeysOf(c, h, ecdhe, hello)
    ensures HandshakeKeysOf(c, FullHandshake.Step(c, h, call), ecdhe, hello)
  {
    hide ChainAccepted, SignatureVerifies, FinishedVerifies, CertChain;
  }

  /** At every point of every run: the Handshake keys of both directions are those of the
      shared secret and the hello message, and they are discarded exactly once confirmed. */
  lemma {:induction false} HandshakeKeysUntilConfirmed(c: Crypto, isServer: bool, ecdhe: Bytes, hello: Bytes,
                                                       transcript: Bytes, calls: seq<Call>, n: nat)
    requires |ecdhe| == 32 && n <= |calls|
    ensures HandshakeKeysOf(c, After(c, Start(c, isServer, ecdhe, hello, transcript), calls, n), ecdhe, hello)
  {
    hide FullHandshake.Step, HandshakeKeysOf;
    if n == 0 {
      StartsWithKeys(c, isServer, ecdhe, hello, transcript);
    } else {
      HandshakeKeysUntilConfirmed(c, isServer, ecdhe, hello, transcript, calls, n - 1);
      HandshakeKeysKept(c, After(c, Start(c, isServer, ecdhe, hello, transcript), calls, n - 1), calls[n - 1], ecdhe,
                        hello);
    }
  }

  lemma {:induction false} StartsWithKeys(c: Crypto, isServer: bool, ecdhe: Bytes, hello: Bytes, transcript: Bytes)
    requires |ecdhe| == 32
    ensures HandshakeKeysOf(c, Start(c, isServer, ecdhe, hello, transcript), ecdhe, hello)
  {
  }
}
