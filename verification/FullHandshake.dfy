/** The handshake driver's calls (src/tls/handshake/core/fullhs/fullhs.c, with the message
    parsers of src/tls/handshake/core/tls/cert.c; section 4.4 of RFC 8446, sections 4.1 and
    4.9 of RFC 9001) as steps of a state, and what every run of them keeps. */
module FullHandshake {
  import opened Options
  import opened HandshakeCrypto
  import opened HsOrder
  import opened KeySchedule
  import opened KeySets

  const TRANSCRIPT_MAX := 8192
  const HEADER := 4
  const CHAIN_MAX := 4
  const FINISHED_LEN := HEADER + VERIFY_DATA

  // ---- message parsing ----

  datatype Slice = Slice(off: nat, len: nat)

  ghost predicate Within(s: Slice, n: nat)
  {
    s.off + s.len <= n
  }

  function Cut(b: Bytes, s: Slice): Bytes
  {
    if s.off + s.len <= |b| then b[s.off..s.off + s.len] else []
  }

  function BigEndian(b: Bytes): nat
  {
    if b == [] then 0 else 256 * BigEndian(b[..|b| - 1]) + b[|b| - 1]
  }

  /** A k-byte length at off and that many bytes after it. */
  function TakeVec(b: Bytes, off: nat, k: nat): (r: Option<Slice>)
    ensures r.Some? ==> r.value.off == off + k && Within(r.value, |b|)
  {
    if off + k > |b| then None
    else
      var len := BigEndian(b[off..off + k]);
      if off + k + len > |b| then None else Some(Slice(off + k, len))
  }

  /** The certificate_list's entries from off on, each with its extensions skipped. */
  function Entries(list: Bytes, off: nat, count: nat): (r: Option<seq<Slice>>)
    requires off <= |list|
    ensures r.Some? ==> count + |r.value| <= CHAIN_MAX || r.value == []
    ensures r.Some? ==> forall i :: 0 <= i < |r.value| ==> Within(r.value[i], |list|)
    decreases |list| - off
  {
    if off == |list| then Some([])
    else if count >= CHAIN_MAX then None
    else
      var cert := TakeVec(list, off, 3);
      if cert.None? then None
      else
        var ext := TakeVec(list, cert.value.off + cert.value.len, 2);
        if ext.None? then None
        else
          var rest := Entries(list, ext.value.off + ext.value.len, count + 1);
          if rest.None? then None else Some([cert.value] + rest.value)
  }

  function Shift(es: seq<Slice>, base: nat): (r: seq<Slice>)
    ensures |r| == |es| && forall i :: 0 <= i < |es| ==> r[i] == Slice(es[i].off + base, es[i].len)
  {
    seq(|es|, i requires 0 <= i < |es| => Slice(es[i].off + base, es[i].len))
  }

  function Body(msg: Bytes): Bytes
  {
    if |msg| < HEADER then [] else msg[HEADER..]
  }

  /** Every certificate of a Certificate message, leaf first, by its place in the message. */
  function CertChain(msg: Bytes): (r: Option<seq<Slice>>)
    ensures r.Some? ==> |r.value| <= CHAIN_MAX && forall i :: 0 <= i < |r.value| ==> Within(r.value[i], |msg|)
  {
    var body := Body(msg);
    var ctx := TakeVec(body, 0, 1);
    if ctx.None? then None
    else
      var list := TakeVec(body, ctx.value.off + ctx.value.len, 3);
      if list.None? then None
      else
        var es := Entries(Cut(body, list.value), 0, 0);
        if es.None? then None
        else
          assert forall i :: 0 <= i < |es.value| ==> es.value[i].off + es.value[i].len <= list.value.len;
          Some(Shift(es.value, HEADER + list.value.off))
  }

  function Signature(msg: Bytes): Option<Bytes>
  {
    var body := Body(msg);
    if |body| < 2 then None
    else
      var sig := TakeVec(body, 2, 2);
      if sig.None? then None else Some(Cut(body, sig.value))
  }

  // ---- the state and the calls ----

  /** now 0 and an empty host each skip their check. */
  datatype Policy = Policy(now: nat, host: Bytes)

  /** A trust store, by the chains it validates. */
  type Store = seq<Bytes> -> bool

  datatype Hs = Hs(order: Order, tr: Bytes, masterLen: nat, certs: seq<Slice>, policy: Policy, store: Option<Store>,
                   sched: Sched, keys: Keys, peerSecret: Bytes, selfSecret: Bytes, isServer: bool)

  datatype Call =
    | SetPolicy(policy: Policy)
    | SetStore(store: Option<Store>)
    | RecvCert(msg: Bytes)
    | RecvCertVerify(msg: Bytes, scheme: nat)
    | RecvFinished(msg: Bytes)
    | SendFinished(cap: nat)
    | AdvanceApplication
    | HandshakeDone

  /** The end-entity certificate, read where it was stored; empty before one is. */
  function Leaf(h: Hs): Bytes
  {
    if h.certs == [] then [] else Cut(h.tr, h.certs[0])
  }

  predicate Fits(h: Hs, msg: Bytes)
  {
    |h.tr| + |msg| <= TRANSCRIPT_MAX
  }

  predicate PolicyOk(c: Crypto, p: Policy, cert: Bytes)
  {
    (p.now == 0 && p.host == [])
    || (c.certParses(cert) && (p.now == 0 || c.timeOk(cert, p.now)) && (p.host == [] || c.hostOk(cert, p.host)))
  }

  predicate ChainOk(store: Option<Store>, certs: seq<Bytes>)
  {
    store.None? || store.value(certs)
  }

  function CutAll(msg: Bytes, es: seq<Slice>): (r: seq<Bytes>)
    ensures |r| == |es| && forall i :: 0 <= i < |es| ==> r[i] == Cut(msg, es[i])
  {
    seq(|es|, i requires 0 <= i < |es| => Cut(msg, es[i]))
  }

  /** The message parses, its leaf meets the policy and its chain the store. */
  predicate ChainAcceptedBy(c: Crypto, policy: Policy, store: Option<Store>, msg: Bytes)
  {
    var es := CertChain(msg);
    es.Some? && |es.value| >= 1 && PolicyOk(c, policy, Cut(msg, es.value[0])) && ChainOk(store, CutAll(msg, es.value))
  }

  predicate ChainAccepted(c: Crypto, h: Hs, msg: Bytes)
  {
    ChainAcceptedBy(c, h.policy, h.store, msg)
  }

  lemma {:induction false} AcceptedNonempty(c: Crypto, policy: Policy, store: Option<Store>, msg: Bytes)
    requires ChainAcceptedBy(c, policy, store, msg)
    ensures CertChain(msg).Some? && |CertChain(msg).value| >= 1
  {
  }

  predicate SignatureVerifies(c: Crypto, h: Hs, msg: Bytes, scheme: nat)
  {
    Signature(msg).Some? && c.signatureOk(scheme, Leaf(h), Signature(msg).value, c.hash(h.tr))
  }

  predicate FinishedVerifies(c: Crypto, h: Hs, msg: Bytes)
  {
    |msg| == FINISHED_LEN && msg[HEADER..] == c.verifyData(h.peerSecret, c.hash(h.tr))
  }

  function OwnFinished(c: Crypto, h: Hs): Bytes
  {
    [FINISHED, 0, 0, VERIFY_DATA] + c.verifyData(h.selfSecret, c.hash(h.tr))
  }

  const CERT_MSG := Message(CERTIFICATE, PROT_HANDSHAKE)
  const CV_MSG := Message(CERT_VERIFY, PROT_HANDSHAKE)
  const FIN_MSG := Message(FINISHED, PROT_HANDSHAKE)
  const DONE_MSG := Message(HANDSHAKE_DONE, PROT_1RTT)

  /** A Finished joins the transcript, and the first one fixes where the application
      secrets are derived. */
  function Fold(h: Hs, fin: Bytes): Hs
  {
    if !Fits(h, fin) then h
    else h.(tr := h.tr + fin, masterLen := if h.masterLen == 0 then |h.tr| + |fin| else h.masterLen)
  }

  function InstallApp(h: Hs): Hs
    requires WellFormed(h.sched) && |h.keys.keys| == |h.keys.installed| == LEVELS
  {
    var which := if h.isServer then SERVER_AP else CLIENT_AP;
    if Have(h.sched.stage, which) then h.(keys := Installed(h.keys, LEVEL_ONERTT, h.sched.keys[which])) else h
  }

  ghost predicate Shaped(h: Hs)
  {
    WellFormed(h.sched) && |h.keys.keys| == |h.keys.installed| == LEVELS && h.masterLen <= |h.tr|
  }

  /** The order machine advances before the chain is looked at. */
  function CertStep(c: Crypto, h: Hs, msg: Bytes): Hs
  {
    if !StepLegal(h.order, CERT_MSG) then h
    else
      var h1 := h.(order := Recv(h.order, CERT_MSG));
      if !ChainAccepted(c, h, msg) || !Fits(h, msg) then h1
      else h1.(tr := h.tr + msg, certs := Shift(CertChain(msg).value, |h.tr|))
  }

  /** The signature is checked before the order machine advances. */
  function CertVerifyStep(c: Crypto, h: Hs, msg: Bytes, scheme: nat): Hs
  {
    if !SignatureVerifies(c, h, msg, scheme) || !StepLegal(h.order, CV_MSG) then h
    else
      h.(order := Recv(h.order, CV_MSG).(certVerified := true), tr := if Fits(h, msg) then h.tr + msg else h.tr)
  }

  function FinishedStep(c: Crypto, h: Hs, msg: Bytes): Hs
  {
    if !FinishedVerifies(c, h, msg) || !StepLegal(h.order, FIN_MSG) then h
    else Fold(h.(order := Recv(h.order, FIN_MSG)), msg)
  }

  function ApplicationStep(c: Crypto, h: Hs): Hs
    requires Shaped(h)
  {
    if !h.order.complete then h
    else InstallApp(h.(sched := MasterStage(c, h.sched, h.tr[..h.masterLen])))
  }

  function DoneStep(h: Hs): Hs
    requires Shaped(h)
  {
    if !StepLegal(h.order, DONE_MSG) then h
    else
      var h1 := h.(order := Recv(h.order, DONE_MSG));
      if h1.order.confirmed then h1.(keys := Discarded(h1.keys, LEVEL_HANDSHAKE)) else h1
  }

  function Step(c: Crypto, h: Hs, call: Call): (h': Hs)
    requires Shaped(h)
    ensures Shaped(h')
  {
    match call
    case SetPolicy(p) => h.(policy := p)
    case SetStore(s) => h.(store := s)
    case RecvCert(msg) => CertStep(c, h, msg)
    case RecvCertVerify(msg, scheme) => CertVerifyStep(c, h, msg, scheme)
    case RecvFinished(msg) => FinishedStep(c, h, msg)
    case SendFinished(cap) => if cap < FINISHED_LEN then h else Fold(h, OwnFinished(c, h))
    case AdvanceApplication => ApplicationStep(c, h)
    case HandshakeDone => DoneStep(h)
  }

  // ---- where a run starts ----

  const NO_KEYS := Keys([[], [], []], [false, false, false])

  /** The driver handed over with its handshake secret derived and installed. */
  function ReadySched(c: Crypto, ecdhe: Bytes, hello: Bytes): (s: Sched)
    requires |ecdhe| == 32
    ensures WellFormed(s) && s.stage == 1
  {
    HandshakeStage(c, Sched(0, [], [[], [], [], []]), ecdhe, hello)
  }

  const PRIMED := Order(3, false, PROT_HANDSHAKE, false, false)

  /** The order machine walked through the flight exchanged before this driver takes over. */
  function Primed(o: Order): Order
  {
    Recv(Recv(Recv(o, FLIGHT[0]), FLIGHT[1]), FLIGHT[2])
  }

  /** A driver taking over order machine, schedule and keys as they are. */
  function Begin(c: Crypto, order: Order, sched: Sched, keys: Keys, isServer: bool, shared: Bytes,
                 transcript: Bytes): Hs
  {
    var hs := c.handshakeSecret(shared);
    Hs(Primed(order), if |transcript| <= TRANSCRIPT_MAX then transcript else [], 0, [], Policy(0, []), None, sched,
       keys, c.handshakeTraffic(hs, transcript, !isServer), c.handshakeTraffic(hs, transcript, isServer), isServer)
  }

  /** The same over a fresh order machine and a schedule just derived from the shared secret. */
  function Start(c: Crypto, isServer: bool, ecdhe: Bytes, hello: Bytes, transcript: Bytes): (h: Hs)
    requires |ecdhe| == 32
    ensures Shaped(h) && h.order == PRIMED
  {
    var sched := ReadySched(c, ecdhe, hello);
    Begin(c, START, sched, Installed(NO_KEYS, LEVEL_HANDSHAKE, sched.keys[CLIENT_HS]), isServer, ecdhe, transcript)
  }

  /** Replaying ClientHello, ServerHello and EncryptedExtensions on a new order machine. */
  lemma {:induction false} Primes()
    ensures Primed(START) == PRIMED && Consistent(PRIMED)
  {
  }

  /** The state after the first n calls. */
  function After(c: Crypto, h0: Hs, calls: seq<Call>, n: nat): (h: Hs)
    requires Shaped(h0) && n <= |calls|
    ensures Shaped(h)
  {
    if n == 0 then h0 else Step(c, After(c, h0, calls, n - 1), calls[n - 1])
  }

  // ---- what every step keeps ----

  /** Keys and lengths follow the order machine. */
  ghost predicate Inv(c: Crypto, h: Hs)
  {
    Shaped(h) && Consistent(h.order) && h.order.recvCount >= 3 && |h.tr| <= TRANSCRIPT_MAX
    && (h.order.certVerified ==> h.order.recvCount >= 5)
    && (h.order.recvCount == 3 ==> h.certs == [])
    && (forall i :: 0 <= i < |h.certs| ==> Within(h.certs[i], |h.tr|))
    && KeysInOrder(h) && MasterFixed(c, h)
  }

  /** 1-RTT keys only once complete; Handshake keys gone only once confirmed. */
  ghost predicate KeysInOrder(h: Hs)
  {
    |h.keys.installed| == LEVELS
    && (h.keys.installed[LEVEL_ONERTT] ==> h.order.complete)
    && (!h.keys.installed[LEVEL_HANDSHAKE] ==> h.order.confirmed)
  }

  /** Once complete nothing can move masterLen any more, so the application keys are and
      stay those of the transcript up to it. */
  ghost predicate MasterFixed(c: Crypto, h: Hs)
    requires Shaped(h)
  {
    h.sched.stage >= 1
    && (h.order.complete && h.masterLen == 0 ==> |h.tr| + FINISHED_LEN > TRANSCRIPT_MAX)
    && (h.sched.stage == 2 ==> h.order.complete && AppKeys(c, h, false) && AppKeys(c, h, true))
    && (h.keys.installed[LEVEL_ONERTT] ==>
          h.sched.stage == 2 && h.keys.keys[LEVEL_ONERTT] == c.appKeys(h.sched.master, h.tr[..h.masterLen], h.isServer))
  }

  ghost predicate AppKeys(c: Crypto, h: Hs, server: bool)
    requires Shaped(h)
  {
    h.sched.keys[if server then SERVER_AP else CLIENT_AP] == c.appKeys(h.sched.master, h.tr[..h.masterLen], server)
  }

  /** What a step never takes back. */
  ghost predicate Grows(h: Hs, h': Hs)
    requires Shaped(h) && Shaped(h')
  {
    h.tr <= h'.tr && (h.masterLen != 0 ==> h'.masterLen == h.masterLen) && (h.certs != [] ==> h'.certs == h.certs)
    && h.order.recvCount <= h'.order.recvCount && (h.order.certVerified ==> h'.order.certVerified)
    && h'.peerSecret == h.peerSecret && h'.selfSecret == h.selfSecret && h'.isServer == h.isServer
    && h'.sched.master == h.sched.master
  }

  lemma {:induction false} CertKeeps(c: Crypto, h: Hs, msg: Bytes)
    requires Inv(c, h)
    ensures Inv(c, CertStep(c, h, msg)) && Grows(h, CertStep(c, h, msg))
  {
    hide ChainAcceptedBy, CertChain, Consistent;
    RecvConsistent(h.order, CERT_MSG);
    ConsistentFacts(h.order);
    if StepLegal(h.order, CERT_MSG) {
      ConsistentFacts(Recv(h.order, CERT_MSG));
      assert (h.tr + msg)[..h.masterLen] == h.tr[..h.masterLen];
      if ChainAccepted(c, h, msg) {
        AcceptedNonempty(c, h.policy, h.store, msg);
      }
    }
  }

  lemma {:induction false} ConsistentFacts(o: Order)
    requires Consistent(o)
    ensures o.recvCount <= STEPS && (o.complete <==> o.recvCount >= 6) && (o.confirmed <==> o.recvCount == 7)
  {
  }

  lemma {:induction false} CertVerifyKeeps(c: Crypto, h: Hs, msg: Bytes, scheme: nat)
    requires Inv(c, h)
    ensures Inv(c, CertVerifyStep(c, h, msg, scheme)) && Grows(h, CertVerifyStep(c, h, msg, scheme))
  {
    hide SignatureVerifies, Consistent;
    RecvConsistent(h.order, CV_MSG);
    ConsistentFacts(h.order);
    if StepLegal(h.order, CV_MSG) {
      ConsistentFacts(Recv(h.order, CV_MSG));
      Marked(Recv(h.order, CV_MSG));
      assert (h.tr + msg)[..h.masterLen] == h.tr[..h.masterLen];
    }
  }

  /** Folding a Finished in after completion cannot set masterLen: where it could, there
      was no room for the one that completed. */
  lemma {:induction false} FoldKeeps(c: Crypto, h: Hs, fin: Bytes)
    requires Inv(c, h) && |fin| == FINISHED_LEN
    ensures Inv(c, Fold(h, fin)) && Grows(h, Fold(h, fin))
  {
    hide Consistent;
    assert (h.tr + fin)[..h.masterLen] == h.tr[..h.masterLen];
  }

  lemma {:induction false} FinishedKeeps(c: Crypto, h: Hs, msg: Bytes)
    requires Inv(c, h)
    ensures Inv(c, FinishedStep(c, h, msg)) && Grows(h, FinishedStep(c, h, msg))
  {
    hide Consistent;
    RecvConsistent(h.order, FIN_MSG);
    ConsistentFacts(h.order);
    if StepLegal(h.order, FIN_MSG) && FinishedVerifies(c, h, msg) {
      ConsistentFacts(Recv(h.order, FIN_MSG));
      assert !h.order.complete;
      assert (h.tr + msg)[..h.masterLen] == h.tr[..h.masterLen];
    }
  }

  lemma {:induction false} ApplicationKeeps(c: Crypto, h: Hs)
    requires Inv(c, h)
    ensures Inv(c, ApplicationStep(c, h)) && Grows(h, ApplicationStep(c, h))
  {
    hide Consistent;
    StagesOnce(c, h.sched, [], h.tr[..h.masterLen], []);
  }

  lemma {:induction false} DoneKeeps(c: Crypto, h: Hs)
    requires Inv(c, h)
    ensures Inv(c, DoneStep(h)) && Grows(h, DoneStep(h))
  {
    hide Consistent;
    RecvConsistent(h.order, DONE_MSG);
    ConsistentFacts(h.order);
    if StepLegal(h.order, DONE_MSG) {
      ConsistentFacts(Recv(h.order, DONE_MSG));
    }
  }

  lemma {:induction false} StepKeeps(c: Crypto, h: Hs, call: Call)
    requires Sound(c) && Inv(c, h)
    ensures Inv(c, Step(c, h, call)) && Grows(h, Step(c, h, call))
  {
    hide CertStep, CertVerifyStep, FinishedStep, ApplicationStep, DoneStep, Fold, Consistent;
    match call
    case SetPolicy(p) =>
    case SetStore(st) =>
    case RecvCert(msg) => CertKeeps(c, h, msg);
    case RecvCertVerify(msg, scheme) => CertVerifyKeeps(c, h, msg, scheme);
    case RecvFinished(msg) => FinishedKeeps(c, h, msg);
    case SendFinished(cap) => FoldKeeps(c, h, OwnFinished(c, h));
    case AdvanceApplication => ApplicationKeeps(c, h);
    case HandshakeDone => DoneKeeps(c, h);
  }

  lemma {:induction false} StartInv(c: Crypto, isServer: bool, ecdhe: Bytes, hello: Bytes, transcript: Bytes)
    requires |ecdhe| == 32
    ensures Inv(c, Start(c, isServer, ecdhe, hello, transcript))
  {
    Primes();
  }

  // ---- what every run keeps ----

  lemma {:induction false} RunInv(c: Crypto, h0: Hs, calls: seq<Call>, n: nat)
    requires Sound(c) && Inv(c, h0) && n <= |calls|
    ensures Inv(c, After(c, h0, calls, n))
  {
    hide Inv, Step;
    InvShaped(c, h0);
    if n > 0 {
      RunInv(c, h0, calls, n - 1);
      StepKeeps(c, After(c, h0, calls, n - 1), calls[n - 1]);
    }
  }

  lemma {:induction false} InvShaped(c: Crypto, h: Hs)
    requires Inv(c, h)
    ensures Shaped(h)
  {
  }

  lemma {:induction false} RunGrows(c: Crypto, h0: Hs, calls: seq<Call>, m: nat, n: nat)
    requires Sound(c) && Inv(c, h0) && m <= n <= |calls|
    ensures Grows(After(c, h0, calls, m), After(c, h0, calls, n))
    decreases n
  {
    hide Inv, Step;
    InvShaped(c, h0);
    if m < n {
      RunGrows(c, h0, calls, m, n - 1);
      RunInv(c, h0, calls, n - 1);
      StepKeeps(c, After(c, h0, calls, n - 1), calls[n - 1]);
    }
  }

  // ---- completion is authentication ----

  /** A Certificate in its turn whose chain is accepted and which is stored. */
  ghost predicate AcceptsCert(c: Crypto, h: Hs, call: Call)
  {
    call.RecvCert? && StepLegal(h.order, CERT_MSG) && ChainAccepted(c, h, call.msg) && Fits(h, call.msg)
  }

  /** A CertificateVerify in its turn, its signature good under the stored leaf. */
  ghost predicate VerifiesCert(c: Crypto, h: Hs, call: Call)
  {
    call.RecvCertVerify? && SignatureVerifies(c, h, call.msg, call.scheme) && StepLegal(h.order, CV_MSG)
  }

  /** A Finished in its turn with the right verify_data. */
  ghost predicate VerifiesFinished(c: Crypto, h: Hs, call: Call)
  {
    call.RecvFinished? && FinishedVerifies(c, h, call.msg) && StepLegal(h.order, FIN_MSG)
  }

  ghost predicate StoredBy(c: Crypto, h0: Hs, calls: seq<Call>, n: nat, leaf: Bytes, i: nat)
    requires Shaped(h0) && n <= |calls|
  {
    i < n && AcceptsCert(c, After(c, h0, calls, i), calls[i])
    && CertChain(calls[i].msg).Some? && CertChain(calls[i].msg).value != []
    && leaf == Cut(calls[i].msg, CertChain(calls[i].msg).value[0])
  }

  lemma {:induction false} LeafStable(h: Hs, h': Hs)
    requires Shaped(h) && Shaped(h') && Grows(h, h') && h.certs != [] && Within(h.certs[0], |h.tr|)
    ensures Leaf(h') == Leaf(h)
  {
    var s := h.certs[0];
    assert h'.tr[..|h.tr|][s.off..s.off + s.len] == h'.tr[s.off..s.off + s.len];
  }

  /** The stored leaf is the leaf of the message, read at its new place. */
  lemma {:induction false} LeafStored(c: Crypto, h: Hs, msg: Bytes)
    requires StepLegal(h.order, CERT_MSG) && ChainAccepted(c, h, msg) && Fits(h, msg)
    ensures CertChain(msg).Some? && CertChain(msg).value != []
    ensures CertStep(c, h, msg).certs != [] && Leaf(CertStep(c, h, msg)) == Cut(msg, CertChain(msg).value[0])
  {
    hide CertChain, ChainAcceptedBy;
    AcceptedNonempty(c, h.policy, h.store, msg);
    var e := CertChain(msg).value[0];
    assert (h.tr + msg)[|h.tr| + e.off..|h.tr| + e.off + e.len] == msg[e.off..e.off + e.len];
  }

  lemma {:induction false} CertsOnlyFromCert(c: Crypto, h: Hs, call: Call)
    requires Shaped(h) && h.certs == [] && Step(c, h, call).certs != []
    ensures AcceptsCert(c, h, call)
  {
    hide ChainAccepted, CertChain;
  }

  /** Whatever leaf is stored came in one accepted Certificate and has not changed since. */
  lemma {:induction false} StoredLeaf(c: Crypto, h0: Hs, calls: seq<Call>, n: nat)
    requires Sound(c) && Inv(c, h0) && h0.certs == [] && n <= |calls| && After(c, h0, calls, n).certs != []
    ensures exists i :: StoredBy(c, h0, calls, n, Leaf(After(c, h0, calls, n)), i)
  {
    hide Inv, Step, AcceptsCert, CertChain, Leaf, Cut;
    InvShaped(c, h0);
    var h := After(c, h0, calls, n - 1);
    RunInv(c, h0, calls, n - 1);
    if h.certs != [] {
      StoredLeaf(c, h0, calls, n - 1);
      var i :| StoredBy(c, h0, calls, n - 1, Leaf(h), i);
      StepKeeps(c, h, calls[n - 1]);
      CertsWithin(c, h);
      LeafStable(h, After(c, h0, calls, n));
      assert StoredBy(c, h0, calls, n, Leaf(After(c, h0, calls, n)), i);
    } else {
      CertsOnlyFromCert(c, h, calls[n - 1]);
      AcceptStep(c, h, calls[n - 1]);
      LeafStored(c, h, calls[n - 1].msg);
      assert StoredBy(c, h0, calls, n, Leaf(After(c, h0, calls, n)), n - 1);
    }
  }

  lemma {:induction false} CertsWithin(c: Crypto, h: Hs)
    requires Inv(c, h) && h.certs != []
    ensures Within(h.certs[0], |h.tr|)
  {
  }

  lemma {:induction false} AcceptStep(c: Crypto, h: Hs, call: Call)
    requires Shaped(h) && AcceptsCert(c, h, call)
    ensures call.RecvCert? && Step(c, h, call) == CertStep(c, h, call.msg)
    ensures StepLegal(h.order, CERT_MSG) && ChainAccepted(c, h, call.msg) && Fits(h, call.msg)
  {
    hide CertStep, ChainAccepted;
  }

  ghost predicate VerifiedBy(c: Crypto, h0: Hs, calls: seq<Call>, n: nat, i: nat, j: nat)
    requires Shaped(h0) && n <= |calls|
  {
    i < j < n && VerifiesCert(c, After(c, h0, calls, j), calls[j])
    && StoredBy(c, h0, calls, j, Leaf(After(c, h0, calls, j)), i)
  }

  lemma {:induction false} GateOnlyFromCertVerify(c: Crypto, h: Hs, call: Call)
    requires Shaped(h) && !h.order.certVerified && Step(c, h, call).order.certVerified
    ensures VerifiesCert(c, h, call)
  {
    hide ChainAccepted, SignatureVerifies;
  }

  /** A signature that verifies has a leaf to verify under. */
  lemma {:induction false} VerifiedHasLeaf(c: Crypto, h: Hs, call: Call)
    requires Sound(c) && VerifiesCert(c, h, call)
    ensures h.certs != []
  {
  }

  lemma {:induction false} VerifiedLeaf(c: Crypto, h0: Hs, calls: seq<Call>, n: nat)
    requires Sound(c) && Inv(c, h0) && h0.order == PRIMED && n <= |calls| && After(c, h0, calls, n).order.certVerified
    ensures exists i, j :: VerifiedBy(c, h0, calls, n, i, j)
  {
    hide Inv, Step, VerifiesCert, StoredBy, Leaf;
    InvShaped(c, h0);
    PrimedNoCerts(c, h0);
    var h := After(c, h0, calls, n - 1);
    if h.order.certVerified {
      VerifiedLeaf(c, h0, calls, n - 1);
      var i, j :| VerifiedBy(c, h0, calls, n - 1, i, j);
      assert VerifiedBy(c, h0, calls, n, i, j);
    } else {
      GateOnlyFromCertVerify(c, h, calls[n - 1]);
      VerifiedHasLeaf(c, h, calls[n - 1]);
      StoredLeaf(c, h0, calls, n - 1);
      var i :| StoredBy(c, h0, calls, n - 1, Leaf(h), i);
      StoredBefore(c, h0, calls, n - 1, Leaf(h), i);
      assert VerifiedBy(c, h0, calls, n, i, n - 1);
    }
  }

  lemma {:induction false} StoredBefore(c: Crypto, h0: Hs, calls: seq<Call>, n: nat, leaf: Bytes, i: nat)
    requires Shaped(h0) && n <= |calls| && StoredBy(c, h0, calls, n, leaf, i)
    ensures i < n
  {
  }

  lemma {:induction false} PrimedNoCerts(c: Crypto, h: Hs)
    requires Inv(c, h) && h.order == PRIMED
    ensures h.certs == []
  {
  }

  /** Call i stored the leaf, call j verified a signature under that very leaf, and call k
      verified a Finished, in that order. */
  ghost predicate Authentic(c: Crypto, h0: Hs, calls: seq<Call>, i: nat, j: nat, k: nat)
    requires Shaped(h0)
  {
    j < k < |calls| && VerifiedBy(c, h0, calls, k, i, j) && VerifiesFinished(c, After(c, h0, calls, k), calls[k])
  }

  lemma {:induction false} CompleteOnlyFromFinished(c: Crypto, h: Hs, call: Call)
    requires Inv(c, h) && !h.order.complete && Step(c, h, call).order.complete
    ensures VerifiesFinished(c, h, call) && h.order.certVerified
  {
    hide ChainAccepted, SignatureVerifies, FinishedVerifies;
  }

  lemma {:induction false} FinishedCompletes(c: Crypto, h: Hs, call: Call)
    requires Shaped(h) && VerifiesFinished(c, h, call)
    ensures Step(c, h, call).order.complete
  {
    hide FinishedVerifies;
  }

  lemma {:induction false} FirstComplete(c: Crypto, h0: Hs, calls: seq<Call>, n: nat) returns (k: nat)
    requires Sound(c) && Inv(c, h0) && !h0.order.complete && n <= |calls| && After(c, h0, calls, n).order.complete
    ensures k < n && !After(c, h0, calls, k).order.complete && After(c, h0, calls, k + 1).order.complete
  {
    hide Inv, Step;
    InvShaped(c, h0);
    if After(c, h0, calls, n - 1).order.complete {
      k := FirstComplete(c, h0, calls, n - 1);
    } else {
      k := n - 1;
    }
  }

  /** The handshake is complete after a run if and only if, in that run, a Certificate was
      accepted, then a CertificateVerify checked against the leaf it stored, then a
      Finished verified. */
  lemma {:induction false} CompleteIffAuthentic(c: Crypto, h0: Hs, calls: seq<Call>)
    requires Sound(c) && Inv(c, h0) && h0.order == PRIMED
    ensures After(c, h0, calls, |calls|).order.complete <==> exists i, j, k :: Authentic(c, h0, calls, i, j, k)
  {
    hide Inv, Step, VerifiedBy, VerifiesFinished;
    InvShaped(c, h0);
    var n := |calls|;
    if After(c, h0, calls, n).order.complete {
      var k := FirstComplete(c, h0, calls, n);
      RunInv(c, h0, calls, k);
      CompleteOnlyFromFinished(c, After(c, h0, calls, k), calls[k]);
      VerifiedLeaf(c, h0, calls, k);
      var i, j :| VerifiedBy(c, h0, calls, k, i, j);
      VerifiedBefore(c, h0, calls, k, i, j);
      assert Authentic(c, h0, calls, i, j, k);
    }
    if i: nat, j: nat, k: nat :| Authentic(c, h0, calls, i, j, k) {
      FinishedCompletes(c, After(c, h0, calls, k), calls[k]);
      StaysComplete(c, h0, calls, k + 1, n);
    }
  }

  lemma {:induction false} VerifiedBefore(c: Crypto, h0: Hs, calls: seq<Call>, n: nat, i: nat, j: nat)
    requires Shaped(h0) && n <= |calls| && VerifiedBy(c, h0, calls, n, i, j)
    ensures j < n
  {
  }

  lemma {:induction false} StaysComplete(c: Crypto, h0: Hs, calls: seq<Call>, m: nat, n: nat)
    requires Sound(c) && Inv(c, h0) && m <= n <= |calls| && After(c, h0, calls, m).order.complete
    ensures After(c, h0, calls, n).order.complete
  {
    hide Step;
    RunInv(c, h0, calls, m);
    RunInv(c, h0, calls, n);
    RunGrows(c, h0, calls, m, n);
  }

  /** After a Certificate that was not accepted: its turn is past and nothing is stored. */
  ghost predicate Shut(h: Hs)
  {
    h.order.recvCount == 4 && h.certs == [] && !h.order.complete
  }

  lemma {:induction false} StaysShut(c: Crypto, h: Hs, call: Call)
    requires Sound(c) && Shaped(h) && Shut(h)
    ensures Shut(Step(c, h, call))
  {
    hide ChainAccepted, FinishedVerifies;
  }

  lemma {:induction false} RejectShuts(c: Crypto, h: Hs, call: Call)
    requires Inv(c, h) && call.RecvCert? && StepLegal(h.order, CERT_MSG) && !AcceptsCert(c, h, call)
    ensures Shut(Step(c, h, call))
  {
    hide ChainAccepted;
  }

  /** A rejected Certificate makes completion unreachable, whatever calls follow. */
  lemma {:induction false} RejectedNeverCompletes(c: Crypto, h0: Hs, calls: seq<Call>, i: nat, n: nat)
    requires Sound(c) && Inv(c, h0) && i < n <= |calls|
    requires calls[i].RecvCert? && StepLegal(After(c, h0, calls, i).order, CERT_MSG)
    requires !AcceptsCert(c, After(c, h0, calls, i), calls[i])
    ensures Shut(After(c, h0, calls, n)) && !After(c, h0, calls, n).order.complete
    decreases n
  {
    hide Inv, Step, AcceptsCert;
    InvShaped(c, h0);
    if n == i + 1 {
      RunInv(c, h0, calls, i);
      RejectShuts(c, After(c, h0, calls, i), calls[i]);
    } else {
      RejectedNeverCompletes(c, h0, calls, i, n - 1);
      StaysShut(c, After(c, h0, calls, n - 1), calls[n - 1]);
    }
  }

  // ---- keys, transcript and stored leaf over whole runs ----

  /** At every point of every run: 1-RTT keys only when complete, Handshake keys dropped
      only when confirmed, and the 1-RTT keys are those of the transcript up to masterLen. */
  lemma {:induction false} KeysFollowHandshake(c: Crypto, isServer: bool, ecdhe: Bytes, hello: Bytes, transcript: Bytes,
                                               calls: seq<Call>, n: nat)
    requires Sound(c) && |ecdhe| == 32 && n <= |calls|
    ensures var h := After(c, Start(c, isServer, ecdhe, hello, transcript), calls, n);
            (h.keys.installed[LEVEL_ONERTT] ==> h.order.complete)
            && (!h.keys.installed[LEVEL_HANDSHAKE] ==> h.order.confirmed)
            && (h.keys.installed[LEVEL_ONERTT] ==>
                  h.keys.keys[LEVEL_ONERTT]
                  == c.appKeys(c.masterSecret(c.handshakeSecret(ecdhe)), h.tr[..h.masterLen], isServer))
  {
    hide Step;
    var h0 := Start(c, isServer, ecdhe, hello, transcript);
    StartInv(c, isServer, ecdhe, hello, transcript);
    RunInv(c, h0, calls, n);
    RunGrows(c, h0, calls, 0, n);
  }

  /** masterLen is set once, and neither the transcript up to it nor the stored leaf ever
      changes. */
  lemma {:induction false} SetOnce(c: Crypto, h0: Hs, calls: seq<Call>, m: nat, n: nat)
    requires Sound(c) && Inv(c, h0) && m <= n <= |calls|
    ensures var h, h' := After(c, h0, calls, m), After(c, h0, calls, n);
            (h.masterLen != 0 ==> h'.masterLen == h.masterLen && h'.tr[..h.masterLen] == h.tr[..h.masterLen])
            && (h.certs != [] ==> Leaf(h') == Leaf(h))
  {
    hide Step;
    var h, h' := After(c, h0, calls, m), After(c, h0, calls, n);
    RunInv(c, h0, calls, m);
    RunGrows(c, h0, calls, m, n);
    assert h'.tr[..|h.tr|][..h.masterLen] == h'.tr[..h.masterLen];
    if h.certs != [] {
      LeafStable(h, h');
    }
  }
}
