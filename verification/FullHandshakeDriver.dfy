/** The handshake driver itself (src/tls/handshake/core/fullhs/fullhs.c): one buffer, one
    order machine, one key schedule and one key set, each call proved to be its step. */
module FullHandshakeDriver {
  import opened Arith
  import opened Options
  import opened HandshakeCrypto
  import opened HsOrder
  import opened KeySchedule
  import opened KeySets
  import opened FullHandshake

  const NO_SCHED := Sched(0, [], [[], [], [], []])

  /** The driver below this one, as far as it hands anything on. */
  datatype Tls = Tls(order: Order, sched: Sched, keys: Keys, isServer: bool, priv: Bytes, shared: Bytes, ready: bool)

  predicate AllZero(b: Bytes)
  {
    forall i :: 0 <= i < |b| ==> b[i] == 0
  }

  /** The shared secret a hello message gives, if it carries a key share. */
  function Secret(c: Crypto, isServer: bool, priv: Bytes, msg: Bytes): Option<Bytes>
  {
    var pub := c.keyShare(isServer, msg);
    if pub.Some? then Some(c.ecdhe(priv, pub.value)) else None
  }

  predicate Usable(shared: Option<Bytes>)
  {
    shared.Some? && |shared.value| == 32 && !AllZero(shared.value)
  }

  /** One hello message: no key share changes nothing, an all-zero secret is kept but refused,
      and a schedule past its first stage refuses too, the new secret kept all the same. */
  function Derived(c: Crypto, t: Tls, msg: Bytes): Tls
    requires WellFormed(t.sched) && |t.keys.keys| == |t.keys.installed| == LEVELS
  {
    var shared := Secret(c, t.isServer, t.priv, msg);
    if shared.None? then t
    else
      var t1 := t.(shared := shared.value);
      if t.sched.stage != 0 || !Usable(shared) then t1
      else
        var sched := HandshakeStage(c, t.sched, shared.value, msg);
        t1.(sched := sched, keys := Installed(t.keys, LEVEL_HANDSHAKE, sched.keys[CLIENT_HS]), ready := true)
  }

  function FreshTls(isServer: bool, priv: Bytes): Tls
  {
    Tls(START, NO_SCHED, NO_KEYS, isServer, priv, Zeros(), false)
  }

  /** A hello message that can make a driver ready: its shared secret is 32 bytes, not all zero. */
  predicate Readies(c: Crypto, isServer: bool, priv: Bytes, msg: Bytes)
  {
    Usable(Secret(c, isServer, priv, msg))
  }

  /** The first message that can. */
  function FirstReady(c: Crypto, isServer: bool, priv: Bytes, msgs: seq<Bytes>): (k: Option<nat>)
    ensures k.Some? ==> k.value < |msgs| && Readies(c, isServer, priv, msgs[k.value])
    ensures forall i :: 0 <= i < |msgs| && Readies(c, isServer, priv, msgs[i]) ==> k.Some? && k.value <= i
  {
    if msgs == [] then None
    else
      var k := FirstReady(c, isServer, priv, msgs[..|msgs| - 1]);
      if k.None? && Readies(c, isServer, priv, msgs[|msgs| - 1]) then Some(|msgs| - 1) else k
  }

  /** The shared secret of the last message with a key share. */
  function LastShared(c: Crypto, isServer: bool, priv: Bytes, msgs: seq<Bytes>): Bytes
  {
    if msgs == [] then Zeros()
    else
      var shared := Secret(c, isServer, priv, msgs[|msgs| - 1]);
      if shared.Some? then shared.value else LastShared(c, isServer, priv, msgs[..|msgs| - 1])
  }

  /** A new driver after these hello messages. */
  function Fed(c: Crypto, isServer: bool, priv: Bytes, msgs: seq<Bytes>): (t: Tls)
    ensures WellFormed(t.sched) && |t.keys.keys| == |t.keys.installed| == LEVELS
  {
    if msgs == [] then FreshTls(isServer, priv)
    else Derived(c, Fed(c, isServer, priv, msgs[..|msgs| - 1]), msgs[|msgs| - 1])
  }

  /** Over any messages: order, schedule and keys are those of the first message that can make
      the driver ready, while the shared secret is that of the last one with a key share. */
  lemma {:induction false} FirstHelloKeys(c: Crypto, isServer: bool, priv: Bytes, msgs: seq<Bytes>)
    ensures var k := FirstReady(c, isServer, priv, msgs);
            var t := if k.Some? then Derived(c, FreshTls(isServer, priv), msgs[k.value]) else FreshTls(isServer, priv);
            Fed(c, isServer, priv, msgs) == t.(shared := LastShared(c, isServer, priv, msgs)) && t.ready == k.Some?
  {
    if msgs != [] {
      FirstHelloKeys(c, isServer, priv, msgs[..|msgs| - 1]);
    }
  }

  /** A key share whose shared secret has 32 bytes, one of them not zero. */
  ghost predicate GoodShare(c: Crypto, isServer: bool, priv: Bytes, msg: Bytes)
  {
    var pub := c.keyShare(isServer, msg);
    pub.Some? && HasNonzero(c.ecdhe(priv, pub.value))
  }

  ghost predicate HasNonzero(secret: Bytes)
  {
    |secret| == 32 && exists k :: 0 <= k < 32 && secret[k] > 0
  }

  /** A new driver is ready exactly once such a key share came. */
  lemma {:induction false} ReadyIff(c: Crypto, isServer: bool, priv: Bytes, msgs: seq<Bytes>)
    ensures Fed(c, isServer, priv, msgs).ready <==>
            exists i :: 0 <= i < |msgs| && GoodShare(c, isServer, priv, msgs[i])
  {
    FirstHelloKeys(c, isServer, priv, msgs);
    forall i | 0 <= i < |msgs|
      ensures GoodShare(c, isServer, priv, msgs[i]) <==> Readies(c, isServer, priv, msgs[i])
    {
    }
  }

  /** What a driver hands over. */
  function BeginFrom(c: Crypto, t: Tls, transcript: Bytes): Hs
  {
    Begin(c, t.order, t.sched, t.keys, t.isServer, t.shared, transcript)
  }

  /** A ready driver whose last key share gave the secret of the first hands over exactly the
      start of a run. */
  lemma {:induction false} HandoverIsStart(c: Crypto, isServer: bool, priv: Bytes, msgs: seq<Bytes>, transcript: Bytes)
    ensures var t, k := Fed(c, isServer, priv, msgs), FirstReady(c, isServer, priv, msgs);
            (t.ready <==> k.Some?)
            && (k.Some? && Some(t.shared) == Secret(c, isServer, priv, msgs[k.value]) ==>
                  |t.shared| == 32 && !AllZero(t.shared)
                  && BeginFrom(c, t, transcript) == Start(c, isServer, t.shared, msgs[k.value], transcript))
  {
    FirstHelloKeys(c, isServer, priv, msgs);
  }

  /** Whatever the messages, a ready driver hands over a state with the invariant of runs;
      only its two traffic secrets can differ from the start of one. */
  lemma {:induction false} HandoverKeepsInv(c: Crypto, isServer: bool, priv: Bytes, msgs: seq<Bytes>, transcript: Bytes)
    ensures var k, h := FirstReady(c, isServer, priv, msgs), BeginFrom(c, Fed(c, isServer, priv, msgs), transcript);
            k.Some? ==>
              var first := Secret(c, isServer, priv, msgs[k.value]);
              Usable(first) && Inv(c, h) && h.order == PRIMED && h.masterLen == 0
              && h == Start(c, isServer, first.value, msgs[k.value], transcript)
                      .(peerSecret := h.peerSecret, selfSecret := h.selfSecret)
  {
    hide Inv;
    FirstHelloKeys(c, isServer, priv, msgs);
    var k, h := FirstReady(c, isServer, priv, msgs), BeginFrom(c, Fed(c, isServer, priv, msgs), transcript);
    if k.Some? {
      var first := Secret(c, isServer, priv, msgs[k.value]).value;
      StartInv(c, isServer, first, msgs[k.value], transcript);
      SecretsKeepInv(c, Start(c, isServer, first, msgs[k.value], transcript), h.peerSecret, h.selfSecret);
    }
  }

  lemma {:induction false} SecretsKeepInv(c: Crypto, h: Hs, peer: Bytes, self: Bytes)
    requires Inv(c, h)
    ensures Inv(c, h.(peerSecret := peer, selfSecret := self))
  {
    var h' := h.(peerSecret := peer, selfSecret := self);
    assert AppKeys(c, h, false) == AppKeys(c, h', false) && AppKeys(c, h, true) == AppKeys(c, h', true);
  }

  /** Secrets and traffic secrets passed through, so that a secret shows where it ends up. */
  const PASSED := Crypto(
    (server: bool, msg: Bytes) => Some(msg), (priv: Bytes, pub: Bytes) => pub,
    (b: Bytes) => [], (b: Bytes) => b, (b: Bytes) => b,
    (s: Bytes, t: Bytes, server: bool) => s, (s: Bytes, t: Bytes, server: bool) => s,
    (m: Bytes, t: Bytes, server: bool) => m,
    (s: Bytes, th: Bytes) => Zeros(),
    (cert: Bytes) => true, (cert: Bytes, now: nat) => true, (cert: Bytes, host: Bytes) => true,
    (scheme: nat, cert: Bytes, sig: Bytes, th: Bytes) => cert != [])

  /** Two hello messages with different secrets, the first one usable: the schedule is the
      first's and the traffic secrets are the second's, so this is the start of no run. */
  lemma {:induction false} SecondHelloMixes(isServer: bool, priv: Bytes, first: Bytes, second: Bytes, transcript: Bytes)
    requires |first| == |second| == 32 && !AllZero(first) && first != second
    ensures var t := Fed(PASSED, isServer, priv, [first, second]);
            var h := BeginFrom(PASSED, t, transcript);
            Sound(PASSED) && t.ready && t.shared == second && t.sched == ReadySched(PASSED, first, first)
            && h.selfSecret == second && h.sched.master == first
            && forall ecdhe: Bytes, hello: Bytes :: |ecdhe| == 32 ==>
               h != Start(PASSED, isServer, ecdhe, hello, transcript)
  {
    var msgs := [first, second];
    assert msgs[..1] == [first] && [first][..0] == [];
    assert FirstReady(PASSED, isServer, priv, [first]) == Some(0);
    assert FirstReady(PASSED, isServer, priv, msgs) == Some(0);
    FirstHelloKeys(PASSED, isServer, priv, msgs);
    forall ecdhe: Bytes, hello: Bytes | |ecdhe| == 32
      ensures var h := Start(PASSED, isServer, ecdhe, hello, transcript); h.selfSecret == ecdhe == h.sched.master
    {
    }
  }

  class TlsDriver {
    const c: Crypto
    const hs: HsDriver
    const ks: KeySched
    const keys: KeySet
    const isServer: bool
    const priv: Bytes
    var shared: Bytes
    var hsReady: bool

    ghost predicate Valid()
      reads this, ks, ks.keys, keys
    {
      ks.Valid() && keys.Valid() && ks.keys != keys.keys
    }

    ghost function Model(): (t: Tls)
      requires Valid()
      reads this, hs, ks, ks.keys, keys, keys.keys, keys.installed
      ensures WellFormed(t.sched) && |t.keys.keys| == |t.keys.installed| == LEVELS
    {
      Tls(hs.Model(), ks.Model(), keys.Model(), isServer, priv, shared, hsReady)
    }

    constructor (c: Crypto, isServer: bool, priv: Bytes)
      ensures Valid() && this.c == c && Model() == FreshTls(isServer, priv)
    {
      this.c, this.isServer, this.priv := c, isServer, priv;
      hs := new HsDriver(isServer);
      ks := new KeySched();
      keys := new KeySet();
      shared := Zeros();
      hsReady := false;
    }

    method DeriveHandshake(msg: Bytes) returns (ok: bool)
      requires Valid()
      modifies this, ks, ks.keys, keys.keys, keys.installed
      ensures Valid() && Model() == Derived(c, old(Model()), msg)
      ensures ok <==> old(ks.stage) == 0 && ks.stage == 1
    {
      var pub := c.keyShare(isServer, msg);
      if pub.None? {
        return false;
      }
      shared := c.ecdhe(priv, pub.value);
      if AllZero(shared) {
        return false;
      }
      ok := ks.AdvanceHandshake(c, shared, msg);
      if !ok {
        return false;
      }
      var k := ks.Get(CLIENT_HS);
      if k.Some? {
        var installed := keys.Install(LEVEL_HANDSHAKE, k.value);
      }
      hsReady := true;
    }
  }

  /** Refuses a driver whose handshake secret is not derived, and otherwise takes it over. */
  method Init(d: TlsDriver, transcript: Bytes) returns (h: FullHs?)
    requires d.Valid()
    modifies d.hs
    ensures h == null <==> !d.hsReady
    ensures !d.hsReady ==> d.Model() == old(d.Model())
    ensures h != null ==> h.Valid() && h.c == d.c && h.hs == d.hs && h.ks == d.ks && h.keys == d.keys
    ensures h != null ==> h.Model() == BeginFrom(d.c, old(d.Model()), transcript)
  {
    if !d.hsReady {
      return null;
    }
    h := new FullHs(d.c, d.hs, d.ks, d.keys, d.isServer, d.shared, transcript);
  }

  class FullHs {
    const c: Crypto
    const hs: HsDriver
    const ks: KeySched
    const keys: KeySet
    const isServer: bool
    const tr: array<byte>
    var trLen: nat
    var masterTrLen: nat
    var peerSecret: Bytes
    var selfSecret: Bytes
    /** Every stored certificate by its place in tr; the first also as peerCert. */
    const certs: array<Slice>
    var certCount: nat
    var peerCert: Slice
    var policy: Policy
    var store: Option<Store>

    ghost predicate Valid()
      reads this, tr, certs, hs, ks, ks.keys, keys, keys.keys, keys.installed
    {
      ks.Valid() && keys.Valid() && ks.keys != keys.keys
      && tr.Length == TRANSCRIPT_MAX && trLen <= TRANSCRIPT_MAX && masterTrLen <= trLen
      && certs.Length == CHAIN_MAX && certCount <= CHAIN_MAX
      && (certCount > 0 ==> peerCert == certs[0] && Within(peerCert, trLen))
      && (certCount == 0 ==> peerCert == Slice(0, 0))
    }

    ghost function Model(): (h: Hs)
      requires Valid()
      reads this, tr, certs, hs, ks, ks.keys, keys, keys.keys, keys.installed
      ensures Shaped(h)
    {
      Hs(hs.Model(), tr[..trLen], masterTrLen, certs[..certCount], policy, store, ks.Model(), keys.Model(),
         peerSecret, selfSecret, isServer)
    }

    constructor (c: Crypto, hs: HsDriver, ks: KeySched, keys: KeySet, isServer: bool, shared: Bytes, transcript: Bytes)
      requires ks.Valid() && keys.Valid() && ks.keys != keys.keys
      modifies hs
      ensures Valid() && this.c == c && this.hs == hs && this.ks == ks && this.keys == keys
      ensures Model() == Begin(c, old(hs.Model()), ks.Model(), keys.Model(), isServer, shared, transcript)
    {
      this.c := c;
      this.isServer := isServer;
      this.hs, this.ks, this.keys := hs, ks, keys;
      tr := new byte[TRANSCRIPT_MAX](i => 0);
      certs := new Slice[CHAIN_MAX](i => Slice(0, 0));
      trLen, masterTrLen, certCount := 0, 0, 0;
      peerCert := Slice(0, 0);
      policy := Policy(0, []);
      store := None;
      peerSecret, selfSecret := [], [];
      new;
      hide Primed;
      SeedSecrets(shared, transcript);
      PrimeOrder();
    }

    method SeedSecrets(ecdhe: Bytes, transcript: Bytes)
      requires Valid() && masterTrLen == 0 && certCount == 0
      modifies this`peerSecret, this`selfSecret, this`trLen, tr
      ensures Valid()
      ensures tr[..trLen] == if |transcript| <= TRANSCRIPT_MAX then transcript else []
      ensures peerSecret == c.handshakeTraffic(c.handshakeSecret(ecdhe), transcript, !isServer)
      ensures selfSecret == c.handshakeTraffic(c.handshakeSecret(ecdhe), transcript, isServer)
    {
      var secret := c.handshakeSecret(ecdhe);
      peerSecret := c.handshakeTraffic(secret, transcript, !isServer);
      selfSecret := c.handshakeTraffic(secret, transcript, isServer);
      trLen := 0;
      var fit := TrAdd(transcript);
    }

    /** The flight up to EncryptedExtensions, already exchanged, replayed. */
    method PrimeOrder()
      requires Valid()
      modifies hs
      ensures Valid() && hs.Model() == Primed(old(hs.Model()))
    {
      var ok := hs.Recv(CLIENT_HELLO, PROT_INITIAL);
      ok := hs.Recv(SERVER_HELLO, PROT_INITIAL);
      ok := hs.Recv(ENCRYPTED_EXT, PROT_HANDSHAKE);
    }

    method TrAdd(msg: Bytes) returns (ok: bool)
      requires Valid()
      modifies this`trLen, tr
      ensures Valid() && ok == (old(trLen) + |msg| <= TRANSCRIPT_MAX)
      ensures tr[..trLen] == if ok then old(tr[..trLen]) + msg else old(tr[..trLen])
    {
      if |msg| > TRANSCRIPT_MAX - trLen {
        return false;
      }
      for i := 0 to |msg|
        invariant trLen == old(trLen) && tr[..trLen + i] == old(tr[..trLen]) + msg[..i]
      {
        tr[trLen + i] := msg[i];
      }
      trLen := trLen + |msg|;
      assert msg[..|msg|] == msg;
      return true;
    }

    method SetPolicy(now: nat, host: Bytes)
      requires Valid()
      modifies this`policy
      ensures Valid() && Model() == FullHandshake.Step(c, old(Model()), Call.SetPolicy(Policy(now, host)))
    {
      policy := Policy(now, host);
    }

    method SetStore(s: Option<Store>)
      requires Valid()
      modifies this`store
      ensures Valid() && Model() == FullHandshake.Step(c, old(Model()), Call.SetStore(s))
    {
      store := s;
    }

    /** The chain's certificates gathered for the store; no store skips the check. */
    method ChainOk(msg: Bytes, es: seq<Slice>) returns (ok: bool)
      requires |es| <= CHAIN_MAX
      ensures ok == FullHandshake.ChainOk(store, CutAll(msg, es))
    {
      if store.None? {
        return true;
      }
      var views: seq<Bytes> := [];
      for i := 0 to |es|
        invariant views == CutAll(msg, es)[..i]
      {
        views := views + [Cut(msg, es[i])];
      }
      assert views == CutAll(msg, es);
      return store.value(views);
    }

    method ChainAccept(msg: Bytes) returns (ok: bool, es: seq<Slice>)
      ensures ok == ChainAcceptedBy(c, policy, store, msg)
      ensures ok ==> CertChain(msg) == Some(es)
    {
      hide CertChain;
      var parsed := CertChain(msg);
      if parsed.None? || |parsed.value| < 1 {
        return false, [];
      }
      es := parsed.value;
      if !PolicyOk(c, policy, Cut(msg, es[0])) {
        return false, es;
      }
      ok := ChainOk(msg, es);
    }

    method CertRecord(base: nat, es: seq<Slice>)
      requires 1 <= |es| <= CHAIN_MAX && certs.Length == CHAIN_MAX
      modifies this`certCount, this`peerCert, certs
      ensures certCount == |es| && certs[..certCount] == Shift(es, base) && peerCert == certs[0]
    {
      for i := 0 to |es|
        invariant certs[..i] == Shift(es, base)[..i]
      {
        certs[i] := Slice(base + es[i].off, es[i].len);
      }
      certCount := |es|;
      peerCert := certs[0];
    }

    method CertTake(msg: Bytes) returns (ok: bool)
      requires Valid()
      modifies this`trLen, this`certCount, this`peerCert, tr, certs
      ensures Valid() && ok == (ChainAcceptedBy(c, policy, store, msg) && old(trLen) + |msg| <= TRANSCRIPT_MAX)
      ensures !ok ==> Model() == old(Model())
      ensures ok ==> CertChain(msg).Some?
                     && Model()
                        == old(Model()).(tr := old(tr[..trLen]) + msg, certs := Shift(CertChain(msg).value, old(trLen)))
    {
      hide CertChain, Cut, ChainAcceptedBy;
      var accepted, es := ChainAccept(msg);
      if !accepted {
        return false;
      }
      AcceptedNonempty(c, policy, store, msg);
      var base := trLen;
      var fits := TrAdd(msg);
      if !fits {
        return false;
      }
      CertRecord(base, es);
      return true;
    }

    method RecvCert(msg: Bytes) returns (ok: bool)
      requires Valid() && (StepLegal(hs.Model(), CERT_MSG) ==> |msg| >= HEADER)
      modifies this, tr, certs, hs
      ensures Valid() && ok == AcceptsCert(c, old(Model()), Call.RecvCert(msg))
      ensures Model() == FullHandshake.Step(c, old(Model()), Call.RecvCert(msg))
    {
      hide CertChain, Cut;
      ok := hs.Recv(CERTIFICATE, PROT_HANDSHAKE);
      if !ok {
        return false;
      }
      ok := CertTake(msg);
    }

    /** The signature over the transcript so far, under the stored leaf. */
    method CvVerify(msg: Bytes, scheme: nat) returns (ok: bool)
      requires Valid()
      ensures ok == SignatureVerifies(c, Model(), msg, scheme)
    {
      var sig := Signature(msg);
      if sig.None? {
        return false;
      }
      ghost var h := Model();
      assert Leaf(h) == tr[peerCert.off..peerCert.off + peerCert.len] by {
        if certCount > 0 {
          assert h.certs[0] == peerCert;
          assert tr[..trLen][peerCert.off..peerCert.off + peerCert.len]
                 == tr[peerCert.off..peerCert.off + peerCert.len];
        }
      }
      return c.signatureOk(scheme, tr[peerCert.off..peerCert.off + peerCert.len], sig.value, c.hash(tr[..trLen]));
    }

    method RecvCertVerify(msg: Bytes, scheme: nat) returns (ok: bool)
      requires Valid() && |msg| >= HEADER
      modifies this, tr, hs
      ensures Valid()
              && ok == (VerifiesCert(c, old(Model()), Call.RecvCertVerify(msg, scheme)) && Fits(old(Model()), msg))
      ensures Model() == FullHandshake.Step(c, old(Model()), Call.RecvCertVerify(msg, scheme))
    {
      hide SignatureVerifies, StepLegal;
      ok := CvVerify(msg, scheme);
      if !ok {
        return false;
      }
      ok := hs.Recv(CERT_VERIFY, PROT_HANDSHAKE);
      if !ok {
        return false;
      }
      hs.CertVerified();
      ok := TrAdd(msg);
    }

    method FoldFinished(fin: Bytes) returns (ok: bool)
      requires Valid()
      modifies this`trLen, this`masterTrLen, tr
      ensures Valid() && ok == Fits(old(Model()), fin) && Model() == Fold(old(Model()), fin)
    {
      ok := TrAdd(fin);
      if !ok {
        return false;
      }
      if masterTrLen == 0 {
        masterTrLen := trLen;
      }
    }

    /** Checked before the order machine moves, so a bad Finished never completes. */
    method RecvFinished(msg: Bytes) returns (ok: bool)
      requires Valid()
      modifies this, tr, hs
      ensures Valid() && ok == (VerifiesFinished(c, old(Model()), Call.RecvFinished(msg)) && Fits(old(Model()), msg))
      ensures Model() == FullHandshake.Step(c, old(Model()), Call.RecvFinished(msg))
    {
      if |msg| != FINISHED_LEN {
        return false;
      }
      if c.verifyData(peerSecret, c.hash(tr[..trLen])) != msg[HEADER..] {
        return false;
      }
      ok := hs.Recv(FINISHED, PROT_HANDSHAKE);
      if !ok {
        return false;
      }
      ok := FoldFinished(msg);
    }

    method SendFinished(cap: nat) returns (ok: bool, out: Bytes)
      requires Valid()
      modifies this, tr
      ensures Valid() && Model() == FullHandshake.Step(c, old(Model()), Call.SendFinished(cap))
      ensures cap < FINISHED_LEN ==> !ok
      ensures cap >= FINISHED_LEN ==> out == OwnFinished(c, old(Model())) && ok == Fits(old(Model()), out)
    {
      if cap < FINISHED_LEN {
        return false, [];
      }
      out := [FINISHED, 0, 0, VERIFY_DATA] + c.verifyData(selfSecret, c.hash(tr[..trLen]));
      ok := FoldFinished(out);
    }

    method InstallApp()
      requires Valid()
      modifies keys.keys, keys.installed
      ensures Valid() && Model() == FullHandshake.InstallApp(old(Model()))
    {
      var which := if isServer then SERVER_AP else CLIENT_AP;
      var k := ks.Get(which);
      if k.Some? {
        var ok := keys.Install(LEVEL_ONERTT, k.value);
      }
    }

    method AdvanceApplication() returns (ok: bool)
      requires Valid()
      modifies ks, ks.keys, keys.keys, keys.installed
      ensures Valid() && ok == old(hs.complete)
      ensures Model() == FullHandshake.Step(c, old(Model()), Call.AdvanceApplication)
    {
      hide MasterStage, FullHandshake.InstallApp;
      if !hs.complete {
        return false;
      }
      assert tr[..trLen][..masterTrLen] == tr[..masterTrLen];
      var advanced := ks.AdvanceMaster(c, tr[..masterTrLen]);
      InstallApp();
      return true;
    }

    method Confirmed() returns (ok: bool)
      requires Valid()
      modifies hs, keys.installed
      ensures Valid() && ok == StepLegal(old(hs.Model()), DONE_MSG)
      ensures Model() == FullHandshake.Step(c, old(Model()), HandshakeDone)
    {
      ok := hs.Recv(HANDSHAKE_DONE, PROT_1RTT);
      if !ok {
        return false;
      }
      if hs.confirmed {
        var dropped := keys.Discard(LEVEL_HANDSHAKE);
      }
      return true;
    }
  }
}
