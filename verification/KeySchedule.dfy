/** What the handshake takes from cryptography, as functions. */
module HandshakeCrypto {
  import opened Arith
  import opened Options

  type Bytes = seq<byte>

  function Zeros(): Bytes
  {
    seq(32, i => 0)
  }

  datatype Crypto = Crypto(
    keyShare: (bool, Bytes) -> Option<Bytes>,
    ecdhe: (Bytes, Bytes) -> Bytes,
    hash: Bytes -> Bytes,
    handshakeSecret: Bytes -> Bytes,
    masterSecret: Bytes -> Bytes,
    handshakeTraffic: (Bytes, Bytes, bool) -> Bytes,
    handshakeKeys: (Bytes, Bytes, bool) -> Bytes,
    appKeys: (Bytes, Bytes, bool) -> Bytes,
    verifyData: (Bytes, Bytes) -> Bytes,
    certParses: Bytes -> bool,
    timeOk: (Bytes, nat) -> bool,
    hostOk: (Bytes, Bytes) -> bool,
    signatureOk: (nat, Bytes, Bytes, Bytes) -> bool)

  const VERIFY_DATA := 32

  /** No signature verifies under an empty certificate, and verify_data has its length. */
  ghost predicate Sound(c: Crypto)
  {
    (forall scheme: nat, sig: Bytes, th: Bytes :: !c.signatureOk(scheme, [], sig, th))
    && (forall secret: Bytes, th: Bytes :: |c.verifyData(secret, th)| == VERIFY_DATA)
  }
}

/** The staged key schedule (src/tls/keys/schedule_drive/keyschedule.c; section 7.1 of
    RFC 8446). */
module KeySchedule {
  import opened HandshakeCrypto
  import opened Options

  const CLIENT_HS := 0
  const SERVER_HS := 1
  const CLIENT_AP := 2
  const SERVER_AP := 3

  /** Stage 0 early, 1 handshake, 2 master; four slots of keys. */
  datatype Sched = Sched(stage: nat, master: Bytes, keys: seq<Bytes>)

  ghost predicate WellFormed(s: Sched)
  {
    s.stage <= 2 && |s.keys| == 4
  }

  function HandshakeStage(c: Crypto, s: Sched, ecdhe: Bytes, transcript: Bytes): Sched
    requires WellFormed(s)
  {
    if s.stage != 0 || |ecdhe| != 32 then s
    else
      var hs := c.handshakeSecret(ecdhe);
      Sched(1, c.masterSecret(hs),
            s.keys[CLIENT_HS := c.handshakeKeys(hs, transcript, false)]
                  [SERVER_HS := c.handshakeKeys(hs, transcript, true)])
  }

  function MasterStage(c: Crypto, s: Sched, transcript: Bytes): Sched
    requires WellFormed(s)
  {
    if s.stage != 1 then s
    else
      s.(stage := 2,
         keys := s.keys[CLIENT_AP := c.appKeys(s.master, transcript, false)]
                       [SERVER_AP := c.appKeys(s.master, transcript, true)])
  }

  predicate Have(stage: nat, which: nat)
  {
    if which <= SERVER_HS then stage >= 1 else stage >= 2
  }

  /** The stages are passed once each, in order: what one derives is never derived again. */
  lemma {:induction false} StagesOnce(c: Crypto, s: Sched, ecdhe: Bytes, tr: Bytes, tr': Bytes)
    requires WellFormed(s)
    ensures var s1 := HandshakeStage(c, s, ecdhe, tr);
            WellFormed(s1) && s1.stage >= s.stage
            && HandshakeStage(c, s1, ecdhe, tr') == (if s1.stage == 0 then s else s1)
    ensures var s2 := MasterStage(c, s, tr);
            WellFormed(s2) && s2.stage >= s.stage && (s.stage >= 1 ==> s2.stage == 2 && MasterStage(c, s2, tr') == s2)
            && (s.stage == 0 ==> s2 == s) && s2.keys[..2] == s.keys[..2] && s2.master == s.master
  {
    if s.stage == 1 {
      var s2 := MasterStage(c, s, tr);
      assert s2.keys[..2] == s.keys[..2];
    }
  }

  class KeySched {
    var stage: nat
    var master: Bytes
    const keys: array<Bytes>

    ghost function Model(): Sched
      reads this, keys
    {
      Sched(stage, master, keys[..])
    }

    ghost predicate Valid()
      reads this, keys
    {
      keys.Length == 4 && stage <= 2
    }

    constructor ()
      ensures Valid() && fresh(keys) && Model() == Sched(0, [], [[], [], [], []])
    {
      stage := 0;
      master := [];
      keys := new Bytes[4](i => []);
    }

    method AdvanceHandshake(c: Crypto, ecdhe: Bytes, transcript: Bytes) returns (ok: bool)
      requires Valid()
      modifies this, keys
      ensures Valid() && ok == (old(stage) == 0 && |ecdhe| == 32)
      ensures Model() == HandshakeStage(c, old(Model()), ecdhe, transcript)
    {
      if stage != 0 || |ecdhe| != 32 {
        return false;
      }
      var hs := c.handshakeSecret(ecdhe);
      keys[CLIENT_HS] := c.handshakeKeys(hs, transcript, false);
      keys[SERVER_HS] := c.handshakeKeys(hs, transcript, true);
      master := c.masterSecret(hs);
      stage := 1;
      return true;
    }

    method AdvanceMaster(c: Crypto, transcript: Bytes) returns (ok: bool)
      requires Valid()
      modifies this, keys
      ensures Valid() && ok == (old(stage) == 1)
      ensures Model() == MasterStage(c, old(Model()), transcript)
    {
      if stage != 1 {
        return false;
      }
      keys[CLIENT_AP] := c.appKeys(master, transcript, false);
      keys[SERVER_AP] := c.appKeys(master, transcript, true);
      stage := 2;
      return true;
    }

    /** Keys exist from the stage that derives them on. */
    function Get(which: nat): (r: Option<Bytes>)
      requires Valid() && which < 4
      reads this, keys
      ensures r == if stage >= (if which < 2 then 1 else 2) then Some(Model().keys[which]) else None
    {
      if !Have(stage, which) then None else Some(keys[which])
    }
  }
}

/** Keys installed and discarded by protection level (src/crypto/kdf/keys/keyset.c,
    discard_driver.c; sections 4 and 4.9 of RFC 9001). */
module KeySets {
  import opened HandshakeCrypto
  import opened Options

  const LEVEL_HANDSHAKE := 1
  const LEVEL_ONERTT := 2
  const LEVELS := 3

  datatype Keys = Keys(keys: seq<Bytes>, installed: seq<bool>)

  function Installed(k: Keys, level: int, bytes: Bytes): Keys
    requires |k.keys| == |k.installed| == LEVELS
  {
    if 0 <= level < LEVELS then Keys(k.keys[level := bytes], k.installed[level := true]) else k
  }

  function Discarded(k: Keys, level: int): Keys
    requires |k.installed| == LEVELS
  {
    if 0 <= level < LEVELS then k.(installed := k.installed[level := false]) else k
  }

  /** The keys found for a level. */
  function Lookup(k: Keys, level: int): Option<Bytes>
    requires |k.keys| == |k.installed| == LEVELS
  {
    if 0 <= level < LEVELS && k.installed[level] then Some(k.keys[level]) else None
  }

  /** Of the levels 0 to 2, one installed is found until it is discarded, and no other level
      notices either. */
  lemma {:induction false} FoundUntilDiscarded(k: Keys, level: int, bytes: Bytes, other: int)
    requires |k.keys| == |k.installed| == LEVELS
    ensures Lookup(Installed(k, level, bytes), other)
            == if other == level && level in [0, 1, 2] then Some(bytes) else Lookup(k, other)
    ensures Lookup(Discarded(k, level), other) == if other == level then None else Lookup(k, other)
  {
  }

  class KeySet {
    const keys: array<Bytes>
    const installed: array<bool>

    ghost predicate Valid()
      reads this
    {
      keys.Length == LEVELS && installed.Length == LEVELS
    }

    ghost function Model(): Keys
      reads this, keys, installed
    {
      Keys(keys[..], installed[..])
    }

    constructor ()
      ensures Valid() && fresh(keys) && fresh(installed)
      ensures Model() == Keys([[], [], []], [false, false, false])
    {
      keys := new Bytes[LEVELS](i => []);
      installed := new bool[LEVELS](i => false);
    }

    method Install(level: int, bytes: Bytes) returns (ok: bool)
      requires Valid()
      modifies keys, installed
      ensures ok == (0 <= level < LEVELS) && Model() == Installed(old(Model()), level, bytes)
    {
      if !(0 <= level < LEVELS) {
        return false;
      }
      keys[level] := bytes;
      installed[level] := true;
      return true;
    }

    method Discard(level: int) returns (ok: bool)
      requires Valid()
      modifies installed
      ensures ok == (0 <= level < LEVELS) && Model() == Discarded(old(Model()), level)
    {
      if !(0 <= level < LEVELS) {
        return false;
      }
      installed[level] := false;
      return true;
    }

    function ForLevel(level: int): (r: Option<Bytes>)
      requires Valid()
      reads this, keys, installed
      ensures r == Lookup(Model(), level)
    {
      if !(0 <= level < LEVELS) || !installed[level] then None else Some(keys[level])
    }
  }
}
