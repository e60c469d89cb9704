/** Which transcript the application keys cover, over whole runs of the handshake driver
    (src/tls/handshake/core/fullhs/fullhs.c:99-106, 250-285; section 7.1 of RFC 8446). */
module HandshakeKeys {
  import opened Options
  import opened HandshakeCrypto
  import opened KeySets
  import opened FullHandshake

  /** The call appends a Finished to the transcript: an own one that is sent and fits, or
      the peer's, verified in its turn, that fits. */
  ghost predicate Folds(c: Crypto, h: Hs, call: Call)
  {
    (call.SendFinished? && call.cap >= FINISHED_LEN && Fits(h, OwnFinished(c, h)))
    || (VerifiesFinished(c, h, call) && Fits(h, call.msg))
  }

  ghost predicate FoldsAt(c: Crypto, h0: Hs, calls: seq<Call>, j: nat)
    requires Shaped(h0) && j < |calls|
  {
    Folds(c, After(c, h0, calls, j), calls[j])
  }

  /** The first of the first n calls to append a Finished. */
  ghost function FirstFold(c: Crypto, h0: Hs, calls: seq<Call>, n: nat): (r: Option<nat>)
    requires Shaped(h0) && n <= |calls|
    ensures r.Some? ==> r.value < n && FoldsAt(c, h0, calls, r.value)
    ensures forall j :: 0 <= j < (if r.Some? then r.value else n) ==> !FoldsAt(c, h0, calls, j)
  {
    hide FoldsAt;
    if n == 0 then None
    else
      var before := FirstFold(c, h0, calls, n - 1);
      if before.Some? then before else if FoldsAt(c, h0, calls, n - 1) then Some(n - 1) else None
  }

  /** The transcript through that Finished; the empty one when there is none. */
  ghost function Covered(c: Crypto, h0: Hs, calls: seq<Call>, n: nat): Bytes
    requires Shaped(h0) && n <= |calls|
  {
    var i := FirstFold(c, h0, calls, n);
    if i.Some? then After(c, h0, calls, i.value + 1).tr else []
  }

  /** A call that appends no Finished leaves masterLen; the first that does sets it to the
      whole transcript. */
  lemma {:induction false} FoldSets(c: Crypto, h: Hs, call: Call)
    requires Sound(c) && Shaped(h)
    ensures var h' := FullHandshake.Step(c, h, call);
            if Folds(c, h, call)
            then h'.masterLen == (if h.masterLen == 0 then |h'.tr| else h.masterLen) && |h'.tr| >= FINISHED_LEN
            else h'.masterLen == h.masterLen
  {
    hide ChainAccepted, SignatureVerifies;
  }

  /** masterLen marks the end of the first Finished appended, and is 0 while there is none. */
  lemma {:induction false} MasterMarksFirst(c: Crypto, h0: Hs, calls: seq<Call>, n: nat)
    requires Sound(c) && Inv(c, h0) && h0.masterLen == 0 && n <= |calls|
    ensures var h := After(c, h0, calls, n);
            h.tr[..h.masterLen] == Covered(c, h0, calls, n) && (h.masterLen == 0 <==> FirstFold(c, h0, calls, n).None?)
  {
    hide Inv, FullHandshake.Step, Folds;
    InvShaped(c, h0);
    if n > 0 {
      MasterMarksFirst(c, h0, calls, n - 1);
      FoldSets(c, After(c, h0, calls, n - 1), calls[n - 1]);
      SetOnce(c, h0, calls, n - 1, n);
    }
  }

  /** At every point of every run from the start: installed 1-RTT keys are the own-direction
      application keys of the transcript through the first Finished appended, own or the
      peer's, and of the empty transcript exactly when none was. */
  lemma {:induction false} KeysCoverFirstFinished(c: Crypto, isServer: bool, ecdhe: Bytes, hello: Bytes,
                                                  transcript: Bytes, calls: seq<Call>, n: nat)
    requires Sound(c) && |ecdhe| == 32 && n <= |calls|
    ensures var h0 := Start(c, isServer, ecdhe, hello, transcript);
            var h := After(c, h0, calls, n);
            (h.keys.installed[LEVEL_ONERTT] ==>
               h.keys.keys[LEVEL_ONERTT]
               == c.appKeys(c.masterSecret(c.handshakeSecret(ecdhe)), Covered(c, h0, calls, n), isServer))
            && (Covered(c, h0, calls, n) == [] <==> FirstFold(c, h0, calls, n).None?)
  {
    hide FullHandshake.Step, FirstFold, Covered;
    var h0 := Start(c, isServer, ecdhe, hello, transcript);
    StartInv(c, isServer, ecdhe, hello, transcript);
    KeysFollowHandshake(c, isServer, ecdhe, hello, transcript, calls, n);
    RunInv(c, h0, calls, n);
    MasterMarksFirst(c, h0, calls, n);
  }

  /** Call k completes the handshake. */
  ghost predicate Completes(c: Crypto, h0: Hs, calls: seq<Call>, k: nat)
    requires Shaped(h0) && k < |calls|
  {
    !After(c, h0, calls, k).order.complete && After(c, h0, calls, k + 1).order.complete
  }

  /** From completion on, the keys cover the transcript through the Finished that completed
      if and only if that Finished fit the buffer and no Finished was appended before it. */
  lemma {:induction false} CoversCompletingIff(c: Crypto, h0: Hs, calls: seq<Call>, k: nat, n: nat)
    requires Sound(c) && Inv(c, h0) && h0.masterLen == 0 && k < n <= |calls| && Completes(c, h0, calls, k)
    ensures calls[k].RecvFinished?
    ensures var h := After(c, h0, calls, k);
            Covered(c, h0, calls, n) == h.tr + calls[k].msg <==>
              Fits(h, calls[k].msg) && FirstFold(c, h0, calls, k).None?
  {
    hide Inv, FullHandshake.Step, Folds, FirstFold, Covered;
    InvShaped(c, h0);
    var h, h1, hn := After(c, h0, calls, k), After(c, h0, calls, k + 1), After(c, h0, calls, n);
    RunInv(c, h0, calls, k);
    RunInv(c, h0, calls, n);
    CompleteOnlyFromFinished(c, h, calls[k]);
    CompletingStep(c, h, calls[k]);
    MasterMarksFirst(c, h0, calls, k);
    MasterMarksFirst(c, h0, calls, n);
    SetOnce(c, h0, calls, k, n);
    SetOnce(c, h0, calls, k + 1, n);
    WithinBuffer(c, hn);
    InvShaped(c, h);
  }

  lemma {:induction false} WithinBuffer(c: Crypto, h: Hs)
    requires Inv(c, h)
    ensures h.masterLen <= |h.tr| <= TRANSCRIPT_MAX
  {
  }

  /** What the completing Finished does to transcript and masterLen. */
  lemma {:induction false} CompletingStep(c: Crypto, h: Hs, call: Call)
    requires Shaped(h) && VerifiesFinished(c, h, call)
    ensures var h' := FullHandshake.Step(c, h, call);
            |call.msg| == FINISHED_LEN
            && h'.tr == (if Fits(h, call.msg) then h.tr + call.msg else h.tr)
            && h'.masterLen == (if h.masterLen == 0 && Fits(h, call.msg) then |h'.tr| else h.masterLen)
  {
    hide ChainAccepted, SignatureVerifies;
  }
}
