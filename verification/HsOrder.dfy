/** The flight-order machine (src/tls/handshake/core/tls/hsdriver.c; sections 2 and 4.4 of
    RFC 8446, section 4 of RFC 9001). */
module HsOrder {
  const CLIENT_HELLO := 1
  const SERVER_HELLO := 2
  const ENCRYPTED_EXT := 8
  const CERTIFICATE := 11
  const CERT_VERIFY := 15
  const FINISHED := 20
  const HANDSHAKE_DONE := 30

  const PROT_INITIAL := 0
  const PROT_HANDSHAKE := 1
  const PROT_1RTT := 2

  const STEPS := 7

  /** A message as the machine sees it: its type and the level it came at. */
  datatype Message = Message(kind: nat, level: nat)

  const FLIGHT: seq<Message> := [
    Message(CLIENT_HELLO, PROT_INITIAL), Message(SERVER_HELLO, PROT_INITIAL),
    Message(ENCRYPTED_EXT, PROT_HANDSHAKE), Message(CERTIFICATE, PROT_HANDSHAKE),
    Message(CERT_VERIFY, PROT_HANDSHAKE), Message(FINISHED, PROT_HANDSHAKE),
    Message(HANDSHAKE_DONE, PROT_1RTT)]

  datatype Order = Order(recvCount: nat, certVerified: bool, level: nat, complete: bool, confirmed: bool)

  const START := Order(0, false, PROT_INITIAL, false, false)

  predicate StepLegal(o: Order, m: Message)
  {
    o.recvCount < STEPS && FLIGHT[o.recvCount] == m && (m.kind != FINISHED || o.certVerified)
  }

  function Recv(o: Order, m: Message): Order
  {
    if !StepLegal(o, m) then o
    else Order(o.recvCount + 1, o.certVerified, if m.level > o.level then m.level else o.level,
               o.complete || m.kind == FINISHED, o.confirmed || m.kind == HANDSHAKE_DONE)
  }

  /** Every position determines the rest: how far, at which level, finished or not. */
  ghost predicate Consistent(o: Order)
  {
    o.recvCount <= STEPS
    && o.level == (if o.recvCount == 0 then PROT_INITIAL else FLIGHT[o.recvCount - 1].level)
    && (o.complete <==> o.recvCount >= 6) && (o.confirmed <==> o.recvCount == 7)
    && (o.recvCount >= 6 ==> o.certVerified)
  }

  lemma {:induction false} RecvConsistent(o: Order, m: Message)
    requires Consistent(o)
    ensures Consistent(Recv(o, m))
  {
  }

  // ---- whole runs ----

  datatype Input = Got(msg: Message) | CertVerified

  function Step(o: Order, i: Input): Order
  {
    match i
    case Got(m) => Recv(o, m)
    case CertVerified => o.(certVerified := true)
  }

  function Run(inputs: seq<Input>): Order
  {
    if inputs == [] then START else Step(Run(inputs[..|inputs| - 1]), inputs[|inputs| - 1])
  }

  /** The messages of a run that were accepted, in order. */
  function Accepted(inputs: seq<Input>): seq<Message>
  {
    if inputs == [] then []
    else
      var before, i := inputs[..|inputs| - 1], inputs[|inputs| - 1];
      Accepted(before) + if i.Got? && StepLegal(Run(before), i.msg) then [i.msg] else []
  }

  /** A Finished taken at some point, the peer authenticated before it. */
  ghost predicate AuthenticatedFinish(inputs: seq<Input>, i: int, k: int)
  {
    0 <= i < k < |inputs| && inputs[i] == CertVerified && inputs[k] == Got(FLIGHT[5])
  }

  /** Whatever is thrown at the machine, what it accepts is the flight from its start, with
      no step skipped, repeated or taken at another level. */
  lemma {:induction false} AcceptsTheFlight(inputs: seq<Input>)
    ensures Consistent(Run(inputs)) && Accepted(inputs) == FLIGHT[..Run(inputs).recvCount]
    ensures Run(inputs).recvCount <= 7
            && Accepted(inputs) == [Message(1, 0), Message(2, 0), Message(8, 1), Message(11, 1), Message(15, 1),
                                    Message(20, 1), Message(30, 2)][..Run(inputs).recvCount]
  {
    hide Consistent, StepLegal, Recv;
    if inputs == [] {
      StartConsistent();
    } else {
      var before, last := inputs[..|inputs| - 1], inputs[|inputs| - 1];
      AcceptsTheFlight(before);
      Marked(Run(before));
      if last.Got? {
        AcceptsNext(Run(before), last.msg, Accepted(before));
      }
    }
  }

  lemma {:induction false} StartConsistent()
    ensures Consistent(START) && FLIGHT[..0] == []
  {
  }

  lemma {:induction false} Marked(o: Order)
    requires Consistent(o)
    ensures Consistent(o.(certVerified := true)) && o.recvCount <= |FLIGHT|
  {
  }

  lemma {:induction false} AcceptsNext(o: Order, m: Message, accepted: seq<Message>)
    requires Consistent(o) && accepted == FLIGHT[..o.recvCount]
    ensures var o' := Recv(o, m);
            Consistent(o') && accepted + (if StepLegal(o, m) then [m] else []) == FLIGHT[..o'.recvCount]
  {
    RecvConsistent(o, m);
    if StepLegal(o, m) {
      assert accepted + [FLIGHT[o.recvCount]] == FLIGHT[..o.recvCount + 1];
    }
  }

  /** It completes only by a Finished that came after the peer was authenticated. */
  lemma {:induction false} CompletesAuthenticated(inputs: seq<Input>)
    ensures Run(inputs).complete ==> exists i, k :: AuthenticatedFinish(inputs, i, k)
  {
    if inputs != [] {
      var before := inputs[..|inputs| - 1];
      CompletesAuthenticated(before);
      AcceptsTheFlight(before);
      if Run(before).complete {
        var i, k :| AuthenticatedFinish(before, i, k);
        assert AuthenticatedFinish(inputs, i, k);
      } else if Run(inputs).complete {
        Authenticated(before);
        var i :| 0 <= i < |before| && before[i] == CertVerified;
        assert AuthenticatedFinish(inputs, i, |inputs| - 1);
      }
    }
  }

  lemma {:induction false} Authenticated(inputs: seq<Input>)
    ensures Run(inputs).certVerified ==> exists i :: 0 <= i < |inputs| && inputs[i] == CertVerified
  {
    if inputs != [] {
      var before := inputs[..|inputs| - 1];
      Authenticated(before);
      if Run(before).certVerified {
        var i :| 0 <= i < |before| && before[i] == CertVerified;
        assert inputs[i] == CertVerified;
      }
    }
  }

  // ---- the machine itself ----

  class HsDriver {
    const isServer: bool
    var recvCount: nat
    var certVerified: bool
    var level: nat
    var complete: bool
    var confirmed: bool

    function Model(): Order
      reads this
    {
      Order(recvCount, certVerified, level, complete, confirmed)
    }

    constructor (isServer: bool)
      ensures Model() == START && this.isServer == isServer
    {
      this.isServer := isServer;
      recvCount := 0;
      certVerified := false;
      level := PROT_INITIAL;
      complete := false;
      confirmed := false;
    }

    method Recv(kind: nat, protection: nat) returns (ok: bool)
      modifies this
      ensures ok == StepLegal(old(Model()), Message(kind, protection))
      ensures Model() == Step(old(Model()), Got(Message(kind, protection)))
    {
      if recvCount >= STEPS || FLIGHT[recvCount] != Message(kind, protection) || (kind == FINISHED && !certVerified) {
        return false;
      }
      if protection > level {
        level := protection;
      }
      recvCount := recvCount + 1;
      complete := complete || kind == FINISHED;
      confirmed := confirmed || kind == HANDSHAKE_DONE;
      return true;
    }

    method CertVerified()
      modifies this
      ensures Model() == Step(old(Model()), Input.CertVerified)
    {
      certVerified := true;
    }
  }
}
