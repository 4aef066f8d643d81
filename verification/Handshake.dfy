/**
 The mutual challenge handshake: client sessions and daemon sessions that share a token,
 over a network that may drop, replay, reorder or make up messages.
 */
module Handshake {
  import opened Text

  type Bytes = seq<Byte>

  // ---------------------------------------------------------------- proofs

  /** An HMAC: equal exactly when key and message are (section 2 of RFC 2104, idealised). */
  datatype Mac = Mac(key: string, message: Bytes)

  /** A proof as it crosses the wire; anything that does not decode to a MAC is Garbled, and no text at all Missing. */
  datatype Proof = Proof(mac: Mac) | Garbled | Missing

  function Ascii(s: string): Bytes
    requires forall i :: 0 <= i < |s| ==> s[i] < 128 as char
  {
    seq(|s|, i requires 0 <= i < |s| => s[i] as int)
  }

  const CLIENT_CONTEXT := Ascii("jerboa-auth-v1\n")
  const SERVER_CONTEXT := Ascii("jerboa-auth-server-v1\n")
  const NONCE_SIZE := 32
  const MIN_NONCE := 16
  const MAX_CLIENT_NONCE := 64
  const PROTO_VERSION := 3

  function AuthProof(token: string, nonce: Bytes): Mac {
    Mac(token, CLIENT_CONTEXT + nonce)
  }

  predicate CheckAuthProof(token: string, nonce: Bytes, proof: Proof) {
    nonce != [] && proof == Proof(AuthProof(token, nonce))
  }

  function ServerAuthProof(token: string, nonce: Bytes, clientNonce: Bytes): Mac {
    Mac(token, SERVER_CONTEXT + nonce + clientNonce)
  }

  predicate CheckServerAuthProof(token: string, nonce: Bytes, clientNonce: Bytes, proof: Proof) {
    nonce != [] && clientNonce != [] && proof == Proof(ServerAuthProof(token, nonce, clientNonce))
  }

  /** Neither side's proof can be the other's, whatever the nonces. */
  lemma ProofsNeverCoincide(token: string, n: Bytes, m: Bytes, c: Bytes)
    ensures AuthProof(token, n) != ServerAuthProof(token, m, c)
  {
    var a, b := CLIENT_CONTEXT + n, SERVER_CONTEXT + m + c;
    assert a[12] == CLIENT_CONTEXT[12] == "jerboa-auth-v1\n"[12] as int;
    assert b[12] == SERVER_CONTEXT[12] == "jerboa-auth-server-v1\n"[12] as int;
  }

  lemma AuthProofInjective(token: string, n: Bytes, m: Bytes)
    requires AuthProof(token, n) == AuthProof(token, m)
    ensures n == m
  {
    assert (CLIENT_CONTEXT + n)[|CLIENT_CONTEXT|..] == n;
    assert (CLIENT_CONTEXT + m)[|CLIENT_CONTEXT|..] == m;
  }

  /** A server proof determines both nonces once the length of the first is known... */
  lemma ServerProofInjective(token: string, n: Bytes, c: Bytes, m: Bytes, d: Bytes)
    requires ServerAuthProof(token, n, c) == ServerAuthProof(token, m, d)
    ensures n + c == m + d
    ensures |n| == |m| ==> n == m && c == d
  {
    var a, b := SERVER_CONTEXT + n + c, SERVER_CONTEXT + m + d;
    assert a[|SERVER_CONTEXT|..] == n + c && b[|SERVER_CONTEXT|..] == m + d;
    if |n| == |m| {
      SplitEqually(n, c, m, d);
    }
  }

  /** ...and only then, because nothing marks where the first nonce ends. */
  lemma ServerProofDoesNotMarkBoundary(token: string, n: Bytes, x: Bytes, c: Bytes)
    ensures ServerAuthProof(token, n + x, c) == ServerAuthProof(token, n, x + c)
  {
    assert SERVER_CONTEXT + (n + x) + c == SERVER_CONTEXT + n + (x + c);
  }

  // ---------------------------------------------------------------- one client

  datatype Verdict = Pending | Accepted | Refused

  datatype Client =
    | Waiting
    | Gone                     // the handshake failed before a proof was sent
    | Answered(challenge: Bytes, nonce: Bytes, drawnAt: nat, verdict: Verdict)

  /** The client receives a challenge; `drawn` is the nonce it draws if the challenge is long enough. */
  function OnChallenge(challenge: Bytes, drawn: Bytes, now: nat): Client {
    if |challenge| < MIN_NONCE then Gone else Answered(challenge, drawn, now, Pending)
  }

  predicate ProtoOk(proto: int) {
    proto == 0 || proto == PROTO_VERSION
  }

  function OnHello(token: string, c: Client, proof: Proof, proto: int): Client
    requires c.Answered?
  {
    var ok := CheckServerAuthProof(token, c.challenge, c.nonce, proof) && ProtoOk(proto);
    c.(verdict := if ok then Accepted else Refused)
  }

  datatype CallResult<T> = Broken | RpcError(code: int) | Result(value: T)
  datatype HelloResult = HelloResult(proof: Proof, proto: int)
  datatype Request = ChallengeRequest | HelloRequest(proof: Proof, proto: int, clientNonce: Bytes)
  datatype AuthError =
    | NoError | CallFailed | OldDaemon | InvalidChallenge | NoServerProof | WrongServerProof | ProtoMismatch

  const AUTH_REQUIRED := -32001

  /** The client's side of the handshake, given what each call returned and the nonce drawn between them. */
  method SendAuth(token: string, challenge: CallResult<Bytes>, drawn: Bytes, hello: CallResult<HelloResult>)
    returns (err: AuthError, sent: seq<Request>)
    ensures err.NoError? <==>
              && challenge.Result? && hello.Result?
              && OnChallenge(challenge.value, drawn, 0).Answered?
              && OnHello(token, OnChallenge(challenge.value, drawn, 0), hello.value.proof,
                hello.value.proto).verdict.Accepted?
    ensures err.OldDaemon? <==> challenge == RpcError(-32001)
    ensures err.InvalidChallenge? <==> challenge.Result? && |challenge.value| < 16
    ensures err.NoServerProof? ==> hello.Result? && hello.value.proof.Missing?
    ensures err.WrongServerProof? ==> hello.Result? && !hello.value.proof.Missing?
    ensures err.ProtoMismatch? ==> hello.Result? && hello.value.proto != 0 && hello.value.proto != 3
    ensures err.CallFailed? <==> challenge.Broken? || (challenge.RpcError? && challenge.code != -32001) ||
                                 (challenge.Result? && |challenge.value| >= 16 && !hello.Result?)
    ensures sent == [ChallengeRequest] +
                    if challenge.Result? && OnChallenge(challenge.value, drawn, 0).Answered?
                    then [HelloRequest(Proof(AuthProof(token, challenge.value)), PROTO_VERSION, drawn)] else []
  {
    sent := [ChallengeRequest];
    match challenge {
      case Broken => return CallFailed, sent;
      case RpcError(code) => return if code == AUTH_REQUIRED then OldDaemon else CallFailed, sent;
      case Result(nonce) =>
        if |nonce| < MIN_NONCE { return InvalidChallenge, sent; }
        sent := sent + [HelloRequest(Proof(AuthProof(token, nonce)), PROTO_VERSION, drawn)];
        if !hello.Result? { return CallFailed, sent; }
        if !CheckServerAuthProof(token, nonce, drawn, hello.value.proof) {
          return if hello.value.proof.Missing? then NoServerProof else WrongServerProof, sent;
        }
        if hello.value.proto != 0 && hello.value.proto != PROTO_VERSION { return ProtoMismatch, sent; }
        err := NoError;
    }
  }

  // ---------------------------------------------------------------- one daemon session

  datatype Daemon =
    | Idle
    | Challenging(nonce: Bytes)
    | Open(nonce: Bytes, answer: Option<Bytes>, at: nat)
    | Closed(issued: Option<Bytes>)

  /** The daemon receives Auth.Hello with a proof and no token. */
  function OnClientHello(token: string, d: Daemon, proof: Proof, clientNonce: Bytes, proto: int, now: nat): Daemon {
    match d
    case Challenging(nonce) =>
      if CheckAuthProof(token, nonce, proof) && ProtoOk(proto) then
        Open(nonce, if MIN_NONCE <= |clientNonce| <= MAX_CLIENT_NONCE then Some(clientNonce) else None, now)
      else Closed(Some(nonce))
    case Idle => Closed(None)
    case _ => d
  }

  // ---------------------------------------------------------------- the whole system

  /**
   `macs` are the MACs that have crossed the wire, `seen` the nonces that have been drawn
   or sent, so that a nonce drawn later is none of them.
   */
  datatype State = State(clock: nat, clients: map<nat, Client>, daemons: map<nat, Daemon>, macs: set<Mac>,
    seen: set<Bytes>)

  const INITIAL := State(0, map[], map[], {}, {})

  datatype Step =
    | NewClient(i: nat)
    | NewDaemon(j: nat)
    | Challenge(j: nat, nonce: Bytes)                              // daemon j issues a challenge
    | DeliverChallenge(i: nat, challenge: Bytes, drawn: Bytes)     // the network sends client i a challenge
    | DeliverHello(j: nat, proof: Proof, clientNonce: Bytes, proto: int)
    | DeliverResult(i: nat, proof: Proof, proto: int)
    | FailClient(i: nat)
    | DropDaemon(j: nat)                                           // a second challenge request, or any other call

  predicate IsFresh(s: State, nonce: Bytes) {
    |nonce| == NONCE_SIZE && nonce !in s.seen
  }

  /** The network sends what it has seen, and anything it can compute without the token. */
  predicate CanSend(token: string, s: State, p: Proof) {
    p.Proof? && p.mac.key == token ==> p.mac in s.macs
  }

  predicate Enabled(token: string, s: State, x: Step) {
    match x
    case NewClient(i) => i !in s.clients
    case NewDaemon(j) => j !in s.daemons
    case Challenge(j, nonce) => j in s.daemons && s.daemons[j].Idle? && IsFresh(s, nonce)
    case DeliverChallenge(i, challenge, drawn) =>
      i in s.clients && s.clients[i].Waiting? && IsFresh(s, drawn) && drawn != challenge
    case DeliverHello(j, proof, _, _) => j in s.daemons && CanSend(token, s, proof)
    case DeliverResult(i, proof, _) =>
      i in s.clients && s.clients[i].Answered? && s.clients[i].verdict.Pending? && CanSend(token, s, proof)
    case FailClient(i) => i in s.clients && s.clients[i].Waiting?
    case DropDaemon(j) => j in s.daemons && !s.daemons[j].Open?
  }

  function ServerMacs(token: string, d: Daemon): set<Mac> {
    if d.Open? && d.answer.Some? then {ServerAuthProof(token, d.nonce, d.answer.value)} else {}
  }

  function Do(token: string, s: State, x: Step): State
    requires Enabled(token, s, x)
  {
    var t := s.(clock := s.clock + 1);
    match x
    case NewClient(i) => t.(clients := t.clients[i := Waiting])
    case NewDaemon(j) => t.(daemons := t.daemons[j := Idle])
    case Challenge(j, nonce) => t.(daemons := t.daemons[j := Challenging(nonce)], seen := t.seen + {nonce})
    case DeliverChallenge(i, challenge, drawn) =>
      var c := OnChallenge(challenge, drawn, s.clock);
      t.(clients := t.clients[i := c], seen := t.seen + {challenge, drawn},
         macs := t.macs + if c.Answered? then {AuthProof(token, challenge)} else {})
    case DeliverHello(j, proof, clientNonce, proto) =>
      var d := OnClientHello(token, s.daemons[j], proof, clientNonce, proto, s.clock);
      t.(daemons := t.daemons[j := d], seen := t.seen + {clientNonce}, macs := t.macs + ServerMacs(token, d))
    case DeliverResult(i, proof, proto) => t.(clients := t.clients[i := OnHello(token, s.clients[i], proof, proto)])
    case FailClient(i) => t.(clients := t.clients[i := Gone])
    case DropDaemon(j) =>
      var d := s.daemons[j];
      var e := if d.Challenging? then Closed(Some(d.nonce)) else if d.Idle? then Closed(None) else d;
      t.(daemons := t.daemons[j := e])
  }

  ghost predicate IsRun(token: string, s: State, xs: seq<Step>)
    decreases |xs|
  {
    xs == [] || (Enabled(token, s, xs[0]) && IsRun(token, Do(token, s, xs[0]), xs[1..]))
  }

  ghost function After(token: string, s: State, xs: seq<Step>): State
    requires IsRun(token, s, xs)
    decreases |xs|
  {
    if xs == [] then s else After(token, Do(token, s, xs[0]), xs[1..])
  }

  // ---------------------------------------------------------------- what every step keeps

  predicate Issued(d: Daemon, nonce: Bytes) {
    (d.Challenging? && d.nonce == nonce) || (d.Open? && d.nonce == nonce) || d == Closed(Some(nonce))
  }

  ghost predicate MadeByClient(token: string, s: State, m: Mac) {
    exists i :: i in s.clients && s.clients[i].Answered? && m == AuthProof(token, s.clients[i].challenge)
  }

  ghost predicate MadeByDaemon(token: string, s: State, m: Mac) {
    exists j :: j in s.daemons && m in ServerMacs(token, s.daemons[j])
  }

  /** Whoever is convinced has a MAC to show for it. */
  ghost predicate Convinced(token: string, s: State) {
    && (forall i :: i in s.clients && s.clients[i].Answered? && s.clients[i].verdict.Accepted? ==>
          ServerAuthProof(token, s.clients[i].challenge, s.clients[i].nonce) in s.macs)
    && (forall j :: j in s.daemons && s.daemons[j].Open? ==> AuthProof(token, s.daemons[j].nonce) in s.macs)
  }

  /** The MACs under the token are those of clients and daemons. */
  ghost predicate Genuine(token: string, s: State) {
    forall m :: m in s.macs && m.key == token ==> MadeByClient(token, s, m) || MadeByDaemon(token, s, m)
  }

  ghost predicate ChallengesSeen(s: State) {
    forall j, n :: j in s.daemons && Issued(s.daemons[j], n) ==> |n| == NONCE_SIZE && n in s.seen
  }

  ghost predicate ClientNoncesSeen(s: State) {
    forall i :: i in s.clients && s.clients[i].Answered? ==>
      |s.clients[i].nonce| == NONCE_SIZE && s.clients[i].nonce in s.seen && s.clients[i].drawnAt < s.clock
  }

  ghost predicate AnswersSeen(s: State) {
    forall j :: j in s.daemons && s.daemons[j].Open? ==>
      s.daemons[j].at < s.clock && (s.daemons[j].answer.Some? ==> s.daemons[j].answer.value in s.seen)
  }

  ghost predicate NoncesSeen(s: State) {
    ChallengesSeen(s) && ClientNoncesSeen(s) && AnswersSeen(s)
  }

  predicate Answers(d: Daemon, c: Client) {
    d.Open? && c.Answered? && d.answer == Some(c.nonce)
  }

  /** No client nonce is drawn twice, and none is answered before it is drawn. */
  ghost predicate NoncesFresh(s: State) {
    && (forall i, k ::
          i in s.clients && k in s.clients && i != k && s.clients[i].Answered? && s.clients[k].Answered? ==>
          s.clients[i].nonce != s.clients[k].nonce)
    && (forall i, j :: i in s.clients && j in s.daemons && Answers(s.daemons[j], s.clients[i]) ==>
          s.daemons[j].at > s.clients[i].drawnAt)
  }

  /** No challenge is issued by two daemon sessions. */
  ghost predicate ChallengesDistinct(s: State) {
    forall j, k, n :: j in s.daemons && k in s.daemons && Issued(s.daemons[j], n) && Issued(s.daemons[k], n) ==> j == k
  }

  /** Whoever has answered a challenge has sent its proof. */
  ghost predicate ProofsSent(token: string, s: State) {
    forall i :: i in s.clients && s.clients[i].Answered? ==> AuthProof(token, s.clients[i].challenge) in s.macs
  }

  lemma StepKeepsProofsSent(token: string, s: State, x: Step)
    requires ProofsSent(token, s) && Enabled(token, s, x)
    ensures ProofsSent(token, Do(token, s, x))
  {
  }

  ghost predicate Inv(token: string, s: State) {
    && Convinced(token, s) && Genuine(token, s) && ProofsSent(token, s)
    && NoncesSeen(s) && NoncesFresh(s) && ChallengesDistinct(s)
  }

  /** Only a challenge step makes a daemon session issue anything, and only the nonce of that step. */
  lemma IssuedBefore(token: string, s: State, x: Step, j: nat, n: Bytes)
    requires Enabled(token, s, x) && j in Do(token, s, x).daemons && Issued(Do(token, s, x).daemons[j], n)
    ensures (x.Challenge? && x.j == j && x.nonce == n) || (j in s.daemons && Issued(s.daemons[j], n))
  {
  }

  lemma StepKeepsChallengesDistinct(token: string, s: State, x: Step)
    requires ChallengesSeen(s) && ChallengesDistinct(s) && Enabled(token, s, x)
    ensures ChallengesDistinct(Do(token, s, x))
  {
    var t := Do(token, s, x);
    forall j, k, n | j in t.daemons && k in t.daemons && Issued(t.daemons[j], n) && Issued(t.daemons[k], n)
      ensures j == k
    {
      IssuedBefore(token, s, x, j, n);
      IssuedBefore(token, s, x, k, n);
    }
  }

  lemma StepKeepsGenuine(token: string, s: State, x: Step)
    requires Genuine(token, s) && Enabled(token, s, x)
    ensures Genuine(token, Do(token, s, x))
  {
    var t := Do(token, s, x);
    forall m | m in t.macs && m.key == token ensures MadeByClient(token, t, m) || MadeByDaemon(token, t, m) {
      if m in s.macs {
        if MadeByClient(token, s, m) {
          var i :| i in s.clients && s.clients[i].Answered? && m == AuthProof(token, s.clients[i].challenge);
          assert i in t.clients && t.clients[i].Answered? && t.clients[i].challenge == s.clients[i].challenge;
        } else {
          var j :| j in s.daemons && m in ServerMacs(token, s.daemons[j]);
          assert j in t.daemons && t.daemons[j] == s.daemons[j];
        }
      } else if x.DeliverChallenge? {
        assert x.i in t.clients && t.clients[x.i].Answered?;
      } else {
        assert x.j in t.daemons && m in ServerMacs(token, t.daemons[x.j]);
      }
    }
  }

  lemma StepKeepsConvinced(token: string, s: State, x: Step)
    requires Convinced(token, s) && Enabled(token, s, x)
    ensures Convinced(token, Do(token, s, x))
  {
  }

  lemma StepKeepsChallengesSeen(token: string, s: State, x: Step)
    requires ChallengesSeen(s) && Enabled(token, s, x)
    ensures ChallengesSeen(Do(token, s, x))
  {
    var t := Do(token, s, x);
    forall j, n | j in t.daemons && Issued(t.daemons[j], n) ensures |n| == NONCE_SIZE && n in t.seen {
      assert j in s.daemons && (Issued(s.daemons[j], n) || x == Challenge(j, n));
    }
  }

  lemma StepKeepsClientNoncesSeen(token: string, s: State, x: Step)
    requires ClientNoncesSeen(s) && Enabled(token, s, x)
    ensures ClientNoncesSeen(Do(token, s, x))
  {
  }

  lemma StepKeepsAnswersSeen(token: string, s: State, x: Step)
    requires AnswersSeen(s) && Enabled(token, s, x)
    ensures AnswersSeen(Do(token, s, x))
  {
  }

  lemma StepKeepsFresh(token: string, s: State, x: Step)
    requires ClientNoncesSeen(s) && AnswersSeen(s) && NoncesFresh(s) && Enabled(token, s, x)
    ensures NoncesFresh(Do(token, s, x))
  {
  }

  lemma StepKeepsInv(token: string, s: State, x: Step)
    requires Inv(token, s) && Enabled(token, s, x)
    ensures Inv(token, Do(token, s, x))
  {
    StepKeepsConvinced(token, s, x);
    StepKeepsGenuine(token, s, x);
    StepKeepsChallengesSeen(token, s, x);
    StepKeepsClientNoncesSeen(token, s, x);
    StepKeepsAnswersSeen(token, s, x);
    StepKeepsFresh(token, s, x);
    StepKeepsChallengesDistinct(token, s, x);
    StepKeepsProofsSent(token, s, x);
  }

  lemma {:induction false} RunKeepsInv(token: string, s: State, xs: seq<Step>)
    requires Inv(token, s) && IsRun(token, s, xs)
    ensures Inv(token, After(token, s, xs))
    decreases |xs|
  {
    if xs != [] {
      StepKeepsInv(token, s, xs[0]);
      RunKeepsInv(token, Do(token, s, xs[0]), xs[1..]);
    }
  }

  // ---------------------------------------------------------------- what the handshake proves

  predicate HasAccepted(s: State, i: nat) {
    i in s.clients && s.clients[i].Answered? && s.clients[i].verdict.Accepted?
  }

  /** Daemon session j answered client i: the same challenge, the same nonce, and after it was drawn. */
  predicate AnsweredBy(s: State, i: nat, j: nat)
    requires HasAccepted(s, i)
  {
    var c := s.clients[i];
    && j in s.daemons && s.daemons[j].Open?
    && s.daemons[j].nonce == c.challenge && s.daemons[j].answer == Some(c.nonce) && s.daemons[j].at > c.drawnAt
  }

  /** An accepted server proof was made by a daemon session, over the same bytes. */
  lemma AcceptedProofIsGenuine(token: string, s: State, i: nat) returns (j: nat)
    requires Inv(token, s) && HasAccepted(s, i)
    ensures j in s.daemons && s.daemons[j].Open? && s.daemons[j].answer.Some?
    ensures s.daemons[j].nonce + s.daemons[j].answer.value == s.clients[i].challenge + s.clients[i].nonce
  {
    var c := s.clients[i];
    var m := ServerAuthProof(token, c.challenge, c.nonce);
    assert m in s.macs && m.key == token;
    if MadeByClient(token, s, m) {
      var k :| k in s.clients && s.clients[k].Answered? && m == AuthProof(token, s.clients[k].challenge);
      ProofsNeverCoincide(token, s.clients[k].challenge, c.challenge, c.nonce);
    }
    j :| j in s.daemons && m in ServerMacs(token, s.daemons[j]);
    ServerProofInjective(token, s.daemons[j].nonce, s.daemons[j].answer.value, c.challenge, c.nonce);
  }

  /**
   A client that accepts has been answered, after it drew its nonce, by a token-holding
   daemon session that issued this very challenge, exactly when the challenge has the
   length every daemon draws.
   */
  lemma Agreement(token: string, xs: seq<Step>, i: nat)
    requires IsRun(token, INITIAL, xs) && HasAccepted(After(token, INITIAL, xs), i)
    ensures var s := After(token, INITIAL, xs);
            (exists j :: AnsweredBy(s, i, j)) <==> |s.clients[i].challenge| == NONCE_SIZE
  {
    RunKeepsInv(token, INITIAL, xs);
    var s := After(token, INITIAL, xs);
    if |s.clients[i].challenge| == NONCE_SIZE {
      var j := AnsweringDaemon(token, s, i);
    }
    if exists j :: AnsweredBy(s, i, j) {
      var j :| AnsweredBy(s, i, j);
      IssuedLength(s, j);
    }
  }

  lemma IssuedLength(s: State, j: nat)
    requires ChallengesSeen(s) && j in s.daemons && s.daemons[j].Open?
    ensures |s.daemons[j].nonce| == NONCE_SIZE
  {
    assert Issued(s.daemons[j], s.daemons[j].nonce);
  }

  lemma AnsweringDaemon(token: string, s: State, i: nat) returns (j: nat)
    requires Inv(token, s) && HasAccepted(s, i) && |s.clients[i].challenge| == NONCE_SIZE
    ensures AnsweredBy(s, i, j)
  {
    j := AcceptedProofIsGenuine(token, s, i);
    IssuedLength(s, j);
    SplitEqually(s.daemons[j].nonce, s.daemons[j].answer.value, s.clients[i].challenge, s.clients[i].nonce);
    assert Answers(s.daemons[j], s.clients[i]);
  }

  lemma SplitEqually(n: Bytes, c: Bytes, m: Bytes, d: Bytes)
    requires n + c == m + d && |n| == |m|
    ensures n == m && c == d
  {
    assert (n + c)[..|n|] == n && (m + d)[..|n|] == m;
    assert (n + c)[|n|..] == c && (m + d)[|n|..] == d;
  }

  /** No daemon session answers two clients. */
  lemma AnswersAreInjective(token: string, xs: seq<Step>, i: nat, k: nat, j: nat)
    requires IsRun(token, INITIAL, xs)
    requires var s := After(token, INITIAL, xs);
             HasAccepted(s, i) && HasAccepted(s, k) && AnsweredBy(s, i, j) && AnsweredBy(s, k, j)
    ensures i == k
  {
    RunKeepsInv(token, INITIAL, xs);
  }

  /** No client is answered by two daemon sessions. */
  lemma AnswererIsUnique(token: string, xs: seq<Step>, i: nat, j: nat, k: nat)
    requires IsRun(token, INITIAL, xs)
    requires var s := After(token, INITIAL, xs); HasAccepted(s, i) && AnsweredBy(s, i, j) && AnsweredBy(s, i, k)
    ensures j == k
  {
    RunKeepsInv(token, INITIAL, xs);
    var s := After(token, INITIAL, xs);
    assert Issued(s.daemons[j], s.clients[i].challenge) && Issued(s.daemons[k], s.clients[i].challenge);
  }

  /** A daemon session opens only for a challenge that a token-holding client has answered. */
  lemma DaemonOpensForClients(token: string, xs: seq<Step>, j: nat)
    requires IsRun(token, INITIAL, xs)
    requires var s := After(token, INITIAL, xs); j in s.daemons && s.daemons[j].Open?
    ensures var s := After(token, INITIAL, xs);
            exists i :: i in s.clients && s.clients[i].Answered? && s.clients[i].challenge == s.daemons[j].nonce
  {
    RunKeepsInv(token, INITIAL, xs);
    var s := After(token, INITIAL, xs);
    var m := AuthProof(token, s.daemons[j].nonce);
    assert m in s.macs && m.key == token;
    if MadeByDaemon(token, s, m) {
      var k :| k in s.daemons && m in ServerMacs(token, s.daemons[k]);
      ProofsNeverCoincide(token, s.daemons[j].nonce, s.daemons[k].nonce, s.daemons[k].answer.value);
    }
    var i :| i in s.clients && s.clients[i].Answered? && m == AuthProof(token, s.clients[i].challenge);
    AuthProofInjective(token, s.clients[i].challenge, s.daemons[j].nonce);
  }

  // ---------------------------------------------------------------- honest sessions succeed

  /**
   After every run, a client that is waiting for the answer to the challenge of a waiting daemon
   session gets it: delivering its hello and the reply to it, unchanged, makes it accept.
   */
  lemma HonestSessionSucceeds(token: string, xs: seq<Step>, i: nat, j: nat, proto: int)
    requires IsRun(token, INITIAL, xs) && (proto == 0 || proto == 3)
    requires var s := After(token, INITIAL, xs);
             && j in s.daemons && s.daemons[j].Challenging?
             && i in s.clients && s.clients[i].Answered? && s.clients[i].verdict.Pending?
             && s.clients[i].challenge == s.daemons[j].nonce
    ensures var s := After(token, INITIAL, xs);
            var n, c := s.clients[i].challenge, s.clients[i].nonce;
            var hello := DeliverHello(j, Proof(AuthProof(token, n)), c, 3);
            var reply := DeliverResult(i, Proof(ServerAuthProof(token, n, c)), proto);
            && Enabled(token, s, hello) && Enabled(token, Do(token, s, hello), reply)
            && var t := Do(token, Do(token, s, hello), reply);
               HasAccepted(t, i) && AnsweredBy(t, i, j)
  {
    RunKeepsInv(token, INITIAL, xs);
  }

  /** A client answers a challenge of 16 bytes or more and no other, and with the nonce it drew. */
  lemma AnsweredChallenges(challenge: Bytes, drawn: Bytes, now: nat)
    ensures |challenge| >= 16 <==> OnChallenge(challenge, drawn, now) == Answered(challenge, drawn, now, Pending)
    ensures |challenge| < 16 <==> OnChallenge(challenge, drawn, now) == Gone
  {
  }

  /** Neither side goes on with another protocol version. */
  lemma OtherVersionsAreRefused(token: string, d: Daemon, c: Client, proof: Proof, clientNonce: Bytes, proto: int,
                                now: nat)
    requires proto != 0 && proto != 3 && !d.Open? && c.Answered?
    ensures !OnClientHello(token, d, proof, clientNonce, proto, now).Open?
    ensures OnHello(token, c, proof, proto).verdict == Refused
  {
  }

  /** A daemon session answers a client nonce of 16 to 64 bytes and no other, and only the first hello counts. */
  lemma AnsweredNonces(token: string, d: Daemon, proof: Proof, clientNonce: Bytes, proto: int, now: nat)
    ensures var e := OnClientHello(token, d, proof, clientNonce, proto, now);
            && (d.Challenging? && e.Open? ==>
                  e.nonce == d.nonce && (e.answer == Some(clientNonce) <==> 16 <= |clientNonce| <= 64) &&
                  (e.answer == None <==> !(16 <= |clientNonce| <= 64)))
            && (d.Open? || d.Closed? ==> e == d) && (d.Idle? ==> e.Closed?)
  {
  }

  // ---------------------------------------------------------------- a longer challenge

  /** Two clients and one daemon session; client 1 is shown a challenge that is longer by x. */
  function LongRun(token: string, n: Bytes, x: Bytes, c0: Bytes, c1: Bytes): seq<Step> {
    [NewDaemon(0), NewClient(0), NewClient(1), Challenge(0, n)] +
    [DeliverChallenge(0, n, c0), DeliverChallenge(1, n + x, c1),
     DeliverHello(0, Proof(AuthProof(token, n)), x + c1, PROTO_VERSION),
     DeliverResult(1, Proof(ServerAuthProof(token, n, x + c1)), PROTO_VERSION)]
  }

  predicate LongNonces(n: Bytes, x: Bytes, c0: Bytes, c1: Bytes) {
    && |n| == |c0| == |c1| == NONCE_SIZE && 0 < |x| <= NONCE_SIZE
    && n != c0 && n != c1 && c0 != c1
  }

  lemma LongOpening(token: string, n: Bytes) returns (s1: State, s2: State, s3: State, s4: State)
    requires |n| == NONCE_SIZE
    ensures Enabled(token, INITIAL, NewDaemon(0)) && s1 == Do(token, INITIAL, NewDaemon(0))
    ensures Enabled(token, s1, NewClient(0)) && s2 == Do(token, s1, NewClient(0))
    ensures Enabled(token, s2, NewClient(1)) && s3 == Do(token, s2, NewClient(1))
    ensures Enabled(token, s3, Challenge(0, n)) && s4 == Do(token, s3, Challenge(0, n))
    ensures s4 == State(4, map[0 := Waiting, 1 := Waiting], map[0 := Challenging(n)], {}, {n})
  {
    s1 := Do(token, INITIAL, NewDaemon(0));
    s2 := Do(token, s1, NewClient(0));
    s3 := Do(token, s2, NewClient(1));
    s4 := Do(token, s3, Challenge(0, n));
  }

  lemma LongEnding(token: string, n: Bytes, x: Bytes, c0: Bytes, c1: Bytes, s4: State)
    returns (s5: State, s6: State, s7: State)
    requires LongNonces(n, x, c0, c1)
    requires s4 == State(4, map[0 := Waiting, 1 := Waiting], map[0 := Challenging(n)], {}, {n})
    ensures Enabled(token, s4, DeliverChallenge(0, n, c0)) && s5 == Do(token, s4, DeliverChallenge(0, n, c0))
    ensures Enabled(token, s5, DeliverChallenge(1, n + x, c1)) && s6 == Do(token, s5, DeliverChallenge(1, n + x, c1))
    ensures var hello := DeliverHello(0, Proof(AuthProof(token, n)), x + c1, PROTO_VERSION);
            Enabled(token, s6, hello) && s7 == Do(token, s6, hello)
    ensures var result := DeliverResult(1, Proof(ServerAuthProof(token, n, x + c1)), PROTO_VERSION);
            Enabled(token, s7, result) && HasAccepted(Do(token, s7, result), 1) &&
            Do(token, s7, result).clients[1].challenge == n + x
  {
    s5 := Do(token, s4, DeliverChallenge(0, n, c0));
    assert |n + x| > NONCE_SIZE;
    s6 := Do(token, s5, DeliverChallenge(1, n + x, c1));
    assert s6.clients[1] == Answered(n + x, c1, 5, Pending) && s6.daemons[0] == Challenging(n);
    s7 := Do(token, s6, DeliverHello(0, Proof(AuthProof(token, n)), x + c1, PROTO_VERSION));
    assert s7.daemons[0] == Open(n, Some(x + c1), 6);
    ServerProofDoesNotMarkBoundary(token, n, x, c1);
  }

  lemma LongRunIs(token: string, n: Bytes, x: Bytes, c0: Bytes, c1: Bytes)
    requires LongNonces(n, x, c0, c1)
    ensures var xs := LongRun(token, n, x, c0, c1);
            && IsRun(token, INITIAL, xs) && HasAccepted(After(token, INITIAL, xs), 1)
            && After(token, INITIAL, xs).clients[1].challenge == n + x
  {
    var s1, s2, s3, s4 := LongOpening(token, n);
    var s5, s6, s7 := LongEnding(token, n, x, c0, c1, s4);
    var y0, y1 := DeliverChallenge(0, n, c0), DeliverChallenge(1, n + x, c1);
    var y2 := DeliverHello(0, Proof(AuthProof(token, n)), x + c1, PROTO_VERSION);
    var y3 := DeliverResult(1, Proof(ServerAuthProof(token, n, x + c1)), PROTO_VERSION);
    FourSteps(token, s4, y0, s5, y1, s6, y2, s7, y3, []);
    assert [y0, y1, y2, y3] + [] == [y0, y1, y2, y3];
    FourSteps(token, INITIAL, NewDaemon(0), s1, NewClient(0), s2, NewClient(1), s3, Challenge(0, n), [y0, y1, y2, y3]);
  }

  /** There is a run in which a client accepts a challenge of another length, and then no daemon session answered it. */
  lemma LongChallengeIsAccepted(token: string, n: Bytes, x: Bytes, c0: Bytes, c1: Bytes)
    requires LongNonces(n, x, c0, c1)
    ensures var xs := LongRun(token, n, x, c0, c1);
            && IsRun(token, INITIAL, xs)
            && var s := After(token, INITIAL, xs);
               HasAccepted(s, 1) && s.clients[1].challenge == n + x && !exists j :: AnsweredBy(s, 1, j)
  {
    LongRunIs(token, n, x, c0, c1);
    Agreement(token, LongRun(token, n, x, c0, c1), 1);
  }

  lemma FourSteps(token: string, s0: State, x0: Step, s1: State, x1: Step, s2: State, x2: Step, s3: State, x3: Step,
                  xs: seq<Step>)
    requires Enabled(token, s0, x0) && s1 == Do(token, s0, x0)
    requires Enabled(token, s1, x1) && s2 == Do(token, s1, x1)
    requires Enabled(token, s2, x2) && s3 == Do(token, s2, x2)
    requires Enabled(token, s3, x3) && IsRun(token, Do(token, s3, x3), xs)
    ensures IsRun(token, s0, [x0, x1, x2, x3] + xs)
    ensures After(token, s0, [x0, x1, x2, x3] + xs) == After(token, Do(token, s3, x3), xs)
  {
    FirstStep(token, s3, x3, xs);
    FirstStep(token, s2, x2, [x3] + xs);
    FirstStep(token, s1, x1, [x2] + ([x3] + xs));
    FirstStep(token, s0, x0, [x1] + ([x2] + ([x3] + xs)));
    assert [x0] + ([x1] + ([x2] + ([x3] + xs))) == [x0, x1, x2, x3] + xs;
  }

  lemma FirstStep(token: string, s: State, x: Step, xs: seq<Step>)
    requires Enabled(token, s, x) && IsRun(token, Do(token, s, x), xs)
    ensures IsRun(token, s, [x] + xs) && After(token, s, [x] + xs) == After(token, Do(token, s, x), xs)
  {
    assert ([x] + xs)[1..] == xs;
  }
}
