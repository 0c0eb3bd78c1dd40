/**
 The eMSP's registration tokens under every interleaving of inbound and outbound handshakes. A handshake that awaits
 the network is split there: each action below is what runs between two awaits.
 */
module Credentials {
  import opened Options

  type Token = string

  /** `accept` authenticates the CPO's calls to us, `present` ours to it, `tokenA` a handshake under way. */
  datatype Registration = Registration(
    registered: bool, accept: Token, present: Token, tokenA: Option<Token>, credentialsUrl: Option<string>)

  datatype AuthMode = Functional | RegistrationOnly

  /** `validInboundTokens`. */
  function ValidTokens(reg: Registration, auth: AuthMode): seq<Token> {
    (if reg.accept != "" then [reg.accept] else [])
    + (if auth == RegistrationOnly && reg.tokenA.Some? && reg.tokenA.value != "" then [reg.tokenA.value] else [])
  }

  /** `verifyInbound`, on a decoded header. */
  predicate Verified(reg: Registration, auth: AuthMode, token: Token) {
    token != "" && token in ValidTokens(reg, auth)
  }

  /** A handshake waiting for the network. `Posting` and `Rotating` carry the token they minted and sent. */
  datatype Flow =
    | Discovering
    | Registering
    | Posting(minted: Token)
    | Rotating(minted: Token)
    | Unregistering

  /** `used` is every token ever minted or accepted, `retired` every accepted token that was replaced. */
  datatype State = State(reg: Registration, flows: map<nat, Flow>, used: set<Token>, retired: set<Token>)

  /** What the CPO answered: the HTTP status, whether the body is schema-valid, and the token in it. */
  datatype Answer = Answer(status: int, valid: bool, token: Option<Token>)

  /** The token to adopt: a registration looks at the body only, a rotation at status and schema too. No answer: None. */
  function Adopted(rotating: bool, answer: Option<Answer>): Option<Token> {
    if answer.None? || answer.value.token.None? || answer.value.token.value == "" then None
    else if rotating && !(200 <= answer.value.status <= 299 && answer.value.valid) then None
    else answer.value.token
  }

  datatype Action =
    | InboundStart(id: nat, isPut: bool, theirs: Token)
    | InboundDiscovered(id: nat, url: string)
    | InboundFinish(id: nat, minted: Token)
    | InboundDelete(minted: Token)
    | RegisterStart(id: nat)
    | RegisterTokenA(id: nat, tokenA: Token)
    | RegisterPost(id: nat, url: string, minted: Token)
    | RegisterDone(id: nat, answer: Option<Answer>)
    | RotateStart(id: nat, minted: Token)
    | RotateDone(id: nat, answer: Option<Answer>)
    | UnregisterStart(id: nat)
    | UnregisterDone(id: nat, ok: bool)

  predicate In(s: State, id: nat, f: Flow) {
    id in s.flows && s.flows[id] == f
  }

  /** A freshly minted token is none that was used before. */
  predicate IsFresh(s: State, t: Token) {
    t != "" && t !in s.used
  }

  predicate Enabled(s: State, a: Action) {
    match a
    case InboundStart(id, isPut, _) => id !in s.flows && (isPut || !s.reg.registered)
    case InboundDiscovered(id, _) => In(s, id, Discovering)
    case InboundFinish(id, t) => In(s, id, Discovering) && IsFresh(s, t)
    case InboundDelete(t) => IsFresh(s, t)
    case RegisterStart(id) => id !in s.flows
    case RegisterTokenA(id, _) => In(s, id, Registering)
    case RegisterPost(id, _, t) => In(s, id, Registering) && IsFresh(s, t)
    case RegisterDone(id, _) => id in s.flows && (s.flows[id].Registering? || s.flows[id].Posting?)
    case RotateStart(id, t) => id !in s.flows && s.reg.registered && s.reg.credentialsUrl.Some? && IsFresh(s, t)
    case RotateDone(id, _) => id in s.flows && s.flows[id].Rotating?
    case UnregisterStart(id) => id !in s.flows
    case UnregisterDone(id, _) => In(s, id, Unregistering)
  }

  /** The accepted token is overwritten by `t`. */
  function Replaced(s: State, t: Token): State {
    s.(reg := s.reg.(accept := t), used := s.used + {t}, retired := s.retired + {s.reg.accept})
  }

  function Without(s: State, id: nat): State {
    s.(flows := s.flows - {id})
  }

  function Apply(s: State, a: Action): State
    requires Enabled(s, a)
  {
    match a
    case InboundStart(id, _, theirs) =>
      s.(reg := s.reg.(present := theirs, tokenA := None), flows := s.flows[id := Discovering])
    case InboundDiscovered(id, url) =>
      s.(reg := s.reg.(credentialsUrl := Some(url)))
    case InboundFinish(id, t) =>
      var r := Replaced(Without(s, id), t);
      r.(reg := r.reg.(registered := true))
    case InboundDelete(t) =>
      var r := Replaced(s, t);
      r.(reg := r.reg.(registered := false, present := "", tokenA := None, credentialsUrl := None))
    case RegisterStart(id) =>
      s.(flows := s.flows[id := Registering])
    case RegisterTokenA(id, tokenA) =>
      s.(reg := s.reg.(tokenA := Some(tokenA)))
    case RegisterPost(id, url, t) =>
      s.(reg := s.reg.(credentialsUrl := Some(url)), flows := s.flows[id := Posting(t)], used := s.used + {t})
    case RegisterDone(id, answer) =>
      var token := Adopted(false, answer);
      if token.Some? && s.flows[id].Posting? then
        var r := Replaced(Without(s, id), s.flows[id].minted);
        r.(reg := r.reg.(present := token.value, tokenA := None, registered := true))
      else Without(s, id)
    case RotateStart(id, t) =>
      s.(flows := s.flows[id := Rotating(t)], used := s.used + {t})
    case RotateDone(id, answer) =>
      var token := Adopted(true, answer);
      if token.Some? then
        var r := Replaced(Without(s, id), s.flows[id].minted);
        r.(reg := r.reg.(present := token.value))
      else Without(s, id)
    case UnregisterStart(id) =>
      s.(flows := s.flows[id := Unregistering])
    case UnregisterDone(id, ok) =>
      if ok then
        Without(s, id).(reg := s.reg.(registered := false, present := "", tokenA := None, credentialsUrl := None))
      else Without(s, id)
  }

  predicate Init(s: State) {
    s.flows == map[] && s.used == {s.reg.accept} && s.retired == {}
  }

  // ---- no retired token comes back ----

  function MintedBy(f: Flow): Option<Token> {
    if f.Posting? || f.Rotating? then Some(f.minted) else None
  }

  /** A minted token waits in one flow only, and was never accepted so far. */
  ghost predicate MintedOnce(s: State) {
    && (forall i :: i in s.flows && MintedBy(s.flows[i]).Some? ==> IsPending(s, MintedBy(s.flows[i]).value))
    && (forall i, j :: i in s.flows && j in s.flows && MintedBy(s.flows[i]).Some? ==>
          MintedBy(s.flows[i]) == MintedBy(s.flows[j]) ==> i == j)
  }

  predicate IsPending(s: State, t: Token) {
    t != "" && t in s.used && t !in s.retired && t != s.reg.accept
  }

  ghost predicate Inv(s: State) {
    && s.reg.accept in s.used && s.retired <= s.used && s.reg.accept !in s.retired
    && MintedOnce(s)
  }

  lemma ApplyKeepsInv(s: State, a: Action)
    requires Inv(s) && Enabled(s, a)
    ensures Inv(Apply(s, a))
  {
    var s' := Apply(s, a);
    forall i | i in s'.flows && MintedBy(s'.flows[i]).Some?
      ensures IsPending(s', MintedBy(s'.flows[i]).value)
    {
      if i in s.flows && s.flows[i] == s'.flows[i] {
        assert IsPending(s, MintedBy(s.flows[i]).value);
      }
    }
  }

  /** What an action does to the tokens that are or were accepted. */
  lemma AcceptedOrRetired(s: State, a: Action)
    requires Enabled(s, a)
    ensures var s' := Apply(s, a);
            s.retired <= s'.retired && (s'.reg.accept == s.reg.accept || s.reg.accept in s'.retired)
  {
  }

  ghost predicate Next(s: State, s': State) {
    exists a :: Enabled(s, a) && s' == Apply(s, a)
  }

  ghost predicate Run(run: seq<State>) {
    && run != [] && Init(run[0])
    && forall n :: 0 <= n < |run| - 1 ==> StepAt(run, n)
  }

  ghost predicate StepAt(run: seq<State>, n: nat)
    requires n + 1 < |run|
  {
    Next(run[n], run[n + 1])
  }

  lemma {:induction false} ReachableInv(run: seq<State>, n: nat)
    requires Run(run) && n < |run|
    ensures Inv(run[n])
  {
    if n > 0 {
      ReachableInv(run, n - 1);
      assert StepAt(run, n - 1);
      var a :| Enabled(run[n - 1], a) && run[n] == Apply(run[n - 1], a);
      ApplyKeepsInv(run[n - 1], a);
    }
  }

  lemma {:induction false} OnceAccepted(run: seq<State>, n: nat, k: nat)
    requires Run(run) && n <= k < |run|
    ensures run[k].reg.accept == run[n].reg.accept || run[n].reg.accept in run[k].retired
    ensures run[n].retired <= run[k].retired
    decreases k
  {
    if n < k {
      OnceAccepted(run, n, k - 1);
      assert StepAt(run, k - 1);
      var a :| Enabled(run[k - 1], a) && run[k] == Apply(run[k - 1], a);
      AcceptedOrRetired(run[k - 1], a);
    }
  }

  /** Whatever handshakes overlap: a token that was accepted and then replaced is never accepted again. */
  lemma ReplacedTokenStaysDead(run: seq<State>, n: nat, m: nat, k: nat, t: Token)
    requires Run(run) && n <= m <= k < |run|
    requires Verified(run[n].reg, Functional, t) && !Verified(run[m].reg, Functional, t)
    ensures !Verified(run[k].reg, Functional, t)
  {
    OnceAccepted(run, n, m);
    OnceAccepted(run, m, k);
    ReachableInv(run, k);
  }

  // ---- a minted token is accepted exactly if its handshake succeeds ----

  /** The last step of a registration or rotation, and the token the CPO's answer makes us adopt. */
  predicate Answers(s: State, a: Action, id: nat, answer: Option<Answer>) {
    && id in s.flows
    && ((s.flows[id].Posting? && a == RegisterDone(id, answer)) || (s.flows[id].Rotating? && a == RotateDone(id, answer)))
  }

  /** A token that is not accepted and that no handshake under way can make accepted. */
  ghost predicate Dead(s: State, t: Token) {
    t in s.used && t != s.reg.accept && forall i :: i in s.flows ==> MintedBy(s.flows[i]) != Some(t)
  }

  lemma StaysDead(s: State, a: Action, t: Token)
    requires Enabled(s, a) && Dead(s, t)
    ensures Dead(Apply(s, a), t)
  {
  }

  lemma {:induction false} DeadForGood(run: seq<State>, n: nat, k: nat, t: Token)
    requires Run(run) && n <= k < |run| && Dead(run[n], t)
    ensures Dead(run[k], t)
    decreases k
  {
    if n < k {
      DeadForGood(run, n, k - 1, t);
      assert StepAt(run, k - 1);
      var a :| Enabled(run[k - 1], a) && run[k] == Apply(run[k - 1], a);
      StaysDead(run[k - 1], a, t);
    }
  }

  lemma NeverAcceptedBefore(run: seq<State>, n: nat, k: nat, id: nat)
    requires Run(run) && k <= n < |run| && id in run[n].flows && MintedBy(run[n].flows[id]).Some?
    ensures run[k].reg.accept != MintedBy(run[n].flows[id]).value
  {
    ReachableInv(run, n);
    OnceAccepted(run, k, n);
    assert IsPending(run[n], MintedBy(run[n].flows[id]).value);
  }

  /** An answer that brings a token; to a rotation it must also have a 2xx status and a valid body. */
  predicate IsGood(rotating: bool, answer: Option<Answer>) {
    && answer.Some? && answer.value.token.Some? && answer.value.token.value != ""
    && (rotating ==> answer.value.valid && answer.value.status >= 200 && answer.value.status < 300)
  }

  /**
   Whatever handshakes overlap: the token a registration or rotation minted is accepted on no functional route
   before its answer comes; afterwards exactly if the answer is adopted. A failure writes no part of the
   registration, and then the token is never accepted in the rest of the run.
   */
  lemma FailedHandshakeLeavesNoToken(run: seq<State>, n: nat, a: Action, id: nat, answer: Option<Answer>, k: nat)
    requires Run(run) && n + 1 < |run| && k < |run|
    requires Answers(run[n], a, id, answer) && run[n + 1] == Apply(run[n], a)
    ensures var t := run[n].flows[id].minted;
            && (k <= n ==> !Verified(run[k].reg, Functional, t))
            && (Verified(run[n + 1].reg, Functional, t) <==> IsGood(a.RotateDone?, answer))
            && (!IsGood(a.RotateDone?, answer) ==> run[n + 1].reg == run[n].reg && !Verified(run[k].reg, Functional, t))
  {
    var t := run[n].flows[id].minted;
    ReachableInv(run, n);
    assert MintedBy(run[n].flows[id]) == Some(t) && IsPending(run[n], t);
    if k <= n {
      NeverAcceptedBefore(run, n, k, id);
    }
    if Adopted(a.RotateDone?, answer).None? {
      assert Dead(run[n + 1], t);
      if k > n {
        DeadForGood(run, n + 1, k, t);
      }
    }
  }

  /**
   What a handshake leaves behind when it succeeds: one token is accepted from now on, and one presented. A registration
   and an inbound handshake also end registered, and the handshake's own token is used up.
   */
  lemma HandshakeTakesEffect(s: State, a: Action, t: Token)
    requires Inv(s) && Enabled(s, a)
    ensures var s' := Apply(s, a);
            && (a.RotateDone? && IsGood(true, a.answer) ==>
                  && (Verified(s'.reg, Functional, t) <==> t == s.flows[a.id].minted)
                  && Some(s'.reg.present) == a.answer.value.token && s'.reg.tokenA == s.reg.tokenA)
            && (a.RegisterDone? && s.flows[a.id].Posting? && IsGood(false, a.answer) ==>
                  && (Verified(s'.reg, Functional, t) <==> t == s.flows[a.id].minted)
                  && Some(s'.reg.present) == a.answer.value.token && s'.reg.registered && s'.reg.tokenA.None?)
            && (a.InboundFinish? ==>
                  && (Verified(s'.reg, Functional, t) <==> t == a.minted)
                  && s'.reg.registered && s'.reg.present == s.reg.present)
            && (a.InboundStart? ==> s'.reg == s.reg.(present := a.theirs, tokenA := None))
  {
    if a.RotateDone? || (a.RegisterDone? && s.flows[a.id].Posting?) {
      assert IsPending(s, MintedBy(s.flows[a.id]).value);
    }
  }

  /** What is learnt or handed out on the way: the CPO's address and the handshake's token, and nothing else of the registration. */
  lemma OnTheWay(s: State, a: Action)
    requires Enabled(s, a)
    ensures a.InboundDiscovered? ==> Apply(s, a).reg == s.reg.(credentialsUrl := Some(a.url))
    ensures a.RegisterTokenA? ==> Apply(s, a).reg == s.reg.(tokenA := Some(a.tokenA))
    ensures a.RegisterPost? ==> Apply(s, a).reg == s.reg.(credentialsUrl := Some(a.url))
    ensures a.RegisterStart? || a.RotateStart? || a.UnregisterStart? ==> Apply(s, a).reg == s.reg
  {
  }

  /** A handshake that was started waits for its answer, whatever others do, and ends with it. */
  lemma EachHandshakeGoesOn(s: State, a: Action, id: nat, answer: Option<Answer>, t: Token)
    requires Enabled(s, a)
    ensures a == InboundStart(id, true, t) || a == InboundStart(id, false, t) ==> Apply(s, a).flows == s.flows[id := Discovering]
    ensures a == RegisterStart(id) ==> Apply(s, a).flows == s.flows[id := Registering]
    ensures a.RegisterPost? && a.id == id ==> Answers(Apply(s, a), RegisterDone(id, answer), id, answer)
    ensures a.RotateStart? && a.id == id ==> Answers(Apply(s, a), RotateDone(id, answer), id, answer)
    ensures a == UnregisterStart(id) ==> Enabled(Apply(s, a), UnregisterDone(id, true))
    ensures id in s.flows && !Concerns(a, id) ==> id in Apply(s, a).flows && Apply(s, a).flows[id] == s.flows[id]
    ensures Ends(a) ==> Apply(s, a).flows == s.flows - {a.id}
  {
  }

  predicate Concerns(a: Action, id: nat) {
    !a.InboundDelete? && a.id == id
  }

  predicate Ends(a: Action) {
    a.InboundFinish? || a.RegisterDone? || a.RotateDone? || a.UnregisterDone?
  }

  /** Who may come in: on functional routes the accepted token alone, on registration routes the handshake's too. */
  lemma WhoIsAccepted(reg: Registration, t: Token)
    ensures Verified(reg, Functional, t) <==> t != "" && t == reg.accept
    ensures Verified(reg, RegistrationOnly, t) <==> t != "" && (t == reg.accept || reg.tokenA == Some(t))
  {
  }

  /** What is refused at once: a POST while registered, and a rotation while not, or without a known address. */
  lemma RefusedAtOnce(s: State, id: nat, t: Token)
    ensures s.reg.registered ==> !Enabled(s, InboundStart(id, false, t))
    ensures !s.reg.registered || s.reg.credentialsUrl.None? ==> !Enabled(s, RotateStart(id, t))
    ensures id !in s.flows ==> Enabled(s, InboundStart(id, true, t)) && Enabled(s, RegisterStart(id)) && Enabled(s, UnregisterStart(id))
  {
  }

  /** After an unregistration from either side nothing is left to present or to call, and a rotation is refused. */
  lemma Unregistered(s: State, a: Action)
    requires Enabled(s, a) && (a.InboundDelete? || (a.UnregisterDone? && a.ok))
    ensures var reg := Apply(s, a).reg;
            !reg.registered && reg.present == "" && reg.tokenA.None? && reg.credentialsUrl.None?
    ensures forall id, t :: !Enabled(Apply(s, a), RotateStart(id, t))
  {
  }

  /**
   The accepted token dies exactly when the CPO completes a handshake or deletes its registration, or when it answers
   ours with a token. Unregistering from our own side leaves it accepted.
   */
  lemma AcceptedTokenDiesExactly(s: State, a: Action, t: Token)
    requires Inv(s) && Enabled(s, a) && Verified(s.reg, Functional, t)
    ensures !Verified(Apply(s, a).reg, Functional, t)
       <==> a.InboundFinish? || a.InboundDelete?
            || exists id, answer :: Answers(s, a, id, answer) && IsGood(a.RotateDone?, answer)
  {
    if (a.RegisterDone? && s.flows[a.id].Posting?) || a.RotateDone? {
      assert IsPending(s, MintedBy(s.flows[a.id]).value);
      assert Answers(s, a, a.id, a.answer);
    }
  }
}
