/** Who is let in: the order of checks on one request, and what a history of requests can never do. */
module Decision {
  import opened Words
  import opened AccessMessage
  import opened Base58
  import N = Nonces

  /** This gateway's own configuration; `gateId` in canonical form. */
  datatype Settings = Settings(origin: Bytes, gateId: Bytes, network: Bytes, singleUse: bool)

  datatype Proof = Proof(address: Bytes, nonce: Bytes, signature: Bytes, consumeDigest: Option<Bytes>)

  /** What the outside answers to one request; `None` is a call that failed. */
  datatype Answers = Answers(storeUp: bool, blocked: Option<bool>, consumed: Option<bool>, owns: Option<bool>)

  datatype Denied =
    | BadProof
    | BadSignature
    | NonceInvalid
    | NotOwner
    | ConsumeMissing
    | GatePaused
    | ChainError
    | StateUnavailable

  datatype Verified = Verified(address: Bytes, redemptionKey: Option<Bytes>)

  /** Whether a signature by an address over a message verifies, and the canonical form of an address. */
  datatype Wallets = Wallets(signs: (Bytes, Bytes, Bytes) -> bool, canonical: Bytes -> Bytes)

  /** The key a nonce is stored under. */
  function KeyOf(nonce: Bytes): string {
    seq(|nonce|, i requires 0 <= i < |nonce| => nonce[i] as char)
  }

  /** What a proof has to sign here. */
  function ContextOf(s: Settings, p: Proof): Context {
    Context(s.origin, s.gateId, s.network, p.nonce, if s.singleUse then p.consumeDigest else None)
  }

  /** Why a request is refused before the nonce is touched. */
  function RefusedFirst(s: Settings, w: Wallets, proof: Option<Proof>): Option<Denied> {
    match proof
    case None => Some(BadProof)
    case Some(p) =>
      if s.singleUse && p.consumeDigest.None? then Some(ConsumeMissing)
      else
        match Message(ContextOf(s, p))
        case Failure(_) => Some(BadProof)
        case Success(m) => if w.signs(p.address, m, p.signature) then None else Some(BadSignature)
  }

  /** The answer once the nonce has been taken. */
  function AfterNonce(s: Settings, w: Wallets, p: Proof, a: Answers): Result<Verified, Denied> {
    if a.blocked == None then Failure(ChainError)
    else if a.blocked.value then Failure(GatePaused)
    else if s.singleUse then
      if p.consumeDigest.None? || !IsTxDigest(p.consumeDigest.value) then Failure(ConsumeMissing)
      else if a.consumed == None then Failure(ChainError)
      else if a.consumed.value then Success(Verified(w.canonical(p.address), p.consumeDigest))
      else Failure(ConsumeMissing)
    else if a.owns == None then Failure(ChainError)
    else if a.owns.value then Success(Verified(w.canonical(p.address), None))
    else Failure(NotOwner)
  }

  /** Whether a request gets as far as taking its nonce. */
  predicate ReachesNonce(s: Settings, w: Wallets, proof: Option<Proof>, a: Answers) {
    RefusedFirst(s, w, proof) == None && a.storeUp
  }

  function Outcome(s: Settings, w: Wallets, rows: N.Rows, now: nat, proof: Option<Proof>, a: Answers): Result<Verified, Denied> {
    match RefusedFirst(s, w, proof)
    case Some(d) => Failure(d)
    case None =>
      if !a.storeUp then Failure(StateUnavailable)
      else if !N.TakeAnswer(rows, KeyOf(proof.value.nonce), now) then Failure(NonceInvalid)
      else AfterNonce(s, w, proof.value, a)
  }

  method VerifyAccessRequest(s: Settings, w: Wallets, store: N.NonceTable, now: u64, proof: Option<Proof>, a: Answers)
    returns (r: Result<Verified, Denied>)
    modifies store
    ensures r == Outcome(s, w, old(store.rows), now, proof, a)
    ensures store.rows == if ReachesNonce(s, w, proof, a) then Without(old(store.rows), Some(KeyOf(proof.value.nonce)))
                          else old(store.rows)
  {
    if proof == None {
      return Failure(BadProof);
    }
    var p := proof.value;
    if s.singleUse && p.consumeDigest == None {
      return Failure(ConsumeMissing);
    }
    var message := PersonalMessage(ContextOf(s, p));
    if message.Failure? {
      return Failure(BadProof);
    }
    if !w.signs(p.address, message.value, p.signature) {
      return Failure(BadSignature);
    }
    var address := w.canonical(p.address);
    if !a.storeUp {
      return Failure(StateUnavailable);
    }
    var taken := store.TakeIfValid(KeyOf(p.nonce), now);
    if !taken {
      return Failure(NonceInvalid);
    }
    if a.blocked == None {
      return Failure(ChainError);
    }
    if a.blocked.value {
      return Failure(GatePaused);
    }
    if s.singleUse {
      if p.consumeDigest == None || !IsTxDigest(p.consumeDigest.value) {
        return Failure(ConsumeMissing);
      }
      if a.consumed == None {
        return Failure(ChainError);
      }
      if !a.consumed.value {
        return Failure(ConsumeMissing);
      }
      return Success(Verified(address, p.consumeDigest));
    }
    if a.owns == None {
      return Failure(ChainError);
    }
    if !a.owns.value {
      return Failure(NotOwner);
    }
    r := Success(Verified(address, None));
  }

  /**
   Admission, exactly: a good signature over this gateway's own context, a live nonce, an open gate and the mode's
   on-chain fact. The redemption key is the digest that was signed.
   */
  lemma {:induction false} AdmitsExactly(s: Settings, w: Wallets, rows: N.Rows, now: nat, proof: Option<Proof>, a: Answers, v: Verified)
    ensures Outcome(s, w, rows, now, proof, a) == Success(v)
            <==> && proof.Some? && Message(ContextOf(s, proof.value)).Success?
                 && w.signs(proof.value.address, Message(ContextOf(s, proof.value)).value, proof.value.signature)
                 && N.TakeAnswer(rows, KeyOf(proof.value.nonce), now)
                 && a.storeUp && a.blocked == Some(false)
                 && (if s.singleUse then a.consumed == Some(true) && v.redemptionKey.Some? else a.owns == Some(true))
                 && v == Verified(w.canonical(proof.value.address), ContextOf(s, proof.value).consumeDigest)
  {
  }

  /** One thing a request has to pass, and what it is told when it does not. */
  datatype Check = Check(passes: bool, denial: Denied)

  /** Everything a proof has to pass, in the order in which it is told. */
  function Checks(s: Settings, w: Wallets, rows: N.Rows, now: nat, p: Proof, a: Answers): seq<Check> {
    var message := Message(ContextOf(s, p));
    [Check(s.singleUse ==> p.consumeDigest.Some?, ConsumeMissing),
     Check(message.Success?, BadProof),
     Check(message.Success? && w.signs(p.address, message.value, p.signature), BadSignature),
     Check(a.storeUp, StateUnavailable),
     Check(KeyOf(p.nonce) in rows && now < rows[KeyOf(p.nonce)], NonceInvalid),
     Check(a.blocked.Some?, ChainError),
     Check(a.blocked == Some(false), GatePaused),
     Check(if s.singleUse then a.consumed.Some? else a.owns.Some?, ChainError),
     Check(if s.singleUse then a.consumed == Some(true) else a.owns == Some(true), if s.singleUse then ConsumeMissing else NotOwner)]
  }

  /** A denial names the first check that fails: all before it pass, and the later ones do not matter. */
  lemma {:induction false} DeniedForFirst(s: Settings, w: Wallets, rows: N.Rows, now: nat, p: Proof, a: Answers, i: nat)
    requires var checks := Checks(s, w, rows, now, p, a);
             i < |checks| && !checks[i].passes && forall k | 0 <= k < i :: checks[k].passes
    ensures Outcome(s, w, rows, now, Some(p), a) == Failure(Checks(s, w, rows, now, p, a)[i].denial)
  {
    var checks := Checks(s, w, rows, now, p, a);
    assert 0 < i ==> checks[0].passes;
    assert 1 < i ==> checks[1].passes;
    assert 2 < i ==> checks[2].passes;
    assert 3 < i ==> checks[3].passes;
    assert 4 < i ==> checks[4].passes;
    assert 5 < i ==> checks[5].passes;
    assert 6 < i ==> checks[6].passes;
    assert 7 < i ==> checks[7].passes;
  }

  /** A request that passes them all is let in, and one without a proof is told so. */
  lemma {:induction false} AdmittedForAll(s: Settings, w: Wallets, rows: N.Rows, now: nat, p: Proof, a: Answers)
    requires var checks := Checks(s, w, rows, now, p, a); forall i | 0 <= i < |checks| :: checks[i].passes
    ensures Outcome(s, w, rows, now, Some(p), a)
            == Success(Verified(w.canonical(p.address), if s.singleUse then p.consumeDigest else None))
    ensures Outcome(s, w, rows, now, None, a) == Failure(BadProof)
  {
    var checks := Checks(s, w, rows, now, p, a);
    assert checks[0].passes && checks[1].passes && checks[2].passes && checks[3].passes && checks[4].passes;
    assert checks[5].passes && checks[6].passes && checks[7].passes && checks[8].passes;
  }

  /**
   The nonce is spent whatever the verdict, once the first four checks pass: a proof with a good signature over this
   gateway's message, and a store that answers. Otherwise it is left alone.
   */
  lemma {:induction false} SpendsNonce(s: Settings, w: Wallets, rows: N.Rows, now: nat, p: Proof, a: Answers)
    ensures var (step, checks) := (Access(Some(p), a, now), Checks(s, w, rows, now, p, a));
            RowsAfter(s, w, rows, step)
            == if forall i | 0 <= i < 4 :: checks[i].passes then rows - {KeyOf(p.nonce)} else rows
    ensures RowsAfter(s, w, rows, Access(None, a, now)) == rows
  {
    var checks := Checks(s, w, rows, now, p, a);
    var four := checks[0].passes && checks[1].passes && checks[2].passes && checks[3].passes;
    assert four <==> forall i | 0 <= i < 4 :: checks[i].passes;
    assert ReachesNonce(s, w, Some(p), a) <==> four;
  }

  // ---- Histories ----

  datatype Step =
    | Challenge(nonce: Bytes, now: nat, expiryMs: nat, victim: Option<string>)
    | Access(proof: Option<Proof>, answers: Answers, now: nat)
    | Sweep(now: nat)

  /** What one step does to the nonce table. */
  function NonceEvent(s: Settings, w: Wallets, step: Step): Option<N.Event> {
    match step
    case Challenge(nonce, now, expiryMs, victim) => Some(N.Issue(KeyOf(nonce), now, expiryMs, victim))
    case Access(proof, a, now) => if ReachesNonce(s, w, proof, a) then Some(N.Take(KeyOf(proof.value.nonce), now)) else None
    case Sweep(now) => Some(N.Prune(now))
  }

  function NonceEvents(s: Settings, w: Wallets, steps: seq<Step>): seq<N.Event> {
    if steps == [] then []
    else
      var rest := NonceEvents(s, w, steps[1..]);
      match NonceEvent(s, w, steps[0]) case None => rest case Some(e) => [e] + rest
  }

  function RowsAfter(s: Settings, w: Wallets, rows: N.Rows, step: Step): N.Rows {
    match NonceEvent(s, w, step) case None => rows case Some(e) => N.Apply(rows, e)
  }

  /** The step lets its request in. */
  predicate Admits(s: Settings, w: Wallets, rows: N.Rows, step: Step) {
    step.Access? && Outcome(s, w, rows, step.now, step.proof, step.answers).Success?
  }

  /** The step lets in a request whose proof answers `nonce`, whatever else its message says. */
  predicate AdmitsFor(s: Settings, w: Wallets, rows: N.Rows, step: Step, nonce: Bytes) {
    Admits(s, w, rows, step) && step.proof.Some? && step.proof.value.nonce == nonce
  }

  /** How many requests a history lets in. */
  function Admissions(s: Settings, w: Wallets, rows: N.Rows, steps: seq<Step>): nat
    decreases |steps|
  {
    if steps == [] then 0
    else (if Admits(s, w, rows, steps[0]) then 1 else 0)
         + Admissions(s, w, RowsAfter(s, w, rows, steps[0]), steps[1..])
  }

  /** How many of them answer `nonce`. */
  function AdmissionsFor(s: Settings, w: Wallets, rows: N.Rows, steps: seq<Step>, nonce: Bytes): nat
    decreases |steps|
  {
    if steps == [] then 0
    else (if AdmitsFor(s, w, rows, steps[0], nonce) then 1 else 0)
         + AdmissionsFor(s, w, RowsAfter(s, w, rows, steps[0]), steps[1..], nonce)
  }

  function AllChallenges(steps: seq<Step>): nat {
    if steps == [] then 0 else (if steps[0].Challenge? then 1 else 0) + AllChallenges(steps[1..])
  }

  function Challenges(steps: seq<Step>, nonce: Bytes): nat {
    if steps == [] then 0
    else (if steps[0].Challenge? && steps[0].nonce == nonce then 1 else 0) + Challenges(steps[1..], nonce)
  }

  lemma {:induction false} KeysInjective(a: Bytes, b: Bytes)
    requires KeyOf(a) == KeyOf(b)
    ensures a == b
  {
    assert |a| == |KeyOf(a)| == |KeyOf(b)| == |b|;
    forall i | 0 <= i < |a|
      ensures a[i] == b[i]
    {
      assert KeyOf(a)[i] == KeyOf(b)[i];
    }
  }

  /** Every admission is a successful take of the nonce its proof answers. */
  lemma {:induction false} AdmissionTakes(s: Settings, w: Wallets, rows: N.Rows, step: Step)
    requires Admits(s, w, rows, step)
    ensures step.proof.Some?
    ensures NonceEvent(s, w, step) == Some(N.Take(KeyOf(step.proof.value.nonce), step.now))
    ensures N.TakeAnswer(rows, KeyOf(step.proof.value.nonce), step.now)
  {
  }

  lemma {:induction false} EventsSplit(s: Settings, w: Wallets, steps: seq<Step>)
    requires steps != [] && NonceEvent(s, w, steps[0]).Some?
    ensures var (events, e) := (NonceEvents(s, w, steps), NonceEvent(s, w, steps[0]).value);
            events != [] && events[0] == e && events[1..] == NonceEvents(s, w, steps[1..])
  {
    assert ([NonceEvent(s, w, steps[0]).value] + NonceEvents(s, w, steps[1..]))[1..] == NonceEvents(s, w, steps[1..]);
  }

  /** Over every history the requests let in are no more than the successful takes. */
  lemma {:induction false} AdmissionsWithinTakes(s: Settings, w: Wallets, rows: N.Rows, steps: seq<Step>)
    ensures Admissions(s, w, rows, steps) <= N.Takes(rows, NonceEvents(s, w, steps))
    decreases |steps|
  {
    if steps != [] {
      AdmissionsWithinTakes(s, w, RowsAfter(s, w, rows, steps[0]), steps[1..]);
      if NonceEvent(s, w, steps[0]).Some? {
        EventsSplit(s, w, steps);
      }
    }
  }

  /** Those that answer one nonce, whatever messages they signed, are no more than its successful takes. */
  lemma {:induction false} AdmissionsForWithinTakes(s: Settings, w: Wallets, rows: N.Rows, steps: seq<Step>, nonce: Bytes)
    ensures AdmissionsFor(s, w, rows, steps, nonce) <= N.TakesOf(rows, NonceEvents(s, w, steps), KeyOf(nonce))
    decreases |steps|
  {
    if steps != [] {
      AdmissionsForWithinTakes(s, w, RowsAfter(s, w, rows, steps[0]), steps[1..], nonce);
      if NonceEvent(s, w, steps[0]).Some? {
        EventsSplit(s, w, steps);
      }
    }
  }

  lemma {:induction false} ChallengesAreIssues(s: Settings, w: Wallets, steps: seq<Step>, nonce: Bytes)
    ensures N.IssuesOf(NonceEvents(s, w, steps), KeyOf(nonce)) == Challenges(steps, nonce)
    ensures N.Issues(NonceEvents(s, w, steps)) == AllChallenges(steps)
    decreases |steps|
  {
    if steps != [] {
      ChallengesAreIssues(s, w, steps[1..], nonce);
      if NonceEvent(s, w, steps[0]).Some? {
        EventsSplit(s, w, steps);
      }
      if steps[0].Challenge? && KeyOf(steps[0].nonce) == KeyOf(nonce) {
        KeysInjective(steps[0].nonce, nonce);
      }
    }
  }

  /** Over every history the requests let in are no more than the challenges issued. */
  lemma {:induction false} AdmittedWithinChallenges(s: Settings, w: Wallets, steps: seq<Step>)
    ensures Admissions(s, w, map[], steps) <= AllChallenges(steps)
  {
    AdmissionsWithinTakes(s, w, map[], steps);
    N.Conservation(map[], NonceEvents(s, w, steps));
    ChallengesAreIssues(s, w, steps, []);
  }

  /**
   Each time a nonce is issued lets at most one request in, whatever messages, digests and signatures are presented
   with it, by whomever and however often; a nonce never issued lets none in.
   */
  lemma {:induction false} AdmittedOncePerChallenge(s: Settings, w: Wallets, steps: seq<Step>, nonce: Bytes)
    ensures AdmissionsFor(s, w, map[], steps, nonce) <= Challenges(steps, nonce)
  {
    AdmissionsForWithinTakes(s, w, map[], steps, nonce);
    N.TakenAtMostOncePerIssue(map[], NonceEvents(s, w, steps), KeyOf(nonce));
    ChallengesAreIssues(s, w, steps, nonce);
  }

  /** The step lets in a request that signed `message`. */
  predicate AdmitsMessage(s: Settings, w: Wallets, rows: N.Rows, step: Step, message: Bytes) {
    Admits(s, w, rows, step) && step.proof.Some? && Message(ContextOf(s, step.proof.value)) == Success(message)
  }

  /** A signed message answers the one nonce it names. */
  lemma {:induction false} MessageNamesNonce(s: Settings, w: Wallets, rows: N.Rows, step: Step, c: Context, message: Bytes)
    requires Message(c) == Success(message) && AdmitsMessage(s, w, rows, step, message)
    ensures AdmitsFor(s, w, rows, step, c.nonce)
  {
    MessageInjective(ContextOf(s, step.proof.value), c);
  }
}
