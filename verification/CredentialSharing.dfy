/**
 Any number of concurrent callers sharing one cached module credential
 (moduleauthority/authority.go, moduleauthority/client.go), as a step system.

 The client's mutex is part of the state: a caller whose check finds no fresh token keeps it while the
 broker answers, and other callers' hosts, the clock and new calls go on meanwhile. Broker and host
 answer arbitrarily.
 */
module CredentialSharing {
  import opened Prelude
  import opened CredentialCache

  type Id = nat

  /** A token given to a call, the expiry it came with, and the clock reading that judged it. */
  datatype Handed = Handed(token: string, expiresAt: Time, readAt: Time, mintedBefore: nat, own: bool)

  datatype Phase =
    | Waiting
    | Minting
    | Calling
    | Refused
    | Finished

  /**
   One call: the tokens it was handed in turn, the host's answers to it, and how many tokens had been minted
   when its first was refused.
   */
  datatype Call = Call(
    phase: Phase,
    authority: bool,
    since: Time,
    handed: seq<Handed>,
    answers: seq<Code>,
    refusedAt: nat)

  /** Why a token had to be minted. */
  datatype Cause = AtStart | AfterDrop(token: string) | NearExpiry

  /** `checkedAt` is the clock reading of the check that found no fresh token. */
  datatype MintRecord = MintRecord(issued: Issued, cause: Cause, checkedAt: Time)

  datatype State = State(
    clock: Time,
    cache: Cache,
    lock: Option<Id>,
    checkedAt: Time,
    calls: map<Id, Call>,
    vacancy: Cause,
    minted: seq<MintRecord>,
    dropped: seq<string>,
    refused: set<string>,
    nearExpiry: nat)

  datatype Step =
    | Tick(elapsed: nat)
    | Begin(id: Id, authority: bool)
    | Enter(id: Id)
    | BrokerAnswers(id: Id, reply: BrokerReply)
    | HostAnswers(id: Id, code: Code)

  function Initial(clock: Time): State {
    State(clock, EMPTY_CACHE, None, clock, map[], AtStart, [], [], {}, 0)
  }

  predicate Enabled(s: State, step: Step) {
    match step
    case Tick(_) => true
    case Begin(id, _) => id in s.calls ==> s.calls[id].phase == Finished
    case Enter(id) => id in s.calls && s.lock == None && (s.calls[id].phase == Waiting || s.calls[id].phase == Refused)
    case BrokerAnswers(id, _) => id in s.calls && s.lock == Some(id)
    case HostAnswers(id, _) =>
      id in s.calls && s.calls[id].phase == Calling && s.calls[id].authority && s.calls[id].handed != []
  }

  /** The call is handed a token; one that only wants the credential is done with it. */
  function HandOver(call: Call, handed: Handed): Call {
    call.(phase := if call.authority then Calling else Finished, handed := call.handed + [handed])
  }

  /** A caller whose first token was refused drops it from the cache, if it is still there. */
  function DropRefused(s: State, call: Call): State {
    if call.phase == Refused && call.handed != [] then
      var rejected := call.handed[0].token;
      if s.cache.held == rejected then
        s.(cache := Forget(s.cache, rejected), vacancy := AfterDrop(rejected), dropped := s.dropped + [rejected])
      else s
    else s
  }

  /** Takes the mutex, drops a refused token, and either leaves with a fresh cached token or stays to mint. */
  function EnterTurn(s: State, skew: Time, id: Id): State
    requires Enabled(s, Enter(id))
  {
    var call := s.calls[id];
    var d := DropRefused(s, call);
    if Fresh(d.cache, s.clock, skew) then
      d.(calls := s.calls[id := HandOver(call, Handed(d.cache.held, d.cache.expiresAt, s.clock, |s.minted|, false))])
    else
      d.(lock := Some(id), checkedAt := s.clock, calls := s.calls[id := call.(phase := Minting)],
         nearExpiry := if d.cache.held != "" then s.nearExpiry + 1 else s.nearExpiry)
  }

  /** The mint's outcome, still under the mutex, which is then released. */
  function MintTurn(s: State, r: Readers, id: Id, reply: BrokerReply): State
    requires Enabled(s, BrokerAnswers(id, reply))
  {
    var call := s.calls[id];
    match Mint(r, reply, s.clock)
    case Err(_) => s.(lock := None, calls := s.calls[id := call.(phase := Finished)])
    case Ok(issued) =>
      var cause := if s.cache.held == "" then s.vacancy else NearExpiry;
      s.(cache := Cache(issued.token, issued.expiresAt),
         lock := None,
         calls := s.calls[id := HandOver(call, Handed(issued.token, issued.expiresAt, s.clock, |s.minted|, true))],
         minted := s.minted + [MintRecord(issued, cause, s.checkedAt)])
  }

  function HostTurn(s: State, id: Id, code: Code): State
    requires Enabled(s, HostAnswers(id, code))
  {
    var call := s.calls[id].(answers := s.calls[id].answers + [code]);
    if code == Unauthenticated && |call.handed| == 1 then
      s.(calls := s.calls[id := call.(phase := Refused, refusedAt := |s.minted|)],
         refused := s.refused + {call.handed[0].token})
    else
      s.(calls := s.calls[id := call.(phase := Finished)])
  }

  function Apply(r: Readers, skew: Time, s: State, step: Step): State
    requires Enabled(s, step)
  {
    match step
    case Tick(elapsed) => s.(clock := s.clock + elapsed)
    case Begin(id, authority) => s.(calls := s.calls[id := Call(Waiting, authority, s.clock, [], [], 0)])
    case Enter(id) => EnterTurn(s, skew, id)
    case BrokerAnswers(id, reply) => MintTurn(s, r, id, reply)
    case HostAnswers(id, code) => HostTurn(s, id, code)
  }

  /** The state an interleaving of steps leads to; None if some step could not be taken. */
  function Run(r: Readers, skew: Time, start: Time, steps: seq<Step>): Option<State> {
    if steps == [] then Some(Initial(start))
    else match Run(r, skew, start, steps[..|steps| - 1])
      case None => None
      case Some(s) =>
        if Enabled(s, steps[|steps| - 1]) then Some(Apply(r, skew, s, steps[|steps| - 1])) else None
  }

  // ---- What every step keeps ----

  predicate MintedOnce(s: State) {
    forall i, j | 0 <= i < j < |s.minted| :: s.minted[i].issued.token != s.minted[j].issued.token
  }

  ghost predicate Minted(s: State, token: string, expiresAt: Time) {
    exists i :: 0 <= i < |s.minted| && s.minted[i].issued == Issued(token, expiresAt)
  }

  /** The token was good when it was judged, which was during this call, and came with the expiry its mint reported. */
  ghost predicate GoodHandout(s: State, call: Call, h: Handed) {
    && h.token != "" && call.since <= h.readAt <= s.clock && h.readAt < h.expiresAt
    && Minted(s, h.token, h.expiresAt)
    && h.mintedBefore <= |s.minted|
    && (h.own ==> h.mintedBefore < |s.minted| && s.minted[h.mintedBefore].issued == Issued(h.token, h.expiresAt))
  }

  ghost predicate GoodCall(s: State, id: Id, call: Call) {
    && (s.lock == Some(id) <==> call.phase == Minting)
    && |call.handed| <= 2 && call.since <= s.clock
    && (forall k | 0 <= k < |call.handed| :: GoodHandout(s, call, call.handed[k]))
    && (call.phase == Waiting ==> call.handed == [])
    && (call.phase == Minting || call.phase == Waiting ==> |call.handed| <= 1)
    && (call.phase == Calling ==> call.handed != [])
    && (call.phase == Refused ==> |call.handed| == 1)
    && (call.handed != [] && (call.phase == Refused || call.phase == Minting || |call.handed| == 2) ==>
          && call.authority && call.handed[0].token in s.refused && call.refusedAt <= |s.minted|
          && |call.answers| >= 1 && call.answers[0] == Unauthenticated)
    && (call.phase == Calling ==> |call.answers| == |call.handed| - 1)
    && |call.answers| <= |call.handed|
    && (call.phase == Waiting || call.phase == Minting || call.phase == Refused ==> |call.answers| == |call.handed|)
    && (|call.handed| == 2 ==>
          if call.handed[1].own then call.refusedAt <= call.handed[1].mintedBefore
          else call.handed[1].token != call.handed[0].token)
  }

  /** The cached token and expiry come from the latest successful mint, or are both cleared. */
  predicate CacheIsLatest(s: State) {
    s.cache == EMPTY_CACHE ||
    (s.minted != [] && s.minted[|s.minted| - 1].issued == Issued(s.cache.held, s.cache.expiresAt) && s.cache.held != "")
  }

  /** A mint is owed only to an empty cache or to a check near expiry whose broker answer is awaited. */
  function Owed(s: State): nat {
    if s.cache.held == "" || s.lock.Some? then 1 else 0
  }

  ghost predicate AllGood(s: State) {
    forall id | id in s.calls :: GoodCall(s, id, s.calls[id])
  }

  ghost predicate Inv(s: State) {
    && CacheIsLatest(s)
    && (s.lock.Some? ==> s.lock.value in s.calls)
    && AllGood(s)
    && (forall k | 0 <= k < |s.dropped| :: s.dropped[k] in s.refused)
    && |s.minted| + Owed(s) <= 1 + |s.dropped| + s.nearExpiry
  }

  lemma InitialInv(start: Time)
    ensures Inv(Initial(start))
  {
  }

  /** What a call knows survives steps that only move the clock on and mint more. */
  lemma HandoutKept(s: State, t: State, call: Call, h: Handed)
    requires GoodHandout(s, call, h) && s.clock <= t.clock && s.minted <= t.minted
    ensures GoodHandout(t, call, h)
  {
  }

  lemma CallKept(s: State, t: State, id: Id)
    requires id in s.calls && GoodCall(s, id, s.calls[id])
    requires s.clock <= t.clock && s.minted <= t.minted && s.refused <= t.refused
    requires s.lock == Some(id) <==> t.lock == Some(id)
    ensures GoodCall(t, id, s.calls[id])
  {
  }

  /** Only the call that moved needs looking at. */
  lemma OthersKept(s: State, t: State, moved: Id)
    requires Inv(s) && moved in t.calls && t.calls.Keys == s.calls.Keys + {moved}
    requires forall id | id in s.calls && id != moved :: t.calls[id] == s.calls[id]
    requires s.clock <= t.clock && s.minted <= t.minted && s.refused <= t.refused
    requires forall id | id != moved :: s.lock == Some(id) <==> t.lock == Some(id)
    ensures forall id | id in t.calls && id != moved :: GoodCall(t, id, t.calls[id])
  {
  }

  lemma EnterKeepsCall(s: State, skew: nat, id: Id)
    requires Inv(s) && Enabled(s, Enter(id))
    ensures GoodCall(EnterTurn(s, skew, id), id, EnterTurn(s, skew, id).calls[id])
  {
  }

  lemma EnterKeepsAll(s: State, skew: nat, id: Id)
    requires Inv(s) && Enabled(s, Enter(id))
    ensures AllGood(EnterTurn(s, skew, id))
  {
    EnterKeepsCall(s, skew, id);
    OthersKept(s, EnterTurn(s, skew, id), id);
    hide GoodCall;
  }

  lemma RefusedWasHanded(s: State, id: Id)
    requires Inv(s) && id in s.calls && s.calls[id].phase == Refused
    ensures |s.calls[id].handed| == 1 && s.calls[id].handed[0].token in s.refused && s.calls[id].handed[0].token != ""
  {
    assert GoodCall(s, id, s.calls[id]);
  }

  lemma EnterKeepsInv(s: State, skew: nat, id: Id)
    requires Inv(s) && Enabled(s, Enter(id))
    ensures Inv(EnterTurn(s, skew, id))
  {
    hide AllGood;
    EnterKeepsAll(s, skew, id);
    if s.calls[id].phase == Refused {
      RefusedWasHanded(s, id);
    }
  }

  lemma MintKeepsInv(s: State, r: Readers, id: Id, reply: BrokerReply)
    requires Inv(s) && Enabled(s, BrokerAnswers(id, reply)) && r.Valid()
    ensures Inv(MintTurn(s, r, id, reply))
  {
    MintIsGood(r, reply, s.clock);
    var call, t := s.calls[id], MintTurn(s, r, id, reply);
    OthersKept(s, t, id);
    forall k | 0 <= k < |call.handed|
      ensures GoodHandout(t, t.calls[id], call.handed[k])
    {
      HandoutKept(s, t, call, call.handed[k]);
    }
    var minted := Mint(r, reply, s.clock);
    if minted.Ok? {
      assert t.minted[|s.minted|].issued == minted.value;
      assert GoodHandout(t, t.calls[id], Handed(minted.value.token, minted.value.expiresAt, s.clock, |s.minted|, true));
    }
    assert GoodCall(t, id, t.calls[id]);
  }

  lemma HostKeepsCall(s: State, id: Id, code: Code)
    requires Inv(s) && Enabled(s, HostAnswers(id, code))
    ensures var t := HostTurn(s, id, code); GoodCall(t, id, t.calls[id])
  {
  }

  lemma HostKeepsInv(s: State, id: Id, code: Code)
    requires Inv(s) && Enabled(s, HostAnswers(id, code))
    ensures Inv(HostTurn(s, id, code))
  {
    hide GoodHandout;
    HostKeepsCall(s, id, code);
    OthersKept(s, HostTurn(s, id, code), id);
    hide GoodCall;
  }

  lemma StepKeepsInv(r: Readers, skew: nat, s: State, step: Step)
    requires Inv(s) && Enabled(s, step) && r.Valid()
    ensures Inv(Apply(r, skew, s, step))
  {
    match step
    case Tick(_) =>
      forall id | id in s.calls {
        CallKept(s, Apply(r, skew, s, step), id);
      }
    case Begin(id, _) =>
      OthersKept(s, Apply(r, skew, s, step), id);
    case Enter(id) => EnterKeepsInv(s, skew, id);
    case BrokerAnswers(id, reply) => MintKeepsInv(s, r, id, reply);
    case HostAnswers(id, code) => HostKeepsInv(s, id, code);
  }

  lemma {:induction false} RunInv(r: Readers, skew: nat, start: Time, steps: seq<Step>)
    requires r.Valid() && Run(r, skew, start, steps).Some?
    ensures Inv(Run(r, skew, start, steps).value)
  {
    if steps == [] {
      InitialInv(start);
    } else {
      RunInv(r, skew, start, steps[..|steps| - 1]);
      StepKeepsInv(r, skew, Run(r, skew, start, steps[..|steps| - 1]).value, steps[|steps| - 1]);
    }
  }

  // ---- Theorems over every run ----

  /**
   Every token a call was handed was minted, came with the expiry its mint reported, and was still good
   at a clock reading taken during that call.
   */
  lemma HandoutsAreGood(r: Readers, skew: nat, start: Time, steps: seq<Step>, id: Id, k: nat)
    requires r.Valid() && Run(r, skew, start, steps).Some?
    requires var s := Run(r, skew, start, steps).value; id in s.calls && k < |s.calls[id].handed|
    ensures var s := Run(r, skew, start, steps).value; var h := s.calls[id].handed[k];
      && h.token != "" && s.calls[id].since <= h.readAt <= s.clock && h.readAt < h.expiresAt
      && exists i :: 0 <= i < |s.minted| && s.minted[i].issued == Issued(h.token, h.expiresAt)
  {
    RunInv(r, skew, start, steps);
  }

  /**
   A call sends at most two requests, the second only after the host refused the token of the first as
   unauthenticated; the second token differs from the refused one or was minted by this call after the refusal.
   */
  lemma RetriesOnceWithAnotherToken(r: Readers, skew: nat, start: Time, steps: seq<Step>, id: Id)
    requires r.Valid() && Run(r, skew, start, steps).Some?
    requires id in Run(r, skew, start, steps).value.calls
    ensures var s := Run(r, skew, start, steps).value; var call := s.calls[id];
      && |call.answers| <= |call.handed| <= 2
      && (|call.handed| == 2 ==>
            && call.answers != [] && call.answers[0] == Unauthenticated && call.handed[0].token in s.refused
            && (call.handed[1].token == call.handed[0].token ==>
                  && call.handed[1].own && call.refusedAt <= call.handed[1].mintedBefore < |s.minted|
                  && s.minted[call.handed[1].mintedBefore].issued.token == call.handed[1].token))
  {
    RunInv(r, skew, start, steps);
  }

  /** What is cached is the latest mint's token with its own expiry, or nothing; only a refused token is dropped. */
  lemma CacheHoldsLatestMint(r: Readers, skew: nat, start: Time, steps: seq<Step>)
    requires r.Valid() && Run(r, skew, start, steps).Some?
    ensures var s := Run(r, skew, start, steps).value;
      && (s.cache == EMPTY_CACHE ||
          (s.minted != [] && s.minted[|s.minted| - 1].issued == Issued(s.cache.held, s.cache.expiresAt)))
      && forall k | 0 <= k < |s.dropped| :: s.dropped[k] in s.refused
  {
    RunInv(r, skew, start, steps);
  }

  /** Successful mints are paid for by the first, by drops, and by checks that found the token near expiry. */
  lemma MintsAreBounded(r: Readers, skew: nat, start: Time, steps: seq<Step>)
    requires r.Valid() && Run(r, skew, start, steps).Some?
    ensures var s := Run(r, skew, start, steps).value; |s.minted| <= 1 + |s.dropped| + s.nearExpiry
  {
    RunInv(r, skew, start, steps);
  }

  // ---- When a token is minted again ----

  /** The latest mint was refused and dropped, or the check found it within the skew of its expiry. */
  predicate Reason(skew: Time, dropped: seq<string>, before: MintRecord, next: MintRecord) {
    if next.cause == NearExpiry then before.issued.expiresAt <= next.checkedAt + skew
    else next.cause == AfterDrop(before.issued.token) && before.issued.token in dropped
  }

  /** Why the cache is empty, or may be overwritten by the mint under way. */
  predicate VacancyExplained(skew: Time, s: State) {
    if s.cache.held == "" then
      if s.minted == [] then s.vacancy == AtStart
      else
        var last := s.minted[|s.minted| - 1].issued.token;
        s.vacancy == AfterDrop(last) && last in s.dropped
    else s.lock.Some? ==> s.cache.expiresAt <= s.checkedAt + skew
  }

  predicate MintsExplained(skew: Time, s: State) {
    && VacancyExplained(skew, s) && s.checkedAt <= s.clock
    && (s.minted != [] ==> s.minted[0].cause == AtStart)
    && (forall i | 0 <= i < |s.minted| :: s.minted[i].checkedAt <= s.clock)
    && (forall i | 0 < i < |s.minted| :: Reason(skew, s.dropped, s.minted[i - 1], s.minted[i]))
  }

  lemma EnterKeepsExplained(s: State, skew: nat, id: Id)
    requires Inv(s) && MintsExplained(skew, s) && Enabled(s, Enter(id))
    ensures MintsExplained(skew, EnterTurn(s, skew, id))
  {
    hide AllGood, GoodCall;
    var t := EnterTurn(s, skew, id);
    if s.calls[id].phase == Refused {
      RefusedWasHanded(s, id);
    }
    forall i | 0 < i < |t.minted|
      ensures Reason(skew, t.dropped, t.minted[i - 1], t.minted[i])
    {
      assert Reason(skew, s.dropped, s.minted[i - 1], s.minted[i]);
    }
  }

  lemma MintKeepsExplained(s: State, skew: nat, r: Readers, id: Id, reply: BrokerReply)
    requires Inv(s) && MintsExplained(skew, s) && Enabled(s, BrokerAnswers(id, reply)) && r.Valid()
    ensures MintsExplained(skew, MintTurn(s, r, id, reply))
  {
    hide AllGood, GoodCall;
    MintIsGood(r, reply, s.clock);
  }

  lemma {:induction false} RunExplained(r: Readers, skew: nat, start: Time, steps: seq<Step>)
    requires r.Valid() && Run(r, skew, start, steps).Some?
    ensures MintsExplained(skew, Run(r, skew, start, steps).value)
  {
    if steps != [] {
      var before, step := Run(r, skew, start, steps[..|steps| - 1]).value, steps[|steps| - 1];
      RunInv(r, skew, start, steps[..|steps| - 1]);
      RunExplained(r, skew, start, steps[..|steps| - 1]);
      match step
      case Enter(id) => EnterKeepsExplained(before, skew, id);
      case BrokerAnswers(id, reply) => MintKeepsExplained(before, skew, r, id, reply);
      case _ =>
    }
  }

  /**
   Callers share one refresh: after the first, a token is minted only when the latest one was refused and
   dropped, or when the check came within the skew of its expiry.
   */
  lemma RefreshesAreShared(r: Readers, skew: nat, start: Time, steps: seq<Step>, i: nat)
    requires r.Valid() && Run(r, skew, start, steps).Some?
    requires 0 < i < |Run(r, skew, start, steps).value.minted|
    ensures var s := Run(r, skew, start, steps).value;
      && s.minted[i].checkedAt <= s.clock
      && if s.minted[i].cause == NearExpiry then s.minted[i - 1].issued.expiresAt <= s.minted[i].checkedAt + skew
         else s.minted[i].cause == AfterDrop(s.minted[i - 1].issued.token) && s.minted[i - 1].issued.token in s.dropped
  {
    RunExplained(r, skew, start, steps);
    var s := Run(r, skew, start, steps).value;
    assert Reason(skew, s.dropped, s.minted[i - 1], s.minted[i]);
  }

  /** At one instant and with nothing dropped, a second token is minted beside one that expires at `expiry`. */
  predicate MintsBeside(s: State, expiry: Time) {
    s.clock == 0 && s.dropped == [] && |s.minted| >= 2 && s.minted[0].issued.expiresAt == expiry
  }

  /** Concurrent callers mint a token each, with nothing dropped, exactly when the token does not outlive the skew. */
  lemma {:induction false} ConcurrentMintsIff(r: Readers, skew: nat, expiry: Time)
    requires r.Valid() && r.sealed("t") && r.parseTime("soon") == Some(expiry) && expiry > 0
    ensures (exists steps :: Run(r, skew, 0, steps).Some? && MintsBeside(Run(r, skew, 0, steps).value, expiry))
      <==> expiry <= skew
  {
    hide Run;
    if steps :| Run(r, skew, 0, steps).Some? && MintsBeside(Run(r, skew, 0, steps).value, expiry) {
      RefreshesAreShared(r, skew, 0, steps, 1);
    }
    if expiry <= skew {
      var reply := Answered("t", "soon");
      assert Mint(r, reply, 0) == Ok(Issued("t", expiry));
      StartRun(r, skew);
      var steps, s := Follow(r, skew, [], Initial(0), Begin(0, true));
      steps, s := Follow(r, skew, steps, s, Begin(1, true));
      steps, s := Follow(r, skew, steps, s, Enter(0));
      steps, s := Follow(r, skew, steps, s, BrokerAnswers(0, reply));
      steps, s := Follow(r, skew, steps, s, Enter(1));
      steps, s := Follow(r, skew, steps, s, BrokerAnswers(1, reply));
      assert MintsBeside(s, expiry);
    }
  }

  /** How often the token was issued, how often it was dropped, and how often a drop of it was paid for by a mint. */
  function Issues(minted: seq<MintRecord>, token: string): nat {
    if minted == [] then 0
    else
      Issues(minted[..|minted| - 1], token) + if minted[|minted| - 1].issued.token == token then 1 else 0
  }

  function Refreshes(minted: seq<MintRecord>, token: string): nat {
    if minted == [] then 0
    else
      Refreshes(minted[..|minted| - 1], token) + if minted[|minted| - 1].cause == AfterDrop(token) then 1 else 0
  }

  function Drops(dropped: seq<string>, token: string): nat {
    if dropped == [] then 0
    else Drops(dropped[..|dropped| - 1], token) + if dropped[|dropped| - 1] == token then 1 else 0
  }

  predicate Counted(s: State, token: string) {
    && Refreshes(s.minted, token) + (if s.cache.held == "" && s.vacancy == AfterDrop(token) then 1 else 0)
         <= Drops(s.dropped, token)
    && Drops(s.dropped, token) + (if s.cache.held == token then 1 else 0) <= Issues(s.minted, token)
  }

  lemma EnterKeepsCounted(s: State, skew: nat, id: Id, token: string)
    requires token != "" && Inv(s) && Counted(s, token) && Enabled(s, Enter(id))
    ensures Counted(EnterTurn(s, skew, id), token)
  {
    hide AllGood, GoodCall, CacheIsLatest;
    if s.calls[id].phase == Refused {
      RefusedWasHanded(s, id);
      var rejected := s.calls[id].handed[0].token;
      assert (s.dropped + [rejected])[..|s.dropped|] == s.dropped;
    }
  }

  lemma MintKeepsCounted(s: State, r: Readers, id: Id, reply: BrokerReply, token: string)
    requires token != "" && Counted(s, token) && Enabled(s, BrokerAnswers(id, reply)) && r.Valid()
    ensures Counted(MintTurn(s, r, id, reply), token)
  {
    MintIsGood(r, reply, s.clock);
    var t := MintTurn(s, r, id, reply);
    if t.minted != s.minted {
      assert t.minted[..|t.minted| - 1] == s.minted;
    }
  }

  lemma {:induction false} RunCounted(r: Readers, skew: nat, start: Time, steps: seq<Step>, token: string)
    requires token != "" && r.Valid() && Run(r, skew, start, steps).Some?
    ensures Counted(Run(r, skew, start, steps).value, token)
  {
    if steps != [] {
      var before, step := Run(r, skew, start, steps[..|steps| - 1]).value, steps[|steps| - 1];
      RunInv(r, skew, start, steps[..|steps| - 1]);
      RunCounted(r, skew, start, steps[..|steps| - 1], token);
      match step
      case Enter(id) => EnterKeepsCounted(before, skew, id, token);
      case BrokerAnswers(id, reply) => MintKeepsCounted(before, r, id, reply, token);
      case _ =>
    }
  }

  /** Refreshes of a token number at most the mints that issued it, and one fewer while it is cached. */
  lemma RefreshesPerIssue(r: Readers, skew: nat, start: Time, steps: seq<Step>, token: string)
    requires token != "" && r.Valid() && Run(r, skew, start, steps).Some?
    ensures var s := Run(r, skew, start, steps).value;
      Refreshes(s.minted, token) + (if s.cache.held == token then 1 else 0) <= Issues(s.minted, token)
  {
    RunCounted(r, skew, start, steps, token);
  }

  // ---- When the broker never issues a token twice ----

  predicate NoRepeats(ts: seq<string>) {
    forall i, j | 0 <= i < j < |ts| :: ts[i] != ts[j]
  }

  predicate MintedFor(minted: seq<MintRecord>, cause: Cause) {
    exists i :: 0 <= i < |minted| && minted[i].cause == cause
  }

  /** A dropped token is gone for good, and each reason to mint other than expiry is used at most once. */
  ghost predicate Distinct(s: State) {
    && NoRepeats(s.dropped)
    && (forall k | 0 <= k < |s.dropped| ::
          && s.dropped[k] != "" && s.dropped[k] != s.cache.held
          && exists i :: 0 <= i < |s.minted| && s.minted[i].issued.token == s.dropped[k])
    && (forall i | 0 <= i < |s.minted| :: s.minted[i].cause.AfterDrop? ==> s.minted[i].cause.token in s.dropped)
    && (forall i, j | 0 <= i < j < |s.minted| ::
          s.minted[i].cause == s.minted[j].cause ==> s.minted[i].cause == NearExpiry)
    && s.vacancy != NearExpiry
    && (s.vacancy.AfterDrop? ==> s.vacancy.token in s.dropped)
    && (s.cache.held == "" ==> !MintedFor(s.minted, s.vacancy))
  }

  lemma EnterKeepsDistinct(s: State, skew: nat, id: Id)
    requires Inv(s) && Distinct(s) && MintedOnce(s) && Enabled(s, Enter(id))
    ensures Distinct(EnterTurn(s, skew, id))
  {
    hide AllGood, GoodCall;
    var call, t := s.calls[id], EnterTurn(s, skew, id);
    if t.dropped != s.dropped {
      RefusedWasHanded(s, id);
      var rejected := call.handed[0].token;
      assert s.cache.held == rejected && rejected != "";
      assert s.minted[|s.minted| - 1].issued.token == rejected;
      assert rejected !in s.dropped;
      assert t.dropped == s.dropped + [rejected];
    }
  }

  lemma MintKeepsDistinct(s: State, r: Readers, id: Id, reply: BrokerReply)
    requires Inv(s) && Distinct(s) && Enabled(s, BrokerAnswers(id, reply)) && r.Valid()
    requires MintedOnce(MintTurn(s, r, id, reply))
    ensures Distinct(MintTurn(s, r, id, reply))
  {
    MintIsGood(r, reply, s.clock);
    var t := MintTurn(s, r, id, reply);
    if Mint(r, reply, s.clock).Ok? {
      var m := |s.minted|;
      forall k | 0 <= k < |t.dropped|
        ensures t.dropped[k] != "" && t.dropped[k] != t.cache.held
        ensures exists i :: 0 <= i < |t.minted| && t.minted[i].issued.token == t.dropped[k]
      {
        var i :| 0 <= i < m && s.minted[i].issued.token == s.dropped[k];
        assert t.minted[i].issued.token != t.minted[m].issued.token;
      }
    } else {
      assert t.minted == s.minted && t.cache == s.cache;
    }
  }

  lemma {:induction false} RunDistinct(r: Readers, skew: nat, start: Time, steps: seq<Step>)
    requires r.Valid() && Run(r, skew, start, steps).Some? && MintedOnce(Run(r, skew, start, steps).value)
    ensures Distinct(Run(r, skew, start, steps).value)
  {
    if steps != [] {
      var before, step := Run(r, skew, start, steps[..|steps| - 1]).value, steps[|steps| - 1];
      RunInv(r, skew, start, steps[..|steps| - 1]);
      MintedGrows(r, skew, before, step);
      RunDistinct(r, skew, start, steps[..|steps| - 1]);
      match step
      case Enter(id) => EnterKeepsDistinct(before, skew, id);
      case BrokerAnswers(id, reply) => MintKeepsDistinct(before, r, id, reply);
      case _ =>
    }
  }

  lemma MintedGrows(r: Readers, skew: Time, s: State, step: Step)
    requires Enabled(s, step) && MintedOnce(Apply(r, skew, s, step))
    ensures MintedOnce(s)
  {
    var t := Apply(r, skew, s, step);
    assert s.minted <= t.minted;
    forall i, j | 0 <= i < j < |s.minted|
      ensures s.minted[i].issued.token != s.minted[j].issued.token
    {
      assert t.minted[i] == s.minted[i] && t.minted[j] == s.minted[j];
    }
  }

  function Tokens(ts: seq<string>): set<string> {
    set t | t in ts
  }

  lemma {:induction false} NoRepeatsCount(ts: seq<string>)
    requires NoRepeats(ts)
    ensures |Tokens(ts)| == |ts|
  {
    if ts != [] {
      var front, last := ts[..|ts| - 1], ts[|ts| - 1];
      NoRepeatsCount(front);
      assert Tokens(ts) == Tokens(front) + {last} && last !in front;
    }
  }

  /**
   When no token is issued twice: successful mints number at most one more than the distinct tokens that
   were refused and dropped plus the checks that found the token near expiry.
   */
  lemma MintsPerRefusedToken(r: Readers, skew: nat, start: Time, steps: seq<Step>)
    requires r.Valid() && Run(r, skew, start, steps).Some? && MintedOnce(Run(r, skew, start, steps).value)
    ensures var s := Run(r, skew, start, steps).value;
      && |s.minted| <= 1 + |Tokens(s.dropped)| + s.nearExpiry
      && Tokens(s.dropped) <= s.refused
  {
    RunInv(r, skew, start, steps);
    RunDistinct(r, skew, start, steps);
    NoRepeatsCount(Run(r, skew, start, steps).value.dropped);
  }

  /** Any number of calls refused with one token cause at most one refresh of it. */
  lemma OneRefreshPerToken(r: Readers, skew: nat, start: Time, steps: seq<Step>, token: string, i: nat, j: nat)
    requires r.Valid() && Run(r, skew, start, steps).Some? && MintedOnce(Run(r, skew, start, steps).value)
    requires var s := Run(r, skew, start, steps).value;
      && i < |s.minted| && j < |s.minted|
      && s.minted[i].cause == AfterDrop(token) && s.minted[j].cause == AfterDrop(token)
    ensures i == j
  {
    RunDistinct(r, skew, start, steps);
  }

  lemma Extend(r: Readers, skew: Time, start: Time, steps: seq<Step>, step: Step)
    requires Run(r, skew, start, steps).Some? && Enabled(Run(r, skew, start, steps).value, step)
    ensures Run(r, skew, start, steps + [step]) == Some(Apply(r, skew, Run(r, skew, start, steps).value, step))
  {
    assert (steps + [step])[..|steps + [step]| - 1] == steps;
  }

  /** How a call that enters now relates to one undivided turn under the mutex. */
  lemma TurnIsTake(s: State, r: Readers, skew: Time, id: Id, elapsed: nat, reply: BrokerReply)
    requires Enabled(s, Enter(id))
    ensures var t := EnterTurn(s, skew, id);
      var (c, token) := Take(r, skew, DropRefused(s, s.calls[id]).cache, Turn(s.clock, reply, s.clock + elapsed));
      if t.lock.None? then
        t.cache == c && token == Ok(t.calls[id].handed[|t.calls[id].handed| - 1].token)
      else
        var u := MintTurn(t.(clock := t.clock + elapsed), r, id, reply);
        && u.cache == c && u.lock == None
        && (token.Ok? ==> token.value == u.calls[id].handed[|u.calls[id].handed| - 1].token)
        && (token.Err? ==> u.calls[id].phase == Finished && u.minted == s.minted)
  {
  }

  lemma Follow(r: Readers, skew: Time, steps: seq<Step>, s: State, step: Step) returns (next: seq<Step>, t: State)
    requires Run(r, skew, 0, steps) == Some(s) && Enabled(s, step)
    ensures Run(r, skew, 0, next) == Some(t) && t == Apply(r, skew, s, step)
  {
    Extend(r, skew, 0, steps, step);
    next, t := steps + [step], Apply(r, skew, s, step);
  }

  /** One call is refused with its first token, and the broker issues the same one again. */
  lemma ReissuedRun(r: Readers) returns (steps: seq<Step>, s: State)
    requires r.sealed("t") && r.parseTime("soon") == Some(100)
    ensures Run(r, 0, 0, steps) == Some(s) && s.clock == 0 && s.lock == None && s.calls.Keys == {0}
    ensures s.cache == Cache("t", 100)
    ensures s.minted ==
      [MintRecord(Issued("t", 100), AtStart, 0), MintRecord(Issued("t", 100), AfterDrop("t"), 0)]
  {
    hide Run;
    var reply := Answered("t", "soon");
    assert Mint(r, reply, 0) == Ok(Issued("t", 100));
    StartRun(r, 0);
    steps, s := Follow(r, 0, [], Initial(0), Begin(0, true));
    steps, s := Follow(r, 0, steps, s, Enter(0));
    steps, s := Follow(r, 0, steps, s, BrokerAnswers(0, reply));
    assert s.minted == [MintRecord(Issued("t", 100), AtStart, 0)] && s.cache == Cache("t", 100);
    steps, s := Follow(r, 0, steps, s, HostAnswers(0, Unauthenticated));
    steps, s := Follow(r, 0, steps, s, Enter(0));
    steps, s := Follow(r, 0, steps, s, BrokerAnswers(0, reply));
  }

  lemma StartRun(r: Readers, skew: Time)
    ensures Run(r, skew, 0, []) == Some(Initial(0))
  {
  }

  /** A broker that issues a token again breaks the bound: refused with one token, two calls refresh it twice. */
  lemma {:induction false} ReissuedTokenRefreshesTwice(r: Readers)
    requires r.sealed("t") && r.parseTime("soon") == Some(100)
    ensures exists steps ::
      && Run(r, 0, 0, steps).Some?
      && |Run(r, 0, 0, steps).value.minted| == 3
      && Run(r, 0, 0, steps).value.minted[1].cause == AfterDrop("t")
      && Run(r, 0, 0, steps).value.minted[2].cause == AfterDrop("t")
  {
    hide Run;
    var reply := Answered("t", "soon");
    assert Mint(r, reply, 0) == Ok(Issued("t", 100));
    var steps, s := ReissuedRun(r);
    steps, s := Follow(r, 0, steps, s, Begin(1, true));
    steps, s := Follow(r, 0, steps, s, Enter(1));
    steps, s := Follow(r, 0, steps, s, HostAnswers(1, Unauthenticated));
    steps, s := Follow(r, 0, steps, s, Enter(1));
    steps, s := Follow(r, 0, steps, s, BrokerAnswers(1, reply));
  }
}
