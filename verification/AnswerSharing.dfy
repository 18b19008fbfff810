/**
 Any number of concurrent questions over one answer cache, as a step system: loading and storing are
 separate critical sections, and each question's RPC runs between them without the mutex.
 */
module AnswerSharing {
  import opened Prelude
  import opened AuthorityAnswers
  import opened AnswerCache

  type Id = nat

  /** An answer the host decided on for one ask's RPC at `answeredAt`, and stored at `at`. */
  datatype Stored = Stored(asker: Id, question: Question, answer: Answer, answeredAt: Time, at: Time)

  /** `seen` is the number of stores made before an answer was read from the cache. */
  datatype Progress =
    | Calling
    | Answered(answer: Answer, at: Time)
    | Failed
    | Own(answer: Answer)
    | FromCache(answer: Answer, readAt: Time, seen: nat)

  datatype Asking = Asking(question: Question, progress: Progress)

  datatype State = State(clock: Time, cached: map<string, Entry>, asks: map<Id, Asking>, log: seq<Stored>)

  datatype Step =
    | Tick(elapsed: nat)
    | Load(id: Id, question: Question)
    | HostReplies(id: Id, reply: Reply)
    | Store(id: Id)

  function Initial(clock: Time): State {
    State(clock, map[], map[], [])
  }

  predicate Enabled(s: State, step: Step) {
    match step
    case Tick(_) => true
    case Load(id, question) => id !in s.asks && Askable(question)
    case HostReplies(id, _) => id in s.asks && s.asks[id].progress == Calling
    case Store(id) => id in s.asks && s.asks[id].progress.Answered?
  }

  function LoadStep(settings: Settings, s: State, id: Id, question: Question): State {
    var (cached, hit) := LoadTurn(settings, s.cached, Key(question), s.clock);
    var progress := if hit.Some? then FromCache(hit.value, s.clock, |s.log|) else Calling;
    s.(cached := cached, asks := s.asks[id := Asking(question, progress)])
  }

  function StoreStep(settings: Settings, s: State, id: Id): State
    requires Enabled(s, Store(id))
  {
    var Asking(question, Answered(answer, at)) := s.asks[id];
    s.(cached := StoreTurn(settings, s.cached, Key(question), answer, s.clock),
       asks := s.asks[id := Asking(question, Own(answer))],
       log := s.log + [Stored(id, question, answer, at, s.clock)])
  }

  function Apply(settings: Settings, s: State, step: Step): State
    requires Enabled(s, step)
  {
    match step
    case Tick(elapsed) => s.(clock := s.clock + elapsed)
    case Load(id, question) => LoadStep(settings, s, id, question)
    case HostReplies(id, reply) =>
      var progress := if reply.Answers? then Answered(reply.answer, s.clock) else Failed;
      s.(asks := s.asks[id := s.asks[id].(progress := progress)])
    case Store(id) => StoreStep(settings, s, id)
  }

  function Run(settings: Settings, start: Time, steps: seq<Step>): Option<State> {
    if steps == [] then Some(Initial(start))
    else match Run(settings, start, steps[..|steps| - 1])
      case None => None
      case Some(s) =>
        if Enabled(s, steps[|steps| - 1]) then Some(Apply(settings, s, steps[|steps| - 1])) else None
  }

  /** The latest store under a key. */
  function LastStored(log: seq<Stored>, key: string): (k: Option<nat>)
    ensures k.Some? ==> k.value < |log|
  {
    if log == [] then None
    else if Key(log[|log| - 1].question) == key then Some(|log| - 1)
    else LastStored(log[..|log| - 1], key)
  }

  lemma {:induction false} LastStoredIsLast(log: seq<Stored>, key: string)
    ensures var k := LastStored(log, key);
      && (k.Some? ==> Key(log[k.value].question) == key)
      && forall j | (if k.Some? then k.value < j else 0 <= j) && j < |log| :: Key(log[j].question) != key
  {
    hide Key;
    if log != [] {
      LastStoredIsLast(log[..|log| - 1], key);
    }
  }

  /** The entry is the latest one stored under its key. */
  predicate Backed(settings: Settings, log: seq<Stored>, key: string, entry: Entry) {
    var k := LastStored(log, key);
    k.Some? && log[k.value].answer == entry.answer && entry.until == log[k.value].at + settings.cacheBound
  }

  predicate AllBacked(settings: Settings, s: State) {
    forall key | key in s.cached :: Backed(settings, s.log, key, s.cached[key])
  }

  /** The store an ask served from the cache was served: the latest under its key when it read. */
  function Source(log: seq<Stored>, ask: Asking): (k: Option<nat>)
    ensures k.Some? ==> k.value < |log|
  {
    if ask.progress.FromCache? && ask.progress.seen <= |log|
    then LastStored(log[..ask.progress.seen], Key(ask.question))
    else None
  }

  /** An answer served from the cache is its source's, stored less than the bound before. */
  predicate FreshHit(settings: Settings, log: seq<Stored>, ask: Asking) {
    ask.progress.FromCache? ==>
      var k := Source(log, ask);
      && settings.cacheEntries > 0 && ask.progress.seen <= |log| && k.Some?
      && log[k.value].answer == ask.progress.answer
      && log[k.value].at <= ask.progress.readAt < log[k.value].at + settings.cacheBound
  }

  predicate GoodAsk(settings: Settings, s: State, ask: Asking) {
    && FreshHit(settings, s.log, ask) && Askable(ask.question)
    && (ask.progress.Answered? ==> ask.progress.at <= s.clock)
  }

  predicate GoodAsks(settings: Settings, s: State) {
    forall id | id in s.asks :: GoodAsk(settings, s, s.asks[id])
  }

  predicate GoodLog(s: State) {
    forall k | 0 <= k < |s.log| ::
      && s.log[k].answeredAt <= s.log[k].at <= s.clock && s.log[k].asker in s.asks
      && s.asks[s.log[k].asker] == Asking(s.log[k].question, Own(s.log[k].answer))
      && Askable(s.log[k].question)
  }

  predicate Inv(settings: Settings, s: State) {
    Fits(settings, s.cached) && AllBacked(settings, s) && GoodLog(s) && GoodAsks(settings, s)
  }

  lemma FreshHitKept(settings: Settings, log: seq<Stored>, longer: seq<Stored>, ask: Asking)
    requires log <= longer && FreshHit(settings, log, ask)
    ensures FreshHit(settings, longer, ask) && Source(longer, ask) == Source(log, ask)
  {
    if ask.progress.FromCache? {
      assert log[..ask.progress.seen] == longer[..ask.progress.seen];
    }
  }

  lemma AsksKept(settings: Settings, s: State, t: State, moved: Id)
    requires GoodAsks(settings, s) && s.log <= t.log && s.clock <= t.clock
    requires moved in t.asks && t.asks.Keys == s.asks.Keys + {moved}
    requires forall id | id in s.asks && id != moved :: t.asks[id] == s.asks[id]
    requires GoodAsk(settings, t, t.asks[moved])
    ensures GoodAsks(settings, t)
  {
    hide FreshHit;
    forall id | id in t.asks && id != moved
      ensures GoodAsk(settings, t, t.asks[id])
    {
      assert GoodAsk(settings, s, s.asks[id]);
      FreshHitKept(settings, s.log, t.log, s.asks[id]);
    }
  }

  lemma LoadIsGood(settings: Settings, s: State, id: Id, question: Question)
    requires Bounded(settings) && Inv(settings, s) && Enabled(s, Load(id, question))
    ensures var t := LoadStep(settings, s, id, question); GoodAsk(settings, t, t.asks[id])
  {
    assert s.log[..|s.log|] == s.log;
    if LoadTurn(settings, s.cached, Key(question), s.clock).1.Some? {
      assert Backed(settings, s.log, Key(question), s.cached[Key(question)]);
    }
  }

  lemma LoadKeepsBacked(settings: Settings, s: State, id: Id, question: Question)
    requires AllBacked(settings, s)
    ensures AllBacked(settings, LoadStep(settings, s, id, question))
  {
    hide Key, Backed;
  }

  lemma LoadKeepsLog(settings: Settings, s: State, id: Id, question: Question)
    requires GoodLog(s) && id !in s.asks
    ensures GoodLog(LoadStep(settings, s, id, question))
  {
    hide Key;
  }

  lemma LoadKeepsInv(settings: Settings, s: State, id: Id, question: Question)
    requires Bounded(settings) && Inv(settings, s) && Enabled(s, Load(id, question))
    ensures Inv(settings, LoadStep(settings, s, id, question))
  {
    hide GoodAsk, AllBacked, Backed, Key, GoodAsks, GoodLog;
    LoadIsGood(settings, s, id, question);
    LoadKeepsLog(settings, s, id, question);
    LoadFits(settings, s.cached, Key(question), s.clock);
    LoadKeepsBacked(settings, s, id, question);
    AsksKept(settings, s, LoadStep(settings, s, id, question), id);
  }

  lemma StoreKeepsBacked(settings: Settings, s: State, id: Id)
    requires Fits(settings, s.cached) && AllBacked(settings, s) && Enabled(s, Store(id))
    ensures AllBacked(settings, StoreStep(settings, s, id))
  {
    hide Key;
    var t := StoreStep(settings, s, id);
    assert t.log[..|t.log| - 1] == s.log;
    forall key | key in t.cached
      ensures Backed(settings, t.log, key, t.cached[key])
    {
      if key != Key(s.asks[id].question) {
        assert Backed(settings, s.log, key, s.cached[key]);
      }
    }
  }

  lemma StoreKeepsInv(settings: Settings, s: State, id: Id)
    requires Bounded(settings) && Inv(settings, s) && Enabled(s, Store(id))
    ensures Inv(settings, StoreStep(settings, s, id))
  {
    hide Key, Backed, FreshHit, AllBacked;
    assert GoodAsk(settings, s, s.asks[id]);
    StoreFits(settings, s.cached, Key(s.asks[id].question), s.asks[id].progress.answer, s.clock);
    StoreKeepsBacked(settings, s, id);
    var t := StoreStep(settings, s, id);
    OwnIsFresh(settings, t.log, t.asks[id]);
    AsksKept(settings, s, t, id);
  }

  lemma OwnIsFresh(settings: Settings, log: seq<Stored>, ask: Asking)
    requires !ask.progress.FromCache?
    ensures FreshHit(settings, log, ask)
  {
  }

  lemma StepKeepsInv(settings: Settings, s: State, step: Step)
    requires Bounded(settings) && Inv(settings, s) && Enabled(s, step)
    ensures Inv(settings, Apply(settings, s, step))
  {
    hide Backed, Key, FreshHit;
    match step
    case Tick(_) =>
      assert forall id | id in s.asks :: GoodAsk(settings, s, s.asks[id]);
    case Load(id, question) => LoadKeepsInv(settings, s, id, question);
    case HostReplies(id, _) =>
      var t := Apply(settings, s, step);
      assert GoodAsk(settings, s, s.asks[id]);
      OwnIsFresh(settings, t.log, t.asks[id]);
      AsksKept(settings, s, t, id);
    case Store(id) => StoreKeepsInv(settings, s, id);
  }

  lemma {:induction false} RunInv(settings: Settings, start: Time, steps: seq<Step>)
    requires Bounded(settings) && Run(settings, start, steps).Some?
    ensures Inv(settings, Run(settings, start, steps).value)
  {
    if steps != [] {
      RunInv(settings, start, steps[..|steps| - 1]);
      StepKeepsInv(settings, Run(settings, start, steps[..|steps| - 1]).value, steps[|steps| - 1]);
    }
  }

  // ---- Theorems over every interleaving ----

  /**
   A served answer is the latest one stored under its key, less than the bound, so less than two seconds,
   before it was read. Since the host decided on it, at most the time until that store has passed besides.
   */
  lemma {:induction false} AnswersAreFresh(settings: Settings, start: Time, steps: seq<Step>, id: Id)
    requires Bounded(settings) && Run(settings, start, steps).Some?
    requires var asks := Run(settings, start, steps).value.asks; id in asks && asks[id].progress.FromCache?
    ensures var s := Run(settings, start, steps).value; var ask := s.asks[id]; var k := Source(s.log, ask);
      && k.Some? && Key(s.log[k.value].question) == Key(ask.question) && s.log[k.value].answer == ask.progress.answer
      && var Stored(_, _, _, answeredAt, at) := s.log[k.value]; var readAt := ask.progress.readAt;
         && answeredAt <= at <= readAt < at + settings.cacheBound <= at + AUTHORITY_CACHE_BOUND
         && readAt - answeredAt < settings.cacheBound + (at - answeredAt)
  {
    RunInv(settings, start, steps);
    var s := Run(settings, start, steps).value;
    assert GoodAsk(settings, s, s.asks[id]);
    LastStoredIsLast(s.log[..s.asks[id].progress.seen], Key(s.asks[id].question));
  }

  /** The cache never outgrows its bound, and only an answer its own ask went on to return was ever stored. */
  lemma {:induction false} CacheIsBounded(settings: Settings, start: Time, steps: seq<Step>)
    requires Bounded(settings) && Run(settings, start, steps).Some?
    ensures var s := Run(settings, start, steps).value;
      && (if settings.cacheEntries < 0 then s.cached == map[] else |s.cached| <= settings.cacheEntries)
      && forall k | 0 <= k < |s.log| ::
           s.log[k].asker in s.asks && s.asks[s.log[k].asker] == Asking(s.log[k].question, Own(s.log[k].answer))
  {
    RunInv(settings, start, steps);
  }

  /** The answer an ask ends with, if it ends with one. */
  function Outcome(ask: Asking): Option<Answer> {
    match ask.progress
    case Own(answer) => Some(answer)
    case FromCache(answer, _, _) => Some(answer)
    case _ => None
  }

  /** The host gave this answer to some RPC asking exactly this question. */
  predicate HostAnswered(s: State, question: Question, answer: Answer) {
    exists id :: id in s.asks && s.asks[id] == Asking(question, Own(answer))
  }

  /**
   Whatever a source accepts was the host's answer to that question, or to another question under the
   same key whose own source refused it as unattributable.
   */
  lemma AcceptedAnswerOrigin(settings: Settings, start: Time, steps: seq<Step>, id: Id, answer: Answer)
    requires Bounded(settings) && Run(settings, start, steps).Some?
    requires id in Run(settings, start, steps).value.asks
    requires Outcome(Run(settings, start, steps).value.asks[id]) == Some(answer)
    requires Attributed(Run(settings, start, steps).value.asks[id].question, answer)
    ensures var s := Run(settings, start, steps).value; var q := s.asks[id].question;
      HostAnswered(s, q, answer) ||
      exists p :: Key(p) == Key(q) && HostAnswered(s, p, answer) && Read(p, answer) == Err(Unreadable)
  {
    RunInv(settings, start, steps);
    var s := Run(settings, start, steps).value;
    var q := s.asks[id].question;
    if s.asks[id].progress.FromCache? {
      AnswersAreFresh(settings, start, steps, id);
      var k := Source(s.log, s.asks[id]).value;
      var p := s.log[k].question;
      assert HostAnswered(s, p, answer);
      if Attributed(p, answer) {
        NoAnswerServesTwo(p, q, answer);
      }
    }
  }

  /** For a question no other question shares a key with, every outcome is one the host gave to that very question. */
  lemma UncollidingAnswersAreOwn(settings: Settings, start: Time, steps: seq<Step>, id: Id, answer: Answer)
    requires Bounded(settings) && Run(settings, start, steps).Some?
    requires id in Run(settings, start, steps).value.asks
    requires Outcome(Run(settings, start, steps).value.asks[id]) == Some(answer)
    requires !Collides(Run(settings, start, steps).value.asks[id].question)
    ensures HostAnswered(Run(settings, start, steps).value, Run(settings, start, steps).value.asks[id].question, answer)
  {
    RunInv(settings, start, steps);
    var s := Run(settings, start, steps).value;
    var q := s.asks[id].question;
    if s.asks[id].progress.FromCache? {
      AnswersAreFresh(settings, start, steps, id);
      var k := Source(s.log, s.asks[id]).value;
      if s.log[k].question != q {
        SharedKeyCollides(s.log[k].question, q);
      }
      assert HostAnswered(s, q, answer);
    }
  }

  lemma Follow(settings: Settings, steps: seq<Step>, s: State, step: Step) returns (next: seq<Step>, t: State)
    requires Run(settings, 0, steps) == Some(s) && Enabled(s, step)
    ensures Run(settings, 0, next) == Some(t) && t == Apply(settings, s, step)
  {
    next, t := steps + [step], Apply(settings, s, step);
    assert next[..|next| - 1] == steps;
  }

  /** The source of q accepts an answer the host never gave to q. */
  predicate AcceptsAnother(s: State, q: Question, id: Id, answer: Answer) {
    && id in s.asks && s.asks[id].question == q
    && Outcome(s.asks[id]) == Some(answer) && Read(q, answer).Ok? && !HostAnswered(s, q, answer)
  }

  ghost predicate CanAcceptAnother(settings: Settings, q: Question) {
    exists steps: seq<Step>, id: Id, answer: Answer ::
      Run(settings, 0, steps).Some? && AcceptsAnother(Run(settings, 0, steps).value, q, id, answer)
  }

  /** Answers are kept at all: for some time, and some of them. */
  predicate Caching(settings: Settings) {
    settings.cacheBound > 0 && settings.cacheEntries > 0
  }

  lemma {:induction false} ServedMeansCaching(settings: Settings, start: Time, steps: seq<Step>, id: Id)
    requires Bounded(settings) && Run(settings, start, steps).Some?
    requires var asks := Run(settings, start, steps).value.asks; id in asks && asks[id].progress.FromCache?
    ensures Caching(settings)
  {
    RunInv(settings, start, steps);
    var s := Run(settings, start, steps).value;
    assert GoodAsk(settings, s, s.asks[id]);
  }

  /**
   A source can be made to accept another question's answer exactly when answers are cached and its
   identifiers hold a NUL that splits them: the host misanswers a question sharing the key, whose own
   source refuses what the cache nevertheless kept.
   */
  lemma {:induction false} AcceptsAnotherIff(settings: Settings, q: Question)
    requires Bounded(settings) && Askable(q)
    ensures CanAcceptAnother(settings, q) <==> Collides(q) && Caching(settings)
  {
    if Collides(q) && Caching(settings) {
      KeySharedIff(q);
      var p :| Askable(p) && p != q && Key(p) == Key(q);
      MisansweredRun(settings, p, q);
    }
    if CanAcceptAnother(settings, q) {
      var steps: seq<Step>, id: Id, answer: Answer :|
        Run(settings, 0, steps).Some? && AcceptsAnother(Run(settings, 0, steps).value, q, id, answer);
      ReadIsAttributed(q, answer);
      if !Collides(q) {
        UncollidingAnswersAreOwn(settings, 0, steps, id, answer);
      }
      ServedMeansCaching(settings, 0, steps, id);
    }
  }

  lemma MisansweredRun(settings: Settings, p: Question, q: Question)
    requires Bounded(settings) && Caching(settings)
    requires Askable(p) && Askable(q) && q.SealOf? && p != q && Key(p) == Key(q)
    ensures CanAcceptAnother(settings, q)
  {
    hide Run, Key;
    var answer := SealAnswer(q.installation, 0, Present);
    var steps, s := ServedRun(settings, p, q, answer, 0, 0);
    assert AcceptsAnother(s, q, 1, answer);
  }

  /** The host answers p, and the answer is stored `delay` later. */
  lemma StoredRun(settings: Settings, p: Question, answer: Answer, delay: nat) returns (steps: seq<Step>, s: State)
    requires Bounded(settings) && Caching(settings) && Askable(p)
    ensures Run(settings, 0, steps) == Some(s) && s.clock == delay
    ensures s.cached == map[Key(p) := Entry(answer, delay + settings.cacheBound)]
    ensures s.asks == map[0 := Asking(p, Own(answer))] && s.log == [Stored(0, p, answer, 0, delay)]
  {
    assert Run(settings, 0, []) == Some(Initial(0));
    hide Run, Key;
    steps, s := Follow(settings, [], Initial(0), Load(0, p));
    assert s.cached == map[] && s.asks == map[0 := Asking(p, Calling)];
    steps, s := Follow(settings, steps, s, HostReplies(0, Answers(answer)));
    assert s.asks == map[0 := Asking(p, Answered(answer, 0))];
    steps, s := Follow(settings, steps, s, Tick(delay));
    steps, s := Follow(settings, steps, s, Store(0));
  }

  /** And q, sharing the key, is asked `wait` after that. */
  lemma ServedRun(settings: Settings, p: Question, q: Question, answer: Answer, delay: nat, wait: nat)
    returns (steps: seq<Step>, s: State)
    requires Bounded(settings) && Caching(settings) && Askable(p) && Askable(q) && Key(p) == Key(q)
    requires wait < settings.cacheBound
    ensures Run(settings, 0, steps) == Some(s)
    ensures s.asks == map[0 := Asking(p, Own(answer)), 1 := Asking(q, FromCache(answer, delay + wait, 1))]
    ensures s.log == [Stored(0, p, answer, 0, delay)]
  {
    hide Run, Key;
    steps, s := StoredRun(settings, p, answer, delay);
    steps, s := Follow(settings, steps, s, Tick(wait));
    steps, s := Follow(settings, steps, s, Load(1, q));
  }

  // ---- Refusals ----

  predicate ServedFromCache(s: State, q: Question, answer: Answer) {
    exists id ::
      id in s.asks && s.asks[id].question == q && s.asks[id].progress.FromCache? && s.asks[id].progress.answer == answer
  }

  /** A refusal, like any other answer, can be served from memory exactly when answers are cached at all. */
  lemma {:induction false} RefusalsAreCachedIff(settings: Settings, q: Question, answer: Answer)
    requires Bounded(settings) && Askable(q) && Read(q, answer).Err?
    ensures (exists steps :: Run(settings, 0, steps).Some? && ServedFromCache(Run(settings, 0, steps).value, q, answer))
      <==> Caching(settings)
  {
    hide Run, Key, Read;
    if Caching(settings) {
      var steps, s := ServedRun(settings, q, q, answer, 0, 0);
      assert s.asks[1] == Asking(q, FromCache(answer, 0, 1));
      assert ServedFromCache(s, q, answer);
    }
    if steps :| Run(settings, 0, steps).Some? && ServedFromCache(Run(settings, 0, steps).value, q, answer) {
      var s := Run(settings, 0, steps).value;
      var id :| id in s.asks && s.asks[id].question == q && s.asks[id].progress.FromCache?;
      ServedMeansCaching(settings, 0, steps, id);
    }
  }

  // ---- The age of an answer ----

  /** Every answer was stored at most `delay` after the host decided on it. */
  predicate StoredWithin(s: State, delay: int) {
    forall k | 0 <= k < |s.log| :: s.log[k].at - s.log[k].answeredAt <= delay
  }

  /** The ask was served this answer, which the host had decided on `age` before. */
  predicate ServedAt(s: State, q: Question, id: Id, answer: Answer, age: int) {
    && id in s.asks && s.asks[id].question == q && s.asks[id].progress.FromCache?
    && s.asks[id].progress.answer == answer
    && var k := Source(s.log, s.asks[id]);
       k.Some? && s.asks[id].progress.readAt - s.log[k.value].answeredAt == age
  }

  ghost predicate CanServeAged(settings: Settings, q: Question, answer: Answer, delay: int, age: int) {
    exists steps: seq<Step>, id: Id ::
      && Run(settings, 0, steps).Some?
      && StoredWithin(Run(settings, 0, steps).value, delay)
      && ServedAt(Run(settings, 0, steps).value, q, id, answer, age)
  }

  /**
   How old an answer, whatever it says, can be when it is served: as old as the bound and the longest delay
   between the host's decision and the store together, and no older. So one past the bound is served exactly
   when a store can come later than the decision.
   */
  lemma {:induction false} AgedAnswersIff(settings: Settings, q: Question, answer: Answer, delay: nat, age: nat)
    requires Bounded(settings) && Askable(q)
    ensures CanServeAged(settings, q, answer, delay, age) <==> Caching(settings) && age < settings.cacheBound + delay
  {
    hide Run, Key;
    if CanServeAged(settings, q, answer, delay, age) {
      var steps: seq<Step>, id: Id :|
        && Run(settings, 0, steps).Some?
        && StoredWithin(Run(settings, 0, steps).value, delay)
        && ServedAt(Run(settings, 0, steps).value, q, id, answer, age);
      ServedMeansCaching(settings, 0, steps, id);
      AnswersAreFresh(settings, 0, steps, id);
    }
    if Caching(settings) && age < settings.cacheBound + delay {
      var late := if age < delay then age else delay;
      var steps, s := ServedRun(settings, q, q, answer, late, age - late);
      assert s.log[..1] == s.log;
      assert LastStored(s.log, Key(q)) == Some(0);
      assert StoredWithin(s, delay) && ServedAt(s, q, 1, answer, age);
    }
  }

  // ---- Answers overtaken by newer ones ----

  /** The ask was served an answer although a newer one had been stored under its key before it read. */
  predicate Outdated(s: State, id: Id) {
    && id in s.asks && s.asks[id].progress.FromCache? && s.asks[id].progress.seen <= |s.log|
    && var k := Source(s.log, s.asks[id]);
       k.Some? && exists j | 0 <= j < s.asks[id].progress.seen ::
         Key(s.log[j].question) == Key(s.asks[id].question) && s.log[j].answeredAt > s.log[k.value].answeredAt
  }

  /** Under each key, answers were stored in the order the host decided on them. */
  predicate InOrder(log: seq<Stored>) {
    forall i, j | 0 <= i < j < |log| ::
      Key(log[i].question) == Key(log[j].question) ==> log[i].answeredAt <= log[j].answeredAt
  }

  /** Stores in order never let an outdated answer be served. */
  lemma OrderedStoresServeNewest(s: State, id: Id)
    requires InOrder(s.log)
    ensures !Outdated(s, id)
  {
    hide Key;
    if id in s.asks && s.asks[id].progress.FromCache? && s.asks[id].progress.seen <= |s.log| {
      LastStoredIsLast(s.log[..s.asks[id].progress.seen], Key(s.asks[id].question));
    }
  }

  /** Storing an answer makes the next ask of its question outdated exactly when a newer one was stored before. */
  lemma OutdatedStoreIff(settings: Settings, s: State, id: Id, next: Id)
    requires Caching(settings) && Enabled(s, Store(id)) && next !in s.asks && Askable(s.asks[id].question)
    ensures var q := s.asks[id].question;
      Outdated(LoadStep(settings, StoreStep(settings, s, id), next, q), next) <==>
      exists j | 0 <= j < |s.log| :: Key(s.log[j].question) == Key(q) && s.log[j].answeredAt > s.asks[id].progress.at
  {
    hide Key;
    var q, t := s.asks[id].question, StoreStep(settings, s, id);
    var u := LoadStep(settings, t, next, q);
    assert u.log == t.log && t.log[..|t.log|] == t.log;
    assert LastStored(t.log, Key(q)) == Some(|s.log|);
    assert u.asks[next].progress.FromCache? && Source(u.log, u.asks[next]) == Some(|s.log|);
    assert forall j | 0 <= j < |s.log| :: t.log[j] == s.log[j];
  }

  /** The ask was served `older` although `newer`, decided later, had been stored for the same question. */
  predicate ServedOlder(s: State, q: Question, id: Id, older: Answer, newer: Answer) {
    && id in s.asks && s.asks[id].question == q && s.asks[id].progress.FromCache? && s.asks[id].progress.answer == older
    && s.asks[id].progress.seen <= |s.log|
    && var k := Source(s.log, s.asks[id]);
       k.Some? && exists j | 0 <= j < s.asks[id].progress.seen ::
         s.log[j].question == q && s.log[j].answer == newer && s.log[j].answeredAt > s.log[k.value].answeredAt
  }

  ghost predicate CanServeOlder(settings: Settings, q: Question, older: Answer, newer: Answer) {
    exists steps: seq<Step>, id: Id ::
      Run(settings, 0, steps).Some? && ServedOlder(Run(settings, 0, steps).value, q, id, older, newer)
  }

  /**
   Whatever two answers say, the older can replace the newer and be served, a revocation undone, exactly when
   answers are cached at all.
   */
  lemma {:induction false} OutdatedServedIff(settings: Settings, q: Question, older: Answer, newer: Answer)
    requires Bounded(settings) && Askable(q)
    ensures CanServeOlder(settings, q, older, newer) <==> Caching(settings)
  {
    hide Run, Key;
    if CanServeOlder(settings, q, older, newer) {
      var steps: seq<Step>, id: Id :|
        Run(settings, 0, steps).Some? && ServedOlder(Run(settings, 0, steps).value, q, id, older, newer);
      ServedMeansCaching(settings, 0, steps, id);
    }
    if Caching(settings) {
      var steps, s := OvertakenRun(settings, q, older, newer);
      steps, s := Follow(settings, steps, s, Store(0));
      assert s.log == [Stored(1, q, newer, 1, 1), Stored(0, q, older, 0, 1)];
      steps, s := Follow(settings, steps, s, Load(2, q));
      assert s.log[..2] == s.log && LastStored(s.log, Key(q)) == Some(1);
      assert s.log[0].answer == newer && ServedOlder(s, q, 2, older, newer);
    }
  }

  /** What is served older is outdated, so that stores in order exclude it. */
  lemma OlderIsOutdated(s: State, q: Question, id: Id, older: Answer, newer: Answer)
    requires ServedOlder(s, q, id, older, newer)
    ensures Outdated(s, id)
  {
  }

  /** Two asks of one question; the second answer is newer and is stored first. */
  lemma OvertakenRun(settings: Settings, q: Question, older: Answer, newer: Answer)
    returns (steps: seq<Step>, s: State)
    requires Bounded(settings) && Caching(settings) && Askable(q)
    ensures Run(settings, 0, steps) == Some(s) && s.clock == 1
    ensures s.asks == map[0 := Asking(q, Answered(older, 0)), 1 := Asking(q, Own(newer))]
    ensures s.log == [Stored(1, q, newer, 1, 1)]
  {
    assert Run(settings, 0, []) == Some(Initial(0));
    hide Run, Key;
    steps, s := Follow(settings, [], Initial(0), Load(0, q));
    assert s.cached == map[] && s.asks == map[0 := Asking(q, Calling)];
    steps, s := Follow(settings, steps, s, Load(1, q));
    assert s.cached == map[] && s.asks == map[0 := Asking(q, Calling), 1 := Asking(q, Calling)];
    steps, s := Follow(settings, steps, s, HostReplies(0, Answers(older)));
    assert s.asks == map[0 := Asking(q, Answered(older, 0)), 1 := Asking(q, Calling)];
    steps, s := Follow(settings, steps, s, Tick(1));
    steps, s := Follow(settings, steps, s, HostReplies(1, Answers(newer)));
    assert s.asks == map[0 := Asking(q, Answered(older, 0)), 1 := Asking(q, Answered(newer, 1))];
    steps, s := Follow(settings, steps, s, Store(1));
  }
}
