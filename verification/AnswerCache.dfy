/**
 The bounded, time-limited cache of issuer answers (moduleauthority/verifier_sources.go), in place, and
 the two critical sections on it as functions.

 Times are instants and durations in nanoseconds. A cached answer is served strictly before `until`.
 */
module AnswerCache {
  import opened Prelude
  import opened AuthorityAnswers

  type Time = int

  const AUTHORITY_CACHE_BOUND: Time := 2_000_000_000
  const DEFAULT_AUTHORITY_CACHE_ENTRIES: int := 2048

  datatype Entry = Entry(answer: Answer, until: Time)

  datatype Settings = Settings(cacheBound: Time, cacheEntries: int)

  /** moduleauthority/verifier_sources.go:176-186: a longer bound is refused, zeros mean the defaults. */
  function Normalized(settings: Settings): Option<Settings> {
    if settings.cacheBound > AUTHORITY_CACHE_BOUND then None
    else Some(Settings(
      if settings.cacheBound == 0 then AUTHORITY_CACHE_BOUND else settings.cacheBound,
      if settings.cacheEntries == 0 then DEFAULT_AUTHORITY_CACHE_ENTRIES else settings.cacheEntries))
  }

  predicate Bounded(settings: Settings) {
    settings.cacheBound <= AUTHORITY_CACHE_BOUND && settings.cacheEntries != 0
  }

  predicate Fits(settings: Settings, cached: map<string, Entry>) {
    if settings.cacheEntries < 0 then cached == map[] else |cached| <= settings.cacheEntries
  }

  /** moduleauthority/verifier_sources.go:223-235. */
  function LoadTurn(settings: Settings, cached: map<string, Entry>, key: string, now: Time)
    : (map<string, Entry>, Option<Answer>)
  {
    if settings.cacheEntries < 0 then (cached, None)
    else if key !in cached || now >= cached[key].until then (cached - {key}, None)
    else (cached, Some(cached[key].answer))
  }

  /** moduleauthority/verifier_sources.go:237-254: at the bound the whole cache is dropped. */
  function StoreTurn(settings: Settings, cached: map<string, Entry>, key: string, answer: Answer, now: Time)
    : map<string, Entry>
  {
    if settings.cacheEntries < 0 then cached
    else
      (if |cached| >= settings.cacheEntries then map[] else cached)[key := Entry(answer, now + settings.cacheBound)]
  }

  lemma LoadFits(settings: Settings, cached: map<string, Entry>, key: string, now: Time)
    requires Fits(settings, cached)
    ensures Fits(settings, LoadTurn(settings, cached, key, now).0)
  {
    assert cached.Keys - {key} <= cached.Keys;
    assert (cached - {key}).Keys == cached.Keys - {key};
    if key in cached {
      assert |cached.Keys - {key}| == |cached.Keys| - 1;
    } else {
      assert cached - {key} == cached;
    }
  }

  lemma StoreFits(settings: Settings, cached: map<string, Entry>, key: string, answer: Answer, now: Time)
    requires Bounded(settings) && Fits(settings, cached)
    ensures Fits(settings, StoreTurn(settings, cached, key, answer, now))
  {
    var base := if |cached| >= settings.cacheEntries then map[] else cached;
    var entry := Entry(answer, now + settings.cacheBound);
    assert base[key := entry].Keys == base.Keys + {key};
  }

  /** What asking the host over RPC comes to: an error, a nil answer, or an answer. */
  datatype Reply = RpcError(code: int) | NilAnswer | Answers(answer: Answer)

  class WorkContextSources {
    const settings: Settings
    const owner: string
    var cached: map<string, Entry>

    predicate Valid()
      reads this
    {
      Bounded(settings) && Fits(settings, cached)
    }

    constructor (settings: Settings, owner: string)
      requires Normalized(settings).Some? && owner != ""
      ensures Valid() && cached == map[] && this.owner == owner && this.settings == Normalized(settings).value
    {
      this.settings := Normalized(settings).value;
      this.owner := owner;
      this.cached := map[];
    }

    method Load(key: string, now: Time) returns (answer: Option<Answer>)
      requires Valid()
      modifies this`cached
      ensures Valid()
      ensures (cached, answer) == LoadTurn(settings, old(cached), key, now)
    {
      LoadFits(settings, cached, key, now);
      if settings.cacheEntries < 0 {
        return None;
      }
      if key !in cached || !(now < cached[key].until) {
        cached := cached - {key};
        return None;
      }
      return Some(cached[key].answer);
    }

    method Store(key: string, answer: Answer, now: Time)
      requires Valid()
      modifies this`cached
      ensures Valid()
      ensures cached == StoreTurn(settings, old(cached), key, answer, now)
    {
      StoreFits(settings, cached, key, answer, now);
      if settings.cacheEntries < 0 {
        return;
      }
      if |cached| >= settings.cacheEntries {
        cached := map[];
      }
      cached := cached[key := Entry(answer, now + settings.cacheBound)];
    }

    /**
     moduleauthority/verifier_sources.go:203-221. `others` is what concurrent questions left in the cache
     while this one's RPC ran without the mutex.
     */
    method Ask(key: string, askedAt: Time, reply: Reply, others: map<string, Entry>, storedAt: Time)
      returns (r: Result<Answer, SourceError>, called: bool)
      requires Valid() && Fits(settings, others)
      modifies this`cached
      ensures Valid()
      ensures var (afterLoad, hit) := LoadTurn(settings, old(cached), key, askedAt);
        if hit.Some? then r == Ok(hit.value) && !called && cached == old(cached)
        else called && match reply
          case RpcError(code) => r == Err(CallFailed(code)) && cached == others
          case NilAnswer => r == Err(Unreadable) && cached == others
          case Answers(answer) => r == Ok(answer) && cached == StoreTurn(settings, others, key, answer, storedAt)
    {
      var hit := Load(key, askedAt);
      if hit.Some? {
        return Ok(hit.value), false;
      }
      cached := others;
      match reply
      case RpcError(code) => return Err(CallFailed(code)), true;
      case NilAnswer => return Err(Unreadable), true;
      case Answers(answer) =>
        Store(key, answer, storedAt);
        return Ok(answer), true;
    }

    /**
     moduleauthority/verifier_sources.go:263-425: every source validates, asks under the question's key, and
     reads the answer.
     */
    method Resolve(q: Question, askedAt: Time, reply: Reply, others: map<string, Entry>, storedAt: Time)
      returns (r: Result<Verdict, SourceError>)
      requires Valid() && Fits(settings, others)
      requires q.RevisionOf? ==> q.owner == owner
      modifies this`cached
      ensures Valid()
      ensures !Askable(q) ==> r == Err(InvalidQuestion) && cached == old(cached)
      ensures r == Err(InvalidQuestion) <==>
        match q
        case SealOf(principal, installation) => principal == "" || installation == ""
        case EpochOf(principal) => principal == ""
        case BindingOf(binding) => binding == ""
        case RevisionOf(_) => false
        case GrantOf(grant) => grant == ""
      ensures r != Err(InvalidQuestion) ==>
        var hit := LoadTurn(settings, old(cached), Key(q), askedAt).1;
        if hit.Some? then Owed(q, hit.value, r)
        else match reply
          case RpcError(code) => r == Err(CallFailed(code))
          case NilAnswer => r == Err(Unreadable)
          case Answers(answer) => Owed(q, answer, r)
      ensures Askable(q) ==>
        var hit := LoadTurn(settings, old(cached), Key(q), askedAt).1;
        r == (if hit.Some? then Read(q, hit.value)
              else match reply
                case RpcError(code) => Err(CallFailed(code))
                case NilAnswer => Err(Unreadable)
                case Answers(answer) => Read(q, answer))
        && cached == (if hit.Some? then old(cached)
                      else match reply
                        case Answers(answer) => StoreTurn(settings, others, Key(q), answer, storedAt)
                        case _ => others)
    {
      if !Askable(q) {
        return Err(InvalidQuestion);
      }
      var answer, _ := Ask(Key(q), askedAt, reply, others, storedAt);
      match answer
      case Err(e) => return Err(e);
      case Ok(a) =>
        ReadIsOwed(q, a);
        return Read(q, a);
    }
  }

  /**
   moduleauthority/verifier_sources.go:159-188. `hasClient` says the receiver is not nil; `owner` is the
   owner the capability names, None when it cannot be read as a sealed one.
   */
  method NewSources(hasClient: bool, settings: Settings, owner: Option<string>)
    returns (r: Result<WorkContextSources, SourceError>)
    ensures r.Ok? <==> hasClient && owner.Some? && owner.value != "" && settings.cacheBound <= AUTHORITY_CACHE_BOUND
    ensures r.Err? ==> r.error == InvalidQuestion
    ensures r.Ok? ==>
      && fresh(r.value) && r.value.Valid() && r.value.cached == map[] && Some(r.value.owner) == owner
      && Some(r.value.settings) == Normalized(settings)
      && r.value.settings.cacheBound == (if settings.cacheBound == 0 then 2_000_000_000 else settings.cacheBound)
      && r.value.settings.cacheEntries == (if settings.cacheEntries == 0 then 2048 else settings.cacheEntries)
      && r.value.settings.cacheBound <= 2_000_000_000
  {
    if !hasClient || owner.None? || owner.value == "" || settings.cacheBound > AUTHORITY_CACHE_BOUND {
      return Err(InvalidQuestion);
    }
    var sources := new WorkContextSources(settings, owner.value);
    return Ok(sources);
  }
}
