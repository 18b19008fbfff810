/**
 The module credential a client caches (moduleauthority/client.go): what one turn under the client's
 mutex does to it, and the broker's answers that fill it.

 Times are instants in nanoseconds.
 */
module CredentialCache {
  import opened Prelude

  type Time = int

  /** time.Time's zero value. */
  const ZERO_TIME: Time := 0

  const DEFAULT_REFRESH_SKEW: Time := 30_000_000_000

  /** The cached token and its expiry; an empty token is an empty cache. */
  datatype Cache = Cache(held: string, expiresAt: Time)

  const EMPTY_CACHE := Cache("", ZERO_TIME)

  datatype Issued = Issued(token: string, expiresAt: Time)

  /** The two readers the client takes from its libraries: core's structural one and RFC 3339. */
  datatype Readers = Readers(sealed: string -> bool, parseTime: string -> Option<Time>) {
    /** moduleauthority/token.go:16-19: an empty token is never sealed. */
    ghost predicate Valid() {
      !sealed("")
    }
  }

  datatype BrokerFailure = Status(code: int) | NoStatus

  /** What one mint meets: no readable projected token, a broker failure, or an answer. */
  datatype BrokerReply =
    | NoProjectedToken
    | Failed(failure: BrokerFailure)
    | Answered(token: string, expiresAt: string)

  datatype MintError =
    | InvalidCredentials
    | PermissionDenied
    | NoHostStateToMintFor
    | ExecutionUnestablished
    | OtherFailure(failure: BrokerFailure)
    | InvalidCapability

  /** moduleauthority/broker.go:135-151. */
  function BrokerRefusal(failure: BrokerFailure): MintError {
    match failure
    case Status(401) => InvalidCredentials
    case Status(403) => PermissionDenied
    case Status(412) => NoHostStateToMintFor
    case Status(503) => ExecutionUnestablished
    case _ => OtherFailure(failure)
  }

  /** moduleauthority/broker.go:193-205. */
  function ParseExpiry(r: Readers, raw: string, now: Time): Result<Time, MintError> {
    if raw == "" then Err(InvalidCapability)
    else match r.parseTime(raw)
      case None => Err(InvalidCapability)
      case Some(expiresAt) => if expiresAt > now then Ok(expiresAt) else Err(InvalidCapability)
  }

  /** moduleauthority/client.go:466-486. */
  function Mint(r: Readers, reply: BrokerReply, now: Time): Result<Issued, MintError> {
    match reply
    case NoProjectedToken => Err(InvalidCredentials)
    case Failed(failure) => Err(BrokerRefusal(failure))
    case Answered(token, raw) =>
      match ParseExpiry(r, raw, now)
      case Err(e) => Err(e)
      case Ok(expiresAt) => if r.sealed(token) then Ok(Issued(token, expiresAt)) else Err(InvalidCapability)
  }

  /** A mint hands out only a sealed token that is still good at the clock reading that judged it. */
  lemma MintIsGood(r: Readers, reply: BrokerReply, now: Time)
    requires r.Valid()
    ensures Mint(r, reply, now).Ok? ==>
      && Mint(r, reply, now).value.token != "" && r.sealed(Mint(r, reply, now).value.token)
      && now < Mint(r, reply, now).value.expiresAt
  {
  }

  /** moduleauthority/client.go:441. */
  predicate Fresh(c: Cache, now: Time, skew: Time) {
    c.held != "" && now + skew < c.expiresAt
  }

  /** moduleauthority/client.go:491-496. */
  function Forget(c: Cache, rejected: string): Cache {
    if c.held == rejected then EMPTY_CACHE else c
  }

  /** The clock readings and the broker's reply one turn under the mutex meets. */
  datatype Turn = Turn(checkedAt: Time, reply: BrokerReply, mintedAt: Time)

  /** One turn under the mutex: the cached token while it is fresh, and a minted one otherwise. */
  function Take(r: Readers, skew: Time, c: Cache, turn: Turn): (Cache, Result<string, MintError>) {
    if Fresh(c, turn.checkedAt, skew) then (c, Ok(c.held))
    else match Mint(r, turn.reply, turn.mintedAt)
      case Err(e) => (c, Err(e))
      case Ok(issued) => (Cache(issued.token, issued.expiresAt), Ok(issued.token))
  }

  datatype Code = Success | Unauthenticated | OtherCode(code: int)

  datatype CallError = NoAuthority | MintFailed(error: MintError) | Rejected(code: Code)

  class Client {
    const readers: Readers
    const refreshSkew: Time
    const hasAuthority: bool
    var held: string
    var expiresAt: Time

    function Cached(): Cache
      reads this
    {
      Cache(held, expiresAt)
    }

    /** The cache is empty or holds a token some mint accepted. */
    predicate Valid()
      reads this
    {
      Cached() == EMPTY_CACHE || readers.sealed(held)
    }

    constructor (readers: Readers, hasAuthority: bool)
      ensures Valid() && Cached() == EMPTY_CACHE && this.readers == readers && this.hasAuthority == hasAuthority
      ensures refreshSkew == DEFAULT_REFRESH_SKEW == 30_000_000_000
    {
      this.readers := readers;
      this.refreshSkew := DEFAULT_REFRESH_SKEW;
      this.hasAuthority := hasAuthority;
      held, expiresAt := "", ZERO_TIME;
    }

    /** moduleauthority/client.go:466-486: neither reads nor updates the cache. */
    method MintModuleWorkContext(turn: Turn) returns (r: Result<Issued, MintError>)
      ensures r == Mint(readers, turn.reply, turn.mintedAt)
      ensures r.Ok? <==>
        && turn.reply.Answered? && readers.sealed(turn.reply.token) && turn.reply.expiresAt != ""
        && readers.parseTime(turn.reply.expiresAt).Some?
        && turn.mintedAt < readers.parseTime(turn.reply.expiresAt).value
      ensures r.Ok? ==>
        r.value.token == turn.reply.token && Some(r.value.expiresAt) == readers.parseTime(turn.reply.expiresAt)
      ensures r.Err? ==>
        match turn.reply
        case NoProjectedToken => r.error == InvalidCredentials
        case Answered(_, _) => r.error == InvalidCapability
        case Failed(failure) =>
          && (r.error == InvalidCredentials <==> failure == Status(401))
          && (r.error == PermissionDenied <==> failure == Status(403))
          && (r.error == NoHostStateToMintFor <==> failure == Status(412))
          && (r.error == ExecutionUnestablished <==> failure == Status(503))
          && (r.error == OtherFailure(failure) <==>
                failure.Status? ==> failure.code !in {401, 403, 412, 503})
    {
      match turn.reply
      case NoProjectedToken =>
        return Err(InvalidCredentials);
      case Failed(failure) =>
        return Err(BrokerRefusal(failure));
      case Answered(token, raw) =>
        var parsed := ParseExpiry(readers, raw, turn.mintedAt);
        if parsed.Err? {
          return Err(parsed.error);
        }
        if !readers.sealed(token) {
          return Err(InvalidCapability);
        }
        return Ok(Issued(token, parsed.value));
    }

    /** moduleauthority/client.go:440-451. */
    method ModuleWorkContextLocked(turn: Turn) returns (r: Result<string, MintError>)
      requires Valid() && readers.Valid()
      modifies this`held, this`expiresAt
      ensures Valid()
      ensures (Cached(), r) == Take(readers, refreshSkew, old(Cached()), turn)
      ensures r.Err? ==> Cached() == old(Cached())
      ensures r.Ok? ==> r.value == held != ""
    {
      if held != "" && turn.checkedAt + refreshSkew < expiresAt {
        return Ok(held);
      }
      var issued := MintModuleWorkContext(turn);
      if issued.Err? {
        return Err(issued.error);
      }
      held := issued.value.token;
      expiresAt := issued.value.expiresAt;
      return Ok(issued.value.token);
    }

    /** moduleauthority/client.go:491-496. */
    method ForgetModuleWorkContext(rejected: string)
      requires Valid()
      modifies this`held, this`expiresAt
      ensures Valid() && Cached() == Forget(old(Cached()), rejected)
    {
      if held == rejected {
        held := "";
        expiresAt := ZERO_TIME;
      }
    }

    /**
     moduleauthority/authority.go:85-121. `others` is what the other callers left in the cache by the
     time this call takes the mutex again after a rejection.
     */
    method CallAsModule(first: Turn, answer: Code, others: Cache, second: Turn, retried: Code)
      returns (r: Result<(), CallError>, sent: seq<string>)
      requires Valid() && readers.Valid()
      requires others == EMPTY_CACHE || readers.sealed(others.held)
      modifies this`held, this`expiresAt
      ensures Valid()
      ensures !hasAuthority ==> r == Err(NoAuthority) && sent == [] && Cached() == old(Cached())
      ensures hasAuthority ==>
        var (c1, t1) := Take(readers, refreshSkew, old(Cached()), first);
        if t1.Err? then r == Err(MintFailed(t1.error)) && sent == [] && Cached() == c1
        else if answer != Unauthenticated then
          r == (if answer == Success then Ok(()) else Err(Rejected(answer))) && sent == [t1.value] && Cached() == c1
        else
          var (c2, t2) := Take(readers, refreshSkew, Forget(others, t1.value), second);
          && Cached() == c2
          && (t2.Err? ==> r == Err(MintFailed(t2.error)) && sent == [t1.value])
          && (t2.Ok? ==>
                && r == (if retried == Success then Ok(()) else Err(Rejected(retried)))
                && sent == [t1.value, t2.value])
      ensures |sent| <= 2
      ensures |sent| == 2 ==> answer == Unauthenticated
      ensures |sent| == 2 && sent[1] == sent[0] ==>
        Mint(readers, second.reply, second.mintedAt) == Ok(Issued(sent[1], expiresAt))
    {
      sent := [];
      if !hasAuthority {
        return Err(NoAuthority), sent;
      }
      var token := ModuleWorkContextLocked(first);
      if token.Err? {
        return Err(MintFailed(token.error)), sent;
      }
      var rejected := token.value;
      sent := sent + [rejected];
      if answer != Unauthenticated {
        return if answer == Success then Ok(()) else Err(Rejected(answer)), sent;
      }
      held, expiresAt := others.held, others.expiresAt;
      ForgetModuleWorkContext(rejected);
      token := ModuleWorkContextLocked(second);
      if token.Err? {
        return Err(MintFailed(token.error)), sent;
      }
      sent := sent + [token.value];
      return if retried == Success then Ok(()) else Err(Rejected(retried)), sent;
    }
  }
}
