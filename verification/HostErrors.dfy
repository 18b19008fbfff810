/**
 How a datasource call's failure becomes one of the package's errors (datasource/errors.go).

 An RPC failure is an arbitrary error: the model keeps what the classification reads of it.
 */
module HostErrors {
  import opened Prelude

  type Time = int

  datatype Delay = Delay(valid: bool, nanos: int)

  /** A structured error detail: absent, undecodable, one of the three kinds read, or any other. */
  datatype Detail =
    | NilDetail
    | Undecodable
    | ErrorInfo(reason: string, metadata: map<string, string>)
    | RetryInfo(delay: Option<Delay>)
    | BadRequest(fields: seq<string>)
    | OtherDetail(kind: string)

  datatype Code =
    | PermissionDenied
    | NotFound
    | InvalidArgument
    | ResourceExhausted
    | FailedPrecondition
    | Unavailable
    | DeadlineExceeded
    | Canceled
    | OtherCode(code: int)

  /**
   Where an error of the RPC library was made: decoded off the wire; by the client, from an HTTP status or
   a lost connection; or by the client because it does not read the response's encoding
   (internal/connectresponse/connectresponse.go:44).
   */
  datatype Origin = OnWire | InClient | UnreadEncoding

  /** A failed call: an error of the RPC library, or some other error, which may also report an unread encoding. */
  datatype RpcError =
    | Connect(code: Code, origin: Origin, details: seq<Detail>)
    | Plain(encoding: bool)
  {
    /** connect.IsWireError: only a decoded library error is one. */
    predicate Wire() {
      Connect? && origin == OnWire
    }

    predicate UnsupportedEncoding() {
      if Connect? then origin == UnreadEncoding else encoding
    }
  }

  datatype ReceiptStatus = Committed | Unknown | NotAttempted

  type Bytes = seq<byte>

  datatype Receipt = Receipt(
    effectID: Bytes,
    status: Option<ReceiptStatus>,
    committedAt: Option<Time>,
    providerStatus: int,
    output: Option<string>)

  const ZERO_RECEIPT := Receipt([], None, None, 0, None)

  datatype Error =
    | Raw(cause: RpcError)
    | OutcomeUnknown(receipt: Receipt)
    | DatasourceError(receipt: Receipt)
    | NotPermitted
    | UnknownOperation
    | EffectNotFound
    | EffectReused
    | InputError(pointer: string)
    | RateLimited(resetAt: Option<Time>)
    | DeclarationRemoved(receiptStatus: ReceiptStatus, receipt: Receipt)
    | ProviderRefused(status: int)
    | OperationRefused(reason: string)
    | ContextError
    | MintError

  /** What the detail scan keeps: of each kind, the last one. */
  datatype Found = Found(info: Option<Detail>, retry: Option<Detail>, bad: Option<Detail>)

  function Last(details: seq<Detail>, wanted: Detail -> bool): Option<Detail> {
    if details == [] then None
    else if wanted(details[|details| - 1]) then Some(details[|details| - 1])
    else Last(details[..|details| - 1], wanted)
  }

  function Select(details: seq<Detail>, wanted: Detail -> bool): seq<Detail> {
    if details == [] then []
    else
      Select(details[..|details| - 1], wanted) +
      (if wanted(details[|details| - 1]) then [details[|details| - 1]] else [])
  }

  const IS_INFO: Detail -> bool := (d: Detail) => d.ErrorInfo?
  const IS_RETRY: Detail -> bool := (d: Detail) => d.RetryInfo?
  const IS_BAD: Detail -> bool := (d: Detail) => d.BadRequest?

  function Scan(details: seq<Detail>): Found {
    Found(Last(details, IS_INFO), Last(details, IS_RETRY), Last(details, IS_BAD))
  }

  /** datasource/errors.go:183-202. */
  method ScanDetails(details: seq<Detail>) returns (found: Found)
    ensures found == Scan(details)
  {
    var info: Option<Detail>, retry: Option<Detail>, bad: Option<Detail> := None, None, None;
    for i := 0 to |details|
      invariant Found(info, retry, bad) == Scan(details[..i])
    {
      var detail := details[i];
      assert details[..i + 1][..i] == details[..i];
      match detail
      case NilDetail =>
      case Undecodable =>
      case ErrorInfo(_, _) => info := Some(detail);
      case RetryInfo(_) => retry := Some(detail);
      case BadRequest(_) => bad := Some(detail);
      case OtherDetail(_) =>
    }
    assert details[..|details|] == details;
    return Found(info, retry, bad);
  }

  /**
   The scan sees only the three kinds, each in its own order: nil, undecodable and unknown details, and how
   kinds interleave, do not matter.
   */
  lemma {:induction false} LastOfSelect(details: seq<Detail>, wanted: Detail -> bool)
    ensures Last(details, wanted) ==
      var kept := Select(details, wanted); if kept == [] then None else Some(kept[|kept| - 1])
  {
    if details != [] {
      LastOfSelect(details[..|details| - 1], wanted);
    }
  }

  lemma ScanIgnoresOrderAndNoise(a: seq<Detail>, b: seq<Detail>)
    requires Select(a, IS_INFO) == Select(b, IS_INFO)
    requires Select(a, IS_RETRY) == Select(b, IS_RETRY)
    requires Select(a, IS_BAD) == Select(b, IS_BAD)
    ensures Scan(a) == Scan(b)
  {
    LastOfSelect(a, IS_INFO);
    LastOfSelect(b, IS_INFO);
    LastOfSelect(a, IS_RETRY);
    LastOfSelect(b, IS_RETRY);
    LastOfSelect(a, IS_BAD);
    LastOfSelect(b, IS_BAD);
  }

  /** Inserting a detail no wanted kind covers leaves the selection alone. */
  lemma {:induction false} SelectAcross(a: seq<Detail>, b: seq<Detail>, wanted: Detail -> bool)
    ensures Select(a + b, wanted) == Select(a, wanted) + Select(b, wanted)
  {
    if b == [] {
      assert a + b == a;
    } else {
      assert (a + b)[..|a + b| - 1] == a + b[..|b| - 1];
      SelectAcross(a, b[..|b| - 1], wanted);
    }
  }

  function GetReason(info: Option<Detail>): string {
    if info.Some? && info.value.ErrorInfo? then info.value.reason else ""
  }

  function GetMetadata(info: Option<Detail>, key: string): string {
    if info.Some? && info.value.ErrorInfo? && key in info.value.metadata then info.value.metadata[key] else ""
  }

  // ---- Decimal text ----

  predicate IsDigit(c: char) {
    '0' <= c <= '9'
  }

  predicate AllDigits(s: string) {
    forall i | 0 <= i < |s| :: IsDigit(s[i])
  }

  function DigitValue(c: char): (d: nat)
    requires IsDigit(c)
  {
    c as int - '0' as int
  }

  function Digits(s: string): nat
    requires AllDigits(s)
  {
    if s == "" then 0 else 10 * Digits(s[..|s| - 1]) + DigitValue(s[|s| - 1])
  }

  const MAX_INT := 0x7FFF_FFFF_FFFF_FFFF

  /** strconv.Atoi: an optional sign, at least one digit, and a value a 64-bit integer holds. */
  function Atoi(s: string): Option<int> {
    var signed := s != "" && (s[0] == '+' || s[0] == '-');
    var body := if signed then s[1..] else s;
    if body == "" || !AllDigits(body) then None
    else
      var n: int := if s[0] == '-' then 0 - Digits(body) else Digits(body);
      if -MAX_INT - 1 <= n <= MAX_INT then Some(n) else None
  }

  /** datasource/errors.go:241-245: zero unless the text is the canonical form of a status from 100 to 599. */
  function ProviderStatus(encoded: string): int {
    match Atoi(encoded)
    case None => 0
    case Some(status) => if status < 100 || status > 599 || Itoa(status) != encoded then 0 else status
  }

  lemma ItoaThree(n: int)
    requires 100 <= n <= 999
    ensures Itoa(n) ==
      [('0' as int + n / 100) as char, ('0' as int + n / 10 % 10) as char, ('0' as int + n % 10) as char]
  {
    assert Itoa(n) == Itoa(n / 10) + [('0' as int + n % 10) as char];
    assert Itoa(n / 10) == Itoa(n / 100) + [('0' as int + n / 10 % 10) as char];
  }

  lemma ThreeDigits(s: string)
    requires |s| == 3 && AllDigits(s)
    ensures Digits(s) == 100 * DigitValue(s[0]) + 10 * DigitValue(s[1]) + DigitValue(s[2])
  {
    assert s[..2][..1] == s[..1];
    assert s[..1][..0] == "";
    assert Digits(s[..1]) == DigitValue(s[0]);
    assert Digits(s[..2]) == 10 * DigitValue(s[0]) + DigitValue(s[1]);
  }

  predicate IsStatusText(s: string) {
    |s| == 3 && AllDigits(s) && '1' <= s[0] <= '5'
  }

  lemma CanonicalStatus(n: int)
    requires 100 <= n <= 599
    ensures IsStatusText(Itoa(n)) && Digits(Itoa(n)) == n
  {
    ItoaThree(n);
    ThreeDigits(Itoa(n));
  }

  lemma StatusTextIsCanonical(s: string)
    requires IsStatusText(s)
    ensures 100 <= Digits(s) <= 599 && Itoa(Digits(s)) == s
  {
    hide Digits, Itoa;
    ThreeDigits(s);
    var n, a, b, c := Digits(s), DigitValue(s[0]), DigitValue(s[1]), DigitValue(s[2]);
    DigitsOfThree(a, b, c);
    ItoaThree(n);
  }

  lemma DigitsOfThree(a: nat, b: nat, c: nat)
    requires a < 10 && b < 10 && c < 10
    ensures var n := 100 * a + 10 * b + c; n / 100 == a && n / 10 % 10 == b && n % 10 == c
  {
  }

  /** The status is not zero exactly for three ASCII digits that spell a number from 100 to 599, and is that number. */
  lemma ProviderStatusIff(encoded: string)
    ensures ProviderStatus(encoded) != 0 <==> IsStatusText(encoded)
    ensures IsStatusText(encoded) ==> ProviderStatus(encoded) == Digits(encoded) && 100 <= Digits(encoded) <= 599
  {
    hide Digits, Itoa;
    if IsStatusText(encoded) {
      StatusTextIsCanonical(encoded);
    } else if ProviderStatus(encoded) != 0 {
      CanonicalStatus(ProviderStatus(encoded));
    }
  }

  // ---- Classification ----

  function ResetAt(parseTime: string -> Option<Time>, found: Found, now: Time): Option<Time> {
    match parseTime(GetMetadata(found.info, "reset_at"))
    case Some(reset) => Some(reset)
    case None =>
      if found.retry.Some? && found.retry.value.RetryInfo? && found.retry.value.delay.Some?
         && found.retry.value.delay.value.valid && found.retry.value.delay.value.nanos >= 0
      then Some(now + found.retry.value.delay.value.nanos)
      else None
  }

  function FirstField(bad: Option<Detail>): string {
    if bad.Some? && bad.value.BadRequest? && bad.value.fields != [] then bad.value.fields[0] else ""
  }

  /** datasource/errors.go:226-251. */
  function Precondition(info: Option<Detail>, effectOutcome: bool): Error {
    var reason := GetReason(info);
    if reason == "SOURCE_OPERATION_OUTCOME_UNKNOWN" then
      if effectOutcome then OutcomeUnknown(ZERO_RECEIPT) else OperationRefused(reason)
    else if reason == "SOURCE_OPERATION_DECLARATION_REMOVED" then
      var status := if GetMetadata(info, "receipt_status") == "committed" then Committed else Unknown;
      DeclarationRemoved(status, ZERO_RECEIPT.(status := Some(status)))
    else if reason == "SOURCE_PROVIDER_REFUSED" then
      ProviderRefused(ProviderStatus(GetMetadata(info, "provider_status")))
    else if reason == "SOURCE_EFFECT_REUSED" then EffectReused
    else OperationRefused(reason)
  }

  function Classify(parseTime: string -> Option<Time>, err: RpcError, found: Found, effectOutcome: bool, now: Time)
    : Error
    requires err.Connect?
  {
    match err.code
    case PermissionDenied => NotPermitted
    case NotFound => UnknownOperation
    case InvalidArgument => InputError(FirstField(found.bad))
    case ResourceExhausted =>
      if GetReason(found.info) != "DATASOURCE_RATE_LIMITED" then Raw(err)
      else RateLimited(ResetAt(parseTime, found, now))
    case FailedPrecondition => Precondition(found.info, effectOutcome)
    case Unavailable => if effectOutcome then OutcomeUnknown(ZERO_RECEIPT) else Raw(err)
    case DeadlineExceeded => if effectOutcome then OutcomeUnknown(ZERO_RECEIPT) else Raw(err)
    case Canceled => if effectOutcome then OutcomeUnknown(ZERO_RECEIPT) else Raw(err)
    case OtherCode(_) => Raw(err)
  }

  function MapError(parseTime: string -> Option<Time>, err: RpcError, effectOutcome: bool, now: Time): Error {
    if effectOutcome && !err.Wire() then OutcomeUnknown(ZERO_RECEIPT)
    else if err.UnsupportedEncoding() then DatasourceError(ZERO_RECEIPT)
    else if err.Plain? then Raw(err)
    else Classify(parseTime, err, Scan(err.details), effectOutcome, now)
  }

  /** datasource/errors.go:165-258. */
  method MapHostError(parseTime: string -> Option<Time>, err: RpcError, effectOutcome: bool, now: Time)
    returns (mapped: Error)
    ensures mapped == MapError(parseTime, err, effectOutcome, now)
  {
    if effectOutcome && !err.Wire() {
      return OutcomeUnknown(ZERO_RECEIPT);
    }
    if err.UnsupportedEncoding() {
      return DatasourceError(ZERO_RECEIPT);
    }
    if err.Plain? {
      return Raw(err);
    }
    var found := ScanDetails(err.details);
    return Classify(parseTime, err, found, effectOutcome, now);
  }

  /** The failure leaves an effect's outcome open: it did not come off the wire, or it says so by code or reason. */
  predicate LeavesUnknown(err: RpcError) {
    || !err.Wire()
    || err.code == Unavailable || err.code == DeadlineExceeded || err.code == Canceled
    || (err.code == FailedPrecondition && GetReason(Scan(err.details).info) == "SOURCE_OPERATION_OUTCOME_UNKNOWN")
  }

  predicate DeclarationGone(err: RpcError) {
    && err.Connect? && !err.UnsupportedEncoding() && err.code == FailedPrecondition
    && GetReason(Scan(err.details).info) == "SOURCE_OPERATION_DECLARATION_REMOVED"
  }

  /**
   Which failures become which of the errors that speak of an effect: an unknown outcome only for effect
   calls, an unread encoding only for management calls, and a removed declaration for either, where an effect
   call takes only the host's own word.
   */
  lemma EffectErrorsIff(parseTime: string -> Option<Time>, err: RpcError, effectOutcome: bool, now: Time)
    ensures var mapped := MapError(parseTime, err, effectOutcome, now);
      && (mapped.OutcomeUnknown? <==> effectOutcome && LeavesUnknown(err))
      && (mapped.DatasourceError? <==> !effectOutcome && err.UnsupportedEncoding())
      && (mapped.DeclarationRemoved? <==> DeclarationGone(err) && (effectOutcome ==> err.Wire()))
      && (mapped.DeclarationRemoved? ==>
            && mapped.receipt.status == Some(mapped.receiptStatus)
            && mapped.receiptStatus ==
               if GetMetadata(Scan(err.details).info, "receipt_status") == "committed" then Committed else Unknown)
  {
  }

  // ---- Every kind of error, and what it carries ----

  /** The last ErrorInfo gives this reason, or there is none and the reason is empty. */
  ghost predicate SaysReason(details: seq<Detail>, reason: string) {
    || (reason == "" && forall j | 0 <= j < |details| :: !details[j].ErrorInfo?)
    || exists k | 0 <= k < |details| ::
         && details[k].ErrorInfo? && details[k].reason == reason
         && forall j | k < j < |details| :: !details[j].ErrorInfo?
  }

  /** The last ErrorInfo has this value under the key, empty when it or the key is missing. */
  ghost predicate SaysMetadata(details: seq<Detail>, key: string, value: string) {
    || (value == "" && forall j | 0 <= j < |details| :: !details[j].ErrorInfo?)
    || exists k | 0 <= k < |details| ::
         && details[k].ErrorInfo? && (forall j | k < j < |details| :: !details[j].ErrorInfo?)
         && value == if key in details[k].metadata then details[k].metadata[key] else ""
  }

  /** The first field of the last BadRequest is this one, or there is no field and the name is empty. */
  ghost predicate SaysField(details: seq<Detail>, field: string) {
    || (field == "" && forall j | 0 <= j < |details| :: !details[j].BadRequest?)
    || exists k | 0 <= k < |details| ::
         && details[k].BadRequest? && (forall j | k < j < |details| :: !details[j].BadRequest?)
         && field == if details[k].fields == [] then "" else details[k].fields[0]
  }

  /** The last RetryInfo asks for this delay: a valid one that is not negative, or none. */
  ghost predicate SaysDelay(details: seq<Detail>, nanos: Option<int>) {
    || (nanos == None && forall j | 0 <= j < |details| :: !details[j].RetryInfo?)
    || exists k | 0 <= k < |details| ::
         && details[k].RetryInfo? && (forall j | k < j < |details| :: !details[j].RetryInfo?)
         && match details[k].delay
            case None => nanos == None
            case Some(delay) => nanos == if delay.valid && delay.nanos >= 0 then Some(delay.nanos) else None
  }

  lemma {:induction false} LastIsLast(details: seq<Detail>, wanted: Detail -> bool)
    ensures match Last(details, wanted)
      case None => forall j | 0 <= j < |details| :: !wanted(details[j])
      case Some(d) => exists k | 0 <= k < |details| ::
        details[k] == d && wanted(d) && forall j | k < j < |details| :: !wanted(details[j])
  {
    if details != [] && !wanted(details[|details| - 1]) {
      LastIsLast(details[..|details| - 1], wanted);
      if Last(details, wanted).Some? {
        var d, front := Last(details, wanted).value, details[..|details| - 1];
        var k :| 0 <= k < |front| && front[k] == d && forall j | k < j < |front| :: !wanted(front[j]);
        assert details[k] == d;
        assert forall j | k < j < |details| :: !wanted(details[j]);
      }
    } else if details != [] {
      assert wanted(details[|details| - 1]);
    }
  }

  lemma ReasonSaid(details: seq<Detail>, reason: string)
    ensures SaysReason(details, reason) <==> GetReason(Scan(details).info) == reason
  {
    LastIsLast(details, IS_INFO);
  }

  lemma MetadataSaid(details: seq<Detail>, key: string, value: string)
    ensures SaysMetadata(details, key, value) <==> GetMetadata(Scan(details).info, key) == value
  {
    LastIsLast(details, IS_INFO);
  }

  lemma FieldSaid(details: seq<Detail>, field: string)
    ensures SaysField(details, field) <==> FirstField(Scan(details).bad) == field
  {
    LastIsLast(details, IS_BAD);
  }

  /** When a rate limit ends: at the host's readable time, or after the delay the host asked for. */
  ghost predicate ResetsAt(
      parseTime: string -> Option<Time>, details: seq<Detail>, now: Time, resetAt: Option<Time>)
  {
    exists text :: SaysMetadata(details, "reset_at", text) &&
      if parseTime(text).Some? then resetAt == parseTime(text)
      else if resetAt.Some? then SaysDelay(details, Some(resetAt.value - now))
      else SaysDelay(details, None)
  }

  lemma ResetSaid(parseTime: string -> Option<Time>, details: seq<Detail>, now: Time)
    ensures ResetsAt(parseTime, details, now, ResetAt(parseTime, Scan(details), now))
  {
    LastIsLast(details, IS_RETRY);
    var text := GetMetadata(Scan(details).info, "reset_at");
    MetadataSaid(details, "reset_at", text);
    var resetAt := ResetAt(parseTime, Scan(details), now);
    if parseTime(text).None? {
      assert if resetAt.Some? then SaysDelay(details, Some(resetAt.value - now)) else SaysDelay(details, None);
    }
  }

  /** The failure's code is judged: it is an error of the RPC library, and for an effect call one off the wire. */
  predicate Judged(err: RpcError, effectOutcome: bool) {
    err.Connect? && if effectOutcome then err.origin == OnWire else err.origin != UnreadEncoding
  }

  const SAYS_REMOVED := "SOURCE_OPERATION_DECLARATION_REMOVED"
  const SAYS_UNKNOWN := "SOURCE_OPERATION_OUTCOME_UNKNOWN"
  const SAYS_REFUSED := "SOURCE_PROVIDER_REFUSED"
  const SAYS_REUSED := "SOURCE_EFFECT_REUSED"
  const SAYS_LIMITED := "DATASOURCE_RATE_LIMITED"

  /** Which refusals by code alone are reported as what. */
  lemma CodesIff(parseTime: string -> Option<Time>, err: RpcError, effectOutcome: bool, now: Time)
    ensures var mapped := MapError(parseTime, err, effectOutcome, now); var judged := Judged(err, effectOutcome);
      && (mapped.NotPermitted? <==> judged && err.code == PermissionDenied)
      && (mapped.UnknownOperation? <==> judged && err.code == NotFound)
      && (mapped.InputError? <==> judged && err.code == InvalidArgument)
      && (mapped.InputError? ==> SaysField(err.details, mapped.pointer))
      && (mapped.RateLimited? <==>
            judged && err.code == ResourceExhausted && SaysReason(err.details, SAYS_LIMITED))
      && (mapped.RateLimited? ==> ResetsAt(parseTime, err.details, now, mapped.resetAt))
      && !mapped.EffectNotFound? && !mapped.ContextError? && !mapped.MintError?
  {
    hide Scan, GetMetadata, ResetAt, FirstField, SaysReason, SaysField, ResetsAt, GetReason, Precondition;
    if err.Connect? {
      ReasonSaid(err.details, SAYS_LIMITED);
      FieldSaid(err.details, FirstField(Scan(err.details).bad));
      ResetSaid(parseTime, err.details, now);
    }
    PreconditionKinds(if err.Connect? then Scan(err.details).info else None, effectOutcome);
  }

  lemma PreconditionKinds(info: Option<Detail>, effectOutcome: bool)
    ensures var e := Precondition(info, effectOutcome);
      e.OutcomeUnknown? || e.DeclarationRemoved? || e.ProviderRefused? || e.EffectReused? || e.OperationRefused?
  {
  }

  /** Which failed preconditions are reported as what, by the host's reason. */
  lemma PreconditionsIff(parseTime: string -> Option<Time>, err: RpcError, effectOutcome: bool, now: Time)
    ensures var mapped := MapError(parseTime, err, effectOutcome, now);
      var failed := Judged(err, effectOutcome) && err.code == FailedPrecondition;
      && (mapped.EffectReused? <==> failed && SaysReason(err.details, SAYS_REUSED))
      && (mapped.ProviderRefused? <==> failed && SaysReason(err.details, SAYS_REFUSED))
      && (mapped.ProviderRefused? ==>
            exists text :: SaysMetadata(err.details, "provider_status", text)
              && mapped.status == if IsStatusText(text) then Digits(text) else 0)
      && (mapped.DeclarationRemoved? <==> failed && SaysReason(err.details, SAYS_REMOVED))
      && (mapped.DeclarationRemoved? ==>
            mapped.receiptStatus ==
              if SaysMetadata(err.details, "receipt_status", "committed") then Committed else Unknown)
      && (mapped.OutcomeUnknown? && failed <==> failed && effectOutcome && SaysReason(err.details, SAYS_UNKNOWN))
      && (mapped.OperationRefused? <==>
            && failed && !SaysReason(err.details, SAYS_REUSED) && !SaysReason(err.details, SAYS_REFUSED)
            && !SaysReason(err.details, SAYS_REMOVED)
            && (effectOutcome ==> !SaysReason(err.details, SAYS_UNKNOWN)))
      && (mapped.OperationRefused? ==> SaysReason(err.details, mapped.reason))
  {
    hide Scan, GetMetadata, SaysReason, SaysMetadata, GetReason, ProviderStatus, IsStatusText, Digits;
    if err.Connect? && err.code == FailedPrecondition {
      var details := err.details;
      ReasonSaid(details, SAYS_REUSED);
      ReasonSaid(details, SAYS_REFUSED);
      ReasonSaid(details, SAYS_REMOVED);
      ReasonSaid(details, SAYS_UNKNOWN);
      ReasonSaid(details, GetReason(Scan(details).info));
      MetadataSaid(details, "receipt_status", "committed");
      var text := GetMetadata(Scan(details).info, "provider_status");
      MetadataSaid(details, "provider_status", text);
      ProviderStatusIff(text);
    }
  }

  /** What is left as it came: other errors of a management call, other codes, and limits and losses nobody explains. */
  lemma RawIff(parseTime: string -> Option<Time>, err: RpcError, effectOutcome: bool, now: Time)
    ensures MapError(parseTime, err, effectOutcome, now) == Raw(err) <==>
      || (err.Plain? && !err.encoding && !effectOutcome)
      || (Judged(err, effectOutcome)
          && match err.code
             case OtherCode(_) => true
             case ResourceExhausted => !SaysReason(err.details, SAYS_LIMITED)
             case Unavailable => !effectOutcome
             case DeadlineExceeded => !effectOutcome
             case Canceled => !effectOutcome
             case _ => false)
    ensures var mapped := MapError(parseTime, err, effectOutcome, now); mapped.Raw? ==> mapped == Raw(err)
  {
    hide Scan, SaysReason, GetReason, GetMetadata;
    if err.Connect? {
      ReasonSaid(err.details, SAYS_LIMITED);
    }
  }

  /** Errors that differ only in what the scan ignores are classified alike. */
  lemma NoiseDoesNotChangeClass(
      parseTime: string -> Option<Time>, err: RpcError, details: seq<Detail>, effectOutcome: bool, now: Time)
    requires err.Connect?
    requires Select(err.details, IS_INFO) == Select(details, IS_INFO)
    requires Select(err.details, IS_RETRY) == Select(details, IS_RETRY)
    requires Select(err.details, IS_BAD) == Select(details, IS_BAD)
    ensures var a := MapError(parseTime, err, effectOutcome, now);
      var b := MapError(parseTime, err.(details := details), effectOutcome, now);
      a == b || (a == Raw(err) && b == Raw(err.(details := details)))
  {
    ScanIgnoresOrderAndNoise(err.details, details);
  }

  /** A nil, undecodable or unknown detail inserted anywhere is ignored. */
  lemma InsertedNoiseIsIgnored(a: seq<Detail>, b: seq<Detail>, noise: Detail)
    requires noise.NilDetail? || noise.Undecodable? || noise.OtherDetail?
    ensures Scan(a + [noise] + b) == Scan(a + b)
  {
    SelectNoise(a, b, noise, IS_INFO);
    SelectNoise(a, b, noise, IS_RETRY);
    SelectNoise(a, b, noise, IS_BAD);
    ScanIgnoresOrderAndNoise(a + [noise] + b, a + b);
  }

  lemma SelectNoise(a: seq<Detail>, b: seq<Detail>, noise: Detail, wanted: Detail -> bool)
    requires !wanted(noise)
    ensures Select(a + [noise] + b, wanted) == Select(a + b, wanted)
  {
    SelectAcross(a + [noise], b, wanted);
    SelectAcross(a, [noise], wanted);
    SelectAcross(a, b, wanted);
    assert [noise][..0] == [];
  }

  /** Neighbours of different kinds may be swapped. */
  lemma SwappedKindsAreIgnored(a: seq<Detail>, x: Detail, y: Detail, b: seq<Detail>)
    requires !(x.ErrorInfo? && y.ErrorInfo?) && !(x.RetryInfo? && y.RetryInfo?) && !(x.BadRequest? && y.BadRequest?)
    ensures Scan(a + [x, y] + b) == Scan(a + [y, x] + b)
  {
    SelectSwap(a, x, y, b, IS_INFO);
    SelectSwap(a, x, y, b, IS_RETRY);
    SelectSwap(a, x, y, b, IS_BAD);
    ScanIgnoresOrderAndNoise(a + [x, y] + b, a + [y, x] + b);
  }

  lemma SelectSwap(a: seq<Detail>, x: Detail, y: Detail, b: seq<Detail>, wanted: Detail -> bool)
    requires !(wanted(x) && wanted(y))
    ensures Select(a + [x, y] + b, wanted) == Select(a + [y, x] + b, wanted)
  {
    hide Select;
    SelectAcross(a + [x, y], b, wanted);
    SelectAcross(a + [y, x], b, wanted);
    SelectAcross(a, [x, y], wanted);
    SelectAcross(a, [y, x], wanted);
    SelectTwo(x, y, wanted);
    SelectTwo(y, x, wanted);
  }

  lemma SelectTwo(x: Detail, y: Detail, wanted: Detail -> bool)
    ensures Select([x, y], wanted) == (if wanted(x) then [x] else []) + (if wanted(y) then [y] else [])
  {
    assert [x, y][..|[x, y]| - 1] == [x] && [x][..|[x]| - 1] == [];
    assert Select([x], wanted) == if wanted(x) then [x] else [];
  }
}
