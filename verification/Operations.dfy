/**
 Invoking and looking up an effect at the host (datasource/operations.go): what is sent, and what is
 claimed about the effect whatever the host or the transport does.
 */
module Operations {
  import opened Prelude
  import opened HostErrors

  /** The library decisions the client takes: JSON objects, host times, UTF-8. */
  datatype Codec = Codec(isObject: string -> bool, parseTime: string -> Option<Time>, validUtf8: Bytes -> bool)

  datatype WireReceipt = WireReceipt(
    effectID: Bytes,
    status: string,
    committedAt: string,
    providerStatus: int,
    outputJson: string)

  datatype Response = Response(receipt: Option<WireReceipt>, outputJson: string)

  datatype Answer = Responds(response: Response) | Fails(error: RpcError)

  /** The effect ID travels as a message field and as a header. */
  datatype Request = Request(
    orgID: string,
    sourceID: string,
    operation: string,
    inputJson: string,
    effectID: Bytes,
    header: Bytes)

  datatype OpResult = OpResult(output: Option<string>, receipt: Receipt)

  function UnknownReceipt(id: Bytes): Receipt {
    Receipt(id, Some(Unknown), None, 0, None)
  }

  // ---- Effect IDs ----

  const SPACE: byte := 0x20
  const TAB: byte := 0x09
  const DELETE: byte := 0x7f

  predicate Printable(b: byte) {
    b >= SPACE && b != DELETE
  }

  /** 1 to 128 bytes of UTF-8 without control bytes or surrounding spaces. */
  predicate ValidEffectID(c: Codec, id: Bytes) {
    && 0 < |id| <= 128 && c.validUtf8(id)
    && id[0] != SPACE && id[|id| - 1] != SPACE
    && forall i | 0 <= i < |id| :: Printable(id[i])
  }

  /** datasource/operations.go:248-262. */
  method ValidateEffectID(c: Codec, id: Bytes) returns (valid: bool)
    ensures valid <==> ValidEffectID(c, id)
  {
    valid := |id| > 0 && |id| <= 128 && c.validUtf8(id);
    if valid {
      valid := id[0] != SPACE && id[|id| - 1] != SPACE;
    }
    var i := 0;
    while i < |id| && valid
      invariant 0 <= i <= |id|
      invariant valid ==> 0 < |id| <= 128 && c.validUtf8(id) && id[0] != SPACE && id[|id| - 1] != SPACE
      invariant valid ==> forall j | 0 <= j < i :: Printable(id[j])
      invariant !valid ==> !ValidEffectID(c, id)
    {
      valid := id[i] >= 0x20 && id[i] != 0x7f;
      i := i + 1;
    }
  }

  /** A field value as its recipient reads it: without surrounding whitespace (section 5.5 of RFC 9110). */
  function TrimFieldValue(v: Bytes): Bytes
    decreases |v|
  {
    if v == [] then v
    else if v[0] == SPACE || v[0] == TAB then TrimFieldValue(v[1..])
    else if v[|v| - 1] == SPACE || v[|v| - 1] == TAB then TrimFieldValue(v[..|v| - 1])
    else v
  }

  predicate Blank(v: Bytes) {
    forall i | 0 <= i < |v| :: v[i] == 0x20 || v[i] == 0x09
  }

  predicate Around(v: Bytes, before: Bytes, inner: Bytes, after: Bytes) {
    v == before + inner + after && Blank(before) && Blank(after)
  }

  lemma AroundMore(x: Bytes, v: Bytes, y: Bytes, before: Bytes, inner: Bytes, after: Bytes)
    requires Blank(x) && Blank(y) && Around(v, before, inner, after)
    ensures Around(x + v + y, x + before, inner, after + y)
  {
    var all := x + v + y;
    assert all == (x + before) + inner + (after + y);
  }

  /** Exactly the spaces and tabs around a value go. */
  lemma {:induction false} FieldValueIs(v: Bytes) returns (before: Bytes, after: Bytes)
    ensures var inner := TrimFieldValue(v);
      && Around(v, before, inner, after)
      && (inner != [] ==> inner[0] !in {0x20, 0x09} && inner[|inner| - 1] !in {0x20, 0x09})
    decreases |v|
  {
    hide Around;
    if v != [] && (v[0] == SPACE || v[0] == TAB) {
      before, after := FieldValueIs(v[1..]);
      AroundMore([v[0]], v[1..], [], before, TrimFieldValue(v), after);
      assert v == [v[0]] + v[1..] + [];
      before, after := [v[0]] + before, after + [];
    } else if v != [] && (v[|v| - 1] == SPACE || v[|v| - 1] == TAB) {
      before, after := FieldValueIs(v[..|v| - 1]);
      AroundMore([], v[..|v| - 1], [v[|v| - 1]], before, TrimFieldValue(v), after);
      assert v == [] + v[..|v| - 1] + [v[|v| - 1]];
      before, after := [] + before, after + [v[|v| - 1]];
    } else {
      before, after := [], [];
      assert Around(v, [], v, []) by {
        NothingAround(v);
      }
    }
  }

  lemma NothingAround(v: Bytes)
    ensures Around(v, [], v, [])
  {
  }

  /** Of the IDs made of printable bytes, exactly those without surrounding spaces read the same from the header. */
  lemma HeaderKeepsIff(id: Bytes)
    requires id != [] && forall i | 0 <= i < |id| :: Printable(id[i])
    ensures TrimFieldValue(id) == id <==> id[0] != SPACE && id[|id| - 1] != SPACE
  {
    if id[0] == SPACE {
      TrimShrinks(id[1..]);
    } else if id[|id| - 1] == SPACE {
      TrimShrinks(id[..|id| - 1]);
    }
  }

  lemma {:induction false} TrimShrinks(v: Bytes)
    ensures |TrimFieldValue(v)| <= |v|
    decreases |v|
  {
    if v != [] {
      if v[0] == SPACE || v[0] == TAB {
        TrimShrinks(v[1..]);
      } else if v[|v| - 1] == SPACE || v[|v| - 1] == TAB {
        TrimShrinks(v[..|v| - 1]);
      }
    }
  }

  /** The textual form of a UUID: 36 lower-case hexadecimal digits and hyphens. */
  predicate IsUuidText(id: Bytes) {
    |id| == 36 && forall i | 0 <= i < 36 :: 0x30 <= id[i] <= 0x39 || 0x61 <= id[i] <= 0x66 || id[i] == 0x2d
  }

  // ---- Receipts ----

  /** datasource/operations.go:225-246. */
  function OperationReceipt(c: Codec, wire: Option<WireReceipt>, id: Bytes): Option<Receipt> {
    match wire
    case None => None
    case Some(w) =>
      if w.effectID != id then None
      else if w.status != "committed" && w.status != "unknown" then None
      else
        var status := if w.status == "committed" then Committed else Unknown;
        var r := Receipt(id, Some(status), None, w.providerStatus, None);
        if w.committedAt == "" then Some(r)
        else match c.parseTime(w.committedAt)
          case None => None
          case Some(t) => Some(r.(committedAt := Some(t)))
  }

  /** The output saved in the receipt, empty without one. */
  function SavedOutput(response: Response): string {
    if response.receipt.Some? then response.receipt.value.outputJson else ""
  }

  /** datasource/operations.go:139-150. */
  method CommittedOutput(c: Codec, response: Response, receipt: Receipt)
    returns (kept: Receipt, output: Result<string, Error>)
    ensures output.Ok? <==> c.isObject(SavedOutput(response)) && c.isObject(response.outputJson)
    ensures output.Ok? ==> output.value == response.outputJson
    ensures output.Err? ==> output.error == DatasourceError(kept)
    ensures kept == receipt.(output := if c.isObject(SavedOutput(response)) then Some(SavedOutput(response)) else None)
  {
    var saved := SavedOutput(response);
    if !c.isObject(saved) {
      kept := receipt.(output := None);
      return kept, Err(DatasourceError(kept));
    }
    kept := receipt.(output := Some(saved));
    if !c.isObject(response.outputJson) {
      return kept, Err(DatasourceError(kept));
    }
    return kept, Ok(response.outputJson);
  }

  function Outputs(c: Codec, response: Response, receipt: Receipt): (Receipt, Result<string, Error>) {
    var saved := SavedOutput(response);
    if !c.isObject(saved) then
      var kept := receipt.(output := None);
      (kept, Err(DatasourceError(kept)))
    else
      var kept := receipt.(output := Some(saved));
      (kept, if c.isObject(response.outputJson) then Ok(response.outputJson) else Err(DatasourceError(kept)))
  }

  // ---- Invoke ----

  /** What Invoke makes of the host's answer to its one RPC. */
  function InvokeOutcome(c: Codec, id: Bytes, answer: Answer, now: Time): (OpResult, Option<Error>) {
    var unknown := OpResult(None, UnknownReceipt(id));
    match answer
    case Fails(err) =>
      (match MapError(c.parseTime, err, true, now)
       case OutcomeUnknown(_) => (unknown, Some(OutcomeUnknown(unknown.receipt)))
       case DeclarationRemoved(status, _) =>
         var receipt := unknown.receipt.(status := Some(status));
         (OpResult(None, receipt), Some(DeclarationRemoved(status, receipt)))
       case mapped => (unknown, Some(mapped)))
    case Responds(response) =>
      match OperationReceipt(c, response.receipt, id)
      case None => (unknown, Some(OutcomeUnknown(unknown.receipt)))
      case Some(receipt) =>
        if receipt.status == Some(Unknown) then (OpResult(None, receipt), Some(OutcomeUnknown(receipt)))
        else
          var (kept, output) := Outputs(c, response, receipt);
          if output.Ok? then (OpResult(Some(output.value), kept), None)
          else (OpResult(None, kept), Some(output.error))
  }

  datatype InvokeOption = WithEffectID(id: Bytes) | WithDeadline(deadline: Time)

  /** The effect ID the options settle on, if they name one: the last one given. */
  function ChosenID(options: seq<InvokeOption>): Option<Bytes> {
    if options == [] then None
    else if options[|options| - 1].WithEffectID? then Some(options[|options| - 1].id)
    else ChosenID(options[..|options| - 1])
  }

  function ChosenDeadline(options: seq<InvokeOption>): Option<Time> {
    if options == [] then None
    else if options[|options| - 1].WithDeadline? then Some(options[|options| - 1].deadline)
    else ChosenDeadline(options[..|options| - 1])
  }

  /** The caller's context: still live, canceled, or past its deadline. */
  datatype Context = Live | CanceledContext | ExpiredContext

  /** datasource/operations.go:264-270. */
  function OperationContextError(context: Context): Option<Error> {
    match context
    case Live => None
    case CanceledContext => Some(ContextError)
    case ExpiredContext => Some(InputError(""))
  }

  function Narrowed(context: Context, deadline: Option<Time>, now: Time): Context {
    if context.Live? && deadline.Some? && deadline.value <= now then ExpiredContext else context
  }

  /**
   datasource/operations.go:23-80. `input` is the marshalled input, `minted` a fresh UUID's text; both
   may have failed. `host` answers whatever is sent.
   */
  method Invoke(c: Codec, host: Request -> Answer, context: Context, now: Time, orgID: string, sourceID: string,
                operation: string, input: Option<string>, minted: Option<Bytes>, options: seq<InvokeOption>)
    returns (result: Option<OpResult>, err: Option<Error>, sent: seq<Request>)
    requires minted.Some? ==> IsUuidText(minted.value)
    ensures result.None? <==> sent == []
    ensures result.None? ==> err.Some?
    ensures result.None? <==>
      || input.None? || !c.isObject(input.value)
      || (if ChosenID(options).Some? then !ValidEffectID(c, ChosenID(options).value) else minted.None?)
      || Narrowed(context, ChosenDeadline(options), now) != Live
    ensures sent != [] ==>
      && |sent| == 1
      && (sent[0].orgID, sent[0].sourceID, sent[0].operation) == (orgID, sourceID, operation)
      && Some(sent[0].inputJson) == input
      && Some(sent[0].effectID) == (if ChosenID(options).Some? then ChosenID(options) else minted)
      && TrimFieldValue(sent[0].header) == sent[0].effectID
      && result.value.receipt.effectID == sent[0].effectID
      && (result.value, err) == InvokeOutcome(c, sent[0].effectID, host(sent[0]), now)
      && (result.value.receipt.status == Some(Committed) <==> CommitEvidence(c, sent[0].effectID, host(sent[0])))
      && (err.Some? && ErrorReceipt(err.value).Some? ==> ErrorReceipt(err.value).value == result.value.receipt)
      && Tells(c, sent[0].effectID, host(sent[0]), result.value.receipt)
    ensures sent == [] ==>
      err == Some(
        if input.None? || !c.isObject(input.value) then InputError("")
        else if ChosenID(options).Some? && !ValidEffectID(c, ChosenID(options).value) then InputError("")
        else if ChosenID(options).None? && minted.None? then MintError
        else if context == CanceledContext then ContextError
        else InputError(""))
    ensures sent != [] ==>
      context == Live && (ChosenDeadline(options).Some? ==> now < ChosenDeadline(options).value)
  {
    hide MapError, OperationReceipt, CommitEvidence, ErrorReceipt, TrimFieldValue, Tells;
    sent := [];
    if input.None? || !c.isObject(input.value) {
      return None, Some(InputError("")), sent;
    }
    var chosen: Option<Bytes>, deadline: Option<Time> := None, None;
    for i := 0 to |options|
      invariant chosen == ChosenID(options[..i]) && deadline == ChosenDeadline(options[..i])
    {
      assert options[..i + 1][..i] == options[..i];
      match options[i]
      case WithEffectID(given) => chosen := Some(given);
      case WithDeadline(given) => deadline := Some(given);
    }
    assert options[..|options|] == options;
    var id: Bytes;
    if chosen.Some? {
      var valid := ValidateEffectID(c, chosen.value);
      if !valid {
        return None, Some(InputError("")), sent;
      }
      id := chosen.value;
    } else {
      if minted.None? {
        return None, Some(MintError), sent;
      }
      id := minted.value;
    }
    HeaderKeepsIff(id);
    var refused := OperationContextError(Narrowed(context, deadline, now));
    if refused.Some? {
      return None, refused, sent;
    }
    var receipt := UnknownReceipt(id);
    var request := Request(orgID, sourceID, operation, input.value, id, id);
    sent := sent + [request];
    var answer := host(request);
    CommittedIffEvidence(c, id, answer, now);
    ReceiptsTell(c, id, answer, now);
    ReceiptsAgree(c, id, answer, now);
    match answer
    case Fails(error) =>
      var mapped := MapHostError(c.parseTime, error, true, now);
      match mapped {
        case OutcomeUnknown(_) => mapped := OutcomeUnknown(receipt);
        case DeclarationRemoved(status, _) =>
          receipt := receipt.(status := Some(status));
          mapped := DeclarationRemoved(status, receipt);
        case _ =>
      }
      return Some(OpResult(None, receipt)), Some(mapped), sent;
    case Responds(response) =>
      var evidence := OperationReceipt(c, response.receipt, id);
      if evidence.None? {
        return Some(OpResult(None, receipt)), Some(OutcomeUnknown(receipt)), sent;
      }
      receipt := evidence.value;
      if receipt.status == Some(Unknown) {
        return Some(OpResult(None, receipt)), Some(OutcomeUnknown(receipt)), sent;
      }
      var kept, output := CommittedOutput(c, response, receipt);
      match output
      case Ok(value) => return Some(OpResult(Some(value), kept)), None, sent;
      case Err(e) => return Some(OpResult(None, kept)), Some(e), sent;
  }

  // ---- Lookup ----

  /** What Lookup makes of the host's answer to its one RPC. */
  function LookupOutcome(c: Codec, id: Bytes, answer: Answer, now: Time): (Option<Receipt>, Option<Error>) {
    var unknown := UnknownReceipt(id);
    match answer
    case Fails(err) =>
      if !err.Wire() then (Some(unknown), Some(OutcomeUnknown(unknown)))
      else if err.code == NotFound then (Some(unknown.(status := Some(NotAttempted))), Some(EffectNotFound))
      else if err.code == DeadlineExceeded || err.code == Canceled then (None, Some(Raw(err)))
      else (match MapError(c.parseTime, err, true, now)
        case OutcomeUnknown(_) => (Some(unknown), Some(OutcomeUnknown(unknown)))
        case DeclarationRemoved(status, receipt) =>
          var named := receipt.(effectID := id);
          (Some(named), Some(DeclarationRemoved(status, named)))
        case mapped => (None, Some(mapped)))
    case Responds(response) =>
      match OperationReceipt(c, response.receipt, id)
      case None => (Some(unknown), Some(OutcomeUnknown(unknown)))
      case Some(receipt) =>
        if receipt.status == Some(Unknown) then (Some(receipt), Some(OutcomeUnknown(receipt)))
        else
          var (kept, output) := Outputs(c, response, receipt);
          (Some(kept), if output.Ok? then None else Some(output.error))
  }

  /** datasource/operations.go:91-135. */
  method Lookup(c: Codec, host: Bytes -> Answer, context: Context, now: Time, id: Bytes)
    returns (receipt: Option<Receipt>, err: Option<Error>, sent: seq<Bytes>)
    ensures sent == [] <==> !ValidEffectID(c, id) || context != Live
    ensures sent == [] ==> receipt.None? && err.Some?
    ensures sent != [] ==>
      && sent == [id] && (receipt, err) == LookupOutcome(c, id, host(id), now)
      && (receipt.Some? && receipt.value.status == Some(Committed) <==> CommitEvidence(c, id, host(id)))
      && (err.Some? && ErrorReceipt(err.value).Some? ==> ErrorReceipt(err.value) == receipt)
      && (receipt.Some? ==> Tells(c, id, host(id), receipt.value))
      && (host(id).Responds? ==> receipt.Some?)
    ensures sent == [] ==>
      err == Some(if ValidEffectID(c, id) && context == CanceledContext then ContextError else InputError(""))
  {
    hide MapError, OperationReceipt, CommitEvidence, ErrorReceipt, Tells;
    sent := [];
    var valid := ValidateEffectID(c, id);
    if !valid {
      return None, Some(InputError("")), sent;
    }
    var refused := OperationContextError(context);
    if refused.Some? {
      return None, refused, sent;
    }
    sent := sent + [id];
    CommittedIffEvidence(c, id, host(id), now);
    ReceiptsTell(c, id, host(id), now);
    ReceiptsAgree(c, id, host(id), now);
    var unknown := UnknownReceipt(id);
    match host(id)
    case Fails(error) =>
      if !error.Wire() {
        return Some(unknown), Some(OutcomeUnknown(unknown)), sent;
      }
      if error.code == NotFound {
        return Some(unknown.(status := Some(NotAttempted))), Some(EffectNotFound), sent;
      }
      if error.code == DeadlineExceeded || error.code == Canceled {
        return None, Some(Raw(error)), sent;
      }
      var mapped := MapHostError(c.parseTime, error, true, now);
      match mapped {
        case OutcomeUnknown(_) => return Some(unknown), Some(OutcomeUnknown(unknown)), sent;
        case DeclarationRemoved(status, partial) =>
          var named := partial.(effectID := id);
          return Some(named), Some(DeclarationRemoved(status, named)), sent;
        case _ => return None, Some(mapped), sent;
      }
    case Responds(response) =>
      var evidence := OperationReceipt(c, response.receipt, id);
      if evidence.None? {
        return Some(unknown), Some(OutcomeUnknown(unknown)), sent;
      }
      if evidence.value.status == Some(Unknown) {
        return evidence, Some(OutcomeUnknown(evidence.value)), sent;
      }
      var kept, output := CommittedOutput(c, response, evidence.value);
      return Some(kept), match output case Ok(_) => None case Err(e) => Some(e), sent;
  }

  // ---- What is claimed about an effect ----

  /** The response carries a receipt for exactly this ID that says committed, with no commit time or a readable one. */
  predicate CommittedReceipt(c: Codec, id: Bytes, response: Response) {
    && response.receipt.Some?
    && response.receipt.value.effectID == id
    && response.receipt.value.status == "committed"
    && (response.receipt.value.committedAt == "" || c.parseTime(response.receipt.value.committedAt).Some?)
  }

  /** The host refused over the wire because the declaration is gone, and said the effect had committed. */
  predicate RemovedAfterCommit(err: RpcError) {
    && err.Wire() && err.code == FailedPrecondition
    && var info := Scan(err.details).info;
       GetReason(info) == "SOURCE_OPERATION_DECLARATION_REMOVED" && GetMetadata(info, "receipt_status") == "committed"
  }

  predicate CommitEvidence(c: Codec, id: Bytes, answer: Answer) {
    match answer
    case Responds(response) => CommittedReceipt(c, id, response)
    case Fails(err) => RemovedAfterCommit(err)
  }

  /** The wire receipt is for this ID, has a status this client knows, and no commit time or a readable one. */
  predicate Acceptable(c: Codec, id: Bytes, w: WireReceipt) {
    && w.effectID == id && (w.status == "committed" || w.status == "unknown")
    && (w.committedAt == "" || c.parseTime(w.committedAt).Some?)
  }

  /** The receipt tells what the host's answer tells of the effect, field by field, and nothing else. */
  ghost predicate Tells(c: Codec, id: Bytes, answer: Answer, r: Receipt) {
    && r.effectID == id
    && match answer
       case Responds(response) =>
         if response.receipt.Some? && Acceptable(c, id, response.receipt.value) then
           var w := response.receipt.value;
           && r.providerStatus == w.providerStatus
           && r.status == Some(if w.status == "committed" then Committed else Unknown)
           && r.committedAt == (if w.committedAt == "" then None else Some(c.parseTime(w.committedAt).value))
           && r.output == (if w.status == "committed" && c.isObject(w.outputJson) then Some(w.outputJson) else None)
         else r.status == Some(Unknown) && r.committedAt == None && r.providerStatus == 0 && r.output == None
       case Fails(err) => r.committedAt == None && r.providerStatus == 0 && r.output == None
  }

  /** Every receipt returned carries the status, commit time, provider status and output the host gave, or none. */
  lemma ReceiptsTell(c: Codec, id: Bytes, answer: Answer, now: Time)
    ensures Tells(c, id, answer, InvokeOutcome(c, id, answer, now).0.receipt)
    ensures var receipt := LookupOutcome(c, id, answer, now).0; receipt.Some? ==> Tells(c, id, answer, receipt.value)
    ensures answer.Responds? ==> LookupOutcome(c, id, answer, now).0.Some?
  {
    hide MapError, CommitEvidence;
    if answer.Fails? {
      GoneIsBlank(c, answer.error, now);
    }
  }

  lemma GoneIsBlank(c: Codec, err: RpcError, now: Time)
    ensures var mapped := MapError(c.parseTime, err, true, now);
      mapped.DeclarationRemoved? ==>
        mapped.receipt == Receipt([], Some(mapped.receiptStatus), None, 0, None) && mapped.receiptStatus != NotAttempted
  {
  }

  /** The status a failure leaves: its own word on a removed declaration, NotFound for Lookup, and unknown otherwise. */
  lemma FailureStatus(c: Codec, id: Bytes, err: RpcError, now: Time)
    ensures InvokeOutcome(c, id, Fails(err), now).0.receipt.status
         == Some(if RemovedAfterCommit(err) then Committed else Unknown)
    ensures var receipt := LookupOutcome(c, id, Fails(err), now).0;
      && (receipt.Some? ==> receipt.value.status == Some(
            if RemovedAfterCommit(err) then Committed
            else if err.Wire() && err.code == NotFound then NotAttempted
            else Unknown))
      && (receipt.Some? <==>
            || (LeavesUnknown(err) && !Expired(err)) || (err.Wire() && (err.code == NotFound || DeclarationGone(err))))
  {
    GoneIsBlank(c, err, now);
    EffectErrorsIff(c.parseTime, err, true, now);
  }

  /** Invoke and Lookup report COMMITTED exactly on the host's own evidence. */
  lemma CommittedIffEvidence(c: Codec, id: Bytes, answer: Answer, now: Time)
    ensures InvokeOutcome(c, id, answer, now).0.receipt.status == Some(Committed) <==> CommitEvidence(c, id, answer)
    ensures var (receipt, _) := LookupOutcome(c, id, answer, now);
      (receipt.Some? && receipt.value.status == Some(Committed)) <==> CommitEvidence(c, id, answer)
  {
  }

  /** The call ran out before the host spoke of the effect; Lookup reports it as it is. */
  predicate Expired(err: RpcError) {
    err.Wire() && (err.code == DeadlineExceeded || err.code == Canceled)
  }

  /**
   The outcome is reported unknown exactly when the failure leaves it open, for Lookup unless its own call
   expired, or the response holds no committed receipt for this ID. A failure's unknown outcome names the
   ID, and an unread encoding or any other loss on the way always is one, whatever its code.
   */
  lemma OutcomeUnknownIff(c: Codec, id: Bytes, answer: Answer, now: Time)
    ensures var (result, err) := InvokeOutcome(c, id, answer, now);
      && (err.Some? && err.value.OutcomeUnknown? <==>
            match answer case Fails(e) => LeavesUnknown(e) case Responds(r) => !CommittedReceipt(c, id, r))
      && (answer.Fails? && LeavesUnknown(answer.error) ==>
            result == OpResult(None, UnknownReceipt(id)) && err == Some(OutcomeUnknown(UnknownReceipt(id))))
    ensures var (receipt, err) := LookupOutcome(c, id, answer, now);
      && (err.Some? && err.value.OutcomeUnknown? <==>
            match answer
            case Fails(e) => LeavesUnknown(e) && !Expired(e)
            case Responds(r) => !CommittedReceipt(c, id, r))
      && (answer.Fails? && LeavesUnknown(answer.error) && !Expired(answer.error) ==>
            receipt == Some(UnknownReceipt(id)) && err == Some(OutcomeUnknown(UnknownReceipt(id))))
    ensures answer.Fails? && answer.error.UnsupportedEncoding() ==>
      LeavesUnknown(answer.error) && !Expired(answer.error)
  {
  }

  /** There is no error exactly for a committed receipt whose saved and top-level outputs are both JSON objects. */
  lemma NoErrorIff(c: Codec, id: Bytes, answer: Answer, now: Time)
    ensures InvokeOutcome(c, id, answer, now).1.None? <==>
      && answer.Responds? && CommittedReceipt(c, id, answer.response)
      && c.isObject(answer.response.receipt.value.outputJson) && c.isObject(answer.response.outputJson)
    ensures LookupOutcome(c, id, answer, now).1.None? <==> InvokeOutcome(c, id, answer, now).1.None?
    ensures InvokeOutcome(c, id, answer, now).1.None? ==>
      && InvokeOutcome(c, id, answer, now).0.output == Some(answer.response.outputJson)
      && InvokeOutcome(c, id, answer, now).0.receipt.output == Some(answer.response.receipt.value.outputJson)
  {
  }

  function ErrorReceipt(e: Error): Option<Receipt> {
    match e
    case OutcomeUnknown(receipt) => Some(receipt)
    case DatasourceError(receipt) => Some(receipt)
    case DeclarationRemoved(_, receipt) => Some(receipt)
    case _ => None
  }

  /** The error tells the same story as the result: both name the ID, and the error's receipt is the returned one. */
  lemma ReceiptsAgree(c: Codec, id: Bytes, answer: Answer, now: Time)
    ensures var (result, err) := InvokeOutcome(c, id, answer, now);
      && result.receipt.effectID == id && result.receipt.status.Some?
      && (err.Some? && ErrorReceipt(err.value).Some? ==> ErrorReceipt(err.value).value == result.receipt)
    ensures var (receipt, err) := LookupOutcome(c, id, answer, now);
      && (receipt.Some? ==> receipt.value.effectID == id && receipt.value.status.Some?)
      && (err.Some? && ErrorReceipt(err.value).Some? ==> ErrorReceipt(err.value) == receipt)
  {
  }

  /** A failure about the effect rather than about the call: lost on the way, unavailable, unknown or undeclared. */
  predicate SpeaksOfTheEffect(err: RpcError) {
    || !err.Wire()
    || err.code == Unavailable
    || (err.code == FailedPrecondition
        && var reason := GetReason(Scan(err.details).info);
           reason == "SOURCE_OPERATION_OUTCOME_UNKNOWN" || reason == "SOURCE_OPERATION_DECLARATION_REMOVED")
  }

  /** Invoke and Lookup agree on receipt and error exactly for responses and for failures that speak of the effect. */
  lemma InvokeAndLookupAgreeIff(c: Codec, id: Bytes, answer: Answer, now: Time)
    ensures var (result, invokeErr) := InvokeOutcome(c, id, answer, now);
      var (receipt, lookupErr) := LookupOutcome(c, id, answer, now);
      (receipt == Some(result.receipt) && lookupErr == invokeErr) <==>
      answer.Responds? || SpeaksOfTheEffect(answer.error)
  {
  }
}
