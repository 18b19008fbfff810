/**
 The live-authority questions a module asks its issuer and how it reads the answers
 (moduleauthority/verifier_sources.go), with the keys under which answers are cached.
 */
module AuthorityAnswers {
  import opened Prelude

  const NUL := '\0'

  datatype Question =
    | SealOf(principal: string, installation: string)
    | EpochOf(principal: string)
    | BindingOf(binding: string)
    | RevisionOf(owner: string)
    | GrantOf(grant: string)

  /** An answer carries one arm; `state` is the wire enum, of which a client knows some values. */
  datatype Answer =
    | SealAnswer(installation: string, revision: nat, state: State)
    | EpochAnswer(principal: string, epoch: nat, state: State)
    | BindingAnswer(
        binding: string, principal: string, installation: string, revision: nat, incarnation: string, revoked: bool,
        state: State)
    | RevisionAnswer(owner: string, revision: nat)
    | GrantAnswer(grant: string, state: State)
    | NoArm

  /** HELD, KNOWN and RESOLVED; UNHELD, UNKNOWN, ABSENT and NOT_RECORDED; and everything else. */
  datatype State = Present | Absent | OtherState(number: int)

  datatype Verdict =
    | Seal(installation: string, revision: nat)
    | Epoch(epoch: nat)
    | Binding(id: string, principal: string, installation: string, revision: nat, incarnation: string, revoked: bool)
    | Revision(revision: nat)

  datatype SourceError =
    | InvalidQuestion
    | CallFailed(code: int)
    | Unreadable
    | NoSeal
    | NoBinding
    | NoApprovalGrant

  /** A question with an empty identifier is not sent. */
  predicate Askable(q: Question) {
    match q
    case SealOf(principal, installation) => principal != "" && installation != ""
    case EpochOf(principal) => principal != ""
    case BindingOf(binding) => binding != ""
    case RevisionOf(_) => true
    case GrantOf(grant) => grant != ""
  }

  function Key(q: Question): string {
    match q
    case SealOf(principal, installation) => "seal" + [NUL] + principal + [NUL] + installation
    case EpochOf(principal) => "epoch" + [NUL] + principal
    case BindingOf(binding) => "binding" + [NUL] + binding
    case RevisionOf(owner) => "revision" + [NUL] + owner
    case GrantOf(grant) => "grant" + [NUL] + grant
  }

  /** The answer is on the question's arm and names what was asked about. */
  predicate Attributed(q: Question, a: Answer) {
    match q
    case SealOf(_, installation) => a.SealAnswer? && a.installation == installation
    case EpochOf(principal) => a.EpochAnswer? && a.principal == principal
    case BindingOf(binding) => a.BindingAnswer? && a.binding == binding
    case RevisionOf(owner) => a.RevisionAnswer? && a.owner == owner
    case GrantOf(grant) => a.GrantAnswer? && a.grant == grant
  }

  /** What a source makes of an answer. */
  function Read(q: Question, a: Answer): Result<Verdict, SourceError> {
    if !Attributed(q, a) then Err(Unreadable)
    else match a
      case SealAnswer(installation, revision, Present) => Ok(Seal(installation, revision))
      case SealAnswer(_, _, Absent) => Err(NoSeal)
      case EpochAnswer(_, epoch, Present) => Ok(Epoch(epoch))
      case EpochAnswer(_, _, Absent) => Err(NoSeal)
      case BindingAnswer(id, principal, installation, revision, incarnation, revoked, Present) =>
        Ok(Binding(id, principal, installation, revision, incarnation, revoked))
      case BindingAnswer(_, _, _, _, _, _, Absent) => Err(NoBinding)
      case RevisionAnswer(_, revision) => Ok(Revision(revision))
      case GrantAnswer(_, Absent) => Err(NoApprovalGrant)
      case _ => Err(Unreadable)
  }

  /** A verdict is drawn only from an answer about what was asked; an approval grant is never accepted. */
  lemma ReadIsAttributed(q: Question, a: Answer)
    ensures Read(q, a).Ok? ==> Attributed(q, a) && !q.GrantOf?
    ensures Read(q, a).Err? && Read(q, a).error != Unreadable ==> Attributed(q, a)
  {
  }

  /** The verdict a source owes its question for this answer: every field, and every absence, is the answer's own. */
  ghost predicate Owed(q: Question, a: Answer, r: Result<Verdict, SourceError>) {
    match q
    case SealOf(_, installation) =>
      var about := a.SealAnswer? && a.installation == installation;
      && (r.Ok? <==> about && a.state == Present)
      && (r.Ok? ==> r.value.Seal? && r.value.installation == a.installation && r.value.revision == a.revision)
      && (r.Err? ==> if about && a.state == Absent then r.error == NoSeal else r.error == Unreadable)
    case EpochOf(principal) =>
      var about := a.EpochAnswer? && a.principal == principal;
      && (r.Ok? <==> about && a.state == Present)
      && (r.Ok? ==> r.value.Epoch? && r.value.epoch == a.epoch)
      && (r.Err? ==> if about && a.state == Absent then r.error == NoSeal else r.error == Unreadable)
    case BindingOf(binding) =>
      var about := a.BindingAnswer? && a.binding == binding;
      && (r.Ok? <==> about && a.state == Present)
      && (r.Ok? ==>
            && r.value.Binding? && r.value.id == a.binding && r.value.principal == a.principal
            && r.value.installation == a.installation && r.value.revision == a.revision
            && r.value.incarnation == a.incarnation && r.value.revoked == a.revoked)
      && (r.Err? ==> if about && a.state == Absent then r.error == NoBinding else r.error == Unreadable)
    case RevisionOf(owner) =>
      && (r.Ok? <==> a.RevisionAnswer? && a.owner == owner)
      && (r.Ok? ==> r.value.Revision? && r.value.revision == a.revision)
      && (r.Err? ==> r.error == Unreadable)
    case GrantOf(grant) =>
      && r.Err?
      && if a.GrantAnswer? && a.grant == grant && a.state == Absent then r.error == NoApprovalGrant
         else r.error == Unreadable
  }

  lemma ReadIsOwed(q: Question, a: Answer)
    ensures Owed(q, a, Read(q, a))
  {
  }

  /** Another pair of identifiers spells the same seal key: a NUL can be read as the separator. */
  predicate Collides(q: Question) {
    && q.SealOf?
    && ((exists k :: 0 < k < |q.principal| && q.principal[k] == NUL)
        || (exists k :: 0 <= k < |q.installation| - 1 && q.installation[k] == NUL))
  }

  /** Keys of different kinds never meet. */
  lemma KeyKinds(p: Question, q: Question)
    requires Key(p) == Key(q)
    ensures (p.SealOf? <==> q.SealOf?) && (p.EpochOf? <==> q.EpochOf?) && (p.BindingOf? <==> q.BindingOf?)
    ensures (p.RevisionOf? <==> q.RevisionOf?) && (p.GrantOf? <==> q.GrantOf?)
  {
    assert Key(p)[0] == Key(q)[0];
  }

  /** Questions of one identifier have keys of their own; seal keys agree exactly when the joined identifiers do. */
  lemma KeyIds(p: Question, q: Question)
    requires Key(p) == Key(q)
    ensures !p.SealOf? ==> p == q
    ensures p.SealOf? ==> q.SealOf? && p.principal + [NUL] + p.installation == q.principal + [NUL] + q.installation
  {
    KeyKinds(p, q);
    match p
    case SealOf(a, b) =>
      assert Key(p) == ("seal" + [NUL]) + (a + [NUL] + b);
      assert Key(q) == ("seal" + [NUL]) + (q.principal + [NUL] + q.installation);
      Peel("seal" + [NUL], a + [NUL] + b, q.principal + [NUL] + q.installation);
    case EpochOf(a) => Peel("epoch" + [NUL], a, q.principal);
    case BindingOf(a) => Peel("binding" + [NUL], a, q.binding);
    case RevisionOf(a) => Peel("revision" + [NUL], a, q.owner);
    case GrantOf(a) => Peel("grant" + [NUL], a, q.grant);
  }

  /** No answer is about two questions that share a key. */
  lemma NoAnswerServesTwo(p: Question, q: Question, a: Answer)
    requires Key(p) == Key(q) && Attributed(p, a) && Attributed(q, a)
    ensures p == q
  {
    KeyIds(p, q);
    if p.SealOf? {
      SameSplit(p.principal, p.installation, q.principal, q.installation);
    }
  }

  lemma SplitPrincipal(q: Question, k: nat) returns (p: Question)
    requires Askable(q) && q.SealOf? && 0 < k < |q.principal| && q.principal[k] == NUL
    ensures Askable(p) && p != q && Key(p) == Key(q)
  {
    p := SealOf(q.principal[..k], q.principal[k + 1..] + [NUL] + q.installation);
    assert q.principal == q.principal[..k] + [NUL] + q.principal[k + 1..];
    assert |p.principal| < |q.principal|;
  }

  lemma SplitInstallation(q: Question, k: nat) returns (p: Question)
    requires Askable(q) && q.SealOf? && k < |q.installation| - 1 && q.installation[k] == NUL
    ensures Askable(p) && p != q && Key(p) == Key(q)
  {
    p := SealOf(q.principal + [NUL] + q.installation[..k], q.installation[k + 1..]);
    assert q.installation == q.installation[..k] + [NUL] + q.installation[k + 1..];
    assert |p.principal| > |q.principal|;
  }

  lemma CollidingQuestion(q: Question) returns (p: Question)
    requires Askable(q) && Collides(q)
    ensures Askable(p) && p != q && Key(p) == Key(q)
  {
    hide Key, Askable;
    if k :| 0 < k < |q.principal| && q.principal[k] == NUL {
      p := SplitPrincipal(q, k);
    } else {
      var k :| 0 <= k < |q.installation| - 1 && q.installation[k] == NUL;
      p := SplitInstallation(q, k);
    }
  }

  /** A question shares its key with another askable one exactly when its identifiers hold a NUL that splits them. */
  lemma KeySharedIff(q: Question)
    requires Askable(q)
    ensures (exists p :: Askable(p) && p != q && Key(p) == Key(q)) <==> Collides(q)
  {
    hide Collides;
    if Collides(q) {
      var p := CollidingQuestion(q);
    }
    forall p | Askable(p) && p != q && Key(p) == Key(q)
      ensures Collides(q)
    {
      SharedKeyCollides(p, q);
    }
  }

  lemma SameSplit(a: string, b: string, c: string, d: string)
    requires |a| == |c| && a + [NUL] + b == c + [NUL] + d
    ensures a == c && b == d
  {
    var s, t := a + [NUL] + b, c + [NUL] + d;
    assert s[..|a|] == a && t[..|c|] == c;
    assert s[|a| + 1..] == b && t[|c| + 1..] == d;
  }

  lemma SharedKeyCollides(p: Question, q: Question)
    requires Askable(p) && p != q && Key(p) == Key(q)
    ensures Collides(q)
  {
    KeyIds(p, q);
    var s, t := p.principal + [NUL] + p.installation, q.principal + [NUL] + q.installation;
    var i, j := |p.principal|, |q.principal|;
    assert s[i] == NUL && t[j] == NUL;
    if i < j {
      assert q.principal[i] == t[i] == NUL;
    } else if i > j {
      assert q.installation[i - j - 1] == t[i] == NUL;
      assert |q.installation| == |t| - j - 1;
    } else {
      SameSplit(p.principal, p.installation, q.principal, q.installation);
    }
  }
}
