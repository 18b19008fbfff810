/** Classifying a broker transport failure by the error tree behind it (moduleauthority/broker_errors.go). */
module BrokerErrors {
  import opened Prelude

  /** The identities and types the classification asks for besides net.Error. */
  datatype Mark = DeadlineExceeded | ConnectionRefused | ConnectionReset | TlsFailure

  /** What an error unwraps to: nothing, one error, or several; each of them may be nil. */
  datatype Causes = NoCause | One(cause: Error) | Many(causes: seq<Error>)

  /** `net` is what a net.Error answers to Timeout(); None for any other error. */
  datatype Error = Nil | Error(net: Option<bool>, marks: set<Mark>, causes: Causes)

  /** Cause number `i`, nil when there is none. */
  function Child(e: Error, i: nat): Error {
    if e.Nil? then Nil
    else match e.causes
      case NoCause => Nil
      case One(c) => if i == 0 then c else Nil
      case Many(cs) => if i < |cs| then cs[i] else Nil
  }

  /** The error found by following the causes numbered in `path`, nil when the path leaves the tree. */
  function NodeAt(e: Error, path: seq<nat>): Error
    decreases |path|
  {
    if path == [] then e else NodeAt(Child(e, path[0]), path[1..])
  }

  /** Some error of the tree is a net.Error answering `answer` to Timeout(). */
  ghost predicate HasNet(e: Error, answer: bool) {
    exists path :: NodeAt(e, path).Error? && NodeAt(e, path).net == Some(answer)
  }

  ghost predicate HasMark(e: Error, mark: Mark) {
    exists path :: NodeAt(e, path).Error? && mark in NodeAt(e, path).marks
  }

  /** errors.As for net.Error: the first one in depth-first order, by its answer to Timeout(). */
  function FirstNet(e: Error): Option<bool>
    decreases e, 0
  {
    if e.Nil? then None
    else if e.net.Some? then e.net
    else match e.causes
      case NoCause => None
      case One(c) => FirstNet(c)
      case Many(cs) => FirstNetIn(cs)
  }

  function FirstNetIn(cs: seq<Error>): Option<bool>
    decreases cs, 1
  {
    if cs == [] then None
    else
      var first := FirstNet(cs[0]);
      if first.Some? then first else FirstNetIn(cs[1..])
  }

  /** moduleauthority/broker_errors.go:120-141. */
  function BrokerTimeout(e: Error): bool
    decreases e, 0
  {
    match FirstNet(e)
    case None => false
    case Some(true) => true
    case Some(false) =>
      match e.causes
      case NoCause => false
      case One(c) => BrokerTimeout(c)
      case Many(cs) => AnyTimeout(cs)
  }

  function AnyTimeout(cs: seq<Error>): bool
    decreases cs, 1
  {
    cs != [] && (BrokerTimeout(cs[0]) || AnyTimeout(cs[1..]))
  }

  /** A path into a cause is a path into the error. */
  lemma Deeper(e: Error, i: nat, path: seq<nat>)
    ensures NodeAt(e, [i] + path) == NodeAt(Child(e, i), path)
  {
    assert ([i] + path)[1..] == path;
  }

  lemma HasNetDeeper(e: Error, i: nat, answer: bool)
    requires HasNet(Child(e, i), answer)
    ensures HasNet(e, answer)
  {
    var path :| NodeAt(Child(e, i), path).Error? && NodeAt(Child(e, i), path).net == Some(answer);
    Deeper(e, i, path);
  }

  lemma {:induction false} NilHasNoNode(path: seq<nat>)
    ensures NodeAt(Nil, path) == Nil
  {
    if path != [] {
      NilHasNoNode(path[1..]);
    }
  }

  /** errors.As finds a net.Error whenever there is one, and only then. */
  lemma {:induction false} FirstNetFinds(e: Error, path: seq<nat>)
    requires NodeAt(e, path).Error? && NodeAt(e, path).net.Some?
    ensures FirstNet(e).Some?
    decreases |path|
  {
    if e.Nil? {
      NilHasNoNode(path);
    } else if path != [] && e.net.None? {
      FirstNetFinds(Child(e, path[0]), path[1..]);
      if e.causes.Many? {
        FirstNetInFinds(e.causes.causes, path[0]);
      }
    }
  }

  lemma {:induction false} FirstNetInFinds(cs: seq<Error>, i: nat)
    requires i < |cs| && FirstNet(cs[i]).Some?
    ensures FirstNetIn(cs).Some?
  {
    if i > 0 {
      FirstNetInFinds(cs[1..], i - 1);
    }
  }

  lemma {:induction false} FirstNetIsThere(e: Error)
    requires FirstNet(e).Some?
    ensures HasNet(e, FirstNet(e).value)
    decreases e
  {
    if e.net.Some? {
      assert NodeAt(e, []) == e;
    } else {
      match e.causes
      case One(c) =>
        FirstNetIsThere(c);
        HasNetDeeper(e, 0, FirstNet(e).value);
      case Many(cs) =>
        var i := FirstNetInAt(cs);
        assert cs[i] < e;
        FirstNetIsThere(cs[i]);
        HasNetDeeper(e, i, FirstNet(e).value);
    }
  }

  lemma {:induction false} FirstNetInAt(cs: seq<Error>) returns (i: nat)
    requires FirstNetIn(cs).Some?
    ensures i < |cs| && FirstNet(cs[i]) == FirstNetIn(cs)
  {
    if FirstNet(cs[0]).Some? {
      i := 0;
    } else {
      i := FirstNetInAt(cs[1..]);
      i := i + 1;
    }
  }

  lemma {:induction false} AnyTimeoutAt(cs: seq<Error>) returns (i: nat)
    requires AnyTimeout(cs)
    ensures i < |cs| && BrokerTimeout(cs[i])
  {
    if BrokerTimeout(cs[0]) {
      i := 0;
    } else {
      i := AnyTimeoutAt(cs[1..]);
      i := i + 1;
    }
  }

  lemma {:induction false} AnyTimeoutIn(cs: seq<Error>, i: nat)
    requires i < |cs| && BrokerTimeout(cs[i])
    ensures AnyTimeout(cs)
  {
    if i > 0 {
      AnyTimeoutIn(cs[1..], i - 1);
    }
  }

  lemma {:induction false} TimeoutIsThere(e: Error)
    requires BrokerTimeout(e)
    ensures HasNet(e, true)
    decreases e
  {
    if FirstNet(e) == Some(true) {
      FirstNetIsThere(e);
    } else {
      match e.causes
      case One(c) =>
        TimeoutIsThere(c);
        HasNetDeeper(e, 0, true);
      case Many(cs) =>
        var i := AnyTimeoutAt(cs);
        assert cs[i] < e;
        TimeoutIsThere(cs[i]);
        HasNetDeeper(e, i, true);
    }
  }

  lemma {:induction false} TimeoutIsFound(e: Error, path: seq<nat>)
    requires NodeAt(e, path).Error? && NodeAt(e, path).net == Some(true)
    ensures BrokerTimeout(e)
    decreases |path|
  {
    FirstNetFinds(e, path);
    if path != [] {
      TimeoutIsFound(Child(e, path[0]), path[1..]);
      if e.causes.Many? {
        AnyTimeoutIn(e.causes.causes, path[0]);
      }
    }
  }

  /** The search answers true exactly when some net.Error of the tree reports a timeout, despite the pruning. */
  lemma BrokerTimeoutIff(e: Error)
    ensures BrokerTimeout(e) <==> HasNet(e, true)
  {
    if BrokerTimeout(e) {
      TimeoutIsThere(e);
    }
    if HasNet(e, true) {
      var path :| NodeAt(e, path).Error? && NodeAt(e, path).net == Some(true);
      TimeoutIsFound(e, path);
    }
  }

  // ---- The category of a transport failure ----

  /** errors.Is and errors.As for a mark: some error of the tree has it. */
  function Marked(e: Error, mark: Mark): bool
    decreases e, 0
  {
    e.Error? && (mark in e.marks || match e.causes
      case NoCause => false
      case One(c) => Marked(c, mark)
      case Many(cs) => AnyMarked(cs, mark))
  }

  function AnyMarked(cs: seq<Error>, mark: Mark): bool
    decreases cs, 1
  {
    cs != [] && (Marked(cs[0], mark) || AnyMarked(cs[1..], mark))
  }

  datatype Category = Other | Timeout | Refused | Tls | Reset

  /** moduleauthority/broker_errors.go:96-118. */
  function TransportCategory(e: Error): Category {
    if Marked(e, DeadlineExceeded) || BrokerTimeout(e) then Timeout
    else if Marked(e, ConnectionRefused) then Refused
    else if Marked(e, TlsFailure) then Tls
    else if Marked(e, ConnectionReset) then Reset
    else Other
  }

  lemma {:induction false} MarkedIsThere(e: Error, mark: Mark) returns (path: seq<nat>)
    requires Marked(e, mark)
    ensures NodeAt(e, path).Error? && mark in NodeAt(e, path).marks
    decreases e, 0
  {
    if mark in e.marks {
      path := [];
    } else {
      match e.causes
      case One(c) =>
        path := MarkedIsThere(c, mark);
        Deeper(e, 0, path);
        path := [0] + path;
      case Many(cs) =>
        var i;
        i, path := AnyMarkedIsThere(cs, mark);
        Deeper(e, i, path);
        path := [i] + path;
    }
  }

  lemma {:induction false} AnyMarkedIsThere(cs: seq<Error>, mark: Mark) returns (i: nat, path: seq<nat>)
    requires AnyMarked(cs, mark)
    ensures i < |cs|
    ensures NodeAt(cs[i], path).Error? && mark in NodeAt(cs[i], path).marks
    decreases cs, 1
  {
    if Marked(cs[0], mark) {
      i := 0;
      path := MarkedIsThere(cs[0], mark);
    } else {
      i, path := AnyMarkedIsThere(cs[1..], mark);
      i := i + 1;
    }
  }

  lemma {:induction false} MarkIsFound(e: Error, path: seq<nat>, mark: Mark)
    requires NodeAt(e, path).Error? && mark in NodeAt(e, path).marks
    ensures Marked(e, mark)
    decreases |path|
  {
    if path != [] {
      MarkIsFound(Child(e, path[0]), path[1..], mark);
      if e.causes.Many? {
        AnyMarkedIn(e.causes.causes, path[0], mark);
      }
    }
  }

  lemma {:induction false} AnyMarkedIn(cs: seq<Error>, i: nat, mark: Mark)
    requires i < |cs| && Marked(cs[i], mark)
    ensures AnyMarked(cs, mark)
  {
    if i > 0 {
      AnyMarkedIn(cs[1..], i - 1, mark);
    }
  }

  lemma MarkedIff(e: Error, mark: Mark)
    ensures Marked(e, mark) <==> HasMark(e, mark)
  {
    if Marked(e, mark) {
      var path := MarkedIsThere(e, mark);
    }
    if HasMark(e, mark) {
      var path :| NodeAt(e, path).Error? && mark in NodeAt(e, path).marks;
      MarkIsFound(e, path, mark);
    }
  }

  /** The category is decided by what the whole tree holds, in a fixed order of precedence. */
  lemma CategoryIff(e: Error)
    ensures var timeout := HasMark(e, DeadlineExceeded) || HasNet(e, true);
      && (TransportCategory(e) == Timeout <==> timeout)
      && (TransportCategory(e) == Refused <==> !timeout && HasMark(e, ConnectionRefused))
      && (TransportCategory(e) == Tls <==> !timeout && !HasMark(e, ConnectionRefused) && HasMark(e, TlsFailure))
      && (TransportCategory(e) == Reset <==>
            !timeout && !HasMark(e, ConnectionRefused) && !HasMark(e, TlsFailure) && HasMark(e, ConnectionReset))
  {
    BrokerTimeoutIff(e);
    MarkedIff(e, DeadlineExceeded);
    MarkedIff(e, ConnectionRefused);
    MarkedIff(e, TlsFailure);
    MarkedIff(e, ConnectionReset);
  }
}
