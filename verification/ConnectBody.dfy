/** The lazily decoded JSON error body (internal/connectresponse/connectresponse.go:68-98). */
module ConnectBody {
  import opened Prelude

  /** What a byte source holds, in order: bytes, errors it reports once, and reads that return nothing. */
  datatype Item = Data(b: byte) | Fail(code: nat) | Pause

  /** What a source reports at its end and on every read from then on: io.EOF, or an error it cannot get past. */
  datatype Last = Eof | Broken(code: nat)

  datatype ReadError = Ended(last: Last) | NoProgress | Failure(code: nat)

  predicate AtEnd(err: Option<ReadError>) {
    err.Some? && err.value.Ended?
  }

  /** The size of a bufio.Reader's buffer, and how many empty reads in a row it puts up with while filling it. */
  const CAPACITY := 4096
  const MAX_EMPTY_READS := 100

  const BOM: seq<byte> := [0xef, 0xbb, 0xbf]

  function Bytes(data: seq<byte>): seq<Item> {
    seq(|data|, i requires 0 <= i < |data| => Data(data[i]))
  }

  /** An error as an item of the stream; the end of the stream and a stalled fill are not items. */
  function Reported(err: Option<ReadError>): seq<Item> {
    match err
    case Some(Failure(code)) => [Fail(code)]
    case _ => []
  }

  /** What a reader of the source gets to see. */
  function Visible(items: seq<Item>): seq<Item> {
    if items == [] then []
    else if items[0].Pause? then Visible(items[1..])
    else [items[0]] + Visible(items[1..])
  }

  /** One io.Reader call served from `before`, whatever number of bytes the source chooses to return. */
  ghost predicate Served(
      before: seq<Item>, last: Last, after: seq<Item>, max: nat, data: seq<byte>, err: Option<ReadError>)
  {
    && |data| <= max && |data| <= |before|
    && before[..|data|] == Bytes(data)
    && var rest := before[|data|..];
      match err
      case None => if data == [] then rest != [] && rest[0] == Pause && after == rest[1..] else after == rest
      case Some(Ended(reported)) => rest == [] && after == [] && reported == last
      case Some(Failure(code)) => rest != [] && rest[0] == Fail(code) && after == rest[1..]
      case Some(NoProgress) => false
  }

  /** A source with fixed content that hands it out in chunks of its own choosing. */
  class Source {
    const last: Last
    var items: seq<Item>

    constructor (items: seq<Item>, last: Last)
      ensures this.items == items && this.last == last
    {
      this.items, this.last := items, last;
    }

    method Read(max: nat) returns (data: seq<byte>, err: Option<ReadError>)
      requires max > 0
      modifies this
      ensures Served(old(items), last, items, max, data, err)
    {
      data, err := [], None;
      while |data| < max && items != [] && items[0].Data?
        invariant |data| <= max && |data| <= |old(items)|
        invariant old(items)[..|data|] == Bytes(data)
        invariant items == old(items)[|data|..]
      {
        var stop: bool := *;
        if data != [] && stop {
          break;
        }
        data, items := data + [items[0].b], items[1..];
      }
      var alone: bool := *;
      if data != [] && alone {
        return;
      }
      if items == [] {
        err := Some(Ended(last));
      } else if items[0].Fail? {
        err, items := Some(Failure(items[0].code)), items[1..];
      } else if items[0].Pause? && data == [] {
        items := items[1..];
      }
    }
  }

  // ---- What the body should deliver ----

  function Strip(head: seq<byte>, rest: seq<Item>): seq<Item> {
    if BOM <= head then Bytes(head[3..]) + rest else Bytes(head) + rest
  }

  /**
   * What is delivered from now on when `head` is buffered and the opening peek for three bytes has seen `stalls` empty
   * reads in a row: an error that ends the peek is dropped with the peek's result.
   */
  function OpenFrom(head: seq<byte>, items: seq<Item>, stalls: nat): seq<Item>
    decreases |items|
  {
    if |head| >= 3 then Strip(head, Visible(items))
    else if items == [] then Bytes(head)
    else match items[0]
      case Data(b) => OpenFrom(head + [b], items[1..], 0)
      case Fail(_) => Bytes(head) + Visible(items[1..])
      case Pause =>
        if stalls + 1 >= MAX_EMPTY_READS then Bytes(head) + Visible(items[1..])
        else OpenFrom(head, items[1..], stalls + 1)
  }

  function Expected(items: seq<Item>): seq<Item> {
    OpenFrom([], items, 0)
  }

  /** What is left to deliver after one fill of the peek. */
  ghost function Peeking(buffered: seq<byte>, err: Option<ReadError>, items: seq<Item>): seq<Item> {
    if err.None? then OpenFrom(buffered, items, 0)
    else if |buffered| >= 3 then Strip(buffered, Reported(err) + Visible(items))
    else Bytes(buffered) + Visible(items)
  }

  lemma {:induction false} VisibleData(data: seq<byte>, rest: seq<Item>)
    ensures Visible(Bytes(data) + rest) == Bytes(data) + Visible(rest)
  {
    if data == [] {
      assert Bytes(data) + rest == rest;
    } else {
      VisibleData(data[1..], rest);
      assert Bytes(data) == [Data(data[0])] + Bytes(data[1..]);
      assert (Bytes(data) + rest)[1..] == Bytes(data[1..]) + rest;
    }
  }

  /** Data that arrives during the peek is as if it had been buffered already, even beyond the third byte. */
  lemma {:induction false} OpenData(head: seq<byte>, data: seq<byte>, rest: seq<Item>, stalls: nat)
    requires |head| < 3 && data != []
    ensures OpenFrom(head, Bytes(data) + rest, stalls) == OpenFrom(head + data, rest, 0)
    decreases |data|
  {
    var more := data[1..];
    assert (Bytes(data) + rest)[0] == Data(data[0]);
    assert (Bytes(data) + rest)[1..] == Bytes(more) + rest;
    assert head + data == (head + [data[0]]) + more;
    if more == [] {
      assert data == [data[0]] && Bytes(more) + rest == rest;
    } else if |head| < 2 {
      OpenData(head + [data[0]], more, rest, 0);
    } else {
      VisibleData(more, rest);
      var full := head + [data[0]];
      assert (full + more)[..3] == full;
      assert Bytes(full + more) == Bytes(full) + Bytes(more);
      assert Bytes((full + more)[3..]) == Bytes(full[3..]) + Bytes(more);
    }
  }

  /** One read of the peek that returned data or ended it. */
  lemma OpenServed(
      head: seq<byte>, before: seq<Item>, last: Last, after: seq<Item>, max: nat, data: seq<byte>,
      err: Option<ReadError>, stalls: nat)
    requires |head| < 3 && Served(before, last, after, max, data, err) && (data != [] || err.Some?)
    ensures OpenFrom(head, before, stalls) == Peeking(head + data, err, after)
  {
    var rest := before[|data|..];
    assert before == Bytes(data) + rest;
    if data == [] {
      assert rest == before && head + data == head;
    } else {
      OpenData(head, data, rest, stalls);
    }
  }

  // ---- bufio.Reader ----

  /** Everything still to come out of a reader with these bytes buffered, this error noted and this source. */
  ghost function PendingOf(buffered: seq<byte>, err: Option<ReadError>, items: seq<Item>): seq<Item> {
    Bytes(buffered) + Reported(err) + Visible(items)
  }

  /** A bound on the reads that can still return something. */
  function LeftOf(buffered: seq<byte>, err: Option<ReadError>, items: seq<Item>): nat {
    |buffered| + |Reported(err)| + |items|
  }

  lemma PendingTake(buffered: seq<byte>, err: Option<ReadError>, items: seq<Item>, n: nat)
    requires n <= |buffered|
    ensures PendingOf(buffered, err, items)
         == Bytes(buffered[..n]) + Reported(None) + PendingOf(buffered[n..], err, items)
  {
    assert Bytes(buffered) == Bytes(buffered[..n]) + Bytes(buffered[n..]);
  }

  lemma PendingError(err: Option<ReadError>, items: seq<Item>)
    ensures PendingOf([], err, items) == Bytes([]) + Reported(err) + PendingOf([], None, items)
    ensures items == [] ==> PendingOf([], None, items) == []
  {
  }

  /** A read of the source moves items from it to the front of what is pending. */
  lemma PendingServed(
      before: seq<Item>, last: Last, after: seq<Item>, max: nat, data: seq<byte>, err: Option<ReadError>)
    requires Served(before, last, after, max, data, err)
    ensures PendingOf([], None, before) == PendingOf(data, err, after)
    ensures PendingOf(data, err, after) == Bytes(data) + Reported(err) + PendingOf([], None, after)
    ensures LeftOf([], None, after) < LeftOf([], None, before) || AtEnd(err)
    ensures LeftOf(data, err, after) <= LeftOf([], None, before)
    ensures data == [] && err == None ==> LeftOf(data, err, after) < LeftOf([], None, before)
    ensures AtEnd(err) ==> err == Some(Ended(last)) && after == [] && PendingOf([], None, after) == []
  {
    var rest := before[|data|..];
    assert before == Bytes(data) + rest;
    VisibleData(data, rest);
  }

  class BufReader {
    const source: Source
    var buffered: seq<byte>
    var err: Option<ReadError>

    constructor (source: Source)
      ensures this.source == source && buffered == [] && err == None
    {
      this.source := source;
      buffered, err := [], None;
    }

    /** Everything still to come out of this reader. */
    ghost function Pending(): seq<Item>
      reads this, source
    {
      PendingOf(buffered, err, source.items)
    }

    /** An error noted beside buffered bytes was reported by the source: its last one only at its end. */
    predicate Ready()
      reads this, source
    {
      && |buffered| <= CAPACITY && err != Some(NoProgress)
      && (AtEnd(err) ==> err == Some(Ended(source.last)) && source.items == [])
    }

    method ReadErr() returns (e: Option<ReadError>)
      modifies this`err
      ensures e == old(err) && err == None
    {
      e := err;
      err := None;
    }

    /** One fill of the buffer: up to a hundred reads, ended by data or an error. */
    method Fill()
      requires |buffered| < 3 && err == None
      modifies this, source
      ensures |old(buffered)| <= |buffered| <= CAPACITY
      ensures err == None ==> |buffered| > |old(buffered)|
      ensures OpenFrom(old(buffered), old(source.items), 0) == Peeking(buffered, err, source.items)
      ensures err == Some(NoProgress) ==> buffered == old(buffered)
      ensures AtEnd(err) ==> err == Some(Ended(source.last)) && source.items == []
      ensures LeftOf(buffered, err, source.items) <= old(LeftOf(buffered, err, source.items))
    {
      var i := 0;
      while i < MAX_EMPTY_READS
        invariant i <= MAX_EMPTY_READS && buffered == old(buffered) && err == None
        invariant |source.items| <= |old(source.items)|
        invariant i < MAX_EMPTY_READS ==>
          OpenFrom(old(buffered), old(source.items), 0) == OpenFrom(buffered, source.items, i)
        invariant i == MAX_EMPTY_READS ==>
          OpenFrom(old(buffered), old(source.items), 0) == Bytes(buffered) + Visible(source.items)
      {
        ghost var before := source.items;
        var max := CAPACITY - |buffered|;
        var data, e := source.Read(max);
        if data != [] || e.Some? {
          OpenServed(buffered, before, source.last, source.items, max, data, e, i);
        }
        buffered := buffered + data;
        if e.Some? {
          err := e;
          return;
        }
        if data != [] {
          return;
        }
        i := i + 1;
      }
      err := Some(NoProgress);
    }

    /** The peek's bytes; its error is read off, so that it is lost when there are fewer than three bytes. */
    method Peek3() returns (prefix: seq<byte>)
      requires buffered == [] && err == None
      modifies this, source
      ensures LeftOf(buffered, err, source.items) <= |old(source.items)|
      ensures Ready() && prefix == if |buffered| < 3 then buffered else buffered[..3]
      ensures Expected(old(source.items)) ==
        if prefix == BOM then PendingOf(buffered[3..], err, source.items) else Pending()
    {
      while |buffered| < 3 && err == None
        invariant |buffered| <= CAPACITY
        invariant LeftOf(buffered, err, source.items) <= |old(source.items)|
        invariant err == Some(NoProgress) ==> |buffered| < 3
        invariant AtEnd(err) ==> err == Some(Ended(source.last)) && source.items == []
        invariant Expected(old(source.items)) == Peeking(buffered, err, source.items)
        decreases 3 - |buffered|, err == None
      {
        Fill();
      }
      if |buffered| < 3 {
        prefix := buffered;
        var dropped := ReadErr();
      } else {
        prefix := buffered[..3];
      }
    }

    method Discard3()
      requires |buffered| >= 3
      modifies this`buffered
      ensures buffered == old(buffered)[3..]
      ensures LeftOf(buffered, err, source.items) <= old(LeftOf(buffered, err, source.items))
    {
      buffered := buffered[3..];
    }

    /** Read into a buffer of `size` bytes. */
    method Read(size: nat) returns (data: seq<byte>, e: Option<ReadError>)
      requires Ready()
      modifies this, source
      ensures Ready()
      ensures |data| <= size && e != Some(NoProgress)
      ensures old(Pending()) == Bytes(data) + Reported(e) + Pending()
      ensures AtEnd(e) ==> e == Some(Ended(source.last)) && Pending() == []
      ensures LeftOf(buffered, err, source.items) <= old(LeftOf(buffered, err, source.items))
      ensures size > 0 && !AtEnd(e) ==>
        LeftOf(buffered, err, source.items) < old(LeftOf(buffered, err, source.items))
    {
      hide PendingOf, Served, Visible;
      ghost var before := source.items;
      if size == 0 {
        data, e := [], None;
        if buffered == [] {
          PendingError(err, source.items);
          e := ReadErr();
        } else {
          PendingTake(buffered, err, source.items, 0);
        }
        return;
      }
      if buffered == [] {
        if err.Some? {
          PendingError(err, source.items);
          data := [];
          e := ReadErr();
          return;
        }
        if size >= CAPACITY {
          data, e := source.Read(size);
          PendingServed(before, source.last, source.items, size, data, e);
          return;
        }
        buffered, err := source.Read(CAPACITY);
        PendingServed(before, source.last, source.items, CAPACITY, buffered, err);
        if buffered == [] {
          data := [];
          e := ReadErr();
          return;
        }
      }
      var n := if size <= |buffered| then size else |buffered|;
      PendingTake(buffered, err, source.items, n);
      data, e, buffered := buffered[..n], None, buffered[n..];
    }
  }

  lemma Regroup(delivered: seq<Item>, data: seq<Item>, err: seq<Item>, pending: seq<Item>)
    ensures delivered + (data + err + pending) == (delivered + data + err) + pending
  {
  }

  // ---- The body ----

  class ErrorBody {
    const source: Source
    const compressed: bool
    /** What gzip.NewReader makes of the source: a reader of the decoded bytes, or an error. */
    const gunzip: Result<Source, ReadError>
    var initialized: bool
    var reader: BufReader?
    var err: Option<ReadError>
    /** The decoded stream as it was before the first read, and all that the reads have returned. */
    ghost const content: seq<Item>
    ghost var delivered: seq<Item>

    /** The reader whose bytes the body delivers. */
    function From(): Source {
      if compressed && gunzip.Ok? then gunzip.value else source
    }

    predicate Unreadable() {
      compressed && gunzip.Err?
    }

    ghost function Footprint(): set<object>
      reads this
    {
      {this, From()} + if reader == null then {} else {reader}
    }

    /** What has been delivered and what is pending make up the content, less its byte order mark. */
    ghost predicate Valid()
      reads this, Footprint()
    {
      && (!initialized ==> reader == null && err == None && delivered == [] && From().items == content)
      && (initialized && Unreadable() ==> err == Some(gunzip.error))
      && (initialized && !Unreadable() ==>
            && err == None && reader != null && reader.source == From()
            && reader.Ready()
            && delivered + reader.Pending() == Expected(content))
    }

    /** Reads of at least one byte that can be made before the end of the stream is reported. */
    ghost function Left(): nat
      reads this, Footprint(), if reader == null then {} else {reader.source}
    {
      if reader == null then |From().items| else LeftOf(reader.buffered, reader.err, reader.source.items)
    }

    constructor (source: Source, compressed: bool, gunzip: Result<Source, ReadError>)
      ensures Valid() && !initialized && this.source == source && this.compressed == compressed && this.gunzip == gunzip
      ensures content == (if compressed && gunzip.Ok? then gunzip.value else source).items
      ensures fresh(Footprint() - {From()})
    {
      this.source, this.compressed, this.gunzip := source, compressed, gunzip;
      initialized, reader, err, delivered := false, null, None, [];
      content := (if compressed && gunzip.Ok? then gunzip.value else source).items;
    }

    /** connectJSONErrorBody.Read into a buffer of `size` bytes. */
    method Read(size: nat) returns (data: seq<byte>, e: Option<ReadError>)
      requires Valid()
      modifies Footprint()
      ensures Valid() && fresh(Footprint() - old(Footprint())) && initialized
      ensures |data| <= size
      ensures Unreadable() ==> data == [] && e == Some(gunzip.error)
      ensures !Unreadable() ==> delivered == old(delivered) + Bytes(data) + Reported(e)
      ensures !Unreadable() ==> delivered <= Expected(content)
      ensures !Unreadable() && AtEnd(e) ==> e == Some(Ended(From().last)) && delivered == Expected(content)
      ensures !Unreadable() && size > 0 && !AtEnd(e) ==> Left() < old(Left())
    {
      hide PendingOf, Expected, Bytes, Reported, LeftOf;
      if !initialized {
        initialized := true;
        var from := source;
        if compressed {
          match gunzip
          case Err(failure) =>
            err := Some(failure);
            return [], err;
          case Ok(decoded) => from := decoded;
        }
        reader := new BufReader(from);
        var prefix := reader.Peek3();
        if prefix == BOM {
          reader.Discard3();
        }
      }
      if err.Some? {
        return [], err;
      }
      data, e := reader.Read(size);
      Regroup(delivered, Bytes(data), Reported(e), reader.Pending());
      delivered := delivered + Bytes(data) + Reported(e);
    }
  }

  // ---- What the law amounts to ----

  /** Section 8.1 of RFC 8259: one leading byte order mark is ignored, nothing else is. */
  function Intended(items: seq<Item>): seq<Item> {
    var seen := Visible(items);
    if Bytes(BOM) <= seen then seen[3..] else seen
  }

  /** How the opening peek ends when it still needs `need` bytes. */
  datatype Opening = Settled | CutShort | Stalled

  function OpeningOf(items: seq<Item>, need: nat, stalls: nat): Opening
    decreases |items|
  {
    if need == 0 || items == [] then Settled
    else match items[0]
      case Data(_) => OpeningOf(items[1..], need - 1, 0)
      case Fail(_) => CutShort
      case Pause => if stalls + 1 >= MAX_EMPTY_READS then Stalled else OpeningOf(items[1..], need, stalls + 1)
  }

  /** A hundred empty reads in a row from position `j` on. */
  predicate StallAt(items: seq<Item>, j: nat) {
    j + 100 <= |items| && forall k | j <= k < j + 100 :: items[k].Pause?
  }

  /** Fewer than three bytes, and no error, come before position `j`. */
  predicate StillOpening(items: seq<Item>, j: nat)
    requires j <= |items|
  {
    |DataOf(items[..j])| < 3 && forall k | 0 <= k < j :: !items[k].Fail?
  }

  ghost predicate Stalls(items: seq<Item>) {
    exists j: nat | j <= |items| :: StallAt(items, j) && StillOpening(items, j)
  }

  ghost predicate Fails(items: seq<Item>) {
    exists j: nat | j < |items| :: items[j].Fail? && StillOpening(items, j)
  }

  /** What the opening sees first: an error, a hundred empty reads, or neither before its third byte. */
  lemma OpeningIff(items: seq<Item>)
    ensures OpeningOf(items, 3, 0) == if Stalls(items) then Stalled else if Fails(items) then CutShort else Settled
  {
    OpeningAfter(items, 0, 3, 0);
    assert items[0..] == items;
  }

  /** Where the opening stands after `i` items: what it needs, and the empty reads it has just seen. */
  predicate OpeningAt(items: seq<Item>, i: nat, need: nat, stalls: nat) {
    && stalls < 100 && stalls <= i <= |items| && |DataOf(items[..i])| + need == 3
    && (forall k | 0 <= k < i :: !items[k].Fail?)
    && (forall k | i - stalls <= k < i :: items[k].Pause?)
    && (stalls < i ==> !items[i - stalls - 1].Pause?)
    && (need == 0 ==> stalls == 0 < i)
    && (forall j | 0 <= j <= i - 100 :: !StallAt(items, j))
  }

  lemma {:induction false} OpeningAfter(items: seq<Item>, i: nat, need: nat, stalls: nat)
    requires OpeningAt(items, i, need, stalls)
    ensures OpeningOf(items[i..], need, stalls)
         == if Stalls(items) then Stalled else if Fails(items) then CutShort else Settled
    decreases |items| - i
  {
    hide StallAt, StillOpening;
    if need == 0 || i == |items| {
      OpeningSettled(items, i, need, stalls);
    } else {
      DataUpTo(items, i, i + 1);
      assert items[i..][1..] == items[i + 1..] && items[i..][0] == items[i];
      match items[i]
      case Data(_) =>
        OpeningOn(items, i, need, stalls);
        OpeningAfter(items, i + 1, need - 1, 0);
      case Fail(_) => OpeningFails(items, i, need, stalls);
      case Pause =>
        if stalls < 99 {
          OpeningOn(items, i, need, stalls);
          OpeningAfter(items, i + 1, need, stalls + 1);
        } else {
          OpeningStalls(items, i, need);
        }
    }
  }

  lemma OpeningSettled(items: seq<Item>, i: nat, need: nat, stalls: nat)
    requires OpeningAt(items, i, need, stalls) && (need == 0 || i == |items|)
    ensures !Stalls(items) && !Fails(items)
  {
    forall j: nat | i <= j <= |items|
      ensures need == 0 ==> !StillOpening(items, j)
    {
      DataUpTo(items, i, j);
    }
    assert forall j: nat | j < i && StallAt(items, j) :: j > i - 100 && i - 1 < j + 100;
    assert need == 0 ==> forall j: nat | j < i :: !StallAt(items, j);
  }

  lemma OpeningOn(items: seq<Item>, i: nat, need: nat, stalls: nat)
    requires OpeningAt(items, i, need, stalls) && need > 0 && i < |items|
    ensures items[i].Data? ==> OpeningAt(items, i + 1, need - 1, 0)
    ensures items[i].Pause? && stalls < 99 ==> OpeningAt(items, i + 1, need, stalls + 1)
  {
    DataUpTo(items, i, i + 1);
  }

  lemma OpeningFails(items: seq<Item>, i: nat, need: nat, stalls: nat)
    requires OpeningAt(items, i, need, stalls) && need > 0 && i < |items| && items[i].Fail?
    ensures !Stalls(items) && Fails(items)
  {
    assert StillOpening(items, i);
    assert forall j: nat | j <= |items| && StallAt(items, j) && StillOpening(items, j) :: j <= i && i < j + 100;
  }

  lemma OpeningStalls(items: seq<Item>, i: nat, need: nat)
    requires OpeningAt(items, i, need, 99) && need > 0 && i < |items| && items[i].Pause?
    ensures Stalls(items)
  {
    DataUpTo(items, i - 99, i);
    assert StallAt(items, i - 99) && StillOpening(items, i - 99);
  }

  lemma DataUpTo(items: seq<Item>, i: nat, j: nat)
    requires i <= j <= |items|
    ensures |DataOf(items[..i])| <= |DataOf(items[..j])|
    ensures j == i + 1 ==> |DataOf(items[..j])| == |DataOf(items[..i])| + if items[i].Data? then 1 else 0
  {
    DataOfBoth(items[..i], items[i..j]);
    assert items[..j] == items[..i] + items[i..j];
    if j == i + 1 {
      assert items[i..j] == [items[i]];
    }
  }

  lemma {:induction false} DataOfBoth(s: seq<Item>, t: seq<Item>)
    ensures DataOf(s + t) == DataOf(s) + DataOf(t)
  {
    if s == [] {
      assert s + t == t;
    } else {
      DataOfBoth(s[1..], t);
      assert (s + t)[1..] == s[1..] + t;
    }
  }

  /**
   The body delivers what it should unless an error the source gets past, or a hundred empty reads before a
   byte order mark is complete, cuts the first three bytes short. An error the source ends with never does.
   */
  lemma {:induction false} DeliveredAsIntendedIff(items: seq<Item>)
    ensures Expected(items) == Intended(items) <==>
      match OpeningOf(items, 3, 0)
      case Settled => true
      case CutShort => false
      case Stalled => !(Bytes(BOM) <= Visible(items))
  {
    OpensAs([], items, 0);
    assert Bytes([]) + Visible(items) == Visible(items);
  }

  function DataOf(items: seq<Item>): seq<byte> {
    if items == [] then []
    else (if items[0].Data? then [items[0].b] else []) + DataOf(items[1..])
  }

  function FailuresOf(items: seq<Item>): seq<nat> {
    if items == [] then []
    else (if items[0].Fail? then [items[0].code] else []) + FailuresOf(items[1..])
  }

  /** The bytes delivered are the source's less one leading mark, unless the peek was cut short before a mark. */
  lemma {:induction false} BytesAsIntendedIff(items: seq<Item>)
    ensures var bytes := DataOf(Visible(items));
      DataOf(Expected(items)) == (if BOM <= bytes then bytes[3..] else bytes) <==>
      OpeningOf(items, 3, 0) == Settled || !(BOM <= bytes)
  {
    OpensAs([], items, 0);
    assert Bytes([]) + Visible(items) == Visible(items);
    var all := Visible(items);
    if Bytes(BOM) <= all {
      DataOfBytes(BOM, all[3..]);
      assert all == Bytes(BOM) + all[3..];
    }
  }

  /** Every error the source gets past is reported, in order, unless one cuts the opening peek short. */
  lemma {:induction false} FailuresReportedIff(items: seq<Item>)
    ensures FailuresOf(Expected(items)) == FailuresOf(Visible(items)) <==> OpeningOf(items, 3, 0) != CutShort
  {
    OpensAs([], items, 0);
    var all := Visible(items);
    assert Bytes([]) + all == all;
    if Bytes(BOM) <= all {
      DataOfBytes(BOM, all[3..]);
      assert all == Bytes(BOM) + all[3..];
    }
  }

  /** An error after the first byte of a byte order mark: the error is never reported and the mark is delivered. */
  lemma EarlyErrorIsLost()
    ensures Expected([Data(0xef), Fail(5), Data(0xbb), Data(0xbf)]) == Bytes(BOM)
  {
  }

  lemma {:induction false} DataOfBytes(data: seq<byte>, rest: seq<Item>)
    ensures DataOf(Bytes(data) + rest) == data + DataOf(rest)
    ensures FailuresOf(Bytes(data) + rest) == FailuresOf(rest)
  {
    if data == [] {
      assert Bytes(data) + rest == rest;
    } else {
      DataOfBytes(data[1..], rest);
      assert (Bytes(data) + rest)[0] == Data(data[0]);
      assert (Bytes(data) + rest)[1..] == Bytes(data[1..]) + rest;
    }
  }

  /** How what the opening peek leaves to deliver compares with all that is visible. */
  predicate OpenedAs(opening: Opening, all: seq<Item>, left: seq<Item>) {
    match opening
    case Settled =>
      left == (if Bytes(BOM) <= all then all[3..] else all) && (BOM <= DataOf(all) <==> Bytes(BOM) <= all)
    case Stalled => left == all
    case CutShort =>
      && |left| == |all| - 1 && !(Bytes(BOM) <= all)
      && DataOf(left) == DataOf(all) && |FailuresOf(left)| == |FailuresOf(all)| - 1
  }

  lemma {:induction false} OpensAs(head: seq<byte>, items: seq<Item>, stalls: nat)
    requires |head| <= 3
    ensures OpenedAs(
      OpeningOf(items, 3 - |head|, stalls), Bytes(head) + Visible(items), OpenFrom(head, items, stalls))
    decreases |items|
  {
    hide OpenedAs;
    if |head| == 3 {
      SettledAs(head, Visible(items));
    } else if items == [] {
      SettledEmpty(head);
    } else {
      var rest := items[1..];
      match items[0]
      case Data(b) =>
        assert Bytes(head + [b]) + Visible(rest) == Bytes(head) + Visible(items);
        OpensAs(head + [b], rest, 0);
      case Fail(code) => CutShortAs(head, code, Visible(rest));
      case Pause =>
        if stalls + 1 < MAX_EMPTY_READS {
          OpensAs(head, rest, stalls + 1);
        } else {
          StalledAs(Bytes(head) + Visible(rest));
        }
    }
  }

  lemma SettledAs(head: seq<byte>, rest: seq<Item>)
    requires |head| == 3
    ensures OpenedAs(Settled, Bytes(head) + rest, Strip(head, rest))
  {
    BomPrefix(head, rest);
    DataOfBytes(head, rest);
    assert (head + DataOf(rest))[..3] == head;
  }

  lemma SettledEmpty(head: seq<byte>)
    requires |head| < 3
    ensures OpenedAs(Settled, Bytes(head) + [], Bytes(head))
  {
    DataOfBytes(head, []);
  }

  lemma StalledAs(all: seq<Item>)
    ensures OpenedAs(Stalled, all, all)
  {
  }

  lemma CutShortAs(head: seq<byte>, code: nat, rest: seq<Item>)
    requires |head| < 3
    ensures OpenedAs(CutShort, Bytes(head) + ([Fail(code)] + rest), Bytes(head) + rest)
  {
    assert (Bytes(head) + ([Fail(code)] + rest))[|head|] == Fail(code);
    DataOfBytes(head, rest);
    DataOfBytes(head, [Fail(code)] + rest);
    assert ([Fail(code)] + rest)[1..] == rest;
  }

  lemma BomPrefix(head: seq<byte>, rest: seq<Item>)
    requires |head| == 3
    ensures Strip(head, rest) == var all := Bytes(head) + rest; if Bytes(BOM) <= all then all[3..] else all
  {
    var all := Bytes(head) + rest;
    assert all[..3] == Bytes(head);
    if Bytes(BOM) <= all {
      forall i | 0 <= i < 3
        ensures head[i] == BOM[i]
      {
        assert Bytes(BOM)[i] == Data(BOM[i]) && all[i] == Data(head[i]);
      }
      assert head == BOM;
    }
  }
}
