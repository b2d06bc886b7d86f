/** Filtering a paginated source and paginating what is left (internal/filter/filter.go). */
module Filter {
  import opened Common
  import opened Sorting
  import opened Paging
  import Arithmetic

  /** One page: up to `limit` items after the first `offset`. */
  type Getter<V, E> = (nat, nat) -> Result<seq<V>, E>

  datatype FilterError<E> = GetFailed(cause: E) | ConditionFailed(cause: E)

  datatype FilterResult<V> = FilterResult(items: seq<V>, total: nat, offset: nat)

  /** What the producer sends over the channel. */
  datatype Sent<V, E> = Value(value: V) | Failure(cause: E)

  /** A getter that fails or answers with the right slice of one list. */
  ghost predicate Pages<V, E>(get: Getter<V, E>, all: seq<V>) {
    forall limit: nat, offset: nat :: get(limit, offset).Ok? ==> get(limit, offset).value == Slice(all, limit, offset)
  }

  /** A getter that comes to an end: past some offset it fails or answers with a short page. Where it does
      not, the producer never stops. */
  ghost predicate Ends<V, E>(get: Getter<V, E>, pageLimit: nat, bound: nat) {
    forall offset: nat :: bound <= offset && get(pageLimit, offset).Ok? ==> |get(pageLimit, offset).value| < pageLimit
  }

  lemma PagesEnd<V, E>(get: Getter<V, E>, all: seq<V>, pageLimit: nat)
    requires 1 <= pageLimit && Pages(get, all)
    ensures Ends(get, pageLimit, |all|)
  {
  }

  function Values<V, E>(items: seq<V>): (sent: seq<Sent<V, E>>)
    ensures |sent| == |items| && forall i :: 0 <= i < |items| ==> sent[i] == Value(items[i])
  {
    seq(|items|, i requires 0 <= i < |items| => Value(items[i]))
  }

  /** Everything the producer sends from an offset on. */
  ghost function SentFrom<V, E>(get: Getter<V, E>, bound: nat, pageLimit: nat, offset: nat): seq<Sent<V, E>>
    requires 1 <= pageLimit && Ends(get, pageLimit, bound)
    decreases if offset < bound then bound - offset else 0
  {
    match get(pageLimit, offset)
    case Err(e) => [Failure(e)]
    case Ok(page) =>
      Values(page) + if |page| < pageLimit then [] else SentFrom(get, bound, pageLimit, offset + |page|)
  }

  /** The values kept from a stream, or the first error in it. */
  function Kept<V, E>(stream: seq<Sent<V, E>>, condition: V -> Result<bool, E>): Result<seq<V>, FilterError<E>>
    decreases |stream|
  {
    if stream == [] then Ok([])
    else
      var last := |stream| - 1;
      match Kept(stream[..last], condition)
      case Err(e) => Err(e)
      case Ok(kept) =>
        match stream[last]
        case Failure(cause) => Err(GetFailed(cause))
        case Value(v) =>
          match condition(v)
          case Err(cause) => Err(ConditionFailed(cause))
          case Ok(wanted) => Ok(if wanted then kept + [v] else kept)
  }

  function Outcome<V, E>(kept: Result<seq<V>, FilterError<E>>, limit: nat, offset: nat): Result<FilterResult<V>, FilterError<E>> {
    match kept
    case Err(e) => Err(e)
    case Ok(values) => Ok(FilterResult(Slice(values, limit, offset), |values|, offset))
  }

  /** The producer goroutine and the consumer loop, sharing a channel that buffers one page. Every
      schedule of the two is a choice among the enabled cases; with pages of at least one item some
      case is enabled until both are done, and all schedules give the same answer. */
  method Filter<V, E>(get: Getter<V, E>, condition: V -> Result<bool, E>, pageLimit: nat, limit: nat, offset: nat, ghost bound: nat)
    returns (r: Result<FilterResult<V>, FilterError<E>>)
    requires 1 <= pageLimit && Ends(get, pageLimit, bound)
    ensures r == Outcome(Kept(SentFrom(get, bound, pageLimit, 0), condition), limit, offset)
  {
    hide Kept, Slice, SentFrom, Ends, Fault, Values;
    var next, last := 0, false;                                     // the producer
    var pending: seq<Sent<V, E>>, channel: seq<Sent<V, E>> := [], [];
    var total, items := 0, [];                                      // the consumer
    ghost var received: seq<Sent<V, E>>, kept: seq<V> := [], [];
    ghost var rest := SentFrom(get, bound, pageLimit, 0);
    ghost var whole, queue, ahead := rest, rest, rest;
    KeptNothing(condition, limit, offset);
    NothingBefore(rest);
    while
      invariant 0 <= next && |channel| <= pageLimit
      invariant rest == if last then [] else SentFrom(get, bound, pageLimit, next)
      invariant whole == received + queue && queue == channel + ahead && ahead == pending + rest
      invariant Kept(received, condition) == Ok(kept)
      invariant total == |kept| && items == Slice(kept, limit, offset)
      decreases if last then 0 else if next < bound then bound - next + 1 else 1, |pending|, |channel|
    {
      case !last && pending == [] =>
        NothingBefore(rest);
        StreamStep(get, bound, pageLimit, next);
        var page := get(pageLimit, next);
        match page {
          case Err(cause) =>
            pending, last := [Failure(cause)], true;
          case Ok(values) =>
            pending := Values(values);
            last := |values| == 0 || |values| < pageLimit;
            next := next + |values|;
        }
        rest := if last then [] else SentFrom(get, bound, pageLimit, next);
      case pending != [] && |channel| < pageLimit =>
        MoveOne(channel, pending, rest);
        channel, pending := channel + [pending[0]], pending[1..];
        ahead := pending + rest;
      case channel != [] =>
        var sent := channel[0];
        MoveOne(received, channel, ahead);
        channel := channel[1..];
        queue := channel + ahead;
        Receive(received, sent, queue, condition);
        match sent {
          case Failure(cause) =>
            return Err(GetFailed(cause));
          case Value(value) =>
            var wanted := condition(value);
            if wanted.Err? {
              return Err(ConditionFailed(wanted.error));
            }
            if wanted.value {
              SliceMore(kept, value, limit, offset);
              kept := kept + [value];
              total := total + 1;
              if total > offset && |items| < limit {
                items := items + [value];
              }
            }
        }
        received := received + [sent];
    }
    assert received == whole;
    return Ok(FilterResult(items, total, offset));
  }

  lemma NothingBefore<T>(rest: seq<T>)
    ensures [] + rest == rest
  {
  }

  /** What one element received does to the answer. */
  lemma Receive<V, E>(received: seq<Sent<V, E>>, sent: Sent<V, E>, later: seq<Sent<V, E>>, condition: V -> Result<bool, E>)
    requires Kept(received, condition).Ok?
    ensures var kept := Kept(received, condition).value;
            match sent
            case Failure(cause) => Kept(received + [sent] + later, condition) == Err(GetFailed(cause))
            case Value(v) =>
              match condition(v)
              case Err(cause) => Kept(received + [sent] + later, condition) == Err(ConditionFailed(cause))
              case Ok(wanted) => Kept(received + [sent], condition) == Ok(if wanted then kept + [v] else kept)
  {
    hide Kept;
    KeptStep(received, sent, condition);
    if Kept(received + [sent], condition).Err? {
      KeptStops(received + [sent], later, condition);
    }
  }

  lemma KeptNothing<V, E>(condition: V -> Result<bool, E>, limit: nat, offset: nat)
    ensures Kept([], condition) == Ok([]) && Slice<V>([], limit, offset) == []
  {
  }

  /** One fetch: what the stream from here on consists of, and why there are only so many full pages. */
  lemma StreamStep<V, E>(get: Getter<V, E>, bound: nat, pageLimit: nat, offset: nat)
    requires 1 <= pageLimit && Ends(get, pageLimit, bound)
    ensures var stream := SentFrom(get, bound, pageLimit, offset);
            match get(pageLimit, offset)
            case Err(e) => stream == [Failure(e)]
            case Ok(page) =>
              if |page| < pageLimit then stream == Values(page)
              else offset < bound && stream == Values(page) + SentFrom(get, bound, pageLimit, offset + |page|)
  {
  }

  /** Passing the head of one queue to the end of the queue before it. */
  lemma MoveOne<T>(front: seq<T>, queue: seq<T>, rest: seq<T>)
    requires queue != []
    ensures front + (queue + rest) == (front + [queue[0]]) + (queue[1..] + rest)
  {
  }

  lemma KeptStep<V, E>(received: seq<Sent<V, E>>, sent: Sent<V, E>, condition: V -> Result<bool, E>)
    ensures Kept(received + [sent], condition)
         == match Kept(received, condition)
            case Err(e) => Err(e)
            case Ok(kept) =>
              match sent
              case Failure(cause) => Err(GetFailed(cause))
              case Value(v) =>
                match condition(v)
                case Err(cause) => Err(ConditionFailed(cause))
                case Ok(wanted) => Ok(if wanted then kept + [v] else kept)
  {
    assert (received + [sent])[..|received|] == received;
  }

  /** Nothing after the first error matters. */
  lemma {:induction false} KeptStops<V, E>(front: seq<Sent<V, E>>, later: seq<Sent<V, E>>, condition: V -> Result<bool, E>)
    requires Kept(front, condition).Err?
    ensures Kept(front + later, condition) == Kept(front, condition)
    decreases |later|
  {
    if later == [] {
      assert front + later == front;
    } else {
      var last := |later| - 1;
      KeptStops(front, later[..last], condition);
      assert front + later == (front + later[..last]) + [later[last]];
      KeptStep(front + later[..last], later[last], condition);
    }
  }

  lemma SliceMore<V>(kept: seq<V>, v: V, limit: nat, offset: nat)
    ensures var items := Slice(kept, limit, offset);
            Slice(kept + [v], limit, offset)
              == if |kept| + 1 > offset && |items| < limit then items + [v] else items
  {
  }

  // ---- what the answer means ---------------------------------------------------------

  /** The error an element of the stream stops the iteration with, if any. */
  function Fault<V, E>(sent: Sent<V, E>, condition: V -> Result<bool, E>): Option<FilterError<E>> {
    match sent
    case Failure(cause) => Some(GetFailed(cause))
    case Value(v) => if condition(v).Err? then Some(ConditionFailed(condition(v).error)) else None
  }

  /** The first error in stream order wins, and only an error makes the answer one. */
  lemma {:induction false} FirstErrorWins<V, E>(stream: seq<Sent<V, E>>, condition: V -> Result<bool, E>)
    ensures Kept(stream, condition).Ok? <==> forall i :: 0 <= i < |stream| ==> Fault(stream[i], condition).None?
    ensures forall i :: 0 <= i < |stream| && Fault(stream[i], condition).Some?
                        && (forall j :: 0 <= j < i ==> Fault(stream[j], condition).None?)
              ==> Kept(stream, condition) == Err(Fault(stream[i], condition).value)
    decreases |stream|
  {
    if stream != [] {
      var front := stream[..|stream| - 1];
      FirstErrorWins(front, condition);
      assert forall i :: 0 <= i < |front| ==> front[i] == stream[i];
    }
  }

  /** Without errors, the values kept are the elements that satisfy the condition, in order. */
  lemma {:induction false} KeptIsSelect<V, E>(items: seq<V>, condition: V -> Result<bool, E>, keep: V -> bool)
    requires forall v :: v in items ==> condition(v) == Ok(keep(v))
    ensures Kept(Values(items), condition) == Ok(Select(items, keep))
    decreases |items|
  {
    if items == [] {
      assert Values<V, E>(items) == [];
    } else {
      var last := |items| - 1;
      KeptIsSelect(items[..last], condition, keep);
      KeptSelectMore(items[..last], items[last], condition, keep);
      assert items == items[..last] + [items[last]];
    }
  }

  lemma KeptSelectMore<V, E>(front: seq<V>, v: V, condition: V -> Result<bool, E>, keep: V -> bool)
    requires Kept(Values(front), condition) == Ok(Select(front, keep)) && condition(v) == Ok(keep(v))
    ensures Kept(Values(front + [v]), condition) == Ok(Select(front + [v], keep))
  {
    hide Kept;
    assert Values<V, E>(front + [v]) == Values(front) + [Value(v)];
    KeptStep(Values(front), Value(v), condition);
    SelectAppend(front, [v], keep);
    SelectOne(v, keep);
    assert Select(front, keep) + [] == Select(front, keep);
  }

  ghost predicate PagesFine<V, E>(get: Getter<V, E>, pageLimit: nat, from: nat, to: int)
    requires 1 <= pageLimit
  {
    forall o: nat :: from <= o <= to && o % pageLimit == 0 ==> get(pageLimit, o).Ok?
  }

  lemma NextMultiple(o: nat, offset: nat, pageLimit: nat)
    requires 1 <= pageLimit && offset % pageLimit == 0 && o % pageLimit == 0 && offset < o
    ensures offset + pageLimit <= o && (offset + pageLimit) % pageLimit == 0
  {
    var t := o / pageLimit - offset / pageLimit;
    assert pageLimit * t == o - offset;
    if o - offset < pageLimit {
      Arithmetic.SmallMultiple(pageLimit, t);
    }
    Arithmetic.ModCongruent(offset + pageLimit, offset, pageLimit, 1);
  }

  /** The stream is the whole list, or the list up to the first page that fails and then its failure. */
  lemma {:induction false} StreamShape<V, E>(get: Getter<V, E>, all: seq<V>, pageLimit: nat, offset: nat) returns (end: nat)
    requires 1 <= pageLimit && Pages(get, all) && offset <= |all| && offset % pageLimit == 0
    ensures offset <= end <= |all|
    ensures var stream := SentFrom(get, |all|, pageLimit, offset);
            if PagesFine(get, pageLimit, offset, |all|) then stream == Values(all[offset..])
            else
              && end % pageLimit == 0 && get(pageLimit, end).Err? && PagesFine(get, pageLimit, offset, end - 1)
              && stream == Values(all[offset..end]) + [Failure(get(pageLimit, end).error)]
    decreases |all| - offset
  {
    hide SentFrom;
    PagesEnd(get, all, pageLimit);
    StreamStep(get, |all|, pageLimit, offset);
    end := offset;
    if get(pageLimit, offset).Ok? {
      var page := get(pageLimit, offset).value;
      assert page == Slice(all, pageLimit, offset);
      forall o: nat | offset < o && o % pageLimit == 0
        ensures offset + pageLimit <= o && (offset + pageLimit) % pageLimit == 0
      {
        NextMultiple(o, offset, pageLimit);
      }
      if |page| == pageLimit {
        Arithmetic.ModCongruent(offset + pageLimit, offset, pageLimit, 1);
        end := StreamShape(get, all, pageLimit, offset + pageLimit);
        assert all[offset..] == page + all[offset + pageLimit..];
        assert all[offset..end] == page + all[offset + pageLimit..end];
      }
    }
  }

  /** A source that fails from the start. */
  lemma FailsAtOnce<V, E>(get: Getter<V, E>, all: seq<V>, condition: V -> Result<bool, E>, pageLimit: nat)
    requires 1 <= pageLimit && Pages(get, all) && get(pageLimit, 0).Err?
    ensures Kept(SentFrom(get, |all|, pageLimit, 0), condition) == Err(GetFailed(get(pageLimit, 0).error))
  {
    var failure: Sent<V, E> := Failure(get(pageLimit, 0).error);
    FirstErrorWins([failure], condition);
    assert Fault([failure][0], condition) == Some(GetFailed(get(pageLimit, 0).error));
  }

  /** With pages that never fail and a condition that never errs, filtering across pages is filtering
      the whole list and slicing the result, whatever the page size. */
  lemma FilterIsSelect<V, E>(get: Getter<V, E>, condition: V -> Result<bool, E>, keep: V -> bool, pageLimit: nat,
                             limit: nat, offset: nat, all: seq<V>)
    requires 1 <= pageLimit && Pages(get, all)
    requires PagesFine(get, pageLimit, 0, |all|)
    requires forall v :: v in all ==> condition(v) == Ok(keep(v))
    ensures Outcome(Kept(SentFrom(get, |all|, pageLimit, 0), condition), limit, offset)
         == Ok(FilterResult(Slice(Select(all, keep), limit, offset), |Select(all, keep)|, offset))
  {
    var end := StreamShape(get, all, pageLimit, 0);
    assert all[0..] == all;
    KeptIsSelect(all, condition, keep);
  }
}
