/**
 The limit accounting of an iterator (Query.Limit, Query.Iter, Iter.Next, getMore and replyFunc of
 mgo.v2/session.go) as a state machine: one step for each stretch of code under the iterator's lock,
 with the replies of one server connection arriving in order between them.
 */
module IterLimit {
  import opened Base
  import opened DocQueue

  const MIN_INT32: int := -0x8000_0000
  const MAX_INT32: int := 0x7FFF_FFFF

  /** The one request that can be outstanding: none, one about to be sent, or one sent for a count. */
  datatype Pending = Idle | Asking | Sent(count: int)

  /** The iterator's fields, with what is still under way on the connection. */
  datatype State = State(
    limit: int,               // documents Next may still return; zero for no limit
    opLimit: int,             // the count asked for
    cursor: bool,             // cursorId is not zero
    docsToReceive: int,
    docsBeforeMore: int,
    docs: seq<bytes>,         // docData
    failed: bool,             // err is set
    panicked: bool,
    arriving: nat,            // documents of the current reply not yet received
    pending: Pending)

  datatype Attempt = NoSocket | NotSent | Success

  datatype Event =
    | FirstDoc(doc: bytes, rdocs: nat, more: bool)   // replyFunc for document 0 of a reply
    | NextDoc(doc: bytes)                            // replyFunc for a later document
    | NoDocs(more: bool)                             // replyFunc for a reply without documents
    | ConnectionError                                // replyFunc with an error
    | Ask                                            // Next finds nothing and calls getMore, up to its unlock
    | Send(attempt: Attempt)                         // the rest of getMore
    | Take                                           // Next pops a document
    | Fail                                           // Next fails to unmarshal
    | Close

  // ------------------------------------------------------------------ the steps

  /** What a server may send when asked for count documents: at most that many; any number for zero;
      and a negative count closes the cursor. */
  predicate Served(count: int, rdocs: nat, more: bool)
  {
    (count > 0 ==> rdocs <= count) && (count < 0 ==> rdocs <= -count && !more)
  }

  predicate Enabled(s: State, e: Event)
  {
    && !s.panicked
    && match e
       case FirstDoc(_, rdocs, more) => s.pending.Sent? && s.arriving == 0 && rdocs > 0 && Served(s.pending.count, rdocs, more)
       case NextDoc(_) => s.arriving > 0
       case NoDocs(more) => s.pending.Sent? && s.arriving == 0 && Served(s.pending.count, 0, more)
       case ConnectionError => s.pending.Sent? || s.arriving > 0
       case Ask => !s.failed && s.docs == [] && s.docsToReceive == 0 && s.cursor
       case Send(_) => s.pending.Asking?
       case Take => s.docs != []
       case Fail => true
       case Close => true
  }

  /** Go's conversion of a float to an int. */
  function Trunc(x: real): int
  {
    if x >= 0.0 then x.Floor else -((-x).Floor)
  }

  /** How many documents of a reply are left when the next one is asked for. */
  function Early(prefetch: real, rdocs: nat): int
  {
    Trunc(prefetch * (rdocs as real))
  }

  function BeforeMore(prefetch: real, limit: int, docsToProcess: nat, rdocs: nat): int
  {
    if limit == 0 || docsToProcess < limit then docsToProcess - Early(prefetch, rdocs) else -1
  }

  /** getMore up to the unlock. */
  function StartAsking(s: State): State
  {
    s.(docsToReceive := s.docsToReceive + 1, pending := Asking)
  }

  /** The count getMore settles on. */
  function AskedFor(s: State): int
  {
    var left := s.limit - (s.docsToReceive - 1) - |s.docs|;
    if s.limit > 0 && left < s.opLimit then left else s.opLimit
  }

  /** Next's bookkeeping for a document taken. */
  function Taken(s: State): State
    requires s.docs != []
  {
    var t := s.(docs := s.docs[1..], limit := if s.limit > 0 then s.limit - 1 else s.limit);
    if s.limit == 1 && t.docs != [] then t.(panicked := true)
    else
      var u := if s.limit == 1 then t.(failed := true) else t;
      if u.cursor && !u.failed then
        var v := u.(docsBeforeMore := u.docsBeforeMore - 1);
        if v.docsBeforeMore == -1 then StartAsking(v) else v
      else u
  }

  function Step(prefetch: real, s: State, e: Event): State
    requires Enabled(s, e)
  {
    match e
    case FirstDoc(doc, rdocs, more) =>
      s.(docsToReceive := s.docsToReceive - 1 + (rdocs - 1),
         docsBeforeMore := BeforeMore(prefetch, s.limit, |s.docs| + rdocs, rdocs),
         cursor := more, docs := s.docs + [doc], arriving := rdocs - 1, pending := Idle)
    case NextDoc(doc) =>
      s.(docsToReceive := s.docsToReceive - 1, docs := s.docs + [doc], arriving := s.arriving - 1)
    case NoDocs(more) =>
      s.(docsToReceive := s.docsToReceive - 1, cursor := s.cursor || more, failed := s.failed || !more, pending := Idle)
    case ConnectionError =>
      s.(docsToReceive := s.docsToReceive - 1, failed := true, arriving := 0,
         pending := if s.arriving > 0 then s.pending else Idle)
    case Ask => StartAsking(s)
    case Send(attempt) =>
      (match attempt
       case NoSocket => s.(failed := true, pending := Idle)
       case NotSent =>
         s.(opLimit := AskedFor(s), docsToReceive := s.docsToReceive - 1, failed := true, pending := Idle)
       case Success => s.(opLimit := AskedFor(s), pending := Sent(AskedFor(s))))
    case Take => Taken(s)
    case Fail => s.(failed := true)
    case Close => s.(cursor := false)
  }

  /** Query.Iter for these values of limit and op.limit. */
  function Initial(limit: nat, opLimit: int): State
  {
    State(limit, opLimit, false, 1, 0, [], false, false, 0, Sent(opLimit))
  }

  /** Query.Limit for an int32: the limit and op.limit it sets. */
  function QueryLimit(n: int): (nat, int)
    requires MIN_INT32 <= n <= MAX_INT32
  {
    if n == 1 then (1, -1)
    else if n == MIN_INT32 then (MAX_INT32, MIN_INT32 + 1)
    else if n < 0 then (-n, n)
    else (n, n)
  }

  // ------------------------------------------------------------------ the invariant

  function Abs(i: int): nat
  {
    if i < 0 then -i else i
  }

  /** Documents that an outstanding request can still bring. */
  function Requested(s: State): nat
  {
    if s.pending.Sent? then Abs(s.pending.count) else 0
  }

  /** Kept with and without a limit: docsToReceive counts what is under way, and while a request is
      outstanding no further one can be triggered by Next. */
  predicate OneRequest(s: State)
  {
    && (!s.failed ==> s.docsToReceive == s.arriving + (if s.pending.Idle? then 0 else 1))
    && (s.docsBeforeMore >= 0 && !s.pending.Idle? ==> s.docs == [] && s.arriving == 0)
  }

  /** Kept with a limit: what is queued, arriving and requested never exceeds what Next may still
      return, and a next request has room for at least one document. */
  predicate WithinLimit(s: State)
  {
    && s.limit >= 0 && |s.docs| + s.arriving + Requested(s) <= s.limit
    && (s.limit == 0 ==> s.failed && s.pending.Idle?)
    && (s.pending.Asking? ==> s.docsToReceive - 1 >= s.arriving && |s.docs| + s.docsToReceive - 1 < s.limit)
    && (s.docsBeforeMore >= 0 && s.pending.Idle? && !s.failed ==> |s.docs| + s.arriving < s.limit)
    && (s.pending.Sent? ==> s.pending.count == s.opLimit)
    && s.opLimit != 0
    && (s.opLimit < 0 ==> !s.cursor && !s.pending.Asking?)
  }

  predicate Inv(limited: bool, s: State)
  {
    !s.panicked && OneRequest(s) && if limited then WithinLimit(s) else s.limit == 0
  }

  /** The values of limit and op.limit the accounting is right for. */
  predicate Sound(limit: nat, opLimit: int)
  {
    limit == 0 || 0 < Abs(opLimit) <= limit
  }

  lemma InitialInv(limit: nat, opLimit: int)
    ensures Inv(limit > 0, Initial(limit, opLimit)) <==> Sound(limit, opLimit)
  {
  }

  /** What Query.Limit sets is always right: no more than the n documents asked for, as many in one batch, and
      the cursor is closed after it for one document or a negative number. */
  lemma QueryLimitIsSound(n: int)
    requires -0x8000_0000 <= n <= 0x7FFF_FFFF
    ensures var (limit, opLimit) := QueryLimit(n);
            && Sound(limit, opLimit)
            && limit == Min(Abs(n), 0x7FFF_FFFF) && Abs(opLimit) == limit
            && (opLimit < 0 <==> n < 0 || n == 1)
  {
  }

  /** Every step keeps the invariant, whatever the prefetch and however the replies come in. */
  lemma StepKeepsInv(limited: bool, prefetch: real, s: State, e: Event)
    requires Inv(limited, s) && Enabled(s, e)
    ensures Inv(limited, Step(prefetch, s, e))
  {
    hide Early;
    match e
    case Take => TakeKeepsInv(limited, s);
    case FirstDoc(doc, rdocs, more) => FirstDocKeepsInv(limited, prefetch, s, doc, rdocs, more);
    case _ =>
  }

  lemma FirstDocKeepsInv(limited: bool, prefetch: real, s: State, doc: bytes, rdocs: nat, more: bool)
    requires Inv(limited, s) && Enabled(s, FirstDoc(doc, rdocs, more))
    ensures Inv(limited, Step(prefetch, s, FirstDoc(doc, rdocs, more)))
  {
    hide Early;
  }

  lemma TakeKeepsInv(limited: bool, s: State)
    requires Inv(limited, s) && Enabled(s, Take)
    ensures Inv(limited, Taken(s))
  {
  }

  /** With a limit, every request after the first asks for at least one document and for no more than
      there is room for. */
  lemma RequestsAreRight(prefetch: real, s: State)
    requires Inv(true, s) && Enabled(s, Send(Success))
    ensures var t := Step(prefetch, s, Send(Success));
            t.pending.Sent? && t.pending.count > 0 && |t.docs| + t.arriving + t.pending.count <= t.limit
  {
  }

  /** And for no fewer than that, unless the batch size is smaller. */
  lemma RequestsAreFull(prefetch: real, s: State)
    requires OneRequest(s) && !s.failed && Enabled(s, Send(Success))
    ensures var t := Step(prefetch, s, Send(Success));
            && t.pending.Sent? && t.pending.count <= s.opLimit
            && (t.pending.count == s.opLimit || (s.limit > 0 && |t.docs| + t.arriving + t.pending.count == t.limit))
  {
  }

  // ------------------------------------------------------------------ whole runs

  predicate CanRun(prefetch: real, s: State, events: seq<Event>)
    decreases |events|
  {
    events == [] || (Enabled(s, events[0]) && CanRun(prefetch, Step(prefetch, s, events[0]), events[1..]))
  }

  function Run(prefetch: real, s: State, events: seq<Event>): State
    requires CanRun(prefetch, s, events)
    decreases |events|
  {
    if events == [] then s else Run(prefetch, Step(prefetch, s, events[0]), events[1..])
  }

  lemma {:induction false} RunKeepsInv(limited: bool, prefetch: real, s: State, events: seq<Event>)
    requires Inv(limited, s) && CanRun(prefetch, s, events)
    ensures Inv(limited, Run(prefetch, s, events))
    decreases |events|
  {
    hide Inv, Enabled, Step;
    if events != [] {
      StepKeepsInv(limited, prefetch, s, events[0]);
      RunKeepsInv(limited, prefetch, Step(prefetch, s, events[0]), events[1..]);
    }
  }

  function Arrivals(n: nat): seq<Event>
  {
    if n == 0 then [] else [NextDoc([])] + Arrivals(n - 1)
  }

  function Takes(n: nat): seq<Event>
  {
    if n == 0 then [] else [Take] + Takes(n - 1)
  }

  lemma {:induction false} ArrivalsRun(prefetch: real, s: State, rest: seq<Event>)
    requires !s.panicked
    requires forall t: State :: Arrived(s, t) ==> CanRun(prefetch, t, rest) && Run(prefetch, t, rest).panicked
    ensures CanRun(prefetch, s, Arrivals(s.arriving) + rest) && Run(prefetch, s, Arrivals(s.arriving) + rest).panicked
    decreases s.arriving
  {
    if s.arriving == 0 {
      assert Arrivals(0) + rest == rest;
      assert Arrived(s, s);
    } else {
      var next := Step(prefetch, s, NextDoc([]));
      assert (Arrivals(s.arriving) + rest)[1..] == Arrivals(s.arriving - 1) + rest;
      forall t: State | Arrived(next, t)
        ensures CanRun(prefetch, t, rest) && Run(prefetch, t, rest).panicked
      {
        assert Arrived(s, t);
      }
      ArrivalsRun(prefetch, next, rest);
    }
  }

  /** All the documents of the reply have arrived. */
  predicate Arrived(s: State, t: State)
  {
    && |t.docs| == |s.docs| + s.arriving && t.limit == s.limit && t.cursor == s.cursor && !t.panicked
  }

  lemma {:induction false} TakesPanic(prefetch: real, s: State)
    requires !s.panicked && !s.cursor && 0 < s.limit < |s.docs|
    ensures CanRun(prefetch, s, Takes(s.limit)) && Run(prefetch, s, Takes(s.limit)).panicked
    decreases s.limit
  {
    var next := Step(prefetch, s, Take);
    assert Takes(s.limit)[1..] == Takes(s.limit - 1);
    if s.limit == 1 {
      assert CanRun(prefetch, next, []);
    } else {
      TakesPanic(prefetch, next);
    }
  }

  /** When op.limit is zero or more than the limit, a reply with one document too many, which the server
      may send, leads to the panic. */
  lemma UnsoundPanics(prefetch: real, limit: nat, opLimit: int) returns (events: seq<Event>)
    requires !Sound(limit, opLimit)
    ensures CanRun(prefetch, Initial(limit, opLimit), events) && Run(prefetch, Initial(limit, opLimit), events).panicked
  {
    var s := Initial(limit, opLimit);
    var first := FirstDoc([], limit + 1, false);
    var t := Step(prefetch, s, first);
    forall u: State | Arrived(t, u)
      ensures CanRun(prefetch, u, Takes(limit)) && Run(prefetch, u, Takes(limit)).panicked
    {
      TakesPanic(prefetch, u);
    }
    ArrivalsRun(prefetch, t, Takes(limit));
    events := [first] + (Arrivals(t.arriving) + Takes(limit));
    assert events[1..] == Arrivals(t.arriving) + Takes(limit);
  }

  ghost predicate CanPanic(prefetch: real, limit: nat, opLimit: int)
  {
    exists events :: CanRun(prefetch, Initial(limit, opLimit), events) && Run(prefetch, Initial(limit, opLimit), events).panicked
  }

  /** "data remains after limit exhausted" is unreachable exactly when there is no limit or the count
      asked for is not zero and not past the limit. */
  lemma PanicExactly(prefetch: real, limit: nat, opLimit: int)
    ensures CanPanic(prefetch, limit, opLimit) <==> !Sound(limit, opLimit)
  {
    hide Sound, Run, CanRun;
    if Sound(limit, opLimit) {
      InitialInv(limit, opLimit);
      forall events | CanRun(prefetch, Initial(limit, opLimit), events)
        ensures !Run(prefetch, Initial(limit, opLimit), events).panicked
      {
        RunKeepsInv(limit > 0, prefetch, Initial(limit, opLimit), events);
      }
    } else {
      var events := UnsoundPanics(prefetch, limit, opLimit);
    }
  }

  // ------------------------------------------------------------------ what is delivered

  function DocsIn(e: Event): seq<bytes>
  {
    match e
    case FirstDoc(doc, _, _) => [doc]
    case NextDoc(doc) => [doc]
    case _ => []
  }

  function DocsOut(s: State, e: Event): seq<bytes>
    requires Enabled(s, e)
  {
    if e == Take then [s.docs[0]] else []
  }

  /** The documents that arrive, and those that Next takes, in a run. */
  function Received(events: seq<Event>): seq<bytes>
  {
    if events == [] then [] else DocsIn(events[0]) + Received(events[1..])
  }

  function Delivered(prefetch: real, s: State, events: seq<Event>): seq<bytes>
    requires CanRun(prefetch, s, events)
    decreases |events|
  {
    if events == [] then []
    else DocsOut(s, events[0]) + Delivered(prefetch, Step(prefetch, s, events[0]), events[1..])
  }

  lemma OneStepDelivers(prefetch: real, s: State, e: Event)
    requires Enabled(s, e)
    ensures DocsOut(s, e) + Step(prefetch, s, e).docs == s.docs + DocsIn(e)
    ensures Step(prefetch, s, e).limit == if e == Take && s.limit > 0 then s.limit - 1 else s.limit
  {
    hide Early;
    if e == Take {
      assert [s.docs[0]] + s.docs[1..] == s.docs;
    }
  }

  /** Documents are returned once each, in the order they were received. */
  lemma {:induction false} DeliveredInOrder(prefetch: real, s: State, events: seq<Event>)
    requires CanRun(prefetch, s, events)
    ensures Delivered(prefetch, s, events) + Run(prefetch, s, events).docs == s.docs + Received(events)
    decreases |events|
  {
    hide Step, DocsOut, DocsIn, Enabled;
    if events == [] {
      assert s.docs + [] == s.docs;
    } else {
      var e, next := events[0], Step(prefetch, s, events[0]);
      OneStepDelivers(prefetch, s, e);
      DeliveredInOrder(prefetch, next, events[1..]);
      var later, left := Delivered(prefetch, next, events[1..]), Run(prefetch, next, events[1..]).docs;
      Regrouped(DocsOut(s, e), later, left, next.docs, Received(events[1..]), s.docs, DocsIn(e));
    }
  }

  lemma Regrouped(taken: seq<bytes>, later: seq<bytes>, left: seq<bytes>, docs: seq<bytes>, rest: seq<bytes>,
                  before: seq<bytes>, arrived: seq<bytes>)
    requires later + left == docs + rest && taken + docs == before + arrived
    ensures taken + later + left == before + (arrived + rest)
  {
    assert taken + later + left == taken + (later + left);
    assert taken + docs + rest == taken + (docs + rest);
    assert before + arrived + rest == before + (arrived + rest);
  }

  lemma {:induction false} DeliveredCounts(prefetch: real, s: State, events: seq<Event>)
    requires CanRun(prefetch, s, events) && Inv(true, s)
    ensures |Delivered(prefetch, s, events)| + Run(prefetch, s, events).limit == s.limit
    decreases |events|
  {
    hide Step;
    if events != [] {
      OneStepDelivers(prefetch, s, events[0]);
      StepKeepsInv(true, prefetch, s, events[0]);
      DeliveredCounts(prefetch, Step(prefetch, s, events[0]), events[1..]);
    }
  }

  /** In any run of a query with a sound limit, Next returns a prefix of the documents received, and
      never more of them than the limit. */
  lemma AtMostTheLimit(prefetch: real, limit: nat, opLimit: int, events: seq<Event>)
    requires Sound(limit, opLimit) && CanRun(prefetch, Initial(limit, opLimit), events)
    ensures Delivered(prefetch, Initial(limit, opLimit), events) <= Received(events)
    ensures limit > 0 ==> |Delivered(prefetch, Initial(limit, opLimit), events)| <= limit
  {
    hide Delivered, Run, CanRun, Received;
    DeliveredInOrder(prefetch, Initial(limit, opLimit), events);
    assert [] + Received(events) == Received(events);
    InitialInv(limit, opLimit);
    if limit > 0 {
      DeliveredCounts(prefetch, Initial(limit, opLimit), events);
      RunKeepsInv(true, prefetch, Initial(limit, opLimit), events);
    }
  }

  // ------------------------------------------------------------------ nothing is left behind

  /** No connection error, no document that does not unmarshal, and nobody closes the iterator. */
  predicate Untroubled(e: Event)
  {
    !e.ConnectionError? && !e.Fail? && !e.Close? && (e.Send? ==> e.attempt == Success)
  }

  predicate AllUntroubled(events: seq<Event>)
  {
    forall i :: 0 <= i < |events| ==> Untroubled(events[i])
  }

  /** Whether the last reply said that there is more. */
  function SaidMore(e: Event, said: Option<bool>): Option<bool>
  {
    match e
    case FirstDoc(_, _, more) => Some(more)
    case NoDocs(more) => Some(more)
    case _ => said
  }

  function LastSaid(events: seq<Event>, said: Option<bool>): Option<bool>
  {
    if events == [] then said else LastSaid(events[1..], SaidMore(events[0], said))
  }

  /** The cursor is what the last reply said, and only its saying no or a limit used up ends the iteration. */
  predicate Informed(limited: bool, s: State, said: Option<bool>)
  {
    && OneRequest(s) && s.limit >= 0 && (!limited ==> s.limit == 0)
    && (limited && s.limit == 0 ==> s.failed || s.panicked)
    && (s.failed ==> (limited && s.limit == 0) || (said == Some(false) && s.pending.Idle?))
    && (!s.failed && said.Some? ==> s.cursor == said.value)
    && (said.None? ==> s.failed || s.pending.Sent?)
    && (said.None? ==> s.arriving == 0 && s.docs == [] && !s.cursor)
  }

  lemma StaysInformed(limited: bool, prefetch: real, s: State, said: Option<bool>, e: Event)
    requires Informed(limited, s, said) && Enabled(s, e) && Untroubled(e)
    ensures Informed(limited, Step(prefetch, s, e), SaidMore(e, said))
  {
    hide Early;
    match e
    case Take =>
    case FirstDoc(_, _, _) =>
    case _ =>
  }

  lemma {:induction false} RunStaysInformed(limited: bool, prefetch: real, s: State, said: Option<bool>, events: seq<Event>)
    requires Informed(limited, s, said) && CanRun(prefetch, s, events) && AllUntroubled(events)
    ensures Informed(limited, Run(prefetch, s, events), LastSaid(events, said))
    decreases |events|
  {
    hide Informed, Enabled, Step, SaidMore;
    if events != [] {
      StaysInformed(limited, prefetch, s, said, events[0]);
      assert forall i :: 0 <= i < |events[1..]| ==> events[1..][i] == events[i + 1];
      RunStaysInformed(limited, prefetch, Step(prefetch, s, events[0]), SaidMore(events[0], said), events[1..]);
    }
  }

  lemma {:induction false} DeliveredAndLeft(prefetch: real, s: State, events: seq<Event>)
    requires CanRun(prefetch, s, events) && s.limit >= 0
    ensures var n, left := |Delivered(prefetch, s, events)|, Run(prefetch, s, events).limit;
            left >= 0 && n + left >= s.limit && (left > 0 ==> n + left == s.limit)
    decreases |events|
  {
    hide Step;
    if events != [] {
      OneStepDelivers(prefetch, s, events[0]);
      DeliveredAndLeft(prefetch, Step(prefetch, s, events[0]), events[1..]);
    }
  }

  /** Nothing is queued, arriving or asked for. */
  predicate AtRest(s: State)
  {
    s.docs == [] && s.arriving == 0 && s.pending.Idle?
  }

  /** In a run without trouble an iterator at rest has returned everything it received, and Next goes on to ask
      for more exactly when the last reply said that there is more and the limit is not used up. So the iteration
      ends with a reply that says there is no more, or with as many documents as the limit, whatever the prefetch,
      the batches and the order of events. */
  lemma EndsOnlyAtTheEnd(prefetch: real, limit: nat, opLimit: int, events: seq<Event>)
    requires CanRun(prefetch, Initial(limit, opLimit), events) && AllUntroubled(events)
    requires AtRest(Run(prefetch, Initial(limit, opLimit), events))
    ensures var delivered := Delivered(prefetch, Initial(limit, opLimit), events);
            && delivered == Received(events)
            && (Enabled(Run(prefetch, Initial(limit, opLimit), events), Ask)
                <==> LastSaid(events, None) == Some(true) && (limit == 0 || |delivered| < limit))
  {
    hide Run, CanRun, Delivered, Received, LastSaid, AllUntroubled;
    var s := Initial(limit, opLimit);
    var t, delivered := Run(prefetch, s, events), Delivered(prefetch, s, events);
    RunStaysInformed(limit > 0, prefetch, s, None, events);
    DeliveredAndLeft(prefetch, s, events);
    DeliveredInOrder(prefetch, s, events);
    RunNeverPanicked(prefetch, s, events);
    assert delivered + [] == delivered && [] + Received(events) == Received(events);
  }

  /** The panic leaves documents in the queue. */
  lemma {:induction false} RunNeverPanicked(prefetch: real, s: State, events: seq<Event>)
    requires CanRun(prefetch, s, events) && !s.panicked
    ensures Run(prefetch, s, events).panicked ==> Run(prefetch, s, events).docs != []
    decreases |events|
  {
    hide Early;
    if events != [] {
      var t := Step(prefetch, s, events[0]);
      if t.panicked {
        assert events[1..] == [];
      } else {
        RunNeverPanicked(prefetch, t, events[1..]);
      }
    }
  }

  // ------------------------------------------------------------------ when more is asked for in advance

  /** The share of a reply that is still there when the next one is asked for is rounded towards zero. */
  lemma EarlyIsRounded(prefetch: real, rdocs: nat)
    ensures var share, early := prefetch * (rdocs as real), Early(prefetch, rdocs) as real;
            if share >= 0.0 then early <= share < early + 1.0 else early - 1.0 < share <= early
  {
  }

  /** A reply has come in whose next one is to be asked for when this many documents are left. */
  predicate CameIn(s: State, early: int)
  {
    && s.cursor && !s.failed && !s.panicked && s.pending.Idle? && s.arriving == 0
    && (s.limit == 0 || |s.docs| < s.limit) && s.docsBeforeMore == |s.docs| - early
  }

  lemma {:induction false} TakenInAdvance(prefetch: real, s: State, early: int, n: nat)
    requires CameIn(s, early) && early <= |s.docs| && n <= |s.docs| && n <= |s.docs| - early + 1
    ensures CanRun(prefetch, s, Takes(n))
    ensures var t := Run(prefetch, s, Takes(n));
            |t.docs| == |s.docs| - n && (t.pending == if n == |s.docs| - early + 1 then Asking else Idle)
    decreases n
  {
    if n == 1 {
      assert Takes(1) == [Take] + Takes(0);
      var t := Step(prefetch, s, Take);
      assert CanRun(prefetch, t, []) && Run(prefetch, t, []) == t;
      assert [Take][1..] == [];
    } else if n > 1 {
      var t := Step(prefetch, s, Take);
      assert Takes(n)[1..] == Takes(n - 1);
      TakenInAdvance(prefetch, t, early, n - 1);
    }
  }

  lemma {:induction false} ArrivalsComeIn(prefetch: real, s: State, rest: seq<Event>)
    requires !s.panicked
    ensures var t := s.(docs := s.docs + seq(s.arriving, i => []), docsToReceive := s.docsToReceive - s.arriving, arriving := 0);
            && (CanRun(prefetch, s, Arrivals(s.arriving) + rest) <==> CanRun(prefetch, t, rest))
            && (CanRun(prefetch, t, rest) ==> Run(prefetch, s, Arrivals(s.arriving) + rest) == Run(prefetch, t, rest))
    decreases s.arriving
  {
    var t := s.(docs := s.docs + seq(s.arriving, i => []), docsToReceive := s.docsToReceive - s.arriving, arriving := 0);
    if s.arriving == 0 {
      assert Arrivals(0) + rest == rest && t == s;
    } else {
      var next := Step(prefetch, s, NextDoc([]));
      var events := Arrivals(s.arriving) + rest;
      assert events[0] == NextDoc([]) && events[1..] == Arrivals(s.arriving - 1) + rest;
      assert next.docs + seq(next.arriving, i => []) == t.docs;
      ArrivalsComeIn(prefetch, next, rest);
    }
  }

  /** After a reply that the limit leaves room behind, documents are taken without a request until one fewer is
      left than the share of that reply; the one that leaves fewer sends it. */
  lemma AskedInAdvance(prefetch: real, s: State, doc: bytes, rdocs: nat, n: nat)
    requires Enabled(s, FirstDoc(doc, rdocs, true)) && OneRequest(s) && !s.failed
    requires s.limit == 0 || |s.docs| + rdocs < s.limit
    requires 0 <= Early(prefetch, rdocs) <= |s.docs| + rdocs
    requires n <= |s.docs| + rdocs && n <= |s.docs| + rdocs - Early(prefetch, rdocs) + 1
    ensures var events := [FirstDoc(doc, rdocs, true)] + (Arrivals(rdocs - 1) + Takes(n));
            CanRun(prefetch, s, events)
            && var t := Run(prefetch, s, events);
               |t.docs| == |s.docs| + rdocs - n
               && (t.pending == if |t.docs| == Early(prefetch, rdocs) - 1 then Asking else Idle)
  {
    hide Early, Run, CanRun, Arrivals, Takes;
    var first := FirstDoc(doc, rdocs, true);
    var mid := Step(prefetch, s, first);
    var t := mid.(docs := mid.docs + seq(mid.arriving, i => []), docsToReceive := mid.docsToReceive - mid.arriving,
                  arriving := 0);
    assert CameIn(t, Early(prefetch, rdocs));
    TakenInAdvance(prefetch, t, Early(prefetch, rdocs), n);
    ArrivalsComeIn(prefetch, mid, Takes(n));
    RunFirst(prefetch, s, first, Arrivals(rdocs - 1) + Takes(n));
  }

  lemma RunFirst(prefetch: real, s: State, e: Event, rest: seq<Event>)
    requires Enabled(s, e)
    ensures CanRun(prefetch, s, [e] + rest) <==> CanRun(prefetch, Step(prefetch, s, e), rest)
    ensures CanRun(prefetch, s, [e] + rest) ==> Run(prefetch, s, [e] + rest) == Run(prefetch, Step(prefetch, s, e), rest)
  {
    hide Step, Enabled;
    assert ([e] + rest)[1..] == rest;
  }

  // ------------------------------------------------------------------ the iterator object

  /** What replyFunc is called with. */
  datatype Reply = Error | Nothing(more: bool) | Document(docNum: nat, doc: bytes, replyDocs: nat, more: bool)

  function EventOf(reply: Reply): Event
  {
    match reply
    case Error => ConnectionError
    case Nothing(more) => NoDocs(more)
    case Document(docNum, doc, replyDocs, more) =>
      if docNum == 0 then FirstDoc(doc, replyDocs, more) else NextDoc(doc)
  }

  /** The document numbered zero is the one that announces the others. */
  lemma FirstIsNumberZero(docNum: nat, doc: bytes, replyDocs: nat, more: bool)
    ensures EventOf(Document(0, doc, replyDocs, more)) == FirstDoc(doc, replyDocs, more)
    ensures docNum > 0 ==> EventOf(Document(docNum, doc, replyDocs, more)) == NextDoc(doc)
  {
  }

  class Iter {
    var limit: int
    var opLimit: int
    var cursor: bool
    var docsToReceive: int
    var docsBeforeMore: int
    var failed: bool
    const docData: Queue<bytes>
    const prefetch: real

    // What is under way on the connection.
    ghost var arriving: nat
    ghost var pending: Pending

    ghost predicate Valid()
      reads this, docData, docData.elems
    {
      docData.Valid()
    }

    ghost function AsState(): State
      requires Valid()
      reads this, docData, docData.elems
    {
      State(limit, opLimit, cursor, docsToReceive, docsBeforeMore, docData.Contents(), failed, false, arriving, pending)
    }

    /** Query.Iter. */
    constructor (limit: nat, opLimit: int, prefetch: real)
      ensures Valid() && fresh(docData) && fresh(docData.elems)
      ensures AsState() == Initial(limit, opLimit) && this.prefetch == prefetch
    {
      this.limit, this.opLimit, this.prefetch := limit, opLimit, prefetch;
      cursor, failed, docsBeforeMore := false, false, 0;
      docsToReceive := 1;
      docData := new Queue<bytes>();
      arriving, pending := 0, Sent(opLimit);
    }

    /** replyFunc. */
    method ReplyFunc(reply: Reply)
      requires Valid() && Enabled(AsState(), EventOf(reply))
      modifies this, docData, docData.elems
      ensures Valid() && AsState() == Step(prefetch, old(AsState()), EventOf(reply))
      ensures docData.elems == old(docData.elems) || fresh(docData.elems)
    {
      hide Served, Early;
      if reply.Document? {
        ReceiveDocument(reply.docNum, reply.doc, reply.replyDocs, reply.more);
        return;
      }
      docsToReceive := docsToReceive - 1;
      if reply.Error? {
        failed := true;
        if arriving == 0 {
          pending := Idle;
        }
        arriving := 0;
        return;
      }
      if reply.more {
        cursor := true;
      } else {
        failed := true;
      }
      pending := Idle;
    }

    /** replyFunc with a document; the first of a reply announces the others. */
    method ReceiveDocument(docNum: nat, doc: bytes, rdocs: nat, more: bool)
      requires Valid() && Enabled(AsState(), EventOf(Document(docNum, doc, rdocs, more)))
      modifies this, docData, docData.elems
      ensures Valid() && AsState() == Step(prefetch, old(AsState()), EventOf(Document(docNum, doc, rdocs, more)))
      ensures docData.elems == old(docData.elems) || fresh(docData.elems)
    {
      hide Served, Early;
      docsToReceive := docsToReceive - 1;
      if docNum == 0 {
        docsToReceive := docsToReceive + (rdocs - 1);
        var docsToProcess := docData.Len() + rdocs;
        if limit == 0 || docsToProcess < limit {
          docsBeforeMore := docsToProcess - Early(prefetch, rdocs);
        } else {
          docsBeforeMore := -1;
        }
        cursor := more;
        arriving, pending := rdocs - 1, Idle;
      } else {
        arriving := arriving - 1;
      }
      docData.Push(doc);
    }

    /** getMore up to where it unlocks the iterator. */
    method StartGetMore()
      requires Valid()
      modifies this`docsToReceive, this`pending
      ensures Valid() && AsState() == StartAsking(old(AsState()))
    {
      docsToReceive := docsToReceive + 1;
      pending := Asking;
    }

    /** The rest of getMore; attempt says how far the connection lets it come. */
    method FinishGetMore(attempt: Attempt)
      requires Valid() && pending.Asking?
      modifies this
      ensures Valid() && AsState() == Step(prefetch, old(AsState()), Send(attempt))
    {
      if attempt == NoSocket {
        failed := true;
        pending := Idle;
        return;
      }
      if limit > 0 {
        var left := limit - (docsToReceive - 1) - docData.Len();
        if left < opLimit {
          opLimit := left;
        }
      }
      pending := Sent(opLimit);
      if attempt == NotSent {
        docsToReceive := docsToReceive - 1;
        failed := true;
        pending := Idle;
      }
    }

    /** What Next does with a document it finds; None for the panic. */
    method TakeDoc() returns (doc: Option<bytes>, close: bool)
      requires Valid() && docData.Contents() != []
      modifies this, docData, docData.elems
      ensures Valid() && doc == (if Step(prefetch, old(AsState()), Take).panicked then None else Some(old(docData.Contents())[0]))
      ensures doc.Some? ==> AsState() == Step(prefetch, old(AsState()), Take)
      ensures close <==> doc.Some? && old(limit) == 1
    {
      close := false;
      var popped := docData.Pop();
      if limit > 0 {
        limit := limit - 1;
        if limit == 0 {
          if docData.Len() > 0 {
            return None, false;
          }
          failed := true;
          close := true;
        }
      }
      if cursor && !failed {
        docsBeforeMore := docsBeforeMore - 1;
        if docsBeforeMore == -1 {
          StartGetMore();
        }
      }
      doc := popped;
    }
  }
}
