/** What callers of the image downloader can rely on in every run: what becomes of a cancelled operation, in
  * which order waiting requests are started, and what goes into the image cache. */
module DownloadPromises {
  import opened Options
  import opened Downloads
  import opened DownloadSafety

  // ----- what else every step keeps -----

  /** The queue is sorted by the age of the requests: oldest first, or newest first. */
  ghost predicate Ordered(s: State) {
    forall i, j | 0 <= i < j < |s.queue| :: if s.lifo then s.queue[i] > s.queue[j] else s.queue[i] < s.queue[j]
  }

  /** Receipts, and images answered, name requests that have been made. */
  ghost predicate Named(s: State) {
    && (forall n | 0 <= n < |s.receipts| && s.receipts[n].Some? :: s.receipts[n].value.request < |s.requests|)
    && forall k | 0 <= k < |s.completed| && s.completed[k].outcome.Image? ::
         s.completed[k].outcome.request < |s.requests|
  }

  /** What the images among some answers add to the cache, each under the URL of its request. */
  function AllAdditions(requests: seq<Request>, cs: seq<Completion>): seq<Addition> {
    if cs == [] then [] else AdditionOf(requests, cs[0]) + AllAdditions(requests, cs[1..])
  }

  function AdditionOf(requests: seq<Request>, c: Completion): seq<Addition> {
    if c.outcome.Image? && c.outcome.request < |requests| then AdditionFor(requests[c.outcome.request].url, c) else []
  }

  ghost predicate Mirrored(s: State) {
    s.added == AllAdditions(s.requests, s.completed)
  }

  // ----- order -----

  lemma StepOrdered(s: State, e: Event)
    requires Structured(s) && Ordered(s) && Enabled(s, e)
    ensures Ordered(Next(s, e)) && Next(s, e).lifo == s.lifo
  {
    hide HandlersOk, RequestsOk, Ordered;
    match e
    case EDownload(url, receiptID, filter, cached) => DownloadOrdered(s, url, receiptID, filter, cached);
    case EStartNext(r) => StartNextOrdered(s, r);
    case ECancel(r, receiptID) =>
      hide IndexOf;
      SameOrder(s, Cancel(s, r, receiptID));
    case _ => SameOrder(s, Next(s, e));
  }

  lemma SameOrder(s: State, t: State)
    requires Ordered(s) && t.queue == s.queue && t.lifo == s.lifo
    ensures Ordered(t)
  {
  }

  lemma DownloadOrdered(s: State, url: string, receiptID: string, filter: Option<ImageFilter>, cached: Option<Image>)
    requires QueueOk(s) && Ordered(s)
    ensures Ordered(Download(s, url, receiptID, filter, cached))
  {
  }

  lemma StartNextOrdered(s: State, r: nat)
    requires QueueOk(s) && Ordered(s) && r < |s.requests|
    ensures Ordered(StartNext(s, r)) && StartNext(s, r).lifo == s.lifo
  {
    var k := StartFirstEffect(s.Set(r, s.requests[r].(phase := Finished)));
  }

  // ----- names -----

  lemma StepNamed(s: State, e: Event)
    requires Structured(s) && ReceiptsOk(s) && Named(s) && Enabled(s, e)
    ensures Named(Next(s, e)) && |Next(s, e).requests| >= |s.requests|
  {
    hide RequestsOk, ReceiptsOk, CancelOperation;
    if e.ECancel? {
      hide HandlersOk;
      CancelNamed(s, e.request, e.receiptID);
    } else if e.EStartNext? {
      var m := s.Set(e.request, s.requests[e.request].(phase := Finished));
      var k := StartFirstEffect(m);
    }
  }

  lemma CancelNamed(s: State, r: nat, receiptID: string)
    requires Named(s) && r < |s.requests|
    ensures Named(Cancel(s, r, receiptID)) && |Cancel(s, r, receiptID).requests| == |s.requests|
  {
  }

  // ----- the image cache -----

  lemma {:induction false} AllAdditionsJoin(requests: seq<Request>, a: seq<Completion>, b: seq<Completion>)
    ensures AllAdditions(requests, a + b) == AllAdditions(requests, a) + AllAdditions(requests, b)
  {
    hide AdditionOf;
    if a == [] {
      assert a + b == b;
    } else {
      AllAdditionsJoin(requests, a[1..], b);
      assert (a + b)[1..] == a[1..] + b;
    }
  }

  lemma {:induction false} SameUrls(requests: seq<Request>, others: seq<Request>, cs: seq<Completion>)
    requires |requests| <= |others| && forall r | 0 <= r < |requests| :: requests[r].url == others[r].url
    requires forall k | 0 <= k < |cs| && cs[k].outcome.Image? :: cs[k].outcome.request < |requests|
    ensures AllAdditions(requests, cs) == AllAdditions(others, cs)
  {
    hide AdditionFor;
    if cs != [] {
      SameUrls(requests, others, cs[1..]);
    }
  }

  lemma {:induction false} AdditionsOfOneRequest(requests: seq<Request>, r: nat, cs: seq<Completion>)
    requires r < |requests| && forall k | 0 <= k < |cs| && cs[k].outcome.Image? :: cs[k].outcome.request == r
    ensures AllAdditions(requests, cs) == Additions(requests[r].url, cs)
  {
    hide AdditionFor;
    if cs != [] {
      AdditionsOfOneRequest(requests, r, cs[1..]);
      if !cs[0].outcome.Image? {
        assert AdditionFor(requests[r].url, cs[0]) == [] by { NoAddition(requests[r].url, cs[0]); }
      }
    }
  }

  lemma NoAddition(url: string, c: Completion)
    requires !c.outcome.Image?
    ensures AdditionFor(url, c) == []
  {
  }

  /** Completions without images add nothing. */
  lemma OtherAnswer(requests: seq<Request>, cs: seq<Completion>, c: Completion)
    requires !c.outcome.Image?
    ensures AllAdditions(requests, cs + [c]) == AllAdditions(requests, cs)
  {
    AllAdditionsJoin(requests, cs, [c]);
    assert [c][1..] == [];
  }

  lemma StepMirrored(s: State, e: Event)
    requires Structured(s) && Named(s) && Mirrored(s) && Enabled(s, e)
    ensures Mirrored(Next(s, e))
  {
    hide HandlersOk, RequestsOk, Mirrored, Named;
    var t := Next(s, e);
    match e
    case ERemove(r) => RemoveMirrored(s, r);
    case ECancel(r, receiptID) => CancelMirrored(s, r, receiptID);
    case EDownload(url, receiptID, filter, cached) => DownloadMirrored(s, url, receiptID, filter, cached);
    case EStartNext(r) =>
      var k := StartFirstEffect(s.Set(r, s.requests[r].(phase := Finished)));
      StaysMirrored(s, t);
    case _ =>
      StaysMirrored(s, t);
  }

  /** Steps that call at most one completion, and not with an image it has to cache. */
  lemma StaysMirrored(s: State, t: State)
    requires Named(s) && Mirrored(s) && t.added == s.added
    requires |t.requests| >= |s.requests| && forall r | 0 <= r < |s.requests| :: t.requests[r].url == s.requests[r].url
    requires t.completed != s.completed ==>
               exists c :: t.completed == s.completed + [c] && !c.outcome.Image?
    ensures Mirrored(t)
  {
    SameUrls(s.requests, t.requests, s.completed);
    if t.completed != s.completed {
      var c :| t.completed == s.completed + [c] && !c.outcome.Image?;
      OtherAnswer(t.requests, s.completed, c);
    }
  }

  lemma CancelMirrored(s: State, r: nat, receiptID: string)
    requires Named(s) && Mirrored(s) && r < |s.requests|
    ensures Mirrored(Cancel(s, r, receiptID))
  {
    hide Named, Mirrored;
    if s.requests[r].url in s.handlers {
      var ops := s.handlers[s.requests[r].url].operations;
      var k := IndexOf(ops, receiptID);
      if k < |ops| {
        assert Cancel(s, r, receiptID).completed == s.completed + [Completion(ops[k], RequestCancelled)];
      }
    }
    StaysMirrored(s, Cancel(s, r, receiptID));
  }

  lemma DownloadMirrored(s: State, url: string, receiptID: string, filter: Option<ImageFilter>, cached: Option<Image>)
    requires Named(s) && Mirrored(s)
    ensures Mirrored(Download(s, url, receiptID, filter, cached))
  {
    hide Named, Mirrored;
    StaysMirrored(s, Download(s, url, receiptID, filter, cached));
  }

  lemma RemoveMirrored(s: State, r: nat)
    requires Named(s) && Mirrored(s) && r < |s.requests| && s.requests[r].phase.Removing?
    ensures Mirrored(Remove(s, r))
  {
    var t := Remove(s, r);
    SameUrls(s.requests, t.requests, s.completed);
    if s.requests[r].url in s.handlers {
      var answers := Answers(r, s.handlers[s.requests[r].url].operations, s.requests[r].phase.answer);
      AdditionsOfOneRequest(t.requests, r, answers);
      AllAdditionsJoin(t.requests, s.completed, answers);
    }
  }

  // ----- every run -----

  ghost predicate Kept(s: State) {
    Ordered(s) && Named(s) && Mirrored(s)
  }

  lemma {:induction false} RunKeeps(s: State, events: seq<Event>, t: State)
    requires Structured(s) && ReceiptsOk(s) && Kept(s) && Runs(s, events, t)
    ensures Kept(t)
    decreases |events|
  {
    hide Structured, ReceiptsOk, Ordered, Named, Mirrored, Next, Enabled;
    if events != [] {
      StepStructured(s, events[0]);
      StepReceipts(s, events[0]);
      StepOrdered(s, events[0]);
      StepNamed(s, events[0]);
      StepMirrored(s, events[0]);
      RunKeeps(Next(s, events[0]), events[1..], t);
    }
  }

  lemma ReachableKept(s: State)
    requires Reachable(s)
    ensures Kept(s)
  {
    var events, maximum, lifo :| Runs(Initial(maximum, lifo), events, s);
    RunKeeps(Initial(maximum, lifo), events, s);
  }

  // ----- main results -----

  /** The request that a start-next step starts is the oldest one waiting, or with last-in first-out the
    * newest. */
  lemma StartsInOrder(s: State, r: nat, t: State, q: nat, other: nat)
    requires Reachable(s) && QueueOk(s) && Enabled(s, EStartNext(r)) && t == Next(s, EStartNext(r))
    requires q < |s.requests| == |t.requests| && s.requests[q].task.Suspended? && t.requests[q].task.Running?
    requires other < |s.requests| && s.requests[other].task.Suspended? && other != q
    ensures if s.lifo then q > other else q < other
  {
    ReachableInvariant(s);
    ReachableKept(s);
    assert RequestOk(s, q) && RequestOk(s, other);
    hide Reachable, Structured, Conserved, CountsOk, ReceiptsOk, Mirrored, Named, HandlersOk, RequestsOk, Ordered;
    var k := StartedIsFirst(s, r, q);
    hide StartNext, StartFirst;
    var j :| 0 <= j < |s.queue| && s.queue[j] == other;
    assert k < j;
    OrderedAt(s, k, j);
  }

  /** What is started is the first in the queue that is still suspended. */
  lemma StartedIsFirst(s: State, r: nat, q: nat) returns (k: nat)
    requires QueueOk(s) && Enabled(s, EStartNext(r)) && q < |s.requests| == |Next(s, EStartNext(r)).requests|
    requires s.requests[q].task.Suspended? && Next(s, EStartNext(r)).requests[q].task.Running?
    ensures k < |s.queue| && s.queue[k] == q
    ensures forall i | 0 <= i < k :: !s.requests[s.queue[i]].task.Suspended?
  {
    var m := s.Set(r, s.requests[r].(phase := Finished));
    assert m.requests[q].task == s.requests[q].task && m.queue == s.queue;
    k := StartFirstEffect(m);
    hide StartFirst;
  }

  lemma OrderedAt(s: State, i: nat, j: nat)
    requires Ordered(s) && i < j < |s.queue|
    ensures if s.lifo then s.queue[i] > s.queue[j] else s.queue[i] < s.queue[j]
  {
  }

  /** The image cache receives exactly the images that completions are called with, in the same order, each
    * for the URL of its request and under the identifier of its filter. */
  lemma CachedAsAnswered(s: State)
    requires Reachable(s)
    ensures s.added == AllAdditions(s.requests, s.completed)
  {
    ReachableKept(s);
  }

  /** No other call to download has given out the same receipt identifier. */
  predicate OnlyReceipt(s: State, c: nat, receiptID: string) {
    forall d | 0 <= d < |s.receipts| && d != c :: s.receipts[d].None? || s.receipts[d].value.receiptID != receiptID
  }

  /** One more call, to completion c, with the error for cancelled requests. */
  predicate CallsCancelled(before: seq<Completion>, after: seq<Completion>, c: nat) {
    var n := |before|;
    && |after| == n + 1 && after[..n] == before
    && after[n].operation.completion == c && after[n].outcome == RequestCancelled
  }

  /** A completion that is cancelled with its receipt is called, although the documentation says that it
    * will not be: right then, with the error for cancelled requests, if it has not been called before. */
  lemma CancelledIsCalled(s: State, c: nat, r: nat, receiptID: string)
    requires Reachable(s) && c < |s.receipts| && s.receipts[c] == Some(Receipt(r, receiptID))
    requires OnlyReceipt(s, c, receiptID)
    ensures Enabled(s, ECancel(r, receiptID)) && WasCalled(Cancel(s, r, receiptID), c)
    ensures WasCalled(s, c) ==> Cancel(s, r, receiptID).completed == s.completed
    ensures !WasCalled(s, c) ==> CallsCancelled(s.completed, Cancel(s, r, receiptID).completed, c)
  {
    ReachableInvariant(s);
    ReachableKept(s);
    ExactlyOnce(s, c);
    hide Reachable, Conserved, CountsOk, Mirrored, Ordered;
    if WasCalled(s, c) {
      NobodyWaits(s, c, r, receiptID);
    } else {
      var url: string, i: nat :| WaitsAt(s, url, i, c);
      assert RightPlace(s.receipts, s.handlers[url].request, s.handlers[url].operations[i]);
      assert url == s.requests[r].url;
      FoundByReceipt(s, url, i, c, r, receiptID);
      CancelCalls(s, r, receiptID, c);
    }
  }

  lemma FoundByReceipt(s: State, url: string, i: nat, c: nat, r: nat, receiptID: string)
    requires ReceiptsOk(s) && WaitsAt(s, url, i, c) && s.receipts[c] == Some(Receipt(r, receiptID))
    requires OnlyReceipt(s, c, receiptID)
    ensures var ops := s.handlers[url].operations;
            IndexOf(ops, receiptID) < |ops| && ops[IndexOf(ops, receiptID)].completion == c
  {
    var ops := s.handlers[url].operations;
    assert RightPlace(s.receipts, s.handlers[url].request, ops[i]);
    var k := IndexOf(ops, receiptID);
    assert k <= i;
    assert RightPlace(s.receipts, s.handlers[url].request, ops[k]);
  }

  lemma CancelCalls(s: State, r: nat, receiptID: string, c: nat)
    requires r < |s.requests| && s.requests[r].url in s.handlers
    requires var ops := s.handlers[s.requests[r].url].operations;
             IndexOf(ops, receiptID) < |ops| && ops[IndexOf(ops, receiptID)].completion == c
    ensures CallsCancelled(s.completed, Cancel(s, r, receiptID).completed, c)
    ensures WasCalled(Cancel(s, r, receiptID), c)
  {
    assert CalledAt(Cancel(s, r, receiptID), |s.completed|, c);
  }

  /** Once a completion has been called, its receipt cancels nothing. */
  lemma NobodyWaits(s: State, c: nat, r: nat, receiptID: string)
    requires ReceiptsOk(s) && c < |s.receipts| && s.receipts[c] == Some(Receipt(r, receiptID)) && r < |s.requests|
    requires OnlyReceipt(s, c, receiptID) && WasCalled(s, c)
    requires !(exists url, i :: WaitsAt(s, url, i, c))
    ensures Cancel(s, r, receiptID).completed == s.completed && WasCalled(Cancel(s, r, receiptID), c)
  {
    var url := s.requests[r].url;
    if url in s.handlers {
      var ops := s.handlers[url].operations;
      var k := IndexOf(ops, receiptID);
      if k < |ops| {
        assert RightPlace(s.receipts, s.handlers[url].request, ops[k]);
        assert WaitsAt(s, url, k, c);
        assert false;
      }
    }
    var k :| CalledAt(s, k, c);
    assert CalledAt(Cancel(s, r, receiptID), k, c);
  }

  // ----- pending requests -----

  /** A pending request is cancelled with the last completion that waits for it, and only with that. */
  lemma LastOneCancels(s: State, c: nat, r: nat, receiptID: string)
    requires Reachable(s) && c < |s.receipts| && s.receipts[c] == Some(Receipt(r, receiptID))
    requires OnlyReceipt(s, c, receiptID) && r < |s.requests| && s.requests[r].task.Suspended? && !WasCalled(s, c)
    ensures var url, t := s.requests[r].url, Cancel(s, r, receiptID);
            && url in s.handlers && |s.handlers[url].operations| > 0 && |t.requests| == |s.requests|
            && (|s.handlers[url].operations| == 1 ==> t.requests[r].task.Canceling? && url !in t.handlers)
            && (|s.handlers[url].operations| > 1 ==>
                  && t.requests == s.requests && url in t.handlers && t.handlers[url].request == r
                  && |t.handlers[url].operations| == |s.handlers[url].operations| - 1)
  {
    ReachableInvariant(s);
    ExactlyOnce(s, c);
    assert RequestOk(s, r);
    hide Reachable, Conserved, CountsOk;
    var url: string, i: nat :| WaitsAt(s, url, i, c);
    assert RightPlace(s.receipts, s.handlers[url].request, s.handlers[url].operations[i]);
    assert url == s.requests[r].url;
    FoundByReceipt(s, url, i, c, r, receiptID);
    hide Invariant, Structured, ReceiptsOk;
  }

  /** Cancelling with a receipt does not cancel a request that has been started. */
  lemma StartedIsNotCancelled(s: State, r: nat, receiptID: string, q: nat)
    requires Enabled(s, ECancel(r, receiptID)) && q < |s.requests| && !s.requests[q].task.Suspended?
    ensures |Cancel(s, r, receiptID).requests| == |s.requests| && Cancel(s, r, receiptID).requests[q] == s.requests[q]
  {
  }

  /** For example: somebody downloads an image and cancels at once. */
  lemma CancelAtOnce(url: string, receiptID: string) returns (s: State)
    ensures Runs(Initial(1, false), [EDownload(url, receiptID, None, None), ECancel(0, receiptID)], s)
    ensures s.completed == [Completion(Operation(receiptID, None, 0), RequestCancelled)]
  {
    var e1, e2 := EDownload(url, receiptID, None, None), ECancel(0, receiptID);
    var s1 := Next(Initial(1, false), e1);
    assert IndexOf(s1.handlers[url].operations, receiptID) == 0;
    s := Next(s1, e2);
    assert [e2][1..] == [] && [e1, e2][1..] == [e2];
    assert Runs(s1, [e2], s);
  }
}
