/** What each completion is called with, told from the calls to the downloader and the answers of the
  * session. */
module DownloadHistory {
  import opened Options
  import opened Downloads
  import opened DownloadSafety

  /** The calls to download, in order: completion c comes with call c. */
  function Calls(events: seq<Event>): seq<Event> {
    if events == [] then []
    else
      var n := |events| - 1;
      Calls(events[..n]) + (if events[n].EDownload? then [events[n]] else [])
  }

  /** The operation was made by a call for this URL. */
  predicate MadeBy(calls: seq<Event>, url: string, op: Operation) {
    && op.completion < |calls| && calls[op.completion].EDownload?
    && calls[op.completion].url == url && calls[op.completion].receiptID == op.receiptID
    && calls[op.completion].filter == op.filter
  }

  /** Some call for this URL came with the filter. */
  ghost predicate Offered(calls: seq<Event>, url: string, filter: ImageFilter) {
    exists c | 0 <= c < |calls| ::
      calls[c].EDownload? && calls[c].url == url && calls[c].filter == Some(filter)
  }

  /** The image answered for this URL, with a filter of the right identifier if the call had one. */
  ghost predicate Wanted(calls: seq<Event>, url: string, op: Operation, data: nat, image: Image) {
    match op.filter
    case None => image == Original(data)
    case Some(f) =>
      && image.Filtered? && image.image == Original(data) && image.filter.identifier == f.identifier
      && Offered(calls, url, image.filter)
  }

  /** Why a completion has been called: the call that it came with asked for it, and a cached image was at
    * hand, or a request for the same URL was answered, or the call was cancelled. */
  ghost predicate Due(events: seq<Event>, requests: seq<Request>, c: Completion) {
    var calls, op := Calls(events), c.operation;
    && op.completion < |calls| && calls[op.completion].EDownload?
    && var url := calls[op.completion].url;
       && MadeBy(calls, url, op)
       && match c.outcome
          case FromCache(image) => calls[op.completion].cached == Some(image)
          case Image(r, image) =>
            && r < |requests| && requests[r].url == url
            && exists data :: ERespond(r, Success(data)) in events && Wanted(calls, url, op, data, image)
          case Error(r) => r < |requests| && requests[r].url == url && ERespond(r, Failure) in events
          case RequestCancelled =>
            exists r | 0 <= r < |requests| :: requests[r].url == url && ECancel(r, op.receiptID) in events
  }

  // ----- the invariant -----

  ghost predicate HandlersMade(events: seq<Event>, s: State) {
    && |s.receipts| == |Calls(events)|
    && forall url | url in s.handlers :: OpsMade(Calls(events), url, s.handlers[url].operations)
  }

  ghost predicate OpsMade(calls: seq<Event>, url: string, ops: seq<Operation>) {
    && (forall k | 0 <= k < |ops| :: MadeBy(calls, url, ops[k]))
    && forall j, k | 0 <= j < k < |ops| :: ops[j].completion < ops[k].completion
  }

  ghost predicate AnswersGiven(events: seq<Event>, s: State) {
    && (forall r | 0 <= r < |s.requests| && s.requests[r].phase.Fetching? ::
          ERespond(r, s.requests[r].phase.answer) in events)
    && (forall r | 0 <= r < |s.requests| && s.requests[r].phase.Removing? ::
          ERespond(r, s.requests[r].phase.answer) in events)
  }

  ghost predicate AllDue(events: seq<Event>, requests: seq<Request>, cs: seq<Completion>) {
    forall k | 0 <= k < |cs| :: Due(events, requests, cs[k])
  }

  // ----- one more step -----

  lemma CallsOfMore(events: seq<Event>, e: Event)
    ensures Calls(events + [e]) == Calls(events) + (if e.EDownload? then [e] else [])
  {
    assert (events + [e])[..|events|] == events;
  }

  /** What was due stays so. */
  lemma StaysDue(events: seq<Event>, e: Event, requests: seq<Request>, others: seq<Request>, c: Completion)
    requires Due(events, requests, c) && |requests| <= |others|
    requires forall r | 0 <= r < |requests| :: others[r].url == requests[r].url
    ensures Due(events + [e], others, c)
  {
    CallsOfMore(events, e);
    hide Calls;
    var calls, url, op := Calls(events), Calls(events)[c.operation.completion].url, c.operation;
    match c.outcome
    case Image(r, image) =>
      var data :| ERespond(r, Success(data)) in events && Wanted(calls, url, op, data, image);
      StaysWanted(calls, Calls(events + [e]), url, op, data, image);
      assert ERespond(r, Success(data)) in events + [e];
    case RequestCancelled =>
      var r :| 0 <= r < |requests| && requests[r].url == url && ECancel(r, op.receiptID) in events;
      assert others[r].url == url && ECancel(r, op.receiptID) in events + [e];
    case _ =>
  }

  lemma StaysWanted(calls: seq<Event>, more: seq<Event>, url: string, op: Operation, data: nat, image: Image)
    requires Wanted(calls, url, op, data, image) && |calls| <= |more| && more[..|calls|] == calls
    ensures Wanted(more, url, op, data, image)
  {
    if op.filter.Some? {
      var c :| 0 <= c < |calls| && calls[c].EDownload? && calls[c].url == url && calls[c].filter == Some(image.filter);
      assert more[c] == more[..|calls|][c];
    }
  }

  /** Starting the next request changes tasks only. */
  lemma StartNextChanges(s: State, r: nat)
    requires QueueOk(s) && r < |s.requests|
    ensures var t := StartNext(s, r);
            && t.handlers == s.handlers && t.receipts == s.receipts && t.completed == s.completed
            && |t.requests| == |s.requests|
            && forall i | 0 <= i < |s.requests| ::
                 && t.requests[i].url == s.requests[i].url
                 && t.requests[i].phase == if i == r then Finished else s.requests[i].phase
  {
    var m := s.Set(r, s.requests[r].(phase := Finished));
    assert m.queue == s.queue && |m.requests| == |s.requests|;
    if m.BelowMaximum() {
      var k := StartFirstEffect(m);
    }
    hide StartFirst, QueueOk;
  }

  lemma UrlsStay(s: State, e: Event)
    requires QueueOk(s) && Enabled(s, e)
    ensures |s.requests| <= |Next(s, e).requests|
    ensures forall i | 0 <= i < |s.requests| :: Next(s, e).requests[i].url == s.requests[i].url
  {
    if e.EStartNext? {
      StartNextChanges(s, e.request);
    }
    hide QueueOk, StartNext;
  }

  lemma StepMade(events: seq<Event>, s: State, e: Event)
    requires HandlersMade(events, s) && QueueOk(s) && Enabled(s, e)
    ensures HandlersMade(events + [e], Next(s, e))
  {
    CallsOfMore(events, e);
    hide Calls, QueueOk;
    match e
    case EDownload(url, receiptID, filter, cached) => DownloadMade(events, s, e);
    case ECancel(r, receiptID) => CancelMade(Calls(events), s, r, receiptID);
    case EStartNext(r) =>
      StartNextChanges(s, r);
      hide StartNext;
    case _ =>
  }

  lemma DownloadMade(events: seq<Event>, s: State, e: Event)
    requires HandlersMade(events, s) && e.EDownload? && Calls(events + [e]) == Calls(events) + [e]
    ensures HandlersMade(events + [e], Download(s, e.url, e.receiptID, e.filter, e.cached))
  {
    hide Calls;
    var t := Download(s, e.url, e.receiptID, e.filter, e.cached);
    var calls, more := Calls(events), Calls(events + [e]);
    forall url | url in t.handlers
      ensures OpsMade(more, url, t.handlers[url].operations)
    {
      if url in s.handlers {
        assert OpsMade(calls, url, s.handlers[url].operations);
      }
    }
  }

  lemma CancelMade(calls: seq<Event>, s: State, r: nat, receiptID: string)
    requires r < |s.requests| && forall url | url in s.handlers :: OpsMade(calls, url, s.handlers[url].operations)
    ensures var t := Cancel(s, r, receiptID);
            && t.receipts == s.receipts
            && forall url | url in t.handlers :: OpsMade(calls, url, t.handlers[url].operations)
  {
    var url := s.requests[r].url;
    if url in s.handlers {
      assert OpsMade(calls, url, s.handlers[url].operations);
    }
  }

  lemma StepGiven(events: seq<Event>, s: State, e: Event)
    requires AnswersGiven(events, s) && QueueOk(s) && Enabled(s, e)
    ensures AnswersGiven(events + [e], Next(s, e))
  {
    if e.EStartNext? {
      StartNextChanges(s, e.request);
    }
    hide QueueOk, StartNext;
    var t := Next(s, e);
    forall r | 0 <= r < |t.requests|
      ensures t.requests[r].phase.Fetching? ==> ERespond(r, t.requests[r].phase.answer) in events + [e]
      ensures t.requests[r].phase.Removing? ==> ERespond(r, t.requests[r].phase.answer) in events + [e]
    {
      if !(e.ERespond? && e.request == r) && r < |s.requests| {
        PhaseBefore(s, e, r);
      }
    }
  }

  lemma PhaseBefore(s: State, e: Event, r: nat)
    requires QueueOk(s) && Enabled(s, e) && r < |s.requests| <= |Next(s, e).requests|
    requires !(e.ERespond? && e.request == r)
    ensures var before, after := s.requests[r].phase, Next(s, e).requests[r].phase;
            && (after.Fetching? ==> before == after)
            && (after.Removing? ==> before == after || before == Fetching(after.answer))
  {
    if e.EStartNext? {
      StartNextChanges(s, e.request);
    }
    hide QueueOk, StartNext;
  }

  /** The answers to the operations of a handler are due. */
  lemma AnswersDue(events: seq<Event>, requests: seq<Request>, r: nat, ops: seq<Operation>, answer: Answer)
    requires r < |requests| && OpsMade(Calls(events), requests[r].url, ops) && ERespond(r, answer) in events
    ensures AllDue(events, requests, Answers(r, ops, answer))
  {
    hide Calls;
    var calls, url, cs := Calls(events), requests[r].url, Answers(r, ops, answer);
    forall k | 0 <= k < |cs|
      ensures Due(events, requests, cs[k])
    {
      assert MadeBy(calls, url, ops[k]);
      if answer.Success? {
        WantedOf(calls, url, ops, k, answer.data);
        assert ERespond(r, Success(answer.data)) in events;
        assert Wanted(calls, url, ops[k], answer.data, cs[k].outcome.image);
      }
    }
  }

  lemma WantedOf(calls: seq<Event>, url: string, ops: seq<Operation>, k: nat, data: nat)
    requires OpsMade(calls, url, ops) && k < |ops|
    ensures Wanted(calls, url, ops[k], data, FilteredFor(ops, k, Original(data)))
  {
    if ops[k].filter.Some? {
      var f := FirstFilter(ops, k, ops[k].filter.value.identifier);
      hide FirstFilter;
      var j :| 0 <= j <= k && ops[j].filter == Some(f);
      assert MadeBy(calls, url, ops[j]);
      assert calls[ops[j].completion].filter == Some(f);
    }
  }

  /** What a step adds to the completions called. */
  lemma StepDue(events: seq<Event>, s: State, e: Event) returns (added: seq<Completion>)
    requires HandlersMade(events, s) && AnswersGiven(events, s) && QueueOk(s) && Enabled(s, e)
    ensures Next(s, e).completed == s.completed + added && AllDue(events + [e], Next(s, e).requests, added)
  {
    CallsOfMore(events, e);
    hide Calls, QueueOk, StartNext, Download, Cancel, Remove, Due;
    added := [];
    match e
    case EDownload(_, _, _, _) => added := DownloadDue(events, s, e);
    case ECancel(r, receiptID) => added := CancelDue(events, s, r, receiptID);
    case ERemove(r) => added := RemoveDue(events, s, r);
    case EStartNext(r) => StartNextChanges(s, r);
    case _ =>
  }

  lemma DownloadDue(events: seq<Event>, s: State, e: Event) returns (added: seq<Completion>)
    requires HandlersMade(events, s) && e.EDownload? && Calls(events + [e]) == Calls(events) + [e]
    ensures var t := Download(s, e.url, e.receiptID, e.filter, e.cached);
            t.completed == s.completed + added && AllDue(events + [e], t.requests, added)
  {
    hide Calls;
    added := [];
    if e.url !in s.handlers && e.cached.Some? {
      added := [Completion(Operation(e.receiptID, e.filter, |s.receipts|), FromCache(e.cached.value))];
    }
  }

  lemma RemoveDue(events: seq<Event>, s: State, r: nat) returns (added: seq<Completion>)
    requires HandlersMade(events, s) && AnswersGiven(events, s)
    requires Enabled(s, ERemove(r)) && Calls(events + [ERemove(r)]) == Calls(events)
    ensures var t := Remove(s, r);
            t.completed == s.completed + added && AllDue(events + [ERemove(r)], t.requests, added)
  {
    hide Calls, Due, OpsMade;
    added := [];
    var q, t, more := s.requests[r], Remove(s, r), events + [ERemove(r)];
    if q.url in s.handlers {
      added := Answers(r, s.handlers[q.url].operations, q.phase.answer);
      assert ERespond(r, q.phase.answer) in more && t.requests[r].url == q.url;
      hide Answers;
      AnswersDue(more, t.requests, r, s.handlers[q.url].operations, q.phase.answer);
    }
  }

  lemma CancelDue(events: seq<Event>, s: State, r: nat, receiptID: string) returns (added: seq<Completion>)
    requires HandlersMade(events, s) && r < |s.requests|
    requires Calls(events + [ECancel(r, receiptID)]) == Calls(events)
    ensures var t := Cancel(s, r, receiptID);
            t.completed == s.completed + added && AllDue(events + [ECancel(r, receiptID)], t.requests, added)
  {
    hide Calls;
    added := [];
    var url, more := s.requests[r].url, events + [ECancel(r, receiptID)];
    if url in s.handlers {
      var ops := s.handlers[url].operations;
      var k := IndexOf(ops, receiptID);
      if k < |ops| {
        added := [Completion(ops[k], RequestCancelled)];
        assert OpsMade(Calls(events), url, ops) && MadeBy(Calls(events), url, ops[k]);
        var t := Cancel(s, r, receiptID);
        assert t.requests[r].url == url && ECancel(r, receiptID) in more;
        assert Due(more, t.requests, added[0]);
      }
    }
  }

  // ----- runs -----

  ghost predicate Told(events: seq<Event>, s: State) {
    HandlersMade(events, s) && AnswersGiven(events, s) && AllDue(events, s.requests, s.completed)
  }

  lemma StepTold(events: seq<Event>, s: State, e: Event)
    requires Told(events, s) && QueueOk(s) && Enabled(s, e)
    ensures Told(events + [e], Next(s, e))
  {
    StepMade(events, s, e);
    StepGiven(events, s, e);
    UrlsStay(s, e);
    var added := StepDue(events, s, e);
    var t := Next(s, e);
    hide HandlersMade, AnswersGiven, Due, QueueOk, Next, Enabled;
    forall k | 0 <= k < |t.completed|
      ensures Due(events + [e], t.requests, t.completed[k])
    {
      if k < |s.completed| {
        assert t.completed[k] == s.completed[k];
        StaysDue(events, e, s.requests, t.requests, s.completed[k]);
      } else {
        assert t.completed[k] == added[k - |s.completed|];
      }
    }
  }

  lemma {:induction false} RunTold(before: seq<Event>, s: State, events: seq<Event>, t: State)
    requires Told(before, s) && Runs(s, events, t)
    ensures Told(before + events, t)
    decreases |events|
  {
    if events == [] {
      assert before + events == before;
    } else {
      hide Told, Next, Enabled, QueueOk;
      StepTold(before, s, events[0]);
      RunTold(before + [events[0]], Next(s, events[0]), events[1..], t);
      assert before + [events[0]] + events[1..] == before + events;
    }
  }

  /** The completions that wait for one request are called in the order of the calls. */
  lemma AnsweredInOrder(maximum: int, lifo: bool, events: seq<Event>, s: State, r: nat, j: nat, k: nat)
    requires Runs(Initial(maximum, lifo), events, s) && QueueOk(s) && Enabled(s, ERemove(r))
    requires |s.completed| <= j < k < |Next(s, ERemove(r)).completed|
    ensures Next(s, ERemove(r)).completed[j].operation.completion
          < Next(s, ERemove(r)).completed[k].operation.completion
  {
    RunTold([], Initial(maximum, lifo), events, s);
    assert [] + events == events;
    var url := s.requests[r].url;
    if url in s.handlers {
      assert OpsMade(Calls(events), url, s.handlers[url].operations);
    }
  }

  /** In every run each completion is called with what is due to its call. */
  lemma CalledAsDue(maximum: int, lifo: bool, events: seq<Event>, s: State, k: nat)
    requires Runs(Initial(maximum, lifo), events, s) && k < |s.completed|
    ensures Due(events, s.requests, s.completed[k])
  {
    RunTold([], Initial(maximum, lifo), events, s);
    assert [] + events == events;
  }
}
