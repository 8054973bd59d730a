/** How many downloads run at a time: when the limit holds, and when it can be exceeded. */
module DownloadLimit {
  import opened Options
  import opened Downloads
  import opened DownloadSafety

  // ----- runs in which nobody cancels a request that has not been started -----

  /** The step cancels a request that has not been started. */
  predicate CancelsWaiting(s: State, e: Event)
    requires Enabled(s, e) && QueueOk(s)
  {
    && (e.ECancel? || e.ECancelDirectly?)
    && s.requests[e.request].task.Suspended? && !Next(s, e).requests[e.request].task.Suspended?
  }

  ghost predicate RunsUncancelled(s: State, events: seq<Event>, t: State)
    decreases |events|
  {
    if events == [] then s == t
    else
      && QueueOk(s) && Enabled(s, events[0]) && !CancelsWaiting(s, events[0])
      && RunsUncancelled(Next(s, events[0]), events[1..], t)
  }

  lemma {:induction false} JoinUncancelled(s: State, a: seq<Event>, m: State, b: seq<Event>, t: State)
    requires RunsUncancelled(s, a, m) && RunsUncancelled(m, b, t)
    ensures RunsUncancelled(s, a + b, t)
    decreases |a|
  {
    hide *;
    UncancelledGoesOn(s, a, m);
    if a == [] {
      assert a + b == b;
    } else {
      var e, rest := a[0], a[1..];
      JoinUncancelled(Next(s, e), rest, m, b, t);
      UncancelledBegins(s, e, rest + b, t);
      assert [e] + (rest + b) == a + b;
    }
  }

  lemma UncancelledGoesOn(s: State, a: seq<Event>, t: State)
    requires RunsUncancelled(s, a, t)
    ensures a == [] ==> s == t
    ensures a != [] ==>
              && QueueOk(s) && Enabled(s, a[0]) && !CancelsWaiting(s, a[0])
              && RunsUncancelled(Next(s, a[0]), a[1..], t)
  {
  }

  lemma UncancelledBegins(s: State, e: Event, rest: seq<Event>, t: State)
    requires QueueOk(s) && Enabled(s, e) && !CancelsWaiting(s, e) && RunsUncancelled(Next(s, e), rest, t)
    ensures RunsUncancelled(s, [e] + rest, t)
  {
    assert ([e] + rest)[1..] == rest;
  }

  // ----- when the counter is right -----

  /** A request that holds no slot, and whose closure will give one back. */
  predicate Phantom(q: Request) {
    !q.started && !q.task.Suspended? && !q.phase.StartingNext? && !q.phase.Finished?
  }

  /** The counter is, or will be, below the number of requests that hold a slot. */
  ghost predicate Leaky(s: State) {
    s.active < Count(BUSY, s.requests) || exists r :: 0 <= r < |s.requests| && Phantom(s.requests[r])
  }

  /** The counter is exact, and will stay so. */
  ghost predicate Tight(s: State) {
    s.active == Count(BUSY, s.requests) && forall r | 0 <= r < |s.requests| :: !Phantom(s.requests[r])
  }

  lemma TightOrLeaky(s: State)
    requires CountsOk(s)
    ensures Tight(s) <==> !Leaky(s)
  {
  }

  lemma StepTight(s: State, e: Event)
    requires Structured(s) && Tight(s) && Enabled(s, e) && !CancelsWaiting(s, e)
    ensures Tight(Next(s, e)) && Next(s, e).maximum == s.maximum
  {
    match e
    case EDownload(url, receiptID, filter, cached) => DownloadTight(s, url, receiptID, filter, cached);
    case EStartNext(r) => StartNextTight(s, r);
    case ECancel(r, receiptID) =>
      hide HandlersOk, RequestsOk, QueueOk, Count;
      assert Cancel(s, r, receiptID).requests == s.requests;
    case ECancelDirectly(r) => CancelDirectlyTight(s, r);
    case ERespond(r, answer) =>
      SetTightly(s, Next(s, e), r, s.requests[r].(task := Completed, phase := Fetching(answer)));
    case EFetch(r) => SetTightly(s, Next(s, e), r, Next(s, e).requests[r]);
    case ERemove(r) => SetTightly(s, Next(s, e), r, s.requests[r].(phase := Decrementing));
    case EDecrement(r) => DecrementTight(s, r);
  }

  lemma CancelDirectlyTight(s: State, r: nat)
    requires Structured(s) && Tight(s) && r < |s.requests| && !CancelsWaiting(s, ECancelDirectly(r))
    ensures Tight(CancelDirectly(s, r))
  {
    assert RequestOk(s, r);
    if !s.requests[r].task.Completed? {
      SetTightly(s, CancelDirectly(s, r), r, s.requests[r].(task := Canceling));
    }
  }

  lemma DecrementTight(s: State, r: nat)
    requires Structured(s) && Tight(s) && r < |s.requests| && s.requests[r].phase.Decrementing?
    ensures Tight(Decrement(s, r))
  {
    assert RequestOk(s, r) && !Phantom(s.requests[r]);
    CountsIfBusy(s.requests, r);
    SetTight(s, Decrement(s, r), r, s.requests[r].(phase := StartingNext));
  }

  /** A step that changes one request but not whether it holds a slot. */
  lemma SetTightly(s: State, t: State, r: nat, q: Request)
    requires Structured(s) && Tight(s) && r < |s.requests| && t.requests == s.requests[r := q]
    requires t.active == s.active && q.Busy() == s.requests[r].Busy() && !s.requests[r].phase.Finished?
    requires q.started == s.requests[r].started && (q.task.Suspended? <==> s.requests[r].task.Suspended?)
    requires !s.requests[r].phase.StartingNext?
    ensures Tight(t)
  {
    assert !Phantom(s.requests[r]);
    SetTight(s, t, r, q);
  }

  lemma CountsIfBusy(rs: seq<Request>, r: nat)
    requires r < |rs|
    ensures rs[r].Busy() ==> Count(BUSY, rs) > 0
  {
    CountSet(BUSY, rs, r, rs[r].(phase := Finished));
  }

  lemma SetTight(s: State, t: State, r: nat, q: Request)
    requires Tight(s) && r < |s.requests| && t.requests == s.requests[r := q] && !Phantom(q)
    requires t.active == s.active - Ones(BUSY, s.requests[r]) + Ones(BUSY, q)
    ensures Tight(t)
  {
    CountSet(BUSY, s.requests, r, q);
  }

  lemma DownloadTight(s: State, url: string, receiptID: string, filter: Option<ImageFilter>, cached: Option<Image>)
    requires Tight(s)
    ensures Tight(Download(s, url, receiptID, filter, cached))
  {
    var t := Download(s, url, receiptID, filter, cached);
    if t.requests != s.requests {
      assert t.requests == s.requests + [t.requests[|s.requests|]];
      CountAppend(BUSY, s.requests, t.requests[|s.requests|]);
    }
  }

  lemma StartNextTight(s: State, r: nat)
    requires Structured(s) && Tight(s) && r < |s.requests| && s.requests[r].phase.StartingNext?
    ensures Tight(StartNext(s, r)) && StartNext(s, r).maximum == s.maximum
  {
    var q := s.requests[r].(phase := Finished);
    var m := s.Set(r, q);
    assert RequestOk(s, r);
    SetTight(s, m, r, q);
    if m.BelowMaximum() {
      SetStructured(s, m, r, q);
      var k := StartFirstEffect(m);
      if k < |m.queue| {
        assert RequestOk(m, m.queue[k]);
        SetTight(m.(queue := m.queue[k + 1..]), StartFirst(m), m.queue[k], StartFirst(m).requests[m.queue[k]]);
      }
    }
  }

  lemma {:induction false} RunTight(s: State, events: seq<Event>, t: State)
    requires Structured(s) && CountsOk(s) && Tight(s) && RunsUncancelled(s, events, t)
    ensures CountsOk(t) && Tight(t) && t.maximum == s.maximum
    decreases |events|
  {
    hide Structured, CountsOk, Tight, CancelsWaiting, Next, Enabled;
    if events != [] {
      StepStructured(s, events[0]);
      StepCounts(s, events[0]);
      StepTight(s, events[0]);
      RunTight(Next(s, events[0]), events[1..], t);
    }
  }

  /** As long as nobody cancels a request that has not been started, no more than the maximum of downloads
    * run at any time. */
  lemma LimitKept(maximum: int, lifo: bool, events: seq<Event>, s: State)
    requires maximum >= 0 && RunsUncancelled(Initial(maximum, lifo), events, s)
    ensures Count(BUSY, s.requests) <= maximum
  {
    RunTight(Initial(maximum, lifo), events, s);
  }

  // ----- when the limit can be exceeded -----

  /** From s on, without cancelling any request that has not been started, more downloads than the maximum
    * can come to run. */
  ghost predicate CanExceed(s: State) {
    exists events, t :: RunsUncancelled(s, events, t) && Count(BUSY, t.requests) > t.maximum
  }

  /** Exactly the leaky states can come to exceed the limit. */
  lemma LimitExact(s: State)
    requires Reachable(s) && s.maximum >= 1
    ensures CanExceed(s) <==> Leaky(s)
  {
    ReachableInvariant(s);
    TightOrLeaky(s);
    if !Leaky(s) {
      forall events, t | RunsUncancelled(s, events, t)
        ensures Count(BUSY, t.requests) <= t.maximum
      {
        RunTight(s, events, t);
      }
    } else {
      var events, m := MakeRoom(s);
      var more, t := FillUp(m);
      JoinUncancelled(s, events, m, more, t);
    }
  }

  /** The counter is below the number of requests that hold a slot. */
  ghost predicate Behind(s: State) {
    Structured(s) && CountsOk(s) && s.maximum >= 1 && s.active < Count(BUSY, s.requests)
  }

  /** Downloads of new URLs are started until the counter has reached the maximum. */
  lemma {:induction false} FillUp(s: State) returns (events: seq<Event>, t: State)
    requires Behind(s)
    ensures RunsUncancelled(s, events, t) && Count(BUSY, t.requests) > t.maximum
    decreases s.maximum - s.active
  {
    if s.active >= s.maximum {
      events, t := [], s;
    } else {
      var e := DownloadNew(s);
      var rest;
      rest, t := FillUp(Next(s, e));
      UncancelledBegins(s, e, rest, t);
      events := [e] + rest;
    }
  }

  lemma DownloadNew(s: State) returns (e: Event)
    requires Structured(s) && CountsOk(s) && s.active < s.maximum
    ensures e.EDownload? && Structured(Next(s, e)) && CountsOk(Next(s, e))
    ensures Next(s, e).active == s.active + 1 && Next(s, e).maximum == s.maximum
    ensures Count(BUSY, Next(s, e).requests) == Count(BUSY, s.requests) + 1
    ensures |Next(s, e).requests| == |s.requests| + 1
    ensures forall r | 0 <= r < |s.requests| :: Next(s, e).requests[r] == s.requests[r]
  {
    var url := NewUrl(s.handlers.Keys);
    e := EDownload(url, "", None, None);
    StepStructured(s, e);
    StepCounts(s, e);
    var t := Next(s, e);
    assert t.requests == s.requests + [Request(url, Running, Unanswered, true)];
    CountAppend(BUSY, s.requests, t.requests[|s.requests|]);
  }

  lemma NewUrl(urls: set<string>) returns (url: string)
    ensures url !in urls
  {
    var n := LongestOf(urls);
    url := seq(n + 1, _ => '/');
    assert |url| > n;
  }

  lemma {:induction false} LongestOf(urls: set<string>) returns (n: nat)
    ensures forall u | u in urls :: |u| <= n
    decreases |urls|
  {
    if urls == {} {
      n := 0;
    } else {
      var u :| u in urls;
      n := LongestOf(urls - {u});
      n := if n < |u| then |u| else n;
    }
  }

  /** A request that never held a slot gives one back. */
  lemma MakeRoom(s: State) returns (events: seq<Event>, t: State)
    requires Structured(s) && CountsOk(s) && s.maximum >= 1 && Leaky(s)
    ensures RunsUncancelled(s, events, t) && Behind(t)
  {
    if s.active < Count(BUSY, s.requests) {
      events, t := [], s;
    } else {
      var r :| 0 <= r < |s.requests| && Phantom(s.requests[r]);
      if s.active > 0 {
        events, t := GiveBack(s, r);
      } else {
        var e := DownloadNew(s);
        var rest;
        rest, t := GiveBack(Next(s, e), r);
        UncancelledBegins(s, e, rest, t);
        events := [e] + rest;
      }
    }
  }

  /** The closure of such a request runs until it has decremented the counter. */
  lemma {:induction false} GiveBack(s: State, r: nat) returns (events: seq<Event>, t: State)
    requires Structured(s) && CountsOk(s) && s.maximum >= 1 && s.active > 0
    requires r < |s.requests| && Phantom(s.requests[r])
    ensures RunsUncancelled(s, events, t) && Behind(t)
    decreases StepsLeft(s.requests[r])
  {
    hide *;
    var e := PhantomStep(s, r);
    var next := Next(s, e);
    var rest: seq<Event> := [];
    if Behind(next) {
      UncancelledNothing(next);
      t := next;
    } else {
      rest, t := GiveBack(next, r);
    }
    UncancelledBegins(s, e, rest, t);
    events := [e] + rest;
  }

  lemma UncancelledNothing(s: State)
    ensures RunsUncancelled(s, [], s)
  {
  }

  /** The next step of such a request: it gives the slot back, or comes closer to it. */
  lemma PhantomStep(s: State, r: nat) returns (e: Event)
    requires Structured(s) && CountsOk(s) && s.maximum >= 1 && s.active > 0
    requires r < |s.requests| && Phantom(s.requests[r])
    ensures QueueOk(s) && Enabled(s, e) && !CancelsWaiting(s, e)
    ensures var next := Next(s, e);
            Behind(next) || (&& Structured(next) && CountsOk(next) && next.maximum >= 1 && next.active > 0
                             && r < |next.requests| && Phantom(next.requests[r])
                             && StepsLeft(next.requests[r]) < StepsLeft(s.requests[r]))
  {
    e := match s.requests[r].phase
      case Unanswered => ERespond(r, Failure)
      case Fetching(_) => EFetch(r)
      case Removing(_) => ERemove(r)
      case _ => EDecrement(r);
    assert RequestOk(s, r);
    StepStructured(s, e);
    StepCounts(s, e);
    var next := Next(s, e);
    assert next.requests == s.requests[r := next.requests[r]] && next.maximum == s.maximum;
    CountSet(BUSY, s.requests, r, next.requests[r]);
    hide Structured, HandlersOk, RequestsOk, Count;
  }

  // ----- a run that exceeds it -----

  /** But such a cancellation lets one more download run than there should: the answer to the cancelled
    * request gives back a slot that it never held. */
  lemma LimitBroken() returns (events: seq<Event>, s: State)
    ensures Runs(Initial(1, false), events, s)
    ensures s.maximum == 1 && |s.requests| == 3 && s.requests[0].task.Running? && s.requests[2].task.Running?
  {
    var cancelled;
    events, cancelled := OneCancelled();
    var rest;
    rest, s := OneTooMany(cancelled);
    RunJoins(Initial(1, false), events, cancelled, rest, s);
    events := events + rest;
  }

  lemma {:induction false} RunJoins(s: State, a: seq<Event>, m: State, b: seq<Event>, t: State)
    requires Runs(s, a, m) && Runs(m, b, t)
    ensures Runs(s, a + b, t)
    decreases |a|
  {
    hide *;
    RunGoesOn(s, a, m);
    if a == [] {
      assert a + b == b;
    } else {
      var e, rest := a[0], a[1..];
      RunJoins(Next(s, e), rest, m, b, t);
      RunBegins(s, e, rest + b, t);
      assert [e] + (rest + b) == a + b;
    }
  }

  lemma RunGoesOn(s: State, a: seq<Event>, t: State)
    requires Runs(s, a, t)
    ensures a == [] ==> s == t
    ensures a != [] ==> QueueOk(s) && Enabled(s, a[0]) && Runs(Next(s, a[0]), a[1..], t)
  {
  }

  lemma Single(s: State, e: Event)
    requires QueueOk(s) && Enabled(s, e)
    ensures Runs(s, [e], Next(s, e))
  {
    assert [e][1..] == [];
  }

  /** A download runs, and the two behind it wait, of which the first has been cancelled. */
  ghost predicate OneWaits(s: State) {
    && QueueOk(s) && s.maximum == 1 && s.active == 1 && s.queue == [1, 2] && |s.requests| == 3 && "b" !in s.handlers
    && s.requests[0].task.Running? && s.requests[1] == Request("b", Canceling, Unanswered, false)
    && s.requests[2].task.Suspended?
  }

  lemma TwoDownloads() returns (events: seq<Event>, s: State)
    ensures Runs(Initial(1, false), events, s) && QueueOk(s)
    ensures s.maximum == 1 && !s.lifo && s.active == 1 && s.queue == [1]
    ensures s.requests == [Request("a", Running, Unanswered, true), Request("b", Suspended, Unanswered, false)]
    ensures s.handlers.Keys == {"a", "b"} && s.handlers["b"] == Handler(1, [Operation("2", None, 1)])
  {
    var s0 := Initial(1, false);
    var e1, e2 := EDownload("a", "1", None, None), EDownload("b", "2", None, None);
    var s1 := Next(s0, e1);
    s := Next(s1, e2);
    Single(s0, e1);
    RunExtends(s0, [e1], s1, e2);
    events := [e1] + [e2];
  }

  lemma SecondCancelled(s: State) returns (t: State)
    requires QueueOk(s) && s.maximum == 1 && !s.lifo && s.active == 1 && s.queue == [1]
    requires s.requests == [Request("a", Running, Unanswered, true), Request("b", Suspended, Unanswered, false)]
    requires s.handlers.Keys == {"a", "b"} && s.handlers["b"] == Handler(1, [Operation("2", None, 1)])
    ensures t == Next(s, ECancel(1, "2"))
    ensures QueueOk(t) && t.maximum == 1 && !t.lifo && t.active == 1 && t.queue == [1] && t.handlers.Keys == {"a"}
    ensures t.requests == [Request("a", Running, Unanswered, true), Request("b", Canceling, Unanswered, false)]
  {
    assert IndexOf(s.handlers["b"].operations, "2") == 0;
    var m := CancelOperation(s, "b", "2");
    assert m.handlers["b"].operations == [];
    t := CancelIfIdle(m, 1);
    assert t.handlers.Keys == {"a"};
  }

  lemma ThirdWaits(s: State)
    requires QueueOk(s) && s.maximum == 1 && !s.lifo && s.active == 1 && s.queue == [1] && s.handlers.Keys == {"a"}
    requires s.requests == [Request("a", Running, Unanswered, true), Request("b", Canceling, Unanswered, false)]
    ensures OneWaits(Next(s, EDownload("c", "3", None, None)))
  {
    assert "c" !in s.handlers.Keys;
  }

  lemma OneCancelled() returns (events: seq<Event>, s: State)
    ensures Runs(Initial(1, false), events, s) && OneWaits(s)
  {
    var past, s2;
    past, s2 := TwoDownloads();
    var e3, e4 := ECancel(1, "2"), EDownload("c", "3", None, None);
    var s3 := SecondCancelled(s2);
    ThirdWaits(s3);
    s := Next(s3, e4);
    assert Enabled(s2, e3) && Enabled(s3, e4);
    hide Next, Enabled;
    RunExtends(Initial(1, false), past, s2, e3);
    RunExtends(Initial(1, false), past + [e3], s3, e4);
    events := past + [e3] + [e4];
  }

  /** The cancelled request is answered, and decrements the counter. */
  lemma SlotGivenBack(s: State) returns (events: seq<Event>, t: State)
    requires OneWaits(s)
    ensures Runs(s, events, t) && QueueOk(t) && t.maximum == 1 && t.active == 0 && t.queue == s.queue
    ensures t.requests == s.requests[1 := Request("b", Completed, StartingNext, false)]
  {
    var e1, e2, e3 := ERespond(1, Failure), EFetch(1), EDecrement(1);
    var s1 := Next(s, e1);
    var s2 := Next(s1, e2);
    assert s2.requests == s.requests[1 := Request("b", Completed, Decrementing, false)];
    t := Next(s2, e3);
    Single(s, e1);
    hide Next, Enabled;
    RunExtends(s, [e1], s1, e2);
    RunExtends(s, [e1] + [e2], s2, e3);
    events := [e1] + [e2] + [e3];
  }

  lemma OneTooMany(s: State) returns (events: seq<Event>, t: State)
    requires OneWaits(s)
    ensures Runs(s, events, t)
    ensures t.maximum == 1 && |t.requests| == 3 && t.requests[0].task.Running? && t.requests[2].task.Running?
  {
    var before, m := SlotGivenBack(s);
    var e := EStartNext(1);
    t := Next(m, e);
    var started := m.Set(1, m.requests[1].(phase := Finished));
    assert StartFirst(started) == StartFirst(started.(queue := [2])) == Start(started.(queue := []), 2);
    RunExtends(s, before, m, e);
    events := before + [e];
  }
}
