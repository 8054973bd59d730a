/** What every run of the image downloader keeps, whatever the order of its steps. */
module DownloadSafety {
  import opened Options
  import opened Downloads

  // ----- counting requests -----

  datatype Kind = BUSY | STARTING_NEXT

  predicate Is(kind: Kind, q: Request) {
    match kind
    case BUSY => q.Busy()
    case STARTING_NEXT => q.phase.StartingNext?
  }

  function Ones(kind: Kind, q: Request): nat {
    if Is(kind, q) then 1 else 0
  }

  function Count(kind: Kind, rs: seq<Request>): nat {
    if rs == [] then 0 else Ones(kind, rs[0]) + Count(kind, rs[1..])
  }

  lemma {:induction false} CountSet(kind: Kind, rs: seq<Request>, r: nat, q: Request)
    requires r < |rs|
    ensures Count(kind, rs[r := q]) == Count(kind, rs) - Ones(kind, rs[r]) + Ones(kind, q)
  {
    if r == 0 {
      assert rs[0 := q][1..] == rs[1..];
    } else {
      CountSet(kind, rs[1..], r - 1, q);
      assert rs[r := q][1..] == rs[1..][r - 1 := q];
    }
  }

  lemma {:induction false} CountAppend(kind: Kind, rs: seq<Request>, q: Request)
    ensures Count(kind, rs + [q]) == Count(kind, rs) + Ones(kind, q)
  {
    if rs == [] {
      assert rs + [q] == [q] && [q][1..] == [];
    } else {
      CountAppend(kind, rs[1..], q);
      assert (rs + [q])[1..] == rs[1..] + [q];
    }
  }

  lemma {:induction false} CountSome(kind: Kind, rs: seq<Request>) returns (r: nat)
    requires Count(kind, rs) > 0
    ensures r < |rs| && Is(kind, rs[r])
  {
    if Is(kind, rs[0]) {
      r := 0;
    } else {
      var k := CountSome(kind, rs[1..]);
      r := k + 1;
    }
  }

  // ----- the invariant -----

  /** A handler belongs to a request for its URL whose closure has not yet taken it. */
  ghost predicate HandlersOk(s: State) {
    forall u | u in s.handlers ::
      var r := s.handlers[u].request;
      && r < |s.requests| && s.requests[r].url == u
      && (s.requests[r].phase.Unanswered? || s.requests[r].phase.Fetching? || s.requests[r].phase.Removing?)
  }

  ghost predicate RequestOk(s: State, r: nat)
    requires r < |s.requests|
  {
    var q := s.requests[r];
    && (q.task.Completed? <==> q.Answered())
    && (q.task.Suspended? ==> !q.started && r in s.queue && s.Live(r))
    && (q.phase.Removing? ==> s.Live(r))
  }

  ghost predicate RequestsOk(s: State) {
    forall r {:trigger RequestOk(s, r)} | 0 <= r < |s.requests| :: RequestOk(s, r)
  }

  ghost predicate Structured(s: State) {
    QueueOk(s) && HandlersOk(s) && RequestsOk(s)
  }

  ghost predicate SomeSuspended(s: State) {
    exists r :: 0 <= r < |s.requests| && s.requests[r].task.Suspended?
  }

  /** The counter never exceeds its limit, nor the requests that hold a slot. While a request waits, every
    * free slot has a closure that is about to start the next request. */
  ghost predicate CountsOk(s: State) {
    && 0 <= s.active && (s.active <= s.maximum || s.active == 0)
    && s.active <= Count(BUSY, s.requests)
    && (SomeSuspended(s) ==> s.maximum - s.active <= Count(STARTING_NEXT, s.requests))
  }

  // ----- structure -----

  lemma StartFirstEffect(s: State) returns (k: nat)
    requires QueueOk(s)
    ensures k <= |s.queue|
    ensures forall i | 0 <= i < k :: !s.requests[s.queue[i]].task.Suspended?
    ensures k == |s.queue| ==> StartFirst(s) == s.(queue := [])
    ensures k < |s.queue| ==> s.requests[s.queue[k]].task.Suspended?
    ensures k < |s.queue| ==> StartFirst(s) == Start(s.(queue := s.queue[k + 1..]), s.queue[k])
    decreases |s.queue|
  {
    if s.queue == [] || s.requests[s.queue[0]].task.Suspended? {
      k := 0;
    } else {
      var rest := s.(queue := s.queue[1..]);
      var j := StartFirstEffect(rest);
      k := j + 1;
      assert j < |rest.queue| ==> rest.queue[j + 1..] == s.queue[k + 1..];
    }
  }

  lemma OperationsStructured(s: State, t: State, url: string, ops: seq<Operation>)
    requires Structured(s) && url in s.handlers
    requires t.requests == s.requests && t.queue == s.queue
    requires t.handlers == s.handlers[url := s.handlers[url].(operations := ops)]
    ensures Structured(t)
  {
    forall i | 0 <= i < |t.requests|
      ensures RequestOk(t, i)
    {
      assert RequestOk(s, i);
    }
  }

  lemma NewRequestStructured(s: State, t: State, op: Operation)
    requires Structured(s) && |t.requests| == |s.requests| + 1 && t.requests[..|s.requests|] == s.requests
    requires var q := t.requests[|s.requests|];
             && q.url !in s.handlers && q.phase.Unanswered?
             && t.handlers == s.handlers[q.url := Handler(|s.requests|, [op])]
             && ((q.task.Running? && t.queue == s.queue)
              || (q.task.Suspended? && !q.started
                    && (t.queue == [|s.requests|] + s.queue || t.queue == s.queue + [|s.requests|])))
    ensures Structured(t)
  {
    forall i | 0 <= i < |s.requests|
      ensures t.requests[i] == s.requests[i]
    {
      assert t.requests[i] == t.requests[..|s.requests|][i];
    }
    forall i | 0 <= i < |t.requests|
      ensures RequestOk(t, i)
    {
      if i < |s.requests| {
        assert RequestOk(s, i);
      }
    }
  }

  lemma DownloadStructured(s: State, url: string, receiptID: string, filter: Option<ImageFilter>, cached: Option<Image>)
    requires Structured(s)
    ensures Structured(Download(s, url, receiptID, filter, cached))
  {
    hide Structured;
    var t := Download(s, url, receiptID, filter, cached);
    if url in s.handlers {
      OperationsStructured(s, t, url, t.handlers[url].operations);
    } else if cached.Some? {
      SameStructured(s, t);
    } else {
      NewRequestStructured(s, t, Operation(receiptID, filter, |s.receipts|));
    }
  }

  lemma SameStructured(s: State, t: State)
    requires Structured(s) && t.requests == s.requests && t.handlers == s.handlers && t.queue == s.queue
    ensures Structured(t)
  {
    forall i | 0 <= i < |t.requests|
      ensures RequestOk(t, i)
    {
      assert RequestOk(s, i);
    }
  }

  lemma CancelOperationStructured(s: State, url: string, receiptID: string)
    requires Structured(s) && url in s.handlers
    ensures Structured(CancelOperation(s, url, receiptID))
  {
    var t := CancelOperation(s, url, receiptID);
    if t == s {
      SameStructured(s, t);
    } else {
      OperationsStructured(s, t, url, t.handlers[url].operations);
    }
  }

  lemma CancelIfIdleStructured(s: State, r: nat)
    requires Structured(s) && r < |s.requests| && s.requests[r].url in s.handlers
    ensures Structured(CancelIfIdle(s, r))
  {
    var t := CancelIfIdle(s, r);
    assert RequestOk(s, r);
    forall i | 0 <= i < |t.requests|
      ensures RequestOk(t, i)
    {
      assert RequestOk(s, i);
    }
  }

  lemma CancelStructured(s: State, r: nat, receiptID: string)
    requires Structured(s) && r < |s.requests|
    ensures Structured(Cancel(s, r, receiptID))
  {
    hide Structured;
    if s.requests[r].url in s.handlers {
      CancelOperationStructured(s, s.requests[r].url, receiptID);
      CancelIfIdleStructured(CancelOperation(s, s.requests[r].url, receiptID), r);
    }
  }

  /** The steps that change only one request, and perhaps the counter. */
  lemma SetStructured(s: State, t: State, r: nat, q: Request)
    requires Structured(s) && r < |s.requests|
    requires t.requests == s.requests[r := q] && t.handlers == s.handlers && t.queue == s.queue
    requires q.url == s.requests[r].url && !q.task.Suspended? && (q.task.Completed? <==> q.Answered())
    requires q.phase.Removing? ==> s.Live(r)
    requires s.Live(r) ==> q.phase.Unanswered? || q.phase.Fetching? || q.phase.Removing?
    ensures Structured(t)
  {
    forall i | 0 <= i < |t.requests|
      ensures RequestOk(t, i)
    {
      assert RequestOk(s, i);
    }
  }

  lemma RemoveStructured(s: State, r: nat)
    requires Structured(s) && r < |s.requests| && s.requests[r].phase.Removing?
    ensures Structured(Remove(s, r))
  {
    var t := Remove(s, r);
    assert RequestOk(s, r);
    forall i | 0 <= i < |t.requests|
      ensures RequestOk(t, i)
    {
      assert RequestOk(s, i);
    }
  }

  lemma StartNextStructured(s: State, r: nat)
    requires Structured(s) && r < |s.requests| && s.requests[r].phase.StartingNext?
    ensures Structured(StartNext(s, r))
  {
    var m := s.Set(r, s.requests[r].(phase := Finished));
    assert RequestOk(s, r);
    SetStructured(s, m, r, s.requests[r].(phase := Finished));
    if m.BelowMaximum() {
      StartFirstStructured(m);
    }
  }

  lemma StartFirstStructured(s: State)
    requires Structured(s)
    ensures Structured(StartFirst(s))
  {
    var k := StartFirstEffect(s);
    var t := StartFirst(s);
    forall i | 0 <= i < |t.requests|
      ensures RequestOk(t, i)
    {
      assert RequestOk(s, i);
      if s.requests[i].task.Suspended? {
        var j :| 0 <= j < |s.queue| && s.queue[j] == i;
        assert j >= k;
        assert j > k ==> s.queue[k + 1..][j - k - 1] == i;
      }
    }
  }

  lemma StepStructured(s: State, e: Event)
    requires Structured(s) && Enabled(s, e)
    ensures Structured(Next(s, e))
  {
    match e
    case EDownload(url, receiptID, filter, cached) => DownloadStructured(s, url, receiptID, filter, cached);
    case ECancel(r, receiptID) => CancelStructured(s, r, receiptID);
    case ERemove(r) => RemoveStructured(s, r);
    case EStartNext(r) => StartNextStructured(s, r);
    case _ =>
      var r := e.request;
      assert RequestOk(s, r);
      SetStructured(s, Next(s, e), r, Next(s, e).requests[r]);
  }

  // ----- the counter and the queue -----

  lemma StepCounts(s: State, e: Event)
    requires Structured(s) && CountsOk(s) && Enabled(s, e)
    ensures CountsOk(Next(s, e))
  {
    hide CountsOk, HandlersOk, RequestsOk;
    match e
    case EDownload(url, receiptID, filter, cached) => DownloadCounts(s, url, receiptID, filter, cached);
    case EStartNext(r) => StartNextCounts(s, r);
    case EDecrement(r) => DecrementCounts(s, r);
    case ECancel(r, receiptID) =>
      if Cancel(s, r, receiptID).requests == s.requests {
        assert Cancel(s, r, receiptID).requests == s.requests[r := s.requests[r]];
        SetCounts(s, Cancel(s, r, receiptID), r, s.requests[r]);
      } else {
        SetCounts(s, Cancel(s, r, receiptID), r, s.requests[r].(task := Canceling));
      }
    case _ =>
      var r, t := e.request, Next(s, e);
      assert t.requests == s.requests[r := t.requests[r]];
      SetCounts(s, t, r, t.requests[r]);
  }

  /** One request changes, but neither its slot nor the counter. */
  lemma SetCounts(s: State, t: State, r: nat, q: Request)
    requires CountsOk(s) && r < |s.requests|
    requires t.requests == s.requests[r := q] && t.maximum == s.maximum && t.active == s.active
    requires !q.task.Suspended? || s.requests[r].task.Suspended?
    requires q.Busy() == s.requests[r].Busy() && q.phase.StartingNext? == s.requests[r].phase.StartingNext?
    ensures CountsOk(t)
  {
    CountSet(BUSY, s.requests, r, q);
    CountSet(STARTING_NEXT, s.requests, r, q);
    NoneNewlySuspended(s, t, r, q);
  }

  lemma NoneNewlySuspended(s: State, t: State, r: nat, q: Request)
    requires r < |s.requests| && t.requests == s.requests[r := q]
    requires !q.task.Suspended? || s.requests[r].task.Suspended?
    ensures SomeSuspended(t) ==> SomeSuspended(s)
  {
    if SomeSuspended(t) {
      var i :| 0 <= i < |t.requests| && t.requests[i].task.Suspended?;
      assert s.requests[i].task.Suspended?;
    }
  }

  lemma DecrementCounts(s: State, r: nat)
    requires Structured(s) && CountsOk(s) && r < |s.requests| && s.requests[r].phase.Decrementing?
    ensures CountsOk(Decrement(s, r))
  {
    var t := Decrement(s, r);
    CountSet(BUSY, s.requests, r, t.requests[r]);
    CountSet(STARTING_NEXT, s.requests, r, t.requests[r]);
    NoneNewlySuspended(s, t, r, t.requests[r]);
  }

  lemma DownloadCounts(s: State, url: string, receiptID: string, filter: Option<ImageFilter>, cached: Option<Image>)
    requires Structured(s) && CountsOk(s)
    ensures CountsOk(Download(s, url, receiptID, filter, cached))
  {
    var t := Download(s, url, receiptID, filter, cached);
    if t.requests != s.requests {
      var r := |s.requests|;
      CountAppend(BUSY, s.requests, t.requests[r]);
      CountAppend(STARTING_NEXT, s.requests, t.requests[r]);
      assert t.requests == s.requests + [t.requests[r]];
      if s.BelowMaximum() && SomeSuspended(t) {
        var i :| 0 <= i < |t.requests| && t.requests[i].task.Suspended?;
        assert i < |s.requests| && s.requests[i].task.Suspended?;
      }
    }
  }

  lemma StartNextCounts(s: State, r: nat)
    requires Structured(s) && CountsOk(s) && r < |s.requests| && s.requests[r].phase.StartingNext?
    ensures CountsOk(StartNext(s, r))
  {
    var m := s.Set(r, s.requests[r].(phase := Finished));
    assert RequestOk(s, r);
    CountSet(BUSY, s.requests, r, m.requests[r]);
    CountSet(STARTING_NEXT, s.requests, r, m.requests[r]);
    NoneNewlySuspended(s, m, r, m.requests[r]);
    if m.BelowMaximum() {
      SetStructured(s, m, r, m.requests[r]);
      var k := StartFirstEffect(m);
      var t := StartFirst(m);
      if k < |m.queue| {
        var i := m.queue[k];
        assert RequestOk(m, i);
        assert SomeSuspended(m);
        CountSet(BUSY, m.requests, i, t.requests[i]);
        CountSet(STARTING_NEXT, m.requests, i, t.requests[i]);
      } else if SomeSuspended(t) {
        var i :| 0 <= i < |t.requests| && t.requests[i].task.Suspended?;
        assert RequestOk(m, i);
      }
    }
  }

  // ----- no operation is lost or answered twice -----

  function Numbers(ops: seq<Operation>): seq<nat> {
    seq(|ops|, k requires 0 <= k < |ops| => ops[k].completion)
  }

  function Called(cs: seq<Completion>): seq<nat> {
    seq(|cs|, k requires 0 <= k < |cs| => cs[k].operation.completion)
  }

  /** The operations in the handler of request r, if it is still there. */
  function LiveOps(s: State, r: nat): seq<Operation>
    requires r < |s.requests|
  {
    if s.Live(r) then s.handlers[s.requests[r].url].operations else []
  }

  /** The completions that wait in the handlers of the first n requests. */
  function Waiting(s: State, n: nat): multiset<nat>
    requires n <= |s.requests|
  {
    if n == 0 then multiset{} else Waiting(s, n - 1) + multiset(Numbers(LiveOps(s, n - 1)))
  }

  function UpTo(n: nat): seq<nat> {
    seq(n, i => i)
  }

  /** Every completion passed to download either waits in one handler or has been called once. */
  ghost predicate Conserved(s: State) {
    Waiting(s, |s.requests|) + multiset(Called(s.completed)) == multiset(UpTo(|s.receipts|))
  }

  lemma {:induction false} WaitingSame(s: State, t: State, n: nat)
    requires n <= |s.requests| && n <= |t.requests|
    requires forall i | 0 <= i < n :: LiveOps(s, i) == LiveOps(t, i)
    ensures Waiting(t, n) == Waiting(s, n)
  {
    hide LiveOps;
    if n > 0 {
      WaitingSame(s, t, n - 1);
    }
  }

  lemma {:induction false} WaitingChange(s: State, t: State, r: nat, n: nat)
    requires r < n <= |s.requests| && n <= |t.requests|
    requires forall i | 0 <= i < n && i != r :: LiveOps(s, i) == LiveOps(t, i)
    ensures Waiting(t, n) + multiset(Numbers(LiveOps(s, r))) == Waiting(s, n) + multiset(Numbers(LiveOps(t, r)))
  {
    hide LiveOps, Numbers;
    if r == n - 1 {
      WaitingSame(s, t, r);
      Exchange(Waiting(s, r), multiset(Numbers(LiveOps(s, r))), multiset(Numbers(LiveOps(t, r))));
    } else {
      WaitingChange(s, t, r, n - 1);
      AddBoth(Waiting(t, n - 1), Waiting(s, n - 1), multiset(Numbers(LiveOps(s, r))), multiset(Numbers(LiveOps(t, r))),
              multiset(Numbers(LiveOps(s, n - 1))));
    }
  }

  lemma Exchange(w: multiset<nat>, a: multiset<nat>, b: multiset<nat>)
    ensures (w + b) + a == (w + a) + b
  {
  }

  lemma AddBoth(w: multiset<nat>, v: multiset<nat>, a: multiset<nat>, b: multiset<nat>, c: multiset<nat>)
    requires w + a == v + b
    ensures (w + c) + a == (v + c) + b
  {
    assert (w + c) + a == (w + a) + c;
  }

  lemma Balance(w: multiset<nat>, v: multiset<nat>, a: multiset<nat>, b: multiset<nat>,
                c: multiset<nat>, d: multiset<nat>, all: multiset<nat>, all': multiset<nat>)
    requires w + a == v + b && v + c == all
    requires b + d + all == a + c + all'
    ensures w + d == all'
  {
    forall x: nat
      ensures (w + d)[x] == all'[x]
    {
      assert (w + a)[x] == (v + b)[x] && (v + c)[x] == all[x] && (b + d + all)[x] == (a + c + all')[x];
    }
  }

  /** If the operations of one handler change, the completions called must make up for it. */
  lemma ConserveAt(s: State, t: State, r: nat)
    requires Conserved(s) && r < |s.requests| == |t.requests|
    requires forall i | 0 <= i < |s.requests| && i != r :: LiveOps(s, i) == LiveOps(t, i)
    requires multiset(Numbers(LiveOps(t, r))) + multiset(Called(t.completed)) + multiset(UpTo(|s.receipts|))
          == multiset(Numbers(LiveOps(s, r))) + multiset(Called(s.completed)) + multiset(UpTo(|t.receipts|))
    ensures Conserved(t)
  {
    WaitingChange(s, t, r, |s.requests|);
    hide Waiting, LiveOps, Numbers, Called, UpTo;
    Balance(Waiting(t, |t.requests|), Waiting(s, |s.requests|), multiset(Numbers(LiveOps(s, r))),
          multiset(Numbers(LiveOps(t, r))),
            multiset(Called(s.completed)), multiset(Called(t.completed)), multiset(UpTo(|s.receipts|)),
                  multiset(UpTo(|t.receipts|)));
  }

  lemma ConserveSame(s: State, t: State)
    requires Conserved(s) && |s.requests| == |t.requests| && t.completed == s.completed && t.receipts == s.receipts
    requires forall i | 0 <= i < |s.requests| :: LiveOps(s, i) == LiveOps(t, i)
    ensures Conserved(t)
  {
    WaitingSame(s, t, |s.requests|);
  }

  lemma StepConserves(s: State, e: Event)
    requires Structured(s) && Conserved(s) && Enabled(s, e)
    ensures Conserved(Next(s, e))
  {
    hide Conserved, HandlersOk, RequestsOk;
    match e
    case EDownload(url, receiptID, filter, cached) => DownloadConserves(s, url, receiptID, filter, cached);
    case ECancel(r, receiptID) => CancelConserves(s, r, receiptID);
    case ERemove(r) => RemoveConserves(s, r);
    case EStartNext(r) =>
      var m := s.Set(r, s.requests[r].(phase := Finished));
      var k := StartFirstEffect(m);
      ConserveSame(s, Next(s, e));
    case _ =>
      ConserveSame(s, Next(s, e));
  }

  lemma OneMore(n: nat)
    ensures UpTo(n + 1) == UpTo(n) + [n]
  {
  }

  lemma AppendConserves(s: State, t: State, url: string, op: Operation)
    requires Structured(s) && Conserved(s) && url in s.handlers && op.completion == |s.receipts|
    requires t.requests == s.requests && t.completed == s.completed && |t.receipts| == |s.receipts| + 1
    requires t.handlers == s.handlers[url := s.handlers[url].(operations := s.handlers[url].operations + [op])]
    ensures Conserved(t)
  {
    var r := s.handlers[url].request;
    OneMore(|s.receipts|);
    assert Numbers(LiveOps(t, r)) == Numbers(LiveOps(s, r)) + [|s.receipts|];
    hide Waiting, UpTo, RequestsOk, Conserved, Numbers, Called;
    ConserveAt(s, t, r);
  }

  lemma CachedConserves(s: State, t: State, c: Completion)
    requires Conserved(s) && c.operation.completion == |s.receipts|
    requires t.requests == s.requests && t.handlers == s.handlers
    requires t.completed == s.completed + [c] && |t.receipts| == |s.receipts| + 1
    ensures Conserved(t)
  {
    OneMore(|s.receipts|);
    WaitingSame(s, t, |s.requests|);
    assert Called(t.completed) == Called(s.completed) + [|s.receipts|];
    AddedTo(Waiting(s, |s.requests|), multiset(Called(s.completed)), multiset([|s.receipts|]));
  }

  lemma NewRequestConserves(s: State, t: State, url: string, op: Operation)
    requires Conserved(s) && url !in s.handlers && op.completion == |s.receipts|
    requires |t.requests| == |s.requests| + 1 && t.requests[|s.requests|].url == url
    requires forall i | 0 <= i < |s.requests| :: t.requests[i] == s.requests[i]
    requires t.handlers == s.handlers[url := Handler(|s.requests|, [op])]
    requires t.completed == s.completed && |t.receipts| == |s.receipts| + 1
    ensures Conserved(t)
  {
    NewRequestWaits(s, t, url, op);
    OneMore(|s.receipts|);
    hide Waiting, UpTo, Called;
    AddedTo(Waiting(s, |s.requests|), multiset(Called(s.completed)), multiset([|s.receipts|]));
  }

  lemma NewRequestWaits(s: State, t: State, url: string, op: Operation)
    requires url !in s.handlers && op.completion == |s.receipts|
    requires |t.requests| == |s.requests| + 1 && t.requests[|s.requests|].url == url
    requires forall i | 0 <= i < |s.requests| :: t.requests[i] == s.requests[i]
    requires t.handlers == s.handlers[url := Handler(|s.requests|, [op])]
    ensures Waiting(t, |t.requests|) == Waiting(s, |s.requests|) + multiset([|s.receipts|])
  {
    var r := |s.requests|;
    hide Waiting;
    WaitingSame(s, t, r);
    WaitingStep(t, r);
    assert Numbers(LiveOps(t, r)) == [|s.receipts|];
  }

  lemma DownloadConserves(s: State, url: string, receiptID: string, filter: Option<ImageFilter>, cached: Option<Image>)
    requires Structured(s) && Conserved(s)
    ensures Conserved(Download(s, url, receiptID, filter, cached))
  {
    hide Structured, Conserved;
    var t := Download(s, url, receiptID, filter, cached);
    var op := Operation(receiptID, filter, |s.receipts|);
    if url in s.handlers {
      AppendConserves(s, t, url, op);
    } else if cached.Some? {
      CachedConserves(s, t, Completion(op, FromCache(cached.value)));
    } else {
      NewRequestConserves(s, t, url, op);
    }
  }

  lemma AddedTo(w: multiset<nat>, c: multiset<nat>, more: multiset<nat>)
    ensures w + (c + more) == (w + c) + more == (w + more) + c
  {
  }

  lemma WaitingStep(s: State, r: nat)
    requires r < |s.requests|
    ensures Waiting(s, r + 1) == Waiting(s, r) + multiset(Numbers(LiveOps(s, r)))
  {
  }

  lemma NumbersWithout(ops: seq<Operation>, k: nat)
    requires k < |ops|
    ensures multiset(Numbers(ops)) == multiset(Numbers(ops[..k] + ops[k + 1..])) + multiset([ops[k].completion])
  {
    var a, b, c := Numbers(ops[..k]), [ops[k].completion], Numbers(ops[k + 1..]);
    assert Numbers(ops) == a + b + c;
    assert Numbers(ops[..k] + ops[k + 1..]) == a + c;
    Exchange(multiset(a), multiset(b), multiset(c));
  }

  lemma CancelOperationConserves(s: State, url: string, receiptID: string)
    requires Structured(s) && Conserved(s) && url in s.handlers
    ensures Conserved(CancelOperation(s, url, receiptID))
  {
    var t, h := CancelOperation(s, url, receiptID), s.handlers[url];
    var k := IndexOf(h.operations, receiptID);
    if k < |h.operations| {
      assert LiveOps(s, h.request) == h.operations;
      assert LiveOps(t, h.request) == h.operations[..k] + h.operations[k + 1..];
      assert Called(t.completed) == Called(s.completed) + [h.operations[k].completion];
      NumbersWithout(h.operations, k);
      hide Waiting, UpTo, RequestsOk, Conserved, Numbers, Called, IndexOf;
      ConserveAt(s, t, h.request);
    }
  }

  lemma CancelConserves(s: State, r: nat, receiptID: string)
    requires Structured(s) && Conserved(s) && r < |s.requests|
    ensures Conserved(Cancel(s, r, receiptID))
  {
    if s.requests[r].url in s.handlers {
      var m := CancelOperation(s, s.requests[r].url, receiptID);
      CancelOperationConserves(s, s.requests[r].url, receiptID);
      CancelOperationStructured(s, s.requests[r].url, receiptID);
      hide Structured, Conserved, CancelOperation, CancelIfIdle;
      CancelIfIdleConserves(m, r);
    }
  }

  lemma CancelIfIdleConserves(s: State, r: nat)
    requires Structured(s) && Conserved(s) && r < |s.requests| && s.requests[r].url in s.handlers
    ensures Conserved(CancelIfIdle(s, r))
  {
    assert RequestOk(s, r);
    hide Waiting, UpTo, Called, Numbers, Conserved, RequestsOk, QueueOk;
    ConserveSame(s, CancelIfIdle(s, r));
  }

  lemma RemoveConserves(s: State, r: nat)
    requires Structured(s) && Conserved(s) && r < |s.requests| && s.requests[r].phase.Removing?
    ensures Conserved(Remove(s, r))
  {
    var t := Remove(s, r);
    assert RequestOk(s, r);
    hide Waiting, UpTo, RequestsOk, Conserved;
    assert Called(t.completed) == Called(s.completed) + Numbers(LiveOps(s, r));
    assert Numbers(LiveOps(t, r)) == [];
    hide Called, Numbers;
    ConserveAt(s, t, r);
  }

  // ----- answers go to the receipts they are for -----

  /** A completion is called on account of the request its receipt names. */
  predicate RightAnswer(receipts: seq<Option<Receipt>>, c: Completion) {
    var n := c.operation.completion;
    && n < |receipts|
    && match c.outcome
       case FromCache(_) => receipts[n] == None
       case Image(r, _) => receipts[n] == Some(Receipt(r, c.operation.receiptID))
       case Error(r) => receipts[n] == Some(Receipt(r, c.operation.receiptID))
       case RequestCancelled => receipts[n].Some? && receipts[n].value.receiptID == c.operation.receiptID
  }

  predicate RightPlace(receipts: seq<Option<Receipt>>, r: nat, op: Operation) {
    op.completion < |receipts| && receipts[op.completion] == Some(Receipt(r, op.receiptID))
  }

  ghost predicate HandlersRight(receipts: seq<Option<Receipt>>, handlers: map<string, Handler>) {
    forall u | u in handlers :: forall i | 0 <= i < |handlers[u].operations| ::
      RightPlace(receipts, handlers[u].request, handlers[u].operations[i])
  }

  ghost predicate AnswersRight(receipts: seq<Option<Receipt>>, completed: seq<Completion>) {
    forall k | 0 <= k < |completed| :: RightAnswer(receipts, completed[k])
  }

  ghost predicate ReceiptsOk(s: State) {
    HandlersRight(s.receipts, s.handlers) && AnswersRight(s.receipts, s.completed)
  }

  lemma StepReceipts(s: State, e: Event)
    requires Structured(s) && ReceiptsOk(s) && Enabled(s, e)
    ensures ReceiptsOk(Next(s, e))
  {
    hide HandlersOk, RequestsOk;
    match e
    case EDownload(url, receiptID, filter, cached) => DownloadReceipts(s, url, receiptID, filter, cached);
    case ECancel(r, receiptID) => CancelReceipts(s, r, receiptID);
    case ERemove(r) => RemoveReceipts(s, r);
    case EStartNext(r) =>
      var m := s.Set(r, s.requests[r].(phase := Finished));
      var k := StartFirstEffect(m);
    case _ =>
  }

  lemma DownloadReceipts(s: State, url: string, receiptID: string, filter: Option<ImageFilter>, cached: Option<Image>)
    requires ReceiptsOk(s)
    ensures ReceiptsOk(Download(s, url, receiptID, filter, cached))
  {
    var t := Download(s, url, receiptID, filter, cached);
    assert forall i | 0 <= i < |s.receipts| :: t.receipts[i] == s.receipts[i];
  }

  lemma CancelReceipts(s: State, r: nat, receiptID: string)
    requires ReceiptsOk(s) && r < |s.requests|
    ensures ReceiptsOk(Cancel(s, r, receiptID))
  {
    hide CancelOperation, IndexOf;
    if s.requests[r].url in s.handlers {
      CancelOperationReceipts(s, s.requests[r].url, receiptID);
    }
  }

  lemma CancelOperationReceipts(s: State, url: string, receiptID: string)
    requires ReceiptsOk(s) && url in s.handlers
    ensures ReceiptsOk(CancelOperation(s, url, receiptID))
  {
    var ops := s.handlers[url].operations;
    var k := IndexOf(ops, receiptID);
    if k < |ops| {
      var rest := ops[..k] + ops[k + 1..];
      assert RightPlace(s.receipts, s.handlers[url].request, ops[k]);
      forall i | 0 <= i < |rest|
        ensures RightPlace(s.receipts, s.handlers[url].request, rest[i])
      {
        assert rest[i] == ops[if i < k then i else i + 1];
      }
    }
  }

  lemma RemoveReceipts(s: State, r: nat)
    requires Structured(s) && ReceiptsOk(s) && r < |s.requests| && s.requests[r].phase.Removing?
    ensures ReceiptsOk(Remove(s, r))
  {
    assert RequestOk(s, r);
    var t, ops := Remove(s, r), s.handlers[s.requests[r].url].operations;
    forall k | 0 <= k < |t.completed|
      ensures RightAnswer(t.receipts, t.completed[k])
    {
      if k >= |s.completed| {
        assert RightPlace(s.receipts, r, ops[k - |s.completed|]);
      }
    }
  }

  // ----- every run -----

  ghost predicate Invariant(s: State) {
    Structured(s) && CountsOk(s) && Conserved(s) && ReceiptsOk(s)
  }

  /** The events can happen one after another, and lead from s to t. */
  ghost predicate Runs(s: State, events: seq<Event>, t: State)
    decreases |events|
  {
    if events == [] then s == t
    else QueueOk(s) && Enabled(s, events[0]) && Runs(Next(s, events[0]), events[1..], t)
  }

  lemma {:induction false} RunKeepsInvariant(s: State, events: seq<Event>, t: State)
    requires Invariant(s) && Runs(s, events, t)
    ensures Invariant(t)
    decreases |events|
  {
    hide Structured, CountsOk, Conserved, ReceiptsOk, Next, Enabled;
    if events != [] {
      StepStructured(s, events[0]);
      StepCounts(s, events[0]);
      StepConserves(s, events[0]);
      StepReceipts(s, events[0]);
      RunKeepsInvariant(Next(s, events[0]), events[1..], t);
    }
  }

  ghost predicate Reachable(s: State) {
    exists events, maximum, lifo :: Runs(Initial(maximum, lifo), events, s)
  }

  lemma ReachableInvariant(s: State)
    requires Reachable(s)
    ensures Invariant(s)
  {
    var events, maximum, lifo :| Runs(Initial(maximum, lifo), events, s);
    RunKeepsInvariant(Initial(maximum, lifo), events, s);
  }

  // ----- main results -----

  predicate CalledAt(s: State, k: nat, c: nat) {
    k < |s.completed| && s.completed[k].operation.completion == c
  }

  ghost predicate WasCalled(s: State, c: nat) {
    exists k :: CalledAt(s, k, c)
  }

  predicate WaitsAt(s: State, url: string, i: nat, c: nat) {
    url in s.handlers && i < |s.handlers[url].operations| && s.handlers[url].operations[i].completion == c
  }

  lemma Twice(xs: seq<nat>, i: nat, j: nat)
    requires i < j < |xs| && xs[i] == xs[j]
    ensures multiset(xs)[xs[i]] >= 2
  {
    assert xs == xs[..j] + [xs[j]] + xs[j + 1..];
    assert xs[..j][i] == xs[i];
  }

  lemma {:induction false} WaitingHas(s: State, r: nat, n: nat, c: nat)
    requires r < n <= |s.requests|
    ensures Waiting(s, n)[c] >= multiset(Numbers(LiveOps(s, r)))[c]
  {
    if r < n - 1 {
      WaitingHas(s, r, n - 1, c);
    }
  }

  lemma {:induction false} WaitingTwice(s: State, r: nat, q: nat, n: nat, c: nat)
    requires r < q < n <= |s.requests|
    ensures Waiting(s, n)[c] >= multiset(Numbers(LiveOps(s, r)))[c] + multiset(Numbers(LiveOps(s, q)))[c]
  {
    if q == n - 1 {
      WaitingHas(s, r, n - 1, c);
    } else {
      WaitingTwice(s, r, q, n - 1, c);
    }
  }

  lemma {:induction false} WaitingSomewhere(s: State, n: nat, c: nat) returns (r: nat)
    requires n <= |s.requests| && Waiting(s, n)[c] > 0
    ensures r < n && c in Numbers(LiveOps(s, r))
  {
    if c in Numbers(LiveOps(s, n - 1)) {
      r := n - 1;
    } else {
      r := WaitingSomewhere(s, n - 1, c);
    }
  }

  lemma {:induction false} CountUpTo(n: nat, c: nat)
    ensures multiset(UpTo(n))[c] == if c < n then 1 else 0
  {
    if n > 0 {
      CountUpTo(n - 1, c);
      assert UpTo(n) == UpTo(n - 1) + [n - 1];
    }
  }

  lemma WaitsIn(s: State, url: string, i: nat, c: nat)
    requires Structured(s) && WaitsAt(s, url, i, c)
    ensures var r := s.handlers[url].request;
            && r < |s.requests| && s.requests[r].url == url && LiveOps(s, r) == s.handlers[url].operations
            && Numbers(LiveOps(s, r))[i] == c && multiset(Numbers(LiveOps(s, r)))[c] > 0
  {
    var r := s.handlers[url].request;
    assert Numbers(LiveOps(s, r))[i] == c;
    assert c in multiset(Numbers(LiveOps(s, r)));
  }

  /** Whatever the order of the steps: every completion passed to download is in one place, either in one
    * live handler or among those called, and there it is just once. */
  lemma ExactlyOnce(s: State, c: nat)
    requires Reachable(s)
    ensures c < |s.receipts| <==> WasCalled(s, c) || (exists url, i :: WaitsAt(s, url, i, c))
    ensures !(WasCalled(s, c) && (exists url, i :: WaitsAt(s, url, i, c)))
    ensures forall k, l :: CalledAt(s, k, c) && CalledAt(s, l, c) ==> k == l
    ensures forall url, i, other, j :: WaitsAt(s, url, i, c) && WaitsAt(s, other, j, c) ==> url == other && i == j
  {
    ReachableInvariant(s);
    var waiting, called := Waiting(s, |s.requests|), multiset(Called(s.completed));
    CountUpTo(|s.receipts|, c);
    assert (waiting + called)[c] == if c < |s.receipts| then 1 else 0;
    hide Waiting, UpTo, Reachable, Conserved, CountsOk, ReceiptsOk, Structured, LiveOps;
    CalledCount(s, c);
    WaitingCount(s, c);
  }

  lemma CalledCount(s: State, c: nat)
    ensures WasCalled(s, c) <==> multiset(Called(s.completed))[c] > 0
    ensures multiset(Called(s.completed))[c] <= 1 ==> forall k, l :: CalledAt(s, k, c) && CalledAt(s, l, c) ==> k == l
  {
    var called := Called(s.completed);
    if c in called {
      var k :| 0 <= k < |called| && called[k] == c;
      assert CalledAt(s, k, c);
    }
    forall k: nat, l: nat | CalledAt(s, k, c) && CalledAt(s, l, c)
      ensures c in called && (k != l ==> multiset(called)[c] >= 2)
    {
      assert called[k] == c && called[l] == c;
      if k < l { Twice(called, k, l); } else if l < k { Twice(called, l, k); }
    }
  }

  lemma WaitingCount(s: State, c: nat)
    requires Structured(s)
    ensures (exists url, i :: WaitsAt(s, url, i, c)) <==> Waiting(s, |s.requests|)[c] > 0
    ensures Waiting(s, |s.requests|)[c] <= 1 ==>
              forall url, i, other, j :: WaitsAt(s, url, i, c) && WaitsAt(s, other, j, c) ==> url == other && i == j
  {
    if Waiting(s, |s.requests|)[c] > 0 {
      var r := WaitingSomewhere(s, |s.requests|, c);
      var i :| 0 <= i < |LiveOps(s, r)| && Numbers(LiveOps(s, r))[i] == c;
      assert WaitsAt(s, s.requests[r].url, i, c);
    }
    hide Structured, Waiting, WaitsAt;
    forall url, i | WaitsAt(s, url, i, c)
      ensures Waiting(s, |s.requests|)[c] > 0
    {
      WaitsIn(s, url, i, c);
      WaitingHas(s, s.handlers[url].request, |s.requests|, c);
    }
    forall url, i, other, j | WaitsAt(s, url, i, c) && WaitsAt(s, other, j, c)
      ensures (url == other && i == j) || Waiting(s, |s.requests|)[c] >= 2
    {
      WaitsTwice(s, url, i, other, j, c);
    }
  }

  lemma WaitsTwice(s: State, url: string, i: nat, other: string, j: nat, c: nat)
    requires Structured(s) && WaitsAt(s, url, i, c) && WaitsAt(s, other, j, c)
    ensures (url == other && i == j) || Waiting(s, |s.requests|)[c] >= 2
  {
    WaitsIn(s, url, i, c);
    WaitsIn(s, other, j, c);
    var r, q := s.handlers[url].request, s.handlers[other].request;
    hide Structured, Waiting, WaitsAt, LiveOps, Numbers;
    if r == q {
      if i != j {
        if i < j { Twice(Numbers(LiveOps(s, r)), i, j); } else { Twice(Numbers(LiveOps(s, r)), j, i); }
        WaitingHas(s, r, |s.requests|, c);
      }
    } else if r < q {
      WaitingTwice(s, r, q, |s.requests|, c);
    } else {
      WaitingTwice(s, q, r, |s.requests|, c);
    }
  }

  /** A closure that gets to remove a handler removes its own: those made for other requests stay as they
    * are, and every operation it answers has a receipt for its request. */
  lemma StaleResponseTakesNothing(s: State, r: nat)
    requires Reachable(s) && Enabled(s, ERemove(r))
    ensures s.Live(r) && Remove(s, r).handlers == s.handlers - {s.requests[r].url}
    ensures forall u | u in s.handlers && s.handlers[u].request != r ::
              u in Remove(s, r).handlers && Remove(s, r).handlers[u] == s.handlers[u]
    ensures |Remove(s, r).completed| == |s.completed| + |s.handlers[s.requests[r].url].operations|
    ensures forall k | |s.completed| <= k < |Remove(s, r).completed| ::
              RightPlace(s.receipts, r, Remove(s, r).completed[k].operation)
  {
    ReachableInvariant(s);
    assert RequestOk(s, r);
    hide Reachable, Conserved, CountsOk;
  }

  /** With room for at least one download, a request only ever waits while some other request holds a slot
    * or is about to start the next one. */
  lemma NoStall(s: State)
    requires Reachable(s) && s.maximum >= 1 && SomeSuspended(s)
    ensures exists r :: 0 <= r < |s.requests| && (s.requests[r].Busy() || s.requests[r].phase.StartingNext?)
  {
    ReachableInvariant(s);
    if Count(STARTING_NEXT, s.requests) > 0 {
      var r := CountSome(STARTING_NEXT, s.requests);
    } else {
      var r := CountSome(BUSY, s.requests);
    }
  }

  // ----- every download ends -----

  /** The steps that are not up to the callers. */
  predicate Internal(e: Event) {
    e.ERespond? || e.EFetch? || e.ERemove? || e.EDecrement? || e.EStartNext?
  }

  predicate AllInternal(events: seq<Event>) {
    forall i | 0 <= i < |events| :: Internal(events[i])
  }

  /** Nothing is going on: no session answer and no closure is outstanding. */
  ghost predicate Quiet(s: State) {
    forall e | Internal(e) :: !Enabled(s, e)
  }

  function StepsLeft(q: Request): nat {
    match q.phase
    case Unanswered => 5
    case Fetching(_) => 4
    case Removing(_) => 3
    case Decrementing => 2
    case StartingNext => 1
    case Finished => 0
  }

  function Left(rs: seq<Request>): nat {
    if rs == [] then 0 else StepsLeft(rs[0]) + Left(rs[1..])
  }

  lemma {:induction false} LeftSet(rs: seq<Request>, r: nat, q: Request)
    requires r < |rs|
    ensures Left(rs[r := q]) == Left(rs) - StepsLeft(rs[r]) + StepsLeft(q)
  {
    if r == 0 {
      assert rs[0 := q][1..] == rs[1..];
    } else {
      LeftSet(rs[1..], r - 1, q);
      assert rs[r := q][1..] == rs[1..][r - 1 := q];
    }
  }

  /** Every internal step uses up one that is left, and cancelling adds none. */
  lemma StepUsesUp(s: State, e: Event)
    requires Structured(s) && Enabled(s, e) && !e.EDownload?
    ensures Internal(e) ==> Left(Next(s, e).requests) < Left(s.requests)
    ensures !Internal(e) ==> Left(Next(s, e).requests) == Left(s.requests)
  {
    hide HandlersOk, RequestsOk, Left, Count, QueueOk;
    match e
    case EStartNext(r) => StartNextUsesUp(s, r);
    case ECancel(r, receiptID) =>
      hide CancelOperation;
      if Cancel(s, r, receiptID).requests != s.requests {
        LeftSet(s.requests, r, s.requests[r].(task := Canceling));
      }
    case ECancelDirectly(r) =>
      if CancelDirectly(s, r).requests != s.requests {
        LeftSet(s.requests, r, s.requests[r].(task := Canceling));
      }
    case ERespond(r, answer) => LeftSet(s.requests, r, Next(s, e).requests[r]);
    case EFetch(r) => LeftSet(s.requests, r, Next(s, e).requests[r]);
    case ERemove(r) => LeftSet(s.requests, r, Next(s, e).requests[r]);
    case EDecrement(r) => LeftSet(s.requests, r, Next(s, e).requests[r]);
  }

  lemma StartNextUsesUp(s: State, r: nat)
    requires QueueOk(s) && r < |s.requests| && s.requests[r].phase.StartingNext?
    ensures Left(StartNext(s, r).requests) == Left(s.requests) - 1
  {
    hide Left;
    var q := s.requests[r].(phase := Finished);
    var m := s.Set(r, q);
    LeftSet(s.requests, r, q);
    var k := StartFirstEffect(m);
    if k < |m.queue| {
      var i := m.queue[k];
      LeftSet(m.requests, i, m.requests[i].(task := Running, started := true));
    }
  }

  /** Once nothing is going on, every request has been answered and every completion has been called. */
  lemma QuietIsDone(s: State)
    requires Reachable(s) && s.maximum >= 1 && Quiet(s)
    ensures forall r | 0 <= r < |s.requests| :: s.requests[r].phase.Finished?
    ensures s.handlers == map[] && s.active == 0
    ensures forall c | 0 <= c < |s.receipts| :: WasCalled(s, c)
  {
    ReachableInvariant(s);
    forall r | 0 <= r < |s.requests|
      ensures !s.requests[r].Busy() && (s.requests[r].phase.Finished? || s.requests[r].task.Suspended?)
      ensures !s.requests[r].phase.StartingNext?
    {
      assert RequestOk(s, r);
      assert !Enabled(s, ERespond(r, Failure)) && !Enabled(s, EFetch(r)) && !Enabled(s, ERemove(r));
      assert !Enabled(s, EDecrement(r)) && !Enabled(s, EStartNext(r));
    }
    if SomeSuspended(s) {
      NoStall(s);
      assert false;
    }
    if Count(BUSY, s.requests) > 0 {
      var r := CountSome(BUSY, s.requests);
      assert false;
    }
    assert forall u :: u !in s.handlers;
    forall c | 0 <= c < |s.receipts|
      ensures WasCalled(s, c)
    {
      ExactlyOnce(s, c);
    }
  }

  lemma RunExtends(s: State, events: seq<Event>, t: State, e: Event)
    requires Runs(s, events, t) && QueueOk(t) && Enabled(t, e)
    ensures Runs(s, events + [e], Next(t, e))
    decreases |events|
  {
    if events == [] {
      assert [e][1..] == [];
    } else {
      RunExtends(Next(s, events[0]), events[1..], t, e);
      assert (events + [e])[1..] == events[1..] + [e];
    }
  }

  /** From every reachable state the internal steps alone lead to a quiet one; since each uses up one of
    * the steps left, they cannot go on for ever. */
  lemma {:induction false} Settles(s: State) returns (events: seq<Event>, t: State)
    requires Reachable(s)
    ensures AllInternal(events) && |events| <= Left(s.requests) && Runs(s, events, t)
    ensures Reachable(t) && Quiet(t)
    decreases Left(s.requests)
  {
    ReachableInvariant(s);
    if Quiet(s) {
      events, t := [], s;
    } else {
      var e :| Internal(e) && Enabled(s, e);
      var maximum, lifo, past: seq<Event> :| Runs(Initial(maximum, lifo), past, s);
      RunExtends(Initial(maximum, lifo), past, s, e);
      StepUsesUp(s, e);
      hide Invariant, Runs, Next, Enabled;
      var rest;
      rest, t := Settles(Next(s, e));
      events := [e] + rest;
      assert events[1..] == rest;
      RunBegins(s, e, rest, t);
    }
  }

  lemma RunBegins(s: State, e: Event, rest: seq<Event>, t: State)
    requires QueueOk(s) && Enabled(s, e) && Runs(Next(s, e), rest, t)
    ensures Runs(s, [e] + rest, t)
  {
    assert ([e] + rest)[1..] == rest;
  }
}
