/** ImageDownloader as a state machine. Each step is one block on its serial queue, or an answer of the
  * URL session; steps interleave in any order. */
module Downloads {
  import opened Options

  // ----- requests and what waits for them -----

  /** The state of a URL session task. */
  datatype Task = Suspended | Running | Canceling | Completed

  datatype Answer = Success(data: nat) | Failure

  /** How far the response closure of a request has got. */
  datatype Phase =
    | Unanswered | Fetching(answer: Answer) | Removing(answer: Answer)
    | Decrementing | StartingNext | Finished

  datatype Request = Request(url: string, task: Task, phase: Phase, started: bool) {
    predicate Answered() {
      !phase.Unanswered?
    }

    /** Started, and its slot not yet given back. */
    predicate Busy() {
      started && (phase.Unanswered? || phase.Fetching? || phase.Removing? || phase.Decrementing?)
    }
  }

  datatype ImageFilter = ImageFilter(identifier: string, kind: nat)

  datatype Image = Original(data: nat) | Filtered(image: Image, filter: ImageFilter)

  /** An operation of a response handler. Completion closures are numbered in the order of the calls to
    * download they come with. */
  datatype Operation = Operation(receiptID: string, filter: Option<ImageFilter>, completion: nat)

  datatype Handler = Handler(request: nat, operations: seq<Operation>)

  datatype Receipt = Receipt(request: nat, receiptID: string)

  /** What a completion closure is called with, and on account of which request. */
  datatype Outcome =
    | FromCache(image: Image)
    | Image(request: nat, image: Image)
    | Error(request: nat)
    | RequestCancelled

  datatype Completion = Completion(operation: Operation, outcome: Outcome)

  /** An image added to the image cache for a URL and the identifier of a filter. */
  datatype Addition = Addition(url: string, identifier: Option<string>, image: Image)

  /** Requests are named by their position in `requests`, and so are the identifiers of their handlers.
    * `receipts` has the result of each call to download, `added` what went into the image cache. */
  datatype State = State(
    maximum: int, lifo: bool,
    active: int, queue: seq<nat>, handlers: map<string, Handler>,
    requests: seq<Request>, receipts: seq<Option<Receipt>>, completed: seq<Completion>,
    added: seq<Addition>)
  {
    function Set(r: nat, q: Request): State
      requires r < |requests|
    {
      this.(requests := requests[r := q])
    }

    predicate BelowMaximum() {
      active < maximum
    }

    /** The handler that request r was made for is still there. */
    predicate Live(r: nat)
      requires r < |requests|
    {
      requests[r].url in handlers && handlers[requests[r].url].request == r
    }
  }

  function Initial(maximum: int, lifo: bool): State {
    State(maximum, lifo, 0, [], map[], [], [], [], [])
  }

  // ----- queue -----

  function Start(s: State, r: nat): State
    requires r < |s.requests|
  {
    s.Set(r, s.requests[r].(task := Running, started := true)).(active := s.active + 1)
  }

  function Enqueue(s: State, r: nat): State {
    s.(queue := if s.lifo then [r] + s.queue else s.queue + [r])
  }

  /** The first request in the queue that is still suspended is started; those before it are dropped. */
  function StartFirst(s: State): State
    requires QueueOk(s)
    decreases |s.queue|
  {
    if s.queue == [] then s
    else
      var r, rest := s.queue[0], s.(queue := s.queue[1..]);
      if s.requests[r].task.Suspended? then Start(rest, r) else StartFirst(rest)
  }

  predicate QueueOk(s: State) {
    && (forall i | 0 <= i < |s.queue| :: s.queue[i] < |s.requests|)
    && forall i, j | 0 <= i < j < |s.queue| :: s.queue[i] != s.queue[j]
  }

  // ----- steps -----

  function Download(s: State, url: string, receiptID: string, filter: Option<ImageFilter>, cached: Option<Image>): State
  {
    var op := Operation(receiptID, filter, |s.receipts|);
    if url in s.handlers then
      var h := s.handlers[url];
      s.(handlers := s.handlers[url := h.(operations := h.operations + [op])],
         receipts := s.receipts + [Some(Receipt(h.request, receiptID))])
    else if cached.Some? then
      s.(receipts := s.receipts + [None], completed := s.completed + [Completion(op, FromCache(cached.value))])
    else
      var r := |s.requests|;
      var t := s.(requests := s.requests + [Request(url, Suspended, Unanswered, false)],
                  handlers := s.handlers[url := Handler(r, [op])],
                  receipts := s.receipts + [Some(Receipt(r, receiptID))]);
      if t.BelowMaximum() then Start(t, r) else Enqueue(t, r)
  }

  /** The first operation with the given receipt, or their number. */
  function IndexOf(ops: seq<Operation>, receiptID: string): (k: nat)
    ensures k <= |ops|
    ensures k < |ops| ==> ops[k].receiptID == receiptID
    ensures forall j | 0 <= j < k :: ops[j].receiptID != receiptID
  {
    if ops == [] || ops[0].receiptID == receiptID then 0 else 1 + IndexOf(ops[1..], receiptID)
  }

  /** The operation with the given receipt is taken out of the handler and told so. */
  function CancelOperation(s: State, url: string, receiptID: string): State
    requires url in s.handlers
  {
    var h := s.handlers[url];
    var k := IndexOf(h.operations, receiptID);
    if k == |h.operations| then s
    else s.(handlers := s.handlers[url := h.(operations := h.operations[..k] + h.operations[k + 1..])],
            completed := s.completed + [Completion(h.operations[k], RequestCancelled)])
  }

  /** A request that has not been started, and that nobody waits for any more, is cancelled. */
  function CancelIfIdle(s: State, r: nat): State
    requires r < |s.requests| && s.requests[r].url in s.handlers
  {
    var q := s.requests[r];
    if s.handlers[q.url].operations == [] && q.task.Suspended?
    then s.Set(r, q.(task := Canceling)).(handlers := s.handlers - {q.url})
    else s
  }

  function Cancel(s: State, r: nat, receiptID: string): State
    requires r < |s.requests|
  {
    if s.requests[r].url !in s.handlers then s
    else CancelIfIdle(CancelOperation(s, s.requests[r].url, receiptID), r)
  }

  /** Someone cancels the request itself, which the documentation discourages. */
  function CancelDirectly(s: State, r: nat): State
    requires r < |s.requests|
  {
    if s.requests[r].task.Completed? then s else s.Set(r, s.requests[r].(task := Canceling))
  }

  /** The session answers a request that is no longer suspended, once. */
  function Respond(s: State, r: nat, answer: Answer): State
    requires r < |s.requests|
  {
    s.Set(r, s.requests[r].(task := Completed, phase := Fetching(answer)))
  }

  /** The response closure looks whether the handler is still its own. */
  function Fetch(s: State, r: nat): State
    requires r < |s.requests| && s.requests[r].phase.Fetching?
  {
    var q := s.requests[r];
    s.Set(r, q.(phase := if s.Live(r) then Removing(q.phase.answer) else Decrementing))
  }

  /** It removes whatever handler there now is for the URL, and answers all its operations. */
  function Remove(s: State, r: nat): State
    requires r < |s.requests| && s.requests[r].phase.Removing?
  {
    var q := s.requests[r];
    var t := s.Set(r, q.(phase := Decrementing));
    if q.url !in s.handlers then t
    else
      var answers := Answers(r, s.handlers[q.url].operations, q.phase.answer);
      t.(handlers := s.handlers - {q.url},
         completed := s.completed + answers,
         added := s.added + Additions(q.url, answers))
  }

  function Decrement(s: State, r: nat): State
    requires r < |s.requests|
  {
    s.Set(r, s.requests[r].(phase := StartingNext)).(active := if s.active > 0 then s.active - 1 else s.active)
  }

  function StartNext(s: State, r: nat): State
    requires r < |s.requests| && QueueOk(s)
  {
    var t := s.Set(r, s.requests[r].(phase := Finished));
    if t.BelowMaximum() then StartFirst(t) else t
  }

  // ----- the answers to the operations of a handler -----

  function Answers(r: nat, ops: seq<Operation>, answer: Answer): (cs: seq<Completion>)
    ensures |cs| == |ops| && forall k | 0 <= k < |ops| :: cs[k].operation == ops[k]
  {
    seq(|ops|, k requires 0 <= k < |ops| =>
      Completion(ops[k], if answer.Failure? then Error(r) else Image(r, FilteredFor(ops, k, Original(answer.data)))))
  }

  /** The images among some answers, as they are added to the cache. */
  function Additions(url: string, cs: seq<Completion>): seq<Addition> {
    if cs == [] then [] else AdditionFor(url, cs[0]) + Additions(url, cs[1..])
  }

  function AdditionFor(url: string, c: Completion): seq<Addition> {
    if !c.outcome.Image? then []
    else
      var identifier := match c.operation.filter case None => None case Some(f) => Some(f.identifier);
      [Addition(url, identifier, c.outcome.image)]
  }

  /** The image for operation k: of several filters with the same identifier only the first is used. */
  function FilteredFor(ops: seq<Operation>, k: nat, image: Image): Image
    requires k < |ops|
  {
    match ops[k].filter
    case None => image
    case Some(f) => Filtered(image, FirstFilter(ops, k, f.identifier))
  }

  function FirstFilter(ops: seq<Operation>, k: nat, identifier: string): (f: ImageFilter)
    requires k < |ops| && ops[k].filter.Some? && ops[k].filter.value.identifier == identifier
    ensures f.identifier == identifier
    ensures exists j | 0 <= j <= k ::
              ops[j].filter == Some(f) && forall i | 0 <= i < j :: !HasFilter(ops[i], identifier)
    decreases k
  {
    if HasFilter(ops[0], identifier) then ops[0].filter.value
    else
      var f := FirstFilter(ops[1..], k - 1, identifier);
      ghost var j :| 0 <= j <= k - 1 && ops[1..][j].filter == Some(f)
            && forall i | 0 <= i < j :: !HasFilter(ops[1..][i], identifier);
      assert ops[j + 1].filter == Some(f) && forall i | 0 <= i < j + 1 :: !HasFilter(ops[i], identifier) by {
        forall i | 0 <= i < j + 1 ensures !HasFilter(ops[i], identifier) {
          if i > 0 { assert ops[i] == ops[1..][i - 1]; }
        }
      }
      f
  }

  predicate HasFilter(op: Operation, identifier: string) {
    op.filter.Some? && op.filter.value.identifier == identifier
  }

  // ----- runs -----

  datatype Event =
    | EDownload(url: string, receiptID: string, filter: Option<ImageFilter>, cached: Option<Image>)
    | ECancel(request: nat, receiptID: string)
    | ECancelDirectly(request: nat)
    | ERespond(request: nat, answer: Answer)
    | EFetch(request: nat)
    | ERemove(request: nat)
    | EDecrement(request: nat)
    | EStartNext(request: nat)

  predicate Enabled(s: State, e: Event) {
    match e
    case EDownload(_, _, _, _) => true
    case ECancel(r, _) => r < |s.requests|
    case ECancelDirectly(r) => r < |s.requests|
    case ERespond(r, _) =>
      && r < |s.requests| && !s.requests[r].Answered()
      && (s.requests[r].task.Running? || s.requests[r].task.Canceling?)
    case EFetch(r) => r < |s.requests| && s.requests[r].phase.Fetching?
    case ERemove(r) => r < |s.requests| && s.requests[r].phase.Removing?
    case EDecrement(r) => r < |s.requests| && s.requests[r].phase.Decrementing?
    case EStartNext(r) => r < |s.requests| && s.requests[r].phase.StartingNext?
  }

  function Next(s: State, e: Event): State
    requires Enabled(s, e) && QueueOk(s)
  {
    match e
    case EDownload(url, receiptID, filter, cached) => Download(s, url, receiptID, filter, cached)
    case ECancel(r, receiptID) => Cancel(s, r, receiptID)
    case ECancelDirectly(r) => CancelDirectly(s, r)
    case ERespond(r, answer) => Respond(s, r, answer)
    case EFetch(r) => Fetch(s, r)
    case ERemove(r) => Remove(s, r)
    case EDecrement(r) => Decrement(s, r)
    case EStartNext(r) => StartNext(s, r)
  }
}
