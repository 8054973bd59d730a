/** ImageDownloader as it runs: each method is one block on the synchronization queue, and is proved
  * against its step in module Downloads. */
module Downloader {
  import opened Options
  import D = Downloads

  class ResponseHandler {
    const request: nat
    var operations: seq<D.Operation>

    constructor (request: nat, operation: D.Operation)
      ensures this.request == request && operations == [operation]
    {
      this.request := request;
      this.operations := [operation];
    }
  }

  class ImageDownloader {
    const lifo: bool
    const maximumActiveDownloads: int
    var activeRequestCount: int
    var queuedRequests: seq<nat>
    var responseHandlers: map<string, ResponseHandler>

    /** The tasks of the URL session, with the progress of their response closures. */
    var requests: seq<D.Request>

    /** What has been dispatched to the main queue. */
    var completed: seq<D.Completion>

    var receipts: seq<Option<D.Receipt>>

    /** What has been added to the image cache. */
    var added: seq<D.Addition>

    /** No two URLs share a handler object. */
    ghost predicate Valid()
      reads this
    {
      && D.QueueOk(D.State(maximumActiveDownloads, lifo, activeRequestCount, queuedRequests, map[],
                           requests, receipts, completed, added))
      && forall u, v | u in responseHandlers && v in responseHandlers && u != v ::
           responseHandlers[u] != responseHandlers[v]
    }

    ghost function Handlers(): map<string, D.Handler>
      reads this`responseHandlers, responseHandlers.Values
    {
      map u | u in responseHandlers :: D.Handler(responseHandlers[u].request, responseHandlers[u].operations)
    }

    ghost function Now(): D.State
      reads this, responseHandlers.Values
    {
      D.State(maximumActiveDownloads, lifo, activeRequestCount, queuedRequests, Handlers(),
              requests, receipts, completed, added)
    }

    constructor (lifo: bool, maximumActiveDownloads: int)
      ensures Valid() && Now() == D.Initial(maximumActiveDownloads, lifo)
    {
      this.lifo := lifo;
      this.maximumActiveDownloads := maximumActiveDownloads;
      activeRequestCount := 0;
      queuedRequests := [];
      responseHandlers := map[];
      requests := [];
      completed := [];
      added := [];
      receipts := [];
    }

    /** download(_:receiptID:filter:...:completion:). The image is the one in the cache, if the cache policy
      * allows its use. */
    method Download(url: string, receiptID: string, filter: Option<D.ImageFilter>, cached: Option<D.Image>)
      returns (receipt: Option<D.Receipt>)
      requires Valid()
      modifies this, responseHandlers.Values
      ensures Valid() && Now() == D.Download(old(Now()), url, receiptID, filter, cached)
      ensures receipts == old(receipts) + [receipt]
    {
      var operation := D.Operation(receiptID, filter, |receipts|);
      if url in responseHandlers {
        receipt := AppendOperation(url, operation);
      } else if cached.Some? {
        completed := completed + [D.Completion(operation, D.FromCache(cached.value))];
        receipt := None;
        receipts := receipts + [receipt];
        assert Handlers() == old(Handlers());
      } else {
        receipt := CreateRequest(url, operation);
        if activeRequestCount < maximumActiveDownloads {
          Start(|requests| - 1);
        } else {
          Enqueue(|requests| - 1);
        }
      }
    }

    /** Part 1 of download: the URL is already being waited for. */
    method AppendOperation(url: string, operation: D.Operation) returns (receipt: Option<D.Receipt>)
      requires Valid() && url in responseHandlers
      modifies this`receipts, responseHandlers.Values
      ensures Valid() && receipts == old(receipts) + [receipt]
            && receipt == Some(D.Receipt(responseHandlers[url].request, operation.receiptID))
      ensures var h := old(Handlers())[url];
              Handlers() == old(Handlers())[url := h.(operations := h.operations + [operation])]
    {
      var responseHandler := responseHandlers[url];
      responseHandler.operations := responseHandler.operations + [operation];
      receipt := Some(D.Receipt(responseHandler.request, operation.receiptID));
      receipts := receipts + [receipt];
    }

    /** Parts 3 and 4 of download: a new request and its handler. */
    method CreateRequest(url: string, operation: D.Operation) returns (receipt: Option<D.Receipt>)
      requires Valid() && url !in responseHandlers
      modifies this`receipts, this`requests, this`responseHandlers
      ensures Valid() && receipts == old(receipts) + [receipt] && receipt == Some(D.Receipt(old(|requests|),
            operation.receiptID))
      ensures requests == old(requests) + [D.Request(url, D.Suspended, D.Unanswered, false)]
      ensures Handlers() == old(Handlers())[url := D.Handler(old(|requests|), [operation])]
    {
      var request := |requests|;
      requests := requests + [D.Request(url, D.Suspended, D.Unanswered, false)];
      var responseHandler := new ResponseHandler(request, operation);
      responseHandlers := responseHandlers[url := responseHandler];
      receipt := Some(D.Receipt(request, operation.receiptID));
      receipts := receipts + [receipt];
    }

    method Start(request: nat)
      requires Valid() && request < |requests|
      modifies this`requests, this`activeRequestCount
      ensures Valid() && Now() == D.Start(old(Now()), request)
    {
      requests := requests[request := requests[request].(task := D.Running, started := true)];
      activeRequestCount := activeRequestCount + 1;
    }

    method Enqueue(request: nat)
      requires Valid() && request < |requests| && request !in queuedRequests
      modifies this`queuedRequests
      ensures Valid() && Now() == D.Enqueue(old(Now()), request)
    {
      if lifo {
        queuedRequests := [request] + queuedRequests;
      } else {
        queuedRequests := queuedRequests + [request];
      }
    }

    /** cancelRequest(with:) */
    method CancelRequest(request: nat, receiptID: string)
      requires Valid() && request < |requests|
      modifies this, responseHandlers.Values
      ensures Valid() && Now() == D.Cancel(old(Now()), request, receiptID)
    {
      hide D.CancelOperation;
      var url := requests[request].url;
      if url !in responseHandlers {
        return;
      }
      CancelOperation(url, receiptID);
      ghost var between := Now();
      if responseHandlers[url].operations == [] && requests[request].task.Suspended? {
        requests := requests[request := requests[request].(task := D.Canceling)];
        responseHandlers := responseHandlers - {url};
        assert Handlers() == between.handlers - {url};
      }
    }

    method CancelOperation(url: string, receiptID: string)
      requires Valid() && url in responseHandlers
      modifies this`completed, responseHandlers.Values
      ensures Valid() && Now() == D.CancelOperation(old(Now()), url, receiptID)
    {
      var responseHandler := responseHandlers[url];
      var index := FirstIndex(responseHandler.operations, receiptID);
      if index < |responseHandler.operations| {
        var operation := responseHandler.operations[index];
        var rest := responseHandler.operations[..index] + responseHandler.operations[index + 1..];
        responseHandler.operations := rest;
        completed := completed + [D.Completion(operation, D.RequestCancelled)];
        assert Handlers() == old(Handlers())[url := D.Handler(responseHandler.request, rest)];
      }
    }

    // ----- the response closure of a request -----

    /** safelyFetchResponseHandler, and the comparison of the handler identifiers */
    method FetchResponseHandler(request: nat)
      requires Valid() && request < |requests| && requests[request].phase.Fetching?
      modifies this`requests
      ensures Valid() && Now() == D.Fetch(old(Now()), request)
    {
      var q := requests[request];
      var own := q.url in responseHandlers && responseHandlers[q.url].request == request;
      requests := requests[request := q.(phase := if own then D.Removing(q.phase.answer) else D.Decrementing)];
    }

    /** safelyRemoveResponseHandler, and the answers to the operations of that handler */
    method RemoveResponseHandler(request: nat)
      requires Valid() && request < |requests| && requests[request].phase.Removing?
      modifies this
      ensures Valid() && Now() == D.Remove(old(Now()), request)
    {
      hide D.Answers, D.Additions;
      var q := requests[request];
      var responseHandler := SafelyRemoveResponseHandler(q.url);
      if responseHandler != null {
        var answers, additions := AnswerOperations(request, q.url, responseHandler.operations, q.phase.answer);
        completed := completed + answers;
        added := added + additions;
      }
      requests := requests[request := q.(phase := D.Decrementing)];
      assert Handlers() == if responseHandler == null then old(Handlers()) else old(Handlers()) - {q.url};
    }

    method SafelyRemoveResponseHandler(identifier: string) returns (responseHandler: ResponseHandler?)
      requires Valid()
      modifies this`responseHandlers
      ensures Valid() && Handlers() == old(Handlers()) - {identifier}
      ensures responseHandler != null <==> identifier in old(responseHandlers)
      ensures responseHandler == null ==> Handlers() == old(Handlers())
      ensures responseHandler != null ==> responseHandler.operations == old(Handlers())[identifier].operations
    {
      responseHandler := if identifier in responseHandlers then responseHandlers[identifier] else null;
      responseHandlers := responseHandlers - {identifier};
    }

    method SafelyDecrementActiveRequestCount(request: nat)
      requires Valid() && request < |requests|
      modifies this`requests, this`activeRequestCount
      ensures Valid() && Now() == D.Decrement(old(Now()), request)
    {
      requests := requests[request := requests[request].(phase := D.StartingNext)];
      if activeRequestCount > 0 {
        activeRequestCount := activeRequestCount - 1;
      }
    }

    method SafelyStartNextRequestIfNecessary(request: nat)
      requires Valid() && request < |requests|
      modifies this`requests, this`activeRequestCount, this`queuedRequests
      ensures Valid() && Now() == D.StartNext(old(Now()), request)
    {
      requests := requests[request := requests[request].(phase := D.Finished)];
      if activeRequestCount >= maximumActiveDownloads {
        return;
      }
      ghost var start := Now();
      assert start == old(Now()).Set(request, requests[request]);
      StartFirstSuspended();
    }

    /** The loop of safelyStartNextRequestIfNecessary. */
    method StartFirstSuspended()
      requires Valid()
      modifies this`requests, this`activeRequestCount, this`queuedRequests
      ensures Valid() && Now() == D.StartFirst(old(Now()))
    {
      ghost var handlers := Handlers();
      while queuedRequests != []
        invariant Valid() && Handlers() == handlers
        invariant D.StartFirst(Now()) == D.StartFirst(old(Now()))
        decreases |queuedRequests|
      {
        var next := queuedRequests[0];
        queuedRequests := queuedRequests[1..];
        assert Handlers() == handlers;
        if requests[next].task.Suspended? {
          Start(next);
          return;
        }
      }
    }
  }

  method FirstIndex(ops: seq<D.Operation>, receiptID: string) returns (index: nat)
    ensures index == D.IndexOf(ops, receiptID)
  {
    index := 0;
    while index < |ops| && ops[index].receiptID != receiptID
      invariant index <= |ops| && forall j | 0 <= j < index :: ops[j].receiptID != receiptID
    {
      index := index + 1;
    }
  }

  /** The loops over the operations in the response closure. Filters are remembered by their identifiers;
    * every image goes to the image cache as well as to its completion. */
  method AnswerOperations(request: nat, url: string, operations: seq<D.Operation>, answer: D.Answer)
    returns (answers: seq<D.Completion>, additions: seq<D.Addition>)
    ensures answers == D.Answers(request, operations, answer)
    ensures additions == D.Additions(url, answers)
  {
    ghost var all := D.Answers(request, operations, answer);
    hide Remembered, D.FilteredFor, D.Answers;
    answers, additions := [], [];
    if answer.Failure? {
      for k := 0 to |operations|
        invariant answers == all[..k] && additions == D.Additions(url, answers)
      {
        AnswerAt(request, operations, answer, k);
        AdditionsAppend(url, answers, D.Completion(operations[k], D.Error(request)));
        answers := answers + [D.Completion(operations[k], D.Error(request))];
      }
      return;
    }
    var image := D.Original(answer.data);
    var filteredImages: map<string, D.Image> := map[];
    NothingRemembered(operations, image);
    hide D.Additions;
    for k := 0 to |operations|
      invariant answers == all[..k] && additions == D.Additions(url, answers)
      invariant Remembered(operations, k, image, filteredImages)
    {
      AnswerAt(request, operations, answer, k);
      var filteredImage;
      filteredImage, filteredImages := FilterImage(operations, k, image, filteredImages);
      var filter := operations[k].filter;
      var identifier := if filter.Some? then Some(filter.value.identifier) else None;
      additions := additions + [D.Addition(url, identifier, filteredImage)];
      AdditionsAppend(url, answers, D.Completion(operations[k], D.Image(request, filteredImage)));
      answers := answers + [D.Completion(operations[k], D.Image(request, filteredImage))];
    }
  }

  lemma {:induction false} AdditionsAppend(url: string, cs: seq<D.Completion>, c: D.Completion)
    ensures D.Additions(url, cs + [c]) == D.Additions(url, cs) + D.AdditionFor(url, c)
  {
    hide D.AdditionFor;
    if cs == [] {
      assert cs + [c] == [c] && [c][1..] == [];
    } else {
      AdditionsAppend(url, cs[1..], c);
      assert (cs + [c])[1..] == cs[1..] + [c];
    }
  }

  lemma AnswerAt(request: nat, operations: seq<D.Operation>, answer: D.Answer, k: nat)
    requires k < |operations|
    ensures D.Answers(request, operations, answer)[k]
         == D.Completion(operations[k], if answer.Failure? then D.Error(request)
                                        else D.Image(request, D.FilteredFor(operations, k, D.Original(answer.data))))
  {
  }

  /** A filter is run only for the first operation that has it. */
  method FilterImage(operations: seq<D.Operation>, k: nat, image: D.Image, filteredImages: map<string, D.Image>)
    returns (filteredImage: D.Image, filteredImages': map<string, D.Image>)
    requires k < |operations| && Remembered(operations, k, image, filteredImages)
    ensures filteredImage == D.FilteredFor(operations, k, image)
    ensures Remembered(operations, k + 1, image, filteredImages')
  {
    hide Remembered;
    filteredImage, filteredImages' := image, filteredImages;
    if operations[k].filter.Some? {
      var filter := operations[k].filter.value;
      if filter.identifier in filteredImages {
        filteredImage := filteredImages[filter.identifier];
        KeepRemembering(operations, k, image, filteredImages);
      } else {
        filteredImage := D.Filtered(image, filter);
        RememberNew(operations, k, image, filteredImages);
        filteredImages' := filteredImages[filter.identifier := filteredImage];
      }
    } else {
      KeepRemembering(operations, k, image, filteredImages);
    }
  }

  lemma NothingRemembered(ops: seq<D.Operation>, image: D.Image)
    ensures Remembered(ops, 0, image, map[])
  {
  }

  /** The dictionary has an image for every identifier among the first k operations. */
  ghost predicate Remembered(ops: seq<D.Operation>, k: nat, image: D.Image, filteredImages: map<string, D.Image>)
    requires k <= |ops|
  {
    && (forall id: string, j | 0 <= j < k && D.HasFilter(ops[j], id) :: id in filteredImages)
    && forall id | id in filteredImages :: RememberedFor(ops, k, image, id, filteredImages[id])
  }

  lemma KeepRemembering(ops: seq<D.Operation>, k: nat, image: D.Image, filteredImages: map<string, D.Image>)
    requires k < |ops| && Remembered(ops, k, image, filteredImages)
    requires ops[k].filter.Some? ==> ops[k].filter.value.identifier in filteredImages
    ensures Remembered(ops, k + 1, image, filteredImages)
    ensures ops[k].filter.Some? ==> filteredImages[ops[k].filter.value.identifier] == D.FilteredFor(ops, k, image)
  {
    if ops[k].filter.Some? {
      var id := ops[k].filter.value.identifier;
      RememberedIsFirst(ops, k, image, id, filteredImages[id]);
    }
  }

  lemma RememberNew(ops: seq<D.Operation>, k: nat, image: D.Image, filteredImages: map<string, D.Image>)
    requires k < |ops| && Remembered(ops, k, image, filteredImages) && ops[k].filter.Some?
    requires ops[k].filter.value.identifier !in filteredImages
    ensures D.FilteredFor(ops, k, image) == D.Filtered(image, ops[k].filter.value)
    ensures var filter := ops[k].filter.value;
            Remembered(ops, k + 1, image, filteredImages[filter.identifier := D.Filtered(image, filter)])
  {
    var id := ops[k].filter.value.identifier;
    assert FirstAt(ops, k, id);
    NewFilterIsFirst(ops, k, id);
  }

  /** The image made with the first filter of this identifier among the first k operations. */
  ghost predicate RememberedFor(ops: seq<D.Operation>, k: nat, image: D.Image, id: string, filtered: D.Image)
    requires k <= |ops|
  {
    exists j | 0 <= j < k ::
      FirstAt(ops, j, id) && ops[j].filter.Some? && filtered == D.Filtered(image, ops[j].filter.value)
  }

  predicate FirstAt(ops: seq<D.Operation>, j: nat, id: string)
    requires j < |ops|
  {
    D.HasFilter(ops[j], id) && forall i | 0 <= i < j :: !D.HasFilter(ops[i], id)
  }

  lemma RememberedIsFirst(ops: seq<D.Operation>, k: nat, image: D.Image, id: string, filtered: D.Image)
    requires k < |ops| && D.HasFilter(ops[k], id) && RememberedFor(ops, k, image, id, filtered)
    ensures filtered == D.FilteredFor(ops, k, image)
  {
    var j :| 0 <= j < k && FirstAt(ops, j, id) && filtered == D.Filtered(image, ops[j].filter.value);
    var f := D.FirstFilter(ops, k, id);
    var i :| 0 <= i <= k && ops[i].filter == Some(f) && forall h | 0 <= h < i :: !D.HasFilter(ops[h], id);
    assert D.HasFilter(ops[i], id);
    assert i == j;
  }

  lemma NewFilterIsFirst(ops: seq<D.Operation>, k: nat, id: string)
    requires k < |ops| && FirstAt(ops, k, id)
    ensures D.FirstFilter(ops, k, id) == ops[k].filter.value
  {
    var f := D.FirstFilter(ops, k, id);
    var i :| 0 <= i <= k && ops[i].filter == Some(f) && forall h | 0 <= h < i :: !D.HasFilter(ops[h], id);
    assert D.HasFilter(ops[i], id);
    assert i == k;
  }
}
