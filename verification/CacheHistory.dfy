/** What the image cache holds, told from the calls that were made to it: what is stored, when it was last
  * accessed, and so what a purge may remove. */
module CacheHistory {
  import opened Options
  import opened Caching

  // ----- calls -----

  predicate Touches(e: Event, id: string) {
    (e.EAdd? || e.EAccess?) && e.id == id
  }

  predicate Adds(e: Event, id: string) {
    e.EAdd? && e.id == id
  }

  /** A call that stores the image, or one that removes it, unless a purge does. */
  predicate Changes(e: Event, id: string) {
    match e
    case EAdd(other, _, _, _) => other == id
    case ERemove(other) => other == id
    case ERemoveMatching(prefix) => prefix <= id
    case ERemoveAll => true
    case _ => false
  }

  /** The last of the calls of a kind. */
  function Last(events: seq<Event>, kind: (Event, string) -> bool, id: string): (k: Option<nat>)
    ensures k.Some? ==> k.value < |events| && kind(events[k.value], id)
    ensures k.Some? ==> forall j | k.value < j < |events| :: !kind(events[j], id)
    ensures k.None? ==> forall j | 0 <= j < |events| :: !kind(events[j], id)
  {
    if events == [] then None
    else
      var n := |events| - 1;
      if kind(events[n], id) then Some(n) else Last(events[..n], kind, id)
  }

  /** What those calls say about an image that is stored. */
  ghost predicate Recalled(events: seq<Event>, id: string, e: Entry) {
    var touch, add, change := Last(events, Touches, id), Last(events, Adds, id), Last(events, Changes, id);
    && touch.Some? && e.lastAccessDate == events[touch.value].now
    && add.Some? && e.image == events[add.value].image && e.totalBytes == events[add.value].totalBytes
    && change == add
  }

  ghost predicate Recorded(events: seq<Event>, s: State) {
    forall id | id in s.images :: Recalled(events, id, s.images[id])
  }

  /** The image was added, has not been removed since, and no purge has run since. */
  ghost predicate MustBeStored(events: seq<Event>, id: string) {
    var change := Last(events, Changes, id);
    && change.Some? && events[change.value].EAdd?
    && forall j | change.value < j < |events| :: !events[j].EPurge?
  }

  ghost predicate Kept(events: seq<Event>, s: State) {
    forall id | MustBeStored(events, id) :: id in s.images
  }

  // ----- one more call -----

  lemma LastOfMore(events: seq<Event>, e: Event, kind: (Event, string) -> bool, id: string)
    ensures Last(events + [e], kind, id) == if kind(e, id) then Some(|events|) else Last(events, kind, id)
  {
    assert (events + [e])[..|events|] == events;
  }

  lemma StepRecorded(events: seq<Event>, s: State, e: Event)
    requires Recorded(events, s) && Kept(events, s) && Enabled(s, e)
    ensures Recorded(events + [e], Next(s, e)) && Kept(events + [e], Next(s, e))
  {
    var t := Next(s, e);
    forall id | id in t.images
      ensures Recalled(events + [e], id, t.images[id])
    {
      StepRecalled(events, s, e, id);
    }
    forall id | MustBeStored(events + [e], id)
      ensures id in t.images
    {
      StepKept(events, s, e, id);
    }
  }

  lemma StepRecalled(events: seq<Event>, s: State, e: Event, id: string)
    requires Recorded(events, s) && Enabled(s, e) && id in Next(s, e).images
    ensures Recalled(events + [e], id, Next(s, e).images[id])
  {
    LastOfMore(events, e, Touches, id);
    LastOfMore(events, e, Adds, id);
    LastOfMore(events, e, Changes, id);
    hide Last;
    if !Adds(e, id) {
      assert id in s.images && Recalled(events, id, s.images[id]);
    }
  }

  lemma StepKept(events: seq<Event>, s: State, e: Event, id: string)
    requires Kept(events, s) && Enabled(s, e) && MustBeStored(events + [e], id)
    ensures id in Next(s, e).images
  {
    LastOfMore(events, e, Changes, id);
    hide Last;
    if !Adds(e, id) {
      var k := Last(events, Changes, id).value;
      assert (events + [e])[|events|] == e && !e.EPurge?;
      assert forall j | k < j < |events| :: (events + [e])[j] == events[j];
      assert MustBeStored(events, id);
    }
  }

  // ----- runs -----

  lemma {:induction false} RunRecorded(before: seq<Event>, s: State, events: seq<Event>, t: State)
    requires Recorded(before, s) && Kept(before, s) && Runs(s, events, t)
    ensures Recorded(before + events, t) && Kept(before + events, t)
    decreases |events|
  {
    if events == [] {
      assert before + events == before;
    } else {
      hide Recorded, Kept, Next, Enabled;
      StepRecorded(before, s, events[0]);
      RunRecorded(before + [events[0]], Next(s, events[0]), events[1..], t);
      assert before + [events[0]] + events[1..] == before + events;
    }
  }

  /** In every run, each stored image is the one last added with its identifier, and has not been removed
    * since; its size is the one it was added with, and its date that of the last call that added or read
    * it. An image that has been added is stored until a call removes it or a purge runs. */
  lemma StoredAsAdded(capacity: nat, preferred: nat, events: seq<Event>, t: State, id: string)
    requires Runs(Initial(capacity, preferred), events, t)
    ensures id in t.images ==> Recalled(events, id, t.images[id])
    ensures MustBeStored(events, id) ==> id in t.images
  {
    RunRecorded([], Initial(capacity, preferred), events, t);
    assert [] + events == events;
  }

  /** So a purge removes no image that was added or read later than one it keeps. */
  lemma PurgesLeastRecentlyUsed(capacity: nat, preferred: nat, events: seq<Event>, s: State, order: seq<string>,
                                id: string, other: string)
    requires Runs(Initial(capacity, preferred), events, s) && Enabled(s, EPurge(order))
    requires id in s.images && id !in Next(s, EPurge(order)).images && other in Next(s, EPurge(order)).images
    ensures Last(events, Touches, id).Some? && Last(events, Touches, other).Some?
    ensures events[Last(events, Touches, id).value].now <= events[Last(events, Touches, other).value].now
  {
    StoredAsAdded(capacity, preferred, events, s, id);
    StoredAsAdded(capacity, preferred, events, s, other);
    PurgesLeastRecent(s, order, id, other);
  }

  /** A purge removes nothing unless the images stored exceed the capacity. */
  lemma PurgesOnlyIfFull(s: State, order: seq<string>)
    requires Accounted(s) && Enabled(s, EPurge(order)) && Sum(s.images) <= s.capacity
    ensures Next(s, EPurge(order)).images == s.images
  {
  }
}
