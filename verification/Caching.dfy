/** AutoPurgingImageCache as a state machine. Each step is one barrier block on its queue; an addition and
  * the purge that follows it are two blocks, between which others may run. */
module Caching {
  datatype Entry = Entry(image: nat, totalBytes: nat, lastAccessDate: int)

  /** `purges` counts the additions whose purge block has not run yet. */
  datatype State = State(capacity: nat, preferred: nat, images: map<string, Entry>, usage: int, purges: nat)

  function Initial(capacity: nat, preferred: nat): State {
    State(capacity, preferred, map[], 0, 0)
  }

  // ----- sizes -----

  ghost function Sum(images: map<string, Entry>): nat
    decreases |images|
  {
    if images == map[] then 0
    else
      var id :| id in images;
      images[id].totalBytes + Sum(images - {id})
  }

  lemma {:induction false} SumRemove(images: map<string, Entry>, id: string)
    requires id in images
    ensures Sum(images) == images[id].totalBytes + Sum(images - {id})
    decreases |images|
  {
    var first :| first in images && Sum(images) == images[first].totalBytes + Sum(images - {first});
    if first != id {
      SumRemove(images - {first}, id);
      SumRemove(images - {id}, first);
      assert images - {first} - {id} == images - {id} - {first};
    }
  }

  lemma SumSet(images: map<string, Entry>, id: string, e: Entry)
    ensures Sum(images[id := e]) == Sum(images - {id}) + e.totalBytes
  {
    SumRemove(images[id := e], id);
    assert images[id := e] - {id} == images - {id};
  }

  /** The bytes of the given images. */
  function Bytes(images: map<string, Entry>, ids: seq<string>): nat
    requires forall id | id in ids :: id in images
  {
    if ids == [] then 0 else images[ids[0]].totalBytes + Bytes(images, ids[1..])
  }

  predicate Distinct(ids: seq<string>) {
    forall i, j | 0 <= i < j < |ids| :: ids[i] != ids[j]
  }

  function Elements(ids: seq<string>): set<string> {
    set i | 0 <= i < |ids| :: ids[i]
  }

  lemma {:induction false} SumWithout(images: map<string, Entry>, ids: seq<string>)
    requires Distinct(ids) && forall id | id in ids :: id in images
    ensures Sum(images) == Bytes(images, ids) + Sum(images - Elements(ids))
    decreases |ids|
  {
    if ids == [] {
      assert images - Elements(ids) == images;
    } else {
      var rest := images - {ids[0]};
      SumRemove(images, ids[0]);
      SumWithout(rest, ids[1..]);
      BytesSame(images, rest, ids[1..]);
      assert Elements(ids) == {ids[0]} + Elements(ids[1..]);
      assert rest - Elements(ids[1..]) == images - Elements(ids);
    }
  }

  lemma {:induction false} BytesSame(images: map<string, Entry>, others: map<string, Entry>, ids: seq<string>)
    requires forall id | id in ids :: id in images && id in others && images[id] == others[id]
    ensures Bytes(images, ids) == Bytes(others, ids)
  {
    if ids != [] {
      BytesSame(images, others, ids[1..]);
    }
  }

  lemma {:induction false} BytesAppend(images: map<string, Entry>, ids: seq<string>, id: string)
    requires id in images && forall other | other in ids :: other in images
    ensures Bytes(images, ids + [id]) == Bytes(images, ids) + images[id].totalBytes
  {
    if ids == [] {
      assert ([] + [id])[1..] == [];
    } else {
      BytesAppend(images, ids[1..], id);
      assert (ids + [id])[1..] == ids[1..] + [id];
    }
  }

  // ----- steps -----

  function Add(s: State, id: string, image: nat, totalBytes: nat, now: int): State {
    var previous := if id in s.images then s.images[id].totalBytes else 0;
    s.(images := s.images[id := Entry(image, totalBytes, now)],
       usage := s.usage - previous + totalBytes,
       purges := s.purges + 1)
  }

  /** The order in which a purge removes images: by last access. Which of two images with the same date
    * comes first is not determined. */
  predicate IsOrder(images: map<string, Entry>, order: seq<string>) {
    && Distinct(order) && Elements(order) == images.Keys
    && forall i, j | 0 <= i < j < |order| ::
         order[i] in images && order[j] in images && images[order[i]].lastAccessDate <= images[order[j]].lastAccessDate
  }

  /** How many images the loop removes before it has purged enough. */
  function Needed(images: map<string, Entry>, order: seq<string>, bytesToPurge: int): (n: nat)
    requires forall id | id in order :: id in images
    ensures n <= |order|
  {
    if order == [] then 0
    else if images[order[0]].totalBytes >= bytesToPurge then 1
    else 1 + Needed(images, order[1..], bytesToPurge - images[order[0]].totalBytes)
  }

  /** The images left when the first n in the order are gone. */
  function Without(images: map<string, Entry>, order: seq<string>, n: nat): map<string, Entry>
    requires n <= |order|
  {
    images - Elements(order[..n])
  }

  lemma OrderHas(images: map<string, Entry>, order: seq<string>)
    requires Elements(order) == images.Keys
    ensures forall id | id in order :: id in images
  {
    forall id | id in order
      ensures id in images
    {
      assert id in Elements(order);
    }
  }

  function Purge(s: State, order: seq<string>): State
    requires IsOrder(s.images, order)
  {
    OrderHas(s.images, order);
    var t := s.(purges := if s.purges > 0 then s.purges - 1 else 0);
    if s.usage <= s.capacity then t
    else
      var n := Needed(s.images, order, s.usage - s.preferred);
      t.(images := Without(s.images, order, n), usage := s.usage - Bytes(s.images, order[..n]))
  }

  function Remove(s: State, id: string): State {
    if id in s.images then s.(images := s.images - {id}, usage := s.usage - s.images[id].totalBytes) else s
  }

  function Matching(images: map<string, Entry>, prefix: string): map<string, Entry> {
    map id | id in images && prefix <= id :: images[id]
  }

  function Others(images: map<string, Entry>, prefix: string): map<string, Entry> {
    images - Matching(images, prefix).Keys
  }

  /** removeImages(matching:) */
  ghost function RemoveMatching(s: State, prefix: string): State {
    s.(images := Others(s.images, prefix), usage := s.usage - Sum(Matching(s.images, prefix)))
  }

  function RemoveAll(s: State): State {
    if s.images != map[] then s.(images := map[], usage := 0) else s
  }

  function Access(s: State, id: string, now: int): State {
    if id in s.images then s.(images := s.images[id := s.images[id].(lastAccessDate := now)]) else s
  }

  // ----- runs -----

  datatype Event =
    | EAdd(id: string, image: nat, totalBytes: nat, now: int)
    | EPurge(order: seq<string>)
    | ERemove(id: string)
    | ERemoveMatching(prefix: string)
    | ERemoveAll
    | EAccess(id: string, now: int)

  predicate Enabled(s: State, e: Event) {
    e.EPurge? ==> s.purges > 0 && IsOrder(s.images, e.order)
  }

  ghost function Next(s: State, e: Event): State
    requires Enabled(s, e)
  {
    match e
    case EAdd(id, image, totalBytes, now) => Add(s, id, image, totalBytes, now)
    case EPurge(order) => Purge(s, order)
    case ERemove(id) => Remove(s, id)
    case ERemoveMatching(prefix) => RemoveMatching(s, prefix)
    case ERemoveAll => RemoveAll(s)
    case EAccess(id, now) => Access(s, id, now)
  }

  ghost predicate Runs(s: State, events: seq<Event>, t: State)
    decreases |events|
  {
    if events == [] then s == t else Enabled(s, events[0]) && Runs(Next(s, events[0]), events[1..], t)
  }

  /** The counter is the sum of the sizes, and only additions whose purge is still to come can have taken
    * it beyond the capacity. */
  ghost predicate Accounted(s: State) {
    && s.preferred <= s.capacity
    && s.usage == Sum(s.images)
    && (s.purges == 0 ==> s.usage <= s.capacity)
  }

  // ----- the accounting -----

  lemma PartsWithout(images: map<string, Entry>, prefix: string, id: string)
    requires id in images
    ensures prefix <= id ==>
              && id in Matching(images, prefix) && Matching(images, prefix)[id] == images[id]
              && Matching(images, prefix) - {id} == Matching(images - {id}, prefix)
              && Others(images, prefix) == Others(images - {id}, prefix)
    ensures !(prefix <= id) ==>
              && id in Others(images, prefix) && Others(images, prefix)[id] == images[id]
              && Matching(images, prefix) == Matching(images - {id}, prefix)
              && Others(images, prefix) - {id} == Others(images - {id}, prefix)
  {
  }

  lemma {:induction false} SumPart(images: map<string, Entry>, prefix: string)
    ensures Sum(images) == Sum(Matching(images, prefix)) + Sum(Others(images, prefix))
    decreases |images|
  {
    if images == map[] {
      assert Matching(images, prefix) == map[] && Others(images, prefix) == map[];
    } else {
      var id :| id in images;
      hide Sum, Matching, Others;
      SumRemove(images, id);
      SumPart(images - {id}, prefix);
      PartsWithout(images, prefix, id);
      if prefix <= id {
        SumRemove(Matching(images, prefix), id);
      } else {
        SumRemove(Others(images, prefix), id);
      }
    }
  }

  /** The loop stops as soon as enough bytes are purged, and not before. */
  lemma {:induction false} NeededIsEnough(images: map<string, Entry>, order: seq<string>, bytesToPurge: int)
    requires forall id | id in order :: id in images
    requires 0 < bytesToPurge <= Bytes(images, order)
    ensures var n := Needed(images, order, bytesToPurge); n > 0 && Bytes(images, order[..n]) >= bytesToPurge
    decreases |order|
  {
    var n := Needed(images, order, bytesToPurge);
    assert order[..n][1..] == order[1..][..n - 1];
    if images[order[0]].totalBytes < bytesToPurge {
      NeededIsEnough(images, order[1..], bytesToPurge - images[order[0]].totalBytes);
    }
  }

  lemma {:induction false} NeededIsLeast(images: map<string, Entry>, order: seq<string>, bytesToPurge: int, m: nat)
    requires forall id | id in order :: id in images
    requires bytesToPurge > 0 && m < Needed(images, order, bytesToPurge)
    ensures Bytes(images, order[..m]) < bytesToPurge
    decreases m
  {
    if m > 0 {
      NeededIsLeast(images, order[1..], bytesToPurge - images[order[0]].totalBytes, m - 1);
      assert order[..m][1..] == order[1..][..m - 1];
    }
  }

  lemma {:induction false} BytesOfAll(images: map<string, Entry>, order: seq<string>)
    requires IsOrder(images, order) && forall id | id in order :: id in images
    ensures Bytes(images, order) == Sum(images)
  {
    SumWithout(images, order);
    assert images - Elements(order) == map[];
  }

  /** A purge that has anything to do leaves no more than the preferred usage, and with one image less
    * removed it would have left too much. */
  lemma PurgeIsLeast(s: State, order: seq<string>) returns (n: nat)
    requires Accounted(s) && IsOrder(s.images, order) && s.usage > s.capacity
    ensures 0 < n <= |order| && Purge(s, order).images == Without(s.images, order, n)
    ensures Purge(s, order).usage == Sum(Purge(s, order).images) <= s.preferred
    ensures forall m | 0 <= m < n :: Sum(Without(s.images, order, m)) > s.preferred
  {
    OrderHas(s.images, order);
    n := Needed(s.images, order, s.usage - s.preferred);
    PurgedEnough(s, order);
    PurgeEffect(s, order);
    hide Sum, IsOrder, Elements, Bytes, Needed, Without, Purge, Accounted;
    forall m | 0 <= m < n
      ensures Sum(Without(s.images, order, m)) > s.preferred
    {
      PurgedNoMore(s, order, m);
    }
  }

  lemma PurgeEffect(s: State, order: seq<string>)
    requires IsOrder(s.images, order) && s.usage > s.capacity && forall id | id in order :: id in s.images
    ensures var n := Needed(s.images, order, s.usage - s.preferred);
            && Purge(s, order).images == Without(s.images, order, n)
            && Purge(s, order).usage == s.usage - Bytes(s.images, order[..n])
  {
  }

  /** A purge removes no image that was accessed later than one it keeps. */
  lemma PurgesLeastRecent(s: State, order: seq<string>, id: string, other: string)
    requires IsOrder(s.images, order)
    requires id in s.images && id !in Purge(s, order).images && other in Purge(s, order).images
    ensures s.images[id].lastAccessDate <= s.images[other].lastAccessDate
  {
    OrderHas(s.images, order);
    var n := Needed(s.images, order, s.usage - s.preferred);
    hide Needed, Bytes;
    assert id in Elements(order[..n]);
    var i :| 0 <= i < n && order[..n][i] == id;
    assert other in Elements(order);
    var j :| 0 <= j < |order| && order[j] == other;
    assert order[i] == id && i < j;
  }

  lemma PurgedEnough(s: State, order: seq<string>)
    requires Accounted(s) && IsOrder(s.images, order) && s.usage > s.capacity
    requires forall id | id in order :: id in s.images
    ensures var n := Needed(s.images, order, s.usage - s.preferred);
            n > 0 && s.usage - Bytes(s.images, order[..n]) == Sum(Without(s.images, order, n)) <= s.preferred
  {
    hide Sum, IsOrder, Bytes, Needed, Without;
    BytesOfAll(s.images, order);
    NeededIsEnough(s.images, order, s.usage - s.preferred);
    SumOfPrefix(s.images, order, Needed(s.images, order, s.usage - s.preferred));
  }

  lemma PurgedNoMore(s: State, order: seq<string>, m: nat)
    requires Accounted(s) && IsOrder(s.images, order) && s.usage > s.capacity
    requires forall id | id in order :: id in s.images
    requires m < Needed(s.images, order, s.usage - s.preferred)
    ensures Sum(Without(s.images, order, m)) > s.preferred
  {
    hide Sum, IsOrder, Bytes, Needed, Without;
    NeededIsLeast(s.images, order, s.usage - s.preferred, m);
    SumOfPrefix(s.images, order, m);
  }

  lemma SumOfPrefix(images: map<string, Entry>, order: seq<string>, n: nat)
    requires IsOrder(images, order) && n <= |order| && forall id | id in order :: id in images
    ensures Sum(images) == Bytes(images, order[..n]) + Sum(Without(images, order, n))
  {
    SumWithout(images, order[..n]);
  }

  lemma StepAccounted(s: State, e: Event)
    requires Accounted(s) && Enabled(s, e)
    ensures Accounted(Next(s, e))
  {
    match e
    case EAdd(id, image, totalBytes, now) =>
      SumSet(s.images, id, Entry(image, totalBytes, now));
      if id in s.images {
        SumRemove(s.images, id);
      } else {
        assert s.images - {id} == s.images;
      }
    case EPurge(order) =>
      if s.usage > s.capacity {
        var n := PurgeIsLeast(s, order);
      }
    case ERemove(id) =>
      if id in s.images {
        SumRemove(s.images, id);
      }
    case ERemoveMatching(prefix) =>
      SumPart(s.images, prefix);
    case ERemoveAll =>
    case EAccess(id, now) =>
      if id in s.images {
        SumRemove(s.images, id);
        SumSet(s.images, id, s.images[id].(lastAccessDate := now));
      }
  }

  lemma {:induction false} RunAccounted(s: State, events: seq<Event>, t: State)
    requires Accounted(s) && Runs(s, events, t)
    ensures Accounted(t)
    decreases |events|
  {
    if events != [] {
      StepAccounted(s, events[0]);
      RunAccounted(Next(s, events[0]), events[1..], t);
    }
  }

  /** In every run: the counter is the sum of the sizes stored, so it is never negative, and it is within
    * the capacity whenever no addition still has its purge to come. */
  lemma AlwaysAccounted(capacity: nat, preferred: nat, events: seq<Event>, t: State)
    requires preferred <= capacity && Runs(Initial(capacity, preferred), events, t)
    ensures t.usage == Sum(t.images) >= 0
    ensures t.purges == 0 ==> t.usage <= t.capacity
  {
    RunAccounted(Initial(capacity, preferred), events, t);
  }
}
