/** AutoPurgingImageCache as it runs: each method is one block on its queue, and is proved against its step
  * in module Caching. */
module ImageCache {
  import C = Caching

  class CachedImage {
    const image: nat
    const identifier: string
    const totalBytes: nat
    var lastAccessDate: int

    constructor (image: nat, identifier: string, totalBytes: nat, now: int)
      ensures this.image == image && this.identifier == identifier && this.totalBytes == totalBytes
            && lastAccessDate == now
    {
      this.image := image;
      this.identifier := identifier;
      this.totalBytes := totalBytes;
      this.lastAccessDate := now;
    }

    method AccessImage(now: int) returns (r: nat)
      modifies this
      ensures r == image && lastAccessDate == now
    {
      lastAccessDate := now;
      r := image;
    }

    ghost function Entry(): C.Entry
      reads this
    {
      C.Entry(image, totalBytes, lastAccessDate)
    }
  }

  class AutoPurgingImageCache {
    const memoryCapacity: nat
    const preferredMemoryUsageAfterPurge: nat
    var cachedImages: map<string, CachedImage>
    var currentMemoryUsage: nat
    ghost var purges: nat

    ghost function Images(): map<string, C.Entry>
      reads this`cachedImages, cachedImages.Values
    {
      map id | id in cachedImages :: cachedImages[id].Entry()
    }

    ghost function Now(): C.State
      reads this, cachedImages.Values
    {
      C.State(memoryCapacity, preferredMemoryUsageAfterPurge, Images(), currentMemoryUsage, purges)
    }

    /** Every image is stored under its own identifier, and the memory is accounted for. */
    ghost predicate Valid()
      reads this, cachedImages.Values
    {
      Keyed() && C.Accounted(Now())
    }

    ghost predicate Keyed()
      reads this`cachedImages
    {
      forall id | id in cachedImages :: cachedImages[id].identifier == id
    }

    constructor (memoryCapacity: nat, preferredMemoryUsageAfterPurge: nat)
      requires memoryCapacity >= preferredMemoryUsageAfterPurge
      ensures Valid() && Now() == C.Initial(memoryCapacity, preferredMemoryUsageAfterPurge)
    {
      this.memoryCapacity := memoryCapacity;
      this.preferredMemoryUsageAfterPurge := preferredMemoryUsageAfterPurge;
      cachedImages := map[];
      currentMemoryUsage := 0;
      purges := 0;
    }

    /** The first block of add(_:withIdentifier:); its purge block is still to come. */
    method Add(image: nat, identifier: string, totalBytes: nat, now: int)
      requires Valid()
      modifies this
      ensures Valid() && Now() == C.Add(old(Now()), identifier, image, totalBytes, now)
    {
      C.StepAccounted(Now(), C.EAdd(identifier, image, totalBytes, now));
      hide C.Accounted, Keyed, Images;
      var cachedImage := new CachedImage(image, identifier, totalBytes, now);
      Replace(cachedImage);
      purges := purges + 1;
    }

    method Replace(cachedImage: CachedImage)
      requires Valid()
      modifies this`cachedImages, this`currentMemoryUsage
      ensures Keyed() && Images() == old(Images())[cachedImage.identifier := cachedImage.Entry()]
      ensures currentMemoryUsage == old(C.Add(Now(), cachedImage.identifier, 0, cachedImage.totalBytes, 0).usage)
    {
      Lookup(cachedImage.identifier);
      if cachedImage.identifier in cachedImages {
        UsageCovers(cachedImage.identifier);
        hide C.Accounted, Images;
        currentMemoryUsage := currentMemoryUsage - cachedImages[cachedImage.identifier].totalBytes;
      }
      Store(cachedImage);
      currentMemoryUsage := currentMemoryUsage + cachedImage.totalBytes;
    }

    lemma Lookup(identifier: string)
      ensures identifier in Images() <==> identifier in cachedImages
      ensures identifier in cachedImages ==> Images()[identifier] == cachedImages[identifier].Entry()
    {
    }

    method Drop(identifier: string)
      requires Keyed()
      modifies this`cachedImages
      ensures Keyed() && Images() == old(Images()) - {identifier}
      ensures cachedImages == old(cachedImages) - {identifier}
    {
      cachedImages := cachedImages - {identifier};
    }

    method Store(cachedImage: CachedImage)
      requires Keyed()
      modifies this`cachedImages
      ensures Keyed() && Images() == old(Images())[cachedImage.identifier := cachedImage.Entry()]
    {
      cachedImages := cachedImages[cachedImage.identifier := cachedImage];
    }

    /** The counter cannot underflow. */
    lemma UsageCovers(identifier: string)
      requires Valid() && identifier in cachedImages
      ensures currentMemoryUsage >= cachedImages[identifier].totalBytes
    {
      C.SumRemove(Images(), identifier);
    }

    /** The second block of add(_:withIdentifier:) */
    method Purge() returns (ghost order: seq<string>)
      requires Valid() && purges > 0
      modifies this
      ensures C.IsOrder(old(Images()), order)
      ensures Valid() && Now() == C.Purge(old(Now()), order)
    {
      hide C.Accounted, C.IsOrder, C.Purge, C.Elements, C.Distinct, C.Without, AfterPurge, Purged, Stored, Keyed;
      ghost var before := Now();
      var sorted := SortedByDate();
      order := Identifiers(sorted);
      PurgeByCases(before, order);
      if currentMemoryUsage > memoryCapacity {
        var bytesToPurge := currentMemoryUsage - preferredMemoryUsageAfterPurge;
        var bytesPurged := PurgeImages(sorted, order, bytesToPurge);
        currentMemoryUsage := currentMemoryUsage - bytesPurged;
      }
      purges := purges - 1;
    }

    lemma PurgeByCases(s: C.State, order: seq<string>)
      requires C.Accounted(s) && C.IsOrder(s.images, order) && s.purges > 0
      ensures C.Accounted(C.Purge(s, order)) && forall id | id in order :: id in s.images
      ensures s.usage <= s.capacity ==> C.Purge(s, order) == s.(purges := s.purges - 1)
      ensures s.usage > s.capacity ==>
                && s.usage >= Purged(s.images, order, s.usage - s.preferred)
                && C.Purge(s, order) == s.(purges := s.purges - 1,
                                           images := AfterPurge(s.images, order, s.usage - s.preferred),
                                           usage := s.usage - Purged(s.images, order, s.usage - s.preferred))
    {
      C.OrderHas(s.images, order);
      C.StepAccounted(s, C.EPurge(order));
    }

    /** The values of the dictionary, sorted by date. */
    method SortedByDate() returns (sorted: seq<CachedImage>)
      requires Keyed()
      ensures C.IsOrder(Images(), Identifiers(sorted)) && Stored(sorted)
    {
      sorted := [];
      var left := cachedImages.Keys;
      while left != {}
        invariant left <= cachedImages.Keys && Sorting(sorted, left)
        decreases |left|
      {
        hide Sorting;
        var oldest := Oldest(left);
        SortingStep(sorted, left, oldest);
        sorted := sorted + [cachedImages[oldest]];
        left := left - {oldest};
      }
      SortingDone(sorted);
    }

    ghost predicate Stored(images: seq<CachedImage>)
      reads this`cachedImages
    {
      forall i | 0 <= i < |images| :: images[i].identifier in cachedImages
            && cachedImages[images[i].identifier] == images[i]
    }

    /** The images outside left have been sorted, and are no younger than those in it. */
    ghost predicate Sorting(sorted: seq<CachedImage>, left: set<string>)
      requires left <= cachedImages.Keys
      reads this, cachedImages.Values, sorted
    {
      && Stored(sorted)
      && C.Distinct(Identifiers(sorted)) && C.Elements(Identifiers(sorted)) == cachedImages.Keys - left
      && (forall i, j | 0 <= i < j < |sorted| :: sorted[i].lastAccessDate <= sorted[j].lastAccessDate)
      && forall i, id | 0 <= i < |sorted| && id in left :: sorted[i].lastAccessDate <= cachedImages[id].lastAccessDate
    }

    lemma SortingStep(sorted: seq<CachedImage>, left: set<string>, oldest: string)
      requires left <= cachedImages.Keys && Sorting(sorted, left) && oldest in left
      requires cachedImages[oldest].identifier == oldest
      requires forall id | id in left :: cachedImages[oldest].lastAccessDate <= cachedImages[id].lastAccessDate
      ensures Sorting(sorted + [cachedImages[oldest]], left - {oldest})
    {
      var ids := Identifiers(sorted);
      assert Identifiers(sorted + [cachedImages[oldest]]) == ids + [oldest];
      ElementsAppend(ids, oldest);
      forall i | 0 <= i < |ids|
        ensures ids[i] != oldest
      {
        assert ids[i] in C.Elements(ids);
      }
      hide C.Elements;
    }

    lemma SortingDone(sorted: seq<CachedImage>)
      requires Sorting(sorted, {})
      ensures C.IsOrder(Images(), Identifiers(sorted)) && Stored(sorted)
    {
      var order := Identifiers(sorted);
      assert C.Elements(order) == Images().Keys;
      hide C.Elements, C.Distinct;
      forall i, j | 0 <= i < j < |order|
        ensures order[i] in Images() && order[j] in Images()
        ensures Images()[order[i]].lastAccessDate <= Images()[order[j]].lastAccessDate
      {
        assert sorted[i].lastAccessDate <= sorted[j].lastAccessDate;
      }
    }

    method Oldest(ids: set<string>) returns (oldest: string)
      requires ids != {} && ids <= cachedImages.Keys
      ensures oldest in ids
            && forall id | id in ids :: cachedImages[oldest].lastAccessDate <= cachedImages[id].lastAccessDate
    {
      oldest :| oldest in ids;
      var left := ids - {oldest};
      while left != {}
        invariant oldest in ids && left <= ids
        invariant forall id | id in ids
              && id !in left :: cachedImages[oldest].lastAccessDate <= cachedImages[id].lastAccessDate
        decreases |left|
      {
        var id :| id in left;
        if cachedImages[id].lastAccessDate < cachedImages[oldest].lastAccessDate {
          oldest := id;
        }
        left := left - {id};
      }
    }

    /** The loop of the purge. */
    method PurgeImages(sorted: seq<CachedImage>, ghost order: seq<string>, bytesToPurge: nat) returns (bytesPurged: nat)
      requires order == Identifiers(sorted) && bytesToPurge > 0
      requires Stored(sorted)
      requires forall id | id in order :: id in Images()
      requires Keyed()
      modifies this`cachedImages
      ensures Images() == AfterPurge(old(Images()), order, bytesToPurge)
      ensures bytesPurged == Purged(old(Images()), order, bytesToPurge)
      ensures Keyed()
    {
      ghost var images := Images();
      PurgeNone(images, order);
      SortedEntries(sorted);
      hide C.Elements, C.Bytes, C.Needed, C.Without, Keyed, Images, Stored, Identifiers;
      bytesPurged := 0;
      var i := 0;
      while i < |sorted|
        invariant i <= |sorted| && Keyed()
        invariant Images() == C.Without(images, order, i)
        invariant bytesPurged == C.Bytes(images, order[..i]) && bytesPurged < bytesToPurge
        invariant C.Needed(images, order, bytesToPurge) == i + C.Needed(images, order[i..], bytesToPurge - bytesPurged)
      {
        PurgeOne(images, order, i, bytesToPurge - bytesPurged);
        Drop(sorted[i].identifier);
        bytesPurged := bytesPurged + sorted[i].totalBytes;
        i := i + 1;
        if bytesPurged >= bytesToPurge {
          break;
        }
      }
      assert i == C.Needed(images, order, bytesToPurge);
    }

    lemma SortedEntries(sorted: seq<CachedImage>)
      requires Stored(sorted)
      ensures |Identifiers(sorted)| == |sorted|
      ensures forall i | 0 <= i < |sorted| ::
                && sorted[i].identifier == Identifiers(sorted)[i]
                && sorted[i].identifier in Images() && Images()[sorted[i].identifier].totalBytes == sorted[i].totalBytes
    {
    }

    lemma PurgeNone(images: map<string, C.Entry>, order: seq<string>)
      requires forall id | id in order :: id in images
      ensures C.Without(images, order, 0) == images && C.Bytes(images, order[..0]) == 0 && order[0..] == order
    {
      assert C.Elements(order[..0]) == {};
    }

    lemma PurgeOne(images: map<string, C.Entry>, order: seq<string>, i: nat, left: int)
      requires i < |order| && forall id | id in order :: id in images
      ensures C.Without(images, order, i) - {order[i]} == C.Without(images, order, i + 1)
      ensures C.Bytes(images, order[..i + 1]) == C.Bytes(images, order[..i]) + images[order[i]].totalBytes
      ensures C.Needed(images, order[i..], left)
           == if images[order[i]].totalBytes >= left then 1
              else 1 + C.Needed(images, order[i + 1..], left - images[order[i]].totalBytes)
    {
      ElementsAppend(order[..i], order[i]);
      C.BytesAppend(images, order[..i], order[i]);
      assert order[..i + 1] == order[..i] + [order[i]];
      assert order[i..][1..] == order[i + 1..];
      hide C.Elements, C.Bytes;
    }

    /** removeImage(withIdentifier:) */
    method RemoveImage(identifier: string) returns (removed: bool)
      requires Valid()
      modifies this
      ensures Valid() && Now() == C.Remove(old(Now()), identifier)
      ensures removed <==> identifier in old(cachedImages)
    {
      ghost var before := Now();
      C.StepAccounted(before, C.ERemove(identifier));
      removed := false;
      if identifier in cachedImages {
        UsageCovers(identifier);
        currentMemoryUsage := currentMemoryUsage - cachedImages[identifier].totalBytes;
        cachedImages := cachedImages - {identifier};
        removed := true;
        assert Images() == before.images - {identifier};
      }
    }

    /** removeImages(matching:), by the cache key of the request */
    method RemoveImages(requestIdentifier: string) returns (removed: bool)
      requires Valid()
      modifies this
      ensures Valid() && Now() == C.RemoveMatching(old(Now()), requestIdentifier)
      ensures removed <==> exists id :: id in old(cachedImages) && requestIdentifier <= id
    {
      ghost var before := Now();
      removed := false;
      var keys := cachedImages.Keys;
      while keys != {}
        invariant Valid() && keys <= before.images.Keys && purges == before.purges
        invariant Images() == Unmatched(before.images, keys, requestIdentifier)
        invariant removed <==> exists id :: id in before.images && id !in keys && requestIdentifier <= id
        decreases |keys|
      {
        hide C.Accounted;
        var key :| key in keys;
        UnmatchedStep(before.images, keys, requestIdentifier, key);
        keys := keys - {key};
        if requestIdentifier <= key {
          var r := RemoveImage(key);
          removed := true;
        }
      }
      UnmatchedDone(before.images, requestIdentifier);
      C.SumPart(before.images, requestIdentifier);
    }

    method RemoveAllImages() returns (removed: bool)
      requires Valid()
      modifies this
      ensures Valid() && Now() == C.RemoveAll(old(Now()))
      ensures removed <==> old(cachedImages) != map[]
    {
      ghost var before := Now();
      C.StepAccounted(before, C.ERemoveAll);
      removed := false;
      if cachedImages != map[] {
        cachedImages := map[];
        currentMemoryUsage := 0;
        removed := true;
      }
    }

    /** image(withIdentifier:) */
    method Image(identifier: string, now: int) returns (found: bool, image: nat)
      requires Valid()
      modifies cachedImages.Values
      ensures Valid() && Now() == C.Access(old(Now()), identifier, now)
      ensures found <==> identifier in cachedImages
      ensures found ==> image == cachedImages[identifier].image && cachedImages[identifier].lastAccessDate == now
      ensures forall id | id in cachedImages && id != identifier ::
                cachedImages[id].lastAccessDate == old(cachedImages[id].lastAccessDate)
    {
      ghost var before := Now();
      C.StepAccounted(before, C.EAccess(identifier, now));
      found, image := false, 0;
      if identifier in cachedImages {
        found := true;
        image := cachedImages[identifier].AccessImage(now);
        assert Images() == before.images[identifier := before.images[identifier].(lastAccessDate := now)];
      }
    }
  }

  function Identifiers(images: seq<CachedImage>): seq<string> {
    seq(|images|, i requires 0 <= i < |images| => images[i].identifier)
  }

  /** What a purge of so many bytes leaves, and the bytes it gains. */
  ghost function AfterPurge(images: map<string, C.Entry>, order: seq<string>, bytesToPurge: int): map<string, C.Entry>
    requires forall id | id in order :: id in images
  {
    C.Without(images, order, C.Needed(images, order, bytesToPurge))
  }

  ghost function Purged(images: map<string, C.Entry>, order: seq<string>, bytesToPurge: int): nat
    requires forall id | id in order :: id in images
  {
    C.Bytes(images, order[..C.Needed(images, order, bytesToPurge)])
  }

  /** What is left when the keys still to be looked at are these. */
  ghost function Unmatched(images: map<string, C.Entry>, keys: set<string>, prefix: string): map<string, C.Entry> {
    map id | id in images && (id in keys || !(prefix <= id)) :: images[id]
  }

  lemma UnmatchedStep(images: map<string, C.Entry>, keys: set<string>, prefix: string, key: string)
    requires key in keys && keys <= images.Keys
    ensures key in Unmatched(images, keys, prefix)
    ensures Unmatched(images, keys - {key}, prefix)
         == if prefix <= key then Unmatched(images, keys, prefix) - {key} else Unmatched(images, keys, prefix)
  {
  }

  lemma UnmatchedDone(images: map<string, C.Entry>, prefix: string)
    ensures Unmatched(images, images.Keys, prefix) == images
    ensures Unmatched(images, {}, prefix) == C.Others(images, prefix)
  {
  }

  lemma ElementsAppend(ids: seq<string>, id: string)
    ensures C.Elements(ids + [id]) == C.Elements(ids) + {id}
  {
    forall x | x in C.Elements(ids) + {id}
      ensures x in C.Elements(ids + [id])
    {
      if x in C.Elements(ids) {
        var i :| 0 <= i < |ids| && ids[i] == x;
        assert (ids + [id])[i] == x;
      } else {
        assert (ids + [id])[|ids|] == x;
      }
    }
  }
}
