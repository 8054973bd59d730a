/** The bitmap of required fields that the decoder keeps in two 32-bit words. */
module Bitmap {
  import opened Bits
  import opened Varints
  import opened Schema
  import opened Decode

  /** The number whose binary digits, lowest first, are bs. */
  function Word(bs: seq<bool>): nat {
    if bs == [] then 0 else (if bs[0] then 1 else 0) + 2 * Word(bs[1..])
  }

  lemma {:induction false} WordBound(bs: seq<bool>)
    ensures Word(bs) < Pow2(|bs|)
  {
    if bs != [] { WordBound(bs[1..]); }
  }

  /** Oring in 1 << k sets bit k and leaves the others alone. */
  lemma {:induction false} OrSetsBit(bs: seq<bool>, k: nat)
    requires k < |bs|
    ensures Or(Word(bs), Pow2(k)) == Word(bs[k := true])
    decreases k
  {
    var w, b := Word(bs[1..]), if bs[0] then 1 else 0;
    if k == 0 {
      OrZero(w);
      assert bs[0 := true][1..] == bs[1..];
      OrDigit(w, b, 0, 1);
    } else {
      OrSetsBit(bs[1..], k - 1);
      assert bs[k := true][1..] == bs[1..][k - 1 := true];
      OrDigit(w, b, Pow2(k - 1), 0);
    }
  }

  lemma OrDigit(x: nat, b: nat, y: nat, c: nat)
    requires b < 2 && c < 2
    ensures Or(b + 2 * x, c + 2 * y) == 2 * Or(x, y) + (if b == 1 || c == 1 then 1 else 0)
  {
    assert (b + 2 * x) / 2 == x && (c + 2 * y) / 2 == y;
  }

  /** The lowest n bits are set and no other. */
  ghost predicate Low(bs: seq<bool>, n: nat) {
    forall j | 0 <= j < |bs| :: bs[j] <==> j < n
  }

  lemma LowTail(bs: seq<bool>, n: nat)
    requires bs != []
    ensures Low(bs, n) <==> (bs[0] <==> n > 0) && Low(bs[1..], if n == 0 then 0 else n - 1)
  {
    if Low(bs[1..], if n == 0 then 0 else n - 1) {
      forall j | 1 <= j < |bs| ensures bs[j] <==> j < n {
        assert bs[j] == bs[1..][j - 1];
      }
    }
  }

  /** A word is 2^n - 1 exactly when its lowest n bits are set and no other. */
  lemma {:induction false} LowBits(bs: seq<bool>, n: nat)
    requires n <= |bs|
    ensures Word(bs) == Pow2(n) - 1 <==> Low(bs, n)
    decreases |bs|
  {
    if bs != [] {
      LowTail(bs, n);
      LowBits(bs[1..], if n == 0 then 0 else n - 1);
    }
  }

  // ----- which bit belongs to which field -----

  lemma {:induction false} RequiredBeforeGrows(fields: seq<Field>, i: nat, j: nat)
    requires i <= j <= |fields|
    ensures RequiredBefore(fields, i) <= RequiredBefore(fields, j)
    ensures i < j && fields[i].htype.REQUIRED? ==> RequiredBefore(fields, i) < RequiredBefore(fields, j)
    decreases j
  {
    if i < j {
      RequiredBeforeGrows(fields, i, j - 1);
    }
  }

  /** Every index below the number of required fields is that of a required field. */
  lemma {:induction false} RequiredAt(fields: seq<Field>, n: nat, r: nat) returns (i: nat)
    requires n <= |fields| && r < RequiredBefore(fields, n)
    ensures i < n && fields[i].htype.REQUIRED? && RequiredBefore(fields, i) == r
    decreases n
  {
    if r < RequiredBefore(fields, n - 1) {
      i := RequiredAt(fields, n - 1, r);
    } else {
      i := n - 1;
    }
  }

  /** Field i owns bit r. */
  predicate Owns(fields: seq<Field>, i: nat, r: nat) {
    i < |fields| && fields[i].htype.REQUIRED? && RequiredBefore(fields, i) == r
  }

  /** A bit is set exactly for the tracked required fields that have been seen. */
  ghost predicate Tracks(fields: seq<Field>, seen: set<nat>, bits: seq<bool>) {
    && |bits| == MAX_REQUIRED_FIELDS
    && forall r | 0 <= r < |bits| :: bits[r] <==> exists i | i in seen :: Owns(fields, i, r)
  }

  lemma TracksNothing(fields: seq<Field>)
    ensures Tracks(fields, {}, seq(MAX_REQUIRED_FIELDS, _ => false))
  {
  }

  lemma TracksMore(fields: seq<Field>, seen: set<nat>, bits: seq<bool>, i: nat)
    requires Tracks(fields, seen, bits) && i < |fields| && fields[i].htype.REQUIRED?
    ensures var r := RequiredBefore(fields, i);
            Tracks(fields, seen + {i}, if r < MAX_REQUIRED_FIELDS then bits[r := true] else bits)
  {
    var r := RequiredBefore(fields, i);
    var seen', bits' := seen + {i}, if r < MAX_REQUIRED_FIELDS then bits[r := true] else bits;
    assert Owns(fields, i, r);
    forall k | 0 <= k < |bits'|
      ensures bits'[k] <==> exists j | j in seen' :: Owns(fields, j, k)
    {
      if k == r {
        assert i in seen';
      } else {
        assert bits'[k] == bits[k];
        if exists j | j in seen' :: Owns(fields, j, k) {
          var j :| j in seen' && Owns(fields, j, k);
          assert j in seen;
        }
        if bits[k] {
          var j :| j in seen && Owns(fields, j, k);
          assert j in seen';
        }
      }
    }
  }

  /** The required fields have all been seen exactly when the bits below their number, and no others,
    * are set. */
  lemma TracksAll(fields: seq<Field>, seen: set<nat>, bits: seq<bool>)
    requires Tracks(fields, seen, bits)
    ensures var n := RequiredBefore(fields, |fields|);
            && (RequiredSeen(fields, seen) <==>
                  AllSet(bits, 0, if n < MAX_REQUIRED_FIELDS then n else MAX_REQUIRED_FIELDS))
            && forall r | n <= r < |bits| :: !bits[r]
  {
    var n := RequiredBefore(fields, |fields|);
    forall r | n <= r < |bits|
      ensures !bits[r]
    {
      if bits[r] {
        var i :| i in seen && Owns(fields, i, r);
        RequiredBeforeGrows(fields, i, |fields|);
      }
    }
    if RequiredSeen(fields, seen) {
      forall r | 0 <= r < |bits| && r < n
        ensures bits[r]
      {
        var i := RequiredAt(fields, |fields|, r);
        assert i in seen && Owns(fields, i, r);
      }
    }
    if forall r | 0 <= r < |bits| && r < n :: bits[r] {
      forall i | 0 <= i < |fields| && fields[i].htype.REQUIRED? && RequiredBefore(fields, i) < MAX_REQUIRED_FIELDS
        ensures i in seen
      {
        var r := RequiredBefore(fields, i);
        RequiredBeforeGrows(fields, i, |fields|);
        assert bits[r];
        var j :| j in seen && Owns(fields, j, r);
        if i < j { RequiredBeforeGrows(fields, i, j); } else { RequiredBeforeGrows(fields, j, i); }
      }
    }
  }

  // ----- the words -----

  /** The two words hold the 64 bits. */
  ghost predicate Holds(words: seq<uint32>, bits: seq<bool>) {
    |words| == 2 && |bits| == MAX_REQUIRED_FIELDS && words[0] == Word(bits[..32]) && words[1] == Word(bits[32..])
  }

  /** fields_seen[r >> 5] |= 1 << (r & 31) */
  method NoteSeen(words: array<uint32>, r: nat, ghost bits: seq<bool>)
    requires words.Length == 2 && Holds(words[..], bits) && r < MAX_REQUIRED_FIELDS
    modifies words
    ensures Holds(words[..], bits[r := true])
  {
    PowerInWord(r % 32);
    var tmp := Pow2(r % 32);
    OrSetsBit(if r < 32 then bits[..32] else bits[32..], r % 32);
    var bits' := bits[r := true];
    assert bits'[..32] == if r < 32 then bits[..32][r % 32 := true] else bits[..32];
    assert bits'[32..] == if r < 32 then bits[32..] else bits[32..][r % 32 := true];
    WordFits(bits'[..32]);
    WordFits(bits'[32..]);
    words[r / 32] := Or(words[r / 32], tmp);
  }

  lemma PowerInWord(k: nat)
    requires k <= 32
    ensures Pow2(k) <= TWO_32
    ensures k < 32 ==> Pow2(k) < TWO_32
  {
    Powers();
    PowersGrow(k, 32);
  }

  lemma WordFits(bs: seq<bool>)
    requires |bs| == 32
    ensures Word(bs) < TWO_32
  {
    WordBound(bs);
    Powers();
  }

  predicate AllSet(bits: seq<bool>, from: nat, to: nat)
    requires to <= |bits|
  {
    forall r | from <= r < to :: bits[r]
  }

  lemma AllSetSplits(bits: seq<bool>, a: nat, b: nat, c: nat)
    requires a <= b <= c <= |bits|
    ensures AllSet(bits, a, c) <==> AllSet(bits, a, b) && AllSet(bits, b, c)
  {
  }

  /** What the comparisons of the final check mean when no bit from count on is set. */
  lemma WordVerdict(words: seq<uint32>, bits: seq<bool>, count: nat, i: nat, n: nat)
    requires Holds(words, bits) && i < 2
    requires n == 32 || 32 * i + n == count
    requires n <= 32 && 32 * i + n <= count
    requires forall r | count <= r < |bits| :: !bits[r]
    ensures 32 * i + n <= |bits|
    ensures words[i] == Pow2(n) - 1 <==> AllSet(bits, 32 * i, 32 * i + n)
  {
    var half := if i == 0 then bits[..32] else bits[32..];
    HalfOf(bits, half, i, n);
    hide Word, AllSet, Low;
    LowBits(half, n);
  }

  lemma HalfOf(bits: seq<bool>, half: seq<bool>, i: nat, n: nat)
    requires |bits| == MAX_REQUIRED_FIELDS && i < 2 && n <= 32 && half == bits[32 * i..32 * i + 32]
    ensures Low(half, n) <==> AllSet(bits, 32 * i, 32 * i + n) && forall r | 32 * i + n <= r < 32 * i + 32 :: !bits[r]
  {
    var from := 32 * i;
    assert forall k | 0 <= k < 32 :: half[k] == bits[from + k];
    assert forall r | from <= r < from + 32 :: bits[r] == half[r - from];
  }

  /** The final check of pb_decode_noinit, for a number of required fields that has been capped. */
  method CheckSeen(words: array<uint32>, count: nat, ghost bits: seq<bool>) returns (ok: bool)
    requires words.Length == 2 && Holds(words[..], bits) && count <= MAX_REQUIRED_FIELDS
    requires forall r | count <= r < |bits| :: !bits[r]
    ensures count <= |bits|
    ensures ok <==> AllSet(bits, 0, count)
  {
    assert |bits| == MAX_REQUIRED_FIELDS;
    hide Holds, Word, AllSet;
    var allbits: uint32 := 0xFFFF_FFFF;
    assert Pow2(32) - 1 == allbits by { Powers(); }
    hide Pow2, ShiftRight;
    assert AllSet(bits, 0, 0) by { NothingToSet(bits); }
    if count > 0 {
      var i := 0;
      while i < count / 32
        invariant 0 <= i <= count / 32
        invariant AllSet(bits, 0, 32 * i)
      {
        WordVerdict(words[..], bits, count, i, 32);
        AllSetSplits(bits, 0, 32 * i, 32 * i + 32);
        if words[i] != allbits {
          AllSetSplits(bits, 0, 32 * i + 32, count);
          return false;
        }
        i := i + 1;
      }
      if count % 32 != 0 {
        WordVerdict(words[..], bits, count, i, count % 32);
        AllSetSplits(bits, 0, 32 * i, count);
        ShiftOnes(32, 32 - count % 32);
        if words[count / 32] != ShiftRight(allbits, 32 - count % 32) {
          return false;
        }
      }
    }
    ok := true;
  }

  lemma NothingToSet(bits: seq<bool>)
    ensures AllSet(bits, 0, 0)
  {
  }

  /** v >> n */
  function ShiftRight(v: nat, n: nat): nat {
    if n == 0 then v else ShiftRight(v / 2, n - 1)
  }

  lemma {:induction false} ShiftOnes(m: nat, n: nat)
    requires n <= m
    ensures ShiftRight(Pow2(m) - 1, n) == Pow2(m - n) - 1
    decreases n
  {
    if n > 0 {
      assert (2 * Pow2(m - 1) - 1) / 2 == Pow2(m - 1) - 1;
      ShiftOnes(m - 1, n - 1);
    }
  }
}
