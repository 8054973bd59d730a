/** Output streams (pb_ostream_t) over memory buffers, and sizing streams that only count. */
module Output {
  import opened Varints

  /** What an output stream and its memory look like at one moment. */
  datatype Snapshot = Snapshot(written: nat, state: nat, memory: seq<byte>)

  class OStream {
    /** False for PB_OSTREAM_SIZING, whose callback is null. */
    const writing: bool
    const buf: array<byte>
    const maxSize: nat
    var state: nat
    var bytesWritten: nat

    ghost predicate Valid()
      reads this
    {
      && bytesWritten < TWO_64 && maxSize < TWO_64
      && (writing ==> bytesWritten <= maxSize && state + (maxSize - bytesWritten) <= buf.Length)
    }

    ghost function Now(): Snapshot
      reads this, buf
    {
      Snapshot(bytesWritten, state, buf[..])
    }

    /** pb_ostream_from_buffer, from position state of buf on. */
    constructor ToBuffer(buf: array<byte>, state: nat, maxSize: nat)
      requires state + maxSize <= buf.Length && maxSize < TWO_64
      ensures Valid() && writing && this.buf == buf && this.maxSize == maxSize
      ensures this.state == state && bytesWritten == 0
    {
      this.writing := true;
      this.buf := buf;
      this.maxSize := maxSize;
      this.state := state;
      this.bytesWritten := 0;
    }

    /** PB_OSTREAM_SIZING */
    constructor Sizing()
      ensures Valid() && !writing && bytesWritten == 0 && fresh(buf) && buf.Length == 0
    {
      writing := false;
      buf := new byte[0];
      maxSize := 0;
      state := 0;
      bytesWritten := 0;
    }

    /** pb_write; a sizing stream takes no bytes, only their number. */
    method Write(src: seq<byte>, count: nat) returns (ok: bool)
      requires Valid() && count < TWO_64 && (writing ==> |src| == count)
      modifies this, buf
      ensures Valid()
      ensures ok <==> (writing ==> old(bytesWritten) + count <= maxSize)
      ensures ok ==> bytesWritten == (old(bytesWritten) + count) % TWO_64
      ensures !ok ==> Now() == old(Now())
      ensures ok && writing ==> state == old(state) + count
      ensures ok && writing ==>
                buf[..] == old(buf[..])[..old(state)] + src + old(buf[..])[old(state) + count..]
      ensures ok && !writing ==> buf[..] == old(buf[..]) && state == old(state)
      ensures |src| == count ==> Ran(writing, maxSize, old(Now()), Now(), ok, true, src)
    {
      hide Ran;
      ghost var start := Now();
      if count > 0 && writing {
        if (bytesWritten + count) % TWO_64 < bytesWritten || bytesWritten + count > maxSize {
          if |src| == count {
            RanFull(maxSize, start, src);
          }
          return false;
        }
        BufWrite(src);
      }
      bytesWritten := (bytesWritten + count) % TWO_64;
      ok := true;
      if count == 0 && writing {
        assert buf[..] == buf[..][..state] + src + buf[..][state..];
      }
      if |src| == count {
        RanWrite(writing, maxSize, start, Now(), src);
      }
    }

    /** buf_write */
    method BufWrite(src: seq<byte>)
      requires state + |src| <= buf.Length
      modifies this`state, buf
      ensures state == old(state) + |src|
      ensures buf[..] == old(buf[..])[..old(state)] + src + old(buf[..])[old(state) + |src|..]
    {
      var dest := state;
      state := dest + |src|;
      var i := 0;
      while i < |src|
        invariant 0 <= i <= |src| && state == dest + |src|
        invariant buf[..] == old(buf[..])[..dest] + src[..i] + old(buf[..])[dest + i..]
      {
        buf[dest + i] := src[i];
        i := i + 1;
      }
    }
  }

  // ----- what a run of writes does -----

  /** A method was to write bs, and could do so only if enc. From s to t it succeeded exactly if there was
    * room, and then wrote just that; in any case it stayed inside its limits. Nothing is said of streams
    * whose byte counter would wrap around. */
  ghost predicate Ran(writing: bool, max: nat, s: Snapshot, t: Snapshot, ok: bool, enc: bool, bs: seq<byte>) {
    && |t.memory| == |s.memory|
    && (!writing ==> t.memory == s.memory)
    && (writing ==> s.written <= max && s.state + (max - s.written) <= |s.memory| && SameOutside(s, t, max))
    && (!enc ==> !ok)
    && (enc && s.written + |bs| < TWO_64 ==>
          && (ok <==> (writing ==> s.written + |bs| <= max))
          && (ok ==> t.written == s.written + |bs|)
          && (ok && writing ==>
                && t.state == s.state + |bs|
                && t.memory == s.memory[..s.state] + bs + s.memory[s.state + |bs|..]))
  }

  /** Nothing before the position or behind the limit has changed. */
  ghost predicate SameOutside(s: Snapshot, t: Snapshot, max: nat)
    requires s.written <= max && s.state + (max - s.written) <= |s.memory| == |t.memory|
  {
    && t.memory[..s.state] == s.memory[..s.state]
    && t.memory[s.state + (max - s.written)..] == s.memory[s.state + (max - s.written)..]
    && t.written <= max && t.state + (max - t.written) <= s.state + (max - s.written) && s.state <= t.state
  }

  lemma RanFull(max: nat, s: Snapshot, src: seq<byte>)
    requires s.written <= max < s.written + |src| && s.state + (max - s.written) <= |s.memory|
    ensures Ran(true, max, s, s, false, true, src)
  {
  }

  lemma RanWrite(writing: bool, max: nat, s: Snapshot, t: Snapshot, src: seq<byte>)
    requires t.written == (s.written + |src|) % TWO_64
    requires writing ==>
               && s.written + |src| <= max < TWO_64 && s.state + (max - s.written) <= |s.memory|
               && t.state == s.state + |src| && t.memory == s.memory[..s.state] + src + s.memory[s.state + |src|..]
    requires !writing ==> t.memory == s.memory && t.state == s.state
    ensures Ran(writing, max, s, t, true, true, src)
  {
    if s.written + |src| < TWO_64 {
      assert t.written == s.written + |src|;
    }
  }

  lemma RanNothing(writing: bool, max: nat, s: Snapshot)
    requires writing ==> s.written <= max && s.state + (max - s.written) <= |s.memory|
    ensures Ran(writing, max, s, s, true, true, [])
    ensures Ran(writing, max, s, s, false, false, [])
  {
    if writing {
      assert s.memory == s.memory[..s.state] + [] + s.memory[s.state..];
    }
  }

  /** Writing a and then b is writing a + b. */
  lemma RanBoth(writing: bool, max: nat, s: Snapshot, t: Snapshot, u: Snapshot, ok: bool, encA: bool, encB: bool,
                a: seq<byte>, b: seq<byte>)
    requires Ran(writing, max, s, t, true, encA, a) && Ran(writing, max, t, u, ok, encB, b)
    ensures Ran(writing, max, s, u, ok, encA && encB, a + b)
  {
    if writing {
      OutsideOfBoth(s, t, u, max);
      if encA && encB && s.written + |a + b| < TWO_64 && ok {
        JoinWrites(s.memory, t.memory, u.memory, s.state, a, b);
      }
    }
  }

  lemma OutsideOfBoth(s: Snapshot, t: Snapshot, u: Snapshot, max: nat)
    requires s.written <= max && s.state + (max - s.written) <= |s.memory| == |t.memory| == |u.memory|
    requires SameOutside(s, t, max)
    requires t.written <= max && t.state + (max - t.written) <= |t.memory| && SameOutside(t, u, max)
    ensures SameOutside(s, u, max)
  {
    var e, g := s.state + (max - s.written), t.state + (max - t.written);
    assert u.memory[..s.state] == u.memory[..t.state][..s.state];
    assert t.memory[..s.state] == t.memory[..t.state][..s.state];
    assert u.memory[e..] == u.memory[g..][e - g..];
    assert t.memory[e..] == t.memory[g..][e - g..];
  }

  lemma JoinWrites(m: seq<byte>, n: seq<byte>, o: seq<byte>, at: nat, a: seq<byte>, b: seq<byte>)
    requires at + |a| + |b| <= |m|
    requires n == m[..at] + a + m[at + |a|..]
    requires o == n[..at + |a|] + b + n[at + |a| + |b|..]
    ensures o == m[..at] + (a + b) + m[at + |a + b|..]
  {
    assert n[..at + |a|] == m[..at] + a;
    assert n[at + |a| + |b|..] == m[at + |a| + |b|..];
  }

  /** A failure while writing a is a failure to write a + b. */
  lemma RanShort(writing: bool, max: nat, s: Snapshot, t: Snapshot, encA: bool, encB: bool, a: seq<byte>, b: seq<byte>)
    requires Ran(writing, max, s, t, false, encA, a)
    ensures Ran(writing, max, s, t, false, encA && encB, a + b)
  {
  }

  /** What a successful run has written. */
  lemma RanWritten(writing: bool, max: nat, s: Snapshot, t: Snapshot, enc: bool, bs: seq<byte>)
    requires Ran(writing, max, s, t, true, enc, bs) && s.written + |bs| < TWO_64
    ensures enc && t.written == s.written + |bs|
  {
  }

  lemma RanFails(writing: bool, max: nat, s: Snapshot, bs: seq<byte>)
    requires writing ==> s.written <= max && s.state + (max - s.written) <= |s.memory|
    ensures Ran(writing, max, s, s, false, false, bs)
  {
  }
}
