/** The terminal's ring buffer: writes never wait for the reader, reads wait until there is enough. */
module Tty {
  import opened Bytes

  const SIZE: nat := 4096

  /** The ring, one byte longer than it is used, and the counts of bytes read and written. */
  datatype State = State(ring: seq<byte>, r: nat, w: nat) {
    ghost predicate Valid() {
      |ring| == SIZE + 1 && r <= w
    }
  }

  datatype Event = Write(data: seq<byte>) | Read(count: nat)

  /**
   * What can happen: a write or a read whose second copy stays on the ring proper, and a read only of bytes already
   * written.
   */
  predicate Enabled(st: State, e: Event) {
    match e {
      case Write(data) => st.w % SIZE + |data| <= 2 * SIZE
      case Read(count) => st.r + count <= st.w && st.r % SIZE + count <= 2 * SIZE
    }
  }

  function Put(ring: seq<byte>, pos: nat, data: seq<byte>): (r: seq<byte>)
    requires |ring| == SIZE + 1 && pos < SIZE && pos + |data| <= 2 * SIZE + 1
    ensures |r| == |ring|
  {
    if pos + |data| > SIZE then
      var sz := SIZE - pos;
      Splice(Splice(ring, pos, data[..sz]), 0, data[sz..])
    else Splice(ring, pos, data)
  }

  function Get(ring: seq<byte>, pos: nat, count: nat): (r: seq<byte>)
    requires |ring| == SIZE + 1 && pos < SIZE && pos + count <= 2 * SIZE + 1
    ensures |r| == count
  {
    if pos + count > SIZE then ring[pos..SIZE] + ring[..count - (SIZE - pos)] else ring[pos..pos + count]
  }

  /** The state after an event, and the bytes it read. */
  function Step(st: State, e: Event): (State, seq<byte>)
    requires |st.ring| == SIZE + 1 && Enabled(st, e)
  {
    match e {
      case Write(data) => (st.(ring := Put(st.ring, st.w % SIZE, data), w := st.w + |data|), [])
      case Read(count) => (st.(r := st.r + count), Get(st.ring, st.r % SIZE, count))
    }
  }

  // ---------- The driver ----------

  class Driver {
    const ringbuffer: array<byte>
    var rwhence: nat
    var wwhence: nat

    ghost predicate Valid()
      reads this, ringbuffer
    {
      Now().Valid()
    }

    ghost function Now(): State
      reads this, ringbuffer
    {
      State(ringbuffer[..], rwhence, wwhence)
    }

    constructor ()
      ensures Valid() && fresh(ringbuffer) && rwhence == wwhence == 0
    {
      ringbuffer := new byte[SIZE + 1](_ => 0);
      rwhence, wwhence := 0, 0;
    }

    /** tty_write */
    method Write(data: seq<byte>)
      requires Valid() && Enabled(Now(), Event.Write(data))
      modifies this`wwhence, ringbuffer
      ensures Valid() && Now() == Step(old(Now()), Event.Write(data)).0
      ensures wwhence == old(wwhence) + |data|
      ensures forall i :: 0 <= i < |data| <= i + SIZE ==> ringbuffer[(old(wwhence) + i) % SIZE] == data[i]
      ensures forall k :: 0 <= k < old(wwhence) && wwhence <= k + SIZE ==>
                ringbuffer[k % SIZE] == old(ringbuffer[k % SIZE])
    {
      hide Splice;
      ghost var ring, w := ringbuffer[..], wwhence;
      var pos := wwhence % SIZE;
      if pos + |data| > SIZE {
        var sz := SIZE - pos;
        Copy(ringbuffer, pos, data[..sz]);
        Copy(ringbuffer, 0, data[sz..]);
      } else {
        Copy(ringbuffer, pos, data);
      }
      wwhence := wwhence + |data|;
      PutInto(ring, ringbuffer, w, data);
    }

    /** nbdtty_pread, once there is enough to read. */
    method Pread(buf: array<byte>, count: nat)
      requires Valid() && Enabled(Now(), Read(count)) && count <= buf.Length && buf != ringbuffer
      modifies this`rwhence, buf
      ensures Valid() && Now() == Step(old(Now()), Read(count)).0
      ensures buf[..] == Splice(old(buf[..]), 0, Step(old(Now()), Read(count)).1)
      ensures rwhence == old(rwhence) + count && buf[count..] == old(buf[count..])
      ensures forall i :: 0 <= i < count ==> buf[i] == old(ringbuffer[(rwhence + i) % SIZE])
    {
      hide Splice;
      ghost var before := buf[..];
      var pos := rwhence % SIZE;
      if pos + count > SIZE {
        var sz := SIZE - pos;
        Copy(buf, 0, ringbuffer[pos..pos + sz]);
        Copy(buf, sz, ringbuffer[..count - sz]);
        SpliceJoin(before, 0, ringbuffer[pos..pos + sz], ringbuffer[..count - sz]);
      } else {
        Copy(buf, 0, ringbuffer[pos..pos + count]);
      }
      GotFrom(before, buf, ringbuffer[..], rwhence, count);
      rwhence := rwhence + count;
    }
  }

  /** Where the bytes of a write are. */
  lemma PutInto(ring: seq<byte>, now: array<byte>, w: nat, data: seq<byte>)
    requires |ring| == SIZE + 1 && w % SIZE + |data| <= 2 * SIZE && now[..] == Put(ring, w % SIZE, data)
    ensures forall i :: 0 <= i < |data| <= i + SIZE ==> now[(w + i) % SIZE] == data[i]
    ensures forall k :: 0 <= k < w && w + |data| <= k + SIZE ==> now[k % SIZE] == ring[k % SIZE]
  {
    forall i | 0 <= i < |data| <= i + SIZE
      ensures now[(w + i) % SIZE] == data[i]
    {
      NewByte(ring, w, data, w + i);
    }
    forall k | 0 <= k < w && w + |data| <= k + SIZE
      ensures now[k % SIZE] == ring[k % SIZE]
    {
      OldByte(ring, w, data, k);
    }
  }

  /** Where the bytes of a read come from. */
  lemma GotFrom(before: seq<byte>, now: array<byte>, ring: seq<byte>, r: nat, count: nat)
    requires |ring| == SIZE + 1 && r % SIZE + count <= 2 * SIZE && count <= |before|
    requires now[..] == Splice(before, 0, Get(ring, r % SIZE, count))
    ensures now[count..] == before[count..]
    ensures forall i :: 0 <= i < count ==> now[i] == ring[(r + i) % SIZE]
  {
    hide Get;
    forall i | 0 <= i < count
      ensures now[i] == ring[(r + i) % SIZE]
    {
      GetAt(ring, r, count, i);
    }
  }

  // ---------- What the ring holds ----------

  /** The last `SIZE` bytes of the stream are on the ring, each at its index modulo `SIZE`. */
  ghost predicate Recent(ring: seq<byte>, stream: seq<byte>) {
    |ring| == SIZE + 1 && forall k :: 0 <= k < |stream| && |stream| <= k + SIZE ==> ring[k % SIZE] == stream[k]
  }

  lemma ModIs(k: nat, q: nat, r: nat)
    requires k == SIZE * q + r && r < SIZE
    ensures k % SIZE == r
  {
  }

  lemma PutAt(ring: seq<byte>, pos: nat, data: seq<byte>, j: nat)
    requires |ring| == SIZE + 1 && pos < SIZE && pos + |data| <= 2 * SIZE && j < |data| <= j + SIZE
    ensures Put(ring, pos, data)[if pos + j < SIZE then pos + j else pos + j - SIZE] == data[j]
  {
  }

  /** A byte that was just written. */
  lemma NewByte(ring: seq<byte>, w: nat, data: seq<byte>, k: nat)
    requires |ring| == SIZE + 1 && w % SIZE + |data| <= 2 * SIZE
    requires w <= k < w + |data| <= k + SIZE
    ensures Put(ring, w % SIZE, data)[k % SIZE] == data[k - w]
  {
    var pos, q := w % SIZE, w / SIZE;
    PutAt(ring, pos, data, k - w);
    hide Put;
    if pos + (k - w) < SIZE {
      ModIs(k, q, pos + (k - w));
    } else {
      ModIs(k, q + 1, pos + (k - w) - SIZE);
    }
  }

  /** A byte that is still recent after a write was not overwritten. */
  lemma OldByte(ring: seq<byte>, w: nat, data: seq<byte>, k: nat)
    requires |ring| == SIZE + 1 && w % SIZE + |data| <= 2 * SIZE
    requires k < w && w + |data| <= k + SIZE
    ensures Put(ring, w % SIZE, data)[k % SIZE] == ring[k % SIZE]
  {
    var pos, q := w % SIZE, w / SIZE;
    if k >= SIZE * q {
      ModIs(k, q, pos - (w - k));
    } else {
      ModIs(k, q - 1, pos + SIZE - (w - k));
    }
  }

  /** Writes keep the ring recent. */
  lemma PutRecent(ring: seq<byte>, stream: seq<byte>, data: seq<byte>)
    requires Recent(ring, stream) && |stream| % SIZE + |data| <= 2 * SIZE
    ensures Recent(Put(ring, |stream| % SIZE, data), stream + data)
  {
    var w, s := |stream|, stream + data;
    forall k | 0 <= k < |s| && |s| <= k + SIZE
      ensures Put(ring, w % SIZE, data)[k % SIZE] == s[k]
    {
      if k < w {
        OldByte(ring, w, data, k);
      } else {
        NewByte(ring, w, data, k);
      }
    }
  }

  // ---------- What is read ----------

  /** The last index below `w` that shares its place on the ring with `k`. */
  function Latest(k: nat, w: nat): (m: nat)
    requires k < w
    ensures k <= m < w <= m + SIZE && m % SIZE == k % SIZE
    ensures w <= k + SIZE ==> m == k
  {
    var n := (w - 1 - k) / SIZE;
    ModShift(k, n);
    k + SIZE * n
  }

  lemma ModShift(k: nat, n: nat)
    ensures (k + SIZE * n) % SIZE == k % SIZE
  {
    ModIs(k + SIZE * n, k / SIZE + n, k % SIZE);
  }

  lemma GetAt(ring: seq<byte>, r: nat, count: nat, i: nat)
    requires |ring| == SIZE + 1 && r % SIZE + count <= 2 * SIZE && i < count
    ensures Get(ring, r % SIZE, count)[i] == ring[(r + i) % SIZE]
  {
    var pos, q := r % SIZE, r / SIZE;
    if pos + i < SIZE {
      ModIs(r + i, q, pos + i);
    } else {
      ModIs(r + i, q + 1, pos + i - SIZE);
    }
  }

  /** Every byte read is the last one written at its place, however far the writer is ahead. */
  lemma GetsLatest(ring: seq<byte>, stream: seq<byte>, r: nat, count: nat, i: nat)
    requires Recent(ring, stream) && r + count <= |stream| && r % SIZE + count <= 2 * SIZE && i < count
    ensures Get(ring, r % SIZE, count)[i] == stream[Latest(r + i, |stream|)]
  {
    GetAt(ring, r, count, i);
  }

  /** A reader that is at most `SIZE` bytes behind gets the next bytes of the stream. */
  lemma GetsNext(ring: seq<byte>, stream: seq<byte>, r: nat, count: nat)
    requires Recent(ring, stream) && r + count <= |stream| <= r + SIZE
    ensures r % SIZE + count <= 2 * SIZE && Get(ring, r % SIZE, count) == stream[r..r + count]
  {
    forall i | 0 <= i < count
      ensures Get(ring, r % SIZE, count)[i] == stream[r..r + count][i]
    {
      GetsLatest(ring, stream, r, count, i);
    }
  }

  ghost predicate ReadsExactly(w: nat, r: nat, count: nat, ring: seq<byte>, stream: seq<byte>)
    requires r + count <= w && r % SIZE + count <= 2 * SIZE
  {
    |stream| == w && Recent(ring, stream) ==> Get(ring, r % SIZE, count) == stream[r..r + count]
  }

  /** A read is certain to return the next bytes exactly if the reader is at most `SIZE` bytes behind. */
  lemma ReadsExactlyIff(w: nat, r: nat, count: nat)
    requires 0 < count && r + count <= w && r % SIZE + count <= 2 * SIZE
    ensures (forall ring, stream :: ReadsExactly(w, r, count, ring, stream)) <==> w - r <= SIZE
  {
    if w - r <= SIZE {
      forall ring, stream
        ensures ReadsExactly(w, r, count, ring, stream)
      {
        if |stream| == w && Recent(ring, stream) {
          GetsNext(ring, stream, r, count);
        }
      }
    } else {
      var ring: seq<byte> := seq(SIZE + 1, _ => 0);
      var stream: seq<byte> := seq(w, k => if k == r then 1 else 0);
      GetAt(ring, r, count, 0);
      assert stream[r..r + count][0] == 1;
      assert !ReadsExactly(w, r, count, ring, stream);
    }
  }

  ghost predicate KeepsRecent(w: nat, n: nat, ring: seq<byte>, stream: seq<byte>, data: seq<byte>)
    requires w % SIZE + n <= 2 * SIZE + 1
  {
    |stream| == w && |data| == n && Recent(ring, stream) ==> Recent(Put(ring, w % SIZE, data), stream + data)
  }

  /**
   * Of the writes that stay inside the array, a write keeps the ring recent exactly if its second copy does not reach
   * the spare byte.
   */
  lemma KeepsRecentIff(w: nat, n: nat)
    requires w % SIZE + n <= 2 * SIZE + 1
    ensures (forall ring, stream, data :: KeepsRecent(w, n, ring, stream, data)) <==> w % SIZE + n <= 2 * SIZE
  {
    if w % SIZE + n <= 2 * SIZE {
      forall ring, stream, data
        ensures KeepsRecent(w, n, ring, stream, data)
      {
        if |stream| == w && |data| == n && Recent(ring, stream) {
          PutRecent(ring, stream, data);
        }
      }
    } else {
      SpareByte(w, n);
    }
  }

  /** The last byte lands on the spare one, and not where it will be read. */
  lemma SpareByte(w: nat, n: nat)
    requires w % SIZE + n == 2 * SIZE + 1
    ensures exists ring, stream, data :: !KeepsRecent(w, n, ring, stream, data)
  {
    var ring: seq<byte> := seq(SIZE + 1, _ => 0);
    var stream: seq<byte> := seq(w, _ => 0);
    var data: seq<byte> := seq(n, k => if k == n - 1 then 1 else 0);
    ModIs(w + n - 1, w / SIZE + 2, 0);
    assert (stream + data)[w + n - 1] == 1;
    assert Put(ring, w % SIZE, data)[0] == 0;
    assert !KeepsRecent(w, n, ring, stream, data);
  }

  // ---------- Runs ----------

  predicate Follows(st: State, es: seq<Event>)
    requires |st.ring| == SIZE + 1
    decreases |es|
  {
    es == [] || (Enabled(st, es[0]) && Follows(Step(st, es[0]).0, es[1..]))
  }

  /** No read comes when the writer is more than `SIZE` bytes ahead. */
  predicate InTime(st: State, es: seq<Event>)
    requires |st.ring| == SIZE + 1 && Follows(st, es)
    decreases |es|
  {
    es == [] || ((es[0].Read? ==> st.w - st.r <= SIZE) && InTime(Step(st, es[0]).0, es[1..]))
  }

  /** The last state, and everything that was read. */
  function Run(st: State, es: seq<Event>): (State, seq<byte>)
    requires |st.ring| == SIZE + 1 && Follows(st, es)
    decreases |es|
  {
    if es == [] then (st, [])
    else
      var (next, out) := Step(st, es[0]);
      var (last, more) := Run(next, es[1..]);
      (last, out + more)
  }

  /** Everything that is written. */
  function Written(es: seq<Event>): seq<byte> {
    if es == [] then [] else (if es[0].Write? then es[0].data else []) + Written(es[1..])
  }

  /** How much is asked for by reads. */
  function Asked(es: seq<Event>): nat {
    if es == [] then 0 else (if es[0].Read? then es[0].count else 0) + Asked(es[1..])
  }

  /** `stream` has been written so far. */
  ghost predicate Holds(st: State, stream: seq<byte>) {
    st.Valid() && st.w == |stream| && Recent(st.ring, stream)
  }

  lemma HoldsState(st: State, stream: seq<byte>)
    requires Holds(st, stream)
    ensures st.r <= st.w == |stream| && st.Valid()
  {
  }

  lemma StepHolds(st: State, e: Event, stream: seq<byte>)
    requires Holds(st, stream) && Enabled(st, e)
    ensures Holds(Step(st, e).0, stream + if e.Write? then e.data else [])
    ensures e.Write? || st.w - st.r <= SIZE ==> Step(st, e).1 == stream[st.r..Step(st, e).0.r]
  {
    match e {
      case Write(data) => PutRecent(st.ring, stream, data);
      case Read(count) =>
        assert stream + [] == stream;
        if st.w - st.r <= SIZE {
          GetsNext(st.ring, stream, st.r, count);
        }
    }
  }

  /**
   * Whatever the interleaving: the ring always holds the most recent bytes, the read count grows by all that was asked
   * for, and as long as every read comes in time, the reads together are exactly the stream up to the read count.
   */
  lemma {:induction false} RunIsFifo(st: State, es: seq<Event>, stream: seq<byte>)
    requires Holds(st, stream) && Follows(st, es)
    ensures Holds(Run(st, es).0, stream + Written(es))
    ensures Run(st, es).0.r == st.r + Asked(es) <= |stream + Written(es)|
    ensures InTime(st, es) ==> Run(st, es).1 == (stream + Written(es))[st.r..Run(st, es).0.r]
    decreases |es|
  {
    hide Step, Holds, Enabled;
    assert st.Valid() && st.r <= st.w == |stream| by { HoldsState(st, stream); }
    if es == [] {
      assert stream + [] == stream;
    } else {
      var e, tail := es[0], es[1..];
      var next, now := Step(st, e).0, stream + if e.Write? then e.data else [];
      StepHolds(st, e, stream);
      StepForward(st, e);
      RunIsFifo(next, tail, now);
      assert now + Written(tail) == stream + Written(es);
      HoldsState(Run(st, es).0, stream + Written(es));
      if InTime(st, es) {
        ReadOn(stream, Written(es), st.r, next.r, Run(st, es).0.r);
      }
    }
  }

  lemma StepForward(st: State, e: Event)
    requires st.Valid() && Enabled(st, e)
    ensures Step(st, e).0.r == st.r + if e.Read? then e.count else 0
    ensures e.Read? ==> Step(st, e).0.r <= st.w
  {
  }

  lemma ReadOn(stream: seq<byte>, more: seq<byte>, r: nat, m: nat, n: nat)
    requires r <= m <= |stream| && m <= n <= |stream + more|
    ensures stream[r..m] + (stream + more)[m..n] == (stream + more)[r..n]
  {
  }
}
