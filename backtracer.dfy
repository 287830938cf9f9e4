/**
 * The debug tracer: each thread owns a ring buffer of frames (`thread_frames`)
 * that `push_frame` writes round-robin, `show_frames` lists it, and the
 * global `dbg_tracer` hands out one ring per registered thread.  Every
 * instance in the sources uses rings of 128 frames, so N is fixed at 128.
 * The timestamp (`_rdtsc`) is a parameter, and printing becomes the list of
 * (slot read, label printed) pairs.
 */
module Backtracer {
  import opened Machine
  import opened Results
  import opened CStrings

  const N: nat := 128
  /** `char fn[16]`, of which `push_frame` copies at most 15 bytes. */
  const FnLen: nat := 16
  const FnCopyMax: nat := 15
  /** `%12.12s`: at most 12 characters of the name are printed. */
  const FnPrintMax: nat := 12
  /** The tracer's `calloc(1024, ...)`: at most 1024 threads. */
  const MaxThreads: nat := 1024

  datatype Frame = Frame(timestamp: u64, bytes: u64, core: u32, ln: u32, fn: seq<char>)

  /** A frame of the zero-filled ring. */
  function ZeroFrame(): (f: Frame)
    ensures |f.fn| == FnLen && forall i :: 0 <= i < FnLen ==> f.fn[i] == Nul
  {
    Frame(0, 0, 0, 0, seq(FnLen, _ => Nul))
  }

  // ---------------------------------------------------------------------
  // C strings in the 16-byte name field
  // ---------------------------------------------------------------------

  function Min(a: nat, b: nat): nat {
    if a <= b then a else b
  }

  /** What `%12.12s` prints of a name field. */
  function Printed(fn: seq<char>): (p: seq<char>)
    ensures |p| <= FnPrintMax && |p| <= |fn| && p == fn[..|p|]
    ensures forall i :: 0 <= i < |p| ==> p[i] != Nul
  {
    fn[..Min(StrLen(fn), FnPrintMax)]
  }

  /**
   * `memcpy(fn, name, min(strlen(name), 15))`: the first k bytes of the
   * field become the name's, the rest keep what was there; no terminator
   * is written.
   */
  function CopyName(field: seq<char>, name: seq<char>): (r: seq<char>)
    requires |field| == FnLen
    ensures |r| == FnLen
    ensures var k := Min(StrLen(name), FnCopyMax);
            r[..k] == name[..k] && r[k..] == field[k..]
  {
    var k := Min(StrLen(name), FnCopyMax);
    name[..k] + field[k..]
  }

  /**
   * A shorter name over a longer one shows the old name's tail: once a name
   * of at least 12 characters has been copied, a later name s shorter than
   * 12 prints as s followed by the old name's characters |s|..11, never as
   * s alone (e.g. "obj_slab.h" after "object_allocator.h" prints as
   * "obj_slab.hoc").
   */
  lemma StaleNameShows(field: seq<char>, long: seq<char>, short: seq<char>)
    requires |field| == FnLen
    requires FnPrintMax <= |long| && forall i :: 0 <= i < |long| ==> long[i] != Nul
    requires |short| < FnPrintMax && forall i :: 0 <= i < |short| ==> short[i] != Nul
    ensures Printed(CopyName(CopyName(field, long), short)) == short + long[|short|..FnPrintMax]
    ensures Printed(CopyName(CopyName(field, long), short)) != short
  {
    StrLenNoNul(long);
    StrLenNoNul(short);
    var first := CopyName(field, long);
    var second := CopyName(first, short);
    assert first[..FnPrintMax] == long[..FnPrintMax];
    assert second[..FnPrintMax] == short + long[|short|..FnPrintMax];
    StrLenAtLeast(second, FnPrintMax);
  }

  /** The copy with its terminator: the k bytes, then a NUL, then the rest of the field. */
  function CopyNameTerminated(field: seq<char>, name: seq<char>): (r: seq<char>)
    requires |field| == FnLen
    ensures |r| == FnLen
  {
    var k := Min(StrLen(name), FnCopyMax);
    name[..k] + [Nul] + field[k + 1..]
  }

  /** With the terminator, the printed name is the copied name, whatever the field held. */
  lemma TerminatedNameReadsBack(field: seq<char>, name: seq<char>)
    requires |field| == FnLen
    ensures Printed(CopyNameTerminated(field, name)) == name[..Min(StrLen(name), FnPrintMax)]
  {
    var k := Min(StrLen(name), FnCopyMax);
    var r := CopyNameTerminated(field, name);
    assert r[..k] == name[..k];
    assert r[k] == Nul;
    StrLenAt(r, k);
  }

  // ---------------------------------------------------------------------
  // The listing order of show_frames
  // ---------------------------------------------------------------------

  /**
   * The (slot, label) pairs `show_frames` prints: slots 0..idx-1 while the
   * ring has not wrapped, and slot (i + idx) % N with label i - 1 for
   * i = 1..N once it has.
   */
  function ShowOrder(idx: nat): (r: seq<(nat, nat)>)
    ensures |r| == Min(idx, N)
    ensures forall i :: 0 <= i < |r| ==> r[i].0 < N && r[i].1 == i
    ensures idx < N ==> forall i :: 0 <= i < idx ==> r[i] == (i, i)
  {
    if idx < N then seq(idx, i => (i, i))
    else seq(N, i => ((i + 1 + idx) % N, i))
  }

  /** The slots a listing reads. */
  function Slots(r: seq<(nat, nat)>): (slots: set<nat>)
    ensures forall i :: 0 <= i < |r| ==> r[i].0 in slots
    ensures forall s :: s in slots ==> exists i :: 0 <= i < |r| && r[i].0 == s
  {
    set i | 0 <= i < |r| :: r[i].0
  }

  /** After it wraps every slot is listed, and none twice. */
  lemma ShowOrderWrappedIsPermutation(idx: nat)
    requires idx >= N
    ensures forall s :: 0 <= s < N <==> s in Slots(ShowOrder(idx))
    ensures forall i, j :: 0 <= i < j < N ==> ShowOrder(idx)[i].0 != ShowOrder(idx)[j].0
  {
    var r := ShowOrder(idx);
    forall s: nat | 0 <= s < N ensures s in Slots(r) {
      var i := (s + N - 1 - idx % N) % N;
      SlotOfPosition(idx, i, s);
      assert r[i].0 == s;
    }
  }

  lemma SlotOfPosition(idx: nat, i: nat, s: nat)
    requires s < N && i == (s + N - 1 - idx % N) % N
    ensures (i + 1 + idx) % N == s
  {
    var m := idx % N;
    assert idx == (idx / N) * N + m;
    assert i + 1 + m == s || i + 1 + m == s + N;
  }

  /** The push number that last wrote a slot once idx pushes have happened (idx >= N). */
  function LastWrite(slot: nat, idx: nat): (p: nat)
    requires slot < N && idx >= N
    ensures p % N == slot && idx - N <= p < idx
  {
    LastWriteSlot(slot, idx);
    idx - N + (slot + N - idx % N) % N
  }

  lemma LastWriteSlot(slot: nat, idx: nat)
    requires slot < N && idx >= N
    ensures var p := idx - N + (slot + N - idx % N) % N;
            idx - N <= p < idx && p % N == slot
  {
    var m := idx % N;
    var q := idx / N;
    var d := (slot + N - m) % N;
    assert idx == q * N + m && q >= 1;
    assert m + d == slot || m + d == slot + N;
    if m + d == slot {
      assert idx - N + d == (q - 1) * N + slot;
      ModOfMultiple(q - 1, slot);
    } else {
      assert idx - N + d == q * N + slot;
      ModOfMultiple(q, slot);
    }
  }

  lemma ModOfMultiple(k: nat, r: nat)
    requires r < N
    ensures (k * N + r) % N == r
  {
  }

  /**
   * After the ring wraps the listing is not chronological: positions
   * 0..N-2 show pushes idx-N+1 .. idx-1 in order, but the oldest push,
   * idx-N, held in slot idx % N, is listed last.
   */
  lemma ShowOrderOldestLast(idx: nat)
    requires idx >= N
    ensures forall i :: 0 <= i < N - 1 ==> LastWrite(ShowOrder(idx)[i].0, idx) == idx - N + i + 1
    ensures ShowOrder(idx)[N - 1].0 == idx % N
    ensures LastWrite(ShowOrder(idx)[N - 1].0, idx) == idx - N
  {
    var r := ShowOrder(idx);
    forall i | 0 <= i < N - 1 ensures LastWrite(r[i].0, idx) == idx - N + i + 1 {
      PositionWrite(idx, i);
    }
    ModOfMultiple(1, idx % N);
    assert idx == (idx / N) * N + idx % N;
    assert (N + idx) % N == idx % N;
    PositionWrite(idx, N - 1);
  }

  /** Position i of the wrapped listing shows push idx - N + i + 1 (mod N, the oldest for i = N - 1). */
  lemma PositionWrite(idx: nat, i: nat)
    requires idx >= N && i < N
    ensures LastWrite((i + 1 + idx) % N, idx) == if i < N - 1 then idx - N + i + 1 else idx - N
  {
    var p := LastWrite((i + 1 + idx) % N, idx);
    var t := if i < N - 1 then idx - N + i + 1 else idx - N;
    var k := idx - N;
    assert t == k + i + 1 || t == k + i + 1 - N;
    assert (k + i + 1 + N) % N == (k + i + 1) % N;
    assert t % N == (k + i + 1 + N) % N;
    SameResidue(p, t, k);
  }

  /** Two numbers of one window of N consecutive values with the same residue are equal. */
  lemma SameResidue(a: nat, b: nat, lo: nat)
    requires lo <= a < lo + N && lo <= b < lo + N && a % N == b % N
    ensures a == b
  {
    DivWindow(a, lo);
    DivWindow(b, lo);
  }

  lemma DivWindow(a: nat, lo: nat)
    requires lo <= a < lo + N
    ensures a == (a / N) * N + a % N
    ensures a / N == lo / N || a / N == lo / N + 1
  {
  }

  // ---------------------------------------------------------------------
  // One thread's ring
  // ---------------------------------------------------------------------

  class ThreadFrames {
    var idx: u64
    var tid: u64
    const frames: array<Frame>

    ghost predicate Valid()
      reads this, frames
    {
      frames.Length == N && forall i :: 0 <= i < N ==> |frames[i].fn| == FnLen
    }

    /** A ring from the tracer's zero-filled `calloc`. */
    constructor ()
      ensures Valid() && fresh(frames)
      ensures idx == 0 && tid == 0
      ensures forall i :: 0 <= i < N ==> frames[i] == ZeroFrame()
    {
      idx := 0;
      tid := 0;
      frames := new Frame[N](_ => ZeroFrame());
    }

    /**
     * `push_frame`: only slot idx % N is written (core, line, bytes, at most
     * 15 bytes of the name, the timestamp), and idx advances by one.  The
     * name is stored with its terminator, the evidently intended copy (see
     * StaleNameShows for the copy as written).
     */
    method PushFrame(ln: u32, core: u32, bytes: u64, name: seq<char>, timestamp: u64)
      requires Valid()
      modifies this, frames
      ensures Valid()
      ensures idx == Wrap64(old(idx) + 1) && tid == old(tid)
      ensures var f := old(idx) % N;
              frames[f] == Frame(timestamp, bytes, core, ln, CopyNameTerminated(old(frames[f].fn), name))
      ensures forall i :: 0 <= i < N && i != old(idx) % N ==> frames[i] == old(frames[i])
    {
      var fIdx := Wrap32(idx % N);
      idx := Wrap64(idx + 1);
      var fr := frames[fIdx];
      frames[fIdx] := Frame(timestamp, bytes, core, ln, CopyNameTerminated(fr.fn, name));
    }

    /** `show_frames`: the slots read, with the label printed for each. */
    method ShowFrames() returns (listing: seq<(nat, nat)>)
      requires Valid()
      ensures listing == ShowOrder(idx)
    {
      listing := [];
      var x := idx;
      if x < N {
        var i := 0;
        while i < x
          invariant i <= x && listing == seq(i, j => (j, j))
        {
          listing := listing + [(i, i)];
          i := i + 1;
        }
      } else {
        var i := 1;
        while i <= N
          invariant 1 <= i <= N + 1
          invariant listing == seq(i - 1, j => ((j + 1 + x) % N, j))
        {
          listing := listing + [((i + x) % N, i - 1)];
          i := i + 1;
        }
      }
    }
  }

  // ---------------------------------------------------------------------
  // The tracer
  // ---------------------------------------------------------------------

  datatype TraceError = OutOfDebugMemory

  class DbgTracer {
    var tidx: u64
    var hardLock: u64

    constructor ()
      ensures tidx == 0 && hardLock == 0
    {
      tidx := 0;
      hardLock := 0;
    }

    /** `init`: reset the thread counter and the lock. */
    method Init()
      modifies this
      ensures tidx == 0 && hardLock == 0
    {
      tidx := 0;
      hardLock := 0;
    }

    /** `register_thread`: take the next ring; the counter advances even when that dies. */
    method RegisterThread() returns (r: Result<nat, TraceError>)
      modifies this
      ensures tidx == Wrap64(old(tidx) + 1) && hardLock == old(hardLock)
      ensures old(tidx) < MaxThreads ==> r == Ok(old(tidx))
      ensures old(tidx) >= MaxThreads ==> r == Err(OutOfDebugMemory)
    {
      var start := tidx;
      tidx := Wrap64(tidx + 1);
      if start >= MaxThreads {
        return Err(OutOfDebugMemory);
      }
      return Ok(start);
    }
  }

  /**
   * k registrations on a fresh tracer: consecutive rings 0, 1, ... and the
   * process dies exactly when a 1025th thread registers.
   */
  method RegisterThreads(t: DbgTracer, k: nat) returns (rings: seq<nat>, died: bool)
    requires t.tidx == 0
    modifies t
    ensures died <==> k > MaxThreads
    ensures rings == seq(Min(k, MaxThreads), i => i)
  {
    rings := [];
    died := false;
    while |rings| < k
      invariant |rings| <= k && |rings| <= MaxThreads
      invariant t.tidx == |rings| && rings == seq(|rings|, i => i)
      invariant !died
      decreases k - |rings|
    {
      var r := t.RegisterThread();
      if r.Err? {
        died := true;
        return;
      }
      rings := rings + [r.value];
    }
  }
}
