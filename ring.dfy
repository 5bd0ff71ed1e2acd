/** The receive ring: NUM_ENTRIES slots of CMD_LEN bytes in double_rx_buf, filled by uart_rx at
    serial_buf_pidx and drained by the main loop at serial_buf_cidx
    (LightFanTemp/serial_comms.c, LightFanTemp/main.cpp). */
module Ring {
  import opened Protocol
  import opened Decoder

  /** Slot `i` of double_rx_buf. */
  function SlotOf(m: seq<Byte>, i: nat): (slot: seq<Byte>)
    requires CMD_LEN * i + CMD_LEN <= |m|
    ensures |slot| == CMD_LEN
  {
    m[CMD_LEN * i .. CMD_LEN * i + CMD_LEN]
  }

  /** Number of committed slots the main loop has not processed yet. */
  function Count(s: RxState): nat
    requires Valid(s)
  {
    (s.pidx - s.cidx + s.entries) % s.entries
  }

  /** The committed, unprocessed slots, oldest first: cidx, cidx + 1, ... up to but not
      including pidx, modulo NUM_ENTRIES. */
  function Pending(s: RxState): (p: seq<seq<Byte>>)
    requires Valid(s)
    ensures |p| == Count(s)
  {
    seq(Count(s), k requires 0 <= k < Count(s) => SlotOf(s.mem, (s.cidx + k) % s.entries))
  }

  lemma ModSmall(x: int, n: int)
    requires 0 <= x < n
    ensures x % n == x
  {
  }

  lemma ModWrap(x: int, n: int)
    requires n <= x < 2 * n
    ensures x % n == x - n
  {
    assert x == 1 * n + (x - n);
  }

  /** `(x + 1) % n` for an index `x` below `n`. */
  lemma NextIndex(x: int, n: int)
    requires 0 <= x < n
    ensures (x + 1) % n == if x + 1 == n then 0 else x + 1
  {
    if x + 1 == n { ModWrap(x + 1, n); } else { ModSmall(x + 1, n); }
  }

  /** `(p - c + n) % n` for two indices below `n`. */
  lemma Distance(p: int, c: int, n: int)
    requires 0 <= p < n && 0 <= c < n
    ensures (p - c + n) % n == if p >= c then p - c else p - c + n
  {
    if p >= c { ModWrap(p - c + n, n); } else { ModSmall(p - c + n, n); }
  }

  /** `(c + k) % n` for an index `c` and an offset `k` below `n`. */
  lemma Offset(c: int, k: int, n: int)
    requires 0 <= c < n && 0 <= k < n
    ensures (c + k) % n == if c + k < n then c + k else c + k - n
  {
    if c + k < n { ModSmall(c + k, n); } else { ModWrap(c + k, n); }
  }

  /** The ring holds at most NUM_ENTRIES - 1 frames: it is empty exactly when pidx == cidx and
      full, in the sense uart_rx tests, exactly when NUM_ENTRIES - 1 frames are pending. */
  lemma Capacity(s: RxState)
    requires Valid(s)
    ensures Count(s) <= s.entries - 1
    ensures Count(s) == 0 <==> s.pidx == s.cidx
    ensures (s.pidx + 1) % s.entries == s.cidx <==> Count(s) == s.entries - 1
  {
    Distance(s.pidx, s.cidx, s.entries);
    NextIndex(s.pidx, s.entries);
  }

  /** Slot `k` of the pending list is never the producer's slot. */
  lemma PendingAvoidsProducer(p: int, c: int, n: int, k: int)
    requires 0 <= p < n && 0 <= c < n && 0 <= k < (p - c + n) % n
    ensures (c + k) % n != p
  {
    Distance(p, c, n);
    Offset(c, k, n);
  }

  /** The slot after the last pending one is the producer's. */
  lemma ProducerFollowsPending(p: int, c: int, n: int)
    requires 0 <= p < n && 0 <= c < n
    ensures (c + (p - c + n) % n) % n == p
  {
    Distance(p, c, n);
    Offset(c, (p - c + n) % n, n);
  }

  /** Committing advances the count by one. */
  lemma CountAfterCommit(p: int, c: int, n: int)
    requires 0 <= p < n && 0 <= c < n && (p + 1) % n != c
    ensures ((p + 1) % n - c + n) % n == (p - c + n) % n + 1
  {
    NextIndex(p, n);
    Distance(p, c, n);
    Distance((p + 1) % n, c, n);
  }

  /** Writes confined to the producer's slot leave every pending frame as it was. */
  lemma PendingUnchanged(s: RxState, t: RxState)
    requires Valid(s) && Valid(t)
    requires t.entries == s.entries && t.pidx == s.pidx && t.cidx == s.cidx
    requires forall j :: 0 <= j < |s.mem| && !(s.base <= j < s.base + CMD_LEN) ==> t.mem[j] == s.mem[j]
    ensures Pending(t) == Pending(s)
  {
    forall k | 0 <= k < Count(s)
      ensures Pending(t)[k] == Pending(s)[k]
    {
      PendingKept(s, t, k);
    }
  }

  /** The same, after uart_rx has committed the producer's slot and moved on to the next one. */
  lemma PendingCommitted(s: RxState, t: RxState)
    requires Valid(s) && Valid(t)
    requires t.entries == s.entries && t.cidx == s.cidx
    requires (s.pidx + 1) % s.entries != s.cidx && t.pidx == (s.pidx + 1) % s.entries
    requires forall j :: 0 <= j < |s.mem| && !(s.base <= j < s.base + CMD_LEN) ==> t.mem[j] == s.mem[j]
    ensures Pending(t) == Pending(s) + [SlotOf(t.mem, s.pidx)]
  {
    CountAfterCommit(s.pidx, s.cidx, s.entries);
    var want := Pending(s) + [SlotOf(t.mem, s.pidx)];
    forall k | 0 <= k < Count(t)
      ensures Pending(t)[k] == want[k]
    {
      PendingCommittedAt(s, t, k);
    }
  }

  /** One position of the pending list after a commit. */
  lemma PendingCommittedAt(s: RxState, t: RxState, k: nat)
    requires Valid(s) && Valid(t)
    requires t.entries == s.entries && t.cidx == s.cidx
    requires (s.pidx + 1) % s.entries != s.cidx && t.pidx == (s.pidx + 1) % s.entries
    requires forall j :: 0 <= j < |s.mem| && !(s.base <= j < s.base + CMD_LEN) ==> t.mem[j] == s.mem[j]
    requires k < Count(t)
    ensures Count(t) == Count(s) + 1
    ensures Pending(t)[k] == (Pending(s) + [SlotOf(t.mem, s.pidx)])[k]
  {
    CountAfterCommit(s.pidx, s.cidx, s.entries);
    if k < Count(s) {
      PendingKept(s, t, k);
    } else {
      ProducerFollowsPending(s.pidx, s.cidx, s.entries);
      assert Pending(t)[k] == SlotOf(t.mem, (s.cidx + k) % s.entries);
    }
  }

  /** A frame that was pending before a write confined to the producer's slot is still there,
      at the same position. */
  lemma PendingKept(s: RxState, t: RxState, k: nat)
    requires Valid(s) && Valid(t)
    requires t.entries == s.entries && t.cidx == s.cidx
    requires forall j :: 0 <= j < |s.mem| && !(s.base <= j < s.base + CMD_LEN) ==> t.mem[j] == s.mem[j]
    requires k < Count(s) && k < Count(t)
    ensures Pending(t)[k] == Pending(s)[k]
  {
    var i := (s.cidx + k) % s.entries;
    PendingAvoidsProducer(s.pidx, s.cidx, s.entries, k);
    SlotsApart(s, t, i);
  }

  lemma SlotsApart(s: RxState, t: RxState, i: nat)
    requires Valid(s) && |t.mem| == |s.mem| && i < s.entries && i != s.pidx
    requires forall j :: 0 <= j < |s.mem| && !(s.base <= j < s.base + CMD_LEN) ==> t.mem[j] == s.mem[j]
    ensures SlotOf(t.mem, i) == SlotOf(s.mem, i)
  {
    assert i < s.pidx || s.pidx < i;
    forall j | CMD_LEN * i <= j < CMD_LEN * i + CMD_LEN
      ensures t.mem[j] == s.mem[j]
    {
    }
  }

  /** One call of uart_rx that stores nothing or stores inside the current slot: a frame that
      ends with a matching checksum while the ring has room is appended to the pending frames,
      and nothing else changes them — a full ring drops the frame. */
  lemma StepPending(s: RxState, ch: Byte)
    requires Valid(s) && (s.pos < CMD_LEN || !Stores(s, ch))
    ensures var r := Step(s, ch);
      if r.ret == 0 && s.mem[s.base] == s.parity && Count(s) < s.entries - 1
      then Pending(r.next) == Pending(s) + [SlotOf(s.mem, s.pidx)] && Count(r.next) == Count(s) + 1
      else Pending(r.next) == Pending(s)
  {
    var r := Step(s, ch);
    StepSpec(s, ch);
    Capacity(s);
    if r.ret == 0 && s.mem[s.base] == s.parity && Count(s) < s.entries - 1 {
      PendingCommitted(s, r.next);
    } else {
      PendingUnchanged(s, r.next);
    }
  }

  /** As written, uart_rx never bounds pos: once a frame body runs past CMD_LEN bytes the
      next byte lands at the start of the following slot. When the ring is full that slot is
      the oldest pending frame, whose checksum byte is overwritten before the main loop
      processes it. */
  lemma OverrunOverwritesOldest(s: RxState, ch: Byte)
    requires Valid(s) && s.state == MsgRcv && s.pos == CMD_LEN
    requires ch != ESCAPE_CHAR && ch != END_CHAR
    requires Count(s) == s.entries - 1 && s.pidx + 1 < s.entries
    ensures Count(s) > 0 && Count(Step(s, ch).next) == Count(s)
    ensures Pending(s)[0] == SlotOf(s.mem, s.cidx)
    ensures Pending(Step(s, ch).next)[0] == SlotOf(s.mem, s.cidx)[0 := ch]
    ensures SlotOf(s.mem, s.cidx)[0] != ch ==> Pending(Step(s, ch).next) != Pending(s)
  {
    var t := Step(s, ch).next;
    StepSpec(s, ch);
    Capacity(s);
    NextIndex(s.pidx, s.entries);
    ModSmall(s.cidx, s.entries);
    assert s.cidx == s.pidx + 1;
    assert t.mem == s.mem[CMD_LEN * s.cidx := ch];
    assert Pending(t)[0] == SlotOf(t.mem, s.cidx);
  }

  /** uart_rx with pos bounded: a byte that would be stored at or past the end of the current
      slot abandons the frame, and the parser waits for the next start marker. */
  function StepBounded(s: RxState, ch: Byte): (r: StepResult)
    requires Valid(s)
    ensures Valid(r.next) && r.next.entries == s.entries && r.next.cidx == s.cidx
  {
    if Stores(s, ch) && s.pos >= CMD_LEN then StepResult(s.(state := MsgStart), 1) else Step(s, ch)
  }

  /** With the bound, every call keeps the pending frames intact whatever the input: a frame
      is appended exactly when one ends with a matching checksum while the ring has room. */
  lemma BoundedPending(s: RxState, ch: Byte)
    requires Valid(s)
    ensures var r := StepBounded(s, ch);
      if r.ret == 0 && s.mem[s.base] == s.parity && Count(s) < s.entries - 1
      then Pending(r.next) == Pending(s) + [SlotOf(s.mem, s.pidx)] && Count(r.next) == Count(s) + 1
      else Pending(r.next) == Pending(s)
  {
    if Stores(s, ch) && s.pos >= CMD_LEN {
      assert StepBounded(s, ch).next.mem == s.mem;
      PendingUnchanged(s, StepBounded(s, ch).next);
    } else {
      StepPending(s, ch);
    }
  }

  /** The main loop's consumer step: with a frame pending it hands slot cidx to
      process_message and advances cidx modulo NUM_ENTRIES. */
  function Consume(s: RxState): (t: RxState)
    requires Valid(s) && s.pidx != s.cidx
    ensures Valid(t)
  {
    s.(cidx := (s.cidx + 1) % s.entries)
  }

  /** The consumer takes the oldest pending frame and leaves the rest in order. */
  lemma ConsumeOldest(s: RxState)
    requires Valid(s) && s.pidx != s.cidx
    ensures Count(s) > 0
    ensures SlotOf(s.mem, s.cidx) == Pending(s)[0]
    ensures Pending(Consume(s)) == Pending(s)[1..]
  {
    Capacity(s);
    var t := Consume(s);
    var p, c, n := s.pidx, s.cidx, s.entries;
    ModSmall(c, n);
    NextIndex(c, n);
    Distance(p, c, n);
    Distance(p, (c + 1) % n, n);
    assert Count(t) == Count(s) - 1;
    forall k | 0 <= k < Count(t)
      ensures Pending(t)[k] == Pending(s)[1..][k]
    {
      ConsumedSlot(c, k, n);
    }
  }

  /** Position k after the consumer moves on is position k + 1 before. */
  lemma ConsumedSlot(c: int, k: int, n: int)
    requires 0 <= c < n && 0 <= k && k + 1 < n
    ensures ((c + 1) % n + k) % n == (c + (k + 1)) % n
  {
    NextIndex(c, n);
    Offset((c + 1) % n, k, n);
    Offset(c, k + 1, n);
  }
}
