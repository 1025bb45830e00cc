/** The log buffer of RustPkg2/src/library/ring_log.rs: a fixed array of
    bytes with a read index and a write index, both advanced modulo the
    capacity. Logging writes a message byte by byte with no check for a
    full buffer, then flushing drains the bytes from the read index up to
    the write index to the serial port. */
module RingLog {

  newtype byte = x: int | 0 <= x < 256

  /** The capacity the logger instantiates the buffer with. */
  const LoggerCapacity := 1024

  /** What `flush` writes to the serial port before the drained bytes. */
  const FlushBanner := "Flushing: "

  /** Euclidean remainder is determined by any quotient/remainder split. */
  lemma {:induction false} MulAtLeast(k: nat, n: nat)
    requires k >= 1
    ensures k * n >= n
    decreases k
  {
    if k > 1 {
      MulAtLeast(k - 1, n);
      assert k * n == (k - 1) * n + n;
    }
  }

  lemma ModUnique(x: int, q: int, r: int, n: int)
    requires 0 <= r < n && x == q * n + r
    ensures x % n == r
  {
    var d := x / n;
    var m := x % n;
    assert x == d * n + m && 0 <= m < n;
    assert (q - d) * n == m - r;
    if q - d >= 1 {
      MulAtLeast(q - d, n);
    } else if d - q >= 1 {
      MulAtLeast(d - q, n);
    }
  }

  /** Advancing a reduced index by one is advancing the count by one. */
  lemma ModSucc(a: nat, n: nat)
    requires 0 < n
    ensures ((a % n) + 1) % n == (a + 1) % n
  {
    var q, m := a / n, a % n;
    assert a == q * n + m && 0 <= m < n;
    if m + 1 < n {
      ModUnique(m + 1, 0, m + 1, n);
      ModUnique(a + 1, q, m + 1, n);
    } else {
      assert (q + 1) * n == q * n + n;
      ModUnique(m + 1, 1, 0, n);
      ModUnique(a + 1, q + 1, 0, n);
    }
  }

  /** The slot after slot `i` in a ring of `n` slots. */
  function Next(i: nat, n: nat): (j: nat)
    requires i < n
    ensures j < n
  {
    if i + 1 == n then 0 else i + 1
  }

  /** The next slot is the source's `(i + 1) % n`. */
  lemma NextIsMod(i: nat, n: nat)
    requires i < n
    ensures Next(i, n) == (i + 1) % n
  {
    if i + 1 == n {
      ModUnique(i + 1, 1, 0, n);
    } else {
      ModUnique(i + 1, 0, i + 1, n);
    }
  }

  /** The slot `i` steps after slot `r`, for fewer than `n` steps. */
  function Slot(r: nat, i: nat, n: nat): (s: nat)
    requires r < n && i < n
    ensures s < n
  {
    if r + i < n then r + i else r + i - n
  }

  /** How many steps forward around the ring lead from slot `r` to slot
      `w`. */
  function Dist(r: nat, w: nat, n: nat): (d: nat)
    requires r < n && w < n
    ensures d < n
    ensures r == w <==> d == 0
  {
    if r <= w then w - r else n - r + w
  }

  /** Two different step counts below `n` from the same slot reach
      different slots. */
  lemma SlotsDistinct(r: nat, i: nat, j: nat, n: nat)
    requires r < n && i < n && j < n && i != j
    ensures Slot(r, i, n) != Slot(r, j, n)
  {
  }

  /** The bytes the drain loop emits from `slots`, starting at slot `r` and
      stopping at slot `w`: first in, first out, wrapping at the end. */
  function PendingOf(slots: seq<byte>, r: nat, w: nat): (p: seq<byte>)
    requires r < |slots| && w < |slots|
    ensures |p| == Dist(r, w, |slots|)
  {
    if r <= w then slots[r..w] else slots[r..] + slots[..w]
  }

  /** Pending byte `i` is the one in the slot `i` steps after the read
      index. */
  lemma PendingSlots(slots: seq<byte>, r: nat, w: nat)
    requires r < |slots| && w < |slots|
    ensures forall i :: 0 <= i < Dist(r, w, |slots|) ==> PendingOf(slots, r, w)[i] == slots[Slot(r, i, |slots|)]
  {
    var n := |slots|;
    var p := PendingOf(slots, r, w);
    forall i | 0 <= i < Dist(r, w, n) ensures p[i] == slots[Slot(r, i, n)] {
      if r > w && i >= n - r {
        assert p[i] == slots[..w][i - (n - r)];
      }
    }
  }

  /** Reading one byte: the oldest pending byte comes out first. */
  lemma ReadPops(slots: seq<byte>, r: nat, w: nat)
    requires r < |slots| && w < |slots| && r != w
    ensures PendingOf(slots, r, w) == [slots[r]] + PendingOf(slots, Next(r, |slots|), w)
  {
    var n := |slots|;
    var p := PendingOf(slots, r, w);
    var p' := PendingOf(slots, Next(r, n), w);
    PendingSlots(slots, r, w);
    PendingSlots(slots, Next(r, n), w);
    assert |p'| == |p| - 1;
    forall i | 0 <= i < |p'| ensures p'[i] == p[i + 1] {
      assert Slot(Next(r, n), i, n) == Slot(r, i + 1, n);
    }
  }

  /** One turn of the drain loop: the byte it emits is the next pending
      one, and fewer bytes remain. */
  lemma DrainStep(slots: seq<byte>, start: seq<byte>, emitted: seq<byte>, r: nat, w: nat)
    requires r < |slots| && w < |slots| && r != w
    requires emitted + PendingOf(slots, r, w) == start
    ensures (emitted + [slots[r]]) + PendingOf(slots, Next(r, |slots|), w) == start
    ensures Dist(Next(r, |slots|), w, |slots|) < Dist(r, w, |slots|)
  {
    ReadPops(slots, r, w);
    assert (emitted + [slots[r]]) + PendingOf(slots, Next(r, |slots|), w)
        == emitted + ([slots[r]] + PendingOf(slots, Next(r, |slots|), w));
  }

  /** Writing one byte while there is room: it joins the pending bytes at
      the end. */
  lemma WriteAppends(slots: seq<byte>, r: nat, w: nat, data: byte)
    requires r < |slots| && w < |slots|
    requires Dist(r, w, |slots|) < |slots| - 1
    ensures PendingOf(slots[w := data], r, Next(w, |slots|)) == PendingOf(slots, r, w) + [data]
  {
    var n := |slots|;
    var p := PendingOf(slots, r, w);
    var p' := PendingOf(slots[w := data], r, Next(w, n));
    PendingSlots(slots, r, w);
    PendingSlots(slots[w := data], r, Next(w, n));
    assert |p'| == |p| + 1;
    forall i | 0 <= i < |p| ensures p'[i] == p[i] {
      SlotsDistinct(r, i, |p|, n);
    }
  }

  /** Writing one byte into the last free slot: the write index catches up
      with the read index and every pending byte is lost. */
  lemma WriteOverruns(slots: seq<byte>, r: nat, w: nat, data: byte)
    requires r < |slots| && w < |slots|
    requires Dist(r, w, |slots|) == |slots| - 1
    ensures Next(w, |slots|) == r
    ensures PendingOf(slots[w := data], r, Next(w, |slots|)) == []
  {
  }

  /** Adding the modulus does not change the remainder. */
  lemma ModShift(j: nat, n: nat)
    requires 0 < n
    ensures (n + j) % n == j % n
  {
    var q := j / n;
    var r := j % n;
    assert j == q * n + r;
    assert (q + 1) * n == q * n + n;
    ModUnique(n + j, q + 1, r, n);
  }

  /** The slot `k` steps after slot `w`, one step at a time. */
  function Advance(w: nat, k: nat, n: nat): (j: nat)
    requires w < n
    ensures j < n
    decreases k
  {
    if k == 0 then w else Advance(Next(w, n), k - 1, n)
  }

  /** Stepping `k` times is adding `k` modulo `n`, as the source's index
      arithmetic does. */
  lemma {:induction false} AdvanceIsMod(w: nat, k: nat, n: nat)
    requires w < n
    ensures Advance(w, k, n) == (w + k) % n
    decreases k
  {
    if k > 0 {
      AdvanceIsMod(Next(w, n), k - 1, n);
      NextIsMod(w, n);
      if w + 1 == n {
        ModShift(k - 1, n);
      }
    }
  }

  lemma {:induction false} AdvanceAdd(w: nat, a: nat, b: nat, n: nat)
    requires w < n
    ensures Advance(w, a + b, n) == Advance(Advance(w, a, n), b, n)
    decreases a
  {
    if a > 0 {
      AdvanceAdd(Next(w, n), a - 1, b, n);
    }
  }

  /** A full lap comes back to the starting slot. */
  lemma AdvanceLap(w: nat, n: nat)
    requires w < n
    ensures Advance(w, n, n) == w
  {
    AdvanceIsMod(w, n, n);
    ModUnique(w + n, 1, w, n);
  }

  /** Going round once more first lands on the same slot. */
  lemma AdvancePastLap(w: nat, n: nat, k: nat)
    requires w < n
    ensures Advance(w, n + k, n) == Advance(w, k, n)
  {
    AdvanceLap(w, n);
    AdvanceAdd(w, n, k, n);
  }

  /** The slots after the bytes of `msg` are written one by one from slot
      `w`, each write advancing the index to the next slot. */
  function Overwrite(slots: seq<byte>, w: nat, msg: seq<byte>): (s: seq<byte>)
    requires w < |slots|
    ensures |s| == |slots|
    decreases |msg|
  {
    if msg == [] then slots
    else Overwrite(slots[w := msg[0]], Next(w, |slots|), msg[1..])
  }

  /** Writing a message that fits in the free slots appends it to the
      pending bytes. */
  lemma {:induction false} LogAppends(slots: seq<byte>, r: nat, w: nat, msg: seq<byte>)
    requires r < |slots| && w < |slots|
    requires Dist(r, w, |slots|) + |msg| < |slots|
    ensures PendingOf(Overwrite(slots, w, msg), r, Advance(w, |msg|, |slots|)) == PendingOf(slots, r, w) + msg
    decreases |msg|
  {
    if msg == [] {
      assert PendingOf(slots, r, w) + msg == PendingOf(slots, r, w);
    } else {
      var n := |slots|;
      var first, w', rest := slots[w := msg[0]], Next(w, n), msg[1..];
      assert Dist(r, w', n) == Dist(r, w, n) + 1;
      var written, end := Overwrite(first, w', rest), Advance(w', |rest|, n);
      assert Overwrite(slots, w, msg) == written;
      assert Advance(w, |msg|, n) == end;
      var after := PendingOf(first, r, w');
      assert PendingOf(written, r, end) == after + rest by {
        LogAppends(first, r, w', rest);
      }
      assert after == PendingOf(slots, r, w) + [msg[0]] by {
        WriteAppends(slots, r, w, msg[0]);
      }
      assert msg == [msg[0]] + rest;
      assert after + rest == PendingOf(slots, r, w) + msg;
    }
  }

  /** Writing a message in two parts is writing the whole message. */
  lemma {:induction false} OverwriteConcat(slots: seq<byte>, w: nat, a: seq<byte>, b: seq<byte>)
    requires w < |slots|
    ensures Overwrite(slots, w, a + b) == Overwrite(Overwrite(slots, w, a), Advance(w, |a|, |slots|), b)
    decreases |a|
  {
    if a == [] {
      assert a + b == b;
    } else {
      assert (a + b)[0] == a[0];
      assert (a + b)[1..] == a[1..] + b;
      OverwriteConcat(slots[w := a[0]], Next(w, |slots|), a[1..], b);
    }
  }

  /** There is no full check: from an empty buffer, a message of at least
      the capacity (and less than twice it) laps the read index, and the
      drain loop sees only what was written after the lap. */
  lemma OverrunKeepsTail(slots: seq<byte>, w: nat, msg: seq<byte>)
    requires w < |slots| <= |msg| < 2 * |slots|
    ensures PendingOf(Overwrite(slots, w, msg), w, Advance(w, |msg|, |slots|)) == msg[|slots|..]
  {
    var n := |slots|;
    var lap, tail := msg[..n], msg[n..];
    var end := Advance(w, |msg|, n);
    AdvancePastLap(w, n, |tail|);
    assert end == Advance(w, |tail|, n);
    AdvanceLap(w, n);
    assert msg == lap + tail && |lap| == n;
    OverwriteConcat(slots, w, lap, tail);
    var lapped := Overwrite(slots, w, lap);
    var written := Overwrite(slots, w, msg);
    assert written == Overwrite(lapped, w, tail);
    LogAppends(lapped, w, w, tail);
    assert PendingOf(lapped, w, w) == [];
    assert PendingOf(written, w, end) == [] + tail;
    assert [] + tail == tail;
  }

  /** Writing exactly the capacity into an empty buffer loses the whole
      message: the write index comes back to the read index. */
  lemma FullLapLosesAll(slots: seq<byte>, w: nat, msg: seq<byte>)
    requires w < |slots| == |msg|
    ensures Advance(w, |msg|, |slots|) == w
    ensures PendingOf(Overwrite(slots, w, msg), w, Advance(w, |msg|, |slots|)) == []
  {
    OverrunKeepsTail(slots, w, msg);
  }

  /** The character the serial port receives for a byte. */
  function Chars(s: seq<byte>): (r: seq<char>)
    ensures |r| == |s|
    ensures forall i :: 0 <= i < |s| ==> r[i] as int == s[i] as int
  {
    seq(|s|, i requires 0 <= i < |s| => (s[i] as int) as char)
  }

  /** `RingBuffer<N>`: `N` slots, the next slot to read and the next slot to
      write. Read index equal to write index means nothing is pending. */
  class RingBuffer {
    const N: nat
    const buffer: array<byte>
    var readIndex: nat
    var writeIndex: nat

    predicate Valid()
      reads this
    {
      0 < N && buffer.Length == N && readIndex < N && writeIndex < N
    }

    /** The bytes a flush would emit now. */
    function Pending(): seq<byte>
      requires Valid()
      reads this, buffer
    {
      PendingOf(buffer[..], readIndex, writeIndex)
    }

    /** `RingBuffer::new`: every slot zero, both indices at the start. */
    constructor (n: nat)
      requires 0 < n
      ensures N == n && Valid() && fresh(buffer)
      ensures readIndex == 0 && writeIndex == 0
      ensures buffer[..] == seq(n, _ => 0)
      ensures Pending() == []
    {
      N := n;
      buffer := new byte[n](_ => 0);
      readIndex := 0;
      writeIndex := 0;
    }

    /** `write`: store the byte at the write index and advance it, whatever
        is still pending there. */
    method Write(data: byte)
      requires Valid()
      modifies this, buffer
      ensures Valid()
      ensures buffer[..] == old(buffer[..])[old(writeIndex) := data]
      ensures writeIndex == (old(writeIndex) + 1) % N
      ensures readIndex == old(readIndex)
    {
      buffer[writeIndex] := data;
      writeIndex := (writeIndex + 1) % N;
    }

    /** `read`: take the byte at the read index and advance it. */
    method Read() returns (data: byte)
      requires Valid()
      modifies this
      ensures Valid()
      ensures data == buffer[old(readIndex)]
      ensures readIndex == (old(readIndex) + 1) % N
      ensures writeIndex == old(writeIndex)
    {
      data := buffer[readIndex];
      readIndex := (readIndex + 1) % N;
    }

    /** The loop in `log` that writes a message byte by byte. */
    method WriteAll(msg: seq<byte>)
      requires Valid()
      modifies this, buffer
      ensures Valid()
      ensures buffer[..] == Overwrite(old(buffer[..]), old(writeIndex), msg)
      ensures writeIndex == (old(writeIndex) + |msg|) % N
      ensures readIndex == old(readIndex)
    {
      var i := 0;
      while i < |msg|
        invariant 0 <= i <= |msg| && Valid()
        invariant readIndex == old(readIndex)
        invariant writeIndex == (old(writeIndex) + i) % N
        invariant Overwrite(buffer[..], writeIndex, msg[i..]) == Overwrite(old(buffer[..]), old(writeIndex), msg)
      {
        assert msg[i..][0] == msg[i] && msg[i..][1..] == msg[i + 1..];
        NextIsMod(writeIndex, N);
        Write(msg[i]);
        ModSucc(old(writeIndex) + i, N);
        i := i + 1;
      }
      assert msg[i..] == [];
    }

    /** `flush`: the banner, then the drain loop, which reads until the
        read index reaches the write index. */
    method Flush() returns (out: seq<char>)
      requires Valid()
      modifies this
      ensures Valid()
      ensures out == FlushBanner + Chars(old(Pending()))
      ensures readIndex == writeIndex == old(writeIndex)
    {
      ghost var slots := buffer[..];
      ghost var start := PendingOf(slots, readIndex, writeIndex);
      var emitted: seq<byte> := [];
      while readIndex != writeIndex
        invariant Valid() && writeIndex == old(writeIndex) && buffer[..] == slots
        invariant emitted + PendingOf(slots, readIndex, writeIndex) == start
        decreases Dist(readIndex, writeIndex, N)
      {
        DrainStep(slots, start, emitted, readIndex, writeIndex);
        ghost var r := readIndex;
        var data := Read();
        NextIsMod(r, N);
        emitted := emitted + [data];
      }
      out := FlushBanner + Chars(emitted);
    }

    /** `log`: write the formatted message, then flush. A message that
        fits in the free slots comes out after everything already pending;
        the buffer is empty afterwards. */
    method Log(msg: seq<byte>) returns (out: seq<char>)
      requires Valid()
      modifies this, buffer
      ensures Valid()
      ensures out == FlushBanner + Chars(PendingOf(Overwrite(old(buffer[..]), old(writeIndex), msg),
                                                   old(readIndex), (old(writeIndex) + |msg|) % N))
      ensures Dist(old(readIndex), old(writeIndex), N) + |msg| < N ==> out == FlushBanner + Chars(old(Pending()) + msg)
      ensures Pending() == []
    {
      ghost var slots := buffer[..];
      WriteAll(msg);
      AdvanceIsMod(old(writeIndex), |msg|, N);
      if Dist(old(readIndex), old(writeIndex), N) + |msg| < N {
        LogAppends(slots, old(readIndex), old(writeIndex), msg);
      }
      out := Flush();
    }
  }

  /** `RingBufferDebugLib::new`: the logger's buffer, empty. */
  method NewLogger() returns (ring: RingBuffer)
    ensures fresh(ring) && fresh(ring.buffer) && ring.Valid()
    ensures ring.N == LoggerCapacity && ring.Pending() == []
  {
    ring := new RingBuffer(LoggerCapacity);
  }
}
