/**
  The chain of fixed-size nodes behind `ByteArray` (src/bytearray.cc) over values: what
  `ExtendCapacity`, `Write` and `Read` do to the chain, and why that is an append-only byte
  sequence with a cursor.
 */
module ByteArraySpec {
  import opened Arithmetic
  import opened Common

  /** The bytes written to each node so far (`rest_size_` is `base` minus their number), and the
      index of `write_ptr_`. */
  datatype Chain = Chain(chunks: seq<seq<Byte>>, base: nat, w: nat, capacity: nat)

  /** Nodes before the write node are full and nodes after it are empty; the write node is not
      empty, unless it is the root; and `capacity_` covers the chain. */
  ghost predicate Ok(c: Chain) {
    && c.base > 0 && c.w < |c.chunks|
    && (forall i :: 0 <= i < c.w ==> |c.chunks[i]| == c.base)
    && |c.chunks[c.w]| <= c.base && (c.w > 0 ==> c.chunks[c.w] != [])
    && (forall i :: c.w < i < |c.chunks| ==> c.chunks[i] == [])
    && Times(|c.chunks|, c.base) <= c.capacity
  }

  function Flat(chunks: seq<seq<Byte>>): seq<Byte> {
    if chunks == [] then [] else chunks[0] + Flat(chunks[1..])
  }

  /** The stored sequence. */
  function Contents(c: Chain): seq<Byte> {
    Flat(c.chunks)
  }

  function Room(c: Chain): nat
    requires Ok(c)
  {
    c.base - |c.chunks[c.w]|
  }

  function RoundUp(n: nat, m: nat): nat
    requires m > 0
  {
    (n + m - 1) / m
  }

  function Empties(n: nat): (r: seq<seq<Byte>>)
    ensures |r| == n && forall i :: 0 <= i < n ==> r[i] == []
  {
    seq(n, _ => [])
  }

  /** `ExtendCapacity`: a new tail behind the write node; an old one is unlinked. */
  function Extend(c: Chain, delta: nat): Chain
    requires Ok(c)
  {
    var count := RoundUp(delta, c.base);
    c.(chunks := c.chunks[..c.w + 1] + Empties(count), capacity := c.capacity + Times(count, c.base))
  }

  function AppendAt(c: Chain, bytes: seq<Byte>): Chain
    requires c.w < |c.chunks|
  {
    c.(chunks := c.chunks[c.w := c.chunks[c.w] + bytes])
  }

  /** Inside the loop of `Write` the write node may be empty, when the one before it is full. */
  ghost predicate LoopOk(c: Chain) {
    && c.base > 0 && c.w < |c.chunks|
    && (forall i :: 0 <= i < c.w ==> |c.chunks[i]| == c.base)
    && |c.chunks[c.w]| <= c.base
    && (forall i :: c.w < i < |c.chunks| ==> c.chunks[i] == [])
    && Times(|c.chunks|, c.base) <= c.capacity
  }

  /** The room from the write node to the end of the chain. */
  function LoopSpace(c: Chain): nat
    requires LoopOk(c)
  {
    c.base - |c.chunks[c.w]| + Times(|c.chunks| - 1 - c.w, c.base)
  }

  /** The loop of `Write`. A step through a full node copies nothing, so what decreases is the pair
      of the bytes and the nodes left. */
  function WriteLoop(c: Chain, buf: seq<Byte>): Chain
    requires LoopOk(c) && |buf| <= LoopSpace(c)
    decreases |buf|, |c.chunks| - c.w
  {
    if buf == [] then c else
    var room := c.base - |c.chunks[c.w]|;
    if room >= |buf| then AppendAt(c, buf)
    else
      NextNode(c, buf);
      WriteLoop(AppendAt(c, buf[..room]).(w := c.w + 1), buf[room..])
  }

  /** There is a next node when the bytes do not fit: `write_ptr_` never becomes null. */
  lemma NextNode(c: Chain, buf: seq<Byte>)
    requires LoopOk(c) && c.base - |c.chunks[c.w]| < |buf| <= LoopSpace(c)
    ensures var room := c.base - |c.chunks[c.w]|;
            var c' := AppendAt(c, buf[..room]).(w := c.w + 1);
            LoopOk(c') && |buf[room..]| <= LoopSpace(c')
  {
    hide Times;
    var n := |c.chunks| - 1 - c.w;
    TimesAdd(n, 0, c.base);
    if n > 0 { TimesAdd(n - 1, 1, c.base); }
  }

  function Write(c: Chain, buf: seq<Byte>): Chain
    requires Ok(c)
  {
    if buf == [] then c else
    var c' := if Room(c) < |buf| then Extend(c, |buf|) else c;
    SpaceForAll(c, buf);
    WriteLoop(c', buf)
  }

  lemma RoundUpCovers(n: nat, m: nat)
    requires m > 0
    ensures n <= Times(RoundUp(n, m), m) < n + m
  {
    var q := (n + m - 1) / m;
    assert n + m - 1 == q * m + (n + m - 1) % m;
  }

  lemma SpaceForAll(c: Chain, buf: seq<Byte>)
    requires Ok(c)
    ensures var c' := if Room(c) < |buf| then Extend(c, |buf|) else c;
            LoopOk(c') && |buf| <= LoopSpace(c')
  {
    RoundUpCovers(|buf|, c.base);
    hide Times, RoundUp;
    if Room(c) < |buf| {
      var count := RoundUp(|buf|, c.base);
      TimesAdd(c.w + 1, count, c.base);
      TimesAdd(c.w + 1, |c.chunks| - 1 - c.w, c.base);
    }
  }

  // ----- writing is appending -----

  lemma {:induction false} FlatConcat(a: seq<seq<Byte>>, b: seq<seq<Byte>>)
    ensures Flat(a + b) == Flat(a) + Flat(b)
  {
    if a == [] {
      assert a + b == b && Flat([]) + Flat(b) == Flat(b);
    } else {
      FlatConcat(a[1..], b);
      assert (a + b)[1..] == a[1..] + b && (a + b)[0] == a[0];
      assert (a[0] + Flat(a[1..])) + Flat(b) == a[0] + (Flat(a[1..]) + Flat(b));
    }
  }

  lemma {:induction false} FlatEmpties(a: seq<seq<Byte>>)
    requires forall i :: 0 <= i < |a| ==> a[i] == []
    ensures Flat(a) == []
  {
    if a != [] { FlatEmpties(a[1..]); }
  }

  lemma FlatPrefix(chunks: seq<seq<Byte>>, n: nat)
    requires n <= |chunks| && forall i :: n <= i < |chunks| ==> chunks[i] == []
    ensures Flat(chunks) == Flat(chunks[..n])
  {
    assert chunks == chunks[..n] + chunks[n..];
    FlatConcat(chunks[..n], chunks[n..]);
    FlatEmpties(chunks[n..]);
  }

  lemma FlatLast(chunks: seq<seq<Byte>>)
    requires chunks != []
    ensures Flat(chunks) == Flat(chunks[..|chunks| - 1]) + chunks[|chunks| - 1]
  {
    var n := |chunks| - 1;
    assert chunks == chunks[..n] + [chunks[n]];
    FlatConcat(chunks[..n], [chunks[n]]);
  }

  lemma AppendAtAppends(c: Chain, bytes: seq<Byte>)
    requires LoopOk(c)
    ensures Contents(AppendAt(c, bytes)) == Contents(c) + bytes
  {
    hide Times;
    var c', n := AppendAt(c, bytes), c.w + 1;
    FlatPrefix(c.chunks, n);
    FlatPrefix(c'.chunks, n);
    FlatLast(c.chunks[..n]);
    FlatLast(c'.chunks[..n]);
    assert c.chunks[..n][..c.w] == c'.chunks[..n][..c.w];
  }

  lemma InTwo(a: seq<Byte>, buf: seq<Byte>, k: nat)
    requires k <= |buf|
    ensures a + buf == (a + buf[..k]) + buf[k..]
  {
  }

  lemma {:induction false} WriteLoopAppends(c: Chain, buf: seq<Byte>)
    requires LoopOk(c) && |buf| <= LoopSpace(c)
    ensures var r := WriteLoop(c, buf);
            && Contents(r) == Contents(c) + buf && LoopOk(r) && (buf != [] ==> Ok(r))
            && r.base == c.base && r.capacity == c.capacity && |r.chunks| == |c.chunks| && r.w >= c.w
    decreases |buf|, |c.chunks| - c.w
  {
    hide Times;
    if buf != [] {
      var room := c.base - |c.chunks[c.w]|;
      if room >= |buf| {
        AppendAtAppends(c, buf);
      } else {
        NextNode(c, buf);
        AppendAtAppends(c, buf[..room]);
        var next := AppendAt(c, buf[..room]).(w := c.w + 1);
        InTwo(Contents(c), buf, room);
        hide Contents, LoopOk, LoopSpace, Ok, AppendAt;
        WriteLoopAppends(next, buf[room..]);
      }
    } else {
      assert Contents(c) + buf == Contents(c);
    }
  }

  lemma ExtendKeeps(c: Chain, delta: nat)
    requires Ok(c)
    ensures Ok(Extend(c, delta)) && Contents(Extend(c, delta)) == Contents(c)
  {
    hide Times, RoundUp;
    var c', n := Extend(c, delta), c.w + 1;
    FlatPrefix(c.chunks, n);
    FlatPrefix(c'.chunks, n);
    assert c'.chunks[..n] == c.chunks[..n];
    TimesAdd(n, RoundUp(delta, c.base), c.base);
    TimesAdd(n, |c.chunks| - n, c.base);
  }

  /** Write is append: the stored sequence grows by the bytes written, and the chain keeps its
      shape: full nodes, the write node, empty nodes, with `capacity_` at least its size. */
  lemma WriteAppends(c: Chain, buf: seq<Byte>)
    requires Ok(c)
    ensures Ok(Write(c, buf)) && Contents(Write(c, buf)) == Contents(c) + buf
    ensures Write(c, buf).base == c.base && Write(c, buf).capacity >= c.capacity && Write(c, buf).w >= c.w
  {
    if buf != [] {
      SpaceForAll(c, buf);
      if Room(c) < |buf| {
        ExtendKeeps(c, |buf|);
        WriteLoopAppends(Extend(c, |buf|), buf);
      } else {
        WriteLoopAppends(c, buf);
      }
    } else {
      assert Contents(c) + buf == Contents(c);
    }
  }

  // ----- how the chain grows -----

  /** `k` nodes are as many as `n` bytes need. */
  ghost predicate JustEnough(n: nat, base: nat, k: nat) {
    (k - 1) * base < n <= k * base
  }

  lemma RoundUpIsJustEnough(n: nat, m: nat)
    requires m > 0
    ensures JustEnough(n, m, RoundUp(n, m))
  {
    var q := (n + m - 1) / m;
    assert n + m - 1 == q * m + (n + m - 1) % m;
    assert (q - 1) * m == q * m - m;
  }

  lemma JustEnoughIsUnique(n: nat, base: nat, k: nat, k': nat)
    requires base > 0 && JustEnough(n, base, k) && JustEnough(n, base, k')
    ensures k == k'
  {
    if k < k' {
      TimesMono(k, k' - 1, base);
    } else if k' < k {
      TimesMono(k', k - 1, base);
    }
  }

  /** A write that fits into its node changes neither the number of nodes nor `capacity_`. One that does not
      leaves the chain as many nodes behind the old write node as all the bytes need, whatever part of them
      still fits, and adds the size of those nodes to `capacity_`. */
  lemma WriteGrows(c: Chain, buf: seq<Byte>, k: nat)
    requires Ok(c) && JustEnough(|buf|, c.base, k)
    ensures var c', fits := Write(c, buf), |buf| <= c.base - |c.chunks[c.w]|;
            && |c'.chunks| == (if fits then |c.chunks| else c.w + 1 + k)
            && c'.capacity == c.capacity + if fits then 0 else k * c.base
  {
    if buf != [] {
      SpaceForAll(c, buf);
      RoundUpIsJustEnough(|buf|, c.base);
      JustEnoughIsUnique(|buf|, c.base, k, RoundUp(|buf|, c.base));
      assert Times(k, c.base) == k * c.base;
      hide JustEnough, RoundUp, Times;
      WriteLoopAppends(if Room(c) < |buf| then Extend(c, |buf|) else c, buf);
    }
  }

  // ----- positions -----

  lemma {:induction false} FlatLength(chunks: seq<seq<Byte>>, base: nat, n: nat)
    requires n <= |chunks| && forall i :: 0 <= i < n ==> |chunks[i]| == base
    ensures |Flat(chunks[..n])| == Times(n, base)
  {
    hide Times;
    TimesAdd(n, 0, base);
    if n > 0 {
      FlatLength(chunks, base, n - 1);
      FlatLast(chunks[..n]);
      assert chunks[..n][..n - 1] == chunks[..n - 1];
      TimesAdd(n - 1, 1, base);
    }
  }

  lemma ContentsLength(c: Chain)
    requires LoopOk(c)
    ensures |Contents(c)| == Times(c.w, c.base) + |c.chunks[c.w]|
  {
    hide Times;
    var n := c.w + 1;
    FlatPrefix(c.chunks, n);
    FlatLast(c.chunks[..n]);
    assert c.chunks[..n][..c.w] == c.chunks[..c.w];
    FlatLength(c.chunks, c.base, c.w);
  }

  lemma ContentsFit(c: Chain)
    requires Ok(c)
    ensures |Contents(c)| <= c.capacity
  {
    ContentsLength(c);
    hide Times, Contents;
    TimesAdd(c.w, 1, c.base);
    TimesMono(c.w + 1, |c.chunks|, c.base);
  }

  /** Byte `j` of node `i` is byte `i * base + j` of the sequence. */
  lemma ChunkInContents(c: Chain, i: nat, lo: nat, hi: nat)
    requires LoopOk(c) && i <= c.w && lo <= hi <= |c.chunks[i]|
    ensures var start := Times(i, c.base);
            start + hi <= |Contents(c)| && Contents(c)[start + lo..start + hi] == c.chunks[i][lo..hi]
  {
    hide Times;
    FlatSplit(c.chunks, i);
    FlatLength(c.chunks, c.base, i);
    hide Flat;
    SliceOfMiddle(Flat(c.chunks[..i]), c.chunks[i], Flat(c.chunks[i + 1..]), lo, hi);
  }

  lemma FlatSplit(chunks: seq<seq<Byte>>, i: nat)
    requires i < |chunks|
    ensures Flat(chunks) == Flat(chunks[..i]) + (chunks[i] + Flat(chunks[i + 1..]))
  {
    assert chunks == chunks[..i] + chunks[i..];
    FlatConcat(chunks[..i], chunks[i..]);
    assert chunks[i..][0] == chunks[i] && chunks[i..][1..] == chunks[i + 1..];
  }

  lemma SliceOfMiddle(a: seq<Byte>, x: seq<Byte>, b: seq<Byte>, lo: nat, hi: nat)
    requires lo <= hi <= |x|
    ensures (a + (x + b))[|a| + lo..|a| + hi] == x[lo..hi]
  {
  }

  // ----- snapshots -----

  /** `raw` holds the whole buffers of the nodes, with whatever stands behind the bytes written. */
  ghost predicate Backs(raw: seq<seq<Byte>>, c: Chain) {
    && |raw| == |c.chunks|
    && forall i :: 0 <= i < |raw| ==> |raw[i]| == c.base && c.chunks[i] <= raw[i]
  }

  /** `BitsStream`: every node but the last is copied whole. */
  function Snapshot(raw: seq<seq<Byte>>, c: Chain): seq<Byte>
    requires |raw| == |c.chunks| > 0 && |c.chunks[|raw| - 1]| <= |raw[|raw| - 1]|
  {
    var n := |raw| - 1;
    Flat(raw[..n]) + raw[n][..|c.chunks[n]|]
  }

  lemma SnapshotLength(raw: seq<seq<Byte>>, c: Chain)
    requires Ok(c) && Backs(raw, c)
    ensures |Snapshot(raw, c)| == Times(|raw| - 1, c.base) + |c.chunks[|raw| - 1]|
    ensures |Snapshot(raw, c)| <= c.capacity
  {
    hide Times;
    var n := |raw| - 1;
    FlatLength(raw, c.base, n);
    TimesAdd(n, 1, c.base);
  }

  /** The snapshot begins with the stored sequence. It is the stored sequence exactly if the write
      node is the last one, or is full with one spare node behind it. */
  lemma SnapshotExact(raw: seq<seq<Byte>>, c: Chain)
    requires Ok(c) && Backs(raw, c)
    ensures Snapshot(raw, c) == Contents(c) <==>
            c.w == |c.chunks| - 1 || (c.w == |c.chunks| - 2 && |c.chunks[c.w]| == c.base)
  {
    hide Times;
    var n := |raw| - 1;
    SnapshotLength(raw, c);
    ContentsLength(c);
    FlatPrefix(c.chunks, c.w + 1);
    forall i | 0 <= i < n && |c.chunks[i]| == c.base ensures raw[i] == c.chunks[i] {
      assert c.chunks[i] == raw[i][..c.base];
    }
    if c.w == n {
      assert raw[..n] == c.chunks[..n];
      FlatLast(c.chunks);
    } else {
      TimesAdd(c.w, 1, c.base);
      TimesAdd(c.w + 1, n - c.w - 1, c.base);
      if c.w + 1 == n && |c.chunks[c.w]| == c.base {
        assert raw[..n] == c.chunks[..n];
        assert Snapshot(raw, c) == Flat(raw[..n]) + [];
      } else if c.w + 1 < n {
        TimesAdd(1, n - c.w - 2, c.base);
      }
    }
  }

  /** The snapshot after a write that does not fit into its node is the stored sequence if and only if the bytes
      that did not fit reach beyond all new nodes but the last one, or fill those up. So it is if one node
      is added. */
  lemma SnapshotAfterWrite(raw: seq<seq<Byte>>, c: Chain, buf: seq<Byte>, k: nat)
    requires Ok(c) && JustEnough(|buf|, c.base, k) && |buf| > c.base - |c.chunks[c.w]| && Backs(raw, Write(c, buf))
    ensures var room := c.base - |c.chunks[c.w]|;
            && Ok(Write(c, buf))
            && (Snapshot(raw, Write(c, buf)) == Contents(c) + buf <==> |buf| - room >= (k - 1) * c.base)
            && (|buf| <= c.base ==> Snapshot(raw, Write(c, buf)) == Contents(c) + buf)
  {
    WriteAppends(c, buf);
    WriteGrows(c, buf, k);
    ContentsLength(c);
    var c' := Write(c, buf);
    ContentsLength(c');
    SnapshotExact(raw, c');
    var ahead := c'.w - c.w;
    assert |buf| <= c.base ==> k == 1 by { if k > 1 { TimesMono(1, k - 1, c.base); TimesAdd(1, 0, c.base); } }
    assert (k - 1) * c.base == Times(k, c.base) - c.base by { TimesAdd(k - 1, 1, c.base); }
    TimesAdd(c.w, ahead, c.base);
    hide Times, Contents, JustEnough, Write;
    var room, e := c.base - |c.chunks[c.w]|, |c'.chunks[c'.w]|;
    assert Times(ahead, c.base) + e == c.base - room + |buf|;
    NodesReached(c.base, ahead, e, k);
  }

  lemma NodesReached(base: nat, ahead: nat, e: nat, k: nat)
    requires base > 0 && ahead <= k && 0 < e <= base && k > 0
    ensures Times(ahead, base) + e - base >= Times(k, base) - base <==> ahead == k || (ahead == k - 1 && e == base)
  {
    TimesAdd(k - 1, 1, base);
    if ahead + 2 <= k {
      TimesMono(ahead + 1, k - 1, base);
      TimesAdd(ahead, 1, base);
    }
    hide Times;
  }

  /** What has been copied after `k` nodes, and what node `k` adds. */
  function Copied(raw: seq<seq<Byte>>, c: Chain, k: nat): seq<Byte>
    requires |raw| == |c.chunks| > 0 && |c.chunks[|raw| - 1]| <= |raw[|raw| - 1]| && k <= |raw|
  {
    if k == |raw| then Snapshot(raw, c) else Flat(raw[..k])
  }

  function Piece(raw: seq<seq<Byte>>, c: Chain, k: nat): seq<Byte>
    requires |raw| == |c.chunks| && k < |raw| && |c.chunks[k]| <= |raw[k]|
  {
    if k + 1 < |raw| then raw[k] else raw[k][..|c.chunks[k]|]
  }

  lemma CopiedAll(raw: seq<seq<Byte>>, c: Chain)
    requires |raw| == |c.chunks| > 0 && |c.chunks[|raw| - 1]| <= |raw[|raw| - 1]|
    ensures Copied(raw, c, |raw|) == Snapshot(raw, c)
  {
  }

  lemma CopyPiece(raw: seq<seq<Byte>>, c: Chain, k: nat)
    requires Ok(c) && Backs(raw, c) && k < |raw|
    ensures Copied(raw, c, 0) == []
    ensures Copied(raw, c, k + 1) == Copied(raw, c, k) + Piece(raw, c, k)
    ensures |Copied(raw, c, k)| + |Piece(raw, c, k)| <= c.capacity
  {
    hide Times;
    var n := |raw|;
    FlatEmpties(raw[..0]);
    FlatLength(raw, c.base, k);
    SnapshotLength(raw, c);
    if k + 1 < n {
      FlatLast(raw[..k + 1]);
      assert raw[..k + 1][..k] == raw[..k];
      TimesAdd(k, 1, c.base);
      TimesMono(k + 1, n, c.base);
    }
  }

  // ----- the read cursor -----

  /** The chain with `read_pos_`; `attached` says that `read_ptr_` is node number
      `read_pos_ / base_size_`, and a node that bytes have been written to. */
  datatype Stream = Stream(c: Chain, pos: nat, attached: bool)

  datatype StreamOp = Put(buf: seq<Byte>) | Get(n: nat)

  /** All bytes have been read and the write node is exactly full. */
  ghost predicate Drained(c: Chain, pos: nat)
    requires c.w < |c.chunks|
  {
    pos == |Contents(c)| && |c.chunks[c.w]| == c.base
  }

  ghost predicate StreamOk(st: Stream) {
    Ok(st.c) && st.pos <= |Contents(st.c)| && (st.attached ==> !Drained(st.c, st.pos))
  }

  /** One call of `Write` or `Read`, and the bytes read. `None` when the call reads bytes that were
      never written, or through a `read_ptr_` that is no longer in the chain. */
  ghost function StreamStep(st: Stream, op: StreamOp): Option<(Stream, seq<Byte>)>
    requires StreamOk(st)
  {
    match op
    case Put(buf) => Some((st.(c := Write(st.c, buf)), []))
    case Get(n) =>
      if n == 0 then Some((st, []))
      else if !st.attached || st.pos + n > |Contents(st.c)| then None
      else Some((st.(pos := st.pos + n, attached := !Drained(st.c, st.pos + n)), Contents(st.c)[st.pos..st.pos + n]))
  }

  /** A read of what is there takes the next bytes, and loses the cursor at most at the end. */
  lemma GetStored(st: Stream, n: nat)
    requires StreamOk(st) && st.pos + n <= |Contents(st.c)|
    requires st.attached || st.pos == |Contents(st.c)|
    ensures StreamStep(st, Get(n)).Some?
    ensures var (st', bytes) := StreamStep(st, Get(n)).value;
            && st'.c == st.c && st'.pos == st.pos + n && bytes == Contents(st.c)[st.pos..st.pos + n]
            && (st'.attached || st'.pos == |Contents(st.c)|)
  {
    hide Contents;
  }

  /** The node of a cursor: one up to the write node, unless the cursor has drained the chain. */
  lemma CursorNode(c: Chain, pos: nat)
    requires Ok(c) && pos <= |Contents(c)|
    ensures Drained(c, pos) ==> Quot(pos, c.base) == c.w + 1
    ensures !Drained(c, pos) ==> Quot(pos, c.base) <= c.w
    ensures pos == Times(Quot(pos, c.base), c.base) + Rem(pos, c.base)
  {
    ContentsLength(c);
    QuotRem(pos, c.base);
    hide Quot, Rem, Times, Contents;
    TimesAdd(c.w, 1, c.base);
    if Drained(c, pos) {
      QuotUnique(pos, c.base, c.w + 1, 0);
    } else if Quot(pos, c.base) > c.w {
      TimesMono(c.w + 1, Quot(pos, c.base), c.base);
    }
  }

  /** One round of the loop of `Read` at `pos`: the bytes it takes from its node, and when it goes on
      to the next node. */
  lemma ReadRound(c: Chain, pos: nat, size: nat)
    requires Ok(c) && size > 0 && pos + size <= |Contents(c)|
    ensures var i, start := Quot(pos, c.base), Rem(pos, c.base);
            var n := if c.base - start < size then c.base - start else size;
            && i <= c.w && start + n <= |c.chunks[i]| <= c.base && 0 < n <= size
            && Contents(c)[pos..pos + n] == c.chunks[i][start..start + n]
            && Quot(pos + n, c.base) == if start + n == c.base then i + 1 else i
  {
    ContentsLength(c);
    CursorNode(c, pos);
    hide Times, Contents, Quot, Rem;
    var i, start := Quot(pos, c.base), Rem(pos, c.base);
    var n := if c.base - start < size then c.base - start else size;
    TimesAdd(i, 1, c.base);
    if start + n == c.base { QuotUnique(pos + n, c.base, i + 1, 0); }
        else { QuotUnique(pos + n, c.base, i, start + n); }
    assert i == c.w ==> start + n <= |c.chunks[i]|;
    ChunkInContents(c, i, start, start + n);
  }

  lemma StreamStepOk(st: Stream, op: StreamOp)
    requires StreamOk(st)
    ensures StreamStep(st, op).Some? ==> StreamOk(StreamStep(st, op).value.0)
  {
    match op
    case Put(buf) =>
      WriteAppends(st.c, buf);
      hide Times;
      var c' := Write(st.c, buf);
      assert buf == [] ==> c' == st.c;
    case Get(n) =>
  }

  ghost function StreamRun(st: Stream, ops: seq<StreamOp>): (r: Option<(Stream, seq<Byte>)>)
    requires StreamOk(st)
    ensures r.Some? ==> StreamOk(r.value.0)
    decreases |ops|
  {
    if ops == [] then Some((st, [])) else
    StreamStepOk(st, ops[0]);
    var first := StreamStep(st, ops[0]);
    if first == None then None else
    var rest := StreamRun(first.value.0, ops[1..]);
    if rest == None then None else Some((rest.value.0, first.value.1 + rest.value.1))
  }

  function Written(ops: seq<StreamOp>): seq<Byte>
    decreases |ops|
  {
    if ops == [] then [] else (if ops[0].Put? then ops[0].buf else []) + Written(ops[1..])
  }

  lemma JoinSlices(a: seq<Byte>, b: seq<Byte>, i: nat, j: nat, k: nat)
    requires i <= j <= |a| && j <= k <= |a + b|
    ensures (a + b)[i..k] == a[i..j] + (a + b)[j..k]
  {
  }

  /** Read is a FIFO cursor: over any run of writes and reads the bytes read are, in order, the bytes
      of the written sequence from the first cursor to the last. */
  lemma {:induction false} ReadsAreFifo(st: Stream, ops: seq<StreamOp>)
    requires StreamOk(st) && StreamRun(st, ops).Some?
    ensures var (st', out) := StreamRun(st, ops).value;
            && Contents(st'.c) == Contents(st.c) + Written(ops)
            && st.pos <= st'.pos <= |Contents(st'.c)| && out == Contents(st'.c)[st.pos..st'.pos]
    decreases |ops|
  {
    if ops != [] {
      StreamStepOk(st, ops[0]);
      var (mid, first) := StreamStep(st, ops[0]).value;
      if ops[0].Put? { WriteAppends(st.c, ops[0].buf); }
      var more := if ops[0].Put? then ops[0].buf else [];
      assert Contents(mid.c) == Contents(st.c) + more && st.pos <= mid.pos <= |Contents(mid.c)|
          && st.pos <= |Contents(st.c)|;
      assert first == Contents(mid.c)[st.pos..mid.pos];
      hide StreamStep, Contents, StreamOk;
      ReadsAreFifo(mid, ops[1..]);
      var (st', rest) := StreamRun(mid, ops[1..]).value;
      JoinSlices(Contents(mid.c), Written(ops[1..]), st.pos, mid.pos, st'.pos);
      InTwo(Contents(st.c), more + Written(ops[1..]), |more|);
      assert (more + Written(ops[1..]))[..|more|] == more && (more + Written(ops[1..]))[|more|..] == Written(ops[1..]);
    }
  }

  /** The same calls on the written sequence alone. */
  datatype Plain = Plain(data: seq<Byte>, pos: nat, base: nat, attached: bool)

  ghost predicate PlainOk(p: Plain, ops: seq<StreamOp>)
    requires p.base > 0
    decreases |ops|
  {
    if ops == [] then true else
    match ops[0]
    case Put(buf) => PlainOk(p.(data := p.data + buf), ops[1..])
    case Get(n) =>
      if n == 0 then PlainOk(p, ops[1..]) else
      var end := p.pos + n;
      && p.attached && end <= |p.data|
      && PlainOk(p.(pos := end, attached := !(end == |p.data| && |p.data| % p.base == 0)), ops[1..])
  }

  lemma DrainedIsWholeNodes(c: Chain)
    requires Ok(c) && Contents(c) != []
    ensures |c.chunks[c.w]| == c.base <==> |Contents(c)| % c.base == 0
  {
    ContentsLength(c);
    var k := |c.chunks[c.w]|;
    TimesAdd(c.w, 0, c.base);
    if k == c.base {
      DivModUnique(|Contents(c)|, c.base, c.w + 1, 0) by { Distribute(c.w, 1, c.base); }
    } else {
      DivModUnique(|Contents(c)|, c.base, c.w, k);
    }
  }

  /** Exactly when reading works: a run of writes and reads is well defined if and only if every read
      stays within what has been written, and none comes after a read that took the last byte of a
      node with nothing written behind it. */
  lemma {:induction false} ReadsDefinedExactly(st: Stream, ops: seq<StreamOp>)
    requires StreamOk(st)
    ensures StreamRun(st, ops).Some? <==> PlainOk(Plain(Contents(st.c), st.pos, st.c.base, st.attached), ops)
    decreases |ops|
  {
    if ops != [] {
      StreamStepOk(st, ops[0]);
      match ops[0]
      case Put(buf) =>
        WriteAppends(st.c, buf);
        ReadsDefinedExactly(StreamStep(st, ops[0]).value.0, ops[1..]);
      case Get(n) =>
        if StreamStep(st, ops[0]).Some? {
          if n > 0 { DrainedIsWholeNodes(st.c); }
          ReadsDefinedExactly(StreamStep(st, ops[0]).value.0, ops[1..]);
        }
    }
  }

  /** A reader that is lost: of a new array with nodes of any size, fill the root node, read it, write one byte
      more, and try to read that byte. Only the last call is not defined. */
  lemma LostReader(full: seq<Byte>, b: Byte)
    requires full != []
    ensures var base := |full|;
            var st, ops := Stream(Chain([[]], base, 0, base), 0, true), [Put(full), Get(base), Put([b]), Get(1)];
            StreamOk(st) && StreamRun(st, ops[..3]).Some? && StreamRun(st, ops) == None
  {
    var base := |full|;
    var st := Stream(Chain([[]], base, 0, base), 0, true);
    var ops := [Put(full), Get(base), Put([b]), Get(1)];
    TimesAdd(1, 0, base);
    assert Flat([[]]) == [] + Flat([]) == [];
    ReadsDefinedExactly(st, ops);
    ReadsDefinedExactly(st, ops[..3]);
    DivModUnique(base, base, 1, 0);
    var p := Plain([], 0, base, true);
    var q := Plain(full, base, base, false);
    assert [] + full == full;
    assert ops[1..] == [Get(base), Put([b]), Get(1)] && ops[1..][1..] == [Put([b]), Get(1)];
    assert ops[1..][1..][1..] == [Get(1)];
    assert !PlainOk(q.(data := full + [b]), [Get(1)]);
    assert !PlainOk(q, [Put([b]), Get(1)]);
    var three := ops[..3];
    assert three[1..] == [Get(base), Put([b])] && three[1..][1..] == [Put([b])] && three[1..][1..][1..] == [];
    assert PlainOk(q, [Put([b])]);
  }
}
