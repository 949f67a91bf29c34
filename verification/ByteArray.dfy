/**
  `ByteArray` and its nodes (src/bytearray.cc, src/include/bytearray.hh) as a linked chain that is
  updated in place, proved against `ByteArraySpec` and `RecordSpec`.
 */
module ByteArrays {
  import opened Arithmetic
  import opened ByteArraySpec
  import opened Common
  import opened RecordSpec

  class Node {
    const base: array<Byte>
    var rest: nat
    var next: Node?

    constructor (size: nat)
      ensures fresh(base) && base.Length == size == rest && next == null
    {
      base := new Byte[size];
      rest := size;
      next := null;
    }
  }

  /** `memcpy` from the caller's memory. */
  method CopyIn(dst: array<Byte>, off: nat, data: seq<Byte>)
    requires off + |data| <= dst.Length
    modifies dst
    ensures dst[..] == Overwrite(old(dst[..]), off, data)
  {
    var src := new Byte[|data|](i requires 0 <= i < |data| => data[i]);
    assert src[0..|data|] == data;
    MemCopy(dst, off, src, 0, |data|);
  }

  /** Copies `n` bytes behind the first `pos` bytes of a buffer. */
  method CopyBehind(buf: array<Byte>, pos: nat, src: array<Byte>, n: nat)
    requires buf != src && pos + n <= buf.Length && n <= src.Length
    modifies buf
    ensures buf[..pos + n] == old(buf[..pos]) + src[..n]
  {
    MemCopy(buf, pos, src, 0, n);
    assert src[0..n] == src[..n];
  }

  /** The loop of `EncodeVarint`. The index `bytes` only moves when the last group is reached. */
  method EncodeVarintLoop(val: int, maxSz: nat, buf: array<Byte>) returns (bytes: nat)
    requires 0 < maxSz <= buf.Length && (val >= 0 ==> Groups(val) <= maxSz)
    modifies buf
    ensures bytes <= maxSz && buf[..bytes] == EncodeVarint(val, old(buf[..]))
  {
    bytes := 0;
    var v, i := val, 0;
    while i < maxSz
      invariant i <= maxSz && bytes == 0 && (v >= 0 <==> val >= 0) && buf[1..] == old(buf[1..])
      invariant val >= 0 ==> Groups(val) == i + Groups(v) && TopGroup(val) == TopGroup(v)
    {
      if 0 <= v < 128 {
        buf[bytes] := v;
        bytes := i + 1;
        break;
      } else {
        buf[bytes] := v % 128 + 128;
        v := v / 128;
      }
      i := i + 1;
    }
    if val >= 0 {
      assert buf[..bytes] == [buf[0]] + buf[1..][..bytes - 1];
      assert old(buf[..])[1..bytes] == old(buf[1..])[..bytes - 1];
    }
  }

  /** The loop of `DecodeVarint`, on the bytes that the read loops collect: all but the last carry a
      continuation bit. The groups do not overlap, so that `|=` adds. */
  method DecodeVarintLoop(buf: seq<Byte>) returns (val: nat)
    requires forall k :: 0 <= k < |buf| - 1 ==> buf[k] >= 128
    ensures val == if buf == [] then 0 else buf[0]
  {
    val := 0;
    var i, weight: nat := 0, 1;
    while i < |buf|
      invariant i <= |buf| && i <= 1
      invariant i == 0 ==> val == 0 && weight == 1
      invariant i == 1 ==> val == buf[0] && |buf| == 1
    {
      if buf[i] >= 128 {
        val := val + buf[i] * weight;
        break;
      }
      val := val + (buf[i] % 128) * weight;
      i, weight := i + 1, weight * 128;
    }
  }

  const NODE_SIZE: nat := 128

  class ByteArray {
    const baseSize: nat
    var readPos: nat
    var capacity: nat
    var root: Node
    var write: Node
    var read: Node?
    /** The nodes in order, and the value they represent. */
    ghost var nodes: seq<Node>
    ghost var view: Stream

    ghost predicate NodeOk(i: nat)
      requires i < |nodes|
      reads this, nodes[i], nodes[i].base
    {
      && i < |view.c.chunks| && |view.c.chunks[i]| <= baseSize == nodes[i].base.Length
      && nodes[i].rest == baseSize - |view.c.chunks[i]|
      && nodes[i].base[..|view.c.chunks[i]|] == view.c.chunks[i]
      && nodes[i].next == if i + 1 < |nodes| then nodes[i + 1] else null
    }

    /** The chain is what `view` says, also in the middle of a `Write`. */
    ghost predicate ChainOk()
      reads this, nodes, set n | n in nodes :: n.base
    {
      && LoopOk(view.c) && |nodes| == |view.c.chunks| && view.c.base == baseSize && view.c.capacity == capacity
      && (forall i :: 0 <= i < |nodes| ==> NodeOk(i))
      && (forall i, j :: 0 <= i < j < |nodes| ==> nodes[i] != nodes[j] && nodes[i].base != nodes[j].base)
      && root == nodes[0] && write == nodes[view.c.w]
    }

    /** Where `read_ptr_` points. Once the cursor has left the chain, it is null, or a node that the
        next `ExtendCapacity` unlinks, or one that is unlinked already. */
    ghost predicate ReaderOk()
      reads this
    {
      && view.pos == readPos && baseSize > 0 && view.c.w < |nodes| && |nodes| == |view.c.chunks|
      && (view.attached ==> Quot(readPos, baseSize) <= view.c.w && read == nodes[Quot(readPos, baseSize)])
      && (!view.attached ==>
            || read == null
            || read !in nodes
            || (Drained(view.c, view.pos) && read !in nodes[..view.c.w + 1]))
    }

    ghost predicate Valid()
      reads this, nodes, set n | n in nodes :: n.base
    {
      ChainOk() && StreamOk(view) && ReaderOk()
    }

    /** The stored sequence. */
    ghost function Stored(): seq<Byte>
      reads this
    {
      Contents(view.c)
    }

    constructor (size: nat)
      ensures Valid() && fresh(nodes) && fresh(set n | n in nodes :: n.base)
      ensures baseSize == (if size < NODE_SIZE then NODE_SIZE else size)
      ensures Stored() == [] && view.pos == 0 && view.attached && |nodes| == 1 && capacity == baseSize
    {
      var base := if size < NODE_SIZE then NODE_SIZE else size;
      var node := new Node(base);
      baseSize, capacity, readPos := base, base, 0;
      root, write, read := node, node, node;
      nodes := [node];
      view := Stream(Chain([[]], base, 0, base), 0, true);
      new;
      TimesAdd(1, 0, base);
    }

    /** Links a new node behind node `k`; the nodes that stood there are no longer in the chain. */
    method LinkNode(tmp: Node, ghost k: nat) returns (node: Node)
      requires ChainOk() && view.c.w <= k < |nodes| && tmp == nodes[k]
      modifies this`nodes, this`view, this`capacity, tmp`next
      ensures ChainOk() && fresh(node) && fresh(node.base)
      ensures nodes == old(nodes)[..k + 1] + [node]
      ensures view == old(view).(c := old(view).c.(chunks := old(view).c.chunks[..k + 1] + [[]],
          capacity := old(view).c.capacity + baseSize))
    {
      hide Times;
      node := new Node(baseSize);
      assert NodeOk(k);
      TimesAdd(k + 1, 1, baseSize);
      TimesAdd(k + 1, |nodes| - k - 1, baseSize);
      label before:
      tmp.next := node;
      nodes := nodes[..k + 1] + [node];
      capacity := capacity + baseSize;
      view := view.(c := view.c.(chunks := view.c.chunks[..k + 1] + [[]], capacity := capacity));
      forall i | 0 <= i < |nodes| ensures NodeOk(i) {
        if i <= k { assert old@before(NodeOk(i)); }
      }
    }

    method ExtendCapacity(delta: nat)
      requires ChainOk() && Ok(view.c) && delta > 0
      modifies this`nodes, this`view, this`capacity, write`next
      ensures ChainOk() && view == old(view).(c := Extend(old(view).c, delta))
      ensures nodes[..view.c.w + 1] == old(nodes)[..view.c.w + 1]
      ensures forall j :: view.c.w + 1 <= j < |nodes| ==> fresh(nodes[j]) && fresh(nodes[j].base)
    {
      var nodeCnt := RoundUp(delta, baseSize);
      hide Times, NodeOk, RoundUp;
      ghost var c, w := view.c, view.c.w;
      var tmp := write;
      for i := 0 to nodeCnt
        invariant ChainOk() && view.c.w == w && w + i < |nodes| && tmp == nodes[w + i]
        invariant nodes[..w + 1] == old(nodes)[..w + 1]
        invariant i == 0 ==> nodes == old(nodes)
        invariant i > 0 ==> |nodes| == w + 1 + i
        invariant i > 0 ==> forall j :: w + 1 <= j < |nodes| ==> fresh(nodes[j]) && fresh(nodes[j].base)
        invariant view == old(view).(c := if i == 0
            then c else c.(chunks := c.chunks[..w + 1] + Empties(i), capacity := c.capacity + Times(i, baseSize)))
      {
        TimesAdd(i, 1, baseSize);
        tmp := LinkNode(tmp, w + i);
      }
    }

    /** Copies bytes behind those already in the write node. */
    method Fill(bytes: seq<Byte>)
      requires ChainOk() && |bytes| <= write.rest
      modifies this`view, write`rest, write.base
      ensures ChainOk() && view == old(view).(c := AppendAt(old(view).c, bytes))
      ensures write.rest == old(write.rest) - |bytes|
    {
      assert NodeOk(view.c.w);
      ghost var w := view.c.w;
      label before:
      CopyIn(write.base, baseSize - write.rest, bytes);
      write.rest := write.rest - |bytes|;
      view := view.(c := AppendAt(view.c, bytes));
      forall i | 0 <= i < |nodes| ensures NodeOk(i) {
        assert old@before(NodeOk(i));
      }
    }

    method Advance()
      requires ChainOk() && view.c.w + 1 < |nodes| && write.rest == 0
      modifies this`view, this`write
      ensures ChainOk() && view == old(view).(c := old(view).c.(w := old(view).c.w + 1))
    {
      assert NodeOk(view.c.w);
      label before:
      write := write.next;
      view := view.(c := view.c.(w := view.c.w + 1));
      forall i | 0 <= i < |nodes| ensures NodeOk(i) {
        assert old@before(NodeOk(i));
      }
    }

    /** The loop of `Write`. */
    method CopyAll(buf: seq<Byte>)
      requires ChainOk() && |buf| <= LoopSpace(view.c)
      modifies this`view, this`write, nodes, set n | n in nodes :: n.base
      ensures ChainOk() && view == old(view).(c := WriteLoop(old(view).c, buf))
    {
      hide Times, NodeOk;
      var bufPos: nat, size: nat := 0, |buf|;
      assert buf[0..] == buf;
      while size > 0
        invariant bufPos + size == |buf| && ChainOk() && size <= LoopSpace(view.c)
        invariant view == old(view).(c := view.c)
        invariant WriteLoop(view.c, buf[bufPos..]) == WriteLoop(old(view).c, buf)
        decreases size, |nodes| - view.c.w
      {
        RestOfWriteNode();
        ghost var left := buf[bufPos..];
        if write.rest >= size {
          assert buf[bufPos..bufPos + size] == left;
          FillLast(buf[bufPos..bufPos + size]);
          bufPos, size := bufPos + size, 0;
          assert buf[bufPos..] == [];
        } else {
          var room := write.rest;
          assert buf[bufPos..bufPos + room] == left[..room] && buf[bufPos + room..] == left[room..];
          FillUp(buf[bufPos..bufPos + room], left);
          bufPos, size := bufPos + room, size - room;
        }
      }
    }

    /** The round of the loop in which the bytes fit. */
    method FillLast(bytes: seq<Byte>)
      requires ChainOk() && 0 < |bytes| <= write.rest && |bytes| <= LoopSpace(view.c)
      modifies this`view, write`rest, write.base
      ensures ChainOk() && view == old(view).(c := WriteLoop(old(view).c, bytes))
    {
      RestOfWriteNode();
      hide NodeOk, Times;
      Fill(bytes);
    }

    /** A round that fills the node up and goes on to the next; `left` is all that is to be written. */
    method FillUp(bytes: seq<Byte>, ghost left: seq<Byte>)
      requires ChainOk() && write.rest < |left| <= LoopSpace(view.c) && bytes == left[..write.rest]
      modifies this`view, this`write, write`rest, write.base
      ensures ChainOk() && view == old(view).(c := view.c) && view.c.w == old(view).c.w + 1
      ensures |left[|bytes|..]| <= LoopSpace(view.c) && WriteLoop(old(view).c, left) == WriteLoop(view.c, left[|bytes|..])
    {
      RestOfWriteNode();
      NextNode(view.c, left);
      hide NodeOk, Times;
      Fill(bytes);
      Advance();
    }

    lemma RestOfWriteNode()
      requires ChainOk()
      ensures write.rest == baseSize - |view.c.chunks[view.c.w]|
    {
      assert NodeOk(view.c.w);
    }

    /** `Write` for some bytes, as far as the chain is concerned. */
    method WriteChain(buf: seq<Byte>)
      requires ChainOk() && Ok(view.c) && buf != []
      modifies this`nodes, this`view, this`write, this`capacity, nodes, set n | n in nodes :: n.base
      ensures ChainOk() && view == old(view).(c := ByteArraySpec.Write(old(view).c, buf))
      ensures var n := old(view).c.w + 1;
              && n <= |nodes| && nodes[..n] == old(nodes)[..n]
              && if Room(old(view).c) < |buf| then forall j :: n <= j < |nodes| ==>
                  fresh(nodes[j]) && fresh(nodes[j].base)
                 else nodes == old(nodes)
    {
      SpaceForAll(view.c, buf);
      RestOfWriteNode();
      hide NodeOk, Times;
      if write.rest < |buf| {
        ExtendCapacity(|buf|);
      }
      CopyAll(buf);
    }

    /** After a write of `size` bytes with `room` in the write node, number `w`, and `k` nodes' worth of bytes. */
    ghost predicate Grown(room: nat, size: nat, k: nat, before: nat, w: nat)
      reads this
    {
      if size <= room then capacity == before
      else capacity == before + k * baseSize && |nodes| == w + 1 + k
    }

    /** Write is append. The read cursor stays where it is; one that was lost stays lost. */
    method Write(buf: seq<Byte>)
      requires Valid()
      modifies this`nodes, this`view, this`write, this`capacity, nodes, set n | n in nodes :: n.base
      ensures Valid() && view == old(view).(c := ByteArraySpec.Write(old(view).c, buf))
      ensures Stored() == old(Stored()) + buf
      ensures forall n :: n in nodes ==> n in old(nodes) || (fresh(n) && fresh(n.base))
      ensures exists k: nat :: JustEnough(|buf|, baseSize, k) && Grown(old(write.rest), |buf|, k, old(capacity), old(view).c.w)
      ensures |buf| <= old(write.rest) ==> nodes == old(nodes)
    {
      RestOfWriteNode();
      RoundUpIsJustEnough(|buf|, baseSize);
      WriteGrows(view.c, buf, RoundUp(|buf|, baseSize));
      WriteAppends(view.c, buf);
      StreamStepOk(view, Put(buf));
      if |buf| == 0 {
        return;
      }
      CursorNode(view.c, view.pos);
      ghost var w := view.c.w;
      WriteChain(buf);
      assert nodes == old(nodes)[..w + 1] + nodes[w + 1..];
      hide NodeOk, ByteArraySpec.Write, Times, Ok;
    }

    ghost function NodeAt(k: nat): Node?
      reads this
    {
      if k < |nodes| then nodes[k] else null
    }

    /** One round of the loop of `Read`. */
    method ReadNode(size: nat) returns (bytes: seq<Byte>)
      requires ChainOk() && Ok(view.c) && view.pos == readPos && read == NodeAt(Quot(readPos, baseSize))
      requires 0 < size && readPos + size <= |Stored()|
      modifies this`readPos, this`read, this`view
      ensures ChainOk() && view == old(view).(pos := readPos) && read == NodeAt(Quot(readPos, baseSize))
      ensures 0 < |bytes| <= size && readPos == old(readPos) + |bytes| && bytes == Stored()[old(readPos)..readPos]
    {
      ReadRound(view.c, readPos, size);
      ghost var i := Quot(readPos, baseSize);
      var start := readPos % baseSize;
      assert start == Rem(readPos, baseSize);
      var readSz := if baseSize - start < size then baseSize - start else size;
      NodeBytes(i, start, start + readSz);
      hide Contents, Ok, Drained, Quot, Rem, Times, NodeOk, LoopOk;
      bytes := read.base[start..start + readSz];
      MoveCursor(if start + readSz == baseSize then read.next else read, readPos + readSz);
    }

    lemma NodeBytes(i: nat, lo: nat, hi: nat)
      requires ChainOk() && i < |nodes| && lo <= hi <= |view.c.chunks[i]|
      ensures nodes[i].base.Length == baseSize && hi <= baseSize && nodes[i].next == NodeAt(i + 1)
      ensures nodes[i].base[lo..hi] == view.c.chunks[i][lo..hi]
    {
      assert NodeOk(i);
      ghost var node, chunk := nodes[i], view.c.chunks[i];
      forall k | lo <= k < hi ensures node.base[k] == chunk[k] {
        assert node.base[..|chunk|][k] == node.base[k];
      }
      assert |node.base[lo..hi]| == |chunk[lo..hi]|;
    }

    method MoveCursor(node: Node?, pos: nat)
      requires ChainOk()
      modifies this`readPos, this`read, this`view
      ensures ChainOk() && view == old(view).(pos := pos) && read == node && readPos == pos
    {
      read, readPos := node, pos;
      view := view.(pos := pos);
      forall i | 0 <= i < |nodes| ensures NodeOk(i) {
        assert old(NodeOk(i));
      }
    }

    /** `Read`; `None` stands for the exception. The source reads whatever memory it meets when the
        bytes were never written, or when the cursor has been lost. */
    method Read(n: nat) returns (r: Option<seq<Byte>>)
      requires Valid()
      requires 0 < n <= capacity ==> view.attached && view.pos + n <= |Stored()|
      modifies this`readPos, this`read, this`view
      ensures Valid() && (n > capacity ==> r == None && view == old(view))
      ensures n <= capacity ==>
                var s := StreamStep(old(view), Get(n));
                s.Some? && view == s.value.0 && r == Some(s.value.1)
    {
      if n > capacity {
        return None;
      }
      var data, size: nat := [], n;
      ghost var c, pos := view.c, view.pos;
      while size > 0
        invariant ChainOk() && Ok(c) && view == old(view).(pos := readPos)
        invariant readPos + size == pos + n && data == Stored()[pos..readPos]
        invariant n > 0 ==> read == NodeAt(Quot(readPos, baseSize))
        invariant n == 0 ==> read == old(read)
      {
        hide Ok, NodeOk, Contents;
        ghost var before := readPos;
        var bytes := ReadNode(size);
        data, size := data + bytes, size - |bytes|;
      }
      if n > 0 {
        Settle();
      }
      r := Some(data);
    }

    /** Notes whether the cursor is still on a node that has been written to. */
    ghost method Settle()
      requires ChainOk() && Ok(view.c) && view.pos == readPos <= |Stored()| && read == NodeAt(Quot(readPos, baseSize))
      modifies this`view
      ensures Valid() && view == old(view).(attached := !Drained(view.c, readPos))
    {
      CursorNode(view.c, readPos);
      if Drained(view.c, readPos) {
        assert Quot(readPos, baseSize) == view.c.w + 1;
      }
      label before:
      view := view.(attached := !Drained(view.c, readPos));
      forall i | 0 <= i < |nodes| ensures NodeOk(i) {
        assert old@before(NodeOk(i));
      }
    }

    /** The whole buffers of the nodes. */
    ghost function Raw(ns: seq<Node>): (r: seq<seq<Byte>>)
      reads set n | n in ns :: n.base
      ensures |r| == |ns| && forall i :: 0 <= i < |ns| ==> r[i] == ns[i].base[..]
    {
      if ns == [] then [] else Raw(ns[..|ns| - 1]) + [ns[|ns| - 1].base[..]]
    }

    lemma RawBacks()
      requires ChainOk()
      ensures Backs(Raw(nodes), view.c)
    {
      forall i | 0 <= i < |nodes| ensures |nodes[i].base[..]| == baseSize && view.c.chunks[i] <= nodes[i].base[..] {
        assert NodeOk(i);
        assert nodes[i].base[..][..|view.c.chunks[i]|] == nodes[i].base[..|view.c.chunks[i]|];
      }
    }

    /** One round of the loop of `BitsStream`. */
    method CopyNode(buf: array<Byte>, pos: nat, tmp: Node, ghost k: nat, ghost raw: seq<seq<Byte>>,
        ghost c: Chain) returns (end: nat)
      requires Ok(c) && Backs(raw, c) && k < |raw| && c.base == baseSize && c.capacity == buf.Length
      requires buf != tmp.base && tmp.base[..] == raw[k] && tmp.rest == baseSize - |c.chunks[k]|
      requires tmp.next != null <==> k + 1 < |raw|
      requires pos <= buf.Length && buf[..pos] == Copied(raw, c, k)
      modifies buf
      ensures end <= buf.Length && buf[..end] == Copied(raw, c, k + 1)
    {
      CopyPiece(raw, c, k);
      hide Copied;
      var n := if tmp.next != null then baseSize else baseSize - tmp.rest;
      assert tmp.base[..n] == tmp.base[..][..n] == Piece(raw, c, k);
      CopyBehind(buf, pos, tmp.base, n);
      end := pos + n;
    }

    /** The nodes hold the buffers `raw` and the counts of `c`. */
    ghost predicate Holds(raw: seq<seq<Byte>>, c: Chain)
      reads this, nodes, set n | n in nodes :: n.base
    {
      && |raw| == |nodes| == |c.chunks| && c.base == baseSize
      && forall i :: 0 <= i < |nodes| ==>
           && nodes[i].base[..] == raw[i] && |c.chunks[i]| <= baseSize && nodes[i].rest == baseSize - |c.chunks[i]|
           && nodes[i].next == NodeAt(i + 1)
    }

    lemma HoldsRaw()
      requires ChainOk()
      ensures Holds(Raw(nodes), view.c) && Backs(Raw(nodes), view.c)
    {
      RawBacks();
      forall i | 0 <= i < |nodes| ensures nodes[i].next == NodeAt(i + 1)
          && nodes[i].rest == baseSize - |view.c.chunks[i]| {
        assert NodeOk(i);
      }
    }

    /** The loop of `BitsStream`. */
    method CopyNodes(buf: array<Byte>, ghost raw: seq<seq<Byte>>, ghost c: Chain) returns (end: nat)
      requires Holds(raw, c) && Ok(c) && Backs(raw, c) && buf.Length == c.capacity && root == NodeAt(0)
      requires forall i :: 0 <= i < |nodes| ==> buf != nodes[i].base
      modifies buf
      ensures end <= buf.Length && buf[..end] == Snapshot(raw, c)
    {
      CopyPiece(raw, c, 0);
      CopiedAll(raw, c);
      hide Contents, Flat, Snapshot, Times, Copied;
      var tmp: Node? := root;
      end := 0;
      ghost var k: nat := 0;
      while tmp != null
        invariant Holds(raw, c)
        invariant k <= |nodes| && tmp == NodeAt(k) && end <= buf.Length && buf[..end] == Copied(raw, c, k)
        decreases |nodes| - k
        modifies buf
      {
        end := CopyNode(buf, end, tmp, k, raw, c);
        tmp, k := tmp.next, k + 1;
      }
    }

    method GetAllBits() returns (bits: seq<Byte>)
      requires Valid()
      ensures |nodes| == |view.c.chunks| > 0 && Backs(Raw(nodes), view.c) && bits == Snapshot(Raw(nodes), view.c)
    {
      BuffersAllocated();
      var buf := new Byte[capacity];
      HoldsRaw();
      hide Snapshot, Backs;
      var end := CopyNodes(buf, Raw(nodes), view.c);
      bits := buf[..end];
    }

    /** `BitsStream` and `GetAllBits`: a snapshot, which is the stored sequence exactly if the write
        node is the last one, or is full with one spare node behind it. The buffer of `capacity` bytes
        is large enough. */
    method BitsStream() returns (bits: seq<Byte>)
      requires Valid()
      ensures |nodes| == |view.c.chunks| > 0 && Backs(Raw(nodes), view.c)
      ensures bits == Snapshot(Raw(nodes), view.c)
      ensures bits == Stored() <==>
              view.c.w == |nodes| - 1 || (view.c.w == |nodes| - 2 && |view.c.chunks[view.c.w]| == baseSize)
    {
      bits := GetAllBits();
      SnapshotExact(Raw(nodes), view.c);
    }

    lemma BuffersAllocated()
      requires Valid()
      ensures |nodes| == |view.c.chunks| > 0 && root == NodeAt(0)
    {
      assert NodeOk(0);
    }

    /** `Clear`; `capacity_` is not reset. */
    method Clear()
      requires Valid()
      modifies this
      ensures Valid() && Stored() == [] && view.pos == 0 && view.attached
      ensures fresh(nodes) && fresh(set n | n in nodes :: n.base)
      ensures |nodes| == 1 && capacity == old(capacity) && write.rest == baseSize
    {
      ghost var c := view.c;
      TimesAdd(1, |c.chunks| - 1, baseSize);
      Multiple(|c.chunks| - 1, baseSize);
      hide Times;
      var node := new Node(baseSize);
      root, read, write, readPos := node, node, node, 0;
      nodes := [node];
      view := Stream(Chain([[]], baseSize, 0, capacity), 0, true);
      assert Contents(view.c) == [] by { FlatEmpties([[]]); }
      QuotUnique(0, baseSize, 0, 0) by { TimesAdd(0, 0, baseSize); }
      assert NodeOk(0);
    }

    /** `SetAllBits`: the bytes become the stored sequence, and reading starts over. */
    method SetAllBits(bits: seq<Byte>)
      requires Valid()
      modifies this
      ensures Valid() && Stored() == bits && view.pos == 0 && view.attached
      ensures exists k: nat :: JustEnough(|bits|, baseSize, k) && Grown(baseSize, |bits|, k, old(capacity), 0)
    {
      Clear();
      Write(bits);
    }

    // ----- typed records -----

    /** What has been written and not yet read. */
    ghost function Remaining(): seq<Byte>
      reads this
    {
      if view.pos <= |Stored()| then Stored()[view.pos..] else []
    }

    /** The cursor is on its node, unless everything has been read. */
    ghost predicate Ready()
      reads this
    {
      Remaining() != [] ==> view.attached
    }

    /** `Read` of bytes that are there. */
    method Take(n: nat) returns (bytes: seq<Byte>)
      requires Valid() && Ready() && n <= |Remaining()|
      modifies this`readPos, this`read, this`view
      ensures Valid() && Ready() && Stored() == old(Stored())
      ensures bytes == old(Remaining())[..n] && Remaining() == old(Remaining())[n..]
    {
      ContentsFit(view.c);
      GetStored(view, n);
      hide ChainOk, NodeOk, ReaderOk, StreamOk, StreamStep, Ok, LoopOk, Contents;
      var r := Read(n);
      bytes := r.value;
    }

    method WriteFixed(w: Width, signed: bool, v: int)
      requires Valid() && InType(v, signed, Patterns(w))
      modifies this`nodes, this`view, this`write, this`capacity, nodes, set n | n in nodes :: n.base
      ensures Valid() && view == old(view).(c := view.c)
      ensures Stored() == old(Stored()) + Encode(Fixed(w, signed, v), JUNK)
      ensures forall n :: n in nodes ==> n in old(nodes) || (fresh(n) && fresh(n.base))
    {
      Write(LeBytes(Pattern(v, Patterns(w)), Size(w)));
    }

    method WriteVarint(w: Width, signed: bool, v: int) returns (ghost junk: seq<Byte>)
      requires Valid() && InType(v, signed, Patterns(w))
      modifies this`nodes, this`view, this`write, this`capacity, nodes, set n | n in nodes :: n.base
      ensures Valid() && view == old(view).(c := view.c) && |junk| == 10
      ensures Stored() == old(Stored()) + EncodeInt(w, signed, v, junk)
      ensures forall n :: n in nodes ==> n in old(nodes) || (fresh(n) && fresh(n.base))
    {
      var z := ZigZagged(v, signed, Patterns(w));
      var buf := new Byte[10];
      junk := buf[..];
      if z >= 0 {
        GroupsFit(z, signed, w);
      }
      var bytes := EncodeVarintLoop(z, MaxGroups(w), buf);
      Write(buf[..bytes]);
    }

    /** `WriteString`: the length as an unsigned varint, then the bytes. */
    method WriteText(bytes: seq<Byte>) returns (ghost junk: seq<Byte>)
      requires Valid() && |bytes| < Patterns(W64)
      modifies this`nodes, this`view, this`write, this`capacity, nodes, set n | n in nodes :: n.base
      ensures Valid() && view == old(view).(c := view.c) && |junk| == 10
      ensures Stored() == old(Stored()) + Encode(Text(bytes), junk)
      ensures forall n :: n in nodes ==> n in old(nodes) || (fresh(n) && fresh(n.base))
    {
      hide Contents, Valid, EncodeInt, Grown, JustEnough;
      junk := WriteVarint(W64, false, |bytes|);
      assert forall i :: 0 <= i < |nodes| ==> nodes[i] in old(nodes) || (fresh(nodes[i]) && fresh(nodes[i].base));
      Write(bytes);
    }

    /** One `Write...` call for a record; strings have their length in front. */
    method WriteRecord(r: Record) returns (ghost junk: seq<Byte>)
      requires Valid() && WellTyped(r)
      modifies this`nodes, this`view, this`write, this`capacity, nodes, set n | n in nodes :: n.base
      ensures Valid() && view == old(view).(c := view.c) && |junk| == 10
      ensures Stored() == old(Stored()) + Encode(r, junk)
      ensures forall n :: n in nodes ==> n in old(nodes) || (fresh(n) && fresh(n.base))
    {
      hide Valid, Contents;
      match r
      case Fixed(w, signed, v) =>
        WriteFixed(w, signed, v);
        junk := JUNK;
      case Varint(w, signed, v) =>
        junk := WriteVarint(w, signed, v);
      case Text(bytes) =>
        junk := WriteText(bytes);
    }

    /** The read loop of the varint macros, and `DecodeVarint`. */
    method ReadVarint() returns (z: nat, ghost k: nat)
      requires Valid() && Ready() && DecodeVarint(Remaining()).Some?
      modifies this`readPos, this`read, this`view
      ensures Valid() && Ready() && Stored() == old(Stored())
      ensures DecodeVarint(old(Remaining())) == Some((z, k)) && Remaining() == old(Remaining())[k..]
    {
      hide Valid, Remaining, Ready, Stored;
      ghost var s := Remaining();
      assert s[0..] == s;
      var buf: seq<Byte>, num: nat, i: nat := [], 0, 0;
      while i < 10
        invariant i <= 10 && num == 0 && |buf| == i <= |s| && buf == s[..i]
        invariant Valid() && Ready() && Stored() == old(Stored()) && i <= |s| && Remaining() == s[i..]
        invariant forall j :: 0 <= j < i ==> buf[j] >= 128
        invariant i < 10 ==> VarintLengthFrom(s, i) == VarintLength(s)
        invariant i == 10 ==> VarintLength(s) == Some(10)
      {
        var byte := Take(1);
        assert byte[0] == s[i];
        buf := buf + byte;
        i := i + 1;
        if buf[i - 1] < 128 {
          num := i;
          break;
        }
      }
      z := DecodeVarintLoop(buf[..num]);
      k := i;
    }

    method ReadRecord(shape: Shape) returns (r: Record, ghost k: nat)
      requires Valid() && Ready() && Decode(shape, Remaining()).Some?
      modifies this`readPos, this`read, this`view
      ensures Valid() && Ready() && Stored() == old(Stored())
      ensures Decode(shape, old(Remaining())) == Some((r, k)) && Remaining() == old(Remaining())[k..]
    {
      hide Valid, Remaining, Ready, Stored;
      match shape
      case AFixed(w, signed) =>
        var bytes := Take(Size(w));
        r, k := Fixed(w, signed, Value(LeValue(bytes), signed, Patterns(w))), Size(w);
      case AVarint(w, signed) =>
        var z;
        z, k := ReadVarint();
        r := Varint(w, signed, Value(DecodeZigZag(z, Patterns(w)), signed, Patterns(w)));
      case AString =>
        var z;
        z, k := ReadVarint();
        var n := DecodeZigZag(z, Patterns(W64));
        ghost var s, m := old(Remaining()), k;
        assert m + n <= |s| && s[m..][..n] == s[m..m + n] && s[m..][n..] == s[m + n..];
        var bytes := Take(n);
        r, k := Text(bytes), k + n;
    }
  }

  /** Snapshot round trip: a snapshot taken while the write node is the last one carries the stored
      sequence over to any array, which is then read from the start. */
  method Transfer(src: ByteArray, dst: ByteArray)
    requires src.Valid() && dst.Valid() && src.view.c.w == |src.nodes| - 1
    modifies dst
    ensures dst.Valid() && dst.Stored() == old(src.Stored()) && dst.view.pos == 0 && dst.view.attached
  {
    var bits := src.BitsStream();
    dst.SetAllBits(bits);
  }

  const JUNK: seq<Byte> := [0, 0, 0, 0, 0, 0, 0, 0, 0, 0]

  method WriteAll(ba: ByteArray, rs: seq<Record>)
    requires ba.Valid() && ba.Remaining() == [] && ba.view.attached
    requires forall i :: 0 <= i < |rs| ==> WellTyped(rs[i]) && Faithful(rs[i])
    modifies ba, ba.nodes, set n | n in ba.nodes :: n.base
    ensures ba.Valid() && ba.view.attached && ba.Remaining() == EncodeAll(rs, JUNK)
  {
    hide Encode, WellTyped, Faithful, Contents;
    ghost var before := ba.Stored();
    for i := 0 to |rs|
      invariant ba.Valid() && ba.view.pos == old(ba.view.pos) && ba.view.attached
      invariant ba.Stored() == before + EncodeAll(rs[..i], JUNK)
      invariant forall n :: n in ba.nodes ==> n in old(ba.nodes) || (fresh(n) && fresh(n.base))
    {
      ghost var junk := ba.WriteRecord(rs[i]);
      EncodeIgnoresJunk(rs[i], junk, JUNK);
      EncodeAllAppend(rs[..i], rs[i], JUNK);
      assert rs[..i + 1] == rs[..i] + [rs[i]];
      assert before + EncodeAll(rs[..i + 1], JUNK) == (before + EncodeAll(rs[..i], JUNK)) + Encode(rs[i], JUNK);
    }
    assert rs[..|rs|] == rs;
  }

  method ReadAll(ba: ByteArray, shapes: seq<Shape>, ghost rs: seq<Record>) returns (out: seq<Record>)
    requires forall i :: 0 <= i < |rs| ==> WellTyped(rs[i]) && Faithful(rs[i])
    requires ba.Valid() && ba.Ready() && ba.Remaining() == EncodeAll(rs, JUNK) && shapes == ShapesOf(rs)
    modifies ba
    ensures ba.Valid() && out == rs
  {
    hide Encode, Decode, WellTyped, Faithful, ByteArray.Valid, ByteArray.Ready, ByteArray.Remaining;
    out := [];
    for i := 0 to |shapes|
      invariant ba.Valid() && ba.Ready() && ba.Remaining() == EncodeAll(rs[i..], JUNK) && out == rs[..i]
    {
      RecordRoundTrip(rs[i], JUNK, EncodeAll(rs[i + 1..], JUNK));
      assert rs[i..][1..] == rs[i + 1..];
      ShapeAt(rs, i);
      ghost var k;
      var r;
      r, k := ba.ReadRecord(shapes[i]);
      out := out + [r];
    }
  }

  /** Typed round trip: any sequence of faithful records, written to a new array, is returned
      unchanged by the same sequence of reads, wherever the records straddle nodes. */
  method RoundTrip(size: nat, rs: seq<Record>) returns (out: seq<Record>)
    requires forall i :: 0 <= i < |rs| ==> WellTyped(rs[i]) && Faithful(rs[i])
    ensures out == rs
  {
    var ba := new ByteArray(size);
    WriteAll(ba, rs);
    out := ReadAll(ba, ShapesOf(rs), rs);
  }
}
