/** The memory an event pipe works on: ngx_buf_t structures, the raw buffers
    they point into, and the temporary file; chains are sequences of buffer
    numbers.  The pipe itself is in EventPipe.dfy. */
module PipeHeap {

  import opened Common

  /** A raw buffer made by ngx_create_temp_buf: its memory, the part filled so
      far, the buffer that shadows it (-1 for none) and whether the memory was
      given back. */
  datatype Raw = Raw(mem: seq<Byte>, pos: nat, last: nat, shadow: int, freed: bool)

  /** A buffer of the `in`, `out`, `busy` and `free` chains.  It either points into
      the raw buffer `start` or, with tempFile, into the temporary file. */
  datatype Buf = Buf(start: int, pos: nat, last: nat, shadow: int, recycled: bool, lastShadow: bool,
                     tempFile: bool, filePos: nat, fileLast: nat)

  datatype Heap = Heap(bufs: seq<Buf>, raws: seq<Raw>, file: seq<Byte>)

  type Chain = seq<nat>

  // ---------------------------------------------------------------- contents

  function Slice(s: seq<Byte>, i: nat, j: nat): seq<Byte>
  {
    if i <= j <= |s| then s[i..j] else []
  }

  /** The bytes a buffer stands for right now: read from memory or from the file. */
  function BufBytes(h: Heap, b: nat): seq<Byte>
  {
    if b >= |h.bufs| then []
    else
      var x := h.bufs[b];
      if x.tempFile then Slice(h.file, x.filePos, x.fileLast)
      else if 0 <= x.start < |h.raws| then Slice(h.raws[x.start].mem, x.pos, x.last)
      else []
  }

  function Bytes(h: Heap, c: Chain): seq<Byte>
  {
    if c == [] then [] else BufBytes(h, c[0]) + Bytes(h, c[1..])
  }

  /** How many buffers of a chain point into raw buffers. */
  function MemCount(h: Heap, c: Chain): nat
  {
    if c == [] then 0
    else (if c[0] < |h.bufs| && !h.bufs[c[0]].tempFile then 1 else 0) + MemCount(h, c[1..])
  }

  /** The bytes of a raw buffer not yet passed to the input filter. */
  function RawBytes(h: Heap, r: nat): seq<Byte>
  {
    if r < |h.raws| then Slice(h.raws[r].mem, h.raws[r].pos, h.raws[r].last) else []
  }

  function HeadBytes(h: Heap, c: Chain): seq<Byte>
  {
    if c == [] then [] else RawBytes(h, c[0])
  }

  // ---------------------------------------------------------------- well-formed chains

  /** A buffer holding a raw buffer: the two point at each other. */
  predicate MemBuf(h: Heap, b: nat)
  {
    && b < |h.bufs|
    && var x := h.bufs[b];
    && !x.tempFile && x.lastShadow && x.shadow == x.start
    && 0 <= x.start < |h.raws|
    && var r := h.raws[x.start];
    && r.shadow == b && !r.freed && x.pos <= x.last <= |r.mem|
  }

  predicate FileBuf(h: Heap, b: nat)
  {
    && b < |h.bufs|
    && var x := h.bufs[b];
    && x.tempFile && !x.lastShadow && !x.recycled && x.filePos <= x.fileLast <= |h.file|
  }

  predicate Live(h: Heap, b: nat) { MemBuf(h, b) || FileBuf(h, b) }

  predicate Disjoint(c: Chain, d: Chain) { forall b :: b in c ==> b !in d }

  predicate AllMem(h: Heap, c: Chain) { forall b :: b in c ==> MemBuf(h, b) }
  predicate AllFile(h: Heap, c: Chain) { forall b :: b in c ==> FileBuf(h, b) }
  predicate AllLive(h: Heap, c: Chain) { forall b :: b in c ==> Live(h, b) }
  predicate Allocated(h: Heap, c: Chain) { forall b :: b in c ==> b < |h.bufs| }

  /** No buffer is in two chains or twice in one. */
  predicate Separate(inq: Chain, out: Chain, busy: Chain, free: Chain)
  {
    && NoDup(inq) && NoDup(out) && NoDup(busy) && NoDup(free)
    && Disjoint(inq, out) && Disjoint(inq, busy) && Disjoint(inq, free)
    && Disjoint(out, busy) && Disjoint(out, free) && Disjoint(busy, free)
  }

  /** `in` holds memory buffers, `out` file buffers, `busy` both. */
  predicate Chains(h: Heap, inq: Chain, out: Chain, busy: Chain, free: Chain)
  {
    && AllMem(h, inq) && AllFile(h, out) && AllLive(h, busy) && Allocated(h, free)
    && Separate(inq, out, busy, free)
  }

  /** Every memory buffer of the chain still asks to be recycled. */
  predicate Recycled(h: Heap, c: Chain)
  {
    forall b :: b in c && b < |h.bufs| && !h.bufs[b].tempFile ==> h.bufs[b].recycled
  }

  predicate NonEmpty(h: Heap, c: Chain) { forall b :: b in c ==> BufBytes(h, b) != [] }

  /** A raw buffer nobody shadows. */
  predicate Unshadowed(h: Heap, r: nat)
  {
    && r < |h.raws|
    && h.raws[r].shadow == -1 && h.raws[r].pos == 0 && h.raws[r].last <= |h.raws[r].mem|
  }

  /** The list of free raw buffers: only its first one may be partly filled, and
      none is full. */
  predicate FreeRaws(h: Heap, c: Chain)
  {
    && NoDup(c)
    && (forall i :: 0 <= i < |c| ==> Unshadowed(h, c[i]) && h.raws[c[i]].last < |h.raws[c[i]].mem|)
    && (forall i :: 0 < i < |c| ==> h.raws[c[i]].last == 0)
  }

  predicate AllOfSize(h: Heap, size: nat) { forall r :: 0 <= r < |h.raws| ==> |h.raws[r].mem| == size }

  predicate NoneFreed(h: Heap) { forall r :: 0 <= r < |h.raws| ==> !h.raws[r].freed }

  // ---------------------------------------------------------------- framing

  /** A step from h to k leaves buffer b and what it stands for alone. */
  predicate Kept(h: Heap, k: Heap, b: nat)
  {
    && b < |h.bufs| <= |k.bufs|
    && k.bufs[b] == h.bufs[b]
    && (MemBuf(h, b) ==> MemBuf(k, b))
    && (FileBuf(h, b) ==> FileBuf(k, b))
    && (Live(h, b) ==> BufBytes(k, b) == BufBytes(h, b))
  }

  predicate KeptAll(h: Heap, k: Heap, c: Chain) { forall b :: b in c ==> Kept(h, k, b) }

  lemma {:induction false} KeptBytes(h: Heap, k: Heap, c: Chain)
    requires AllLive(h, c) && KeptAll(h, k, c)
    ensures Bytes(k, c) == Bytes(h, c) && MemCount(k, c) == MemCount(h, c)
    ensures AllLive(k, c) && (AllMem(h, c) ==> AllMem(k, c)) && (AllFile(h, c) ==> AllFile(k, c))
    ensures (Recycled(h, c) ==> Recycled(k, c)) && (NonEmpty(h, c) ==> NonEmpty(k, c))
  {
    if c != [] {
      assert c[0] in c && Kept(h, k, c[0]);
      KeptBytes(h, k, c[1..]);
    }
  }

  lemma {:induction false} BytesConcat(h: Heap, c: Chain, d: Chain)
    ensures Bytes(h, c + d) == Bytes(h, c) + Bytes(h, d)
    ensures MemCount(h, c + d) == MemCount(h, c) + MemCount(h, d)
  {
    if c == [] {
      assert c + d == d;
    } else {
      assert (c + d)[1..] == c[1..] + d;
      BytesConcat(h, c[1..], d);
    }
  }

  lemma {:induction false} MemCountOf(h: Heap, c: Chain)
    ensures AllMem(h, c) ==> MemCount(h, c) == |c|
    ensures AllFile(h, c) ==> MemCount(h, c) == 0
  {
    if c != [] {
      assert c[0] in c && forall b :: b in c[1..] ==> b in c;
      MemCountOf(h, c[1..]);
    }
  }

  /** Touching only raw buffers that nobody shadows. */
  lemma UnshadowedStep(h: Heap, k: Heap, c: Chain)
    requires AllLive(h, c) && k.bufs == h.bufs && k.file == h.file && |h.raws| <= |k.raws|
    requires forall r :: 0 <= r < |h.raws| && h.raws[r].shadow != -1 ==> k.raws[r] == h.raws[r]
    ensures KeptAll(h, k, c)
  {
  }

  lemma FileAppend(h: Heap, k: Heap, c: Chain)
    requires AllLive(h, c) && k.bufs == h.bufs && k.raws == h.raws && h.file <= k.file
    ensures KeptAll(h, k, c)
  {
    forall b | b in c ensures Kept(h, k, b) {
      assert Live(h, b);
      if FileBuf(h, b) {
        var x := h.bufs[b];
        assert k.file[x.filePos..x.fileLast] == h.file[x.filePos..x.fileLast];
      }
    }
  }

  /** Rewriting, or adding, one buffer outside the chain. */
  lemma OtherBuf(h: Heap, k: Heap, b: nat, c: Chain)
    requires AllLive(h, c) && b !in c && k.raws == h.raws && k.file == h.file && |h.bufs| <= |k.bufs|
    requires forall i :: 0 <= i < |h.bufs| && i != b ==> k.bufs[i] == h.bufs[i]
    ensures KeptAll(h, k, c)
  {
  }

  // ---------------------------------------------------------------- single steps

  /** ngx_chain_get_free_buf: the first free buffer, or a new one. */
  function TakeFree(h: Heap, free: Chain): (r: (nat, Heap, Chain))
    requires Allocated(h, free)
    ensures r.0 < |r.1.bufs|
  {
    if free != [] then (assert free[0] in free; (free[0], h, free[1..]))
    else (|h.bufs|, h.(bufs := h.bufs + [Buf(-1, 0, 0, -1, false, false, false, 0, 0)]), [])
  }

  lemma TakeFreeStep(h: Heap, inq: Chain, out: Chain, busy: Chain, free: Chain)
    requires Chains(h, inq, out, busy, free)
    ensures var (b, k, rest) := TakeFree(h, free);
            && b !in inq && b !in out && b !in busy && b !in rest
            && Chains(k, inq, out, busy, rest)
            && KeptAll(h, k, inq) && KeptAll(h, k, out) && KeptAll(h, k, busy)
  {
    var (b, k, rest) := TakeFree(h, free);
    if free != [] {
      assert forall x :: x in rest ==> x in free;
      assert free[0] in free;
      NoDupTail(free);
    }
    assert AllLive(h, inq) && AllLive(h, out);
    assert b !in inq && b !in out && b !in busy;
    OtherBuf(h, k, b, inq);
    OtherBuf(h, k, b, out);
    OtherBuf(h, k, b, busy);
  }

  lemma NoDupTail(c: Chain)
    requires NoDup(c) && c != []
    ensures NoDup(c[1..]) && c[0] !in c[1..]
  {
    forall i, j | 0 <= i < j < |c[1..]| ensures c[1..][i] != c[1..][j] {
      assert c[1..][i] == c[i + 1] && c[1..][j] == c[j + 1];
    }
    forall i | 0 <= i < |c[1..]| ensures c[1..][i] != c[0] {
      assert c[1..][i] == c[i + 1];
    }
  }

  lemma NoDupAppend(c: Chain, b: nat)
    requires NoDup(c) && b !in c
    ensures NoDup(c + [b]) && NoDup([b] + c)
  {
  }

  lemma NoDupParts(c: Chain, d: Chain)
    requires NoDup(c + d)
    ensures NoDup(c) && NoDup(d) && Disjoint(c, d)
  {
    var s := c + d;
    forall i, j | 0 <= i < j < |c| ensures c[i] != c[j] { assert s[i] != s[j]; }
    forall i, j | 0 <= i < j < |d| ensures d[i] != d[j] { assert s[|c| + i] != s[|c| + j]; }
    forall i, j | 0 <= i < |c| && 0 <= j < |d| ensures c[i] != d[j] {
      assert s[i] != s[|c| + j];
    }
  }

  lemma NoDupJoin(c: Chain, d: Chain)
    requires NoDup(c) && NoDup(d) && Disjoint(c, d)
    ensures NoDup(c + d)
  {
    var s := c + d;
    forall i, j | 0 <= i < j < |s| ensures s[i] != s[j] {
      if i < |c| <= j { assert c[i] in c && d[j - |c|] in d; }
    }
  }

  // ---------------------------------------------------------------- reading from the upstream

  /** The space left in a chain of raw buffers. */
  function RoomSize(h: Heap, c: Chain): nat
  {
    if c == [] then 0
    else (if c[0] < |h.raws| && h.raws[c[0]].last <= |h.raws[c[0]].mem|
          then |h.raws[c[0]].mem| - h.raws[c[0]].last else 0) + RoomSize(h, c[1..])
  }

  /** The first n bytes of that space, as they lie in memory. */
  function Room(h: Heap, c: Chain, n: nat): seq<Byte>
  {
    if c == [] || n == 0 || c[0] >= |h.raws| || h.raws[c[0]].last > |h.raws[c[0]].mem| then []
    else
      var r := h.raws[c[0]];
      var s := |r.mem| - r.last;
      if n >= s then r.mem[r.last..] + Room(h, c[1..], n - s) else r.mem[r.last..r.last + n]
  }

  /** recv_chain puts the data into the space of the chain, in order. */
  function Fill(h: Heap, c: Chain, data: seq<Byte>): Heap
    decreases c
  {
    if c == [] || data == [] || c[0] >= |h.raws| || h.raws[c[0]].last > |h.raws[c[0]].mem| then h
    else
      var r := h.raws[c[0]];
      var s := |r.mem| - r.last;
      if |data| >= s then
        Fill(h.(raws := h.raws[c[0] := r.(mem := r.mem[..r.last] + data[..s])]), c[1..], data[s..])
      else
        h.(raws := h.raws[c[0] := r.(mem := r.mem[..r.last] + data + r.mem[r.last + |data|..])])
  }

  /** Only memory past `last`, and only in the buffers of the chain, may differ. */
  predicate FilledOnly(h: Heap, k: Heap, c: Chain)
  {
    && k.bufs == h.bufs && k.file == h.file && |k.raws| == |h.raws|
    && (forall r :: 0 <= r < |h.raws| && r !in c ==> k.raws[r] == h.raws[r])
    && (forall r :: 0 <= r < |h.raws| ==>
          && k.raws[r] == h.raws[r].(mem := k.raws[r].mem)
          && |k.raws[r].mem| == |h.raws[r].mem|
          && (h.raws[r].last <= |h.raws[r].mem| ==> k.raws[r].mem[..h.raws[r].last] == h.raws[r].mem[..h.raws[r].last]))
  }

  lemma {:induction false} FillRoom(h: Heap, c: Chain, data: seq<Byte>)
    requires NoDup(c) && (forall r :: r in c ==> Unshadowed(h, r)) && |data| <= RoomSize(h, c)
    ensures FilledOnly(h, Fill(h, c, data), c)
    ensures Room(Fill(h, c, data), c, |data|) == data
    decreases c
  {
    hide Fill, Room, FilledOnly, RoomSize;
    if c == [] || data == [] {
      FillNothing(h, c, data);
    } else {
      assert c[0] in c;
      var r := h.raws[c[0]];
      var s := |r.mem| - r.last;
      if |data| >= s {
        var m := h.(raws := h.raws[c[0] := r.(mem := r.mem[..r.last] + data[..s])]);
        NoDupTail(c);
        FillTail(h, m, c, |data|);
        FillRoom(m, c[1..], data[s..]);
        FillHead(h, m, c, data);
      } else {
        FillLast(h, c, data);
      }
    }
  }

  lemma FillNothing(h: Heap, c: Chain, data: seq<Byte>)
    requires c == [] || data == []
    requires |data| <= RoomSize(h, c)
    ensures FilledOnly(h, Fill(h, c, data), c) && Room(Fill(h, c, data), c, |data|) == data
  {
  }

  lemma FillLast(h: Heap, c: Chain, data: seq<Byte>)
    requires c != [] && data != [] && Unshadowed(h, c[0]) && |data| < |h.raws[c[0]].mem| - h.raws[c[0]].last
    ensures FilledOnly(h, Fill(h, c, data), c) && Room(Fill(h, c, data), c, |data|) == data
  {
    var r := h.raws[c[0]];
    var k := Fill(h, c, data);
    assert k.raws[c[0]].mem[r.last..r.last + |data|] == data;
  }

  lemma FillTail(h: Heap, m: Heap, c: Chain, n: nat)
    requires NoDup(c) && c != [] && (forall r :: r in c ==> Unshadowed(h, r)) && Unshadowed(h, c[0])
    requires |m.raws| == |h.raws| && m.raws == h.raws[c[0] := m.raws[c[0]]]
    requires |h.raws[c[0]].mem| - h.raws[c[0]].last <= n <= RoomSize(h, c)
    ensures forall r :: r in c[1..] ==> Unshadowed(m, r)
    ensures n - (|h.raws[c[0]].mem| - h.raws[c[0]].last) <= RoomSize(m, c[1..])
  {
    NoDupTail(c);
    assert forall r :: r in c[1..] ==> r in c && r != c[0];
    RoomSizeSame(h, m, c[1..]);
    assert RoomSize(h, c) == |h.raws[c[0]].mem| - h.raws[c[0]].last + RoomSize(h, c[1..]);
  }

  /** The step of FillRoom that fills the first buffer up; k is the rest of the work. */
  lemma FillHead(h: Heap, m: Heap, c: Chain, data: seq<Byte>)
    requires NoDup(c) && c != [] && data != [] && Unshadowed(h, c[0])
    requires var r := h.raws[c[0]];
             var s := |r.mem| - r.last;
             && |data| >= s
             && m == h.(raws := h.raws[c[0] := r.(mem := r.mem[..r.last] + data[..s])])
             && FilledOnly(m, Fill(m, c[1..], data[s..]), c[1..])
             && Room(Fill(m, c[1..], data[s..]), c[1..], |data| - s) == data[s..]
    ensures FilledOnly(h, Fill(h, c, data), c)
    ensures Room(Fill(h, c, data), c, |data|) == data
  {
    hide Fill, Room, NoDup;
    NoDupTail(c);
    FillUnfold(h, c, data);
    var r := h.raws[c[0]];
    var s := |r.mem| - r.last;
    var k := Fill(m, c[1..], data[s..]);
    assert k.raws[c[0]] == m.raws[c[0]];
    assert k.raws[c[0]].mem[r.last..] == data[..s];
    RoomUnfold(k, c, |data|);
    assert data == data[..s] + data[s..];
    assert forall q :: q in c[1..] ==> q in c;
  }

  lemma FillUnfold(h: Heap, c: Chain, data: seq<Byte>)
    requires c != [] && data != [] && c[0] < |h.raws| && h.raws[c[0]].last <= |h.raws[c[0]].mem|
    ensures var r := h.raws[c[0]];
            var s := |r.mem| - r.last;
            |data| >= s ==>
              Fill(h, c, data)
              == Fill(h.(raws := h.raws[c[0] := r.(mem := r.mem[..r.last] + data[..s])]), c[1..], data[s..])
  {
  }

  lemma RoomUnfold(h: Heap, c: Chain, n: nat)
    requires c != [] && n > 0 && c[0] < |h.raws| && h.raws[c[0]].last <= |h.raws[c[0]].mem|
    ensures var r := h.raws[c[0]];
            var s := |r.mem| - r.last;
            Room(h, c, n) == if n >= s then r.mem[r.last..] + Room(h, c[1..], n - s) else r.mem[r.last..r.last + n]
  {
  }

  lemma {:induction false} RoomSizeSame(h: Heap, k: Heap, c: Chain)
    requires |k.raws| == |h.raws|
    requires forall r :: r in c && r < |h.raws| ==>
               k.raws[r].last == h.raws[r].last && |k.raws[r].mem| == |h.raws[r].mem|
    ensures RoomSize(k, c) == RoomSize(h, c)
  {
    if c != [] {
      assert c[0] in c;
      RoomSizeSame(h, k, c[1..]);
    }
  }

  lemma {:induction false} RoomSame(h: Heap, k: Heap, c: Chain, n: nat)
    requires |k.raws| == |h.raws|
    requires forall r :: r in c && r < |h.raws| ==> k.raws[r].last == h.raws[r].last && k.raws[r].mem == h.raws[r].mem
    ensures Room(k, c, n) == Room(h, c, n)
    decreases c
  {
    if c != [] && n > 0 {
      assert c[0] in c;
      if c[0] < |h.raws| && h.raws[c[0]].last <= |h.raws[c[0]].mem| && n >= |h.raws[c[0]].mem| - h.raws[c[0]].last {
        RoomSame(h, k, c[1..], n - (|h.raws[c[0]].mem| - h.raws[c[0]].last));
      }
    }
  }

  // ---------------------------------------------------------------- sending to the client

  function BufSize(h: Heap, b: nat): nat { |BufBytes(h, b)| }

  /** A buffer with its first n bytes sent. */
  function Consume(x: Buf, n: nat): Buf
  {
    if x.tempFile then x.(filePos := x.filePos + n) else x.(pos := x.pos + n)
  }

  /** The output filter sends n bytes of its chain: whole buffers from the front,
      then part of one.  What is left of the chain comes back. */
  function Send(h: Heap, c: Chain, n: nat): (Heap, Chain)
    requires AllLive(h, c)
    decreases c
  {
    if c == [] then (h, c)
    else
      assert c[0] in c && Live(h, c[0]);
      var s := BufSize(h, c[0]);
      var k := h.(bufs := h.bufs[c[0] := Consume(h.bufs[c[0]], if n >= s then s else n)]);
      ConsumeKeepsLive(h, c[0], if n >= s then s else n, c);
      if n >= s then Send(k, c[1..], n - s) else (k, c)
  }

  lemma ConsumeKeepsLive(h: Heap, b: nat, n: nat, c: Chain)
    requires Live(h, b) && n <= BufSize(h, b) && AllLive(h, c)
    ensures var k := h.(bufs := h.bufs[b := Consume(h.bufs[b], n)]);
            AllLive(k, c) && Live(k, b) && BufBytes(k, b) == BufBytes(h, b)[n..]
  {
    var k := h.(bufs := h.bufs[b := Consume(h.bufs[b], n)]);
    forall x | x in c ensures Live(k, x) { assert Live(h, x); }
  }

  /** Sending moves positions in the chain's buffers and touches nothing else. */
  predicate SentOnly(h: Heap, k: Heap, c: Chain)
  {
    && k.raws == h.raws && k.file == h.file && |k.bufs| == |h.bufs|
    && (forall b :: 0 <= b < |h.bufs| && b !in c ==> k.bufs[b] == h.bufs[b])
    && (forall b :: 0 <= b < |h.bufs| ==> k.bufs[b] == h.bufs[b].(pos := k.bufs[b].pos, filePos := k.bufs[b].filePos))
  }

  /** m and d are what sending n bytes of c leaves: the rest of the chain is its
      tail, and the buffers in front of that tail are used up. */
  predicate Splits(h: Heap, c: Chain, n: nat, m: Heap, d: Chain)
  {
    && SentOnly(h, m, c) && AllLive(m, c)
    && |d| <= |c| && d == c[|c| - |d|..]
    && n <= |Bytes(h, c)| && Bytes(m, d) == Bytes(h, c)[n..] && NonEmpty(m, d)
    && (forall i :: 0 <= i < |c| - |d| ==> BufBytes(m, c[i]) == [])
  }

  lemma {:induction false} SendSplits(h: Heap, c: Chain, n: nat)
    requires AllLive(h, c) && NoDup(c) && NonEmpty(h, c) && n <= |Bytes(h, c)|
    ensures Splits(h, c, n, Send(h, c, n).0, Send(h, c, n).1)
    decreases c
  {
    hide Splits, Bytes, NonEmpty, Live, MemBuf, FileBuf, Consume, NoDup;
    if c == [] {
      SendNothing(h, c, n);
    } else {
      assert c[0] in c && Live(h, c[0]);
      LiveIndex(h, c[0]);
      var s := BufSize(h, c[0]);
      var m := if n >= s then s else n;
      var k := h.(bufs := h.bufs[c[0] := Consume(h.bufs[c[0]], m)]);
      SendFirst(h, c, m);
      BytesUnfold(h, c);
      if n >= s {
        SendSplits(k, c[1..], n - s);
        SendHead(h, c, n, Send(k, c[1..], n - s).0, Send(k, c[1..], n - s).1);
      } else {
        SendPart(h, c, n);
      }
    }
  }

  lemma LiveIndex(h: Heap, b: nat)
    requires Live(h, b)
    ensures b < |h.bufs|
  {
  }

  lemma SendNothing(h: Heap, c: Chain, n: nat)
    requires c == [] && n <= |Bytes(h, c)|
    ensures Splits(h, c, n, h, c)
  {
  }

  /** Consuming part of the first buffer leaves the others alone. */
  lemma SendFirst(h: Heap, c: Chain, m: nat)
    requires AllLive(h, c) && NoDup(c) && NonEmpty(h, c) && c != [] && Live(h, c[0]) && m <= BufSize(h, c[0])
    ensures var k := h.(bufs := h.bufs[c[0] := Consume(h.bufs[c[0]], m)]);
            && AllLive(k, c) && AllLive(k, c[1..]) && NoDup(c[1..]) && NonEmpty(k, c[1..])
            && Bytes(k, c[1..]) == Bytes(h, c[1..]) && BufBytes(k, c[0]) == BufBytes(h, c[0])[m..]
            && SentOnly(h, k, c)
  {
    hide Bytes, Live, MemBuf, FileBuf;
    LiveIndex(h, c[0]);
    var k := h.(bufs := h.bufs[c[0] := Consume(h.bufs[c[0]], m)]);
    ConsumeKeepsLive(h, c[0], m, c);
    NoDupTail(c);
    assert forall b :: b in c[1..] ==> b in c;
    OtherBuf(h, k, c[0], c[1..]);
    KeptBytes(h, k, c[1..]);
  }

  lemma SendPart(h: Heap, c: Chain, n: nat)
    requires AllLive(h, c) && NoDup(c) && NonEmpty(h, c) && c != [] && Live(h, c[0]) && n < BufSize(h, c[0])
    requires n <= |Bytes(h, c)|
    ensures var k := h.(bufs := h.bufs[c[0] := Consume(h.bufs[c[0]], n)]); Splits(h, c, n, k, c)
  {
    hide Live, MemBuf, FileBuf, Bytes, Consume, BufBytes;
    LiveIndex(h, c[0]);
    var k := h.(bufs := h.bufs[c[0] := Consume(h.bufs[c[0]], n)]);
    SendFirst(h, c, n);
    assert c[0..] == c;
    BytesUnfold(h, c);
    BytesUnfold(k, c);
    assert Bytes(k, c) == BufBytes(h, c[0])[n..] + Bytes(h, c[1..]) == Bytes(h, c)[n..];
    forall b | b in c ensures BufBytes(k, b) != [] { assert b == c[0] || b in c[1..]; }
  }

  /** The step of SendSplits that pops the first buffer. */
  lemma SendHead(h: Heap, c: Chain, n: nat, m: Heap, d: Chain)
    requires AllLive(h, c) && NoDup(c) && c != [] && Live(h, c[0])
    requires BufSize(h, c[0]) <= n <= |Bytes(h, c)|
    requires var s := BufSize(h, c[0]);
             var k := h.(bufs := h.bufs[c[0] := Consume(h.bufs[c[0]], s)]);
             && SentOnly(h, k, c) && Live(k, c[0]) && BufBytes(k, c[0]) == []
             && Bytes(k, c[1..]) == Bytes(h, c[1..]) && Splits(k, c[1..], n - s, m, d)
    ensures Splits(h, c, n, m, d)
  {
    hide Bytes, NonEmpty, Live, MemBuf, FileBuf;
    LiveIndex(h, c[0]);
    NoDupTail(c);
    var s := BufSize(h, c[0]);
    var k := h.(bufs := h.bufs[c[0] := Consume(h.bufs[c[0]], s)]);
    LiveSame(k, m, c[0]);
    forall b | b in c ensures Live(m, b) { assert b == c[0] || b in c[1..]; }
    BytesUnfold(h, c);
    assert Bytes(h, c)[n..] == Bytes(h, c[1..])[n - s..];
    forall i | 0 <= i < |c| - |d| ensures BufBytes(m, c[i]) == [] {
      if i > 0 { assert c[i] == c[1..][i - 1]; }
    }
  }

  lemma BytesUnfold(h: Heap, c: Chain)
    requires c != []
    ensures Bytes(h, c) == BufBytes(h, c[0]) + Bytes(h, c[1..])
  {
  }

  lemma LiveSame(h: Heap, k: Heap, b: nat)
    requires Live(h, b) && k.raws == h.raws && k.file == h.file && |k.bufs| == |h.bufs| && k.bufs[b] == h.bufs[b]
    ensures Live(k, b) && BufBytes(k, b) == BufBytes(h, b)
  {
  }

  // ---------------------------------------------------------------- links between the two kinds of buffer

  lemma KeptTrans(h: Heap, k: Heap, m: Heap, c: Chain)
    requires AllLive(h, c) && KeptAll(h, k, c) && KeptAll(k, m, c)
    ensures KeptAll(h, m, c)
  {
    forall b | b in c ensures Kept(h, m, b) {
      assert Live(h, b) && Kept(h, k, b) && Kept(k, m, b);
    }
  }

  lemma KeptChains(h: Heap, k: Heap, inq: Chain, out: Chain, busy: Chain, free: Chain)
    requires Chains(h, inq, out, busy, free) && |h.bufs| <= |k.bufs|
    requires KeptAll(h, k, inq) && KeptAll(h, k, out) && KeptAll(h, k, busy)
    ensures Chains(k, inq, out, busy, free)
  {
    hide MemBuf, FileBuf, Separate;
    forall b | b in inq ensures MemBuf(k, b) { assert Kept(h, k, b); }
    forall b | b in out ensures FileBuf(k, b) { assert Kept(h, k, b); }
    forall b | b in busy ensures Live(k, b) { assert Live(h, b) && Kept(h, k, b); }
  }

  /** The input filter: buffer b becomes the shadow of raw buffer r. */
  function Shadowed(h: Heap, b: nat, r: nat): Heap
    requires b < |h.bufs| && r < |h.raws|
  {
    h.(bufs := h.bufs[b := Buf(r, h.raws[r].pos, h.raws[r].last, r, true, true, false, 0, 0)],
       raws := h.raws[r := h.raws[r].(shadow := b)])
  }

  lemma ShadowStep(h: Heap, b: nat, r: nat, inq: Chain, out: Chain, busy: Chain, free: Chain)
    requires Chains(h, inq, out, busy, free) && b < |h.bufs|
    requires b !in inq && b !in out && b !in busy && b !in free
    requires Unshadowed(h, r) && !h.raws[r].freed
    ensures var k := Shadowed(h, b, r);
            && Chains(k, inq + [b], out, busy, free)
            && KeptAll(h, k, inq) && KeptAll(h, k, out) && KeptAll(h, k, busy)
            && MemBuf(k, b) && BufBytes(k, b) == RawBytes(h, r)
            && Bytes(k, inq + [b]) == Bytes(h, inq) + RawBytes(h, r)
  {
    var k := Shadowed(h, b, r);
    assert AllLive(h, inq) && AllLive(h, out);
    forall c: Chain | AllLive(h, c) && b !in c ensures KeptAll(h, k, c) {
      forall x | x in c ensures Kept(h, k, x) { assert Live(h, x); }
    }
    KeptChains(h, k, inq, out, busy, free);
    NoDupAppend(inq, b);
    assert Bytes(k, [b]) == BufBytes(k, b) + Bytes(k, []) == BufBytes(k, b);
    BytesConcat(k, inq, [b]);
    KeptBytes(h, k, inq);
  }

  /** A buffer whose raw buffer, if it still holds one, can be given back. */
  predicate Releasable(h: Heap, b: nat)
  {
    b < |h.bufs| && (h.bufs[b].tempFile || !h.bufs[b].lastShadow || MemBuf(h, b))
  }

  predicate HoldsRaw(h: Heap, b: nat)
  {
    b < |h.bufs| && !h.bufs[b].tempFile && h.bufs[b].lastShadow
  }

  /** How many buffers of a chain still hold a raw buffer. */
  function Holders(h: Heap, c: Chain): nat
  {
    if c == [] then 0 else (if HoldsRaw(h, c[0]) then 1 else 0) + Holders(h, c[1..])
  }

  lemma {:induction false} HoldersConcat(h: Heap, c: Chain, d: Chain)
    ensures Holders(h, c + d) == Holders(h, c) + Holders(h, d)
  {
    if c == [] {
      assert c + d == d;
    } else {
      assert (c + d)[1..] == c[1..] + d;
      HoldersConcat(h, c[1..], d);
    }
  }

  lemma {:induction false} HoldersSame(h: Heap, k: Heap, c: Chain)
    requires forall b :: b in c ==> (HoldsRaw(h, b) <==> HoldsRaw(k, b))
    ensures Holders(h, c) == Holders(k, c)
  {
    if c != [] {
      assert c[0] in c;
      HoldersSame(h, k, c[1..]);
    }
  }

  lemma {:induction false} HoldersOfLive(h: Heap, c: Chain)
    ensures AllLive(h, c) ==> Holders(h, c) == MemCount(h, c)
    ensures (forall b :: b in c ==> !HoldsRaw(h, b)) ==> Holders(h, c) == 0
  {
    if c != [] {
      assert c[0] in c && forall b :: b in c[1..] ==> b in c;
      HoldersOfLive(h, c[1..]);
    }
  }

  /** Raw buffer r emptied and unlinked, buffer b let go of it. */
  function Unlinked(h: Heap, b: nat, r: nat): Heap
    requires b < |h.bufs| && r < |h.raws|
  {
    h.(bufs := h.bufs[b := h.bufs[b].(lastShadow := false, shadow := -1, recycled := false)],
       raws := h.raws[r := h.raws[r].(pos := 0, last := 0, shadow := -1)])
  }

  /** Letting go of one buffer's raw buffer leaves every other buffer alone. */
  lemma UnlinkStep(h: Heap, k: Heap, b: nat, c: Chain)
    requires MemBuf(h, b) && AllLive(h, c) && b !in c
    requires k.file == h.file && |k.bufs| == |h.bufs| && |k.raws| == |h.raws|
    requires forall i :: 0 <= i < |h.bufs| && i != b ==> k.bufs[i] == h.bufs[i]
    requires forall r :: 0 <= r < |h.raws| && r != h.bufs[b].start ==> k.raws[r] == h.raws[r]
    ensures KeptAll(h, k, c)
  {
    forall x | x in c ensures Kept(h, k, x) { assert Live(h, x); }
  }

  /** The buffers of the chain hold no raw buffer. */
  predicate Clean(h: Heap, c: Chain)
  {
    forall b :: b in c ==> !HoldsRaw(h, b)
  }

  /** The whole effect of the input filter on a raw buffer with data. */
  lemma InputStep(h: Heap, r: nat, inq: Chain, out: Chain, busy: Chain, free: Chain)
    requires Chains(h, inq, out, busy, free) && Unshadowed(h, r) && !h.raws[r].freed
    ensures var (b, k, rest) := TakeFree(h, free);
            var m := Shadowed(k, b, r);
            && Chains(m, inq + [b], out, busy, rest)
            && KeptAll(h, m, busy) && KeptAll(h, m, out)
            && k.raws == h.raws && k.file == h.file
            && Bytes(m, inq + [b]) == Bytes(h, inq) + RawBytes(h, r)
            && (Recycled(h, inq) ==> Recycled(m, inq + [b]))
            && (Clean(h, free) ==> Clean(m, rest))
            && (NonEmpty(h, inq) && RawBytes(h, r) != [] ==> NonEmpty(m, inq + [b]))
  {
    hide Live, MemBuf, FileBuf, Separate, Bytes, BufBytes, Kept, RawBytes;
    var (b, k, rest) := TakeFree(h, free);
    var m := Shadowed(k, b, r);
    TakeFreeStep(h, inq, out, busy, free);
    ShadowStep(k, b, r, inq, out, busy, rest);
    MemIsLive(h, inq);
    KeptTrans(h, k, m, inq);
    FileIsLive(h, out);
    KeptTrans(h, k, m, out);
    KeptTrans(h, k, m, busy);
    KeptBytes(h, k, inq);
    KeptRecycled(h, m, inq);
    KeptBytes(h, m, inq);
    RawSame(h, k, r);
    assert forall x :: x in rest ==> x in free && x != b;
  }

  lemma MemIsLive(h: Heap, c: Chain)
    requires AllMem(h, c)
    ensures AllLive(h, c)
  {
  }

  lemma FileIsLive(h: Heap, c: Chain)
    requires AllFile(h, c)
    ensures AllLive(h, c)
  {
  }

  lemma KeptRecycled(h: Heap, k: Heap, c: Chain)
    requires AllLive(h, c) && KeptAll(h, k, c)
    ensures Recycled(h, c) ==> Recycled(k, c)
  {
    forall b | b in c && Recycled(h, c) && b < |k.bufs| && !k.bufs[b].tempFile ensures k.bufs[b].recycled {
      assert Kept(h, k, b);
    }
  }

  lemma RawSame(h: Heap, k: Heap, r: nat)
    requires k.raws == h.raws
    ensures RawBytes(k, r) == RawBytes(h, r)
  {
  }

  lemma ChainsAllocated(h: Heap, inq: Chain, out: Chain, busy: Chain, free: Chain)
    requires Chains(h, inq, out, busy, free)
    ensures Allocated(h, free)
  {
  }

  // ---------------------------------------------------------------- emptying a chain

  /** Buffer b lost its shadow, and its raw buffer, if it had one, was emptied. */
  predicate Released(h: Heap, k: Heap, b: nat)
  {
    && b < |h.bufs| == |k.bufs| && |k.raws| == |h.raws| && k.file == h.file
    && (forall i :: 0 <= i < |h.bufs| && i != b ==> k.bufs[i] == h.bufs[i])
    && k.bufs[b] == h.bufs[b].(lastShadow := false, shadow := -1)
    && (forall r :: 0 <= r < |h.raws| ==>
          k.raws[r] == if h.bufs[b].lastShadow && r == h.bufs[b].start
                       then h.raws[r].(pos := 0, last := 0, shadow := -1) else h.raws[r])
  }

  lemma ReleasedKeeps(h: Heap, k: Heap, b: nat, c: Chain)
    requires Released(h, k, b) && (h.bufs[b].lastShadow ==> MemBuf(h, b)) && AllLive(h, c) && b !in c
    ensures KeptAll(h, k, c)
  {
    forall x | x in c ensures Kept(h, k, x) { assert Live(h, x); }
  }

  lemma ReleasedOthers(h: Heap, k: Heap, b: nat, c: Chain)
    requires Released(h, k, b) && (h.bufs[b].lastShadow ==> MemBuf(h, b)) && b !in c
    requires forall x :: x in c ==> Releasable(h, x)
    ensures forall x :: x in c ==> Releasable(k, x)
    ensures Holders(k, c) == Holders(h, c)
  {
    HoldersSame(k, h, c);
  }

  lemma ReleasedSizes(h: Heap, k: Heap, b: nat, size: nat)
    requires Released(h, k, b) && AllOfSize(h, size)
    ensures AllOfSize(k, size) && (NoneFreed(h) ==> NoneFreed(k))
  {
  }

  /** The pushed buffer in front of the free chain, the popped chain shorter. */
  lemma ChainsPop(h: Heap, inq: Chain, out: Chain, c: Chain, free: Chain)
    requires Chains(h, inq, out, c, free) && c != []
    ensures Chains(h, inq, out, c[1..], [c[0]] + free)
    ensures c[0] !in inq && c[0] !in out && c[0] !in c[1..] && c[0] !in free && Live(h, c[0])
  {
    assert c[0] in c;
    NoDupTail(c);
    NoDupAppend(free, c[0]);
    assert forall b :: b in c[1..] ==> b in c;
    forall b | b in [c[0]] + free ensures b < |h.bufs| { assert b == c[0] || b in free; }
  }

  // ---------------------------------------------------------------- after the output filter

  lemma SentKeeps(h: Heap, k: Heap, c: Chain, d: Chain)
    requires SentOnly(h, k, c) && AllLive(h, d) && Disjoint(d, c)
    ensures KeptAll(h, k, d)
  {
    forall x | x in d ensures Kept(h, k, x) { assert Live(h, x); }
  }

  lemma {:induction false} SentCounts(h: Heap, k: Heap, c: Chain, d: Chain)
    requires SentOnly(h, k, c)
    ensures MemCount(k, d) == MemCount(h, d) && Holders(k, d) == Holders(h, d)
    ensures Recycled(h, d) ==> Recycled(k, d)
  {
    if d != [] {
      SentCounts(h, k, c, d[1..]);
      forall b | b in d && Recycled(h, d) && b < |k.bufs| && !k.bufs[b].tempFile ensures k.bufs[b].recycled {
        assert k.bufs[b].recycled == h.bufs[b].recycled;
      }
    }
  }

  /** After sending from busy + more, the chains are as before with all of it busy. */
  lemma SentChains(h: Heap, k: Heap, inq: Chain, out: Chain, c: Chain, free: Chain)
    requires Chains(h, inq, out, c, free) && SentOnly(h, k, c) && AllLive(k, c)
    ensures Chains(k, inq, out, c, free)
    ensures KeptAll(h, k, inq) && KeptAll(h, k, out)
  {
    hide Live, MemBuf, FileBuf, Kept;
    MemIsLive(h, inq);
    FileIsLive(h, out);
    SentKeeps(h, k, c, inq);
    SentKeeps(h, k, c, out);
    KeptBytes(h, k, inq);
    KeptBytes(h, k, out);
  }

  /** A used up buffer rewound by ngx_chain_update_chains. */
  function Rewound(h: Heap, b: nat): Heap
    requires b < |h.bufs|
  {
    h.(bufs := h.bufs[b := h.bufs[b].(pos := 0, last := 0)])
  }

  lemma RewindStep(h: Heap, inq: Chain, out: Chain, c: Chain, free: Chain)
    requires Chains(h, inq, out, c, free) && c != [] && c[0] < |h.bufs|
    ensures var k := Rewound(h, c[0]);
            && Chains(k, inq, out, c[1..], [c[0]] + free)
            && KeptAll(h, k, inq) && KeptAll(h, k, out) && KeptAll(h, k, c[1..])
            && Releasable(k, c[0]) && (HoldsRaw(k, c[0]) <==> HoldsRaw(h, c[0]))
            && (forall x :: x in free ==> (Releasable(h, x) ==> Releasable(k, x)))
            && Holders(k, [c[0]] + free) + MemCount(k, c[1..]) == Holders(h, free) + MemCount(h, c)
  {
    hide Chains, Holders, MemCount, Separate, KeptAll;
    var k := Rewound(h, c[0]);
    ChainsPop(h, inq, out, c, free);
    ChainsLive(h, inq, out, c[1..], [c[0]] + free);
    assert Live(h, c[0]);
    OtherBuf(h, k, c[0], inq);
    OtherBuf(h, k, c[0], out);
    OtherBuf(h, k, c[0], c[1..]);
    KeptChains(h, k, inq, out, c[1..], [c[0]] + free);
    KeptBytes(h, k, c[1..]);
    CountsUnfold(h, k, c, free);
    HoldersSame(h, k, free);
  }

  lemma ChainsLive(h: Heap, inq: Chain, out: Chain, c: Chain, free: Chain)
    requires Chains(h, inq, out, c, free)
    ensures AllLive(h, inq) && AllLive(h, out) && AllLive(h, c)
    ensures AllMem(h, inq) && AllFile(h, out) && Allocated(h, free)
    ensures NoDup(inq) && NoDup(c) && NoDup(free)
  {
  }

  lemma CountsUnfold(h: Heap, k: Heap, c: Chain, free: Chain)
    requires c != [] && Live(h, c[0])
    ensures MemCount(h, c) == (if HoldsRaw(h, c[0]) then 1 else 0) + MemCount(h, c[1..])
    ensures Holders(k, [c[0]] + free) == (if HoldsRaw(k, c[0]) then 1 else 0) + Holders(k, free)
  {
    assert ([c[0]] + free)[1..] == free;
  }

  /** One buffer of a drained chain: let go of its raw buffer and put it on `free`. */
  lemma DrainStep(h: Heap, k: Heap, inq: Chain, out: Chain, c: Chain, free: Chain)
    requires Chains(h, inq, out, c, free) && c != [] && Released(h, k, c[0])
    ensures Chains(k, inq, out, c[1..], [c[0]] + free)
    ensures KeptAll(h, k, inq) && KeptAll(h, k, out)
    ensures MemCount(h, c) == (if h.bufs[c[0]].lastShadow then 1 else 0) + MemCount(k, c[1..])
  {
    hide Chains, Holders, MemCount, Separate, Kept;
    ChainsPop(h, inq, out, c, free);
    ChainsLive(h, inq, out, c[1..], [c[0]] + free);
    assert Live(h, c[0]);
    ReleasedKeeps(h, k, c[0], inq);
    ReleasedKeeps(h, k, c[0], out);
    ReleasedKeeps(h, k, c[0], c[1..]);
    KeptChains(h, k, inq, out, c[1..], [c[0]] + free);
    KeptBytes(h, k, c[1..]);
    CountsUnfold(h, k, c, free);
  }

  /** An idle `busy` lets another chain take its place. */
  lemma ChainsShift(h: Heap, inq: Chain, out: Chain, free: Chain)
    ensures Chains(h, inq, out, [], free) ==> Chains(h, inq, [], out, free)
    ensures Chains(h, inq, [], [], free) ==> Chains(h, [], [], inq, free)
  {
  }

  /** What the collecting loop moves: all of `out`, then the first j of `in`. */
  lemma CollectChains(h: Heap, inq: Chain, out: Chain, busy: Chain, free: Chain, j: nat)
    requires Chains(h, inq, out, busy, free) && j <= |inq|
    ensures Chains(h, inq[j..], [], busy + (out + inq[..j]), free)
  {
    hide MemBuf, FileBuf, Live, Separate, NoDup, Disjoint;
    forall x | x in busy + (out + inq[..j]) ensures Live(h, x) {
      assert x in busy || x in out || x in inq;
      MemOrFile(h, x);
    }
    CollectSeparate(inq, out, busy, free, j);
  }

  lemma CollectSeparate(inq: Chain, out: Chain, busy: Chain, free: Chain, j: nat)
    requires Separate(inq, out, busy, free) && j <= |inq|
    ensures Separate(inq[j..], [], busy + (out + inq[..j]), free)
  {
    hide NoDup;
    var a, b := inq[..j], inq[j..];
    assert inq == a + b;
    assert forall x :: x in a || x in b ==> x in inq;
    NoDupParts(a, b);
    NoDupJoin(out, a);
    NoDupJoin(busy, out + a);
    NoDupEmpty();
  }

  lemma NoDupEmpty()
    ensures NoDup([])
  {
  }

  lemma CollectCounts(h: Heap, inq: Chain, out: Chain, busy: Chain, j: nat)
    requires AllMem(h, inq) && AllFile(h, out) && j <= |inq|
    ensures Bytes(h, out + inq[..j]) + Bytes(h, inq[j..]) == Bytes(h, out) + Bytes(h, inq)
    ensures MemCount(h, busy + (out + inq[..j])) == MemCount(h, busy) + j
    ensures Bytes(h, busy + (out + inq[..j])) == Bytes(h, busy) + Bytes(h, out + inq[..j])
  {
    hide MemBuf, FileBuf, Bytes, MemCount;
    var a, b := inq[..j], inq[j..];
    assert inq == a + b;
    BytesConcat(h, a, b);
    BytesConcat(h, out, a);
    BytesConcat(h, busy, out + a);
    MemCountOf(h, a);
    MemCountOf(h, out);
    assert forall x :: x in a ==> x in inq;
  }

  lemma MemOrFile(h: Heap, b: nat)
    ensures MemBuf(h, b) || FileBuf(h, b) <==> Live(h, b)
  {
  }

  /** Two different memory buffers never share a raw buffer. */
  lemma StartsDiffer(h: Heap, b: nat, c: nat)
    requires MemBuf(h, b) && MemBuf(h, c) && h.bufs[b].start == h.bufs[c].start
    ensures b == c
  {
  }

  // ---------------------------------------------------------------- spooling

  /** A spooled buffer lets go of its emptied raw buffer and goes to `free`. */
  lemma SpoolStep(h: Heap, c: Chain, out: Chain, busy: Chain, free: Chain)
    requires Chains(h, c, out, busy, free) && c != [] && MemBuf(h, c[0])
    ensures var k := Unlinked(h, c[0], h.bufs[c[0]].start);
            && Chains(k, c[1..], out, busy, [c[0]] + free)
            && KeptAll(h, k, c[1..]) && KeptAll(h, k, out) && KeptAll(h, k, busy)
            && (Clean(h, free) ==> Clean(k, [c[0]] + free))
  {
    hide Chains, Separate, MemBuf;
    SpoolPop(h, c, out, busy, free);
    var b := c[0];
    MemIndex(h, b);
    var k := Unlinked(h, b, h.bufs[b].start);
    var rest, free1 := c[1..], [b] + free;
    ChainsLive(h, rest, out, busy, free1);
    UnlinkStep(h, k, b, rest);
    UnlinkStep(h, k, b, out);
    UnlinkStep(h, k, b, busy);
    KeptChains(h, k, rest, out, busy, free1);
    if Clean(h, free) {
      forall x | x in free1 ensures !HoldsRaw(k, x) {
        if x != b { assert x in free; assert !HoldsRaw(h, x); }
      }
    }
  }

  lemma MemIndex(h: Heap, b: nat)
    requires MemBuf(h, b)
    ensures b < |h.bufs| && 0 <= h.bufs[b].start < |h.raws| && h.bufs[b].shadow == h.bufs[b].start
    ensures h.bufs[b].lastShadow && h.raws[h.bufs[b].start].shadow == b && !h.raws[h.bufs[b].start].freed
    ensures h.bufs[b].pos <= h.bufs[b].last
    ensures BufSize(h, b) == h.bufs[b].last - h.bufs[b].pos
  {
  }

  lemma SpoolPop(h: Heap, c: Chain, out: Chain, busy: Chain, free: Chain)
    requires Chains(h, c, out, busy, free) && c != []
    ensures Chains(h, c[1..], out, busy, [c[0]] + free)
    ensures c[0] !in c[1..] && c[0] !in out && c[0] !in busy && c[0] !in free
  {
    assert c[0] in c && MemBuf(h, c[0]);
    NoDupTail(c);
    NoDupAppend(free, c[0]);
    assert forall b :: b in c[1..] ==> b in c;
    forall b | b in [c[0]] + free ensures b < |h.bufs| { assert b == c[0] || b in free; }
  }

  /** A new file buffer at the end of `out`. */
  function NewFileBuf(h: Heap, b: nat, filePos: nat, fileLast: nat): Heap
    requires b < |h.bufs|
  {
    h.(bufs := h.bufs[b := Buf(-1, 0, 0, -1, false, false, true, filePos, fileLast)])
  }

  lemma FileBufStep(h: Heap, b: nat, i: nat, j: nat, c: Chain, out: Chain, busy: Chain, free: Chain)
    requires Chains(h, c, out, busy, free) && b < |h.bufs| && i < j <= |h.file|
    requires b !in c && b !in out && b !in busy && b !in free
    ensures var k := NewFileBuf(h, b, i, j);
            && Chains(k, c, out + [b], busy, free)
            && KeptAll(h, k, c) && KeptAll(h, k, out) && KeptAll(h, k, busy)
            && FileBuf(k, b) && BufBytes(k, b) == h.file[i..j]
            && Bytes(k, out + [b]) == Bytes(h, out) + h.file[i..j]
            && (Clean(h, free) ==> Clean(k, free))
  {
    hide MemBuf, Separate, Live;
    var k := NewFileBuf(h, b, i, j);
    MemIsLive(h, c);
    FileIsLive(h, out);
    OtherBuf(h, k, b, c);
    OtherBuf(h, k, b, out);
    OtherBuf(h, k, b, busy);
    KeptChains(h, k, c, out, busy, free);
    SeparateAppend(c, out, busy, free, b);
    assert Bytes(k, [b]) == BufBytes(k, b) + Bytes(k, []) == BufBytes(k, b);
    BytesConcat(k, out, [b]);
    KeptBytes(h, k, out);
    if Clean(h, free) {
      forall x | x in free ensures !HoldsRaw(k, x) { assert !HoldsRaw(h, x); }
    }
  }

  lemma SeparateAppend(c: Chain, out: Chain, busy: Chain, free: Chain, b: nat)
    requires Separate(c, out, busy, free) && b !in c && b !in out && b !in busy && b !in free
    ensures Separate(c, out + [b], busy, free)
  {
    NoDupAppend(out, b);
  }

  /** The last buffer of `out` made to cover what was just appended to the file. */
  lemma FileGrowStep(h: Heap, last: nat, j: nat, c: Chain, out: Chain, busy: Chain, free: Chain)
    requires Chains(h, c, out, busy, free) && out != [] && last == out[|out| - 1]
    requires last < |h.bufs| && h.bufs[last].fileLast <= j <= |h.file|
    ensures var i := h.bufs[last].fileLast;
            var k := h.(bufs := h.bufs[last := h.bufs[last].(fileLast := j)]);
            && Chains(k, c, out, busy, free)
            && KeptAll(h, k, c) && KeptAll(h, k, out[..|out| - 1]) && KeptAll(h, k, busy)
            && i <= j && FileBuf(h, last) && FileBuf(k, last) && BufBytes(k, last) == BufBytes(h, last) + h.file[i..j]
            && Bytes(k, out) == Bytes(h, out) + h.file[i..j]
            && (Clean(h, free) ==> Clean(k, free))
  {
    hide MemBuf, Live, Separate, Bytes, Kept;
    var i := h.bufs[last].fileLast;
    var k := h.(bufs := h.bufs[last := h.bufs[last].(fileLast := j)]);
    var front := out[..|out| - 1];
    SeparateLast(c, out, busy, free, last);
    assert out == front + [last] && last in out && FileBuf(h, last);
    assert forall x :: x in front ==> x in out;
    MemIsLive(h, c);
    FileIsLive(h, out);
    OtherBuf(h, k, last, c);
    OtherBuf(h, k, last, front);
    OtherBuf(h, k, last, busy);
    KeptBytes(h, k, c);
    KeptBytes(h, k, busy);
    GrownSlice(h.file, h.bufs[last].filePos, i, j);
    LastBytes(h, k, front, last, h.file[i..j]);
    forall x | x in out ensures FileBuf(k, x) { assert x == last || x in front; }
    if Clean(h, free) {
      forall x | x in free ensures !HoldsRaw(k, x) { assert !HoldsRaw(h, x); }
    }
  }

  lemma LastBytes(h: Heap, k: Heap, front: Chain, last: nat, more: seq<Byte>)
    requires AllFile(h, front) && KeptAll(h, k, front) && BufBytes(k, last) == BufBytes(h, last) + more
    ensures Bytes(k, front + [last]) == Bytes(h, front + [last]) + more
    ensures AllFile(k, front)
  {
    hide FileBuf, Live, BufBytes, Bytes, KeptAll;
    FileIsLive(h, front);
    KeptBytes(h, k, front);
    BytesConcat(h, front, [last]);
    BytesConcat(k, front, [last]);
    BytesOne(h, last);
    BytesOne(k, last);
  }

  lemma SeparateLast(c: Chain, out: Chain, busy: Chain, free: Chain, b: nat)
    requires Separate(c, out, busy, free) && out != [] && b == out[|out| - 1]
    ensures b !in c && b !in busy && b !in free && b !in out[..|out| - 1]
  {
    assert b in out;
    var front := out[..|out| - 1];
    forall j | 0 <= j < |front| ensures front[j] != b { assert front[j] == out[j]; }
    assert forall x :: x in c ==> x != b;
  }

  lemma GrownSlice(f: seq<Byte>, p: nat, i: nat, j: nat)
    requires p <= i <= j <= |f|
    ensures Slice(f, p, j) == Slice(f, p, i) + f[i..j]
  {
  }

  lemma BytesOne(h: Heap, b: nat)
    ensures Bytes(h, [b]) == BufBytes(h, b)
  {
    assert [b][1..] == [];
    assert Bytes(h, [b]) == BufBytes(h, b) + Bytes(h, []);
  }

  /** The emptied raw buffer of a spooled one at the end of the free list. */
  lemma SpoolFreeRaw(h: Heap, b: nat, fr: Chain, size: nat)
    requires MemBuf(h, b) && FreeRaws(h, fr) && AllOfSize(h, size) && size > 0
    ensures var r := h.bufs[b].start;
            var k := Unlinked(h, b, r);
            && FreeRaws(k, fr + [r]) && AllOfSize(k, size) && (NoneFreed(h) ==> NoneFreed(k))
            && HeadBytes(k, fr + [r]) == HeadBytes(h, fr)
            && |k.raws| == |h.raws| && k.file == h.file
  {
    hide Slice;
    var r := h.bufs[b].start;
    var k := Unlinked(h, b, r);
    assert forall i :: 0 <= i < |fr| ==> Unshadowed(h, fr[i]) && fr[i] != r;
    EmptySlice(k.raws[r].mem);
    NoDupAppend(fr, r);
  }

  lemma EmptySlice(s: seq<Byte>)
    ensures Slice(s, 0, 0) == []
  {
  }

  lemma SameKept(h: Heap, inq: Chain, out: Chain, busy: Chain, free: Chain)
    requires Chains(h, inq, out, busy, free)
    ensures KeptAll(h, h, inq) && KeptAll(h, h, out) && KeptAll(h, h, busy)
  {
  }

  // ---------------------------------------------------------------- the final flush

  /** Only `recycled` flags were cleared. */
  predicate Unrecycled(h: Heap, k: Heap)
  {
    && k.raws == h.raws && k.file == h.file && |k.bufs| == |h.bufs|
    && (forall b :: 0 <= b < |h.bufs| ==>
          k.bufs[b] == h.bufs[b].(recycled := k.bufs[b].recycled) && (k.bufs[b].recycled ==> h.bufs[b].recycled))
  }

  lemma {:induction false} UnrecycledBytes(h: Heap, k: Heap, c: Chain)
    requires Unrecycled(h, k)
    ensures Bytes(k, c) == Bytes(h, c)
  {
    if c != [] { UnrecycledBytes(h, k, c[1..]); }
  }

  lemma UnrecycledChains(h: Heap, k: Heap, inq: Chain, out: Chain, busy: Chain, free: Chain)
    requires Chains(h, inq, out, busy, free) && Unrecycled(h, k)
    ensures Chains(k, inq, out, busy, free)
    ensures forall c: Chain :: NonEmpty(h, c) ==> NonEmpty(k, c)
    ensures Clean(h, free) ==> Clean(k, free)
  {
    hide Separate;
    assert forall b :: BufBytes(k, b) == BufBytes(h, b);
  }

  /** Sending keeps every chain a chain, wherever its buffers are. */
  lemma SentChainsAll(h: Heap, k: Heap, c: Chain, inq: Chain, out: Chain, busy: Chain, free: Chain)
    requires Chains(h, inq, out, busy, free) && SentOnly(h, k, c) && AllLive(k, c)
    ensures Chains(k, inq, out, busy, free)
  {
    hide Separate;
    forall b | Live(h, b) ensures Live(k, b) && (MemBuf(h, b) ==> MemBuf(k, b)) && (FileBuf(h, b) ==> FileBuf(k, b)) {
      if b in c { assert Live(k, b); }
    }
  }

  lemma ChainsDrop(h: Heap, inq: Chain, out: Chain, busy: Chain, free: Chain)
    requires Chains(h, inq, out, busy, free)
    ensures Chains(h, inq, [], busy, free) && Chains(h, [], out, busy, free) && Chains(h, [], [], busy, free)
  {
  }

  // ---------------------------------------------------------------- received data on its way

  /** recv_chain moves no position, so the free list stays what it was. */
  lemma FilledKeeps(h: Heap, k: Heap, c: Chain, fr: Chain, size: nat)
    requires FilledOnly(h, k, c) && FreeRaws(h, fr) && (forall r :: r in c ==> Unshadowed(h, r))
    ensures FreeRaws(k, fr) && HeadBytes(k, fr) == HeadBytes(h, fr)
    ensures (AllOfSize(h, size) ==> AllOfSize(k, size)) && (NoneFreed(h) ==> NoneFreed(k))
    ensures forall r :: 0 <= r < |h.raws| && h.raws[r].shadow != -1 ==> k.raws[r] == h.raws[r]
    ensures RoomSize(k, c) == RoomSize(h, c)
  {
    RoomSizeSame(h, k, c);
    if fr != [] {
      assert Unshadowed(h, fr[0]);
      assert k.raws[fr[0]].mem[..h.raws[fr[0]].last] == h.raws[fr[0]].mem[..h.raws[fr[0]].last];
    }
  }

  lemma {:induction false} RoomFront(h: Heap, c: Chain, d: Chain, n: nat)
    requires (forall r :: r in c ==> Unshadowed(h, r)) && n <= RoomSize(h, c)
    ensures Room(h, c + d, n) == Room(h, c, n) && n <= RoomSize(h, c + d)
    decreases c
  {
    if c != [] {
      assert c[0] in c && Unshadowed(h, c[0]);
      assert (c + d)[1..] == c[1..] + d && (c + d)[0] == c[0];
      var s := |h.raws[c[0]].mem| - h.raws[c[0]].last;
      RoomFront(h, c[1..], d, if n >= s then n - s else 0);
    }
  }

  /** Raw buffer r filled up to `last`. */
  function Advanced(h: Heap, r: nat, last: nat): Heap
    requires r < |h.raws|
  {
    h.(raws := h.raws[r := h.raws[r].(last := last)])
  }

  /** The first buffer of the chain takes all it has room for. */
  lemma FullStep(h: Heap, c: Chain, n: nat, size: nat)
    requires c != [] && FreeRaws(h, c) && AllOfSize(h, size) && NoneFreed(h)
    requires n > 0 && n <= RoomSize(h, c) && n >= size - h.raws[c[0]].last
    ensures var k := Advanced(h, c[0], size);
            && Unshadowed(k, c[0]) && !k.raws[c[0]].freed && k.raws[c[0]].last > 0
            && FreeRaws(k, c[1..]) && c[0] !in c[1..] && AllOfSize(k, size) && NoneFreed(k)
            && HeadBytes(k, c[1..]) == []
            && n - (size - h.raws[c[0]].last) <= RoomSize(k, c[1..])
            && HeadBytes(h, c) + Room(h, c, n) == RawBytes(k, c[0]) + Room(k, c[1..], n - (size - h.raws[c[0]].last))
            && |RawBytes(k, c[0])| == size
  {
    hide Room, RoomSize, NoDup;
    assert Unshadowed(h, c[0]);
    NoDupTail(c);
    var k := Advanced(h, c[0], size);
    assert k.raws[c[0]].mem == h.raws[c[0]].mem && |h.raws[c[0]].mem| == size;
    FullBytes(h, c, n, size);
    RoomSizeUnfold(h, c);
    RoomSizeSame(h, k, c[1..]);
    if |c| > 1 { EmptySlice(k.raws[c[1]].mem); assert k.raws[c[1]].last == 0 && Unshadowed(h, c[1]); }
    forall i | 0 <= i < |c[1..]| ensures Unshadowed(k, c[1..][i]) && k.raws[c[1..][i]].last == 0 {
      assert c[1..][i] == c[i + 1] && Unshadowed(h, c[i + 1]);
    }
  }

  lemma FullBytes(h: Heap, c: Chain, n: nat, size: nat)
    requires c != [] && FreeRaws(h, c) && AllOfSize(h, size)
    requires c[0] < |h.raws| && n > 0 && n >= size - h.raws[c[0]].last
    ensures var k := Advanced(h, c[0], size);
            && HeadBytes(h, c) + Room(h, c, n) == RawBytes(k, c[0]) + Room(k, c[1..], n - (size - h.raws[c[0]].last))
            && |RawBytes(k, c[0])| == size
  {
    hide Room, RoomSize, NoDup;
    assert Unshadowed(h, c[0]);
    NoDupTail(c);
    var r := h.raws[c[0]];
    var k := Advanced(h, c[0], size);
    assert k.raws[c[0]].mem == r.mem && |r.mem| == size;
    RoomUnfold(h, c, n);
    RoomSame(h, k, c[1..], n - (size - r.last));
    assert r.mem[..r.last] + r.mem[r.last..] == r.mem;
  }

  lemma RoomSizeUnfold(h: Heap, c: Chain)
    requires c != [] && Unshadowed(h, c[0])
    ensures RoomSize(h, c) == |h.raws[c[0]].mem| - h.raws[c[0]].last + RoomSize(h, c[1..])
  {
  }

  /** What arrived ends inside the first buffer. */
  lemma PartStep(h: Heap, c: Chain, n: nat, size: nat)
    requires c != [] && FreeRaws(h, c) && AllOfSize(h, size) && NoneFreed(h) && n < size - h.raws[c[0]].last
    ensures var k := Advanced(h, c[0], h.raws[c[0]].last + n);
            && FreeRaws(k, c) && AllOfSize(k, size) && NoneFreed(k)
            && HeadBytes(k, c) == HeadBytes(h, c) + Room(h, c, n)
  {
    assert Unshadowed(h, c[0]);
    var r := h.raws[c[0]];
    assert r.mem[..r.last] + r.mem[r.last..r.last + n] == r.mem[..r.last + n];
  }

  /** A raw buffer fresh from the pool. */
  function NewRaw(h: Heap, size: nat): Heap
  {
    h.(raws := h.raws + [Raw(seq(size, _ => 0), 0, 0, -1, false)])
  }

  lemma NewRawStep(h: Heap, size: nat)
    requires AllOfSize(h, size) && size > 0
    ensures var k := NewRaw(h, size);
            && AllOfSize(k, size) && FreeRaws(k, [|h.raws|]) && HeadBytes(k, [|h.raws|]) == []
            && (NoneFreed(h) ==> NoneFreed(k))
            && k.bufs == h.bufs && k.file == h.file && |k.raws| == |h.raws| + 1
            && (forall r :: 0 <= r < |h.raws| ==> k.raws[r] == h.raws[r])
  {
  }

  /** What is known of every chain when only unshadowed raw buffers were touched. */
  lemma RawsOnly(h: Heap, k: Heap, inq: Chain, out: Chain, busy: Chain, free: Chain)
    requires Chains(h, inq, out, busy, free) && k.bufs == h.bufs && k.file == h.file && |h.raws| <= |k.raws|
    requires forall r :: 0 <= r < |h.raws| && h.raws[r].shadow != -1 ==> k.raws[r] == h.raws[r]
    ensures Chains(k, inq, out, busy, free)
    ensures Bytes(k, inq) == Bytes(h, inq) && Bytes(k, out) == Bytes(h, out) && Bytes(k, busy) == Bytes(h, busy)
    ensures MemCount(k, busy) == MemCount(h, busy)
    ensures (NonEmpty(h, inq) ==> NonEmpty(k, inq)) && (NonEmpty(h, out) ==> NonEmpty(k, out))
    ensures NonEmpty(h, busy) ==> NonEmpty(k, busy)
    ensures (Recycled(h, inq) ==> Recycled(k, inq)) && (Recycled(h, busy) ==> Recycled(k, busy))
    ensures Clean(h, free) ==> Clean(k, free)
  {
    hide Live, MemBuf, FileBuf, Separate, Bytes, MemCount, NonEmpty, Recycled, Kept;
    MemIsLive(h, inq);
    FileIsLive(h, out);
    UnshadowedStep(h, k, inq);
    UnshadowedStep(h, k, out);
    UnshadowedStep(h, k, busy);
    KeptChains(h, k, inq, out, busy, free);
    KeptBytes(h, k, inq);
    KeptBytes(h, k, out);
    KeptBytes(h, k, busy);
  }
}
