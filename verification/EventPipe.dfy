/** ngx_event_pipe.c with the copy input filter: bytes read from an upstream into
    raw buffers are passed to the client directly or through a temporary file.

    The class holds the fields of ngx_event_pipe_t and the two connections; its
    methods are the functions of the file.  What the sockets, the output filter
    and the temporary file answer is arbitrary: the upstream follows a script
    that is a field, everything else is chosen when it is asked. */
module EventPipe {
  import opened Common
  import opened PipeHeap

  /** NGX_OK, NGX_ERROR, NGX_ABORT and NGX_BUSY. */
  datatype Rc = Ok | Error | Abort | Full

  /** What the upstream does next: sends bytes (none is end of file), has nothing
      yet, or breaks. */
  datatype Event = Data(bytes: seq<Byte>) | NotYet | Broken

  datatype Got = Count(n: nat) | Again | Failed

  /** What looking for a chain to read into comes to. */
  datatype Take = Go | Stop | Leave

  function ScriptSize(script: seq<Event>): nat
  {
    if script == [] then 0 else (if script[0].Data? then |script[0].bytes| else 0) + 1 + ScriptSize(script[1..])
  }

  function ScriptBytes(script: seq<Event>): nat
  {
    if script == [] then 0 else (if script[0].Data? then |script[0].bytes| else 0) + ScriptBytes(script[1..])
  }

  /** What the upstream sends before it ends or breaks. */
  function ScriptText(script: seq<Event>): seq<Byte>
  {
    if script == [] || script[0].Broken? then []
    else if script[0].NotYet? then ScriptText(script[1..])
    else if script[0].bytes == [] then []
    else script[0].bytes + ScriptText(script[1..])
  }

  lemma {:induction false} NothingToSay(script: seq<Event>)
    requires ScriptBytes(script) == 0
    ensures ScriptText(script) == []
  {
    if script != [] { NothingToSay(script[1..]); }
  }

  /** What the environment has answered so far: how often the upstream has ended and has
      broken, how often memory or a file write was refused, and how often the output
      filter has failed. */
  datatype Seen = Seen(ends: nat, breaks: nat, faults: nat, rejects: nat)

  function Ended(s: Seen): Seen { s.(ends := s.ends + 1) }

  function Broke(s: Seen): Seen { s.(breaks := s.breaks + 1) }

  function Refused(s: Seen): Seen { s.(faults := s.faults + 1) }

  function Rejected(s: Seen): Seen { s.(rejects := s.rejects + 1) }

  function Answered(s: Seen, got: Got): Seen
  {
    if got == Failed then Broke(s) else if got == Count(0) then Ended(s) else s
  }

  /** The flags of the pipe that stand for such answers. */
  datatype Flags = Flags(eof: bool, error: bool, down: bool)

  /** No flag is taken back. */
  predicate Lasting(a: Flags, b: Flags) { (a.eof ==> b.eof) && (a.error ==> b.error) && (a.down ==> b.down) }

  /** Every flag that has been set stands for one answer, and so does giving up. */
  function Noted(s: Seen, a: Flags, b: Flags, abort: bool): Seen
  {
    Seen(Counted(s.ends, !a.eof && b.eof), Counted(s.breaks, !a.error && b.error), Counted(s.faults, abort),
         Counted(s.rejects, !a.down && b.down))
  }

  function Counted(n: nat, more: bool): nat { if more then n + 1 else n }

  lemma NotedOn(s: Seen, a: Flags, b: Flags, c: Flags, abort: bool)
    requires Lasting(a, b) && Lasting(b, c)
    ensures Lasting(a, c) && Noted(Noted(s, a, b, false), b, c, abort) == Noted(s, a, c, abort)
  {
  }

  lemma NotedNone(s: Seen, a: Flags)
    ensures Lasting(a, a) && Noted(s, a, a, false) == s
  {
  }

  /** A call of the pipe by the handler of an event: for the client, and with what both
      connections are ready for. */
  datatype Call = Call(doWrite: bool, upReady: bool, downReady: bool)

  class Pipe {
    // configuration
    const num: nat
    const size: nat
    const busySize: nat
    const maxTempFileSize: nat
    const tempFileWriteSize: nat
    const cacheable: bool
    const singleBuf: bool
    const freeBufs: bool
    const limited: bool

    // ngx_event_pipe_t
    var h: Heap
    var freeRaw: Chain
    var inq: Chain
    var out: Chain
    var busy: Chain
    var free: Chain
    var allotted: nat
    var offset: nat
    var bufToFile: Option<seq<Byte>>
    var length: int
    var read: bool
    var upstreamBlocked: bool
    var upstreamEof: bool
    var upstreamError: bool
    var upstreamDone: bool
    var downstreamError: bool
    var downstreamDone: bool

    // the connections: what the upstream will do, whether the client can take
    // more, and the chain the output filter has not sent yet
    var script: seq<Event>
    var upReady: bool
    var downReady: bool
    var pending: Chain

    // the books
    ghost const header: seq<Byte>
    ghost var received: seq<Byte>
    ghost var sent: seq<Byte>
    ghost var spooled: seq<Byte>
    ghost var seen: Seen

    // ---------------------------------------------------------------- buffers

    /** ngx_event_pipe_copy_input_filter */
    method CopyInputFilter(r: nat)
      requires Chains(h, inq, out, busy, free) && Unshadowed(h, r) && !h.raws[r].freed
      requires length >= -1
      modifies `h, `inq, `free, `length
      ensures Chains(h, inq, out, busy, free)
      ensures KeptAll(old(h), h, busy) && KeptAll(old(h), h, out)
      ensures h.file == old(h.file) && |h.raws| == |old(h).raws|
      ensures forall q :: 0 <= q < |h.raws| && q != r ==> h.raws[q] == old(h).raws[q]
      ensures h.raws[r] == old(h).raws[r].(shadow := h.raws[r].shadow)
      ensures Bytes(h, inq) == old(Bytes(h, inq)) + old(RawBytes(h, r))
      ensures old(Recycled(h, inq)) ==> Recycled(h, inq)
      ensures old(Clean(h, free)) ==> Clean(h, free)
      ensures old(NonEmpty(h, inq)) ==> NonEmpty(h, inq)
      ensures old(h).raws[r].last == 0 ==> h == old(h) && inq == old(inq) && length == old(length)
      ensures old(h).raws[r].last > 0 ==> |inq| == |old(inq)| + 1 && h.raws[r].shadow != -1
      ensures length == if old(length) == -1 then -1 else old(length) - |old(RawBytes(h, r))|
    {
      hide Chains, AllMem, AllFile, AllLive, Separate, Bytes, BufBytes, KeptAll, Recycled, Clean, NonEmpty;
      if h.raws[r].pos == h.raws[r].last {
        NothingMoves();
        return;
      }
      InputStep(h, r, inq, out, busy, free);
      ChainsAllocated(h, inq, out, busy, free);
      var (b, k, rest) := TakeFree(h, free);
      h, free := k, rest;
      h := Shadowed(h, b, r);
      inq := inq + [b];
      if length == -1 {
        return;
      }
      length := length - (h.bufs[b].last - h.bufs[b].pos);
    }

    lemma NothingMoves()
      requires Chains(h, inq, out, busy, free)
      ensures KeptAll(h, h, busy) && KeptAll(h, h, out)
    {
    }

    /** ngx_event_pipe_remove_shadow_links; the copy filter makes one shadow per
        raw buffer, so the walk along the links ends at the first one. */
    method RemoveShadowLinks(r: nat)
      requires r < |h.raws|
      requires h.raws[r].shadow != -1 ==> 0 <= h.raws[r].shadow < |h.bufs| && h.bufs[h.raws[r].shadow].lastShadow
      modifies `h
      ensures old(h).raws[r].shadow == -1 ==> h == old(h)
      ensures old(h).raws[r].shadow != -1 ==>
                var b := old(h).raws[r].shadow;
                var n := old(h).bufs[b].(recycled := false, lastShadow := false, shadow := -1);
                h == old(h).(bufs := old(h).bufs[b := n],
                             raws := old(h).raws[r := old(h).raws[r].(shadow := -1)])
    {
      var b := h.raws[r].shadow;
      if b == -1 {
        return;
      }
      h := h.(bufs := h.bufs[b := h.bufs[b].(recycled := false, lastShadow := false, shadow := -1)]);
      h := h.(raws := h.raws[r := h.raws[r].(shadow := -1)]);
    }

    /** ngx_event_pipe_add_free_buf */
    method AddFreeBuf(r: nat)
      requires FreeRaws(h, freeRaw) && r < |h.raws| && r !in freeRaw && |h.raws[r].mem| > 0
      modifies `h, `freeRaw
      ensures h == old(h).(raws := old(h).raws[r := old(h).raws[r].(pos := 0, last := 0, shadow := -1)])
      ensures FreeRaws(h, freeRaw) && |freeRaw| == |old(freeRaw)| + 1
      ensures HeadBytes(h, freeRaw) == old(HeadBytes(h, freeRaw))
      ensures forall q :: q in freeRaw <==> q in old(freeRaw) || q == r
    {
      h := h.(raws := h.raws[r := h.raws[r].(pos := 0, last := 0, shadow := -1)]);
      if freeRaw == [] {
        freeRaw := [r];
        return;
      }
      if h.raws[freeRaw[0]].pos == h.raws[freeRaw[0]].last {
        freeRaw := [r] + freeRaw;
        return;
      }
      freeRaw := [freeRaw[0], r] + freeRaw[1..];
    }

    /** What both loops that empty a chain do with one buffer: give its raw buffer
        to the free list and forget it. */
    method ReleaseShadow(b: nat)
      requires FreeRaws(h, freeRaw) && b < |h.bufs|
      requires h.bufs[b].lastShadow ==> MemBuf(h, b) && |h.raws[h.bufs[b].start].mem| > 0
      modifies `h, `freeRaw
      ensures FreeRaws(h, freeRaw) && HeadBytes(h, freeRaw) == old(HeadBytes(h, freeRaw))
      ensures |freeRaw| == |old(freeRaw)| + (if old(h).bufs[b].lastShadow then 1 else 0)
      ensures Released(old(h), h, b)
    {
      if h.bufs[b].lastShadow {
        AddFreeBuf(h.bufs[b].shadow);
        h := h.(bufs := h.bufs[b := h.bufs[b].(lastShadow := false)]);
      }
      h := h.(bufs := h.bufs[b := h.bufs[b].(shadow := -1)]);
    }

    /** The loop of ngx_event_pipe_write_to_downstream over the free chain. */
    method ReclaimFree()
      requires Chains(h, inq, out, busy, free) && FreeRaws(h, freeRaw) && AllOfSize(h, size) && size > 0
      requires forall b :: b in free ==> Releasable(h, b)
      modifies `h, `freeRaw
      ensures Chains(h, inq, out, busy, free) && FreeRaws(h, freeRaw) && AllOfSize(h, size)
      ensures KeptAll(old(h), h, inq) && KeptAll(old(h), h, out) && KeptAll(old(h), h, busy)
      ensures Clean(h, free)
      ensures |freeRaw| == |old(freeRaw)| + Holders(old(h), free)
      ensures HeadBytes(h, freeRaw) == old(HeadBytes(h, freeRaw))
      ensures h.file == old(h.file) && |h.raws| == |old(h).raws| && (old(NoneFreed(h)) ==> NoneFreed(h))
    {
      hide Chains, KeptAll, Separate, HeadBytes, FreeRaws, MemBuf, AllOfSize, NoneFreed;
      ghost var h0, fr0 := h, freeRaw;
      SameKept(h, inq, out, busy, free);
      var i := 0;
      assert free[0..] == free;
      while i < |free|
        invariant 0 <= i <= |free|
        invariant Chains(h, inq, out, busy, free) && FreeRaws(h, freeRaw) && AllOfSize(h, size)
        invariant KeptAll(h0, h, inq) && KeptAll(h0, h, out) && KeptAll(h0, h, busy)
        invariant forall j :: 0 <= j < i ==> !HoldsRaw(h, free[j])
        invariant forall b :: b in free[i..] ==> Releasable(h, b)
        invariant |freeRaw| + Holders(h, free[i..]) == |fr0| + Holders(h0, free)
        invariant HeadBytes(h, freeRaw) == HeadBytes(h0, fr0)
        invariant h.file == h0.file && |h.raws| == |h0.raws| && (NoneFreed(h0) ==> NoneFreed(h))
      {
        var b := free[i];
        ghost var h1 := h;
        assert free[i..] == [b] + free[i + 1..] && b in free[i..] && b in free;
        assert Holders(h, free[i..]) == (if HoldsRaw(h, b) then 1 else 0) + Holders(h, free[i + 1..]);
        if h.bufs[b].tempFile {
          i := i + 1;
          continue;
        }
        SizePositive(b);
        ReleaseShadow(b);
        FreeStep(h0, h1, h, i);
        i := i + 1;
      }
      assert free[i..] == [];
    }

    lemma SizePositive(b: nat)
      requires AllOfSize(h, size) && size > 0 && Releasable(h, b)
      ensures MemBuf(h, b) ==> |h.raws[h.bufs[b].start].mem| > 0
    {
    }

    /** One round of ReclaimFree: h0 at the start, h1 before the round, k after. */
    lemma FreeStep(h0: Heap, h1: Heap, k: Heap, i: nat)
      requires i < |free| && Released(h1, k, free[i]) && !h1.bufs[free[i]].tempFile
      requires Chains(h0, inq, out, busy, free) && Chains(h1, inq, out, busy, free) && AllOfSize(h1, size)
      requires forall b :: b in free[i..] ==> Releasable(h1, b)
      requires forall j :: 0 <= j < i ==> !HoldsRaw(h1, free[j])
      requires KeptAll(h0, h1, inq) && KeptAll(h0, h1, out) && KeptAll(h0, h1, busy)
      ensures Chains(k, inq, out, busy, free) && AllOfSize(k, size) && (NoneFreed(h1) ==> NoneFreed(k))
      ensures KeptAll(h0, k, inq) && KeptAll(h0, k, out) && KeptAll(h0, k, busy)
      ensures forall b :: b in free[i + 1..] ==> Releasable(k, b)
      ensures forall j :: 0 <= j <= i ==> !HoldsRaw(k, free[j])
      ensures Holders(k, free[i + 1..]) == Holders(h1, free[i + 1..])
    {
      hide MemBuf, FileBuf, Kept, Live, Holders, NoneFreed, AllOfSize;
      var b := free[i];
      var rest := free[i + 1..];
      assert free[i..] == [b] + rest && b in free[i..] && b in free;
      assert b !in rest by { NoDupAt(free, i); }
      ChainsLive(h0, inq, out, busy, free);
      ChainsLive(h1, inq, out, busy, free);
      ReleasedKeeps(h1, k, b, inq);
      ReleasedKeeps(h1, k, b, out);
      ReleasedKeeps(h1, k, b, busy);
      ReleasedOthers(h1, k, b, rest);
      ReleasedSizes(h1, k, b, size);
      KeptChains(h1, k, inq, out, busy, free);
      KeptTrans(h0, h1, k, inq);
      KeptTrans(h0, h1, k, out);
      KeptTrans(h0, h1, k, busy);
      forall j | 0 <= j < i ensures !HoldsRaw(k, free[j]) { assert free[j] != b; }
    }

    lemma NoDupAt(c: Chain, i: nat)
      requires NoDup(c) && i < |c|
      ensures c[i] !in c[i + 1..]
    {
      var t := c[i + 1..];
      forall j | 0 <= j < |t| ensures t[j] != c[i] { assert t[j] == c[i + 1 + j]; }
    }

    /** ngx_chain_update_chains (not part of the vendored sources): the buffers just
        passed on become busy, used up ones in front go to the free chain. */
    method UpdateChains(more: Chain)
      requires Chains(h, inq, out, busy + more, free) && (forall b :: b in free ==> Releasable(h, b))
      requires |pending| <= |busy + more| && pending == (busy + more)[|busy + more| - |pending|..]
      requires NonEmpty(h, pending)
      requires forall i :: 0 <= i < |busy + more| - |pending| ==> BufBytes(h, (busy + more)[i]) == []
      modifies `h, `busy, `free
      ensures busy == pending && Chains(h, inq, out, busy, free) && (forall b :: b in free ==> Releasable(h, b))
      ensures KeptAll(old(h), h, inq) && KeptAll(old(h), h, out) && KeptAll(old(h), h, busy)
      ensures Holders(h, free) + MemCount(h, busy) == old(Holders(h, free)) + old(MemCount(h, busy + more))
      ensures h.raws == old(h.raws) && h.file == old(h.file)
    {
      hide Chains, KeptAll, Separate, Live, MemBuf, FileBuf, Releasable, NonEmpty, BufBytes;
      ghost var h0, all := h, busy + more;
      SameKept(h, inq, out, all, free);
      busy := busy + more;
      ghost var i := 0;
      assert all[0..] == all;
      while busy != [] && BufSize(h, busy[0]) == 0
        invariant 0 <= i <= |all| - |pending| && busy == all[i..]
        invariant Chains(h0, inq, out, all, old(free)) && Chains(h, inq, out, busy, free)
        invariant forall b :: b in free ==> Releasable(h, b)
        invariant KeptAll(h0, h, inq) && KeptAll(h0, h, out) && KeptAll(h0, h, busy)
        invariant Holders(h, free) + MemCount(h, busy) == Holders(h0, old(free)) + MemCount(h0, all)
        invariant h.raws == h0.raws && h.file == h0.file
        decreases |busy|
      {
        var cl := busy[0];
        ghost var h1, free1 := h, free;
        InFront(h0, h, inq, out, all, old(free), i);
        ChainsLive(h0, inq, out, all, old(free));
        ChainsLive(h, inq, out, busy, free);
        HeadAllocated(h, busy);
        RewindStep(h, inq, out, busy, free);
        h := Rewound(h, cl);
        RewindMore(h0, h1, h, inq, out, busy, free);
        busy := busy[1..];
        free := [cl] + free;
        i := i + 1;
        assert busy == all[i..];
      }
      InFront(h0, h, inq, out, all, old(free), i);
    }

    /** The used up buffers are exactly those before the pending ones. */
    lemma InFront(h0: Heap, h1: Heap, inq: Chain, out: Chain, all: Chain, free: Chain, i: nat)
      requires Chains(h0, inq, out, all, free) && i <= |all| - |pending| && KeptAll(h0, h1, all[i..])
      requires |pending| <= |all| && pending == all[|all| - |pending|..] && NonEmpty(h0, pending)
      requires forall j :: 0 <= j < |all| - |pending| ==> BufBytes(h0, all[j]) == []
      ensures i < |all| ==> (BufSize(h1, all[i]) == 0 <==> i < |all| - |pending|)
    {
      if i < |all| {
        var b := all[i];
        assert b == all[i..][0] && b in all[i..] && b in all;
        assert Kept(h0, h1, b) && Live(h0, b);
        if i == |all| - |pending| { assert b in pending; }
      }
    }

    lemma HeadAllocated(h: Heap, c: Chain)
      requires AllLive(h, c)
      ensures c != [] ==> c[0] < |h.bufs|
    {
      if c != [] { assert Live(h, c[0]); }
    }

    lemma RewindMore(h0: Heap, h1: Heap, k: Heap, inq: Chain, out: Chain, c: Chain, free: Chain)
      requires c != [] && AllLive(h0, inq) && AllLive(h0, out) && AllLive(h0, c)
      requires KeptAll(h0, h1, inq) && KeptAll(h0, h1, out) && KeptAll(h0, h1, c)
      requires KeptAll(h1, k, inq) && KeptAll(h1, k, out) && KeptAll(h1, k, c[1..])
      ensures KeptAll(h0, k, inq) && KeptAll(h0, k, out) && KeptAll(h0, k, c[1..])
    {
      hide Live, Kept;
      KeptTrans(h0, h1, k, inq);
      KeptTrans(h0, h1, k, out);
      KeptTrans(h0, h1, k, c[1..]);
    }

    // ---------------------------------------------------------------- draining

    method DrainChain(chain: Chain)
      requires busy == [] && Chains(h, inq, out, chain, free) && FreeRaws(h, freeRaw) && AllOfSize(h, size) && size > 0
      modifies `h, `freeRaw, `free
      ensures Chains(h, inq, out, [], free) && FreeRaws(h, freeRaw) && AllOfSize(h, size)
      ensures KeptAll(old(h), h, inq) && KeptAll(old(h), h, out)
      ensures |freeRaw| == |old(freeRaw)| + old(MemCount(h, chain))
      ensures HeadBytes(h, freeRaw) == old(HeadBytes(h, freeRaw))
      ensures h.file == old(h.file) && |h.raws| == |old(h).raws| && (old(NoneFreed(h)) ==> NoneFreed(h))
    {
      hide Chains, KeptAll, Separate, HeadBytes, FreeRaws, MemBuf, AllOfSize, NoneFreed, FileBuf;
      ghost var h0, fr0 := h, freeRaw;
      SameKept(h, inq, out, chain, free);
      ChainsLive(h, inq, out, chain, free);
      var cl := chain;
      while cl != []
        invariant Chains(h, inq, out, cl, free) && FreeRaws(h, freeRaw) && AllOfSize(h, size)
        invariant KeptAll(h0, h, inq) && KeptAll(h0, h, out)
        invariant |freeRaw| + MemCount(h, cl) == |fr0| + MemCount(h0, chain)
        invariant HeadBytes(h, freeRaw) == HeadBytes(h0, fr0)
        invariant h.file == h0.file && |h.raws| == |h0.raws| && (NoneFreed(h0) ==> NoneFreed(h))
        decreases |cl|
      {
        var b := cl[0];
        ghost var h1, free1 := h, free;
        ChainsLive(h, inq, out, cl, free);
        assert Live(h, b);
        LiveSize(h, b);
        ReleaseShadow(b);
        DrainStep(h1, h, inq, out, cl, free);
        ReleasedSizes(h1, h, b, size);
        KeptTrans(h0, h1, h, inq);
        KeptTrans(h0, h1, h, out);
        free := [b] + free;
        cl := cl[1..];
      }
    }

    lemma LiveSize(h: Heap, b: nat)
      requires Live(h, b) && AllOfSize(h, size) && size > 0
      ensures b < |h.bufs| && (h.bufs[b].lastShadow ==> MemBuf(h, b) && |h.raws[h.bufs[b].start].mem| > 0)
    {
    }

    /** ngx_event_pipe_drain_chains: busy first, then out, then in. */
    method DrainChains()
      requires Chains(h, inq, out, busy, free) && FreeRaws(h, freeRaw) && AllOfSize(h, size) && size > 0
      modifies `h, `freeRaw, `free, `inq, `out, `busy
      ensures inq == [] && out == [] && busy == [] && Chains(h, inq, out, busy, free)
      ensures FreeRaws(h, freeRaw) && AllOfSize(h, size)
      ensures |freeRaw| == |old(freeRaw)| + old(MemCount(h, busy)) + |old(inq)|
      ensures HeadBytes(h, freeRaw) == old(HeadBytes(h, freeRaw))
      ensures h.file == old(h.file) && |h.raws| == |old(h).raws| && (old(NoneFreed(h)) ==> NoneFreed(h))
    {
      hide Chains, KeptAll, Separate, HeadBytes, FreeRaws, AllOfSize, NoneFreed;
      ChainsLive(h, inq, out, busy, free);
      MemCountOf(h, inq);
      MemCountOf(h, out);
      while true
        invariant Chains(h, inq, out, busy, free) && FreeRaws(h, freeRaw) && AllOfSize(h, size)
        invariant |freeRaw| + MemCount(h, busy) + MemCount(h, out) + MemCount(h, inq)
                  == |old(freeRaw)| + old(MemCount(h, busy)) + |old(inq)|
        invariant HeadBytes(h, freeRaw) == old(HeadBytes(h, freeRaw))
        invariant h.file == old(h.file) && |h.raws| == |old(h).raws| && (old(NoneFreed(h)) ==> NoneFreed(h))
        decreases |busy| + |out| + |inq|
      {
        var cl: Chain;
        if busy != [] {
          cl := busy;
          busy := [];
        } else if out != [] {
          ChainsShift(h, inq, out, free);
          cl := out;
          out := [];
        } else if inq != [] {
          ChainsShift(h, inq, out, free);
          cl := inq;
          inq := [];
        } else {
          return;
        }
        ghost var h1 := h;
        ChainsLive(h, inq, out, cl, free);
        DrainChain(cl);
        KeptBytes(h1, h, inq);
        KeptBytes(h1, h, out);
      }
    }

    // ---------------------------------------------------------------- the client side

    /** The output filter takes a chain and sends as much of everything it holds as
        it likes, reading the bytes where they are now; it may also fail. */
    method OutputFilter(chain: Chain) returns (failed: bool)
      requires AllLive(h, pending + chain) && NoDup(pending + chain) && NonEmpty(h, pending + chain)
      modifies `h, `pending, `sent, `downReady, `seen
      ensures seen == if failed then Rejected(old(seen)) else old(seen)
      ensures exists n: nat :: Splits(old(h), old(pending) + chain, n, h, pending)
                          && n <= |old(Bytes(h, pending + chain))|
                          && sent == old(sent) + old(Bytes(h, pending + chain))[..n]
    {
      hide Bytes, Splits, NonEmpty, NoDup, Live;
      var all := pending + chain;
      var n: nat :| n <= |Bytes(h, all)|;
      SendSplits(h, all, n);
      sent := sent + Bytes(h, all)[..n];
      h, pending := Send(h, all, n).0, Send(h, all, n).1;
      downReady := *;
      failed := *;
      if failed {
        seen := Rejected(seen);
      }
    }

    /** The size of the busy recycled buffers; runs of buffers over one piece of
        memory would count once. */
    method BusyBytes() returns (bsize: nat)
      requires AllLive(h, busy) && NoDup(busy) && Recycled(h, busy)
      ensures bsize == MemCount(h, busy) * size
    {
      hide Live, MemCount, NoDup, MemBuf, Recycled;
      bsize := 0;
      var prev := -1;
      ghost var at := 0;
      var i := 0;
      assert busy[..0] == [];
      NoMem(h);
      while i < |busy|
        invariant 0 <= i <= |busy|
        invariant bsize == MemCount(h, busy[..i]) * size
        invariant prev != -1 ==>
                  0 <= at < i && MemBuf(h, busy[at]) && busy[at] < |h.bufs| && h.bufs[busy[at]].start == prev
      {
        var b := busy[i];
        BusyKinds(busy, i);
        CountNext(h, busy, i);
        if h.bufs[b].recycled {
          if prev == h.bufs[b].start {
            StartsDiffer(h, b, busy[at]);
            NoDupPair(busy, at, i);
            assert false;
          }
          bsize := bsize + size;
          prev, at := h.bufs[b].start, i;
        }
        i := i + 1;
      }
      assert busy[..i] == busy;
    }

    lemma BusyKinds(c: Chain, i: nat)
      requires AllLive(h, c) && Recycled(h, c) && i < |c|
      ensures c[i] < |h.bufs| && (h.bufs[c[i]].recycled <==> !h.bufs[c[i]].tempFile)
      ensures h.bufs[c[i]].recycled ==> MemBuf(h, c[i]) && h.bufs[c[i]].start >= 0
    {
      assert c[i] in c && Live(h, c[i]);
    }

    lemma CountNext(h: Heap, c: Chain, i: nat)
      requires i < |c| && c[i] < |h.bufs|
      ensures MemCount(h, c[..i + 1]) == MemCount(h, c[..i]) + (if h.bufs[c[i]].tempFile then 0 else 1)
      ensures MemCount(h, c[..i + 1]) * size == MemCount(h, c[..i]) * size + (if h.bufs[c[i]].tempFile then 0 else size)
    {
      hide MemCount, Bytes;
      assert c[..i + 1] == c[..i] + [c[i]];
      BytesConcat(h, c[..i], [c[i]]);
      MemCountOne(h, c[i]);
      OneMore(MemCount(h, c[..i]));
    }

    lemma MemCountOne(h: Heap, b: nat)
      requires b < |h.bufs|
      ensures MemCount(h, [b]) == if h.bufs[b].tempFile then 0 else 1
    {
      assert [b][1..] == [];
    }

    lemma NoMem(h: Heap)
      ensures MemCount(h, []) == 0
    {
    }

    lemma NoDupPair(c: Chain, i: nat, j: nat)
      requires NoDup(c) && i < j < |c|
      ensures c[i] != c[j]
    {
    }

    lemma OneMore(m: nat)
      ensures (m + 1) * size == m * size + size
    {
    }

    /** The loop that links buffers of `out`, then of `in`, into one chain for the
        output filter, as long as the busy buffers stay within busy_size. */
    method Collect(busySoFar: nat) returns (outc: Chain, flush: bool)
      requires AllMem(h, inq) && AllFile(h, out) && Recycled(h, inq)
      requires busySoFar <= busySize
      modifies `inq, `out
      ensures out == [] && |old(out)| <= |outc| <= |old(out)| + |old(inq)|
      ensures outc == old(out) + old(inq)[..|outc| - |old(out)|] && inq == old(inq)[|outc| - |old(out)|..]
      ensures busySoFar + (|outc| - |old(out)|) * size <= busySize
      ensures cacheable ==> |outc| == |old(out)|
      ensures !flush && !cacheable ==> inq == []
      ensures flush ==> busySoFar + (|outc| - |old(out)|) * size + size > busySize
    {
      hide AllMem, AllFile, Recycled;
      var bsize := busySoFar;
      var prevLastShadow := true;
      ghost var out0, inq0 := out, inq;
      ghost var i, j := 0, 0;
      outc, flush := [], false;
      assert out0[..0] + inq0[..0] == [];
      while true
        invariant 0 <= i <= |out0| && 0 <= j <= |inq0| && (j > 0 ==> i == |out0| && !cacheable)
        invariant out == out0[i..] && inq == inq0[j..] && outc == out0[..i] + inq0[..j]
        invariant bsize == busySoFar + j * size <= busySize
        invariant prevLastShadow && !flush
        decreases |out| + |inq|
      {
        var cl;
        if out != [] {
          cl := out[0];
          FileNotRecycled(h, out0, i);
          assert !h.bufs[cl].recycled;
          assert out0[..i + 1] + inq0[..j] == (out0[..i] + inq0[..j]) + [cl] by { assert inq0[..j] == []; }
          out := out[1..];
          i := i + 1;
        } else if !cacheable && inq != [] {
          cl := inq[0];
          MemRecycled(h, inq0, j);
          if h.bufs[cl].recycled && prevLastShadow {
            if bsize + size > busySize {
              flush := true;
              break;
            }
            bsize := bsize + size;
          }
          prevLastShadow := h.bufs[cl].lastShadow;
          inq := inq[1..];
          assert out0[..i] + inq0[..j + 1] == (out0[..i] + inq0[..j]) + [cl];
          j := j + 1;
        } else {
          break;
        }
        outc := outc + [cl];
      }
      assert i == |out0|;
      assert out0[..i] == out0;
    }

    lemma FileNotRecycled(h: Heap, c: Chain, i: nat)
      requires AllFile(h, c)
      ensures i < |c| ==> c[i] < |h.bufs| && !h.bufs[c[i]].recycled
    {
      if i < |c| { assert c[i] in c; }
    }

    lemma MemRecycled(h: Heap, c: Chain, i: nat)
      requires AllMem(h, c) && Recycled(h, c)
      ensures i < |c| ==> c[i] < |h.bufs| && h.bufs[c[i]].recycled && h.bufs[c[i]].lastShadow
    {
      if i < |c| { assert c[i] in c && MemBuf(h, c[i]); }
    }

    /** One call of the output filter with its aftermath: the used up buffers come
        back, or, if it failed, everything is dropped. */
    method PassOn(more: Chain)
      requires Chains(h, inq, out, busy + more, free) && FreeRaws(h, freeRaw) && AllOfSize(h, size) && size > 0
      requires pending == busy && NonEmpty(h, busy + more) && Clean(h, free) && !downstreamError
      modifies `h, `freeRaw, `inq, `out, `busy, `free, `pending, `sent, `downReady, `downstreamError, `seen
      ensures seen == if downstreamError then Rejected(old(seen)) else old(seen)
      ensures Chains(h, inq, out, busy, free) && FreeRaws(h, freeRaw) && AllOfSize(h, size)
      ensures pending == busy && NonEmpty(h, busy)
      ensures HeadBytes(h, freeRaw) == old(HeadBytes(h, freeRaw))
      ensures h.file == old(h.file) && |h.raws| == |old(h).raws| && (old(NoneFreed(h)) ==> NoneFreed(h))
      ensures old(sent) <= sent <= old(sent) + old(Bytes(h, busy + more))
      ensures !downstreamError ==>
                && inq == old(inq) && out == old(out) && Clean(h, free)
                && KeptAll(old(h), h, inq) && KeptAll(old(h), h, out)
                && sent + Bytes(h, busy) == old(sent) + old(Bytes(h, busy + more))
                && |freeRaw| + MemCount(h, busy) == |old(freeRaw)| + old(MemCount(h, busy + more))
                && |old(freeRaw)| <= |freeRaw|
                && (old(Recycled(h, busy + more)) ==> Recycled(h, busy))
      ensures downstreamError ==>
                && inq == [] && out == [] && busy == []
                && |old(freeRaw)| + |old(inq)| <= |freeRaw|
                && |freeRaw| <= |old(freeRaw)| + |old(inq)| + old(MemCount(h, busy + more))
    {
      hide Chains, KeptAll, HeadBytes, FreeRaws, AllOfSize, NoneFreed, Bytes, NonEmpty, MemCount, Clean, Recycled,
           Splits, NoDup, Holders, Releasable;
      ghost var h0, all, sent0 := h, busy + more, sent;
      ChainsLive(h, inq, out, all, free);
      var failed := OutputFilter(more);
      ghost var n: nat :| Splits(h0, all, n, h, pending) && n <= |Bytes(h0, all)|
                          && sent == sent0 + Bytes(h0, all)[..n];
      ghost var h1 := h;
      AfterSend(h0, h1, n, all, pending);
      SendBooks(sent0, Bytes(h0, all), n);
      FreeRawsSame(h0, h1, freeRaw);
      assert KeptAll(h0, h1, inq) && KeptAll(h0, h1, out);
      UpdateChains(more);
      ghost var h2 := h;
      AfterUpdate(h0, h1, h2, inq, out, busy, free);
      FreeRawsSame(h1, h2, freeRaw);
      if failed {
        downstreamError := true;
        pending := [];
        DrainChains();
        NothingEmpty(h);
        return;
      }
      ReclaimFree();
      AfterReclaim(h0, h2, h, inq, out, busy);
    }

    lemma NothingEmpty(h: Heap)
      ensures NonEmpty(h, [])
    {
    }

    /** Raw buffers and chains after sending. */
    lemma AfterSend(h0: Heap, h1: Heap, n: nat, all: Chain, rest: Chain)
      requires Chains(h0, inq, out, all, free) && Splits(h0, all, n, h1, rest) && Clean(h0, free)
      ensures Chains(h1, inq, out, all, free) && KeptAll(h0, h1, inq) && KeptAll(h0, h1, out)
      ensures |rest| <= |all| && rest == all[|all| - |rest|..] && NonEmpty(h1, rest)
      ensures forall i :: 0 <= i < |all| - |rest| ==> BufBytes(h1, all[i]) == []
      ensures n <= |Bytes(h0, all)| && Bytes(h1, rest) == Bytes(h0, all)[n..]
      ensures h1.raws == h0.raws && h1.file == h0.file
      ensures MemCount(h1, all) == MemCount(h0, all)
      ensures AllLive(h1, rest) && (Recycled(h0, all) ==> Recycled(h1, rest))
      ensures (forall b :: b in free ==> Releasable(h1, b)) && Holders(h1, free) == 0
    {
      hide Chains, Bytes, MemCount, Holders, Kept, NonEmpty, Recycled, BufBytes;
      ChainsLive(h0, inq, out, all, free);
      SentChains(h0, h1, inq, out, all, free);
      SentCounts(h0, h1, all, all);
      SentCounts(h0, h1, all, free);
      HoldersOfLive(h0, free);
      CleanReleasable(h0, h1, all, free);
      TailOf(h1, all, rest);
    }

    lemma TailOf(h: Heap, all: Chain, rest: Chain)
      requires |rest| <= |all| && rest == all[|all| - |rest|..]
      ensures (AllLive(h, all) ==> AllLive(h, rest)) && (Recycled(h, all) ==> Recycled(h, rest))
    {
      assert forall b :: b in rest ==> b in all;
    }

    lemma CleanReleasable(h0: Heap, h1: Heap, all: Chain, free: Chain)
      requires SentOnly(h0, h1, all) && Clean(h0, free) && Allocated(h0, free)
      ensures forall b :: b in free ==> Releasable(h1, b)
    {
      forall b | b in free ensures Releasable(h1, b) { assert !HoldsRaw(h0, b); }
    }

    lemma FreeRawsSame(h: Heap, k: Heap, c: Chain)
      requires FreeRaws(h, c) && k.raws == h.raws
      ensures FreeRaws(k, c) && HeadBytes(k, c) == HeadBytes(h, c)
      ensures (AllOfSize(h, size) ==> AllOfSize(k, size)) && (NoneFreed(h) ==> NoneFreed(k))
    {
    }

    lemma SendBooks(s: seq<Byte>, b: seq<Byte>, n: nat)
      requires n <= |b|
      ensures s + b[..n] <= s + b && s + b[..n] + b[n..] == s + b
    {
    }

    lemma AfterUpdate(h0: Heap, h1: Heap, h2: Heap, inq: Chain, out: Chain, busy: Chain, free: Chain)
      requires AllLive(h0, inq) && AllLive(h0, out) && AllLive(h1, busy)
      requires KeptAll(h0, h1, inq) && KeptAll(h0, h1, out)
      requires KeptAll(h1, h2, inq) && KeptAll(h1, h2, out) && KeptAll(h1, h2, busy)
      ensures KeptAll(h0, h2, inq) && KeptAll(h0, h2, out)
      ensures Bytes(h2, busy) == Bytes(h1, busy) && MemCount(h2, busy) == MemCount(h1, busy)
      ensures NonEmpty(h1, busy) ==> NonEmpty(h2, busy)
      ensures Recycled(h1, busy) ==> Recycled(h2, busy)
      ensures AllLive(h2, busy)
    {
      hide Bytes, MemCount, Kept, Recycled, NonEmpty, Live;
      KeptTrans(h0, h1, h2, inq);
      KeptTrans(h0, h1, h2, out);
      KeptBytes(h1, h2, busy);
      KeptRecycled(h1, h2, busy);
    }

    lemma AfterReclaim(h0: Heap, h2: Heap, h3: Heap, inq: Chain, out: Chain, busy: Chain)
      requires AllLive(h0, inq) && AllLive(h0, out) && AllLive(h2, busy)
      requires KeptAll(h0, h2, inq) && KeptAll(h0, h2, out)
      requires KeptAll(h2, h3, inq) && KeptAll(h2, h3, out) && KeptAll(h2, h3, busy)
      ensures KeptAll(h0, h3, inq) && KeptAll(h0, h3, out)
      ensures Bytes(h3, busy) == Bytes(h2, busy) && MemCount(h3, busy) == MemCount(h2, busy)
      ensures NonEmpty(h2, busy) ==> NonEmpty(h3, busy)
      ensures Recycled(h2, busy) ==> Recycled(h3, busy)
    {
      AfterUpdate(h0, h2, h3, inq, out, busy, []);
    }

    // ---------------------------------------------------------------- the temporary file

    /** The do-while loop of ngx_event_pipe_write_chain_to_temp_file: how many
        buffers from the start of `in` fit one write and the file. */
    method SpoolPrefix() returns (j: nat)
      requires inq != [] && AllMem(h, inq)
      ensures j <= |inq|
      ensures j > 0 ==> |Bytes(h, inq[..j])| <= tempFileWriteSize && offset + |Bytes(h, inq[..j])| <= maxTempFileSize
      ensures j < |inq| ==>
                var more := |Bytes(h, inq[..j])| + BufSize(h, inq[j]);
                more > tempFileWriteSize || offset + more > maxTempFileSize
    {
      hide Bytes, MemBuf, AllMem;
      var total := 0;
      var prevLastShadow := true;
      j := 0;
      NoBytes(h);
      assert inq[..0] == [];
      while true
        invariant 0 <= j < |inq| && prevLastShadow && total == |Bytes(h, inq[..j])|
        invariant j > 0 ==> total <= tempFileWriteSize && offset + total <= maxTempFileSize
        decreases |inq| - j
      {
        MemAt(h, inq, j);
        var b := h.bufs[inq[j]];
        var bsize := b.last - b.pos;
        BytesNext(h, inq, j);
        if prevLastShadow && (total + bsize > tempFileWriteSize || offset + total + bsize > maxTempFileSize) {
          break;
        }
        prevLastShadow := b.lastShadow;
        total := total + bsize;
        j := j + 1;
        if j == |inq| {
          break;
        }
      }
    }

    lemma NoBytes(h: Heap)
      ensures Bytes(h, []) == []
    {
    }

    lemma MemAt(h: Heap, c: Chain, i: nat)
      requires AllMem(h, c) && i < |c|
      ensures c[i] < |h.bufs| && h.bufs[c[i]].lastShadow && h.bufs[c[i]].pos <= h.bufs[c[i]].last
      ensures BufSize(h, c[i]) == h.bufs[c[i]].last - h.bufs[c[i]].pos && MemBuf(h, c[i])
    {
      assert c[i] in c;
      MemIndex(h, c[i]);
    }

    lemma BytesNext(h: Heap, c: Chain, i: nat)
      requires i < |c|
      ensures Bytes(h, c[..i + 1]) == Bytes(h, c[..i]) + BufBytes(h, c[i])
    {
      hide Bytes, BufBytes;
      assert c[..i + 1] == c[..i] + [c[i]];
      BytesConcat(h, c[..i], [c[i]]);
      BytesOne(h, c[i]);
    }

    /** The part of ngx_event_pipe_write_chain_to_temp_file that makes `out` cover
        the n bytes just written; c is what `in` was. */
    method AppendToOut(n: nat, ghost c: Chain)
      requires Chains(h, c, out, busy, free) && n > 0 && offset + n == |h.file|
      modifies `h, `out, `free, `offset
      ensures Chains(h, c, out, busy, free) && KeptAll(old(h), h, c) && KeptAll(old(h), h, busy)
      ensures h.raws == old(h.raws) && h.file == old(h.file) && offset == |h.file|
      ensures Bytes(h, out) == old(Bytes(h, out)) + h.file[old(offset)..]
      ensures old(NonEmpty(h, out)) ==> NonEmpty(h, out)
      ensures old(Clean(h, free)) ==> Clean(h, free)
    {
      hide Chains, Bytes, KeptAll, Clean, MemBuf, FileBuf, BufBytes;
      assert h.file[offset..offset + n] == h.file[offset..];
      ChainsLive(h, c, out, busy, free);
      if out != [] {
        var b := out[|out| - 1];
        LastOut(h, c, out, busy, free);
        if h.bufs[b].fileLast == offset {
          ghost var h0 := h;
          FileGrowStep(h, b, offset + n, c, out, busy, free);
          offset := offset + n;
          h := h.(bufs := h.bufs[b := h.bufs[b].(fileLast := offset)]);
          GrowNonEmpty(h0, h, out);
          return;
        }
      }
      ghost var h0 := h;
      TakeFreeStep(h, c, out, busy, free);
      ChainsAllocated(h, c, out, busy, free);
      TakeFreeClean(h, free);
      var (b, k, rest) := TakeFree(h, free);
      FileBufStep(k, b, offset, offset + n, c, out, busy, rest);
      KeptBytes(h, k, out);
      h, free := k, rest;
      h := NewFileBuf(h, b, offset, offset + n);
      offset := offset + n;
      AppendKept(h0, k, h, c, out, busy, free, b);
      out := out + [b];
    }

    lemma LastOut(h: Heap, c: Chain, out: Chain, busy: Chain, free: Chain)
      requires Chains(h, c, out, busy, free) && out != []
      ensures out[|out| - 1] < |h.bufs|
    {
      assert out[|out| - 1] in out && FileBuf(h, out[|out| - 1]);
    }

    lemma GrowNonEmpty(h0: Heap, k: Heap, out: Chain)
      requires out != [] && AllFile(h0, out) && KeptAll(h0, k, out[..|out| - 1])
      requires BufBytes(h0, out[|out| - 1]) <= BufBytes(k, out[|out| - 1])
      ensures NonEmpty(h0, out) ==> NonEmpty(k, out)
    {
      hide FileBuf, BufBytes;
      var front := out[..|out| - 1];
      forall b | b in out && NonEmpty(h0, out) ensures BufBytes(k, b) != [] {
        assert BufBytes(h0, b) != [];
        if b in front { assert Kept(h0, k, b) && FileBuf(h0, b); MemOrFile(h0, b); }
        else { assert out == front + [out[|out| - 1]]; }
      }
    }

    lemma TakeFreeClean(h: Heap, free: Chain)
      requires Allocated(h, free)
      ensures var (b, k, rest) := TakeFree(h, free);
              k.raws == h.raws && k.file == h.file && (Clean(h, free) ==> Clean(k, rest))
    {
      var (b, k, rest) := TakeFree(h, free);
      assert forall x :: x in rest ==> x in free;
    }

    lemma AppendKept(h0: Heap, k: Heap, m: Heap, c: Chain, out: Chain, busy: Chain, free: Chain, b: nat)
      requires Chains(h0, c, out, busy, free)
      requires KeptAll(h0, k, c) && KeptAll(h0, k, out) && KeptAll(h0, k, busy)
      requires KeptAll(k, m, c) && KeptAll(k, m, out) && KeptAll(k, m, busy)
      requires BufBytes(m, b) != []
      ensures KeptAll(h0, m, c) && KeptAll(h0, m, busy)
      ensures NonEmpty(h0, out) ==> NonEmpty(m, out + [b])
    {
      hide MemBuf, FileBuf, Live, BufBytes, Kept, Separate;
      MemIsLive(h0, c);
      FileIsLive(h0, out);
      KeptTrans(h0, k, m, c);
      KeptTrans(h0, k, m, out);
      KeptTrans(h0, k, m, busy);
      KeptBytes(h0, m, out);
    }

    /** The last loop of ngx_event_pipe_write_chain_to_temp_file: the written
        buffers go to `free`, their emptied raw buffers to the end of the free list. */
    method FreeSpooled(written: Chain)
      requires Chains(h, written + inq, out, busy, free) && FreeRaws(h, freeRaw) && AllOfSize(h, size) && size > 0
      modifies `h, `freeRaw, `free
      ensures Chains(h, inq, out, busy, free) && FreeRaws(h, freeRaw) && AllOfSize(h, size)
      ensures KeptAll(old(h), h, inq) && KeptAll(old(h), h, out) && KeptAll(old(h), h, busy)
      ensures |freeRaw| == |old(freeRaw)| + |written| && HeadBytes(h, freeRaw) == old(HeadBytes(h, freeRaw))
      ensures h.file == old(h.file) && |h.raws| == |old(h).raws| && (old(NoneFreed(h)) ==> NoneFreed(h))
      ensures old(Clean(h, free)) ==> Clean(h, free)
      ensures written == [] ==> h == old(h)
    {
      hide Chains, KeptAll, HeadBytes, FreeRaws, AllOfSize, NoneFreed, Clean, MemBuf;
      ghost var h0, fr0 := h, freeRaw;
      SpoolStart(h, written, inq, out, busy, free);
      var cl := written;
      while cl != []
        invariant Chains(h, cl + inq, out, busy, free) && FreeRaws(h, freeRaw) && AllOfSize(h, size)
        invariant KeptAll(h0, h, inq) && KeptAll(h0, h, out) && KeptAll(h0, h, busy)
        invariant |freeRaw| + |cl| == |fr0| + |written| && HeadBytes(h, freeRaw) == HeadBytes(h0, fr0)
        invariant h.file == h0.file && |h.raws| == |h0.raws| && (NoneFreed(h0) ==> NoneFreed(h))
        invariant old(Clean(h, free)) ==> Clean(h, free)
        invariant written == [] ==> h == h0
        decreases |cl|
      {
        var b := cl[0];
        ghost var h1, free1 := h, free;
        assert (cl + inq)[0] == b && (cl + inq)[1..] == cl[1..] + inq;
        SpoolHead(h, cl + inq, out, busy, free);
        MemIndex(h, b);
        SpoolStep(h, cl + inq, out, busy, free);
        SpoolFreeRaw(h, b, freeRaw, size);
        SpoolKept(h0, h, Unlinked(h, b, h.bufs[b].start), cl, inq, out, busy, free);
        free := [b] + free;
        if h.bufs[b].lastShadow {
          var r := h.bufs[b].shadow;
          freeRaw := freeRaw + [r];
          h := h.(raws := h.raws[r := h.raws[r].(pos := 0, last := 0)]);
          RemoveShadowLinks(r);
          assert h == Unlinked(h1, b, r);
        }
        cl := cl[1..];
      }
      assert cl + inq == inq;
    }

    lemma SpoolStart(h: Heap, w: Chain, inq: Chain, out: Chain, busy: Chain, free: Chain)
      requires Chains(h, w + inq, out, busy, free)
      ensures KeptAll(h, h, inq) && KeptAll(h, h, out) && KeptAll(h, h, busy)
      ensures AllLive(h, inq) && AllLive(h, out) && AllLive(h, busy)
    {
      SameKept(h, w + inq, out, busy, free);
      assert forall b :: b in inq ==> b in w + inq;
    }

    lemma SpoolHead(h: Heap, c: Chain, out: Chain, busy: Chain, free: Chain)
      requires Chains(h, c, out, busy, free) && c != []
      ensures MemBuf(h, c[0])
    {
      assert c[0] in c;
    }

    lemma SpoolKept(h0: Heap, h: Heap, k: Heap, cl: Chain, inq: Chain, out: Chain, busy: Chain, free: Chain)
      requires cl != [] && Chains(h, cl + inq, out, busy, free)
      requires KeptAll(h0, h, inq) && KeptAll(h0, h, out) && KeptAll(h0, h, busy)
      requires KeptAll(h, k, (cl + inq)[1..]) && KeptAll(h, k, out) && KeptAll(h, k, busy)
      requires AllLive(h0, inq) && AllLive(h0, out) && AllLive(h0, busy)
      ensures KeptAll(h0, k, inq) && KeptAll(h0, k, out) && KeptAll(h0, k, busy)
    {
      hide Kept, Live, Separate;
      assert forall b :: b in inq ==> b in (cl + inq)[1..] by { assert (cl + inq)[1..] == cl[1..] + inq; }
      KeptTrans(h0, h, k, inq);
      KeptTrans(h0, h, k, out);
      KeptTrans(h0, h, k, busy);
    }

    /** The file: everything cached goes behind the header, everything merely
        buffered stays within max_temp_file_size, and the offset is the file's end. */
    ghost predicate FileBooks()
      reads this
    {
      && offset == |h.file|
      && (bufToFile.Some? ==> cacheable && bufToFile.value == header && spooled == [] && offset == 0)
      && (cacheable ==> h.file == (if bufToFile.Some? then [] else header) + spooled)
      && (!cacheable ==> offset <= maxTempFileSize)
    }

    /** What writing the front of `in` to the temporary file does. */
    twostate predicate Written()
      reads this
    {
      && Chains(h, inq, out, busy, free) && FreeRaws(h, freeRaw) && AllOfSize(h, size)
      && FileBooks() && NonEmpty(h, out) && bufToFile == None
      && (cacheable ==> inq == []) && (!cacheable ==> |inq| < |old(inq)|)
      && |inq| <= |old(inq)| && inq == old(inq)[|old(inq)| - |inq|..]
      && |freeRaw| + |inq| == |old(freeRaw)| + |old(inq)|
      && HeadBytes(h, freeRaw) == old(HeadBytes(h, freeRaw))
      && KeptAll(old(h), h, busy) && KeptAll(old(h), h, inq)
      && Bytes(h, out) + Bytes(h, inq) == old(Bytes(h, out)) + old(Bytes(h, inq))
      && spooled + Bytes(h, inq) == old(spooled) + old(Bytes(h, inq))
      && |h.raws| == |old(h).raws| && (old(NoneFreed(h)) ==> NoneFreed(h))
      && (old(Clean(h, free)) ==> Clean(h, free))
      && (old(inq) == [] ==> h == old(h).(file := h.file) && old(h.file) <= h.file && out == old(out))
    }

    /** ngx_event_pipe_write_chain_to_temp_file.  Without a cache it must not be
        entered with an empty `in`: the do-while loop reads the first buffer. */
    method WriteChainToTempFile() returns (rc: Rc)
      requires Chains(h, inq, out, busy, free) && FreeRaws(h, freeRaw) && AllOfSize(h, size) && size > 0
      requires FileBooks() && NonEmpty(h, out)
      requires !cacheable ==> inq != []
      modifies `h, `freeRaw, `inq, `out, `free, `offset, `bufToFile, `spooled, `seen
      ensures seen == if rc == Abort then Refused(old(seen)) else old(seen)
      ensures rc == Ok || rc == Full || rc == Abort
      ensures rc == Full ==>
                && !cacheable && h == old(h) && freeRaw == old(freeRaw) && inq == old(inq) && out == old(out)
                && free == old(free) && offset == old(offset) && bufToFile == old(bufToFile) && spooled == old(spooled)
                && FileBooks()
      ensures rc == Ok ==> Written()
    {
      hide Chains, FreeRaws, AllOfSize, HeadBytes, KeptAll, Bytes, NoneFreed, Clean, NonEmpty, AllMem, AllFile, AllLive;
      ChainsLive(h, inq, out, busy, free);
      var j := |inq|;
      if !cacheable {
        j := SpoolPrefix();
        if j == 0 {
          return Full;
        }
      }
      var failed := *;
      if failed {
        seen := Refused(seen);
        return Abort;
      }
      WriteOut(j);
      return Ok;
    }

    /** The write to the temporary file: the first one puts the header in front. */
    method WriteBytes(bytes: seq<Byte>) returns (n: nat)
      requires FileBooks()
      modifies `h, `offset, `bufToFile, `spooled
      ensures n == |bytes| && h == old(h).(file := h.file) && old(h.file) <= h.file
      ensures offset + n == |h.file| && h.file[offset..] == bytes
      ensures bufToFile == None && spooled == old(spooled) + bytes && (!cacheable ==> offset == old(offset))
      ensures cacheable ==> h.file == header + spooled
    {
      var data := (if bufToFile.Some? then bufToFile.value else []) + bytes;
      h := h.(file := h.file + data);
      n := |data|;
      if bufToFile.Some? {
        offset := |bufToFile.value|;
        n := n - |bufToFile.value|;
        bufToFile := None;
      }
      Regroup(header, spooled, bytes);
      spooled := spooled + bytes;
    }

    /** The write of the first j buffers of `in`, and what follows it. */
    method WriteOut(j: nat)
      requires Chains(h, inq, out, busy, free) && FreeRaws(h, freeRaw) && AllOfSize(h, size) && size > 0
      requires FileBooks() && NonEmpty(h, out) && j <= |inq|
      requires if cacheable then j == |inq| else j > 0 && offset + |Bytes(h, inq[..j])| <= maxTempFileSize
      modifies `h, `freeRaw, `inq, `out, `free, `offset, `bufToFile, `spooled
      ensures Written()
    {
      hide Chains, FreeRaws, AllOfSize, HeadBytes, KeptAll, Bytes, NoneFreed, Clean, NonEmpty, AllMem, AllFile, AllLive;
      NoBytes(h);
      ghost var h0, inq0, out0 := h, inq, out;
      ChainsLive(h, inq, out, busy, free);
      var written := inq[..j];
      inq := inq[j..];
      SplitBytes(h, inq0, written, inq);
      var n := WriteBytes(Bytes(h, written));
      ghost var h1 := h;
      AppendFile(h0, h1, inq0, out, busy, free, freeRaw);
      CoverWritten(n, inq0);
      KeptTwice(h0, h1, h, inq0, busy);
      ghost var h2, free2 := h, free;
      FreeSpooled(written);
      SpoolDone(h0, h2, h, inq0, inq, out, busy, free2, old(free), out0);
      Regroup(Bytes(h0, out0), Bytes(h0, written), Bytes(h0, inq));
      Regroup(old(spooled), Bytes(h0, written), Bytes(h0, inq));
    }

    lemma Regroup(a: seq<Byte>, b: seq<Byte>, c: seq<Byte>)
      ensures a + b + c == a + (b + c)
    {
    }

    /** AppendToOut when there is something to append. */
    method CoverWritten(n: nat, ghost c: Chain)
      requires Chains(h, c, out, busy, free) && offset + n == |h.file| && FreeRaws(h, freeRaw) && NonEmpty(h, out)
      modifies `h, `out, `free, `offset
      ensures Chains(h, c, out, busy, free) && KeptAll(old(h), h, c) && KeptAll(old(h), h, busy)
      ensures h.raws == old(h.raws) && h.file == old(h.file) && offset == |h.file|
      ensures Bytes(h, out) == old(Bytes(h, out)) + h.file[old(offset)..] && NonEmpty(h, out)
      ensures old(Clean(h, free)) ==> Clean(h, free)
      ensures FreeRaws(h, freeRaw) && HeadBytes(h, freeRaw) == old(HeadBytes(h, freeRaw))
      ensures (old(AllOfSize(h, size)) ==> AllOfSize(h, size)) && (old(NoneFreed(h)) ==> NoneFreed(h))
      ensures n == 0 ==> h == old(h) && out == old(out)
    {
      hide Chains, FreeRaws, AllOfSize, HeadBytes, KeptAll, Bytes, NoneFreed, Clean, NonEmpty;
      ghost var h1 := h;
      if n > 0 {
        AppendToOut(n, c);
        FreeRawsSame(h1, h, freeRaw);
      } else {
        SameKept(h, c, out, busy, free);
      }
    }

    lemma SpoolDone(h0: Heap, h2: Heap, h3: Heap, inq0: Chain, inq: Chain, out: Chain, busy: Chain,
                    free2: Chain, free0: Chain, out0: Chain)
      requires Chains(h0, inq0, out0, busy, free0) && Chains(h2, inq0, out, busy, free2)
      requires |inq| <= |inq0| && inq == inq0[|inq0| - |inq|..]
      requires KeptAll(h0, h2, inq0) && KeptAll(h0, h2, busy)
      requires KeptAll(h2, h3, inq) && KeptAll(h2, h3, out) && KeptAll(h2, h3, busy)
      ensures KeptAll(h0, h3, busy) && KeptAll(h0, h3, inq)
      ensures Bytes(h3, out) == Bytes(h2, out) && Bytes(h3, inq) == Bytes(h0, inq)
      ensures NonEmpty(h2, out) ==> NonEmpty(h3, out)
    {
      hide Kept, Live, MemBuf, FileBuf, Separate, Bytes, NonEmpty;
      assert forall b :: b in inq ==> b in inq0;
      MemIsLive(h0, inq);
      FileIsLive(h2, out);
      KeptTwice(h0, h2, h3, inq, busy);
      KeptBytes(h0, h3, inq);
      KeptBytes(h2, h3, out);
    }

    lemma SplitBytes(h: Heap, c: Chain, w: Chain, rest: Chain)
      requires c == w + rest
      ensures Bytes(h, c) == Bytes(h, w) + Bytes(h, rest)
    {
      BytesConcat(h, w, rest);
    }

    lemma AppendFile(h: Heap, k: Heap, inq: Chain, out: Chain, busy: Chain, free: Chain, fr: Chain)
      requires Chains(h, inq, out, busy, free) && k == h.(file := k.file) && h.file <= k.file
      ensures Chains(k, inq, out, busy, free)
      ensures KeptAll(h, k, inq) && KeptAll(h, k, out) && KeptAll(h, k, busy)
      ensures Bytes(k, out) == Bytes(h, out) && (NonEmpty(h, out) ==> NonEmpty(k, out))
      ensures FreeRaws(h, fr) ==> FreeRaws(k, fr) && HeadBytes(k, fr) == HeadBytes(h, fr)
      ensures (AllOfSize(h, size) ==> AllOfSize(k, size)) && (NoneFreed(h) ==> NoneFreed(k))
      ensures Clean(h, free) ==> Clean(k, free)
    {
      hide MemBuf, FileBuf, Live, Bytes, Kept, Separate, NonEmpty, HeadBytes;
      MemIsLive(h, inq);
      FileIsLive(h, out);
      FileAppend(h, k, inq);
      FileAppend(h, k, out);
      FileAppend(h, k, busy);
      KeptChains(h, k, inq, out, busy, free);
      KeptBytes(h, k, out);
      if FreeRaws(h, fr) { FreeRawsSame(h, k, fr); }
      if Clean(h, free) { forall b | b in free ensures !HoldsRaw(k, b) { assert !HoldsRaw(h, b); } }
    }

    lemma KeptTwice(h0: Heap, h1: Heap, h2: Heap, c: Chain, d: Chain)
      requires AllLive(h0, c) && AllLive(h0, d)
      requires KeptAll(h0, h1, c) && KeptAll(h0, h1, d) && KeptAll(h1, h2, c) && KeptAll(h1, h2, d)
      ensures KeptAll(h0, h2, c) && KeptAll(h0, h2, d)
    {
      hide Kept, Live;
      KeptTrans(h0, h1, h2, c);
      KeptTrans(h0, h1, h2, d);
    }

    // ---------------------------------------------------------------- invariants

    ghost predicate Closed()
      reads this
    {
      upstreamEof || upstreamError || upstreamDone
    }

    ghost function FlagsNow(): Flags
      reads this
    {
      Flags(upstreamEof, upstreamError, downstreamError)
    }

    /** Everything the upstream has sent and the pipe will still hear of. */
    ghost function Heard(): seq<Byte>
      reads this
    {
      received + if Closed() then [] else ScriptText(script)
    }

    /** What the configuration checks guarantee: the busy buffers leave at least one
        buffer for the upstream. */
    ghost predicate Config()
    {
      0 < size && 0 < num && busySize <= (num - 1) * size
    }

    /** Every buffer is in one chain only; fr is the list of free raw buffers. */
    ghost predicate Struct(fr: Chain)
      reads this
    {
      && Chains(h, inq, out, busy, free) && FreeRaws(h, fr) && AllOfSize(h, size)
      && |h.raws| == allotted <= num
      && FileBooks() && NonEmpty(h, inq) && NonEmpty(h, out)
    }

    /** While the upstream is open every raw buffer is free (n of them), behind
        `in`, or behind `busy`, and those not free or behind `in` fit busy_size. */
    ghost predicate Accounts(n: nat)
      reads this
    {
      !Closed() ==>
        && NoneFreed(h) && Recycled(h, inq) && Recycled(h, busy)
        && n + |inq| <= allotted && (allotted - n - |inq|) * size <= busySize
        && (!downstreamError ==> n + |inq| + MemCount(h, busy) == allotted)
        && (cacheable ==> n + |inq| == allotted)
    }

    ghost predicate ClientSide()
      reads this
    {
      && !downstreamDone && pending == busy && NonEmpty(h, busy)
      && (if downstreamError then busy == [] else Clean(h, free))
    }

    /** The ledger: what came in is what was sent, then `busy`, then `out`, then `in`,
        then the partly filled head of the free raw buffers; and with a cache it is
        also what was spooled, then `in`, then that head. */
    ghost predicate Books(head: seq<Byte>)
      reads this
    {
      && sent <= received
      && (!downstreamError ==> received == sent + Bytes(h, busy) + (Bytes(h, out) + Bytes(h, inq)) + head)
      && (cacheable && !upstreamError ==> received == spooled + Bytes(h, inq) + head)
    }

    /** The upstream never sends more than the announced length. */
    ghost predicate Lengths(headLen: nat)
      reads this
    {
      if limited then 0 <= length && headLen + ScriptBytes(script) <= length else length == -1
    }

    ghost predicate Inv()
      reads this
    {
      && Config() && Struct(freeRaw) && Accounts(|freeRaw|) && ClientSide()
      && Books(HeadBytes(h, freeRaw)) && Lengths(|HeadBytes(h, freeRaw)|)
      && (upReady ==> script != [])
      && (cacheable && !upstreamError ==> inq == [])
      && (Closed() && !upstreamError ==> HeadBytes(h, freeRaw) == [])
    }

    /** The end of a transfer: everything received is sent or with the output
        filter, and the cache file holds the header and everything received. */
    ghost predicate Finished()
      reads this
    {
      && downstreamDone && Closed() && !downstreamError
      && received == sent + Bytes(h, pending) + HeadBytes(h, freeRaw)
      && (!upstreamError ==> HeadBytes(h, freeRaw) == [])
      && (cacheable && !upstreamError ==> h.file == header + received)
    }

    // ---------------------------------------------------------------- writing to the client

    method ClearRecycled(c: Chain)
      requires Allocated(h, c)
      modifies `h
      ensures Unrecycled(old(h), h)
      ensures forall b :: 0 <= b < |h.bufs| && b !in c ==> h.bufs[b] == old(h).bufs[b]
    {
      var i := 0;
      while i < |c|
        invariant 0 <= i <= |c| && Unrecycled(old(h), h)
        invariant forall b :: 0 <= b < |h.bufs| && b !in c ==> h.bufs[b] == old(h).bufs[b]
      {
        assert c[i] in c;
        h := h.(bufs := h.bufs[c[i] := h.bufs[c[i]].(recycled := false)]);
        i := i + 1;
      }
    }

    /** The part of ngx_event_pipe_write_to_downstream for a finished upstream that
        hands one chain to the output filter. */
    method FlushChain(c: Chain) returns (failed: bool)
      requires Chains(h, inq, out, busy, free) && FreeRaws(h, freeRaw) && AllOfSize(h, size)
      requires AllLive(h, pending + c) && NoDup(pending + c) && NonEmpty(h, pending + c)
      modifies `h, `pending, `sent, `downReady, `seen
      ensures seen == if failed then Rejected(old(seen)) else old(seen)
      ensures Chains(h, inq, out, busy, free) && FreeRaws(h, freeRaw) && AllOfSize(h, size)
      ensures HeadBytes(h, freeRaw) == old(HeadBytes(h, freeRaw)) && h.file == old(h.file) && |h.raws| == |old(h).raws|
      ensures sent + Bytes(h, pending) == old(sent) + old(Bytes(h, pending + c)) && old(sent) <= sent
      ensures AllLive(h, pending) && NoDup(pending) && NonEmpty(h, pending)
      ensures forall b :: b in pending ==> b in old(pending) || b in c
      ensures Disjoint(inq, old(pending) + c) ==> KeptAll(old(h), h, inq)
    {
      hide Chains, FreeRaws, AllOfSize, HeadBytes, Bytes, NonEmpty, AllLive, KeptAll, NoDup, Disjoint;
      var all := pending + c;
      ghost var h0, sent0 := h, sent;
      AllocatedLive(h, all, c);
      ClearRecycled(c);
      ghost var h1 := h;
      UnrecycledChains(h0, h1, inq, out, busy, free);
      UnrecycledBytes(h0, h1, all);
      UnrecycledLive(h0, h1, all);
      FreeRawsSame(h0, h1, freeRaw);
      failed := OutputFilter(c);
      ghost var n: nat :| Splits(h1, all, n, h, pending) && n <= |Bytes(h1, all)|
                          && sent == sent0 + Bytes(h1, all)[..n];
      SendBooks(sent0, Bytes(h1, all), n);
      SentChainsAll(h1, h, all, inq, out, busy, free);
      FreeRawsSame(h1, h, freeRaw);
      NoDupTailOf(all, pending);
      TailOf(h, all, pending);
      if Disjoint(inq, all) { FlushKeeps(h0, h1, h, n, all, c, inq, out, free); }
    }

    lemma FlushKeeps(h0: Heap, h1: Heap, h2: Heap, n: nat, all: Chain, c: Chain, inq: Chain, out: Chain, free: Chain)
      requires Chains(h0, inq, out, busy, free) && Unrecycled(h0, h1) && Splits(h1, all, n, h2, pending)
      requires forall b :: 0 <= b < |h0.bufs| && b !in c ==> h1.bufs[b] == h0.bufs[b]
      requires Disjoint(inq, all) && (forall b :: b in c ==> b in all)
      ensures KeptAll(h0, h2, inq)
    {
      hide Separate, Bytes, NonEmpty;
      forall b | b in inq ensures Kept(h0, h2, b) {
        assert MemBuf(h0, b) && b !in all && b !in c;
      }
    }

    lemma AllocatedLive(h: Heap, all: Chain, c: Chain)
      requires AllLive(h, all) && (forall b :: b in c ==> b in all)
      ensures Allocated(h, c)
    {
      forall b | b in c ensures b < |h.bufs| { assert Live(h, b); }
    }

    lemma UnrecycledLive(h: Heap, k: Heap, c: Chain)
      requires AllLive(h, c) && Unrecycled(h, k)
      ensures AllLive(k, c)
    {
      forall b | b in c ensures Live(k, b) { assert Live(h, b); }
    }

    lemma NoDupTailOf(all: Chain, rest: Chain)
      requires NoDup(all) && |rest| <= |all| && rest == all[|all| - |rest|..]
      ensures NoDup(rest) && forall b :: b in rest ==> b in all
    {
      var k := |all| - |rest|;
      forall i, j | 0 <= i < j < |rest| ensures rest[i] != rest[j] { assert all[k + i] != all[k + j]; }
    }

    /** What survives a failed flush. */
    ghost predicate Dropping(head: seq<Byte>)
      reads this
    {
      && Config() && Closed() && !downstreamDone
      && Chains(h, inq, out, busy, free) && FreeRaws(h, freeRaw) && AllOfSize(h, size)
      && |h.raws| == allotted <= num && FileBooks() && HeadBytes(h, freeRaw) == head
      && sent <= received && Lengths(|head|) && (upReady ==> script != [])
      && (cacheable && !upstreamError ==> received == spooled + head && inq == [])
      && (!upstreamError ==> head == [])
    }

    /** The final flush in progress: the output filter holds `pending`. */
    ghost predicate Flushing(head: seq<Byte>)
      reads this
    {
      && Dropping(head) && !downstreamError
      && AllLive(h, pending) && NoDup(pending) && NonEmpty(h, pending) && NonEmpty(h, inq) && NonEmpty(h, out)
      && Disjoint(inq, pending) && (out == [] || pending == busy)
      && received == sent + Bytes(h, pending) + (Bytes(h, out) + Bytes(h, inq)) + head
    }

    method FlushOut(ghost head: seq<Byte>) returns (failed: bool)
      requires Flushing(head) && out != []
      modifies `h, `out, `pending, `sent, `downReady, `seen
      ensures seen == if failed then Rejected(old(seen)) else old(seen)
      ensures old(sent) <= sent && Dropping(head)
      ensures !failed ==> Flushing(head) && out == []
    {
      hide Chains, FreeRaws, AllOfSize, HeadBytes, Bytes, NonEmpty, KeptAll, AllLive, NoDup, Disjoint;
      ghost var h0, p0, s0, out0 := h, pending, sent, out;
      OutJoins(h, inq, out, busy, free);
      BytesConcat(h, pending, out);
      failed := FlushChain(out);
      OutFlushed(h0, h, inq, out, busy, free, pending);
      Ledger(received, s0, sent, Bytes(h0, p0), Bytes(h0, out), Bytes(h0, inq), head, Bytes(h, pending));
      if !failed {
        ChainsDrop(h, inq, out, busy, free);
        out := [];
        NoBytes(h);
        NothingEmpty(h);
      }
    }

    lemma OutJoins(h: Heap, inq: Chain, out: Chain, busy: Chain, free: Chain)
      requires Chains(h, inq, out, busy, free) && NonEmpty(h, busy) && NonEmpty(h, out)
      ensures AllLive(h, busy + out) && NoDup(busy + out) && NonEmpty(h, busy + out) && Disjoint(inq, busy + out)
    {
      hide MemBuf, FileBuf, BufBytes;
      forall b | b in busy + out ensures Live(h, b) { assert b in busy || b in out; MemOrFile(h, b); }
      assert forall b :: b in out ==> b !in busy;
      NoDupJoin(busy, out);
    }

    lemma OutFlushed(h0: Heap, h1: Heap, inq: Chain, out: Chain, busy: Chain, free: Chain, pending: Chain)
      requires Chains(h0, inq, out, busy, free) && KeptAll(h0, h1, inq)
      requires forall b :: b in pending ==> b in busy || b in out
      ensures Disjoint(inq, pending) && Bytes(h1, inq) == Bytes(h0, inq) && (NonEmpty(h0, inq) ==> NonEmpty(h1, inq))
    {
      hide MemBuf, FileBuf, Bytes, Kept, NonEmpty;
      MemIsLive(h0, inq);
      KeptBytes(h0, h1, inq);
    }

    /** Moving bytes from one column of the ledger to the next. */
    lemma Ledger(r: seq<Byte>, s0: seq<Byte>, s1: seq<Byte>, p0: seq<Byte>, o: seq<Byte>, i: seq<Byte>, head: seq<Byte>,
                 p1: seq<Byte>)
      requires r == s0 + p0 + (o + i) + head && s1 + p1 == s0 + (p0 + o)
      ensures r == s1 + p1 + i + head && r == s1 + p1 + ([] + i) + head && s1 <= r
    {
      assert [] + i == i;
      assert s0 + p0 + (o + i) + head == s0 + (p0 + o) + i + head;
      assert s1 + p1 + i + head == s1 + (p1 + i + head);
    }

    method FlushIn(ghost head: seq<Byte>) returns (failed: bool)
      requires Flushing(head) && out == [] && inq != []
      modifies `h, `inq, `pending, `sent, `downReady, `seen
      ensures seen == if failed then Rejected(old(seen)) else old(seen)
      ensures old(sent) <= sent && Dropping(head)
      ensures !failed ==> Flushing(head) && out == [] && inq == []
    {
      hide Chains, FreeRaws, AllOfSize, HeadBytes, Bytes, NonEmpty, KeptAll, AllLive, NoDup, Disjoint;
      ghost var h0, p0, s0 := h, pending, sent;
      InJoins(h, inq, out, busy, free);
      BytesConcat(h, pending, inq);
      failed := FlushChain(inq);
      NoBytes(h0);
      NoBytes(h);
      assert Bytes(h0, inq) + [] == Bytes(h0, inq) && [] + Bytes(h0, inq) == Bytes(h0, inq);
      Ledger(received, s0, sent, Bytes(h0, p0), Bytes(h0, inq), [], head, Bytes(h, pending));
      if !failed {
        ChainsDrop(h, inq, out, busy, free);
        inq := [];
        NothingEmpty(h);
        NothingMeets(pending);
      }
    }

    lemma InJoins(h: Heap, inq: Chain, out: Chain, busy: Chain, free: Chain)
      requires Chains(h, inq, out, busy, free) && AllLive(h, pending) && NoDup(pending) && Disjoint(inq, pending)
      requires NonEmpty(h, pending) && NonEmpty(h, inq)
      ensures AllLive(h, pending + inq) && NoDup(pending + inq) && NonEmpty(h, pending + inq)
    {
      hide MemBuf, FileBuf, BufBytes;
      forall b | b in pending + inq ensures Live(h, b) { assert b in pending || b in inq; MemOrFile(h, b); }
      assert forall b :: b in pending ==> b !in inq;
      NoDupJoin(pending, inq);
    }

    lemma NothingMeets(c: Chain)
      ensures Disjoint([], c)
    {
    }

    method DropAll(ghost head: seq<Byte>)
      requires Dropping(head)
      modifies `h, `freeRaw, `inq, `out, `busy, `free, `pending, `downstreamError
      ensures Inv() && downstreamError && inq == []
    {
      hide Chains, FreeRaws, AllOfSize, HeadBytes, Bytes, NonEmpty;
      downstreamError := true;
      pending := [];
      DrainChains();
      NothingEmpty(h);
      NoBytes(h);
    }

    /** The busy buffers are no longer to be recycled. */
    method BeginFlush() returns (ghost head: seq<Byte>)
      requires Inv() && Closed() && !downstreamError
      modifies `h
      ensures Flushing(head)
    {
      hide Chains, FreeRaws, AllOfSize, HeadBytes, Bytes, NonEmpty, AllLive, NoDup, Disjoint, Accounts, Clean;
      head := HeadBytes(h, freeRaw);
      ghost var h0 := h;
      ChainsLive(h, inq, out, busy, free);
      AllocatedLive(h, busy, busy);
      ClearRecycled(busy);
      FlushStart(h0, h, inq, out, busy, free);
      FreeRawsSame(h0, h, freeRaw);
      NoBytes(h);
      assert received == spooled + Bytes(h, []) + head ==> received == spooled + head;
    }

    /** A write with nothing in `in`: only a header still waiting goes to the file. */
    method WriteHeader() returns (rc: Rc)
      requires Chains(h, inq, out, busy, free) && FreeRaws(h, freeRaw) && AllOfSize(h, size) && size > 0
      requires FileBooks() && NonEmpty(h, out) && cacheable && inq == []
      modifies `h, `freeRaw, `inq, `out, `free, `offset, `bufToFile, `spooled, `seen
      ensures seen == if rc == Abort then Refused(old(seen)) else old(seen)
      ensures rc == Ok || rc == Abort
      ensures rc == Ok ==> h == old(h).(file := h.file) && old(h.file) <= h.file && h.file == header + spooled
      ensures rc == Ok ==> spooled == old(spooled) && inq == [] && HeadBytes(h, freeRaw) == old(HeadBytes(h, freeRaw))
    {
      hide Chains, FreeRaws, AllOfSize, HeadBytes, Bytes, NonEmpty, KeptAll, NoneFreed, Clean;
      NoBytes(h);
      rc := WriteChainToTempFile();
      NoBytes(h);
      if rc == Ok {
        assert spooled + Bytes(h, inq) == spooled && old(spooled + Bytes(h, inq)) == old(spooled);
      }
    }

    /** With nothing left to pass on, a header still waiting is written. */
    method EndFlush(ghost head: seq<Byte>) returns (rc: Rc)
      requires Flushing(head) && out == [] && inq == []
      modifies `h, `freeRaw, `inq, `out, `free, `downstreamDone, `offset, `bufToFile, `spooled, `seen
      ensures seen == if rc == Abort then Refused(old(seen)) else old(seen)
      ensures rc == Ok || rc == Abort
      ensures rc == Ok ==> Finished()
    {
      hide Chains, FreeRaws, AllOfSize, HeadBytes, Bytes, NonEmpty, AllLive, KeptAll, NoDup, Disjoint, Accounts, Clean;
      NoBytes(h);
      FlushedBooks(sent, Bytes(h, pending), head);
      if cacheable && bufToFile.Some? {
        ghost var h1 := h;
        rc := WriteHeader();
        if rc == Abort {
          return Abort;
        }
        FileAppend(h1, h, pending);
        KeptBytes(h1, h, pending);
      }
      downstreamDone := true;
      return Ok;
    }

    /** ngx_event_pipe_write_to_downstream once the upstream has ended: everything
        left goes to the output filter. */
    method Flush() returns (rc: Rc)
      requires Inv() && Closed() && !downstreamError
      modifies `h, `freeRaw, `inq, `out, `busy, `free, `pending, `sent, `downReady, `downstreamError, `downstreamDone,
               `offset, `bufToFile, `spooled, `seen
      ensures seen == if rc == Abort then Refused(old(seen))
                      else if downstreamError then Rejected(old(seen)) else old(seen)
      ensures rc == Abort ==> !downstreamError
      ensures rc == Ok || rc == Abort
      ensures old(sent) <= sent <= received
      ensures rc == Ok ==> if downstreamError then Inv() else Finished()
    {
      hide Inv, Finished, Flushing, Dropping;
      ghost var head := BeginFlush();
      FlushLedger(head);
      if out != [] {
        var failed := FlushOut(head);
        DropLedger(head);
        if failed {
          DropAll(head);
          return Ok;
        }
      }
      if inq != [] {
        var failed := FlushIn(head);
        DropLedger(head);
        if failed {
          DropAll(head);
          return Ok;
        }
      }
      rc := EndFlush(head);
    }

    lemma DropLedger(head: seq<Byte>)
      requires Dropping(head)
      ensures sent <= received
    {
    }

    lemma FlushLedger(head: seq<Byte>)
      requires Flushing(head)
      ensures sent <= received && Dropping(head)
    {
    }

    lemma FlushStart(h0: Heap, h1: Heap, inq: Chain, out: Chain, busy: Chain, free: Chain)
      requires Chains(h0, inq, out, busy, free) && Unrecycled(h0, h1)
      ensures Chains(h1, inq, out, busy, free) && Disjoint(inq, busy)
      ensures Bytes(h1, inq) == Bytes(h0, inq) && Bytes(h1, out) == Bytes(h0, out) && Bytes(h1, busy) == Bytes(h0, busy)
      ensures forall c: Chain :: NonEmpty(h0, c) ==> NonEmpty(h1, c)
      ensures AllLive(h1, busy) && NoDup(busy)
    {
      hide Bytes, NonEmpty;
      UnrecycledChains(h0, h1, inq, out, busy, free);
      UnrecycledBytes(h0, h1, inq);
      UnrecycledBytes(h0, h1, out);
      UnrecycledBytes(h0, h1, busy);
    }

    lemma FlushedBooks(s: seq<Byte>, p: seq<Byte>, head: seq<Byte>)
      ensures s + p + ([] + []) + head == s + p + head
    {
      assert s + p + ([] + []) == s + p;
    }

    /** Chains gathered for the output filter, before it is called: as Inv, with
        `more` counted as busy already. */
    ghost predicate Gathered(more: Chain)
      reads this
    {
      && Config() && !Closed() && !downstreamError && !downstreamDone && pending == busy
      && Chains(h, inq, out, busy + more, free) && FreeRaws(h, freeRaw) && AllOfSize(h, size)
      && |h.raws| == allotted <= num && FileBooks()
      && NonEmpty(h, inq) && NonEmpty(h, out) && NonEmpty(h, busy + more) && Clean(h, free)
      && NoneFreed(h) && Recycled(h, inq) && Recycled(h, busy + more)
      && |freeRaw| + |inq| + MemCount(h, busy + more) == allotted
      && MemCount(h, busy + more) * size <= busySize && (cacheable ==> MemCount(h, busy + more) == 0)
      && sent <= received
      && received == sent + Bytes(h, busy + more) + (Bytes(h, out) + Bytes(h, inq)) + HeadBytes(h, freeRaw)
      && (cacheable ==> received == spooled + Bytes(h, inq) + HeadBytes(h, freeRaw) && inq == [])
      && Lengths(|HeadBytes(h, freeRaw)|) && (upReady ==> script != [])
    }

    /** Which buffers go to the output filter next: none and a flush if the busy
        ones fill busy_size, else what Collect takes. */
    method Gather() returns (more: Chain, flush: bool)
      requires Inv() && !Closed() && !downstreamError
      modifies `inq, `out
      ensures Gathered(more)
      ensures |out| + |inq| + |more| == |old(out)| + |old(inq)|
      ensures more == [] ==> out == old(out) && inq == old(inq)
      ensures more == [] && !flush ==> out == [] && (cacheable || inq == [])
      ensures more == [] && flush ==> MemCount(h, busy) * size + size > busySize
    {
      hide Chains, FreeRaws, AllOfSize, HeadBytes, Bytes, NonEmpty, AllMem, AllFile, AllLive, NoDup, Recycled, Clean,
           MemCount;
      ChainsLive(h, inq, out, busy, free);
      var bsize := BusyBytes();
      BusyWithin(|freeRaw|);
      if bsize >= busySize {
        GatherNothing();
        return [], true;
      }
      ghost var inq0, out0 := inq, out;
      more, flush := Collect(bsize);
      ghost var j := |more| - |out0|;
      CollectChains(h, inq0, out0, busy, free, j);
      CollectCounts(h, inq0, out0, busy, j);
      CollectFlags(h, inq0, out0, busy, j);
      Scaled(MemCount(h, busy), j);
      NoBytes(h);
      NothingEmpty(h);
      GatherBooks(sent, Bytes(h, busy), Bytes(h, more), Bytes(h, inq), Bytes(h, out0) + Bytes(h, inq0));
      if cacheable { assert MemCount(h, busy) == 0; }
    }

    lemma BusyWithin(n: nat)
      requires Inv() && !Closed() && !downstreamError && n == |freeRaw|
      ensures MemCount(h, busy) * size <= busySize
      ensures cacheable ==> MemCount(h, busy) == 0
    {
      hide MemCount, Struct, ClientSide, Books, Lengths;
      assert allotted - n - |inq| == MemCount(h, busy);
    }

    lemma Scaled(m: nat, j: nat)
      ensures (m + j) * size == m * size + j * size
    {
    }

    lemma GatherNothing()
      requires Inv() && !Closed() && !downstreamError
      ensures Gathered([])
    {
      hide Chains, FreeRaws, AllOfSize, HeadBytes, Bytes, NonEmpty, Recycled, Clean, MemCount;
      assert busy + [] == busy;
      BusyWithin(|freeRaw|);
    }

    lemma CollectFlags(h: Heap, inq: Chain, out: Chain, busy: Chain, j: nat)
      requires j <= |inq| && AllFile(h, out) && AllMem(h, inq) && Recycled(h, inq) && Recycled(h, busy)
      requires NonEmpty(h, inq) && NonEmpty(h, out) && NonEmpty(h, busy)
      ensures Recycled(h, inq[j..]) && Recycled(h, busy + (out + inq[..j]))
      ensures NonEmpty(h, inq[j..]) && NonEmpty(h, busy + (out + inq[..j]))
    {
      hide BufBytes;
      assert forall b :: b in inq[j..] || b in inq[..j] ==> b in inq;
      assert forall b :: b in out ==> FileBuf(h, b);
    }

    lemma GatherBooks(s: seq<Byte>, b: seq<Byte>, m: seq<Byte>, i: seq<Byte>, oi: seq<Byte>)
      requires m + i == oi
      ensures s + (b + m) + ([] + i) == s + b + oi
    {
      assert s + (b + m) + ([] + i) == s + b + (m + i);
    }

    /** The output filter is called with what was gathered. */
    method PassGathered(more: Chain)
      requires Gathered(more)
      modifies `h, `freeRaw, `inq, `out, `busy, `free, `pending, `sent, `downReady, `downstreamError, `seen
      ensures seen == if downstreamError then Rejected(old(seen)) else old(seen)
      ensures Inv() && old(sent) <= sent
      ensures downstreamError ==> inq == [] && out == []
      ensures !downstreamError ==> inq == old(inq) && out == old(out)
    {
      hide Chains, FreeRaws, AllOfSize, HeadBytes, Bytes, NonEmpty, Recycled, Clean, MemCount, KeptAll, NoneFreed;
      ghost var h0, inq0, out0, free0, all, s0, n0 := h, inq, out, free, busy + more, sent, |freeRaw|;
      ChainsLive(h, inq, out, all, free);
      PassOn(more);
      PrefixOfBooks(s0, sent, Bytes(h0, all), Bytes(h0, out0) + Bytes(h0, inq0), HeadBytes(h, freeRaw));
      if downstreamError {
        NothingEmpty(h);
        NothingRecycled(h);
        NoBytes(h);
        NoBytes(h0);
        MulLe(allotted - |freeRaw|, MemCount(h0, all));
      } else {
        PassedBooks(h0, h, inq, out);
        MulLe(MemCount(h, busy), MemCount(h0, all));
      }
    }

    lemma PassedBooks(h0: Heap, k: Heap, inq: Chain, out: Chain)
      requires AllLive(h0, inq) && AllLive(h0, out) && KeptAll(h0, k, inq) && KeptAll(h0, k, out)
      ensures Bytes(k, inq) == Bytes(h0, inq) && Bytes(k, out) == Bytes(h0, out)
      ensures (NonEmpty(h0, inq) ==> NonEmpty(k, inq)) && (NonEmpty(h0, out) ==> NonEmpty(k, out))
      ensures Recycled(h0, inq) ==> Recycled(k, inq)
    {
      hide Bytes, NonEmpty, Recycled, Kept, Live;
      KeptBytes(h0, k, inq);
      KeptBytes(h0, k, out);
    }

    lemma PrefixOfBooks(s0: seq<Byte>, s1: seq<Byte>, b: seq<Byte>, oi: seq<Byte>, head: seq<Byte>)
      requires s0 <= s1 <= s0 + b
      ensures s1 <= s0 + b + oi + head
    {
    }

    lemma MulLe(a: nat, b: nat)
      ensures a <= b ==> a * size <= b * size
    {
    }

    /** After a failed client everything that still arrives is dropped. */
    method DropMore()
      requires Inv() && downstreamError
      modifies `h, `freeRaw, `inq, `out, `busy, `free
      ensures Inv() && inq == [] && out == []
    {
      hide Chains, FreeRaws, AllOfSize, HeadBytes, Bytes, NonEmpty, NoneFreed;
      NoMem(h);
      NoBytes(h);
      DrainChains();
      NothingEmpty(h);
      NoBytes(h);
      NothingRecycled(h);
    }

    lemma NothingRecycled(h: Heap)
      ensures Recycled(h, [])
    {
    }

    /** The client could take more, but what it has not taken yet leaves no room. */
    ghost predicate BusyFull()
      reads this
    {
      downReady && MemCount(h, busy) * size + size > busySize
    }

    /** There is no buffer to read into, none may be spooled, and the client cannot
        take more. */
    ghost predicate Stuck()
      reads this
    {
      freeRaw == [] && allotted == num && !cacheable && !downReady
    }

    /** The client cannot take more, or has been given all there is: with a cache what
        has been spooled, and that is everything, as `in` is empty then. */
    ghost predicate PassedOn()
      reads this
    {
      !downReady || (out == [] && (cacheable || inq == []))
    }

    /** ngx_event_pipe_write_to_downstream */
    method WriteToDownstream() returns (rc: Rc)
      requires Inv()
      modifies `h, `freeRaw, `inq, `out, `busy, `free, `pending, `sent, `downReady, `downstreamError, `downstreamDone,
               `offset, `bufToFile, `spooled, `seen
      ensures seen == Noted(old(seen), old(FlagsNow()), FlagsNow(), rc == Abort) && Lasting(old(FlagsNow()), FlagsNow())
      ensures rc == Ok || rc == Abort || rc == Full
      ensures old(sent) <= sent <= received && Heard() == old(Heard()) && Work() == old(Work())
      ensures rc != Abort ==> if downstreamDone then Finished() else Inv()
      ensures rc != Abort && !downstreamError && Closed() ==> downstreamDone
      ensures rc == Ok && !downstreamDone && !Closed() ==> PassedOn()
      ensures rc == Full ==> BusyFull()
    {
      hide Inv, Finished, Gathered, MemCount;
      InvLedger();
      var flushed := 0;
      while true
        invariant Inv() && old(sent) <= sent <= received
        invariant seen == old(seen) && downstreamError == old(downstreamError)
        invariant 0 <= flushed <= 11
        decreases |out| + |inq|, 12 - flushed
      {
        if downstreamError {
          DropMore();
          InvClient();
          return Ok;
        }
        if upstreamEof || upstreamError || upstreamDone {
          rc := Flush();
          InvClient();
          return;
        }
        if !downReady {
          InvClient();
          return Ok;
        }
        var more, flush := Gather();
        if more == [] {
          if !flush {
            GatheredNothing();
            InvClient();
            return Ok;
          }
          if flushed > 10 {
            GatheredNothing();
            InvClient();
            return Full;
          }
          flushed := flushed + 1;
        }
        PassGathered(more);
        InvLedger();
        if downstreamError {
          InvClient();
          return Ok;
        }
      }
    }

    lemma InvLedger()
      requires Inv()
      ensures sent <= received
    {
    }

    lemma InvClient()
      ensures Inv() ==> !downstreamDone && sent <= received
      ensures Finished() ==> downstreamDone
    {
    }

    lemma GatheredNothing()
      requires Gathered([])
      ensures Inv()
    {
      hide Chains, FreeRaws, AllOfSize, HeadBytes, Bytes, NonEmpty, Recycled, Clean, MemCount, NoneFreed;
      assert busy + [] == busy;
    }

    // ---------------------------------------------------------------- the upstream side

    /** Inside ngx_event_pipe_read_upstream: fr is the list of free raw buffers and
        `head` what was received but not yet passed to the input filter. */
    ghost predicate Reading(fr: Chain, head: seq<Byte>)
      reads this
    {
      !Closed() && Mid(fr, |fr|, head)
    }

    /** The same with n raw buffers counted as free, whether open or not. */
    ghost predicate Mid(fr: Chain, n: nat, head: seq<Byte>)
      reads this
    {
      && Config() && Struct(fr) && Accounts(n) && ClientSide()
      && Books(head) && Lengths(|head|) && (upReady ==> script != [])
    }

    /** The input filter on raw buffer r, which is no longer in the free list fr. */
    method PassRaw(r: nat, ghost fr: Chain, ghost rest: seq<Byte>)
      requires Mid(fr, |fr| + 1, RawBytes(h, r) + rest)
      requires Unshadowed(h, r) && !h.raws[r].freed && r !in fr
      modifies `h, `inq, `free, `length
      ensures Mid(fr, if old(h).raws[r].last == 0 then |fr| + 1 else |fr|, rest)
      ensures old(h).raws[r].last == 0 ==> inq == old(inq)
      ensures |h.raws| == |old(h).raws| && forall q :: 0 <= q < |h.raws| && q != r ==> h.raws[q] == old(h).raws[q]
      ensures !limited ==> length == old(length)
      ensures limited ==> length == old(length) - |old(RawBytes(h, r))|
      ensures old(NoneFreed(h)) ==> NoneFreed(h)
    {
      hide Chains, FreeRaws, AllOfSize, HeadBytes, Bytes, NonEmpty, Recycled, Clean, MemCount, NoneFreed, KeptAll,
           RawBytes;
      ghost var h0, inq0 := h, inq;
      ChainsLive(h, inq, out, busy, free);
      RawLength(h, r);
      NothingBefore(rest);
      CopyInputFilter(r);
      OnlyLinked(h0, h, r, fr);
      KeptBytes(h0, h, busy);
      KeptBytes(h0, h, out);
      FilterLedger(sent, Bytes(h, busy), Bytes(h, out), Bytes(h0, inq0), RawBytes(h0, r), rest);
      assert spooled + (Bytes(h0, inq0) + RawBytes(h0, r)) + rest
             == spooled + Bytes(h0, inq0) + (RawBytes(h0, r) + rest);
    }

    lemma OnlyLinked(h: Heap, k: Heap, r: nat, fr: Chain)
      requires |k.raws| == |h.raws| && r < |h.raws| && r !in fr && FreeRaws(h, fr)
      requires forall q :: 0 <= q < |h.raws| && q != r ==> k.raws[q] == h.raws[q]
      requires k.raws[r] == h.raws[r].(shadow := k.raws[r].shadow)
      ensures FreeRaws(k, fr) && HeadBytes(k, fr) == HeadBytes(h, fr)
      ensures (AllOfSize(h, size) ==> AllOfSize(k, size)) && (NoneFreed(h) ==> NoneFreed(k))
    {
      assert forall i :: 0 <= i < |fr| ==> fr[i] in fr && Unshadowed(h, fr[i]);
    }

    lemma FilterLedger(s: seq<Byte>, b: seq<Byte>, o: seq<Byte>, i: seq<Byte>, raw: seq<Byte>, rest: seq<Byte>)
      ensures s + b + (o + (i + raw)) + rest == s + b + (o + i) + (raw + rest)
    {
    }

    /** If every raw buffer is allocated and none is free, `in` is not empty: the
        busy ones cannot be all of them. */
    lemma NeverStarved(head: seq<Byte>)
      requires Reading([], head) && allotted == num
      ensures inq != []
    {
      hide Struct, ClientSide, Books, Lengths;
      if inq == [] {
        OneLess(num);
        assert false;
      }
    }

    lemma OneLess(n: nat)
      ensures n > 0 ==> n * size == (n - 1) * size + size
    {
    }

    /** The ways to get raw buffers to read into: free ones, a new one, or, by
        spooling, ones that `in` holds; or to do without. */
    method TakeChain() returns (what: Take, chain: Chain)
      requires Reading(freeRaw, HeadBytes(h, freeRaw))
      modifies `h, `freeRaw, `inq, `out, `free, `allotted, `offset, `bufToFile, `spooled, `upstreamBlocked, `seen
      ensures seen == if what.Leave? then Refused(old(seen)) else old(seen)
      ensures what.Go? && (if cacheable then old(inq) == [] else downReady) ==> inq == old(inq) && out == old(out)
      ensures what.Stop? ==> out == old(out)
      ensures what.Go? ==> chain != [] && Reading(chain + freeRaw, HeadBytes(h, chain + freeRaw))
      ensures what.Stop? ==> Reading(freeRaw, HeadBytes(h, freeRaw)) && inq == old(inq)
      ensures what.Stop? && upstreamBlocked && !old(upstreamBlocked) ==>
                !cacheable && downReady && inq != [] && freeRaw == []
      ensures !what.Stop? ==> upstreamBlocked == old(upstreamBlocked)
      ensures what.Stop? ==> upstreamBlocked || Stuck()
    {
      hide Reading, HeadBytes;
      if freeRaw != [] {
        chain := TakeFreeRaw();
        return Go, chain;
      } else if allotted < num {
        var enough := *;
        if !enough {
          seen := Refused(seen);
          return Leave, [];
        }
        chain := AllotRaw();
        return Go, chain;
      }
      AllAllotted();
      NeverStarved(HeadBytes(h, freeRaw));
      if !cacheable && downReady {
        BlockUpstream();
        return Stop, [];
      } else if cacheable || offset < maxTempFileSize {
        var rc := Spool();
        if rc == Full {
          return Stop, [];
        }
        if rc != Ok {
          return Leave, [];
        }
        chain := TakeFreeRaw();
        return Go, chain;
      } else {
        return Stop, [];
      }
    }

    method BlockUpstream()
      requires Reading(freeRaw, HeadBytes(h, freeRaw))
      modifies `upstreamBlocked
      ensures Reading(freeRaw, HeadBytes(h, freeRaw)) && upstreamBlocked
    {
      hide Chains, FreeRaws, AllOfSize, HeadBytes, Bytes, NonEmpty, Recycled, Clean, MemCount, NoneFreed, ScriptBytes;
      upstreamBlocked := true;
    }

    method TakeFreeRaw() returns (chain: Chain)
      requires freeRaw != [] && Reading(freeRaw, HeadBytes(h, freeRaw))
      modifies `freeRaw
      ensures chain != [] && Reading(chain + freeRaw, HeadBytes(h, chain + freeRaw))
    {
      hide Chains, FreeRaws, AllOfSize, HeadBytes, Bytes, NonEmpty, Recycled, Clean, MemCount, NoneFreed, ScriptBytes;
      if singleBuf {
        chain := [freeRaw[0]];
        freeRaw := freeRaw[1..];
      } else {
        chain := freeRaw;
        freeRaw := [];
      }
      assert chain + freeRaw == old(freeRaw);
    }

    lemma AllAllotted()
      requires Reading(freeRaw, HeadBytes(h, freeRaw)) && allotted >= num
      ensures allotted == num
    {
      hide Accounts, ClientSide, Books, Lengths;
    }

    /** ngx_create_temp_buf for one more raw buffer. */
    method AllotRaw() returns (chain: Chain)
      requires Reading(freeRaw, HeadBytes(h, freeRaw)) && freeRaw == [] && allotted < num
      modifies `h, `allotted
      ensures chain != [] && Reading(chain + freeRaw, HeadBytes(h, chain + freeRaw))
    {
      hide Chains, FreeRaws, AllOfSize, HeadBytes, Bytes, NonEmpty, Recycled, Clean, MemCount, NoneFreed;
      ghost var h0 := h;
      NewRawStep(h, size);
      RawsOnly(h, NewRaw(h, size), inq, out, busy, free);
      NoHead(h);
      h := NewRaw(h, size);
      chain := [allotted];
      allotted := allotted + 1;
      assert chain + freeRaw == chain;
    }

    lemma NoHead(h: Heap)
      ensures HeadBytes(h, []) == []
    {
    }

    /** Spooling from the upstream half: everything stays in order, and what was spooled
        frees its raw buffers. */
    method SpoolSome() returns (rc: Rc)
      requires Mid(freeRaw, |freeRaw|, HeadBytes(h, freeRaw)) && (!cacheable ==> inq != [])
      modifies `h, `freeRaw, `inq, `out, `free, `offset, `bufToFile, `spooled, `seen
      ensures seen == if rc == Abort then Refused(old(seen)) else old(seen)
      ensures rc == Ok || rc == Full || rc == Abort
      ensures rc != Abort ==> Mid(freeRaw, |freeRaw|, HeadBytes(h, freeRaw))
      ensures rc == Ok ==> |freeRaw| + |inq| == |old(freeRaw)| + |old(inq)|
      ensures rc == Ok ==> HeadBytes(h, freeRaw) == old(HeadBytes(h, freeRaw))
      ensures rc == Ok ==> if cacheable then inq == [] else |inq| < |old(inq)|
      ensures rc == Full ==> !cacheable && inq == old(inq) && out == old(out) && freeRaw == old(freeRaw)
    {
      hide Mid, Chains, FreeRaws, AllOfSize, HeadBytes, Bytes, NonEmpty, Recycled, Clean, NoneFreed, KeptAll, FileBooks;
      MidParts();
      rc := WriteChainToTempFile();
      if rc == Ok {
        WrittenMid();
      } else if rc == Full {
        UnwrittenMid();
      }
    }

    lemma MidParts()
      requires Mid(freeRaw, |freeRaw|, HeadBytes(h, freeRaw))
      ensures Chains(h, inq, out, busy, free) && FreeRaws(h, freeRaw) && AllOfSize(h, size) && size > 0
      ensures FileBooks() && NonEmpty(h, out)
    {
      hide Chains, FreeRaws, AllOfSize, HeadBytes, NonEmpty, FileBooks, Accounts, ClientSide, Books, Lengths;
    }

    twostate lemma {:induction false} WrittenMid()
      requires old(Mid(freeRaw, |freeRaw|, HeadBytes(h, freeRaw))) && Written()
      requires unchanged(`busy, `pending, `sent, `received, `allotted, `length, `script, `upReady)
      requires unchanged(`upstreamEof, `upstreamError, `upstreamDone, `downstreamError, `downstreamDone)
      ensures Mid(freeRaw, |freeRaw|, HeadBytes(h, freeRaw))
    {
      hide Chains, FreeRaws, AllOfSize, HeadBytes, Bytes, NonEmpty, Recycled, Clean, MemCount, NoneFreed, KeptAll,
           ScriptBytes, FileBooks;
      ghost var h0, inq0, out0 := old(h), old(inq), old(out);
      ChainsLive(h0, inq0, out0, busy, old(free));
      ClosedTail(inq0, inq);
      TailLive(h0, inq0, inq);
      KeptBytes(h0, h, busy);
      KeptBytes(h0, h, inq);
      SpoolLedger(received, sent, Bytes(h, busy), Bytes(h0, out0), Bytes(h0, inq0), Bytes(h, out), Bytes(h, inq),
                  HeadBytes(h, freeRaw));
    }

    twostate lemma {:induction false} UnwrittenMid()
      requires old(Mid(freeRaw, |freeRaw|, HeadBytes(h, freeRaw))) && FileBooks()
      requires unchanged(`h, `freeRaw, `inq, `out, `free, `busy, `pending, `sent, `received, `allotted, `length)
      requires unchanged(`script, `upReady, `spooled, `upstreamEof, `upstreamError, `upstreamDone)
      requires unchanged(`downstreamError, `downstreamDone)
      ensures Mid(freeRaw, |freeRaw|, HeadBytes(h, freeRaw))
    {
      hide Chains, FreeRaws, AllOfSize, HeadBytes, Bytes, NonEmpty, Recycled, Clean, MemCount, NoneFreed, ScriptBytes,
           FileBooks;
    }

    /** Spooling while the upstream is being read; afterwards a raw buffer is free. */
    method Spool() returns (rc: Rc)
      requires Reading(freeRaw, HeadBytes(h, freeRaw)) && inq != []
      modifies `h, `freeRaw, `inq, `out, `free, `offset, `bufToFile, `spooled, `seen
      ensures seen == if rc == Abort then Refused(old(seen)) else old(seen)
      ensures rc == Ok || rc == Full || rc == Abort
      ensures rc == Ok ==> Reading(freeRaw, HeadBytes(h, freeRaw)) && freeRaw != []
      ensures rc == Ok && cacheable ==> inq == []
      ensures rc == Full ==>
                && !cacheable && Reading(freeRaw, HeadBytes(h, freeRaw))
                && inq == old(inq) && out == old(out) && freeRaw == old(freeRaw)
    {
      hide Mid, HeadBytes;
      rc := SpoolSome();
    }

    lemma ClosedTail(c: Chain, d: Chain)
      requires |d| <= |c| && d == c[|c| - |d|..]
      ensures forall b :: b in d ==> b in c
    {
    }

    lemma TailLive(h: Heap, c: Chain, d: Chain)
      requires forall b :: b in d ==> b in c
      ensures (AllLive(h, c) ==> AllLive(h, d)) && (NonEmpty(h, c) ==> NonEmpty(h, d))
      ensures Recycled(h, c) ==> Recycled(h, d)
    {
    }

    lemma SpoolLedger(r: seq<Byte>, s: seq<Byte>, b: seq<Byte>, o: seq<Byte>, i: seq<Byte>, o1: seq<Byte>,
                      i1: seq<Byte>, head: seq<Byte>)
      requires o1 + i1 == o + i
      ensures s + b + (o1 + i1) + head == s + b + (o + i) + head
    {
    }

    /** What is still to come after recv_chain has answered. */
    ghost function Rest(got: Got): seq<Byte>
      reads this
    {
      if got == Failed || got == Count(0) then [] else ScriptText(script)
    }

    /** The script after n bytes of its first event. */
    static function TextAfter(script: seq<Event>, n: nat): seq<Event>
      requires script != [] && script[0].Data? && n <= |script[0].bytes|
    {
      if n == |script[0].bytes| then script[1..] else [Data(script[0].bytes[n..])] + script[1..]
    }

    lemma TextSplit(script: seq<Event>, n: nat)
      requires script != [] && script[0].Data? && 0 < n <= |script[0].bytes|
      ensures ScriptText(script) == script[0].bytes[..n] + ScriptText(TextAfter(script, n))
    {
      var bytes, more := script[0].bytes, script[1..];
      if n < |bytes| {
        var t := [Data(bytes[n..])] + more;
        assert t[1..] == more;
        assert bytes + ScriptText(more) == bytes[..n] + (bytes[n..] + ScriptText(more));
      }
    }

    /** recv_chain: what the script says, as far as the chain has room. */
    method RecvChain(chain: Chain) returns (got: Got)
      requires upReady && script != [] && (forall r :: r in chain ==> Unshadowed(h, r)) && NoDup(chain)
      requires RoomSize(h, chain) > 0
      modifies `h, `script, `upReady, `received, `seen
      ensures seen == Answered(old(seen), got)
      ensures ScriptSize(script) < old(ScriptSize(script)) && (upReady ==> script != []) && (!got.Count? ==> !upReady)
      ensures !(got.Count? && got.n > 0) ==>
                h == old(h) && received == old(received) && ScriptBytes(script) == old(ScriptBytes(script))
      ensures got.Count? && got.n > 0 ==>
                && FilledOnly(old(h), h, chain) && got.n <= RoomSize(old(h), chain)
                && received == old(received) + Room(h, chain, got.n) && |Room(h, chain, got.n)| == got.n
                && ScriptBytes(script) + got.n == old(ScriptBytes(script))
      ensures received + Rest(got) == old(received + ScriptText(script))
    {
      hide FilledOnly, Fill, Room;
      match script[0] {
        case NotYet =>
          script := script[1..];
          upReady := false;
          return Again;
        case Broken =>
          script := script[1..];
          upReady := false;
          seen := Broke(seen);
          return Failed;
        case Data(bytes) =>
          if bytes == [] {
            script := script[1..];
            upReady := false;
            seen := Ended(seen);
            return Count(0);
          }
          var n: nat :| 0 < n <= |bytes| && n <= RoomSize(h, chain);
          FillRoom(h, chain, bytes[..n]);
          TextSplit(script, n);
          ArriveLedger(received, bytes[..n], ScriptText(TextAfter(script, n)));
          h := Fill(h, chain, bytes[..n]);
          received := received + bytes[..n];
          script := TextAfter(script, n);
          upReady := *;
          if script == [] {
            upReady := false;
          }
          return Count(n);
      }
    }

    /** The loop that spreads n received bytes over the chain: full buffers go
        through the input filter, the rest becomes the free list again. */
    method Distribute(chain: Chain, n: nat)
      requires freeRaw == [] && Reading(chain, HeadBytes(h, chain) + Room(h, chain, n)) && n <= RoomSize(h, chain)
      modifies `h, `freeRaw, `inq, `free, `length
      ensures Reading(freeRaw, HeadBytes(h, freeRaw))
    {
      hide Chains, FreeRaws, AllOfSize, HeadBytes, Bytes, NonEmpty, Recycled, Clean, MemCount, NoneFreed, Room,
           RoomSize;
      var cl: Chain, left: nat := chain, n;
      while cl != [] && left > 0
        invariant Reading(cl, HeadBytes(h, cl) + Room(h, cl, left)) && left <= RoomSize(h, cl)
        decreases |cl|, left
      {
        ShadowlessHead(cl);
        RemoveShadowLinks(cl[0]);
        var room := size - h.raws[cl[0]].last;
        if left >= room {
          FillUp(cl, left);
          left := left - room;
          cl := cl[1..];
        } else {
          FillPart(cl, left);
          left := 0;
        }
      }
      NoRoom(h, cl, left);
      freeRaw := cl;
    }

    lemma NoRoom(h: Heap, c: Chain, left: nat)
      requires c == [] || left == 0
      ensures Room(h, c, left) == [] && HeadBytes(h, c) + [] == HeadBytes(h, c)
    {
    }

    lemma ShadowlessHead(c: Chain)
      requires Struct(c) && c != []
      ensures c[0] < |h.raws| && h.raws[c[0]].shadow == -1 && h.raws[c[0]].last < size && |h.raws[c[0]].mem| == size
    {
      assert Unshadowed(h, c[0]);
    }

    method FillUp(cl: Chain, left: nat)
      requires cl != [] && 0 < left <= RoomSize(h, cl)
      requires Reading(cl, HeadBytes(h, cl) + Room(h, cl, left))
      requires cl[0] < |h.raws| && h.raws[cl[0]].last < size && left >= size - h.raws[cl[0]].last
      modifies `h, `inq, `free, `length
      ensures left - (size - old(h).raws[cl[0]].last) <= RoomSize(h, cl[1..])
      ensures Reading(cl[1..], HeadBytes(h, cl[1..]) + Room(h, cl[1..], left - (size - old(h).raws[cl[0]].last)))
    {
      hide Chains, FreeRaws, AllOfSize, HeadBytes, Bytes, NonEmpty, Recycled, Clean, MemCount, NoneFreed, KeptAll,
           RoomSize, Room, RawBytes;
      ghost var h0, r, rest := h, cl[0], cl[1..];
      var last := h.raws[cl[0]].last;
      ghost var n := left - (size - last);
      FullStep(h, cl, left, size);
      RawsOnlyBuf(h, cl, size);
      RawsOnly(h, Advanced(h, cl[0], size), inq, out, busy, free);
      h := Advanced(h, cl[0], size);
      ghost var h1 := h;
      PassRaw(cl[0], rest, Room(h, rest, n));
      RestSame(h1, h, r, rest, n);
      NothingBefore(Room(h1, rest, n));
    }

    lemma NothingBefore(s: seq<Byte>)
      ensures [] + s == s
    {
    }

    lemma RawsOnlyBuf(h: Heap, cl: Chain, last: nat)
      requires FreeRaws(h, cl) && cl != [] && cl[0] < |h.raws|
      ensures forall r :: 0 <= r < |h.raws| && h.raws[r].shadow != -1 ==> Advanced(h, cl[0], last).raws[r] == h.raws[r]
    {
      assert Unshadowed(h, cl[0]);
    }

    lemma RestSame(h: Heap, k: Heap, r: nat, rest: Chain, n: nat)
      requires |k.raws| == |h.raws| && r !in rest
      requires forall q :: 0 <= q < |h.raws| && q != r ==> k.raws[q] == h.raws[q]
      ensures Room(k, rest, n) == Room(h, rest, n) && RoomSize(k, rest) == RoomSize(h, rest)
      ensures HeadBytes(k, rest) == HeadBytes(h, rest)
    {
      hide Room, RoomSize;
      RoomSame(h, k, rest, n);
      RoomSizeSame(h, k, rest);
      assert rest != [] ==> rest[0] in rest;
    }

    method FillPart(cl: Chain, left: nat)
      requires cl != [] && Reading(cl, HeadBytes(h, cl) + Room(h, cl, left))
      requires cl[0] < |h.raws| && left < size - h.raws[cl[0]].last
      modifies `h
      ensures Reading(cl, HeadBytes(h, cl) + Room(h, cl, 0))
    {
      hide Chains, FreeRaws, AllOfSize, HeadBytes, Bytes, NonEmpty, Recycled, Clean, MemCount, NoneFreed, KeptAll,
           RoomSize, Room;
      ghost var h0 := h;
      PartStep(h, cl, left, size);
      RawsOnlyBuf(h, cl, h.raws[cl[0]].last + left);
      RawsOnly(h, Advanced(h, cl[0], h.raws[cl[0]].last + left), inq, out, busy, free);
      h := h.(raws := h.raws[cl[0] := h.raws[cl[0]].(last := h.raws[cl[0]].last + left)]);
      NoRoom(h, cl, 0);
    }

    /** After the loop of ngx_event_pipe_read_upstream, part one: the announced
        length may be reached inside the first free raw buffer. */
    method CheckLength()
      requires Mid(freeRaw, |freeRaw|, HeadBytes(h, freeRaw)) && NoneFreed(h) && !upstreamDone
      modifies `h, `freeRaw, `inq, `free, `length, `upstreamDone, `read
      ensures Mid(freeRaw, |freeRaw|, HeadBytes(h, freeRaw)) && NoneFreed(h)
      ensures upstreamDone ==> HeadBytes(h, freeRaw) == [] && read && ScriptText(script) == []
      ensures upstreamDone <==> length == 0
      ensures !upstreamDone ==> read == old(read) && inq == old(inq)
      ensures old(freeRaw) == [] ==> freeRaw == [] && inq == old(inq)
    {
      hide Mid, HeadBytes, NoneFreed, RawBytes, ScriptText, FreeRaws;
      MidHead();
      ghost var n := |freeRaw|;
      if freeRaw != [] && length != -1 {
        var r := freeRaw[0];
        if h.raws[r].last - h.raws[r].pos >= length {
          n := PassHead();
          MidLength(n);
        }
      }
      if length == 0 {
        MarkDone(n);
      }
    }

    lemma MidLength(n: nat)
      requires Mid(freeRaw, n, HeadBytes(h, freeRaw))
      ensures if limited then length >= 0 else length == -1
    {
      hide Config, Struct, HeadBytes, Accounts, ClientSide, Books;
    }

    lemma MidHead()
      requires Mid(freeRaw, |freeRaw|, HeadBytes(h, freeRaw)) && NoneFreed(h)
      ensures if limited then length >= 0 else length == -1
      ensures freeRaw != [] ==> freeRaw[0] < |h.raws| && h.raws[freeRaw[0]].pos == 0 && !h.raws[freeRaw[0]].freed
    {
      hide Chains, HeadBytes, Accounts, ClientSide, Books;
      if freeRaw != [] { assert Unshadowed(h, freeRaw[0]); }
    }

    /** The first free raw buffer goes through the input filter as it is; an empty one
        stays behind uncounted, which matters only as long as the upstream is open. */
    method PassHead() returns (ghost n: nat)
      requires Mid(freeRaw, |freeRaw|, HeadBytes(h, freeRaw)) && freeRaw != [] && freeRaw[0] < |h.raws|
      requires !h.raws[freeRaw[0]].freed
      modifies `h, `freeRaw, `inq, `free, `length
      ensures Mid(freeRaw, n, HeadBytes(h, freeRaw)) && HeadBytes(h, freeRaw) == []
      ensures n == |freeRaw| || (!Closed() && old(h.raws[freeRaw[0]].last) == 0 && length == old(length))
      ensures length == if limited then old(length) - old(h.raws[freeRaw[0]].last) else old(length)
      ensures old(NoneFreed(h)) ==> NoneFreed(h)
    {
      hide Chains, FreeRaws, AllOfSize, HeadBytes, Bytes, NonEmpty, Recycled, Clean, MemCount, NoneFreed, KeptAll,
           RawBytes, ScriptBytes;
      var r := freeRaw[0];
      HeadOf(h, freeRaw);
      RawLength(h, r);
      freeRaw := freeRaw[1..];
      n := if h.raws[r].last == 0 && !Closed() then |freeRaw| + 1 else |freeRaw|;
      assert RawBytes(h, r) + [] == RawBytes(h, r);
      ghost var h1 := h;
      PassRaw(r, freeRaw, []);
      RestSame(h1, h, r, freeRaw, 0);
    }

    /** The announced length has come in. */
    method MarkDone(ghost n: nat)
      requires Mid(freeRaw, n, HeadBytes(h, freeRaw)) && length == 0
      modifies `upstreamDone, `read
      ensures Mid(freeRaw, |freeRaw|, HeadBytes(h, freeRaw)) && upstreamDone && read
      ensures HeadBytes(h, freeRaw) == [] && ScriptText(script) == []
    {
      hide Chains, FreeRaws, AllOfSize, HeadBytes, Bytes, NonEmpty, Recycled, Clean, MemCount, NoneFreed, ScriptText,
           ScriptBytes;
      NothingToSay(script);
      upstreamDone := true;
      read := true;
    }

    lemma HeadOf(h: Heap, fr: Chain)
      requires FreeRaws(h, fr) && fr != []
      ensures Unshadowed(h, fr[0]) && fr[0] !in fr[1..] && FreeRaws(h, fr[1..]) && HeadBytes(h, fr[1..]) == []
      ensures HeadBytes(h, fr) == RawBytes(h, fr[0]) && |RawBytes(h, fr[0])| == h.raws[fr[0]].last
      ensures |fr| == |fr[1..]| + 1
      ensures NoneFreed(h) ==> !h.raws[fr[0]].freed
    {
      hide Slice;
      NoDupTail(fr);
      assert Unshadowed(h, fr[0]);
      SliceAll(h.raws[fr[0]].mem, h.raws[fr[0]].last);
      var t := fr[1..];
      forall i | 0 <= i < |t| ensures Unshadowed(h, t[i]) && h.raws[t[i]].last == 0 { assert t[i] == fr[i + 1]; }
      if t != [] { EmptySlice(h.raws[t[0]].mem); assert Unshadowed(h, t[0]); }
    }

    lemma SliceAll(s: seq<Byte>, n: nat)
      requires n <= |s|
      ensures |Slice(s, 0, n)| == n
    {
    }

    lemma RawLength(h: Heap, r: nat)
      requires Unshadowed(h, r)
      ensures |RawBytes(h, r)| == h.raws[r].last
    {
      SliceAll(h.raws[r].mem, h.raws[r].last);
    }

    /** Part two: at end of file the first free raw buffer is passed on as it is,
        and the memory of the others may be given back. */
    method EndOfFile()
      requires Mid(freeRaw, |freeRaw|, HeadBytes(h, freeRaw)) && NoneFreed(h) && Closed()
      modifies `h, `freeRaw, `inq, `free, `length
      ensures Mid(freeRaw, |freeRaw|, HeadBytes(h, freeRaw)) && HeadBytes(h, freeRaw) == []
      ensures old(length) == 0 ==> length == 0
    {
      hide Chains, FreeRaws, AllOfSize, HeadBytes, Bytes, NonEmpty, Recycled, Clean, MemCount, NoneFreed, KeptAll,
           RawBytes;
      NoHead(h);
      if freeRaw != [] {
        HeadOf(h, freeRaw);
        ghost var n := PassHead();
        MidLength(n);
        if freeBufs && bufToFile == None {
          GiveBack();
        }
      }
    }

    /** ngx_pfree of the unshadowed raw buffers of the free list. */
    method GiveBack()
      requires Mid(freeRaw, |freeRaw|, HeadBytes(h, freeRaw)) && Closed()
      modifies `h
      ensures Mid(freeRaw, |freeRaw|, HeadBytes(h, freeRaw)) && HeadBytes(h, freeRaw) == old(HeadBytes(h, freeRaw))
    {
      hide Chains, FreeRaws, AllOfSize, HeadBytes, Bytes, NonEmpty, Recycled, Clean, MemCount, NoneFreed, KeptAll,
           RawBytes;
      ghost var h0 := h;
      FreedSame(h0, h0);
      ListAllocated(h, freeRaw);
      var i := 0;
      while i < |freeRaw|
        invariant 0 <= i <= |freeRaw| && FreedOnly(h0, h)
        invariant forall j :: 0 <= j < |freeRaw| ==> freeRaw[j] < |h.raws|
      {
        var r := freeRaw[i];
        if h.raws[r].shadow == -1 {
          h := h.(raws := h.raws[r := h.raws[r].(freed := true)]);
        }
        i := i + 1;
      }
      FreedSame(h0, h);
      RawsOnly(h0, h, inq, out, busy, free);
    }

    /** Only unshadowed raw buffers were given back. */
    static ghost predicate FreedOnly(h: Heap, k: Heap)
    {
      && k.bufs == h.bufs && k.file == h.file && |k.raws| == |h.raws|
      && forall r :: 0 <= r < |h.raws| ==>
           k.raws[r] == h.raws[r].(freed := k.raws[r].freed) && (h.raws[r].shadow != -1 ==> k.raws[r] == h.raws[r])
    }

    lemma FreedSame(h: Heap, k: Heap)
      requires FreedOnly(h, k) || h == k
      ensures FreedOnly(h, k)
      ensures forall c: Chain :: FreeRaws(h, c) ==> FreeRaws(k, c) && HeadBytes(k, c) == HeadBytes(h, c)
      ensures AllOfSize(h, size) ==> AllOfSize(k, size)
    {
      forall c: Chain | FreeRaws(h, c) ensures FreeRaws(k, c) && HeadBytes(k, c) == HeadBytes(h, c) {
        assert forall i :: 0 <= i < |c| ==> Unshadowed(h, c[i]);
      }
    }

    lemma ListAllocated(h: Heap, fr: Chain)
      requires FreeRaws(h, fr)
      ensures forall j :: 0 <= j < |fr| ==> fr[j] < |h.raws|
    {
      assert forall j :: 0 <= j < |fr| ==> Unshadowed(h, fr[j]);
    }

    /** What ngx_event_pipe_read_upstream does after its loop. */
    method FinishRead() returns (rc: Rc)
      requires Mid(freeRaw, |freeRaw|, HeadBytes(h, freeRaw)) && NoneFreed(h) && !upstreamDone && !upstreamError
      modifies `h, `freeRaw, `inq, `out, `free, `length, `upstreamDone, `read, `offset, `bufToFile, `spooled, `seen
      ensures seen == if rc == Abort then Refused(old(seen)) else old(seen)
      ensures upstreamDone ==> length == 0
      ensures !upstreamDone && !old(Closed()) && (cacheable ==> old(inq) == []) ==> inq == old(inq) && out == old(out)
      ensures rc == Ok || rc == Abort
      ensures rc == Ok ==> Inv()
      ensures upstreamDone ==> read && ScriptText(script) == []
      ensures !upstreamDone ==> read == old(read)
      ensures old(freeRaw) == [] && !old(Closed()) && !cacheable && rc == Ok ==> inq == old(inq) && freeRaw == []
    {
      hide Mid, Inv, HeadBytes, NoneFreed, ScriptText;
      MidOpen();
      CheckLength();
      if upstreamEof || upstreamError {
        EndOfFile();
      }
      if cacheable && inq != [] {
        var c := SpoolAll();
        if c == Abort {
          return Abort;
        }
      }
      MidInv();
      return Ok;
    }

    lemma MidOpen()
      requires Mid(freeRaw, |freeRaw|, HeadBytes(h, freeRaw))
      ensures !downstreamDone
    {
      hide Config, Struct, HeadBytes, Accounts, Books, Lengths;
    }

    lemma MidInv()
      requires Mid(freeRaw, |freeRaw|, HeadBytes(h, freeRaw)) && (cacheable && !upstreamError ==> inq == [])
      requires Closed() ==> HeadBytes(h, freeRaw) == []
      ensures Inv()
    {
      hide Config, Struct, HeadBytes, Accounts, ClientSide, Books, Lengths;
    }

    /** Caching: whatever was read is spooled before the client sees it. */
    method SpoolAll() returns (rc: Rc)
      requires Mid(freeRaw, |freeRaw|, HeadBytes(h, freeRaw)) && cacheable
      modifies `h, `freeRaw, `inq, `out, `free, `offset, `bufToFile, `spooled, `seen
      ensures seen == if rc == Abort then Refused(old(seen)) else old(seen)
      ensures rc == Ok || rc == Abort
      ensures rc == Ok ==> Mid(freeRaw, |freeRaw|, HeadBytes(h, freeRaw)) && inq == []
      ensures rc == Ok ==> HeadBytes(h, freeRaw) == old(HeadBytes(h, freeRaw))
    {
      hide Mid, HeadBytes;
      rc := SpoolSome();
    }

    /** How much the upstream still has to say. */
    ghost function Work(): nat
      reads this
    {
      ScriptSize(script) + (if Closed() then 0 else 1)
    }

    lemma ReadyToReceive(h: Heap, chain: Chain, rest: Chain)
      requires FreeRaws(h, chain + rest) && chain != [] && AllOfSize(h, size)
      ensures NoDup(chain) && (forall r :: r in chain ==> Unshadowed(h, r)) && RoomSize(h, chain) > 0
      ensures chain[0] < |h.raws| && h.raws[chain[0]].shadow == -1
    {
      NoDupParts(chain, rest);
      forall i | 0 <= i < |chain| ensures Unshadowed(h, chain[i]) { assert (chain + rest)[i] == chain[i]; }
      assert (chain + rest)[0] == chain[0];
    }

    lemma Arrived(h0: Heap, k: Heap, chain: Chain, rest: Chain, n: nat)
      requires FreeRaws(h0, chain + rest) && chain != [] && AllOfSize(h0, size) && NoneFreed(h0)
      requires FilledOnly(h0, k, chain) && n <= RoomSize(h0, chain)
      ensures FreeRaws(k, chain + rest) && HeadBytes(k, chain + rest) == HeadBytes(h0, chain + rest)
      ensures AllOfSize(k, size) && NoneFreed(k) && n <= RoomSize(k, chain + rest)
      ensures Room(k, chain + rest, n) == Room(k, chain, n)
      ensures chain[0] < |k.raws| && k.raws[chain[0]].shadow == -1
      ensures k.bufs == h0.bufs && k.file == h0.file && |k.raws| == |h0.raws|
      ensures forall r :: 0 <= r < |h0.raws| && h0.raws[r].shadow != -1 ==> k.raws[r] == h0.raws[r]
    {
      hide Room, RoomSize;
      ReadyToReceive(h0, chain, rest);
      FilledKeeps(h0, k, chain, chain + rest, size);
      ReadyToReceive(k, chain, rest);
      RoomFront(k, chain, rest, n);
    }

    lemma ArriveLedger(x: seq<Byte>, head: seq<Byte>, more: seq<Byte>)
      ensures x + head + more == x + (head + more)
    {
    }

    /** One call of recv_chain, after which the chain heads the free list again;
        what arrived lies in its room. */
    method ReceiveInto(chain: Chain) returns (got: Got)
      requires Reading(chain + freeRaw, HeadBytes(h, chain + freeRaw)) && chain != [] && upReady
      modifies `h, `script, `upReady, `received, `freeRaw, `seen
      ensures seen == Answered(old(seen), got)
      ensures ScriptSize(script) < old(ScriptSize(script)) && old(received) <= received && freeRaw != []
      ensures freeRaw[0] == chain[0] < |h.raws| && h.raws[chain[0]].shadow == -1 && (!got.Count? ==> !upReady)
      ensures !got.Count? ==> received == old(received)
      ensures received + Rest(got) == old(received + ScriptText(script))
      ensures !(got.Count? && got.n > 0) ==> Reading(freeRaw, HeadBytes(h, freeRaw))
      ensures got.Count? && got.n > 0 ==>
                Reading(freeRaw, HeadBytes(h, freeRaw) + Room(h, freeRaw, got.n)) && got.n <= RoomSize(h, freeRaw)
    {
      hide Chains, FreeRaws, AllOfSize, HeadBytes, Bytes, NonEmpty, Recycled, Clean, MemCount, NoneFreed, Room,
           RoomSize, ScriptSize, ScriptBytes, ScriptText, FilledOnly;
      ghost var h0, rest := h, freeRaw;
      ReadyToReceive(h, chain, freeRaw);
      got := RecvChain(chain);
      freeRaw := chain + freeRaw;
      if got.Count? && got.n > 0 {
        Arrived(h0, h, chain, rest, got.n);
        RawsOnly(h0, h, inq, out, busy, free);
        ArriveLedger(sent + Bytes(h, busy) + (Bytes(h, out) + Bytes(h, inq)), HeadBytes(h, freeRaw),
                     Room(h, freeRaw, got.n));
        ArriveLedger(spooled + Bytes(h, inq), HeadBytes(h, freeRaw), Room(h, freeRaw, got.n));
      }
    }

    /** One call of recv_chain and what follows it in the loop. */
    method Receive(chain: Chain) returns (got: Got)
      requires Reading(chain + freeRaw, HeadBytes(h, chain + freeRaw)) && chain != [] && upReady
      modifies `h, `script, `upReady, `received, `freeRaw, `inq, `free, `length, `read, `seen
      ensures seen == Answered(old(seen), got)
      ensures Reading(freeRaw, HeadBytes(h, freeRaw))
      ensures ScriptSize(script) < old(ScriptSize(script)) && old(received) <= received
      ensures received + Rest(got) == old(received + ScriptText(script))
      ensures got.Count? ==> read
      ensures !got.Count? ==> inq == old(inq) && read == old(read) && !upReady && received == old(received)
    {
      hide Reading, HeadBytes, Room, RoomSize, ScriptSize, ScriptText;
      got := ReceiveInto(chain);
      if got == Again && singleBuf {
        UnlinkHead();
      }
      if got.Count? {
        TakeIn(got.n);
      }
    }

    /** The head of the free list has no shadow links to remove. */
    method UnlinkHead()
      requires Reading(freeRaw, HeadBytes(h, freeRaw)) && freeRaw != []
      requires freeRaw[0] < |h.raws| && h.raws[freeRaw[0]].shadow == -1
      modifies `h
      ensures Reading(freeRaw, HeadBytes(h, freeRaw))
    {
      hide Chains, FreeRaws, AllOfSize, HeadBytes, Bytes, NonEmpty, Recycled, Clean, MemCount, NoneFreed, ScriptBytes;
      RemoveShadowLinks(freeRaw[0]);
    }

    /** What the loop does with n bytes that lie in the room of the free list. */
    method TakeIn(n: nat)
      requires n == 0 ==> Reading(freeRaw, HeadBytes(h, freeRaw))
      requires n > 0 ==> Reading(freeRaw, HeadBytes(h, freeRaw) + Room(h, freeRaw, n)) && n <= RoomSize(h, freeRaw)
      modifies `h, `freeRaw, `inq, `free, `length, `read
      ensures Reading(freeRaw, HeadBytes(h, freeRaw)) && read
    {
      hide Chains, FreeRaws, AllOfSize, HeadBytes, Bytes, NonEmpty, Recycled, Clean, MemCount, NoneFreed, Room,
           RoomSize, ScriptBytes;
      read := true;
      if n > 0 {
        var cl := freeRaw;
        freeRaw := [];
        Distribute(cl, n);
      }
    }

    method FailUpstream()
      requires Reading(freeRaw, HeadBytes(h, freeRaw))
      modifies `upstreamError
      ensures Inv() && upstreamError
    {
      hide Chains, FreeRaws, AllOfSize, HeadBytes, Bytes, NonEmpty, Clean;
      upstreamError := true;
    }

    method EndUpstream()
      requires Reading(freeRaw, HeadBytes(h, freeRaw))
      modifies `upstreamEof
      ensures Mid(freeRaw, |freeRaw|, HeadBytes(h, freeRaw)) && NoneFreed(h) && upstreamEof && !upstreamDone
      ensures !upstreamError
    {
      hide Chains, FreeRaws, AllOfSize, HeadBytes, Bytes, NonEmpty, Clean, NoneFreed;
      upstreamEof := true;
    }

    lemma ReadingOpen()
      requires Reading(freeRaw, HeadBytes(h, freeRaw))
      ensures Mid(freeRaw, |freeRaw|, HeadBytes(h, freeRaw)) && NoneFreed(h) && !Closed() && !downstreamDone
      ensures sent <= received
    {
      hide Chains, FreeRaws, AllOfSize, HeadBytes, Bytes, NonEmpty, Clean, NoneFreed;
    }

    lemma InvReading()
      requires Inv() && !Closed()
      ensures Reading(freeRaw, HeadBytes(h, freeRaw))
    {
      hide Chains, FreeRaws, AllOfSize, HeadBytes, Bytes, NonEmpty, Clean, NoneFreed;
    }

    lemma LedgerPrefix()
      ensures Inv() || Finished() ==> sent <= received
      ensures Inv() ==> !downstreamDone && (cacheable && !upstreamError ==> inq == [])
      ensures Finished() ==> downstreamDone && Closed()
    {
    }

    /** ngx_event_pipe_read_upstream */
    method ReadUpstream() returns (rc: Rc)
      requires if downstreamDone then Finished() else Inv()
      requires !read && !upstreamBlocked
      modifies `h, `freeRaw, `inq, `out, `free, `allotted, `offset, `bufToFile, `spooled, `upstreamBlocked, `script,
               `upReady, `received, `length, `read, `upstreamEof, `upstreamError, `upstreamDone, `seen
      ensures seen == Noted(old(seen), old(FlagsNow()), FlagsNow(), rc == Abort) && Lasting(old(FlagsNow()), FlagsNow())
      ensures !read ==> received == old(received)
      ensures rc == Ok || rc == Error || rc == Abort
      ensures rc != Abort ==> if downstreamDone then Finished() else Inv()
      ensures old(received) <= received && sent <= received && Heard() == old(Heard())
      ensures Work() <= old(Work()) && (read ==> Work() < old(Work()))
      ensures rc != Abort && !read && upstreamBlocked ==>
                !downstreamDone && !Closed() && !cacheable && downReady && inq != [] && inq == old(inq)
      ensures old(Closed()) ==> !read && !upstreamBlocked && Closed() && upstreamError == old(upstreamError)
      ensures Closed() && !old(Closed()) ==> read || upstreamError
      ensures old(Closed()) ==> upstreamEof == old(upstreamEof) && upstreamDone == old(upstreamDone)
      ensures old(Closed()) ==> length == old(length)
      ensures upstreamError == (old(upstreamError) || rc == Error)
      ensures rc == Error ==> upstreamEof == old(upstreamEof)
      ensures upstreamDone && !old(upstreamDone) ==> length == 0
      ensures rc == Ok && !read && !Closed() && old(PassedOn()) ==> PassedOn()
      ensures rc == Ok && !read && !upstreamBlocked && !old(Closed()) ==> !upReady || Stuck()
    {
      hide Reading, Mid, Inv, Finished, HeadBytes, NoneFreed, ScriptSize, ScriptText;
      LedgerPrefix();
      if upstreamEof || upstreamError || upstreamDone {
        return Ok;
      }
      InvReading();
      rc := ReadLoop();
      if rc == Ok {
        rc := FinishRead();
      }
      LedgerPrefix();
    }

    /** The loop of ngx_event_pipe_read_upstream. */
    method ReadLoop() returns (rc: Rc)
      requires Reading(freeRaw, HeadBytes(h, freeRaw)) && !read && !upstreamBlocked
      modifies `h, `freeRaw, `inq, `out, `free, `allotted, `offset, `bufToFile, `spooled, `upstreamBlocked, `script,
               `upReady, `received, `length, `read, `upstreamEof, `upstreamError, `seen
      ensures rc == Ok || rc == Error || rc == Abort
      ensures rc == Error ==> Inv() && upstreamError && !upstreamBlocked
      ensures rc == Ok ==> Mid(freeRaw, |freeRaw|, HeadBytes(h, freeRaw)) && NoneFreed(h)
      ensures !upstreamDone && !downstreamDone && (rc != Error ==> !upstreamError)
      ensures old(received) <= received && sent <= received && Heard() == old(received + ScriptText(script))
      ensures ScriptSize(script) <= old(ScriptSize(script)) && (read ==> ScriptSize(script) < old(ScriptSize(script)))
      ensures rc == Ok && !read && upstreamBlocked ==>
                !Closed() && !cacheable && downReady && inq != [] && inq == old(inq) && freeRaw == []
      ensures !Closed() || read || rc == Error
      ensures rc == Ok && !read && !upstreamBlocked ==> !upReady || Stuck()
      ensures seen == Noted(old(seen), old(FlagsNow()), FlagsNow(), rc == Abort) && Lasting(old(FlagsNow()), FlagsNow())
      ensures rc == Error ==> !upstreamEof
      ensures !read ==> received == old(received)
      ensures rc == Ok && !read && (if cacheable then old(inq) == [] else downReady) ==>
                inq == old(inq) && out == old(out)
    {
      hide Reading, Mid, Inv, HeadBytes, NoneFreed, ScriptSize, ScriptText, Noted;
      ReadingOpen();
      NotedNone(seen, FlagsNow());
      while upReady
        invariant Reading(freeRaw, HeadBytes(h, freeRaw)) && !Closed() && !upstreamBlocked
        invariant old(received) <= received && sent <= received
        invariant received + ScriptText(script) == old(received + ScriptText(script))
        invariant ScriptSize(script) <= old(ScriptSize(script))
        invariant read ==> ScriptSize(script) < old(ScriptSize(script))
        invariant !read ==> inq == old(inq) && out == old(out) && received == old(received)
        invariant seen == old(seen)
        decreases ScriptSize(script)
      {
        var more;
        rc, more := ReadStep();
        if !more {
          if rc == Ok && !upstreamEof { ReadingOpen(); }
          return;
        }
        ReadingOpen();
      }
      ReadingOpen();
      return Ok;
    }

    /** One round of the loop; more says that it goes on. */
    method ReadStep() returns (rc: Rc, more: bool)
      requires Reading(freeRaw, HeadBytes(h, freeRaw)) && upReady && !upstreamBlocked
      modifies `h, `freeRaw, `inq, `out, `free, `allotted, `offset, `bufToFile, `spooled, `upstreamBlocked, `script,
               `upReady, `received, `length, `read, `upstreamEof, `upstreamError, `seen
      ensures rc == Ok || rc == Error || rc == Abort
      ensures rc == Error ==> Inv() && upstreamError && !upstreamBlocked
      ensures rc == Ok && !upstreamEof ==> Reading(freeRaw, HeadBytes(h, freeRaw))
      ensures rc == Ok && upstreamEof ==> Mid(freeRaw, |freeRaw|, HeadBytes(h, freeRaw)) && NoneFreed(h) && read
      ensures !upstreamDone && !downstreamDone && (rc != Error ==> !upstreamError) && (rc != Ok ==> !upstreamEof)
      ensures old(received) <= received && sent <= received && Heard() == old(received + ScriptText(script))
      ensures ScriptSize(script) <= old(ScriptSize(script))
      ensures more || upstreamEof ==> ScriptSize(script) < old(ScriptSize(script))
      ensures more ==> rc == Ok && !upstreamEof && !upstreamBlocked && read
      ensures !more && !upstreamEof ==> read == old(read) && received == old(received)
      ensures rc == Ok && !more && !upstreamEof ==>
                if upstreamBlocked then !cacheable && downReady && inq != [] && inq == old(inq) && freeRaw == []
                else !upReady || Stuck()
      ensures rc == Ok && !more && !upstreamEof && (if cacheable then old(inq) == [] else downReady) ==>
                inq == old(inq) && out == old(out)
      ensures seen == Noted(old(seen), old(FlagsNow()), FlagsNow(), rc == Abort)
    {
      hide Reading, Mid, Inv, HeadBytes, NoneFreed, ScriptSize, ScriptText;
      ReadingOpen();
      var what, chain := TakeChain();
      if what.Leave? {
        return Abort, false;
      }
      if what.Stop? {
        return Ok, false;
      }
      var got := Receive(chain);
      if got == Failed {
        FailUpstream();
        LedgerPrefix();
        return Error, false;
      }
      ReadingOpen();
      if got == Again {
        return Ok, false;
      }
      if got.n == 0 {
        EndUpstream();
        return Ok, false;
      }
      return Ok, true;
    }

    lemma PassedMeans()
      ensures PassedOn() && !cacheable && downReady ==> inq == []
    {
    }

    method ClearFlags()
      requires if downstreamDone then Finished() else Inv()
      modifies `read, `upstreamBlocked
      ensures if downstreamDone then Finished() else Inv()
      ensures !read && !upstreamBlocked && Heard() == old(Heard()) && Work() == old(Work())
      ensures PassedOn() == old(PassedOn())
    {
      hide Chains, FreeRaws, AllOfSize, HeadBytes, Bytes, NonEmpty, Recycled, Clean, MemCount, NoneFreed, ScriptBytes;
      read := false;
      upstreamBlocked := false;
    }

    /** ngx_event_pipe: write, read, and again as long as something moved.  It
        always ends, because the busy buffers cannot hold every raw buffer.  It
        does not stop early: while the upstream is open it goes on until the
        upstream has nothing more for now or there is no room for it, and what it
        has read is passed on as far as the client takes it; once the upstream is
        closed one call finishes the transfer unless the client fails.  It gives up
        exactly when memory or a file write was refused, and the flags say exactly
        what upstream and output filter have answered. */
    method Run(doWrite: bool) returns (rc: Rc)
      requires Inv()
      modifies this
      ensures rc == Ok || rc == Abort
      ensures old(sent) <= sent <= received && old(received) <= received && Heard() == old(Heard())
      ensures rc == Ok ==> if downstreamDone then Finished() else Inv()
      ensures rc == Ok && !downstreamDone && !Closed() ==> !upReady || Stuck() || BusyFull()
      ensures rc == Ok && !downstreamDone && !Closed() && (doWrite || received != old(received)) ==>
                PassedOn() || BusyFull()
      ensures seen == Noted(old(seen), old(FlagsNow()), FlagsNow(), rc == Abort) && Lasting(old(FlagsNow()), FlagsNow())
      ensures upstreamDone && !old(upstreamDone) ==> length == 0
      ensures rc == Ok && old(Closed()) && doWrite && !downstreamError ==> downstreamDone
      ensures rc == Ok && !old(Closed()) && Closed() && !upstreamError && !downstreamError ==> downstreamDone
    {
      hide Inv, Finished, Heard, Work, MemCount, Noted, PassedOn;
      LedgerPrefix();
      NotedNone(seen, FlagsNow());
      var write := doWrite;
      while true
        invariant Inv() && old(sent) <= sent <= received && old(received) <= received
        invariant Heard() == old(Heard())
        invariant seen == Noted(old(seen), old(FlagsNow()), FlagsNow(), false)
        invariant Lasting(old(FlagsNow()), FlagsNow()) && (old(upstreamDone) ==> upstreamDone)
        invariant upstreamDone && !old(upstreamDone) ==> length == 0
        invariant !write ==> !doWrite && received == old(received)
        invariant old(Closed()) ==> Closed() && write == doWrite
        invariant !old(Closed()) && Closed() && !upstreamError ==> write
        decreases Work(), if write then 0 else 1
      {
        ghost var a := FlagsNow();
        var more;
        rc, more := Round(write);
        NotedOn(old(seen), old(FlagsNow()), a, FlagsNow(), rc == Abort);
        if !more {
          return;
        }
        write := true;
      }
    }

    /** A write, if asked for, and a read; more says that something has moved. */
    method Round(write: bool) returns (rc: Rc, more: bool)
      requires Inv()
      modifies this
      ensures (rc == Ok || rc == Abort) && (more ==> rc == Ok)
      ensures old(sent) <= sent <= received && old(received) <= received && Heard() == old(Heard())
      ensures rc == Ok ==> if downstreamDone then Finished() else Inv()
      ensures more ==> Inv() && !old(Closed())
      ensures rc == Ok && !more && !downstreamDone && !Closed() ==> !upReady || Stuck() || BusyFull()
      ensures rc == Ok && !more && !downstreamDone && !Closed() && write ==> PassedOn() || BusyFull()
      ensures rc == Ok && !more && !write ==> received == old(received)
      ensures more ==> Work() < old(Work()) || (Work() == old(Work()) && !write)
      ensures seen == Noted(old(seen), old(FlagsNow()), FlagsNow(), rc == Abort) && Lasting(old(FlagsNow()), FlagsNow())
      ensures upstreamDone ==> if old(upstreamDone) then length == old(length) else length == 0
      ensures old(upstreamDone) ==> upstreamDone
      ensures rc == Ok && old(Closed()) && write && !downstreamError ==> downstreamDone
      ensures rc == Ok && !more && !old(Closed()) && Closed() ==> upstreamError
    {
      hide Inv, Finished, Heard, Work, MemCount, Noted, PassedOn, Stuck, BusyFull, ScriptSize, ScriptText;
      LedgerPrefix();
      NotedNone(seen, FlagsNow());
      if write {
        rc := WriteToDownstream();
        if rc == Abort {
          return Abort, false;
        }
        if rc == Full {
          LedgerPrefix();
          return Ok, false;
        }
      }
      LedgerPrefix();
      ClearFlags();
      PassedMeans();
      ghost var b := FlagsNow();
      rc := ReadUpstream();
      NotedOn(old(seen), old(FlagsNow()), b, FlagsNow(), rc == Abort);
      if rc == Abort {
        return Abort, false;
      }
      LedgerPrefix();
      return Ok, read || upstreamBlocked;
    }

    /** Between two calls the connections may become ready or not. */
    method Wake(up: bool, down: bool)
      requires Inv()
      modifies `upReady, `downReady
      ensures Inv() && upReady == (up && script != []) && downReady == down && Heard() == old(Heard())
    {
      hide Chains, FreeRaws, AllOfSize, HeadBytes, Bytes, NonEmpty, Recycled, Clean, MemCount, NoneFreed, ScriptBytes;
      upReady := up && script != [];
      downReady := down;
    }

    /** ngx_http_upstream_process_upstream and ngx_http_upstream_process_downstream, for any
        run of events without timeouts: the pipe is called until the upstream is closed.
        If neither side has failed by then, everything the upstream sent has been sent to
        the client or is pending in its output filter, and is in the cache file. As long as
        it is open, a call on behalf of the client leaves nothing that the client could have
        been given. */
    method Transfer(calls: seq<Call>) returns (rc: Rc)
      requires Inv() && !Closed()
      modifies this
      ensures rc == Ok || rc == Abort
      ensures old(sent) <= sent <= received && Heard() == old(Heard())
      ensures rc == Ok ==> if downstreamDone then Finished() else Inv()
      ensures rc == Ok && Closed() && !upstreamError && !downstreamError ==>
                && sent + Bytes(h, pending) == old(received + ScriptText(script))
                && (cacheable ==> h.file == header + old(received + ScriptText(script)))
      ensures rc == Ok && !Closed() && calls != [] && calls[|calls| - 1].doWrite ==> PassedOn() || BusyFull()
      ensures seen == Noted(old(seen), old(FlagsNow()), FlagsNow(), rc == Abort) && Lasting(old(FlagsNow()), FlagsNow())
    {
      hide Inv, Finished, ScriptText, Bytes, Noted, PassedOn, BusyFull;
      LedgerPrefix();
      NotedNone(seen, FlagsNow());
      rc := Ok;
      var i := 0;
      while i < |calls| && !upstreamEof && !upstreamError && !upstreamDone
        invariant rc == Ok && old(sent) <= sent <= received && Heard() == old(Heard())
        invariant if downstreamDone then Finished() else Inv()
        invariant Closed() && !upstreamError && !downstreamError ==> downstreamDone
        invariant i <= |calls| && (!Closed() && i > 0 && calls[i - 1].doWrite ==> PassedOn() || BusyFull())
        invariant seen == Noted(old(seen), old(FlagsNow()), FlagsNow(), false)
        invariant Lasting(old(FlagsNow()), FlagsNow())
      {
        LedgerPrefix();
        Wake(calls[i].upReady, calls[i].downReady);
        ghost var a := FlagsNow();
        rc := Run(calls[i].doWrite);
        LedgerPrefix();
        NotedOn(old(seen), old(FlagsNow()), a, FlagsNow(), rc == Abort);
        if rc == Abort {
          return Abort;
        }
        i := i + 1;
      }
      if Closed() && !upstreamError && !downstreamError {
        Delivered();
      }
    }

    /** The end of a transfer that did not fail, in terms of what was heard. */
    lemma Delivered()
      requires Finished() && !upstreamError
      ensures sent + Bytes(h, pending) == Heard()
      ensures cacheable ==> h.file == header + Heard()
    {
      hide Bytes, HeadBytes, ScriptText;
      assert received + [] == received;
      assert sent + Bytes(h, pending) + [] == sent + Bytes(h, pending);
    }

    /** The pipe as ngx_http_upstream_send_response sets it up. */
    constructor (num: nat, size: nat, busySize: nat, maxTempFileSize: nat, tempFileWriteSize: nat, cacheable: bool,
                 singleBuf: bool, freeBufs: bool, contentLength: Option<nat>, toFile: Option<seq<Byte>>,
                 script: seq<Event>, ready: bool)
      requires 0 < num && 0 < size && busySize <= (num - 1) * size
      requires toFile.Some? ==> cacheable
      requires contentLength.Some? ==> ScriptBytes(script) <= contentLength.value
      ensures Inv() && received == [] && sent == [] && pending == [] && this.script == script
      ensures this.cacheable == cacheable && header == (if toFile.Some? then toFile.value else [])
    {
      this.num, this.size, this.busySize := num, size, busySize;
      this.maxTempFileSize, this.tempFileWriteSize := maxTempFileSize, tempFileWriteSize;
      this.cacheable, this.singleBuf, this.freeBufs := cacheable, singleBuf, freeBufs;
      this.limited := contentLength.Some?;
      this.length := if contentLength.Some? then contentLength.value else -1;
      h := Heap([], [], []);
      freeRaw, inq, out, busy, free, pending := [], [], [], [], [], [];
      allotted, offset := 0, 0;
      bufToFile := toFile;
      header := if toFile.Some? then toFile.value else [];
      read, upstreamBlocked, upstreamEof, upstreamError, upstreamDone := false, false, false, false, false;
      downstreamError, downstreamDone := false, false;
      this.script := script;
      upReady := ready && script != [];
      downReady := ready;
      received, sent, spooled, seen := [], [], [], Seen(0, 0, 0, 0);
      new;
      hide Inv;
      StartsWell();
    }

    lemma StartsWell()
      requires h == Heap([], [], []) && freeRaw == inq == out == busy == free == pending == []
      requires Config() && allotted == offset == 0
      requires bufToFile.Some? ==> cacheable && bufToFile.value == header
      requires bufToFile.None? ==> header == []
      requires if limited then 0 <= length && ScriptBytes(script) <= length else length == -1
      requires !upstreamEof && !upstreamError && !upstreamDone && !downstreamError && !downstreamDone
      requires upReady ==> script != []
      requires received == sent == spooled == []
      ensures Inv()
    {
      hide Chains, FreeRaws, AllOfSize, HeadBytes, Bytes, NonEmpty, Recycled, Clean, MemCount, NoneFreed, ScriptBytes;
      NothingYet(h, size);
    }

    lemma NothingYet(h: Heap, size: nat)
      requires h == Heap([], [], [])
      ensures Chains(h, [], [], [], []) && FreeRaws(h, []) && AllOfSize(h, size) && NoneFreed(h)
      ensures HeadBytes(h, []) == [] && Bytes(h, []) == [] && MemCount(h, []) == 0
      ensures NonEmpty(h, []) && Recycled(h, []) && Clean(h, [])
    {
    }
  }
}
