/** ngx_ssl_send_chain in ngx_event_openssl.c: output is gathered in one buffer
    before it goes to SSL_write, which may take part of it, ask for a retry or fail.

    SSL_write is not part of the vendored sources. SslWrite states what is assumed of
    it: it takes a non-empty prefix of what it is given, or nothing, or it fails; and
    a write that has to be retried must be retried with the same bytes in front. */
module SslSend {

  import opened Common

  const ERROR := -1
  const AGAIN := -2
  const MAX_INT32 := 0x7fffffff

  /** An output buffer of the chain: ngx_buf_t as far as this module looks at it. */
  class Chunk {
    const data: seq<Byte>
    const flush: bool
    const lastBuf: bool
    const sync: bool
    const inMemory: bool
    var pos: nat

    constructor (data: seq<Byte>, flush: bool, lastBuf: bool, sync: bool, inMemory: bool)
      ensures this.data == data && this.flush == flush && this.lastBuf == lastBuf && this.sync == sync
      ensures this.inMemory == inMemory && pos == 0
    {
      this.data, this.flush, this.lastBuf, this.sync, this.inMemory, pos := data, flush, lastBuf, sync, inMemory, 0;
    }

    /** ngx_buf_special */
    predicate Special() { (flush || lastBuf || sync) && !inMemory }

    /** It asks for everything up to its end to be sent at once. */
    predicate Marked() { lastBuf || flush }
  }

  ghost predicate Sound(chain: seq<Chunk>)
    reads chain
  {
    && (forall i, j :: 0 <= i < j < |chain| ==> chain[i] != chain[j])
    && forall c :: c in chain ==> c.pos <= |c.data|
  }

  /** What is still to be sent of a chain. */
  ghost function Unread(chain: seq<Chunk>): seq<Byte>
    requires forall c :: c in chain ==> c.pos <= |c.data|
    reads chain
  {
    if chain == [] then [] else Rest(chain[0]) + Unread(chain[1..])
  }

  ghost function Rest(c: Chunk): seq<Byte>
    requires c.pos <= |c.data|
    reads c
  {
    if c.Special() then [] else c.data[c.pos..]
  }

  lemma RestNone(c: Chunk)
    requires c.pos <= |c.data| && Rest(c) == []
    ensures c.Special() || c.pos == |c.data|
  {
  }

  lemma RestFrom(c: Chunk)
    requires c.pos <= |c.data| && !c.Special()
    ensures Rest(c) == c.data[c.pos..]
  {
  }

  /** The tail of a chain from k on, split at its head. */
  lemma UnreadAt(chain: seq<Chunk>, k: nat)
    requires k < |chain| && forall c :: c in chain ==> c.pos <= |c.data|
    ensures forall c :: c in chain[k..] || c in chain[k + 1..] ==> c in chain
    ensures Unread(chain[k..]) == Rest(chain[k]) + Unread(chain[k + 1..])
    ensures Rest(chain[k]) == [] ==> Unread(chain[k..]) == Unread(chain[k + 1..])
  {
    assert chain[k..][0] == chain[k] && chain[k..][1..] == chain[k + 1..];
  }

  /** fl records the flush flag flush0 and the marks of the chain from k0 up to k; the
      chunk at k may have been looked at as well. */
  ghost predicate SeenMarks(chain: seq<Chunk>, k0: nat, k: nat, flush0: bool, fl: bool)
    requires k0 <= k <= |chain|
  {
    && (flush0 ==> fl)
    && (forall j :: k0 <= j < k && chain[j].Marked() ==> fl)
    && (fl ==> flush0 || exists j :: k0 <= j <= k && j < |chain| && chain[j].Marked())
  }

  lemma SeenNone(chain: seq<Chunk>, k0: nat, flush0: bool)
    requires k0 <= |chain|
    ensures SeenMarks(chain, k0, k0, flush0, flush0)
  {
  }

  lemma SeenNext(chain: seq<Chunk>, k0: nat, k: nat, flush0: bool, fl: bool)
    requires k0 <= k < |chain| && SeenMarks(chain, k0, k, flush0, fl)
    ensures SeenMarks(chain, k0, k, flush0, fl || chain[k].Marked())
    ensures SeenMarks(chain, k0, k + 1, flush0, fl || chain[k].Marked())
  {
  }

  // ---------------------------------------------------------------- marks

  /** How far each chunk has been read. */
  ghost function Poses(chain: seq<Chunk>): (ps: seq<nat>)
    ensures |ps| == |chain| && forall i :: 0 <= i < |chain| ==> ps[i] == chain[i].pos
    reads chain
  {
    seq(|chain|, i requires 0 <= i < |chain| reads chain => chain[i].pos)
  }

  predicate Within(chain: seq<Chunk>, ps: seq<nat>)
  {
    |ps| == |chain| && forall i :: 0 <= i < |chain| ==> ps[i] <= |chain[i].data|
  }

  /** The number of bytes from chunk k on when the chunks are read up to ps. */
  function Left(chain: seq<Chunk>, ps: seq<nat>, k: nat): nat
    requires Within(chain, ps) && k <= |chain|
    decreases |chain| - k
  {
    if k == |chain| then 0
    else (if chain[k].Special() then 0 else |chain[k].data| - ps[k]) + Left(chain, ps, k + 1)
  }

  lemma {:induction false} UnreadLeft(chain: seq<Chunk>, k: nat)
    requires k <= |chain| && forall c :: c in chain ==> c.pos <= |c.data|
    ensures Within(chain, Poses(chain)) && (forall c :: c in chain[k..] ==> c in chain)
    ensures |Unread(chain[k..])| == Left(chain, Poses(chain), k)
    decreases |chain| - k
  {
    forall i | 0 <= i < |chain| ensures Poses(chain)[i] <= |chain[i].data| { assert chain[i] in chain; }
    if k < |chain| {
      UnreadLeft(chain, k + 1);
      UnreadAt(chain, k);
    }
  }

  /** Reading on, or looking at a later chunk only, never makes more. */
  lemma {:induction false} LeftLess(chain: seq<Chunk>, ps: seq<nat>, qs: seq<nat>, j: nat, k: nat)
    requires Within(chain, ps) && Within(chain, qs) && j <= k <= |chain|
    requires forall i :: 0 <= i < |chain| ==> ps[i] <= qs[i]
    ensures Left(chain, qs, k) <= Left(chain, ps, j)
    decreases |chain| - j
  {
    if j < k {
      LeftLess(chain, ps, qs, j + 1, k);
    } else if k < |chain| {
      LeftLess(chain, ps, qs, j + 1, k + 1);
    }
  }

  /** ps are the places up to which the chain was read when the call began; of the
      whole stream left bytes are still unsent. Every mark passed is either still
      recorded in fl, or everything up to the end of its chunk has been sent. */
  ghost predicate MarksKept(chain: seq<Chunk>, ps: seq<nat>, k: nat, fl: bool, left: nat)
    requires k <= |chain| && Within(chain, ps)
  {
    forall j :: 0 <= j < k && chain[j].Marked() ==> fl || left <= Left(chain, ps, j + 1)
  }

  lemma MarksGather(chain: seq<Chunk>, ps: seq<nat>, k0: nat, k: nat, fl0: bool, fl: bool, left: nat)
    requires k0 <= k <= |chain| && Within(chain, ps)
    requires MarksKept(chain, ps, k0, fl0, left) && SeenMarks(chain, k0, k, fl0, fl)
    ensures MarksKept(chain, ps, k, fl, left) && (fl0 ==> fl)
  {
  }

  lemma MarksLess(chain: seq<Chunk>, ps: seq<nat>, k: nat, fl: bool, left: nat, less: nat)
    requires k <= |chain| && Within(chain, ps) && less <= left && MarksKept(chain, ps, k, fl, left)
    ensures MarksKept(chain, ps, k, fl, less)
  {
  }

  /** With an empty buffer nothing but the rest of the chain is unsent. */
  lemma MarksDone(chain: seq<Chunk>, ps: seq<nat>, qs: seq<nat>, k: nat)
    requires Within(chain, ps) && Within(chain, qs) && k <= |chain| && forall i :: 0 <= i < |chain| ==> ps[i] <= qs[i]
    ensures MarksKept(chain, ps, k, false, Left(chain, qs, k)) && Left(chain, qs, k) <= Left(chain, ps, 0)
  {
    LeftLess(chain, ps, qs, 0, k);
    forall j | 0 <= j < k && chain[j].Marked() ensures Left(chain, qs, k) <= Left(chain, ps, j + 1) {
      LeftLess(chain, ps, qs, j + 1, k);
    }
  }

  // ---------------------------------------------------------------- a call as values

  /** The state of a call: what SSL_write has taken, what is in the buffer, what is
      left of the chain, and the loop's variables. */
  datatype Now = Now(wire: seq<Byte>, pend: seq<Byte>, rest: seq<Byte>, poses: seq<nat>, sent: int, k: nat, fl: bool,
                     send: nat)

  predicate Placed(chain: seq<Chunk>, s: Now)
  {
    Within(chain, s.poses) && s.k <= |chain| && |s.rest| == Left(chain, s.poses, s.k)
  }

  predicate Onward(chain: seq<Chunk>, c: Now, s: Now)
    requires Placed(chain, c) && Placed(chain, s)
  {
    && (forall i :: 0 <= i < |chain| ==> s.poses[i] >= c.poses[i])
    && (forall i :: 0 <= i < |chain| && !(c.k <= i <= s.k) ==> s.poses[i] == c.poses[i])
    && (forall j :: c.k <= j < s.k ==> chain[j].Special() || s.poses[j] == |chain[j].data|)
  }

  /** What holds between the start c of a call and any point s of its outer loop. */
  ghost predicate Keeps(chain: seq<Chunk>, c: Now, s: Now, cap: int)
  {
    && Placed(chain, c) && Placed(chain, s) && c.k == 0
    && c.wire <= s.wire && s.wire + (s.pend + s.rest) == c.wire + (c.pend + c.rest)
    && |s.pend| <= s.send && s.send - |c.pend| == |c.rest| - |s.rest| && s.send <= Max(|c.pend|, cap)
    && s.sent - c.sent == |s.wire| - |c.wire|
    && Onward(chain, c, s)
    && MarksKept(chain, c.poses, s.k, s.fl, |s.pend| + |s.rest|)
    && (c.fl && !s.fl ==> |s.pend| + |s.rest| <= |c.rest|)
  }

  /** What the inner loop does. */
  ghost predicate Gathered(chain: seq<Chunk>, a: Now, b: Now, cap: int)
  {
    && Placed(chain, a) && Placed(chain, b) && a.k <= b.k && Onward(chain, a, b)
    && b.wire == a.wire && b.sent == a.sent && a.pend <= b.pend && b.pend + b.rest == a.pend + a.rest
    && b.send - a.send == |b.pend| - |a.pend| && (b.send > a.send ==> b.send <= cap)
    && SeenMarks(chain, a.k, b.k, a.fl, b.fl)
  }

  lemma KeepsStart(chain: seq<Chunk>, c: Now, cap: int)
    requires Placed(chain, c) && c.k == 0 && c.send == |c.pend|
    ensures Keeps(chain, c, c, cap)
  {
  }

  lemma KeepsGathered(chain: seq<Chunk>, c: Now, a: Now, b: Now, cap: int)
    requires Keeps(chain, c, a, cap) && Gathered(chain, a, b, cap)
    ensures Keeps(chain, c, b, cap)
  {
    hide Left, SeenMarks, MarksKept, Onward, Within;
    assert |b.pend| + |b.rest| == |b.pend + b.rest| == |a.pend + a.rest| == |a.pend| + |a.rest|;
    MarksGather(chain, c.poses, a.k, b.k, a.fl, b.fl, |a.pend| + |a.rest|);
    OnwardOn(chain, c, a, b);
  }

  lemma OnwardOn(chain: seq<Chunk>, c: Now, a: Now, b: Now)
    requires Placed(chain, c) && Placed(chain, a) && Placed(chain, b) && c.k == 0 && a.k <= b.k
    requires Onward(chain, c, a) && Onward(chain, a, b)
    ensures Onward(chain, c, b)
  {
    hide Left;
  }

  lemma KeepsWritten(chain: seq<Chunk>, c: Now, a: Now, b: Now, cap: int)
    requires Keeps(chain, c, a, cap) && b == a.(wire := b.wire, pend := b.pend, sent := b.sent)
    requires a.wire <= b.wire && b.wire + b.pend == a.wire + a.pend && b.sent - a.sent == |b.wire| - |a.wire|
    ensures Keeps(chain, c, b, cap)
  {
    hide Left, MarksKept;
    assert b.wire + (b.pend + b.rest) == (b.wire + b.pend) + b.rest;
    assert a.wire + (a.pend + a.rest) == (a.wire + a.pend) + a.rest;
    assert c.wire <= b.wire;
    assert |b.wire| + |b.pend| == |b.wire + b.pend| == |a.wire + a.pend| == |a.wire| + |a.pend|;
    MarksLess(chain, c.poses, a.k, a.fl, |a.pend| + |a.rest|, |b.pend| + |b.rest|);
  }

  lemma KeepsEmptied(chain: seq<Chunk>, c: Now, a: Now, cap: int)
    requires Keeps(chain, c, a, cap) && a.pend == []
    ensures Keeps(chain, c, a.(fl := false), cap)
  {
    hide Left, MarksKept;
    MarksDone(chain, c.poses, a.poses, a.k);
  }

  /** A failed write has sent nothing that was not next in line. */
  lemma KeepsFailed(chain: seq<Chunk>, c: Now, a: Now, cap: int, wire: seq<Byte>)
    requires Keeps(chain, c, a, cap) && a.wire <= wire <= a.wire + a.pend
    ensures c.wire <= wire <= c.wire + (c.pend + c.rest)
  {
    hide Left, MarksKept, Onward;
    assert a.wire + (a.pend + a.rest) == (a.wire + a.pend) + a.rest;
  }

  lemma KeepsMeans(chain: seq<Chunk>, c: Now, s: Now, cap: int)
    requires Keeps(chain, c, s, cap) && c.send == |c.pend|
    ensures s.wire + (s.pend + s.rest) == c.wire + (c.pend + c.rest) && c.wire <= s.wire
    ensures s.sent - c.sent == |s.wire| - |c.wire| && |c.rest| - |s.rest| <= Max(0, cap - |c.pend|)
    ensures Within(chain, c.poses) && s.k <= |chain| && MarksKept(chain, c.poses, s.k, s.fl, |s.pend| + |s.rest|)
    ensures c.fl && !s.fl ==> |s.pend| + |s.rest| <= |c.rest|
    ensures s.send - |c.pend| == |c.rest| - |s.rest|
  {
    hide Left, Onward, MarksKept;
  }

  /** Every round of the inner loop leaves less of the chain. */
  lemma GatherShrinks(chain: seq<Chunk>, a: Now, b: Now, cap: int)
    requires Gathered(chain, a, b, cap)
    ensures a.k <= b.k <= |chain| && |b.rest| == |a.rest| - (b.send - a.send)
    ensures |b.pend| == |a.pend| + (b.send - a.send)
    ensures a.pend <= b.pend && b.wire == a.wire
  {
    hide Left, SeenMarks;
    assert |b.pend| + |b.rest| == |b.pend + b.rest| == |a.pend + a.rest| == |a.pend| + |a.rest|;
  }

  /** Nothing asks for a flush and all of the chain fits below limit and buffer end. */
  predicate Quiet(chain: seq<Chunk>, c: Now, cap: int, room: int)
  {
    && !c.fl && chain != [] && (forall i :: 0 <= i < |chain| ==> !chain[i].Marked())
    && |c.pend| + |c.rest| < cap && |c.rest| < room
  }

  lemma QuietGathered(chain: seq<Chunk>, c: Now, b: Now, cap: int, room: int)
    requires Quiet(chain, c, cap, room) && Gathered(chain, c, b, cap) && c.send == |c.pend|
    ensures !b.fl && b.send < cap && b.send - c.send < room
  {
    hide Left, Onward;
    assert |b.pend| + |b.rest| == |b.pend + b.rest| == |c.pend + c.rest| == |c.pend| + |c.rest|;
  }

  lemma Regroup(a: seq<Byte>, b: seq<Byte>, c: seq<Byte>, d: seq<Byte>)
    ensures a + ((b + c) + d) == (a + b) + (c + d)
  {
  }

  class Connection {
    /** ngx_pagesize, and ssl->buffer_size. */
    const pagesize: nat
    const bufferSize: nat

    /** c->ssl->buffer */
    const buffering: bool

    /** ssl->buf: its memory (null while there is none), pos, last and the flush flag. */
    var buf: array?<Byte>
    var pos: nat
    var last: nat
    var flush: bool

    /** c->sent and the NGX_SSL_BUFFERED bit of c->buffered. */
    var sent: int
    var buffered: bool

    /** What SSL_write has accepted so far, and what it was last asked to retry. */
    ghost var wire: seq<Byte>
    ghost var owed: seq<Byte>

    /** Whether in this call SSL_write has taken less than it was given. */
    ghost var stalled: bool

    /** How often SSL_write has failed and how often it has asked for a retry so far. */
    ghost var errors: nat
    ghost var retries: nat

    ghost predicate Valid()
      reads this, buf
    {
      && (buf != null ==> buf.Length == bufferSize && pos <= last <= buf.Length)
      && owed <= Pending()
    }

    /** An empty buffer starts at its beginning. */
    ghost predicate Rewound()
      reads this
    {
      pos == last ==> last == 0
    }

    /** The bytes in the buffer. */
    ghost function Pending(): seq<Byte>
      reads this, buf
    {
      if buf != null && pos <= last <= buf.Length then buf[pos..last] else []
    }

    constructor (pagesize: nat, bufferSize: nat, buffering: bool)
      ensures Valid() && this.pagesize == pagesize && this.bufferSize == bufferSize && this.buffering == buffering
      ensures Rewound() && buf == null && owed == [] && wire == [] && Pending() == [] && !flush && sent == 0
    {
      this.pagesize, this.bufferSize, this.buffering := pagesize, bufferSize, buffering;
      buf, pos, last, flush, sent, buffered := null, 0, 0, false, 0, false;
      wire, owed, stalled, errors, retries := [], [], false, 0, 0;
    }

    static ghost function Counted(n: nat, more: bool): nat { if more then n + 1 else n }

    /** ngx_ssl_write over SSL_write. */
    method SslWrite(data: seq<Byte>) returns (n: int)
      requires owed <= data
      modifies `wire, `owed, `stalled, `errors, `retries
      ensures stalled == (old(stalled) || n != |data|)
      ensures errors == Counted(old(errors), n == ERROR) && retries == Counted(old(retries), n == AGAIN)
      ensures n == ERROR || n == AGAIN || 0 < n <= |data|
      ensures n == AGAIN ==> wire == old(wire) && owed == data
      ensures n > 0 ==> wire == old(wire) + data[..n] && owed == []
      ensures n == ERROR ==> old(wire) <= wire <= old(wire) + data && owed == []
    {
      n := *;
      if !(n == ERROR || 0 < n <= |data|) {
        n := AGAIN;
      }
      stalled := stalled || n != |data|;
      errors, retries := Counted(errors, n == ERROR), Counted(retries, n == AGAIN);
      if n == AGAIN {
        owed := data;
      } else if n > 0 {
        wire, owed := wire + data[..n], [];
      } else {
        // the bytes may be gone although setting up the read event failed
        ghost var m: nat :| m <= |data|;
        wire, owed := wire + data[..m], [];
      }
    }

    /** limit as the code caps it. */
    function Cap(limit: int): (r: int)
      ensures r <= MAX_INT32 - pagesize && (limit != 0 ==> r <= limit)
      ensures limit == 0 || r != limit ==> r == MAX_INT32 - pagesize
    {
      if limit == 0 || limit > MAX_INT32 - pagesize then MAX_INT32 - pagesize else limit
    }

    /** The copy of size bytes of a chunk into the buffer. */
    method CopyIn(c: Chunk, size: nat)
      requires Valid() && buf != null && last + size <= buf.Length && c.pos + size <= |c.data|
      modifies buf, `last, c`pos
      ensures Valid() && Pending() == old(Pending()) + c.data[old(c.pos)..old(c.pos) + size]
      ensures last == old(last) + size && c.pos == old(c.pos) + size
    {
      ghost var before := Pending();
      forall i | 0 <= i < size {
        buf[last + i] := c.data[c.pos + i];
      }
      last := last + size;
      c.pos := c.pos + size;
      assert Pending() == before + c.data[old(c.pos)..old(c.pos) + size];
    }

    /** One copy seen from the chain. */
    method TakeFrom(chain: seq<Chunk>, k: nat, c: Chunk, size: nat)
      requires Valid() && buf != null && Sound(chain) && k < |chain| && c == chain[k] && !c.Special()
      requires last + size <= buf.Length && c.pos + size <= |c.data|
      modifies buf, `last, c`pos
      ensures Valid() && Sound(chain) && last == old(last) + size && c.pos == old(c.pos) + size
      ensures old(Pending()) <= Pending() && |Pending()| == |old(Pending())| + size
      ensures Pending() + Unread(chain[k..]) == old(Pending() + Unread(chain[k..]))
      ensures |Unread(chain[k..])| == old(|Unread(chain[k..])|) - size
      ensures forall i :: 0 <= i < |chain| && i != k ==> chain[i].pos == old(chain[i].pos)
    {
      hide Unread, Pending, Rest;
      UnreadAt(chain, k);
      RestFrom(c);
      ghost var piece, left := c.data[c.pos..c.pos + size], c.data[c.pos + size..];
      ghost var rest, p := Unread(chain[k + 1..]), Pending();
      assert Rest(c) == piece + left;
      CopyIn(c, size);
      assert c !in chain[k + 1..];
      assert Unread(chain[k + 1..]) == rest;
      UnreadAt(chain, k);
      RestFrom(c);
      Regroup(p, piece, left, rest);
    }

    /** One round of the inner loop, without the flush flag. */
    method TakeOne(chain: seq<Chunk>, k: nat, c: Chunk, send: nat, cap: int) returns (k1: nat, send1: nat)
      requires Valid() && buf != null && Sound(chain) && k < |chain| && c == chain[k] && last < buf.Length && send < cap
      modifies buf, `last, c`pos
      ensures Valid() && Sound(chain) && k <= k1 <= k + 1 && send <= send1 <= cap && (k1 > k || send1 > send)
      ensures old(Pending()) <= Pending() && send1 - send == |Pending()| - |old(Pending())|
      ensures Pending() + Unread(chain[k1..]) == old(Pending() + Unread(chain[k..]))
      ensures |Unread(chain[k1..])| == old(|Unread(chain[k..])|) - (send1 - send)
      ensures c.pos >= old(c.pos) && (k1 > k ==> Rest(c) == [])
    {
      hide Unread, Pending;
      UnreadAt(chain, k);
      if c.Special() {
        assert Rest(c) == [];
        return k + 1, send;
      }
      var size := |c.data| - c.pos;
      if size > buf.Length - last {
        size := buf.Length - last;
      }
      if send + size > cap {
        size := cap - send;
      }
      TakeFrom(chain, k, c, size);
      k1, send1 := k, send + size;
      if c.pos == |c.data| {
        assert Rest(c) == [];
        UnreadAt(chain, k);
        k1 := k + 1;
      }
    }

    /** The inner loop: the chain from k0 on goes into the buffer while there is room
        and the limit is not reached. */
    method Gather(chain: seq<Chunk>, k0: nat, flush0: bool, send0: nat, cap: int) returns (k: nat, fl: bool, send: nat)
      requires Valid() && buf != null && Sound(chain) && k0 <= |chain| && send0 >= |Pending()|
      modifies buf, `last, chain
      ensures Valid() && Sound(chain) && k0 <= k <= |chain|
      ensures !(k < |chain| && last < buf.Length && send < cap)
      ensures old(Pending()) <= Pending() && send - send0 == |Pending()| - |old(Pending())|
      ensures send0 <= send && (send > send0 ==> send <= cap)
      ensures Pending() + Unread(chain[k..]) == old(Pending() + Unread(chain[k0..]))
      ensures forall i :: 0 <= i < |chain| ==> chain[i].pos >= old(chain[i].pos)
      ensures forall i :: 0 <= i < |chain| && !(k0 <= i <= k) ==> chain[i].pos == old(chain[i].pos)
      ensures forall j :: k0 <= j < k ==> Rest(chain[j]) == []
      ensures SeenMarks(chain, k0, k, flush0, fl)
      ensures old(k0 < |chain| && last < buf.Length && send0 < cap) ==> k > k0 || send > send0
    {
      hide Unread, Pending, SeenMarks, Rest;
      k, fl, send := k0, flush0, send0;
      SeenNone(chain, k0, flush0);
      while k < |chain| && last < buf.Length && send < cap
        invariant Valid() && Sound(chain) && k0 <= k <= |chain|
        invariant old(Pending()) <= Pending() && send - send0 == |Pending()| - |old(Pending())|
        invariant send > send0 ==> send <= cap
        invariant Pending() + Unread(chain[k..]) == old(Pending() + Unread(chain[k0..]))
        invariant forall i :: 0 <= i < |chain| ==> chain[i].pos >= old(chain[i].pos)
        invariant forall i :: 0 <= i < |chain| && !(k0 <= i <= k) ==> chain[i].pos == old(chain[i].pos)
        invariant forall j :: k0 <= j < k ==> Rest(chain[j]) == []
        invariant SeenMarks(chain, k0, k, flush0, fl)
        invariant k > k0 || send > send0 || (k == k0 && send == send0 && last == old(last))
        decreases |Unread(chain[k..])| + |chain| - k
      {
        SeenNext(chain, k0, k, flush0, fl);
        var c := chain[k];
        if c.Marked() {
          fl := true;
        }
        k, send := TakeOne(chain, k, c, send, cap);
      }
    }

    /** The buffer's memory, which is there once allocation has succeeded. */
    method Prepare(memory: bool) returns (ok: bool)
      requires Valid()
      modifies `buf, `pos, `last
      ensures Valid() && Pending() == old(Pending()) && (ok ==> buf != null)
      ensures ok == (memory || old(buf) != null)
      ensures buf == old(buf) || (old(buf) == null && buf != null && fresh(buf) && pos == last == 0)
      ensures buf == old(buf) ==> pos == old(pos) && last == old(last)
    {
      if buf == null {
        if !memory {
          return false;
        }
        buf := new Byte[bufferSize](i => 0);
        pos, last := 0, 0;
      }
      return true;
    }

    ghost function Snap(chain: seq<Chunk>, k: nat, fl: bool, send: nat): Now
      requires Sound(chain) && k <= |chain|
      reads this, buf, chain
    {
      assert forall c :: c in chain[k..] ==> c in chain;
      Now(wire, Pending(), Unread(chain[k..]), Poses(chain), sent, k, fl, send)
    }

    lemma PendingLength()
      requires Valid() && buf != null
      ensures |Pending()| == last - pos
    {
    }

    method GatherNow(chain: seq<Chunk>, k0: nat, flush0: bool, send0: nat, cap: int)
      returns (k: nat, fl: bool, send: nat)
      requires Valid() && buf != null && Sound(chain) && k0 <= |chain| && send0 >= |Pending()|
      modifies buf, `last, chain
      ensures Valid() && Sound(chain) && k <= |chain|
      ensures Gathered(chain, old(Snap(chain, k0, flush0, send0)), Snap(chain, k, fl, send), cap)
      ensures !(k < |chain| && last < buf.Length && send < cap)
      ensures last - old(last) == send - send0 && (old(Rewound()) ==> Rewound())
      ensures old(k0 < |chain| && last < buf.Length && send0 < cap) ==> k > k0 || send > send0
    {
      hide Unread, SeenMarks, Left, Pending, Rest, Poses;
      UnreadLeft(chain, k0);
      PendingLength();
      k, fl, send := Gather(chain, k0, flush0, send0, cap);
      UnreadLeft(chain, k);
      PendingLength();
      forall j | k0 <= j < k ensures chain[j].Special() || chain[j].pos == |chain[j].data| { RestNone(chain[j]); }
    }

    /** What a round of the copying loop means for the whole call. */
    method Round(chain: seq<Chunk>, k0: nat, flush0: bool, send0: nat, cap: int, ghost c: Now, ghost room: int)
      returns (k: nat, fl: bool, send: nat)
      requires Valid() && buf != null && Sound(chain) && k0 <= |chain| && send0 >= |Pending()|
      requires Keeps(chain, c, Snap(chain, k0, flush0, send0), cap) && c.send == |c.pend|
      requires Quiet(chain, c, cap, room) ==> Snap(chain, k0, flush0, send0) == c && buf.Length - last == room
      modifies buf, `last, chain
      ensures Valid() && Sound(chain) && k0 <= k <= |chain| && (old(Rewound()) ==> Rewound())
      ensures Keeps(chain, c, Snap(chain, k, fl, send), cap)
      ensures !(k < |chain| && last < buf.Length && send < cap)
      ensures Snap(chain, k, fl, send).wire == old(Snap(chain, k0, flush0, send0)).wire
      ensures |Snap(chain, k, fl, send).rest| == |old(Snap(chain, k0, flush0, send0)).rest| - (send - send0)
      ensures |Snap(chain, k, fl, send).pend| == |old(Snap(chain, k0, flush0, send0)).pend| + (send - send0)
      ensures send0 <= send && last - old(last) == send - send0
      ensures old(k0 < |chain| && last < buf.Length && send0 < cap) ==> k > k0 || send > send0
      ensures Quiet(chain, c, cap, room) ==> !fl && send < cap && last < buf.Length
    {
      hide Unread, Keeps, Gathered, Quiet, Poses, Placed, Within, Left, Snap, Pending, Sound, Max, Valid;
      ghost var a := Snap(chain, k0, flush0, send0);
      SnapParts(chain, k0, flush0, send0);
      k, fl, send := GatherNow(chain, k0, flush0, send0, cap);
      ghost var b := Snap(chain, k, fl, send);
      SnapParts(chain, k, fl, send);
      KeepsGathered(chain, c, a, b, cap);
      GatherShrinks(chain, a, b, cap);
      if Quiet(chain, c, cap, room) { QuietGathered(chain, c, b, cap, room); }
    }

    /** The outer loop, for a buffer that has memory. */
    method Pump(chain: seq<Chunk>, cap: int, ghost c: Now, ghost room: int) returns (ok: bool, k: nat, send: nat)
      requires Valid() && buf != null && Sound(chain)
      requires c == Snap(chain, 0, chain == [] || flush, |Pending()|) && room == buf.Length - last
      requires !stalled && Rewound()
      modifies this`pos, this`last, this`flush, this`sent, this`buffered, this`wire, this`owed, this`stalled,
               this`errors, this`retries, buf, chain
      ensures Valid() && Sound(chain) && k <= |chain| && Rewound()
      ensures errors == Counted(old(errors), !ok)
      ensures ok && !stalled ==> !flush && (k == |chain| || send >= cap || buf.Length == 0)
      ensures ok ==> Keeps(chain, c, Snap(chain, k, flush, send), cap)
      ensures ok ==> buffered == (Pending() != [])
      ensures !ok ==> c.wire <= wire <= c.wire + (c.pend + c.rest)
      ensures Quiet(chain, c, cap, room) ==> ok && wire == c.wire && k == |chain|
    {
      hide Unread, Keeps, Gathered, Quiet, Poses, Placed, Within, Left, Snap, Pending, Sound, Max, Valid;
      var fl := chain == [] || flush;
      SnapParts(chain, 0, fl, |Pending()|);
      k, send := 0, last - pos;
      SnapPlaced(chain, k, fl, send);
      KeepsStart(chain, c, cap);
      while true
        invariant Valid() && Sound(chain) && k <= |chain| && send >= |Pending()| && !stalled && Rewound()
        invariant errors == old(errors)
        invariant Keeps(chain, c, Snap(chain, k, fl, send), cap)
        invariant Quiet(chain, c, cap, room) ==> Snap(chain, k, fl, send) == c && buf.Length - last == room
        decreases |Snap(chain, k, fl, send).rest| + |chain| - k, |Pending()|
      {
        SnapParts(chain, k, fl, send);
        k, fl, send := Round(chain, k, fl, send, cap, c, room);
        ghost var b := Snap(chain, k, fl, send);
        SnapParts(chain, k, fl, send);
        if !fl && send < cap && last < buf.Length {
          break;
        }
        var size := last - pos;
        if size == 0 {
          KeepsEmptied(chain, c, b, cap);
          SnapFlag(chain, k, fl, send);
          Finish(chain, k, false, send);
          return true, k, send;
        }
        var rc := WriteAll(chain, k, fl, send, c, cap);
        if rc == ERROR {
          return false, k, send;
        }
        if rc == AGAIN {
          break;
        }
        fl := false;
        if k == |chain| || send == cap {
          break;
        }
      }
      Finish(chain, k, fl, send);
      return true, k, send;
    }

    /** The write of the outer loop, up to the new start of an empty buffer: AGAIN
        stands for a write that left something behind as well. */
    method WriteAll(chain: seq<Chunk>, k: nat, fl: bool, send: nat, ghost c: Now, cap: int) returns (rc: int)
      requires Valid() && buf != null && pos < last && Sound(chain) && k <= |chain| && send >= |Pending()|
      requires Keeps(chain, c, Snap(chain, k, fl, send), cap)
      modifies this`pos, this`last, this`sent, this`wire, this`owed, this`stalled, this`errors, this`retries
      ensures Valid() && (rc == ERROR || rc == AGAIN || rc == 0) && Rewound()
      ensures errors == Counted(old(errors), rc == ERROR)
      ensures if rc == 0 then stalled == old(stalled) && last == 0 else stalled
      ensures rc == ERROR ==> c.wire <= wire <= c.wire + (c.pend + c.rest)
      ensures rc == AGAIN ==> Keeps(chain, c, Snap(chain, k, fl, send), cap)
      ensures rc == 0 ==> Keeps(chain, c, Snap(chain, k, false, send), cap) && Pending() == []
                          && Snap(chain, k, false, send).rest == old(Snap(chain, k, fl, send).rest)
    {
      hide Unread, Keeps, Poses, Placed, Within, Left, Snap, Pending, Sound, Max;
      ghost var b := Snap(chain, k, fl, send);
      SnapParts(chain, k, fl, send);
      var size := last - pos;
      var n := SendNow(chain, k, fl, send);
      if n == ERROR {
        KeepsFailed(chain, c, b, cap, wire);
        return ERROR;
      }
      if n == AGAIN {
        return AGAIN;
      }
      ghost var d := Snap(chain, k, fl, send);
      KeepsWritten(chain, c, b, d, cap);
      if n < size {
        return AGAIN;
      }
      SnapParts(chain, k, fl, send);
      KeepsEmptied(chain, c, d, cap);
      Restart(chain, k, fl, send);
      return 0;
    }

    /** The flag and the bit at the end of a call. */
    method Finish(chain: seq<Chunk>, k: nat, fl: bool, send: nat)
      requires Valid() && buf != null && Sound(chain) && k <= |chain|
      modifies `flush, `buffered
      ensures Valid() && flush == fl && (old(Rewound()) ==> Rewound()) && buffered == (Pending() != [])
      ensures Snap(chain, k, fl, send) == old(Snap(chain, k, fl, send))
    {
      flush, buffered := fl, pos < last;
    }

    /** An empty buffer starts over at its beginning. */
    method Restart(chain: seq<Chunk>, k: nat, fl: bool, send: nat)
      requires Valid() && buf != null && pos == last && Sound(chain) && k <= |chain|
      modifies `pos, `last
      ensures Valid() && Pending() == [] && pos == last == 0
      ensures Snap(chain, k, false, send) == old(Snap(chain, k, fl, send)).(fl := false)
    {
      pos, last := 0, 0;
    }

    /** SendOut seen with the chain, which it does not touch. */
    method SendNow(chain: seq<Chunk>, k: nat, fl: bool, send: nat) returns (n: int)
      requires Valid() && buf != null && pos < last && Sound(chain) && k <= |chain|
      modifies this`pos, this`sent, this`wire, this`owed, this`stalled, this`errors, this`retries
      ensures Valid() && (n == ERROR || n == AGAIN || 0 < n <= last - old(pos)) && (n > 0 ==> pos == old(pos) + n)
      ensures errors == Counted(old(errors), n == ERROR)
      ensures stalled == (old(stalled) || n != last - old(pos)) && (n < last - old(pos) ==> pos < last)
      ensures n == ERROR ==> old(wire) <= wire <= old(wire + Pending())
      ensures n == AGAIN ==> Snap(chain, k, fl, send) == old(Snap(chain, k, fl, send))
      ensures n > 0 ==>
                var a, b := old(Snap(chain, k, fl, send)), Snap(chain, k, fl, send);
                && b == a.(wire := b.wire, pend := b.pend, sent := b.sent) && a.wire <= b.wire
                && b.wire + b.pend == a.wire + a.pend && b.sent - a.sent == |b.wire| - |a.wire|
    {
      n := SendOut();
    }

    lemma SnapParts(chain: seq<Chunk>, k: nat, fl: bool, send: nat)
      requires Valid() && buf != null && Sound(chain) && k <= |chain|
      ensures (forall c :: c in chain[k..] ==> c in chain)
      ensures var s := Snap(chain, k, fl, send);
              && s.k == k && s.fl == fl && s.send == send && s.wire == wire
              && s.pend == Pending() && s.rest == Unread(chain[k..])
              && |s.pend| == last - pos && s.sent == sent && pos <= last <= buf.Length
    {
    }

    lemma SnapFlag(chain: seq<Chunk>, k: nat, fl: bool, send: nat)
      requires Sound(chain) && k <= |chain|
      ensures Snap(chain, k, false, send) == Snap(chain, k, fl, send).(fl := false)
    {
    }

    lemma SnapPlaced(chain: seq<Chunk>, k: nat, fl: bool, send: nat)
      requires Sound(chain) && k <= |chain|
      ensures Placed(chain, Snap(chain, k, fl, send))
    {
      UnreadLeft(chain, k);
    }

    /** One write of all that the buffer holds. */
    method SendOut() returns (n: int)
      requires Valid() && buf != null && pos < last
      modifies this`pos, this`sent, this`wire, this`owed, this`stalled, this`errors, this`retries
      ensures Valid() && (n == ERROR || n == AGAIN || 0 < n <= last - old(pos))
      ensures errors == Counted(old(errors), n == ERROR)
      ensures stalled == (old(stalled) || n != last - old(pos)) && (n < last - old(pos) ==> pos < last)
      ensures n == ERROR ==> old(wire) <= wire <= old(wire + Pending())
      ensures n == AGAIN ==> wire == old(wire) && pos == old(pos) && sent == old(sent) && owed == Pending()
      ensures n > 0 ==> wire + Pending() == old(wire + Pending()) && old(wire) <= wire && |wire| == |old(wire)| + n
      ensures n > 0 ==> pos == old(pos) + n && sent == old(sent) + n
    {
      ghost var p := Pending();
      n := SslWrite(buf[pos..last]);
      if n > 0 {
        pos, sent := pos + n, sent + n;
        assert p == p[..n] + Pending();
      }
    }

    // ------------------------------------------------------------ the whole function

    /** ngx_ssl_send_chain: what SSL_write has taken, the buffer and the chain returned
        are together always the bytes there were, in order, and nothing else is ever
        sent even when a write fails. The call fails exactly when SSL_write has failed in it
        or a buffer is wanted and there is no memory for it. With a buffer no more is copied than the limit
        leaves beside what was buffered, and a flush once asked for (by the flag, by an
        empty chain or by a mark passed in the chain) stays recorded until everything
        before it has been sent. */
    method SendChain(chain: seq<Chunk>, limit: int, memory: bool) returns (ok: bool, k: nat)
      requires Sound(chain) && (if buffering then Valid() && Rewound() else buf == null && owed <= First(chain))
      modifies this, buf, chain
      ensures NoMemory(old(buf), memory) ==> !ok
      ensures errors == Counted(old(errors), !ok && !NoMemory(old(buf), memory))
      ensures !buffering ==> retries == Counted(old(retries), ok && k < |chain|)
      ensures Sound(chain) && k <= |chain| && (forall c :: c in chain[k..] ==> c in chain)
      ensures if buffering then Valid() && Rewound()
              else buf == null && (ok ==> Sound(chain[k..]) && owed <= First(chain[k..]))
      ensures ok ==>
                wire + (Pending() + Unread(chain[k..])) == old(wire + (Pending() + Unread(chain))) && old(wire) <= wire
      ensures !ok ==> old(wire) <= wire <= old(wire + (Pending() + Unread(chain)))
      ensures ok ==> sent - old(sent) == |wire| - |old(wire)|
      ensures ok && !buffering && k < |chain| ==> !chain[k].Special() && owed == Rest(chain[k])
      ensures ok && buffering ==>
                && buffered == (Pending() != [])
                && |old(Unread(chain))| - |Unread(chain[k..])| <= Max(0, Cap(limit) - |old(Pending())|)
                && Within(chain, old(Poses(chain)))
                && MarksKept(chain, old(Poses(chain)), k, flush, |Pending()| + |Unread(chain[k..])|)
                && ((old(flush) || chain == []) && !flush ==>
                      |Pending()| + |Unread(chain[k..])| <= |old(Unread(chain))|)
      ensures ok && buffering && !stalled ==>
                !flush && (k == |chain| || Reached(old(Unread(chain)), Unread(chain[k..]), old(Pending()), limit))
      ensures ok && buffering
              && old(Quiet(chain, Snap(chain, 0, chain == [] || flush, |Pending()|), Cap(limit), Room())) ==>
                wire == old(wire) && k == |chain|
    {
      hide Unread, Keeps, Poses, Within, Left, Quiet, MarksKept, First, Snap;
      if buffering {
        ok, k := SendBuffered(chain, limit, memory);
      } else {
        assert Pending() + Unread(chain) == Unread(chain);
        ok, k := SendPlain(chain);
        assert forall c :: c in chain[k..] ==> c in chain;
        assert Pending() + Unread(chain[k..]) == Unread(chain[k..]);
      }
    }

    /** The buffer is wanted and has no memory, and there is none to be had. */
    predicate NoMemory(buf: array?<Byte>, memory: bool) { buffering && buf == null && !memory }

    /** As much was copied as the limit leaves beside what was buffered, or there is no
        buffer to speak of. */
    predicate Reached(before: seq<Byte>, after: seq<Byte>, pend: seq<Byte>, limit: int)
    {
      |pend| + (|before| - |after|) >= Cap(limit) || bufferSize == 0
    }

    method SendBuffered(chain: seq<Chunk>, limit: int, memory: bool) returns (ok: bool, k: nat)
      requires Sound(chain) && Valid() && Rewound()
      modifies this, buf, chain
      ensures old(buf) == null && !memory ==> !ok
      ensures errors == Counted(old(errors), !ok && (old(buf) != null || memory))
      ensures Valid() && Rewound()
      ensures Sound(chain) && k <= |chain| && (forall c :: c in chain[k..] ==> c in chain)
      ensures ok ==>
                wire + (Pending() + Unread(chain[k..])) == old(wire + (Pending() + Unread(chain))) && old(wire) <= wire
      ensures !ok ==> old(wire) <= wire <= old(wire + (Pending() + Unread(chain)))
      ensures ok ==> sent - old(sent) == |wire| - |old(wire)|
      ensures ok && !stalled ==>
                !flush && (k == |chain| || Reached(old(Unread(chain)), Unread(chain[k..]), old(Pending()), limit))
      ensures ok ==>
                && buffered == (Pending() != [])
                && |old(Unread(chain))| - |Unread(chain[k..])| <= Max(0, Cap(limit) - |old(Pending())|)
                && Within(chain, old(Poses(chain)))
                && MarksKept(chain, old(Poses(chain)), k, flush, |Pending()| + |Unread(chain[k..])|)
                && ((old(flush) || chain == []) && !flush ==>
                      |Pending()| + |Unread(chain[k..])| <= |old(Unread(chain))|)
      ensures ok && old(Quiet(chain, Snap(chain, 0, chain == [] || flush, |Pending()|), Cap(limit), Room())) ==>
                wire == old(wire) && k == |chain|
    {
      hide Unread, Keeps, Poses, Within, Left, Quiet, MarksKept, Snap, Sound;
      Begin(chain);
      ghost var c := Snap(chain, 0, chain == [] || flush, |Pending()|);
      SnapStart(chain);
      ok := PrepareNow(chain, memory);
      k := 0;
      if ok {
        var send;
        ok, k, send := Pump(chain, Cap(limit), c, Room());
        if ok {
          SnapParts(chain, k, flush, send);
          KeepsMeans(chain, c, Snap(chain, k, flush, send), Cap(limit));
        }
      }
      SoundTail(chain, k);
    }

    /** A new call has not been held up yet. */
    ghost method Begin(chain: seq<Chunk>)
      requires Valid() && Sound(chain)
      modifies `stalled
      ensures Valid() && !stalled && Pending() == old(Pending()) && Room() == old(Room())
      ensures Snap(chain, 0, chain == [] || flush, |Pending()|)
              == old(Snap(chain, 0, chain == [] || flush, |Pending()|))
      ensures Rewound() == old(Rewound())
    {
      hide Unread, Poses;
      stalled := false;
    }

    lemma SoundTail(chain: seq<Chunk>, k: nat)
      requires Sound(chain) && k <= |chain|
      ensures forall c :: c in chain[k..] ==> c in chain
    {
    }

    lemma SnapStart(chain: seq<Chunk>)
      requires Sound(chain)
      ensures (forall c :: c in chain ==> c.pos <= |c.data|) && chain[0..] == chain
      ensures var s := Snap(chain, 0, chain == [] || flush, |Pending()|);
              && s.wire == wire && s.pend == Pending() && s.rest == Unread(chain) && s.poses == Poses(chain)
              && s.sent == sent && s.k == 0 && s.fl == (chain == [] || flush) && s.send == |Pending()|
    {
      assert chain[0..] == chain;
    }

    /** Prepare leaves everything a call looks at. */
    method PrepareNow(chain: seq<Chunk>, memory: bool) returns (ok: bool)
      requires Valid() && Sound(chain)
      modifies `buf, `pos, `last
      ensures Valid() && Sound(chain) && Pending() == old(Pending())
      ensures ok ==> buf != null && Room() == buf.Length - last
      ensures ok == (memory || old(buf) != null)
      ensures (buf == old(buf) || fresh(buf)) && (ok ==> buf != null && buf.Length == bufferSize)
      ensures old(Rewound()) ==> Rewound()
      ensures var s := Snap(chain, 0, chain == [] || flush, |Pending()|);
              s == old(Snap(chain, 0, chain == [] || flush, |Pending()|)) && Room() == old(Room())
      ensures buf != null ==> |Pending()| == last - pos
    {
      hide Unread, Poses;
      ok := Prepare(memory);
    }

    /** The bytes that still fit behind what is buffered. */
    ghost function Room(): int
      reads this
    {
      if buf == null then bufferSize else buf.Length - last
    }

    // ------------------------------------------------------------ without a buffer

    /** The bytes the next write begins with when there is no buffer. */
    ghost function First(chain: seq<Chunk>): seq<Byte>
      requires Sound(chain)
      reads chain
    {
      if chain == [] then [] else
        assert forall c :: c in chain[1..] ==> c in chain;
        if chain[0].Special() then First(chain[1..]) else Rest(chain[0])
    }

    lemma FirstAt(chain: seq<Chunk>, k: nat)
      requires k < |chain| && Sound(chain)
      ensures Sound(chain[k..]) && Sound(chain[k + 1..])
      ensures First(chain[k..]) == if chain[k].Special() then First(chain[k + 1..]) else Rest(chain[k])
    {
      assert chain[k..][1..] == chain[k + 1..];
      assert forall c :: c in chain[k..] || c in chain[k + 1..] ==> c in chain;
    }

    /** The branch for connections without SSL buffering: it stops early only when
        SSL_write wants a retry, and then the chain returned starts with the bytes to
        be retried. */
    method SendPlain(chain: seq<Chunk>) returns (ok: bool, k: nat)
      requires Sound(chain) && owed <= First(chain)
      modifies `sent, `wire, `owed, `stalled, `errors, `retries, chain
      ensures errors == Counted(old(errors), !ok) && retries == Counted(old(retries), ok && k < |chain|)
      ensures Sound(chain) && k <= |chain| && (ok ==> Sound(chain[k..]) && owed <= First(chain[k..]))
      ensures ok ==> wire + Unread(chain[k..]) == old(wire + Unread(chain)) && old(wire) <= wire
      ensures ok && k < |chain| ==> !chain[k].Special() && owed == Rest(chain[k])
      ensures !ok ==> old(wire) <= wire <= old(wire + Unread(chain))
      ensures ok ==> sent - old(sent) == |wire| - |old(wire)|
    {
      hide Unread, First;
      k, ok := 0, true;
      ghost var total := wire + Unread(chain);
      assert chain[0..] == chain;
      while k < |chain|
        invariant Sound(chain) && k <= |chain| && Sound(chain[k..]) && owed <= First(chain[k..])
        invariant errors == old(errors) && retries == old(retries)
        invariant wire + Unread(chain[k..]) == total && old(wire) <= wire
        invariant sent - old(sent) == |wire| - |old(wire)|
        decreases |chain| - k, |Unread(chain[k..])|
      {
        var c := chain[k];
        FirstAt(chain, k);
        UnreadAt(chain, k);
        if c.Special() {
          assert Rest(c) == [];
          k := k + 1;
          continue;
        }
        var n := WritePlain(chain, k, c);
        if n == ERROR {
          return false, k;
        }
        if n == AGAIN {
          return;
        }
        FirstAt(chain, k);
        UnreadAt(chain, k);
        if c.pos == |c.data| {
          assert Rest(c) == [];
          k := k + 1;
        }
      }
      assert First(chain[k..]) == [] by { EmptyFirst(); assert chain[k..] == []; }
    }

    /** The write of one chunk. */
    method WritePlain(chain: seq<Chunk>, k: nat, c: Chunk) returns (n: int)
      requires Sound(chain) && k < |chain| && c == chain[k] && !c.Special() && owed <= Rest(c)
      modifies `sent, `wire, `owed, `stalled, `errors, `retries, c`pos
      ensures Sound(chain) && (n == ERROR || n == AGAIN || n > 0)
      ensures errors == Counted(old(errors), n == ERROR) && retries == Counted(old(retries), n == AGAIN)
      ensures n == ERROR ==> c.pos == old(c.pos) && old(wire) <= wire <= old(wire + Unread(chain[k..]))
      ensures n == AGAIN ==> c.pos == old(c.pos) && wire == old(wire) && sent == old(sent) && owed == Rest(c)
      ensures n > 0 ==>
                && owed == [] && c.pos == old(c.pos) + n && sent == old(sent) + n
                && |wire| == |old(wire)| + n && old(wire) <= wire
      ensures n > 0 ==> wire + Unread(chain[k..]) == old(wire + Unread(chain[k..]))
      ensures n > 0 ==> |Unread(chain[k..])| == |old(Unread(chain[k..]))| - n
    {
      hide Unread;
      UnreadAt(chain, k);
      ghost var u, w, r := Unread(chain[k + 1..]), wire, Rest(c);
      n := SslWrite(c.data[c.pos..]);
      if n == ERROR {
        assert w + (r + u) == (w + r) + u;
      }
      if n > 0 {
        c.pos, sent := c.pos + n, sent + n;
        assert c !in chain[k + 1..];
        assert r == r[..n] + Rest(c);
        Regroup(w, r[..n], Rest(c), u);
        UnreadAt(chain, k);
      }
    }

    lemma EmptyFirst()
      ensures First([]) == []
    {
    }
  }

  function Max(a: int, b: int): int { if a < b then b else a }
}
