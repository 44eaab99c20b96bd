/** The accept mutex of ngx_event.c and ngx_event_accept.c: worker processes share one
    mutex, and each keeps a flag, a counter and the activity of its listening sockets
    in step with it.

    ngx_shmtx_trylock and ngx_shmtx_unlock are not part of the vendored sources; the
    first takes a free mutex or fails, the second frees the mutex only for its owner. */
module AcceptMutex {
  import opened Common

  datatype Phase = Idle | Polling(tried: bool)

  /** A worker: ngx_accept_mutex_held, ngx_accept_disabled, which of its listening
      sockets have a read event, and where it is in ngx_process_events_and_timers;
      tried says whether this iteration went for the mutex. */
  datatype Local = Local(held: bool, disabled: int, active: seq<bool>, phase: Phase)

  /** ngx_shmtx_unlock */
  function Unlocked(lock: Option<nat>, pid: nat): Option<nat> { if lock == Some(pid) then None else lock }

  function Uniform(n: nat, on: bool): (s: seq<bool>)
    ensures |s| == n && forall i :: 0 <= i < n ==> s[i] == on
  {
    seq(n, i => on)
  }

  // ---------------------------------------------------------------- steps of a worker

  /** The start of an iteration, up to ngx_process_events. */
  predicate EnterStep(pid: nat, lock: Option<nat>, a: Local, lock': Option<nat>, b: Local)
  {
    && a.phase == Idle
    && if a.disabled > 0 then
         lock' == lock && b == a.(disabled := a.disabled - 1, phase := Polling(false))
       else if lock == None then
         && lock' == Some(pid)
         && b == a.(held := true, phase := Polling(true),
                    active := if a.held then a.active else Uniform(|a.active|, true))
       else
         && lock' == lock
         && b == a.(held := false, phase := Polling(true),
                    active := if a.held then Uniform(|a.active|, false) else a.active)
  }

  /** ngx_event_accept runs out of file descriptors. */
  predicate ExhaustedStep(pid: nat, lock: Option<nat>, a: Local, lock': Option<nat>, b: Local)
  {
    && a.phase.Polling?
    && lock' == (if a.held then Unlocked(lock, pid) else lock)
    && b == a.(held := false, disabled := 1, active := Uniform(|a.active|, false))
  }

  /** ngx_event_accept accepts a connection: the counter is set anew. */
  predicate AcceptStep(lock: Option<nat>, a: Local, lock': Option<nat>, b: Local)
  {
    a.phase.Polling? && lock' == lock && b == a.(disabled := b.disabled)
  }

  /** The release of the mutex after the posted accept events. */
  predicate LeaveStep(pid: nat, lock: Option<nat>, a: Local, lock': Option<nat>, b: Local)
  {
    a.phase.Polling? && lock' == (if a.held then Unlocked(lock, pid) else lock) && b == a.(phase := Idle)
  }

  /** What an event that could not be added, or deleted, leaves behind: the sockets
      before that of the refused event are as they should be, the others as before. */
  predicate FailedStep(adding: bool, before: seq<bool>, after: seq<bool>)
  {
    |after| == |before| && exists n :: 0 <= n < |before| && RefusedAt(adding, before, after, n)
  }

  predicate RefusedAt(adding: bool, before: seq<bool>, after: seq<bool>, n: nat)
    requires n < |before| == |after|
  {
    && before[n] != adding
    && forall i :: 0 <= i < |after| ==> after[i] == if i < n then adding else before[i]
  }

  /** A call fails exactly when it has met one more refusal. */
  function Counted(refusals: nat, ok: bool): nat { if ok then refusals else refusals + 1 }

  // ---------------------------------------------------------------- the code of a worker

  class Mutex {
    /** The process id of the owner, if any. */
    var owner: Option<nat>

    constructor ()
      ensures owner == None
    {
      owner := None;
    }

    method TryLock(pid: nat) returns (ok: bool)
      modifies this
      ensures ok == (old(owner) == None) && owner == if ok then Some(pid) else old(owner)
    {
      ok := owner == None;
      if ok {
        owner := Some(pid);
      }
    }

    method Unlock(pid: nat)
      modifies this
      ensures owner == Unlocked(old(owner), pid)
    {
      if owner == Some(pid) {
        owner := None;
      }
    }
  }

  class Worker {
    const pid: nat
    const active: array<bool>
    var held: bool
    var disabled: int
    ghost var phase: Phase

    /** How many events have been refused so far. */
    ghost var refusals: nat

    ghost function View(): Local
      reads this, active
    {
      Local(held, disabled, active[..], phase)
    }

    /** ngx_event_process_init: no listening socket has a read event yet. */
    constructor (pid: nat, listeners: nat)
      ensures this.pid == pid && View() == Local(false, 0, Uniform(listeners, false), Idle) && fresh(active)
      ensures refusals == 0
    {
      this.pid := pid;
      active := new bool[listeners](i => false);
      held, disabled, phase, refusals := false, 0, Idle, 0;
      new;
      assert active[..] == Uniform(listeners, false);
    }

    /** ngx_add_event and ngx_del_event on one listening socket; either may fail. */
    method SetEvent(i: nat, on: bool) returns (ok: bool)
      requires i < active.Length
      modifies active, `refusals
      ensures active[..] == if ok then old(active[..])[i := on] else old(active[..])
      ensures refusals == Counted(old(refusals), ok)
    {
      ok := *;
      if ok {
        active[i] := on;
      } else {
        refusals := refusals + 1;
      }
    }

    /** ngx_enable_accept_events */
    method EnableAcceptEvents() returns (ok: bool)
      modifies active, `refusals
      ensures refusals == Counted(old(refusals), ok)
      ensures ok ==> active[..] == Uniform(active.Length, true)
      ensures !ok ==> FailedStep(true, old(active[..]), active[..])
    {
      var i := 0;
      while i < active.Length
        invariant i <= active.Length && refusals == old(refusals)
        invariant forall j :: 0 <= j < active.Length ==> active[j] == if j < i then true else old(active[j])
      {
        if !active[i] {
          ghost var before := active[..];
          var rc := SetEvent(i, true);
          assert forall j :: 0 <= j < active.Length ==> active[..][j] == if j == i && rc then true else before[j];
          if !rc {
            assert RefusedAt(true, old(active[..]), active[..], i);
            return false;
          }
        }
        i := i + 1;
      }
      return true;
    }

    /** ngx_disable_accept_events */
    method DisableAcceptEvents() returns (ok: bool)
      modifies active, `refusals
      ensures refusals == Counted(old(refusals), ok)
      ensures ok ==> active[..] == Uniform(active.Length, false)
      ensures !ok ==> FailedStep(false, old(active[..]), active[..])
    {
      var i := 0;
      while i < active.Length
        invariant i <= active.Length && refusals == old(refusals)
        invariant forall j :: 0 <= j < active.Length ==> active[j] == if j < i then false else old(active[j])
      {
        if active[i] {
          ghost var before := active[..];
          var rc := SetEvent(i, false);
          assert forall j :: 0 <= j < active.Length ==> active[..][j] == if j == i && rc then false else before[j];
          if !rc {
            assert RefusedAt(false, old(active[..]), active[..], i);
            return false;
          }
        }
        i := i + 1;
      }
      return true;
    }

    /** ngx_trylock_accept_mutex */
    method TryLockAcceptMutex(mutex: Mutex) returns (ok: bool)
      modifies `held, active, mutex, `refusals
      ensures refusals == Counted(old(refusals), ok)
      ensures !ok ==> mutex.owner == old(mutex.owner) && held == old(held)
      ensures !ok ==> FailedStep(old(mutex.owner) == None, old(active[..]), active[..])
      ensures ok && old(mutex.owner) == None ==>
                && mutex.owner == Some(pid) && held
                && active[..] == if old(held) then old(active[..]) else Uniform(active.Length, true)
      ensures ok && old(mutex.owner) != None ==>
                mutex.owner == old(mutex.owner) && !held
                && active[..] == if old(held) then Uniform(active.Length, false) else old(active[..])
    {
      var locked := mutex.TryLock(pid);
      if locked {
        if held {
          return true;
        }
        ok := EnableAcceptEvents();
        if !ok {
          mutex.Unlock(pid);
          return false;
        }
        held := true;
        return true;
      }
      if held {
        ok := DisableAcceptEvents();
        if !ok {
          return false;
        }
        held := false;
      }
      return true;
    }

    /** ngx_process_events_and_timers up to ngx_process_events. */
    method Enter(mutex: Mutex) returns (ok: bool)
      requires phase == Idle
      modifies `held, `disabled, `phase, active, mutex, `refusals
      ensures refusals == Counted(old(refusals), ok)
      ensures ok ==> EnterStep(pid, old(mutex.owner), old(View()), mutex.owner, View())
      ensures !ok ==>
                mutex.owner == old(mutex.owner) && held == old(held) && phase == Idle && disabled == old(disabled) <= 0
      ensures !ok ==> FailedStep(old(mutex.owner) == None, old(active[..]), active[..])
    {
      if disabled > 0 {
        disabled := disabled - 1;
        phase := Polling(false);
        return true;
      }
      ok := TryLockAcceptMutex(mutex);
      if ok {
        phase := Polling(true);
      }
    }

    /** ngx_event_accept after EMFILE or ENFILE. */
    method Exhausted(mutex: Mutex) returns (ok: bool)
      requires phase.Polling?
      modifies `held, `disabled, active, mutex, `refusals
      ensures refusals == Counted(old(refusals), ok)
      ensures ok ==> ExhaustedStep(pid, old(mutex.owner), old(View()), mutex.owner, View())
      ensures !ok ==> mutex.owner == old(mutex.owner) && held == old(held) && disabled == old(disabled)
      ensures !ok ==> FailedStep(false, old(active[..]), active[..])
    {
      ok := DisableAcceptEvents();
      if !ok {
        return false;
      }
      if held {
        mutex.Unlock(pid);
        held := false;
      }
      disabled := 1;
    }

    /** The release after the posted accept events. */
    method Leave(mutex: Mutex)
      requires phase.Polling?
      modifies `phase, mutex
      ensures LeaveStep(pid, old(mutex.owner), old(View()), mutex.owner, View())
    {
      if held {
        mutex.Unlock(pid);
      }
      phase := Idle;
    }
  }

  // ---------------------------------------------------------------- all workers

  datatype Sys = Sys(lock: Option<nat>, workers: map<nat, Local>)

  /** Worker w makes one step; no event could not be added or deleted. */
  ghost predicate Next(y: Sys, z: Sys, w: nat)
  {
    && w in y.workers && w in z.workers && z.workers == y.workers[w := z.workers[w]]
    && var a, b := y.workers[w], z.workers[w];
    (EnterStep(w, y.lock, a, z.lock, b) || ExhaustedStep(w, y.lock, a, z.lock, b)
     || AcceptStep(y.lock, a, z.lock, b) || LeaveStep(w, y.lock, a, z.lock, b))
  }

  ghost predicate Start(y: Sys)
  {
    && y.lock == None
    && forall w :: w in y.workers ==>
         var a := y.workers[w];
         !a.held && a.phase == Idle && a.active == Uniform(|a.active|, false)
  }

  ghost predicate Run(t: seq<Sys>, ws: seq<nat>)
  {
    |t| == |ws| + 1 && Start(t[0]) && forall i :: 0 <= i < |ws| ==> Next(t[i], t[i + 1], ws[i])
  }

  /** A worker that holds the flag has all its listening sockets active, one that does
      not has none; the mutex is owned exactly by the worker that got it in the
      iteration it is in. */
  ghost predicate Agrees(y: Sys)
  {
    && (forall w :: w in y.workers ==> var a := y.workers[w]; a.active == Uniform(|a.active|, a.held))
    && (forall w :: w in y.workers ==>
          (y.lock == Some(w) <==> y.workers[w].held && y.workers[w].phase == Polling(true)))
    && (y.lock.Some? ==> y.lock.value in y.workers)
  }

  lemma StepAgrees(y: Sys, z: Sys, w: nat)
    requires Agrees(y) && Next(y, z, w)
    ensures Agrees(z)
  {
  }

  lemma {:induction false} RunAgrees(t: seq<Sys>, ws: seq<nat>, i: nat)
    requires Run(t, ws) && i < |t|
    ensures Agrees(t[i])
  {
    hide Agrees, Next;
    if i == 0 {
      StartAgrees(t[0]);
    } else {
      RunAgrees(t, ws, i - 1);
      StepAgrees(t[i - 1], t[i], ws[i - 1]);
    }
  }

  lemma StartAgrees(y: Sys)
    requires Start(y)
    ensures Agrees(y)
  {
  }

  /** A worker waits for connections. */
  predicate Listens(a: Local) { exists i :: 0 <= i < |a.active| && a.active[i] }

  /** It does so in an iteration in which it went for the mutex. */
  predicate Contends(a: Local) { a.phase == Polling(true) && Listens(a) }

  /** In every run the mutex is free between the iterations of its owner, and of the
      workers that went for it at most one waits for connections. */
  lemma OneListener(t: seq<Sys>, ws: seq<nat>, i: nat, v: nat, w: nat)
    requires Run(t, ws) && i < |t| && v in t[i].workers && w in t[i].workers
    ensures t[i].workers[w].phase == Idle ==> t[i].lock != Some(w)
    ensures Contends(t[i].workers[v]) && Contends(t[i].workers[w]) ==> v == w && t[i].lock == Some(v)
  {
    RunAgrees(t, ws, i);
  }

  /** A worker that goes for the mutex gets it exactly when it is free, and then waits
      for connections on all its sockets; otherwise it waits on none. */
  lemma Takes(t: seq<Sys>, ws: seq<nat>, i: nat)
    requires Run(t, ws) && i < |ws| && ws[i] in t[i].workers
    requires t[i].workers[ws[i]].phase == Idle && t[i].workers[ws[i]].disabled <= 0
    ensures ws[i] in t[i + 1].workers
    ensures t[i + 1].lock == if t[i].lock == None then Some(ws[i]) else t[i].lock
    ensures var a := t[i + 1].workers[ws[i]];
            a.phase == Polling(true) && forall j :: 0 <= j < |a.active| ==> a.active[j] == (t[i].lock == None)
  {
    RunAgrees(t, ws, i);
    assert Next(t[i], t[i + 1], ws[i]);
  }

  // ---------------------------------------------------------------- the counter

  predicate Enters(t: seq<Sys>, ws: seq<nat>, w: nat, j: nat)
    requires j < |ws| < |t|
  {
    ws[j] == w && w in t[j].workers && t[j].workers[w].phase == Idle
  }

  /** How many iterations worker w begins from step i up to step k. */
  function Entries(t: seq<Sys>, ws: seq<nat>, w: nat, i: nat, k: nat): nat
    requires i <= k <= |ws| < |t|
    decreases k
  {
    if i == k then 0 else Entries(t, ws, w, i, k - 1) + if Enters(t, ws, w, k - 1) then 1 else 0
  }

  /** From step i up to step k worker w accepts nothing and does not run out of
      descriptors: each of its steps begins or ends an iteration. */
  predicate Quiet(t: seq<Sys>, ws: seq<nat>, w: nat, i: nat, k: nat)
    requires i <= k <= |ws| < |t|
  {
    forall j :: i <= j < k && ws[j] == w && w in t[j].workers && w in t[j + 1].workers ==>
                  t[j + 1].workers[w].phase != t[j].workers[w].phase
  }

  /** A step of a worker counts down exactly when it begins an iteration with a positive
      counter, unless it accepts or runs out of descriptors. */
  lemma StepCounts(y: Sys, z: Sys, v: nat, w: nat)
    requires Next(y, z, v) && w in y.workers
    ensures w in z.workers
    ensures var a, b := y.workers[w], z.workers[w];
            && (v == w && a.phase == Idle ==>
                  b.disabled == (if a.disabled > 0 then a.disabled - 1 else a.disabled)
                  && b.phase == Polling(a.disabled <= 0))
            && (v == w && a.phase != Idle && b.phase != a.phase ==> b.disabled == a.disabled)
            && (v != w ==> b == a)
  {
    hide Uniform;
  }

  lemma {:induction false} CountsDown(t: seq<Sys>, ws: seq<nat>, w: nat, i: nat, k: nat)
    requires Run(t, ws) && i <= k <= |ws| && w in t[i].workers && Quiet(t, ws, w, i, k)
    ensures w in t[k].workers
    ensures var d, n := t[i].workers[w].disabled, Entries(t, ws, w, i, k);
            t[k].workers[w].disabled == if d <= 0 then d else if n <= d then d - n else 0
    decreases k
  {
    hide Next;
    if i < k {
      var j := k - 1;
      CountsDown(t, ws, w, i, j);
      assert Next(t[j], t[j + 1], ws[j]);
      StepCounts(t[j], t[k], ws[j], w);
    }
  }

  /** A worker whose counter is d keeps away from the mutex for exactly its next d
      iterations, unless it accepts or runs out of descriptors in between. */
  lemma Skips(t: seq<Sys>, ws: seq<nat>, w: nat, i: nat, k: nat)
    requires Run(t, ws) && i <= k < |ws| && w in t[i].workers && Quiet(t, ws, w, i, k) && Enters(t, ws, w, k)
    ensures w in t[k + 1].workers
    ensures t[k + 1].workers[w].phase == Polling(Entries(t, ws, w, i, k) >= t[i].workers[w].disabled)
  {
    hide Next;
    CountsDown(t, ws, w, i, k);
    assert Next(t[k], t[k + 1], ws[k]);
    StepCounts(t[k], t[k + 1], ws[k], w);
  }

  // ---------------------------------------------------------------- workers that wait at once

  /** It polls without having gone for the mutex, with the flag of an earlier iteration. */
  predicate Stale(a: Local) { a.phase == Polling(false) && a.held && |a.active| > 0 }

  /** In every run a worker waits for connections without owning the mutex exactly when
      it is stale, and while owning it exactly when it has any socket. */
  lemma WaitsWithoutMutex(t: seq<Sys>, ws: seq<nat>, i: nat, w: nat)
    requires Run(t, ws) && i < |t| && w in t[i].workers && t[i].workers[w].phase.Polling?
    ensures var a := t[i].workers[w];
            && (Listens(a) && t[i].lock != Some(w) <==> Stale(a))
            && (Listens(a) && t[i].lock == Some(w) <==> t[i].lock == Some(w) && |a.active| > 0)
  {
    RunAgrees(t, ws, i);
    var a := t[i].workers[w];
    if a.held && |a.active| > 0 { assert a.active[0]; }
  }

  /** Two workers wait at once exactly when one of them is stale and the other is stale
      too or owns the mutex. */
  lemma OverlapIff(t: seq<Sys>, ws: seq<nat>, i: nat, v: nat, w: nat)
    requires Run(t, ws) && i < |t| && v != w && v in t[i].workers && w in t[i].workers
    requires t[i].workers[v].phase.Polling? && t[i].workers[w].phase.Polling?
    ensures var a, b := t[i].workers[v], t[i].workers[w];
            Listens(a) && Listens(b)
            <==> (Stale(a) && (Stale(b) || (t[i].lock == Some(w) && |b.active| > 0)))
                 || (Stale(b) && t[i].lock == Some(v) && |a.active| > 0)
  {
    WaitsWithoutMutex(t, ws, i, v);
    WaitsWithoutMutex(t, ws, i, w);
  }

  /** It becomes so in the branch for a positive counter, exactly when it enters that
      branch with the flag set. */
  lemma EntersStale(t: seq<Sys>, ws: seq<nat>, i: nat)
    requires Run(t, ws) && i < |ws| && ws[i] in t[i].workers && t[i].workers[ws[i]].phase == Idle
    ensures ws[i] in t[i + 1].workers
    ensures var a := t[i].workers[ws[i]];
            Stale(t[i + 1].workers[ws[i]]) <==> a.disabled > 0 && a.held && |a.active| > 0
  {
    assert Next(t[i], t[i + 1], ws[i]);
  }

  /** A worker that has just let the mutex go and whose counter is positive skips the
      mutex but still waits for connections: the restriction to workers that went for
      the mutex is needed. */
  lemma DisabledOverlap() returns (t: seq<Sys>, ws: seq<nat>)
    ensures Run(t, ws) && |t| == 6 && t[5].workers.Keys == {1, 2}
    ensures t[5].workers[1].phase.Polling? && Listens(t[5].workers[1]) && Contends(t[5].workers[2])
  {
    var off := Local(false, 0, [false], Idle);
    var on := Local(true, 0, [true], Polling(true));
    var a := on.(disabled := 1);
    var b := a.(phase := Idle);
    var c := a.(disabled := 0, phase := Polling(false));
    t := [Sys(None, map[1 := off, 2 := off]), Sys(Some(1), map[1 := on, 2 := off]), Sys(Some(1), map[1 := a, 2 := off]),
          Sys(None, map[1 := b, 2 := off]), Sys(None, map[1 := c, 2 := off]), Sys(Some(2), map[1 := c, 2 := on])];
    ws := [1, 1, 1, 1, 2];
    assert [true] == Uniform(1, true) && [false] == Uniform(1, false);
    assert EnterStep(1, None, off, Some(1), on) && AcceptStep(Some(1), on, Some(1), a);
    assert LeaveStep(1, Some(1), a, None, b);
    assert EnterStep(1, None, b, None, c) && EnterStep(2, None, off, Some(2), on);
    assert on.active[0] && c.active[0];
  }
}
