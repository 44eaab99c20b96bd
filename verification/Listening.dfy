/** The listening sockets of one port in ngx_http.c: the addresses of the port, sorted,
    are handed out over sockets by a loop that shifts its window over the array.

    ngx_sort, the allocation of a socket and the copy of an address into it are not
    part of the vendored sources or of no interest here; the sort is taken to leave no
    neighbours out of order, and an allocation may fail. */
module Listening {

  /** ngx_http_conf_addr_t, as far as its place matters. */
  datatype Addr = Addr(sockaddr: nat, bind: bool, wildcard: bool)

  /** A listening socket: the address it is bound to and its list of addresses. */
  datatype Socket = Socket(addr: Addr, addrs: seq<Addr>)

  /** ngx_http_cmp_conf_addrs */
  function Cmp(first: Addr, second: Addr): int
  {
    if first.wildcard then 1
    else if second.wildcard then -1
    else if first.bind && !second.bind then -1
    else if !first.bind && second.bind then 1
    else 0
  }

  predicate Sorted(a: seq<Addr>)
  {
    forall i :: 0 < i < |a| ==> Cmp(a[i - 1], a[i]) <= 0
  }

  /** Whatever comes before something else is no wildcard, and only explicit addresses
      come before an explicit one: there is at most one wildcard, and it is last. */
  predicate Ranked(a: seq<Addr>)
  {
    forall i, j :: 0 <= i < j < |a| ==> !a[i].wildcard && (a[j].bind && !a[j].wildcard ==> a[i].bind)
  }

  /** Although the comparison puts each of two wildcards after the other, neighbours in
      order mean just that. */
  lemma {:induction false} SortedIsRanked(a: seq<Addr>)
    ensures Sorted(a) <==> Ranked(a)
  {
    if |a| > 1 {
      var n := |a| - 1;
      var b := a[..n];
      SortedIsRanked(b);
      assert forall i :: 0 <= i < n ==> b[i] == a[i];
      if Sorted(a) {
        assert Sorted(b);
        assert Cmp(a[n - 1], a[n]) <= 0;
        forall i | 0 <= i < n ensures !a[i].wildcard && (a[n].bind && !a[n].wildcard ==> a[i].bind) {
          if i < n - 1 { assert !b[i].wildcard && (b[n - 1].bind && !b[n - 1].wildcard ==> b[i].bind); }
        }
      }
    }
  }

  /** The wildcard address is bound explicitly. */
  function Bound(a: seq<Addr>): seq<Addr>
    requires a != []
  {
    var n := |a| - 1;
    if a[n].wildcard then a[n := a[n].(bind := true)] else a
  }

  /** The lists of all sockets one after the other. */
  function Lists(sockets: seq<Socket>): seq<Addr>
  {
    if sockets == [] then [] else Lists(sockets[..|sockets| - 1]) + sockets[|sockets| - 1].addrs
  }

  lemma ListsPush(sockets: seq<Socket>, s: Socket)
    ensures Lists(sockets + [s]) == Lists(sockets) + s.addrs
  {
    assert (sockets + [s])[..|sockets|] == sockets;
  }

  /** A socket has the list of its own address; only that of a wildcard has more, and
      these are the implicit addresses. */
  predicate ProperSocket(s: Socket, wildcard: bool)
  {
    && s.addrs != [] && s.addr == s.addrs[|s.addrs| - 1]
    && (forall i :: 0 <= i < |s.addrs| - 1 ==> !s.addrs[i].bind && !s.addrs[i].wildcard)
    && (wildcard ==> s.addr.bind)
    && (|s.addrs| > 1 ==> s.addr.wildcard)
  }

  /** ngx_http_init_listening: every address of the port is in exactly one list, in
      order. Explicitly bound addresses, and without a wildcard all of them, have a
      socket of their own; with one the rest is left to the wildcard's. */
  method InitListening(addrs: array<Addr>) returns (ok: bool, sockets: seq<Socket>)
    requires addrs.Length > 0 && Sorted(addrs[..])
    modifies addrs
    ensures addrs[..] == Bound(old(addrs[..]))
    ensures ok ==> Lists(sockets) == addrs[..]
    ensures ok ==> forall s :: s in sockets ==> ProperSocket(s, addrs[addrs.Length - 1].wildcard)
    ensures ok && !addrs[addrs.Length - 1].wildcard ==>
              |sockets| == addrs.Length && forall s :: s in sockets ==> s.addrs == [s.addr]
  {
    hide Lists;
    SortedIsRanked(addrs[..]);
    ghost var before := addrs[..];
    var addr, last := 0, addrs.Length;
    var bindWildcard := false;
    if addrs[addr + last - 1].wildcard {
      addrs[addr + last - 1] := addrs[addr + last - 1].(bind := true);
      bindWildcard := true;
    }
    ghost var a := addrs[..];
    assert a == Bound(before);
    BoundRanked(before);
    sockets := [];
    ListsNone();
    var i := 0;
    while i < last
      invariant addr + last == addrs.Length && i <= last && addrs[..] == a && bindWildcard == a[|a| - 1].wildcard
      invariant Lists(sockets) == a[..if i == last > 0 then |a| else addr]
      invariant i < last || last == 0 || bindWildcard
      invariant forall j :: addr <= j < addr + i && j < |a| - 1 ==> !a[j].bind
      invariant i > 0 ==> bindWildcard
      invariant forall s :: s in sockets ==> ProperSocket(s, bindWildcard)
      invariant !bindWildcard ==> |sockets| == addr && forall s :: s in sockets ==> s.addrs == [s.addr]
      decreases last, last - i
    {
      if bindWildcard && !addrs[addr + i].bind {
        i := i + 1;
        continue;
      }
      var ls := addrs[addr + i];
      var room := *;
      if !room {
        return false, [];
      }
      var naddrs;
      if i == last - 1 {
        naddrs := last;
      } else {
        naddrs := 1;
        i := 0;
      }
      ListsPush(sockets, Socket(ls, addrs[addr..addr + naddrs]));
      sockets := sockets + [Socket(ls, addrs[addr..addr + naddrs])];
      addr := addr + 1;
      last := last - 1;
    }
    return true, sockets;
  }

  lemma ListsNone()
    ensures Lists([]) == []
  {
  }

  lemma BoundRanked(a: seq<Addr>)
    requires a != [] && Ranked(a)
    ensures Ranked(Bound(a)) && Bound(a)[|a| - 1].wildcard == a[|a| - 1].wildcard
    ensures a[|a| - 1].wildcard ==> Bound(a)[|a| - 1].bind
  {
  }
}
