/** The static location compiler of ngx_http.c and the lookup that uses its
    output in ngx_http_core_module.c.

    A sorted queue of locations is joined, nested by prefix, turned into a
    balanced prefix tree, and searched with a request URI.  The theorem of the
    module is LookupAnswersIff: the search gives what scanning the original
    queue for an exact match, then for every prefix from the longest down,
    would give, exactly when no segment is too long for its u_char length. */
module Locations {
  import opened Common
  import opened Names

  /** ngx_http_core_loc_conf_t: its identity and the two flags read here. */
  datatype Conf = Conf(id: nat, exactMatch: bool, autoRedirect: bool)

  /** ngx_http_location_queue_t; list holds the locations nested below this one. */
  datatype Loc = Loc(name: Name, exact: Option<Conf>, inclusive: Option<Conf>, list: seq<Loc>)

  /** ngx_http_location_tree_node_t; len is an u_char, name the whole segment. */
  datatype Tree =
    | Nil
    | Node(left: Tree, right: Tree, tree: Tree, exact: Option<Conf>, inclusive: Option<Conf>,
           autoRedirect: bool, len: nat, name: Name)

  /** What the search tells the caller: NGX_DECLINED, NGX_OK, NGX_AGAIN or NGX_DONE. */
  datatype Match = Declined | Exact(conf: Conf) | Inclusive(conf: Conf) | Redirect(conf: Conf)

  datatype Result<T> = Ok(value: T) | DuplicateLocation(name: Name)

  // ---------------------------------------------------------------- the flat table

  /** An entry that has one configuration, under the kind it asks for. */
  predicate Added(l: Loc)
  {
    && l.list == []
    && (l.exact.Some? <==> l.inclusive.None?)
    && (l.exact.Some? ==> l.exact.value.exactMatch)
    && (l.inclusive.Some? ==> !l.inclusive.value.exactMatch)
  }

  function AnyConf(l: Loc): Conf
    requires l.exact.Some? || l.inclusive.Some?
  {
    if l.exact.Some? then l.exact.value else l.inclusive.value
  }

  /** ngx_http_add_location for a static (not regex, named or noname) location. */
  function AddLocation(name: Name, conf: Conf): (l: Loc)
    ensures Added(l) && l.name == name && AnyConf(l) == conf
  {
    if conf.exactMatch then Loc(name, Some(conf), None, []) else Loc(name, None, Some(conf), [])
  }

  /** ngx_http_cmp_locations restricted to static locations. */
  function CmpLocations(a: Loc, b: Loc): int
    requires a.exact.Some? || a.inclusive.Some?
    requires b.exact.Some? || b.inclusive.Some?
  {
    var rc := FilenameCmp(a.name, b.name, Min(|a.name|, |b.name|) + 1);
    if rc == 0 && !AnyConf(a).exactMatch && AnyConf(b).exactMatch then 1 else rc
  }

  /** What ngx_queue_sort leaves behind. */
  predicate SortedQueue(s: seq<Loc>)
  {
    && (forall i :: 0 <= i < |s| ==> Added(s[i]))
    && (forall i :: 0 <= i < |s| - 1 ==> CmpLocations(s[i], s[i + 1]) <= 0)
  }

  /** A queue in the middle of joining: the head may already carry both kinds. */
  predicate Table(s: seq<Loc>)
  {
    && (forall l :: l in s ==> (l.exact.Some? || l.inclusive.Some?) && l.list == [])
    && (forall i :: 0 <= i < |s| - 1 ==> Before(s[i], s[i + 1]))
  }

  predicate Before(a: Loc, b: Loc)
  {
    Lt(a.name, b.name) || (a.name == b.name && (b.exact.Some? ==> a.exact.Some?))
  }

  lemma SortedIsTable(s: seq<Loc>)
    requires SortedQueue(s)
    ensures Table(s)
  {
    forall i | 0 <= i < |s| - 1 ensures Before(s[i], s[i + 1]) {
      CmpIsLt(s[i].name, s[i + 1].name);
      assert Added(s[i]) && Added(s[i + 1]);
    }
  }

  /** The two readings of the table: who owns a name exactly, who owns it as a prefix. */
  function ExactAt(s: seq<Loc>, n: Name): Option<Conf>
  {
    if s == [] then None
    else if s[0].name == n && s[0].exact.Some? then s[0].exact
    else ExactAt(s[1..], n)
  }

  function InclusiveAt(s: seq<Loc>, n: Name): Option<Conf>
  {
    if s == [] then None
    else if s[0].name == n && s[0].inclusive.Some? then s[0].inclusive
    else InclusiveAt(s[1..], n)
  }

  lemma {:induction false} AtConcat(a: seq<Loc>, b: seq<Loc>, n: Name)
    ensures ExactAt(a + b, n) == if ExactAt(a, n).Some? then ExactAt(a, n) else ExactAt(b, n)
    ensures InclusiveAt(a + b, n) == if InclusiveAt(a, n).Some? then InclusiveAt(a, n) else InclusiveAt(b, n)
  {
    if a == [] {
      assert a + b == b;
    } else {
      assert (a + b)[1..] == a[1..] + b;
      AtConcat(a[1..], b, n);
    }
  }

  lemma {:induction false} AtAbsent(s: seq<Loc>, n: Name)
    ensures (forall l :: l in s ==> l.name != n) ==> ExactAt(s, n).None? && InclusiveAt(s, n).None?
    ensures (forall l :: l in s && l.inclusive.Some? ==> l.name != n) ==> InclusiveAt(s, n).None?
  {
    if s != [] {
      assert s[0] in s && forall l :: l in s[1..] ==> l in s;
      AtAbsent(s[1..], n);
    }
  }

  /** Two locations of the same kind under one name. */
  predicate Clash(a: Loc, b: Loc)
  {
    a.name == b.name && ((a.exact.Some? && b.exact.Some?) || (a.inclusive.Some? && b.inclusive.Some?))
  }

  predicate Duplicate(s: seq<Loc>)
  {
    exists i, j :: 0 <= i < j < |s| && Clash(s[i], s[j])
  }

  predicate Increasing(s: seq<Loc>)
  {
    forall i, j :: 0 <= i < j < |s| ==> Lt(s[i].name, s[j].name)
  }

  // ---------------------------------------------------------------- joining

  /** The queue ngx_http_join_exact_locations leaves, or the clash it reports. */
  function Joined(s: seq<Loc>): Result<seq<Loc>>
    decreases |s|
  {
    if |s| <= 1 then Ok(s)
    else if s[0].name == s[1].name then
      if Clash(s[0], s[1]) then DuplicateLocation(s[1].name)
      else Joined(Merged(s))
    else After([s[0]], Joined(s[1..]))
  }

  /** The queue after its second entry was folded into the first. */
  function Merged(s: seq<Loc>): seq<Loc>
    requires |s| >= 2
  {
    [s[0].(inclusive := s[1].inclusive)] + s[2..]
  }

  function After(head: seq<Loc>, r: Result<seq<Loc>>): Result<seq<Loc>>
  {
    if r.Ok? then Ok(head + r.value) else r
  }

  /** The loop of ngx_http_join_exact_locations: q stands on a queue entry, the
      next one is merged into it and unlinked, or q moves on. */
  method JoinExactLocations(queue: seq<Loc>) returns (r: Result<seq<Loc>>)
    requires queue != []
    ensures r == Joined(queue)
  {
    var locations := queue;
    var q := 0;
    assert queue[..0] == [] && queue[0..] == queue;
    AfterNothing(Joined(queue));
    while q != |locations| - 1
      invariant 0 <= q < |locations|
      invariant Joined(queue) == After(locations[..q], Joined(locations[q..]))
      decreases |locations| - q
    {
      var lq, lx := locations[q], locations[q + 1];
      ghost var head, rest := locations[..q], locations[q..];
      if |lq.name| == |lx.name| && FilenameCmp(lq.name, lx.name, |lx.name|) == 0 {
        SameName(lq.name, lx.name);
        if (lq.exact.Some? && lx.exact.Some?) || (lq.inclusive.Some? && lx.inclusive.Some?) {
          return DuplicateLocation(lx.name);
        }
        locations := locations[..q] + [lq.(inclusive := lx.inclusive)] + locations[q + 2..];
        assert locations[q..] == Merged(rest);
        assert locations[..q] == head;
        continue;
      }
      SameName(lq.name, lx.name);
      assert rest[1..] == locations[q + 1..];
      assert locations[..q + 1] == head + [lq];
      AfterAfter(head, [lq], Joined(rest[1..]));
      q := q + 1;
    }
    assert locations[q..] == [locations[q]];
    assert locations == locations[..q] + locations[q..];
    return Ok(locations);
  }

  lemma AfterNothing(r: Result<seq<Loc>>)
    ensures After([], r) == r
  {
    if r.Ok? { assert [] + r.value == r.value; }
  }

  lemma AfterAfter(a: seq<Loc>, b: seq<Loc>, r: Result<seq<Loc>>)
    ensures After(a, After(b, r)) == After(a + b, r)
  {
    if r.Ok? { assert a + (b + r.value) == a + b + r.value; }
  }

  lemma SameName(a: Name, b: Name)
    ensures |a| == |b| && FilenameCmp(a, b, |b|) == 0 <==> a == b
  {
    if |a| == |b| {
      CmpHeads(a, b, |b|);
      assert a[..|b|] == a && b[..|b|] == b;
    }
  }

  /** In a table no later entry sorts before the head. */
  lemma {:induction false} HeadFirst(s: seq<Loc>, j: nat)
    requires Table(s) && 0 < j < |s|
    ensures Lt(s[0].name, s[j].name) || (s[0].name == s[j].name && s[0].name == s[1].name)
    decreases j
  {
    assert Before(s[j - 1], s[j]);
    if j == 1 {
    } else {
      HeadFirst(s, j - 1);
      if Lt(s[0].name, s[j - 1].name) && s[j - 1].name != s[j].name {
        LtTrans(s[0].name, s[j - 1].name, s[j].name);
      }
    }
  }

  lemma MergeKeepsTable(s: seq<Loc>)
    requires Table(s) && |s| >= 2 && s[0].name == s[1].name && !Clash(s[0], s[1])
    ensures Table(Merged(s))
    ensures s[0].exact.Some? && s[0].inclusive.None? && s[1].exact.None? && s[1].inclusive.Some?
  {
    var m := Merged(s);
    assert Before(s[0], s[1]) && s[0] in s && s[1] in s;
    LtIrreflexiveName(s[0].name);
    forall i | 0 <= i < |m| - 1 ensures Before(m[i], m[i + 1]) {
      assert Before(s[i + 1], s[i + 2]);
    }
  }

  lemma LtIrreflexiveName(a: Name)
    ensures !Lt(a, a)
  {
    if Lt(a, a) { LtIrreflexive(a, a); }
  }

  lemma MergeKeepsDuplicates(s: seq<Loc>)
    requires |s| >= 2 && s[0].name == s[1].name
    requires s[0].exact.Some? && s[0].inclusive.None? && s[1].exact.None? && s[1].inclusive.Some?
    ensures Duplicate(Merged(s)) <==> Duplicate(s)
  {
    var m := Merged(s);
    if Duplicate(m) {
      var i, j :| 0 <= i < j < |m| && Clash(m[i], m[j]);
      if i == 0 {
        assert Clash(s[0], s[j + 1]) || Clash(s[1], s[j + 1]);
      } else {
        assert Clash(s[i + 1], s[j + 1]);
      }
    }
    if Duplicate(s) {
      var i, j :| 0 <= i < j < |s| && Clash(s[i], s[j]);
      assert j >= 2;
      assert Clash(m[if i <= 1 then 0 else i - 1], m[j - 1]);
    }
  }

  lemma MergeKeepsReadings(s: seq<Loc>, n: Name)
    requires |s| >= 2 && s[0].name == s[1].name
    requires s[0].exact.Some? && s[0].inclusive.None? && s[1].exact.None? && s[1].inclusive.Some?
    ensures ExactAt(Merged(s), n) == ExactAt(s, n)
    ensures InclusiveAt(Merged(s), n) == InclusiveAt(s, n)
  {
    assert s[1..][1..] == s[2..] == Merged(s)[1..];
  }

  lemma SkipStep(s: seq<Loc>)
    requires Table(s) && |s| >= 2 && s[0].name != s[1].name
    ensures Table(s[1..]) && (Duplicate(s[1..]) <==> Duplicate(s))
    ensures forall j :: 0 < j < |s| ==> Lt(s[0].name, s[j].name)
  {
    var t := s[1..];
    forall i | 0 <= i < |t| - 1 ensures Before(t[i], t[i + 1]) {
      assert Before(s[i + 1], s[i + 2]);
    }
    forall j | 0 < j < |s| ensures Lt(s[0].name, s[j].name) {
      HeadFirst(s, j);
    }
    if Duplicate(t) {
      var i, j :| 0 <= i < j < |t| && Clash(t[i], t[j]);
      assert Clash(s[i + 1], s[j + 1]);
    }
    if Duplicate(s) {
      var i, j :| 0 <= i < j < |s| && Clash(s[i], s[j]);
      if i == 0 {
        LtIrreflexive(s[0].name, s[j].name);
      }
      assert Clash(t[i - 1], t[j - 1]);
    }
  }

  /** t is s with every name once: the same readings, names in strict order. */
  ghost predicate Keeps(s: seq<Loc>, t: seq<Loc>)
  {
    && s != [] && t != [] && t[0].name == s[0].name
    && Increasing(t) && Table(t)
    && (forall i :: 0 <= i < |t| ==> NamedIn(t[i].name, s))
    && (forall n :: ExactAt(t, n) == ExactAt(s, n))
    && (forall n :: InclusiveAt(t, n) == InclusiveAt(s, n))
  }

  predicate NamedIn(n: Name, s: seq<Loc>)
  {
    exists k :: 0 <= k < |s| && s[k].name == n
  }

  lemma KeepsMerged(s: seq<Loc>, t: seq<Loc>)
    requires Table(s) && |s| >= 2 && s[0].name == s[1].name && !Clash(s[0], s[1])
    requires Keeps(Merged(s), t)
    ensures Keeps(s, t)
  {
    MergeKeepsTable(s);
    forall n ensures ExactAt(t, n) == ExactAt(s, n) && InclusiveAt(t, n) == InclusiveAt(s, n) {
      MergeKeepsReadings(s, n);
    }
    forall i | 0 <= i < |t| ensures NamedIn(t[i].name, s) {
      var k :| 0 <= k < |Merged(s)| && Merged(s)[k].name == t[i].name;
      assert s[if k == 0 then 0 else k + 1].name == t[i].name;
    }
  }

  lemma KeepsSkipped(s: seq<Loc>, u: seq<Loc>)
    requires Table(s) && |s| >= 2
    requires forall j :: 0 < j < |s| ==> Lt(s[0].name, s[j].name)
    requires Keeps(s[1..], u)
    ensures Keeps(s, [s[0]] + u)
  {
    var t := [s[0]] + u;
    forall j | 0 <= j < |u| ensures Lt(s[0].name, u[j].name) && NamedIn(u[j].name, s) {
      var k :| 0 <= k < |s[1..]| && s[1..][k].name == u[j].name;
      assert s[k + 1].name == u[j].name;
    }
    forall i, j | 0 <= i < j < |t| ensures Lt(t[i].name, t[j].name) {
      assert t[j] == u[j - 1] && (i > 0 ==> t[i] == u[i - 1]);
    }
    forall l | l in t ensures (l.exact.Some? || l.inclusive.Some?) && l.list == [] {
      assert l == s[0] || l in u;
    }
    forall i | 0 <= i < |t| ensures NamedIn(t[i].name, s) {
      assert i == 0 ==> s[0].name == t[i].name;
      assert i > 0 ==> t[i] == u[i - 1];
    }
    assert t[1..] == u;
    forall n ensures ExactAt(t, n) == ExactAt(s, n) && InclusiveAt(t, n) == InclusiveAt(s, n) {
      assert ExactAt(u, n) == ExactAt(s[1..], n) && InclusiveAt(u, n) == InclusiveAt(s[1..], n);
    }
    forall i | 0 <= i < |t| - 1 ensures Before(t[i], t[i + 1]) {}
  }

  /** Joining fails exactly on a duplicate; otherwise every name occurs once, in
      order, and both readings of the table are what they were. */
  lemma {:induction false} JoinKeepsTable(s: seq<Loc>)
    requires Table(s) && s != []
    ensures Joined(s).DuplicateLocation? <==> Duplicate(s)
    ensures Joined(s).Ok? ==> Keeps(s, Joined(s).value)
    decreases |s|
  {
    if |s| == 1 {
      assert NamedIn(s[0].name, s);
    } else if s[0].name != s[1].name {
      SkipStep(s);
      JoinKeepsTable(s[1..]);
      if Joined(s).Ok? { KeepsSkipped(s, Joined(s[1..]).value); }
    } else if Clash(s[0], s[1]) {
      assert Duplicate(s);
    } else {
      MergeKeepsTable(s);
      MergeKeepsDuplicates(s);
      JoinKeepsTable(Merged(s));
      if Joined(s).Ok? { KeepsMerged(s, Joined(s).value); }
    }
  }

  // ---------------------------------------------------------------- nesting

  /** How many entries at the start of s extend a name. */
  function Run(name: Name, s: seq<Loc>): (k: nat)
    ensures k <= |s|
    ensures forall i :: 0 <= i < k ==> name <= s[i].name
    ensures k < |s| ==> !(name <= s[k].name)
  {
    if s == [] || !(name <= s[0].name) then 0 else 1 + Run(name, s[1..])
  }

  /** The nested queue ngx_http_create_locations_list builds. */
  function ListOf(s: seq<Loc>): seq<Loc>
    decreases |s|
  {
    if |s| <= 1 then s
    else if s[0].inclusive.None? then [s[0]] + ListOf(s[1..])
    else
      var k := Run(s[0].name, s[1..]);
      [s[0].(list := s[0].list + ListOf(s[1..1 + k]))] + ListOf(s[1 + k..])
  }

  method CreateLocationsList(locations: seq<Loc>) returns (r: seq<Loc>)
    ensures r == ListOf(locations)
    decreases |locations|
  {
    hide Run;
    if |locations| <= 1 {
      return locations;
    }
    var lq := locations[0];
    if lq.inclusive.None? {
      var rest := CreateLocationsList(locations[1..]);
      return [lq] + rest;
    }
    var x := RunEnd(lq.name, locations);
    if x == 1 {
      var rest := CreateLocationsList(locations[1..]);
      assert locations[1..1] == [] && lq.list + ListOf([]) == lq.list;
      return [lq] + rest;
    }
    var nested := CreateLocationsList(locations[1..x]);
    lq := lq.(list := lq.list + nested);
    if x == |locations| {
      assert locations[x..] == [];
      return [lq];
    }
    var rest := CreateLocationsList(locations[x..]);
    assert ListOf(locations) == [lq] + rest;
    return [lq] + rest;
  }

  /** The inner loop of ngx_http_create_locations_list. */
  method RunEnd(name: Name, locations: seq<Loc>) returns (x: nat)
    requires locations != []
    ensures x == 1 + Run(name, locations[1..])
  {
    x := 1;
    while x < |locations|
      invariant 1 <= x <= |locations|
      invariant Run(name, locations[1..]) == x - 1 + Run(name, locations[x..])
    {
      var lx := locations[x];
      StartsWith(name, lx.name);
      if |name| > |lx.name| || FilenameCmp(name, lx.name, |name|) != 0 {
        break;
      }
      assert locations[x..][1..] == locations[x + 1..];
      x := x + 1;
    }
  }

  lemma StartsWith(p: Name, s: Name)
    ensures |p| <= |s| && FilenameCmp(p, s, |p|) == 0 <==> p <= s
  {
    if |p| <= |s| {
      CmpHeads(p, s, |p|);
      assert p[..|p|] == p;
    }
  }

  /** The entries of a nested queue in order, owners before what they own. */
  function Flat(s: seq<Loc>): seq<Loc>
  {
    if s == [] then [] else [s[0].(list := [])] + Flat(s[0].list) + Flat(s[1..])
  }

  /** Every list is owned by an inclusive location, holds only names that extend
      the owner's, and nothing after the owner extends it. */
  ghost predicate Nested(s: seq<Loc>)
  {
    s == [] ||
    (&& (s[0].exact.Some? || s[0].inclusive.Some?)
     && (s[0].list != [] ==> s[0].inclusive.Some?)
     && (forall e :: e in Flat(s[0].list) ==> s[0].name <= e.name && s[0].name != e.name)
     && (s[0].inclusive.Some? ==> forall e :: e in Flat(s[1..]) ==> !(s[0].name <= e.name))
     && Nested(s[0].list)
     && Nested(s[1..]))
  }

  /** Nesting loses and reorders nothing, and its lists are exactly the runs. */
  lemma {:induction false} ListKeepsTable(s: seq<Loc>)
    requires Increasing(s) && Table(s)
    ensures Flat(ListOf(s)) == s
    ensures Nested(ListOf(s))
    decreases |s|
  {
    hide Lt, Increasing, Nested, Flat, ListOf;
    ListOfSmall(s);
    if s != [] {
      assert s[0] in s && s[0].(list := []) == s[0] && s == [s[0]] + s[1..];
      TableTail(s, 1, |s|);
      if |s| == 1 {
      } else if s[0].inclusive.None? {
        ListKeepsTable(s[1..]);
        ListOfExact(s);
      } else {
        var k := Run(s[0].name, s[1..]);
        TableTail(s, 1, 1 + k);
        TableTail(s, 1 + k, |s|);
        ListKeepsTable(s[1..1 + k]);
        ListKeepsTable(s[1 + k..]);
        NestRun(s, k);
      }
    }
  }

  lemma ListOfSmall(s: seq<Loc>)
    requires Table(s)
    ensures |s| <= 1 ==> Flat(ListOf(s)) == s && Nested(ListOf(s))
  {
    if |s| == 1 {
      assert s[0] in s && s[1..] == [] && ListOf(s) == s;
    }
  }

  lemma ListOfExact(s: seq<Loc>)
    requires |s| > 1 && s[0].inclusive.None? && Table(s)
    requires Flat(ListOf(s[1..])) == s[1..] && Nested(ListOf(s[1..]))
    ensures Flat(ListOf(s)) == s && Nested(ListOf(s))
  {
    hide Flat, Nested;
    assert s[0] in s;
    NestLeaf(s[0], ListOf(s[1..]));
    assert s == [s[0]] + s[1..];
  }

  lemma NestLeaf(o: Loc, rest: seq<Loc>)
    requires o.list == [] && o.exact.Some? && o.inclusive.None? && Nested(rest)
    ensures Nested([o] + rest) && Flat([o] + rest) == [o] + Flat(rest)
  {
    var r := [o] + rest;
    assert r[1..] == rest && r[0].(list := []) == o;
    assert Flat(r[0].list) == [] && Nested(r[0].list);
  }

  lemma NestRun(s: seq<Loc>, k: nat)
    requires Increasing(s) && |s| > 1 && k == Run(s[0].name, s[1..])
    requires s[0].inclusive.Some? && s[0].list == []
    requires Flat(ListOf(s[1..1 + k])) == s[1..1 + k] && Nested(ListOf(s[1..1 + k]))
    requires Flat(ListOf(s[1 + k..])) == s[1 + k..] && Nested(ListOf(s[1 + k..]))
    ensures Flat(ListOf(s)) == s && Nested(ListOf(s))
  {
    var inner, rest := ListOf(s[1..1 + k]), ListOf(s[1 + k..]);
    RunsAreMaximal(s, k);
    NestOwner(s[0], inner, rest);
    ThreeParts(s, k);
    assert ListOf(s) == [s[0].(list := s[0].list + inner)] + rest;
  }

  lemma ThreeParts<T>(s: seq<T>, k: nat)
    requires 1 + k <= |s|
    ensures s == [s[0]] + s[1..1 + k] + s[1 + k..]
  {
  }

  lemma NestOwner(o: Loc, inner: seq<Loc>, rest: seq<Loc>)
    requires o.inclusive.Some? && o.list == [] && Nested(inner) && Nested(rest)
    requires forall e :: e in Flat(inner) ==> o.name <= e.name && o.name != e.name
    requires forall e :: e in Flat(rest) ==> !(o.name <= e.name)
    ensures Nested([o.(list := o.list + inner)] + rest)
    ensures Flat([o.(list := o.list + inner)] + rest) == [o] + Flat(inner) + Flat(rest)
  {
    var r := [o.(list := o.list + inner)] + rest;
    assert o.list + inner == inner && r[1..] == rest && r[0].list == inner;
    assert r[0].(list := []) == o;
  }

  lemma RunsAreMaximal(s: seq<Loc>, k: nat)
    requires Increasing(s) && s != [] && k == Run(s[0].name, s[1..])
    ensures forall e :: e in s[1..1 + k] ==> s[0].name <= e.name && s[0].name != e.name
    ensures forall e :: e in s[1 + k..] ==> !(s[0].name <= e.name)
  {
    forall e | e in s[1..1 + k] ensures s[0].name <= e.name && s[0].name != e.name {
      var i :| 0 <= i < k && s[1..1 + k][i] == e;
      assert e == s[1..][i] == s[1 + i];
      LtIrreflexive(s[0].name, e.name);
    }
    forall e | e in s[1 + k..] ensures !(s[0].name <= e.name) {
      var i :| 0 <= i < |s[1 + k..]| && s[1 + k..][i] == e;
      assert e == s[1 + k + i] && s[1 + k] == s[1..][k];
      if s[0].name <= e.name {
        PrefixConvex(s[0].name, s[1 + k].name, e.name);
      }
    }
  }

  lemma TableTail(s: seq<Loc>, lo: nat, hi: nat)
    requires Increasing(s) && Table(s) && lo <= hi <= |s|
    ensures Increasing(s[lo..hi]) && Table(s[lo..hi])
    ensures hi == |s| ==> s[lo..hi] == s[lo..]
  {
    var t := s[lo..hi];
    forall i, j | 0 <= i < j < |t| ensures Lt(t[i].name, t[j].name) {
      assert t[i] == s[lo + i] && t[j] == s[lo + j];
    }
    forall i | 0 <= i < |t| - 1 ensures Before(t[i], t[i + 1]) {
      assert Before(s[lo + i], s[lo + i + 1]);
    }
  }

  // ---------------------------------------------------------------- the tree

  predicate ValidTree(t: Tree)
  {
    t.Node? ==>
      && (t.exact.Some? || t.inclusive.Some?)
      && t.len <= |t.name|
      && ValidTree(t.left) && ValidTree(t.right) && ValidTree(t.tree)
  }

  /** Every name is at least prefix bytes long, at this level and below. */
  predicate Reaches(s: seq<Loc>, prefix: nat)
  {
    forall e :: e in Flat(s) ==> prefix <= |e.name|
  }

  function Auto(exact: Option<Conf>, inclusive: Option<Conf>): bool
  {
    (exact.Some? && exact.value.autoRedirect) || (inclusive.Some? && inclusive.value.autoRedirect)
  }

  /** The node of one location: what of its name follows the prefix, with the
      length cut to an u_char. */
  function NodeOf(lq: Loc, prefix: nat, left: Tree, right: Tree, tree: Tree): Tree
  {
    var segment := if prefix <= |lq.name| then lq.name[prefix..] else [];
    Node(left, right, tree, lq.exact, lq.inclusive, Auto(lq.exact, lq.inclusive), |segment| % 256, segment)
  }

  /** The tree of one level and of all levels nested in it; ngx_queue_middle is
      the entry at |s| / 2. */
  function TreeOf(s: seq<Loc>, prefix: nat): Tree
  {
    if s == [] then Nil
    else
      var m := |s| / 2;
      NodeOf(s[m], prefix, TreeOf(s[..m], prefix), TreeOf(s[m + 1..], prefix), TreeOf(s[m].list, |s[m].name|))
  }

  method CreateLocationsTree(locations: seq<Loc>, prefix: nat) returns (node: Tree)
    requires locations != [] && Reaches(locations, prefix) && Nested(locations)
    ensures node == TreeOf(locations, prefix) && node.Node?
    decreases locations
  {
    hide Nested, Reaches, Flat, TreeOf;
    EmptyTree(prefix);
    EmptyTree(|locations[|locations| / 2].name|);
    var q := |locations| / 2;
    var lq := locations[q];
    MiddleReaches(locations, prefix, q);
    var len := |lq.name| - prefix;
    var left, right, tree := Nil, Nil, Nil;
    assert q == 0 ==> locations[..q] == [];
    assert q + 1 == |locations| ==> locations[q + 1..] == [];
    if q > 0 {
      left := CreateLocationsTree(locations[..q], prefix);
      if q + 1 < |locations| {
        right := CreateLocationsTree(locations[q + 1..], prefix);
      }
    }
    if lq.list != [] {
      tree := CreateLocationsTree(lq.list, prefix + len);
    }
    assert left == TreeOf(locations[..q], prefix);
    assert right == TreeOf(locations[q + 1..], prefix);
    assert tree == TreeOf(lq.list, |lq.name|);
    node := Node(left, right, tree, lq.exact, lq.inclusive,
                 (lq.exact.Some? && lq.exact.value.autoRedirect)
                 || (lq.inclusive.Some? && lq.inclusive.value.autoRedirect),
                 len % 256, lq.name[prefix..]);
    TreeOfMiddle(locations, prefix);
  }

  lemma EmptyTree(prefix: nat)
    ensures TreeOf([], prefix) == Nil
  {
  }

  /** TreeOf one level deep. */
  lemma TreeOfMiddle(s: seq<Loc>, prefix: nat)
    requires s != []
    ensures TreeOf(s, prefix) == NodeOf(s[|s| / 2], prefix, TreeOf(s[..|s| / 2], prefix),
                                        TreeOf(s[|s| / 2 + 1..], prefix), TreeOf(s[|s| / 2].list, |s[|s| / 2].name|))
  {
    hide NodeOf;
  }

  lemma MiddleReaches(s: seq<Loc>, prefix: nat, m: nat)
    requires m < |s| && Nested(s) && Reaches(s, prefix)
    ensures Nested(s[..m]) && Nested(s[m + 1..]) && Nested(s[m].list)
    ensures prefix <= |s[m].name|
    ensures Reaches(s[..m], prefix) && Reaches(s[m + 1..], prefix) && Reaches(s[m].list, |s[m].name|)
  {
    MiddleShape(s, m);
    assert s[m].(list := []) in Flat(s);
  }

  lemma {:induction false} FlatConcat(a: seq<Loc>, b: seq<Loc>)
    ensures Flat(a + b) == Flat(a) + Flat(b)
  {
    if a == [] {
      assert a + b == b;
    } else {
      assert (a + b)[1..] == a[1..] + b;
      FlatConcat(a[1..], b);
      assert Flat(a + b) == Flat(a) + Flat(b);
    }
  }

  /** Splitting a nested level: both halves stay nested, and no inclusive location
      of the first half owns anything in the second. */
  lemma {:induction false} NestedConcat(a: seq<Loc>, b: seq<Loc>)
    requires Nested(a + b)
    ensures Nested(a) && Nested(b)
    ensures forall p, e :: p in Flat(a) && p.inclusive.Some? && e in Flat(b) ==> !(p.name <= e.name)
  {
    if a == [] {
      assert a + b == b;
    } else {
      assert (a + b)[1..] == a[1..] + b;
      FlatConcat(a[1..], b);
      NestedConcat(a[1..], b);
      forall p, e | p in Flat(a) && p.inclusive.Some? && e in Flat(b) ensures !(p.name <= e.name) {
        assert e in Flat(a[1..] + b);
        if p in Flat(a[0].list) && p.name <= e.name { PrefixTrans(a[0].name, p.name, e.name); }
      }
    }
  }

  lemma NestedHead(s: seq<Loc>)
    requires s != [] && Nested(s)
    ensures Flat(s) == [s[0].(list := [])] + Flat(s[0].list) + Flat(s[1..])
    ensures s[0].exact.Some? || s[0].inclusive.Some?
    ensures s[0].list != [] ==> s[0].inclusive.Some?
    ensures forall e :: e in Flat(s[0].list) ==> s[0].name <= e.name && s[0].name != e.name
    ensures s[0].inclusive.Some? ==> forall e :: e in Flat(s[1..]) ==> !(s[0].name <= e.name)
    ensures Nested(s[0].list) && Nested(s[1..])
  {
  }

  /** The shape of a level around its middle entry. */
  lemma MiddleShape(s: seq<Loc>, m: nat)
    requires m < |s| && Nested(s)
    ensures Flat(s) == Flat(s[..m]) + ([s[m].(list := [])] + Flat(s[m].list) + Flat(s[m + 1..]))
    ensures Nested(s[..m]) && Nested(s[m + 1..]) && Nested(s[m].list)
    ensures s[m].exact.Some? || s[m].inclusive.Some?
    ensures s[m].list != [] ==> s[m].inclusive.Some?
    ensures forall e :: e in Flat(s[m].list) ==> s[m].name <= e.name && s[m].name != e.name
    ensures s[m].inclusive.Some? ==> forall e :: e in Flat(s[m + 1..]) ==> !(s[m].name <= e.name)
  {
    hide Flat, Nested;
    var t := s[m..];
    assert s == s[..m] + t;
    FlatConcat(s[..m], t);
    NestedConcat(s[..m], t);
    assert t[1..] == s[m + 1..] && t[0] == s[m];
    NestedHead(t);
  }

  /** No inclusive location before the middle entry owns it. */
  lemma MiddleOwners(s: seq<Loc>, m: nat)
    requires m < |s| && Nested(s)
    ensures forall p :: p in Flat(s[..m]) && p.inclusive.Some? ==> !(p.name <= s[m].name)
  {
    var t := s[m..];
    assert s == s[..m] + t && t[0] == s[m];
    NestedConcat(s[..m], t);
    assert s[m].(list := []) in Flat(t);
  }

  // ---------------------------------------------------------------- tree facts

  /** The in-order walk that puts the path in front of every segment. */
  function Walk(t: Tree, path: Name): seq<Loc>
  {
    if t.Nil? then []
    else Walk(t.left, path) + ([Loc(path + t.name, t.exact, t.inclusive, [])]
                               + Walk(t.tree, path + t.name) + Walk(t.right, path))
  }

  lemma {:induction false} WalkGivesTable(s: seq<Loc>, path: Name)
    requires Nested(s)
    requires forall e :: e in Flat(s) ==> path <= e.name
    ensures Walk(TreeOf(s, |path|), path) == Flat(s) && ValidTree(TreeOf(s, |path|))
    decreases s
  {
    if s != [] {
      var m := |s| / 2;
      var lq := s[m];
      MiddleUnder(s, m, path);
      WalkGivesTable(s[..m], path);
      WalkGivesTable(s[m + 1..], path);
      WalkGivesTable(lq.list, lq.name);
      TreeOfMiddle(s, |path|);
      WalkOfNode(TreeOf(s, |path|), path, lq);
    }
  }

  lemma WalkOfNode(t: Tree, path: Name, lq: Loc)
    requires t.Node? && path <= lq.name && t.name == lq.name[|path|..] && t.len == |t.name| % 256
    requires t.exact == lq.exact && t.inclusive == lq.inclusive && (t.exact.Some? || t.inclusive.Some?)
    requires ValidTree(t.left) && ValidTree(t.right) && ValidTree(t.tree)
    ensures Walk(t, path) == Walk(t.left, path) + ([lq.(list := [])] + Walk(t.tree, lq.name) + Walk(t.right, path))
    ensures ValidTree(t)
  {
    assert path + t.name == lq.name;
    assert lq.(list := []) == Loc(path + t.name, t.exact, t.inclusive, []);
  }

  lemma MiddleUnder(s: seq<Loc>, m: nat, path: Name)
    requires m < |s| && Nested(s)
    requires forall e :: e in Flat(s) ==> path <= e.name
    ensures Flat(s) == Flat(s[..m]) + ([s[m].(list := [])] + Flat(s[m].list) + Flat(s[m + 1..]))
    ensures Nested(s[..m]) && Nested(s[m + 1..]) && Nested(s[m].list)
    ensures path <= s[m].name && (s[m].exact.Some? || s[m].inclusive.Some?)
    ensures forall e :: e in Flat(s[..m]) ==> path <= e.name
    ensures forall e :: e in Flat(s[m + 1..]) ==> path <= e.name
    ensures forall e :: e in Flat(s[m].list) ==> s[m].name <= e.name
  {
    MiddleShape(s, m);
    assert s[m].(list := []) in Flat(s);
  }

  /** The height of one level, not counting the levels nested in it. */
  function Height(t: Tree): nat
  {
    if t.Nil? then 0 else 1 + (if Height(t.left) >= Height(t.right) then Height(t.left) else Height(t.right))
  }

  function Pow2(n: nat): nat { if n == 0 then 1 else 2 * Pow2(n - 1) }

  lemma Pow2Next(n: nat)
    ensures Pow2(n + 1) == 2 * Pow2(n) && (n == 0 ==> Pow2(n) == 1)
  {
  }

  lemma LevelHeight(s: seq<Loc>, prefix: nat, l: Tree, r: Tree)
    requires s != [] && l == TreeOf(s[..|s| / 2], prefix) && r == TreeOf(s[|s| / 2 + 1..], prefix)
    ensures Height(TreeOf(s, prefix)) == 1 + Height(l) || Height(TreeOf(s, prefix)) == 1 + Height(r)
    ensures |s| / 2 == 0 ==> Height(l) == 0
    ensures |s| / 2 + 1 == |s| ==> Height(r) == 0
  {
    TreeOfMiddle(s, prefix);
    EmptyTree(prefix);
    assert |s| / 2 == 0 ==> s[..|s| / 2] == [];
    assert |s| / 2 + 1 == |s| ==> s[|s| / 2 + 1..] == [];
    hide TreeOf;
  }

  /** A level of n entries is searched in at most 1 + log2 n comparisons. */
  lemma {:induction false} LevelsAreBalanced(s: seq<Loc>, prefix: nat)
    requires s != []
    ensures Pow2(Height(TreeOf(s, prefix))) <= 2 * |s|
    decreases |s|
  {
    hide TreeOf, Height, Pow2;
    var m := |s| / 2;
    var l, r := TreeOf(s[..m], prefix), TreeOf(s[m + 1..], prefix);
    LevelHeight(s, prefix, l, r);
    Pow2Next(Height(l));
    Pow2Next(Height(r));
    if m > 0 { LevelsAreBalanced(s[..m], prefix); }
    if m + 1 < |s| { LevelsAreBalanced(s[m + 1..], prefix); }
  }

  // ---------------------------------------------------------------- the search

  /** The descent of ngx_http_core_find_static_location. */
  function Lookup(t: Tree, uri: Name, rv: Match): Match
    requires ValidTree(t)
    decreases t
  {
    if t.Nil? then rv
    else
      var n := Min(|uri|, t.len);
      var rc := FilenameCmp(uri, t.name, n);
      if rc != 0 then Lookup(if rc < 0 then t.left else t.right, uri, rv)
      else if |uri| > t.len then
        if t.inclusive.Some? then Lookup(t.tree, uri[n..], Inclusive(t.inclusive.value))
        else Lookup(t.right, uri, rv)
      else if |uri| == t.len then
        if t.exact.Some? then Exact(t.exact.value) else Inclusive(t.inclusive.value)
      else if |uri| + 1 == t.len && t.autoRedirect then
        Lookup(t.left, uri, Redirect(if t.exact.Some? then t.exact.value else t.inclusive.value))
      else Lookup(t.left, uri, rv)
  }

  method FindStaticLocation(root: Tree, requestUri: Name) returns (r: Match)
    requires ValidTree(root)
    ensures r == Lookup(root, requestUri, Declined)
  {
    var node, uri, rv := root, requestUri, Declined;
    while true
      invariant ValidTree(node)
      invariant Lookup(root, requestUri, Declined) == Lookup(node, uri, rv)
      decreases node
    {
      if node.Nil? {
        return rv;
      }
      var n := if |uri| <= node.len then |uri| else node.len;
      var rc := FilenameCmp(uri, node.name, n);
      if rc != 0 {
        node := if rc < 0 then node.left else node.right;
        continue;
      }
      if |uri| > node.len {
        if node.inclusive.Some? {
          rv := Inclusive(node.inclusive.value);
          node, uri := node.tree, uri[n..];
          continue;
        }
        node := node.right;
        continue;
      }
      if |uri| == node.len {
        if node.exact.Some? {
          return Exact(node.exact.value);
        } else {
          return Inclusive(node.inclusive.value);
        }
      }
      if |uri| + 1 == node.len && node.autoRedirect {
        rv := Redirect(if node.exact.Some? then node.exact.value else node.inclusive.value);
      }
      node := node.left;
    }
  }

  // ---------------------------------------------------------------- the reference answer

  /** The longest inclusive name among the first k bytes of the URI and shorter. */
  function Longest(s: seq<Loc>, uri: Name, k: nat, none: Match): Match
    requires k <= |uri|
  {
    if InclusiveAt(s, uri[..k]).Some? then Inclusive(InclusiveAt(s, uri[..k]).value)
    else if k == 0 then none
    else Longest(s, uri, k - 1, none)
  }

  /** What the configuration means for a URI: the location of that very name (the
      exact one first), else a redirect to the name with '/' added, else the
      longest inclusive location whose name starts the URI. */
  function Answer(s: seq<Loc>, uri: Name, none: Match): Match
  {
    var dir := uri + [SLASH];
    if ExactAt(s, uri).Some? then Exact(ExactAt(s, uri).value)
    else if InclusiveAt(s, uri).Some? then Inclusive(InclusiveAt(s, uri).value)
    else if Auto(ExactAt(s, dir), InclusiveAt(s, dir)) then
      Redirect(if ExactAt(s, dir).Some? then ExactAt(s, dir).value else InclusiveAt(s, dir).value)
    else Longest(s, uri, |uri|, none)
  }

  /** auto_redirect is only ever set on names that end in '/'. */
  predicate RedirectsAreDirectories(s: seq<Loc>)
  {
    forall l :: l in s && Auto(l.exact, l.inclusive) ==> l.name != [] && l.name[|l.name| - 1] == SLASH
  }

  /** Entries that cannot influence the answer for a URI. */
  predicate Irrelevant(a: seq<Loc>, uri: Name)
  {
    forall e :: e in a ==>
      e.name != uri && e.name != uri + [SLASH] && (e.inclusive.Some? ==> !(e.name <= uri))
  }

  predicate Agree(s: seq<Loc>, t: seq<Loc>, uri: Name)
  {
    && ExactAt(s, uri) == ExactAt(t, uri)
    && ExactAt(s, uri + [SLASH]) == ExactAt(t, uri + [SLASH])
    && InclusiveAt(s, uri + [SLASH]) == InclusiveAt(t, uri + [SLASH])
    && (forall k :: 0 <= k <= |uri| ==> InclusiveAt(s, uri[..k]) == InclusiveAt(t, uri[..k]))
  }

  lemma {:induction false} LongestAgrees(s: seq<Loc>, t: seq<Loc>, uri: Name, k: nat, none: Match)
    requires k <= |uri|
    requires forall i :: 0 <= i <= k ==> InclusiveAt(s, uri[..i]) == InclusiveAt(t, uri[..i])
    ensures Longest(s, uri, k, none) == Longest(t, uri, k, none)
  {
    if k > 0 { LongestAgrees(s, t, uri, k - 1, none); }
  }

  lemma AnswerAgrees(s: seq<Loc>, t: seq<Loc>, uri: Name, none: Match)
    requires Agree(s, t, uri)
    ensures Answer(s, uri, none) == Answer(t, uri, none)
  {
    assert uri[..|uri|] == uri;
    LongestAgrees(s, t, uri, |uri|, none);
  }

  lemma IrrelevantAbsent(a: seq<Loc>, uri: Name)
    requires Irrelevant(a, uri)
    ensures Agree(a, [], uri)
  {
    AtAbsent(a, uri);
    AtAbsent(a, uri + [SLASH]);
    forall k | 0 <= k <= |uri| ensures InclusiveAt(a, uri[..k]) == None {
      AtAbsent(a, uri[..k]);
    }
  }

  /** Irrelevant entries on either side can be dropped. */
  lemma DropIrrelevant(a: seq<Loc>, t: seq<Loc>, b: seq<Loc>, uri: Name, none: Match)
    requires Irrelevant(a, uri) && Irrelevant(b, uri)
    ensures Answer(a + (t + b), uri, none) == Answer(t, uri, none)
  {
    IrrelevantAbsent(a, uri);
    IrrelevantAbsent(b, uri);
    forall n ensures ExactAt(a, n).None? && ExactAt(b, n).None? ==> ExactAt(a + (t + b), n) == ExactAt(t, n)
            ensures InclusiveAt(a, n).None? && InclusiveAt(b, n).None? ==>
                      InclusiveAt(a + (t + b), n) == InclusiveAt(t, n) {
      AtConcat(a, t + b, n);
      AtConcat(t, b, n);
    }
    assert Agree(a + (t + b), t, uri);
    AnswerAgrees(a + (t + b), t, uri, none);
  }

  /** Nothing at or below length k: the default. */
  lemma {:induction false} LongestDefault(s: seq<Loc>, uri: Name, k: nat, none: Match)
    requires k <= |uri|
    requires forall i :: 0 <= i <= k ==> InclusiveAt(s, uri[..i]).None?
    ensures Longest(s, uri, k, none) == none
  {
    if k > 0 { LongestDefault(s, uri, k - 1, none); }
  }

  lemma {:induction false} LongestThroughOwner(s: seq<Loc>, t: seq<Loc>, uri: Name, len: nat, c: Conf, k: nat,
                                               none: Match)
    requires len <= k <= |uri|
    requires InclusiveAt(s, uri[..len]) == Some(c)
    requires forall i :: len < i <= k ==> InclusiveAt(s, uri[..i]) == InclusiveAt(t, uri[..i])
    requires forall i :: 0 <= i <= len ==> InclusiveAt(t, uri[..i]).None?
    ensures Longest(s, uri, k, none) == Longest(t, uri, k, Inclusive(c))
  {
    if k == len {
      LongestDefault(t, uri, k, Inclusive(c));
    } else {
      LongestThroughOwner(s, t, uri, len, c, k - 1, none);
    }
  }

  /** An inclusive owner of the URI can be replaced by the default of its own list. */
  lemma DescendIntoOwner(o: Loc, t: seq<Loc>, uri: Name, none: Match)
    requires o.inclusive.Some? && o.name <= uri && o.name != uri
    requires forall e :: e in t ==> o.name <= e.name && o.name != e.name
    ensures Answer([o] + t, uri, none) == Answer(t, uri, Inclusive(o.inclusive.value))
  {
    var len := |o.name|;
    assert uri[..len] == o.name && |uri + [SLASH]| > len;
    assert ([o] + t)[1..] == t;
    assert forall n :: n != o.name ==> InclusiveAt([o] + t, n) == InclusiveAt(t, n);
    assert forall n :: n != o.name ==> ExactAt([o] + t, n) == ExactAt(t, n);
    forall i | 0 <= i <= len ensures InclusiveAt(t, uri[..i]).None? {
      AtAbsent(t, uri[..i]);
    }
    forall i | len < i <= |uri| ensures InclusiveAt([o] + t, uri[..i]) == InclusiveAt(t, uri[..i]) {
      assert |uri[..i]| != len;
    }
    LongestThroughOwner([o] + t, t, uri, len, o.inclusive.value, |uri|, none);
  }

  // ---------------------------------------------------------------- which side matters

  lemma Around(a: seq<Loc>, x: Loc, b: seq<Loc>)
    requires Increasing(a + ([x] + b))
    ensures Increasing(a) && Increasing(b)
    ensures forall e :: e in a ==> Lt(e.name, x.name)
    ensures forall e :: e in b ==> Lt(x.name, e.name)
  {
    var s := a + ([x] + b);
    assert s[|a|] == x;
    forall i, j | 0 <= i < j < |a| ensures Lt(a[i].name, a[j].name) { assert a[i] == s[i] && a[j] == s[j]; }
    forall i, j | 0 <= i < j < |b| ensures Lt(b[i].name, b[j].name) {
      assert b[i] == s[|a| + 1 + i] && b[j] == s[|a| + 1 + j];
    }
    forall e | e in a ensures Lt(e.name, x.name) { var i :| 0 <= i < |a| && a[i] == e; assert s[i] == e; }
    forall e | e in b ensures Lt(x.name, e.name) {
      var i :| 0 <= i < |b| && b[i] == e;
      assert s[|a| + 1 + i] == e;
    }
  }

  /** Everything above the URI that is not the URI's own directory. */
  lemma AboveIsIrrelevant(b: seq<Loc>, uri: Name)
    requires forall e :: e in b ==> Lt(uri, e.name) && e.name != uri + [SLASH]
    ensures Irrelevant(b, uri)
  {
    forall e | e in b ensures e.name != uri && !(e.name <= uri) {
      LtIrreflexive(uri, e.name);
      if e.name <= uri && e.name != uri { ProperPrefixLt(e.name, uri); }
    }
  }

  /** Everything below a name that is below (or at) the URI, unless it owns the URI. */
  lemma BelowIsIrrelevant(a: seq<Loc>, x: Name, uri: Name)
    requires x == uri || Lt(x, uri)
    requires forall e :: e in a ==> Lt(e.name, x)
    requires forall e :: e in a && e.inclusive.Some? ==> !(e.name <= x)
    ensures Irrelevant(a, uri)
  {
    ProperPrefixLt(uri, uri + [SLASH]);
    forall e | e in a
      ensures e.name != uri && e.name != uri + [SLASH] && (e.inclusive.Some? ==> !(e.name <= uri))
    {
      if x != uri { LtTrans(e.name, x, uri); }
      LtIrreflexive(e.name, uri);
      LtTrans(e.name, uri, uri + [SLASH]);
      LtIrreflexive(e.name, uri + [SLASH]);
      if e.name <= uri { PrefixConvex(e.name, x, uri); }
    }
  }

  /** If x starts neither the URI nor its directory form, nothing extending x matters. */
  lemma ExtensionsIrrelevant(b: seq<Loc>, x: Name, uri: Name)
    requires !(x <= uri) && x != uri + [SLASH]
    requires forall e :: e in b ==> x <= e.name
    ensures Irrelevant(b, uri)
  {
    forall e | e in b
      ensures e.name != uri && e.name != uri + [SLASH] && !(e.name <= uri)
    {
      if e.name == uri + [SLASH] { PrefixOfDirectory(x, uri); }
      if e.name <= uri { PrefixTrans(x, e.name, uri); }
    }
  }

  lemma PrefixTrans(a: Name, b: Name, c: Name)
    requires a <= b <= c
    ensures a <= c
  {
  }

  lemma PrefixOfDirectory(x: Name, uri: Name)
    requires x <= uri + [SLASH] && x != uri + [SLASH]
    ensures x <= uri
  {
    assert |x| <= |uri|;
    assert x == (uri + [SLASH])[..|x|] == uri[..|x|];
  }

  lemma AboveExceptDirectory(b: seq<Loc>, x: Name, uri: Name)
    requires Lt(uri, x)
    requires forall e :: e in b ==> Lt(x, e.name)
    ensures Irrelevant(b, uri)
  {
    forall e | e in b ensures Lt(uri, e.name) && e.name != uri + [SLASH] {
      LtTrans(uri, x, e.name);
      NothingBeforeSlash(uri, x);
      if x != uri + [SLASH] { LtTrans(uri + [SLASH], x, e.name); }
      LtIrreflexive(x, e.name);
      if e.name == uri + [SLASH] && x != uri + [SLASH] { LtIrreflexive(uri + [SLASH], e.name); }
    }
    AboveIsIrrelevant(b, uri);
  }

  /** Segments short enough for the u_char length field. */
  predicate ShortSegments(s: seq<Loc>, prefix: nat)
  {
    s == [] ||
    (&& |s[0].name| - prefix <= 255
     && ShortSegments(s[0].list, |s[0].name|)
     && ShortSegments(s[1..], prefix))
  }

  lemma {:induction false} ShortSplit(s: seq<Loc>, prefix: nat, m: nat)
    requires ShortSegments(s, prefix) && m < |s|
    ensures ShortSegments(s[..m], prefix) && ShortSegments(s[m + 1..], prefix)
    ensures |s[m].name| - prefix <= 255 && ShortSegments(s[m].list, |s[m].name|)
  {
    if m > 0 {
      ShortSplit(s[1..], prefix, m - 1);
      assert s[..m][1..] == s[1..][..m - 1] && s[1..][m..] == s[m + 1..] && s[..m][0] == s[0];
    }
  }

  // ---------------------------------------------------------------- one step of the search

  /** A level around its middle entry o: a before it, b in its list, c after it. */
  ghost predicate Level(a: seq<Loc>, o: Loc, b: seq<Loc>, c: seq<Loc>)
  {
    && Increasing(a + ([o] + b + c))
    && (o.exact.Some? || o.inclusive.Some?)
    && (b != [] ==> o.inclusive.Some?)
    && (forall p :: p in a && p.inclusive.Some? ==> !(p.name <= o.name))
    && (forall e :: e in b ==> o.name <= e.name && o.name != e.name)
    && (o.inclusive.Some? ==> forall e :: e in c ==> !(o.name <= e.name))
  }

  lemma LevelOrder(a: seq<Loc>, o: Loc, b: seq<Loc>, c: seq<Loc>)
    requires Level(a, o, b, c)
    ensures forall e :: e in a ==> Lt(e.name, o.name)
    ensures forall e :: e in b ==> Lt(o.name, e.name)
    ensures forall e :: e in c ==> Lt(o.name, e.name)
    ensures Increasing(a) && Increasing(b) && Increasing(c)
  {
    hide Lt;
    assert [o] + b + c == [o] + (b + c);
    Around(a, o, b + c);
    forall e | e in b ensures Lt(o.name, e.name) { assert e in b + c; }
    forall e | e in c ensures Lt(o.name, e.name) { assert e in b + c; }
    forall i, j | 0 <= i < j < |b| ensures Lt(b[i].name, b[j].name) { assert b[i] == (b + c)[i] && b[j] == (b + c)[j]; }
    forall i, j | 0 <= i < j < |c| ensures Lt(c[i].name, c[j].name) {
      assert c[i] == (b + c)[|b| + i] && c[j] == (b + c)[|b| + j];
    }
  }

  lemma StepLeft(a: seq<Loc>, o: Loc, b: seq<Loc>, c: seq<Loc>, uri: Name, none: Match)
    requires Level(a, o, b, c) && Lt(uri, o.name) && o.name != uri + [SLASH]
    ensures Answer(a + ([o] + b + c), uri, none) == Answer(a, uri, none)
  {
    hide Lt, Increasing, Answer;
    LevelOrder(a, o, b, c);
    AboveExceptDirectory(b, o.name, uri);
    AboveExceptDirectory(c, o.name, uri);
    AboveIsIrrelevant([o], uri);
    assert [] + (a + ([o] + b + c)) == a + ([o] + b + c);
    DropIrrelevant([], a, [o] + b + c, uri, none);
  }

  lemma StepRight(a: seq<Loc>, o: Loc, b: seq<Loc>, c: seq<Loc>, uri: Name, none: Match)
    requires Level(a, o, b, c) && Lt(o.name, uri)
    requires o.inclusive.Some? ==> !(o.name <= uri)
    ensures Answer(a + ([o] + b + c), uri, none) == Answer(c, uri, none)
  {
    hide Lt, Increasing, Answer;
    LevelOrder(a, o, b, c);
    ProperPrefixLt(uri, uri + [SLASH]);
    LtTrans(o.name, uri, uri + [SLASH]);
    LtIrreflexive(o.name, uri + [SLASH]);
    LtIrreflexive(o.name, uri);
    BelowIsIrrelevant(a, o.name, uri);
    if b != [] { ExtensionsIrrelevant(b, o.name, uri); }
    assert a + ([o] + b + c) == (a + [o] + b) + (c + []);
    DropIrrelevant(a + [o] + b, c, [], uri, none);
  }

  lemma StepInto(a: seq<Loc>, o: Loc, b: seq<Loc>, c: seq<Loc>, uri: Name, none: Match)
    requires Level(a, o, b, c) && o.inclusive.Some? && o.name <= uri && o.name != uri
    ensures Answer(a + ([o] + b + c), uri, none) == Answer(b, uri, Inclusive(o.inclusive.value))
  {
    hide Lt, Increasing, Answer;
    LevelOrder(a, o, b, c);
    ProperPrefixLt(o.name, uri);
    BelowIsIrrelevant(a, o.name, uri);
    forall e | e in c ensures e.name != uri && e.name != uri + [SLASH] && !(e.name <= uri) {
      if e.name <= uri && e.name != uri {
        ProperPrefixLt(e.name, uri);
        PrefixConvex(o.name, e.name, uri);
      }
    }
    assert a + ([o] + b + c) == a + (([o] + b) + c);
    DropIrrelevant(a, [o] + b, c, uri, none);
    DescendIntoOwner(o, b, uri, none);
  }

  lemma StepHere(a: seq<Loc>, o: Loc, b: seq<Loc>, c: seq<Loc>, uri: Name, none: Match)
    requires Level(a, o, b, c) && o.name == uri
    ensures Answer(a + ([o] + b + c), uri, none)
            == if o.exact.Some? then Exact(o.exact.value) else Inclusive(o.inclusive.value)
  {
    hide Lt, Increasing, Longest;
    LevelOrder(a, o, b, c);
    forall e | e in a + (b + c) ensures e.name != uri { LtIrreflexiveName(uri); }
    AtAbsent(a, uri);
    AtAbsent(b + c, uri);
    assert [o] + b + c == [o] + (b + c) && ([o] + (b + c))[1..] == b + c;
    AtConcat(a, [o] + (b + c), uri);
  }

  /** The entry is the URI's directory form: a redirect unless something before
      it has the very name, and no inclusive location before it can own the URI. */
  lemma StepDirectory(a: seq<Loc>, o: Loc, b: seq<Loc>, c: seq<Loc>, uri: Name, none: Match)
    requires Level(a, o, b, c) && o.name == uri + [SLASH]
    ensures Answer(a + ([o] + b + c), uri, none)
            == Answer(a, uri, if Auto(o.exact, o.inclusive) then Redirect(AnyConf(o)) else none)
  {
    hide Lt, Increasing, Longest;
    var all := a + ([o] + b + c);
    var dir := uri + [SLASH];
    LevelOrder(a, o, b, c);
    ProperPrefixLt(uri, dir);
    AboveExceptDirectory(b, dir, uri);
    AboveExceptDirectory(c, dir, uri);
    forall e | e in a + (b + c) ensures e.name != dir { LtIrreflexiveName(dir); }
    AtAbsent(a, dir);
    AtAbsent(b + c, dir);
    assert [o] + b + c == [o] + (b + c) && ([o] + (b + c))[1..] == b + c;
    AtConcat(a, [o] + (b + c), dir);
    assert Irrelevant(b + c, uri);
    IrrelevantAbsent(b + c, uri);
    forall n | |n| <= |uri|
      ensures ExactAt(b + c, n).None? ==> ExactAt(all, n) == ExactAt(a, n)
      ensures InclusiveAt(b + c, n).None? ==> InclusiveAt(all, n) == InclusiveAt(a, n)
    {
      AtConcat(a, [o] + (b + c), n);
    }
    assert uri[..|uri|] == uri;
    LongestAgrees(all, a, uri, |uri|, none);
    forall k | 0 <= k < |uri| ensures InclusiveAt(a, uri[..k]).None? {
      NoOwnerOfDirectory(a, uri, k);
    }
    if InclusiveAt(a, uri).None? {
      LongestDefault(a, uri, |uri|, none);
      LongestDefault(a, uri, |uri|, Redirect(AnyConf(o)));
    }
  }

  lemma NoOwnerOfDirectory(a: seq<Loc>, uri: Name, k: nat)
    requires k <= |uri|
    requires forall p :: p in a && p.inclusive.Some? ==> !(p.name <= uri + [SLASH])
    ensures InclusiveAt(a, uri[..k]).None?
  {
    assert uri[..k] <= uri + [SLASH];
    AtAbsent(a, uri[..k]);
  }

  /** Lookup one node deep, in terms of whole names instead of segments. */
  lemma LookupNode(t: Tree, o: Loc, path: Name, u: Name, rv: Match)
    requires t.Node? && ValidTree(t)
    requires path <= o.name && t.name == o.name[|path|..] && t.len == |t.name|
    requires t.exact == o.exact && t.inclusive == o.inclusive && t.autoRedirect == Auto(o.exact, o.inclusive)
    ensures var uri := path + u;
            if o.name == uri then
              Lookup(t, u, rv) == if o.exact.Some? then Exact(o.exact.value) else Inclusive(o.inclusive.value)
            else if o.name <= uri then
              Lt(o.name, uri)
              && Lookup(t, u, rv) == if o.inclusive.Some?
                                     then Lookup(t.tree, u[|t.name|..], Inclusive(o.inclusive.value))
                                     else Lookup(t.right, u, rv)
            else if uri <= o.name then
              Lt(uri, o.name)
              && Lookup(t, u, rv) == Lookup(t.left, u, if |o.name| == |uri| + 1 && Auto(o.exact, o.inclusive)
                                                       then Redirect(AnyConf(o)) else rv)
            else
              (Lt(uri, o.name) && Lookup(t, u, rv) == Lookup(t.left, u, rv))
              || (Lt(o.name, uri) && Lookup(t, u, rv) == Lookup(t.right, u, rv))
  {
    hide Lt;
    var uri := path + u;
    var n := Min(|u|, |t.name|);
    CmpHeads(u, t.name, n);
    assert path + t.name == o.name;
    LtUnderPrefix(path, u, t.name);
    LtUnderPrefix(path, t.name, u);
    assert u[..n] == t.name[..n] <==> u <= t.name || t.name <= u;
    SamePath(path, u, t.name);
    SamePath(path, t.name, u);
    if u <= t.name && u != t.name { ProperPrefixLt(u, t.name); }
    if t.name <= u && u != t.name { ProperPrefixLt(t.name, u); }
  }

  lemma SamePath(path: Name, a: Name, b: Name)
    ensures path + a <= path + b <==> a <= b
    ensures path + a == path + b <==> a == b
  {
    if path + a <= path + b {
      assert a == (path + a)[|path|..] == (path + b)[|path|..][..|a|] == b[..|a|];
    }
  }

  lemma FlatEmpty()
    ensures Flat([]) == []
  {
  }

  lemma RedirectsSplit(a: seq<Loc>, o: Loc, b: seq<Loc>, c: seq<Loc>)
    requires RedirectsAreDirectories(a + ([o] + b + c))
    ensures RedirectsAreDirectories(a) && RedirectsAreDirectories([o])
    ensures RedirectsAreDirectories(b) && RedirectsAreDirectories(c)
  {
    assert forall l :: l in a || l == o || l in b || l in c ==> l in a + ([o] + b + c);
  }

  lemma MiddleIsLevel(s: seq<Loc>, m: nat)
    requires m < |s| && Nested(s) && Increasing(Flat(s))
    ensures Flat(s) == Flat(s[..m]) + ([s[m].(list := [])] + Flat(s[m].list) + Flat(s[m + 1..]))
    ensures Level(Flat(s[..m]), s[m].(list := []), Flat(s[m].list), Flat(s[m + 1..]))
  {
    hide Lt, Nested, Increasing, Flat;
    MiddleShape(s, m);
    MiddleOwners(s, m);
    FlatEmpty();
  }

  lemma MiddleLevel(s: seq<Loc>, m: nat)
    requires m < |s| && Nested(s) && Increasing(Flat(s)) && RedirectsAreDirectories(Flat(s))
    ensures Flat(s) == Flat(s[..m]) + ([s[m].(list := [])] + Flat(s[m].list) + Flat(s[m + 1..]))
    ensures Level(Flat(s[..m]), s[m].(list := []), Flat(s[m].list), Flat(s[m + 1..]))
    ensures Increasing(Flat(s[..m])) && Increasing(Flat(s[m].list)) && Increasing(Flat(s[m + 1..]))
    ensures RedirectsAreDirectories(Flat(s[..m])) && RedirectsAreDirectories(Flat(s[m].list))
    ensures RedirectsAreDirectories(Flat(s[m + 1..])) && RedirectsAreDirectories([s[m].(list := [])])
  {
    hide Lt, Nested, Increasing, Flat, RedirectsAreDirectories, Level;
    MiddleIsLevel(s, m);
    LevelOrder(Flat(s[..m]), s[m].(list := []), Flat(s[m].list), Flat(s[m + 1..]));
    RedirectsSplit(Flat(s[..m]), s[m].(list := []), Flat(s[m].list), Flat(s[m + 1..]));
  }

  /** The search of one level, and of everything nested in it, gives the
      reference answer over the entries of that level. */
  lemma {:induction false} LookupAnswersLevel(s: seq<Loc>, path: Name, u: Name, rv: Match)
    requires Nested(s) && Increasing(Flat(s)) && RedirectsAreDirectories(Flat(s))
    requires forall e :: e in Flat(s) ==> path <= e.name
    requires ShortSegments(s, |path|)
    ensures ValidTree(TreeOf(s, |path|))
    ensures Lookup(TreeOf(s, |path|), u, rv) == Answer(Flat(s), path + u, rv)
    decreases s
  {
    hide Nested, Increasing, Flat, TreeOf, Lookup, Answer, ShortSegments, RedirectsAreDirectories, ValidTree, Level, Lt;
    WalkGivesTable(s, path);
    if s == [] {
      EmptyLevel(path, u, rv);
    } else {
      var m := |s| / 2;
      var lq := s[m];
      var o := lq.(list := []);
      var a, b, c := Flat(s[..m]), Flat(lq.list), Flat(s[m + 1..]);
      var uri := path + u;
      MiddleUnder(s, m, path);
      MiddleLevel(s, m);
      ShortSplit(s, |path|, m);
      TreeOfMiddle(s, |path|);
      var t := TreeOf(s, |path|);
      LookupNode(t, o, path, u, rv);
      if lq.name == uri {
        StepHere(a, o, b, c, uri, rv);
      } else if lq.name <= uri {
        if lq.inclusive.Some? {
          StepInto(a, o, b, c, uri, rv);
          var rest := u[|t.name|..];
          assert lq.name + rest == uri;
          LookupAnswersLevel(lq.list, lq.name, rest, Inclusive(lq.inclusive.value));
        } else {
          StepRight(a, o, b, c, uri, rv);
          LookupAnswersLevel(s[m + 1..], path, u, rv);
        }
      } else if Lt(uri, lq.name) {
        LtIrreflexive(uri, lq.name);
        if lq.name == uri + [SLASH] {
          StepDirectory(a, o, b, c, uri, rv);
        } else {
          StepLeft(a, o, b, c, uri, rv);
          OnlyDirectoriesRedirect(o, uri);
        }
        LookupAnswersLevel(s[..m], path, u, rv);
        LookupAnswersLevel(s[..m], path, u, Redirect(AnyConf(o)));
      } else {
        StepRight(a, o, b, c, uri, rv);
        LookupAnswersLevel(s[m + 1..], path, u, rv);
      }
    }
  }

  lemma EmptyLevel(path: Name, u: Name, rv: Match)
    ensures ValidTree(TreeOf([], |path|)) && Lookup(TreeOf([], |path|), u, rv) == Answer(Flat([]), path + u, rv)
  {
    LongestDefault([], path + u, |path + u|, rv);
  }

  lemma OnlyDirectoriesRedirect(o: Loc, uri: Name)
    requires RedirectsAreDirectories([o]) && o.name != uri + [SLASH]
    ensures uri <= o.name && |o.name| == |uri| + 1 ==> !Auto(o.exact, o.inclusive)
  {
    if uri <= o.name && |o.name| == |uri| + 1 {
      assert o in [o];
      assert o.name == o.name[..|uri|] + [o.name[|uri|]];
    }
  }

  // ---------------------------------------------------------------- the whole compiler

  /** The nested queue and the tree of a queue without duplicates. */
  function NestedQueue(queue: seq<Loc>): seq<Loc>
  {
    match Joined(queue)
    case Ok(t) => ListOf(t)
    case DuplicateLocation(_) => []
  }

  function CompiledTree(queue: seq<Loc>): Tree { TreeOf(NestedQueue(queue), 0) }

  /** ngx_http_init_static_location_trees for one queue. */
  method InitStaticLocations(queue: seq<Loc>) returns (r: Result<Tree>)
    requires SortedQueue(queue) && queue != []
    ensures r.DuplicateLocation? <==> Duplicate(queue)
    ensures r.Ok? ==> r.value == CompiledTree(queue)
  {
    SortedIsTable(queue);
    JoinKeepsTable(queue);
    var joined := JoinExactLocations(queue);
    if joined.DuplicateLocation? {
      return DuplicateLocation(joined.name);
    }
    var nested := CreateLocationsList(joined.value);
    ListKeepsTable(joined.value);
    assert nested != [];
    var tree := CreateLocationsTree(nested, 0);
    return Ok(tree);
  }

  /** The compiled tree answers every URI as the table it was compiled from. */
  lemma LookupAnswersTable(queue: seq<Loc>, uri: Name)
    requires SortedQueue(queue) && queue != [] && !Duplicate(queue)
    requires RedirectsAreDirectories(queue)
    requires ShortSegments(NestedQueue(queue), 0)
    ensures ValidTree(CompiledTree(queue))
    ensures Lookup(CompiledTree(queue), uri, Declined) == Answer(queue, uri, Declined)
  {
    hide Nested, Flat, TreeOf, Lookup, Answer, ShortSegments, ValidTree, Joined, ListOf;
    SortedIsTable(queue);
    JoinKeepsTable(queue);
    var t := Joined(queue).value;
    ListKeepsTable(t);
    RedirectsSurviveJoin(queue, t);
    assert [] + uri == uri;
    LookupAnswersLevel(ListOf(t), [], uri, Declined);
    AnswerAgrees(t, queue, uri, Declined);
  }

  lemma RedirectsSurviveJoin(s: seq<Loc>, t: seq<Loc>)
    requires Keeps(s, t) && RedirectsAreDirectories(s)
    ensures RedirectsAreDirectories(t)
  {
    forall l | l in t && Auto(l.exact, l.inclusive) ensures l.name != [] && l.name[|l.name| - 1] == SLASH {
      var i :| 0 <= i < |t| && t[i] == l;
      AtOwn(t, i);
      assert ExactAt(t, l.name) == ExactAt(s, l.name) && InclusiveAt(t, l.name) == InclusiveAt(s, l.name);
      AtSource(s, l.name);
    }
  }

  /** In a strictly ordered table an entry is found under its own name. */
  lemma {:induction false} AtOwn(t: seq<Loc>, i: nat)
    requires Increasing(t) && i < |t|
    ensures t[i].exact.Some? ==> ExactAt(t, t[i].name) == t[i].exact
    ensures t[i].inclusive.Some? ==> InclusiveAt(t, t[i].name) == t[i].inclusive
  {
    if i > 0 {
      LtIrreflexive(t[0].name, t[i].name);
      TailIncreasing(t);
      AtOwn(t[1..], i - 1);
    }
  }

  lemma TailIncreasing(t: seq<Loc>)
    requires Increasing(t) && t != []
    ensures Increasing(t[1..])
  {
    forall i, j | 0 <= i < j < |t[1..]| ensures Lt(t[1..][i].name, t[1..][j].name) {
      assert t[1..][i] == t[i + 1] && t[1..][j] == t[j + 1];
    }
  }

  lemma {:induction false} AtSource(s: seq<Loc>, n: Name)
    ensures ExactAt(s, n).Some? ==> exists l :: l in s && l.name == n && l.exact == ExactAt(s, n)
    ensures InclusiveAt(s, n).Some? ==> exists l :: l in s && l.name == n && l.inclusive == InclusiveAt(s, n)
  {
    if s != [] {
      assert s[0] in s;
      AtSource(s[1..], n);
    }
  }

  // ---------------------------------------------------------------- the u_char length

  predicate OwnedBy(e: Loc, c: Conf) { e.exact == Some(c) || e.inclusive == Some(c) }

  /** Every location has a configuration of its own. */
  ghost predicate DistinctConfs(s: seq<Loc>)
  {
    forall i, j, c :: 0 <= i < j < |s| && OwnedBy(s[i], c) ==> !OwnedBy(s[j], c)
  }

  /** An entry of a joined queue has its configuration from an entry of that name. */
  lemma OwnedInQueue(s: seq<Loc>, t: seq<Loc>, e: Loc, c: Conf) returns (k: nat)
    requires SortedQueue(s) && Keeps(s, t) && e in t && OwnedBy(e, c)
    ensures k < |s| && s[k].name == e.name && OwnedBy(s[k], c)
  {
    var i :| 0 <= i < |t| && t[i] == e;
    AtOwn(t, i);
    assert ExactAt(t, e.name) == ExactAt(s, e.name) && InclusiveAt(t, e.name) == InclusiveAt(s, e.name);
    AtSource(s, e.name);
    var l :| l in s && l.name == e.name && (l.exact == Some(c) || l.inclusive == Some(c));
    k :| 0 <= k < |s| && s[k] == l;
  }

  lemma OneOwner(s: seq<Loc>, t: seq<Loc>, d: Loc, e: Loc, c: Conf)
    requires SortedQueue(s) && DistinctConfs(s) && Keeps(s, t)
    requires d in t && e in t && OwnedBy(d, c) && OwnedBy(e, c)
    ensures d.name == e.name
  {
    hide Keeps, SortedQueue;
    var i := OwnedInQueue(s, t, d, c);
    var j := OwnedInQueue(s, t, e, c);
  }

  /** Whatever the lengths, a search ends with what it began with or in the tree. */
  lemma {:induction false} LookupFrom(t: Tree, path: Name, u: Name, rv: Match)
    requires ValidTree(t)
    ensures var r := Lookup(t, u, rv);
            r == rv || (!r.Declined? && exists e :: e in Walk(t, path) && OwnedBy(e, r.conf))
    decreases t
  {
    hide Walk, FilenameCmp;
    if t.Node? {
      WalkParts(t, path);
      var n := Min(|u|, t.len);
      LookupFrom(t.left, path, u, rv);
      LookupFrom(t.left, path, u, Redirect(if t.exact.Some? then t.exact.value else t.inclusive.value));
      LookupFrom(t.right, path, u, rv);
      if t.inclusive.Some? { LookupFrom(t.tree, path + t.name, u[n..], Inclusive(t.inclusive.value)); }
    }
  }

  lemma WalkParts(t: Tree, path: Name)
    requires t.Node?
    ensures Loc(path + t.name, t.exact, t.inclusive, []) in Walk(t, path)
    ensures forall e :: e in Walk(t.left, path) || e in Walk(t.right, path) ==> e in Walk(t, path)
    ensures forall e :: e in Walk(t.tree, path + t.name) ==> e in Walk(t, path)
  {
  }

  /** An answer comes from the name itself, its directory or one of its prefixes. */
  lemma AnswerFrom(s: seq<Loc>, uri: Name, none: Match)
    ensures var r := Answer(s, uri, none);
            r == none
            || (!r.Declined? && exists e :: e in s && OwnedBy(e, r.conf) && (e.name <= uri || e.name == uri + [SLASH]))
  {
    AtSource(s, uri);
    AtSource(s, uri + [SLASH]);
    LongestFrom(s, uri, |uri|, none);
  }

  lemma {:induction false} LongestFrom(s: seq<Loc>, uri: Name, k: nat, none: Match)
    requires k <= |uri|
    ensures var r := Longest(s, uri, k, none);
            r == none || (!r.Declined? && exists e :: e in s && OwnedBy(e, r.conf) && e.name <= uri)
  {
    AtSource(s, uri[..k]);
    if InclusiveAt(s, uri[..k]).None? && k > 0 { LongestFrom(s, uri, k - 1, none); }
  }

  /** The URI differs from the name of o at most in the last byte. */
  predicate Shadows(path: Name, o: Loc, uri: Name)
  {
    && path <= o.name && path <= uri && |uri| == |o.name| >= |path| + 256
    && uri[..|uri| - 1] == o.name[..|uri| - 1]
  }

  /** An exact location that the search passes by, or an inclusive one that it takes
      for a URI that does not start with its name. */
  ghost predicate Misled(s: seq<Loc>, o: Loc, uri: Name, rv: Match, r: Match)
  {
    if o.inclusive.None? then
      && o.exact.Some? && uri == o.name
      && (r == rv || (!r.Declined? && exists e :: e in s && e.name != o.name && OwnedBy(e, r.conf)))
    else
      uri != o.name && !r.Declined? && exists e :: e in s && o.name <= e.name && OwnedBy(e, r.conf)
  }

  lemma MisledWithin(s: seq<Loc>, all: seq<Loc>, o: Loc, uri: Name, rv: Match, r: Match)
    requires Misled(s, o, uri, rv, r) && forall e :: e in s ==> e in all
    ensures Misled(all, o, uri, rv, r)
  {
  }

  /** A name shorter than two that differ at the end only compares alike to both. */
  lemma {:induction false} LtHeads(x: Name, a: Name, b: Name, k: nat)
    requires |x| <= k <= |a| && k <= |b| && a[..k] == b[..k]
    ensures x <= a <==> x <= b
    ensures !(x <= a) ==> (Lt(x, a) <==> Lt(x, b)) && (Lt(a, x) <==> Lt(b, x))
  {
    assert a[..|x|] == a[..k][..|x|] == b[..|x|];
    if x != [] {
      assert a[0] == a[..k][0] == b[0];
      assert a[1..][..k - 1] == a[..k][1..] == b[1..][..k - 1];
      LtHeads(x[1..], a[1..], b[1..], k - 1);
      if x[0] == a[0] && x[1..] <= a[1..] { assert x == [x[0]] + x[1..] && a == [a[0]] + a[1..]; }
    }
  }

  /** A short node sends such a URI where o is. */
  lemma PassNode(t: Tree, x: Loc, path: Name, o: Loc, uri: Name, rv: Match)
    requires t.Node? && ValidTree(t) && Shadows(path, o, uri) && |x.name| <= |path| + 255
    requires path <= x.name && t.name == x.name[|path|..] && t.len == |t.name|
    requires t.exact == x.exact && t.inclusive == x.inclusive && t.autoRedirect == Auto(x.exact, x.inclusive)
    ensures var u := uri[|path|..];
            && (Lt(o.name, x.name) ==> Lookup(t, u, rv) == Lookup(t.left, u, rv))
            && (Lt(x.name, o.name) && (x.inclusive.Some? ==> !(x.name <= o.name))
                ==> Lookup(t, u, rv) == Lookup(t.right, u, rv))
            && (x.inclusive.Some? && x.name <= o.name
                ==> |x.name| <= |uri| && x.name <= uri
                    && Lookup(t, u, rv) == Lookup(t.tree, uri[|x.name|..], Inclusive(x.inclusive.value)))
  {
    hide Lt, Lookup, ValidTree;
    var u := uri[|path|..];
    assert path + u == uri && u[|t.name|..] == uri[|x.name|..];
    LookupNode(t, x, path, u, rv);
    LtHeads(x.name, uri, o.name, |uri| - 1);
    if Lt(o.name, x.name) {
      LtIrreflexive(o.name, x.name);
      if x.name <= o.name { ProperPrefixLt(x.name, o.name); }
    }
    if Lt(x.name, o.name) { LtIrreflexive(x.name, o.name); }
  }

  /** The node with the long segment itself. */
  lemma LongNode(t: Tree, o: Loc, path: Name, b: seq<Loc>, c: seq<Loc>, rv: Match) returns (uri: Name)
    requires t.Node? && ValidTree(t) && path <= o.name && |o.name| > |path| + 255
    requires t.name == o.name[|path|..] && t.len == |t.name| % 256 && t.exact == o.exact && t.inclusive == o.inclusive
    requires Walk(t.tree, o.name) == b && Walk(t.right, path) == c && o.list == []
    requires forall e :: e in b ==> o.name <= e.name
    requires forall e :: e in c ==> Lt(o.name, e.name)
    ensures Shadows(path, o, uri) && Misled([o] + b + c, o, uri, rv, Lookup(t, uri[|path|..], rv))
  {
    hide Lt, Walk, Lookup, Shadows, ValidTree;
    uri := LongUri(o, path);
    var u := uri[|path|..];
    LongHead(o, path, uri, t.len);
    LongStep(t, u, rv);
    assert o in [o] + b + c && o.name <= o.name;
    if o.inclusive.None? {
      LookupFrom(t.right, path, u, rv);
      LtIrreflexiveName(o.name);
    } else {
      LookupFrom(t.tree, o.name, u[t.len..], Inclusive(o.inclusive.value));
    }
  }

  /** The name of o itself, or one that differs in the last byte. */
  lemma LongUri(o: Loc, path: Name) returns (uri: Name)
    requires path <= o.name && |o.name| > |path| + 255
    ensures Shadows(path, o, uri) && (uri == o.name <==> o.inclusive.None?)
  {
    var k := |o.name| - 1;
    var last: Names.Byte := if o.inclusive.None? then o.name[k] else if o.name[k] == 1 then 2 else 1;
    uri := o.name[..k] + [last];
    assert uri[..k] == o.name[..k] && uri[k] == last;
    assert uri[..|path|] == o.name[..|path|] == path;
  }

  lemma LongHead(o: Loc, path: Name, uri: Name, n: nat)
    requires Shadows(path, o, uri) && n < 256
    ensures n < |uri[|path|..]| && uri[|path|..][..n] == o.name[|path|..][..n]
  {
    var k := |uri| - 1;
    assert uri[|path|..][..n] == uri[..k][|path|..|path| + n] == o.name[..k][|path|..|path| + n];
  }

  /** The search goes past a node whose head is that of a longer rest of the URI. */
  lemma LongStep(t: Tree, u: Name, rv: Match)
    requires t.Node? && ValidTree(t) && t.len < |u| && u[..t.len] == t.name[..t.len]
    ensures ValidTree(t.tree) && ValidTree(t.right) && (t.exact.Some? || t.inclusive.Some?)
    ensures Lookup(t, u, rv) == if t.inclusive.Some? then Lookup(t.tree, u[t.len..], Inclusive(t.inclusive.value))
                                else Lookup(t.right, u, rv)
  {
    CmpHeads(u, t.name, t.len);
  }

  lemma {:induction false} ShortJoin(s: seq<Loc>, prefix: nat, m: nat)
    requires m < |s| && ShortSegments(s[..m], prefix) && ShortSegments(s[m + 1..], prefix)
    requires |s[m].name| - prefix <= 255 && ShortSegments(s[m].list, |s[m].name|)
    ensures ShortSegments(s, prefix)
  {
    if m == 0 {
      assert s[m + 1..] == s[1..];
    } else {
      assert s[..m][1..] == s[1..][..m - 1] && s[1..][m..] == s[m + 1..] && s[..m][0] == s[0];
      ShortJoin(s[1..], prefix, m - 1);
    }
  }

  lemma ShortEmpty(prefix: nat)
    ensures ShortSegments([], prefix)
  {
  }

  /** The middle of a level, and the trees and entries on both sides. */
  lemma MiddleParts(s: seq<Loc>, path: Name)
    requires s != [] && Nested(s) && Increasing(Flat(s)) && forall e :: e in Flat(s) ==> path <= e.name
    ensures var m := |s| / 2;
            var o, t := s[m].(list := []), TreeOf(s, |path|);
            && Flat(s) == Flat(s[..m]) + ([o] + Flat(s[m].list) + Flat(s[m + 1..]))
            && Level(Flat(s[..m]), o, Flat(s[m].list), Flat(s[m + 1..]))
            && ValidTree(t) && t == NodeOf(s[m], |path|, TreeOf(s[..m], |path|), TreeOf(s[m + 1..], |path|),
                                           TreeOf(s[m].list, |s[m].name|))
            && Walk(t.tree, o.name) == Flat(s[m].list) && Walk(t.right, path) == Flat(s[m + 1..])
  {
    hide *;
    var m := |s| / 2;
    MiddleUnder(s, m, path);
    MiddleIsLevel(s, m);
    WalkGivesTable(s, path);
    WalkGivesTable(s[m].list, s[m].name);
    WalkGivesTable(s[m + 1..], path);
    TreeOfMiddle(s, |path|);
    NodeTrees(s[m], |path|, TreeOf(s[..m], |path|), TreeOf(s[m + 1..], |path|), TreeOf(s[m].list, |s[m].name|));
  }

  lemma NodeTrees(lq: Loc, prefix: nat, left: Tree, right: Tree, tree: Tree)
    ensures var t := NodeOf(lq, prefix, left, right, tree);
            t.Node? && t.left == left && t.right == right && t.tree == tree
  {
  }

  lemma LevelApart(a: seq<Loc>, o: Loc, b: seq<Loc>, c: seq<Loc>)
    requires Level(a, o, b, c)
    ensures forall e :: e in b ==> o.name <= e.name && o.name != e.name
    ensures o.inclusive.Some? ==> forall e :: e in c ==> !(o.name <= e.name)
  {
  }

  /** From the list of x to the level of x, whose own answer the search has taken along. */
  lemma MisledBelow(b: seq<Loc>, all: seq<Loc>, x: Loc, o: Loc, uri: Name, rv: Match, r: Match)
    requires x.inclusive.Some? && x in all && x.name != o.name && forall e :: e in b ==> e in all
    requires Misled(b, o, uri, Inclusive(x.inclusive.value), r)
    ensures Misled(all, o, uri, rv, r)
  {
    assert OwnedBy(x, x.inclusive.value);
  }

  /** A level with a long segment somewhere misleads the search. */
  lemma {:induction false} LongWitness(s: seq<Loc>, path: Name, rv: Match) returns (o: Loc, uri: Name)
    requires Nested(s) && Increasing(Flat(s)) && forall e :: e in Flat(s) ==> path <= e.name
    requires !ShortSegments(s, |path|)
    ensures ValidTree(TreeOf(s, |path|)) && o in Flat(s) && Shadows(path, o, uri)
    ensures Misled(Flat(s), o, uri, rv, Lookup(TreeOf(s, |path|), uri[|path|..], rv))
    decreases s
  {
    hide Nested, Increasing, Flat, TreeOf, Lookup, ShortSegments, ValidTree, Level, Lt, Misled, Walk;
    ShortEmpty(|path|);
    ShortEmpty(|s[|s| / 2].name|);
    var m := |s| / 2;
    var x, t := s[m].(list := []), TreeOf(s, |path|);
    var a, b, c := Flat(s[..m]), Flat(s[m].list), Flat(s[m + 1..]);
    MiddleUnder(s, m, path);
    MiddleParts(s, path);
    LevelOrder(a, x, b, c);
    LevelApart(a, x, b, c);
    MiddleShape(s, m);
    if |x.name| - |path| > 255 {
      o := x;
      uri := LongNode(t, x, path, b, c, rv);
      MisledWithin([x] + b + c, Flat(s), o, uri, rv, Lookup(t, uri[|path|..], rv));
    } else if !ShortSegments(s[..m], |path|) {
      o, uri := LongWitness(s[..m], path, rv);
      PassNode(t, x, path, o, uri, rv);
      MisledWithin(a, Flat(s), o, uri, rv, Lookup(t, uri[|path|..], rv));
    } else if !ShortSegments(s[m].list, |x.name|) {
      var owner := Inclusive(x.inclusive.value);
      o, uri := LongWitness(s[m].list, x.name, owner);
      PassNode(t, x, path, o, uri, rv);
      MisledBelow(b, Flat(s), x, o, uri, rv, Lookup(t, uri[|path|..], rv));
    } else {
      if ShortSegments(s[m + 1..], |path|) { ShortJoin(s, |path|, m); }
      o, uri := LongWitness(s[m + 1..], path, rv);
      PassNode(t, x, path, o, uri, rv);
      MisledWithin(c, Flat(s), o, uri, rv, Lookup(t, uri[|path|..], rv));
    }
  }
  lemma CompiledLevel(queue: seq<Loc>)
    requires SortedQueue(queue) && queue != [] && !Duplicate(queue)
    ensures var nested := NestedQueue(queue);
            && Nested(nested) && Increasing(Flat(nested)) && Keeps(queue, Flat(nested))
            && CompiledTree(queue) == TreeOf(nested, 0) && ValidTree(CompiledTree(queue))
  {
    hide Nested, Flat, TreeOf, ValidTree, Joined, ListOf;
    SortedIsTable(queue);
    JoinKeepsTable(queue);
    ListKeepsTable(Joined(queue).value);
    WalkGivesTable(NestedQueue(queue), []);
  }

  lemma AnswerJoined(queue: seq<Loc>, t: seq<Loc>, uri: Name)
    requires Keeps(queue, t)
    ensures Answer(t, uri, Declined) == Answer(queue, uri, Declined)
  {
    hide Answer;
    AnswerAgrees(t, queue, uri, Declined);
  }

  lemma NotUnder(o: Name, d: Name, uri: Name)
    requires |o| == |uri| && o <= d && (d <= uri || d == uri + [SLASH])
    ensures o == uri
  {
    assert o == d[..|o|] == uri[..|o|] == uri;
  }

  /** Being misled shows, as no two locations have the same configuration. */
  lemma MisledAnswer(queue: seq<Loc>, o: Loc, uri: Name)
    requires SortedQueue(queue) && queue != [] && !Duplicate(queue) && DistinctConfs(queue)
    requires ValidTree(CompiledTree(queue)) && o in Flat(NestedQueue(queue)) && Shadows([], o, uri)
    requires Misled(Flat(NestedQueue(queue)), o, uri, Declined, Lookup(CompiledTree(queue), uri, Declined))
    ensures Lookup(CompiledTree(queue), uri, Declined) != Answer(queue, uri, Declined)
  {
    var t := Flat(NestedQueue(queue));
    CompiledLevel(queue);
    hide SortedQueue, Duplicate, DistinctConfs, Keeps, NestedQueue, CompiledTree, Flat, Lookup, ValidTree, Longest;
    AnswerJoined(queue, t, uri);
    var r, q := Lookup(CompiledTree(queue), uri, Declined), Answer(queue, uri, Declined);
    if r == q {
      if o.inclusive.None? {
        var i :| 0 <= i < |t| && t[i] == o;
        AtOwn(t, i);
        assert q == Exact(o.exact.value);
        var e :| e in t && e.name != o.name && OwnedBy(e, r.conf);
        OneOwner(queue, t, e, o, r.conf);
      } else {
        hide Answer;
        AnswerFrom(t, uri, Declined);
        var d :| d in t && OwnedBy(d, r.conf) && (d.name <= uri || d.name == uri + [SLASH]);
        var e :| e in t && o.name <= e.name && OwnedBy(e, r.conf);
        OneOwner(queue, t, d, e, r.conf);
        NotUnder(o.name, d.name, uri);
      }
    }
  }

  /** The compiled tree answers every URI as the queue does exactly when every segment
      fits the u_char length of its node. */
  lemma LookupAnswersIff(queue: seq<Loc>)
    requires SortedQueue(queue) && queue != [] && !Duplicate(queue)
    requires RedirectsAreDirectories(queue) && DistinctConfs(queue)
    ensures ValidTree(CompiledTree(queue))
    ensures (forall uri :: Lookup(CompiledTree(queue), uri, Declined) == Answer(queue, uri, Declined))
            <==> ShortSegments(NestedQueue(queue), 0)
  {
    hide *;
    var nested := NestedQueue(queue);
    CompiledLevel(queue);
    if ShortSegments(nested, 0) {
      forall uri { LookupAnswersTable(queue, uri); }
    } else {
      var top: Name := [];
      var o, uri := LongWitness(nested, top, Declined);
      assert uri[|top|..] == uri;
      MisledAnswer(queue, o, uri);
    }
  }
  /** For a queue of one location that is its whole name. */
  lemma OneLocationIff(l: Loc)
    requires Added(l) && RedirectsAreDirectories([l])
    ensures ValidTree(CompiledTree([l]))
    ensures (forall uri :: Lookup(CompiledTree([l]), uri, Declined) == Answer([l], uri, Declined)) <==> |l.name| <= 255
  {
    hide CompiledTree, ValidTree, Answer, Lookup;
    assert SortedQueue([l]) && !Duplicate([l]) && NestedQueue([l]) == [l];
    LookupAnswersIff([l]);
    assert [l][1..] == [] && l.list == [];
    assert ShortSegments([], 0) && ShortSegments([], |l.name|);
  }
}
