/** Location names and request URIs as byte strings, with the comparison
    used for file names.

    `ngx_filename_cmp` itself is not part of the vendored sources, so its body
    here is an assumption: a byte-wise comparison that stops at the terminating
    NUL and sorts '/' below every other byte.  Everything the other modules use
    is the order it induces, proved below. */
module Names {

  /** A byte that may occur in a name: never the terminating NUL. */
  type Byte = b: int | 1 <= b <= 255 witness 1

  type Name = seq<Byte>

  const SLASH: Byte := 47

  function Rank(b: Byte): nat { if b == SLASH then 0 else b }

  function Min(a: nat, b: nat): nat { if a <= b then a else b }

  /** The byte a C string holds at its current position: NUL past the end. */
  function At(s: Name): nat { if s == [] then 0 else s[0] }

  function FilenameCmp(a: Name, b: Name, n: nat): int
    decreases n
  {
    if n == 0 then 0
    else if At(a) == At(b) then
      if a == [] || b == [] then 0 else FilenameCmp(a[1..], b[1..], n - 1)
    else if a == [] || b == [] then At(a) - At(b)
    else Rank(a[0]) - Rank(b[0])
  }

  /** The strict order on names: lexicographic by Rank, a prefix first. */
  predicate Lt(a: Name, b: Name)
  {
    b != [] && (a == [] || if a[0] == b[0] then Lt(a[1..], b[1..]) else Rank(a[0]) < Rank(b[0]))
  }

  lemma {:induction false} CmpIsLt(a: Name, b: Name)
    ensures FilenameCmp(a, b, Min(|a|, |b|) + 1) < 0 <==> Lt(a, b)
    ensures FilenameCmp(a, b, Min(|a|, |b|) + 1) > 0 <==> Lt(b, a)
    ensures FilenameCmp(a, b, Min(|a|, |b|) + 1) == 0 <==> a == b
  {
    if a != [] && b != [] && a[0] == b[0] {
      CmpIsLt(a[1..], b[1..]);
      assert a == [a[0]] + a[1..] && b == [b[0]] + b[1..];
    }
  }

  /** Comparing the first n bytes answers: equal heads, or the order of the names. */
  lemma {:induction false} CmpHeads(a: Name, b: Name, n: nat)
    requires n <= |a| && n <= |b|
    ensures FilenameCmp(a, b, n) == 0 <==> a[..n] == b[..n]
    ensures FilenameCmp(a, b, n) < 0 ==> Lt(a, b)
    ensures FilenameCmp(a, b, n) > 0 ==> Lt(b, a)
  {
    if n > 0 {
      if a[0] == b[0] {
        CmpHeads(a[1..], b[1..], n - 1);
        assert a[..n] == [a[0]] + a[1..][..n - 1] && b[..n] == [b[0]] + b[1..][..n - 1];
      } else {
        assert a[..n][0] != b[..n][0];
      }
    }
  }

  lemma {:induction false} LtTrans(a: Name, b: Name, c: Name)
    requires Lt(a, b) && Lt(b, c)
    ensures Lt(a, c)
  {
    if a != [] && a[0] == b[0] == c[0] {
      LtTrans(a[1..], b[1..], c[1..]);
    }
  }

  lemma {:induction false} LtIrreflexive(a: Name, b: Name)
    requires Lt(a, b)
    ensures a != b && !Lt(b, a)
  {
    if a != [] && a[0] == b[0] {
      LtIrreflexive(a[1..], b[1..]);
    }
  }

  lemma {:induction false} ProperPrefixLt(p: Name, s: Name)
    requires p <= s && p != s
    ensures Lt(p, s)
  {
    if p != [] {
      ProperPrefixLt(p[1..], s[1..]);
    }
  }

  /** Names between p and an extension of p also extend p: nested runs are contiguous. */
  lemma {:induction false} PrefixConvex(p: Name, x: Name, s: Name)
    requires p <= s && (p == x || Lt(p, x)) && (x == s || Lt(x, s))
    ensures p <= x
  {
    if p != [] && p != x && x != s {
      if p[0] != x[0] {
        assert false;
      }
      PrefixConvex(p[1..], x[1..], s[1..]);
      assert x == [x[0]] + x[1..] && p == [p[0]] + p[1..];
    }
  }

  /** No name lies strictly between u and u followed by '/'. */
  lemma {:induction false} NothingBeforeSlash(u: Name, x: Name)
    requires Lt(u, x)
    ensures x == u + [SLASH] || Lt(u + [SLASH], x)
  {
    if u == [] {
      if x[0] == SLASH && x != [SLASH] {
        ProperPrefixLt([SLASH], x);
      }
    } else {
      assert (u + [SLASH])[1..] == u[1..] + [SLASH];
      if u[0] == x[0] {
        NothingBeforeSlash(u[1..], x[1..]);
        assert x == [x[0]] + x[1..] && u + [SLASH] == [u[0]] + (u[1..] + [SLASH]);
      }
    }
  }

  /** The order only looks at what follows a common head. */
  lemma {:induction false} LtUnderPrefix(p: Name, a: Name, b: Name)
    ensures Lt(p + a, p + b) <==> Lt(a, b)
  {
    if p == [] {
      assert p + a == a && p + b == b;
    } else {
      assert (p + a)[1..] == p[1..] + a && (p + b)[1..] == p[1..] + b;
      LtUnderPrefix(p[1..], a, b);
    }
  }
}
