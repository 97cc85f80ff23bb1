/** Identifiers of document atoms and the order of siblings (internal/crdt/id.go). */
module Ids {

  /** The document head (the empty string in the source) or a (site, clock) pair. */
  datatype Id = Root | Atom(site: string, clock: int)

  predicate ValidSite(site: string) {
    site != "" && ':' !in site
  }

  predicate ValidId(id: Id) {
    id.Atom? && ValidSite(id.site) && 0 < id.clock
  }

  /** Code-point order of strings, which is the byte order of their UTF-8 forms. */
  predicate StrLess(a: string, b: string) {
    if b == "" then false
    else if a == "" then true
    else if a[0] == b[0] then StrLess(a[1..], b[1..])
    else a[0] < b[0]
  }

  /** Newest clock first; equal clocks by ascending site. The head, not an atom, compares as the least text. */
  function CompareSibling(a: Id, b: Id): int {
    if a == b then 0
    else if a.Root? then -1
    else if b.Root? then 1
    else if a.clock > b.clock then -1
    else if a.clock < b.clock then 1
    else if StrLess(a.site, b.site) then -1
    else if StrLess(b.site, a.site) then 1
    else 0
  }

  predicate SibLess(a: Id, b: Id) {
    a.Atom? && b.Atom? && CompareSibling(a, b) < 0
  }

  lemma {:induction false} StrLessTotal(a: string, b: string)
    ensures !(StrLess(a, b) && StrLess(b, a))
    ensures a != b ==> StrLess(a, b) || StrLess(b, a)
    ensures !StrLess(a, a)
  {
    if a != "" {
      StrLessTotal(a[1..], if b == "" then "" else b[1..]);
      if b != "" && a[0] == b[0] {
        assert a == [a[0]] + a[1..] && b == [b[0]] + b[1..];
      }
    }
  }

  lemma {:induction false} StrLessTransitive(a: string, b: string, c: string)
    requires StrLess(a, b) && StrLess(b, c)
    ensures StrLess(a, c)
  {
    if a != "" && a[0] == b[0] == c[0] {
      StrLessTransitive(a[1..], b[1..], c[1..]);
    }
  }

  /** The sibling order is a strict total order on atoms, and comparing equal means being equal. */
  lemma SiblingOrderTotal(a: Id, b: Id)
    requires a.Atom? && b.Atom?
    ensures CompareSibling(a, b) == -CompareSibling(b, a)
    ensures CompareSibling(a, b) == 0 <==> a == b
    ensures !(SibLess(a, b) && SibLess(b, a))
  {
    StrLessTotal(a.site, b.site);
  }

  lemma SiblingOrderTransitive(a: Id, b: Id, c: Id)
    requires SibLess(a, b) && SibLess(b, c)
    ensures SibLess(a, c)
  {
    StrLessTotal(a.site, c.site);
    StrLessTotal(a.site, b.site);
    StrLessTotal(b.site, c.site);
    if StrLess(a.site, b.site) && StrLess(b.site, c.site) {
      StrLessTransitive(a.site, b.site, c.site);
    }
  }

  // ----- root paths ---------------------------------------------------------

  /** Lexicographic order of root paths: an ancestor first, siblings by the sibling order. */
  predicate PathLess(p: seq<Id>, q: seq<Id>) {
    if q == [] then false
    else if p == [] then true
    else if p[0] == q[0] then PathLess(p[1..], q[1..])
    else SibLess(p[0], q[0])
  }

  lemma {:induction false} PathLessAsymmetric(p: seq<Id>, q: seq<Id>)
    ensures !(PathLess(p, q) && PathLess(q, p))
  {
    if p != [] && q != [] {
      if p[0] == q[0] {
        PathLessAsymmetric(p[1..], q[1..]);
      } else if p[0].Atom? && q[0].Atom? {
        SiblingOrderTotal(p[0], q[0]);
      }
    }
  }

  lemma {:induction false} PathLessTotal(p: seq<Id>, q: seq<Id>)
    requires Root !in p && Root !in q && p != q
    ensures PathLess(p, q) || PathLess(q, p)
  {
    if p != [] && q != [] {
      if p[0] == q[0] {
        assert p == [p[0]] + p[1..] && q == [q[0]] + q[1..];
        PathLessTotal(p[1..], q[1..]);
      } else {
        assert p[0] in p && q[0] in q;
        SiblingOrderTotal(p[0], q[0]);
      }
    }
  }

  lemma {:induction false} PathLessTransitive(p: seq<Id>, q: seq<Id>, r: seq<Id>)
    requires PathLess(p, q) && PathLess(q, r)
    ensures PathLess(p, r)
  {
    if p != [] {
      if p[0] == q[0] == r[0] {
        PathLessTransitive(p[1..], q[1..], r[1..]);
      } else if p[0] != q[0] && q[0] != r[0] {
        SiblingOrderTransitive(p[0], q[0], r[0]);
        SiblingOrderTotal(p[0], q[0]);
      }
    }
  }

  lemma {:induction false} PathLessPrefix(p: seq<Id>, q: seq<Id>)
    requires |p| < |q| && q[..|p|] == p
    ensures PathLess(p, q)
  {
    if p != [] {
      assert q[1..][..|p| - 1] == q[1..|p|] == p[1..];
      PathLessPrefix(p[1..], q[1..]);
    }
  }

  lemma {:induction false} PathLessFork(p: seq<Id>, q: seq<Id>, n: nat)
    requires n < |p| && n < |q| && p[..n] == q[..n] && p[n] != q[n]
    ensures PathLess(p, q) == SibLess(p[n], q[n])
  {
    if n > 0 {
      assert p[0] == p[..n][0] && q[0] == q[..n][0];
      assert p[1..][..n - 1] == p[..n][1..] && q[1..][..n - 1] == q[..n][1..];
      PathLessFork(p[1..], q[1..], n - 1);
    }
  }

  /** A child that outranks every sibling on `q` keeps its parent's place before `q`. */
  lemma {:induction false} FirstChildPath(p: seq<Id>, n: Id, q: seq<Id>)
    requires PathLess(p, q)
    requires |p| < |q| && q[..|p|] == p ==> SibLess(n, q[|p|])
    ensures PathLess(p + [n], q)
  {
    if p == [] {
      assert q[..0] == p;
      SiblingOrderTotal(n, q[0]);
    } else if p[0] == q[0] {
      if |p| < |q| {
        assert q[1..][..|p| - 1] == q[1..|p|];
        if q[1..][..|p| - 1] == p[1..] {
          assert q[..|p|] == [q[0]] + q[1..|p|] == p;
        }
      }
      FirstChildPath(p[1..], n, q[1..]);
      assert (p + [n])[1..] == p[1..] + [n];
    }
  }
}
