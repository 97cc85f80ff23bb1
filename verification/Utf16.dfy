/**
 String order in the browser (static/crdt.js:41-51): JavaScript compares UTF-16 code
 units, Go compares UTF-8 bytes. The two differ exactly where a character beyond
 U+FFFF meets one from U+E000 to U+FFFF.
 */
module Utf16 {
  import opened Ids

  /** One unit, or a surrogate pair (section 3.9 of the Unicode Standard). */
  function UnitsOf(c: char): seq<int> {
    var n := c as int;
    if n < 0x1_0000 then [n] else [0xD800 + (n - 0x1_0000) / 0x400, 0xDC00 + (n - 0x1_0000) % 0x400]
  }

  function Units(s: string): seq<int> {
    if s == "" then [] else UnitsOf(s[0]) + Units(s[1..])
  }

  predicate UnitsLess(a: seq<int>, b: seq<int>) {
    if b == [] then false
    else if a == [] then true
    else if a[0] == b[0] then UnitsLess(a[1..], b[1..])
    else a[0] < b[0]
  }

  predicate JsStrLess(a: string, b: string) {
    UnitsLess(Units(a), Units(b))
  }

  // ----- re-ranking ---------------------------------------------------------------------

  /** Code points renumbered so that their order is the order of their units. */
  function Rank(c: char): char {
    if c < '\U{E000}' then c
    else if c < '\U{10000}' then (c as int + 0x10_0000) as char
    else (c as int - 0x2000) as char
  }

  function Unrank(c: char): char {
    if c < '\U{E000}' then c
    else if c < '\U{10E000}' then (c as int + 0x2000) as char
    else (c as int - 0x10_0000) as char
  }

  function Ranked(s: string): (r: string)
    ensures |r| == |s| && forall i :: 0 <= i < |s| ==> r[i] == Rank(s[i])
  {
    seq(|s|, i requires 0 <= i < |s| => Rank(s[i]))
  }

  function Unranked(s: string): string {
    seq(|s|, i requires 0 <= i < |s| => Unrank(s[i]))
  }

  lemma RankRoundTrip(s: string)
    ensures Unranked(Ranked(s)) == s && Ranked(Unranked(s)) == s
    ensures ValidSite(Ranked(s)) <==> ValidSite(s)
  {
    assert forall i :: 0 <= i < |s| ==> Unrank(Rank(s[i])) == s[i] && Rank(Unrank(s[i])) == s[i];
    assert ':' in s <==> exists i :: 0 <= i < |s| && s[i] == ':';
    if i :| 0 <= i < |s| && s[i] == ':' { assert Ranked(s)[i] == ':'; }
    if i :| 0 <= i < |s| && Ranked(s)[i] == ':' { assert s[i] == ':'; }
  }

  lemma {:induction false} CommonUnits(x: seq<int>, p: seq<int>, q: seq<int>)
    ensures UnitsLess(x + p, x + q) <==> UnitsLess(p, q)
  {
    if x == [] {
      assert x + p == p && x + q == q;
    } else {
      assert (x + p)[1..] == x[1..] + p && (x + q)[1..] == x[1..] + q;
      CommonUnits(x[1..], p, q);
    }
  }

  /** Different characters are told apart within their own units, and the ranks agree. */
  lemma HeadsDecide(c: char, d: char, p: seq<int>, q: seq<int>)
    requires c != d
    ensures UnitsLess(UnitsOf(c) + p, UnitsOf(d) + q) <==> Rank(c) < Rank(d)
  {
    var m, n := c as int - 0x1_0000, d as int - 0x1_0000;
    var x, y := UnitsOf(c) + p, UnitsOf(d) + q;
    assert x[0] == UnitsOf(c)[0] && y[0] == UnitsOf(d)[0];
    if m >= 0 && n >= 0 {
      SurrogatesOrdered(m, n);
      assert x[1] == UnitsOf(c)[1] && y[1] == UnitsOf(d)[1];
      if x[0] == y[0] { assert x[1..][0] == x[1] && y[1..][0] == y[1]; }
    }
  }

  lemma SurrogatesOrdered(m: nat, n: nat)
    requires m != n
    ensures m < n <==> m / 0x400 < n / 0x400 || (m / 0x400 == n / 0x400 && m % 0x400 < n % 0x400)
    ensures m / 0x400 == n / 0x400 ==> m % 0x400 != n % 0x400
  {
    assert m == m / 0x400 * 0x400 + m % 0x400 && n == n / 0x400 * 0x400 + n % 0x400;
  }

  /** The browser's order is the code-point order of the re-ranked strings. */
  lemma {:induction false} JsOrderIsRanked(a: string, b: string)
    ensures JsStrLess(a, b) <==> StrLess(Ranked(a), Ranked(b))
  {
    if a != "" && b != "" {
      assert Ranked(a)[1..] == Ranked(a[1..]) && Ranked(b)[1..] == Ranked(b[1..]);
      if a[0] == b[0] {
        CommonUnits(UnitsOf(a[0]), Units(a[1..]), Units(b[1..]));
        JsOrderIsRanked(a[1..], b[1..]);
      } else {
        HeadsDecide(a[0], b[0], Units(a[1..]), Units(b[1..]));
        assert Unrank(Rank(a[0])) == a[0] && Unrank(Rank(b[0])) == b[0];
      }
    }
  }

  // ----- where the orders part ------------------------------------------------------------

  /** One character beyond U+FFFF, the other from U+E000 to U+FFFF. */
  predicate Across(c: char, d: char) {
    (c >= '\U{10000}' && '\U{E000}' <= d < '\U{10000}') || (d >= '\U{10000}' && '\U{E000}' <= c < '\U{10000}')
  }

  /** The first difference of the two strings sets such characters against each other. */
  predicate PartAcross(a: string, b: string) {
    a != "" && b != "" && if a[0] == b[0] then PartAcross(a[1..], b[1..]) else Across(a[0], b[0])
  }

  /** Server and browser order a pair of strings alike unless their first difference is of that kind. */
  lemma {:induction false} OrdersAgreeExactlyWhen(a: string, b: string)
    ensures (JsStrLess(a, b) <==> StrLess(a, b)) <==> !PartAcross(a, b)
  {
    JsOrderIsRanked(a, b);
    if a != "" && b != "" {
      assert Ranked(a)[1..] == Ranked(a[1..]) && Ranked(b)[1..] == Ranked(b[1..]);
      if a[0] == b[0] {
        OrdersAgreeExactlyWhen(a[1..], b[1..]);
        JsOrderIsRanked(a[1..], b[1..]);
      } else {
        assert Unrank(Rank(a[0])) == a[0] && Unrank(Rank(b[0])) == b[0];
      }
    }
  }

  /** Strings without characters beyond U+FFFF, ASCII ones among them, are ordered alike. */
  lemma {:induction false} PlainStringsAgree(a: string, b: string)
    requires forall c :: c in a || c in b ==> c < '\U{10000}'
    ensures !PartAcross(a, b) && (JsStrLess(a, b) <==> StrLess(a, b))
  {
    if a != "" && b != "" {
      assert a[0] in a && b[0] in b;
      if a[0] == b[0] {
        assert forall c :: c in a[1..] || c in b[1..] ==> c in a || c in b;
        PlainStringsAgree(a[1..], b[1..]);
      }
    }
    OrdersAgreeExactlyWhen(a, b);
  }
}
