/**
 Carets: UTF-16 offsets (static/crdt.js:296-320), carets carried through a text change
 (static/app.js:3301-3324) and carets anchored to characters (3338-3350).
 */
module Carets {
  import opened Sequences
  import opened Ids
  import opened Rga
  import opened RgaEdits
  import opened Ops
  import opened Convergence
  import opened Utf16
  import opened Views
  import opened Edits

  // ----- code points and UTF-16 ----------------------------------------------------------

  /** UTF-16 code units of one code point. */
  function UnitCount(c: char): nat {
    |UnitsOf(c)|
  }

  function Width(s: string): nat {
    if s == "" then 0 else Width(s[..|s| - 1]) + UnitCount(s[|s| - 1])
  }

  function Clamp(i: int, max: nat): nat {
    if i < 0 then 0 else if i > max then max else i
  }

  lemma WidthNext(s: string, n: nat)
    requires n < |s|
    ensures Width(s[..n + 1]) == Width(s[..n]) + UnitCount(s[n])
  {
    assert s[..n + 1][..n] == s[..n];
  }

  lemma {:induction false} WidthGrows(s: string, m: nat, n: nat)
    requires m <= n <= |s|
    ensures Width(s[..n]) - Width(s[..m]) >= n - m
    ensures n <= Width(s[..n])
    decreases n
  {
    if m < n {
      WidthNext(s, n - 1);
      WidthGrows(s, m, n - 1);
    } else if n > 0 {
      WidthNext(s, n - 1);
      WidthGrows(s, n - 1, n - 1);
    }
  }

  /** `cp` is the number of code points that start before unit `target`. */
  ghost predicate CodePointsBefore(s: string, target: nat, cp: nat) {
    cp <= |s| && target <= Width(s[..cp]) && (cp > 0 ==> Width(s[..cp - 1]) < target)
  }

  method Utf16ToCodePointOffset(s: string, utf16Index: int) returns (cp: nat)
    ensures CodePointsBefore(s, Clamp(utf16Index, Width(s)), cp)
  {
    assert s[..|s|] == s;
    var i := 0;
    cp := 0;
    var length := CodePointToUtf16Offset(s, |s|);
    var target := Clamp(utf16Index, length);
    while i < target
      invariant cp <= |s| && i == Width(s[..cp])
      invariant cp > 0 ==> Width(s[..cp - 1]) < target
      decreases |s| - cp
    {
      if cp == |s| { assert false; }
      WidthNext(s, cp);
      i := i + UnitCount(s[cp]);
      cp := cp + 1;
    }
  }

  method CodePointToUtf16Offset(s: string, cpIndex: int) returns (i: nat)
    ensures i == Width(s[..Clamp(cpIndex, |s|)])
  {
    var cp := 0;
    i := 0;
    var target := if cpIndex < 0 then 0 else cpIndex;
    while cp < |s| && cp < target
      invariant cp <= |s| && cp <= target && i == Width(s[..cp])
    {
      WidthNext(s, cp);
      i := i + UnitCount(s[cp]);
      cp := cp + 1;
    }
  }

  /** Code point to UTF-16 and back is the identity up to clamping. */
  lemma CodePointRoundTrip(s: string, cpIndex: int, back: nat)
    requires CodePointsBefore(s, Clamp(Width(s[..Clamp(cpIndex, |s|)]), Width(s)), back)
    ensures back == Clamp(cpIndex, |s|)
  {
    hide Width;
    var k := Clamp(cpIndex, |s|);
    assert s[..|s|] == s;
    WidthGrows(s, k, |s|);
    if back < k { WidthGrows(s, back, k); }
    if back > k { WidthGrows(s, k, back - 1); }
  }

  ghost predicate IsBoundary(s: string, unit: nat) {
    exists k :: 0 <= k <= |s| && Width(s[..k]) == unit
  }

  lemma BoundaryIsHit(s: string, target: nat, cp: nat, k: nat)
    requires CodePointsBefore(s, target, cp) && k <= |s| && Width(s[..k]) == target
    ensures cp == k
  {
    if k < cp { WidthGrows(s, k, cp - 1); }
    if k > cp { WidthGrows(s, cp, k); }
  }

  /** UTF-16 to code point and back is the identity on boundaries and rounds up inside a surrogate pair. */
  lemma Utf16RoundTrip(s: string, utf16Index: int, cp: nat)
    requires CodePointsBefore(s, Clamp(utf16Index, Width(s)), cp)
    ensures var target := Clamp(utf16Index, Width(s));
      Width(s[..cp]) == if IsBoundary(s, target) then target else target + 1
  {
    var target := Clamp(utf16Index, Width(s));
    if IsBoundary(s, target) {
      var k :| 0 <= k <= |s| && Width(s[..k]) == target;
      BoundaryIsHit(s, target, cp, k);
    } else {
      assert Width(s[..cp]) != target;
      if cp > 0 { WidthNext(s, cp - 1); }
    }
  }

  // ----- carets through a text change --------------------------------------------------------

  function MappedCaret(s: Span, pos: nat): int {
    if pos <= s.lo then pos else if pos >= s.roOld then pos + (s.roNew - s.roOld) else s.lo
  }

  method MapCaretIndex(oldText: string, newText: string, position: int) returns (r: int)
    ensures r == MappedCaret(EditSpan(oldText, newText), Clamp(position, |oldText|))
  {
    var pos := Clamp(position, |oldText|);
    SpanIsTight(oldText, newText);
    if oldText == newText { return pos; }
    var s := FindSpan(oldText, newText);
    if pos <= s.lo { return pos; }
    if pos >= s.roOld { return pos + (s.roNew - s.roOld); }
    return s.lo;
  }

  /** A mapped caret stays inside the new text and next to the text it was next to. */
  lemma MappedCaretKeepsPlace(a: string, b: string, pos: nat)
    requires pos <= |a|
    ensures var s := EditSpan(a, b);
      var r := MappedCaret(s, pos);
      0 <= r <= |b| &&
      (pos <= s.lo ==> a[..pos] == b[..r]) &&
      (pos > s.lo && pos >= s.roOld ==> a[pos..] == b[r..]) &&
      (s.lo < pos < s.roOld ==> a[..s.lo] == b[..r])
  {
    SpanIsTight(a, b);
    var s := EditSpan(a, b);
    if pos <= s.lo {
      assert a[..pos] == a[..s.lo][..pos] == b[..s.lo][..pos] == b[..pos];
    } else if pos >= s.roOld {
      assert a[pos..] == a[s.roOld..][pos - s.roOld..];
      assert b[pos + s.roNew - s.roOld..] == b[s.roNew..][pos - s.roOld..];
    }
  }

  /** Carets never overtake each other. */
  lemma MappedCaretIsMonotone(a: string, b: string, p: nat, q: nat)
    requires p <= q <= |a|
    ensures MappedCaret(EditSpan(a, b), p) <= MappedCaret(EditSpan(a, b), q)
  {
    SpanIsTight(a, b);
  }

  // ----- carets anchored to characters ----------------------------------------------------------

  method AnchorIdAt(pos: int, ids: seq<Id>) returns (id: Id)
    ensures id == Anchor(ids, Clamp(pos, |ids|))
  {
    var p := Clamp(pos, |ids|);
    id := if p > 0 then ids[p - 1] else Root;
  }

  /** The gap right behind the anchor, -1 when the anchor is not visible. */
  ghost predicate Resolves(afterId: Id, ids: seq<Id>, pos: int) {
    if afterId == Root then pos == 0
    else if afterId in ids then 0 < pos <= |ids| && ids[pos - 1] == afterId
    else pos == -1
  }

  method PosFromAfterId(afterId: Id, ids: seq<Id>) returns (pos: int)
    ensures Resolves(afterId, ids, pos)
  {
    if afterId == Root { return 0; }
    for i := 0 to |ids|
      invariant forall k :: 0 <= k < i ==> ids[k] != afterId
    {
      if ids[i] == afterId { return i + 1; }
    }
    return -1;
  }

  /**
   After any batch an anchor still resolves to the gap behind the same character while
   that is visible, and anchored carets keep their order.
   */
  lemma AnchorsSurviveBatches(t: Tree, ops: seq<Op>, p: nat, q: nat, p': int, q': int)
    requires WellFormed(t) && JsRun(t, ops).error.None? && p <= q <= |VisibleIds(t)|
    requires WellFormed(JsRun(t, ops).tree)
    requires var ids, now := VisibleIds(t), VisibleIds(JsRun(t, ops).tree);
      Resolves(Anchor(ids, p), now, p') && Resolves(Anchor(ids, q), now, q')
    ensures var ids, u := VisibleIds(t), JsRun(t, ops).tree;
      (p > 0 && Alive(u.items, ids[p - 1]) ==>
        0 < p' <= |VisibleIds(u)| && VisibleIds(u)[p' - 1] == ids[p - 1] &&
        ids[p - 1] in t.items && u.items[ids[p - 1]].ch == t.items[ids[p - 1]].ch) &&
      (p' >= 0 && q' >= 0 ==> p' <= q')
  {
    var ids, u := VisibleIds(t), JsRun(t, ops).tree;
    VisibleFacts(t);
    VisibleFacts(u);
    RunDelivers(t, ops);
    if p > 0 {
      assert ids[p - 1] in ids;
      assert DeliveredItem(t.items, Elements(ops), Effective(t.items.Keys, ops), ids[p - 1], u.items[ids[p - 1]]);
      if p' >= 0 && q' >= 0 && p' > q' {
        assert ids[q - 1] in ids && Before(u.items, VisibleIds(u)[q' - 1], VisibleIds(u)[p' - 1]);
        ParentsStay(t, ops);
        SameBefore(t.items, u.items, ids[p - 1], ids[q - 1]);
        BeforeIsAsymmetric(u.items, ids[p - 1], ids[q - 1]);
      }
    }
  }

  lemma ParentsStay(t: Tree, ops: seq<Op>)
    requires WellFormed(t) && JsRun(t, ops).error.None?
    ensures Agree(t.items, JsRun(t, ops).tree.items)
  {
    RunDelivers(t, ops);
    var items := JsRun(t, ops).tree.items;
    forall k | k in t.items && k in items ensures t.items[k].after == items[k].after {
      assert DeliveredItem(t.items, Elements(ops), Effective(t.items.Keys, ops), k, items[k]);
    }
  }
}
