/**
 Turning a changed text into operations: `diffToOps` (static/crdt.js:245-293) and
 `applyLocalText` (static/app.js:2772-2793), on documents with any history.
 */
module Edits {
  import opened Sequences
  import opened Ids
  import opened Rga
  import opened RgaEdits
  import opened Ops
  import opened Views
  import opened Growth

  // ----- the replaced span -----------------------------------------------------------

  /** Old text positions lo..roOld give way to new text positions lo..roNew. */
  datatype Span = Span(lo: nat, roOld: nat, roNew: nat)

  function CommonPrefix(a: string, b: string): (n: nat)
    ensures n <= |a| && n <= |b|
  {
    if a == "" || b == "" || a[0] != b[0] then 0 else 1 + CommonPrefix(a[1..], b[1..])
  }

  function TrimEnd(a: string, b: string, span: Span): (r: Span)
    requires span.lo <= span.roOld <= |a| && span.lo <= span.roNew <= |b|
    ensures r.lo == span.lo <= r.roOld <= |a| && r.lo <= r.roNew <= |b|
    decreases span.roOld
  {
    if span.roOld > span.lo && span.roNew > span.lo && a[span.roOld - 1] == b[span.roNew - 1]
    then TrimEnd(a, b, Span(span.lo, span.roOld - 1, span.roNew - 1))
    else span
  }

  function EditSpan(a: string, b: string): Span {
    TrimEnd(a, b, Span(CommonPrefix(a, b), |a|, |b|))
  }

  ghost predicate InRange(a: string, b: string, s: Span) {
    s.lo <= s.roOld <= |a| && s.lo <= s.roNew <= |b|
  }

  lemma {:induction false} CommonPrefixAgrees(a: string, b: string)
    ensures var n := CommonPrefix(a, b); a[..n] == b[..n] && (n < |a| && n < |b| ==> a[n] != b[n])
  {
    if a != "" && b != "" && a[0] == b[0] {
      CommonPrefixAgrees(a[1..], b[1..]);
      var n := CommonPrefix(a[1..], b[1..]);
      assert a[..n + 1] == [a[0]] + a[1..][..n] && b[..n + 1] == [b[0]] + b[1..][..n];
    }
  }

  lemma {:induction false} TrimEndAgrees(a: string, b: string, span: Span)
    requires InRange(a, b, span) && a[span.roOld..] == b[span.roNew..]
    ensures var r := TrimEnd(a, b, span);
      a[r.roOld..] == b[r.roNew..] &&
      (r.lo < r.roOld && r.lo < r.roNew ==> a[r.roOld - 1] != b[r.roNew - 1])
    decreases span.roOld
  {
    if span.roOld > span.lo && span.roNew > span.lo && a[span.roOld - 1] == b[span.roNew - 1] {
      assert a[span.roOld - 1..] == [a[span.roOld - 1]] + a[span.roOld..];
      assert b[span.roNew - 1..] == [b[span.roNew - 1]] + b[span.roNew..];
      TrimEndAgrees(a, b, Span(span.lo, span.roOld - 1, span.roNew - 1));
    }
  }

  lemma {:induction false} SelfPrefix(a: string)
    ensures CommonPrefix(a, a) == |a|
  {
    if a != "" { SelfPrefix(a[1..]); }
  }

  /** The span is tight: what is outside agrees, and it cannot be narrowed at either end. */
  lemma SpanIsTight(a: string, b: string)
    ensures var s := EditSpan(a, b);
      InRange(a, b, s) && a[..s.lo] == b[..s.lo] && a[s.roOld..] == b[s.roNew..] &&
      (s.lo < s.roOld && s.lo < s.roNew ==> a[s.lo] != b[s.lo] && a[s.roOld - 1] != b[s.roNew - 1])
    ensures var s := EditSpan(a, b); s.lo == s.roOld && s.lo == s.roNew <==> a == b
  {
    CommonPrefixAgrees(a, b);
    TrimEndAgrees(a, b, Span(CommonPrefix(a, b), |a|, |b|));
    var s := EditSpan(a, b);
    assert a == a[..s.lo] + a[s.lo..s.roOld] + a[s.roOld..];
    assert b == b[..s.lo] + b[s.lo..s.roNew] + b[s.roNew..];
    if a == b { SelfPrefix(a); }
  }

  // ----- the operations ----------------------------------------------------------------

  datatype Diff = Diff(ops: seq<Op>, nextIds: seq<Id>, clock: int)

  function NewIds(site: string, clock: int, n: nat): seq<Id> {
    seq(n, i requires 0 <= i < n => Atom(site, clock + 1 + i))
  }

  /** A run of inserts, each behind the previous one and the first behind `after`. */
  function TypeRun(site: string, clock: int, after: Id, chars: string): seq<Op> {
    seq(|chars|, i requires 0 <= i < |chars| =>
      Ins(Atom(site, clock + 1 + i), if i == 0 then after else Atom(site, clock + i), [chars[i]]))
  }

  function Anchor(ids: seq<Id>, lo: nat): Id
    requires lo <= |ids|
  {
    if lo > 0 then ids[lo - 1] else Root
  }

  function DiffToOps(oldChars: string, oldIds: seq<Id>, newChars: string, site: string, clockStart: int): Diff
    requires |oldIds| == |oldChars|
  {
    var s := EditSpan(oldChars, newChars);
    var ins := TypeRun(site, clockStart, Anchor(oldIds, s.lo), newChars[s.lo..s.roNew]);
    Diff(Deletions(oldIds[s.lo..s.roOld]) + ins,
         oldIds[..s.lo] + NewIds(site, clockStart, s.roNew - s.lo) + oldIds[s.roOld..],
         clockStart + s.roNew - s.lo)
  }

  lemma PrefixStep(a: string, b: string, lo: nat)
    requires lo <= |a| && lo <= |b|
    ensures CommonPrefix(a[lo..], b[lo..]) ==
      if lo < |a| && lo < |b| && a[lo] == b[lo] then 1 + CommonPrefix(a[lo + 1..], b[lo + 1..]) else 0
  {
    if lo < |a| && lo < |b| { assert a[lo..][1..] == a[lo + 1..] && b[lo..][1..] == b[lo + 1..]; }
  }

  lemma TrimStep(a: string, b: string, s: Span)
    requires s.lo <= s.roOld <= |a| && s.lo <= s.roNew <= |b|
    ensures TrimEnd(a, b, s) ==
      if s.roOld > s.lo && s.roNew > s.lo && a[s.roOld - 1] == b[s.roNew - 1]
      then TrimEnd(a, b, Span(s.lo, s.roOld - 1, s.roNew - 1)) else s
  {
  }

  /** The two-ended scan that `diffToOps` and `mapCaretIndex` share. */
  method FindSpan(oldChars: string, newChars: string) returns (span: Span)
    ensures span == EditSpan(oldChars, newChars)
  {
    hide CommonPrefix, TrimEnd;
    var lo := 0;
    while lo < |oldChars| && lo < |newChars| && oldChars[lo] == newChars[lo]
      invariant 0 <= lo <= |oldChars| && lo <= |newChars|
      invariant CommonPrefix(oldChars, newChars) == lo + CommonPrefix(oldChars[lo..], newChars[lo..])
    {
      PrefixStep(oldChars, newChars, lo);
      lo := lo + 1;
    }
    PrefixStep(oldChars, newChars, lo);
    var roOld, roNew := |oldChars|, |newChars|;
    while roOld > lo && roNew > lo && oldChars[roOld - 1] == newChars[roNew - 1]
      invariant lo <= roOld <= |oldChars| && lo <= roNew <= |newChars|
      invariant EditSpan(oldChars, newChars) == TrimEnd(oldChars, newChars, Span(lo, roOld, roNew))
    {
      TrimStep(oldChars, newChars, Span(lo, roOld, roNew));
      roOld, roNew := roOld - 1, roNew - 1;
    }
    TrimStep(oldChars, newChars, Span(lo, roOld, roNew));
    span := Span(lo, roOld, roNew);
  }

  lemma RunGrows(site: string, clock: int, after: Id, chars: string, c: char)
    ensures TypeRun(site, clock, after, chars + [c]) == TypeRun(site, clock, after, chars) +
      [Ins(Atom(site, clock + 1 + |chars|), if chars == "" then after else Atom(site, clock + |chars|), [c])]
    ensures NewIds(site, clock, |chars| + 1) == NewIds(site, clock, |chars|) + [Atom(site, clock + 1 + |chars|)]
  {
  }

  lemma DeletionsGrow(ids: seq<Id>, id: Id)
    ensures Deletions(ids + [id]) == Deletions(ids) + [Del(id)]
  {
  }

  /** `diffToOps`: delete the old middle, then type the new one behind the last kept prefix id. */
  method ComputeDiff(oldChars: string, oldIds: seq<Id>, newChars: string, site: string, clockStart: int)
    returns (diff: Diff)
    requires |oldIds| == |oldChars|
    ensures diff == DiffToOps(oldChars, oldIds, newChars, site, clockStart)
  {
    var span := FindSpan(oldChars, newChars);
    var lo, roOld, roNew := span.lo, span.roOld, span.roNew;
    var ops: seq<Op> := [];
    for d := lo to roOld
      invariant ops == Deletions(oldIds[lo..d])
    {
      DeletionsGrow(oldIds[lo..d], oldIds[d]);
      assert oldIds[lo..d + 1] == oldIds[lo..d] + [oldIds[d]];
      ops := ops + [Del(oldIds[d])];
    }
    var inserts, nextIds := TypeNew(newChars, lo, roNew, Anchor(oldIds, lo), site, clockStart);
    diff := Diff(ops + inserts, oldIds[..lo] + nextIds + oldIds[roOld..], clockStart + roNew - lo);
  }

  /** The insert pass: every new character goes behind the one just typed. */
  method TypeNew(newChars: string, lo: nat, roNew: nat, anchor: Id, site: string, clockStart: int)
    returns (ops: seq<Op>, ids: seq<Id>)
    requires lo <= roNew <= |newChars|
    ensures ops == TypeRun(site, clockStart, anchor, newChars[lo..roNew])
    ensures ids == NewIds(site, clockStart, roNew - lo)
  {
    var clock, after := clockStart, anchor;
    ops, ids := [], [];
    for n := lo to roNew
      invariant clock == clockStart + n - lo
      invariant after == if n == lo then anchor else Atom(site, clock)
      invariant ops == TypeRun(site, clockStart, anchor, newChars[lo..n])
      invariant ids == NewIds(site, clockStart, n - lo)
    {
      clock := clock + 1;
      var id := Atom(site, clock);
      RunGrows(site, clockStart, anchor, newChars[lo..n], newChars[n]);
      assert newChars[lo..n + 1] == newChars[lo..n] + [newChars[n]];
      ops := ops + [Ins(id, after, [newChars[n]])];
      ids := ids + [id];
      after := id;
    }
  }

  // ----- what they do --------------------------------------------------------------------

  lemma GrownAlive(t: Tree, u: Tree, dead: seq<Id>, ins: seq<Op>, x: Id)
    requires Grown(t, u, dead, ins)
    ensures Alive(u.items, x) <==> (Alive(t.items, x) || x in InsIds(ins)) && x !in dead
    ensures x in InsIds(ins) ==> x !in t.items
  {
    assert x in InsIds(ins) <==> x in Elements(InsIds(ins));
    if x in InsIds(ins) {
      var i :| 0 <= i < |ins| && InsIds(ins)[i] == x;
      assert GrownAt(t.items, u.items, dead, ins, i);
    }
  }

  lemma GrownKeepsOrder(t: Tree, u: Tree, dead: seq<Id>, ins: seq<Op>, x: Id, y: Id)
    requires Grown(t, u, dead, ins) && x in t.items && y in t.items
    ensures Before(u.items, x, y) <==> Before(t.items, x, y)
  {
    SameBefore(t.items, u.items, x, y);
  }

  ghost predicate IsTyped(ins: seq<Op>, after: Id) {
    forall i {:trigger PrevId(ins, i, after)} :: 0 <= i < |ins| ==> ins[i].Ins? && ins[i].after == PrevId(ins, i, after)
  }

  ghost function PrevId(ins: seq<Op>, i: nat, after: Id): Id
    requires i <= |ins|
  {
    if i == 0 then after else ins[i - 1].id
  }

  /** A typed run stands as a block: earlier items follow it exactly when they follow its anchor. */
  lemma {:induction false} TypedAgainstOld(t: Tree, u: Tree, dead: seq<Id>, ins: seq<Op>, after: Id, i: nat, x: Id)
    requires Grown(t, u, dead, ins) && IsTyped(ins, after) && i < |ins| && x in t.items
    ensures Before(u.items, ins[i].id, x) <==> Behind(u.items, after, x)
  {
    GrownStep(t, u, dead, ins, i, x);
    assert ins[i].after == PrevId(ins, i, after);
    if i > 0 {
      TypedIdIsNotRoot(t, u, dead, ins, i - 1);
      TypedAgainstOld(t, u, dead, ins, after, i - 1, x);
    }
  }

  /** Within a typed run the order is the typing order. */
  lemma {:induction false} TypedInOrder(t: Tree, u: Tree, dead: seq<Id>, ins: seq<Op>, after: Id, i: nat, j: nat)
    requires Grown(t, u, dead, ins) && IsTyped(ins, after) && i < j < |ins|
    ensures Before(u.items, ins[i].id, ins[j].id)
    decreases j
  {
    GrownStep(t, u, dead, ins, j, ins[i].id);
    if i < j - 1 { TypedInOrder(t, u, dead, ins, after, i, j - 1); }
    assert ins[j].after == PrevId(ins, j, after) == ins[j - 1].id;
    TypedIdIsNotRoot(t, u, dead, ins, j - 1);
    BeforeIsAsymmetric(u.items, ins[i].id, ins[j - 1].id);
  }

  lemma TypedIdIsNotRoot(t: Tree, u: Tree, dead: seq<Id>, ins: seq<Op>, i: nat)
    requires Grown(t, u, dead, ins) && i < |ins|
    ensures ins[i].id in u.items && ins[i].id != Root
  {
    assert GrownAt(t.items, u.items, dead, ins, i);
  }

  /** Splicing a sorted block into the gap it belongs to. */
  lemma SplicedSorted(less: (Id, Id) -> bool, v: seq<Id>, lo: nat, hi: nat, mid: seq<Id>)
    requires lo <= hi <= |v| && SortedBy(less, v) && SortedBy(less, mid)
    requires forall i, j :: 0 <= i < lo && 0 <= j < |mid| ==> less(v[i], mid[j])
    requires forall i, j :: hi <= i < |v| && 0 <= j < |mid| ==> less(mid[j], v[i])
    ensures SortedBy(less, v[..lo] + mid + v[hi..])
  {
  }

  /** The facts about the visible ids that the proofs below use. */
  lemma VisibleFacts(t: Tree)
    requires WellFormed(t)
    ensures Distinct(VisibleIds(t)) && |VisibleIds(t)| == |Text(t)|
    ensures forall x :: x in VisibleIds(t) <==> Alive(t.items, x)
    ensures forall i, j :: 0 <= i < j < |VisibleIds(t)| ==> Before(t.items, VisibleIds(t)[i], VisibleIds(t)[j])
    ensures forall i :: 0 <= i < |Text(t)| ==>
      VisibleIds(t)[i] in t.items && t.items[VisibleIds(t)[i]].ch == [Text(t)[i]]
  {
    OrderListsItems(t);
    VisibleIsDistinct(t.items, Order(t));
    TextSpellsVisible(t.items, Order(t));
    VisibleIdsAre(t, VisibleIds(t));
    forall i, j | 0 <= i < j < |VisibleIds(t)| ensures Before(t.items, VisibleIds(t)[i], VisibleIds(t)[j]) {
      assert BeforeIn(t.items)(VisibleIds(t)[i], VisibleIds(t)[j]);
    }
  }

  /** Replacing visible positions lo..hi by a typed run anchored at lo leaves the visible ids spliced. */
  lemma SpliceVisible(t: Tree, u: Tree, lo: nat, hi: nat, ins: seq<Op>)
    requires WellFormed(t) && lo <= hi <= |VisibleIds(t)|
    requires Grown(t, u, VisibleIds(t)[lo..hi], ins) && IsTyped(ins, Anchor(VisibleIds(t), lo))
    ensures VisibleIds(u) == VisibleIds(t)[..lo] + InsIds(ins) + VisibleIds(t)[hi..]
  {
    var v, less := VisibleIds(t), BeforeIn(u.items);
    var a, b, c := v[..lo], InsIds(ins), v[hi..];
    VisibleFacts(t);
    forall i, j | 0 <= i < j < |v| ensures less(v[i], v[j]) {
      GrownKeepsOrder(t, u, v[lo..hi], ins, v[i], v[j]);
    }
    forall i, j | 0 <= i < j < |b| ensures less(b[i], b[j]) {
      TypedInOrder(t, u, v[lo..hi], ins, Anchor(v, lo), i, j);
    }
    forall i, j | 0 <= i < lo && 0 <= j < |b| ensures less(v[i], b[j]) { TypedAgainstVisible(t, u, lo, hi, ins, i, j); }
    forall i, j | hi <= i < |v| && 0 <= j < |b|
      ensures less(b[j], v[i])
    {
      TypedAgainstVisible(t, u, lo, hi, ins, i, j);
    }
    SplicedSorted(less, v, lo, hi, b);
    forall x ensures x in a + b + c <==> Alive(u.items, x) {
      GrownAlive(t, u, v[lo..hi], ins, x);
      SplitMembers(v, lo, hi, x);
    }
    VisibleIdsAre(u, a + b + c);
  }

  lemma TypedAgainstVisible(t: Tree, u: Tree, lo: nat, hi: nat, ins: seq<Op>, i: nat, j: nat)
    requires WellFormed(t) && lo <= hi <= |VisibleIds(t)|
    requires Grown(t, u, VisibleIds(t)[lo..hi], ins) && IsTyped(ins, Anchor(VisibleIds(t), lo))
    requires i < |VisibleIds(t)| && !(lo <= i < hi) && j < |ins|
    ensures if i < lo then Before(u.items, VisibleIds(t)[i], ins[j].id)
      else Before(u.items, ins[j].id, VisibleIds(t)[i])
  {
    hide Grown, IsTyped, VisibleIds;
    var v := VisibleIds(t);
    VisibleFacts(t);
    assert v[i] in v;
    TypedAgainstOld(t, u, v[lo..hi], ins, Anchor(v, lo), j, v[i]);
    GrownStep(t, u, v[lo..hi], ins, j, v[i]);
    if lo > 0 {
      assert v[lo - 1] in v;
      if i != lo - 1 {
        GrownKeepsOrder(t, u, v[lo..hi], ins, v[lo - 1], v[i]);
      }
      BeforeIsAsymmetric(t.items, v[i], v[lo - 1]);
      BeforeIsAsymmetric(u.items, v[i], v[lo - 1]);
    }
  }

  lemma SplitMembers(v: seq<Id>, lo: nat, hi: nat, x: Id)
    requires Distinct(v) && lo <= hi <= |v|
    ensures x in v && x !in v[lo..hi] <==> x in v[..lo] || x in v[hi..]
  {
    if x in v {
      var i :| 0 <= i < |v| && v[i] == x;
      assert i < lo ==> v[..lo][i] == x;
      assert lo <= i < hi ==> v[lo..hi][i - lo] == x;
      assert i >= hi ==> v[hi..][i - hi] == x;
    }
  }

  lemma TypeRunIsClocked(items: map<Id, Item>, site: string, c: int, after: Id, chars: string)
    requires after == Root || after in items
    ensures Clocked(items, TypeRun(site, c, after, chars), site, c)
    ensures IsTyped(TypeRun(site, c, after, chars), after)
    ensures InsIds(TypeRun(site, c, after, chars)) == NewIds(site, c, |chars|)
  {
    var ins := TypeRun(site, c, after, chars);
    forall i | 0 < i < |ins| ensures Earlier(items, ins, i, ins[i].after) {
      assert ins[i - 1].id == ins[i].after;
    }
  }

  lemma AnchorIsKnown(t: Tree, lo: nat)
    requires WellFormed(t) && lo <= |VisibleIds(t)|
    ensures Anchor(VisibleIds(t), lo) == Root || Anchor(VisibleIds(t), lo) in t.items
  {
    VisibleFacts(t);
    assert lo > 0 ==> VisibleIds(t)[lo - 1] in VisibleIds(t);
  }

  /** Deleting visible positions lo..hi and typing `chars` there. */
  function SpliceOps(ids: seq<Id>, lo: nat, hi: nat, chars: string, site: string, c: int): seq<Op>
    requires lo <= hi <= |ids|
  {
    Deletions(ids[lo..hi]) + TypeRun(site, c, Anchor(ids, lo), chars)
  }

  lemma SpliceGrows(t: Tree, lo: nat, hi: nat, chars: string, site: string, c: int)
    requires WellFormed(t) && ValidSite(site) && ClocksUpTo(t.items, c) && lo <= hi <= |VisibleIds(t)|
    ensures var ids := VisibleIds(t);
      var run := JsRun(t, SpliceOps(ids, lo, hi, chars, site, c));
      run.error.None? && Grown(t, run.tree, ids[lo..hi], TypeRun(site, c, Anchor(ids, lo), chars)) &&
      VisibleIds(run.tree) == ids[..lo] + NewIds(site, c, |chars|) + ids[hi..] &&
      ClocksUpTo(run.tree.items, c + |chars|)
  {
    var ids := VisibleIds(t);
    var dead, after := ids[lo..hi], Anchor(ids, lo);
    var ins := TypeRun(site, c, after, chars);
    VisibleFacts(t);
    forall k | k in dead ensures k in t.items { assert k in ids; }
    KillRun(t, dead);
    var mid := JsRun(t, Deletions(dead)).tree;
    AnchorIsKnown(t, lo);
    TypeRunIsClocked(mid.items, site, c, after, chars);
    ClockedIsNewest(mid, ins, site, c);
    EditRun(t, dead, ins);
    var u := JsRun(t, SpliceOps(ids, lo, hi, chars, site, c)).tree;
    SpliceVisible(t, u, lo, hi, ins);
    forall k | k in u.items && k.Atom? ensures k.clock <= c + |chars| {
      if k !in t.items {
        var i :| 0 <= i < |ins| && InsIds(ins)[i] == k;
      }
    }
  }

  /** A diff is a splice of the replaced span. */
  lemma DiffIsSplice(a: string, ids: seq<Id>, b: string, site: string, clock: int)
    requires |ids| == |a|
    ensures var s := EditSpan(a, b);
      InRange(a, b, s) && b == a[..s.lo] + b[s.lo..s.roNew] + a[s.roOld..] &&
      DiffToOps(a, ids, b, site, clock) ==
        Diff(SpliceOps(ids, s.lo, s.roOld, b[s.lo..s.roNew], site, clock),
             ids[..s.lo] + NewIds(site, clock, s.roNew - s.lo) + ids[s.roOld..], clock + s.roNew - s.lo)
    ensures DiffToOps(a, ids, b, site, clock).ops == [] <==> a == b
  {
    var s := EditSpan(a, b);
    SpanIsTight(a, b);
    assert b == b[..s.lo] + b[s.lo..s.roNew] + b[s.roNew..];
    var ops := DiffToOps(a, ids, b, site, clock).ops;
    assert |ops| == (s.roOld - s.lo) + (s.roNew - s.lo);
  }

  /**
   Diff correctness: on a document with any forks and tombstones, applying the
   operations for a new text yields exactly that text, under exactly the announced ids.
   */
  lemma DiffReachesNewText(t: Tree, newText: string, site: string, clock: int)
    requires WellFormed(t) && ValidSite(site) && ClocksUpTo(t.items, clock)
    ensures |VisibleIds(t)| == |Text(t)|
    ensures var d := DiffToOps(Text(t), VisibleIds(t), newText, site, clock);
      var run := JsRun(t, d.ops);
      run.error.None? && WellFormed(run.tree) &&
      Text(run.tree) == newText && VisibleIds(run.tree) == d.nextIds && ClocksUpTo(run.tree.items, d.clock)
  {
    VisibleFacts(t);
    DiffReaches(t, Text(t), VisibleIds(t), newText, site, clock);
  }

  lemma DiffReaches(t: Tree, a: string, ids: seq<Id>, b: string, site: string, clock: int)
    requires WellFormed(t) && ValidSite(site) && ClocksUpTo(t.items, clock)
    requires a == Text(t) && ids == VisibleIds(t) && |a| == |ids|
    ensures var d := DiffToOps(a, ids, b, site, clock);
      var run := JsRun(t, d.ops);
      run.error.None? && WellFormed(run.tree) &&
      Text(run.tree) == b && VisibleIds(run.tree) == d.nextIds && ClocksUpTo(run.tree.items, d.clock)
  {
    DiffIsSplice(a, ids, b, site, clock);
    var s := EditSpan(a, b);
    SpliceReachesText(t, s.lo, s.roOld, b[s.lo..s.roNew], site, clock);

  }

  lemma SpliceReachesText(t: Tree, lo: nat, hi: nat, chars: string, site: string, c: int)
    requires WellFormed(t) && ValidSite(site) && ClocksUpTo(t.items, c)
    requires lo <= hi <= |VisibleIds(t)| == |Text(t)|
    ensures var ids := VisibleIds(t);
      var run := JsRun(t, SpliceOps(ids, lo, hi, chars, site, c));
      run.error.None? && WellFormed(run.tree) && ClocksUpTo(run.tree.items, c + |chars|) &&
      VisibleIds(run.tree) == ids[..lo] + NewIds(site, c, |chars|) + ids[hi..] &&
      Text(run.tree) == Text(t)[..lo] + chars + Text(t)[hi..]
  {
    SpliceGrows(t, lo, hi, chars, site, c);
    SpliceText(t, JsRun(t, SpliceOps(VisibleIds(t), lo, hi, chars, site, c)).tree, lo, hi, chars, site, c);
  }

  /** Ids that carry the letters of `text`, in order. */
  ghost predicate Carry(items: map<Id, Item>, ids: seq<Id>, text: string) {
    |ids| == |text| && forall i :: 0 <= i < |ids| ==> ids[i] in items && items[ids[i]].ch == [text[i]]
  }

  lemma TextIsWhatIsCarried(t: Tree, text: string)
    requires WellFormed(t)
    ensures Carry(t.items, VisibleIds(t), text) <==> text == Text(t)
  {
    VisibleFacts(t);
    if Carry(t.items, VisibleIds(t), text) {
      forall i | 0 <= i < |text| ensures text[i] == Text(t)[i] {
        assert t.items[VisibleIds(t)[i]].ch == [text[i]] == [Text(t)[i]];
      }
    }
  }

  lemma CarryStays(t: Tree, u: Tree, dead: seq<Id>, ins: seq<Op>, ids: seq<Id>, text: string)
    requires Grown(t, u, dead, ins) && Carry(t.items, ids, text)
    ensures Carry(u.items, ids, text)
  {
    forall i | 0 <= i < |ids| ensures ids[i] in u.items && u.items[ids[i]].ch == [text[i]] {
      assert ids[i] in t.items;
    }
  }

  lemma InsertedCarry(t: Tree, u: Tree, dead: seq<Id>, ins: seq<Op>, text: string)
    requires Grown(t, u, dead, ins) && |ins| == |text|
    requires forall i :: 0 <= i < |ins| ==> ins[i].Ins? && ins[i].ch == [text[i]]
    ensures Carry(u.items, InsIds(ins), text)
  {
    forall i | 0 <= i < |ins| ensures ins[i].id in u.items && u.items[ins[i].id].ch == [text[i]] {
      assert GrownAt(t.items, u.items, dead, ins, i);
    }
  }

  /** The text after a splice: each id shows the letter it carries. */
  lemma SpliceText(t: Tree, u: Tree, lo: nat, hi: nat, chars: string, site: string, c: int)
    requires WellFormed(t) && lo <= hi <= |VisibleIds(t)| == |Text(t)|
    requires Grown(t, u, VisibleIds(t)[lo..hi], TypeRun(site, c, Anchor(VisibleIds(t), lo), chars))
    requires VisibleIds(u) == VisibleIds(t)[..lo] + NewIds(site, c, |chars|) + VisibleIds(t)[hi..]
    ensures Text(u) == Text(t)[..lo] + chars + Text(t)[hi..]
  {
    var ids, text := VisibleIds(t), Text(t);
    var ins := TypeRun(site, c, Anchor(ids, lo), chars);
    TextIsWhatIsCarried(t, text);
    CarryStays(t, u, ids[lo..hi], ins, ids, text);
    InsertedCarry(t, u, ids[lo..hi], ins, chars);
    assert InsIds(ins) == NewIds(site, c, |chars|);
    CarrySplice(u.items, ids, text, lo, hi, NewIds(site, c, |chars|), chars);
    TextIsWhatIsCarried(u, text[..lo] + chars + text[hi..]);
  }

  lemma CarrySplice(items: map<Id, Item>, ids: seq<Id>, text: string, lo: nat, hi: nat, mid: seq<Id>, chars: string)
    requires Carry(items, ids, text) && Carry(items, mid, chars) && lo <= hi <= |ids|
    ensures Carry(items, ids[..lo] + mid + ids[hi..], text[..lo] + chars + text[hi..])
  {
  }
}
