/**
 Where undo or redo shows another text: a character typed and erased, within one entry
 or by two; a character typed by somebody else behind the parent of a deleted one; and
 a burst typed into a text of its own.
 */
module UndoLimits {
  import opened Sequences
  import opened Ids
  import opened Rga
  import opened Ops
  import opened Views
  import opened Growth
  import opened Edits
  import opened Undo
  import opened Entries
  import opened Bursts
  import opened PureTyping
  import opened Stacks
  import opened Chains

  // ----- typed and taken back ---------------------------------------------------------------

  lemma {:induction false} CommonPrefixSwaps(a: string, b: string)
    ensures CommonPrefix(b, a) == CommonPrefix(a, b)
  {
    if a != "" && b != "" { CommonPrefixSwaps(a[1..], b[1..]); }
  }

  lemma {:induction false} TrimEndSwaps(a: string, b: string, s: Span)
    requires s.lo <= s.roOld <= |a| && s.lo <= s.roNew <= |b|
    ensures var r := TrimEnd(a, b, s); TrimEnd(b, a, Span(s.lo, s.roNew, s.roOld)) == Span(r.lo, r.roNew, r.roOld)
    decreases s.roOld
  {
    if s.roOld > s.lo && s.roNew > s.lo { TrimEndSwaps(a, b, Span(s.lo, s.roOld - 1, s.roNew - 1)); }
  }

  /** The way back replaces the same span. */
  lemma EditSpanSwaps(a: string, b: string)
    ensures var s := EditSpan(a, b); EditSpan(b, a) == Span(s.lo, s.roNew, s.roOld)
  {
    CommonPrefixSwaps(a, b);
    TrimEndSwaps(a, b, Span(CommonPrefix(a, b), |a|, |b|));
  }

  /** What a fresh burst shows and holds after its first text. */
  lemma FirstShows(t: Tree, newText: string, site: string, clock: int)
    requires WellFormed(t) && ValidSite(site) && ClocksUpTo(t.items, clock)
    ensures var b, s := Typing(t, [newText], site, clock), EditSpan(Text(t), newText);
      var v := VisibleIds(t);
      && InRange(Text(t), newText, s) && |Text(t)| == |v|
      && Shows(b, newText, v[..s.lo] + NewIds(site, clock, s.roNew - s.lo) + v[s.roOld..])
      && Deleted(b.ops) == v[s.lo..s.roOld]
      && Inserted(b.ops) == TypeRun(site, clock, Anchor(v, s.lo), newText[s.lo..s.roNew])
  {
    hide EditSpan, Deleted, Inserted, Text, VisibleIds, Typing, Adopted, TypeRun, Linked, Rooted, ClocksUpTo, NewIds;
    BurstStarts(t, site, clock);
    MoreTyping(t, [], newText, site, clock);
    assert [] + [newText] == [newText];
    NothingYet(site, clock, 0);
    AdoptedShows(Burst(t, [], clock), newText, site, Text(t), VisibleIds(t));
  }

  /** Typing a new text and going back to the old one deletes everything that was typed. */
  lemma TypedBack(t: Tree, newText: string, site: string, clock: int)
    requires WellFormed(t) && ValidSite(site) && ClocksUpTo(t.items, clock)
    ensures var b, s := Typing(t, [newText, Text(t)], site, clock), EditSpan(Text(t), newText);
      && InRange(Text(t), newText, s) && |Text(t)| == |VisibleIds(t)|
      && Deleted(b.ops) == VisibleIds(t)[s.lo..s.roOld] + NewIds(site, clock, s.roNew - s.lo)
      && NewIds(site, clock, s.roNew - s.lo) <= InsertedIds(b.ops) && Text(b.tree) == Text(t)
  {
    hide EditSpan, Deleted, Inserted, Text, VisibleIds, Typing, Adopted, TypeRun, Linked, Rooted, ClocksUpTo, NewIds,
      Shows, InsIds;
    var a, v := Text(t), VisibleIds(t);
    var b1, s := Typing(t, [newText], site, clock), EditSpan(a, newText);
    FirstShows(t, newText, site, clock);
    MoreTyping(t, [newText], a, site, clock);
    assert [newText] + [a] == [newText, a];
    NothingYet(site, clock, s.roNew - s.lo);
    BackShows(b1, newText, site, a, v, NewIds(site, clock, s.roNew - s.lo));
    var b := Typing(t, [newText, a], site, clock);
    TypedFirst(site, clock, Anchor(v, s.lo), newText[s.lo..s.roNew], Inserted(b.ops));
  }

  lemma NothingYet(site: string, clock: int, n: nat)
    ensures Deleted([]) == [] && Inserted([]) == [] && |NewIds(site, clock, n)| == n
  {
  }

  /** Going back to `a` from what was adopted over it. */
  lemma BackShows(b: Burst, newText: string, site: string, a: string, v: seq<Id>, ids: seq<Id>)
    requires ValidSite(site) && InRange(a, newText, EditSpan(a, newText)) && |v| == |a|
    requires var s := EditSpan(a, newText);
      |ids| == s.roNew - s.lo && Shows(b, newText, v[..s.lo] + ids + v[s.roOld..])
    ensures var s, b' := EditSpan(a, newText), Adopted(b, a, site);
      Deleted(b'.ops) == Deleted(b.ops) + ids && Inserted(b.ops) <= Inserted(b'.ops) && Text(b'.tree) == a
  {
    hide EditSpan, Deleted, Inserted, Text, VisibleIds, Adopted, TypeRun, Linked, Rooted, ClocksUpTo, NewIds;
    var s := EditSpan(a, newText);
    var v1 := v[..s.lo] + ids + v[s.roOld..];
    AdoptedShows(b, a, site, newText, v1);
    EditSpanSwaps(a, newText);
    assert v1[s.lo..s.roNew] == ids;
  }

  lemma TypedFirst(site: string, clock: int, after: Id, chars: string, ins: seq<Op>)
    requires TypeRun(site, clock, after, chars) <= ins
    ensures NewIds(site, clock, |chars|) <= InsIds(ins)
  {
  }

  /**
   Text typed and erased again within one entry comes back on undo, and once more on
   redo: on any document, each shows as many characters too many as had been typed.
   */
  lemma TypedAndErased(t: Tree, newText: string, site: string, clock: int)
    requires WellFormed(t) && ValidSite(site) && ClocksUpTo(t.items, clock)
    ensures var texts, s := [newText, Text(t)], EditSpan(Text(t), newText);
      && s.lo <= s.roNew && Text(Typing(t, texts, site, clock).tree) == Text(t)
      && |Text(UndoneBurst(t, texts, site, clock))| == |Text(t)| + (s.roNew - s.lo)
      && |Text(RedoneBurst(t, texts, site, clock))| == |Text(t)| + (s.roNew - s.lo)
  {
    hide Text, VisibleIds, Typing, EditSpan, UndoneBurst, RedoneBurst, Told, Revivable, AllInPlace, Deleted, Inserted,
      InsertedIds;
    var texts, s := [newText, Text(t)], EditSpan(Text(t), newText);
    var b := Typing(t, texts, site, clock);
    TypedBack(t, newText, site, clock);
    TypingIsTold(t, texts, site, clock);
    BurstUndoesExactlyWhen(t, texts, site, clock);
    BurstRedoesExactlyWhen(t, texts, site, clock);
    TakenBackIs(t, b.tree, b.ops, VisibleIds(t)[s.lo..s.roOld], NewIds(site, clock, s.roNew - s.lo));
  }

  lemma TakenBackIs(t: Tree, u: Tree, ops: seq<Op>, gone: seq<Id>, typed: seq<Id>)
    requires Told(t, u, ops) && Deleted(ops) == gone + typed && typed <= InsertedIds(ops)
    requires forall x :: x in gone ==> x in VisibleIds(t)
    ensures |TakenBack(ops)| == |typed|
  {
    hide Grown;
    ToldIsInvertible(t, u, ops);
    VisibleFacts(t);
    assert TakenBack(ops) == Elements(typed);
    DistinctCardinality(typed);
  }

  // ----- a character erased by the next entry --------------------------------------------------------------

  lemma ErasedSpans(s: string, x: char)
    ensures EditSpan("", s + [x]) == Span(0, 0, |s| + 1) && EditSpan(s + [x], s) == Span(|s|, |s| + 1, |s|)
  {
    SharedPrefix(s, x);
    assert CommonPrefix("", s + [x]) == 0;
    assert TrimEnd("", s + [x], Span(0, 0, |s| + 1)) == Span(0, 0, |s| + 1);
    assert TrimEnd(s + [x], s, Span(|s|, |s| + 1, |s|)) == Span(|s|, |s| + 1, |s|);
  }

  lemma {:induction false} SharedPrefix(s: string, x: char)
    ensures CommonPrefix(s + [x], s) == |s|
  {
    if s != "" {
      assert (s + [x])[1..] == s[1..] + [x];
      SharedPrefix(s[1..], x);
    }
  }

  lemma ErasedBurst(site: string, s: string, x: char)
    requires ValidSite(site)
    ensures WellFormed(EMPTY)
    ensures var b, n := Typing(EMPTY, [s + [x], s], site, 0), |s|;
      && Deleted(b.ops) == [Atom(site, n + 1)] && |Inserted(b.ops)| == n + 1
      && Inserted(b.ops)[n].Ins? && Inserted(b.ops)[n].id == Atom(site, n + 1) && Inserted(b.ops)[n].ch == [x]
  {
    hide EditSpan, Deleted, Inserted, Text, VisibleIds, Typing, Adopted;
    var n := |s|;
    EmptyIsWellFormed();
    BurstStarts(EMPTY, site, 0);
    NothingShown();
    MoreTyping(EMPTY, [], s + [x], site, 0);
    MoreTyping(EMPTY, [s + [x]], s, site, 0);
    assert [] + [s + [x]] == [s + [x]] && [s + [x]] + [s] == [s + [x], s];
    ErasedSpans(s, x);
    var b0, b1 := Burst(EMPTY, [], 0), Typing(EMPTY, [s + [x]], site, 0);
    AdoptedShows(b0, s + [x], site, "", []);
    var none: seq<Id> := [];
    var v := NewIds(site, 0, n + 1);
    assert none[..0] + v + none[0..] == v;
    AdoptedShows(b1, s, site, s + [x], v);
    assert v[n..n + 1] == [Atom(site, n + 1)] && s[n..n] == "";
    assert TypeRun(site, b1.clock, Anchor(v, n), "") == [];
    assert (s + [x])[0..n + 1] == s + [x];
  }

  lemma JoinTwo(a: seq<string>, b: seq<string>)
    ensures Join([a, b]) == a + b
  {
    assert [a, b][..1] == [a] && [a][..0] == [];
    assert Join([a]) == [] + a;
  }

  lemma TypedLetter(t: Tree, u: Tree, ops: seq<Op>, m: nat)
    requires Told(t, u, ops) && m < |Inserted(ops)|
    ensures var op := Inserted(ops)[m]; op.Ins? && op.id in u.items && u.items[op.id].ch == op.ch
  {
    assert GrownAt(t.items, u.items, Deleted(ops), Inserted(ops), m);
  }

  /** Where everything visible is deleted and one item revived, only its letter is shown. */
  lemma OneRevival(u: Tree, w: Tree, dead: seq<Id>, d: Id, site: string, c: int, x: char)
    requires Revived(u, w, dead, [d], site, c) && u.items[d].ch == [x]
    requires forall k :: Alive(u.items, k) ==> k in dead
    ensures WellFormed(w) && Text(w) == [x]
  {
    hide GrownAt, WellFormed;
    var r, copy := Revive(u.items, [d], site, c), Atom(site, c + 1);
    RevivedIsWellFormed(u, w, dead, [d], site, c);
    forall k ensures k in [copy] <==> Alive(w.items, k) {
      GrownAlive(u, w, dead, r, k);
      ReviveIds(u.items, [d], site, c);
      OneNewId(site, c);
    }
    VisibleIdsAre(w, [copy]);
    RevivedLetter(u, w, dead, d, site, c, x);
    TextIsWhatIsCarried(w, [x]);
  }

  lemma RevivedLetter(u: Tree, w: Tree, dead: seq<Id>, d: Id, site: string, c: int, x: char)
    requires Revived(u, w, dead, [d], site, c) && u.items[d].ch == [x]
    ensures Atom(site, c + 1) in w.items && w.items[Atom(site, c + 1)].ch == [x]
  {
    assert GrownAt(u.items, w.items, dead, Revive(u.items, [d], site, c), 0);
  }

  lemma LeftOver(site: string, s: string, x: char)
    requires ValidSite(site) && WellFormed(EMPTY)
    ensures Text(UndoneBurst(EMPTY, [s + [x], s], site, 0)) == [x]
  {
    hide Grown, Typing, Undone, Deleted, Inserted, Text, VisibleIds, Revived;
    var texts := [s + [x], s];
    var b := Typing(EMPTY, texts, site, 0);
    var d, dead := Atom(site, |s| + 1), Reverse(InsertedIds(b.ops));
    ErasedBurst(site, s, x);
    TypingIsTold(EMPTY, texts, site, 0);
    ToldIsInvertible(EMPTY, b.tree, b.ops);
    UndoneIsRevived(EMPTY, b.tree, b.ops, site, b.clock);
    assert Reverse([d]) == [d];
    TypedLetter(EMPTY, b.tree, b.ops, |s|);
    forall k | Alive(b.tree.items, k) ensures k in dead {
      ToldAlive(EMPTY, b.tree, b.ops, k);
      ReverseMembers(InsertedIds(b.ops), k);
    }
    OneRevival(b.tree, UndoneBurst(EMPTY, texts, site, 0), dead, d, site, b.clock, x);
  }

  lemma JustTyped(site: string, text: string)
    requires ValidSite(site) && WellFormed(EMPTY)
    ensures Text(UndoneBurst(EMPTY, [text], site, 0)) == ""
  {
    hide UndoneBurst, Typing, Revivable;
    NothingShown();
    assert [text][..0] == [];
    assert TypedAt("", text, 0);
    assert OnlyTypes("", []) && TypesInto("", text);
    PureTypingUndoes(EMPTY, [text], site, 0);
  }

  /**
   A text is typed, its last character erased as an entry of its own, and both entries
   are undone: the erased character is left, although undoing the first entry by itself
   is exact. Redoing both leaves one character too many as well.
   */
  lemma ErasedCharacterReturns(site: string, s: string, x: char)
    requires ValidSite(site)
    ensures WellFormed(EMPTY)
    ensures var r := Sessions(EMPTY, [[s + [x]], [s]], site, 0);
      |r.batches| == 2 && Text(r.tree) == s &&
      Text(UndoneAll(r.tree, r.batches, site, r.clock).tree) == [x] &&
      |Text(RedoneAll(r.tree, r.batches, site, r.clock).tree)| == |s| + 1
    ensures Text(UndoneBurst(EMPTY, [s + [x]], site, 0)) == ""
  {
    hide Told, Typing, UndoneAll, RedoneAll, UndoneBurst, RedoneBurst, Text, VisibleIds, Deleted, Inserted, Sessions,
      Revivable, AllInPlace;
    EmptyIsWellFormed();
    NothingShown();
    var sessions, texts := [[s + [x]], [s]], [s + [x], s];
    JoinTwo([s + [x]], [s]);
    assert Join(sessions) == [s + [x]] + [s] == texts;
    SessionsAreOneBurst(EMPTY, sessions, site, 0);
    SessionsUndoAndRedo(EMPTY, sessions, site, 0);
    TypingIsTold(EMPTY, texts, site, 0);
    BurstUndoesExactlyWhen(EMPTY, texts, site, 0);
    BurstRedoesExactlyWhen(EMPTY, texts, site, 0);
    LeftOver(site, s, x);
    JustTyped(site, s + [x]);
  }

  // ----- interrupted by another author ---------------------------------------------------------

  /** The document of `text` with `x` typed by `other` behind the first character. */
  ghost function Interrupted(site: string, text: string, other: string, x: char): Tree
    requires ValidSite(site)
  {
    ChainShape(site, text);
    var at := if text == "" then 0 else 1;
    JsRun(Chain(site, text), SpliceOps(Links(site, |text|), at, at, [x], other, |text|)).tree
  }

  lemma InterruptedShows(site: string, text: string, other: string, x: char)
    requires ValidSite(site) && ValidSite(other) && |text| >= 2
    ensures var t := Interrupted(site, text, other, x);
      WellFormed(t) && ClocksUpTo(t.items, |text| + 1) && Text(t) == text[..1] + [x] + text[1..] &&
      VisibleIds(t) == Links(site, |text|)[..1] + [Atom(other, |text| + 1)] + Links(site, |text|)[1..] &&
      Atom(site, 2) in t.items && t.items[Atom(site, 2)].after == Atom(site, 1)
  {
    hide WellFormed, Order, TextOf, VisibleOf, JsRun, Chain;
    var t0, n := Chain(site, text), |text|;
    ChainText(site, text);
    ChainShape(site, text);
    forall k | k in t0.items && k.Atom? ensures k.clock <= n { assert k in LinkSet(site, n); }
    SpliceReachesText(t0, 1, 1, [x], other, n);
    SpliceGrows(t0, 1, 1, [x], other, n);
    assert NewIds(other, n, 1) == [Atom(other, n + 1)];
    assert HoldsChainItem(t0.items, site, text, 2);
  }

  /** The entry that deletes the third visible character. */
  ghost function Third(t: Tree, site: string): seq<Op>
    requires WellFormed(t) && |VisibleIds(t)| >= 3
  {
    SpliceOps(VisibleIds(t), 2, 3, "", site, 0)
  }

  lemma ThirdIsTold(t: Tree, site: string, clock: int)
    requires WellFormed(t) && |VisibleIds(t)| >= 3 && ValidSite(site) && ClocksUpTo(t.items, clock)
    ensures var ops, u := Third(t, site), JsRun(t, Third(t, site)).tree;
      && Told(t, u, ops) && ClocksUpTo(u.items, clock) && Deleted(ops) == [VisibleIds(t)[2]] && Inserted(ops) == []
  {
    hide Told, JsRun, Deleted, Inserted;
    var v := VisibleIds(t);
    NothingIsTold(t);
    assert TypeRun(site, clock, v[1], "") == TypeRun(site, 0, v[1], "") == [];
    assert SpliceOps(v, 2, 3, "", site, clock) == Third(t, site) == [] + Third(t, site);
    SpliceIsTold(t, t, [], 2, 3, "", site, clock);
    SpliceGrows(t, 2, 3, "", site, clock);
    SplitSplice(v, 2, 3, "", site, clock);
  }

  /**
   Deleting the second character of `text` there and undoing that puts it in front of
   `x`: the copy lands immediately behind the old parent.
   */
  lemma UndoMisplaces(site: string, text: string, other: string, x: char)
    requires ValidSite(site) && ValidSite(other) && |text| >= 2
    ensures var t, c := Interrupted(site, text, other, x), |text| + 1;
      WellFormed(t) && |VisibleIds(t)| >= 3 && Text(t) == text[..1] + [x] + text[1..] &&
      var u := JsRun(t, Third(t, site)).tree;
      Told(t, u, Third(t, site)) && Text(Undone(u, Third(t, site), site, c)) == text[..2] + [x] + text[2..]
    ensures x != text[1] ==> text[..2] + [x] + text[2..] != text[..1] + [x] + text[1..]
  {
    hide JsRun, Told, Undone, Third, Interrupted;
    var t, c := Interrupted(site, text, other, x), |text| + 1;
    InterruptedShows(site, text, other, x);
    ThirdIsTold(t, site, c);
    var v := VisibleIds(t);
    assert v[0] == Atom(site, 1) && v[2] == Links(site, |text|)[1..][0] == Atom(site, 2);
    Lands(t, site, c, Text(t));
    Swapped(text, x);
  }

  lemma Swapped(text: string, x: char)
    requires |text| >= 2
    ensures var was := text[..1] + [x] + text[1..];
      [was[0], was[2], was[1]] + was[3..] == text[..2] + [x] + text[2..] &&
        (x != text[1] ==> text[..2] + [x] + text[2..] != was)
  {
    var was := text[..1] + [x] + text[1..];
    assert (text[..2] + [x] + text[2..])[1] == text[1] && was[1] == x;
  }

  /** The third visible item, hanging off the first, comes back second. */
  lemma Lands(t: Tree, site: string, c: int, text: string)
    requires WellFormed(t) && |VisibleIds(t)| >= 3 && ValidSite(site) && ClocksUpTo(t.items, c) && text == Text(t)
    requires ParentOf(t.items, VisibleIds(t)[2]) == VisibleIds(t)[0]
    ensures var ops := Third(t, site);
      |text| == |VisibleIds(t)| && WellFormed(JsRun(t, ops).tree) &&
      Text(Undone(JsRun(t, ops).tree, ops, site, c)) == [text[0], text[2], text[1]] + text[3..]
  {
    hide JsRun, Told, Undone, Third, Carry, Revived, ParentOf;
    var ops, v := Third(t, site), VisibleIds(t);
    var u, d := JsRun(t, ops).tree, v[2];
    ThirdRevived(t, site, c);
    var w := Undone(u, ops, site, c);
    VisibleFacts(t);
    assert d in v;
    LandedIds(t, u, w, site, c, v);
    CarryThird(t, u, w, site, c, text);
    LandedText(w, v, Copied(v, [d], site, c), text, Atom(site, c + 1));
  }

  lemma ThirdRevived(t: Tree, site: string, c: int)
    requires WellFormed(t) && |VisibleIds(t)| >= 3 && ValidSite(site) && ClocksUpTo(t.items, c)
    ensures var ops, u := Third(t, site), JsRun(t, Third(t, site)).tree;
      && WellFormed(u) && Grown(t, u, [VisibleIds(t)[2]], [])
      && Revived(u, Undone(u, ops, site, c), [], [VisibleIds(t)[2]], site, c)
  {
    hide GrownAt, JsRun, Third, Undone;
    var ops, u, d := Third(t, site), JsRun(t, Third(t, site)).tree, VisibleIds(t)[2];
    ThirdIsTold(t, site, c);
    UndoneIsRevived(t, u, ops, site, c);
    assert InsertedIds(ops) == [] && Reverse(InsertedIds(ops)) == [] && Reverse([d]) == [d];
  }

  lemma LandedIds(t: Tree, u: Tree, w: Tree, site: string, c: int, v: seq<Id>)
    requires WellFormed(t) && v == VisibleIds(t) && |v| >= 3 && ParentOf(t.items, v[2]) == v[0]
    requires Grown(t, u, [v[2]], []) && Revived(u, w, [], [v[2]], site, c)
    ensures WellFormed(w) && VisibleIds(w) == [v[0], Atom(site, c + 1), v[1]] + v[3..]
  {
    hide Revived, ParentOf, GrownAt;
    RevivedIsWellFormed(u, w, [], [v[2]], site, c);
    var ids, less := [v[0], Atom(site, c + 1), v[1]] + v[3..], BeforeIn(w.items);
    VisibleFacts(t);
    forall i, j | 0 <= i < j < |v| ensures less(v[i], v[j]) { StillInOrder(t, u, w, site, c, v, i, j); }
    forall i | 0 <= i < |v|
      ensures i == 0 ==> less(v[i], Atom(site, c + 1))
      ensures i > 0 ==> less(Atom(site, c + 1), v[i])
    {
      CopyLandsAgainst(t, u, w, site, c, v, i);
    }
    LandedSorted(less, v, Atom(site, c + 1));
    forall x ensures x in ids <==> Alive(w.items, x) { LandedMembers(t, u, w, site, c, v, x); }
    VisibleIdsAre(w, ids);
  }

  lemma StillInOrder(t: Tree, u: Tree, w: Tree, site: string, c: int, v: seq<Id>, i: nat, j: nat)
    requires WellFormed(t) && v == VisibleIds(t) && |v| >= 3 && i < j < |v|
    requires Grown(t, u, [v[2]], []) && Revived(u, w, [], [v[2]], site, c)
    ensures Before(w.items, v[i], v[j])
  {
    hide GrownAt;
    VisibleFacts(t);
    assert v[i] in v && v[j] in v;
    GrownKeepsOrder(t, u, [v[2]], [], v[i], v[j]);
    StayInOrder(u, w, [], [v[2]], site, c, v[i], v[j]);
  }

  lemma LandedSorted(less: (Id, Id) -> bool, v: seq<Id>, x: Id)
    requires |v| >= 3 && SortedBy(less, v) && less(v[0], x) && forall i :: 0 < i < |v| ==> less(x, v[i])
    ensures SortedBy(less, [v[0], x, v[1]] + v[3..])
  {
  }

  lemma CopyLandsAgainst(t: Tree, u: Tree, w: Tree, site: string, c: int, v: seq<Id>, i: nat)
    requires WellFormed(t) && v == VisibleIds(t) && |v| >= 3 && i < |v| && ParentOf(t.items, v[2]) == v[0]
    requires Grown(t, u, [v[2]], []) && Revived(u, w, [], [v[2]], site, c)
    ensures i == 0 ==> Before(w.items, v[i], Atom(site, c + 1))
    ensures i > 0 ==> Before(w.items, Atom(site, c + 1), v[i])
  {
    hide GrownAt, Revived;
    VisibleFacts(t);
    assert v[i] in v && v[0] in v && v[2] in v;
    SameParents(t, u, [v[2]], [], v[2], v[i]);
    BeforeIsAsymmetric(t.items, v[0], v[i]);
    CopyAgainstOld(u, w, [], [v[2]], site, c, 0, v[i]);
  }

  lemma LandedMembers(t: Tree, u: Tree, w: Tree, site: string, c: int, v: seq<Id>, x: Id)
    requires WellFormed(t) && v == VisibleIds(t) && |v| >= 3
    requires Grown(t, u, [v[2]], []) && Revived(u, w, [], [v[2]], site, c)
    ensures x in [v[0], Atom(site, c + 1), v[1]] + v[3..] <==> Alive(w.items, x)
  {
    hide GrownAt;
    hide Revive, NewIds, Distinct, Alive;
    VisibleFacts(t);
    GrownAlive(t, u, [v[2]], [], x);
    GrownAlive(u, w, [], Revive(u.items, [v[2]], site, c), x);
    ReviveIds(u.items, [v[2]], site, c);
    OneNewId(site, c);
    NoneInserted(x);
    ThirdIsElsewhere(v, x);
  }

  lemma OneNewId(site: string, c: int)
    ensures NewIds(site, c, 1) == [Atom(site, c + 1)]
  {
  }

  lemma NoneInserted(x: Id)
    ensures x !in InsIds([])
  {
  }

  lemma ThirdIsElsewhere(v: seq<Id>, x: Id)
    requires |v| >= 3 && Distinct(v)
    ensures x in v && x != v[2] <==> x in [v[0], v[1]] || x in v[3..]
  {
    if x in v {
      var i :| 0 <= i < |v| && v[i] == x;
      assert i >= 3 ==> v[3..][i - 3] == x;
    }
    if x in v[3..] {
      var i :| 0 <= i < |v| - 3 && v[3..][i] == x;
      assert v[i + 3] == x;
    }
  }

  lemma CarryThird(t: Tree, u: Tree, w: Tree, site: string, c: int, text: string)
    requires WellFormed(t) && |VisibleIds(t)| >= 3 && text == Text(t)
    requires Grown(t, u, [VisibleIds(t)[2]], []) && Revived(u, w, [], [VisibleIds(t)[2]], site, c)
    ensures Carry(w.items, Copied(VisibleIds(t), [VisibleIds(t)[2]], site, c), text)
  {
    hide GrownAt, Revived;
    var v := VisibleIds(t);
    TextIsWhatIsCarried(t, text);
    CarryStays(t, u, [v[2]], [], v, text);
    CopiedCarries(u, w, [], [v[2]], v, site, c, text);
  }

  lemma LandedText(w: Tree, v: seq<Id>, copied: seq<Id>, text: string, copy: Id)
    requires WellFormed(w) && |v| >= 3 && VisibleIds(w) == [v[0], copy, v[1]] + v[3..] && Carry(w.items, copied, text)
    requires |copied| == |v| && forall i :: 0 <= i < |v| ==> copied[i] == if i == 2 then copy else v[i]
    ensures |text| == |v| && Text(w) == [text[0], text[2], text[1]] + text[3..]
  {
    var ids, want := VisibleIds(w), [text[0], text[2], text[1]] + text[3..];
    forall i | 0 <= i < |ids| ensures ids[i] in w.items && w.items[ids[i]].ch == [want[i]] {
      var j := if i == 1 then 2 else if i == 2 then 1 else i;
      assert copied[j] == ids[i];
    }
    TextIsWhatIsCarried(w, want);
  }

  // ----- typed into one's own text ------------------------------------------------------------------

  /** Typing `b`, then `a` in front of it, then `c` between the two. */
  lemma ThreeLetters(site: string, a: char, b: char, c: char)
    requires ValidSite(site) && a != b && b != c && a != c
    ensures WellFormed(EMPTY)
    ensures var burst := Typing(EMPTY, [[b], [a, b], [a, c, b]], site, 0);
      && Text(burst.tree) == [a, c, b] && Deleted(burst.ops) == []
      && VisibleIds(burst.tree) == [Atom(site, 2), Atom(site, 3), Atom(site, 1)]
      && Inserted(burst.ops) ==
        [Ins(Atom(site, 1), Root, [b]), Ins(Atom(site, 2), Root, [a]), Ins(Atom(site, 3), Atom(site, 2), [c])]
  {
    hide Deleted, Inserted, Text, VisibleIds, Adopted, TypeRun, NewIds, EditSpan;
    EmptyIsWellFormed();
    BurstStarts(EMPTY, site, 0);
    NothingShown();
    MoreTyping(EMPTY, [], [b], site, 0);
    MoreTyping(EMPTY, [[b]], [a, b], site, 0);
    MoreTyping(EMPTY, [[b], [a, b]], [a, c, b], site, 0);
    assert [] + [[b]] == [[b]] && [[b]] + [[a, b]] == [[b], [a, b]];
    assert [[b], [a, b]] + [[a, c, b]] == [[b], [a, b], [a, c, b]];
    ThreeSpans(a, b, c);
    OneTyped(site, 0, Root, b);
    OneTyped(site, 1, Root, a);
    OneTyped(site, 2, Atom(site, 2), c);
    var b0, b1, b2 := Burst(EMPTY, [], 0), Typing(EMPTY, [[b]], site, 0), Typing(EMPTY, [[b], [a, b]], site, 0);
    AdoptedShows(b0, [b], site, "", []);
    assert [][..0] + [Atom(site, 1)] + [][0..] == [Atom(site, 1)];
    AdoptedShows(b1, [a, b], site, [b], [Atom(site, 1)]);
    assert [Atom(site, 1)][..0] + [Atom(site, 2)] + [Atom(site, 1)][0..] == [Atom(site, 2), Atom(site, 1)];
    AdoptedShows(b2, [a, c, b], site, [a, b], [Atom(site, 2), Atom(site, 1)]);
    assert [Atom(site, 2), Atom(site, 1)][..1] + [Atom(site, 3)] + [Atom(site, 2), Atom(site, 1)][1..] ==
      [Atom(site, 2), Atom(site, 3), Atom(site, 1)];
    assert Anchor([Atom(site, 2), Atom(site, 1)], 1) == Atom(site, 2);
    assert [a, c, b][1..2] == [c] && [a, b][0..1] == [a] && [b][0..1] == [b];
  }

  lemma NothingShown()
    requires WellFormed(EMPTY)
    ensures Text(EMPTY) == "" && VisibleIds(EMPTY) == []
  {
    EmptyIsWellFormed();
  }

  lemma ThreeSpans(a: char, b: char, c: char)
    requires a != b && b != c && a != c
    ensures EditSpan("", [b]) == Span(0, 0, 1)
    ensures EditSpan([b], [a, b]) == Span(0, 0, 1)
    ensures EditSpan([a, b], [a, c, b]) == Span(1, 1, 2)
  {
    assert CommonPrefix([b], [a, b]) == 0;
    assert TrimEnd([b], [a, b], Span(0, 1, 2)) == TrimEnd([b], [a, b], Span(0, 0, 1));
    assert [a, b][1..] == [b] && [a, c, b][1..] == [c, b];
    assert CommonPrefix([b], [c, b]) == 0 && CommonPrefix([a, b], [a, c, b]) == 1;
    assert TrimEnd([a, b], [a, c, b], Span(1, 2, 3)) == TrimEnd([a, b], [a, c, b], Span(1, 1, 2));
  }

  lemma OneTyped(site: string, clock: int, after: Id, x: char)
    ensures TypeRun(site, clock, after, [x]) == [Ins(Atom(site, clock + 1), after, [x])]
    ensures NewIds(site, clock, 1) == [Atom(site, clock + 1)]
  {
  }

  /** Nothing was deleted, so undo is exact; yet redo shows another text. */
  lemma RedoMisplaces(site: string, a: char, b: char, c: char)
    requires ValidSite(site) && a != b && b != c && a != c
    ensures WellFormed(EMPTY)
    ensures var texts := [[b], [a, b], [a, c, b]];
      && Text(Typing(EMPTY, texts, site, 0).tree) == [a, c, b] && Text(UndoneBurst(EMPTY, texts, site, 0)) == ""
      && Text(RedoneBurst(EMPTY, texts, site, 0)) != [a, c, b]
  {
    hide Text, VisibleIds, Typing, UndoneBurst, RedoneBurst, Told, Revivable, AllInPlace, Deleted, Inserted;
    EmptyIsWellFormed();
    NothingShown();
    var texts := [[b], [a, b], [a, c, b]];
    var u := Typing(EMPTY, texts, site, 0);
    ThreeLetters(site, a, b, c);
    BurstClocks(EMPTY, texts, site, 0);
    TypingAlwaysUndoes(EMPTY, texts, site, 0);
    BurstRedoesExactlyWhen(EMPTY, texts, site, 0);
    OutOfPlace(EMPTY, u.tree, u.ops, site, a, b, c);
  }

  lemma OutOfPlace(t: Tree, u: Tree, ops: seq<Op>, site: string, a: char, b: char, c: char)
    requires Told(t, u, ops) && WellFormed(u)
    requires VisibleIds(u) == [Atom(site, 2), Atom(site, 3), Atom(site, 1)]
    requires Inserted(ops) ==
      [Ins(Atom(site, 1), Root, [b]), Ins(Atom(site, 2), Root, [a]), Ins(Atom(site, 3), Atom(site, 2), [c])]
    ensures !AllInPlace(u.items, InsertedIds(ops))
  {
    hide Told;
    VisibleFacts(u);
    TypedParent(t, u, ops, 0);
    TypedParent(t, u, ops, 2);
    assert Before(u.items, VisibleIds(u)[1], VisibleIds(u)[2]);
    assert !InPlace(u.items, InsertedIds(ops)[0], InsertedIds(ops)[2]);
  }
}
