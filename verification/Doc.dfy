/**
 The mutable document of internal/crdt/doc.go and internal/crdt/op.go: two maps
 updated in place. Every method is tied to the value functions of the modules
 before it; `State` is the value an object stands for.
 */
module Docs {
  import opened Sequences
  import opened Ids
  import opened Rga
  import opened RgaEdits
  import opened Ops
  import opened Views
  import opened Snapshots
  import opened Chains
  import opened Wire

  ghost predicate OnStack(t: Tree, stack: seq<Id>) {
    forall k :: k in stack ==> k in t.items && Connected(t.items, k)
  }

  /** What a DFS stack (top at the end) still has to visit. */
  ghost function Pending(t: Tree, stack: seq<Id>): seq<Id>
    requires Linked(t) && OnStack(t, stack)
  {
    if stack == [] then [] else
      var top := stack[|stack| - 1];
      [top] + Forest(t, PathTo(t.items, top), Kids(t, top)) + Pending(t, stack[..|stack| - 1])
  }

  lemma PushOne(t: Tree, prefix: seq<Id>, kids: seq<Id>, i: nat, stack: seq<Id>)
    requires Linked(t) && AreKids(t, prefix, kids) && 0 < i <= |kids|
    requires OnStack(t, stack)
    ensures kids[i - 1] in t.items && Connected(t.items, kids[i - 1])
    ensures Forest(t, prefix, kids[i - 1..]) + Pending(t, stack) ==
      [kids[i - 1]] + Forest(t, PathTo(t.items, kids[i - 1]), Kids(t, kids[i - 1])) +
      (Forest(t, prefix, kids[i..]) + Pending(t, stack))
  {
    var k := kids[i - 1];
    assert k in kids;
    PathExtends(t.items, prefix, k);
    PathToIs(t.items, prefix + [k]);
    assert kids[i - 1..][0] == k && kids[i - 1..][1..] == kids[i..];
  }

  lemma PopOne(t: Tree, stack: seq<Id>)
    requires Linked(t) && OnStack(t, stack) && stack != []
    ensures var top, rest := stack[|stack| - 1], stack[..|stack| - 1];
      OnStack(t, rest) && top in t.items && Connected(t.items, top) &&
      AreKids(t, PathTo(t.items, top), Kids(t, top)) &&
      Pending(t, stack) == [top] + (Forest(t, PathTo(t.items, top), Kids(t, top)) + Pending(t, rest))
  {
    assert stack[|stack| - 1] in stack;
  }

  lemma WalkStarts(t: Tree)
    requires Linked(t)
    ensures OnStack(t, []) && Pending(t, []) == [] && AreKids(t, [], Kids(t, Root))
    ensures Order(t) == Forest(t, [], Kids(t, Root))
  {
  }

  /** UTF-8 width of a code point. */
  function Utf8Width(c: char): nat {
    if c as int < 0x80 then 1 else if c as int < 0x800 then 2 else if c as int < 0x1_0000 then 3 else 4
  }

  function Utf8Length(s: string): nat {
    if s == "" then 0 else Utf8Width(s[0]) + Utf8Length(s[1..])
  }

  lemma {:induction false} Utf8LengthConcat(a: string, b: string)
    ensures Utf8Length(a + b) == Utf8Length(a) + Utf8Length(b)
  {
    if a == "" {
      assert a + b == b;
    } else {
      Utf8LengthConcat(a[1..], b);
      assert (a + b)[1..] == a[1..] + b;
    }
  }

  ghost predicate IsMaxClock(items: map<Id, Item>, max: int) {
    && 0 <= max
    && (forall k :: k in items && k.Atom? ==> k.clock <= max)
    && (max == 0 || exists k :: k in items && k.Atom? && k.clock == max)
  }

  lemma ScanStep(kids: seq<Id>, i: nat, id: Id)
    requires i < |kids| && CompareSibling(kids[i], id) < 0
    requires InsertSorted(kids, id) == kids[..i] + InsertSorted(kids[i..], id)
    ensures InsertSorted(kids, id) == kids[..i + 1] + InsertSorted(kids[i + 1..], id)
  {
    hide CompareSibling;
    assert kids[i..][0] == kids[i];
    assert kids[i..][1..] == kids[i + 1..];
    assert kids[..i + 1] == kids[..i] + [kids[i]];
  }

  lemma ScanStops(kids: seq<Id>, i: nat, id: Id)
    requires i <= |kids| && (i < |kids| ==> CompareSibling(kids[i], id) >= 0)
    requires InsertSorted(kids, id) == kids[..i] + InsertSorted(kids[i..], id)
    ensures InsertSorted(kids, id) == if i < |kids| && kids[i] == id then kids else kids[..i] + [id] + kids[i..]
  {
    hide CompareSibling;
    if i < |kids| && kids[i] == id {
      assert InsertSorted(kids[i..], id) == kids[i..];
      assert kids[..i] + kids[i..] == kids;
    } else {
      assert InsertSorted(kids[i..], id) == [id] + kids[i..] by { assert i < |kids| ==> kids[i..][0] == kids[i]; }
      hide InsertSorted;
      assert kids[..i] + ([id] + kids[i..]) == kids[..i] + [id] + kids[i..];
    }
  }

  class Doc {
    var items: map<Id, Item>
    var children: map<Id, seq<Id>>

    function State(): Tree
      reads this
    {
      Tree(items, children)
    }

    constructor ()
      ensures State() == EMPTY
    {
      items := map[];
      children := map[];
    }

    method Insert(id: Id, after: Id, ch: string) returns (changed: bool, error: Option<Error>)
      modifies this
      ensures Outcome(State(), changed, error) == Ops.Insert(old(State()), id, after, ch)
    {
      if id == Root { return false, Some(EmptyId); }
      if !ValidId(id) { return false, Some(InvalidId); }
      if !SingleCodePoint(ch) { return false, Some(NotOneCodePoint); }
      if id in items { return false, None; }
      if after != Root {
        if after !in items { return false, Some(UnknownParent); }
      }
      items := items[id := Item(id, after, ch, false)];
      InsertChild(after, id);
      return true, None;
    }

    method Delete(id: Id) returns (changed: bool)
      modifies this
      ensures Outcome(State(), changed, None) == Ops.Delete(old(State()), id)
    {
      if id !in items || items[id].deleted { return false; }
      items := items[id := items[id].(deleted := true)];
      return true;
    }

    method InsertChild(parent: Id, id: Id)
      modifies this`children
      ensures children == old(children)[parent := InsertSorted(Kids(old(State()), parent), id)]
    {
      hide InsertSorted;
      var kids := Kids(State(), parent);
      var i := 0;
      assert kids[0..] == kids;
      while i < |kids| && CompareSibling(kids[i], id) < 0
        invariant 0 <= i <= |kids|
        invariant children == old(children)
        invariant InsertSorted(kids, id) == kids[..i] + InsertSorted(kids[i..], id)
      {
        ScanStep(kids, i, id);
        i := i + 1;
      }
      ScanStops(kids, i, id);
      if i < |kids| && kids[i] == id {
        assert children[parent := kids] == children;
        return;
      }
      kids := kids[..i] + [id] + kids[i..];
      children := children[parent := kids];
    }

    /** Highest clock among the ids, 0 for an empty document. */
    method MaxClock() returns (max: int)
      ensures IsMaxClock(items, max)
    {
      max := 0;
      var rest := items.Keys;
      while rest != {}
        invariant rest <= items.Keys
        invariant 0 <= max && (max == 0 || exists k :: k in items && k.Atom? && k.clock == max)
        invariant forall k :: k in items && k !in rest && k.Atom? ==> k.clock <= max
        decreases rest
      {
        var id :| id in rest;
        if ValidId(id) || id.Atom? {
          if id.clock > max { max := id.clock; }
        }
        rest := rest - {id};
      }
    }

    /** Pushes `kids` so that the first of them ends up on top. */
    method PushKids(stack: seq<Id>, kids: seq<Id>, ghost prefix: seq<Id>) returns (pushed: seq<Id>)
      requires Linked(State()) && AreKids(State(), prefix, kids)
      requires OnStack(State(), stack)
      ensures OnStack(State(), pushed)
      ensures Pending(State(), pushed) == Forest(State(), prefix, kids) + Pending(State(), stack)
    {
      pushed := stack;
      var i := |kids|;
      assert kids[i..] == [];
      while i > 0
        invariant 0 <= i <= |kids|
        invariant OnStack(State(), pushed)
        invariant Pending(State(), pushed) == Forest(State(), prefix, kids[i..]) + Pending(State(), stack)
      {
        PushOne(State(), prefix, kids, i, stack);
        var next := pushed + [kids[i - 1]];
        assert next[..|next| - 1] == pushed;
        pushed := next;
        i := i - 1;
      }
      assert kids[0..] == kids;
    }

    /** The iterative walk: visits the items in the order of the recursive preorder. */
    method Walk() returns (out: seq<Id>)
      requires Linked(State())
      ensures out == Order(State())
    {
      hide Linked, Order, Forest, Pending, OnStack, AreKids;
      ghost var t := State();
      WalkStarts(t);
      out := [];
      var stack := PushKids([], Kids(State(), Root), []);
      while |stack| > 0
        invariant OnStack(t, stack)
        invariant Order(t) == out + Pending(t, stack)
        decreases |Order(t)| - |out|
      {
        PopOne(t, stack);
        var id := stack[|stack| - 1];
        stack := stack[..|stack| - 1];
        if id in items {
          out := out + [id];
          stack := PushKids(stack, Kids(State(), id), PathTo(items, id));
        }
      }
    }

    method Items() returns (list: seq<Item>)
      requires Linked(State())
      ensures list == Listing(State())
    {
      var ids := Walk();
      OrderIsSortedListing(State());
      list := [];
      for n := 0 to |ids|
        invariant list == ItemsAt(items, ids)[..n]
      {
        assert ids[n] in ids;
        list := list + [items[ids[n]]];
      }
    }

    method VisibleIDs() returns (visible: seq<Id>)
      requires Linked(State())
      ensures visible == VisibleIds(State())
    {
      var ids := Walk();
      OrderIsSortedListing(State());
      visible := [];
      for n := 0 to |ids|
        invariant visible == VisibleOf(items, ids[..n])
      {
        assert ids[n] in ids;
        VisibleUpTo(items, ids, n);
        if !items[ids[n]].deleted { visible := visible + [ids[n]]; }
      }
      assert ids[..|ids|] == ids;
    }

    method Materialize() returns (text: string)
      requires Linked(State())
      ensures text == Text(State())
    {
      var ids := Walk();
      OrderIsSortedListing(State());
      text := "";
      for n := 0 to |ids|
        invariant text == TextOf(items, ids[..n])
      {
        assert ids[n] in ids;
        VisibleUpTo(items, ids, n);
        if !items[ids[n]].deleted { text := text + items[ids[n]].ch; }
      }
      assert ids[..|ids|] == ids;
    }

    method ContentByteLen() returns (bytes: nat)
      requires Linked(State())
      ensures bytes == Utf8Length(Text(State()))
    {
      var ids := Walk();
      OrderIsSortedListing(State());
      bytes := 0;
      for n := 0 to |ids|
        invariant bytes == Utf8Length(TextOf(items, ids[..n]))
      {
        assert ids[n] in ids && ItemOk(items, ids[n]);
        VisibleUpTo(items, ids, n);
        var item := items[ids[n]];
        if !item.deleted {
          Utf8LengthConcat(TextOf(items, ids[..n]), item.ch);
          bytes := bytes + Utf8Length(item.ch);
        } else {
          assert TextOf(items, ids[..n]) + "" == TextOf(items, ids[..n]);
        }
      }
      assert ids[..|ids|] == ids;
    }

    method Clone() returns (d: Doc)
      ensures fresh(d) && d.State() == State()
    {
      d := new Doc();
      d.items := items;
      d.children := children;
    }

    method FromItems(list: seq<Item>) returns (error: Option<Error>)
      modifies this
      ensures match Snapshots.FromItems(list)
        case Ok(t) => error == None && State() == t
        case Failed(e) => error == Some(e)
    {
      items := map[];
      children := map[];
      var n := 0;
      while n < |list|
        invariant 0 <= n <= |list| && children == map[]
        invariant Register(map[], list) == Register(items, list[n..])
      {
        var it := list[n];
        assert list[n..][1..] == list[n + 1..];
        if it.id == Root { return Some(EmptyId); }
        if !ValidId(it.id) { return Some(InvalidId); }
        if !SingleCodePoint(it.ch) { return Some(NotOneCodePoint); }
        if it.id in items { return Some(DuplicateId); }
        items := items[it.id := it];
        n := n + 1;
      }
      ghost var loaded := Tree(items, map[]);
      n := 0;
      while n < |list|
        invariant 0 <= n <= |list| && items == loaded.items
        invariant LinkAll(loaded, list) == LinkAll(State(), list[n..])
      {
        var it := list[n];
        assert list[n..][1..] == list[n + 1..];
        if it.after != Root {
          if it.after !in items { return Some(UnknownParent); }
        }
        InsertChild(it.after, it.id);
        n := n + 1;
      }
      return None;
    }

    static method BuildFromString(site: string, content: string) returns (d: Doc, error: Option<Error>)
      ensures fresh(d)
      ensures match Chains.BuildFromString(site, content)
        case Ok(t) => error == None && d.State() == t
        case Failed(e) => error == Some(e)
    {
      hide WellFormed, Order, Links;
      d := new Doc();
      if site == "" { return d, Some(EmptyId); }
      var prev, clock := Root, 0;
      while clock < |content|
        invariant 0 <= clock <= |content| && prev == Link(site, clock)
        invariant clock > 0 ==> ValidSite(site)
        invariant d.State() == Chain(site, content[..clock])
        invariant fresh(d)
      {
        var ch := content[clock];
        assert content[..clock + 1][..clock] == content[..clock];
        if ValidSite(site) {
          ChainShape(site, content[..clock]);
          assert clock > 0 ==> HoldsChainItem(d.items, site, content[..clock], clock);
        }
        clock := clock + 1;
        var id := Atom(site, clock);
        var changed;
        changed, error := d.Insert(id, prev, [ch]);
        if error.Some? { return; }
        prev := id;
      }
      assert content[..clock] == content;
      error := None;
    }

    /** Recognises exactly the chains `BuildFromString` makes, and says on which site. */
    method LinearChain() returns (site: string, ok: bool)
      requires Linked(State())
      ensures IsChainSite(State(), if ok then Some(site) else None)
    {
      ghost var t := State();
      if |items| == 0 { return "", true; }
      var rootKids := Kids(State(), Root);
      forall s | IsChain(t, s) ensures rootKids == [Link(s, 1)] { ChainKids(t, s, 0); }
      if |rootKids| != 1 { return "", false; }
      assert rootKids[0] in Kids(t, Root);
      var first := items[rootKids[0]];
      assert ItemOk(items, rootKids[0]);
      forall s | IsChain(t, s) ensures first.id == Link(s, 1) && !first.deleted { assert LiveLink(items, s, 1); }
      if first.deleted || first.after != Root { return "", false; }
      var firstSite, firstClock := first.id.site, first.id.clock;
      if firstClock != 1 { return "", false; }
      var count, prev := 1, first.id;
      while true
        invariant 1 <= count <= |items| && prev == Link(firstSite, count)
        invariant forall s :: IsChain(t, s) ==> s == firstSite
        invariant forall i {:trigger LiveLink(items, firstSite, i)} :: 1 <= i <= count ==> LiveLink(items, firstSite, i)
        decreases |items| - count
      {
        var kids := Kids(State(), prev);
        if IsChain(t, firstSite) { ChainKids(t, firstSite, count); }
        if |kids| == 0 { break; }
        if |kids| != 1 { return "", false; }
        assert kids[0] in Kids(t, prev);
        var next := items[kids[0]];
        assert ItemOk(items, kids[0]);
        if IsChain(t, firstSite) && count < |items| { assert LiveLink(items, firstSite, count + 1); }
        if next.deleted || next.after != prev { return "", false; }
        if next.id.site != firstSite || next.id.clock != count + 1 { return "", false; }
        assert LiveLink(items, firstSite, count + 1);
        LinksAreItems(t, firstSite, count + 1);
        count := count + 1;
        prev := next.id;
      }
      LinksAreItems(t, firstSite, count);
      if count != |items| { return "", false; }
      return firstSite, true;
    }

    method Apply(op: Op) returns (changed: bool, error: Option<Error>)
      modifies this
      ensures Outcome(State(), changed, error) == Ops.Apply(old(State()), op)
    {
      error := ValidateOp(op);
      if error.Some? { return false, error; }
      match op {
        case Ins(id, after, ch) =>
          if |items| >= MAX_ITEMS {
            if id !in items { return false, Some(DocumentTooLarge); }
          }
          changed, error := Insert(id, after, ch);
        case Del(id) =>
          changed := Delete(id);
        case Unknown(_) =>
          return false, Some(UnknownOp);
      }
    }

    /** The browser's `apply` and `applyBatch`: no validation pass, no size cap, no batch limit. */
    method JsApply(op: Op) returns (changed: bool, error: Option<Error>)
      modifies this
      ensures Outcome(State(), changed, error) == Ops.JsApply(old(State()), op)
    {
      match op {
        case Ins(id, after, ch) =>
          changed, error := Insert(id, after, ch);
        case Del(id) =>
          if !ValidId(id) { return false, Some(InvalidId); }
          changed := Delete(id);
          error := None;
        case Unknown(_) =>
          return false, Some(UnknownOp);
      }
    }

    method JsApplyBatch(ops: seq<Op>) returns (changed: bool, error: Option<Error>)
      modifies this
      ensures Outcome(State(), changed, error) == Ops.JsApplyBatch(old(State()), ops)
    {
      if ops == [] { return false, Some(EmptyBatch); }
      changed, error := false, None;
      var i := 0;
      while i < |ops|
        invariant 0 <= i <= |ops| && error.None?
        invariant var rest := JsRun(State(), ops[i..]);
          JsRun(old(State()), ops) == rest.(changed := changed || rest.changed)
      {
        assert ops[i..][1..] == ops[i + 1..];
        var c;
        c, error := JsApply(ops[i]);
        if error.Some? { return; }
        if c { changed := true; }
        i := i + 1;
      }
    }

    /** Validates, then applies everything up to the first failing operation. */
    method ApplyBatch(ops: seq<Op>) returns (changed: bool, error: Option<Error>)
      modifies this
      ensures Outcome(State(), changed, error) == Ops.ApplyBatch(old(State()), ops)
    {
      error := ValidateBatch(ops);
      if error.Some? { return false, error; }
      changed := false;
      var i := 0;
      while i < |ops|
        invariant 0 <= i <= |ops| && error.None?
        invariant var rest := Run(State(), ops[i..]);
          Run(old(State()), ops) == rest.(changed := changed || rest.changed)
      {
        assert ops[i..][1..] == ops[i + 1..];
        var c;
        c, error := Apply(ops[i]);
        if error.Some? { return; }
        if c { changed := true; }
        i := i + 1;
      }
    }
  }

  lemma VisibleUpTo(items: map<Id, Item>, ids: seq<Id>, n: nat)
    requires n < |ids|
    ensures ids[..n + 1] == ids[..n] + [ids[n]]
    ensures VisibleOf(items, ids[..n + 1]) ==
      VisibleOf(items, ids[..n]) + if Alive(items, ids[n]) then [ids[n]] else []
    ensures TextOf(items, ids[..n + 1]) ==
      TextOf(items, ids[..n]) + if Alive(items, ids[n]) then items[ids[n]].ch else ""
  {
    assert ids[..n + 1] == ids[..n] + [ids[n]];
    VisibleConcat(items, ids[..n], [ids[n]]);
    assert [ids[n]][1..] == [];
  }

  /** In a chain every link has the next one as its only child and the last has none. */
  lemma ChainKids(t: Tree, site: string, n: nat)
    requires Linked(t) && IsChain(t, site) && n <= |t.items|
    ensures Kids(t, Link(site, n)) == if n < |t.items| then [Link(site, n + 1)] else []
  {
    var kids, next := Kids(t, Link(site, n)), Link(site, n + 1);
    assert ListOk(t, Link(site, n));
    assert |kids| > 1 ==> SibLess(kids[0], kids[1]);
    forall k | k in kids ensures n < |t.items| && k == next {
      assert k in t.items && k in LinkSet(site, |t.items|);
      var i :| 1 <= i <= |t.items| && k == Atom(site, i);
      assert LiveLink(t.items, site, i);
    }
    if n < |t.items| {
      assert LiveLink(t.items, site, n + 1) && Listed(t, next);
      assert next in kids;
      forall i | 0 <= i < |kids| ensures kids[i] == next { assert kids[i] in kids; }
      SiblingOrderTotal(next, next);
    } else {
      HasElement(kids);
    }
  }

  lemma LinksAreItems(t: Tree, site: string, n: nat)
    requires forall i {:trigger LiveLink(t.items, site, i)} :: 1 <= i <= n ==> LiveLink(t.items, site, i)
    ensures n <= |t.items|
    ensures n == |t.items| ==> t.items.Keys == LinkSet(site, n)
  {
    forall k | k in LinkSet(site, n) ensures k in t.items {
      var i :| 1 <= i <= n && k == Atom(site, i);
      assert LiveLink(t.items, site, i);
    }
    LinkCount(site, n);
    SubsetCardinality(LinkSet(site, n), t.items.Keys);
    assert |t.items| == |t.items.Keys|;
  }
}
