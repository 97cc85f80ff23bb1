/**
 Linear chains: what `BuildFromString` makes and `LinearChain` recognises
 (internal/crdt/doc.go:143-184, 236-255), and the compact form that wire and disk
 use for them (internal/handler/handler.go:1448-1463, static/app.js:2512-2524).
 */
module Chains {
  import opened Sequences
  import opened Ids
  import opened Rga
  import opened RgaEdits
  import opened Ops
  import opened Views
  import opened Snapshots

  /** The id of the `n`-th character of a chain; the zeroth is the head. */
  function Link(site: string, n: nat): Id {
    if n == 0 then Root else Atom(site, n)
  }

  function Links(site: string, n: nat): seq<Id> {
    seq(n, i requires 0 <= i < n => Atom(site, i + 1))
  }

  function LinkSet(site: string, n: nat): set<Id> {
    set i | 1 <= i <= n :: Atom(site, i)
  }

  /** The document `BuildFromString` makes: one insert per character, each behind the previous one. */
  function Chain(site: string, text: string): Tree {
    if text == "" then EMPTY
    else
      var n := |text|;
      InsertItem(Chain(site, text[..n - 1]), Link(site, n), Link(site, n - 1), [text[n - 1]])
  }

  function BuildFromString(site: string, text: string): Loaded<Tree> {
    if site == "" then Failed(EmptyId)
    else if text != "" && !ValidSite(site) then Failed(InvalidId)
    else Ok(Chain(site, text))
  }

  function ChainItem(site: string, text: string, i: nat): Item
    requires 1 <= i <= |text|
  {
    Item(Link(site, i), Link(site, i - 1), [text[i - 1]], false)
  }

  ghost predicate HoldsChainItem(items: map<Id, Item>, site: string, text: string, i: nat)
    requires 1 <= i <= |text|
  {
    Link(site, i) in items && items[Link(site, i)] == ChainItem(site, text, i)
  }

  ghost predicate ChainItems(items: map<Id, Item>, site: string, text: string) {
    && items.Keys == LinkSet(site, |text|)
    && forall i {:trigger HoldsChainItem(items, site, text, i)} :: 1 <= i <= |text| ==>
      HoldsChainItem(items, site, text, i)
  }

  lemma EmptyIsWellFormed()
    ensures WellFormed(EMPTY) && Order(EMPTY) == []
  {
  }

  lemma {:induction false} ChainShape(site: string, text: string)
    requires ValidSite(site)
    ensures WellFormed(Chain(site, text))
    ensures ChainItems(Chain(site, text).items, site, text)
    ensures Order(Chain(site, text)) == Links(site, |text|)
  {
    if text == "" {
      EmptyIsWellFormed();
    } else {
      var n := |text|;
      var t, id, after := Chain(site, text[..n - 1]), Link(site, n), Link(site, n - 1);
      ChainShape(site, text[..n - 1]);
      assert n > 1 ==> HoldsChainItem(t.items, site, text[..n - 1], n - 1);
      ChainEndIsLeaf(t, site, text[..n - 1]);
      NewestStandsBehindParent(t, id, after, [text[n - 1]]);
      ChainGrows(site, n);
      ChainItemsGrow(t.items, site, text);
    }
  }

  lemma ChainEndIsLeaf(t: Tree, site: string, text: string)
    requires Linked(t) && ChainItems(t.items, site, text)
    ensures Kids(t, Link(site, |text|)) == []
  {
    forall k | k in t.items ensures t.items[k].after != Link(site, |text|) {
      assert k in LinkSet(site, |text|);
      var i :| 1 <= i <= |text| && k == Atom(site, i);
      assert HoldsChainItem(t.items, site, text, i);
    }
    var end := Link(site, |text|);
    forall k ensures k !in Kids(t, end) {
      assert k in Kids(t, end) ==> k in t.items;
    }
    HasElement(Kids(t, Link(site, |text|)));
  }

  lemma ChainGrows(site: string, n: nat)
    requires n > 0
    ensures PlaceBehind(Links(site, n - 1), Link(site, n - 1), Link(site, n)) == Links(site, n)
  {
    var s := Links(site, n - 1);
    assert Links(site, n) == s + [Link(site, n)];
    if n > 1 {
      InsertBehindAt(s, n - 2, Link(site, n));
      assert s[..n - 1] == s && s[n - 1..] == [];
    }
  }

  lemma ChainItemsGrow(items: map<Id, Item>, site: string, text: string)
    requires text != "" && ChainItems(items, site, text[..|text| - 1])
    ensures ChainItems(items[Link(site, |text|) := ChainItem(site, text, |text|)], site, text)
  {
    var n := |text|;
    var items' := items[Link(site, n) := ChainItem(site, text, n)];
    forall i | 1 <= i <= n ensures HoldsChainItem(items', site, text, i) {
      if i < n { assert HoldsChainItem(items, site, text[..n - 1], i); }
    }
    assert LinkSet(site, n) == LinkSet(site, n - 1) + {Link(site, n)};
  }

  lemma {:induction false} ChainSpells(items: map<Id, Item>, site: string, text: string, n: nat)
    requires ChainItems(items, site, text) && n <= |text|
    ensures TextOf(items, Links(site, n)) == text[..n]
    ensures VisibleOf(items, Links(site, n)) == Links(site, n)
  {
    if n > 0 {
      ChainSpells(items, site, text, n - 1);
      var last := [Link(site, n)];
      assert Links(site, n) == Links(site, n - 1) + last;
      VisibleConcat(items, Links(site, n - 1), last);
      assert last[1..] == [] && HoldsChainItem(items, site, text, n);
      assert text[..n] == text[..n - 1] + [text[n - 1]];
    }
  }

  /** A text is built exactly on a site, and one without a colon if there is anything to build. */
  lemma BuiltExactlyWhen(site: string, text: string)
    ensures BuildFromString(site, text) ==
      if site == "" then Failed(EmptyId)
      else if text != "" && exists i :: 0 <= i < |site| && site[i] == ':' then Failed(InvalidId)
      else Ok(Chain(site, text))
  {
    assert ':' in site <==> exists i :: 0 <= i < |site| && site[i] == ':';
  }

  /** A chain shows its text. */
  lemma ChainText(site: string, text: string)
    requires ValidSite(site)
    ensures WellFormed(Chain(site, text)) && Text(Chain(site, text)) == text
    ensures VisibleIds(Chain(site, text)) == Links(site, |text|)
  {
    ChainShape(site, text);
    ChainSpells(Chain(site, text).items, site, text, |text|);
    assert text[..|text|] == text;
  }

  ghost predicate LiveLink(items: map<Id, Item>, site: string, i: nat) {
    i > 0 && Link(site, i) in items && !items[Link(site, i)].deleted && items[Link(site, i)].after == Link(site, i - 1)
  }

  /** The items are `site:1` to `site:n`, all live, each behind the previous one. */
  ghost predicate IsChain(t: Tree, site: string) {
    && t.items != map[]
    && t.items.Keys == LinkSet(site, |t.items|)
    && forall i {:trigger LiveLink(t.items, site, i)} :: 1 <= i <= |t.items| ==> LiveLink(t.items, site, i)
  }

  lemma {:induction false} LinkCount(site: string, n: nat)
    ensures |LinkSet(site, n)| == n
  {
    if n > 0 {
      LinkCount(site, n - 1);
      assert LinkSet(site, n) == LinkSet(site, n - 1) + {Atom(site, n)};
    } else {
      assert LinkSet(site, n) == {};
    }
  }

  /** Elision is exact: a document has chain shape if and only if building its text on that site gives it back. */
  lemma ElisionIsExact(t: Tree, site: string)
    requires WellFormed(t)
    ensures IsChain(t, site) <==> t.items != map[] && ValidSite(site) && t == Chain(site, Text(t))
  {
    if IsChain(t, site) {
      var text := Letters(t, site);
      assert LiveLink(t.items, site, 1) && ItemOk(t.items, Link(site, 1));
      LettersMakeChain(t, site);
      ChainText(site, text);
      ChainShape(site, text);
      ChainItemsDetermined(t.items, Chain(site, text).items, site, text);
      LinksAreDetermined(t, Chain(site, text));
    }
    if t.items != map[] && ValidSite(site) && t == Chain(site, Text(t)) {
      ChainShape(site, Text(t));
      LinkCount(site, |Text(t)|);
      assert |t.items| == |t.items.Keys|;
      forall i | 1 <= i <= |t.items| ensures LiveLink(t.items, site, i) {
        assert HoldsChainItem(t.items, site, Text(t), i);
      }
    }
  }

  /** The letters of a chain, first to last. */
  ghost function Letters(t: Tree, site: string): string
    requires Linked(t) && IsChain(t, site)
  {
    seq(|t.items|, i requires 0 <= i < |t.items| =>
      assert LiveLink(t.items, site, i + 1) && ItemOk(t.items, Link(site, i + 1));
      t.items[Link(site, i + 1)].ch[0])
  }

  lemma LettersMakeChain(t: Tree, site: string)
    requires Linked(t) && IsChain(t, site)
    ensures ChainItems(t.items, site, Letters(t, site))
  {
    forall i | 1 <= i <= |t.items| ensures HoldsChainItem(t.items, site, Letters(t, site), i) {
      assert LiveLink(t.items, site, i) && ItemOk(t.items, Link(site, i));
    }
  }

  lemma ChainItemsDetermined(a: map<Id, Item>, b: map<Id, Item>, site: string, text: string)
    requires ChainItems(a, site, text) && ChainItems(b, site, text)
    ensures a == b
  {
    assert a.Keys == b.Keys;
    forall k | k in a ensures a[k] == b[k] {
      var i :| 1 <= i <= |text| && k == Atom(site, i);
      assert HoldsChainItem(a, site, text, i) && HoldsChainItem(b, site, text, i);
    }
  }

  /** Every non-empty text built on a site is recognised, on that site and no other. */
  lemma BuiltIsRecognised(site: string, text: string, other: string)
    requires ValidSite(site) && text != ""
    ensures IsChain(Chain(site, text), other) <==> other == site
  {
    ChainText(site, text);
    ChainShape(site, text);
    var t := Chain(site, text);
    assert HoldsChainItem(t.items, site, text, 1);
    ElisionIsExact(t, site);
    assert IsChain(t, other) ==> LiveLink(t.items, other, 1);
  }
}
