/**
 The compact form in which a document travels in a state frame
 (internal/handler/handler.go:1448-1463) and how the browser rebuilds it
 (static/app.js:2512-2524).
 */
module Wire {
  import opened Rga
  import opened RgaEdits
  import opened Ops
  import opened Views
  import opened Snapshots
  import opened Chains
  import opened Browser

  /** The text, and either the site of an elided chain or the item list. */
  datatype Frame = Frame(content: string, itemsSite: string, items: seq<Item>)

  /** What `LinearChain` reports: the site of a chain, the empty site for an empty document, or nothing. */
  ghost predicate IsChainSite(t: Tree, found: Option<string>) {
    match found
    case Some(site) => if t.items == map[] then site == "" else IsChain(t, site)
    case None => t.items != map[] && forall site :: !IsChain(t, site)
  }

  /** `frame` describes `t` the way the server ships it. */
  ghost predicate Describes(frame: Frame, t: Tree)
    requires Linked(t)
  {
    && frame.content == Text(t)
    && exists found :: IsChainSite(t, found) &&
         frame.itemsSite == (if found.Some? then found.value else "") &&
         frame.items == if found.Some? then [] else Listing(t)
  }

  /** The browser's rebuild; `own` is the client's own site, used when the items are broken. */
  function Rebuild(frame: Frame, own: string): Tree {
    if frame.itemsSite != "" then OrEmpty(BuildFromString(frame.itemsSite, frame.content))
    else if frame.items != [] then
      match BrowserFromItems(frame.items)
      case Ok(t) => t
      case Failed(_) => OrEmpty(BuildFromString(own, frame.content))
    else if frame.content != "" then OrEmpty(BuildFromString("server", frame.content))
    else EMPTY
  }

  function OrEmpty(loaded: Loaded<Tree>): Tree {
    match loaded
    case Ok(t) => t
    case Failed(_) => EMPTY
  }

  /**
   A list of items that can be rebuilt is; any other frame gives the text typed in one go,
   on the chain's site, the tab's own or the server's, or nothing if no site can carry it.
   */
  lemma RebuildExactly(frame: Frame, own: string)
    ensures var site := if frame.itemsSite != "" then frame.itemsSite else if frame.items != [] then own else "server";
      Rebuild(frame, own) ==
        if frame.itemsSite == "" && frame.items != [] && BrowserFromItems(frame.items).Ok?
        then BrowserFromItems(frame.items).value
        else if site != "" && forall i :: 0 <= i < |site| ==> site[i] != ':' then Chain(site, frame.content)
        else EMPTY
  {
    hide BrowserFromItems;
    BuiltExactlyWhen(
      if frame.itemsSite != "" then frame.itemsSite else if frame.items != [] then own else "server", frame.content);
  }

  lemma EmptyItemsEmptyTree(t: Tree)
    requires WellFormed(t) && t.items == map[]
    ensures t == EMPTY && Order(t) == [] && Text(t) == ""
  {
    EmptyIsWellFormed();
    LinksAreDetermined(t, EMPTY);
  }

  lemma ListingIsNonEmpty(t: Tree)
    requires WellFormed(t) && t.items != map[]
    ensures Listing(t) != []
  {
    OrderListsItems(t);
    var k :| k in t.items;
    assert k in Order(t);
  }

  /**
   Every well-formed document survives the trip: the client gets the same ids, parents,
   tombstones and children, in the browser's order. It is the very document exactly when
   its siblings are plain.
   */
  lemma RebuildInvertsDescription(frame: Frame, t: Tree, own: string)
    requires WellFormed(t) && Describes(frame, t)
    ensures BrowserForm(Rebuild(frame, own), t)
    ensures Rebuild(frame, own) == t <==> PlainSiblings(t.items)
  {
    hide BrowserForm;
    var found :| IsChainSite(t, found) &&
      frame.itemsSite == (if found.Some? then found.value else "") &&
      frame.items == if found.Some? then [] else Listing(t);
    if t.items == map[] {
      EmptyItemsEmptyTree(t);
      NothingInForm();
    } else if found.Some? {
      ElisionIsExact(t, found.value);
      ElidedInForm(t, found.value);
    } else {
      ListingIsNonEmpty(t);
      RebuildFromAnyPermutation(t, Listing(t));
      BrowserFromItemsFollows(Listing(t));
    }
    OneDocumentExactlyWhen(Rebuild(frame, own), t);
  }

  lemma NothingInForm()
    ensures BrowserForm(EMPTY, EMPTY)
  {
  }

  lemma ElidedInForm(t: Tree, site: string)
    requires WellFormed(t) && IsChain(t, site) && BuildFromString(site, Text(t)) == Ok(t) && t.items != map[]
    ensures BrowserForm(t, t)
  {
    ChainsAgree(site, Text(t));
  }

  /** Some frame always describes the document. */
  lemma DescriptionExists(t: Tree) returns (frame: Frame)
    requires WellFormed(t)
    ensures Describes(frame, t)
  {
    var found: Option<string>;
    if t.items == map[] {
      found := Some("");
    } else if site :| IsChain(t, site) {
      found := Some(site);
    } else {
      found := None;
    }
    assert IsChainSite(t, found);
    frame := Frame(Text(t), if found.Some? then found.value else "", if found.Some? then [] else Listing(t));
  }
}
