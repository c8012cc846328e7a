/**
 Box as `packages/connectors/src/box-file-source.ts` reads it: folders by id,
 paths derived by a walk, walked back to ids, and rebuilt from the ancestor
 chains of the bin.
 */
module BoxPaths {
  import opened Common
  import opened Paths

  datatype Kind = File | Folder | WebLink

  datatype Ancestor = Ancestor(id: string, name: string)

  /** One entry as Box lists it. `chain` is `path_collection`'s entries, when Box gave one. */
  datatype Item = Item(kind: Kind, id: string, name: string, chain: Option<seq<Ancestor>>)

  /** One page of a listing; an absent or empty marker ends the paging. */
  datatype Page = Page(entries: seq<Item>, nextMarker: string)

  datatype Failure = Refused(status: int) | EndlessPaging | NoFolder(segment: string)

  /** What Box answers for one listing, by marker; the first request carries none. */
  type Listing = string -> Result<Page, Failure>

  /** What Box answers for a folder id. */
  type Account = string -> Listing

  const MAX_HOPS := 1000

  // ---------------------------------------------------------------------
  // Paging
  // ---------------------------------------------------------------------

  datatype Wanted = Only(kind: Kind) | NoWebLinks

  predicate Wants(w: Wanted, item: Item) {
    match w
    case Only(kind) => item.kind == kind
    case NoWebLinks => item.kind != WebLink
  }

  function Keep(w: Wanted, items: seq<Item>): (r: seq<Item>)
    ensures forall x :: x in r <==> x in items && Wants(w, x)
  {
    if items == [] then []
    else (if Wants(w, items[0]) then [items[0]] else []) + Keep(w, items[1..])
  }

  function EntriesOf(pages: seq<Page>): seq<Item> {
    if pages == [] then [] else pages[0].entries + EntriesOf(pages[1..])
  }

  /** What has been read so far, in front of what reading on gives. */
  function Prefixed<T>(sofar: seq<T>, r: Result<seq<T>, Failure>): Result<seq<T>, Failure> {
    if r.Err? then r else Ok(sofar + r.value)
  }

  lemma PrefixedNothing<T>(r: Result<seq<T>, Failure>)
    ensures Prefixed([], r) == r
  {
    if r.Ok? {
      assert [] + r.value == r.value;
    }
  }

  lemma PrefixedTwice<T>(a: seq<T>, b: seq<T>, r: Result<seq<T>, Failure>)
    ensures Prefixed(a, Prefixed(b, r)) == Prefixed(a + b, r)
  {
    if r.Ok? {
      assert a + (b + r.value) == a + b + r.value;
    }
  }

  /** The wanted entries from a marker on, when the pages end within `hops` requests. */
  function ListFrom(listing: Listing, w: Wanted, marker: string, hops: nat): Result<seq<Item>, Failure>
    decreases hops
  {
    if hops == 0 then Err(EndlessPaging)
    else
      match listing(marker)
      case Err(e) => Err(e)
      case Ok(page) =>
        Prefixed(Keep(w, page.entries),
                 if page.nextMarker == "" then Ok([]) else ListFrom(listing, w, page.nextMarker, hops - 1))
  }

  function ListingOf(listing: Listing, w: Wanted): Result<seq<Item>, Failure> {
    ListFrom(listing, w, "", MAX_HOPS)
  }

  /** The loop of `listChildren` and of `listTrashItems`. */
  method ListPages(listing: Listing, w: Wanted) returns (r: Result<seq<Item>, Failure>)
    ensures r == ListingOf(listing, w)
  {
    var found: seq<Item> := [];
    var marker := "";
    var hops := 0;
    PrefixedNothing(ListingOf(listing, w));
    while true
      invariant 0 <= hops <= MAX_HOPS
      invariant ListingOf(listing, w) == Prefixed(found, ListFrom(listing, w, marker, MAX_HOPS - hops))
      decreases MAX_HOPS - hops
    {
      hops := hops + 1;
      if hops > MAX_HOPS { return Err(EndlessPaging); }
      var page := listing(marker);
      if page.Err? { return Err(page.error); }
      var kept := Keep(w, page.value.entries);
      marker := page.value.nextMarker;
      if marker == "" {
        assert kept + [] == kept;
        return Ok(found + kept);
      }
      PrefixedTwice(found, kept, ListFrom(listing, w, marker, MAX_HOPS - hops));
      found := found + kept;
    }
  }

  /** A listing's pages, each asked for by the marker before it, the last naming none. */
  predicate IsWhole(listing: Listing, marker: string, pages: seq<Page>)
    decreases |pages|
  {
    && pages != []
    && listing(marker) == Ok(pages[0])
    && (if pages[0].nextMarker == "" then |pages| == 1 else IsWhole(listing, pages[0].nextMarker, pages[1..]))
  }

  lemma {:induction false} KeepAppend(w: Wanted, a: seq<Item>, b: seq<Item>)
    ensures Keep(w, a + b) == Keep(w, a) + Keep(w, b)
  {
    if a == [] {
      assert a + b == b;
    } else {
      assert (a + b)[1..] == a[1..] + b;
      KeepAppend(w, a[1..], b);
    }
  }

  lemma {:induction false} WholeIsListed(listing: Listing, w: Wanted, marker: string, hops: nat, pages: seq<Page>)
    requires IsWhole(listing, marker, pages) && |pages| <= hops
    ensures ListFrom(listing, w, marker, hops) == Ok(Keep(w, EntriesOf(pages)))
    decreases |pages|
  {
    var rest := pages[1..];
    KeepAppend(w, pages[0].entries, EntriesOf(rest));
    if pages[0].nextMarker != "" {
      WholeIsListed(listing, w, pages[0].nextMarker, hops - 1, rest);
    } else {
      assert EntriesOf(rest) == [];
    }
  }

  lemma {:induction false} ListedIsWhole(listing: Listing, w: Wanted, marker: string, hops: nat)
    returns (pages: seq<Page>)
    requires ListFrom(listing, w, marker, hops).Ok?
    ensures IsWhole(listing, marker, pages) && |pages| <= hops
    decreases hops
  {
    var page := listing(marker).value;
    if page.nextMarker == "" {
      pages := [page];
    } else {
      var more := ListedIsWhole(listing, w, page.nextMarker, hops - 1);
      pages := [page] + more;
      assert pages[1..] == more;
    }
  }

  /** A listing is every page's wanted entries in order, or nothing: never a part. */
  lemma ListingIsAllOrNothing(listing: Listing, w: Wanted, items: seq<Item>)
    ensures ListingOf(listing, w) == Ok(items) <==>
            exists pages :: IsWhole(listing, "", pages) && |pages| <= MAX_HOPS && items == Keep(w, EntriesOf(pages))
  {
    if ListingOf(listing, w) == Ok(items) {
      var pages := ListedIsWhole(listing, w, "", MAX_HOPS);
      WholeIsListed(listing, w, "", MAX_HOPS, pages);
    }
    if pages :| IsWhole(listing, "", pages) && |pages| <= MAX_HOPS && items == Keep(w, EntriesOf(pages)) {
      WholeIsListed(listing, w, "", MAX_HOPS, pages);
    }
  }

  /** Where an entry stands: the page, and the place on it. */
  datatype Spot = Spot(page: nat, entry: nat)

  predicate IsSpot(pages: seq<Page>, s: Spot) {
    s.page < |pages| && s.entry < |pages[s.page].entries|
  }

  function EntryAt(pages: seq<Page>, s: Spot): Item
    requires IsSpot(pages, s)
  {
    pages[s.page].entries[s.entry]
  }

  predicate IsBefore(a: Spot, b: Spot) {
    a.page < b.page || (a.page == b.page && a.entry < b.entry)
  }

  /** The items are the entries that `picks` takes: each as often as it is there, and in the pages' order. */
  ghost predicate IsPicked(pages: seq<Page>, picks: Item -> bool, at: seq<Spot>, items: seq<Item>) {
    && |at| == |items|
    && (forall j :: 0 <= j < |at| ==> IsSpot(pages, at[j]) && items[j] == EntryAt(pages, at[j]))
    && (forall i, j :: 0 <= i < j < |at| ==> IsBefore(at[i], at[j]))
    && (forall s: Spot :: IsSpot(pages, s) ==> (s in at <==> picks(EntryAt(pages, s))))
  }

  ghost predicate HoldJust(pages: seq<Page>, picks: Item -> bool, items: seq<Item>) {
    exists at :: IsPicked(pages, picks, at, items)
  }

  /** The same of one page's entries from a place on. */
  ghost predicate IsPickedFrom(entries: seq<Item>, from: nat, picks: Item -> bool, at: seq<nat>, items: seq<Item>) {
    && |at| == |items|
    && (forall j :: 0 <= j < |at| ==> from <= at[j] < |entries| && items[j] == entries[at[j]])
    && (forall i, j :: 0 <= i < j < |at| ==> at[i] < at[j])
    && (forall k: nat :: from <= k < |entries| ==> (k in at <==> picks(entries[k])))
  }

  lemma {:induction false} KeepPicksFrom(w: Wanted, entries: seq<Item>, from: nat, picks: Item -> bool)
    returns (at: seq<nat>)
    requires from <= |entries| && forall x :: picks(x) <==> Wants(w, x)
    ensures IsPickedFrom(entries, from, picks, at, Keep(w, entries[from..]))
    decreases |entries| - from
  {
    if from == |entries| {
      at := [];
      assert entries[from..] == [];
    } else {
      var more := KeepPicksFrom(w, entries, from + 1, picks);
      var rest := Keep(w, entries[from + 1..]);
      assert entries[from..][0] == entries[from] && entries[from..][1..] == entries[from + 1..];
      at := if picks(entries[from]) then [from] + more else more;
      assert Keep(w, entries[from..]) == if picks(entries[from]) then [entries[from]] + rest else rest;
      hide Keep;
      PickedFromEarlier(entries, from, picks, more, rest);
    }
  }

  lemma PickedFromEarlier(entries: seq<Item>, from: nat, picks: Item -> bool, more: seq<nat>, rest: seq<Item>)
    requires from < |entries| && IsPickedFrom(entries, from + 1, picks, more, rest)
    ensures if picks(entries[from]) then IsPickedFrom(entries, from, picks, [from] + more, [entries[from]] + rest)
            else IsPickedFrom(entries, from, picks, more, rest)
  {
  }

  lemma {:induction false} KeepPicks(w: Wanted, pages: seq<Page>, picks: Item -> bool) returns (at: seq<Spot>)
    requires forall x :: picks(x) <==> Wants(w, x)
    ensures IsPicked(pages, picks, at, Keep(w, EntriesOf(pages)))
    decreases |pages|
  {
    if pages == [] {
      at := [];
    } else {
      var entries, rest := pages[0].entries, pages[1..];
      var later := KeepPicks(w, rest, picks);
      var here := KeepPicksFrom(w, entries, 0, picks);
      assert entries[0..] == entries;
      KeepAppend(w, entries, EntriesOf(rest));
      PickedAhead(pages, picks, here, Keep(w, entries), later, Keep(w, EntriesOf(rest)));
      at := SpotsAhead(here, later);
    }
  }

  function SpotsAhead(here: seq<nat>, later: seq<Spot>): seq<Spot> {
    var n := |here|;
    seq(n + |later|, j requires 0 <= j < n + |later| =>
          if j < n then Spot(0, here[j]) else Spot(later[j - n].page + 1, later[j - n].entry))
  }

  lemma SpotsAheadHold(here: seq<nat>, later: seq<Spot>, s: Spot)
    ensures s in SpotsAhead(here, later) <==>
            if s.page == 0 then s.entry in here else Spot(s.page - 1, s.entry) in later
  {
    var at, n := SpotsAhead(here, later), |here|;
    if s.page == 0 {
      if s.entry in here {
        var j :| 0 <= j < n && here[j] == s.entry;
        assert at[j] == s;
      }
      if s in at {
        var j :| 0 <= j < |at| && at[j] == s;
        assert j >= n ==> at[j].page == later[j - n].page + 1;
      }
    } else {
      var t := Spot(s.page - 1, s.entry);
      if t in later {
        var j :| 0 <= j < |later| && later[j] == t;
        assert at[n + j] == s;
      }
      if s in at {
        var j :| 0 <= j < |at| && at[j] == s;
        assert later[j - n] == t;
      }
    }
  }

  lemma PickedAhead(pages: seq<Page>, picks: Item -> bool, here: seq<nat>, a: seq<Item>, later: seq<Spot>, b: seq<Item>)
    requires pages != [] && IsPickedFrom(pages[0].entries, 0, picks, here, a)
    requires IsPicked(pages[1..], picks, later, b)
    ensures IsPicked(pages, picks, SpotsAhead(here, later), a + b)
  {
    var at, n, rest := SpotsAhead(here, later), |here|, pages[1..];
    forall j | 0 <= j < |at|
      ensures IsSpot(pages, at[j]) && (a + b)[j] == EntryAt(pages, at[j])
    {
      if j >= n {
        assert IsSpot(rest, later[j - n]) && b[j - n] == EntryAt(rest, later[j - n]);
      }
    }
    forall i, j | 0 <= i < j < |at|
      ensures IsBefore(at[i], at[j])
    {
      if n <= i {
        assert IsBefore(later[i - n], later[j - n]);
      }
    }
    forall s: Spot | IsSpot(pages, s)
      ensures s in at <==> picks(EntryAt(pages, s))
    {
      hide SpotsAhead;
      SpotsAheadHold(here, later, s);
      if s.page > 0 {
        var t := Spot(s.page - 1, s.entry);
        assert IsSpot(rest, t) && EntryAt(rest, t) == EntryAt(pages, s);
      }
    }
  }

  /** Pages that do not come to an end within 1000 requests are no listing. */
  lemma {:induction false} LongerIsEndless(listing: Listing, w: Wanted, marker: string, hops: nat, pages: seq<Page>)
    requires IsWhole(listing, marker, pages) && |pages| > hops
    ensures ListFrom(listing, w, marker, hops) == Err(EndlessPaging)
    decreases hops
  {
    if hops > 0 {
      LongerIsEndless(listing, w, pages[0].nextMarker, hops - 1, pages[1..]);
    }
  }

  /** The pages lead to a marker that Box refuses. */
  predicate IsRefusedAfter(listing: Listing, marker: string, pages: seq<Page>, e: Failure)
    decreases |pages|
  {
    if pages == [] then listing(marker) == Err(e)
    else
      && listing(marker) == Ok(pages[0])
      && pages[0].nextMarker != ""
      && IsRefusedAfter(listing, pages[0].nextMarker, pages[1..], e)
  }

  lemma {:induction false} RefusalIsPassedOn(listing: Listing, w: Wanted, marker: string, hops: nat, pages: seq<Page>,
                                             e: Failure)
    requires IsRefusedAfter(listing, marker, pages, e) && |pages| < hops
    ensures ListFrom(listing, w, marker, hops) == Err(e)
    decreases hops
  {
    if pages != [] {
      RefusalIsPassedOn(listing, w, pages[0].nextMarker, hops - 1, pages[1..], e);
    }
  }

  // ---------------------------------------------------------------------
  // Paths to ids
  // ---------------------------------------------------------------------

  function Children(account: Account, id: string, kind: Kind): Result<seq<Item>, Failure> {
    ListingOf(account(id), Only(kind))
  }

  /**
   A folder's children of a kind are the entries of that kind on its pages, as
   often and in the same order, when there are at most 1000 pages; a folder of
   more is refused, and so is one that Box refuses a page of, in Box's words.
   */
  lemma ChildrenAreOfTheKind(account: Account, id: string, kind: Kind, pages: seq<Page>, e: Failure)
    ensures IsWhole(account(id), "", pages) && |pages| <= 1000 ==>
              && Children(account, id, kind).Ok?
              && HoldJust(pages, (x: Item) => x.kind == kind, Children(account, id, kind).value)
    ensures IsWhole(account(id), "", pages) && |pages| > 1000 ==> Children(account, id, kind) == Err(EndlessPaging)
    ensures IsRefusedAfter(account(id), "", pages, e) && |pages| < 1000 ==> Children(account, id, kind) == Err(e)
  {
    var listing, w := account(id), Only(kind);
    if IsWhole(listing, "", pages) && |pages| <= 1000 {
      WholeIsListed(listing, w, "", MAX_HOPS, pages);
      var at := KeepPicks(w, pages, (x: Item) => x.kind == kind);
    } else if IsWhole(listing, "", pages) {
      LongerIsEndless(listing, w, "", MAX_HOPS, pages);
    }
    if IsRefusedAfter(listing, "", pages, e) && |pages| < 1000 {
      RefusalIsPassedOn(listing, w, "", MAX_HOPS, pages, e);
    }
  }

  /** The bin is every entry but the web links, in the same way. */
  lemma BinIsAllButWebLinks(trash: Listing, pages: seq<Page>, e: Failure)
    ensures IsWhole(trash, "", pages) && |pages| <= 1000 ==>
              && ListingOf(trash, NoWebLinks).Ok?
              && HoldJust(pages, (x: Item) => x.kind != WebLink, ListingOf(trash, NoWebLinks).value)
    ensures IsWhole(trash, "", pages) && |pages| > 1000 ==> ListingOf(trash, NoWebLinks) == Err(EndlessPaging)
    ensures IsRefusedAfter(trash, "", pages, e) && |pages| < 1000 ==> ListingOf(trash, NoWebLinks) == Err(e)
  {
    if IsWhole(trash, "", pages) && |pages| <= 1000 {
      WholeIsListed(trash, NoWebLinks, "", MAX_HOPS, pages);
      var at := KeepPicks(NoWebLinks, pages, (x: Item) => x.kind != WebLink);
    } else if IsWhole(trash, "", pages) {
      LongerIsEndless(trash, NoWebLinks, "", MAX_HOPS, pages);
    }
    if IsRefusedAfter(trash, "", pages, e) && |pages| < 1000 {
      RefusalIsPassedOn(trash, NoWebLinks, "", MAX_HOPS, pages, e);
    }
  }

  /** An entry of a kind on some page of a folder's listing. */
  ghost predicate IsEntry(account: Account, id: string, kind: Kind, item: Item) {
    exists pages, s :: && IsWhole(account(id), "", pages) && |pages| <= 1000
                       && IsSpot(pages, s) && EntryAt(pages, s) == item && item.kind == kind
  }

  lemma ChildrenAreEntries(account: Account, id: string, kind: Kind)
    requires Children(account, id, kind).Ok?
    ensures forall x :: x in Children(account, id, kind).value <==> IsEntry(account, id, kind, x)
  {
    hide ListFrom;
    hide Keep;
    hide EntriesOf;
    var listing, w := account(id), Only(kind);
    var items := Children(account, id, kind).value;
    ListingIsAllOrNothing(listing, w, items);
    var pages :| IsWhole(listing, "", pages) && |pages| <= MAX_HOPS && items == Keep(w, EntriesOf(pages));
    var at := KeepPicks(w, pages, (x: Item) => x.kind == kind);
    forall x | x in items
      ensures IsEntry(account, id, kind, x)
    {
      var j :| 0 <= j < |items| && items[j] == x;
      assert IsSpot(pages, at[j]) && EntryAt(pages, at[j]) == x;
    }
    forall x | IsEntry(account, id, kind, x)
      ensures x in items
    {
      var others, s :| IsWhole(listing, "", others) && IsSpot(others, s) && EntryAt(others, s) == x;
      WholeIsOne(listing, "", pages, others);
      var j :| 0 <= j < |at| && at[j] == s;
      assert items[j] == x;
    }
  }

  lemma {:induction false} WholeIsOne(listing: Listing, marker: string, a: seq<Page>, b: seq<Page>)
    requires IsWhole(listing, marker, a) && IsWhole(listing, marker, b)
    ensures a == b
    decreases |a|
  {
    if a[0].nextMarker != "" {
      WholeIsOne(listing, a[0].nextMarker, a[1..], b[1..]);
    }
    assert a == [a[0]] + a[1..] && b == [b[0]] + b[1..];
  }

  function Named(items: seq<Item>, name: string): (r: Option<Item>)
    ensures r.Some? ==> r.value in items && r.value.name == name
    ensures r.None? ==> forall x :: x in items ==> x.name != name
  {
    if items == [] then None
    else if items[0].name == name then Some(items[0])
    else Named(items[1..], name)
  }

  function Descend(account: Account, id: string, segments: seq<string>): Result<string, Failure>
    decreases |segments|
  {
    if segments == [] then Ok(id)
    else
      match Children(account, id, Folder)
      case Err(e) => Err(e)
      case Ok(items) =>
        match Named(items, segments[0])
        case None => Err(NoFolder(segments[0]))
        case Some(child) => Descend(account, child.id, segments[1..])
  }

  function Resolve(account: Account, root: string, path: string): Result<string, Failure> {
    if path == "" then Ok(root) else Descend(account, root, Split(path))
  }

  /** `resolveFolderId`. */
  method ResolveFolderId(account: Account, root: string, path: string) returns (r: Result<string, Failure>)
    ensures r == Resolve(account, root, path)
  {
    if path == "" { return Ok(root); }
    var current := root;
    var segments := Split(path);
    for k := 0 to |segments|
      invariant Descend(account, root, segments) == Descend(account, current, segments[k..])
    {
      assert segments[k..][1..] == segments[k + 1..];
      var children := ListPages(account(current), Only(Folder));
      if children.Err? { return Err(children.error); }
      var i := 0;
      while i < |children.value| && children.value[i].name != segments[k]
        invariant 0 <= i <= |children.value|
        invariant Named(children.value, segments[k]) == Named(children.value[i..], segments[k])
      {
        assert children.value[i..][1..] == children.value[i + 1..];
        i := i + 1;
      }
      if i == |children.value| { return Err(NoFolder(segments[k])); }
      current := children.value[i].id;
    }
    return Ok(current);
  }

  /** The first folder of that name in a folder's listing. */
  ghost predicate IsStep(account: Account, id: string, name: string, next: string) {
    && Children(account, id, Folder).Ok?
    && var items := Children(account, id, Folder).value;
       exists i :: && 0 <= i < |items| && items[i].name == name && items[i].id == next
                   && forall j :: 0 <= j < i ==> items[j].name != name
  }

  ghost predicate AreSteps(account: Account, ids: seq<string>, segments: seq<string>) {
    && 0 < |ids| <= |segments| + 1
    && forall k :: 0 <= k < |ids| - 1 ==> IsStep(account, ids[k], segments[k], ids[k + 1])
  }

  /** What stops at a folder: its listing's failure, or no folder of that name in it. */
  ghost predicate IsStop(account: Account, id: string, name: string, e: Failure) {
    match Children(account, id, Folder)
    case Err(failure) => e == failure
    case Ok(items) => e == NoFolder(name) && forall x :: x in items ==> x.name != name
  }

  lemma {:induction false} NamedIsFirst(items: seq<Item>, name: string) returns (i: nat)
    ensures i <= |items| && forall j :: 0 <= j < i ==> items[j].name != name
    ensures if i == |items| then Named(items, name) == None
            else Named(items, name) == Some(items[i]) && items[i].name == name
  {
    if items == [] || items[0].name == name {
      i := 0;
    } else {
      var k := NamedIsFirst(items[1..], name);
      i := k + 1;
      forall j | 0 <= j < i
        ensures items[j].name != name
      {
        if j > 0 { assert items[j] == items[1..][j - 1]; }
      }
    }
  }

  lemma {:induction false} DescentIsSteps(account: Account, id: string, segments: seq<string>)
    returns (ids: seq<string>)
    ensures AreSteps(account, ids, segments) && ids[0] == id
    ensures if |ids| == |segments| + 1 then Descend(account, id, segments) == Ok(ids[|ids| - 1])
            else && Descend(account, id, segments).Err?
                 && IsStop(account, ids[|ids| - 1], segments[|ids| - 1], Descend(account, id, segments).error)
    decreases |segments|
  {
    hide ListFrom;
    ids := [id];
    if segments == [] || Children(account, id, Folder).Err? {
    } else {
      var items := Children(account, id, Folder).value;
      var i := NamedIsFirst(items, segments[0]);
      if i < |items| {
        var more := DescentIsSteps(account, items[i].id, segments[1..]);
        ids := [id] + more;
        assert IsStep(account, id, segments[0], items[i].id);
        forall k | 0 <= k < |ids| - 1
          ensures IsStep(account, ids[k], segments[k], ids[k + 1])
        {
          if k > 0 { assert IsStep(account, more[k - 1], segments[1..][k - 1], more[k]); }
        }
      }
    }
  }

  /**
   A path is resolved by one step for each name between its slashes, from the
   root on; and when it is not, by as many as there are, with the reason.
   */
  lemma ResolvesStepByStep(account: Account, root: string, path: string) returns (ids: seq<string>)
    ensures var segments := if path == "" then [] else Split(path);
            && AreSteps(account, ids, segments)
            && ids[0] == root
            && (if |ids| == |segments| + 1 then Resolve(account, root, path) == Ok(ids[|ids| - 1])
                else
                  && Resolve(account, root, path).Err?
                  && IsStop(account, ids[|ids| - 1], segments[|ids| - 1], Resolve(account, root, path).error))
  {
    ids := DescentIsSteps(account, root, if path == "" then [] else Split(path));
  }

  // ---------------------------------------------------------------------
  // Ids to paths
  // ---------------------------------------------------------------------

  /** A folder's row as the walk writes it, with the id the walk went on with. */
  datatype Row = Row(path: string, name: string, id: string)

  function ChildPath(folderPath: string, name: string): string {
    if folderPath != "" then folderPath + "/" + name else name
  }

  /** Folders hold only folders of lower rank: the walk comes to an end. */
  ghost predicate IsFinite(account: Account, rank: map<string, nat>) {
    forall id, c :: id in rank && Children(account, id, Folder).Ok? && c in Children(account, id, Folder).value ==>
      c.id in rank && rank[c.id] < rank[id]
  }

  function Walk(account: Account, ghost rank: map<string, nat>, id: string, prefix: string): Result<seq<Row>, Failure>
    requires IsFinite(account, rank) && id in rank
    decreases rank[id], 1, 0
  {
    match Children(account, id, Folder)
    case Err(e) => Err(e)
    case Ok(items) => WalkEach(account, rank, id, items, prefix)
  }

  function WalkEach(account: Account, ghost rank: map<string, nat>, ghost id: string, items: seq<Item>,
                    prefix: string): Result<seq<Row>, Failure>
    requires IsFinite(account, rank) && id in rank
    requires forall c :: c in items ==> c.id in rank && rank[c.id] < rank[id]
    decreases rank[id], 0, |items|
  {
    if items == [] then Ok([])
    else
      var path := ChildPath(prefix, items[0].name);
      Prefixed([Row(path, items[0].name, items[0].id)],
               Then(Walk(account, rank, items[0].id, path), WalkEach(account, rank, id, items[1..], prefix)))
  }

  function Then<T>(a: Result<seq<T>, Failure>, b: Result<seq<T>, Failure>): Result<seq<T>, Failure> {
    if a.Err? then a else Prefixed(a.value, b)
  }

  lemma PrefixedThen<T>(out: seq<T>, row: T, a: Result<seq<T>, Failure>, b: Result<seq<T>, Failure>)
    ensures Prefixed(out, Prefixed([row], Then(a, b))) ==
            if a.Err? then Err(a.error) else Prefixed(out + [row] + a.value, b)
  {
    PrefixedTwice(out, [row], Then(a, b));
    if a.Ok? {
      PrefixedTwice(out + [row], a.value, b);
    }
  }

  /** The walk of `listFolders`, adding its rows to `out` as it goes. */
  method WalkFolder(account: Account, ghost rank: map<string, nat>, id: string, prefix: string, out: seq<Row>)
    returns (r: Result<seq<Row>, Failure>)
    requires IsFinite(account, rank) && id in rank
    ensures r == Prefixed(out, Walk(account, rank, id, prefix))
    decreases rank[id]
  {
    var children := ListPages(account(id), Only(Folder));
    if children.Err? { return Err(children.error); }
    r := WalkItems(account, rank, id, children.value, prefix, out);
  }

  method WalkItems(account: Account, ghost rank: map<string, nat>, ghost id: string, items: seq<Item>, prefix: string,
                   out: seq<Row>)
    returns (r: Result<seq<Row>, Failure>)
    requires IsFinite(account, rank) && id in rank
    requires forall c :: c in items ==> c.id in rank && rank[c.id] < rank[id]
    ensures r == Prefixed(out, WalkEach(account, rank, id, items, prefix))
    decreases rank[id], 0
  {
    var rows := out;
    for k := 0 to |items|
      invariant Prefixed(out, WalkEach(account, rank, id, items, prefix)) ==
                Prefixed(rows, WalkEach(account, rank, id, items[k..], prefix))
    {
      assert items[k..][1..] == items[k + 1..];
      var path := ChildPath(prefix, items[k].name);
      var row := Row(path, items[k].name, items[k].id);
      PrefixedThen(rows, row, Walk(account, rank, items[k].id, path),
                   WalkEach(account, rank, id, items[k + 1..], prefix));
      var under := WalkFolder(account, rank, items[k].id, path, rows + [row]);
      if under.Err? { return Err(under.error); }
      rows := under.value;
    }
    assert rows + [] == rows;
    return Ok(rows);
  }

  /** `listFolders`: the root, then every folder under it, depth first. */
  method ListFolders(account: Account, root: string, ghost rank: map<string, nat>)
    returns (r: Result<seq<Row>, Failure>)
    requires IsFinite(account, rank) && root in rank
    ensures r == Folders(account, root, rank)
  {
    r := WalkFolder(account, rank, root, "", [Row("", "", root)]);
  }

  function Folders(account: Account, root: string, ghost rank: map<string, nat>): Result<seq<Row>, Failure>
    requires IsFinite(account, rank) && root in rank
  {
    Prefixed([Row("", "", root)], Walk(account, rank, root, ""))
  }

  // ---------------------------------------------------------------------
  // Which entries the rows are of
  // ---------------------------------------------------------------------

  /** The row of an entry in a folder, by the folder's own row. */
  function RowIn(parent: Row, item: Item): Row {
    Row(if parent.path == "" then item.name else parent.path + "/" + item.name, item.name, item.id)
  }

  /** The row of a folder that is an entry in the parent's. */
  ghost predicate IsUnder(account: Account, parent: Row, row: Row) {
    exists item :: IsEntry(account, parent.id, Folder, item) && row == RowIn(parent, item)
  }

  ghost predicate IsUnderEarlier(account: Account, rows: seq<Row>, j: nat)
    requires j < |rows|
  {
    exists i :: 0 <= i < j && IsUnder(account, rows[i], rows[j])
  }

  /** Every row under this one is among the rows. */
  ghost predicate HasAllUnder(account: Account, parent: Row, rows: seq<Row>) {
    forall row :: IsUnder(account, parent, row) ==> row in rows
  }

  /** Every row but the first is under one before it, and everything under a row is a row. */
  ghost predicate AreAllUnder(account: Account, rows: seq<Row>) {
    && (forall j: nat :: 0 < j < |rows| ==> IsUnderEarlier(account, rows, j))
    && (forall row :: row in rows ==> HasAllUnder(account, row, rows))
  }

  ghost predicate IsRowOfOne(parent: Row, items: seq<Item>, row: Row) {
    exists item :: item in items && row == RowIn(parent, item)
  }

  /** The same of the rows of a folder's items and of what is under them. */
  ghost predicate AreUnderItems(account: Account, parent: Row, items: seq<Item>, rows: seq<Row>) {
    && (forall j: nat :: j < |rows| ==> IsRowOfOne(parent, items, rows[j]) || IsUnderEarlier(account, rows, j))
    && (forall row :: row in rows ==> HasAllUnder(account, row, rows))
    && (forall item :: item in items ==> RowIn(parent, item) in rows)
  }

  lemma EarlierInAppend(account: Account, a: seq<Row>, b: seq<Row>)
    ensures forall j: nat :: j < |a| && IsUnderEarlier(account, a, j) ==> IsUnderEarlier(account, a + b, j)
    ensures forall j: nat :: j < |b| && IsUnderEarlier(account, b, j) ==> IsUnderEarlier(account, a + b, |a| + j)
  {
    hide IsUnder;
    var rows := a + b;
    forall j: nat | j < |a| && IsUnderEarlier(account, a, j)
      ensures IsUnderEarlier(account, rows, j)
    {
      var i :| 0 <= i < j && IsUnder(account, a[i], a[j]);
      assert IsUnder(account, rows[i], rows[j]);
    }
    forall j: nat | j < |b| && IsUnderEarlier(account, b, j)
      ensures IsUnderEarlier(account, rows, |a| + j)
    {
      var i :| 0 <= i < j && IsUnder(account, b[i], b[j]);
      assert IsUnder(account, rows[|a| + i], rows[|a| + j]);
    }
  }

  lemma UnderAppend(account: Account, parent: Row, items: seq<Item>, a: seq<Row>, b: seq<Row>)
    requires items != [] && a != [] && RowIn(parent, items[0]) == a[0]
    requires AreAllUnder(account, a) && AreUnderItems(account, parent, items[1..], b)
    ensures AreUnderItems(account, parent, items, a + b)
  {
    hide IsUnder;
    hide IsUnderEarlier;
    hide RowIn;
    var n, rows := |a|, a + b;
    assert items == [items[0]] + items[1..];
    EarlierInAppend(account, a, b);
    forall j: nat | j < |rows|
      ensures IsRowOfOne(parent, items, rows[j]) || IsUnderEarlier(account, rows, j)
    {
      if j == 0 {
        assert items[0] in items;
      } else if j < n {
        assert IsUnderEarlier(account, a, j);
      } else {
        var k: nat := j - n;
        assert IsRowOfOne(parent, items[1..], b[k]) || IsUnderEarlier(account, b, k);
        assert rows[j] == b[k] && n + k == j;
      }
    }
    assert forall row :: row in rows <==> row in a || row in b;
  }

  lemma FirstAbove(account: Account, parent: Row, items: seq<Item>, rows: seq<Row>)
    requires AreUnderItems(account, parent, items, rows)
    requires forall x :: x in items <==> IsEntry(account, parent.id, Folder, x)
    ensures AreAllUnder(account, [parent] + rows)
  {
    hide IsEntry;
    hide RowIn;
    var all := [parent] + rows;
    assert forall item :: item in items ==> IsUnder(account, parent, RowIn(parent, item));
    forall j: nat | 0 < j < |all|
      ensures IsUnderEarlier(account, all, j)
    {
      hide IsUnder;
      EarlierBehindOne(account, parent, items, rows, j);
    }
    assert HasAllUnder(account, parent, rows);
    hide IsUnder;
    hide IsUnderEarlier;
    assert forall row :: row in all <==> row == parent || row in rows;
  }

  lemma EarlierBehindOne(account: Account, parent: Row, items: seq<Item>, rows: seq<Row>, j: nat)
    requires 0 < j <= |rows|
    requires IsRowOfOne(parent, items, rows[j - 1]) || IsUnderEarlier(account, rows, j - 1)
    requires forall item :: item in items ==> IsUnder(account, parent, RowIn(parent, item))
    ensures IsUnderEarlier(account, [parent] + rows, j)
  {
    hide IsUnder;
    hide RowIn;
    var all := [parent] + rows;
    if IsUnderEarlier(account, rows, j - 1) {
      EarlierInAppend(account, [parent], rows);
    } else {
      assert IsUnder(account, all[0], all[j]);
    }
  }

  lemma {:induction false} WalkedAreUnder(account: Account, rank: map<string, nat>, parent: Row)
    requires IsFinite(account, rank) && parent.id in rank && Walk(account, rank, parent.id, parent.path).Ok?
    ensures AreAllUnder(account, [parent] + Walk(account, rank, parent.id, parent.path).value)
    decreases rank[parent.id], 1, 0
  {
    hide ListFrom;
    hide IsEntry;
    var items := Children(account, parent.id, Folder).value;
    EachAreUnder(account, rank, parent, items);
    ChildrenAreEntries(account, parent.id, Folder);
    FirstAbove(account, parent, items, Walk(account, rank, parent.id, parent.path).value);
  }

  lemma {:induction false} EachAreUnder(account: Account, rank: map<string, nat>, parent: Row, items: seq<Item>)
    requires IsFinite(account, rank) && parent.id in rank
    requires forall c :: c in items ==> c.id in rank && rank[c.id] < rank[parent.id]
    requires WalkEach(account, rank, parent.id, items, parent.path).Ok?
    ensures AreUnderItems(account, parent, items, WalkEach(account, rank, parent.id, items, parent.path).value)
    decreases rank[parent.id], 0, |items|
  {
    hide ListFrom;
    hide AreUnderItems;
    hide AreAllUnder;
    if items == [] {
      NothingUnder(account, parent);
    } else {
      var row, under, rest := EachStep(account, rank, parent, items);
      WalkedAreUnder(account, rank, row);
      EachAreUnder(account, rank, parent, items[1..]);
      UnderAppend(account, parent, items, [row] + under, rest);
    }
  }

  lemma NothingUnder(account: Account, parent: Row)
    ensures AreUnderItems(account, parent, [], [])
  {
  }

  lemma EachStep(account: Account, rank: map<string, nat>, parent: Row, items: seq<Item>)
    returns (row: Row, under: seq<Row>, rest: seq<Row>)
    requires IsFinite(account, rank) && parent.id in rank && items != []
    requires forall c :: c in items ==> c.id in rank && rank[c.id] < rank[parent.id]
    requires WalkEach(account, rank, parent.id, items, parent.path).Ok?
    ensures row == RowIn(parent, items[0])
    ensures Walk(account, rank, row.id, row.path) == Ok(under)
    ensures WalkEach(account, rank, parent.id, items[1..], parent.path) == Ok(rest)
    ensures WalkEach(account, rank, parent.id, items, parent.path).value == [row] + under + rest
  {
    hide ListFrom;
    hide Walk;
    row := RowIn(parent, items[0]);
    assert row.path == ChildPath(parent.path, items[0].name);
    under := Walk(account, rank, row.id, row.path).value;
    rest := WalkEach(account, rank, parent.id, items[1..], parent.path).value;
    assert [row] + (under + rest) == [row] + under + rest;
  }

  /**
   The rows of a walk that ends: the root's first, each other one after the
   row of the folder it is in, whose listing has it as a folder; and every
   folder that a row's listing has is a row, nothing else being one.
   */
  lemma RowsAreOfFolders(account: Account, root: string, rank: map<string, nat>)
    requires IsFinite(account, rank) && root in rank && Folders(account, root, rank).Ok?
    ensures var rows := Folders(account, root, rank).value;
            rows != [] && rows[0] == Row("", "", root) && AreAllUnder(account, rows)
  {
    hide Walk;
    WalkedAreUnder(account, rank, Row("", "", root));
  }

  // ---------------------------------------------------------------------
  // What Box promises of its folders
  // ---------------------------------------------------------------------

  function Kids(account: Account, id: string, kind: Kind): seq<Item> {
    match Children(account, id, kind) case Ok(items) => items case Err(_) => []
  }

  /** Siblings of one kind: their names are names, and no two are the same. */
  ghost predicate Siblings(items: seq<Item>) {
    && (forall k :: 0 <= k < |items| ==> IsName(items[k].name))
    && (forall j, k :: 0 <= j < k < |items| ==> items[j].name != items[k].name)
  }

  /** A finite tree of folders whose every listing is answered whole. */
  ghost predicate IsTree(account: Account, root: string, rank: map<string, nat>) {
    && root in rank
    && IsFinite(account, rank)
    && (forall id, kind: Kind :: id in rank ==> Children(account, id, kind).Ok?)
    && (forall id, kind: Kind :: id in rank && !kind.WebLink? ==> Siblings(Kids(account, id, kind)))
  }

  lemma NamedSibling(items: seq<Item>, k: nat)
    requires Siblings(items) && k < |items|
    ensures Named(items, items[k].name) == Some(items[k])
  {
    var found := Named(items, items[k].name).value;
    var j :| 0 <= j < |items| && items[j] == found;
  }

  // ---------------------------------------------------------------------
  // The folders a walk lists, by the names that lead to them
  // ---------------------------------------------------------------------

  datatype Place = Place(segments: seq<string>, id: string)

  function RowOf(p: Place): Row {
    Row(Join(p.segments), if p.segments == [] then "" else p.segments[|p.segments| - 1], p.id)
  }

  function RowsOf(ps: seq<Place>): seq<Row> {
    seq(|ps|, i requires 0 <= i < |ps| => RowOf(ps[i]))
  }

  ghost function Places(account: Account, rank: map<string, nat>, id: string, segments: seq<string>): seq<Place>
    requires IsFinite(account, rank) && id in rank
    decreases rank[id], 1, 0
  {
    PlacesFrom(account, rank, id, 0, segments)
  }

  /** The places under the folder's children from the `k`th on. */
  ghost function PlacesFrom(account: Account, rank: map<string, nat>, id: string, k: nat,
                            segments: seq<string>): seq<Place>
    requires IsFinite(account, rank) && id in rank
    decreases rank[id], 0, |Kids(account, id, Folder)| - k
  {
    var kids := Kids(account, id, Folder);
    if k >= |kids| then []
    else
      assert kids[k] in kids;
      var here := segments + [kids[k].name];
      [Place(here, kids[k].id)] + Places(account, rank, kids[k].id, here)
        + PlacesFrom(account, rank, id, k + 1, segments)
  }

  lemma ChildPathJoins(segments: seq<string>, name: string)
    requires AreNames(segments)
    ensures ChildPath(Join(segments), name) == Join(segments + [name])
  {
    JoinIsEmpty(segments);
    JoinAppend(segments, name);
  }

  lemma {:induction false} WalkIsPlaces(account: Account, root: string, rank: map<string, nat>, id: string,
                                        segments: seq<string>)
    requires IsTree(account, root, rank) && id in rank && AreNames(segments)
    ensures Walk(account, rank, id, Join(segments)) == Ok(RowsOf(Places(account, rank, id, segments)))
    decreases rank[id], 1, 0
  {
    var kids := Kids(account, id, Folder);
    assert kids[0..] == kids;
    WalkIsPlacesFrom(account, root, rank, id, 0, segments);
  }

  lemma {:induction false} WalkIsPlacesFrom(account: Account, root: string, rank: map<string, nat>, id: string,
                                            k: nat, segments: seq<string>)
    requires IsTree(account, root, rank) && id in rank && AreNames(segments) && k <= |Kids(account, id, Folder)|
    ensures forall c :: c in Kids(account, id, Folder)[k..] ==> c.id in rank && rank[c.id] < rank[id]
    ensures WalkEach(account, rank, id, Kids(account, id, Folder)[k..], Join(segments))
            == Ok(RowsOf(PlacesFrom(account, rank, id, k, segments)))
    decreases rank[id], 0, |Kids(account, id, Folder)| - k
  {
    hide ListFrom;
    var kids := Kids(account, id, Folder);
    if k < |kids| {
      var c, here := kids[k], segments + [kids[k].name];
      assert c in kids && IsName(c.name);
      ChildPathJoins(segments, c.name);
      WalkIsPlaces(account, root, rank, c.id, here);
      WalkIsPlacesFrom(account, root, rank, id, k + 1, segments);
      var under, rest := Places(account, rank, c.id, here), PlacesFrom(account, rank, id, k + 1, segments);
      RowsAppend(Place(here, c.id), under, rest);
      WalkEachStep(account, root, rank, id, k, segments);
    } else {
      assert kids[k..] == [] && RowsOf([]) == [];
      assert PlacesFrom(account, rank, id, k, segments) == [];
      assert WalkEach(account, rank, id, [], Join(segments)) == Ok([]);
    }
  }

  lemma WalkEachStep(account: Account, root: string, rank: map<string, nat>, id: string, k: nat, segments: seq<string>)
    requires IsTree(account, root, rank) && id in rank && AreNames(segments) && k < |Kids(account, id, Folder)|
    ensures forall c :: c in Kids(account, id, Folder)[k..] ==> c.id in rank && rank[c.id] < rank[id]
    ensures forall c :: c in Kids(account, id, Folder)[k + 1..] ==> c.id in rank && rank[c.id] < rank[id]
    ensures var c := Kids(account, id, Folder)[k]; var here := segments + [c.name];
            WalkEach(account, rank, id, Kids(account, id, Folder)[k..], Join(segments)) ==
            Prefixed([RowOf(Place(here, c.id))],
                     Then(Walk(account, rank, c.id, Join(here)),
                       WalkEach(account, rank, id, Kids(account, id, Folder)[k + 1..], Join(segments))))
  {
    hide ListFrom;
    hide Walk;
    var kids := Kids(account, id, Folder);
    var c := kids[k];
    ChildPathJoins(segments, c.name);
    assert kids[k..][0] == c && kids[k..][1..] == kids[k + 1..];
  }

  lemma RowsAppend(p: Place, a: seq<Place>, b: seq<Place>)
    ensures Prefixed([RowOf(p)], Then(Ok(RowsOf(a)), Ok(RowsOf(b)))) == Ok(RowsOf([p] + a + b))
  {
    assert [RowOf(p)] + (RowsOf(a) + RowsOf(b)) == RowsOf([p] + a + b);
  }

  /** A place is under `segments`, by names that lead from `id` to it. */
  ghost predicate LeadsTo(account: Account, rank: map<string, nat>, id: string, segments: seq<string>, p: Place) {
    && |segments| < |p.segments|
    && p.segments[..|segments|] == segments
    && AreNames(p.segments)
    && p.id in rank
    && Descend(account, id, p.segments[|segments|..]) == Ok(p.id)
  }

  lemma FirstStep(account: Account, root: string, rank: map<string, nat>, id: string, k: nat, more: seq<string>)
    requires IsTree(account, root, rank) && id in rank && k < |Kids(account, id, Folder)|
    ensures var c := Kids(account, id, Folder)[k]; Descend(account, id, [c.name] + more) == Descend(account, c.id, more)
  {
    var kids := Kids(account, id, Folder);
    NamedSibling(kids, k);
    assert ([kids[k].name] + more)[1..] == more;
  }

  lemma {:induction false} PlacesLead(account: Account, root: string, rank: map<string, nat>, id: string, k: nat,
                                      segments: seq<string>, p: Place)
    requires IsTree(account, root, rank) && id in rank && AreNames(segments)
    requires p in PlacesFrom(account, rank, id, k, segments)
    ensures LeadsTo(account, rank, id, segments, p)
    ensures exists j ::
              k <= j < |Kids(account, id, Folder)| && p.segments[|segments|] == Kids(account, id, Folder)[j].name
    decreases rank[id], |Kids(account, id, Folder)| - k
  {
    hide ListFrom;
    var kids := Kids(account, id, Folder);
    var n := |segments|;
    var c := kids[k];
    assert c in kids && IsName(c.name);
    var here := segments + [c.name];
    if p == Place(here, c.id) {
      FirstStep(account, root, rank, id, k, []);
      assert here[n..] == [c.name] + [];
    } else if p in Places(account, rank, c.id, here) {
      PlacesLead(account, root, rank, c.id, 0, here, p);
      var more := p.segments[n + 1..];
      FirstStep(account, root, rank, id, k, more);
      assert p.segments[n] == here[n] by { assert p.segments[..n + 1][n] == here[n]; }
      assert p.segments[n..] == [c.name] + more;
      assert p.segments[..n] == p.segments[..n + 1][..n] == segments;
    } else {
      PlacesLead(account, root, rank, id, k + 1, segments, p);
    }
  }

  lemma {:induction false} PlacesAreAll(account: Account, root: string, rank: map<string, nat>, id: string,
                                        segments: seq<string>, more: seq<string>)
    requires IsTree(account, root, rank) && id in rank && more != []
    requires Descend(account, id, more).Ok?
    ensures Place(segments + more, Descend(account, id, more).value) in Places(account, rank, id, segments)
    decreases |more|
  {
    hide ListFrom;
    var kids := Kids(account, id, Folder);
    var c := Named(kids, more[0]).value;
    var k :| 0 <= k < |kids| && kids[k] == c;
    var here := segments + [c.name];
    if |more| > 1 {
      PlacesAreAll(account, root, rank, c.id, here, more[1..]);
      assert here + more[1..] == segments + more;
    } else {
      assert more == [c.name];
    }
    PlacesUnder(account, rank, id, 0, k, segments, Place(segments + more, Descend(account, id, more).value));
  }

  lemma {:induction false} PlacesUnder(account: Account, rank: map<string, nat>, id: string, j: nat, k: nat,
                                       segments: seq<string>, p: Place)
    requires IsFinite(account, rank) && id in rank && j <= k < |Kids(account, id, Folder)|
    requires var c := Kids(account, id, Folder)[k]; var here := segments + [c.name];
             c.id in rank && (p == Place(here, c.id) || p in Places(account, rank, c.id, here))
    ensures p in PlacesFrom(account, rank, id, j, segments)
    decreases k - j
  {
    hide ListFrom;
    hide Kids;
    if j < k {
      PlacesUnder(account, rank, id, j + 1, k, segments, p);
    }
  }

  function SegmentsTo(p: Place): seq<string> { p.segments }

  lemma {:induction false} PlacesAreDistinct(account: Account, root: string, rank: map<string, nat>, id: string,
                                             k: nat, segments: seq<string>)
    requires IsTree(account, root, rank) && id in rank && AreNames(segments)
    ensures NoKeyTwice(PlacesFrom(account, rank, id, k, segments), SegmentsTo)
    decreases rank[id], |Kids(account, id, Folder)| - k
  {
    hide ListFrom;
    hide Descend;
    var kids := Kids(account, id, Folder);
    if k < |kids| {
      var c := kids[k];
      assert c in kids && IsName(c.name);
      var here := segments + [c.name];
      var under, rest := Places(account, rank, c.id, here), PlacesFrom(account, rank, id, k + 1, segments);
      PlacesAreDistinct(account, root, rank, c.id, 0, here);
      PlacesAreDistinct(account, root, rank, id, k + 1, segments);
      forall q | q in under
        ensures |q.segments| > |here| && q.segments[|segments|] == c.name
      {
        PlacesLead(account, root, rank, c.id, 0, here, q);
        assert q.segments[..|here|][|segments|] == c.name;
      }
      forall q | q in rest
        ensures |q.segments| > |segments| && q.segments[|segments|] != c.name
      {
        PlacesLead(account, root, rank, id, k + 1, segments, q);
      }
      AppendNoKeyTwice([Place(here, c.id)], under, SegmentsTo);
      AppendNoKeyTwice([Place(here, c.id)] + under, rest, SegmentsTo);
    }
  }

  /** The root and every folder under it. */
  ghost function AllPlaces(account: Account, root: string, rank: map<string, nat>): seq<Place>
    requires IsFinite(account, rank) && root in rank
  {
    [Place([], root)] + Places(account, rank, root, [])
  }

  lemma FoldersAreAllPlaces(account: Account, root: string, rank: map<string, nat>)
    requires IsTree(account, root, rank)
    ensures Folders(account, root, rank) == Ok(RowsOf(AllPlaces(account, root, rank)))
  {
    WalkIsPlaces(account, root, rank, root, []);
    assert Join([]) == "";
    assert [RowOf(Place([], root))] + RowsOf(Places(account, rank, root, [])) == RowsOf(AllPlaces(account, root, rank));
  }

  /** The places are the names that lead somewhere from the root, each once. */
  lemma PlacesAreExact(account: Account, root: string, rank: map<string, nat>)
    requires IsTree(account, root, rank)
    ensures NoKeyTwice(AllPlaces(account, root, rank), SegmentsTo)
    ensures forall p: Place :: p in AllPlaces(account, root, rank) <==> Descend(account, root, p.segments) == Ok(p.id)
    ensures forall p :: p in AllPlaces(account, root, rank) ==> AreNames(p.segments) && p.id in rank
  {
    var under := Places(account, rank, root, []);
    PlacesAreDistinct(account, root, rank, root, 0, []);
    forall p | p in under
      ensures LeadsTo(account, rank, root, [], p) && p.segments[0..] == p.segments
    {
      PlacesLead(account, root, rank, root, 0, [], p);
    }
    AppendNoKeyTwice([Place([], root)], under, SegmentsTo);
    forall p: Place | Descend(account, root, p.segments) == Ok(p.id) && p.segments != []
      ensures p in under
    {
      PlacesAreAll(account, root, rank, root, [], p.segments);
      assert [] + p.segments == p.segments;
    }
  }

  /** One folder is met before another: above it, or by an earlier entry of the folder where they part. */
  ghost predicate ComesBefore(account: Account, id: string, a: seq<string>, b: seq<string>) {
    exists n: nat ::
      && n <= |a| && n < |b|
      && a[..n] == b[..n]
      && (n == |a| || PartsEarlier(account, Descend(account, id, a[..n]), a[n], b[n]))
  }

  ghost predicate PartsEarlier(account: Account, at: Result<string, Failure>, a: string, b: string) {
    && at.Ok?
    && exists x, y :: && 0 <= x < y < |Kids(account, at.value, Folder)|
                      && Kids(account, at.value, Folder)[x].name == a
                      && Kids(account, at.value, Folder)[y].name == b
  }

  lemma BeforeOneDown(account: Account, root: string, rank: map<string, nat>, id: string, k: nat, a: seq<string>,
                      b: seq<string>)
    requires IsTree(account, root, rank) && id in rank && k < |Kids(account, id, Folder)|
    requires ComesBefore(account, Kids(account, id, Folder)[k].id, a, b)
    ensures ComesBefore(account, id, [Kids(account, id, Folder)[k].name] + a,
                        [Kids(account, id, Folder)[k].name] + b)
  {
    var c := Kids(account, id, Folder)[k];
    hide ListFrom;
    hide PartsEarlier;
    var n: nat :| && n <= |a| && n < |b| && a[..n] == b[..n]
                  && (n == |a| || PartsEarlier(account, Descend(account, c.id, a[..n]), a[n], b[n]));
    FirstStep(account, root, rank, id, k, a[..n]);
    MeetsOneDown(account, id, c, n, a, b);
  }

  lemma MeetsOneDown(account: Account, id: string, c: Item, n: nat, a: seq<string>, b: seq<string>)
    requires n <= |a| && n < |b| && a[..n] == b[..n]
    requires n == |a| || PartsEarlier(account, Descend(account, c.id, a[..n]), a[n], b[n])
    requires Descend(account, id, [c.name] + a[..n]) == Descend(account, c.id, a[..n])
    ensures ComesBefore(account, id, [c.name] + a, [c.name] + b)
  {
    hide Descend;
    hide PartsEarlier;
    hide ComesBefore;
    var d, e, m := [c.name] + a, [c.name] + b, n + 1;
    assert d[..m] == [c.name] + a[..n] && e[..m] == [c.name] + b[..n];
    assert n < |a| ==> d[m] == a[n];
    assert e[m] == b[n];
    MeetsAt(account, id, m, d, e);
  }

  lemma MeetsAt(account: Account, id: string, n: nat, a: seq<string>, b: seq<string>)
    requires n <= |a| && n < |b| && a[..n] == b[..n]
    requires n == |a| || PartsEarlier(account, Descend(account, id, a[..n]), a[n], b[n])
    ensures ComesBefore(account, id, a, b)
  {
    hide Descend;
    hide PartsEarlier;
  }

  /** The names of a child of the folder that `segments` lead to, or of something below that child. */
  predicate IsAtOrBelow(segments: seq<string>, name: string, names: seq<string>) {
    |segments| < |names| && names[..|segments| + 1] == segments + [name]
  }

  lemma BeforeAlsoAbove(account: Account, root: string, rank: map<string, nat>, id: string, k: nat,
                        segments: seq<string>, p: seq<string>, q: seq<string>)
    requires IsTree(account, root, rank) && id in rank && k < |Kids(account, id, Folder)|
    requires var name := Kids(account, id, Folder)[k].name;
             IsAtOrBelow(segments, name, p) && IsAtOrBelow(segments, name, q)
    requires ComesBefore(account, Kids(account, id, Folder)[k].id, p[|segments| + 1..], q[|segments| + 1..])
    ensures ComesBefore(account, id, p[|segments|..], q[|segments|..])
  {
    hide ComesBefore;
    var n, name := |segments|, Kids(account, id, Folder)[k].name;
    BeforeOneDown(account, root, rank, id, k, p[n + 1..], q[n + 1..]);
    hide *;
    hide IsAtOrBelow;
    BelowHere(segments, name, p);
    BelowHere(segments, name, q);
  }

  lemma UnderIsBelow(account: Account, root: string, rank: map<string, nat>, id: string, segments: seq<string>,
                     name: string, p: Place)
    requires IsTree(account, root, rank) && id in rank && AreNames(segments + [name])
    requires p in Places(account, rank, id, segments + [name])
    ensures IsAtOrBelow(segments, name, p.segments) && |segments| + 1 < |p.segments|
  {
    PlacesLead(account, root, rank, id, 0, segments + [name], p);
  }

  lemma LaterIsLater(account: Account, root: string, rank: map<string, nat>, id: string, k: nat, segments: seq<string>,
                     p: seq<string>, q: Place)
    requires IsTree(account, root, rank) && id in rank && AreNames(segments) && k < |Kids(account, id, Folder)|
    requires IsAtOrBelow(segments, Kids(account, id, Folder)[k].name, p)
    requires q in PlacesFrom(account, rank, id, k + 1, segments)
    ensures |segments| < |q.segments|
    ensures ComesBefore(account, id, p[|segments|..], q.segments[|segments|..])
  {
    hide ComesBefore;
    var n, kids := |segments|, Kids(account, id, Folder);
    PlacesLead(account, root, rank, id, k + 1, segments, q);
    var y :| k + 1 <= y < |kids| && q.segments[n] == kids[y].name;
    BelowHere(segments, kids[k].name, p);
    PartsHere(account, id, k, y, p[n..], q.segments[n..]);
  }

  /** Places of a folder, each before those that follow it. */
  ghost predicate AreInOrder(account: Account, id: string, n: nat, ps: seq<Place>) {
    && (forall p :: p in ps ==> n < |p.segments|)
    && forall i, j :: 0 <= i < j < |ps| ==> ComesBefore(account, id, ps[i].segments[n..], ps[j].segments[n..])
  }

  lemma AppendInOrder(account: Account, id: string, n: nat, a: seq<Place>, b: seq<Place>)
    requires AreInOrder(account, id, n, a) && AreInOrder(account, id, n, b)
    requires forall p, q :: p in a && q in b ==> ComesBefore(account, id, p.segments[n..], q.segments[n..])
    ensures AreInOrder(account, id, n, a + b)
  {
    hide ComesBefore;
    var all := a + b;
    forall i, j | 0 <= i < j < |all|
      ensures ComesBefore(account, id, all[i].segments[n..], all[j].segments[n..])
    {
      if i < |a| && j >= |a| {
        assert a[i] in a && b[j - |a|] in b;
      }
    }
  }

  lemma UnderInOrder(account: Account, root: string, rank: map<string, nat>, id: string, k: nat, segments: seq<string>)
    requires IsTree(account, root, rank) && id in rank && AreNames(segments) && k < |Kids(account, id, Folder)|
    requires var c := Kids(account, id, Folder)[k]; var here := segments + [c.name];
             c.id in rank && AreNames(here)
             && AreInOrder(account, c.id, |here|, Places(account, rank, c.id, here))
    ensures var c := Kids(account, id, Folder)[k]; var here := segments + [c.name];
            AreInOrder(account, id, |segments|, [Place(here, c.id)] + Places(account, rank, c.id, here))
  {
    hide ComesBefore;
    hide ListFrom;
    hide Descend;
    var n, c := |segments|, Kids(account, id, Folder)[k];
    var here := segments + [c.name];
    var under := Places(account, rank, c.id, here);
    var ps := [Place(here, c.id)] + under;
    forall q | q in under
      ensures IsAtOrBelow(segments, c.name, q.segments) && n + 1 < |q.segments|
    {
      UnderIsBelow(account, root, rank, c.id, segments, c.name, q);
    }
    assert IsAtOrBelow(segments, c.name, here) && here[n + 1..] == [];
    forall i, j | 0 <= i < j < |ps|
      ensures ComesBefore(account, id, ps[i].segments[n..], ps[j].segments[n..])
    {
      assert ps[j] == under[j - 1] && ps[j] in under;
      if i == 0 {
        AboveIsBefore(account, c.id, ps[j].segments[n + 1..]);
      } else {
        assert ps[i] == under[i - 1] && ps[i] in under;
      }
      BeforeAlsoAbove(account, root, rank, id, k, segments, ps[i].segments, ps[j].segments);
    }
  }

  lemma {:induction false} PlacesInOrder(account: Account, root: string, rank: map<string, nat>, id: string, k: nat,
                                         segments: seq<string>)
    requires IsTree(account, root, rank) && id in rank && AreNames(segments)
    ensures AreInOrder(account, id, |segments|, PlacesFrom(account, rank, id, k, segments))
    decreases rank[id], |Kids(account, id, Folder)| - k
  {
    hide ListFrom;
    hide Descend;
    hide ComesBefore;
    var kids, n := Kids(account, id, Folder), |segments|;
    if k < |kids| {
      var c := kids[k];
      assert c in kids && IsName(c.name);
      var here := segments + [c.name];
      var under, rest := Places(account, rank, c.id, here), PlacesFrom(account, rank, id, k + 1, segments);
      PlacesInOrder(account, root, rank, c.id, 0, here);
      UnderInOrder(account, root, rank, id, k, segments);
      PlacesInOrder(account, root, rank, id, k + 1, segments);
      hide AreInOrder;
      var first := [Place(here, c.id)] + under;
      forall p, q | p in first && q in rest
        ensures ComesBefore(account, id, p.segments[n..], q.segments[n..])
      {
        if p in under {
          UnderIsBelow(account, root, rank, c.id, segments, c.name, p);
        }
        LaterIsLater(account, root, rank, id, k, segments, p.segments, q);
      }
      AppendInOrder(account, id, n, first, rest);
    }
  }

  lemma AboveIsBefore(account: Account, id: string, b: seq<string>)
    requires b != []
    ensures ComesBefore(account, id, [], b)
  {
    var a: seq<string> := [];
    assert a[..0] == b[..0];
  }

  lemma BelowHere(segments: seq<string>, name: string, below: seq<string>)
    requires IsAtOrBelow(segments, name, below)
    ensures below[|segments|] == name && below[|segments|..] == [name] + below[|segments| + 1..]
  {
    assert below[|segments|] == (segments + [name])[|segments|];
  }

  lemma PartsHere(account: Account, id: string, x: nat, y: nat, a: seq<string>, b: seq<string>)
    requires x < y < |Kids(account, id, Folder)| && a != [] && b != []
    requires Kids(account, id, Folder)[x].name == a[0] && Kids(account, id, Folder)[y].name == b[0]
    ensures ComesBefore(account, id, a, b)
  {
    hide Kids;
    assert a[..0] == b[..0] == [];
    EmptyDescent(account, id);
    assert PartsEarlier(account, Descend(account, id, a[..0]), a[0], b[0]);
  }

  /** The walk is depth first: each folder is listed before those under it, and before its later siblings' all. */
  lemma RowsAreDepthFirst(account: Account, root: string, rank: map<string, nat>, i: nat, j: nat)
    requires IsTree(account, root, rank) && i < j < |AllPlaces(account, root, rank)|
    ensures Folders(account, root, rank) == Ok(RowsOf(AllPlaces(account, root, rank)))
    ensures var ps := AllPlaces(account, root, rank);
            ComesBefore(account, root, ps[i].segments, ps[j].segments)
  {
    hide ListFrom;
    hide Descend;
    hide ComesBefore;
    hide Folders;
    FoldersAreAllPlaces(account, root, rank);
    var under := Places(account, rank, root, []);
    if i > 0 {
      PlacesInOrder(account, root, rank, root, 0, []);
      assert under[i - 1].segments[0..] == under[i - 1].segments && under[j - 1].segments[0..] == under[j - 1].segments;
    } else {
      assert under[j - 1] in under;
      PlacesLead(account, root, rank, root, 0, [], under[j - 1]);
      AboveIsBefore(account, root, under[j - 1].segments);
    }
  }

  /**
   `resolveFolderId` undoes `listFolders`: a path resolves to an id exactly
   when the walk lists that path for that folder, and it lists no path twice.
   */
  lemma ResolveUndoesWalk(account: Account, root: string, rank: map<string, nat>, path: string, id: string)
    requires IsTree(account, root, rank)
    ensures Folders(account, root, rank).Ok?
    ensures var rows := Folders(account, root, rank).value;
            && (Resolve(account, root, path) == Ok(id) <==> exists r :: r in rows && r.path == path && r.id == id)
            && (forall i, j :: 0 <= i < j < |rows| ==> rows[i].path != rows[j].path)
  {
    FoldersAreAllPlaces(account, root, rank);
    PlacesAreExact(account, root, rank);
    var ps := AllPlaces(account, root, rank);
    var rows := RowsOf(ps);
    if Resolve(account, root, path) == Ok(id) {
      var segments := if path == "" then [] else Split(path);
      JoinUndoesSplit(path);
      var p := Place(segments, id);
      assert p in ps;
      var i :| 0 <= i < |ps| && ps[i] == p;
      assert rows[i] == RowOf(p);
    }
    forall i | 0 <= i < |rows| && rows[i].path == path
      ensures Resolve(account, root, path) == Ok(rows[i].id)
    {
      assert ps[i] in ps;
      JoinIsEmpty(ps[i].segments);
      if path != "" { SplitUndoesJoin(ps[i].segments); }
    }
    forall i, j | 0 <= i < j < |rows|
      ensures rows[i].path != rows[j].path
    {
      assert ps[i] in ps && ps[j] in ps;
      if rows[i].path == rows[j].path { JoinIsInjective(ps[i].segments, ps[j].segments); }
    }
  }

  // ---------------------------------------------------------------------
  // The files of every folder
  // ---------------------------------------------------------------------

  datatype FileItem = FileItem(path: string, name: string, sourceRef: string)

  function FileItems(folderPath: string, items: seq<Item>): seq<FileItem> {
    seq(|items|, i requires 0 <= i < |items| =>
          FileItem(ChildPath(folderPath, items[i].name), items[i].name, items[i].id))
  }

  function PathsOf(files: seq<FileItem>): seq<string> {
    seq(|files|, i requires 0 <= i < |files| => files[i].path)
  }

  function FilesIn(account: Account, root: string, path: string): Result<seq<FileItem>, Failure> {
    match Resolve(account, root, path)
    case Err(e) => Err(e)
    case Ok(id) =>
      match Children(account, id, File)
      case Err(e) => Err(e)
      case Ok(items) => Ok(FileItems(path, items))
  }

  /** Files as they are listed for a folder's path, and their keys. */
  predicate AreListedAs(path: string, items: seq<Item>, files: seq<FileItem>, keys: seq<string>) {
    && |files| == |items| == |keys|
    && forall j :: 0 <= j < |items| ==>
         && files[j].name == items[j].name
         && files[j].sourceRef == items[j].id
         && files[j].path == keys[j] == (if path == "" then items[j].name else path + "/" + items[j].name)
  }

  /** The items listed for a folder are its entries that are files, as often and in the same order. */
  lemma ItemsAreOfFiles(account: Account, root: string, path: string, id: string, pages: seq<Page>)
    returns (items: seq<Item>)
    requires Resolve(account, root, path) == Ok(id) && IsWhole(account(id), "", pages) && |pages| <= 1000
    ensures FilesIn(account, root, path).Ok? && HoldJust(pages, (x: Item) => x.kind == File, items)
    ensures var files := FilesIn(account, root, path).value;
            AreListedAs(path, items, files, PathsOf(files))
  {
    ChildrenAreOfTheKind(account, id, File, pages, EndlessPaging);
    items := Children(account, id, File).value;
  }

  method ToFileItems(path: string, files: seq<Item>) returns (items: seq<FileItem>)
    ensures items == FileItems(path, files)
  {
    items := [];
    for k := 0 to |files|
      invariant items == FileItems(path, files[..k])
    {
      items := items + [FileItem(ChildPath(path, files[k].name), files[k].name, files[k].id)];
    }
    assert files[..|files|] == files;
  }

  datatype Memo = Memo(path: string, keys: seq<string>)

  class BoxFileSource {
    const root: string
    /** Used at most once, by the `ListKeys` that follows the listing it remembers. */
    var lastListing: Option<Memo>

    constructor (root: string)
      ensures this.root == root && lastListing == None
    {
      this.root := root;
      lastListing := None;
    }

    method ListSince(account: Account, path: string) returns (r: Result<seq<FileItem>, Failure>)
      modifies this
      ensures r == FilesIn(account, root, path)
      ensures lastListing == if r.Ok? then Some(Memo(path, PathsOf(r.value))) else old(lastListing)
    {
      var id := ResolveFolderId(account, root, path);
      if id.Err? { return Err(id.error); }
      var files := ListPages(account(id.value), Only(File));
      if files.Err? { return Err(files.error); }
      var items := ToFileItems(path, files.value);
      lastListing := Some(Memo(path, PathsOf(items)));
      return Ok(items);
    }

    /** The keys of the listing just made, or of a new one: the same function of what Box answered. */
    method ListKeys(account: Account, path: string) returns (r: Result<seq<string>, Failure>)
      modifies this
      ensures lastListing == None
      ensures var memo := old(lastListing);
              if memo.Some? && memo.value.path == path then r == Ok(memo.value.keys)
              else var files := FilesIn(account, root, path);
                   r == if files.Err? then Err(files.error) else Ok(PathsOf(files.value))
    {
      var memo := lastListing;
      lastListing := None;
      if memo.Some? && memo.value.path == path { return Ok(memo.value.keys); }
      var id := ResolveFolderId(account, root, path);
      if id.Err? { return Err(id.error); }
      var files := ListPages(account(id.value), Only(File));
      if files.Err? { return Err(files.error); }
      return Ok(PathsOf(FileItems(path, files.value)));
    }
  }

  /** A pass's listing and its key set agree, even when Box changed in between, and the memo is used once. */
  method KeysOfTheListing(source: BoxFileSource, account: Account, later: Account, path: string)
    returns (files: Result<seq<FileItem>, Failure>, keys: Result<seq<string>, Failure>,
             again: Result<seq<string>, Failure>)
    modifies source
    ensures files == FilesIn(account, source.root, path)
    ensures files.Ok? ==> keys == Ok(PathsOf(files.value))
    ensures var fresh' := FilesIn(later, source.root, path);
            again == if fresh'.Err? then Err(fresh'.error) else Ok(PathsOf(fresh'.value))
  {
    files := source.ListSince(account, path);
    keys := source.ListKeys(later, path);
    again := source.ListKeys(later, path);
  }

  /** Every folder's listing, one after another. */
  ghost function FilesOver(account: Account, root: string, rows: seq<Row>): seq<FileItem> {
    if rows == [] then []
    else (match FilesIn(account, root, rows[0].path) case Ok(files) => files case Err(_) => [])
         + FilesOver(account, root, rows[1..])
  }

  /** A file and the folder it lies in. */
  ghost predicate Holds(account: Account, p: Place, item: Item, f: FileItem) {
    item in Kids(account, p.id, File) && f == FileItem(Join(p.segments + [item.name]), item.name, item.id)
  }

  lemma PlaceFiles(account: Account, root: string, rank: map<string, nat>, p: Place)
    requires IsTree(account, root, rank) && p in AllPlaces(account, root, rank)
    ensures FilesIn(account, root, RowOf(p).path) == Ok(FileItems(Join(p.segments), Kids(account, p.id, File)))
    ensures forall f :: f in FileItems(Join(p.segments), Kids(account, p.id, File)) <==>
              exists item :: Holds(account, p, item, f)
  {
    PlacesAreExact(account, root, rank);
    JoinIsEmpty(p.segments);
    if p.segments != [] { SplitUndoesJoin(p.segments); }
    var items := Kids(account, p.id, File);
    var files := FileItems(Join(p.segments), items);
    forall i | 0 <= i < |items|
      ensures Holds(account, p, items[i], files[i])
    {
      ChildPathJoins(p.segments, items[i].name);
    }
    forall item, f | Holds(account, p, item, f)
      ensures f in files
    {
      var i :| 0 <= i < |items| && items[i] == item;
      assert Holds(account, p, items[i], files[i]);
      assert files[i] == f;
    }
  }

  function PathTo(f: FileItem): string { f.path }

  lemma HeldPaths(p: Place, q: Place, a: string, b: string)
    requires AreNames(p.segments) && AreNames(q.segments) && IsName(a) && IsName(b)
    requires Join(p.segments + [a]) == Join(q.segments + [b])
    ensures p.segments == q.segments && a == b
  {
    JoinIsInjective(p.segments + [a], q.segments + [b]);
    assert (p.segments + [a])[..|p.segments|] == p.segments;
    assert (q.segments + [b])[..|q.segments|] == q.segments;
  }

  lemma OneFolderIsDistinct(account: Account, root: string, rank: map<string, nat>, p: Place)
    requires IsTree(account, root, rank) && p in AllPlaces(account, root, rank)
    ensures NoKeyTwice(FileItems(Join(p.segments), Kids(account, p.id, File)), PathTo)
  {
    PlacesAreExact(account, root, rank);
    var items := Kids(account, p.id, File);
    var files := FileItems(Join(p.segments), items);
    assert Siblings(items);
    forall i, j | 0 <= i < j < |files|
      ensures files[i].path != files[j].path
    {
      ChildPathJoins(p.segments, items[i].name);
      ChildPathJoins(p.segments, items[j].name);
      if files[i].path == files[j].path { HeldPaths(p, p, items[i].name, items[j].name); }
    }
  }

  /** Files of two folders are at two paths. */
  lemma FilesApart(account: Account, root: string, rank: map<string, nat>, p: Place, q: Place, a: Item, b: Item,
                   f: FileItem, g: FileItem)
    requires IsTree(account, root, rank) && p in AllPlaces(account, root, rank) && q in AllPlaces(account, root, rank)
    requires p.segments != q.segments && Holds(account, p, a, f) && Holds(account, q, b, g)
    ensures f.path != g.path
  {
    hide ListFrom;
    PlacesAreExact(account, root, rank);
    assert Siblings(Kids(account, p.id, File)) && Siblings(Kids(account, q.id, File));
    if f.path == g.path { HeldPaths(p, q, a.name, b.name); }
  }

  /** A file of one of some places. */
  ghost predicate HeldIn(account: Account, ps: seq<Place>, f: FileItem) {
    exists p, item :: p in ps && Holds(account, p, item, f)
  }

  lemma HeldInOneMore(account: Account, p: Place, rest: seq<Place>, f: FileItem)
    ensures HeldIn(account, [p] + rest, f) <==> (exists item :: Holds(account, p, item, f)) || HeldIn(account, rest, f)
  {
    hide Holds;
    var ps := [p] + rest;
    assert p in ps && forall q :: q in rest ==> q in ps;
    if item :| Holds(account, p, item, f) {
      assert p in ps && Holds(account, p, item, f);
    }
    if q, item :| q in ps && Holds(account, q, item, f) {
      assert q == p || q in rest;
    }
  }

  /** The files of one folder are at no path of another's. */
  lemma FolderApart(account: Account, root: string, rank: map<string, nat>, p: Place, rest: seq<Place>, f: FileItem,
                    g: FileItem)
    requires IsTree(account, root, rank) && NoKeyTwice([p] + rest, SegmentsTo)
    requires forall q :: q in [p] + rest ==> q in AllPlaces(account, root, rank)
    requires (exists item :: Holds(account, p, item, f)) && HeldIn(account, rest, g)
    ensures f.path != g.path
  {
    hide Holds;
    hide IsTree;
    hide AllPlaces;
    var ps := [p] + rest;
    var item :| Holds(account, p, item, f);
    var q, other :| q in rest && Holds(account, q, other, g);
    var j :| 0 <= j < |rest| && rest[j] == q;
    assert ps[j + 1] == q && SegmentsTo(ps[0]) != SegmentsTo(ps[j + 1]);
    assert p in ps && q in ps;
    FilesApart(account, root, rank, p, q, item, other, f, g);
  }

  lemma {:induction false} FilesOverPlaces(account: Account, root: string, rank: map<string, nat>, ps: seq<Place>)
    requires IsTree(account, root, rank) && NoKeyTwice(ps, SegmentsTo)
    requires forall p :: p in ps ==> p in AllPlaces(account, root, rank)
    ensures var all := FilesOver(account, root, RowsOf(ps));
            && NoKeyTwice(all, PathTo)
            && forall f :: f in all <==> HeldIn(account, ps, f)
    decreases |ps|
  {
    if ps == [] {
    } else {
      var p, rest := ps[0], ps[1..];
      assert RowsOf(ps)[1..] == RowsOf(rest);
      assert ps == [p] + rest;
      PlaceFiles(account, root, rank, p);
      FilesOverPlaces(account, root, rank, rest);
      OneFolderIsDistinct(account, root, rank, p);
      hide Holds;
      hide HeldIn;
      hide IsTree;
      hide AllPlaces;
      var here, more := FileItems(Join(p.segments), Kids(account, p.id, File)), FilesOver(account, root, RowsOf(rest));
      assert FilesOver(account, root, RowsOf(ps)) == here + more;
      hide *;
      forall f, g | f in here && g in more
        ensures PathTo(f) != PathTo(g)
      {
        FolderApart(account, root, rank, p, rest, f, g);
        PathIsPath(f);
        PathIsPath(g);
      }
      AppendNoKeyTwice(here, more, PathTo);
      forall f
        ensures f in here + more <==> HeldIn(account, ps, f)
      {
        HeldInOneMore(account, p, rest, f);
      }
    }
  }

  lemma PathIsPath(f: FileItem)
    ensures PathTo(f) == f.path
  {
  }

  /**
   Listing every folder lists names exactly the files that lie under the root,
   each under the path that leads to it, and no path twice.
   */
  lemma EveryFileIsNamedOnce(account: Account, root: string, rank: map<string, nat>)
    requires IsTree(account, root, rank)
    ensures Folders(account, root, rank).Ok?
    ensures var all := FilesOver(account, root, Folders(account, root, rank).value);
            && NoKeyTwice(all, PathTo)
            && forall f :: f in all <==> exists p: Place, item ::
                 Descend(account, root, p.segments) == Ok(p.id) && Holds(account, p, item, f)
  {
    FoldersAreAllPlaces(account, root, rank);
    PlacesAreExact(account, root, rank);
    FilesOverPlaces(account, root, rank, AllPlaces(account, root, rank));
  }

  /** Box keeps every folder and every file in one folder, and the root in none. */
  ghost predicate OneParent(account: Account, root: string, rank: map<string, nat>) {
    && (forall a, b, kind: Kind, i, j ::
          (&& a in rank && b in rank
           && 0 <= i < |Kids(account, a, kind)| && 0 <= j < |Kids(account, b, kind)|
           && Kids(account, a, kind)[i].id == Kids(account, b, kind)[j].id) ==> a == b && i == j)
    && (forall a, i :: a in rank && 0 <= i < |Kids(account, a, Folder)| ==> Kids(account, a, Folder)[i].id != root)
  }

  lemma {:induction false} LastStep(account: Account, root: string, rank: map<string, nat>, id: string,
                                    segments: seq<string>)
    returns (parent: string, i: nat)
    requires IsTree(account, root, rank) && id in rank && segments != [] && Descend(account, id, segments).Ok?
    ensures Descend(account, id, segments[..|segments| - 1]) == Ok(parent) && parent in rank
    ensures i < |Kids(account, parent, Folder)|
            && Kids(account, parent, Folder)[i].id == Descend(account, id, segments).value
    ensures Kids(account, parent, Folder)[i].name == segments[|segments| - 1]
    decreases |segments|
  {
    hide ListFrom;
    var kids := Kids(account, id, Folder);
    var c := Named(kids, segments[0]).value;
    if |segments| == 1 {
      parent := id;
      i :| 0 <= i < |kids| && kids[i] == c;
    } else {
      parent, i := LastStep(account, root, rank, c.id, segments[1..]);
      var front := segments[..|segments| - 1];
      assert front[0] == segments[0] && front[1..] == segments[1..][..|segments| - 2];
    }
  }

  /** So one folder is reached by one list of names. */
  lemma {:induction false} OneWayDown(account: Account, root: string, rank: map<string, nat>, a: seq<string>,
                                      b: seq<string>)
    requires IsTree(account, root, rank) && OneParent(account, root, rank)
    requires Descend(account, root, a).Ok? && Descend(account, root, b) == Descend(account, root, a)
    ensures a == b
    decreases |a|
  {
    hide ListFrom;
    hide Descend;
    if a != [] && b != [] {
      var p, i := LastStep(account, root, rank, root, a);
      var q, j := LastStep(account, root, rank, root, b);
      OneWayDown(account, root, rank, a[..|a| - 1], b[..|b| - 1]);
      assert a == a[..|a| - 1] + [a[|a| - 1]] && b == b[..|b| - 1] + [b[|b| - 1]];
    } else if a != [] {
      var p, i := LastStep(account, root, rank, root, a);
      assert Descend(account, root, []) == Ok(root) by { EmptyDescent(account, root); }
    } else if b != [] {
      var q, j := LastStep(account, root, rank, root, b);
      assert Descend(account, root, []) == Ok(root) by { EmptyDescent(account, root); }
    }
  }

  lemma EmptyDescent(account: Account, id: string)
    ensures Descend(account, id, []) == Ok(id)
  {
  }

  /** And every file, by Box's own id, is named once over all the listings. */
  lemma EveryFileIdIsNamedOnce(account: Account, root: string, rank: map<string, nat>, i: nat, j: nat)
    requires IsTree(account, root, rank) && OneParent(account, root, rank)
    requires Folders(account, root, rank).Ok?
    requires i < j < |FilesOver(account, root, Folders(account, root, rank).value)|
    ensures var all := FilesOver(account, root, Folders(account, root, rank).value);
            all[i].sourceRef != all[j].sourceRef
  {
    hide ListFrom;
    hide Descend;
    hide FilesOver;
    hide Walk;
    EveryFileIsNamedOnce(account, root, rank);
    PlacesAreExact(account, root, rank);
    var all := FilesOver(account, root, Folders(account, root, rank).value);
    assert all[i] in all && all[j] in all;
    var p: Place, item :| Descend(account, root, p.segments) == Ok(p.id) && Holds(account, p, item, all[i]);
    var q: Place, other :| Descend(account, root, q.segments) == Ok(q.id) && Holds(account, q, other, all[j]);
    assert p in AllPlaces(account, root, rank) && q in AllPlaces(account, root, rank);
    if item.id == other.id {
      var k :| 0 <= k < |Kids(account, p.id, File)| && Kids(account, p.id, File)[k] == item;
      var l :| 0 <= l < |Kids(account, q.id, File)| && Kids(account, q.id, File)[l] == other;
      OneWayDown(account, root, rank, p.segments, q.segments);
    }
  }

  // ---------------------------------------------------------------------
  // The bin
  // ---------------------------------------------------------------------

  datatype Origin = At(path: string) | OutOfScope | Unnameable

  /** Where the root is in an ancestor chain; its length when it is not there. */
  function RootAt(chain: seq<Ancestor>, root: string): (k: nat)
    ensures k <= |chain|
  {
    if chain == [] || chain[0].id == root then 0 else 1 + RootAt(chain[1..], root)
  }

  function NamesOf(chain: seq<Ancestor>): seq<string> {
    seq(|chain|, i requires 0 <= i < |chain| => chain[i].name)
  }

  function OriginalPathOf(entry: Item, root: string): Origin {
    if entry.chain.None? || entry.chain.value == [] then Unnameable
    else
      var chain := entry.chain.value;
      var k := RootAt(chain, root);
      if k == |chain| then OutOfScope
      else At(ChildPath(Join(NamesOf(chain[k + 1..])), entry.name))
  }

  /** The path of a name below the names that follow the first ancestor that is the root, the `k`th. */
  ghost predicate IsBelowRoot(chain: seq<Ancestor>, root: string, k: nat, names: seq<string>, name: string,
                              path: string) {
    && k + |names| + 1 == |chain|
    && chain[k].id == root
    && (forall j :: 0 <= j < k ==> chain[j].id != root)
    && (forall j :: 0 <= j < |names| ==> names[j] == chain[k + 1 + j].name)
    && path == (if Join(names) == "" then name else Join(names) + "/" + name)
  }

  /**
   An entry without ancestors has no name; one whose ancestors are all others
   than the root was never under it; and any other was at the names below the
   first ancestor that is the root, with its own at the end.
   */
  lemma OriginIsBelowTheRoot(entry: Item, root: string)
    ensures OriginalPathOf(entry, root) == Unnameable <==> entry.chain == None || entry.chain == Some([])
    ensures OriginalPathOf(entry, root) == OutOfScope <==>
            entry.chain.Some? && entry.chain.value != [] && forall a :: a in entry.chain.value ==> a.id != root
    ensures OriginalPathOf(entry, root).At? ==>
              && entry.chain.Some?
              && exists k, names ::
                   IsBelowRoot(entry.chain.value, root, k, names, entry.name, OriginalPathOf(entry, root).path)
  {
    if entry.chain.Some? && entry.chain.value != [] {
      var chain := entry.chain.value;
      var k := RootAt(chain, root);
      RootAtIsFirst(chain, root);
      hide RootAt;
      if k < |chain| {
        var names := NamesOf(chain[k + 1..]);
        hide Join;
        assert IsBelowRoot(chain, root, k, names, entry.name, OriginalPathOf(entry, root).path);
      }
    }
  }

  lemma {:induction false} RootAtIsFirst(chain: seq<Ancestor>, root: string)
    ensures forall j :: 0 <= j < RootAt(chain, root) ==> chain[j].id != root
    ensures RootAt(chain, root) < |chain| ==> chain[RootAt(chain, root)].id == root
  {
    if chain != [] && chain[0].id != root {
      RootAtIsFirst(chain[1..], root);
      forall j | 0 <= j < RootAt(chain, root)
        ensures chain[j].id != root
      {
        if j > 0 { assert chain[j] == chain[1..][j - 1]; }
      }
    }
  }

  /** The ancestors that names lead through, as Box gives them. */
  function Trail(account: Account, id: string, segments: seq<string>): seq<Ancestor>
    requires Descend(account, id, segments).Ok?
    decreases |segments|
  {
    if segments == [] then []
    else
      var child := Named(Children(account, id, Folder).value, segments[0]).value;
      [Ancestor(child.id, child.name)] + Trail(account, child.id, segments[1..])
  }

  lemma NamesAhead(a: Ancestor, rest: seq<Ancestor>)
    ensures NamesOf([a] + rest) == [a.name] + NamesOf(rest)
  {
  }

  lemma {:induction false} TrailNames(account: Account, id: string, segments: seq<string>)
    requires Descend(account, id, segments).Ok?
    ensures NamesOf(Trail(account, id, segments)) == segments
    decreases |segments|
  {
    hide ListFrom;
    if segments == [] {
    } else {
      var child := Named(Children(account, id, Folder).value, segments[0]).value;
      TrailNames(account, child.id, segments[1..]);
      NamesAhead(Ancestor(child.id, child.name), Trail(account, child.id, segments[1..]));
      assert segments == [segments[0]] + segments[1..];
      hide NamesOf;
    }
  }

  lemma {:induction false} RootAfter(above: seq<Ancestor>, rest: seq<Ancestor>, root: string)
    requires forall a :: a in above ==> a.id != root
    requires rest != [] && rest[0].id == root
    ensures RootAt(above + rest, root) == |above|
  {
    if above == [] {
      assert above + rest == rest;
    } else {
      assert (above + rest)[1..] == above[1..] + rest;
      RootAfter(above[1..], rest, root);
    }
  }

  /**
   The bin names an item by the path the listing gave it: for every file of
   every folder under the root, when its chain comes to the root and goes on
   by the folders that lead to it.
   */
  lemma BinAgreesWithListing(account: Account, root: string, rank: map<string, nat>, p: Place, item: Item, f: FileItem,
                             entry: Item, above: seq<Ancestor>, rootName: string)
    requires IsTree(account, root, rank) && Descend(account, root, p.segments) == Ok(p.id) && Holds(account, p, item, f)
    requires entry.name == item.name && (forall a :: a in above ==> a.id != root)
    requires entry.chain == Some(above + [Ancestor(root, rootName)] + Trail(account, root, p.segments))
    ensures Folders(account, root, rank).Ok?
    ensures f in FilesOver(account, root, Folders(account, root, rank).value)
    ensures OriginalPathOf(entry, root) == At(f.path)
  {
    hide ListFrom;
    hide Descend;
    hide Walk;
    hide WalkEach;
    EveryFileIsNamedOnce(account, root, rank);
    PlacesAreExact(account, root, rank);
    var trail := Trail(account, root, p.segments);
    TrailNames(account, root, p.segments);
    assert p in AllPlaces(account, root, rank);
    BinIsAt(entry, root, above, rootName, trail, p.segments);
  }

  lemma BinIsAt(entry: Item, root: string, above: seq<Ancestor>, rootName: string, trail: seq<Ancestor>,
                segments: seq<string>)
    requires (forall a :: a in above ==> a.id != root) && NamesOf(trail) == segments && AreNames(segments)
    requires entry.chain == Some(above + [Ancestor(root, rootName)] + trail)
    ensures OriginalPathOf(entry, root) == At(Join(segments + [entry.name]))
  {
    var rest := [Ancestor(root, rootName)] + trail;
    assert above + [Ancestor(root, rootName)] + trail == above + rest;
    RootAfter(above, rest, root);
    assert (above + rest)[|above| + 1..] == trail;
    ChildPathJoins(segments, entry.name);
  }

  /** The paths the entries had, of those that can be named and were in scope. */
  function NamedPaths(entries: seq<Item>, root: string): (r: set<string>)
    ensures forall path :: path in r <==> exists e :: e in entries && OriginalPathOf(e, root) == At(path)
  {
    if entries == [] then {}
    else
      var last := entries[|entries| - 1];
      assert forall e :: e in entries <==> e in entries[..|entries| - 1] || e == last by {
        assert entries == entries[..|entries| - 1] + [last];
      }
      NamedPaths(entries[..|entries| - 1], root) + match OriginalPathOf(last, root) case At(path) => {path} case _ => {}
  }

  function CountUnnameable(entries: seq<Item>, root: string): nat {
    if entries == [] then 0
    else
      CountUnnameable(entries[..|entries| - 1], root)
      + (if OriginalPathOf(entries[|entries| - 1], root).Unnameable? then 1 else 0)
  }

  function WithoutAncestors(entries: seq<Item>): set<nat> {
    set k: nat | k < |entries| && (entries[k].chain == None || entries[k].chain == Some([]))
  }

  lemma OneMoreEntry(entries: seq<Item>)
    requires entries != []
    ensures var n, front := |entries| - 1, WithoutAncestors(entries[..|entries| - 1]);
            n !in front && WithoutAncestors(entries) ==
            if entries[n].chain == None || entries[n].chain == Some([]) then front + {n} else front
  {
  }

  /** The entries counted are those without ancestors. */
  lemma {:induction false} UnnameableAreWithoutAncestors(entries: seq<Item>, root: string)
    ensures CountUnnameable(entries, root) == |WithoutAncestors(entries)|
  {
    if entries == [] {
      assert WithoutAncestors(entries) == {};
    } else {
      UnnameableAreWithoutAncestors(entries[..|entries| - 1], root);
      OriginIsBelowTheRoot(entries[|entries| - 1], root);
      hide OriginalPathOf;
      OneMoreEntry(entries);
      hide WithoutAncestors;
    }
  }

  datatype TrashListing = TrashListing(paths: seq<string>, unnameable: nat)

  /** `listTrashedPaths`: each nameable path once, and how many entries named nothing. */
  method ListTrashedPaths(trash: Listing, root: string) returns (r: Result<TrashListing, Failure>)
    ensures var entries := ListingOf(trash, NoWebLinks);
            if entries.Err? then r == Err(entries.error)
            else
              && r.Ok?
              && NoRepeats(r.value.paths)
              && (forall path :: path in r.value.paths <==> path in NamedPaths(entries.value, root))
              && r.value.unnameable == CountUnnameable(entries.value, root)
  {
    hide ListFrom;
    var entries := ListPages(trash, NoWebLinks);
    if entries.Err? { return Err(entries.error); }
    if |entries.value| == 0 { return Ok(TrashListing([], 0)); }
    var out: seq<string> := [];
    var unnameable := 0;
    for k := 0 to |entries.value|
      invariant NoRepeats(out)
      invariant forall path :: path in out <==> path in NamedPaths(entries.value[..k], root)
      invariant unnameable == CountUnnameable(entries.value[..k], root)
    {
      assert entries.value[..k + 1][..k] == entries.value[..k];
      var resolved := OriginalPathOf(entries.value[k], root);
      if resolved.At? {
        if resolved.path !in out { out := out + [resolved.path]; }
      } else if resolved.Unnameable? {
        unnameable := unnameable + 1;
      }
    }
    assert entries.value[..|entries.value|] == entries.value;
    return Ok(TrashListing(out, unnameable));
  }
}
