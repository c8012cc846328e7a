/**
 An export archive as a file source, as
 `packages/connectors/src/archive-file-source.ts` places and describes it.
 */
module ArchivePlacement {
  import opened Common
  import opened Sorting

  /** An ISO date. */
  type Date = s: string | s != "" witness "0"

  /** One thing in the archive; `rest` is what only the manifest carries of it. */
  datatype Item = Item(
    path: string, placeIn: seq<string>, contentHash: string, size: nat, createdAt: Option<Date>, rest: string)

  datatype FileItem = FileItem(
    path: string, name: string, size: nat, contentHash: string, modifiedAt: string, createdAt: Option<Date>,
    sourceRef: string)

  /**
   What the manifest is made with: the hash of a text in hex, the rows as JSON
   text, that text's size in bytes, and the two orders the sorts compare by.
   */
  datatype Tools = Tools(
    sha256: string -> string, json: seq<Item> -> string, bytes: string -> nat, collation: Order, codeUnits: Order)

  ghost predicate Sorts(tools: Tools) { IsTotal(tools.collation) && IsTotal(tools.codeUnits) }

  const UNDATED := "1970-01-01T00:00:00.000Z"
  const MANIFEST_PREFIX := "export-archive-manifest-"
  const ROOT := ""

  // ---------------------------------------------------------------------
  // The manifest
  // ---------------------------------------------------------------------

  datatype Manifest = Manifest(name: string, text: string, contentHash: string, modifiedAt: string, fingerprint: string)

  function HashOf(item: Item): string { item.contentHash }

  function Rows(items: seq<Item>, tools: Tools): seq<Item> { Sort(items, HashOf, tools.collation) }

  /** `hashes.join('\n')`. */
  function Lines(hashes: seq<string>): string {
    if hashes == [] then ""
    else if |hashes| == 1 then hashes[0]
    else hashes[0] + "\n" + Lines(hashes[1..])
  }

  function Take12(s: string): string { if |s| <= 12 then s else s[..12] }

  function Fingerprint(hashes: seq<string>, tools: Tools): string { Take12(tools.sha256(Lines(hashes))) }

  function Dates(items: seq<Item>): seq<string> {
    if items == [] then []
    else (if items[0].createdAt.Some? then [items[0].createdAt.value] else []) + Dates(items[1..])
  }

  function Itself(s: string): string { s }

  function Latest(items: seq<Item>, tools: Tools): string {
    var dates := Sort(Dates(items), Itself, tools.codeUnits);
    if dates == [] then UNDATED else dates[|dates| - 1]
  }

  /** `buildArchiveManifest`. */
  function BuildManifest(items: seq<Item>, tools: Tools): Manifest {
    var rows := Rows(items, tools);
    var fingerprint := Fingerprint(Keys(rows, HashOf), tools);
    var text := tools.json(rows);
    Manifest(MANIFEST_PREFIX + fingerprint + ".json", text, tools.sha256(text), Latest(rows, tools), fingerprint)
  }

  /** The fingerprint, and so the manifest's name, depends on nothing but the multiset of content hashes. */
  lemma FingerprintIsOfTheHashes(a: seq<Item>, b: seq<Item>, tools: Tools)
    requires Sorts(tools) && multiset(Keys(a, HashOf)) == multiset(Keys(b, HashOf))
    ensures BuildManifest(a, tools).fingerprint == BuildManifest(b, tools).fingerprint
    ensures BuildManifest(a, tools).name == BuildManifest(b, tools).name
  {
    hide IsTotal;
    SortedKeysAreOne(a, b, HashOf, tools.collation);
  }

  /** The hashes are parted by newlines, and by nothing else. */
  lemma {:induction false} LinesThen(hashes: seq<string>, hash: string)
    ensures Lines(hashes + [hash]) == if hashes == [] then hash else Lines(hashes) + "\n" + hash
  {
    if hashes == [] {
      assert hashes + [hash] == [hash];
    } else {
      assert (hashes + [hash])[1..] == hashes[1..] + [hash];
      LinesThen(hashes[1..], hash);
    }
  }

  /** A date of some item that none of another item is after, or the epoch where no item has one. */
  ghost predicate IsLatest(items: seq<Item>, date: string, codeUnits: Order) {
    if forall item :: item in items ==> item.createdAt.None? then date == "1970-01-01T00:00:00.000Z"
    else
      && (exists item :: item in items && item.createdAt.Some? && item.createdAt.value == date)
      && forall item :: item in items && item.createdAt.Some? ==> !codeUnits(date, item.createdAt.value)
  }

  lemma {:induction false} DatesAreTheItems(items: seq<Item>, date: string)
    ensures date in Dates(items) <==>
            exists item :: item in items && item.createdAt.Some? && item.createdAt.value == date
  {
    if items == [] {
    } else {
      DatesAreTheItems(items[1..], date);
      assert items == [items[0]] + items[1..];
    }
  }

  lemma LastIsLatest(dates: seq<string>, date: string, codeUnits: Order)
    requires IsTotal(codeUnits) && date in dates
    ensures var sorted := Sort(dates, Itself, codeUnits);
            sorted != [] && sorted[|sorted| - 1] in dates && !codeUnits(sorted[|sorted| - 1], date)
  {
    var sorted := Sort(dates, Itself, codeUnits);
    SortAscends(dates, Itself, codeUnits);
    SameMembers(sorted, dates);
    hide Sort;
    var i :| 0 <= i < |sorted| && sorted[i] == date;
    KeyAt(sorted, Itself, i);
    KeyAt(sorted, Itself, |sorted| - 1);
  }

  lemma LatestIs(items: seq<Item>, tools: Tools)
    requires Sorts(tools)
    ensures IsLatest(items, Latest(items, tools), tools.codeUnits)
  {
    var dates := Dates(items);
    if item :| item in items && item.createdAt.Some? {
      DatesAreTheItems(items, item.createdAt.value);
      LastIsLatest(dates, item.createdAt.value, tools.codeUnits);
      DatesAreTheItems(items, Latest(items, tools));
      forall other | other in items && other.createdAt.Some?
        ensures !tools.codeUnits(Latest(items, tools), other.createdAt.value)
      {
        DatesAreTheItems(items, other.createdAt.value);
        LastIsLatest(dates, other.createdAt.value, tools.codeUnits);
      }
    } else if dates != [] {
      DatesAreTheItems(items, dates[0]);
    }
  }

  lemma SameDates(items: seq<Item>, rows: seq<Item>, date: string, codeUnits: Order)
    requires multiset(rows) == multiset(items) && IsLatest(rows, date, codeUnits)
    ensures IsLatest(items, date, codeUnits)
  {
    SameMembers(rows, items);
  }

  /** At most twelve characters, and all there are where there are no more. */
  ghost predicate IsFront12(front: string, whole: string) {
    exists rest :: front + rest == whole && (if rest == "" then |front| <= 12 else |front| == 12)
  }

  /**
   The manifest: its text is of the items in the order of their hashes, its
   name is of the front of those hashes' own hash, and its date the latest.
   */
  lemma ManifestIs(items: seq<Item>, tools: Tools)
    requires Sorts(tools)
    ensures var m, rows := BuildManifest(items, tools), Rows(items, tools);
            && multiset(rows) == multiset(items) && Ascending(Keys(rows, HashOf), tools.collation)
            && m.text == tools.json(rows) && m.contentHash == tools.sha256(m.text)
            && IsFront12(m.fingerprint, tools.sha256(Lines(Keys(rows, HashOf))))
            && m.name == "export-archive-manifest-" + m.fingerprint + ".json"
            && IsLatest(items, m.modifiedAt, tools.codeUnits)
  {
    var rows := Rows(items, tools);
    SortAscends(items, HashOf, tools.collation);
    LatestIs(rows, tools);
    SameDates(items, rows, Latest(rows, tools), tools.codeUnits);
    hide IsLatest;
    hide Sort;
    hide Rows;
    FrontOfHash(tools.sha256(Lines(Keys(rows, HashOf))));
    hide IsFront12;
  }

  lemma FrontOfHash(hash: string)
    ensures IsFront12(Take12(hash), hash)
  {
    var n := if |hash| <= 12 then |hash| else 12;
    assert hash[..n] + hash[n..] == hash;
    assert n == |hash| ==> hash[..n] == hash;
  }

  /** Items of one hash that differ, in any way the manifest shows. */
  ghost predicate Clash(items: seq<Item>) {
    exists i, j :: 0 <= i < j < |items| && items[i].contentHash == items[j].contentHash && items[i] != items[j]
  }

  lemma RowsForgetOrder(a: seq<Item>, b: seq<Item>, tools: Tools)
    requires Sorts(tools) && multiset(a) == multiset(b) && !Clash(a)
    ensures Rows(a, tools) == Rows(b, tools)
  {
    hide IsTotal;
    forall x, y | x in a && y in a && HashOf(x) == HashOf(y)
      ensures x == y
    {
      var i :| 0 <= i < |a| && a[i] == x;
      var j :| 0 <= j < |a| && a[j] == y;
      assert i < j ==> !(a[i].contentHash == a[j].contentHash && a[i] != a[j]);
      assert j < i ==> !(a[j].contentHash == a[i].contentHash && a[j] != a[i]);
    }
    SortForgetsOrder(a, b, HashOf, tools.collation);
  }

  /** The manifest is made of its rows alone. */
  lemma ManifestForgetsOrder(a: seq<Item>, b: seq<Item>, tools: Tools)
    requires Sorts(tools) && multiset(a) == multiset(b) && !Clash(a)
    ensures BuildManifest(a, tools) == BuildManifest(b, tools)
  {
    RowsForgetOrder(a, b, tools);
  }

  /** The items with the `i`th and the `j`th brought to the front, in that order. */
  function Front(items: seq<Item>, i: nat, j: nat): seq<Item>
    requires i < |items| && j < |items| && i != j
  {
    var (low, high) := if i < j then (i, j) else (j, i);
    [items[i], items[j]] + (items[..low] + items[low + 1..high] + items[high + 1..])
  }

  lemma TwoAndTheRest(a: seq<Item>, x: Item, b: seq<Item>, y: Item, c: seq<Item>)
    ensures var items, rest := a + [x] + b + [y] + c, a + b + c;
            multiset([x, y] + rest) == multiset(items) && multiset([y, x] + rest) == multiset(items)
  {
    var items, rest := a + [x] + b + [y] + c, a + b + c;
    assert multiset(items) == multiset(a) + multiset{x} + multiset(b) + multiset{y} + multiset(c);
    assert multiset(rest) == multiset(a) + multiset(b) + multiset(c);
    assert multiset([x, y]) == multiset{x, y} == multiset([y, x]);
  }

  lemma FrontOf(items: seq<Item>, i: nat, j: nat)
    requires i < j < |items|
    ensures var a, b, c := items[..i], items[i + 1..j], items[j + 1..];
            && items == a + [items[i]] + b + [items[j]] + c
            && Front(items, i, j) == [items[i], items[j]] + (a + b + c)
            && Front(items, j, i) == [items[j], items[i]] + (a + b + c)
  {
  }

  lemma FrontIsAPermutation(items: seq<Item>, i: nat, j: nat)
    requires i < j < |items|
    ensures multiset(Front(items, i, j)) == multiset(items) && multiset(Front(items, j, i)) == multiset(items)
  {
    hide Front;
    FrontOf(items, i, j);
    TwoAndTheRest(items[..i], items[i], items[i + 1..j], items[j], items[j + 1..]);
  }

  lemma {:induction false} FirstOfKey(a: Item, rest: seq<Item>)
    ensures OfKey([a] + rest, HashOf, HashOf(a)) != [] && OfKey([a] + rest, HashOf, HashOf(a))[0] == a
    decreases |rest|
  {
    if rest == [] {
      assert [a] + rest == [a] && [a][..0] == [];
      assert OfKey([a][..0], HashOf, HashOf(a)) == [];
    } else {
      FirstOfKey(a, rest[..|rest| - 1]);
      assert ([a] + rest)[..|[a] + rest| - 1] == [a] + rest[..|rest| - 1];
    }
  }

  /** Two items of one hash come out in the order they came in. */
  lemma ClashShows(items: seq<Item>, i: nat, j: nat, tools: Tools)
    requires Sorts(tools) && i < j < |items| && items[i].contentHash == items[j].contentHash && items[i] != items[j]
    ensures Rows(Front(items, i, j), tools) != Rows(Front(items, j, i), tools)
  {
    hide IsTotal;
    var a, b := Front(items, i, j), Front(items, j, i);
    var k := items[i].contentHash;
    SortIsStable(a, HashOf, tools.collation, k);
    SortIsStable(b, HashOf, tools.collation, k);
    FirstOfKey(items[i], a[1..]);
    FirstOfKey(items[j], b[1..]);
    assert a == [items[i]] + a[1..] && b == [items[j]] + b[1..];
  }

  /**
   The manifest's rows are the same for every order the reader met the items
   in exactly when no two items of one hash differ. Distinct hashes are such.
   */
  lemma RowsForgetOrderExactly(items: seq<Item>, tools: Tools)
    requires Sorts(tools)
    ensures (forall a, b :: multiset(a) == multiset(items) && multiset(b) == multiset(items) ==>
              Rows(a, tools) == Rows(b, tools))
            <==> !Clash(items)
  {
    hide IsTotal;
    hide Rows;
    if Clash(items) {
      var i, j :| 0 <= i < j < |items| && items[i].contentHash == items[j].contentHash && items[i] != items[j];
      FrontIsAPermutation(items, i, j);
      ClashShows(items, i, j, tools);
    } else {
      forall a, b | multiset(a) == multiset(items) && multiset(b) == multiset(items)
        ensures Rows(a, tools) == Rows(b, tools)
      {
        RowsForgetOrder(items, a, tools);
        RowsForgetOrder(items, b, tools);
      }
    }
  }

  // ---------------------------------------------------------------------
  // Placement
  // ---------------------------------------------------------------------

  /** `placed`: the item as the file domain sees it, under one of its folders. */
  function Placed(item: Item, folder: string): FileItem {
    FileItem(if folder != "" then folder + "/" + item.path else item.path, item.path, item.size, item.contentHash,
             if item.createdAt.Some? then item.createdAt.value else UNDATED,
             item.createdAt, item.contentHash)
  }

  function ManifestRef(m: Manifest): string { "manifest:" + m.fingerprint }

  function ManifestItem(m: Manifest, tools: Tools): FileItem {
    FileItem(m.name, m.name, tools.bytes(m.text), m.contentHash, m.modifiedAt, None, ManifestRef(m))
  }

  /** One entry of a listing: which item under which folder, or the manifest. */
  datatype Listed = At(k: nat, folder: string) | TheManifest

  predicate IsHere(item: Item, folder: string) {
    if folder == ROOT then item.placeIn == [] else folder in item.placeIn
  }

  /** The first `n` items that are in a folder. */
  function Here(items: seq<Item>, folder: string, n: nat): seq<Listed>
    requires n <= |items|
  {
    if n == 0 then []
    else Here(items, folder, n - 1) + (if IsHere(items[n - 1], folder) then [At(n - 1, folder)] else [])
  }

  function Listing(items: seq<Item>, folder: string): seq<Listed> {
    Here(items, folder, |items|) + (if folder == ROOT then [TheManifest] else [])
  }

  /** The folders named in the first `n` items. */
  function FoldersOf(items: seq<Item>): set<string> {
    set k, f | 0 <= k < |items| && f in items[k].placeIn :: f
  }

  /** `listFolders`: the root, then every folder some item is placed in, sorted. */
  ghost predicate IsFolderList(folders: seq<string>, items: seq<Item>, codeUnits: Order) {
    && folders != [] && folders[0] == ROOT
    && (forall i, j :: 1 <= i < j < |folders| ==> codeUnits(folders[i], folders[j]))
    && (forall f :: f in folders[1..] <==> f in FoldersOf(items))
  }

  function AllListed(items: seq<Item>, folders: seq<string>): seq<Listed> {
    if folders == [] then [] else Listing(items, folders[0]) + AllListed(items, folders[1..])
  }

  /** What a whole import should hold: each item once per distinct folder, or once at the root, and one manifest. */
  predicate IsDue(items: seq<Item>, l: Listed) {
    match l
    case TheManifest => true
    case At(k, folder) => k < |items| && if items[k].placeIn == [] then folder == ROOT else folder in items[k].placeIn
  }

  lemma {:induction false} HereIsExact(items: seq<Item>, folder: string, n: nat)
    requires n <= |items|
    ensures NoRepeats(Here(items, folder, n))
    ensures forall l :: l in Here(items, folder, n) <==>
              l.At? && l.folder == folder && l.k < n && IsHere(items[l.k], folder)
  {
    if n == 0 {
    } else {
      HereIsExact(items, folder, n - 1);
      AppendNoRepeats(Here(items, folder, n - 1), if IsHere(items[n - 1], folder) then [At(n - 1, folder)] else []);
    }
  }

  /** Whether a listing of `folder` holds an entry. */
  predicate InListing(items: seq<Item>, folder: string, l: Listed) {
    match l
    case TheManifest => folder == ROOT
    case At(k, f) => f == folder && k < |items| && IsHere(items[k], folder)
  }

  lemma ListingIsExact(items: seq<Item>, folder: string)
    ensures NoRepeats(Listing(items, folder))
    ensures forall l :: l in Listing(items, folder) <==> InListing(items, folder, l)
  {
    HereIsExact(items, folder, |items|);
    AppendNoRepeats(Here(items, folder, |items|), if folder == ROOT then [TheManifest] else []);
  }

  lemma {:induction false} AllListedIsExact(items: seq<Item>, folders: seq<string>)
    requires NoRepeats(folders)
    ensures NoRepeats(AllListed(items, folders))
    ensures forall l :: l in AllListed(items, folders) <==> exists f :: f in folders && InListing(items, f, l)
    decreases |folders|
  {
    if folders == [] {
    } else {
      var first, rest := folders[0], folders[1..];
      ListingIsExact(items, first);
      AllListedIsExact(items, rest);
      assert first !in rest;
      forall l | l in Listing(items, first)
        ensures l !in AllListed(items, rest)
      {
      }
      AppendNoRepeats(Listing(items, first), AllListed(items, rest));
    }
  }

  lemma {:induction false} ManifestTwice(items: seq<Item>, folders: seq<string>, i: nat)
    requires i < |folders| && folders[i] == ROOT
    ensures TheManifest in AllListed(items, folders)
    decreases |folders|
  {
    ListingIsExact(items, folders[0]);
    if i == 0 {
    } else {
      ManifestTwice(items, folders[1..], i - 1);
    }
  }

  /**
   The listings of a whole import hold each thing due exactly once, exactly
   when no item names the root's own empty path as a folder.
   */
  lemma PlacementConserves(items: seq<Item>, folders: seq<string>, codeUnits: Order)
    requires IsTotal(codeUnits) && IsFolderList(folders, items, codeUnits)
    ensures (NoRepeats(AllListed(items, folders)) && forall l :: l in AllListed(items, folders) <==> IsDue(items, l))
            <==> ROOT !in FoldersOf(items)
  {
    var all := AllListed(items, folders);
    if ROOT in FoldersOf(items) {
      var rest := folders[1..];
      var i :| 0 <= i < |rest| && rest[i] == ROOT;
      ManifestTwice(items, rest, i);
      ListingIsExact(items, ROOT);
      RepeatIsSeen(Listing(items, ROOT), AllListed(items, rest), TheManifest);
    } else {
      forall i, j | 0 <= i < j < |folders|
        ensures folders[i] != folders[j]
      {
        if i == 0 { assert folders[j] == folders[1..][j - 1]; }
      }
      AllListedIsExact(items, folders);
      DueIsListed(items, folders);
    }
  }

  /**
   One item in one folder with no name: the root is a folder twice, and the
   listings hold the manifest twice and no item.
   */
  lemma NamelessFolderLoses(item: Item, codeUnits: Order)
    requires item.placeIn == [ROOT]
    ensures IsFolderList([ROOT, ROOT], [item], codeUnits)
    ensures AllListed([item], [ROOT, ROOT]) == [TheManifest, TheManifest]
    ensures IsDue([item], At(0, ROOT))
  {
    var items, folders := [item], [ROOT, ROOT];
    assert items[0].placeIn[0] == ROOT;
    forall f
      ensures f in FoldersOf(items) <==> f == ROOT
    {
      if f == ROOT { assert 0 < |items| && f in items[0].placeIn; }
    }
    assert folders[1..] == [ROOT] && folders[1..][1..] == [];
    assert Here(items, ROOT, 0) == [];
    assert Here(items, ROOT, 1) == [];
    assert Listing(items, ROOT) == [TheManifest];
    assert AllListed(items, [ROOT]) == [TheManifest] + AllListed(items, []);
    assert AllListed(items, folders) == [TheManifest] + AllListed(items, [ROOT]);
  }

  lemma RepeatIsSeen<T>(a: seq<T>, b: seq<T>, x: T)
    requires x in a && x in b
    ensures !NoRepeats(a + b)
  {
    var i :| 0 <= i < |a| && a[i] == x;
    var j :| 0 <= j < |b| && b[j] == x;
    assert (a + b)[i] == (a + b)[|a| + j];
  }

  lemma DueIsListed(items: seq<Item>, folders: seq<string>)
    requires folders != [] && folders[0] == ROOT && ROOT !in FoldersOf(items)
    requires forall f :: f in folders[1..] <==> f in FoldersOf(items)
    ensures forall l :: IsDue(items, l) <==> exists f :: f in folders && InListing(items, f, l)
  {
    assert folders == [ROOT] + folders[1..];
    forall l
      ensures IsDue(items, l) <==> exists f :: f in folders && InListing(items, f, l)
    {
      match l
      case TheManifest => assert ROOT in folders && InListing(items, ROOT, l);
      case At(k, f) =>
        if k < |items| && f in items[k].placeIn {
          assert f in FoldersOf(items);
          assert f in folders[1..];
        }
        if IsDue(items, l) { assert f in folders && InListing(items, f, l); }
    }
  }

  // ---------------------------------------------------------------------
  // Fetching
  // ---------------------------------------------------------------------

  /** What a fetch answers with: the manifest, or the bytes of an item. */
  datatype Content = ManifestText(text: string) | BytesOf(item: Item)

  function FirstWithHash(items: seq<Item>, hash: string): (r: Option<Item>)
    ensures r.Some? ==> r.value in items && r.value.contentHash == hash
    ensures r.None? ==> forall x :: x in items ==> x.contentHash != hash
  {
    if items == [] then None
    else if items[0].contentHash == hash then Some(items[0])
    else FirstWithHash(items[1..], hash)
  }

  /** The item found by a hash is the first that has it. */
  lemma {:induction false} FoundIsFirst(items: seq<Item>, hash: string, item: Item)
    requires FirstWithHash(items, hash) == Some(item)
    ensures exists k :: 0 <= k < |items| && items[k] == item && forall j :: 0 <= j < k ==> items[j].contentHash != hash
  {
    if items[0].contentHash == hash {
      assert items[0] == item;
    } else {
      var rest := items[1..];
      FoundIsFirst(rest, hash, item);
      var k :| 0 <= k < |rest| && rest[k] == item && forall j :: 0 <= j < k ==> rest[j].contentHash != hash;
      assert items[k + 1] == item;
      forall j | 0 <= j < k + 1
        ensures items[j].contentHash != hash
      {
        if j > 0 { assert items[j] == rest[j - 1]; }
      }
    }
  }

  function Fetched(items: seq<Item>, m: Manifest, sourceRef: string): Option<Content> {
    if sourceRef == ManifestRef(m) then Some(ManifestText(m.text))
    else
      match FirstWithHash(items, sourceRef)
      case None => None
      case Some(item) => Some(BytesOf(item))
  }

  /** An entry of a listing as the file domain sees it. */
  function AsFile(items: seq<Item>, m: Manifest, tools: Tools, l: Listed): FileItem
    requires l.At? ==> l.k < |items|
  {
    match l
    case At(k, folder) => Placed(items[k], folder)
    case TheManifest => ManifestItem(m, tools)
  }

  /**
   Whatever a listing names can be fetched: the manifest its text, an item the
   bytes of an item with its hash. The one exception is an item whose hash is
   spelled as the manifest's own reference, which no hex digest is.
   */
  lemma ListedIsFetched(items: seq<Item>, folder: string, l: Listed, tools: Tools)
    requires l in Listing(items, folder)
    ensures l.At? ==> l.k < |items|
    ensures var m := BuildManifest(items, tools);
            var got := Fetched(items, m, AsFile(items, m, tools, l).sourceRef);
            match l
            case TheManifest => got == Some(ManifestText(m.text))
            case At(k, _) =>
              (got.Some? && got.value.BytesOf? && got.value.item.contentHash == items[k].contentHash)
              <==> items[k].contentHash != ManifestRef(m)
  {
    hide BuildManifest;
    ListingIsExact(items, folder);
    if l.At? {
      assert items[l.k] in items;
    }
  }

  // ---------------------------------------------------------------------
  // The source
  // ---------------------------------------------------------------------

  datatype Opened = Opened(items: seq<Item>, manifest: Manifest)

  /** What one walk of the archive gives, should it be made. */
  type Walk = Result<seq<Item>, string>

  function OpenedBy(walk: Walk, tools: Tools): Result<Opened, string> {
    match walk case Err(e) => Err(e) case Ok(items) => Ok(Opened(items, BuildManifest(items, tools)))
  }

  class ArchiveFileSource {
    const tools: Tools
    /** The one walk, once it has been asked for; a walk that failed is kept too. */
    var memo: Option<Result<Opened, string>>
    /** How many walks there have been. */
    var walks: nat

    ghost predicate Valid()
      reads this
    {
      walks == if memo.Some? then 1 else 0
    }

    constructor (tools: Tools)
      ensures Valid() && this.tools == tools && memo == None
    {
      this.tools := tools;
      memo := None;
      walks := 0;
    }

    method Open(walk: Walk) returns (r: Result<Opened, string>)
      requires Valid()
      modifies this
      ensures Valid() && memo == Some(r)
      ensures r == if old(memo).Some? then old(memo).value else OpenedBy(walk, tools)
    {
      if memo.None? {
        memo := Some(OpenedBy(walk, tools));
        walks := walks + 1;
      }
      return memo.value;
    }

    method ListFolders(walk: Walk) returns (r: Result<seq<string>, string>)
      requires Valid() && IsTotal(tools.codeUnits)
      modifies this
      ensures Valid() && memo == Some(if old(memo).Some? then old(memo).value else OpenedBy(walk, tools))
      ensures if memo.value.Err? then r == Err(memo.value.error)
              else r.Ok? && IsFolderList(r.value, memo.value.value.items, tools.codeUnits)
    {
      var o := Open(walk);
      if o.Err? { return Err(o.error); }
      var folders := SortedFolders(o.value.items, tools.codeUnits);
      return Ok([ROOT] + folders);
    }

    method ListSince(walk: Walk, folder: string) returns (r: Result<seq<FileItem>, string>)
      requires Valid()
      modifies this
      ensures Valid() && memo == Some(if old(memo).Some? then old(memo).value else OpenedBy(walk, tools))
      ensures if memo.value.Err? then r == Err(memo.value.error)
              else var o := memo.value.value; r == Ok(FilesOf(o.items, folder, o.manifest, tools))
    {
      var o := Open(walk);
      if o.Err? { return Err(o.error); }
      var listed := ListHere(o.value.items, folder, o.value.manifest, tools);
      return Ok(listed);
    }

    method Fetch(walk: Walk, item: FileItem) returns (r: Result<Option<Content>, string>)
      requires Valid()
      modifies this
      ensures Valid() && memo == Some(if old(memo).Some? then old(memo).value else OpenedBy(walk, tools))
      ensures if memo.value.Err? then r == Err(memo.value.error)
              else var o := memo.value.value; r == Ok(Fetched(o.items, o.manifest, item.sourceRef))
    {
      var o := Open(walk);
      if o.Err? { return Err(o.error); }
      return Ok(Fetched(o.value.items, o.value.manifest, item.sourceRef));
    }
  }

  /** The files a list of entries stands for; an entry of no item is passed over. */
  function AsFiles(items: seq<Item>, m: Manifest, tools: Tools, ls: seq<Listed>): seq<FileItem> {
    if ls == [] then []
    else
      var last := ls[|ls| - 1];
      AsFiles(items, m, tools, ls[..|ls| - 1])
        + (if last.At? && last.k >= |items| then [] else [AsFile(items, m, tools, last)])
  }

  function FilesOf(items: seq<Item>, folder: string, m: Manifest, tools: Tools): seq<FileItem> {
    AsFiles(items, m, tools, Listing(items, folder))
  }

  lemma OneMoreFile(items: seq<Item>, m: Manifest, tools: Tools, ls: seq<Listed>, l: Listed)
    requires l.At? ==> l.k < |items|
    ensures AsFiles(items, m, tools, ls + [l]) == AsFiles(items, m, tools, ls) + [AsFile(items, m, tools, l)]
  {
    assert (ls + [l])[..|ls|] == ls;
  }

  /** An item in the root is in no folder, and one in a folder is placed in it. */
  predicate IsPlacedIn(item: Item, folder: string) {
    if folder == "" then item.placeIn == [] else folder in item.placeIn
  }

  /** How an item is told in a folder's listing. */
  predicate TellsItem(f: FileItem, item: Item, folder: string) {
    && f.path == (if folder == "" then item.path else folder + "/" + item.path)
    && f.name == item.path
    && f.size == item.size
    && f.contentHash == item.contentHash
    && f.sourceRef == item.contentHash
    && f.createdAt == item.createdAt
    && f.modifiedAt == (if item.createdAt.Some? then item.createdAt.value else "1970-01-01T00:00:00.000Z")
  }

  predicate TellsManifest(f: FileItem, m: Manifest, tools: Tools) {
    && f.path == f.name == m.name
    && f.size == tools.bytes(m.text)
    && f.contentHash == m.contentHash
    && f.sourceRef == "manifest:" + m.fingerprint
    && f.createdAt == None
    && f.modifiedAt == m.modifiedAt
  }

  /** The files are those of the first `n` items that are in the folder, in order. */
  ghost predicate TellItems(files: seq<FileItem>, items: seq<Item>, n: nat, folder: string, at: seq<nat>)
    requires n <= |items|
  {
    && |files| == |at|
    && (forall i, j :: 0 <= i < j < |at| ==> at[i] < at[j])
    && (forall j :: 0 <= j < |at| ==>
          at[j] < n && IsPlacedIn(items[at[j]], folder) && TellsItem(files[j], items[at[j]], folder))
    && (forall k: nat :: k < n && IsPlacedIn(items[k], folder) ==> k in at)
  }

  lemma OneMoreItem(files: seq<FileItem>, items: seq<Item>, n: nat, folder: string, at: seq<nat>, f: FileItem)
    requires n < |items| && TellItems(files, items, n, folder, at)
    ensures if IsPlacedIn(items[n], folder)
            then TellsItem(f, items[n], folder) ==> TellItems(files + [f], items, n + 1, folder, at + [n])
            else TellItems(files, items, n + 1, folder, at)
  {
    hide TellsItem;
    hide IsPlacedIn;
    assert forall k :: k in at + [n] <==> k in at || k == n;
  }

  lemma HereOneMore(items: seq<Item>, folder: string, n: nat, m: Manifest, tools: Tools)
    requires n < |items|
    ensures var files := AsFiles(items, m, tools, Here(items, folder, n));
            AsFiles(items, m, tools, Here(items, folder, n + 1)) ==
            if IsPlacedIn(items[n], folder) then files + [Placed(items[n], folder)] else files
  {
    hide AsFiles;
    hide Placed;
    OneMoreFile(items, m, tools, Here(items, folder, n), At(n, folder));
    HereThen(items, folder, n);
    hide Here;
  }

  lemma HereThen(items: seq<Item>, folder: string, n: nat)
    requires n < |items|
    ensures Here(items, folder, n + 1) ==
            if IsHere(items[n], folder) then Here(items, folder, n) + [At(n, folder)] else Here(items, folder, n)
  {
  }

  lemma PlacedTells(item: Item, folder: string)
    ensures TellsItem(Placed(item, folder), item, folder)
  {
  }

  lemma NoneTold(items: seq<Item>, folder: string, m: Manifest, tools: Tools)
    ensures TellItems(AsFiles(items, m, tools, Here(items, folder, 0)), items, 0, folder, [])
  {
    NoFiles(items, m, tools);
  }

  lemma {:induction false} HereTells(items: seq<Item>, folder: string, n: nat, m: Manifest, tools: Tools)
    returns (at: seq<nat>)
    requires n <= |items|
    ensures TellItems(AsFiles(items, m, tools, Here(items, folder, n)), items, n, folder, at)
  {
    hide *;
    at := [];
    NoneTold(items, folder, m, tools);
    for k := 0 to n
      invariant TellItems(AsFiles(items, m, tools, Here(items, folder, k)), items, k, folder, at)
    {
      HereOneMore(items, folder, k, m, tools);
      PlacedTells(items[k], folder);
      OneMoreItem(AsFiles(items, m, tools, Here(items, folder, k)), items, k, folder, at, Placed(items[k], folder));
      if IsPlacedIn(items[k], folder) { at := at + [k]; }
    }
  }

  /** A folder's listing tells the items placed in it, in their order, and the root's the manifest after them. */
  lemma ListingTells(items: seq<Item>, folder: string, m: Manifest, tools: Tools) returns (at: seq<nat>)
    ensures var files := FilesOf(items, folder, m, tools);
            if folder == "" then
              && files != []
              && TellItems(files[..|files| - 1], items, |items|, folder, at)
              && TellsManifest(files[|files| - 1], m, tools)
            else TellItems(files, items, |items|, folder, at)
  {
    var n := |items|;
    at := HereTells(items, folder, n, m, tools);
    if folder == "" {
      OneMoreFile(items, m, tools, Here(items, folder, n), TheManifest);
      hide TellItems;
    } else {
      assert Listing(items, folder) == Here(items, folder, n);
    }
  }

  method ListHere(items: seq<Item>, folder: string, m: Manifest, tools: Tools) returns (listed: seq<FileItem>)
    ensures listed == FilesOf(items, folder, m, tools)
  {
    hide AsFiles;
    listed := [];
    assert AsFiles(items, m, tools, []) == [] by { NoFiles(items, m, tools); }
    for k := 0 to |items|
      invariant listed == AsFiles(items, m, tools, Here(items, folder, k))
    {
      if IsHere(items[k], folder) {
        listed := listed + [Placed(items[k], folder)];
        OneMoreFile(items, m, tools, Here(items, folder, k), At(k, folder));
      } else {
        assert Here(items, folder, k + 1) == Here(items, folder, k);
      }
    }
    if folder == ROOT {
      listed := listed + [ManifestItem(m, tools)];
      OneMoreFile(items, m, tools, Here(items, folder, |items|), TheManifest);
    } else {
      assert Listing(items, folder) == Here(items, folder, |items|);
    }
  }

  lemma NoFiles(items: seq<Item>, m: Manifest, tools: Tools)
    ensures AsFiles(items, m, tools, []) == []
  {
  }

  method SortedFolders(items: seq<Item>, codeUnits: Order) returns (folders: seq<string>)
    requires IsTotal(codeUnits)
    ensures forall i, j :: 0 <= i < j < |folders| ==> codeUnits(folders[i], folders[j])
    ensures forall f :: f in folders <==> f in FoldersOf(items)
  {
    folders := [];
    for k := 0 to |items|
      invariant forall i, j :: 0 <= i < j < |folders| ==> codeUnits(folders[i], folders[j])
      invariant forall f :: f in folders <==> f in FoldersOf(items[..k])
    {
      ghost var had := folders;
      var placeIn := items[k].placeIn;
      for n := 0 to |placeIn|
        invariant forall i, j :: 0 <= i < j < |folders| ==> codeUnits(folders[i], folders[j])
        invariant forall f :: f in folders <==> f in had || f in placeIn[..n]
      {
        folders := InsertDistinct(folders, placeIn[n], codeUnits);
        assert placeIn[..n + 1] == placeIn[..n] + [placeIn[n]];
      }
      assert placeIn[..|placeIn|] == placeIn;
    }
    assert items[..|items|] == items;
  }

}
