/**
 Zips as one tree, as `packages/connectors/src/archive-tree.ts` indexes them:
 folders implied by member names, keyed by path, answered from a map.
 */
module ArchiveTree {
  import opened Common
  import opened Paths

  /** A member of an archive, as its central directory names it. */
  datatype Entry = Entry(name: string, isDirectory: bool)

  /** Which entry of which archive. */
  datatype Member = Member(archive: nat, entry: nat)

  /** An entry, where it was met. */
  datatype Met = Met(entry: Entry, at: Member)

  datatype Folder = Folder(folders: set<string>, files: map<string, Member>)

  type Index = map<string, Folder>

  datatype TreeEntry = TreeEntry(name: string, isDirectory: bool)

  // ---------------------------------------------------------------------
  // Member names as segments
  // ---------------------------------------------------------------------

  function NonEmpty(parts: seq<string>): seq<string> {
    if parts == [] then []
    else (if parts[0] == "" then [] else [parts[0]]) + NonEmpty(parts[1..])
  }

  /** `segmentsOf`. */
  function Segments(name: string): (r: seq<string>)
    ensures AreNames(r)
  {
    NonEmptyAreNames(Split(name));
    NonEmpty(Split(name))
  }

  lemma {:induction false} NonEmptyAreNames(parts: seq<string>)
    requires forall k :: 0 <= k < |parts| ==> '/' !in parts[k]
    ensures AreNames(NonEmpty(parts))
  {
    if parts == [] {
    } else {
      NonEmptyAreNames(parts[1..]);
    }
  }

  lemma {:induction false} NamesAreNonEmpty(names: seq<string>)
    requires AreNames(names)
    ensures NonEmpty(names) == names
  {
    if names == [] {
    } else {
      assert IsName(names[0]);
      assert AreNames(names[1..]);
      NamesAreNonEmpty(names[1..]);
    }
  }

  /** A path spelled without extra slashes is its own segments. */
  lemma SegmentsOfJoin(names: seq<string>)
    requires AreNames(names)
    ensures Segments(Join(names)) == names
  {
    if names == [] {
      assert Split("") == [""];
      assert NonEmpty([""]) == NonEmpty([""][1..]);
    } else {
      SplitUndoesJoin(names);
      NamesAreNonEmpty(names);
    }
  }

  /** Slashes part a name's segments, and an empty one says nothing. */
  lemma SlashesPartSegments(a: string, rest: string)
    requires forall c :: c in a ==> c != '/'
    ensures Segments(a) == if a == "" then [] else [a]
    ensures Segments(a + "/" + rest) == Segments(a) + Segments(rest)
  {
    SlashesPart(a, rest);
    assert [a][1..] == [] && NonEmpty([]) == [];
    assert ([a] + Split(rest))[1..] == Split(rest);
  }

  // ---------------------------------------------------------------------
  // The naive scan of all members
  // ---------------------------------------------------------------------

  /** The folder a member's name implies, with all those above it. */
  function FolderSegments(e: Entry): (r: seq<string>)
    ensures AreNames(r)
  {
    var segments := Segments(e.name);
    if e.isDirectory || segments == [] then segments else segments[..|segments| - 1]
  }

  predicate IsFileAt(e: Entry, p: seq<string>) { !e.isDirectory && p != [] && Segments(e.name) == p }

  ghost predicate Implied(mets: seq<Met>, q: seq<string>) {
    q == [] || exists k :: 0 <= k < |mets| && q <= FolderSegments(mets[k].entry)
  }

  /** A folder is the root, a part of a directory member's own path, or of the path that a file is in. */
  lemma FoldersAreImplied(mets: seq<Met>, q: seq<string>)
    ensures Implied(mets, q) <==>
            q == [] || exists k :: 0 <= k < |mets|
                         && if mets[k].entry.isDirectory then q <= Segments(mets[k].entry.name)
                            else q < Segments(mets[k].entry.name)
  {
    hide Split;
    forall k | 0 <= k < |mets|
      ensures q != [] ==>
                (q <= FolderSegments(mets[k].entry) <==>
                 if mets[k].entry.isDirectory then q <= Segments(mets[k].entry.name)
                 else q < Segments(mets[k].entry.name))
    {
      var segments := Segments(mets[k].entry.name);
      if q < segments { assert q <= segments[..|segments| - 1]; }
    }
  }

  /** The first member met that is a file with these segments. */
  function FirstFile(mets: seq<Met>, p: seq<string>): Option<Member> {
    if mets == [] then None
    else
      var before := FirstFile(mets[..|mets| - 1], p);
      var last := mets[|mets| - 1];
      if before.Some? then before else if IsFileAt(last.entry, p) then Some(last.at) else None
  }

  /** What `FirstFile` finds: the file at the lowest position, when there is one. */
  lemma {:induction false} FirstFileIsFirst(mets: seq<Met>, p: seq<string>, m: Member)
    ensures FirstFile(mets, p) == Some(m) <==>
            exists k :: 0 <= k < |mets| && IsFileAt(mets[k].entry, p) && mets[k].at == m
                        && forall j :: 0 <= j < k ==> !IsFileAt(mets[j].entry, p)
    decreases |mets|
  {
    if mets == [] {
    } else {
      var front, n := mets[..|mets| - 1], |mets| - 1;
      FirstFileIsFirst(front, p, m);
      assert forall j :: 0 <= j < n ==> front[j] == mets[j];
      if FirstFile(front, p).Some? && FirstFile(front, p).value != m {
        FirstFileIsFirst(front, p, FirstFile(front, p).value);
      }
      if FirstFile(front, p).None? {
        forall j | 0 <= j < n
          ensures !IsFileAt(mets[j].entry, p)
        {
          if IsFileAt(front[j].entry, p) { FileIsFound(front, p, j); }
        }
      }
    }
  }

  lemma {:induction false} FileIsFound(mets: seq<Met>, p: seq<string>, k: nat)
    requires k < |mets| && IsFileAt(mets[k].entry, p)
    ensures FirstFile(mets, p).Some?
    decreases |mets|
  {
    if k < |mets| - 1 {
      FileIsFound(mets[..|mets| - 1], p, k);
    }
  }

  lemma {:induction false} FoundFile(mets: seq<Met>, p: seq<string>) returns (k: nat)
    requires FirstFile(mets, p).Some?
    ensures k < |mets| && IsFileAt(mets[k].entry, p)
    decreases |mets|
  {
    if FirstFile(mets[..|mets| - 1], p).Some? {
      k := FoundFile(mets[..|mets| - 1], p);
    } else {
      k := |mets| - 1;
    }
  }

  // ---------------------------------------------------------------------
  // The index
  // ---------------------------------------------------------------------

  function FolderAt(index: Index, path: string): Folder {
    if path in index then index[path] else Folder({}, map[])
  }

  /** The index by segments rather than by path. */
  type Tree = map<seq<string>, Folder>

  /** Every path of the index spells the segments of the tree's folder, and none is missing. */
  ghost predicate Spells(index: Index, tree: Tree) {
    && (forall q :: q in tree ==> AreNames(q) && Join(q) in index && index[Join(q)] == tree[q])
    && (forall key :: key in index ==> exists q :: q in tree && Join(q) == key)
  }

  lemma SpellsLookup(index: Index, tree: Tree, q: seq<string>)
    requires Spells(index, tree) && AreNames(q)
    ensures Join(q) in index <==> q in tree
  {
    if Join(q) in index {
      var z :| z in tree && Join(z) == Join(q);
      JoinIsInjective(z, q);
    }
  }

  lemma SpellsUpdate(index: Index, tree: Tree, q: seq<string>, f: Folder)
    requires Spells(index, tree) && AreNames(q)
    ensures Spells(index[Join(q) := f], tree[q := f])
  {
    hide Join;
    hide AreNames;
    forall z | z in tree && Join(z) == Join(q)
      ensures z == q
    {
      JoinIsInjective(z, q);
    }
    var r := index[Join(q) := f];
    forall key | key in r
      ensures exists z :: z in tree[q := f] && Join(z) == key
    {
      if key != Join(q) {
        var z :| z in tree && Join(z) == key;
        assert z in tree[q := f];
      } else {
        assert q in tree[q := f];
      }
    }
  }

  /** The tree holds these folders, each with its children, and these files, each in its folder. */
  ghost predicate Holds(tree: Tree, files: map<seq<string>, Member>) {
    && [] in tree
    && (forall q :: q in tree && q != [] ==> Parent(q) in tree)
    && (forall p :: p in files ==> p != [] && Parent(p) in tree)
    && (forall q, n :: q in tree ==> (n in tree[q].folders <==> q + [n] in tree))
    && (forall q, n :: q in tree ==> (n in tree[q].files <==> q + [n] in files))
    && (forall q, n :: q in tree && n in tree[q].files && q + [n] in files ==> tree[q].files[n] == files[q + [n]])
  }

  function Parent(q: seq<string>): seq<string>
    requires q != []
  {
    q[..|q| - 1]
  }

  lemma Snoc(q: seq<string>, n: string, p: seq<string>)
    ensures Parent(q + [n]) == q
    ensures p != [] && q + [n] == p ==> q == Parent(p) && n == p[|p| - 1]
  {
  }

  function WithFolder(tree: Tree, q: seq<string>, name: string): Tree
    requires q in tree
  {
    var mid := tree[q := tree[q].(folders := tree[q].folders + {name})];
    mid[q + [name] := if q + [name] in mid then mid[q + [name]] else Folder({}, map[])]
  }

  lemma FolderAdded(tree: Tree, files: map<seq<string>, Member>, q: seq<string>, name: string)
    requires Holds(tree, files) && q in tree
    ensures Holds(WithFolder(tree, q, name), files)
    ensures WithFolder(tree, q, name).Keys == tree.Keys + {q + [name]}
  {
    var child, more := q + [name], WithFolder(tree, q, name);
    Snoc(q, name, []);
    assert child != q by { assert |child| == |q| + 1; }
    forall z, n | z in more
      ensures n in more[z].folders <==> z + [n] in more
      ensures n in more[z].files <==> z + [n] in files
      ensures n in more[z].files && z + [n] in files ==> more[z].files[n] == files[z + [n]]
    {
      Snoc(z, n, child);
    }
  }

  function WithFile(tree: Tree, q: seq<string>, name: string, m: Member): Tree
    requires q in tree
  {
    if name in tree[q].files then tree else tree[q := tree[q].(files := tree[q].files[name := m])]
  }

  lemma FileAdded(tree: Tree, files: map<seq<string>, Member>, q: seq<string>, name: string, m: Member)
    requires Holds(tree, files) && q in tree
    ensures Holds(WithFile(tree, q, name, m), if q + [name] in files then files else files[q + [name] := m])
    ensures WithFile(tree, q, name, m).Keys == tree.Keys
  {
    var p := q + [name];
    if name !in tree[q].files {
      var r, more := WithFile(tree, q, name, m), files[p := m];
      Snoc(q, name, []);
      forall z, n | z in r
        ensures n in r[z].folders <==> z + [n] in r
        ensures n in r[z].files <==> z + [n] in more
        ensures n in r[z].files && z + [n] in more ==> r[z].files[n] == more[z + [n]]
      {
        Snoc(z, n, p);
      }
    }
  }

  /** One turn of the inner loop: a child folder under a folder that is there. */
  method AddFolder(index: Index, parent: string, name: string, ghost tree: Tree, ghost q: seq<string>)
    returns (r: Index, path: string)
    requires Spells(index, tree) && q in tree && parent == Join(q) && IsName(name)
    ensures Spells(r, WithFolder(tree, q, name)) && path == Join(q + [name])
  {
    var here := index[parent];
    var added := here.(folders := here.folders + {name});
    r := index[parent := added];
    SpellsUpdate(index, tree, q, added);
    path := if parent == "" then name else parent + "/" + name;
    JoinAppend(q, name);
    JoinIsEmpty(q);
    SpellsLookup(r, tree[q := added], q + [name]);
    SpellsUpdate(r, tree[q := added], q + [name], FolderAt(r, path));
    r := r[path := FolderAt(r, path)];
  }

  method AddFile(index: Index, parent: string, name: string, at: Member, ghost tree: Tree, ghost q: seq<string>)
    returns (r: Index)
    requires Spells(index, tree) && q in tree && parent == Join(q)
    ensures Spells(r, WithFile(tree, q, name, at))
  {
    r := index;
    var here := index[parent];
    if name !in here.files {
      r := index[parent := here.(files := here.files[name := at])];
      SpellsUpdate(index, tree, q, here.(files := here.files[name := at]));
    }
  }

  /** The folders and files of the members met so far, by the naive scan. */
  ghost predicate Scanned(mets: seq<Met>, folders: set<seq<string>>, files: map<seq<string>, Member>) {
    && (forall q :: q in folders <==> Implied(mets, q))
    && (forall p :: p in files <==> FirstFile(mets, p).Some?)
    && (forall p :: p in files ==> FirstFile(mets, p) == Some(files[p]))
  }

  /** The tree is the one the members imply, file by file and folder by folder. */
  ghost predicate IsTreeOf(tree: Tree, mets: seq<Met>, files: map<seq<string>, Member>) {
    Holds(tree, files) && Scanned(mets, tree.Keys, files)
  }

  lemma RootIsThere(index: Index, tree: Tree, files: map<seq<string>, Member>)
    requires Spells(index, tree) && Holds(tree, files)
    ensures [] in tree && Join([]) == ""
  {
  }

  lemma PrefixStep(way: seq<string>, i: nat, z: seq<string>)
    requires i < |way|
    ensures z <= way[..i + 1] <==> z <= way[..i] || z == way[..i + 1]
  {
  }

  /** The inner loop of `indexOf`: every folder on the way to a member. */
  method AddWay(index: Index, way: seq<string>, ghost tree: Tree, ghost files: map<seq<string>, Member>)
    returns (r: Index, parent: string, ghost tree': Tree)
    requires Spells(index, tree) && Holds(tree, files) && AreNames(way)
    ensures Spells(r, tree') && Holds(tree', files) && parent == Join(way)
    ensures forall q :: q in tree' <==> q in tree || q <= way
  {
    hide Join;
    hide Spells;
    hide Holds;
    r, tree', parent := index, tree, "";
    RootIsThere(index, tree, files);
    for i := 0 to |way|
      invariant Spells(r, tree') && Holds(tree', files) && parent == Join(way[..i])
      invariant forall q :: q in tree' <==> q in tree || q <= way[..i]
    {
      ghost var q := way[..i];
      assert IsName(way[i]) && q <= q && q + [way[i]] == way[..i + 1];
      FolderAdded(tree', files, q, way[i]);
      r, parent := AddFolder(r, parent, way[i], tree', q);
      ghost var before := tree'.Keys;
      tree' := WithFolder(tree', q, way[i]);
      forall z
        ensures z in tree' <==> z in before || z <= way[..i + 1]
      {
        PrefixStep(way, i, z);
      }
    }
    assert way[..|way|] == way;
  }

  /** The body of `indexOf`'s outer loops, for one entry. */
  method AddEntry(index: Index, e: Entry, at: Member, ghost mets: seq<Met>, ghost tree: Tree,
                  ghost files: map<seq<string>, Member>)
    returns (r: Index, ghost tree': Tree, ghost files': map<seq<string>, Member>)
    requires Spells(index, tree) && IsTreeOf(tree, mets, files)
    ensures Spells(r, tree') && IsTreeOf(tree', mets + [Met(e, at)], files')
  {
    hide Join;
    hide Spells;
    hide Scanned;
    hide Holds;
    hide Split;
    hide NonEmpty;
    r, tree', files' := index, tree, files;
    var segments := Segments(e.name);
    if |segments| > 0 {
      var folderSegments := if e.isDirectory then |segments| else |segments| - 1;
      var way := segments[..folderSegments];
      var parent;
      r, parent, tree' := AddWay(r, way, tree, files);
      if !e.isDirectory {
        var name := segments[|segments| - 1];
        assert way + [name] == segments && way <= way;
        FileAdded(tree', files, way, name, at);
        r := AddFile(r, parent, name, at, tree', way);
        tree' := WithFile(tree', way, name, at);
        files' := if segments in files then files else files[segments := at];
      }
      assert way == FolderSegments(e);
    } else {
      RootIsThere(index, tree, files);
    }
    EntryScanned(mets, Met(e, at), tree.Keys, files, tree'.Keys, files');
  }

  lemma EntryScanned(mets: seq<Met>, met: Met, folders: set<seq<string>>, files: map<seq<string>, Member>,
                     folders': set<seq<string>>, files': map<seq<string>, Member>)
    requires Scanned(mets, folders, files)
    requires forall q :: q in folders' <==> q in folders || q <= FolderSegments(met.entry)
    requires var p := Segments(met.entry.name);
             files' == if met.entry.isDirectory || p == [] || p in files then files else files[p := met.at]
    ensures Scanned(mets + [met], folders', files')
  {
    var all := mets + [met];
    assert all[..|all| - 1] == mets;
    forall q
      ensures q in folders' <==> Implied(all, q)
    {
      if q in folders && q != [] {
        var k :| 0 <= k < |mets| && q <= FolderSegments(mets[k].entry);
        assert all[k] == mets[k];
      }
      if q <= FolderSegments(met.entry) {
        assert all[|mets|] == met;
      }
      if Implied(all, q) && q != [] {
        var k :| 0 <= k < |all| && q <= FolderSegments(all[k].entry);
        if k < |mets| { assert all[k] == mets[k]; }
      }
    }
  }

  /** Every archive's entries in the order they are met. */
  function MetIn(entries: seq<Entry>, archive: nat): seq<Met> {
    seq(|entries|, i requires 0 <= i < |entries| => Met(entries[i], Member(archive, i)))
  }

  function AllMet(archives: seq<seq<Entry>>): seq<Met> {
    if archives == [] then []
    else AllMet(archives[..|archives| - 1]) + MetIn(archives[|archives| - 1], |archives| - 1)
  }

  /** The index answers for the members: its folders and files are those of the naive scan. */
  ghost predicate Represents(index: Index, mets: seq<Met>) {
    exists tree, files :: Spells(index, tree) && IsTreeOf(tree, mets, files)
  }

  const EMPTY_TREE: Tree := map[[] := Folder({}, map[])]

  lemma EmptySpells()
    ensures Spells(map["" := Folder({}, map[])], EMPTY_TREE)
  {
    var root: seq<string> := [];
    assert EMPTY_TREE.Keys == {root} && AreNames(root);
    assert Join(root) == "";
  }

  lemma EmptyIsTreeOf()
    ensures IsTreeOf(EMPTY_TREE, [], map[])
  {
  }

  lemma OneMoreArchive(archives: seq<seq<Entry>>, a: nat)
    requires a < |archives|
    ensures AllMet(archives[..a + 1]) == AllMet(archives[..a]) + MetIn(archives[a], a)
  {
    assert archives[..a + 1][..a] == archives[..a];
  }

  /** `indexOf`. */
  method IndexOf(archives: seq<seq<Entry>>) returns (index: Index)
    ensures Represents(index, AllMet(archives))
  {
    hide Spells;
    hide IsTreeOf;
    hide AllMet;
    index := map["" := Folder({}, map[])];
    ghost var tree: Tree, files: map<seq<string>, Member> := EMPTY_TREE, map[];
    EmptySpells();
    EmptyIsTreeOf();
    assert AllMet(archives[..0]) == [] by { NothingMet(); }
    for a := 0 to |archives|
      invariant Spells(index, tree) && IsTreeOf(tree, AllMet(archives[..a]), files)
    {
      var entries := archives[a];
      ghost var before := AllMet(archives[..a]);
      assert before + MetIn(entries[..0], a) == before;
      for k := 0 to |entries|
        invariant Spells(index, tree) && IsTreeOf(tree, before + MetIn(entries[..k], a), files)
      {
        ghost var mets := before + MetIn(entries[..k], a);
        index, tree, files := AddEntry(index, entries[k], Member(a, k), mets, tree, files);
        assert mets + [Met(entries[k], Member(a, k))] == before + MetIn(entries[..k + 1], a);
      }
      assert entries[..|entries|] == entries;
      OneMoreArchive(archives, a);
    }
    assert archives[..|archives|] == archives;
  }

  lemma NothingMet()
    ensures AllMet([]) == []
  {
  }

  // ---------------------------------------------------------------------
  // The five questions, on the index
  // ---------------------------------------------------------------------

  function Key(path: string): string { Join(Segments(path)) }

  predicate IsDirectory(index: Index, path: string) { Key(path) in index }

  /** The children of a folder; `None` where the source throws. */
  function List(index: Index, path: string): Option<set<TreeEntry>> {
    if Key(path) !in index then None
    else
      var folder := index[Key(path)];
      Some((set n | n in folder.folders :: TreeEntry(n, true)) + (set n | n in folder.files :: TreeEntry(n, false)))
  }

  /** The entry `read` and `stream` go to; `None` where the source throws. */
  function MemberAt(index: Index, path: string): Option<Member> {
    var segments := Segments(path);
    if segments == [] then None
    else
      var name, parent := segments[|segments| - 1], Join(segments[..|segments| - 1]);
      if parent in index && name in index[parent].files then Some(index[parent].files[name]) else None
  }

  lemma IndexedFolder(index: Index, mets: seq<Met>, q: seq<string>)
    requires Represents(index, mets) && AreNames(q)
    ensures Join(q) in index <==> Implied(mets, q)
    ensures Join(q) in index ==> forall n :: n in index[Join(q)].folders <==> Implied(mets, q + [n])
    ensures Join(q) in index ==> forall n :: n in index[Join(q)].files <==> FirstFile(mets, q + [n]).Some?
    ensures Join(q) in index ==> forall n :: n in index[Join(q)].files ==>
              FirstFile(mets, q + [n]) == Some(index[Join(q)].files[n])
  {
    hide AreNames;
    hide Implied;
    hide FirstFile;
    hide Join;
    hide IsTreeOf;
    var tree: Tree, files: map<seq<string>, Member> :| Spells(index, tree) && IsTreeOf(tree, mets, files);
    SpellsLookup(index, tree, q);
    assert q in tree ==> index[Join(q)] == tree[q];
    hide Spells;
    TreeFolder(tree, mets, files, q);
  }

  lemma TreeFolder(tree: Tree, mets: seq<Met>, files: map<seq<string>, Member>, q: seq<string>)
    requires IsTreeOf(tree, mets, files)
    ensures q in tree <==> Implied(mets, q)
    ensures q in tree ==> forall n ::
              && (n in tree[q].folders <==> Implied(mets, q + [n]))
              && (n in tree[q].files <==> FirstFile(mets, q + [n]).Some?)
              && (n in tree[q].files ==> FirstFile(mets, q + [n]) == Some(tree[q].files[n]))
  {
    hide Implied;
    hide FirstFile;
    assert q in tree.Keys <==> Implied(mets, q);
    if q in tree {
      forall n
        ensures n in tree[q].folders <==> Implied(mets, q + [n])
        ensures n in tree[q].files <==> FirstFile(mets, q + [n]).Some?
        ensures n in tree[q].files ==> FirstFile(mets, q + [n]) == Some(tree[q].files[n])
      {
        assert q + [n] in tree.Keys <==> Implied(mets, q + [n]);
        assert q + [n] in files <==> FirstFile(mets, q + [n]).Some?;
      }
    }
  }

  /** A file's folder, and every folder above it, is implied. */
  lemma FileImpliesFolders(mets: seq<Met>, p: seq<string>, q: seq<string>)
    requires FirstFile(mets, p).Some?
    ensures p != [] && AreNames(p)
    ensures q <= p[..|p| - 1] ==> Implied(mets, q)
  {
    var k := FoundFile(mets, p);
    assert FolderSegments(mets[k].entry) == p[..|p| - 1];
  }

  /**
   For any spelling of a path the index answers as the scan of all members
   does: folders are the implied prefixes, `list` gives exactly the immediate
   children, and a file is the first one met under those segments.
   */
  lemma TreeAnswersLikeAScan(index: Index, mets: seq<Met>, path: string)
    requires Represents(index, mets)
    ensures var q := Segments(path);
            && (IsDirectory(index, path) <==> Implied(mets, q))
            && (List(index, path).Some? <==> Implied(mets, q))
            && (List(index, path).Some? ==> forall e: TreeEntry :: e in List(index, path).value <==>
                  if e.isDirectory then Implied(mets, q + [e.name]) else FirstFile(mets, q + [e.name]).Some?)
            && MemberAt(index, path) == FirstFile(mets, q)
  {
    hide Represents;
    hide Join;
    hide Split;
    hide NonEmpty;
    hide Implied;
    hide FirstFile;
    var q := Segments(path);
    IndexedFolder(index, mets, q);
    if FirstFile(mets, q).Some? {
      FileImpliesFolders(mets, q, if q == [] then [] else q[..|q| - 1]);
    }
    if q != [] {
      var parent := q[..|q| - 1];
      assert parent + [q[|q| - 1]] == q;
      IndexedFolder(index, mets, parent);
    }
  }

  // ---------------------------------------------------------------------
  // A walk of the tree
  // ---------------------------------------------------------------------

  /** A file under `q` whose next segment is one of `names`. */
  ghost predicate FileUnder(mets: seq<Met>, q: seq<string>, names: set<string>, direct: bool, p: seq<string>) {
    && FirstFile(mets, p).Some?
    && q < p
    && p[|q|] in names
    && (direct <==> |p| == |q| + 1)
  }

  /** No implied folder lies deeper. */
  ghost predicate Deepest(mets: seq<Met>, depth: nat) {
    forall q :: Implied(mets, q) ==> |q| <= depth
  }

  /** What a listing calls folders, and what it calls files. */
  function Listed(entries: set<TreeEntry>, directories: bool): set<string> {
    set e | e in entries && e.isDirectory == directories :: e.name
  }

  /** Every file under a folder is a file its listing names, or under one of the folders it names. */
  lemma FilesUnder(index: Index, mets: seq<Met>, q: seq<string>, p: seq<string>)
    requires Represents(index, mets) && AreNames(q) && List(index, Join(q)).Some?
    ensures var here := List(index, Join(q)).value;
            FirstFile(mets, p).Some? && q < p <==>
              FileUnder(mets, q, Listed(here, false), true, p) || FileUnder(mets, q, Listed(here, true), false, p)
  {
    hide Implied;
    hide FirstFile;
    hide AreNames;
    hide Represents;
    hide Join;
    hide List;
    ListedHere(index, mets, q);
    if FirstFile(mets, p).Some? && q < p {
      var n := p[|q|];
      if |p| == |q| + 1 {
        assert p == q + [n];
      } else {
        FileImpliesFolders(mets, p, q + [n]);
        assert p[..|q| + 1] == q + [n] <= p[..|p| - 1];
      }
    }
  }

  /** A listing by a path's own spelling is the scan's. */
  lemma ListedHere(index: Index, mets: seq<Met>, q: seq<string>)
    requires Represents(index, mets) && AreNames(q)
    ensures List(index, Join(q)).Some? <==> Implied(mets, q)
    ensures List(index, Join(q)).Some? ==> forall n ::
              && (n in Listed(List(index, Join(q)).value, true) <==> Implied(mets, q + [n]))
              && (n in Listed(List(index, Join(q)).value, false) <==> FirstFile(mets, q + [n]).Some?)
  {
    hide Implied;
    hide FirstFile;
    hide Represents;
    SegmentsOfJoin(q);
    TreeAnswersLikeAScan(index, mets, Join(q));
    hide List;
    hide Join;
    if List(index, Join(q)).Some? {
      var here := List(index, Join(q)).value;
      forall n
        ensures n in Listed(here, true) <==> TreeEntry(n, true) in here
        ensures n in Listed(here, false) <==> TreeEntry(n, false) in here
      {
      }
    }
  }

  /** Lists a folder and everything under it, as a reader of the tree does. */
  method Walk(index: Index, q: seq<string>, ghost mets: seq<Met>, ghost depth: nat) returns (out: seq<seq<string>>)
    requires Represents(index, mets) && AreNames(q) && Implied(mets, q) && Deepest(mets, depth)
    ensures NoRepeats(out)
    ensures forall p :: p in out <==> FirstFile(mets, p).Some? && q < p
    decreases depth - |q|, 1
  {
    hide Implied;
    hide FirstFile;
    hide AreNames;
    hide Represents;
    hide Join;
    hide List;
    ListedHere(index, mets, q);
    var here := List(index, Join(q)).value;
    var files := FilesHere(q, Listed(here, false));
    var deeper := WalkFolders(index, q, Listed(here, true), mets, depth);
    forall p
      ensures p in files ==> p !in deeper
      ensures p in files || p in deeper <==> FirstFile(mets, p).Some? && q < p
    {
      FilesUnder(index, mets, q, p);
      if q < p && |p| == |q| + 1 { assert p == q + [p[|q|]]; }
    }
    AppendNoRepeats(files, deeper);
    out := files + deeper;
  }

  method FilesHere(q: seq<string>, names: set<string>) returns (out: seq<seq<string>>)
    ensures NoRepeats(out)
    ensures forall p :: p in out <==> q < p && |p| == |q| + 1 && p[|q|] in names
  {
    hide Represents;
    hide Join;
    var left := names;
    out := [];
    while left != {}
      invariant left <= names && NoRepeats(out)
      invariant forall p :: p in out <==> q < p && |p| == |q| + 1 && p[|q|] in names - left
      decreases |left|
    {
      var n :| n in left;
      left := left - {n};
      AppendNoRepeats(out, [q + [n]]);
      out := out + [q + [n]];
      forall p
        ensures p == q + [n] <==> q < p && |p| == |q| + 1 && p[|q|] == n
      {
        if q < p && |p| == |q| + 1 && p[|q|] == n { assert p == q + [n]; }
      }
    }
  }

  method WalkFolders(index: Index, q: seq<string>, names: set<string>, ghost mets: seq<Met>, ghost depth: nat)
    returns (out: seq<seq<string>>)
    requires Represents(index, mets) && AreNames(q) && Deepest(mets, depth)
    requires forall n :: n in names ==> Implied(mets, q + [n])
    ensures NoRepeats(out)
    ensures forall p :: p in out <==> FileUnder(mets, q, names, false, p)
    decreases depth - |q|, 0
  {
    hide Implied;
    hide FirstFile;
    hide AreNames;
    hide Represents;
    hide NoRepeats;
    assert NoRepeats<seq<string>>([]) by { NothingRepeats(); }
    var left := names;
    out := [];
    while left != {}
      invariant left <= names && NoRepeats(out)
      invariant forall p :: p in out <==> FileUnder(mets, q, names - left, false, p)
      decreases |left|
    {
      var n :| n in left;
      left := left - {n};
      assert Implied(mets, q + [n]);
      ImpliedAreNames(mets, q + [n]);
      var under := Walk(index, q + [n], mets, depth);
      forall p
        ensures p in out ==> p !in under
        ensures p in out || p in under <==> FileUnder(mets, q, names - left, false, p)
      {
        assert names - left == names - (left + {n}) + {n};
      }
      hide FileUnder;
      AppendNoRepeats(out, under);
      out := out + under;
    }
  }

  lemma NothingRepeats()
    ensures NoRepeats<seq<string>>([])
  {
  }

  lemma ImpliedAreNames(mets: seq<Met>, q: seq<string>)
    requires Implied(mets, q)
    ensures AreNames(q)
  {
  }

  ghost function MaxDepth(mets: seq<Met>): nat {
    if mets == [] then 0
    else
      var d, here := MaxDepth(mets[..|mets| - 1]), |FolderSegments(mets[|mets| - 1].entry)|;
      if d < here then here else d
  }

  lemma {:induction false} MaxDepthCovers(mets: seq<Met>, k: nat)
    requires k < |mets|
    ensures |FolderSegments(mets[k].entry)| <= MaxDepth(mets)
    decreases |mets|
  {
    if k < |mets| - 1 {
      MaxDepthCovers(mets[..|mets| - 1], k);
    }
  }

  /** A walk from the root comes to every file's path, and to none twice. */
  method WalkFromRoot(archives: seq<seq<Entry>>) returns (out: seq<seq<string>>)
    ensures NoRepeats(out)
    ensures forall p :: p in out <==> FirstFile(AllMet(archives), p).Some?
  {
    hide FirstFile;
    hide Represents;
    hide AllMet;
    var index := IndexOf(archives);
    ghost var mets := AllMet(archives);
    forall q | Implied(mets, q)
      ensures |q| <= MaxDepth(mets)
    {
      if q != [] {
        var k :| 0 <= k < |mets| && q <= FolderSegments(mets[k].entry);
        MaxDepthCovers(mets, k);
      }
    }
    out := Walk(index, [], mets, MaxDepth(mets));
    forall p | FirstFile(mets, p).Some?
      ensures [] < p
    {
      FileImpliesFolders(mets, p, []);
    }
  }

  // ---------------------------------------------------------------------
  // Opening the parts
  // ---------------------------------------------------------------------

  /** What opening a part does: it has no bytes to read, its bytes are no zip, or it is one. */
  datatype Part = Missing(error: string) | NotAZip(error: string) | Zip

  /** The descriptors held open, by part. */
  class Descriptors {
    var held: set<nat>

    constructor ()
      ensures held == {}
    {
      held := {};
    }

    method Close(part: nat)
      modifies this
      ensures held == old(held) - {part}
    {
      held := held - {part};
    }

    /** `open` and then `openZip`, which on a failure closes the source it was given. */
    method OpenPart(k: nat, part: Part) returns (r: Result<nat, string>)
      requires k !in held
      modifies this
      ensures r == match part case Missing(e) => Err(e) case NotAZip(e) => Err(e) case Zip => Ok(k)
      ensures held == if part.Zip? then old(held) + {k} else old(held)
    {
      if part.Missing? { return Err(part.error); }
      held := held + {k};
      if part.NotAZip? {
        Close(k);
        return Err(part.error);
      }
      return Ok(k);
    }
  }

  /** The first part that does not open, and what it says. */
  function FirstFailure(parts: seq<Part>): Option<string> {
    if parts == [] then None
    else
      match parts[0]
      case Missing(e) => Some(e)
      case NotAZip(e) => Some(e)
      case Zip => FirstFailure(parts[1..])
  }

  /** `openZipTree`: every part open and in order, or the first failure and nothing left open. */
  method OpenZipTree(parts: seq<Part>, d: Descriptors) returns (r: Result<seq<nat>, string>)
    requires forall k :: 0 <= k < |parts| ==> k !in d.held
    modifies d
    ensures match FirstFailure(parts)
            case Some(e) => r == Err(e) && d.held == old(d.held)
            case None => r == Ok(seq(|parts|, i => i)) && d.held == old(d.held) + set k | k in r.value
  {
    var archives: seq<nat> := [];
    for k := 0 to |parts|
      invariant archives == seq(k, i => i)
      invariant d.held == old(d.held) + set j | j in archives
      invariant FirstFailure(parts) == FirstFailure(parts[k..])
    {
      assert parts[k..][1..] == parts[k + 1..];
      var source := d.OpenPart(k, parts[k]);
      if source.Err? {
        CloseAll(archives, d);
        return Err(source.error);
      }
      archives := archives + [source.value];
    }
    return Ok(archives);
  }

  method CloseAll(archives: seq<nat>, d: Descriptors)
    modifies d
    ensures d.held == old(d.held) - set j | j in archives
  {
    for k := 0 to |archives|
      invariant d.held == old(d.held) - set j | j in archives[..k]
    {
      assert archives[..k + 1] == archives[..k] + [archives[k]];
      d.Close(archives[k]);
    }
    assert archives[..|archives|] == archives;
  }
}
