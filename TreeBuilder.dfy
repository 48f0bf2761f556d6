/** `write_tree`: every file below a directory is stored as a blob, every
    sub-directory as a tree of its own, and the directory itself as a tree
    whose records list its children in name order, `.git` left out. */
module TreeBuilder {
  import opened ByteStrings
  import opened HexText
  import opened ObjectStore
  import opened TreeRecords
  import opened TreeReader
  import opened TreePositional
  import opened DirTree

  /** The mode recorded for a child: "40000" for a directory, "100644" for
      anything else. */
  function ModeOf(n: Node): Bytes {
    if n.Dir? then TreeMode else BlobMode
  }

  /** A reader takes a recorded child for a tree exactly when it is a
      directory. */
  lemma ModeOfKind(n: Node)
    ensures KindOf(ModeOf(n)) == Tree <==> n.Dir?
    ensures SP !in ModeOf(n) && NUL !in ModeOf(n)
  {
    ModeKinds();
    ModesHaveNoSeparator();
  }

  /** The entries are children of the directory `parent`. */
  predicate Within(parent: Node, es: seq<Entry>) {
    parent.Dir? && forall x :: x in es ==> x in parent.children
  }

  lemma ListingWithin(cs: seq<Entry>)
    ensures Within(Dir(cs), Listing(cs))
  {
    ListingSpec(cs);
  }

  /** The address `write_tree` returns for a node: a file's blob address,
      or the address of a directory's tree object. */
  function NodeAddress(h: Hasher, n: Node): (sha: Bytes)
    ensures IsSha(sha)
    decreases n, 1
  {
    match n
    case File(data) => Address(h, Blob, data)
    case Dir(cs) =>
      ListingWithin(cs);
      Address(h, Tree, EncodeTree(ChildEntries(h, n, Listing(cs))))
  }

  /** The tree entries of the listed children `es` of `parent`, one per
      child, in the listed order. */
  function ChildEntries(h: Hasher, parent: Node, es: seq<Entry>): (r: seq<TreeEntry>)
    requires Within(parent, es)
    ensures |r| == |es| && ValidShas(r)
    decreases parent, 0, |es|
  {
    if es == [] then []
    else
      var last := es[|es| - 1];
      assert last in parent.children;
      ChildEntries(h, parent, es[..|es| - 1]) + [TreeEntry(ModeOf(last.node), last.name, NodeAddress(h, last.node))]
  }

  /** The tree entries `write_tree` records for a directory. */
  function Listed(h: Hasher, cs: seq<Entry>): (r: seq<TreeEntry>)
    ensures |r| == |Listing(cs)| && ValidShas(r)
  {
    ListingWithin(cs);
    ChildEntries(h, Dir(cs), Listing(cs))
  }

  /** The payload of a directory's tree object. */
  function TreePayload(h: Hasher, cs: seq<Entry>): Bytes {
    EncodeTree(Listed(h, cs))
  }

  /** The object directory after `write_tree` has stored `n` and everything
      below it, children first, in listing order. */
  function WriteNode(h: Hasher, objects: map<Bytes, Bytes>, n: Node): map<Bytes, Bytes>
    decreases n, 1
  {
    match n
    case File(data) => Put(h, objects, Blob, data)
    case Dir(cs) =>
      ListingWithin(cs);
      Put(h, WriteAll(h, objects, n, Listing(cs)), Tree, EncodeTree(ChildEntries(h, n, Listing(cs))))
  }

  function WriteAll(h: Hasher, objects: map<Bytes, Bytes>, parent: Node, es: seq<Entry>): map<Bytes, Bytes>
    requires Within(parent, es)
    decreases parent, 0, |es|
  {
    if es == [] then objects
    else
      var last := es[|es| - 1];
      assert last in parent.children;
      WriteNode(h, WriteAll(h, objects, parent, es[..|es| - 1]), last.node)
  }

  lemma ChildEntriesSnoc(h: Hasher, parent: Node, es: seq<Entry>, e: Entry)
    requires Within(parent, es + [e])
    ensures Within(parent, es)
    ensures ChildEntries(h, parent, es + [e])
      == ChildEntries(h, parent, es) + [TreeEntry(ModeOf(e.node), e.name, NodeAddress(h, e.node))]
  {
    assert (es + [e])[..|es|] == es;
  }

  lemma WriteAllSnoc(h: Hasher, objects: map<Bytes, Bytes>, parent: Node, es: seq<Entry>, e: Entry)
    requires Within(parent, es + [e])
    ensures Within(parent, es)
    ensures WriteAll(h, objects, parent, es + [e]) == WriteNode(h, WriteAll(h, objects, parent, es), e.node)
  {
    assert (es + [e])[..|es|] == es;
  }

  /** The state after `i` turns of the listing loop over the children
      `dir`: `done` are the children recorded so far, `records` their
      records, and `objects` the object directory with all of them
      written. */
  ghost predicate Visited(h: Hasher, start: map<Bytes, Bytes>, dir: seq<Entry>, i: nat,
                          done: seq<Entry>, records: seq<Bytes>, objects: map<Bytes, Bytes>)
  {
    i <= |SortByName(dir)| && done == DropGit(SortByName(dir)[..i]) && Within(Dir(dir), done)
    && Concat(records) == EncodeTree(ChildEntries(h, Dir(dir), done))
    && objects == WriteAll(h, start, Dir(dir), done)
  }

  lemma VisitedStart(h: Hasher, start: map<Bytes, Bytes>, dir: seq<Entry>)
    ensures Visited(h, start, dir, 0, [], [], start)
  {
    assert SortByName(dir)[..0] == [];
  }

  /** The child visited in turn `i` is one of the directory's children. */
  lemma ListedMember(dir: seq<Entry>, i: nat)
    requires i < |SortByName(dir)|
    ensures SortByName(dir)[i] in dir
  {
    assert SortByName(dir)[i] in multiset(dir);
  }

  lemma ListedPrefix(dir: seq<Entry>, i: nat)
    requires i < |SortByName(dir)|
    ensures var s := SortByName(dir);
      Within(Dir(dir), DropGit(s[..i + 1]))
      && DropGit(s[..i + 1]) == DropGit(s[..i]) + if s[i].name == GitDir then [] else [s[i]]
  {
    var s := SortByName(dir);
    assert s[..i + 1][..i] == s[..i];
    DropGitMembers(s[..i + 1]);
    forall x | x in DropGit(s[..i + 1]) ensures x in dir {
      assert x in s;
      assert x in multiset(dir);
    }
  }

  /** Skipping `.git` changes nothing. */
  lemma VisitSkip(h: Hasher, start: map<Bytes, Bytes>, dir: seq<Entry>, i: nat,
                  done: seq<Entry>, records: seq<Bytes>, objects: map<Bytes, Bytes>)
    requires Visited(h, start, dir, i, done, records, objects)
    requires i < |SortByName(dir)| && SortByName(dir)[i].name == GitDir
    ensures Visited(h, start, dir, i + 1, done, records, objects)
  {
    ListedPrefix(dir, i);
    assert done + [] == done;
  }

  /** Writing the child visited in turn `i` and appending its record
      records it. */
  lemma VisitChild(h: Hasher, start: map<Bytes, Bytes>, dir: seq<Entry>, i: nat,
                   done: seq<Entry>, records: seq<Bytes>, objects: map<Bytes, Bytes>,
                   record: Bytes, objects': map<Bytes, Bytes>)
    requires Visited(h, start, dir, i, done, records, objects)
    requires i < |SortByName(dir)| && SortByName(dir)[i].name != GitDir
    requires var e := SortByName(dir)[i];
      record == Record(TreeEntry(ModeOf(e.node), e.name, NodeAddress(h, e.node)))
      && objects' == WriteNode(h, objects, e.node)
    ensures Visited(h, start, dir, i + 1, done + [SortByName(dir)[i]], records + [record], objects')
  {
    var e := SortByName(dir)[i];
    ListedPrefix(dir, i);
    var child := TreeEntry(ModeOf(e.node), e.name, NodeAddress(h, e.node));
    ChildEntriesSnoc(h, Dir(dir), done, e);
    EncodeTreeAppend(ChildEntries(h, Dir(dir), done), child);
    ConcatAppend(records, Record(child));
    WriteAllSnoc(h, start, Dir(dir), done, e);
  }

  /** After the last turn the records are the tree's payload, and storing
      them as a tree completes the writing of the directory. */
  lemma VisitedEnd(h: Hasher, start: map<Bytes, Bytes>, dir: seq<Entry>,
                   done: seq<Entry>, records: seq<Bytes>, objects: map<Bytes, Bytes>)
    requires Visited(h, start, dir, |SortByName(dir)|, done, records, objects)
    ensures NodeAddress(h, Dir(dir)) == Address(h, Tree, Concat(records))
    ensures WriteNode(h, start, Dir(dir)) == Put(h, objects, Tree, Concat(records))
  {
    var s := SortByName(dir);
    assert s[..|s|] == s;
    assert done == Listing(dir);
    DirUnfold(h, start, dir);
  }

  /** A directory's address and its writing, unfolded once. */
  lemma DirUnfold(h: Hasher, objects: map<Bytes, Bytes>, cs: seq<Entry>)
    ensures Within(Dir(cs), Listing(cs))
    ensures var payload := EncodeTree(ChildEntries(h, Dir(cs), Listing(cs)));
      NodeAddress(h, Dir(cs)) == Address(h, Tree, payload)
      && WriteNode(h, objects, Dir(cs)) == Put(h, WriteAll(h, objects, Dir(cs), Listing(cs)), Tree, payload)
  {
    ListingWithin(cs);
  }

  /** The entry recorded for the `i`-th listed child. */
  lemma {:induction false} ChildEntriesAt(h: Hasher, parent: Node, es: seq<Entry>, i: nat)
    requires Within(parent, es) && i < |es|
    ensures ChildEntries(h, parent, es)[i] == TreeEntry(ModeOf(es[i].node), es[i].name, NodeAddress(h, es[i].node))
    decreases |es|
  {
    var init := es[..|es| - 1];
    if i < |init| {
      assert init[i] == es[i];
      ChildEntriesAt(h, parent, init, i);
    }
  }

  /** Which directory the children are looked up in makes no difference. */
  lemma {:induction false} ChildEntriesAnyParent(h: Hasher, p: Node, q: Node, es: seq<Entry>)
    requires Within(p, es) && Within(q, es)
    ensures ChildEntries(h, p, es) == ChildEntries(h, q, es)
    decreases |es|
  {
    if es != [] {
      ChildEntriesAnyParent(h, p, q, es[..|es| - 1]);
    }
  }

  lemma {:induction false} WriteAllAnyParent(h: Hasher, objects: map<Bytes, Bytes>, p: Node, q: Node, es: seq<Entry>)
    requires Within(p, es) && Within(q, es)
    ensures WriteAll(h, objects, p, es) == WriteAll(h, objects, q, es)
    decreases |es|
  {
    if es != [] {
      WriteAllAnyParent(h, objects, p, q, es[..|es| - 1]);
    }
  }

  /** The order the directory listing comes in changes neither the tree's
      address nor what is stored: the records are always in name order. */
  lemma TreeOrderIndependent(h: Hasher, objects: map<Bytes, Bytes>, a: seq<Entry>, b: seq<Entry>)
    requires multiset(a) == multiset(b) && UniqueNames(a)
    ensures TreePayload(h, a) == TreePayload(h, b)
    ensures NodeAddress(h, Dir(a)) == NodeAddress(h, Dir(b))
    ensures WriteNode(h, objects, Dir(a)) == WriteNode(h, objects, Dir(b))
  {
    ListingOrderIndependent(a, b);
    ListingWithin(a);
    ListingWithin(b);
    ChildEntriesAnyParent(h, Dir(a), Dir(b), Listing(a));
    WriteAllAnyParent(h, objects, Dir(a), Dir(b), Listing(a));
  }

  /** Putting every listing of a tree in name order changes neither its
      address nor what writing it stores. */
  lemma {:induction false} CanonAddress(h: Hasher, n: Node)
    ensures NodeAddress(h, Canon(n)) == NodeAddress(h, n)
    decreases n, 1
  {
    match n
    case File(_) =>
    case Dir(cs) =>
      var c := Canon(n);
      CanonDir(cs);
      ListingCanon(cs);
      ListingWithin(cs);
      ListingWithin(c.children);
      CanonEntries(h, n, c, Listing(cs));
  }

  lemma {:induction false} CanonEntries(h: Hasher, p: Node, q: Node, es: seq<Entry>)
    requires Within(p, es) && Within(q, CanonAll(es))
    ensures ChildEntries(h, q, CanonAll(es)) == ChildEntries(h, p, es)
    decreases p, 0, |es|
  {
    if es != [] {
      var init := es[..|es| - 1];
      var last := es[|es| - 1];
      assert last in p.children;
      CanonSnoc(es);
      CanonEntries(h, p, q, init);
      CanonAddress(h, last.node);
      ChildEntriesSnoc(h, q, CanonAll(init), CanonEntry(last));
    }
  }

  /** The canonical form of listed children, one child split off the end. */
  lemma CanonSnoc(es: seq<Entry>)
    requires es != []
    ensures CanonAll(es) == CanonAll(es[..|es| - 1]) + [CanonEntry(es[|es| - 1])]
    ensures ModeOf(Canon(es[|es| - 1].node)) == ModeOf(es[|es| - 1].node)
  {
    assert es == es[..|es| - 1] + [es[|es| - 1]];
    CanonAllSplit(es[..|es| - 1], [es[|es| - 1]]);
  }

  lemma {:induction false} CanonWrite(h: Hasher, objects: map<Bytes, Bytes>, n: Node)
    ensures WriteNode(h, objects, Canon(n)) == WriteNode(h, objects, n)
    decreases n, 1
  {
    match n
    case File(_) =>
    case Dir(cs) =>
      var c := Canon(n);
      CanonDir(cs);
      ListingCanon(cs);
      ListingWithin(cs);
      ListingWithin(c.children);
      CanonEntries(h, n, c, Listing(cs));
      CanonWriteAll(h, objects, n, c, Listing(cs));
  }

  lemma {:induction false} CanonWriteAll(h: Hasher, objects: map<Bytes, Bytes>, p: Node, q: Node, es: seq<Entry>)
    requires Within(p, es) && Within(q, CanonAll(es))
    ensures WriteAll(h, objects, q, CanonAll(es)) == WriteAll(h, objects, p, es)
    decreases p, 0, |es|
  {
    if es != [] {
      var init := es[..|es| - 1];
      var last := es[|es| - 1];
      assert last in p.children;
      CanonSnoc(es);
      CanonWriteAll(h, objects, p, q, init);
      CanonWrite(h, WriteAll(h, objects, p, init), last.node);
      WriteAllSnoc(h, objects, q, CanonAll(init), CanonEntry(last));
    }
  }

  /** Two trees that differ only in the order of their directory listings,
      at any depth, get the same address and store the same objects. */
  lemma SameTreeSameAddress(h: Hasher, objects: map<Bytes, Bytes>, n: Node, m: Node)
    requires SameUpToOrder(n, m)
    ensures NodeAddress(h, n) == NodeAddress(h, m)
    ensures WriteNode(h, objects, n) == WriteNode(h, objects, m)
  {
    CanonAddress(h, n);
    CanonAddress(h, m);
    CanonWrite(h, objects, n);
    CanonWrite(h, objects, m);
  }

  /** What a reader gets back for each listed child: its name, its mode, the
      address `write_tree` gave it, and "tree" exactly for a directory. */
  lemma ListedChildren(h: Hasher, cs: seq<Entry>)
    ensures var l := Listing(cs);
      var v := Views(Listed(h, cs));
      |v| == |l|
      && forall i :: 0 <= i < |l| ==>
           v[i].name == l[i].name && v[i].mode == ModeOf(l[i].node)
           && v[i].sha == NodeAddress(h, l[i].node) && (v[i].kind == Tree <==> l[i].node.Dir?)
  {
    ListingWithin(cs);
    var l := Listing(cs);
    var es := ChildEntries(h, Dir(cs), l);
    forall i | 0 <= i < |l|
      ensures Views(es)[i].name == l[i].name && Views(es)[i].mode == ModeOf(l[i].node)
      ensures Views(es)[i].sha == NodeAddress(h, l[i].node) && (Views(es)[i].kind == Tree <==> l[i].node.Dir?)
    {
      ChildEntriesAt(h, Dir(cs), l, i);
      ViewsAt(es, i);
      ModeOfKind(l[i].node);
    }
  }

  /** The recorded children meet what the positional reading needs when no
      child's name holds a NUL byte. */
  lemma ChildEntriesRecordSafe(h: Hasher, cs: seq<Entry>)
    requires forall x :: x in cs ==> NUL !in x.name
    ensures AllRecordSafe(Listed(h, cs))
  {
    ListingWithin(cs);
    ListingSpec(cs);
    var l := Listing(cs);
    var es := ChildEntries(h, Dir(cs), l);
    forall i | 0 <= i < |es| ensures RecordSafe(es[i]) {
      ChildEntriesAt(h, Dir(cs), l, i);
      ModeOfKind(l[i].node);
      assert l[i] in cs;
    }
  }

  /** `write_tree` followed by reading the tree back: the tree object lies
      at the path of the returned address, and reading it by position lists
      every child. The splitting reader gives the same list whenever no
      recorded name, mode or raw address holds a space or a NUL byte. */
  lemma WrittenTreeReadsBack(h: Hasher, objects: map<Bytes, Bytes>, cs: seq<Entry>)
    requires forall x :: x in cs ==> NUL !in x.name
    ensures var objs := WriteNode(h, objects, Dir(cs));
      var sha := NodeAddress(h, Dir(cs));
      var listed := Listed(h, cs);
      ObjectPath(sha) in objs
      && DecodeRecords(Content(objs[ObjectPath(sha)])) == Ok(Views(listed))
      && (AllSplitSafe(listed) ==> TreeEntriesAt(objs, sha) == Ok(Views(listed)))
  {
    ListingWithin(cs);
    var listed := ChildEntries(h, Dir(cs), Listing(cs));
    var objs := WriteNode(h, objects, Dir(cs));
    var sha := NodeAddress(h, Dir(cs));
    assert objs[ObjectPath(sha)] == Frame(Tree, EncodeTree(listed));
    ContentOfFrame(Tree, EncodeTree(listed));
    ChildEntriesRecordSafe(h, cs);
    DecodeRecordsOfEncodeTree(listed);
    if AllSplitSafe(listed) {
      DecodeEncodeTree(listed);
    }
  }

  /** One object directory grows into another: every object is still at
      its own address's path, nothing is removed, and an object changes only
      into different bytes with the same digest. */
  ghost predicate Grows(h: Hasher, before: map<Bytes, Bytes>, after: map<Bytes, Bytes>) {
    ContentAddressed(h, after)
    && before.Keys <= after.Keys
    && forall p :: p in before && after[p] != before[p] ==> h(after[p]) == h(before[p])
  }

  lemma PutGrows(h: Hasher, objects: map<Bytes, Bytes>, t: ObjType, data: Bytes)
    requires ContentAddressed(h, objects)
    ensures Grows(h, objects, Put(h, objects, t, data))
  {
    PutKeepsContentAddressed(h, objects, t, data);
    PutNeverOverwrites(h, objects, t, data);
  }

  lemma GrowsTransitive(h: Hasher, a: map<Bytes, Bytes>, b: map<Bytes, Bytes>, c: map<Bytes, Bytes>)
    requires Grows(h, a, b) && Grows(h, b, c)
    ensures Grows(h, a, c)
  {
    forall p | p in a && c[p] != a[p] ensures h(c[p]) == h(a[p]) {
      if b[p] != a[p] && c[p] != b[p] {
        assert h(c[p]) == h(b[p]);
      }
    }
  }

  /** Writing a whole directory keeps the object directory content-addressed
      and only ever adds to it. */
  lemma {:induction false} WriteNodeGrows(h: Hasher, objects: map<Bytes, Bytes>, n: Node)
    requires ContentAddressed(h, objects)
    ensures Grows(h, objects, WriteNode(h, objects, n))
    decreases n, 1
  {
    match n
    case File(data) =>
      PutGrows(h, objects, Blob, data);
    case Dir(cs) =>
      ListingWithin(cs);
      var mid := WriteAll(h, objects, n, Listing(cs));
      WriteAllGrows(h, objects, n, Listing(cs));
      PutGrows(h, mid, Tree, EncodeTree(ChildEntries(h, n, Listing(cs))));
      GrowsTransitive(h, objects, mid, WriteNode(h, objects, n));
  }

  lemma {:induction false} WriteAllGrows(h: Hasher, objects: map<Bytes, Bytes>, parent: Node, es: seq<Entry>)
    requires ContentAddressed(h, objects) && Within(parent, es)
    ensures Grows(h, objects, WriteAll(h, objects, parent, es))
    decreases parent, 0, |es|
  {
    if es != [] {
      var last := es[|es| - 1];
      assert last in parent.children;
      var mid := WriteAll(h, objects, parent, es[..|es| - 1]);
      WriteAllGrows(h, objects, parent, es[..|es| - 1]);
      WriteNodeGrows(h, mid, last.node);
      GrowsTransitive(h, objects, mid, WriteAll(h, objects, parent, es));
    }
  }

  /** Every object a node's address refers to is present: the node's own
      object and, below a directory, those of all recorded children. */
  ghost predicate StoredBelow(h: Hasher, objects: map<Bytes, Bytes>, n: Node)
    decreases n
  {
    ObjectPath(NodeAddress(h, n)) in objects
    && (n.Dir? ==> forall e :: e in n.children && e.name != GitDir ==> StoredBelow(h, objects, e.node))
  }

  lemma {:induction false} StoredBelowGrows(h: Hasher, a: map<Bytes, Bytes>, b: map<Bytes, Bytes>, n: Node)
    requires a.Keys <= b.Keys && StoredBelow(h, a, n)
    ensures StoredBelow(h, b, n)
    decreases n
  {
    if n.Dir? {
      forall e | e in n.children && e.name != GitDir ensures StoredBelow(h, b, e.node) {
        StoredBelowGrows(h, a, b, e.node);
      }
    }
  }

  /** After `write_tree` the object directory holds the tree it returns the
      address of and, at every depth, each object that tree refers to;
      nothing held before is removed. */
  lemma {:induction false} WriteNodeStores(h: Hasher, objects: map<Bytes, Bytes>, n: Node)
    ensures objects.Keys <= WriteNode(h, objects, n).Keys
    ensures StoredBelow(h, WriteNode(h, objects, n), n)
    decreases n, 1
  {
    match n
    case File(data) =>
    case Dir(cs) =>
      ListingWithin(cs);
      ListingSpec(cs);
      var l := Listing(cs);
      var mid := WriteAll(h, objects, n, l);
      var r := WriteNode(h, objects, n);
      WriteAllStores(h, objects, n, l);
      forall e | e in cs && e.name != GitDir ensures StoredBelow(h, r, e.node) {
        StoredBelowGrows(h, mid, r, e.node);
      }
  }

  lemma {:induction false} WriteAllStores(h: Hasher, objects: map<Bytes, Bytes>, parent: Node, es: seq<Entry>)
    requires Within(parent, es)
    ensures objects.Keys <= WriteAll(h, objects, parent, es).Keys
    ensures forall e :: e in es ==> StoredBelow(h, WriteAll(h, objects, parent, es), e.node)
    decreases parent, 0, |es|
  {
    if es != [] {
      var init := es[..|es| - 1];
      var last := es[|es| - 1];
      assert last in parent.children;
      var mid := WriteAll(h, objects, parent, init);
      var r := WriteAll(h, objects, parent, es);
      WriteAllStores(h, objects, parent, init);
      WriteNodeStores(h, mid, last.node);
      forall e | e in es ensures StoredBelow(h, r, e.node) {
        if e != last {
          assert e in init;
          StoredBelowGrows(h, mid, r, e.node);
        }
      }
    }
  }

  /** `write_tree(current_directory)`, loop and recursion as the source has
      them: the children are visited in sorted order, `.git` is skipped, and
      each child's record is appended before the tree itself is stored. */
  method WriteTree(store: Store, dir: seq<Entry>) returns (sha: Bytes)
    modifies store
    ensures sha == NodeAddress(store.sha1, Dir(dir))
    ensures store.objects == WriteNode(store.sha1, old(store.objects), Dir(dir))
    ensures ContentAddressed(store.sha1, old(store.objects)) ==> Grows(store.sha1, old(store.objects), store.objects)
    decreases Dir(dir), 1
  {
    ghost var h := store.sha1;
    ghost var start := store.objects;
    var sorted := SortByName(dir);
    var records: seq<Bytes> := [];
    ghost var done: seq<Entry> := [];
    VisitedStart(h, start, dir);
    var i := 0;
    while i < |sorted|
      invariant 0 <= i <= |sorted|
      invariant Visited(h, start, dir, i, done, records, store.objects)
    {
      var entry := sorted[i];
      if entry.name != GitDir {
        ghost var before := store.objects;
        ListedMember(dir, i);
        var record := WriteChild(store, entry);
        VisitChild(h, start, dir, i, done, records, before, record, store.objects);
        records := records + [record];
        done := done + [entry];
      } else {
        VisitSkip(h, start, dir, i, done, records, store.objects);
      }
      i := i + 1;
    }
    VisitedEnd(h, start, dir, done, records, store.objects);
    sha := store.HashObject(Concat(records), Tree, true);
    if ContentAddressed(h, start) {
      WriteNodeGrows(h, start, Dir(dir));
    }
  }

  /** The body of the listing loop for a child other than `.git`: a
      sub-directory is written by the recursive call, a file is read and
      stored as a blob, and the child's record is built from its address. */
  method WriteChild(store: Store, entry: Entry) returns (record: Bytes)
    modifies store
    ensures record == Record(TreeEntry(ModeOf(entry.node), entry.name, NodeAddress(store.sha1, entry.node)))
    ensures store.objects == WriteNode(store.sha1, old(store.objects), entry.node)
    decreases entry.node, 2
  {
    var sha1: Bytes;
    var mode: Bytes;
    if entry.node.Dir? {
      sha1 := WriteTree(store, entry.node.children);
      mode := TreeMode;
    } else {
      sha1 := store.HashObject(entry.node.data, Blob, true);
      mode := BlobMode;
    }
    record := mode + [SP] + entry.name + [NUL] + FromHex(sha1);
  }
}
