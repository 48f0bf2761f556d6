/** The working directory `write_tree` walks, held in memory: a file is its
    bytes, a directory the list of its children as the directory listing
    returns them, in no particular order. */
module DirTree {
  import opened ByteStrings

  datatype Node = File(data: Bytes) | Dir(children: seq<Entry>)

  datatype Entry = Entry(name: Bytes, node: Node)

  /** The repository's own directory, which `write_tree` never records. */
  const GitDir: Bytes := Ascii(".git")

  /** Byte-wise lexicographic order, a proper prefix first. On UTF-8 names
      this is the code point order `sorted` uses on the decoded names. */
  predicate NameLess(a: Bytes, b: Bytes)
    decreases |a|
  {
    b != [] && (a == [] || a[0] < b[0] || (a[0] == b[0] && NameLess(a[1..], b[1..])))
  }

  lemma {:induction false} NameLessIrreflexive(a: Bytes)
    ensures !NameLess(a, a)
    decreases |a|
  {
    if a != [] {
      NameLessIrreflexive(a[1..]);
    }
  }

  lemma {:induction false} NameLessTransitive(a: Bytes, b: Bytes, c: Bytes)
    requires NameLess(a, b) && NameLess(b, c)
    ensures NameLess(a, c)
    decreases |a|
  {
    if a != [] && a[0] == b[0] && b[0] == c[0] {
      NameLessTransitive(a[1..], b[1..], c[1..]);
    }
  }

  /** Two different names are always ordered one way or the other. */
  lemma {:induction false} NameLessTotal(a: Bytes, b: Bytes)
    requires a != b
    ensures NameLess(a, b) || NameLess(b, a)
    decreases |a|
  {
    if a != [] && b != [] && a[0] == b[0] {
      assert a == [a[0]] + a[1..] && b == [b[0]] + b[1..];
      NameLessTotal(a[1..], b[1..]);
    }
  }

  /** `b` does not come before `a`. */
  predicate NameLe(a: Bytes, b: Bytes) {
    !NameLess(b, a)
  }

  lemma NameLeTransitive(a: Bytes, b: Bytes, c: Bytes)
    requires NameLe(a, b) && NameLe(b, c)
    ensures NameLe(a, c)
  {
    if NameLess(c, a) {
      if a == b {
      } else {
        NameLessTotal(a, b);
        NameLessTransitive(c, a, b);
      }
    }
  }

  /** Two names that do not come before each other are the same name. */
  lemma NameLeAntisymmetric(a: Bytes, b: Bytes)
    requires NameLe(a, b) && NameLe(b, a)
    ensures a == b
  {
    if a != b {
      NameLessTotal(a, b);
    }
  }

  predicate Sorted(es: seq<Entry>) {
    forall i, j :: 0 <= i < j < |es| ==> NameLe(es[i].name, es[j].name)
  }

  /** A directory listing never shows two children under one name. */
  predicate UniqueNames(es: seq<Entry>) {
    forall x, y :: x in es && y in es && x.name == y.name ==> x == y
  }

  /** Puts `e` before the first entry that does not come before it. */
  function Insert(e: Entry, es: seq<Entry>): (r: seq<Entry>)
    ensures multiset(r) == multiset(es) + multiset{e}
  {
    if es == [] || !NameLess(es[0].name, e.name) then [e] + es
    else
      assert es == [es[0]] + es[1..];
      [es[0]] + Insert(e, es[1..])
  }

  lemma {:induction false} InsertSorted(e: Entry, es: seq<Entry>)
    requires Sorted(es)
    ensures Sorted(Insert(e, es))
  {
    var r := Insert(e, es);
    if es == [] || !NameLess(es[0].name, e.name) {
      forall j | 1 <= j < |r| ensures NameLe(e.name, r[j].name) {
        assert r[j] == es[j - 1];
        if j > 1 {
          NameLeTransitive(e.name, es[0].name, es[j - 1].name);
        }
      }
    } else {
      var rest := Insert(e, es[1..]);
      InsertSorted(e, es[1..]);
      assert r == [es[0]] + rest;
      forall j | 0 <= j < |rest| ensures NameLe(es[0].name, rest[j].name) {
        assert rest[j] in multiset(es[1..]) + multiset{e};
        if rest[j] == e {
          NameLessIrreflexive(e.name);
          if NameLess(e.name, es[0].name) {
            NameLessTransitive(e.name, es[0].name, e.name);
          }
        } else {
          assert rest[j] in es[1..];
          var k :| 0 <= k < |es[1..]| && es[1..][k] == rest[j];
          assert es[k + 1] == rest[j];
        }
      }
    }
  }

  /** `sorted(os.listdir(path))`: the children in ascending name order. */
  function SortByName(es: seq<Entry>): (r: seq<Entry>)
    ensures multiset(r) == multiset(es)
  {
    if es == [] then []
    else
      assert es == [es[0]] + es[1..];
      Insert(es[0], SortByName(es[1..]))
  }

  /** Sorting orders the children and keeps every one of them. */
  lemma {:induction false} SortByNameSorts(es: seq<Entry>)
    ensures Sorted(SortByName(es)) && multiset(SortByName(es)) == multiset(es)
  {
    if es != [] {
      SortByNameSorts(es[1..]);
      InsertSorted(es[0], SortByName(es[1..]));
    }
  }

  /** Two sorted arrangements of the same children with distinct names are
      the same sequence. */
  lemma {:induction false} SortedUnique(a: seq<Entry>, b: seq<Entry>)
    requires Sorted(a) && Sorted(b) && multiset(a) == multiset(b) && UniqueNames(a)
    ensures a == b
    decreases |a|
  {
    if a != [] {
      SameFirst(a, b);
      HeadTail(a);
      HeadTail(b);
      SortedTail(a);
      SortedTail(b);
      assert multiset(a[1..]) == multiset(a) - multiset{a[0]};
      assert multiset(b[1..]) == multiset(b) - multiset{b[0]};
      SortedUnique(a[1..], b[1..]);
    }
  }

  lemma HeadTail(a: seq<Entry>)
    requires a != []
    ensures a == [a[0]] + a[1..]
    ensures multiset(a) == multiset{a[0]} + multiset(a[1..])
  {
    assert a == [a[0]] + a[1..];
  }

  /** Both arrangements start with the child whose name comes first. */
  lemma SameFirst(a: seq<Entry>, b: seq<Entry>)
    requires a != [] && Sorted(a) && Sorted(b) && multiset(a) == multiset(b) && UniqueNames(a)
    ensures b != [] && a[0] == b[0]
  {
    assert a[0] in multiset(b);
    var k :| 0 <= k < |b| && b[k] == a[0];
    assert b[0] in multiset(a);
    var m :| 0 <= m < |a| && a[m] == b[0];
    if k > 0 {
      assert NameLe(b[0].name, b[k].name);
    } else {
      NameLessIrreflexive(b[0].name);
    }
    if m > 0 {
      assert NameLe(a[0].name, a[m].name);
    } else {
      NameLessIrreflexive(a[0].name);
    }
    NameLeAntisymmetric(a[0].name, b[0].name);
  }

  lemma SortedTail(a: seq<Entry>)
    requires a != [] && Sorted(a)
    ensures Sorted(a[1..])
    ensures UniqueNames(a) ==> UniqueNames(a[1..])
  {
    forall i, j | 0 <= i < j < |a[1..]| ensures NameLe(a[1..][i].name, a[1..][j].name) {
      assert a[1..][i] == a[i + 1] && a[1..][j] == a[j + 1];
    }
  }

  /** The children other than `.git`, in the given order (the `continue` of
      the listing loop). */
  function DropGit(es: seq<Entry>): (r: seq<Entry>)
    ensures |r| <= |es|
  {
    if es == [] then []
    else
      var last := es[|es| - 1];
      DropGit(es[..|es| - 1]) + if last.name == GitDir then [] else [last]
  }

  lemma {:induction false} DropGitMembers(es: seq<Entry>)
    ensures forall x :: x in DropGit(es) <==> x in es && x.name != GitDir
  {
    if es != [] {
      var init := es[..|es| - 1];
      DropGitMembers(init);
      assert es == init + [es[|es| - 1]];
    }
  }

  lemma {:induction false} DropGitSorted(es: seq<Entry>)
    requires Sorted(es)
    ensures Sorted(DropGit(es))
  {
    if es != [] {
      var init := es[..|es| - 1];
      var last := es[|es| - 1];
      assert Sorted(init);
      DropGitSorted(init);
      DropGitMembers(init);
      var d := DropGit(init);
      forall i | 0 <= i < |d| ensures NameLe(d[i].name, last.name) {
        assert d[i] in init;
        var k :| 0 <= k < |init| && init[k] == d[i];
      }
    }
  }

  /** Leaving out `.git` keeps every other child exactly as often as it
      was listed. */
  lemma {:induction false} DropGitMultiset(es: seq<Entry>)
    ensures forall x :: multiset(DropGit(es))[x] == if x.name == GitDir then 0 else multiset(es)[x]
  {
    if es != [] {
      var init := es[..|es| - 1];
      DropGitMultiset(init);
      assert es == init + [es[|es| - 1]];
    }
  }

  /** The children `write_tree` records, in the order it records them:
      sorted by name, `.git` left out. */
  function Listing(es: seq<Entry>): seq<Entry> {
    DropGit(SortByName(es))
  }

  lemma ListingSpec(es: seq<Entry>)
    ensures Sorted(Listing(es))
    ensures forall x :: x in Listing(es) <==> x in es && x.name != GitDir
    ensures forall x :: multiset(Listing(es))[x] == if x.name == GitDir then 0 else multiset(es)[x]
  {
    SortByNameSorts(es);
    DropGitMultiset(SortByName(es));
    DropGitSorted(SortByName(es));
    DropGitMembers(SortByName(es));
    forall x ensures x in SortByName(es) <==> x in es {
      assert x in multiset(SortByName(es)) <==> x in multiset(es);
    }
  }

  /** Sorting distinct-named children gives the same sequence whatever
      order they came in. */
  lemma SortOrderIndependent(a: seq<Entry>, b: seq<Entry>)
    requires multiset(a) == multiset(b) && UniqueNames(a)
    ensures SortByName(a) == SortByName(b)
  {
    SortByNameSorts(a);
    SortByNameSorts(b);
    var sa := SortByName(a);
    assert UniqueNames(sa) by {
      forall x | x in sa ensures x in a {
        assert x in multiset(sa);
      }
    }
    SortedUnique(sa, SortByName(b));
  }

  /** The order the directory listing comes in makes no difference. */
  lemma ListingOrderIndependent(a: seq<Entry>, b: seq<Entry>)
    requires multiset(a) == multiset(b) && UniqueNames(a)
    ensures Listing(a) == Listing(b)
  {
    SortOrderIndependent(a, b);
  }

  /** Sorting children that are already in name order leaves them as they
      are. */
  lemma {:induction false} SortSorted(es: seq<Entry>)
    requires Sorted(es)
    ensures SortByName(es) == es
  {
    if es != [] {
      SortedTail(es);
      SortSorted(es[1..]);
      HeadTail(es);
    }
  }

  /** The tree with the children of every directory, at every depth, put in
      name order. */
  function Canon(n: Node): Node
    decreases n
  {
    match n
    case File(_) => n
    case Dir(cs) => Dir(SortByName(seq(|cs|, i requires 0 <= i < |cs| => Entry(cs[i].name, Canon(cs[i].node)))))
  }

  function CanonEntry(e: Entry): Entry {
    Entry(e.name, Canon(e.node))
  }

  function CanonAll(es: seq<Entry>): seq<Entry> {
    seq(|es|, i requires 0 <= i < |es| => CanonEntry(es[i]))
  }

  /** Two trees that differ at most in the order of directory listings. */
  predicate SameUpToOrder(n: Node, m: Node) {
    Canon(n) == Canon(m)
  }

  lemma CanonDir(cs: seq<Entry>)
    ensures Canon(Dir(cs)) == Dir(SortByName(CanonAll(cs)))
  {
    var m := seq(|cs|, i requires 0 <= i < |cs| => Entry(cs[i].name, Canon(cs[i].node)));
    assert m == CanonAll(cs) by {
      forall i | 0 <= i < |cs| ensures m[i] == CanonAll(cs)[i] {
      }
    }
  }

  lemma CanonAllSplit(a: seq<Entry>, b: seq<Entry>)
    ensures CanonAll(a + b) == CanonAll(a) + CanonAll(b)
  {
  }

  /** Canonical children keep their names, so inserting and sorting by name
      treat them as they treat the originals. */
  lemma {:induction false} InsertCanon(e: Entry, es: seq<Entry>)
    ensures Insert(CanonEntry(e), CanonAll(es)) == CanonAll(Insert(e, es))
  {
    if es != [] && NameLess(es[0].name, e.name) {
      HeadTail(es);
      CanonAllSplit([es[0]], es[1..]);
      InsertCanon(e, es[1..]);
      CanonAllSplit([es[0]], Insert(e, es[1..]));
    } else {
      CanonAllSplit([e], es);
    }
  }

  lemma {:induction false} SortCanon(es: seq<Entry>)
    ensures SortByName(CanonAll(es)) == CanonAll(SortByName(es))
  {
    if es != [] {
      HeadTail(es);
      CanonAllSplit([es[0]], es[1..]);
      SortCanon(es[1..]);
      InsertCanon(es[0], SortByName(es[1..]));
    }
  }

  lemma {:induction false} DropGitCanon(es: seq<Entry>)
    ensures DropGit(CanonAll(es)) == CanonAll(DropGit(es))
  {
    if es != [] {
      var init := es[..|es| - 1];
      var last := es[|es| - 1];
      assert es == init + [last];
      CanonAllSplit(init, [last]);
      DropGitCanon(init);
      assert CanonAll(es)[..|es| - 1] == CanonAll(init);
      CanonAllSplit(DropGit(init), if last.name == GitDir then [] else [last]);
    }
  }

  /** What `write_tree` lists of a canonical directory is the canonical form
      of what it lists of the original. */
  lemma ListingCanon(cs: seq<Entry>)
    ensures Listing(Canon(Dir(cs)).children) == CanonAll(Listing(cs))
  {
    var s := SortByName(cs);
    CanonDir(cs);
    SortCanon(cs);
    SortByNameSorts(cs);
    CanonSorted(s);
    SortSorted(CanonAll(s));
    DropGitCanon(s);
  }

  lemma CanonSorted(es: seq<Entry>)
    requires Sorted(es)
    ensures Sorted(CanonAll(es))
  {
    var c := CanonAll(es);
    forall i, j | 0 <= i < j < |c| ensures NameLe(c[i].name, c[j].name) {
      assert c[i].name == es[i].name && c[j].name == es[j].name;
    }
  }

  /** Listing the children of a directory in another order gives a tree of
      the same shape. */
  lemma ReorderSame(a: seq<Entry>, b: seq<Entry>)
    requires multiset(a) == multiset(b) && UniqueNames(a)
    ensures SameUpToOrder(Dir(a), Dir(b))
  {
    SortOrderIndependent(a, b);
    CanonDir(a);
    CanonDir(b);
    SortCanon(a);
    SortCanon(b);
  }

  /** Replacing one child by a tree of the same shape gives a tree of the
      same shape. */
  lemma ReplaceSame(pre: seq<Entry>, name: Bytes, x: Node, y: Node, post: seq<Entry>)
    requires SameUpToOrder(x, y)
    ensures SameUpToOrder(Dir(pre + [Entry(name, x)] + post), Dir(pre + [Entry(name, y)] + post))
  {
    var a := pre + [Entry(name, x)] + post;
    var b := pre + [Entry(name, y)] + post;
    assert CanonAll(a) == CanonAll(b) by {
      forall i | 0 <= i < |a| ensures CanonAll(a)[i] == CanonAll(b)[i] {
        if i != |pre| {
          assert a[i] == b[i];
        }
      }
    }
    CanonDir(a);
    CanonDir(b);
  }
}
