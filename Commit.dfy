/** `create_commit`: the fixed commit text, naming the tree, one parent and
    the message, stored as an object of type commit. */
module Commits {
  import opened ByteStrings
  import opened ObjectStore

  /** The author line, written twice: once as author and once in the place
      of the committer. */
  const AuthorLine: Bytes := Ascii("author BouraouiChifour bouraoui404@gmail.com")

  const TreeKey: Bytes := Ascii("tree ")
  const ParentKey: Bytes := Ascii("parent ")

  /** Each line followed by a newline, as the commit text is laid out. */
  function Terminated(lines: seq<Bytes>): Bytes
    decreases |lines|
  {
    if lines == [] then [] else lines[0] + [LF] + Terminated(lines[1..])
  }

  /** The lines of the commit text: the tree line, the parent line, the
      author line twice, an empty line and the message. */
  function CommitLinesOf(tree: Bytes, parent: Bytes, message: Bytes): seq<Bytes> {
    [TreeKey + tree, ParentKey + parent, AuthorLine, AuthorLine, [], message]
  }

  /** The commit text for `tree`, `parent` and `message`. */
  function CommitPayload(tree: Bytes, parent: Bytes, message: Bytes): Bytes {
    Terminated(CommitLinesOf(tree, parent, message))
  }

  lemma KeysHaveNoNewline()
    ensures LF !in TreeKey && LF !in ParentKey && LF !in AuthorLine
    ensures |TreeKey| == 5 && |ParentKey| == 7
  {
    AsciiWithout("tree ", '\n');
    AsciiWithout("parent ", '\n');
    AsciiWithout("author BouraouiChifour bouraoui404@gmail.com", '\n');
  }

  predicate NoNewlines(lines: seq<Bytes>) {
    forall i :: 0 <= i < |lines| ==> LF !in lines[i]
  }

  /** Splitting newline-terminated lines on the newline gives the lines
      back, and the empty text after the last newline. */
  lemma {:induction false} SplitTerminated(lines: seq<Bytes>)
    requires NoNewlines(lines)
    ensures Split(Terminated(lines), LF) == lines + [[]]
    decreases |lines|
  {
    if lines == [] {
      assert LF !in Terminated(lines);
    } else {
      assert NoNewlines(lines[1..]) by {
        forall i | 0 <= i < |lines[1..]| ensures LF !in lines[1..][i] {
          assert lines[1..][i] == lines[i + 1];
        }
      }
      SplitAt(lines[0], LF, Terminated(lines[1..]));
      SplitTerminated(lines[1..]);
      assert [lines[0]] + (lines[1..] + [[]]) == lines + [[]];
    }
  }

  lemma CommitLinesHaveNoNewline(tree: Bytes, parent: Bytes, message: Bytes)
    requires LF !in tree && LF !in parent && LF !in message
    ensures NoNewlines(CommitLinesOf(tree, parent, message))
  {
    KeysHaveNoNewline();
    var ls := CommitLinesOf(tree, parent, message);
    forall i | 0 <= i < |ls| ensures LF !in ls[i] {
      if i == 0 {
        assert LF !in TreeKey + tree;
      } else if i == 1 {
        assert LF !in ParentKey + parent;
      }
    }
  }

  /** Line by line, the commit text is the tree line, the parent line, the
      author line twice, an empty line and the message, ending in a newline,
      as long as none of the three fields holds a newline itself. */
  lemma CommitLines(tree: Bytes, parent: Bytes, message: Bytes)
    requires LF !in tree && LF !in parent && LF !in message
    ensures Split(CommitPayload(tree, parent, message), LF)
      == [TreeKey + tree, ParentKey + parent, AuthorLine, AuthorLine, [], message, []]
  {
    CommitLinesHaveNoNewline(tree, parent, message);
    SplitTerminated(CommitLinesOf(tree, parent, message));
  }

  /** Different tree or parent addresses, or different messages, always give
      different commit texts, provided the addresses hold no newline. */
  lemma CommitPayloadInjective(t1: Bytes, p1: Bytes, m1: Bytes, t2: Bytes, p2: Bytes, m2: Bytes)
    requires LF !in t1 && LF !in p1 && LF !in t2 && LF !in p2
    requires CommitPayload(t1, p1, m1) == CommitPayload(t2, p2, m2)
    ensures t1 == t2 && p1 == p2 && m1 == m2
  {
    KeysHaveNoNewline();
    var l1 := CommitLinesOf(t1, p1, m1);
    var l2 := CommitLinesOf(t2, p2, m2);
    assert LF !in l1[0] && LF !in l1[1] && LF !in l2[0] && LF !in l2[1];
    TerminatedInjective(l1, l2);
    assert t1 == l1[0][5..] && t2 == l2[0][5..];
    assert p1 == l1[1][7..] && p2 == l2[1][7..];
  }

  /** Newline-terminated lines are determined by their text when no line
      but the last holds a newline. */
  lemma {:induction false} TerminatedInjective(l1: seq<Bytes>, l2: seq<Bytes>)
    requires |l1| == |l2| > 0 && Terminated(l1) == Terminated(l2)
    requires forall i :: 0 <= i < |l1| - 1 ==> LF !in l1[i] && LF !in l2[i]
    ensures l1 == l2
    decreases |l1|
  {
    if |l1| == 1 {
      assert Terminated(l1) == l1[0] + [LF] && Terminated(l2) == l2[0] + [LF];
      assert l1[0] == Terminated(l1)[..|Terminated(l1)| - 1];
    } else {
      LineFirst(l1[0], Terminated(l1[1..]), l2[0], Terminated(l2[1..]));
      forall i | 0 <= i < |l1[1..]| - 1 ensures LF !in l1[1..][i] && LF !in l2[1..][i] {
        assert l1[1..][i] == l1[i + 1] && l2[1..][i] == l2[i + 1];
      }
      TerminatedInjective(l1[1..], l2[1..]);
      assert l1 == [l1[0]] + l1[1..] && l2 == [l2[0]] + l2[1..];
    }
  }

  /** A first line without a newline is determined by the text, and so is
      what follows it. */
  lemma LineFirst(a1: Bytes, b1: Bytes, a2: Bytes, b2: Bytes)
    requires LF !in a1 && LF !in a2 && a1 + [LF] + b1 == a2 + [LF] + b2
    ensures a1 == a2 && b1 == b2
  {
    FindAt(a1, LF, b1);
    FindAt(a2, LF, b2);
    var s := a1 + [LF] + b1;
    assert a1 == s[..|a1|] && a2 == s[..|a2|];
    assert b1 == s[|a1| + 1..] && b2 == s[|a2| + 1..];
  }

  /** `create_commit(tree, parent, message)`: the commit text is hashed and
      stored as a commit object, and its address is returned. */
  method CreateCommit(store: Store, tree: Bytes, parent: Bytes, message: Bytes) returns (sha: Bytes)
    modifies store
    ensures sha == Address(store.sha1, Commit, CommitPayload(tree, parent, message))
    ensures store.objects == Put(store.sha1, old(store.objects), Commit, CommitPayload(tree, parent, message))
  {
    var commitData := CommitPayload(tree, parent, message);
    sha := store.HashObject(commitData, Commit, true);
  }
}
