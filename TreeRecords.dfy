/** Tree objects as `write_tree` writes them: one record per child, holding
    its mode, its name and its raw address; and the entries a reader of a
    tree gives back. */
module TreeRecords {
  import opened ByteStrings
  import opened HexText
  import opened ObjectStore

  /** The modes `write_tree` writes for a sub-directory and for a file. */
  const TreeMode: Bytes := Ascii("40000")
  const BlobMode: Bytes := Ascii("100644")
  /** The zero-padded spelling of the directory mode, which the reader also
      takes for a tree. */
  const PaddedTreeMode: Bytes := Ascii("040000")

  lemma ModesHaveNoSeparator()
    ensures SP !in TreeMode && NUL !in TreeMode
    ensures SP !in BlobMode && NUL !in BlobMode
    ensures TreeMode != BlobMode
  {
    assert TreeMode[0] != BlobMode[0];
  }

  /** The file mode reads back as a blob and the directory mode as a tree. */
  lemma ModeKinds()
    ensures KindOf(BlobMode) == Blob && KindOf(TreeMode) == Tree && KindOf([]) == Blob
  {
    assert BlobMode[0] != PaddedTreeMode[0];
  }

  /** One child as `write_tree` knows it: its mode, its name and the hex
      address of the object it stands for. */
  datatype TreeEntry = TreeEntry(mode: Bytes, name: Bytes, sha: Bytes)

  predicate ValidShas(es: seq<TreeEntry>) {
    forall i :: 0 <= i < |es| ==> IsSha(es[i].sha)
  }

  /** `f"{mode} {name}\0".encode() + bytes.fromhex(sha)`. */
  function Record(e: TreeEntry): (r: Bytes)
    requires IsSha(e.sha)
    ensures |r| == |e.mode| + |e.name| + 22
  {
    e.mode + [SP] + e.name + [NUL] + FromHex(e.sha)
  }

  /** The tree payload: the records of the children, in the given order. */
  function EncodeTree(es: seq<TreeEntry>): Bytes
    requires ValidShas(es)
  {
    if es == [] then [] else Record(es[0]) + EncodeTree(es[1..])
  }

  lemma {:induction false} EncodeTreeAppend(es: seq<TreeEntry>, e: TreeEntry)
    requires ValidShas(es) && IsSha(e.sha)
    ensures ValidShas(es + [e])
    ensures EncodeTree(es + [e]) == EncodeTree(es) + Record(e)
  {
    if es != [] {
      assert (es + [e])[1..] == es[1..] + [e];
      EncodeTreeAppend(es[1..], e);
    }
  }

  /** An entry as `get_tree_entries` returns it; `kind` is its "type" key. */
  datatype DecodedEntry = DecodedEntry(mode: Bytes, name: Bytes, sha: Bytes, kind: ObjType)

  /** "tree" for the directory modes `040000` and `40000`, else "blob". */
  function KindOf(mode: Bytes): ObjType {
    if mode == PaddedTreeMode || mode == TreeMode then Tree else Blob
  }

  /** The entry a decoder should give back for `e`. */
  function View(e: TreeEntry): DecodedEntry {
    DecodedEntry(e.mode, e.name, e.sha, KindOf(e.mode))
  }

  function Views(es: seq<TreeEntry>): (r: seq<DecodedEntry>)
    ensures |r| == |es|
  {
    if es == [] then [] else [View(es[0])] + Views(es[1..])
  }

  lemma {:induction false} ViewsAt(es: seq<TreeEntry>, i: nat)
    requires i < |es|
    ensures Views(es)[i] == View(es[i])
  {
    if i > 0 {
      ViewsAt(es[1..], i - 1);
    }
  }

  datatype Error = NotFound | IndexError | MalformedTree

  datatype Result<T> = Ok(value: T) | Err(error: Error)

  /** `entries + rest` when decoding the rest succeeded. */
  function Prepend(entries: seq<DecodedEntry>, r: Result<seq<DecodedEntry>>): (r': Result<seq<DecodedEntry>>)
    ensures entries == [] ==> r' == r
  {
    match r
    case Ok(rest) =>
      assert entries == [] ==> entries + rest == rest;
      Ok(entries + rest)
    case Err(e) => Err(e)
  }

  lemma PrependTwice(entries: seq<DecodedEntry>, entry: DecodedEntry, r: Result<seq<DecodedEntry>>)
    ensures Prepend(entries, Prepend([entry], r)) == Prepend(entries + [entry], r)
  {
    if r.Ok? {
      assert entries + ([entry] + r.value) == (entries + [entry]) + r.value;
    }
  }

  lemma EncodeSingle(e: TreeEntry)
    requires IsSha(e.sha)
    ensures ValidShas([e]) && EncodeTree([e]) == Record(e)
  {
    assert [e][1..] == [];
    assert EncodeTree([e]) == Record(e) + EncodeTree([]);
  }
}
