/** `get_tree_entries`: the decoder that splits a tree payload on space bytes
    and then on NUL bytes, what it gets right and where it goes wrong. */
module TreeReader {
  import opened ByteStrings
  import opened HexText
  import opened ObjectStore
  import opened TreeRecords

  /** One turn of the decoding loop. */
  lemma DecodePartsStep(mode: Bytes, parts: seq<Bytes>)
    requires parts != []
    ensures var x := Split(parts[0], NUL);
      DecodeParts(mode, parts)
      == if |x| < 2 then Err(IndexError)
         else Prepend([DecodedEntry(mode, x[0], Hex(Take(x[1], 20)), KindOf(mode))],
                      DecodeParts(Drop(x[1], 20), parts[1..]))
  {
  }

  /** One turn of the decoding loop, at the `e`-th part. */
  lemma DecodePartsFrom(mode: Bytes, parts: seq<Bytes>, e: nat)
    requires e < |parts|
    ensures var x := Split(parts[e], NUL);
      DecodeParts(mode, parts[e..])
      == if |x| < 2 then Err(IndexError)
         else Prepend([DecodedEntry(mode, x[0], Hex(Take(x[1], 20)), KindOf(mode))],
                      DecodeParts(Drop(x[1], 20), parts[e + 1..]))
  {
    DecodePartsStep(mode, parts[e..]);
    assert parts[e..][0] == parts[e] && parts[e..][1..] == parts[e + 1..];
  }

  /** The loop of `get_tree_entries` over the space-separated parts after the
      first: each part is split on NUL, the text before the first NUL is the
      name, the next 20 bytes the address, and whatever follows them is the
      mode carried over to the next entry. A part without NUL makes `x[1]`
      raise `IndexError`, and the whole call fails. */
  function DecodeParts(mode: Bytes, parts: seq<Bytes>): (r: Result<seq<DecodedEntry>>)
    ensures r.Ok? ==> |r.value| == |parts|
    ensures r.Err? ==> r.error == IndexError
    decreases |parts|
  {
    if parts == [] then Ok([])
    else
      var x := Split(parts[0], NUL);
      if |x| < 2 then Err(IndexError)
      else
        var entry := DecodedEntry(mode, x[0], Hex(Take(x[1], 20)), KindOf(mode));
        Prepend([entry], DecodeParts(Drop(x[1], 20), parts[1..]))
  }

  /** The decoding loop fails exactly when some part holds no NUL byte. */
  lemma {:induction false} DecodePartsFails(mode: Bytes, parts: seq<Bytes>)
    ensures DecodeParts(mode, parts).Err? <==> exists i :: 0 <= i < |parts| && NUL !in parts[i]
    decreases |parts|
  {
    if parts != [] {
      var x := Split(parts[0], NUL);
      DecodePartsStep(mode, parts);
      SplitInTwo(parts[0], NUL);
      MissingAt(parts);
      if |x| >= 2 {
        DecodePartsFails(Drop(x[1], 20), parts[1..]);
      }
    }
  }

  /** Splitting gives at least two parts exactly when the separator occurs. */
  lemma SplitInTwo(s: Bytes, sep: byte)
    ensures |Split(s, sep)| >= 2 <==> sep in s
  {
    SplitJoin(s, sep);
    if sep in s {
      assert multiset(s)[sep] > 0;
    } else {
      assert multiset(s)[sep] == 0;
    }
  }

  /** Some part lacks a NUL exactly when the first one does or a later one
      does. */
  lemma MissingAt(parts: seq<Bytes>)
    requires parts != []
    ensures (exists i :: 0 <= i < |parts| && NUL !in parts[i])
      <==> NUL !in parts[0] || exists i :: 0 <= i < |parts[1..]| && NUL !in parts[1..][i]
  {
    if exists i :: 0 <= i < |parts| && NUL !in parts[i] {
      var i :| 0 <= i < |parts| && NUL !in parts[i];
      if i > 0 {
        assert parts[1..][i - 1] == parts[i];
      }
    }
    if exists i :: 0 <= i < |parts[1..]| && NUL !in parts[1..][i] {
      var i :| 0 <= i < |parts[1..]| && NUL !in parts[1..][i];
      assert parts[i + 1] == parts[1..][i];
    }
  }

  /** `get_tree_entries` on the payload of a tree: split everything on the
      space byte, take the first part as the first mode, then decode the
      rest. One entry comes out per space byte in the payload. */
  function DecodeTree(payload: Bytes): Result<seq<DecodedEntry>> {
    var parts := Split(payload, SP);
    DecodeParts(parts[0], parts[1..])
  }

  lemma DecodeTreeCount(payload: Bytes)
    ensures DecodeTree(payload).Ok? ==> |DecodeTree(payload).value| == multiset(payload)[SP]
  {
    SplitJoin(payload, SP);
  }

  /** What makes the splitting decoder invert the encoder: neither the mode
      nor the name nor the raw address holds a space or a NUL byte. */
  predicate SplitSafe(e: TreeEntry) {
    IsSha(e.sha)
    && SP !in e.mode && NUL !in e.mode
    && SP !in e.name && NUL !in e.name
    && SP !in FromHex(e.sha) && NUL !in FromHex(e.sha)
  }

  predicate AllSplitSafe(es: seq<TreeEntry>) {
    forall i :: 0 <= i < |es| ==> SplitSafe(es[i])
  }

  /** The parts the space split yields on an encoded list that follows a
      separator-free prefix `pre`. */
  ghost function SpaceParts(pre: Bytes, es: seq<TreeEntry>): seq<Bytes>
    requires ValidShas(es)
    decreases |es|
  {
    if es == [] then [pre]
    else [pre + es[0].mode] + SpaceParts(es[0].name + [NUL] + FromHex(es[0].sha), es[1..])
  }

  lemma {:induction false} SplitEncoded(pre: Bytes, es: seq<TreeEntry>)
    requires SP !in pre && AllSplitSafe(es)
    ensures Split(pre + EncodeTree(es), SP) == SpaceParts(pre, es)
    decreases |es|
  {
    if es == [] {
      assert pre + EncodeTree(es) == pre;
    } else {
      var e := es[0];
      var next := e.name + [NUL] + FromHex(e.sha);
      AllSplitSafeTail(es);
      EncodeFirst(pre, es);
      SplitAt(pre + e.mode, SP, next + EncodeTree(es[1..]));
      SplitEncoded(next, es[1..]);
    }
  }

  lemma EncodeFirst(pre: Bytes, es: seq<TreeEntry>)
    requires es != [] && ValidShas(es)
    ensures ValidShas(es[1..])
    ensures var e := es[0];
      pre + EncodeTree(es) == (pre + e.mode) + [SP] + (e.name + [NUL] + FromHex(e.sha) + EncodeTree(es[1..]))
  {
    assert ValidShas(es[1..]) by {
      forall i | 0 <= i < |es[1..]| ensures IsSha(es[1..][i].sha) {
        assert es[1..][i] == es[i + 1];
      }
    }
    var e := es[0];
    assert EncodeTree(es) == Record(e) + EncodeTree(es[1..]);
    Regroup(pre, e.mode, e.name, FromHex(e.sha), EncodeTree(es[1..]));
  }

  /** The bytes before the first space, and the ones after it. */
  lemma Regroup(pre: Bytes, mode: Bytes, name: Bytes, raw: Bytes, tail: Bytes)
    ensures pre + (mode + [SP] + name + [NUL] + raw + tail)
      == (pre + mode) + [SP] + (name + [NUL] + raw + tail)
  {
    var left := pre + (mode + [SP] + name + [NUL] + raw + tail);
    var right := (pre + mode) + [SP] + (name + [NUL] + raw + tail);
    assert |left| == |right|;
    forall i | 0 <= i < |left| ensures left[i] == right[i] {
    }
  }

  /** One part whose name and address hold no NUL gives one entry. */
  lemma PartStep(mode: Bytes, name: Bytes, raw: Bytes, parts: seq<Bytes>)
    requires NUL !in name && NUL !in raw
    ensures DecodeParts(mode, [name + [NUL] + raw] + parts)
      == Prepend([DecodedEntry(mode, name, Hex(Take(raw, 20)), KindOf(mode))], DecodeParts(Drop(raw, 20), parts))
  {
    var all := [name + [NUL] + raw] + parts;
    assert Split(all[0], NUL) == [name, raw] by {
      SplitAt(name, NUL, raw);
    }
    assert all[1..] == parts;
    DecodePartsStep(mode, all);
  }

  lemma {:induction false} DecodeSpaceParts(e: TreeEntry, rest: seq<TreeEntry>)
    requires SplitSafe(e) && AllSplitSafe(rest)
    ensures DecodeParts(e.mode, SpaceParts(e.name + [NUL] + FromHex(e.sha), rest))
      == Ok(Views([e] + rest))
    decreases |rest|
  {
    assert Views([e] + rest) == [View(e)] + Views(rest) by {
      assert ([e] + rest)[1..] == rest;
    }
    if rest == [] {
      LastEntryPart(e);
      assert [View(e)] + Views(rest) == [View(e)];
    } else {
      var next := rest[0];
      AllSplitSafeTail(rest);
      DecodeSpaceParts(next, rest[1..]);
      assert [next] + rest[1..] == rest;
      InnerEntryPart(e, rest);
    }
  }

  /** The last part holds the last name and address. */
  lemma LastEntryPart(e: TreeEntry)
    requires SplitSafe(e)
    ensures DecodeParts(e.mode, SpaceParts(e.name + [NUL] + FromHex(e.sha), [])) == Ok([View(e)])
  {
    var raw := FromHex(e.sha);
    HexOfFromHex(e.sha);
    assert SpaceParts(e.name + [NUL] + raw, []) == [e.name + [NUL] + raw] + [];
    PartStep(e.mode, e.name, raw, []);
    assert Take(raw, 20) == raw && Drop(raw, 20) == [];
    assert DecodeParts([], []) == Ok([]);
    assert [View(e)] + [] == [View(e)];
  }

  /** Any other part holds a name, an address and the next entry's mode. */
  lemma InnerEntryPart(e: TreeEntry, rest: seq<TreeEntry>)
    requires SplitSafe(e) && rest != [] && SplitSafe(rest[0]) && ValidShas(rest)
    ensures var next := rest[0];
      DecodeParts(e.mode, SpaceParts(e.name + [NUL] + FromHex(e.sha), rest))
      == Prepend([View(e)], DecodeParts(next.mode, SpaceParts(next.name + [NUL] + FromHex(next.sha), rest[1..])))
  {
    var raw := FromHex(e.sha);
    HexOfFromHex(e.sha);
    var next := rest[0];
    var later := SpaceParts(next.name + [NUL] + FromHex(next.sha), rest[1..]);
    assert SpaceParts(e.name + [NUL] + raw, rest) == [e.name + [NUL] + (raw + next.mode)] + later by {
      assert e.name + [NUL] + raw + next.mode == e.name + [NUL] + (raw + next.mode);
    }
    PartStep(e.mode, e.name, raw + next.mode, later);
    assert Take(raw + next.mode, 20) == raw && Drop(raw + next.mode, 20) == next.mode;
  }

  lemma AllSplitSafeTail(es: seq<TreeEntry>)
    requires es != [] && AllSplitSafe(es)
    ensures SplitSafe(es[0]) && AllSplitSafe(es[1..])
  {
    forall i | 0 <= i < |es[1..]| ensures SplitSafe(es[1..][i]) {
      assert es[1..][i] == es[i + 1];
    }
  }

  /** Decoding what was encoded gives back every entry, in order, whenever no
      mode, name or raw address byte is a space or a NUL. */
  lemma DecodeEncodeTree(es: seq<TreeEntry>)
    requires AllSplitSafe(es)
    ensures ValidShas(es)
    ensures DecodeTree(EncodeTree(es)) == Ok(Views(es))
  {
    SplitSafeShas(es);
    if es == [] {
      assert Split([], SP) == [[]];
    } else {
      DecodeEncodeNonEmpty(es);
    }
  }

  lemma SplitSafeShas(es: seq<TreeEntry>)
    requires AllSplitSafe(es)
    ensures ValidShas(es)
  {
    forall i | 0 <= i < |es| ensures IsSha(es[i].sha) {
      assert SplitSafe(es[i]);
    }
  }

  lemma DecodeEncodeNonEmpty(es: seq<TreeEntry>)
    requires es != [] && AllSplitSafe(es) && ValidShas(es)
    ensures DecodeTree(EncodeTree(es)) == Ok(Views(es))
  {
    AllSplitSafeTail(es);
    var e := es[0];
    var later := SpaceParts(e.name + [NUL] + FromHex(e.sha), es[1..]);
    assert Split(EncodeTree(es), SP) == [e.mode] + later by {
      SplitEncoded([], es);
      assert [] + EncodeTree(es) == EncodeTree(es);
      assert [] + e.mode == e.mode;
    }
    DecodeTreeOfParts(EncodeTree(es), e.mode, later);
    DecodeSpaceParts(e, es[1..]);
    assert [e] + es[1..] == es;
  }

  /** The first part of the space split is the first mode, the others go to
      the decoding loop. */
  lemma DecodeTreeOfParts(payload: Bytes, first: Bytes, rest: seq<Bytes>)
    requires Split(payload, SP) == [first] + rest
    ensures DecodeTree(payload) == DecodeParts(first, rest)
  {
    assert ([first] + rest)[1..] == rest;
  }

  /** The side condition cannot be dropped: a file entry whose raw address
      starts with the bytes 0x20 0x00 decodes into two entries, neither of
      them the one that was written. */
  lemma SpaceInAddressBreaksDecoding(name: Bytes, tail: Bytes)
    requires SP !in name && NUL !in name
    requires |tail| == 18 && SP !in tail && NUL !in tail
    ensures var e := TreeEntry(BlobMode, name, Hex([SP, NUL] + tail));
      IsSha(e.sha) && !SplitSafe(e)
      && DecodeTree(EncodeTree([e]))
         == Ok([DecodedEntry(BlobMode, name, [], Blob), DecodedEntry([], [], Hex(tail), Blob)])
      && DecodeTree(EncodeTree([e])) != Ok(Views([e]))
  {
    var sha := Hex([SP, NUL] + tail);
    FromHexOfHex([SP, NUL] + tail);
    BrokenSplit(name, sha, tail);
    BrokenDecode(name, tail);
  }

  /** The space inside the address starts a part of its own. */
  lemma BrokenSplit(name: Bytes, sha: Bytes, tail: Bytes)
    requires SP !in name && IsSha(sha) && FromHex(sha) == [SP, NUL] + tail && SP !in tail
    ensures Split(EncodeTree([TreeEntry(BlobMode, name, sha)]), SP) == [BlobMode, name + [NUL], [NUL] + tail]
  {
    BrokenRecord(name, sha, tail);
    BrokenParts(name, tail);
  }

  lemma BrokenRecord(name: Bytes, sha: Bytes, tail: Bytes)
    requires IsSha(sha) && FromHex(sha) == [SP, NUL] + tail
    ensures EncodeTree([TreeEntry(BlobMode, name, sha)]) == BlobMode + [SP] + ((name + [NUL]) + [SP] + ([NUL] + tail))
  {
    EncodeSingle(TreeEntry(BlobMode, name, sha));
  }

  lemma BrokenParts(name: Bytes, tail: Bytes)
    requires SP !in name && SP !in tail
    ensures Split(BlobMode + [SP] + ((name + [NUL]) + [SP] + ([NUL] + tail)), SP) == [BlobMode, name + [NUL], [NUL] + tail]
  {
    var after := (name + [NUL]) + [SP] + ([NUL] + tail);
    ModesHaveNoSeparator();
    SplitAt(BlobMode, SP, after);
    SplitLast(name + [NUL], [NUL] + tail);
  }

  lemma SplitLast(a: Bytes, b: Bytes)
    requires SP !in a && SP !in b
    ensures Split(a + [SP] + b, SP) == [a, b]
  {
    SplitAt(a, SP, b);
  }

  /** The two parts after the first each give an entry. */
  lemma BrokenDecode(name: Bytes, tail: Bytes)
    requires NUL !in name
    requires |tail| == 18 && NUL !in tail
    ensures DecodeParts(BlobMode, [name + [NUL], [NUL] + tail])
      == Ok([DecodedEntry(BlobMode, name, [], Blob), DecodedEntry([], [], Hex(tail), Blob)])
  {
    var first := DecodedEntry(BlobMode, name, [], Blob);
    var second := DecodedEntry([], [], Hex(tail), Blob);
    BrokenFirstPart(name, [[NUL] + tail]);
    BrokenLastPart(tail);
    assert [first] + [second] == [first, second];
  }

  /** The part after the name: a NUL and nothing else, so the address is
      empty and so is the mode carried to the next entry. */
  lemma BrokenFirstPart(name: Bytes, parts: seq<Bytes>)
    requires NUL !in name
    ensures DecodeParts(BlobMode, [name + [NUL]] + parts)
      == Prepend([DecodedEntry(BlobMode, name, [], Blob)], DecodeParts([], parts))
  {
    ModeKinds();
    assert name + [NUL] == name + [NUL] + [];
    PartStep(BlobMode, name, [], parts);
  }

  /** The rest of the address: an empty name, and the 18 bytes left over. */
  lemma BrokenLastPart(tail: Bytes)
    requires |tail| == 18 && NUL !in tail
    ensures DecodeParts([], [[NUL] + tail]) == Ok([DecodedEntry([], [], Hex(tail), Blob)])
  {
    ModeKinds();
    assert [] + [NUL] + tail == [NUL] + tail;
    assert [[NUL] + tail] == [[] + [NUL] + tail] + [];
    PartStep([], [], tail, []);
    assert Take(tail, 20) == tail && Drop(tail, 20) == [];
    var second := DecodedEntry([], [], Hex(tail), Blob);
    assert [second] + [] == [second];
  }

  /** A tree as `get_tree_entries(tree_sha)` lists it from the object
      directory: `NotFound` when no object lies at the address's path (the
      `open` fails), otherwise the payload after the header, decoded. */
  function TreeEntriesAt(objects: map<Bytes, Bytes>, treeSha: Bytes): Result<seq<DecodedEntry>> {
    var path := ObjectPath(treeSha);
    if path !in objects then Err(NotFound) else DecodeTree(Content(objects[path]))
  }

  /** The decoding of a stored tree, as the parts the space split gives. */
  lemma TreeEntriesAtParts(objects: map<Bytes, Bytes>, treeSha: Bytes)
    requires ObjectPath(treeSha) in objects
    ensures var stored := objects[ObjectPath(treeSha)];
      var parts := Split(stored[Find(stored, NUL) + 1..], SP);
      TreeEntriesAt(objects, treeSha) == DecodeParts(parts[0], parts[1..])
  {
  }

  /** One turn of the loop of `get_tree_entries`: with `entries` decoded so
      far and `mode` carried over, the `e`-th part either fails the whole
      call or adds one entry. */
  lemma DecodeLoopStep(whole: Result<seq<DecodedEntry>>, entries: seq<DecodedEntry>, mode: Bytes, parts: seq<Bytes>, e: nat)
    requires e < |parts| && whole == Prepend(entries, DecodeParts(mode, parts[e..]))
    ensures var x := Split(parts[e], NUL);
      (|x| < 2 ==> whole == Err(IndexError))
      && (|x| >= 2 ==>
            whole == Prepend(entries + [DecodedEntry(mode, x[0], Hex(Take(x[1], 20)), KindOf(mode))],
                             DecodeParts(Drop(x[1], 20), parts[e + 1..])))
  {
    var x := Split(parts[e], NUL);
    DecodePartsFrom(mode, parts, e);
    if |x| >= 2 {
      var entry := DecodedEntry(mode, x[0], Hex(Take(x[1], 20)), KindOf(mode));
      PrependTwice(entries, entry, DecodeParts(Drop(x[1], 20), parts[e + 1..]));
    }
  }

  /** `get_tree_entries`, step by step as the source runs it. */
  method GetTreeEntries(store: Store, treeSha: Bytes) returns (r: Result<seq<DecodedEntry>>)
    ensures r == TreeEntriesAt(store.objects, treeSha)
  {
    var path := ObjectPath(treeSha);
    if path !in store.objects {
      return Err(NotFound);
    }
    var stored := store.objects[path];
    var headerIndex := Find(stored, NUL);
    var actualContent := stored[headerIndex + 1..];
    var parts := Split(actualContent, SP);
    ghost var whole := DecodeParts(parts[0], parts[1..]);
    var mode := parts[0];
    var entries: seq<DecodedEntry> := [];
    var e := 1;
    while e < |parts|
      invariant 1 <= e <= |parts|
      invariant whole == Prepend(entries, DecodeParts(mode, parts[e..]))
    {
      var x := Split(parts[e], NUL);
      DecodeLoopStep(whole, entries, mode, parts, e);
      if |x| < 2 {
        TreeEntriesAtParts(store.objects, treeSha);
        return Err(IndexError);
      }
      var name := x[0];
      var sha := Take(x[1], 20);
      entries := entries + [DecodedEntry(mode, name, Hex(sha), KindOf(mode))];
      mode := Drop(x[1], 20);
      e := e + 1;
    }
    assert parts[e..] == [];
    assert entries + [] == entries;
    TreeEntriesAtParts(store.objects, treeSha);
    return Ok(entries);
  }
}
