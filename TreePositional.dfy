/** The tree reading the record layout calls for: field by field from the
    front, with exactly 20 address bytes per record. */
module TreePositional {
  import opened ByteStrings
  import opened HexText
  import opened ObjectStore
  import opened TreeRecords
  import opened TreeReader

  /** Reading a tree by position, as the record layout intends: the mode
      runs to the first space, the name to the next NUL, and exactly 20 raw
      address bytes follow. A record cut short is a malformed tree. */
  function DecodeRecords(payload: Bytes): (r: Result<seq<DecodedEntry>>)
    ensures r.Err? ==> r.error == MalformedTree
    decreases |payload|
  {
    if payload == [] then Ok([])
    else
      var s := Find(payload, SP);
      if s < 0 then Err(MalformedTree)
      else
        var rest := payload[s + 1..];
        var z := Find(rest, NUL);
        if z < 0 || |rest| < z + 21 then Err(MalformedTree)
        else
          var mode := payload[..s];
          var entry := DecodedEntry(mode, rest[..z], Hex(rest[z + 1..z + 21]), KindOf(mode));
          Prepend([entry], DecodeRecords(rest[z + 21..]))
  }

  /** What the positional reading needs of an entry: a space-free mode, a
      NUL-free name and a well-formed address. Any raw address bytes do. */
  predicate RecordSafe(e: TreeEntry) {
    IsSha(e.sha) && SP !in e.mode && NUL !in e.name
  }

  predicate AllRecordSafe(es: seq<TreeEntry>) {
    forall i :: 0 <= i < |es| ==> RecordSafe(es[i])
  }

  /** One turn of the positional reading, once the space and the NUL that
      end the first record's mode and name are located. */
  lemma DecodeRecordsAt(payload: Bytes, s: nat, z: nat)
    requires s < |payload| && Find(payload, SP) == s
    requires Find(payload[s + 1..], NUL) == z && z + 21 <= |payload[s + 1..]|
    ensures var rest := payload[s + 1..];
      DecodeRecords(payload)
      == Prepend([DecodedEntry(payload[..s], rest[..z], Hex(rest[z + 1..z + 21]), KindOf(payload[..s]))],
                 DecodeRecords(rest[z + 21..]))
  {
  }

  /** One record read from the front, written field by field. */
  lemma FieldsStep(mode: Bytes, name: Bytes, raw: Bytes, more: Bytes)
    requires SP !in mode && NUL !in name && |raw| == 20
    ensures DecodeRecords(mode + [SP] + (name + [NUL] + (raw + more)))
      == Prepend([DecodedEntry(mode, name, Hex(raw), KindOf(mode))], DecodeRecords(more))
  {
    var rest := name + [NUL] + (raw + more);
    var payload := mode + [SP] + rest;
    FieldAt(mode, SP, rest);
    FieldAt(name, NUL, raw + more);
    var z := |name|;
    assert rest[z + 1..z + 21] == raw && rest[z + 21..] == more by {
      assert rest[z + 1..] == raw + more;
    }
    DecodeRecordsAt(payload, |mode|, z);
  }

  /** A field that runs up to the first `c`, and what follows it. */
  lemma FieldAt(a: Bytes, c: byte, b: Bytes)
    requires c !in a
    ensures var s := a + [c] + b;
      Find(s, c) == |a| && s[..|a|] == a && s[|a| + 1..] == b
  {
    FindAt(a, c, b);
    var s := a + [c] + b;
    assert s[|a| + 1..] == b;
  }

  lemma RecordStep(e: TreeEntry, more: Bytes)
    requires RecordSafe(e)
    ensures DecodeRecords(Record(e) + more) == Prepend([View(e)], DecodeRecords(more))
  {
    var raw := FromHex(e.sha);
    assert Record(e) + more == e.mode + [SP] + (e.name + [NUL] + (raw + more));
    FieldsStep(e.mode, e.name, raw, more);
    HexOfFromHex(e.sha);
  }

  /** The positional reading inverts the encoder on every entry list whose
      modes hold no space and whose names hold no NUL, whatever the address
      bytes are. */
  lemma {:induction false} DecodeRecordsOfEncodeTree(es: seq<TreeEntry>)
    requires AllRecordSafe(es)
    ensures ValidShas(es)
    ensures DecodeRecords(EncodeTree(es)) == Ok(Views(es))
    decreases |es|
  {
    assert ValidShas(es) by {
      forall i | 0 <= i < |es| ensures IsSha(es[i].sha) {
        assert RecordSafe(es[i]);
      }
    }
    if es != [] {
      assert AllRecordSafe(es[1..]) by {
        forall i | 0 <= i < |es[1..]| ensures RecordSafe(es[1..][i]) {
          assert es[1..][i] == es[i + 1];
        }
      }
      assert RecordSafe(es[0]);
      DecodeRecordsOfEncodeTree(es[1..]);
      RecordStep(es[0], EncodeTree(es[1..]));
    }
  }

  /** The entry that defeats the splitting decoder reads back correctly by
      position. */
  lemma SpaceInAddressDecodesByPosition(name: Bytes, tail: Bytes)
    requires NUL !in name && |tail| == 18
    ensures var e := TreeEntry(BlobMode, name, Hex([SP, NUL] + tail));
      IsSha(e.sha) && DecodeRecords(EncodeTree([e])) == Ok(Views([e]))
  {
    var e := TreeEntry(BlobMode, name, Hex([SP, NUL] + tail));
    ModesHaveNoSeparator();
    assert RecordSafe(e);
    assert AllRecordSafe([e]);
    DecodeRecordsOfEncodeTree([e]);
  }

  /** Where the splitting decoder works at all, it agrees with the positional
      one. */
  lemma SplitDecoderAgrees(es: seq<TreeEntry>)
    requires AllSplitSafe(es)
    ensures ValidShas(es)
    ensures DecodeTree(EncodeTree(es)) == DecodeRecords(EncodeTree(es))
  {
    DecodeEncodeTree(es);
    assert AllRecordSafe(es) by {
      forall i | 0 <= i < |es| ensures RecordSafe(es[i]) {
        assert SplitSafe(es[i]);
      }
    }
    DecodeRecordsOfEncodeTree(es);
  }
}
