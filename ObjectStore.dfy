/** The object database: framing of typed content, content addresses, the
    two-level object path, and the `hash_object` operation that stores a
    frame under its address. SHA-1 is a parameter of the model (a `Hasher`),
    and frames are kept uncompressed. */
module ObjectStore {
  import opened ByteStrings
  import opened HexText
  import opened Numerals

  datatype ObjType = Blob | Tree | Commit

  /** The type word written into a frame header. */
  function TypeName(t: ObjType): (name: Bytes)
    ensures |name| >= 4 && NUL !in name && SP !in name
  {
    match t
    case Blob => Ascii("blob")
    case Tree => Ascii("tree")
    case Commit => Ascii("commit")
  }

  /** Raw 20-byte SHA-1 digests, and a digest function standing for SHA-1. */
  type Digest = d: Bytes | |d| == 20
    witness [0, 0, 0, 0, 0, 0, 0, 0, 0, 0, 0, 0, 0, 0, 0, 0, 0, 0, 0, 0]

  type Hasher = Bytes -> Digest

  /** `f"{obj_type} {len(data)}\0"`. */
  function Header(t: ObjType, size: nat): Bytes {
    TypeName(t) + [SP] + Decimal(size) + [NUL]
  }

  /** The bytes that are hashed and stored: header, then the content. */
  function Frame(t: ObjType, data: Bytes): Bytes {
    Header(t, |data|) + data
  }

  /** `hashlib.sha1(frame).hexdigest()`. */
  function Address(h: Hasher, t: ObjType, data: Bytes): (sha: Bytes)
    ensures IsSha(sha)
  {
    Hex(h(Frame(t, data)))
  }

  /** `sha[:2] + "/" + sha[2:]`, the object's file below the object directory. */
  function ObjectPath(sha: Bytes): (path: Bytes)
    ensures |path| == |sha| + 1
  {
    Take(sha, 2) + [SLASH] + Drop(sha, 2)
  }

  /** Distinct addresses never share a path. */
  lemma ObjectPathInjective(a: Bytes, b: Bytes)
    requires ObjectPath(a) == ObjectPath(b)
    ensures a == b
  {
    var p := ObjectPath(a);
    var k := Min(2, |a|);
    assert |a| == |b|;
    assert a == p[..k] + p[k + 1..];
    assert b == p[..k] + p[k + 1..];
  }

  /** What `get_tree_entries` keeps of a stored object: the bytes after the
      first NUL. Without a NUL, `find` gives -1 and everything is kept. */
  function Content(frame: Bytes): (data: Bytes)
    ensures |data| <= |frame|
  {
    frame[Find(frame, NUL) + 1..]
  }

  /** Cutting a frame after its first NUL gives back exactly the content,
      since neither the type word nor the numeral holds a NUL. */
  lemma ContentOfFrame(t: ObjType, data: Bytes)
    ensures Content(Frame(t, data)) == data
  {
    var head := TypeName(t) + [SP] + Decimal(|data|);
    DecimalHasNoSeparator(|data|);
    assert NUL !in head;
    assert Frame(t, data) == head + [NUL] + data;
    FindAt(head, NUL, data);
  }

  /** The header is the type word and the numeral, and the numeral counts the
      bytes after the header: the content only, never the header itself. */
  lemma FrameHeader(t: ObjType, data: Bytes)
    ensures var f := Frame(t, data);
      var k := Find(f, NUL);
      0 <= k
      && Split(f[..k], SP) == [TypeName(t), Decimal(|data|)]
      && ParseDecimal(Decimal(|data|)) == |f| - (k + 1)
  {
    var f := Frame(t, data);
    var head := TypeName(t) + [SP] + Decimal(|data|);
    DecimalHasNoSeparator(|data|);
    assert f == head + [NUL] + data;
    FindAt(head, NUL, data);
    assert f[..|head|] == head;
    SplitAt(TypeName(t), SP, Decimal(|data|));
    ParseDecimalOfDecimal(|data|);
  }

  /** Where a frame belongs: the path of its own address. */
  function PathOf(h: Hasher, frame: Bytes): Bytes {
    ObjectPath(Hex(h(frame)))
  }

  /** Every stored object lies at the path of its own address. */
  ghost predicate ContentAddressed(h: Hasher, objects: map<Bytes, Bytes>) {
    forall p :: p in objects ==> p == PathOf(h, objects[p])
  }

  /** The object directory after writing `data` as an object of type `t`. */
  function Put(h: Hasher, objects: map<Bytes, Bytes>, t: ObjType, data: Bytes): (r: map<Bytes, Bytes>)
    ensures r.Keys == objects.Keys + {ObjectPath(Address(h, t, data))}
  {
    objects[ObjectPath(Address(h, t, data)) := Frame(t, data)]
  }

  /** Reading the written object back gives the data. */
  lemma PutThenRead(h: Hasher, objects: map<Bytes, Bytes>, t: ObjType, data: Bytes)
    ensures Content(Put(h, objects, t, data)[ObjectPath(Address(h, t, data))]) == data
  {
    ContentOfFrame(t, data);
  }

  /** Objects at every other address are untouched. */
  lemma PutKeepsOthers(h: Hasher, objects: map<Bytes, Bytes>, t: ObjType, data: Bytes, sha: Bytes)
    requires sha != Address(h, t, data)
    ensures ObjectPath(sha) in Put(h, objects, t, data) <==> ObjectPath(sha) in objects
    ensures ObjectPath(sha) in objects ==> Put(h, objects, t, data)[ObjectPath(sha)] == objects[ObjectPath(sha)]
  {
    if ObjectPath(sha) == ObjectPath(Address(h, t, data)) {
      ObjectPathInjective(sha, Address(h, t, data));
    }
  }

  /** Writing the same content twice is the same as writing it once. */
  lemma PutIdempotent(h: Hasher, objects: map<Bytes, Bytes>, t: ObjType, data: Bytes)
    ensures Put(h, Put(h, objects, t, data), t, data) == Put(h, objects, t, data)
  {
  }

  lemma PutKeepsContentAddressed(h: Hasher, objects: map<Bytes, Bytes>, t: ObjType, data: Bytes)
    requires ContentAddressed(h, objects)
    ensures ContentAddressed(h, Put(h, objects, t, data))
  {
  }

  /** A write can replace a stored object only by different bytes with the
      same digest: any object it changes collides with the new frame. */
  lemma PutNeverOverwrites(h: Hasher, objects: map<Bytes, Bytes>, t: ObjType, data: Bytes)
    requires ContentAddressed(h, objects)
    ensures var r := Put(h, objects, t, data);
      forall p :: p in objects && r[p] != objects[p] ==> h(r[p]) == h(objects[p])
  {
    var f := Frame(t, data);
    var q := ObjectPath(Address(h, t, data));
    if q in objects {
      var g := objects[q];
      assert PathOf(h, g) == q;
      ObjectPathInjective(Hex(h(g)), Hex(h(f)));
      HexInjective(h(g), h(f));
    }
  }

  /** So when no stored object shares a digest with the new frame unless it
      is that frame, everything stored before is left as it was. */
  lemma PutKeepsStored(h: Hasher, objects: map<Bytes, Bytes>, t: ObjType, data: Bytes)
    requires ContentAddressed(h, objects)
    requires forall p :: p in objects && h(objects[p]) == h(Frame(t, data)) ==> objects[p] == Frame(t, data)
    ensures forall p :: p in objects ==> Put(h, objects, t, data)[p] == objects[p]
  {
    PutNeverOverwrites(h, objects, t, data);
  }

  /** The object directory `.git/objects`, as a map from object path to the
      (uncompressed) frame stored there. */
  class Store {
    const sha1: Hasher
    var objects: map<Bytes, Bytes>

    constructor (sha1: Hasher)
      ensures this.sha1 == sha1 && objects == map[]
      ensures ContentAddressed(sha1, objects)
    {
      this.sha1 := sha1;
      objects := map[];
    }

    /** `hash_object(data, obj_type, write)`: the address of the framed data;
        with `write`, the frame is also stored at that address's path. */
    method HashObject(data: Bytes, objType: ObjType, write: bool) returns (sha: Bytes)
      modifies this
      ensures sha == Address(sha1, objType, data)
      ensures objects == if write then Put(sha1, old(objects), objType, data) else old(objects)
      ensures ContentAddressed(sha1, old(objects)) ==> ContentAddressed(sha1, objects)
    {
      var full := Header(objType, |data|) + data;
      sha := Hex(sha1(full));
      if write {
        objects := objects[ObjectPath(sha) := full];
      }
    }
  }
}
