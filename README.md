# A content-addressed object store, its tree format and `write_tree`

This project models the core of a small re-implementation of git's object
database (`main.py`):

- `hash_object` frames data as `<type> <length>\0<data>`, names it by the
  SHA-1 of the frame in lower-case hex, and stores the frame at
  `.git/objects/<first two hex digits>/<remaining 38>`;
- `write_tree` walks a working directory depth first. Children are visited
  in name order and `.git` is skipped. Each file becomes a blob and each
  sub-directory a tree of its own. The directory itself is stored as a tree
  whose payload holds one record per child: `mode SP name NUL
  raw-20-byte-address`, with mode `40000` for a directory and `100644` for
  a file;
- `get_tree_entries` reads a tree back by splitting its payload on every
  space byte and then every part on NUL. The mode of each entry after the
  first is the text left over after the previous 20 address bytes;
- `create_commit` stores a fixed commit text naming the tree, one parent
  and the message.

Layout:

| file | module | contents |
|---|---|---|
| `Bytes.dfy` | `ByteStrings` | bytes and the Python `bytes` operations used: `find`, clamped slicing, `split`, `join` |
| `Hex.dfy` | `HexText` | `bytes.hex()` / `hexdigest()` and `bytes.fromhex` |
| `Decimal.dfy` | `Numerals` | the decimal length in a header |
| `ObjectStore.dfy` | `ObjectStore` | frames, addresses, object paths, the `Store` class and `HashObject` |
| `TreeRecords.dfy` | `TreeRecords` | tree records, the tree payload, decoded entries and their "type" |
| `TreeReader.dfy` | `TreeReader` | `get_tree_entries` as written, its round trip and where it breaks |
| `TreePositional.dfy` | `TreePositional` | the corrected, positional reading of a tree |
| `DirTree.dfy` | `DirTree` | the working directory as a value, name order, the sorted listing |
| `TreeBuilder.dfy` | `TreeBuilder` | `write_tree` as a recursive method, and what it writes |
| `Commit.dfy` | `Commits` | `create_commit` and the commit text |

`Store` is a class because `hash_object` changes the object directory in
place. Its field `objects` maps an object path to the frame stored there.
`WriteTree` keeps the loop and the recursion of `write_tree`. The body of
the listing loop for one child is the method `WriteChild`: a sub-directory
goes through the recursive call, a file through `HashObject`. Both methods
are proved against the functions `NodeAddress` and `WriteNode`, which say
what `write_tree` returns and what it leaves in the object directory.
`GetTreeEntries` keeps the loop of `get_tree_entries` and is proved against
the function `DecodeParts`.

The tree format gives every record 20 raw address bytes, and those can be
any bytes, a space or a NUL among them. Only a reader that takes the 20
bytes by position, record after record from the front, inverts the writer
on every tree. The code splits the whole payload on delimiter bytes
instead. The model follows the code (`TreeReader`). The positional reader
is the corrected definition under "Findings" (`TreePositional`); it reports
a payload it cannot read as `MalformedTree`. The code raises `IndexError`
for a part without NUL and decodes the whole object when it has no NUL at
all; `GetTreeEntries` does the same.

## Model

| member | source | states |
|---|---|---|
| `ByteStrings.Find` | main.py:10 | the result is -1 exactly when the byte is absent; otherwise it is the index of the first occurrence |
| `ByteStrings.Take` | main.py:18 | a slice `s[:n]` past the end is clamped to the whole string instead of failing; the result is a prefix of `s` |
| `ByteStrings.Drop` | main.py:28 | `s[n:]` is clamped the same way; `s[:n] + s[n:]` gives `s` back |
| `ByteStrings.SplitJoin` | main.py:12 | joining the parts of a `split` with the separator restores the input; there is one more part than there are separator bytes |
| `ByteStrings.SplitPartsHaveNoSeparator` | main.py:16 | no part of a `split` holds the separator |
| `HexText.FromHexOfHex` | main.py:64 | `bytes.fromhex(b.hex())` is `b` for every byte string |
| `HexText.HexOfFromHex` | main.py:22 | `.hex()` on the bytes `bytes.fromhex` made of an address at main.py:64 gives that address back: `bytes.fromhex(s).hex()` is `s` for every even-length lower-case hex text such as a `hexdigest()` |
| `HexText.HexInjective` | main.py:34 | different digests never print as the same hex text |
| `Numerals.Decimal` | main.py:32 | the header's length field is a non-empty run of ASCII digits without a leading zero |
| `Numerals.ParseDecimalOfDecimal` | main.py:32 | reading the length field back gives the length |
| `ObjectStore.TypeName` | main.py:32 | the type word of a header holds neither space nor NUL |
| `ObjectStore.Address` | main.py:34 | an address is 40 lower-case hex digits |
| `ObjectStore.FrameHeader` | main.py:32-33 | the text before the first NUL of a frame is the type word and the length field, separated by one space; the length field counts exactly the bytes after that NUL |
| `ObjectStore.ContentOfFrame` | main.py:10-11 | cutting a stored frame after its first NUL gives back exactly the data that was framed |
| `ObjectStore.ObjectPathInjective` | main.py:37-41 | two different addresses never share an object path |
| `ObjectStore.Put` | main.py:35-42 | writing an object adds exactly the path of its address to the object directory |
| `ObjectStore.PutThenRead` | main.py:33-42 | after a write, the object at the address's path reads back as the data |
| `ObjectStore.PutKeepsOthers` | main.py:41-42 | a write leaves every other address's object, and its absence, as it was |
| `ObjectStore.PutIdempotent` | main.py:35-42 | writing the same object twice leaves the same object directory as writing it once |
| `ObjectStore.PutKeepsContentAddressed` | main.py:37-42 | if every stored frame lies at the path of its own address, that stays true after a write |
| `ObjectStore.PutNeverOverwrites` | main.py:34-42 | in a content-addressed object directory, a write can change a stored object only into different bytes with the same SHA-1 digest |
| `ObjectStore.PutKeepsStored` | main.py:34-42 | when no stored object shares the new frame's digest without being that frame, a write leaves every stored object as it was |
| `ObjectStore.Store.HashObject` | main.py:31-44 | the result is the address of the framed data; with `write` the object directory becomes the old one plus that frame at that address's path, and without `write` it is unchanged; an object directory where every frame lies at its own address's path stays so |
| `TreeRecords.Record` | main.py:64 | a record is the mode, the name and 22 more bytes: the space, the NUL and the 20 raw address bytes |
| `TreeRecords.ModesHaveNoSeparator` | main.py:58-63 | the two modes written are different and hold neither space nor NUL |
| `TreeRecords.ModeKinds` | main.py:22-25 | the file mode and an empty mode read back as "blob", the directory mode as "tree" |
| `TreeRecords.EncodeTreeAppend` | main.py:64-65 | appending one more child's record to the records so far gives the payload of the longer child list |
| `TreeRecords.ViewsAt` | main.py:19-26 | the `i`-th entry a decoder should give back is built from the `i`-th child |
| `TreeReader.DecodeParts` | main.py:15-28 | the loop gives one entry per part after the first, or fails with `IndexError` and nothing else |
| `TreeReader.DecodePartsFails` | main.py:16-18 | the loop fails exactly when some part holds no NUL byte |
| `TreeReader.DecodeTreeCount` | main.py:12-15 | a successful read gives exactly as many entries as the payload has space bytes |
| `TreeReader.DecodeEncodeTree` | main.py:12-28 | reading back a written payload gives every entry, in order, with its mode, name, hex address and type, as long as no mode, name or raw address byte is a space or NUL |
| `TreeReader.SpaceInAddressBreaksDecoding` | main.py:12-18 | a file entry whose raw address starts with 0x20 0x00 reads back as two wrong entries: one with an empty address, then one with an empty mode and name |
| `TreeReader.GetTreeEntries` | main.py:6-29 | the method returns `NotFound` when no object lies at the address's path, and otherwise exactly what the splitting reader gives on the stored payload, including the `IndexError` |
| `TreePositional.DecodeRecords` | main.py:12-28 | the corrected reader fails only with `MalformedTree` |
| `TreePositional.DecodeRecordsOfEncodeTree` | main.py:12-28 | reading by position inverts the writer on every entry list whose modes hold no space and whose names hold no NUL, whatever the raw address bytes |
| `TreePositional.SpaceInAddressDecodesByPosition` | main.py:12-18 | the entry that defeats the splitting reader reads back correctly by position |
| `TreePositional.SplitDecoderAgrees` | main.py:12-28 | wherever the splitting reader round-trips, it gives the same result as the positional one |
| `DirTree.NameLessTotal` | main.py:50 | two different names are always ordered one way or the other |
| `DirTree.NameLessTransitive` | main.py:50 | name order is transitive |
| `DirTree.SortByName` | main.py:50 | `sorted` keeps every child, each as often as before |
| `DirTree.SortByNameSorts` | main.py:50 | `sorted` gives the children in ascending name order, as a permutation of the listing |
| `DirTree.ListingSpec` | main.py:49-53 | the children recorded are in name order, and they are exactly the listed children other than `.git`, each recorded as often as it is listed |
| `DirTree.DropGitMultiset` | main.py:52-53 | skipping `.git` keeps every other child exactly as often as it was listed |
| `DirTree.ListingOrderIndependent` | main.py:49-53 | the order of the directory listing does not change which children are recorded, or their order |
| `TreeBuilder.ModeOfKind` | main.py:55-63 | a recorded child reads back as "tree" exactly when it is a directory, and its mode holds neither space nor NUL |
| `TreeBuilder.NodeAddress` | main.py:46-67 | the address of a written file or directory is 40 lower-case hex digits |
| `TreeBuilder.ChildEntries` | main.py:50-64 | one tree entry per recorded child, each with a well-formed address |
| `TreeBuilder.WriteTree` | main.py:46-67 | the method returns the directory's address and leaves the object directory with every file below it as a blob and every directory below it as a tree, children before parents, in listing order; a content-addressed object directory only grows |
| `TreeBuilder.WriteChild` | main.py:54-64 | one turn of the listing loop writes the child and its subtree, and returns the child's record: its mode, name and raw address |
| `TreeBuilder.VisitSkip` | main.py:52-53 | skipping `.git` records nothing and writes nothing |
| `TreeBuilder.VisitChild` | main.py:54-64 | writing a child and appending its record extends the records and the object directory by exactly that child |
| `TreeBuilder.TreeOrderIndependent` | main.py:49-67 | the order of one directory's listing changes neither its tree payload, nor its address, nor what is written |
| `DirTree.SortOrderIndependent` | main.py:50 | `sorted` gives the same sequence for every order of children with distinct names |
| `DirTree.ListingCanon` | main.py:49-53 | the children recorded for a directory whose listings are all in name order are those of the original, each in that form |
| `DirTree.ReorderSame` | main.py:49-50 | listing a directory's children in another order gives a tree of the same shape up to listing order |
| `DirTree.ReplaceSame` | main.py:54-57 | replacing a child by a tree of the same shape up to listing order keeps the whole tree's shape |
| `TreeBuilder.CanonAddress` | main.py:46-67 | putting every listing of a tree, at every depth, in name order does not change its address |
| `TreeBuilder.CanonWrite` | main.py:46-67 | putting every listing of a tree, at every depth, in name order does not change what writing it stores |
| `TreeBuilder.SameTreeSameAddress` | main.py:46-67 | two trees that differ only in the order of their directory listings, at any depth, get the same address and store the same objects |
| `TreeBuilder.ListedChildren` | main.py:50-64 | each entry read back from a written tree has its child's name, mode and address, and the type "tree" exactly for a directory |
| `TreeBuilder.WrittenTreeReadsBack` | main.py:6-67 | after `write_tree`, the tree lies at its address's path and the positional reader lists every child; `get_tree_entries` lists them too when no mode, name or raw address byte is a space or NUL |
| `TreeBuilder.WriteNodeGrows` | main.py:54-67 | writing a directory keeps every object at its own address's path, never removes one, and changes one only into different bytes with the same digest |
| `TreeBuilder.WriteNodeStores` | main.py:54-67 | after writing, the object directory holds the object of the returned address and, at every depth, the object of every address a stored tree records; nothing held before is removed |
| `Commits.SplitTerminated` | main.py:70 | newline-terminated lines split back into the lines and one empty tail |
| `Commits.CommitLines` | main.py:70 | the commit text is the tree line, the parent line, the author line twice, an empty line and the message, each followed by a newline |
| `Commits.TerminatedInjective` | main.py:70 | newline-terminated lines are determined by their text when no line but the last holds a newline |
| `Commits.CommitPayloadInjective` | main.py:70 | different trees, parents or messages always give different commit texts |
| `Commits.CreateCommit` | main.py:69-72 | the method returns the address of the commit text as a commit object and stores it there |

## Left out

- SHA-1 is a parameter of the model: a function from bytes to 20-byte digests, held by the `Store`. No such function is free of collisions, so the model assumes none: it states that a write changes a stored object only where the two frames share a digest.
- zlib compression is not modelled. The object directory holds frames uncompressed, and a failing `zlib.decompress` is not modelled.
- The file system is a map from object path to frame. `open`, `os.makedirs` and `os.path.exists` are not modelled beyond that. A missing object is `NotFound`.
- The working directory is a value: a file is its bytes and a directory the list `os.listdir` returns. `os.path.isdir` is the distinction between the two. Symbolic links, special files, permissions and read errors are not modelled.
- Names, modes, messages and addresses are bytes. UTF-8 encoding and decoding are not modelled, and neither is the `UnicodeDecodeError` that `.decode("utf-8")` raises on other bytes. Python's `sorted` on names orders code points; on UTF-8 names that is the byte order modelled here.
- `os.path.join` is not modelled: a child is reached through the directory value.
- The default arguments of `hash_object` and `create_commit` are explicit parameters in the model.
- The command line (`main`: `init`, `cat-file`, `ls-tree` printing, argument handling) and `clone_repo` are not part of this model.
- `TreeReader.DecodeEncodeTree`: the round trip is proved only for entries whose mode, name and raw address hold no space or NUL; without that condition it fails (see "Findings").
- `TreeBuilder.WrittenTreeReadsBack`: assumes no child name holds a NUL byte, which file systems do not allow anyway.
- `TreeBuilder.TreeOrderIndependent`, `DirTree.ReorderSame`: assume the listing never shows two children under one name, as a directory listing never does.
- `Commits.CommitLines`: the line structure is stated only when tree, parent and message hold no newline.
- `Commits.CommitPayloadInjective`: assumes the tree and parent texts hold no newline; the message may hold any bytes.

## Findings

| source | as written | input that shows it | evidently intended | confidence | as-written member | corrected member |
|---|---|---|---|---|---|---|
| main.py:12-18 | the tree payload is split on every space byte, and each part on NUL, although the 20 raw address bytes of a record can be any bytes | a tree holding one file entry whose raw address starts with the bytes 0x20 0x00 reads back as two entries, neither of them the one written | read each record by position: mode up to the space, name up to the NUL, then exactly 20 address bytes | not executed | `TreeReader.SpaceInAddressBreaksDecoding` | `TreePositional.DecodeRecordsOfEncodeTree` |
