/** The image writer, tools/initrd_builder.py:48-75: its byte layout, and its loops. */
module InitrdBuild {
  import opened Machine

  type Name = seq<byte>

  const HEAD_MAGIC: u32 := 0xABCD_ABCD
  const FILE_MAGIC: u32 := 0xAABB_CCDD
  const FS_FILE: byte := 1
  const FS_DIRECTORY: byte := 2
  const SLASH: byte := 47

  /** A file with the name of the directory under the root that holds it, [] for the root itself. */
  datatype File = File(dir: Name, name: Name, data: seq<byte>)

  /** The entries the walk keeps, in the order of its dictionaries: files, and directories under the root. */
  datatype Tree = Tree(files: seq<File>, dirs: seq<Name>)

  /** One record of the image: a head of 13 bytes, the name, and the bytes or offsets it holds. */
  datatype Record = Record(size: nat, name: Name, kind: byte, payload: seq<byte>)

  /** struct.pack("<I", x), which raises an exception for larger values. */
  function Pack(x: nat): (b: seq<byte>)
    ensures |b| == 4
  {
    if x < TWO32 then Bytes4(x) else [0, 0, 0, 0]
  }

  function Bytes(r: Record): (b: seq<byte>)
    ensures |b| == 13 + |r.name| + |r.payload|
  {
    Bytes4(FILE_MAGIC) + Pack(r.size) + Pack(|r.name|) + [r.kind] + r.name + r.payload
  }

  function Concat(rs: seq<Record>): seq<byte> {
    if rs == [] then [] else Concat(rs[..|rs| - 1]) + Bytes(rs[|rs| - 1])
  }

  /** Where record i of the image starts; the image begins with a head of eight bytes. */
  function OffsetOf(rs: seq<Record>, i: nat): nat
    requires i <= |rs|
  {
    8 + |Concat(rs[..i])|
  }

  function FileRecord(f: File): Record {
    Record(|f.data|, f.name, FS_FILE, f.data)
  }

  function FileRecords(files: seq<File>): (rs: seq<Record>)
    ensures |rs| == |files|
    ensures forall i :: 0 <= i < |rs| ==> rs[i] == FileRecord(files[i])
  {
    seq(|files|, i requires 0 <= i < |files| => FileRecord(files[i]))
  }

  /** The positions of the files of one directory, in dictionary order. */
  function Children(files: seq<File>, dir: Name): (ch: seq<nat>)
    ensures forall k :: 0 <= k < |ch| ==> ch[k] < |files| && files[ch[k]].dir == dir
  {
    if files == [] then []
    else
      var n := |files| - 1;
      Children(files[..n], dir) + (if files[n].dir == dir then [n] else [])
  }

  function Offsets(rs: seq<Record>, ch: seq<nat>): (offs: seq<nat>)
    requires forall k :: 0 <= k < |ch| ==> ch[k] < |rs|
    ensures |offs| == |ch|
    ensures forall k :: 0 <= k < |offs| ==> offs[k] == OffsetOf(rs, ch[k])
  {
    seq(|ch|, k requires 0 <= k < |ch| => OffsetOf(rs, ch[k]))
  }

  function PackAll(offs: seq<nat>): (b: seq<byte>)
    ensures |b| == 4 * |offs|
  {
    if offs == [] then [] else PackAll(offs[..|offs| - 1]) + Pack(offs[|offs| - 1])
  }

  function DirRecord(name: Name, offs: seq<nat>): Record {
    Record(|offs|, name, FS_DIRECTORY, PackAll(offs))
  }

  function DirRecords(t: Tree): (rs: seq<Record>)
    ensures |rs| == |t.dirs|
    ensures forall j :: 0 <= j < |rs| ==>
              rs[j] == DirRecord(t.dirs[j], Offsets(FileRecords(t.files), Children(t.files, t.dirs[j])))
  {
    seq(|t.dirs|, j requires 0 <= j < |t.dirs| =>
      DirRecord(t.dirs[j], Offsets(FileRecords(t.files), Children(t.files, t.dirs[j]))))
  }

  /** The records of files, then of directories. */
  function Inner(t: Tree): (rs: seq<Record>)
    ensures |rs| == |t.files| + |t.dirs|
  {
    FileRecords(t.files) + DirRecords(t)
  }

  function DirOffsets(t: Tree): (offs: seq<nat>)
    ensures |offs| == |t.dirs|
    ensures forall j :: 0 <= j < |offs| ==> offs[j] == OffsetOf(Inner(t), |t.files| + j)
  {
    seq<nat>(|t.dirs|, j requires 0 <= j < |t.dirs| => OffsetOf(Inner(t), |t.files| + j))
  }

  /** All records, the root directory last. */
  function Records(t: Tree): (rs: seq<Record>)
    ensures |rs| == |t.files| + |t.dirs| + 1
  {
    Inner(t) + [DirRecord([SLASH], DirOffsets(t))]
  }

  function RootOffset(t: Tree): nat {
    8 + |Concat(Inner(t))|
  }

  function Image(t: Tree): seq<byte> {
    Bytes4(HEAD_MAGIC) + Pack(RootOffset(t)) + Concat(Records(t))
  }

  datatype Built = Done(image: seq<byte>) | Raised

  // ---- sizes ---------------------------------------------------------------------------

  lemma ConcatNext(rs: seq<Record>, i: nat)
    requires i < |rs|
    ensures Concat(rs[..i + 1]) == Concat(rs[..i]) + Bytes(rs[i])
  {
    assert rs[..i + 1][..i] == rs[..i];
  }

  /** A later part of the image starts behind everything before it. */
  lemma {:induction false} OffsetGrows(rs: seq<Record>, i: nat, j: nat)
    requires i < j <= |rs|
    ensures OffsetOf(rs, i) + 13 + |rs[i].name| + |rs[i].payload| <= OffsetOf(rs, j)
    decreases j
  {
    ConcatNext(rs, j - 1);
    if i < j - 1 {
      OffsetGrows(rs, i, j - 1);
    }
  }

  lemma OffsetPrefix(rs: seq<Record>, more: seq<Record>, i: nat)
    requires i <= |rs|
    ensures OffsetOf(rs + more, i) == OffsetOf(rs, i)
  {
    assert (rs + more)[..i] == rs[..i];
  }

  /** Every value the writer packs is below the root offset. */
  lemma PackedBelowRoot(t: Tree, i: nat)
    requires i < |Inner(t)|
    ensures OffsetOf(Inner(t), i) < RootOffset(t)
    ensures |Inner(t)[i].name| < RootOffset(t) && |Inner(t)[i].payload| < RootOffset(t)
  {
    OffsetGrows(Inner(t), i, |Inner(t)|);
    assert Inner(t)[..|Inner(t)|] == Inner(t);
  }

  // ---- the loops ------------------------------------------------------------------------

  /** The image head as first written, with a placeholder for the root offset. */
  function Placeholder(): (b: seq<byte>)
    ensures |b| == 8
  {
    Bytes4(HEAD_MAGIC) + Pack(1337)
  }

  /** The loop over final_nodes: appends each file and remembers where; false is an exception of struct.pack. */
  method WriteFiles(files: seq<File>) returns (ok: bool, data: seq<byte>, finalNodes: seq<nat>)
    ensures ok <==> forall i :: 0 <= i < |files| ==> |files[i].data| < TWO32 && |files[i].name| < TWO32
    ensures ok ==> data == Placeholder() + Concat(FileRecords(files))
    ensures ok ==> |finalNodes| == |files|
    ensures ok ==> forall i :: 0 <= i < |files| ==> finalNodes[i] == OffsetOf(FileRecords(files), i)
  {
    hide Concat, Bytes4, Pack, Placeholder;
    var rs := FileRecords(files);
    data, finalNodes := Placeholder(), [];
    EmptyConcat(rs);
    for i := 0 to |files|
      invariant data == Placeholder() + Concat(rs[..i])
      invariant |finalNodes| == i && forall k :: 0 <= k < i ==> finalNodes[k] == OffsetOf(rs, k)
      invariant forall k :: 0 <= k < i ==> |files[k].data| < TWO32 && |files[k].name| < TWO32
    {
      finalNodes := finalNodes + [|data|];
      if |files[i].data| >= TWO32 || |files[i].name| >= TWO32 {
        return false, data, finalNodes;
      }
      ConcatNext(rs, i);
      data := data + (Bytes4(FILE_MAGIC) + Pack(|files[i].data|) + Pack(|files[i].name|) + [FS_FILE]);
      data := data + files[i].name;
      data := data + files[i].data;
      assert data == Placeholder() + Concat(rs[..i + 1]);
    }
    assert rs[..|files|] == rs;
    ok := true;
  }

  lemma EmptyConcat(rs: seq<Record>)
    ensures Concat(rs[..0]) == []
  {
  }

  /** The list comprehension over final_nodes for one directory. */
  method ChildOffsets(files: seq<File>, finalNodes: seq<nat>, dir: Name) returns (nodes: seq<nat>)
    requires |finalNodes| == |files|
    ensures |nodes| == |Children(files, dir)|
    ensures forall k :: 0 <= k < |nodes| ==> nodes[k] == finalNodes[Children(files, dir)[k]]
  {
    nodes := [];
    for i := 0 to |files|
      invariant |nodes| == |Children(files[..i], dir)|
      invariant forall k :: 0 <= k < |nodes| ==> nodes[k] == finalNodes[Children(files[..i], dir)[k]]
    {
      assert files[..i + 1][..i] == files[..i];
      if files[i].dir == dir {
        nodes := nodes + [finalNodes[i]];
      }
    }
    assert files[..|files|] == files;
  }

  /** The join of packed offsets; false is an exception of struct.pack. */
  method JoinOffsets(offs: seq<nat>) returns (ok: bool, b: seq<byte>)
    ensures ok <==> forall k :: 0 <= k < |offs| ==> offs[k] < TWO32
    ensures ok ==> b == PackAll(offs)
  {
    b := [];
    for k := 0 to |offs|
      invariant b == PackAll(offs[..k])
      invariant forall j :: 0 <= j < k ==> offs[j] < TWO32
    {
      if offs[k] >= TWO32 {
        return false, b;
      }
      assert offs[..k + 1][..k] == offs[..k];
      b := b + Pack(offs[k]);
    }
    assert offs[..|offs|] == offs;
    ok := true;
  }

  /** A directory record appended to data. */
  method WriteDirectory(data: seq<byte>, name: Name, offs: seq<nat>) returns (ok: bool, r: seq<byte>)
    ensures ok <==> |offs| < TWO32 && |name| < TWO32 && forall k :: 0 <= k < |offs| ==> offs[k] < TWO32
    ensures ok ==> r == data + Bytes(DirRecord(name, offs))
  {
    hide Bytes4, Pack;
    if |offs| >= TWO32 || |name| >= TWO32 {
      return false, data;
    }
    r := data + (Bytes4(FILE_MAGIC) + Pack(|offs|) + Pack(|name|) + [FS_DIRECTORY]);
    r := r + name;
    var joined;
    ok, joined := JoinOffsets(offs);
    r := r + joined;
    if ok {
      assert r == data + Bytes(DirRecord(name, offs));
    }
  }

  /** The loop over the directories under the root. */
  method WriteDirectories(t: Tree, data: seq<byte>, finalNodes: seq<nat>)
      returns (ok: bool, r: seq<byte>, dirs: seq<nat>)
    requires data == Placeholder() + Concat(FileRecords(t.files)) && finalNodes == FileOffsets(t)
    ensures ok ==> r == Placeholder() + Concat(Inner(t)) && dirs == DirOffsets(t)
    ensures !ok ==> RootOffset(t) >= TWO32
  {
    hide Concat, Bytes, Bytes4, Pack, Placeholder, DirRecord, RootOffset, Offsets, Inner, Children, DirRecords,
         FileRecords;
    var rs, n := Inner(t), |t.files|;
    InnerParts(t);
    r, dirs := data, [];
    for j := 0 to |t.dirs|
      invariant |dirs| == j && forall k :: 0 <= k < j ==> dirs[k] == OffsetOf(rs, n + k)
      invariant r == Placeholder() + Concat(rs[..n + j])
    {
      dirs := dirs + [|r|];
      var nodes := ChildOffsets(t.files, finalNodes, t.dirs[j]);
      assert nodes == Offsets(FileRecords(t.files), Children(t.files, t.dirs[j]));
      ok, r := WriteDirectory(r, t.dirs[j], nodes);
      if !ok {
        DirectoryRaises(t, j, nodes);
        return;
      }
      ConcatNext(rs, n + j);
      Regroup(Placeholder(), Concat(rs[..n + j]), Bytes(rs[n + j]));
    }
    assert rs[..n + |t.dirs|] == rs;
    ok := true;
  }

  lemma InnerParts(t: Tree)
    ensures Inner(t)[..|t.files|] == FileRecords(t.files)
    ensures forall j {:trigger Inner(t)[|t.files| + j]} :: 0 <= j < |t.dirs| ==>
              Inner(t)[|t.files| + j]
              == DirRecord(t.dirs[j], Offsets(FileRecords(t.files), Children(t.files, t.dirs[j])))
  {
    hide Offsets, DirRecord, Children;
  }

  lemma Regroup(a: seq<byte>, b: seq<byte>, c: seq<byte>)
    ensures a + b + c == a + (b + c)
  {
  }

  /** What final_nodes holds after the first loop. */
  function FileOffsets(t: Tree): (offs: seq<nat>)
    ensures |offs| == |t.files|
    ensures forall i :: 0 <= i < |offs| ==> offs[i] == OffsetOf(FileRecords(t.files), i)
  {
    seq<nat>(|t.files|, i requires 0 <= i < |t.files| => OffsetOf(FileRecords(t.files), i))
  }

  /** The whole writer: Raised when there is no directory under the root, or the image outgrows 32-bit offsets. */
  method Build(t: Tree) returns (r: Built)
    ensures r.Done? <==> t.dirs != [] && RootOffset(t) < TWO32
    ensures r.Done? ==> r.image == Image(t)
  {
    hide Concat, Bytes, Bytes4, Pack, Placeholder, DirRecord, RootOffset, DirOffsets, OffsetOf;
    var ok, data, finalNodes := WriteFiles(t.files);
    if !ok {
      var i :| 0 <= i < |t.files| && !(|t.files[i].data| < TWO32 && |t.files[i].name| < TWO32);
      assert Inner(t)[i] == FileRecord(t.files[i]);
      PackedBelowRoot(t, i);
      return Raised;
    }
    assert finalNodes == FileOffsets(t);
    var dirs;
    ok, data, dirs := WriteDirectories(t, data, finalNodes);
    if !ok {
      return Raised;
    }
    var root := |data|;
    RootIs(t);
    if t.dirs == [] {
      return Raised;
    }
    ok, data := WriteDirectory(data, [SLASH], dirs);
    if !ok {
      RootRaises(t);
      return Raised;
    }
    if root >= TWO32 {
      return Raised;
    }
    data := Bytes4(HEAD_MAGIC) + Pack(root) + data[8..];
    ImageIs(t, data);
    r := Done(data);
  }

  lemma RootIs(t: Tree)
    ensures RootOffset(t) == 8 + |Concat(Inner(t))|
  {
  }

  /** The patched head in front of what was written. */
  lemma ImageIs(t: Tree, data: seq<byte>)
    requires data == Bytes4(HEAD_MAGIC) + Pack(RootOffset(t))
                     + (Placeholder() + Concat(Inner(t)) + Bytes(DirRecord([SLASH], DirOffsets(t))))[8..]
    ensures data == Image(t)
  {
    hide Bytes4, Pack, Placeholder, Bytes, DirRecord;
    var last := DirRecord([SLASH], DirOffsets(t));
    assert Records(t)[..|Inner(t)|] == Inner(t) && Records(t)[|Inner(t)|] == last;
    assert (Placeholder() + Concat(Inner(t)) + Bytes(last))[8..] == Concat(Inner(t)) + Bytes(last);
  }

  /** A directory record that cannot be packed: too many children, too long a name, or an offset too large. */
  lemma DirectoryRaises(t: Tree, j: nat, nodes: seq<nat>)
    requires j < |t.dirs| && nodes == Offsets(FileRecords(t.files), Children(t.files, t.dirs[j]))
    requires |nodes| >= TWO32 || |t.dirs[j]| >= TWO32 || exists k :: 0 <= k < |nodes| && nodes[k] >= TWO32
    ensures RootOffset(t) >= TWO32
  {
    hide RootOffset, Concat, Offsets, Children, FileRecords, OffsetOf;
    if |nodes| >= TWO32 || |t.dirs[j]| >= TWO32 {
      HeadRaises(t, j, nodes);
    } else {
      var k :| 0 <= k < |nodes| && nodes[k] >= TWO32;
      OffsetRaises(t, Children(t.files, t.dirs[j])[k]);
    }
  }

  lemma HeadRaises(t: Tree, j: nat, nodes: seq<nat>)
    requires j < |t.dirs| && nodes == Offsets(FileRecords(t.files), Children(t.files, t.dirs[j]))
    ensures |nodes| < RootOffset(t) && |t.dirs[j]| < RootOffset(t)
  {
    hide RootOffset, Concat, Offsets, Children, OffsetOf, PackAll;
    var i := |t.files| + j;
    assert Inner(t)[i] == DirRecord(t.dirs[j], nodes);
    PackedBelowRoot(t, i);
  }

  lemma OffsetRaises(t: Tree, c: nat)
    requires c < |t.files|
    ensures OffsetOf(FileRecords(t.files), c) < RootOffset(t)
  {
    hide RootOffset, Concat, OffsetOf, DirRecords;
    OffsetPrefix(FileRecords(t.files), DirRecords(t), c);
    PackedBelowRoot(t, c);
  }

  lemma RootRaises(t: Tree)
    requires |DirOffsets(t)| >= TWO32 || exists k :: 0 <= k < |DirOffsets(t)| && DirOffsets(t)[k] >= TWO32
    ensures RootOffset(t) >= TWO32
  {
    hide RootOffset, Concat;
    if k :| 0 <= k < |DirOffsets(t)| && DirOffsets(t)[k] >= TWO32 {
      PackedBelowRoot(t, |t.files| + k);
    } else {
      ManyRecords(Inner(t), |Inner(t)|);
      assert Inner(t)[..|Inner(t)|] == Inner(t);
      RootIs(t);
    }
  }

  lemma {:induction false} ManyRecords(rs: seq<Record>, n: nat)
    requires n <= |rs|
    ensures |Concat(rs[..n])| >= 13 * n
  {
    if n > 0 {
      ManyRecords(rs, n - 1);
      ConcatNext(rs, n - 1);
    }
  }
}
