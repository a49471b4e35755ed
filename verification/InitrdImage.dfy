/** What the reader finds in an image that the writer made. */
module InitrdImage {
  import opened Machine
  import opened InitrdBuild
  import opened InitrdRead

  // ---- where records lie ---------------------------------------------------------------

  lemma {:induction false} ConcatPrefix(rs: seq<Record>, i: nat, n: nat)
    requires i <= n <= |rs|
    ensures Concat(rs[..i]) <= Concat(rs[..n])
    decreases n
  {
    hide Concat, InitrdBuild.Bytes;
    if i < n {
      ConcatNext(rs, n - 1);
      ConcatPrefix(rs, i, n - 1);
    }
  }

  /** The bytes of the record lie in the image at off. */
  ghost predicate HasRecord(img: seq<byte>, off: nat, r: Record) {
    off + |InitrdBuild.Bytes(r)| <= |img| && img[off..off + |InitrdBuild.Bytes(r)|] == InitrdBuild.Bytes(r)
  }

  lemma RecordInImage(t: Tree, i: nat)
    requires i < |Records(t)|
    ensures HasRecord(Image(t), OffsetOf(Records(t), i), Records(t)[i])
  {
    hide Concat, InitrdBuild.Bytes, Pack, Bytes4, Records;
    var rs := Records(t);
    ConcatNext(rs, i);
    ConcatPrefix(rs, i + 1, |rs|);
    assert rs[..|rs|] == rs;
    var head := Bytes4(HEAD_MAGIC) + Pack(RootOffset(t));
    var pre, b := Concat(rs[..i]), InitrdBuild.Bytes(rs[i]);
    assert Concat(rs)[..|pre| + |b|] == pre + b;
    assert Concat(rs)[|pre|..|pre| + |b|] == b;
    assert Image(t) == head + Concat(rs) && |head| == 8;
  }

  /** Offsets of inner records are the same with and without the root record. */
  lemma InnerOffset(t: Tree, i: nat)
    requires i <= |Inner(t)|
    ensures OffsetOf(Records(t), i) == OffsetOf(Inner(t), i) <= RootOffset(t)
    ensures i < |Inner(t)| ==> Records(t)[i] == Inner(t)[i] && OffsetOf(Inner(t), i) < RootOffset(t)
    ensures i == |Inner(t)| ==> OffsetOf(Inner(t), i) == RootOffset(t)
  {
    hide Concat;
    OffsetPrefix(Inner(t), Records(t)[|Inner(t)|..], i);
    assert Inner(t)[..|Inner(t)|] == Inner(t);
    if i < |Inner(t)| {
      PackedBelowRoot(t, i);
    }
  }

  // ---- the fields of a record ---------------------------------------------------------------

  lemma WordAt(img: seq<byte>, off: nat, v: u32)
    requires off + 4 <= |img| && img[off..off + 4] == Bytes4(v)
    ensures U32(img, off) == v
  {
    hide Bytes4;
    WordOfBytes(v);
    var b := img[off..off + 4];
    assert b[0] == img[off] && b[1] == img[off + 1] && b[2] == img[off + 2] && b[3] == img[off + 3];
  }

  lemma SubSlice(img: seq<byte>, off: nat, b: seq<byte>, i: nat, j: nat)
    requires off + |b| <= |img| && img[off..off + |b|] == b && i <= j <= |b|
    ensures img[off + i..off + j] == b[i..j]
  {
    forall k | 0 <= k < j - i ensures img[off + i..off + j][k] == b[i..j][k] {
      assert img[off..off + |b|][i + k] == img[off + (i + k)];
    }
  }

  lemma Fields(img: seq<byte>, off: u32, r: Record)
    requires HasRecord(img, off, r) && r.size < TWO32 && |r.name| < TWO32 && 0 !in r.name
    ensures Magic(img, off) == FILE_MAGIC && Size(img, off) == r.size
    ensures NameSize(img, off) == |r.name| && Kind(img, off) == r.kind
    ensures NameAt(img, off) == r.name && PayloadAt(img, off) == off + 13 + |r.name|
    ensures off + 13 + |r.name| + |r.payload| <= |img|
    ensures img[off + 13 + |r.name|..off + 13 + |r.name| + |r.payload|] == r.payload
  {
    hide U32, InitrdBuild.Bytes, Bytes4, Pack;
    var b := InitrdBuild.Bytes(r);
    RecordParts(r);
    SubSlice(img, off, b, 0, 4);
    SubSlice(img, off, b, 4, 8);
    SubSlice(img, off, b, 8, 12);
    PackIs(r.size);
    PackIs(|r.name|);
    WordAt(img, off, FILE_MAGIC);
    WordAt(img, off + 4, r.size);
    WordAt(img, off + 8, |r.name|);
    SubSlice(img, off, b, 12, 13);
    assert img[off + 12..off + 13][0] == img[off + 12];
    SubSlice(img, off, b, 13, 13 + |r.name|);
    SubSlice(img, off, b, 13 + |r.name|, |b|);
    assert InitrdRead.Copy(img, off + 13, |r.name|) == img[off + 13..off + 13 + |r.name|];
  }

  lemma RecordParts(r: Record)
    ensures var b := InitrdBuild.Bytes(r);
            && |b| == 13 + |r.name| + |r.payload|
            && b[0..4] == Bytes4(FILE_MAGIC) && b[4..8] == Pack(r.size) && b[8..12] == Pack(|r.name|)
            && b[12..13] == [r.kind] && b[13..13 + |r.name|] == r.name && b[13 + |r.name|..] == r.payload
  {
    hide Bytes4, Pack;
  }

  lemma PackIs(x: nat)
    requires x < TWO32
    ensures Pack(x) == Bytes4(x)
  {
  }

  lemma {:induction false} PackedAt(offs: seq<nat>, k: nat)
    requires k < |offs|
    ensures PackAll(offs)[4 * k..4 * k + 4] == Pack(offs[k])
  {
    hide Pack;
    var n := |offs| - 1;
    if k < n {
      PackedAt(offs[..n], k);
      assert PackAll(offs)[..4 * n] == PackAll(offs[..n]);
    }
  }

  /** The k-th offset of a directory, read back. */
  lemma ChildRead(img: seq<byte>, off: u32, name: Name, offs: seq<nat>, k: nat)
    requires HasRecord(img, off, DirRecord(name, offs)) && |offs| < TWO32 && |name| < TWO32 && 0 !in name
    requires k < |offs| && offs[k] < TWO32
    ensures ChildAt(img, off, k) == offs[k]
  {
    hide U32, Bytes4, PackAll, InitrdBuild.Bytes;
    var r := DirRecord(name, offs);
    Fields(img, off, r);
    PackedAt(offs, k);
    var at := off + 13 + |name|;
    SubSlice(img, at, r.payload, 4 * k, 4 * k + 4);
    WordAt(img, at + 4 * k, offs[k]);
  }

  // ---- directories --------------------------------------------------------------------------

  predicate GoodName(n: Name) {
    0 < |n| < NODE_NAME_SIZE && 0 !in n && SLASH !in n
  }

  /** The trees the writer makes an image of, with names that are C strings. */
  ghost predicate Buildable(t: Tree) {
    && t.dirs != [] && RootOffset(t) < TWO32
    && (forall i :: 0 <= i < |t.files| ==> 0 !in t.files[i].name)
    && (forall j :: 0 <= j < |t.dirs| ==> 0 !in t.dirs[j])
  }

  /** The trees the writer and the reader agree on. */
  ghost predicate Stored(t: Tree) {
    && Buildable(t)
    && (forall i :: 0 <= i < |t.files| ==> GoodName(t.files[i].name))
    && (forall j :: 0 <= j < |t.dirs| ==> GoodName(t.dirs[j]))
    && (forall i, j :: 0 <= i < j < |t.files| ==>
          t.files[i].dir != t.files[j].dir || t.files[i].name != t.files[j].name)
    && (forall i, j :: 0 <= i < j < |t.dirs| ==> t.dirs[i] != t.dirs[j])
  }

  /** There are such trees: one directory d with one file f in it. */
  lemma SmallTree(data: seq<byte>)
    requires |data| < 1000
    ensures Stored(Tree([File([100], [102], data)], [[100]]))
  {
    hide InitrdBuild.Bytes, Concat, Children, Inner;
    var t := Tree([File([100], [102], data)], [[100]]);
    OneChild(t.files[0]);
    SmallInner(t);
    var f, d := Inner(t)[0], Inner(t)[1];
    ThreeRecords(f, d, d);
    assert Inner(t) == [f, d];
  }

  lemma SmallInner(t: Tree)
    requires |t.files| == 1 && t.dirs == [t.files[0].dir]
    ensures |Inner(t)| == 2 && Inner(t)[0] == FileRecord(t.files[0])
    ensures Inner(t)[1].name == t.dirs[0] && |Inner(t)[1].payload| == 4 * |Children(t.files, t.dirs[0])|
  {
    hide Children, PackAll;
  }

  /** A name can be looked up exactly when it has 1 to 127 bytes, none of them 0 or a slash. */
  lemma NameLimit(n: Name)
    ensures GoodName(n) <==> 1 <= |n| <= 127 && 0 !in n && 47 !in n
  {
  }

  /** The whole image of directory d with file f of one byte 7, byte by byte. */
  lemma SmallImage()
    ensures Image(Tree([File([100], [102], [7])], [[100]])) ==
            [0xCD, 0xAB, 0xCD, 0xAB] + [41, 0, 0, 0]
            + ([0xDD, 0xCC, 0xBB, 0xAA, 1, 0, 0, 0, 1, 0, 0, 0, 1, 102, 7]
               + [0xDD, 0xCC, 0xBB, 0xAA, 1, 0, 0, 0, 1, 0, 0, 0, 2, 100, 8, 0, 0, 0]
               + [0xDD, 0xCC, 0xBB, 0xAA, 1, 0, 0, 0, 1, 0, 0, 0, 2, 47, 23, 0, 0, 0])
  {
    hide Concat, InitrdBuild.Bytes, Pack, Bytes4, Records, RootOffset;
    var f, d, r := SmallFile, SmallDir, SmallRoot;
    SmallRecords();
    SmallLayout();
    ThreeRecords(f, d, r);
    SmallWords();
  }

  const SmallFile: Record := Record(1, [102], 1, [7])
  const SmallDir: Record := Record(1, [100], 2, [8, 0, 0, 0])
  const SmallRoot: Record := Record(1, [47], 2, [23, 0, 0, 0])

  lemma SmallWords()
    ensures Bytes4(HEAD_MAGIC) == [0xCD, 0xAB, 0xCD, 0xAB] && Bytes4(FILE_MAGIC) == [0xDD, 0xCC, 0xBB, 0xAA]
    ensures Pack(41) == [41, 0, 0, 0] && Pack(1) == [1, 0, 0, 0] && Pack(8) == [8, 0, 0, 0] && Pack(23) == [23, 0, 0, 0]
  {
    hide Bytes4;
    MagicWords();
    OneByte(41);
    OneByte(1);
    OneByte(8);
    OneByte(23);
  }

  lemma MagicWords()
    ensures Bytes4(0xABCD_ABCD) == [0xCD, 0xAB, 0xCD, 0xAB]
    ensures Bytes4(0xAABB_CCDD) == [0xDD, 0xCC, 0xBB, 0xAA]
  {
  }

  lemma OneByte(x: u32)
    requires x < 256
    ensures Bytes4(x) == [x, 0, 0, 0]
  {
  }

  lemma SmallRecords()
    ensures InitrdBuild.Bytes(SmallFile) == [0xDD, 0xCC, 0xBB, 0xAA, 1, 0, 0, 0, 1, 0, 0, 0, 1, 102, 7]
    ensures InitrdBuild.Bytes(SmallDir) == [0xDD, 0xCC, 0xBB, 0xAA, 1, 0, 0, 0, 1, 0, 0, 0, 2, 100, 8, 0, 0, 0]
    ensures InitrdBuild.Bytes(SmallRoot) == [0xDD, 0xCC, 0xBB, 0xAA, 1, 0, 0, 0, 1, 0, 0, 0, 2, 47, 23, 0, 0, 0]
  {
    hide Bytes4, Pack;
    SmallWords();
  }

  lemma SmallLayout()
    ensures var t := Tree([File([100], [102], [7])], [[100]]);
            Records(t) == [SmallFile, SmallDir, SmallRoot] && RootOffset(t) == 41
  {
    hide Concat, Children, Pack, PackAll, InitrdBuild.Bytes;
    var t := Tree([File([100], [102], [7])], [[100]]);
    OneChild(t.files[0]);
    SmallWords();
    SmallRecords();
    ThreeRecords(SmallFile, SmallDir, SmallRoot);
    assert FileRecords(t.files) == [SmallFile];
    assert [SmallFile][..0] == [] && [SmallFile, SmallDir][..1] == [SmallFile];
    assert Offsets([SmallFile], [0]) == [8];
    OnePacked(8);
    OnePacked(23);
    assert DirRecords(t) == [SmallDir] && Inner(t) == [SmallFile, SmallDir];
    assert DirOffsets(t) == [23];
  }

  lemma OnePacked(x: nat)
    ensures PackAll([x]) == Pack(x)
  {
    hide Pack;
    assert [x][..0] == [] && PackAll([]) == [];
  }

  lemma OneChild(f: File)
    ensures Children([f], f.dir) == [0]
  {
    assert [f][..0] == [] && Children([], f.dir) == [];
  }

  lemma ThreeRecords(f: Record, d: Record, r: Record)
    ensures Concat([]) == [] && Concat([f]) == InitrdBuild.Bytes(f)
    ensures Concat([f, d]) == InitrdBuild.Bytes(f) + InitrdBuild.Bytes(d)
    ensures Concat([f, d, r]) == InitrdBuild.Bytes(f) + InitrdBuild.Bytes(d) + InitrdBuild.Bytes(r)
  {
    hide InitrdBuild.Bytes;
    assert [f][..0] == [] && [f, d][..1] == [f] && [f, d, r][..2] == [f, d];
  }

  function FileOffset(t: Tree, i: nat): nat
    requires i < |t.files|
  {
    OffsetOf(Records(t), i)
  }

  function DirOffset(t: Tree, j: nat): nat
    requires j < |t.dirs|
  {
    OffsetOf(Records(t), |t.files| + j)
  }

  lemma FileFields(t: Tree, i: nat)
    requires Buildable(t) && i < |t.files|
    ensures FileOffset(t, i) < TWO32 && |t.files[i].data| + 1 < TWO32
    ensures HasRecord(Image(t), FileOffset(t, i), FileRecord(t.files[i]))
    ensures Magic(Image(t), FileOffset(t, i)) == FILE_MAGIC && Kind(Image(t), FileOffset(t, i)) == FS_FILE
    ensures Size(Image(t), FileOffset(t, i)) == |t.files[i].data|
    ensures NameAt(Image(t), FileOffset(t, i)) == t.files[i].name
    ensures LongName(Image(t), FileOffset(t, i)) <==> |t.files[i].name| >= NODE_NAME_SIZE
  {
    hide Concat, Image, RootOffset, OffsetOf, HasRecord, Magic, Kind, Size, NameAt;
    InnerOffset(t, i);
    RecordInImage(t, i);
    PackedBelowRoot(t, i);
    assert Inner(t)[i] == FileRecord(t.files[i]);
    Fields(Image(t), FileOffset(t, i), FileRecord(t.files[i]));
  }

  lemma DirFields(t: Tree, j: nat)
    requires Buildable(t) && j < |t.dirs|
    ensures DirOffset(t, j) < TWO32 && |Children(t.files, t.dirs[j])| + 1 < TWO32
    ensures Magic(Image(t), DirOffset(t, j)) == FILE_MAGIC && Kind(Image(t), DirOffset(t, j)) == FS_DIRECTORY
    ensures Size(Image(t), DirOffset(t, j)) == |Children(t.files, t.dirs[j])|
    ensures NameAt(Image(t), DirOffset(t, j)) == t.dirs[j]
    ensures LongName(Image(t), DirOffset(t, j)) <==> |t.dirs[j]| >= NODE_NAME_SIZE
    ensures forall k :: 0 <= k < |Children(t.files, t.dirs[j])| ==>
              ChildAt(Image(t), DirOffset(t, j), k) == FileOffset(t, Children(t.files, t.dirs[j])[k])
  {
    hide Concat, Image, RootOffset, OffsetOf, HasRecord, Magic, Kind, Size, NameAt, ChildAt, Children, Offsets;
    var i := |t.files| + j;
    var ch := Children(t.files, t.dirs[j]);
    var offs := Offsets(FileRecords(t.files), ch);
    InnerOffset(t, i);
    RecordInImage(t, i);
    PackedBelowRoot(t, i);
    assert Inner(t)[i] == DirRecord(t.dirs[j], offs);
    Fields(Image(t), DirOffset(t, j), DirRecord(t.dirs[j], offs));
    forall k | 0 <= k < |ch| ensures ChildAt(Image(t), DirOffset(t, j), k) == FileOffset(t, ch[k]) {
      OffsetPrefix(FileRecords(t.files), DirRecords(t), ch[k]);
      InnerOffset(t, ch[k]);
      ChildRead(Image(t), DirOffset(t, j), t.dirs[j], offs, k);
    }
  }

  lemma RootFields(t: Tree)
    requires Buildable(t)
    ensures U32(Image(t), 0) == HEAD_MAGIC && U32(Image(t), 4) == RootOffset(t)
    ensures |t.dirs| + 1 < TWO32
    ensures Magic(Image(t), RootOffset(t)) == FILE_MAGIC && Kind(Image(t), RootOffset(t)) == FS_DIRECTORY
    ensures Size(Image(t), RootOffset(t)) == |t.dirs|
    ensures NameAt(Image(t), RootOffset(t)) == [SLASH] && !LongName(Image(t), RootOffset(t))
    ensures forall j :: 0 <= j < |t.dirs| ==> ChildAt(Image(t), RootOffset(t), j) == DirOffset(t, j)
  {
    hide Concat, RootOffset, OffsetOf, HasRecord, Magic, Kind, Size, NameAt, ChildAt, DirOffsets, U32, Bytes4;
    var n := |Inner(t)|;
    assert Image(t)[0..4] == Bytes4(HEAD_MAGIC) && Image(t)[4..8] == Pack(RootOffset(t));
    WordAt(Image(t), 0, HEAD_MAGIC);
    WordAt(Image(t), 4, RootOffset(t));
    InnerOffset(t, n);
    RecordInImage(t, n);
    ManyRecords(Inner(t), n);
    assert Inner(t)[..n] == Inner(t);
    RootIs(t);
    var offs := DirOffsets(t);
    Fields(Image(t), RootOffset(t), DirRecord([SLASH], offs));
    forall j | 0 <= j < |t.dirs| ensures ChildAt(Image(t), RootOffset(t), j) == DirOffset(t, j) {
      InnerOffset(t, |t.files| + j);
      ChildRead(Image(t), RootOffset(t), [SLASH], offs, j);
    }
  }
}
