/**
 The image reader (kernel/src/kernel/vfs/fs/initrd.c) with the node cache and the path
 walk of kernel/src/kernel/vfs/node.c, on values. Bytes outside the image read as 0.
 */
module InitrdRead {
  import opened Machine
  import opened InitrdBuild

  const NODE_NAME_SIZE := 128
  const NODE_FILE := 1       // FS_FILE of node.h
  const NODE_DIRECTORY := 2  // FS_DIRECTORY of node.h

  type Bytes = seq<byte>

  function At(img: Bytes, i: int): byte {
    if 0 <= i < |img| then img[i] else 0
  }

  function U32(img: Bytes, off: int): u32 {
    Word4(At(img, off), At(img, off + 1), At(img, off + 2), At(img, off + 3))
  }

  // ---- the fields of a record ---------------------------------------------------------

  function Magic(img: Bytes, off: u32): u32 { U32(img, off) }

  function Size(img: Bytes, off: u32): u32 { U32(img, off + 4) }

  function NameSize(img: Bytes, off: u32): u32 { U32(img, off + 8) }

  function Kind(img: Bytes, off: u32): byte { At(img, off + 12) }

  /** The part of a byte string in front of its first 0. */
  function CString(s: Bytes): (r: Bytes)
    ensures |r| <= |s| && r == s[..|r|] && 0 !in r
    ensures 0 !in s ==> r == s
  {
    if s == [] || s[0] == 0 then [] else [s[0]] + CString(s[1..])
  }

  function Copy(img: Bytes, from: int, n: nat): (r: Bytes)
    ensures |r| == n && forall i :: 0 <= i < n ==> r[i] == At(img, from + i)
  {
    seq<byte>(n, i requires 0 <= i < n => At(img, from + i))
  }

  /** The name of the record at off, as strcmp sees it after the copy and the terminating 0. */
  function NameAt(img: Bytes, off: u32): Bytes {
    CString(Copy(img, off + 13, NameSize(img, off)))
  }

  /** Where the bytes or offsets of a record start. */
  function PayloadAt(img: Bytes, off: u32): int {
    off + 13 + NameSize(img, off)
  }

  function ChildAt(img: Bytes, off: u32, num: nat): u32 {
    U32(img, PayloadAt(img, off) + 4 * num)
  }

  // ---- nodes ---------------------------------------------------------------------------

  datatype Node = Node(name: Bytes, flags: nat, length: u32, inode: u32)

  /** What a fresh parse of the record at off gives. */
  function Parse(img: Bytes, off: u32): Node {
    Node(NameAt(img, off), if Kind(img, off) == 1 then NODE_FILE else if Kind(img, off) == 2 then NODE_DIRECTORY else 0,
         Size(img, off), off)
  }

  /** find_fs_node_by_ino: the first node of the list with this offset. */
  function FindIno(nodes: seq<Node>, ino: u32): (r: int)
    ensures r == -1 || (0 <= r < |nodes| && nodes[r].inode == ino)
    ensures r == -1 ==> forall i :: 0 <= i < |nodes| ==> nodes[i].inode != ino
  {
    if nodes == [] then -1
    else
      var r := FindIno(nodes[..|nodes| - 1], ino);
      if r >= 0 then r else if nodes[|nodes| - 1].inode == ino then |nodes| - 1 else -1
  }

  /** The node list and the node reached, -1 for NULL; or a name was written past the end of its buffer. */
  datatype Walk = Walk(nodes: seq<Node>, node: int) | Smashed

  /** The name of the record at off and its terminating 0 do not fit the 128 bytes of a node or directory entry. */
  predicate LongName(img: Bytes, off: u32) {
    NameSize(img, off) >= NODE_NAME_SIZE
  }

  /** initrd_create_node: the cached node, or a new one at the end of the list. */
  function CreateNode(nodes: seq<Node>, img: Bytes, off: u32): (w: Walk)
    ensures w.Walk? ==> 0 <= w.node < |w.nodes| && nodes <= w.nodes
    ensures w.Smashed? ==> LongName(img, off)
  {
    var i := FindIno(nodes, off);
    if i >= 0 then Walk(nodes, i)
    else if LongName(img, off) then Smashed
    else Walk(nodes + [Parse(img, off)], |nodes|)
  }

  /** The record at ino is a directory that lists more than num children. */
  predicate HasChild(img: Bytes, ino: u32, num: nat) {
    Magic(img, ino) == FILE_MAGIC && Kind(img, ino) == 2 && num < Size(img, ino)
  }

  datatype Entry = Missing | Entry(name: Bytes, ino: u32) | Overlong

  /** initrd_readdir: name and offset of child num. */
  function ReadDir(img: Bytes, ino: u32, num: nat): Entry {
    if !HasChild(img, ino, num) then Missing
    else if LongName(img, ChildAt(img, ino, num)) then Overlong
    else Entry(NameAt(img, ChildAt(img, ino, num)), ChildAt(img, ino, num))
  }

  /** initrd_openddir: the node of child num. */
  function OpenDir(nodes: seq<Node>, img: Bytes, ino: u32, num: nat): Walk {
    if !HasChild(img, ino, num) then Walk(nodes, -1) else CreateNode(nodes, img, ChildAt(img, ino, num))
  }

  // ---- the path walk -----------------------------------------------------------------------

  /** The loop over the entries of a directory from entry i on; `end` is node->length + 1. */
  function Step(nodes: seq<Node>, img: Bytes, node: nat, part: Bytes, i: nat, end: nat): Walk
    requires node < |nodes| && i <= end
    decreases end - i
  {
    if i == end then Walk(nodes, node)
    else
      match ReadDir(img, nodes[node].inode, i)
      case Missing => Walk(nodes, -1)
      case Overlong => Smashed
      case Entry(name, _) =>
        if name == part then OpenDir(nodes, img, nodes[node].inode, i)
        else Step(nodes, img, node, part, i + 1, end)
  }

  /** The length of the path component at the front of p, cut off at the buffer size. */
  function PartLength(p: Bytes, n: nat): (r: nat)
    requires n <= |p|
    ensures n <= r <= |p|
    decreases |p| - n
  {
    if n < |p| && p[n] != SLASH && n < NODE_NAME_SIZE then PartLength(p, n + 1) else n
  }

  function SkipSlashes(p: Bytes): (r: Bytes)
    ensures |r| <= |p|
    ensures p != [] && p[0] == SLASH ==> |r| < |p|
  {
    if p != [] && p[0] == SLASH then SkipSlashes(p[1..]) else p
  }

  /** The main loop of resolve_path with k components done. */
  function WalkFrom(nodes: seq<Node>, img: Bytes, node: int, p: Bytes, k: nat): Walk
    requires -1 <= node < |nodes|
    decreases 8 - k
  {
    if p == [] || k >= 8 || node < 0 then Walk(nodes, node)
    else
      var n := PartLength(p, 0);
      if n >= NODE_NAME_SIZE then Walk(nodes, -1)
      else
        var w := Step(nodes, img, node, p[..n], 0, Wrap(nodes[node].length + 1));
        if w.Walk? && -1 <= w.node < |w.nodes| then WalkFrom(w.nodes, img, w.node, SkipSlashes(p[n..]), k + 1) else w
  }

  /** resolve_path. */
  function Resolve(nodes: seq<Node>, img: Bytes, path: Bytes): Walk {
    if path == [] || path[0] != SLASH || nodes == [] then Walk(nodes, -1)
    else WalkFrom(nodes, img, 0, path[1..], 0)
  }

  // ---- reading ---------------------------------------------------------------------------

  /** initrd_read: the bytes put into the buffer; the end test wraps at 2^32. */
  function Read(img: Bytes, ino: u32, offset: u32, size: u32): Bytes {
    var len := Size(img, ino);
    if offset >= len then []
    else Copy(img, PayloadAt(img, ino) + offset, if Wrap(offset + size) >= len then len - offset else size)
  }

  /** initrd_init on an empty node list: the list after it, with the root node when there is one. */
  function Init(img: Bytes): Walk {
    var off := U32(img, 4);
    if U32(img, 0) != HEAD_MAGIC || Magic(img, off) != FILE_MAGIC || Kind(img, off) == 1 then Walk([], -1)
    else CreateNode([], img, off)
  }
}
