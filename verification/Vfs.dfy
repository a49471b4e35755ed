/** The reader, the node cache and the path walk in place: the node list grows, the walk moves a pointer. */
module Vfs {
  import opened Machine
  import opened InitrdBuild
  import opened InitrdRead

  class Vfs {
    const image: seq<byte>
    var nodes: seq<Node>  // nodes_list from head to tail; a node pointer is its position
    var smashed: bool     // a name was written past the end of its buffer; nothing is said of what follows

    /** The outcome of a method that returned r. */
    ghost function Outcome(r: int): Walk
      reads this
    {
      if smashed then Smashed else Walk(nodes, r)
    }

    constructor (image: seq<byte>)
      ensures this.image == image
      ensures smashed == Init(image).Smashed? && (!smashed ==> nodes == Init(image).nodes)
    {
      this.image := image;
      nodes, smashed := [], false;
      new;
      if U32(image, 0) != HEAD_MAGIC {
        return;
      }
      var off := U32(image, 4);
      if Magic(image, off) != FILE_MAGIC {
        return;
      }
      var found := FindByIno(off);
      if found >= 0 || Kind(image, off) == 1 {
        return;
      }
      var root := Create(off);
    }

    /** find_fs_node_by_ino. */
    method FindByIno(ino: u32) returns (r: int)
      ensures r == FindIno(nodes, ino)
    {
      var i := 0;
      assert nodes[..|nodes|] == nodes;
      while i < |nodes|
        invariant 0 <= i <= |nodes| && FindIno(nodes[..i], ino) == -1
      {
        assert nodes[..i + 1][..i] == nodes[..i];
        if nodes[i].inode == ino {
          FindStays(nodes, i + 1, ino);
          return i;
        }
        i := i + 1;
      }
      r := -1;
    }

    /** initrd_create_node. */
    method Create(off: u32) returns (r: int)
      requires !smashed
      modifies this
      ensures Outcome(r) == CreateNode(old(nodes), image, off)
    {
      r := FindByIno(off);
      if r >= 0 {
        return;
      }
      if NameSize(image, off) > NODE_NAME_SIZE - 1 {
        smashed := true;
        return;
      }
      var node := Node(NameAt(image, off), 0, 0, 0);
      if Kind(image, off) == 1 {
        node := node.(flags := NODE_FILE);
      } else if Kind(image, off) == 2 {
        node := node.(flags := NODE_DIRECTORY);
      }
      node := node.(length := Size(image, off));
      node := node.(inode := off);
      nodes := nodes + [node];
      r := |nodes| - 1;
    }

    /** initrd_openddir. */
    method OpenNode(node: nat, num: nat) returns (r: int)
      requires node < |nodes| && !smashed
      modifies this
      ensures Outcome(r) == OpenDir(old(nodes), image, old(nodes[node].inode), num)
    {
      var ino := nodes[node].inode;
      if Magic(image, ino) != FILE_MAGIC || Kind(image, ino) != 2 || num >= Size(image, ino) {
        return -1;
      }
      r := Create(ChildAt(image, ino, num));
    }

    /** The entry loop of resolve_path for one component. */
    method FindPart(node: nat, part: seq<byte>) returns (r: int)
      requires node < |nodes| && !smashed
      modifies this
      ensures Outcome(r) == Step(old(nodes), image, node, part, 0, Wrap(old(nodes[node].length) + 1))
    {
      var i := 0;
      var end := Wrap(nodes[node].length + 1);
      while i < end
        invariant 0 <= i <= end && nodes == old(nodes) && !smashed
        invariant Step(nodes, image, node, part, 0, end) == Step(nodes, image, node, part, i, end)
      {
        match ReadDir(image, nodes[node].inode, i)
        case Missing =>
          return -1;
        case Overlong =>
          smashed := true;
          return -1;
        case Entry(name, _) =>
          if name == part {
            r := OpenNode(node, i);
            return;
          }
        i := i + 1;
      }
      r := node;
    }

    /** The length of the component at the front of p. */
    method TakePart(p: seq<byte>) returns (n: nat)
      ensures n == PartLength(p, 0)
    {
      n := 0;
      while n < |p| && p[n] != SLASH && n < NODE_NAME_SIZE
        invariant 0 <= n <= |p| && PartLength(p, 0) == PartLength(p, n)
      {
        n := n + 1;
      }
    }

    /** The slashes behind a component are skipped. */
    method SkipRun(p: seq<byte>) returns (rest: seq<byte>)
      ensures rest == SkipSlashes(p)
    {
      rest := p;
      while rest != [] && rest[0] == SLASH
        invariant SkipSlashes(p) == SkipSlashes(rest)
        decreases |rest|
      {
        rest := rest[1..];
      }
    }

    /** resolve_path: -1 is NULL, otherwise the position of the node. */
    method ResolvePath(path: seq<byte>) returns (r: int)
      requires !smashed
      modifies this
      ensures Outcome(r) == Resolve(old(nodes), image, path)
    {
      hide Step, SkipSlashes, PartLength;
      if path == [] || path[0] != SLASH || nodes == [] {
        return -1;
      }
      var p := path[1..];
      r := 0;
      var k := 0;
      while p != [] && k < 8 && r >= 0
        invariant -1 <= r < |nodes| && 0 <= k <= 8 && !smashed
        invariant Resolve(old(nodes), image, path) == WalkFrom(nodes, image, r, p, k)
        decreases 8 - k
      {
        var n := TakePart(p);
        if n >= NODE_NAME_SIZE {
          return -1;
        }
        var part := p[..n];
        var rest := SkipRun(p[n..]);
        StepInRange(nodes, image, r, part, 0, Wrap(nodes[r].length + 1));
        r := FindPart(r, part);
        if smashed {
          return;
        }
        p := rest;
        k := k + 1;
      }
    }

    /** initrd_read at an offset, for a file opened on the node. */
    method ReadFile(node: nat, offset: u32, size: u32) returns (buff: seq<byte>)
      requires node < |nodes|
      ensures buff == Read(image, nodes[node].inode, offset, size)
    {
      var ino := nodes[node].inode;
      buff := [];
      if offset >= Size(image, ino) {
        return;
      }
      var ret := if Wrap(offset + size) >= Size(image, ino) then Size(image, ino) - offset else size;
      var base := PayloadAt(image, ino);
      for i := 0 to ret
        invariant |buff| == i && forall j :: 0 <= j < i ==> buff[j] == At(image, base + offset + j)
      {
        buff := buff + [At(image, base + offset + i)];
      }
    }
  }

  lemma {:induction false} FindStays(nodes: seq<Node>, n: nat, ino: u32)
    requires n <= |nodes| && FindIno(nodes[..n], ino) >= 0
    ensures FindIno(nodes, ino) == FindIno(nodes[..n], ino)
  {
    if n == |nodes| {
      assert nodes[..n] == nodes;
    } else {
      assert nodes[..|nodes| - 1][..n] == nodes[..n];
      FindStays(nodes[..|nodes| - 1], n, ino);
    }
  }

  /** The walk never leaves the list, and the list only grows. */
  lemma {:induction false} StepInRange(nodes: seq<Node>, img: seq<byte>, node: nat, part: seq<byte>, i: nat, end: nat)
    requires node < |nodes| && i <= end
    ensures var w := Step(nodes, img, node, part, i, end);
            w.Walk? ==> -1 <= w.node < |w.nodes| && nodes <= w.nodes
    decreases end - i
  {
    if i < end {
      StepInRange(nodes, img, node, part, i + 1, end);
    }
  }
}
