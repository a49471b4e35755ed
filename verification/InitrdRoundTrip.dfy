/** The round trip between writer and reader, and the coherence of the node cache. */
module InitrdRoundTrip {
  import opened Machine
  import opened InitrdBuild
  import opened InitrdRead
  import opened InitrdImage
  import opened Vfs

  // ---- the node cache -------------------------------------------------------------------

  /** At most one node per offset, each as a fresh parse of the image would make it. */
  ghost predicate Coherent(nodes: seq<Node>, img: seq<byte>) {
    && (forall i :: 0 <= i < |nodes| ==> nodes[i] == Parse(img, nodes[i].inode))
    && (forall i, j :: 0 <= i < j < |nodes| ==> nodes[i].inode != nodes[j].inode)
  }

  /** A lookup by offset gives what a fresh parse gives and keeps the cache coherent, unless it smashes a buffer. */
  lemma CreateCoherent(nodes: seq<Node>, img: seq<byte>, off: u32)
    requires Coherent(nodes, img)
    ensures var w := CreateNode(nodes, img, off);
            && (w.Walk? ==> Coherent(w.nodes, img) && w.nodes[w.node] == Parse(img, off) && nodes <= w.nodes)
            && (w.Smashed? <==> LongName(img, off) && forall i :: 0 <= i < |nodes| ==> nodes[i].inode != off)
  {
    hide Parse;
    ParsedInode(img, off);
  }

  lemma ParsedInode(img: seq<byte>, off: u32)
    ensures Parse(img, off).inode == off && Parse(img, off).length == Size(img, off)
    ensures Parse(img, off).flags == if Kind(img, off) == 1 || Kind(img, off) == 2 then Kind(img, off) else 0
  {
  }

  lemma CachedNode(nodes: seq<Node>, img: seq<byte>, node: nat)
    requires Coherent(nodes, img) && node < |nodes|
    ensures nodes[node] == Parse(img, nodes[node].inode) && nodes[node].length == Size(img, nodes[node].inode)
  {
  }

  lemma {:induction false} StepCoherent(nodes: seq<Node>, img: seq<byte>, node: nat, part: seq<byte>, i: nat, end: nat)
    requires Coherent(nodes, img) && node < |nodes| && i <= end
    ensures var w := Step(nodes, img, node, part, i, end);
            w.Walk? ==> Coherent(w.nodes, img) && nodes <= w.nodes && -1 <= w.node < |w.nodes|
    decreases end - i
  {
    hide Coherent, ReadDir, CreateNode, LongName;
    if i < end {
      CreateCoherent(nodes, img, ChildAt(img, nodes[node].inode, i));
      StepCoherent(nodes, img, node, part, i + 1, end);
    }
  }

  lemma {:induction false} WalkCoherent(nodes: seq<Node>, img: seq<byte>, node: int, p: seq<byte>, k: nat)
    requires Coherent(nodes, img) && -1 <= node < |nodes|
    ensures var w := WalkFrom(nodes, img, node, p, k);
            w.Walk? ==> Coherent(w.nodes, img) && nodes <= w.nodes && -1 <= w.node < |w.nodes|
    decreases 8 - k
  {
    hide Coherent, Step, PartLength, SkipSlashes;
    if p != [] && k < 8 && node >= 0 {
      var n := PartLength(p, 0);
      var end := Wrap(nodes[node].length + 1);
      StepCoherent(nodes, img, node, p[..n], 0, end);
      var w := Step(nodes, img, node, p[..n], 0, end);
      if w.Walk? {
        WalkCoherent(w.nodes, img, w.node, SkipSlashes(p[n..]), k + 1);
      }
    }
  }

  /** What looking up some paths one after the other makes of the node list. */
  function AfterLookups(w: Walk, img: seq<byte>, paths: seq<seq<byte>>): Walk
    decreases |paths|
  {
    if paths == [] || w.Smashed? then w else AfterLookups(Resolve(w.nodes, img, paths[0]), img, paths[1..])
  }

  lemma ResolveCoherent(nodes: seq<Node>, img: seq<byte>, path: seq<byte>)
    requires Coherent(nodes, img)
    ensures var w := Resolve(nodes, img, path); w.Walk? ==> Coherent(w.nodes, img) && nodes <= w.nodes
  {
    hide Coherent, WalkFrom;
    if nodes != [] && path != [] {
      WalkCoherent(nodes, img, 0, path[1..], 0);
    }
  }

  lemma {:induction false} LookupsCoherent(w: Walk, img: seq<byte>, paths: seq<seq<byte>>)
    requires w.Walk? ==> Coherent(w.nodes, img)
    ensures var r := AfterLookups(w, img, paths);
            r.Walk? ==> w.Walk? && Coherent(r.nodes, img) && w.nodes <= r.nodes
    decreases |paths|
  {
    hide Coherent, Resolve;
    if paths != [] && w.Walk? {
      ResolveCoherent(w.nodes, img, paths[0]);
      LookupsCoherent(Resolve(w.nodes, img, paths[0]), img, paths[1..]);
    }
  }

  /** On any image: after boot and any lookups the cache is coherent, unless a name was written past its buffer. */
  lemma CacheCoherent(img: seq<byte>, paths: seq<seq<byte>>)
    ensures var w := AfterLookups(Init(img), img, paths); w.Walk? ==> Coherent(w.nodes, img)
  {
    CreateCoherent([], img, U32(img, 4));
    LookupsCoherent(Init(img), img, paths);
  }

  // ---- names that do not fit ---------------------------------------------------------------

  /** Child k of the directory at ino has a long name, and no child in front of it stops the search for part. */
  ghost predicate Overruns(img: seq<byte>, ino: u32, part: seq<byte>, k: nat) {
    && HasChild(img, ino, k) && LongName(img, ChildAt(img, ino, k))
    && forall j :: 0 <= j < k ==> NameAt(img, ChildAt(img, ino, j)) != part
  }

  /** The search for a component smashes a buffer exactly when it comes to a child with a long name. */
  lemma {:induction false} StepSmashes(nodes: seq<Node>, img: seq<byte>, node: nat, part: seq<byte>, i: nat, end: nat)
    requires node < |nodes| && i <= end
    requires forall j :: 0 <= j < i ==>
               var c := ChildAt(img, nodes[node].inode, j); !LongName(img, c) && NameAt(img, c) != part
    ensures Step(nodes, img, node, part, i, end).Smashed?
       <==> exists k :: 0 <= k < end && Overruns(img, nodes[node].inode, part, k)
    decreases end - i
  {
    hide NameAt, ChildAt, LongName, FindIno, Magic, Kind, Size;
    var ino := nodes[node].inode;
    if i < end {
      var c := ChildAt(img, ino, i);
      if HasChild(img, ino, i) && LongName(img, c) {
        assert Overruns(img, ino, part, i);
      } else if HasChild(img, ino, i) && NameAt(img, c) != part {
        StepSmashes(nodes, img, node, part, i + 1, end);
      }
    }
  }

  /** No record that the root or a directory could lead to has a long name. */
  ghost predicate ShortNames(img: seq<byte>) {
    && !LongName(img, U32(img, 4))
    && forall ino: u32, k: nat :: HasChild(img, ino, k) ==> !LongName(img, ChildAt(img, ino, k))
  }

  lemma {:induction false} WalkSafe(nodes: seq<Node>, img: seq<byte>, node: int, p: seq<byte>, k: nat)
    requires ShortNames(img) && -1 <= node < |nodes|
    ensures var w := WalkFrom(nodes, img, node, p, k); w.Walk? && -1 <= w.node < |w.nodes|
    decreases 8 - k
  {
    hide Step, PartLength, SkipSlashes, HasChild, LongName, ChildAt, NameAt;
    if p != [] && k < 8 && node >= 0 {
      var n := PartLength(p, 0);
      var end := Wrap(nodes[node].length + 1);
      StepSmashes(nodes, img, node, p[..n], 0, end);
      StepInRange(nodes, img, node, p[..n], 0, end);
      var w := Step(nodes, img, node, p[..n], 0, end);
      WalkSafe(w.nodes, img, w.node, SkipSlashes(p[n..]), k + 1);
    }
  }

  /** On an image with short names no lookup, after whatever others, ever smashes a buffer. */
  lemma {:induction false} ShortNamesSafe(img: seq<byte>, w: Walk, paths: seq<seq<byte>>)
    requires ShortNames(img) && w.Walk?
    ensures Init(img).Walk? && AfterLookups(w, img, paths).Walk?
    decreases |paths|
  {
    hide WalkFrom, LongName, HasChild;
    if paths != [] {
      if w.nodes != [] && paths[0] != [] {
        WalkSafe(w.nodes, img, 0, paths[0][1..], 0);
      }
      ShortNamesSafe(img, Resolve(w.nodes, img, paths[0]), paths[1..]);
    }
  }

  // ---- what a path names -------------------------------------------------------------------

  /** How many bytes stand in front of the first slash. */
  function SlashAt(p: seq<byte>, n: nat): (r: nat)
    requires n <= |p|
    ensures n <= r <= |p| && (r < |p| ==> p[r] == SLASH)
    ensures forall k :: n <= k < r ==> p[k] != SLASH
    decreases |p| - n
  {
    if n < |p| && p[n] != SLASH then SlashAt(p, n + 1) else n
  }

  /** The components of a path behind its first slash; runs of slashes separate like one. */
  function Parts(p: seq<byte>): (parts: seq<Name>)
    ensures p == [] <==> parts == []
    decreases |p|
  {
    if p == [] then []
    else
      var n := SlashAt(p, 0);
      [p[..n]] + Parts(SkipSlashes(p[n..]))
  }

  datatype Target = Root | Dir(j: nat) | FileAt(i: nat)

  predicate Within(t: Tree, x: Target) {
    (x.Dir? ==> x.j < |t.dirs|) && (x.FileAt? ==> x.i < |t.files|)
  }

  function IndexOf(names: seq<Name>, x: Name): (r: nat)
    ensures r <= |names|
    ensures r < |names| ==> names[r] == x
    ensures forall k :: 0 <= k < r ==> names[k] != x
  {
    if names == [] || names[0] == x then 0 else 1 + IndexOf(names[1..], x)
  }

  function IndexOfFile(files: seq<File>, dir: Name, x: Name): (r: nat)
    ensures r <= |files|
    ensures r < |files| ==> files[r].dir == dir && files[r].name == x
    ensures forall k :: 0 <= k < r ==> !(files[k].dir == dir && files[k].name == x)
  {
    if files == [] || (files[0].dir == dir && files[0].name == x) then 0 else 1 + IndexOfFile(files[1..], dir, x)
  }

  /** The reference meaning of a path: the root, a directory under it, or a file in one of those. */
  function Lookup(t: Tree, parts: seq<Name>): (x: Option<Target>)
    ensures x.Some? ==> Within(t, x.value)
  {
    if parts == [] then Some(Root)
    else
      var j := IndexOf(t.dirs, parts[0]);
      if j == |t.dirs| then None
      else if |parts| == 1 then Some(Dir(j))
      else
        var i := IndexOfFile(t.files, t.dirs[j], parts[1]);
        if i == |t.files| || |parts| > 2 then None else Some(FileAt(i))
  }

  function TargetOffset(t: Tree, x: Target): nat
    requires Within(t, x)
  {
    match x
    case Root => RootOffset(t)
    case Dir(j) => DirOffset(t, j)
    case FileAt(i) => FileOffset(t, i)
  }

  // ---- one component ---------------------------------------------------------------------------

  /** If a directory lists n children, the loop finds the first one called part, or fails. */
  lemma {:induction false} StepFinds(nodes: seq<Node>, img: seq<byte>, node: nat, part: seq<byte>,
                                     names: seq<Name>, i: nat)
    requires node < |nodes| && i <= |names|
    requires forall k :: 0 <= k < i ==> names[k] != part
    requires var ino := nodes[node].inode;
             && Magic(img, ino) == FILE_MAGIC && Kind(img, ino) == 2 && Size(img, ino) == |names|
             && forall k :: 0 <= k < |names| ==>
                  var c := ChildAt(img, ino, k); NameAt(img, c) == names[k] && !LongName(img, c)
    ensures var c := IndexOf(names, part);
            Step(nodes, img, node, part, i, |names| + 1)
            == if c == |names| then Walk(nodes, -1) else CreateNode(nodes, img, ChildAt(img, nodes[node].inode, c))
    decreases |names| - i
  {
    hide CreateNode, NameAt, ChildAt, LongName, Magic, Kind, Size, IndexOf;
    IndexIs(names, part, i);
    if i < |names| && names[i] != part {
      StepFinds(nodes, img, node, part, names, i + 1);
    }
  }

  lemma IndexIs(names: seq<Name>, x: Name, i: nat)
    requires i <= |names| && (forall k :: 0 <= k < i ==> names[k] != x)
    ensures i == |names| || names[i] == x ==> IndexOf(names, x) == i
  {
  }

  /** The node at position r is the one that a parse of the target's record gives. */
  ghost predicate Is(t: Tree, nodes: seq<Node>, r: int, x: Target) {
    Within(t, x) && 0 <= r < |nodes| && nodes[r].inode == TargetOffset(t, x)
  }

  lemma RootStep(t: Tree, nodes: seq<Node>, node: nat, part: seq<byte>)
    requires Stored(t) && Coherent(nodes, Image(t)) && Is(t, nodes, node, Root)
    ensures var w := Step(nodes, Image(t), node, part, 0, Wrap(nodes[node].length + 1));
            var j := IndexOf(t.dirs, part);
            w.Walk? && if j == |t.dirs| then w.node == -1 else Is(t, w.nodes, w.node, Dir(j))
  {
    hide Image, RootOffset, DirOffset, CreateNode, NameAt, ChildAt, LongName, Magic, Kind, Size, IndexOf, Step, Parse;
    RootFields(t);
    ParsedInode(Image(t), nodes[node].inode);
    forall j | 0 <= j < |t.dirs|
      ensures var c := ChildAt(Image(t), RootOffset(t), j); NameAt(Image(t), c) == t.dirs[j] && !LongName(Image(t), c)
    {
      DirFields(t, j);
    }
    StepFinds(nodes, Image(t), node, part, t.dirs, 0);
    var j := IndexOf(t.dirs, part);
    if j < |t.dirs| {
      CreateCoherent(nodes, Image(t), ChildAt(Image(t), RootOffset(t), j));
      ParsedInode(Image(t), ChildAt(Image(t), RootOffset(t), j));
    }
  }

  /** The names of the files of directory j, as the image lists them. */
  function ChildNames(t: Tree, dir: Name): (names: seq<Name>)
    ensures |names| == |Children(t.files, dir)|
    ensures forall k :: 0 <= k < |names| ==> names[k] == t.files[Children(t.files, dir)[k]].name
  {
    var ch := Children(t.files, dir);
    seq(|ch|, k requires 0 <= k < |ch| => t.files[ch[k]].name)
  }

  lemma {:induction false} ChildrenAll(files: seq<File>, dir: Name, i: nat)
    requires i < |files| && files[i].dir == dir
    ensures i in Children(files, dir)
  {
    var n := |files| - 1;
    if i < n {
      ChildrenAll(files[..n], dir, i);
    }
  }

  /** Searching a directory's list and searching all files for that directory agree. */
  lemma ChildIndex(t: Tree, dir: Name, x: Name)
    requires Stored(t)
    ensures var c, i := IndexOf(ChildNames(t, dir), x), IndexOfFile(t.files, dir, x);
            && (c == |ChildNames(t, dir)| <==> i == |t.files|)
            && (c < |ChildNames(t, dir)| ==> Children(t.files, dir)[c] == i)
  {
    hide IndexOf, IndexOfFile, Children, RootOffset;
    var c, i := IndexOf(ChildNames(t, dir), x), IndexOfFile(t.files, dir, x);
    if i < |t.files| {
      ChildrenAll(t.files, dir, i);
      var k :| 0 <= k < |Children(t.files, dir)| && Children(t.files, dir)[k] == i;
      assert ChildNames(t, dir)[k] == x;
    }
    if c < |ChildNames(t, dir)| {
      var f := Children(t.files, dir)[c];
      assert t.files[f].dir == dir && t.files[f].name == x;
    }
  }

  lemma DirStep(t: Tree, nodes: seq<Node>, node: nat, j: nat, part: seq<byte>)
    requires Stored(t) && Coherent(nodes, Image(t)) && Is(t, nodes, node, Dir(j))
    ensures var w := Step(nodes, Image(t), node, part, 0, Wrap(nodes[node].length + 1));
            var i := IndexOfFile(t.files, t.dirs[j], part);
            w.Walk? && if i == |t.files| then w.node == -1 else Is(t, w.nodes, w.node, FileAt(i))
  {
    hide Image, RootOffset, DirOffset, FileOffset, CreateNode, NameAt, ChildAt, LongName, Magic, Kind, Size,
         IndexOf, IndexOfFile, Step, Parse, Children, Coherent;
    DirFields(t, j);
    CachedNode(nodes, Image(t), node);
    var ch, names := Children(t.files, t.dirs[j]), ChildNames(t, t.dirs[j]);
    forall k | 0 <= k < |names|
      ensures var c := ChildAt(Image(t), DirOffset(t, j), k); NameAt(Image(t), c) == names[k] && !LongName(Image(t), c)
    {
      FileFields(t, ch[k]);
    }
    StepFinds(nodes, Image(t), node, part, names, 0);
    ChildIndex(t, t.dirs[j], part);
    var off := if IndexOf(names, part) < |names| then ChildAt(Image(t), DirOffset(t, j), IndexOf(names, part)) else 0;
    CreateCoherent(nodes, Image(t), off);
    ParsedInode(Image(t), off);
  }

  /** A file has no children. */
  lemma FileStep(t: Tree, nodes: seq<Node>, node: nat, i: nat, part: seq<byte>)
    requires Stored(t) && Coherent(nodes, Image(t)) && Is(t, nodes, node, FileAt(i))
    ensures Step(nodes, Image(t), node, part, 0, Wrap(nodes[node].length + 1)) == Walk(nodes, -1)
  {
    hide Image, FileOffset, NameAt, Magic, Kind, Size, Parse, CreateNode;
    FileFields(t, i);
    ParsedInode(Image(t), nodes[node].inode);
  }

  // ---- the whole walk -----------------------------------------------------------------------

  /** The component buffer holds 127 bytes. */
  lemma {:induction false} PartLengthIs(p: seq<byte>, n: nat)
    requires n <= |p| && n <= NODE_NAME_SIZE
    ensures PartLength(p, n) == if SlashAt(p, n) < NODE_NAME_SIZE then SlashAt(p, n) else NODE_NAME_SIZE
    decreases |p| - n
  {
    if n < |p| && p[n] != SLASH && n < NODE_NAME_SIZE {
      PartLengthIs(p, n + 1);
    }
  }

  /** The walk over one component, and what is left of the path. */
  lemma WalkOnce(nodes: seq<Node>, img: seq<byte>, node: nat, p: seq<byte>, k: nat)
    requires node < |nodes| && p != [] && k < 8
    ensures var parts := Parts(p);
            var w := Step(nodes, img, node, parts[0], 0, Wrap(nodes[node].length + 1));
            && (w.Walk? ==> -1 <= w.node < |w.nodes|)
            && WalkFrom(nodes, img, node, p, k)
               == (if |parts[0]| >= NODE_NAME_SIZE then Walk(nodes, -1)
                   else if w.Smashed? then Smashed
                   else WalkFrom(w.nodes, img, w.node, SkipSlashes(p[SlashAt(p, 0)..]), k + 1))
            && parts[1..] == Parts(SkipSlashes(p[SlashAt(p, 0)..]))
  {
    hide Step, SlashAt, SkipSlashes, PartLength;
    PartLengthIs(p, 0);
    StepInRange(nodes, img, node, Parts(p)[0], 0, Wrap(nodes[node].length + 1));
  }

  /** From a file nothing further is reached. */
  lemma AtFile(t: Tree, nodes: seq<Node>, node: nat, i: nat, p: seq<byte>, k: nat)
    requires Stored(t) && Coherent(nodes, Image(t)) && Is(t, nodes, node, FileAt(i)) && k < 8
    ensures WalkFrom(nodes, Image(t), node, p, k) == Walk(nodes, if p == [] then node else -1)
  {
    hide Image, Stored, Coherent, Step, Parts, SlashAt, SkipSlashes, PartLength, FileOffset;
    if p != [] {
      WalkOnce(nodes, Image(t), node, p, k);
      FileStep(t, nodes, node, i, Parts(p)[0]);
    }
  }

  lemma AtDir(t: Tree, nodes: seq<Node>, node: nat, j: nat, p: seq<byte>, k: nat)
    requires Stored(t) && Coherent(nodes, Image(t)) && Is(t, nodes, node, Dir(j)) && k < 7 && p != []
    ensures var w, i := WalkFrom(nodes, Image(t), node, p, k), IndexOfFile(t.files, t.dirs[j], Parts(p)[0]);
            w.Walk? && if i == |t.files| || |Parts(p)| > 1 then w.node == -1 else Is(t, w.nodes, w.node, FileAt(i))
  {
    hide Image, Stored, Coherent, Step, Parts, SlashAt, SkipSlashes, PartLength, FileOffset, DirOffset, IndexOfFile;
    var part, rest := Parts(p)[0], SkipSlashes(p[SlashAt(p, 0)..]);
    WalkOnce(nodes, Image(t), node, p, k);
    DirStep(t, nodes, node, j, part);
    StepCoherent(nodes, Image(t), node, part, 0, Wrap(nodes[node].length + 1));
    var w := Step(nodes, Image(t), node, part, 0, Wrap(nodes[node].length + 1));
    var i := IndexOfFile(t.files, t.dirs[j], part);
    if i < |t.files| {
      StoredName(t, i, 0);
      AtFile(t, w.nodes, w.node, i, rest, k + 1);
    }
  }

  lemma StoredName(t: Tree, i: nat, j: nat)
    requires Stored(t)
    ensures i < |t.files| ==> |t.files[i].name| < NODE_NAME_SIZE
    ensures j < |t.dirs| ==> |t.dirs[j]| < NODE_NAME_SIZE
  {
  }

  lemma AtRoot(t: Tree, nodes: seq<Node>, p: seq<byte>)
    requires Stored(t) && Coherent(nodes, Image(t)) && Is(t, nodes, 0, Root)
    ensures var w, x := WalkFrom(nodes, Image(t), 0, p, 0), Lookup(t, Parts(p));
            w.Walk? && if x == None then w.node == -1 else Is(t, w.nodes, w.node, x.value)
  {
    hide Image, Stored, Coherent, Step, Parts, SlashAt, SkipSlashes, PartLength, FileOffset, DirOffset, RootOffset,
         IndexOf, IndexOfFile;
    if p != [] {
      var part, rest := Parts(p)[0], SkipSlashes(p[SlashAt(p, 0)..]);
      WalkOnce(nodes, Image(t), 0, p, 0);
      RootStep(t, nodes, 0, part);
      StepCoherent(nodes, Image(t), 0, part, 0, Wrap(nodes[0].length + 1));
      var w, j := Step(nodes, Image(t), 0, part, 0, Wrap(nodes[0].length + 1)), IndexOf(t.dirs, part);
      if j < |t.dirs| {
        StoredName(t, |t.files|, j);
        if rest != [] {
          AtDir(t, w.nodes, w.node, j, rest, 1);
        }
      }
    }
  }

  /** The node that stands for a target: its name, type and length in the tree, and its offset. */
  function NodeOf(t: Tree, x: Target): Node
    requires Stored(t) && Within(t, x)
  {
    RootFields(t);
    match x
    case Root => Node([SLASH], NODE_DIRECTORY, |t.dirs|, RootOffset(t))
    case Dir(j) => DirFields(t, j); Node(t.dirs[j], NODE_DIRECTORY, |Children(t.files, t.dirs[j])|, DirOffset(t, j))
    case FileAt(i) => FileFields(t, i); Node(t.files[i].name, NODE_FILE, |t.files[i].data|, FileOffset(t, i))
  }

  lemma ParseIs(t: Tree, x: Target)
    requires Stored(t) && Within(t, x)
    ensures TargetOffset(t, x) < TWO32 && Parse(Image(t), TargetOffset(t, x)) == NodeOf(t, x)
  {
    hide Image, Buildable, Children, NameAt, Kind, Size, Magic, RootOffset, DirOffset, FileOffset;
    match x
    case Root => RootFields(t);
    case Dir(j) => DirFields(t, j);
    case FileAt(i) => FileFields(t, i);
  }

  lemma RootFirst(t: Tree)
    requires Stored(t)
    ensures var w := Init(Image(t)); w.Walk? && Coherent(w.nodes, Image(t)) && Is(t, w.nodes, 0, Root)
  {
    hide Image, Buildable, RootOffset, NameAt, LongName, Magic, Kind, Size;
    RootFields(t);
  }

  lemma ResolveStored(t: Tree, nodes: seq<Node>, path: seq<byte>)
    requires Stored(t) && Coherent(nodes, Image(t)) && Is(t, nodes, 0, Root)
    ensures var w := Resolve(nodes, Image(t), path);
            w.Walk? && Coherent(w.nodes, Image(t)) && Is(t, w.nodes, 0, Root)
  {
    hide Image, Stored, Coherent, WalkFrom, Parts, RootOffset;
    ResolveCoherent(nodes, Image(t), path);
    if path != [] {
      AtRoot(t, nodes, path[1..]);
    }
  }

  /** No sequence of lookups on a written image ever smashes a name buffer or loses the root. */
  lemma {:induction false} LookupsStored(t: Tree, w: Walk, paths: seq<seq<byte>>)
    requires Stored(t) && w.Walk? && Coherent(w.nodes, Image(t)) && Is(t, w.nodes, 0, Root)
    ensures var r := AfterLookups(w, Image(t), paths);
            r.Walk? && Coherent(r.nodes, Image(t)) && Is(t, r.nodes, 0, Root)
    decreases |paths|
  {
    hide Image, Stored, Coherent, Resolve, Is;
    if paths != [] {
      ResolveStored(t, w.nodes, paths[0]);
      LookupsStored(t, Resolve(w.nodes, Image(t), paths[0]), paths[1..]);
    }
  }

  /** A lookup after boot and some other lookups. */
  function LookupAfter(img: seq<byte>, before: seq<seq<byte>>, path: seq<byte>): Walk {
    var w := AfterLookups(Init(img), img, before);
    if w.Smashed? then Smashed else Resolve(w.nodes, img, path)
  }

  /** On every image a path that does not begin with a slash gives NULL and leaves the node list as it was. */
  lemma RelativeIsNull(nodes: seq<Node>, img: seq<byte>, path: seq<byte>)
    requires path == [] || path[0] != '/' as int
    ensures Resolve(nodes, img, path) == Walk(nodes, -1)
  {
  }

  /** What a path names in the tree: nothing, if it does not begin with a slash. */
  function Named(t: Tree, path: seq<byte>): (x: Option<Target>)
    ensures x.Some? ==> Within(t, x.value)
  {
    if path == [] || path[0] != '/' as int then None else Lookup(t, Parts(path[1..]))
  }

  /** Round trip: whatever was looked up before, any path gives the node of what it names in the tree, or NULL. */
  lemma RoundTrip(t: Tree, before: seq<seq<byte>>, path: seq<byte>)
    requires Stored(t)
    ensures var w, x := LookupAfter(Image(t), before, path), Named(t, path);
            && w.Walk?
            && if x == None then w.node == -1 else 0 <= w.node < |w.nodes| && w.nodes[w.node] == NodeOf(t, x.value)
  {
    hide Image, Stored, Coherent, WalkFrom, AfterLookups, Init, Parts, NodeOf, TargetOffset, Lookup, Parse;
    RootFirst(t);
    LookupsStored(t, Init(Image(t)), before);
    var nodes := AfterLookups(Init(Image(t)), Image(t), before).nodes;
    if path == [] || path[0] != '/' as int {
      RelativeIsNull(nodes, Image(t), path);
    } else {
      AtRoot(t, nodes, path[1..]);
      WalkCoherent(nodes, Image(t), 0, path[1..], 0);
      var w, x := Resolve(nodes, Image(t), path), Named(t, path);
      if x != None {
        CachedNode(w.nodes, Image(t), w.node);
        ParseIs(t, x.value);
      }
    }
  }

  /** A directory whose name has 128 bytes or more, written first: every lookup below the root smashes a buffer. */
  lemma LongNameSmashes(t: Tree, path: seq<byte>)
    requires Buildable(t) && |t.dirs[0]| >= 128
    requires |path| > 1 && path[0] == SLASH && |Parts(path[1..])[0]| < 128
    ensures LookupAfter(Image(t), [], path).Smashed?
  {
    hide Image, RootOffset, DirOffset, Parts, Step, LongName, NameAt, ChildAt, Magic, Kind, Size;
    RootFields(t);
    DirFields(t, 0);
    var img, nodes, p := Image(t), [Parse(Image(t), RootOffset(t))], path[1..];
    assert Init(img) == Walk(nodes, 0);
    StepSmashes(nodes, img, 0, Parts(p)[0], 0, Wrap(nodes[0].length + 1));
    assert Overruns(img, RootOffset(t), Parts(p)[0], 0);
    WalkOnce(nodes, img, 0, p, 0);
  }

  // ---- every file comes back -------------------------------------------------------------------

  /** The bytes of a file that a read at offset should give. */
  function Slice(data: seq<byte>, offset: nat, size: nat): seq<byte> {
    if offset >= |data| then [] else if offset + size < |data| then data[offset..offset + size] else data[offset..]
  }

  lemma PayloadBytes(t: Tree, i: nat)
    requires Stored(t) && i < |t.files|
    ensures FileOffset(t, i) < TWO32 && Size(Image(t), FileOffset(t, i)) == |t.files[i].data|
    ensures forall k :: 0 <= k < |t.files[i].data| ==>
              At(Image(t), PayloadAt(Image(t), FileOffset(t, i)) + k) == t.files[i].data[k]
  {
    hide Image, RootOffset, OffsetOf, Magic, Kind, Size, NameAt, NameSize, InitrdBuild.Bytes, HasRecord, FileOffset;
    FileFields(t, i);
    assert GoodName(t.files[i].name);
    var data, off := t.files[i].data, FileOffset(t, i);
    Fields(Image(t), off, FileRecord(t.files[i]));
    var at := off + 13 + |t.files[i].name|;
    forall k: nat | k < |data| ensures Image(t)[at + k] == data[k] {
      assert Image(t)[at..at + |data|][k] == data[k];
    }
  }

  lemma SizeBound(t: Tree, i: nat)
    requires Stored(t) && i < |t.files|
    ensures |t.files[i].data| < TWO32
  {
    FileFields(t, i);
  }

  /** A read gives exactly the slice, unless the end test wraps around. */
  lemma ReadExactly(t: Tree, i: nat, offset: u32, size: u32)
    requires Stored(t) && i < |t.files|
    ensures var data := t.files[i].data;
            FileOffset(t, i) < TWO32
            && (Read(Image(t), FileOffset(t, i), offset, size) == Slice(data, offset, size)
                <==> offset >= |data| || offset + size < TWO32)
  {
    hide Image, Stored, Size, FileOffset, PayloadAt, At;
    PayloadBytes(t, i);
    SizeBound(t, i);
    var data, got := t.files[i].data, Read(Image(t), FileOffset(t, i), offset, size);
    if offset < |data| {
      if offset + size < TWO32 {
        assert got == Slice(data, offset, size);
      } else {
        assert |got| == size > |data| - offset;
      }
    }
  }

  /** When the end test wraps, all the bytes asked for are copied: the rest of the file, and what lies behind it. */
  lemma ReadOverruns(t: Tree, i: nat, offset: u32, size: u32)
    requires Stored(t) && i < |t.files| && offset < |t.files[i].data| && offset + size >= TWO32
    ensures var data := t.files[i].data;
            && FileOffset(t, i) < TWO32
            && var got := Read(Image(t), FileOffset(t, i), offset, size);
               |got| == size > |data| - offset && got[..|data| - offset] == data[offset..]
  {
    hide Image, Stored, Size, FileOffset, PayloadAt, At;
    PayloadBytes(t, i);
    SizeBound(t, i);
  }

  /** The name of a file in a directory, split up again. */
  lemma PathParts(d: Name, f: Name)
    requires GoodName(d) && GoodName(f)
    ensures Parts(d + [SLASH] + f) == [d, f]
  {
    hide SlashAt;
    var p := d + [SLASH] + f;
    assert p[|d|] == SLASH && p[..|d|] == d;
    assert forall k :: 0 <= k < |d| ==> p[k] == d[k];
    assert SlashAt(p, 0) == |d|;
    assert p[|d|..][0] == SLASH && p[|d|..][1..] == f;
    assert SkipSlashes(p[|d|..]) == SkipSlashes(f) == f;
    assert SlashAt(f, 0) == |f| && f[..|f|] == f && f[|f|..] == [];
  }

  /** Every file under a stored directory is found by its path and read back whole. */
  lemma FileComesBack(t: Tree, before: seq<seq<byte>>, i: nat)
    requires Stored(t) && i < |t.files| && t.files[i].dir in t.dirs
    ensures var f := t.files[i];
            var w := LookupAfter(Image(t), before, [SLASH] + f.dir + [SLASH] + f.name);
            && w.Walk? && 0 <= w.node < |w.nodes|
            && w.nodes[w.node] == NodeOf(t, FileAt(i))
            && Read(Image(t), w.nodes[w.node].inode, 0, w.nodes[w.node].length) == f.data
  {
    hide Image, RootOffset, FileOffset, LookupAfter, IndexOf, IndexOfFile, Read, Parts;
    var f := t.files[i];
    var path := [SLASH] + f.dir + [SLASH] + f.name;
    assert path[1..] == f.dir + [SLASH] + f.name;
    PathParts(f.dir, f.name);
    assert Lookup(t, [f.dir, f.name]) == Some(FileAt(i));
    RoundTrip(t, before, path);
    FileFields(t, i);
    ReadExactly(t, i, 0, |f.data|);
  }
}
