/** The path walk on any image at all: eight components, one after the other, and everything that ends in NULL. */
module InitrdWalk {
  import opened Machine
  import opened InitrdBuild
  import opened InitrdRead
  import opened InitrdRoundTrip

  // ---- one component -----------------------------------------------------------------------

  /** The record at ino is a directory, by its magic number and type. */
  predicate IsDirectory(img: seq<byte>, ino: u32) {
    U32(img, ino) == 0xAABB_CCDD && At(img, ino + 12) == 2
  }

  /** Child k carries the name part, or a name that does not fit. */
  predicate Stops(img: seq<byte>, ino: u32, part: seq<byte>, k: nat) {
    LongName(img, ChildAt(img, ino, k)) || NameAt(img, ChildAt(img, ino, k)) == part
  }

  /** The first child of a directory that stops the search, as an offset among n of them. */
  function FirstStop(img: seq<byte>, ino: u32, part: seq<byte>, i: nat, n: nat): (k: nat)
    requires i <= n
    ensures i <= k <= n && (k < n ==> Stops(img, ino, part, k))
    ensures forall j :: i <= j < k ==> !Stops(img, ino, part, j)
    decreases n - i
  {
    if i == n || Stops(img, ino, part, i) then i else FirstStop(img, ino, part, i + 1, n)
  }

  /**
   The reference for one component: NULL when the node is no directory or no child stops the search,
   else what the first such child gives. A directory with 2^32 - 1 children is its own child by any
   name, because the loop's end wraps to 0.
   */
  function Component(nodes: seq<Node>, img: seq<byte>, node: nat, part: seq<byte>): Walk
    requires node < |nodes|
  {
    var ino := nodes[node].inode;
    if nodes[node].length == 0xFFFF_FFFF then Walk(nodes, node)
    else if !IsDirectory(img, ino) then Walk(nodes, -1)
    else
      var n := U32(img, ino + 4);
      var k := FirstStop(img, ino, part, 0, n);
      if k == n then Walk(nodes, -1)
      else if LongName(img, ChildAt(img, ino, k)) then Smashed
      else CreateNode(nodes, img, ChildAt(img, ino, k))
  }

  lemma {:induction false} StepFrom(nodes: seq<Node>, img: seq<byte>, node: nat, part: seq<byte>, i: nat)
    requires node < |nodes| && i <= Size(img, nodes[node].inode)
    requires Magic(img, nodes[node].inode) == FILE_MAGIC && Kind(img, nodes[node].inode) == 2
    ensures var ino := nodes[node].inode;
            var n := Size(img, ino);
            var k := FirstStop(img, ino, part, i, n);
            Step(nodes, img, node, part, i, n + 1)
            == if k == n then Walk(nodes, -1)
               else if LongName(img, ChildAt(img, ino, k)) then Smashed
               else CreateNode(nodes, img, ChildAt(img, ino, k))
    decreases Size(img, nodes[node].inode) - i
  {
    hide CreateNode, NameAt, ChildAt, LongName, Magic, Kind, Size;
    if i < Size(img, nodes[node].inode) && !Stops(img, nodes[node].inode, part, i) {
      StepFrom(nodes, img, node, part, i + 1);
    }
  }

  /** The loop over directory entries does exactly this, on every image. */
  lemma ComponentExactly(nodes: seq<Node>, img: seq<byte>, node: nat, part: seq<byte>)
    requires Coherent(nodes, img) && node < |nodes|
    ensures Step(nodes, img, node, part, 0, Wrap(nodes[node].length + 1)) == Component(nodes, img, node, part)
  {
    hide CreateNode, NameAt, ChildAt, LongName, FirstStop, Parse, Coherent, U32, At;
    CachedNode(nodes, img, node);
    WrapIsRemainder(nodes[node].length + 1);
    if nodes[node].length != 0xFFFF_FFFF && IsDirectory(img, nodes[node].inode) {
      StepFrom(nodes, img, node, part, 0);
    }
  }

  // ---- the whole walk ------------------------------------------------------------------------

  /** The reference for a walk: one component after the other; one of 128 bytes or more names nothing. */
  function Follow(nodes: seq<Node>, img: seq<byte>, node: int, parts: seq<Name>): Walk
    decreases |parts|
  {
    if parts == [] || !(0 <= node < |nodes|) then Walk(nodes, node)
    else if |parts[0]| >= 128 then Walk(nodes, -1)
    else
      match Component(nodes, img, node, parts[0])
      case Smashed => Smashed
      case Walk(after, next) => Follow(after, img, next, parts[1..])
  }

  function First(parts: seq<Name>, n: nat): seq<Name> {
    if |parts| <= n then parts else parts[..n]
  }

  lemma {:induction false} WalkFollows(nodes: seq<Node>, img: seq<byte>, node: int, p: seq<byte>, k: nat)
    requires Coherent(nodes, img) && -1 <= node < |nodes| && k <= 8
    ensures WalkFrom(nodes, img, node, p, k) == Follow(nodes, img, node, First(Parts(p), 8 - k))
    decreases 8 - k
  {
    hide Coherent, Step, Component, Parts, SlashAt, SkipSlashes, PartLength;
    var parts := Parts(p);
    if p != [] && k < 8 && node >= 0 {
      WalkOnce(nodes, img, node, p, k);
      ComponentExactly(nodes, img, node, parts[0]);
      StepCoherent(nodes, img, node, parts[0], 0, Wrap(nodes[node].length + 1));
      var w := Component(nodes, img, node, parts[0]);
      FirstRest(parts, 8 - k);
      if w.Walk? {
        WalkFollows(w.nodes, img, w.node, SkipSlashes(p[SlashAt(p, 0)..]), k + 1);
      }
    }
  }

  lemma FirstRest(parts: seq<Name>, n: nat)
    requires parts != [] && n > 0
    ensures First(parts, n) != [] && First(parts, n)[0] == parts[0]
    ensures First(parts, n)[1..] == First(parts[1..], n - 1)
  {
  }

  /**
   resolve_path on every image: NULL for a path without a leading slash or an empty node list, else
   the walk along the first eight components; whatever comes behind the eighth is ignored.
   */
  lemma ResolveFollows(nodes: seq<Node>, img: seq<byte>, path: seq<byte>)
    requires Coherent(nodes, img)
    ensures Resolve(nodes, img, path)
         == if path == [] || path[0] != '/' as int || nodes == [] then Walk(nodes, -1)
            else Follow(nodes, img, 0, First(Parts(path[1..]), 8))
  {
    hide Coherent, WalkFrom, Follow, Parts;
    if path != [] && nodes != [] {
      WalkFollows(nodes, img, 0, path[1..], 0);
    }
  }

  // ---- images without a root -------------------------------------------------------------------

  /** The head of the image, or the record it leads to, is not what the reader looks for. */
  predicate NoRoot(img: seq<byte>) {
    var off := U32(img, 4);
    U32(img, 0) != 0xABCD_ABCD || U32(img, off) != 0xAABB_CCDD || At(img, off + 12) == 1
  }

  lemma {:induction false} EmptyStays(img: seq<byte>, paths: seq<seq<byte>>)
    ensures exists r :: AfterLookups(Walk([], -1), img, paths) == Walk([], r)
    decreases |paths|
  {
    if paths != [] {
      assert Resolve([], img, paths[0]) == Walk([], -1);
      EmptyStays(img, paths[1..]);
    }
  }

  /** Without a root every lookup gives NULL, after any others; with one, the root is the first node. */
  lemma RootExactly(img: seq<byte>, before: seq<seq<byte>>, path: seq<byte>)
    ensures NoRoot(img) ==> LookupAfter(img, before, path) == Walk([], -1)
    ensures !NoRoot(img) ==>
              Init(img) == if NameSize(img, U32(img, 4)) > 127 then Smashed else Walk([Parse(img, U32(img, 4))], 0)
  {
    hide U32, At, Parse;
    if NoRoot(img) {
      EmptyStays(img, before);
    }
  }
}
