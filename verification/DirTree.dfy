/**
 The directories of the ECMA-119 tree, as they get visited by the layout pass and by the write pass
 (libisofs/ecma119.c).
 */
module DirTree {
  import opened Common
  import opened IsoBytes

  import R = DirRecords

  /** The lengths of the SUSP fields of a directory: in its records "." and "..", and in its record in
      the parent directory */
  datatype DirSusp = DirSusp(dot: nat, dotdot: nat, child: nat)

  /** Identities stand for the addresses of nodes. The nodes tell what is known before any address is. */
  datatype Node = Dir(id: nat, name: Bytes, children: seq<Node>, susp: DirSusp) | Leaf(id: nat, shape: R.Shape)

  /** What the size of the parent directory depends on */
  function ShapeOf(node: Node): R.Shape {
    match node
    case Dir(_, name, _, susp) => R.Shape(name, R.Directory, [susp.child])
    case Leaf(_, shape) => shape
  }

  function Shapes(nodes: seq<Node>): (r: seq<R.Shape>)
    ensures |r| == |nodes| && forall i :: 0 <= i < |r| ==> r[i] == ShapeOf(nodes[i])
  {
    seq(|nodes|, i requires 0 <= i < |nodes| => ShapeOf(nodes[i]))
  }

  /** The size of a directory as it can be told from the tree alone */
  function DirBytes(o: R.Opts, node: Node): nat
    requires node.Dir?
  {
    R.DirLen(o, node.susp.dot, node.susp.dotdot, Shapes(node.children))
  }

  /** The children of type ECMA119_DIR */
  function Subdirs(nodes: seq<Node>): (r: seq<Node>)
    ensures forall i :: 0 <= i < |r| ==> r[i].Dir? && r[i] in nodes
  {
    if nodes == [] then [] else (if nodes[0].Dir? then [nodes[0]] else []) + Subdirs(nodes[1..])
  }

  lemma {:induction false} SubdirsConcat(a: seq<Node>, b: seq<Node>)
    ensures Subdirs(a + b) == Subdirs(a) + Subdirs(b)
  {
    if a == [] {
      assert a + b == b;
    } else {
      var first := if a[0].Dir? then [a[0]] else [];
      assert (a + b)[1..] == a[1..] + b;
      SubdirsConcat(a[1..], b);
      Associate(first, Subdirs(a[1..]), Subdirs(b));
    }
  }

  /** The next child, as seen by the loops over children */
  lemma SubdirsNext(nodes: seq<Node>, j: nat)
    requires j < |nodes|
    ensures Subdirs(nodes[..j + 1]) == Subdirs(nodes[..j]) + (if nodes[j].Dir? then [nodes[j]] else [])
  {
    SubdirsConcat(nodes[..j], [nodes[j]]);
    assert nodes[..j + 1] == nodes[..j] + [nodes[j]];
    assert Subdirs([nodes[j]]) == (if nodes[j].Dir? then [nodes[j]] else []) + Subdirs([nodes[j]][1..]);
  }

  predicate AllDirs(nodes: seq<Node>) {
    forall i :: 0 <= i < |nodes| ==> nodes[i].Dir?
  }

  // ---------------------------------------------------------------- Sums over the tree

  /** The number of directories in a tree */
  function CountDirs(node: Node): (n: nat)
    ensures n > 0 <==> node.Dir?
  {
    match node
    case Leaf(_, _) => 0
    case Dir(_, _, children, _) => 1 + CountAll(children)
  }

  function CountAll(nodes: seq<Node>): nat {
    if nodes == [] then 0 else CountDirs(nodes[0]) + CountAll(nodes[1..])
  }

  /** The size of the path table record of a directory. The root has no name. */
  function RecordSize(node: Node, isRoot: bool): nat
    requires node.Dir?
  {
    var len := if isRoot then 1 else |node.name|;
    8 + len + len % 2
  }

  /** calc_path_table_size() */
  function TableSize(node: Node, isRoot: bool): nat {
    match node
    case Leaf(_, _) => 0
    case Dir(_, _, children, _) => RecordSize(node, isRoot) + TableSizeAll(children)
  }

  function TableSizeAll(nodes: seq<Node>): nat {
    if nodes == [] then 0 else TableSize(nodes[0], false) + TableSizeAll(nodes[1..])
  }

  lemma {:induction false} CountAllConcat(a: seq<Node>, b: seq<Node>)
    ensures CountAll(a + b) == CountAll(a) + CountAll(b)
    ensures TableSizeAll(a + b) == TableSizeAll(a) + TableSizeAll(b)
  {
    if a == [] {
      assert a + b == b;
    } else {
      assert (a + b)[1..] == a[1..] + b;
      CountAllConcat(a[1..], b);
    }
  }

  /** Leaves contribute nothing. */
  lemma {:induction false} CountOfSubdirs(nodes: seq<Node>)
    ensures CountAll(Subdirs(nodes)) == CountAll(nodes) >= |Subdirs(nodes)|
    ensures TableSizeAll(Subdirs(nodes)) == TableSizeAll(nodes)
  {
    if nodes != [] {
      var first := if nodes[0].Dir? then [nodes[0]] else [];
      CountOfSubdirs(nodes[1..]);
      CountAllConcat(first, Subdirs(nodes[1..]));
      assert first != [] ==> first[1..] == [] && CountAll(first) == CountDirs(nodes[0]);
      assert first != [] ==> TableSizeAll(first) == TableSize(nodes[0], false);
    }
  }

  lemma {:induction false} CountAtLeast(nodes: seq<Node>)
    requires AllDirs(nodes)
    ensures CountAll(nodes) >= |nodes|
  {
    if nodes != [] {
      CountAtLeast(nodes[1..]);
    }
  }

  // ---------------------------------------------------------------- All directories of a tree

  /** The directories in the order of recursive visits */
  function DirsOf(node: Node): (r: seq<Node>)
    ensures AllDirs(r)
  {
    match node
    case Leaf(_, _) => []
    case Dir(_, _, children, _) => [node] + DirsOfAll(children)
  }

  function DirsOfAll(nodes: seq<Node>): (r: seq<Node>)
    ensures AllDirs(r)
  {
    if nodes == [] then [] else DirsOf(nodes[0]) + DirsOfAll(nodes[1..])
  }

  lemma {:induction false} DirsOfConcat(a: seq<Node>, b: seq<Node>)
    ensures DirsOfAll(a + b) == DirsOfAll(a) + DirsOfAll(b)
  {
    if a == [] {
      assert a + b == b;
    } else {
      assert (a + b)[1..] == a[1..] + b;
      DirsOfConcat(a[1..], b);
    }
  }

  lemma {:induction false} DirsOfSubdirs(nodes: seq<Node>)
    ensures DirsOfAll(Subdirs(nodes)) == DirsOfAll(nodes)
  {
    if nodes != [] {
      var first := if nodes[0].Dir? then [nodes[0]] else [];
      DirsOfSubdirs(nodes[1..]);
      DirsOfConcat(first, Subdirs(nodes[1..]));
      assert first != [] ==> first[1..] == [];
    }
  }

  predicate DistinctIds(list: seq<Node>) {
    forall i, j :: 0 <= i < j < |list| ==> list[i].id != list[j].id
  }

  lemma CountSplit<T>(s: seq<T>, i: nat, x: T)
    requires i < |s|
    ensures multiset(s)[x] == multiset(s[..i])[x] + (if s[i] == x then 1 else 0) + multiset(s[i + 1..])[x]
  {
    assert s == s[..i] + [s[i]] + s[i + 1..];
  }

  lemma TwiceCounts<T>(s: seq<T>, i: nat, j: nat)
    requires i < j < |s| && s[i] == s[j]
    ensures multiset(s)[s[i]] >= 2
  {
    CountSplit(s, i, s[i]);
    assert s[i + 1..][j - i - 1] == s[i];
  }

  lemma CountsTwice<T>(s: seq<T>, x: T) returns (i: nat, j: nat)
    requires multiset(s)[x] >= 2
    ensures i != j && i < |s| && j < |s| && s[i] == s[j] == x
  {
    assert x in s;
    i :| 0 <= i < |s| && s[i] == x;
    CountSplit(s, i, x);
    if x in s[..i] {
      j :| 0 <= j < i && s[..i][j] == x;
    } else {
      assert x in s[i + 1..];
      var k :| 0 <= k < |s| - i - 1 && s[i + 1..][k] == x;
      j := i + 1 + k;
    }
  }

  /** A rearrangement keeps the identities distinct. */
  lemma DistinctRearranged(a: seq<Node>, b: seq<Node>)
    requires DistinctIds(a) && multiset(a) == multiset(b)
    ensures DistinctIds(b)
  {
    forall i, j | 0 <= i < j < |b| ensures b[i].id != b[j].id {
      assert b[i] in multiset(b) && b[j] in multiset(b);
      assert b[i] in a && b[j] in a;
      if b[i].id == b[j].id {
        assert b[i] == b[j];
        TwiceCounts(b, i, j);
        var k, l := CountsTwice(a, b[i]);
      }
    }
  }
}
