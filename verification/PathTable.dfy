/**
 The path tables: the list of directories level by level, the search for parent numbers, and the table
 records (libisofs/ecma119.c; section 6.9.1 of ECMA-119).
 */
module PathTable {
  import opened IsoBytes
  import opened DirTree

  // ---------------------------------------------------------------- The list of directories

  /** The index where the directories in the directory number p of the list begin */
  function FirstChild(list: seq<Node>, p: nat): nat
    requires p <= |list|
  {
    if p == 0 then 1 else FirstChild(list, p - 1) + |SubdirsAt(list, p - 1)|
  }

  function SubdirsAt(list: seq<Node>, p: nat): seq<Node>
    requires p < |list|
  {
    if list[p].Dir? then Subdirs(list[p].children) else []
  }

  /** The directories in directory p of the list follow in their order, where they belong. */
  ghost predicate ChildrenInPlace(list: seq<Node>, p: nat)
    requires p < |list|
  {
    && p < FirstChild(list, p)
    && FirstChild(list, p + 1) <= |list|
    && list[FirstChild(list, p)..FirstChild(list, p + 1)] == SubdirsAt(list, p)
  }

  /** A complete list: the root, followed for each of its elements by the directories in it. */
  ghost predicate IsPathList(root: Node, list: seq<Node>) {
    && list != [] && list[0] == root && AllDirs(list)
    && FirstChild(list, |list|) == |list|
    && forall p :: 0 <= p < |list| ==> ChildrenInPlace(list, p)
  }

  lemma SameSubdirs(list: seq<Node>, more: seq<Node>, p: nat)
    requires p < |list|
    ensures SubdirsAt(list + more, p) == SubdirsAt(list, p)
  {
    hide Subdirs;
    assert (list + more)[p] == list[p];
  }

  lemma {:induction false} FirstChildKept(list: seq<Node>, more: seq<Node>, p: nat)
    requires p <= |list|
    ensures FirstChild(list + more, p) == FirstChild(list, p)
  {
    hide SubdirsAt;
    if p > 0 {
      FirstChildKept(list, more, p - 1);
      SameSubdirs(list, more, p - 1);
    }
  }

  lemma PlaceKept(list: seq<Node>, more: seq<Node>, p: nat)
    requires p < |list| && ChildrenInPlace(list, p)
    ensures ChildrenInPlace(list + more, p)
  {
    FirstChildKept(list, more, p);
    FirstChildKept(list, more, p + 1);
    hide Subdirs, FirstChild;
    assert (list + more)[p] == list[p];
  }

  /** The first i elements were expanded, the others up to cur wait for it. */
  ghost predicate Expanded(root: Node, list: seq<Node>, i: nat) {
    && i <= |list| && list != [] && list[0] == root && AllDirs(list)
    && FirstChild(list, i) == |list|
    && (forall p :: 0 <= p < i ==> ChildrenInPlace(list, p))
    && i + CountAll(list[i..]) == CountDirs(root)
    && ListSize(list, i) + TableSizeFrom(list, i) == TableSize(root, true)
    && CoversTree(root, list, i)
  }

  /** The list so far, and all that is below of what waits for being expanded, make up the tree. */
  ghost predicate CoversTree(root: Node, list: seq<Node>, i: nat)
    requires i <= |list|
  {
    multiset(list[..i]) + multiset(DirsOfAll(list[i..])) == multiset(DirsOf(root))
  }

  /** The size of the first n records of the table */
  function ListSize(list: seq<Node>, n: nat): nat
    requires n <= |list| && AllDirs(list)
  {
    if n == 0 then 0 else ListSize(list, n - 1) + RecordSize(list[n - 1], n == 1)
  }

  /** The table size of the trees that wait for being expanded */
  function TableSizeFrom(list: seq<Node>, i: nat): nat
    requires i <= |list| && list != []
  {
    if i == 0 then TableSize(list[0], true) + TableSizeAll(list[1..]) else TableSizeAll(list[i..])
  }

  lemma StartExpanding(root: Node)
    requires root.Dir?
    ensures Expanded(root, [root], 0)
  {
    assert [root][0..] == [root] && [root][1..] == [];
    assert CountAll([root]) == CountDirs(root) + CountAll([]);
    assert DirsOfAll([root]) == DirsOf(root) + DirsOfAll([root][1..]);
  }

  lemma {:induction false} ListSizeOfPrefix(list: seq<Node>, more: seq<Node>, n: nat)
    requires n <= |list| && AllDirs(list) && AllDirs(list + more)
    ensures ListSize(list + more, n) == ListSize(list, n)
  {
    if n > 0 {
      ListSizeOfPrefix(list, more, n - 1);
    }
  }

  /** One round of the loop in write_path_tables() */
  lemma ExpandOne(root: Node, list: seq<Node>, i: nat)
    requires Expanded(root, list, i) && i < |list|
    ensures AllDirs(list + Subdirs(list[i].children))
    ensures Expanded(root, list + Subdirs(list[i].children), i + 1)
  {
    var more := Subdirs(list[i].children);
    var list' := list + more;
    ExpandSums(list, i);
    ExpandDirs(root, list, i);
    ListSizeOfPrefix(list, more, i);
    assert list'[i] == list[i] && SubdirsAt(list', i) == more;
    ListSizeStep(list, more, i);
    hide Subdirs, SubdirsAt, FirstChild, ListSize, TableSizeFrom, RecordSize, CountDirs, CountAll, TableSize,
         CoversTree, ChildrenInPlace;
    PlacesExtended(list, more, i);
  }

  lemma PlacesExtended(list: seq<Node>, more: seq<Node>, i: nat)
    requires i < |list| && FirstChild(list, i) == |list| && SubdirsAt(list + more, i) == more
    requires forall p :: 0 <= p < i ==> ChildrenInPlace(list, p)
    ensures FirstChild(list + more, i + 1) == |list + more|
    ensures forall p :: 0 <= p < i + 1 ==> ChildrenInPlace(list + more, p)
  {
    hide Subdirs, SubdirsAt;
    FirstChildKept(list, more, i);
    assert FirstChild(list + more, i + 1) == |list + more|;
    hide FirstChild;
    forall p | 0 <= p < i + 1 ensures ChildrenInPlace(list + more, p) {
      if p < i {
        PlaceKept(list, more, p);
      }
    }
  }

  lemma ExpandDirs(root: Node, list: seq<Node>, i: nat)
    requires i < |list| && AllDirs(list) && CoversTree(root, list, i)
    ensures CoversTree(root, list + Subdirs(list[i].children), i + 1)
  {
    var more := Subdirs(list[i].children);
    DirsOfConcat(list[i + 1..], more);
    DirsOfSubdirs(list[i].children);
    hide Subdirs;
    SlicesOf(list, more, i);
    assert DirsOfAll(list[i..]) == [list[i]] + DirsOfAll(list[i].children) + DirsOfAll(list[i + 1..]);
  }

  lemma SlicesOf<T>(list: seq<T>, more: seq<T>, i: nat)
    requires i < |list|
    ensures (list + more)[..i + 1] == list[..i] + [list[i]] && (list + more)[i + 1..] == list[i + 1..] + more
    ensures list[i..][0] == list[i] && list[i..][1..] == list[i + 1..]
  {
  }

  lemma ListSizeStep(list: seq<Node>, more: seq<Node>, i: nat)
    requires i < |list| && AllDirs(list) && AllDirs(list + more)
    ensures ListSize(list + more, i + 1) == ListSize(list, i) + RecordSize(list[i], i == 0)
  {
    ListSizeOfPrefix(list, more, i);
    assert (list + more)[i] == list[i];
  }

  lemma ExpandSums(list: seq<Node>, i: nat)
    requires i < |list| && AllDirs(list)
    ensures var list' := list + Subdirs(list[i].children);
      && CountAll(list[i..]) == 1 + CountAll(list'[i + 1..])
      && TableSizeFrom(list, i) == RecordSize(list[i], i == 0) + TableSizeFrom(list', i + 1)
  {
    var more := Subdirs(list[i].children);
    var list' := list + more;
    assert list'[i + 1..] == list[i + 1..] + more;
    assert list[i..][1..] == list[i + 1..];
    CountAllConcat(list[i + 1..], more);
    CountOfSubdirs(list[i].children);
    hide Subdirs, RecordSize;
    assert CountAll(list[i..]) == CountDirs(list[i]) + CountAll(list[i + 1..]);
    assert TableSizeAll(list[i..]) == TableSize(list[i], false) + TableSizeAll(list[i + 1..]);
  }

  /** The list is complete after as many rounds as there are directories. */
  lemma ExpandedAll(root: Node, list: seq<Node>)
    requires Expanded(root, list, CountDirs(root))
    ensures IsPathList(root, list) && |list| == CountDirs(root) && ListSize(list, |list|) == TableSize(root, true)
    ensures multiset(list) == multiset(DirsOf(root))
  {
    var i := CountDirs(root);
    CountAtLeast(list[i..]);
    assert list[i..] == [] && list[..i] == list;
  }

  /** The first part of write_path_tables() */
  method PathList(root: Node, ndirs: nat) returns (pathlist: array<Node>)
    requires root.Dir? && ndirs == CountDirs(root)
    ensures fresh(pathlist) && pathlist.Length == ndirs && IsPathList(root, pathlist[..])
    ensures ListSize(pathlist[..], ndirs) == TableSize(root, true)
    ensures multiset(pathlist[..]) == multiset(DirsOf(root))
  {
    pathlist := new Node[ndirs](_ => root);
    var cur: nat := 1;
    StartExpanding(root);
    assert pathlist[..1] == [root];
    hide *;
    for i := 0 to ndirs
      invariant cur <= ndirs && Expanded(root, pathlist[..cur], i)
    {
      cur := Expand(pathlist, cur, i, root, ndirs);
    }
    EnoughRoom(root, pathlist[..cur], ndirs);
    ExpandedAll(root, pathlist[..cur]);
    assert pathlist[..cur] == pathlist[..];
  }

  lemma EnoughRoom(root: Node, list: seq<Node>, i: nat)
    requires Expanded(root, list, i)
    ensures |list| <= CountDirs(root) && (i < CountDirs(root) ==> i < |list| && list[i].Dir?)
  {
    CountAtLeast(list[i..]);
  }

  /** One round of the loop over the list in write_path_tables() */
  method Expand(pathlist: array<Node>, cur: nat, i: nat, ghost root: Node, ghost ndirs: nat) returns (cur': nat)
    requires pathlist.Length == ndirs == CountDirs(root) && i < ndirs && cur <= ndirs
    requires Expanded(root, pathlist[..cur], i)
    modifies pathlist
    ensures cur' <= ndirs && Expanded(root, pathlist[..cur'], i + 1)
  {
    ghost var list := pathlist[..cur];
    EnoughRoom(root, list, i);
    ExpandOne(root, list, i);
    assert list[i] == pathlist[i];
    EnoughRoom(root, list + Subdirs(list[i].children), i + 1);
    hide *;
    cur' := AppendSubdirs(pathlist, cur, pathlist[i].children);
  }

  /** The loop over the children of one directory in write_path_tables() */
  method AppendSubdirs(pathlist: array<Node>, cur: nat, children: seq<Node>) returns (cur': nat)
    requires cur + |Subdirs(children)| <= pathlist.Length
    modifies pathlist
    ensures cur' == cur + |Subdirs(children)| && pathlist[..cur'] == old(pathlist[..cur]) + Subdirs(children)
  {
    ghost var list := pathlist[..cur];
    NoSubdirs(children);
    hide *;
    cur' := cur;
    for j := 0 to |children|
      invariant cur' == cur + |Subdirs(children[..j])| <= pathlist.Length
      invariant pathlist[..cur'] == list + Subdirs(children[..j])
    {
      SubdirsNext(children, j);
      PrefixOfSubdirs(children, j + 1);
      if children[j].Dir? {
        pathlist[cur'] := children[j];
        cur' := cur' + 1;
      }
    }
    assert children[..|children|] == children;
  }

  lemma NoSubdirs(nodes: seq<Node>)
    ensures Subdirs(nodes[..0]) == []
  {
  }

  lemma PrefixOfSubdirs(nodes: seq<Node>, j: nat)
    requires j <= |nodes|
    ensures |Subdirs(nodes[..j])| <= |Subdirs(nodes)|
  {
    SubdirsConcat(nodes[..j], nodes[j..]);
    assert nodes == nodes[..j] + nodes[j..];
  }

  // ---------------------------------------------------------------- Parent numbers

  /** The parent pointers are those of the tree. */
  ghost predicate ParentsRight(list: seq<Node>, parentOf: map<nat, nat>) {
    && (forall k :: 1 <= k < |list| ==> list[k].id in parentOf)
    && (forall p, c :: 0 <= p < |list| && 0 <= c < |SubdirsAt(list, p)| && SubdirsAt(list, p)[c].id in parentOf ==>
          parentOf[SubdirsAt(list, p)[c].id] == list[p].id)
  }

  /** The directory number p is the parent of directory number k. */
  ghost predicate IsParent(list: seq<Node>, k: nat, p: nat)
    requires k < |list|
  {
    p < |list| && p < k && FirstChild(list, p) <= k < FirstChild(list, p + 1)
  }

  /** Every directory but the root has a parent in the list, before it. */
  lemma {:induction false} HasParent(root: Node, list: seq<Node>, k: nat, n: nat) returns (p: nat)
    requires IsPathList(root, list) && 1 <= k < |list| && n <= |list| && k < FirstChild(list, n)
    ensures IsParent(list, k, p) && p < n
    decreases n
  {
    hide Subdirs, SubdirsAt;
    if FirstChild(list, n - 1) <= k {
      p := n - 1;
      assert ChildrenInPlace(list, p);
    } else {
      p := HasParent(root, list, k, n - 1);
    }
  }

  lemma ParentExists(root: Node, list: seq<Node>, k: nat)
    requires IsPathList(root, list) && 1 <= k < |list|
    ensures exists p: nat :: IsParent(list, k, p)
  {
    var p := HasParent(root, list, k, |list|);
  }

  lemma {:induction false} FirstChildGrows(list: seq<Node>, p: nat, q: nat)
    requires p <= q <= |list|
    ensures FirstChild(list, p) <= FirstChild(list, q)
    decreases q
  {
    hide Subdirs, SubdirsAt;
    if p < q {
      FirstChildGrows(list, p, q - 1);
    }
  }

  /** A directory is among the subdirectories of its parent. The number of its parent is unique. */
  lemma ParentHolds(root: Node, list: seq<Node>, k: nat, p: nat)
    requires IsPathList(root, list) && k < |list| && IsParent(list, k, p)
    ensures var c := k - FirstChild(list, p); c < |SubdirsAt(list, p)| && SubdirsAt(list, p)[c] == list[k]
    ensures forall q: nat :: IsParent(list, k, q) ==> q == p
  {
    hide Subdirs, SubdirsAt, FirstChild;
    assert ChildrenInPlace(list, p);
    var from, to := FirstChild(list, p), FirstChild(list, p + 1);
    assert list[from..to][k - from] == list[k];
    forall q: nat | IsParent(list, k, q) ensures q == p {
      OneParent(list, k, p, q);
    }
  }

  lemma OneParent(list: seq<Node>, k: nat, p: nat, q: nat)
    requires k < |list| && IsParent(list, k, p) && IsParent(list, k, q)
    ensures p == q
  {
    hide FirstChild;
    if q < p {
      FirstChildGrows(list, q + 1, p);
    } else if p < q {
      FirstChildGrows(list, p + 1, q);
    }
  }

  /** Section 6.9.1 of ECMA-119: The table is in ascending order of parent numbers. Directories with the
      same parent are in the order of its children. */
  lemma OrderedByParent(root: Node, list: seq<Node>, j: nat, k: nat, p: nat, q: nat)
    requires IsPathList(root, list) && j < k < |list| && IsParent(list, j, p) && IsParent(list, k, q)
    ensures p <= q
    ensures p == q ==>
      SubdirsAt(list, p)[j - FirstChild(list, p)] == list[j] && SubdirsAt(list, p)[k - FirstChild(list, p)] == list[k]
  {
    hide Subdirs, SubdirsAt, FirstChild, IsPathList;
    if q < p {
      FirstChildGrows(list, q + 1, p);
    }
    ParentHolds(root, list, j, p);
    ParentHolds(root, list, k, q);
  }

  /** The level of a directory in the hierarchy, where the root has level 1 */
  ghost function Level(root: Node, list: seq<Node>, k: nat): nat
    requires IsPathList(root, list) && k < |list|
  {
    if k == 0 then 1
    else
      var p := ParentNumber(root, list, k);
      Level(root, list, p) + 1
  }

  ghost function ParentNumber(root: Node, list: seq<Node>, k: nat): (p: nat)
    requires IsPathList(root, list) && 1 <= k < |list|
    ensures IsParent(list, k, p)
  {
    ParentExists(root, list, k);
    var p: nat :| IsParent(list, k, p);
    p
  }

  /** Section 6.9.1 of ECMA-119: The table is in ascending order of levels. */
  lemma {:induction false} OrderedByLevel(root: Node, list: seq<Node>, j: nat, k: nat)
    requires IsPathList(root, list) && j <= k < |list|
    ensures Level(root, list, j) <= Level(root, list, k)
    decreases k
  {
    hide IsPathList, FirstChild;
    if 0 < j < k {
      var p, q := ParentNumber(root, list, j), ParentNumber(root, list, k);
      OrderedByParent(root, list, j, k, p, q);
      OrderedByLevel(root, list, p, q);
    } else if j == 0 && k > 0 {
      OrderedByLevel(root, list, 0, ParentNumber(root, list, k));
    }
  }

  // ---------------------------------------------------------------- The table

  /** The names fit into the buffer of write_path_table(). */
  predicate ProperNames(list: seq<Node>) {
    AllDirs(list) && forall i :: 1 <= i < |list| ==> 1 <= |list[i].name| <= 55
  }

  /** Numbers in the byte order of the table */
  function WriteInt(n: nat, bytes: nat, lType: bool): (r: Bytes)
    ensures |r| == bytes
  {
    if lType then Lsb(n, bytes) else Msb(n, bytes)
  }

  function ReadInt(s: Bytes, lType: bool): nat {
    if lType then ReadLsb(s) else ReadMsb(s)
  }

  /** The directory identifier. For the root it is a single zero. */
  function DirId(node: Node, isRoot: bool): Bytes
    requires node.Dir?
  {
    if isRoot then [0] else node.name
  }

  /** A path table record (section 9.4 of ECMA-119) */
  function TableRecord(node: Node, isRoot: bool, block: nat, parent: nat, lType: bool): (r: Bytes)
    requires node.Dir? && (isRoot || 1 <= |node.name| <= 55)
    ensures |r| == RecordSize(node, isRoot) <= 64
  {
    var id := DirId(node, isRoot);
    [|id|, 0] + WriteInt(block, 4, lType) + WriteInt(parent, 2, lType) + id + (if |id| % 2 == 1 then [0] else [])
  }

  /** The record tells where the directory is, and the number of its parent, below 65536 directories. */
  lemma TableRecordFields(node: Node, isRoot: bool, block: nat, parent: nat, lType: bool)
    requires node.Dir? && (isRoot || 1 <= |node.name| <= 55)
    requires block < 0x1_0000_0000 && parent < 0x1_0000
    ensures var r := TableRecord(node, isRoot, block, parent, lType);
      && ReadInt(r[2..6], lType) == block && ReadInt(r[6..8], lType) == parent
      && r[8..8 + r[0]] == DirId(node, isRoot)
  {
    var r, id := TableRecord(node, isRoot, block, parent, lType), DirId(node, isRoot);
    assert Power256(2) == 0x1_0000;
    assert Power256(4) == 0x1_0000_0000;
    LsbRoundTrip(block, 4);
    MsbRoundTrip(block, 4);
    LsbRoundTrip(parent, 2);
    MsbRoundTrip(parent, 2);
    hide Lsb, Msb, ReadLsb, ReadMsb, DirId, Power256;
    assert r[2..6] == WriteInt(block, 4, lType) && r[6..8] == WriteInt(parent, 2, lType);
    assert r[8..8 + |id|] == id;
  }

  /** The number that is written for the parent. The root is its own parent. */
  ghost function ParentField(root: Node, list: seq<Node>, k: nat): nat
    requires IsPathList(root, list) && k < |list|
  {
    if k == 0 then 1 else ParentNumber(root, list, k) + 1
  }

  ghost function TableBytes(root: Node, list: seq<Node>, block: map<nat, nat>, lType: bool, n: nat): (r: Bytes)
    requires IsPathList(root, list) && n <= |list| && ProperNames(list)
    requires forall k :: 0 <= k < |list| ==> list[k].id in block
    ensures |r| == ListSize(list, n)
  {
    if n == 0 then []
    else TableBytes(root, list, block, lType, n - 1)
         + TableRecord(list[n - 1], n == 1, block[list[n - 1].id], ParentField(root, list, n - 1), lType)
  }

  /** Where the parent pointer of a directory leads to */
  lemma ParentPointer(root: Node, list: seq<Node>, parentOf: map<nat, nat>, k: nat, q: nat)
    requires IsPathList(root, list) && ParentsRight(list, parentOf) && DistinctIds(list) && 1 <= k < |list|
             && q < |list|
    ensures list[k].id in parentOf && (list[q].id == parentOf[list[k].id] <==> q == ParentNumber(root, list, k))
  {
    var p := ParentNumber(root, list, k);
    ParentHolds(root, list, k, p);
    hide FirstChild, SubdirsAt, IsPathList;
    var c := k - FirstChild(list, p);
    assert SubdirsAt(list, p)[c].id in parentOf;
  }

  /** The search for the parent never starts behind it. */
  lemma ParentAhead(root: Node, list: seq<Node>, k: nat)
    requires IsPathList(root, list) && 1 <= k < |list|
    ensures k > 1 ==> ParentNumber(root, list, k - 1) <= ParentNumber(root, list, k)
    ensures ParentNumber(root, list, k) < k
  {
    if k > 1 {
      OrderedByParent(root, list, k - 1, k, ParentNumber(root, list, k - 1), ParentNumber(root, list, k));
    }
    hide FirstChild, IsPathList;
  }

  /** All that the table is made of */
  ghost predicate Writable(root: Node, list: seq<Node>, parentOf: map<nat, nat>, block: map<nat, nat>) {
    && IsPathList(root, list) && DistinctIds(list) && ProperNames(list) && ParentsRight(list, parentOf)
    && forall k :: 0 <= k < |list| ==> list[k].id in block
  }

  /** A table, filled up with zeros to the end of the block */
  ghost predicate IsPadded(table: Bytes, out: Bytes) {
    table <= out && |out| % 2048 == 0 && |out| < |table| + 2048 && forall k :: |table| <= k < |out| ==> out[k] == 0
  }

  /** write_path_table(): the search for parents goes on where the previous one ended, and it always
      stops before the current directory. */
  method WritePathTable(pathlist: array<Node>, parentOf: map<nat, nat>, block: map<nat, nat>, lType: bool,
                        ghost root: Node)
    returns (out: Bytes)
    requires Writable(root, pathlist[..], parentOf, block)
    ensures IsPadded(TableBytes(root, pathlist[..], block, lType, pathlist.Length), out)
  {
    var parent: nat := 0;
    out := [];
    hide *;
    StartWriting(root, pathlist[..], parentOf, block, lType);
    for i := 0 to pathlist.Length
      invariant Written(root, pathlist[..], parentOf, block, lType, i, parent, out)
    {
      parent, out := WriteRecord(pathlist, parentOf, block, lType, i, parent, out, root);
    }
    AllWritten(root, pathlist[..], parentOf, block, lType, parent, out);
    out := PadTable(out);
  }

  /** The first i records are written, and the parent of the last one is found. */
  ghost predicate Written(root: Node, list: seq<Node>, parentOf: map<nat, nat>, block: map<nat, nat>, lType: bool,
                          i: nat, parent: nat, out: Bytes)
  {
    && Writable(root, list, parentOf, block) && i <= |list|
    && parent == (if i <= 1 then 0 else ParentNumber(root, list, i - 1))
    && out == TableBytes(root, list, block, lType, i)
  }

  lemma StartWriting(root: Node, list: seq<Node>, parentOf: map<nat, nat>, block: map<nat, nat>, lType: bool)
    requires Writable(root, list, parentOf, block)
    ensures Written(root, list, parentOf, block, lType, 0, 0, [])
  {
    hide Writable;
  }

  lemma AllWritten(root: Node, list: seq<Node>, parentOf: map<nat, nat>, block: map<nat, nat>, lType: bool,
                   parent: nat, out: Bytes)
    requires Written(root, list, parentOf, block, lType, |list|, parent, out)
    ensures Writable(root, list, parentOf, block) && out == TableBytes(root, list, block, lType, |list|)
  {
  }

  /** One round of the loop in write_path_table() */
  method WriteRecord(pathlist: array<Node>, parentOf: map<nat, nat>, block: map<nat, nat>, lType: bool, i: nat,
                     parent: nat, out: Bytes, ghost root: Node)
    returns (parent': nat, out': Bytes)
    requires i < pathlist.Length && Written(root, pathlist[..], parentOf, block, lType, i, parent, out)
    ensures Written(root, pathlist[..], parentOf, block, lType, i + 1, parent', out')
  {
    ghost var list := pathlist[..];
    OneRecordMore(root, list, parentOf, block, lType, i);
    hide IsPathList, DistinctIds, ParentsRight, TableRecord, TableBytes, IsParent, ProperNames;
    parent' := FindParent(pathlist, parentOf, i, parent, root);
    var dir := pathlist[i];
    assert dir == list[i];
    out' := out + TableRecord(dir, i == 0, block[dir.id], parent' + 1, lType);
  }

  lemma OneRecordMore(root: Node, list: seq<Node>, parentOf: map<nat, nat>, block: map<nat, nat>, lType: bool, i: nat)
    requires Writable(root, list, parentOf, block) && i < |list|
    ensures list[i].Dir? && (i == 0 || 1 <= |list[i].name| <= 55) && list[i].id in block
    ensures TableBytes(root, list, block, lType, i + 1) ==
            TableBytes(root, list, block, lType, i)
            + TableRecord(list[i], i == 0, block[list[i].id], (if i == 0 then 0 else ParentNumber(root, list, i)) + 1,
              lType)
  {
    hide IsPathList, TableRecord, DistinctIds, ParentsRight, IsParent, RecordSize, ListSize;
  }

  /** The zeros behind the table */
  method PadTable(table: Bytes) returns (out: Bytes)
    ensures IsPadded(table, out)
  {
    out := table;
    var pathTableSize := |table| % 2048;
    if pathTableSize != 0 {
      out := out + Zeros(2048 - pathTableSize);
      assert out[|table|..] == Zeros(2048 - pathTableSize);
    }
  }

  /** The search for the index of the parent in the table */
  method FindParent(pathlist: array<Node>, parentOf: map<nat, nat>, i: nat, start: nat, ghost root: Node)
    returns (parent: nat)
    requires IsPathList(root, pathlist[..]) && DistinctIds(pathlist[..]) && ParentsRight(pathlist[..], parentOf)
    requires i < pathlist.Length && start == if i <= 1 then 0 else ParentNumber(root, pathlist[..], i - 1)
    ensures parent == if i == 0 then 0 else ParentNumber(root, pathlist[..], i)
  {
    parent := start;
    ghost var list := pathlist[..];
    hide IsPathList, DistinctIds, ParentsRight;
    if i > 0 {
      ParentAhead(root, list, i);
      ParentPointer(root, list, parentOf, i, parent);
    }
    while i != 0 && pathlist[parent].id != parentOf[pathlist[i].id]
      invariant i > 0 ==> parent <= ParentNumber(root, list, i) < i && pathlist[i].id in parentOf
      invariant i == 0 ==> parent == 0
      invariant i > 0 ==> (pathlist[parent].id == parentOf[pathlist[i].id] <==> parent == ParentNumber(root, list, i))
      decreases i - parent
    {
      parent := parent + 1;
      ParentPointer(root, list, parentOf, i, parent);
    }
  }
}
