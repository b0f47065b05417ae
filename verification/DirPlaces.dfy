/**
 Where the directories of the ECMA-119 tree begin, and what gets written there (libisofs/ecma119.c).
 */
module DirPlaces {
  import opened Common
  import opened IsoBytes
  import opened DirTree

  import R = DirRecords

  // ---------------------------------------------------------------- The places in visiting order

  /** Lengths of continuation areas by identities of directories. Both passes get the same lengths. */
  type Lengths = map<nat, nat>

  function LengthOf(lengths: Lengths, id: nat): nat {
    if id in lengths then lengths[id] else 0
  }

  /** The blocks of a directory: its extent, and its continuation area */
  function OwnBlocks(o: R.Opts, ceLen: Lengths, node: Node): nat
    requires node.Dir?
  {
    DivUp(DirBytes(o, node)) + DivUp(LengthOf(ceLen, node.id))
  }

  function Blocks(o: R.Opts, ceLen: Lengths, node: Node): nat {
    match node
    case Leaf(_, _) => 0
    case Dir(_, _, children, _) => OwnBlocks(o, ceLen, node) + BlocksAll(o, ceLen, children)
  }

  function BlocksAll(o: R.Opts, ceLen: Lengths, nodes: seq<Node>): nat {
    if nodes == [] then 0 else Blocks(o, ceLen, nodes[0]) + BlocksAll(o, ceLen, nodes[1..])
  }

  /** The block where a directory begins, and the size of its extent */
  datatype Where = Where(block: nat, len: nat)

  datatype Place = Place(id: nat, where: Where)

  /** Members block and len of the directories, by their identities */
  type Dirs = map<nat, Where>

  /** The places of all directories of a tree which begins at the given block */
  function Places(o: R.Opts, ceLen: Lengths, node: Node, cur: nat): seq<Place> {
    match node
    case Leaf(_, _) => []
    case Dir(id, _, children, _) =>
      [Place(id, Where(cur, DirBytes(o, node)))] + PlacesAll(o, ceLen, children, cur + OwnBlocks(o, ceLen, node))
  }

  function PlacesAll(o: R.Opts, ceLen: Lengths, nodes: seq<Node>, cur: nat): seq<Place> {
    if nodes == [] then []
    else Places(o, ceLen, nodes[0], cur) + PlacesAll(o, ceLen, nodes[1..], cur + Blocks(o, ceLen, nodes[0]))
  }

  /** The places noted one after the other */
  function Noted(dirs: Dirs, places: seq<Place>): Dirs
    decreases |places|
  {
    if places == [] then dirs else Noted(dirs[places[0].id := places[0].where], places[1..])
  }

  lemma {:induction false} NotedConcat(dirs: Dirs, a: seq<Place>, b: seq<Place>)
    ensures Noted(dirs, a + b) == Noted(Noted(dirs, a), b)
    decreases |a|
  {
    if a == [] {
      assert a + b == b;
    } else {
      assert (a + b)[1..] == a[1..] + b;
      NotedConcat(dirs[a[0].id := a[0].where], a[1..], b);
    }
  }

  /** The next child, as seen by the loops over children */
  lemma {:induction false} ChildrenNext(o: R.Opts, ceLen: Lengths, nodes: seq<Node>, j: nat, cur: nat)
    requires j < |nodes|
    ensures BlocksAll(o, ceLen, nodes[..j + 1]) == BlocksAll(o, ceLen, nodes[..j]) + Blocks(o, ceLen, nodes[j])
    ensures PlacesAll(o, ceLen, nodes[..j + 1], cur) ==
            PlacesAll(o, ceLen, nodes[..j], cur)
            + Places(o, ceLen, nodes[j], cur + BlocksAll(o, ceLen, nodes[..j]))
    decreases j
  {
    hide Blocks, Places;
    PrefixTails(nodes, j);
    if j == 0 {
      assert PlacesAll(o, ceLen, nodes[..1], cur) == Places(o, ceLen, nodes[0], cur) + [];
    } else {
      var cur1 := cur + Blocks(o, ceLen, nodes[0]);
      ChildrenNext(o, ceLen, nodes[1..], j - 1, cur1);
      Associate(Places(o, ceLen, nodes[0], cur), PlacesAll(o, ceLen, nodes[1..][..j - 1], cur1),
                Places(o, ceLen, nodes[j], cur1 + BlocksAll(o, ceLen, nodes[1..][..j - 1])));
    }
  }

  lemma {:induction false} CountsNext(nodes: seq<Node>, j: nat)
    requires j < |nodes|
    ensures CountAll(nodes[..j + 1]) == CountAll(nodes[..j]) + CountDirs(nodes[j])
    ensures TableSizeAll(nodes[..j + 1]) == TableSizeAll(nodes[..j]) + TableSize(nodes[j], false)
    decreases j
  {
    hide CountDirs, TableSize;
    PrefixTails(nodes, j);
    if j > 0 {
      CountsNext(nodes[1..], j - 1);
    }
  }

  lemma PrefixTails<T>(s: seq<T>, j: nat)
    requires j < |s|
    ensures s[..j + 1][0] == s[0] && s[..j + 1][1..] == s[1..][..j]
    ensures if j == 0 then s[..j] == [] else s[..j][0] == s[0] && s[..j][1..] == s[1..][..j - 1]
  {
  }

  lemma NoChildren(o: R.Opts, ceLen: Lengths, nodes: seq<Node>, cur: nat, dirs: Dirs)
    ensures BlocksAll(o, ceLen, nodes[..0]) == 0 && PlacesAll(o, ceLen, nodes[..0], cur) == []
    ensures CountAll(nodes[..0]) == 0 && TableSizeAll(nodes[..0]) == 0 && Noted(dirs, []) == dirs
  {
  }

  lemma LeafHasNothing(o: R.Opts, ceLen: Lengths, node: Node, cur: nat)
    requires node.Leaf?
    ensures Blocks(o, ceLen, node) == 0 && Places(o, ceLen, node, cur) == []
    ensures CountDirs(node) == 0 && TableSize(node, false) == 0
  {
  }

  lemma NotedOne(dirs: Dirs, id: nat, where: Where, more: seq<Place>)
    ensures Noted(dirs, [Place(id, where)] + more) == Noted(dirs[id := where], more)
  {
    var places := [Place(id, where)] + more;
    assert places[0] == Place(id, where) && places[1..] == more;
  }

  // ---------------------------------------------------------------- Places are right

  lemma {:induction false} NotedElsewhere(dirs: Dirs, places: seq<Place>, id: nat)
    requires forall i :: 0 <= i < |places| ==> places[i].id != id
    ensures id in dirs ==> id in Noted(dirs, places) && Noted(dirs, places)[id] == dirs[id]
    decreases |places|
  {
    if places != [] {
      NotedElsewhere(dirs[places[0].id := places[0].where], places[1..], id);
    }
  }

  /** With distinct identities each noted place is the one that was meant. */
  lemma {:induction false} NotedRight(dirs: Dirs, places: seq<Place>, k: nat)
    requires k < |places| && forall i, j :: 0 <= i < j < |places| ==> places[i].id != places[j].id
    ensures places[k].id in Noted(dirs, places) && Noted(dirs, places)[places[k].id] == places[k].where
    decreases |places|
  {
    var dirs' := dirs[places[0].id := places[0].where];
    if k == 0 {
      NotedElsewhere(dirs', places[1..], places[0].id);
    } else {
      NotedRight(dirs', places[1..], k - 1);
    }
  }

  /** The places are those of the directories, in the same order. */
  lemma {:induction false} PlacesOfDirs(o: R.Opts, ceLen: Lengths, node: Node, cur: nat)
    ensures |Places(o, ceLen, node, cur)| == |DirsOf(node)|
    ensures forall i :: 0 <= i < |DirsOf(node)| ==> Places(o, ceLen, node, cur)[i].id == DirsOf(node)[i].id
    decreases node, 1
  {
    if node.Dir? {
      PlacesOfAll(o, ceLen, node.children, cur + OwnBlocks(o, ceLen, node));
    }
  }

  lemma {:induction false} PlacesOfAll(o: R.Opts, ceLen: Lengths, nodes: seq<Node>, cur: nat)
    ensures |PlacesAll(o, ceLen, nodes, cur)| == |DirsOfAll(nodes)|
    ensures forall i :: 0 <= i < |DirsOfAll(nodes)| ==> PlacesAll(o, ceLen, nodes, cur)[i].id == DirsOfAll(nodes)[i].id
    decreases nodes, 0
  {
    if nodes != [] {
      PlacesOfDirs(o, ceLen, nodes[0], cur);
      PlacesOfAll(o, ceLen, nodes[1..], cur + Blocks(o, ceLen, nodes[0]));
    }
  }

  /** The outcome of the layout pass for a series of nodes */
  ghost predicate Laid(o: R.Opts, ceLen: Lengths, nodes: seq<Node>, cur: nat, n: nat, dirs: Dirs, cur': nat, n': nat,
                       dirs': Dirs)
  {
    && cur' == cur + BlocksAll(o, ceLen, nodes) && n' == n + CountAll(nodes)
    && dirs' == Noted(dirs, PlacesAll(o, ceLen, nodes, cur))
  }

  lemma LaidNone(o: R.Opts, ceLen: Lengths, nodes: seq<Node>, cur: nat, n: nat, dirs: Dirs)
    ensures Laid(o, ceLen, nodes[..0], cur, n, dirs, cur, n, dirs)
  {
    NoChildren(o, ceLen, nodes, cur, dirs);
  }

  lemma LaidNext(o: R.Opts, ceLen: Lengths, nodes: seq<Node>, i: nat, cur: nat, n: nat, dirs: Dirs, cur1: nat,
                 n1: nat, dirs1: Dirs)
    requires i < |nodes| && Laid(o, ceLen, nodes[..i], cur, n, dirs, cur1, n1, dirs1)
    ensures Laid(o, ceLen, nodes[..i + 1], cur, n, dirs, cur1 + Blocks(o, ceLen, nodes[i]),
                 n1 + CountDirs(nodes[i]), Noted(dirs1, Places(o, ceLen, nodes[i], cur1)))
    ensures nodes[i].Leaf? ==> Laid(o, ceLen, nodes[..i + 1], cur, n, dirs, cur1, n1, dirs1)
  {
    hide BlocksAll, PlacesAll, CountAll, Noted, Blocks, Places, CountDirs;
    ChildrenNext(o, ceLen, nodes, i, cur);
    CountsNext(nodes, i);
    NotedConcat(dirs, PlacesAll(o, ceLen, nodes[..i], cur), Places(o, ceLen, nodes[i], cur1));
    if nodes[i].Leaf? {
      LeafHasNothing(o, ceLen, nodes[i], cur1);
      NoChildren(o, ceLen, [], cur, dirs1);
    }
  }

  lemma LaidDir(o: R.Opts, ceLen: Lengths, dir: Node, cur: nat, n: nat, dirs: Dirs, cur': nat, n': nat, dirs': Dirs)
    requires dir.Dir?
    requires Laid(o, ceLen, dir.children, cur + OwnBlocks(o, ceLen, dir), n + 1,
                  dirs[dir.id := Where(cur, DirBytes(o, dir))], cur', n', dirs')
    ensures cur' == cur + Blocks(o, ceLen, dir) && n' == n + CountDirs(dir)
    ensures dirs' == Noted(dirs, Places(o, ceLen, dir, cur))
  {
    NotedOne(dirs, dir.id, Where(cur, DirBytes(o, dir)),
      PlacesAll(o, ceLen, dir.children, cur + OwnBlocks(o, ceLen, dir)));
    hide BlocksAll, PlacesAll, CountAll, Noted;
  }

  /** The places of a tree or a series of trees are noted. */
  ghost predicate AllNoted(dirs: Dirs, places: seq<Place>) {
    forall i :: 0 <= i < |places| ==> places[i].id in dirs && dirs[places[i].id] == places[i].where
  }

  /** After the layout pass all places are noted. */
  lemma AllNotedRight(dirs: Dirs, o: R.Opts, ceLen: Lengths, root: Node, start: nat)
    requires DistinctIds(DirsOf(root))
    ensures AllNoted(Noted(dirs, Places(o, ceLen, root, start)), Places(o, ceLen, root, start))
  {
    hide Places, Noted;
    var places := Places(o, ceLen, root, start);
    PlacesOfDirs(o, ceLen, root, start);
    forall i | 0 <= i < |places|
      ensures places[i].id in Noted(dirs, places) && Noted(dirs, places)[places[i].id] == places[i].where
    {
      NotedRight(dirs, places, i);
    }
  }

  lemma AllNotedParts(dirs: Dirs, a: seq<Place>, b: seq<Place>)
    requires AllNoted(dirs, a + b)
    ensures AllNoted(dirs, a) && AllNoted(dirs, b)
  {
    assert forall i :: 0 <= i < |a| ==> (a + b)[i] == a[i];
    assert forall i :: 0 <= i < |b| ==> (a + b)[|a| + i] == b[i];
  }

  // ---------------------------------------------------------------- The content of directories

  /** The SUSP fields of a directory or file: for "." and "..", and for its records in the parent */
  datatype Susp = Susp(dot: Bytes, dotdot: Bytes, records: seq<Bytes>)

  /** What has been filled in when the write pass begins: the places of directories, the sections of files,
      the block of nodes without content, the SUSP fields, and the continuation areas */
  datatype Links = Links(dirs: Dirs, sections: map<nat, seq<R.Section>>, otherBlock: nat, susp: map<nat, Susp>,
                         ce: map<nat, Bytes>)

  function WhereOf(l: Links, id: nat): Where {
    if id in l.dirs then l.dirs[id] else Where(0, 0)
  }

  function SuspOf(l: Links, id: nat): Susp {
    if id in l.susp then l.susp[id] else Susp([], [], [])
  }

  function DirSection(l: Links, id: nat): R.Section {
    R.Section(WhereOf(l, id).block, WhereOf(l, id).len)
  }

  /** The content of the records of a node in its parent directory */
  function EntryOf(l: Links, node: Node): R.Entry {
    match node
    case Dir(id, name, _, _) => R.Entry(name, R.Directory, [DirSection(l, id)], SuspOf(l, id).records)
    case Leaf(id, shape) =>
      R.Entry(shape.name, shape.kind,
              if shape.kind != R.File then [R.Section(l.otherBlock, 0)]
              else if id in l.sections then l.sections[id] else [],
              SuspOf(l, id).records)
  }

  function Entries(l: Links, nodes: seq<Node>): (r: seq<R.Entry>)
    ensures |r| == |nodes| && forall i :: 0 <= i < |r| ==> r[i] == EntryOf(l, nodes[i])
  {
    seq(|nodes|, i requires 0 <= i < |nodes| => EntryOf(l, nodes[i]))
  }

  /** The content of a directory */
  function DirOf(l: Links, dir: Node, parent: nat): R.Dir
    requires dir.Dir?
  {
    R.Dir(R.Entry([0], R.Directory, [DirSection(l, dir.id)], [SuspOf(l, dir.id).dot]),
          R.Entry([1], R.Directory, [DirSection(l, parent)], [SuspOf(l, dir.id).dotdot]),
          Entries(l, dir.children))
  }

  /** Addresses and sizes fit into their fields. */
  ghost predicate SmallNumbers(l: Links) {
    forall id :: WhereOf(l, id).block < R.TWO_32 && WhereOf(l, id).len < R.TWO_32
  }

  /** The records of a node have been filled in as announced: a valid record for each section, with SUSP
      fields of the announced lengths. */
  ghost predicate Filled(o: R.Opts, l: Links, node: Node) {
    R.ValidEntry(o, EntryOf(l, node)) && R.HasShape(EntryOf(l, node), ShapeOf(node))
  }

  ghost predicate FilledAll(o: R.Opts, l: Links, nodes: seq<Node>) {
    forall i :: 0 <= i < |nodes| ==> Filled(o, l, nodes[i])
  }

  /** All directories are nodes with children. */
  predicate ProperLeaves(nodes: seq<Node>) {
    forall i :: 0 <= i < |nodes| && nodes[i].Leaf? ==> nodes[i].shape.kind != R.Directory
  }

  /** The same for a directory */
  ghost predicate DirFilled(o: R.Opts, ceLen: Lengths, l: Links, dir: Node)
    requires dir.Dir?
  {
    && |o.time| == 7 && FilledAll(o, l, dir.children) && ProperLeaves(dir.children)
    && |SuspOf(l, dir.id).dot| == dir.susp.dot < 222 && |SuspOf(l, dir.id).dotdot| == dir.susp.dotdot < 222
    && (if dir.id in l.ce then |l.ce[dir.id]| else 0) == LengthOf(ceLen, dir.id)
  }

  ghost predicate TreeFilled(o: R.Opts, ceLen: Lengths, l: Links, node: Node) {
    match node
    case Leaf(_, _) => true
    case Dir(_, _, children, _) => DirFilled(o, ceLen, l, node) && AllFilled(o, ceLen, l, children)
  }

  ghost predicate AllFilled(o: R.Opts, ceLen: Lengths, l: Links, nodes: seq<Node>) {
    nodes == [] || (TreeFilled(o, ceLen, l, nodes[0]) && AllFilled(o, ceLen, l, nodes[1..]))
  }

  lemma {:induction false} FilledAt(o: R.Opts, ceLen: Lengths, l: Links, nodes: seq<Node>, i: nat)
    requires i < |nodes| && AllFilled(o, ceLen, l, nodes)
    ensures TreeFilled(o, ceLen, l, nodes[i])
    decreases i
  {
    hide TreeFilled;
    if i > 0 {
      FilledAt(o, ceLen, l, nodes[1..], i - 1);
    }
  }

  /** The size computed before any address was known is the size of what gets written. */
  lemma SizeAgrees(o: R.Opts, ceLen: Lengths, l: Links, dir: Node, parent: nat)
    requires dir.Dir? && DirFilled(o, ceLen, l, dir) && SmallNumbers(l)
    ensures R.ValidDir(o, DirOf(l, dir, parent))
    ensures |R.DirExtent(o, DirOf(l, dir, parent))| == DirBytes(o, dir)
    ensures DirBytes(o, dir) == 2048 * DivUp(DirBytes(o, dir))
  {
    hide R.DirExtent, R.DirLen, WhereOf;
    var d := DirOf(l, dir, parent);
    DotsValid(o, l, dir, parent);
    assert R.ValidEntries(o, d.children) && R.HaveShapes(d.children, Shapes(dir.children));
    R.SizeOfExtent(o, d, Shapes(dir.children));
  }

  lemma DotsValid(o: R.Opts, l: Links, dir: Node, parent: nat)
    requires dir.Dir? && SmallNumbers(l) && |o.time| == 7
    requires |SuspOf(l, dir.id).dot| < 222 && |SuspOf(l, dir.id).dotdot| < 222
    ensures R.ValidEntry(o, DirOf(l, dir, parent).dot) && R.ValidEntry(o, DirOf(l, dir, parent).dotdot)
  {
    hide WhereOf, SuspOf, Entries;
  }

  // ---------------------------------------------------------------- The image

  /** The bytes are in the output from the given block on, if the output begins at block ms. */
  ghost predicate HoldsAt(out: Bytes, ms: nat, block: nat, bytes: Bytes) {
    ms <= block && 2048 * (block - ms) + |bytes| <= |out| && out[2048 * (block - ms)..][..|bytes|] == bytes
  }

  lemma HoldsLonger(out: Bytes, out': Bytes, ms: nat, block: nat, bytes: Bytes)
    requires HoldsAt(out, ms, block, bytes) && out <= out'
    ensures HoldsAt(out', ms, block, bytes)
  {
    var at := 2048 * (block - ms);
    assert out[at..][..|bytes|] == out[at..at + |bytes|] == out'[at..at + |bytes|] == out'[at..][..|bytes|];
  }

  /** The extents of all directories are at their places. */
  ghost predicate Stored(out: Bytes, ms: nat, o: R.Opts, ceLen: Lengths, l: Links, node: Node, parent: nat, cur: nat) {
    match node
    case Leaf(_, _) => true
    case Dir(id, _, children, _) =>
      && R.ValidDir(o, DirOf(l, node, parent)) && HoldsAt(out, ms, cur, R.DirExtent(o, DirOf(l, node, parent)))
      && |R.DirExtent(o, DirOf(l, node, parent))| == DirBytes(o, node) && ProperLeaves(children)
      && StoredAll(out, ms, o, ceLen, l, children, id, cur + OwnBlocks(o, ceLen, node))
  }

  ghost predicate StoredAll(out: Bytes, ms: nat, o: R.Opts, ceLen: Lengths, l: Links, nodes: seq<Node>, parent: nat,
                            cur: nat) {
    nodes == []
    || (Stored(out, ms, o, ceLen, l, nodes[0], parent, cur)
        && StoredAll(out, ms, o, ceLen, l, nodes[1..], parent, cur + Blocks(o, ceLen, nodes[0])))
  }

  lemma HoldsPrefix(out: Bytes, ms: nat, block: nat, bytes: Bytes, more: Bytes)
    requires HoldsAt(out, ms, block, more) && bytes <= more
    ensures HoldsAt(out, ms, block, bytes)
  {
    var rest := out[2048 * (block - ms)..];
    assert rest[..|bytes|] == rest[..|more|][..|bytes|];
  }

  lemma LeafIsStored(out: Bytes, ms: nat, o: R.Opts, ceLen: Lengths, l: Links, node: Node, parent: nat, cur: nat)
    requires node.Leaf?
    ensures Stored(out, ms, o, ceLen, l, node, parent, cur)
  {
  }

  /** What is written later does not matter. */
  lemma {:induction false} StoredLonger(out: Bytes, out': Bytes, ms: nat, o: R.Opts, ceLen: Lengths, l: Links,
                                        node: Node, parent: nat, cur: nat)
    requires Stored(out, ms, o, ceLen, l, node, parent, cur) && out <= out'
    ensures Stored(out', ms, o, ceLen, l, node, parent, cur)
    decreases node, 1
  {
    hide HoldsAt, DirOf, DirBytes, OwnBlocks, R.DirExtent;
    if node.Dir? {
      HoldsLonger(out, out', ms, cur, R.DirExtent(o, DirOf(l, node, parent)));
      StoredAllLonger(out, out', ms, o, ceLen, l, node.children, node.id, cur + OwnBlocks(o, ceLen, node));
    }
  }

  lemma {:induction false} StoredAllLonger(out: Bytes, out': Bytes, ms: nat, o: R.Opts, ceLen: Lengths, l: Links,
                                           nodes: seq<Node>, parent: nat, cur: nat)
    requires StoredAll(out, ms, o, ceLen, l, nodes, parent, cur) && out <= out'
    ensures StoredAll(out', ms, o, ceLen, l, nodes, parent, cur)
    decreases nodes, 0
  {
    hide Blocks;
    if nodes != [] {
      StoredLonger(out, out', ms, o, ceLen, l, nodes[0], parent, cur);
      StoredAllLonger(out, out', ms, o, ceLen, l, nodes[1..], parent, cur + Blocks(o, ceLen, nodes[0]));
    }
  }

  /** One more child */
  lemma {:induction false} StoredNext(out: Bytes, ms: nat, o: R.Opts, ceLen: Lengths, l: Links, nodes: seq<Node>,
                                      i: nat, parent: nat, cur: nat)
    requires i < |nodes| && StoredAll(out, ms, o, ceLen, l, nodes[..i], parent, cur)
    requires Stored(out, ms, o, ceLen, l, nodes[i], parent, cur + BlocksAll(o, ceLen, nodes[..i]))
    ensures StoredAll(out, ms, o, ceLen, l, nodes[..i + 1], parent, cur)
    decreases i
  {
    hide Blocks, Stored;
    PrefixTails(nodes, i);
    if i == 0 {
      assert nodes[..1][1..] == [];
    } else {
      StoredNext(out, ms, o, ceLen, l, nodes[1..], i - 1, parent, cur + Blocks(o, ceLen, nodes[0]));
    }
  }

  /** What write_dirs() did with a series of nodes */
  ghost predicate Done(before: Bytes, out: Bytes, ms: nat, o: R.Opts, ceLen: Lengths, l: Links, nodes: seq<Node>,
                       parent: nat, start: nat, cur: nat)
  {
    before <= out && cur == start + BlocksAll(o, ceLen, nodes) && StoredAll(out, ms, o, ceLen, l, nodes, parent, start)
  }

  lemma DoneNone(before: Bytes, ms: nat, o: R.Opts, ceLen: Lengths, l: Links, nodes: seq<Node>, parent: nat, start: nat)
    ensures Done(before, before, ms, o, ceLen, l, nodes[..0], parent, start, start)
  {
  }

  lemma DoneNext(before: Bytes, out: Bytes, out': Bytes, ms: nat, o: R.Opts, ceLen: Lengths, l: Links,
                 nodes: seq<Node>, i: nat, parent: nat, start: nat, cur: nat)
    requires i < |nodes| && Done(before, out, ms, o, ceLen, l, nodes[..i], parent, start, cur)
    requires out <= out' && Stored(out', ms, o, ceLen, l, nodes[i], parent, cur)
    ensures Done(before, out', ms, o, ceLen, l, nodes[..i + 1], parent, start, cur + Blocks(o, ceLen, nodes[i]))
  {
    hide Blocks, BlocksAll, Stored, StoredAll, Places, PlacesAll;
    ChildrenNext(o, ceLen, nodes, i, 0);
    StoredAllLonger(out, out', ms, o, ceLen, l, nodes[..i], parent, start);
    StoredNext(out', ms, o, ceLen, l, nodes, i, parent, start);
  }

  lemma DoneAll(before: Bytes, out: Bytes, ms: nat, o: R.Opts, ceLen: Lengths, l: Links, nodes: seq<Node>,
                parent: nat, start: nat, cur: nat)
    requires Done(before, out, ms, o, ceLen, l, nodes, parent, start, cur)
    ensures before <= out && cur == start + BlocksAll(o, ceLen, nodes)
            && StoredAll(out, ms, o, ceLen, l, nodes, parent, start)
  {
  }

  /** Each directory is in the output where its record in the parent says, with the size that its records say. */
  ghost predicate InImage(out: Bytes, ms: nat, o: R.Opts, l: Links, node: Node, parent: nat) {
    match node
    case Leaf(_, _) => true
    case Dir(id, _, children, _) =>
      && id in l.dirs && R.ValidDir(o, DirOf(l, node, parent))
      && HoldsAt(out, ms, l.dirs[id].block, R.DirExtent(o, DirOf(l, node, parent)))
      && |R.DirExtent(o, DirOf(l, node, parent))| == l.dirs[id].len && ProperLeaves(children)
      && InImageAll(out, ms, o, l, children, id)
  }

  ghost predicate InImageAll(out: Bytes, ms: nat, o: R.Opts, l: Links, nodes: seq<Node>, parent: nat) {
    nodes == [] || (InImage(out, ms, o, l, nodes[0], parent) && InImageAll(out, ms, o, l, nodes[1..], parent))
  }

  lemma {:induction false} InImageLonger(out: Bytes, out': Bytes, ms: nat, o: R.Opts, l: Links, node: Node, parent: nat)
    requires InImage(out, ms, o, l, node, parent) && out <= out'
    ensures InImage(out', ms, o, l, node, parent)
    decreases node, 1
  {
    hide HoldsAt, DirOf, R.DirExtent;
    if node.Dir? {
      HoldsLonger(out, out', ms, l.dirs[node.id].block, R.DirExtent(o, DirOf(l, node, parent)));
      InImageAllLonger(out, out', ms, o, l, node.children, node.id);
    }
  }

  lemma {:induction false} InImageAllLonger(out: Bytes, out': Bytes, ms: nat, o: R.Opts, l: Links, nodes: seq<Node>,
                                            parent: nat)
    requires InImageAll(out, ms, o, l, nodes, parent) && out <= out'
    ensures InImageAll(out', ms, o, l, nodes, parent)
    decreases nodes, 0
  {
    if nodes != [] {
      InImageLonger(out, out', ms, o, l, nodes[0], parent);
      InImageAllLonger(out, out', ms, o, l, nodes[1..], parent);
    }
  }

  /** What is stored at the places of the layout pass is written where the records say. */
  lemma {:induction false} StoredIsInImage(out: Bytes, ms: nat, o: R.Opts, ceLen: Lengths, l: Links, node: Node,
                                           parent: nat, cur: nat)
    requires Stored(out, ms, o, ceLen, l, node, parent, cur) && AllNoted(l.dirs, Places(o, ceLen, node, cur))
    ensures InImage(out, ms, o, l, node, parent)
    decreases node, 1
  {
    hide HoldsAt, DirOf, DirBytes, OwnBlocks, R.DirExtent;
    if node.Dir? {
      var first := Place(node.id, Where(cur, DirBytes(o, node)));
      var next := cur + OwnBlocks(o, ceLen, node);
      AllNotedParts(l.dirs, [first], PlacesAll(o, ceLen, node.children, next));
      assert [first][0] == first;
      StoredAllIsInImage(out, ms, o, ceLen, l, node.children, node.id, next);
    }
  }

  lemma {:induction false} StoredAllIsInImage(out: Bytes, ms: nat, o: R.Opts, ceLen: Lengths, l: Links,
                                              nodes: seq<Node>, parent: nat, cur: nat)
    requires StoredAll(out, ms, o, ceLen, l, nodes, parent, cur) && AllNoted(l.dirs, PlacesAll(o, ceLen, nodes, cur))
    ensures InImageAll(out, ms, o, l, nodes, parent)
    decreases nodes, 0
  {
    hide Blocks, AllNoted;
    if nodes != [] {
      AllNotedParts(l.dirs, Places(o, ceLen, nodes[0], cur),
                    PlacesAll(o, ceLen, nodes[1..], cur + Blocks(o, ceLen, nodes[0])));
      StoredIsInImage(out, ms, o, ceLen, l, nodes[0], parent, cur);
      StoredAllIsInImage(out, ms, o, ceLen, l, nodes[1..], parent, cur + Blocks(o, ceLen, nodes[0]));
    }
  }
}
