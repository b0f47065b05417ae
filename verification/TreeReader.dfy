/**
 The whole directory tree as it gets read back from an image that was laid out and written
 (libisofs/ecma119.c, libisofs/fs_image.c).
 */
module TreeReader {
  import opened Common
  import opened DirPlaces
  import opened DirTree
  import opened IsoBytes

  import D = DirReader
  import L = Layout
  import R = DirRecords

  /** A file source with the children that its directory has */
  datatype Source = Source(file: D.IfsFile, children: seq<Source>)

  /** The image as a source of blocks. Behind its end there is nothing but zeros. */
  function BlockOf(out: Bytes, ms: nat, block: nat): (r: Bytes)
    ensures |r| == 2048
  {
    if block >= ms && 2048 * (block - ms) + 2048 <= |out| then out[2048 * (block - ms)..2048 * (block - ms) + 2048]
    else Zeros(2048)
  }

  function Reader(out: Bytes, ms: nat): nat -> Bytes {
    b => BlockOf(out, ms, b)
  }

  lemma HoldsOnMedium(out: Bytes, ms: nat, block: nat, extent: Bytes)
    requires HoldsAt(out, ms, block, extent)
    ensures D.OnMedium(Reader(out, ms), block, extent)
  {
    var at := 2048 * (block - ms);
    forall b | 0 <= b && 2048 * b + 2048 <= |extent|
      ensures Reader(out, ms)(block + b) == extent[2048 * b..2048 * b + 2048]
    {
      assert out[at..][..|extent|][2048 * b..2048 * b + 2048] == out[at + 2048 * b..at + 2048 * b + 2048];
    }
  }

  /** What should be read of the children of a directory: the last one first, each one with all its
      sections, and the directories with their own children */
  ghost predicate Matches(o: R.Opts, l: Links, sources: seq<Source>, nodes: seq<Node>)
  {
    |sources| == |nodes| && forall i :: 0 <= i < |nodes| ==> MatchesNode(o, l, sources[|nodes| - 1 - i], nodes[i])
  }

  ghost predicate MatchesNode(o: R.Opts, l: Links, source: Source, node: Node)
    decreases node
  {
    && R.ValidEntry(o, EntryOf(l, node)) && source.file == D.FileOf(o, EntryOf(l, node))
    && match node
       case Leaf(_, _) => source.children == []
       case Dir(_, _, children, _) =>
         |source.children| == |children|
         && forall i :: 0 <= i < |children| ==>
              MatchesNode(o, l, source.children[|children| - 1 - i], children[i])
  }

  lemma {:induction false} ReversedAt(o: R.Opts, es: seq<R.Entry>, i: nat)
    requires R.ValidEntries(o, es) && i < |es|
    ensures |D.FilesReversed(o, es)| == |es| && D.FilesReversed(o, es)[|es| - 1 - i] == D.FileOf(o, es[i])
  {
    hide D.FileOf, R.ValidEntry;
    if |es| > 1 {
      ReversedAt(o, es[1..], if i == 0 then 0 else i - 1);
    }
  }

  lemma {:induction false} InImageAt(out: Bytes, ms: nat, o: R.Opts, l: Links, nodes: seq<Node>, parent: nat, i: nat)
    requires i < |nodes| && InImageAll(out, ms, o, l, nodes, parent)
    ensures InImage(out, ms, o, l, nodes[i], parent)
    decreases i
  {
    hide InImage;
    if i > 0 {
      InImageAt(out, ms, o, l, nodes[1..], parent, i - 1);
    }
  }

  /** What the image tells about a directory and about its children */
  lemma DirFacts(out: Bytes, ms: nat, o: R.Opts, l: Links, dir: Node, parent: nat)
    requires dir.Dir? && InImage(out, ms, o, l, dir, parent)
    ensures var d := DirOf(l, dir, parent);
      && R.ValidDir(o, d) && D.OnMedium(Reader(out, ms), WhereOf(l, dir.id).block, R.DirExtent(o, d))
      && d.dot.sections[0].size == |R.DirExtent(o, d)| && d.children == Entries(l, dir.children)
    ensures InImageAll(out, ms, o, l, dir.children, dir.id) && ProperLeaves(dir.children)
  {
    hide InImageAll, R.ValidDir, R.DirExtent, HoldsAt, D.OnMedium, Entries;
    HoldsOnMedium(out, ms, WhereOf(l, dir.id).block, R.DirExtent(o, DirOf(l, dir, parent)));
  }

  lemma ChildFacts(out: Bytes, ms: nat, o: R.Opts, l: Links, dir: Node, i: nat)
    requires dir.Dir? && R.ValidEntries(o, Entries(l, dir.children)) && i < |dir.children|
    requires InImageAll(out, ms, o, l, dir.children, dir.id) && ProperLeaves(dir.children)
    ensures var child := dir.children[i]; var files := D.FilesReversed(o, Entries(l, dir.children));
      && R.ValidEntry(o, EntryOf(l, child)) && |files| == |dir.children|
      && files[|dir.children| - 1 - i] == D.FileOf(o, EntryOf(l, child))
      && files[|dir.children| - 1 - i].isDir == child.Dir?
      && InImage(out, ms, o, l, child, dir.id)
      && (child.Dir? ==> EntryOf(l, child).sections == [DirSection(l, child.id)])
  {
    hide InImage, InImageAll, R.ValidEntry, D.FilesReversed;
    ReversedAt(o, Entries(l, dir.children), i);
    InImageAt(out, ms, o, l, dir.children, dir.id, i);
    assert Entries(l, dir.children)[i] == EntryOf(l, dir.children[i]);
  }

  /** The first sources match the last children. */
  ghost predicate MatchesLast(o: R.Opts, l: Links, sources: seq<Source>, nodes: seq<Node>) {
    |sources| <= |nodes| && forall j :: 0 <= j < |sources| ==> MatchesNode(o, l, sources[j], nodes[|nodes| - 1 - j])
  }

  lemma MatchesMore(o: R.Opts, l: Links, sources: seq<Source>, nodes: seq<Node>, source: Source)
    requires MatchesLast(o, l, sources, nodes) && |sources| < |nodes|
    requires MatchesNode(o, l, source, nodes[|nodes| - 1 - |sources|])
    ensures MatchesLast(o, l, sources + [source], nodes)
  {
    hide MatchesNode;
  }

  lemma MatchesAll(o: R.Opts, l: Links, sources: seq<Source>, nodes: seq<Node>)
    requires MatchesLast(o, l, sources, nodes) && |sources| == |nodes|
    ensures Matches(o, l, sources, nodes)
  {
    hide MatchesNode;
  }

  lemma SourceMatches(o: R.Opts, l: Links, file: D.IfsFile, children: seq<Source>, node: Node)
    requires R.ValidEntry(o, EntryOf(l, node)) && file == D.FileOf(o, EntryOf(l, node))
    requires if node.Dir? then Matches(o, l, children, node.children) else children == []
    ensures MatchesNode(o, l, Source(file, children), node)
  {
    hide R.ValidEntry, EntryOf, D.FileOf;
  }

  /** Reading a directory, and the directories in it: each one is found at the block which the record in
      its parent tells. */
  method ReadTree(read: nat -> Bytes, block: nat, ghost out: Bytes, ghost ms: nat, ghost o: R.Opts, ghost l: Links,
                  ghost dir: Node, ghost parent: nat)
    returns (sources: seq<Source>)
    requires dir.Dir? && read == Reader(out, ms) && InImage(out, ms, o, l, dir, parent)
    requires block == WhereOf(l, dir.id).block
    ensures Matches(o, l, sources, dir.children)
    decreases dir
  {
    hide InImage, InImageAll, R.ValidEntry, R.DirExtent, D.FilesReversed, D.FileOf, D.OnMedium, MatchesNode, Matches,
         Reader;
    hide MatchesLast, ProperLeaves, EntryOf;
    ghost var d := DirOf(l, dir, parent);
    DirFacts(out, ms, o, l, dir, parent);
    var content := D.ReadBack(o, d, read, block);
    sources := [];
    NoSources(o, l, dir.children);
    ghost var n := |dir.children|;
    assert |content.files| == n by {
      if n > 0 {
        ChildFacts(out, ms, o, l, dir, 0);
      } else {
        NoFiles(o);
      }
    }
    for k := 0 to |content.files|
      invariant MatchesLast(o, l, sources, dir.children) && |sources| == k
    {
      ghost var child := dir.children[n - 1 - k];
      ChildFacts(out, ms, o, l, dir, n - 1 - k);
      var file := content.files[k];
      var children := [];
      if file.isDir {
        SectionOfDir(o, l, child);
        children := ReadTree(read, file.sections[0].block, out, ms, o, l, child, dir.id);
      }
      SourceMatches(o, l, file, children, child);
      MatchesMore(o, l, sources, dir.children, Source(file, children));
      sources := sources + [Source(file, children)];
    }
    MatchesAll(o, l, sources, dir.children);
  }

  lemma NoSources(o: R.Opts, l: Links, nodes: seq<Node>)
    ensures MatchesLast(o, l, [], nodes)
  {
  }

  lemma NoFiles(o: R.Opts)
    ensures D.FilesReversed(o, []) == []
  {
  }

  lemma SectionOfDir(o: R.Opts, l: Links, node: Node)
    requires node.Dir? && R.ValidEntry(o, EntryOf(l, node))
    ensures D.FileOf(o, EntryOf(l, node)).sections == [R.Section(WhereOf(l, node.id).block, WhereOf(l, node.id).len)]
  {
  }

  /** The places which the layout pass assigns */
  function Assigned(l: Links, o: R.Opts, ceLen: Lengths, ms: nat, root: Node): Links {
    l.(dirs := Noted(map[], Places(o, ceLen, root, ms)))
  }

  lemma RootPlace(l: Links, o: R.Opts, ceLen: Lengths, ms: nat, root: Node)
    requires root.Dir? && AllNoted(l.dirs, Places(o, ceLen, root, ms))
    ensures WhereOf(l, root.id).block == ms
  {
    assert Places(o, ceLen, root, ms)[0] == Place(root.id, Where(ms, DirBytes(o, root)));
  }

  /** Laying out a tree, writing it with all that was filled in after the layout, and reading it from the
      first block on gives the tree back. */
  method LayOutWriteAndRead(o: R.Opts, ceLen: Lengths, ms: nat, sessionChecksum: bool, root: Node,
                            parentOf: map<nat, nat>, filling: Links, tag: Bytes)
    returns (sources: seq<Source>)
    requires L.ProperTree(root, parentOf) && |tag| == 2048
    requires var l := Assigned(filling, o, ceLen, ms, root); TreeFilled(o, ceLen, l, root) && SmallNumbers(l)
    ensures Matches(o, Assigned(filling, o, ceLen, ms, root), sources, root.children)
  {
    ghost var l := Assigned(filling, o, ceLen, ms, root);
    assert l.dirs == Noted(map[], Places(o, ceLen, root, ms)) && root.Dir? && DistinctIds(DirsOf(root));
    hide *;
    var target := new L.TreeTarget(o, ceLen, ms, sessionChecksum);
    target.ComputeDataBlocks(root);
    target.LaidOutFacts(root, ms);
    RootPlace(l, o, ceLen, ms, root);
    var links := filling.(dirs := target.dirs);
    assert links == l;
    var _ := target.WriteData(root, parentOf, links, tag, ms);
    var image := Reader(target.output, ms);
    sources := ReadTree(image, ms, target.output, ms, o, l, root, root.id);
  }
}
