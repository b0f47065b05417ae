/**
 The layout pass and the write pass of the directory tree and the path tables: everything is written
 where the layout pass expects it (libisofs/ecma119.c).
 */
module Layout {
  import opened Common
  import opened DirPlaces
  import opened DirTree
  import opened IsoBytes
  import opened PathTable

  import R = DirRecords

  /** Member block of the directories */
  function BlockMap(dirs: Dirs): map<nat, nat> {
    map id | id in dirs :: dirs[id].block
  }

  /** The path table of the given byte order is in the output. */
  ghost predicate TableAt(out: Bytes, ms: nat, pos: nat, root: Node, dirs: Dirs, lType: bool) {
    exists list :: TableIs(out, ms, pos, root, list, dirs, lType)
  }

  ghost predicate TableIs(out: Bytes, ms: nat, pos: nat, root: Node, list: seq<Node>, dirs: Dirs, lType: bool) {
    && IsPathList(root, list) && ProperNames(list) && (forall k :: 0 <= k < |list| ==> list[k].id in BlockMap(dirs))
    && HoldsAt(out, ms, pos, TableBytes(root, list, BlockMap(dirs), lType, |list|))
  }

  lemma TableLonger(out: Bytes, out': Bytes, ms: nat, pos: nat, root: Node, dirs: Dirs, lType: bool)
    requires TableAt(out, ms, pos, root, dirs, lType) && out <= out'
    ensures TableAt(out', ms, pos, root, dirs, lType)
  {
    hide HoldsAt, IsPathList, ProperNames, TableBytes, BlockMap;
    var list :| TableIs(out, ms, pos, root, list, dirs, lType);
    HoldsLonger(out, out', ms, pos, TableBytes(root, list, BlockMap(dirs), lType, |list|));
    assert TableIs(out', ms, pos, root, list, dirs, lType);
  }

  /** What matters of an Ecma119Image. Member output collects what goes to iso_write(). */
  class TreeTarget {
    const opts: R.Opts
    const ceLen: Lengths
    const msBlock: nat
    const sessionChecksum: bool
    var curblock: nat
    var ndirs: nat
    var dirs: Dirs
    var lPathTablePos: nat
    var mPathTablePos: nat
    var pathTableSize: nat
    var treeEndBlock: nat
    var bytesWritten: nat
    var output: Bytes

    constructor (opts: R.Opts, ceLen: Lengths, msBlock: nat, sessionChecksum: bool)
      ensures this.opts == opts && this.ceLen == ceLen && this.msBlock == msBlock
              && this.sessionChecksum == sessionChecksum
      ensures Aligned() && output == [] && curblock == msBlock == Position() && dirs == map[]
    {
      this.opts, this.ceLen, this.msBlock, this.sessionChecksum := opts, ceLen, msBlock, sessionChecksum;
      curblock, ndirs, dirs, bytesWritten := msBlock, 0, map[], 0;
      output := [];
    }

    /** The output consists of whole blocks. */
    ghost predicate Aligned()
      reads this
    {
      bytesWritten == |output| && bytesWritten % 2048 == 0
    }

    /** The block of the output position */
    function Position(): nat
      reads this
    {
      bytesWritten / 2048 + msBlock
    }

    // -------------------------------------------------------------- The layout pass

    /** calc_dir_pos() */
    method CalcDirPos(dir: Node)
      requires dir.Dir?
      modifies this`curblock, this`ndirs, this`dirs
      ensures curblock == old(curblock) + Blocks(opts, ceLen, dir) && ndirs == old(ndirs) + CountDirs(dir)
      ensures dirs == Noted(old(dirs), Places(opts, ceLen, dir, old(curblock)))
      decreases dir
    {
      ndirs := ndirs + 1;
      hide R.DirLen, R.FitsAll;
      var len := R.CalcDirSize(opts, dir.susp.dot, dir.susp.dotdot, Shapes(dir.children));
      dirs := dirs[dir.id := Where(curblock, len)];
      assert len == DirBytes(opts, dir);
      curblock := curblock + DivUp(len);
      curblock := curblock + DivUp(LengthOf(ceLen, dir.id));
      assert curblock == old(curblock) + OwnBlocks(opts, ceLen, dir);
      hide *;
      CalcChildrenPos(dir.children);
      LaidDir(opts, ceLen, dir, old(curblock), old(ndirs), old(dirs), curblock, ndirs, dirs);
    }

    /** The loop over the children in calc_dir_pos() */
    method CalcChildrenPos(children: seq<Node>)
      modifies this`curblock, this`ndirs, this`dirs
      ensures Laid(opts, ceLen, children, old(curblock), old(ndirs), old(dirs), curblock, ndirs, dirs)
      decreases children
    {
      hide *;
      LaidNone(opts, ceLen, children, curblock, ndirs, dirs);
      for i := 0 to |children|
        invariant Laid(opts, ceLen, children[..i], old(curblock), old(ndirs), old(dirs), curblock, ndirs, dirs)
      {
        LaidNext(opts, ceLen, children, i, old(curblock), old(ndirs), old(dirs), curblock, ndirs, dirs);
        if children[i].Dir? {
          CalcDirPos(children[i]);
        }
      }
      assert children[..|children|] == children;
    }

    /** calc_path_table_size() */
    method CalcPathTableSize(dir: Node, isRoot: bool) returns (size: nat)
      requires dir.Dir?
      ensures size == TableSize(dir, isRoot)
      decreases dir
    {
      size := 8;
      size := size + if isRoot then 1 else |dir.name|;
      size := size + size % 2;
      ghost var own := size;
      NoChildren(opts, ceLen, dir.children, 0, map[]);
      for i := 0 to |dir.children|
        invariant size == own + TableSizeAll(dir.children[..i])
      {
        CountsNext(dir.children, i);
        if dir.children[i].Dir? {
          var more := CalcPathTableSize(dir.children[i], false);
          size := size + more;
        } else {
          LeafHasNothing(opts, ceLen, dir.children[i], 0);
        }
      }
      assert dir.children[..|dir.children|] == dir.children;
    }

    /** The state between the passes, if the layout pass started at the given block */
    ghost predicate LaidOut(root: Node, start: nat)
      reads this
    {
      var tableBlocks := DivUp(TableSize(root, true));
      && root.Dir? && ndirs == CountDirs(root) && AllNoted(dirs, Places(opts, ceLen, root, start))
      && pathTableSize == TableSize(root, true)
      && lPathTablePos == start + Blocks(opts, ceLen, root)
      && mPathTablePos == lPathTablePos + tableBlocks
      && treeEndBlock == mPathTablePos + tableBlocks + (if sessionChecksum then 1 else 0)
    }

    /** ecma119_writer_compute_data_blocks() without a second tree for a partition */
    method ComputeDataBlocks(root: Node)
      requires root.Dir? && DistinctIds(DirsOf(root))
      modifies this`curblock, this`ndirs, this`dirs, this`lPathTablePos, this`mPathTablePos, this`pathTableSize,
               this`treeEndBlock
      ensures LaidOut(root, old(curblock)) && curblock == treeEndBlock
      ensures dirs == Noted(old(dirs), Places(opts, ceLen, root, old(curblock)))
    {
      ndirs := 0;
      CalcDirPos(root);
      AllNotedRight(old(dirs), opts, ceLen, root, old(curblock));
      hide *;
      var size := CalcPathTableSize(root, true);
      lPathTablePos := curblock;
      curblock := curblock + DivUp(size);
      mPathTablePos := curblock;
      curblock := curblock + DivUp(size);
      pathTableSize := size;
      if sessionChecksum {
        curblock := curblock + 1;
      }
      treeEndBlock := curblock;
    }

    // -------------------------------------------------------------- The write pass

    /** iso_write() */
    method Write(data: Bytes)
      requires bytesWritten == |output|
      modifies this`bytesWritten, this`output
      ensures bytesWritten == |output| && output == old(output) + data
    {
      output := output + data;
      bytesWritten := bytesWritten + |data|;
    }

    /** iso_write() of whole blocks */
    method WriteBlocks(data: Bytes, ghost n: nat)
      requires |data| == 2048 * n && Aligned()
      modifies this`bytesWritten, this`output
      ensures Aligned() && Position() == old(Position()) + n
      ensures old(output) <= output && HoldsAt(output, msBlock, old(Position()), data)
    {
      ghost var before := output;
      Write(data);
      assert output[|before|..] == data && data[..|data|] == data;
    }

    /** rrip_write_ce_fields(): the continuation area, padded to whole blocks */
    method WriteContinuation(data: Bytes)
      requires Aligned()
      modifies this`bytesWritten, this`output
      ensures Aligned() && Position() == old(Position()) + DivUp(|data|) && old(output) <= output
    {
      if |data| > 0 {
        Write(data);
        var pad := 2048 - |data| % 2048;
        if 0 < pad < 2048 {
          Write(Zeros(pad));
        }
      }
    }

    /** write_one_dir(): the extent, and the continuation area padded to whole blocks */
    method WriteOneDir(dir: Node, parent: nat, l: Links)
      requires dir.Dir? && Aligned() && DirFilled(opts, ceLen, l, dir) && SmallNumbers(l)
      modifies this`bytesWritten, this`output
      ensures Aligned() && old(output) <= output
      ensures R.ValidDir(opts, DirOf(l, dir, parent))
      ensures HoldsAt(output, msBlock, old(Position()), R.DirExtent(opts, DirOf(l, dir, parent)))
      ensures |R.DirExtent(opts, DirOf(l, dir, parent))| == DirBytes(opts, dir) && ProperLeaves(dir.children)
      ensures Position() == old(Position()) + OwnBlocks(opts, ceLen, dir)
    {
      hide R.ValidDir, R.DirExtent, DirBytes, DirOf, HoldsAt;
      SizeAgrees(opts, ceLen, l, dir, parent);
      var extent := R.WriteOneDir(opts, DirOf(l, dir, parent));
      WriteBlocks(extent, DivUp(DirBytes(opts, dir)));
      ghost var before := output;
      var area := if dir.id in l.ce then l.ce[dir.id] else [];
      WriteContinuation(area);
      HoldsLonger(before, output, msBlock, old(Position()), extent);
    }

    /** write_dirs() */
    method WriteDirs(dir: Node, parent: nat, l: Links)
      requires dir.Dir? && Aligned() && TreeFilled(opts, ceLen, l, dir) && SmallNumbers(l)
      modifies this`bytesWritten, this`output
      ensures Aligned() && old(output) <= output
      ensures Position() == old(Position()) + Blocks(opts, ceLen, dir)
      ensures Stored(output, msBlock, opts, ceLen, l, dir, parent, old(Position()))
      decreases dir
    {
      hide R.ValidDir, R.DirExtent, DirBytes, DirOf, HoldsAt, OwnBlocks, DirFilled;
      WriteOneDir(dir, parent, l);
      ghost var before := output;
      WriteChildren(dir.children, dir.id, l);
      HoldsLonger(before, output, msBlock, old(Position()), R.DirExtent(opts, DirOf(l, dir, parent)));
    }

    /** The loop over the children in write_dirs() */
    method WriteChildren(children: seq<Node>, parent: nat, l: Links)
      requires Aligned() && AllFilled(opts, ceLen, l, children) && SmallNumbers(l)
      modifies this`bytesWritten, this`output
      ensures Aligned() && old(output) <= output
      ensures Position() == old(Position()) + BlocksAll(opts, ceLen, children)
      ensures StoredAll(output, msBlock, opts, ceLen, l, children, parent, old(Position()))
      decreases children
    {
      hide AllFilled, TreeFilled, SmallNumbers, Blocks, BlocksAll, Stored, StoredAll, Done;
      ghost var before, start := output, Position();
      DoneNone(before, msBlock, opts, ceLen, l, children, parent, start);
      for i := 0 to |children|
        invariant Aligned() && Done(before, output, msBlock, opts, ceLen, l, children[..i], parent, start, Position())
      {
        ghost var out, cur := output, Position();
        FilledAt(opts, ceLen, l, children, i);
        if children[i].Dir? {
          WriteDirs(children[i], parent, l);
        } else {
          LeafHasNothing(opts, ceLen, children[i], 0);
          LeafIsStored(output, msBlock, opts, ceLen, l, children[i], parent, cur);
        }
        DoneNext(before, out, output, msBlock, opts, ceLen, l, children, i, parent, start, cur);
      }
      assert children[..|children|] == children;
      DoneAll(before, output, msBlock, opts, ceLen, l, children, parent, start, Position());
    }

    /** write_path_tables() */
    method WritePathTables(root: Node, parentOf: map<nat, nat>)
      requires root.Dir? && ndirs == CountDirs(root) && Aligned()
      requires ProperTree(root, parentOf) && forall i :: 0 <= i < |DirsOf(root)| ==>
               DirsOf(root)[i].id in BlockMap(dirs)
      modifies this`bytesWritten, this`output
      ensures Aligned() && old(output) <= output && Position() == old(Position()) + 2 * DivUp(TableSize(root, true))
      ensures TableAt(output, msBlock, old(Position()), root, dirs, true)
      ensures TableAt(output, msBlock, old(Position()) + DivUp(TableSize(root, true)), root, dirs, false)
    {
      hide *;
      var pathlist := PathList(root, ndirs);
      TreeIsWritable(root, pathlist[..], parentOf, BlockMap(dirs));
      ListOfDirs(root, pathlist[..]);
      WriteTable(pathlist, parentOf, true, root);
      ghost var before := output;
      WriteTable(pathlist, parentOf, false, root);
      TableLonger(before, output, msBlock, old(Position()), root, dirs, true);
    }

    /** One of the two path tables */
    method WriteTable(pathlist: array<Node>, parentOf: map<nat, nat>, lType: bool, ghost root: Node)
      requires Writable(root, pathlist[..], parentOf, BlockMap(dirs)) && Aligned()
      requires AllDirs(pathlist[..]) && ListSize(pathlist[..], pathlist.Length) == TableSize(root, true)
      modifies this`bytesWritten, this`output
      ensures Aligned() && old(output) <= output && Position() == old(Position()) + DivUp(TableSize(root, true))
      ensures TableAt(output, msBlock, old(Position()), root, dirs, lType)
    {
      hide Writable, TableBytes, ListSize, AllDirs, TableSize, IsPathList, ProperNames, IsPadded, BlockMap, HoldsAt;
      WritableFacts(root, pathlist[..], parentOf, BlockMap(dirs));
      ghost var bytes := TableBytes(root, pathlist[..], BlockMap(dirs), lType, pathlist.Length);
      assert |bytes| == TableSize(root, true);
      var table := WritePathTable(pathlist, parentOf, BlockMap(dirs), lType, root);
      PaddedBlocks(bytes, table);
      WriteBlocks(table, DivUp(|bytes|));
      HoldsPrefix(output, msBlock, old(Position()), bytes, table);
      assert TableIs(output, msBlock, old(Position()), root, pathlist[..], dirs, lType);
    }

    /** The comparison at the end of ecma119_writer_write_data() */
    method CheckTreeEnd() returns (warned: bool)
      modifies this`treeEndBlock
      ensures warned <==> old(Position()) != old(treeEndBlock)
      ensures treeEndBlock == if warned then 1 else old(treeEndBlock)
    {
      var curblock := bytesWritten / 2048 + msBlock;
      warned := curblock != treeEndBlock;
      if warned {
        treeEndBlock := 1;
      }
    }

    /** ecma119_writer_write_data(): each directory is found in the output at the block which was assigned to
        it, with the size which was computed for it, both tables are at their blocks, and the warning about
        the tree end does not come up. */
    method WriteData(root: Node, parentOf: map<nat, nat>, l: Links, tag: Bytes, ghost start: nat) returns (warned: bool)
      requires LaidOut(root, start) && Aligned() && Position() == start
      requires ProperTree(root, parentOf) && |tag| == 2048
      requires l.dirs == dirs && TreeFilled(opts, ceLen, l, root) && SmallNumbers(l)
      modifies this`bytesWritten, this`output, this`treeEndBlock
      ensures Aligned() && old(output) <= output
      ensures InImage(output, msBlock, opts, l, root, root.id)
      ensures TableAt(output, msBlock, lPathTablePos, root, dirs, true)
      ensures TableAt(output, msBlock, mPathTablePos, root, dirs, false)
      ensures Position() == treeEndBlock && treeEndBlock == old(treeEndBlock) && !warned
    {
      hide *;
      LaidOutFacts(root, start);
      WriteDirs(root, root.id, l);
      StoredIsInImage(output, msBlock, opts, ceLen, l, root, root.id, start);
      ghost var before := output;
      WritePathTables(root, parentOf);
      ghost var tables := output;
      if sessionChecksum {
        WriteBlocks(tag, 1);
      }
      InImageLonger(before, output, msBlock, opts, l, root, root.id);
      TableLonger(tables, output, msBlock, lPathTablePos, root, dirs, true);
      TableLonger(tables, output, msBlock, mPathTablePos, root, dirs, false);
      warned := CheckTreeEnd();
    }

    lemma LaidOutFacts(root: Node, start: nat)
      requires LaidOut(root, start)
      ensures root.Dir? && ndirs == CountDirs(root) && AllNoted(dirs, Places(opts, ceLen, root, start))
      ensures var tableBlocks := DivUp(TableSize(root, true));
        && lPathTablePos == start + Blocks(opts, ceLen, root) && mPathTablePos == lPathTablePos + tableBlocks
        && treeEndBlock == mPathTablePos + tableBlocks + (if sessionChecksum then 1 else 0)
      ensures forall i :: 0 <= i < |DirsOf(root)| ==> DirsOf(root)[i].id in BlockMap(dirs)
    {
      hide Places, DirsOf, Blocks, TableSize, CountDirs;
      PlacesOfDirs(opts, ceLen, root, start);
      var places := Places(opts, ceLen, root, start);
      forall i | 0 <= i < |DirsOf(root)| ensures DirsOf(root)[i].id in BlockMap(dirs) {
        assert places[i].id in dirs;
      }
    }
  }

  lemma ListOfDirs(root: Node, list: seq<Node>)
    requires IsPathList(root, list)
    ensures AllDirs(list)
  {
  }

  lemma WritableFacts(root: Node, list: seq<Node>, parentOf: map<nat, nat>, block: map<nat, nat>)
    requires Writable(root, list, parentOf, block)
    ensures IsPathList(root, list) && ProperNames(list) && forall k :: 0 <= k < |list| ==> list[k].id in block
  {
  }

  /** The tree is one with distinct nodes, with names that fit into the path table, and with parent
      pointers from the directories to where they are. */
  ghost predicate ProperTree(root: Node, parentOf: map<nat, nat>) {
    && root.Dir? && DistinctIds(DirsOf(root))
    && (forall n :: n in DirsOf(root) && n != root ==> 1 <= |n.name| <= 55 && n.id in parentOf)
    && forall n, c :: n in DirsOf(root) && c in Subdirs(n.children) && c.id in parentOf ==> parentOf[c.id] == n.id
  }

  lemma TreeIsWritable(root: Node, list: seq<Node>, parentOf: map<nat, nat>, block: map<nat, nat>)
    requires ProperTree(root, parentOf) && IsPathList(root, list) && multiset(list) == multiset(DirsOf(root))
    requires forall i :: 0 <= i < |DirsOf(root)| ==> DirsOf(root)[i].id in block
    ensures Writable(root, list, parentOf, block)
  {
    var dirs := DirsOf(root);
    DistinctRearranged(dirs, list);
    hide Subdirs, FirstChild, DirsOf;
    forall k | 0 <= k < |list| ensures list[k] in dirs && list[k].id in block && (k > 0 ==> list[k] != root) {
      InRearranged(list, dirs, k);
      var i :| 0 <= i < |dirs| && dirs[i] == list[k];
    }
    ListHasParents(root, list, parentOf);
  }

  lemma InRearranged<T>(a: seq<T>, b: seq<T>, k: nat)
    requires multiset(a) == multiset(b) && k < |a|
    ensures a[k] in b
  {
    assert a[k] in multiset(a);
  }

  lemma ListHasParents(root: Node, list: seq<Node>, parentOf: map<nat, nat>)
    requires ProperTree(root, parentOf) && AllDirs(list)
    requires forall k :: 0 <= k < |list| ==> list[k] in DirsOf(root) && (k > 0 ==> list[k] != root)
    ensures ParentsRight(list, parentOf)
  {
    hide Subdirs, DirsOf, DistinctIds;
    forall p, c | 0 <= p < |list| && 0 <= c < |SubdirsAt(list, p)| && SubdirsAt(list, p)[c].id in parentOf
      ensures parentOf[SubdirsAt(list, p)[c].id] == list[p].id
    {
      assert SubdirsAt(list, p)[c] in Subdirs(list[p].children);
    }
  }

  lemma PaddedBlocks(table: Bytes, out: Bytes)
    requires IsPadded(table, out)
    ensures |out| == 2048 * DivUp(|table|) && table <= out
  {
  }
}
