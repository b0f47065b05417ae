/**
 Relocation of deep directories (libisofs/ecma119_tree.c): reparent(), reorder_tree() and the call
 made by ecma119_tree_create().

 The node structs are held by a field that the methods reassign, so that the child lists change
 under the running loops exactly as they do in the original.
 */
module Relocation {
  import opened Common
  import opened EcmaTree

  class Ecma119Image {
    const root: NodeId
    /** The relocation target; create_tree() lets it default to the root. */
    const rrRelocNode: Option<NodeId>
    /** Option rr_reloc_dir: None and "" both mean the root directory. */
    const rrRelocDir: Option<string>
    /** Bit 1 of rr_reloc_flags: the relocation directory was created automatically. */
    const autoCreated: bool

    /** The node structs, with the child lists, parent links and names that get changed. */
    var nodes: Tree

    /** Depth and path length of the directories that have got their final place. */
    ghost var level: map<NodeId, nat>
    ghost var pathLen: map<NodeId, nat>

    constructor (root: NodeId, rrRelocNode: Option<NodeId>, rrRelocDir: Option<string>, autoCreated: bool,
                 nextId: NodeId, nodeType: map<NodeId, NodeType>, isoName: map<NodeId, string>,
                 parent: map<NodeId, NodeId>, children: map<NodeId, seq<NodeId>>)
      ensures this.root == root && this.rrRelocNode == rrRelocNode && this.rrRelocDir == rrRelocDir
      ensures this.autoCreated == autoCreated
      ensures nodes == Tree(root, Target(), nextId, nodeType, isoName, parent, children, map[], map[], children)
    {
      this.root, this.rrRelocNode, this.rrRelocDir, this.autoCreated := root, rrRelocNode, rrRelocDir, autoCreated;
      this.nodes := Tree(root, if rrRelocNode.None? then root else rrRelocNode.value, nextId, nodeType, isoName,
                         parent, children, map[], map[], children);
      this.level, this.pathLen := map[], map[];
    }

    function Target(): NodeId {
      if rrRelocNode.None? then root else rrRelocNode.value
    }

    /** ecma119_is_dedicated_reloc_dir() */
    predicate IsDedicatedRelocDir(n: NodeId) {
      rrRelocNode == Some(n) && n != root && autoCreated
    }

    predicate Dedicated() {
      IsDedicatedRelocDir(Target())
    }

    /** The relocation target is the root, unless an option names another directory. */
    predicate OptionsFit()
      reads this
    {
      nodes.root == root && nodes.target == Target()
        && (Target() != root ==> rrRelocDir.Some? && rrRelocDir.value != "")
    }

    /** max_child_name_len() */
    method MaxChildNameLen(dir: NodeId) returns (ret: nat)
      requires nodes.IsTree() && dir in nodes.children
      ensures nodes.IsLongestName(dir, ret)
    {
      assert nodes.OwnsKids(dir);
      var list := nodes.children[dir];
      ret := 0;
      for i := 0 to |list|
        invariant forall k :: 0 <= k < i ==> |nodes.isoName[list[k]]| <= ret
        invariant ret == 0 || exists k :: 0 <= k < i && |nodes.isoName[list[k]]| == ret
      {
        ret := Max(ret, |nodes.isoName[list[i]]|);
      }
    }

    /** create_placeholder() */
    method CreatePlaceholder(par: NodeId, realDir: NodeId) returns (p: NodeId)
      requires realDir in nodes.isoName
      modifies this`nodes
      ensures p == old(nodes.nextId)
      ensures nodes == old(nodes).(nextId := p + 1,
                                   nodeType := old(nodes).nodeType[p := Placeholder],
                                   isoName := old(nodes).isoName[p := old(nodes).isoName[realDir]],
                                   parent := old(nodes).parent[p := par],
                                   realMe := old(nodes).realMe[p := realDir])
    {
      p := nodes.nextId;
      nodes := nodes.(nextId := nodes.nextId + 1);
      nodes := nodes.(isoName := nodes.isoName[p := nodes.isoName[realDir]]);
      nodes := nodes.(parent := nodes.parent[p := par]);
      nodes := nodes.(nodeType := nodes.nodeType[p := Placeholder]);
      nodes := nodes.(realMe := nodes.realMe[p := realDir]);
    }

    /** reparent(): the result false is the assertion failure of the original. */
    method Reparent(child: NodeId, newParent: NodeId) returns (ok: bool, ghost at: nat)
      requires nodes.IsTree() && nodes.KeepsMeaning()
      requires child in nodes.children && child != nodes.root && child != nodes.target && child !in nodes.realParent
      requires newParent == nodes.target && child in nodes.parent && nodes.parent[child] != newParent
      modifies this`nodes
      ensures ok
      ensures old(nodes).Movable(child, at) && nodes == old(nodes).Moved(child, at)
    {
      assert nodes.Listed(child);
      at := 0;
      var i := 0;
      var origParent := nodes.parent[child];
      var n := |nodes.children[origParent]|;
      while i < n
        invariant 0 <= i <= n
        invariant forall k :: 0 <= k < i ==> nodes.children[origParent][k] != child
        invariant nodes == old(nodes)
      {
        if nodes.children[origParent][i] == child {
          at := i;
          var placeholder := CreatePlaceholder(origParent, child);
          var list := nodes.children[origParent];
          nodes := nodes.(children := nodes.children[origParent := list[i := placeholder]]);
          break;
        }
        i := i + 1;
      }
      if i == n {
        return false, at;
      }
      nodes := nodes.(realParent := nodes.realParent[child := nodes.parent[child]]);
      nodes := nodes.(parent := nodes.parent[child := newParent]);
      nodes := nodes.(children := nodes.children[newParent := nodes.children[newParent] + [child]]);
      return true, at;
    }

    /** The branch of reorder_tree() that relocates a directory. If again is true, then the directory
        is now listed by the root, which will hit it again. */
    method Relocate(dir: NodeId) returns (ok: bool, again: bool, level': nat, pathlen: nat)
      requires OptionsFit() && nodes.Invariant(level, pathLen, Dedicated()) && nodes.IsDeep(dir, level)
      modifies this
      ensures ok && OptionsFit() && again == (Target() == root)
      ensures old(nodes).RelocatedTo(nodes, dir, old(level), old(pathLen), level, pathLen, Dedicated())
      ensures again ==> level == old(level) && pathLen == old(pathLen)
      ensures !again ==> dir in level && dir in pathLen && level' == level[dir] && pathlen >= pathLen[dir]
      ensures !again ==> level == old(level)[dir := level'] && pathLen == old(pathLen)[dir := pathLen[dir]]
    {
      ghost var t0, l0, p0 := nodes, level, pathLen;
      level', pathlen := 0, 0;
      var reloc := Target();
      t0.HasNames(dir, level, pathLen, Dedicated());
      hide Tree.Invariant, Tree.GrownTo, Tree.IsTree, Tree.KeepsMeaning;
      ghost var at;
      ok, at := Reparent(dir, reloc);
      t0.MovedNames(dir, at);
      again := !ok || reloc == root;
      if !again {
        pathlen := MAX_NAME + 1;
        level' := 2;
        if rrRelocDir.Some? {
          pathlen := pathlen + |nodes.isoName[rrRelocNode.value]| + 1;
          if rrRelocDir.value != "" {
            level' := 3;
          }
        }
        level, pathLen := level[dir := 3], pathLen[dir := pathLen[reloc] + 1 + |t0.isoName[dir]|];
        t0.MovedToNamed(dir, at, l0, p0, Dedicated(), nodes, level, pathLen);
      } else {
        t0.MovedToRoot(dir, at, level, pathLen, nodes);
      }
    }

    /** The part of reorder_tree() before the loop. */
    method Settle(dir: NodeId, dirLevel: nat, dirPathlen: nat, ghost open: set<NodeId>)
      returns (ok: bool, again: bool, level': nat, pathlen: nat)
      requires OptionsFit() && nodes.CallPre(dir, dirLevel, dirPathlen, open, level, pathLen, Dedicated())
      modifies this
      ensures ok && OptionsFit()
      ensures old(nodes).Settled(nodes, dir, dirLevel, again, level', pathlen, open,
                                 old(level), old(pathLen), level, pathLen, Dedicated())
    {
      ghost var t0, l0, p0 := nodes, level, pathLen;
      level', pathlen := dirLevel, dirPathlen;
      var maxName := MaxChildNameLen(dir);
      var maxPath := pathlen + 1 + maxName;
      if level' > MAX_LEVEL || maxPath > MAX_PATH {
        nodes.EntersDeep(dir, dirLevel, dirPathlen, maxName, level, pathLen);
        hide Tree.Invariant, Tree.GrownTo, Tree.IsTree, Tree.KeepsMeaning, Tree.Placed, Tree.CallPre, Tree.Settled,
             Tree.RelocatedTo;
        ok, again, level', pathlen := Relocate(dir);
        t0.RelocationSettles(nodes, dir, dirLevel, dirPathlen, again, level', pathlen, open,
                             l0, p0, level, pathLen, Dedicated());
      } else {
        ok, again := true, false;
        if dir !in level {
          level := level[dir := level'];
          pathLen := pathLen[dir := pathLen[nodes.parent[dir]] + 1 + |nodes.isoName[dir]|];
        }
        hide Tree.Invariant, Tree.GrownTo, Tree.IsTree, Tree.KeepsMeaning, Tree.Placed, Tree.CallPre, Tree.Settled;
        t0.StayingSettles(dir, dirLevel, dirPathlen, maxName, open, l0, p0, level, pathLen, Dedicated());
      }
    }

    /** reorder_tree(). Ghost parameter open holds the directories of the calls under way. */
    method ReorderTree(dir: NodeId, dirLevel: nat, dirPathlen: nat, ghost open: set<NodeId>) returns (ok: bool)
      requires OptionsFit() && nodes.CallPre(dir, dirLevel, dirPathlen, open, level, pathLen, Dedicated())
      modifies this
      decreases nodes.Unmoved(), MAX_LEVEL + 2 - dirLevel
      ensures ok && OptionsFit()
      ensures old(nodes).CallPost(nodes, dir, open, old(level), old(pathLen), level, pathLen, Dedicated())
    {
      hide Tree.CallPre, Tree.CallPost, Tree.Settled, Tree.LoopInv, Tree.Unmoved;
      ghost var t0, l0, p0 := nodes, level, pathLen;
      var again, level', pathlen;
      ok, again, level', pathlen := Settle(dir, dirLevel, dirPathlen, open);
      if !ok || again || IsDedicatedRelocDir(dir) {
        t0.SettledEnds(nodes, dir, dirLevel, again, level', pathlen, open, l0, p0, level, pathLen, Dedicated());
        return ok;
      }
      t0.SettledLoops(nodes, dir, dirLevel, level', pathlen, open, l0, p0, level, pathLen, Dedicated());
      var i := 0;
      while i < |nodes.children[dir]|
        invariant ok && OptionsFit()
        invariant t0.LoopInv(nodes, dir, dirLevel, i, level', pathlen, open, l0, p0, level, pathLen, Dedicated())
        invariant dir in nodes.children
        decreases nodes.Unmoved(), |nodes.children[dir]| - i
      {
        ghost var t1, l1, p1 := nodes, level, pathLen;
        var child := nodes.children[dir][i];
        if child in nodes.nodeType && nodes.nodeType[child] == Directory {
          t0.LoopCalls(t1, dir, dirLevel, i, level', pathlen, open, l0, p0, level, pathLen, Dedicated());
          var newpathlen := pathlen + 1 + |nodes.isoName[child]|;
          ok := ReorderTree(child, level' + 1, newpathlen, open + {dir});
          if !ok {
            return ok;
          }
          t0.LoopReturns(t1, nodes, dir, dirLevel, i, level', pathlen, open, l0, p0, l1, p1, level, pathLen,
            Dedicated());
        } else {
          t0.LoopSkips(t1, dir, dirLevel, i, level', pathlen, open, l0, p0, level, pathLen, Dedicated());
        }
        i := i + 1;
      }
      t0.LoopEnds(nodes, dir, dirLevel, i, level', pathlen, open, l0, p0, level, pathLen, Dedicated());
    }

    /** The relocation step of ecma119_tree_create(). Afterwards each directory lies at level 8 or
        higher, no path exceeds 255 characters, and the logical tree is the same as before. */
    method RelocateDeepDirectories(ghost depth: map<NodeId, nat>) returns (ok: bool)
      requires OptionsFit() && nodes.Untouched() && nodes.RankedBy(depth)
      requires Dedicated() ==> nodes.children[Target()] == []
      modifies this
      ensures ok
      ensures nodes.IsTree() && nodes.children.Keys == old(nodes).children.Keys
      ensures forall n :: n in old(nodes).isoName ==> n in nodes.isoName && nodes.isoName[n] == old(nodes).isoName[n]
      ensures level.Keys == nodes.children.Keys && nodes.Placed(level, pathLen)
      ensures forall d :: d in nodes.children ==> nodes.LogicalList(d) == old(nodes).children[d]
      ensures forall x :: x in nodes.realParent ==>
                exists p, k :: nodes.HoldsPlace(p, k, x) && forall q :: q in nodes.realMe && nodes.realMe[q] == x ==>
                  q == p
    {
      ghost var t0 := nodes;
      t0.Starts(Dedicated());
      level, pathLen := map[Target() := 2][root := 1], map[Target() := 1 + |nodes.isoName[Target()]|][root := 0];
      ghost var l0, p0 := level, pathLen;
      ok := ReorderTree(root, 1, 0, {});
      t0.EverythingPlaced(nodes, depth, l0, p0, level, pathLen, Dedicated());
      forall d | d in nodes.children ensures nodes.LogicalList(d) == t0.children[d] {
        nodes.LogicalTreeKept(d);
      }
      forall x | x in nodes.realParent
        ensures exists p, k :: nodes.HoldsPlace(p, k, x) && forall q :: q in nodes.realMe && nodes.realMe[q] == x ==>
                q == p
      {
        assert nodes.IsRelocated(x);
        var p, k := nodes.OnePlaceholder(t0, x);
      }
    }
  }
}
