/**
 The ECMA-119 tree and what relocation does to it (libisofs/ecma119_tree.c).

 reorder_tree() walks the ECMA-119 tree and moves every directory that lies too deep, or whose
 children would get too long a path, below a relocation target. The old position keeps a
 placeholder. The node structs of the original are entries of maps here, indexed by node numbers
 which stand for their addresses. This module has the state, the invariants and the lemmas about
 single steps; the methods are in module Relocation.
 */
module EcmaTree {
  import opened Common

  type NodeId = int

  datatype NodeType = File | Symlink | Special | Directory | Placeholder

  /** Limits of ECMA-119 section 6.8.2.1, and the longest name that mangling can produce. */
  const MAX_LEVEL: nat := 8
  const MAX_PATH: nat := 255
  const MAX_NAME: nat := 37

  function Max(a: nat, b: nat): nat {
    if a < b then b else a
  }

  /** The node that a child list entry stands for: itself, or the directory behind a placeholder. */
  function Resolve(n: NodeId, realMe: map<NodeId, NodeId>): NodeId {
    if n in realMe then realMe[n] else n
  }

  /** The child list as a reader of the Rock Ridge tree sees it: placeholders are replaced by the
      directory they stand for, relocated directories are not listed at their physical place. */
  function LogicalChildren(list: seq<NodeId>, realMe: map<NodeId, NodeId>, moved: set<NodeId>): seq<NodeId> {
    if list == [] then []
    else (if list[0] in moved then [] else [Resolve(list[0], realMe)]) + LogicalChildren(list[1..], realMe, moved)
  }

  lemma {:induction false} LogicalChildrenPointwise(list: seq<NodeId>, realMe: map<NodeId, NodeId>,
                                                    moved: set<NodeId>, orig: seq<NodeId>)
    requires |orig| <= |list|
    requires forall k :: 0 <= k < |orig| ==> list[k] !in moved && Resolve(list[k], realMe) == orig[k]
    requires forall k :: |orig| <= k < |list| ==> list[k] in moved
    ensures LogicalChildren(list, realMe, moved) == orig
  {
    if list == [] {
    } else if orig == [] {
      LogicalChildrenPointwise(list[1..], realMe, moved, []);
    } else {
      LogicalChildrenPointwise(list[1..], realMe, moved, orig[1..]);
      assert orig == [orig[0]] + orig[1..];
    }
  }

  lemma SmallerRest(all: set<NodeId>, small: set<NodeId>, big: set<NodeId>)
    requires small <= big <= all
    ensures |all - big| <= |all - small|
    ensures small != big ==> |all - big| < |all - small|
  {
    assert all - small == (all - big) + (big - small);
    assert (all - big) !! (big - small);
    assert |all - small| == |all - big| + |big - small|;
    if big - small == {} {
      assert big == small;
    }
  }

  ghost predicate Distinct(list: seq<NodeId>) {
    forall i, j :: 0 <= i < j < |list| ==> list[i] != list[j]
  }

  /** The state of the tree: what the node structs hold, and the child lists before relocation. */
  datatype Tree = Tree(root: NodeId, target: NodeId, nextId: NodeId, nodeType: map<NodeId, NodeType>,
                       isoName: map<NodeId, string>, parent: map<NodeId, NodeId>, children: map<NodeId, seq<NodeId>>,
                       realParent: map<NodeId, NodeId>, realMe: map<NodeId, NodeId>, origin: map<NodeId, seq<NodeId>>)
  {
    /** A tree below root: each node but the root is listed once, by its parent. */
    ghost predicate IsTree() {
      && root in children && target in children
      && nodeType.Keys == isoName.Keys
      && (forall n :: n in nodeType ==> n < nextId)
      && parent.Keys <= nodeType.Keys
      && (forall n :: n in children <==> n in nodeType && nodeType[n] == Directory)
      && (forall d {:trigger OwnsKids(d)} :: d in children ==> OwnsKids(d) && Distinct(children[d]))
      && (forall c {:trigger Listed(c)} :: c in nodeType && c != root ==> Listed(c))
      && (forall c :: c in nodeType && c != root ==> |isoName[c]| <= MAX_NAME)
    }

    ghost predicate IsKid(c: NodeId, d: NodeId) {
      c in nodeType && c != root && c in parent && parent[c] == d
    }

    ghost predicate OwnsKids(d: NodeId)
      requires d in children
    {
      forall k :: 0 <= k < |children[d]| ==> IsKid(children[d][k], d)
    }

    ghost predicate Listed(c: NodeId) {
      c in parent && parent[c] in children && c in children[parent[c]]
    }

    /** Each original entry is still in its place, or a placeholder stands for it there.
        Relocated directories are appended to the target's list. */
    ghost predicate KeepsMeaning() {
      && origin.Keys == children.Keys
      && (forall d {:trigger Means(d)} :: d in origin ==> Means(d))
      && (forall x {:trigger IsRelocated(x)} :: x in realParent ==> IsRelocated(x))
      && (forall p :: p in realMe <==> p in nodeType && nodeType[p] == Placeholder)
      && (forall p {:trigger IsPlaceholder(p)} :: p in realMe ==> IsPlaceholder(p))
    }

    ghost predicate Means(d: NodeId)
      requires d in origin && d in children
    {
      && |origin[d]| <= |children[d]|
      && (d != target ==> |origin[d]| == |children[d]|)
      && (forall k :: 0 <= k < |origin[d]| ==> StandsFor(children[d][k], origin[d][k]))
      && (forall k :: |origin[d]| <= k < |children[d]| ==> children[d][k] in realParent)
    }

    ghost predicate StandsFor(n: NodeId, orig: NodeId) {
      n !in realParent && Resolve(n, realMe) == orig
    }

    ghost predicate IsRelocated(x: NodeId)
      requires x in realParent
    {
      x in children && x != root && x != target && x in parent && parent[x] == target && realParent[x] in children
    }

    ghost predicate IsPlaceholder(p: NodeId)
      requires p in realMe
    {
      realMe[p] in realParent && p in parent && parent[p] == realParent[realMe[p]]
    }

    /** Child x gets replaced in its parent's list by a placeholder and appended to the target's list. */
    ghost function Moved(x: NodeId, i: nat): Tree
      requires x in parent && parent[x] in children && parent[x] != target && target in children
      requires i < |children[parent[x]]| && x in isoName
    {
      var p := parent[x];
      this.(nextId := nextId + 1,
            nodeType := nodeType[nextId := Placeholder],
            isoName := isoName[nextId := isoName[x]],
            parent := parent[nextId := p][x := target],
            children := children[p := children[p][i := nextId]][target := children[target] + [x]],
            realParent := realParent[x := p],
            realMe := realMe[nextId := x])
    }

    ghost predicate Movable(x: NodeId, i: nat) {
      && IsTree() && KeepsMeaning()
      && x in children && x != root && x != target && x !in realParent
      && Listed(x) && parent[x] != target
      && i < |children[parent[x]]| && children[parent[x]][i] == x
    }

    lemma MovedLists(x: NodeId, i: nat)
      requires Movable(x, i)
      ensures var t := Moved(x, i); var p := parent[x];
        && t.children.Keys == children.Keys
        && |t.children[p]| == |children[p]| && t.children[p][i] == nextId
        && (forall k :: 0 <= k < |children[p]| && k != i ==> t.children[p][k] == children[p][k] != x)
        && t.children[target] == children[target] + [x] && x !in children[target]
        && (forall d :: d in children && d != p && d != target ==> t.children[d] == children[d])
    {
      assert OwnsKids(parent[x]) && Distinct(children[parent[x]]) && OwnsKids(target);
    }

    lemma MovedMaps(x: NodeId, i: nat)
      requires Movable(x, i)
      ensures var t := Moved(x, i);
        && t.root == root && t.target == target && t.origin == origin && t.nextId == nextId + 1
        && nextId !in parent && nextId !in isoName && nextId !in nodeType && nextId !in children
        && t.isoName == isoName[nextId := isoName[x]] && t.nodeType == nodeType[nextId := Placeholder]
        && t.parent == parent[nextId := parent[x]][x := target]
        && t.realParent == realParent[x := parent[x]] && t.realMe == realMe[nextId := x]
    {
    }

    lemma MovedOwnsKids(x: NodeId, i: nat, d: NodeId)
      requires Movable(x, i) && d in children
      ensures Moved(x, i).children.Keys == children.Keys
      ensures Moved(x, i).OwnsKids(d) && Distinct(Moved(x, i).children[d])
    {
      var t := Moved(x, i);
      MovedLists(x, i);
      assert OwnsKids(d) && Distinct(children[d]);
      forall k | 0 <= k < |t.children[d]|
        ensures t.IsKid(t.children[d][k], d)
      {
        if k < |children[d]| {
          assert IsKid(children[d][k], d);
        }
      }
    }

    lemma MovedListed(x: NodeId, i: nat, c: NodeId)
      requires Movable(x, i) && c in Moved(x, i).nodeType && c != root
      ensures Moved(x, i).Listed(c)
    {
      var t := Moved(x, i);
      var p := parent[x];
      MovedLists(x, i);
      if c == x {
        assert t.children[target][|children[target]|] == x;
      } else if c == nextId {
        assert t.children[p][i] == nextId;
      } else {
        assert Listed(c);
        var q := parent[c];
        var k :| 0 <= k < |children[q]| && children[q][k] == c;
        assert t.children[q][k] == c;
      }
    }

    lemma MovedIsTree(x: NodeId, i: nat)
      requires Movable(x, i)
      ensures Moved(x, i).IsTree()
    {
      hide Moved, KeepsMeaning, OwnsKids, Distinct;
      var t := Moved(x, i);
      MovedLists(x, i);
      MovedMaps(x, i);
      forall d | d in t.children ensures t.OwnsKids(d) && Distinct(t.children[d]) {
        MovedOwnsKids(x, i, d);
      }
      forall c | c in t.nodeType && c != root ensures t.Listed(c) {
        MovedListed(x, i, c);
      }
    }

    lemma MovedMeans(x: NodeId, i: nat, d: NodeId)
      requires Movable(x, i) && d in children
      ensures Moved(x, i).children.Keys == children.Keys
      ensures Moved(x, i).Means(d)
    {
      var t := Moved(x, i);
      MovedLists(x, i);
      assert Means(d) && OwnsKids(d);
      assert nextId in realParent ==> IsRelocated(nextId);
      forall k | 0 <= k < |origin[d]|
        ensures t.StandsFor(t.children[d][k], origin[d][k])
      {
        assert StandsFor(children[d][k], origin[d][k]);
        assert IsKid(children[d][k], d);
      }
    }

    lemma MovedKeepsMeaning(x: NodeId, i: nat)
      requires Movable(x, i)
      ensures Moved(x, i).KeepsMeaning()
    {
      var t := Moved(x, i);
      MovedLists(x, i);
      forall d | d in t.origin ensures t.Means(d) {
        MovedMeans(x, i, d);
      }
      forall y | y in t.realParent ensures t.IsRelocated(y) {
        assert y != x ==> IsRelocated(y);
      }
      forall q | q in t.realMe ensures t.IsPlaceholder(q) {
        assert q != nextId ==> IsPlaceholder(q);
      }
    }

    /** A relocation directory other than the root lies in the root directory. */
    ghost predicate TargetInRoot() {
      target != root ==> target in nodeType && target in parent && parent[target] == root
    }

    /** All directories listed in d have got their final place. */
    ghost predicate Complete(d: NodeId, done: set<NodeId>)
      requires d in children
    {
      forall k :: 0 <= k < |children[d]| && children[d][k] in children ==> children[d][k] in done
    }

    /** Depth and path length of directory d are right and within the limits. */
    ghost predicate IsPlaced(d: NodeId, level: map<NodeId, nat>, pathLen: map<NodeId, nat>)
      requires IsTree() && d in level && level.Keys == pathLen.Keys && level.Keys <= children.Keys
    {
      && (d == root ==> level[d] == 1 && pathLen[d] == 0)
      && (d != root ==>
            && d in parent && parent[d] in level
            && level[d] == level[parent[d]] + 1
            && pathLen[d] == pathLen[parent[d]] + 1 + |isoName[d]|)
      && level[d] <= MAX_LEVEL && pathLen[d] < MAX_PATH
      && (forall k :: 0 <= k < |children[d]| ==> PathFits(pathLen[d], children[d][k]))
    }

    ghost predicate PathFits(dirPath: nat, child: NodeId) {
      child in isoName && dirPath + 1 + |isoName[child]| <= MAX_PATH
    }

    ghost predicate Placed(level: map<NodeId, nat>, pathLen: map<NodeId, nat>)
      requires IsTree()
    {
      && level.Keys == pathLen.Keys && level.Keys <= children.Keys
      && root in level && target in level
      && (forall d {:trigger IsPlaced(d, level, pathLen)} :: d in level ==> IsPlaced(d, level, pathLen))
    }

    lemma TargetIsShallow(level: map<NodeId, nat>, pathLen: map<NodeId, nat>)
      requires IsTree() && TargetInRoot() && Placed(level, pathLen)
      ensures target == root ==> level[target] == 1 && pathLen[target] == 0
      ensures target != root ==> level[target] == 2 && pathLen[target] == 1 + |isoName[target]| <= 1 + MAX_NAME
    {
      assert IsPlaced(root, level, pathLen) && IsPlaced(target, level, pathLen);
    }

    lemma MovedPlaced(x: NodeId, i: nat, level: map<NodeId, nat>, pathLen: map<NodeId, nat>)
      requires Movable(x, i) && TargetInRoot() && Placed(level, pathLen) && x !in level
      ensures Moved(x, i).IsTree() && Moved(x, i).TargetInRoot() && Moved(x, i).Placed(level, pathLen)
    {
      hide KeepsMeaning, IsPlaced;
      var t := Moved(x, i);
      MovedIsTree(x, i);
      MovedLists(x, i);
      forall d | d in level ensures t.IsPlaced(d, level, pathLen) {
        MovedPlacedAt(x, i, level, pathLen, d);
      }
    }

    lemma MovedPlacedAt(x: NodeId, i: nat, level: map<NodeId, nat>, pathLen: map<NodeId, nat>, d: NodeId)
      requires Movable(x, i) && TargetInRoot() && Placed(level, pathLen) && x !in level && d in level
      requires Moved(x, i).IsTree()
      ensures Moved(x, i).IsPlaced(d, level, pathLen)
    {
      hide KeepsMeaning, OwnsKids, IsKid, Moved;
      var t := Moved(x, i);
      MovedLists(x, i);
      MovedMaps(x, i);
      TargetIsShallow(level, pathLen);
      assert IsPlaced(d, level, pathLen);
      forall k | 0 <= k < |t.children[d]| ensures t.PathFits(pathLen[d], t.children[d][k]) {
        if k < |children[d]| {
          assert PathFits(pathLen[d], children[d][k]);
        }
      }
    }

    /** One more directory gets its final place. */
    lemma PlacedPlus(d: NodeId, level: map<NodeId, nat>, pathLen: map<NodeId, nat>, l: nat, p: nat)
      requires IsTree() && Placed(level, pathLen)
      requires d in children && d !in level && d != root && d in parent && parent[d] in level
      requires l == level[parent[d]] + 1 <= MAX_LEVEL
      requires p == pathLen[parent[d]] + 1 + |isoName[d]| < MAX_PATH
      requires forall k :: 0 <= k < |children[d]| ==> PathFits(p, children[d][k])
      ensures Placed(level[d := l], pathLen[d := p])
    {
      var level', pathLen' := level[d := l], pathLen[d := p];
      forall e | e in level' ensures IsPlaced(e, level', pathLen') {
        assert e != d ==> IsPlaced(e, level, pathLen);
      }
    }

    lemma PlacedFits(d: NodeId, level: map<NodeId, nat>, pathLen: map<NodeId, nat>, maxName: nat)
      requires IsTree() && Placed(level, pathLen) && d in children && IsLongestName(d, maxName)
      ensures d in level ==> level[d] <= MAX_LEVEL && pathLen[d] + 1 + maxName <= MAX_PATH
    {
      if d in level {
        assert IsPlaced(d, level, pathLen);
        if maxName > 0 {
          var k :| 0 <= k < |children[d]| && |isoName[children[d][k]]| == maxName;
          assert PathFits(pathLen[d], children[d][k]);
        }
      }
    }

    lemma ShortNames(d: NodeId, pathlen: nat)
      requires IsTree() && d in children && pathlen + 1 + MAX_NAME <= MAX_PATH
      ensures forall k :: 0 <= k < |children[d]| ==> PathFits(pathlen, children[d][k])
    {
      assert OwnsKids(d);
      forall k | 0 <= k < |children[d]| ensures PathFits(pathlen, children[d][k]) {
        assert IsKid(children[d][k], d);
      }
    }

    lemma MovedComplete(x: NodeId, i: nat, done: set<NodeId>)
      requires Movable(x, i) && x in done
      ensures target in Moved(x, i).children
      ensures Complete(target, done - {x}) ==> Moved(x, i).Complete(target, done)
    {
      MovedLists(x, i);
    }

    /** The invariant of the relocation run. */
    ghost predicate Invariant(level: map<NodeId, nat>, pathLen: map<NodeId, nat>, dedicated: bool) {
      && IsTree() && TargetInRoot() && KeepsMeaning() && Placed(level, pathLen)
      && (dedicated ==> Complete(target, level.Keys))
      && (target != root ==> realParent.Keys <= level.Keys)
    }

    ghost predicate MayMove(x: NodeId, i: nat, level: map<NodeId, nat>, pathLen: map<NodeId, nat>, dedicated: bool) {
      Invariant(level, pathLen, dedicated) && Movable(x, i) && x !in level
    }

    /** Relocation to the root directory: the directory waits there for its final place. */
    lemma MovedToRoot(x: NodeId, i: nat, level: map<NodeId, nat>, pathLen: map<NodeId, nat>, t: Tree)
      requires MayMove(x, i, level, pathLen, false) && target == root
      requires t == Moved(x, i)
      ensures t.Invariant(level, pathLen, false)
      ensures GrownTo(t, level.Keys)
      ensures t.realParent.Keys == realParent.Keys + {x}
    {
      MovedPlaced(x, i, level, pathLen);
      MovedKeepsMeaning(x, i);
      MovedIsGrown(x, i, level.Keys);
    }

    /** Relocation to a named directory: the directory has got its final place at level 3. */
    lemma MovedToNamed(x: NodeId, i: nat, level: map<NodeId, nat>, pathLen: map<NodeId, nat>, dedicated: bool,
                       t: Tree, level': map<NodeId, nat>, pathLen': map<NodeId, nat>)
      requires MayMove(x, i, level, pathLen, dedicated) && target != root
      requires t == Moved(x, i) && target in pathLen && level' == level[x := 3]
      requires pathLen' == pathLen[x := pathLen[target] + 1 + |isoName[x]|]
      ensures t.Invariant(level', pathLen', dedicated)
      ensures GrownTo(t, level.Keys)
      ensures t.realParent.Keys == realParent.Keys + {x}
      ensures pathLen'[x] <= 2 * (MAX_NAME + 1) + |isoName[target]| - MAX_NAME
    {
      hide KeepsMeaning, GrownTo, Complete, IsPlaced, OwnsKids;
      MovedKeepsMeaning(x, i);
      MovedIsGrown(x, i, level.Keys);
      NamedPlaced(x, i, level, pathLen, dedicated);
      assert level'.Keys - {x} == level.Keys;
      MovedComplete(x, i, level'.Keys);
    }

    lemma NamedPlaced(x: NodeId, i: nat, level: map<NodeId, nat>, pathLen: map<NodeId, nat>, dedicated: bool)
      requires MayMove(x, i, level, pathLen, dedicated) && target != root
      ensures target in pathLen && x in isoName
      ensures var p := pathLen[target] + 1 + |isoName[x]|;
        && p <= 2 * (MAX_NAME + 1) + |isoName[target]| - MAX_NAME
        && Moved(x, i).IsTree() && Moved(x, i).TargetInRoot() && Moved(x, i).Placed(level[x := 3], pathLen[x := p])
    {
      hide KeepsMeaning, Complete, IsPlaced, OwnsKids;
      var t, p := Moved(x, i), pathLen[target] + 1 + |isoName[x]|;
      TargetIsShallow(level, pathLen);
      MovedPlaced(x, i, level, pathLen);
      t.ShortNames(x, p);
      t.PlacedPlus(x, level, pathLen, 3, p);
    }

    /** A directory that need not move gets its final place. */
    lemma PlacedNow(d: NodeId, level: map<NodeId, nat>, pathLen: map<NodeId, nat>, level': map<NodeId, nat>,
                    pathLen': map<NodeId, nat>, pathlen: nat, maxName: nat, dedicated: bool)
      requires Invariant(level, pathLen, dedicated)
      requires d !in level && d in pathLen' && d in isoName && d in children && IsLongestName(d, maxName)
      requires d != root && d in parent && parent[d] in level && level.Keys == pathLen.Keys
      requires level[parent[d]] < MAX_LEVEL && level' == level[d := level[parent[d]] + 1]
      requires pathLen' == pathLen[d := pathLen[parent[d]] + 1 + |isoName[d]|]
      requires pathLen'[d] <= pathlen && pathlen + 1 + maxName <= MAX_PATH
      ensures Invariant(level', pathLen', dedicated)
    {
      forall k | 0 <= k < |children[d]| ensures PathFits(pathLen'[d], children[d][k]) {
      }
      PlacedPlus(d, level, pathLen, level'[d], pathLen'[d]);
    }

    /** What relocations can do to the tree while the directories of set done have their final place. */
    ghost predicate GrownTo(t: Tree, done: set<NodeId>) {
      && t.root == root && t.target == target && t.origin == origin
      && t.children.Keys == children.Keys
      && realParent.Keys <= t.realParent.Keys
      && (realParent.Keys == t.realParent.Keys ==> t.children == children)
      && (forall x :: x in t.realParent && x in done ==> x in realParent)
      && (forall n :: n in nodeType ==> n in t.nodeType && t.nodeType[n] == nodeType[n])
      && (forall n :: n in isoName ==> n in t.isoName && t.isoName[n] == isoName[n])
      && (forall c :: c in parent ==> c in t.parent && (t.parent[c] == parent[c] || Newly(t, c)))
      && (forall d {:trigger ListGrownTo(t, d)} :: d in children ==> ListGrownTo(t, d))
    }

    ghost predicate Newly(t: Tree, c: NodeId) {
      c in t.realParent && c !in realParent
    }

    ghost predicate ListGrownTo(t: Tree, d: NodeId)
      requires d in children && d in t.children
    {
      && |children[d]| <= |t.children[d]|
      && (forall k :: 0 <= k < |children[d]| ==>
            t.children[d][k] == children[d][k] || (t.children[d][k] !in t.children && Newly(t, children[d][k])))
      && (|children[d]| < |t.children[d]| ==> d == target)
      && (forall k :: |children[d]| <= k < |t.children[d]| ==> Newly(t, t.children[d][k]))
    }

    lemma GrownToItself(done: set<NodeId>)
      requires IsTree()
      ensures GrownTo(this, done)
    {
      forall d | d in children ensures ListGrownTo(this, d) {
      }
    }

    lemma MovedIsGrown(x: NodeId, i: nat, done: set<NodeId>)
      requires Movable(x, i) && x !in done
      ensures GrownTo(Moved(x, i), done)
    {
      hide Moved, KeepsMeaning, OwnsKids;
      var t := Moved(x, i);
      MovedLists(x, i);
      MovedMaps(x, i);
      assert x in t.realParent;
      forall d | d in children ensures ListGrownTo(t, d) {
      }
    }

    lemma GrownTransitive(t: Tree, u: Tree, done: set<NodeId>, done': set<NodeId>)
      requires GrownTo(t, done) && t.GrownTo(u, done') && done <= done'
      requires t.children.Keys == u.children.Keys
      ensures GrownTo(u, done)
    {
      forall d | d in children ensures ListGrownTo(u, d) {
        assert ListGrownTo(t, d) && t.ListGrownTo(u, d);
        forall k | 0 <= k < |children[d]|
          ensures u.children[d][k] == children[d][k] || (u.children[d][k] !in u.children && Newly(u, children[d][k]))
        {
          assert u.children[d][k] == t.children[d][k] || u.children[d][k] !in u.children;
        }
        forall k | |children[d]| <= k < |u.children[d]|
          ensures Newly(u, u.children[d][k])
        {
          if k < |t.children[d]| {
            assert Newly(t, t.children[d][k]);
            assert u.children[d][k] == t.children[d][k];
          } else {
            assert t.Newly(u, u.children[d][k]);
          }
        }
      }
      forall c | c in parent ensures c in u.parent && (u.parent[c] == parent[c] || Newly(u, c)) {
        assert t.parent[c] == parent[c] || Newly(t, c);
      }
    }

    lemma StaysComplete(t: Tree, d: NodeId, done: set<NodeId>, done': set<NodeId>)
      requires GrownTo(t, done) && done <= done' && d in children && Complete(d, done)
      requires d == target ==> forall x :: x in t.realParent ==> x in done'
      ensures t.Complete(d, done')
    {
      assert ListGrownTo(t, d);
      forall k | 0 <= k < |t.children[d]| && t.children[d][k] in t.children
        ensures t.children[d][k] in done'
      {
      }
    }

    ghost predicate Linked(o: NodeId, open: set<NodeId>) {
      o != root ==> o in parent && (parent[o] in open || o in realParent)
    }

    /** The directories under work when reorder_tree() gets called for dir. */
    ghost predicate Stack(open: set<NodeId>, dir: NodeId, level: map<NodeId, nat>) {
      && open <= level.Keys <= children.Keys && dir in children && dir !in open
      && (forall o {:trigger Linked(o, open)} :: o in open ==> Linked(o, open))
      && (dir == target ==> open <= {root})
      && (dir == root ==> open == {})
      && (dir != root ==> dir in parent && parent[dir] in open)
    }

    /** Outside of set open, the subdirectories of a placed directory have got their final place. */
    ghost predicate AllComplete(open: set<NodeId>, level: map<NodeId, nat>)
      requires level.Keys <= children.Keys
    {
      forall d {:trigger Complete(d, level.Keys)} :: d in level.Keys && d !in open && d != target ==>
        Complete(d, level.Keys)
    }

    ghost predicate TargetComplete(done: set<NodeId>) {
      target != root ==> target in children && Complete(target, done)
    }

    /** Why directory d can have got its place during the work on dir. */
    ghost predicate Reached(d: NodeId, dir: NodeId, before: set<NodeId>) {
      d == dir || d in realParent || (d in parent && (parent[d] == dir || parent[d] == target || parent[d] !in before))
    }

    /** The effect of the work on dir. */
    ghost predicate Worked(t: Tree, dir: NodeId, level: map<NodeId, nat>, pathLen: map<NodeId, nat>,
                           level': map<NodeId, nat>, pathLen': map<NodeId, nat>) {
      && GrownTo(t, level.Keys)
      && level.Keys <= level'.Keys && pathLen.Keys <= pathLen'.Keys
      && (forall d :: d in level ==> level'[d] == level[d])
      && (forall d :: d in pathLen ==> pathLen'[d] == pathLen[d])
      && (forall d {:trigger t.Reached(d, dir, level.Keys)} :: d in level' && d !in level ==>
            t.Reached(d, dir, level.Keys))
      && (TargetComplete(level.Keys) ==> t.TargetComplete(level'.Keys))
    }

    /** The state of the loop over the children of dir. */
    ghost predicate LoopState(dir: NodeId, i: nat, exact: bool, open: set<NodeId>, level: map<NodeId, nat>) {
      && level.Keys <= children.Keys && dir in level && AllComplete(open, level)
      && i <= |children[dir]|
      && (forall k :: 0 <= k < i && children[dir][k] in children ==> children[dir][k] in level)
      && (forall k :: 0 <= k < i && children[dir][k] == target ==> TargetComplete(level.Keys))
      && (exact || (dir != target && forall k :: i <= k < |children[dir]| ==> children[dir][k] !in level))
    }

    lemma LoopStarts(t: Tree, dir: NodeId, exact: bool, open: set<NodeId>, level: map<NodeId, nat>,
                     pathLen: map<NodeId, nat>, level': map<NodeId, nat>)
      requires IsTree() && Placed(level, pathLen) && GrownTo(t, level.Keys) && t.IsTree()
      requires level'.Keys == level.Keys + {dir} && level'.Keys <= t.children.Keys
      requires t.AllComplete(open + {dir}, level')
      requires exact || (dir !in level && dir != target && dir in t.parent && t.parent[dir] != dir)
      ensures t.LoopState(dir, 0, exact, open + {dir}, level')
    {
      assert t.OwnsKids(dir);
      if !exact {
        forall k | 0 <= k < |t.children[dir]| ensures t.children[dir][k] !in level' {
          var c := t.children[dir][k];
          assert t.IsKid(c, dir);
          assert c in level ==> IsPlaced(c, level, pathLen);
          assert Newly(t, c) ==> c !in level;
        }
      }
    }

    /** The child visited by the loop is not under work, and its place in the tree is as handed over. */
    lemma KidOnStack(dir: NodeId, open: set<NodeId>, level: map<NodeId, nat>, c: NodeId)
      requires IsTree() && KeepsMeaning() && c in children && IsKid(c, dir)
      requires open <= level.Keys <= children.Keys && dir in level && dir !in open
      requires forall o {:trigger Linked(o, open)} :: o in open ==> Linked(o, open)
      requires dir == target ==> open <= {root}
      requires dir == root ==> open == {}
      requires TargetInRoot()
      requires Linked(dir, open)
      ensures Stack(open + {dir}, c, level)
    {
      forall o | o in open + {dir} ensures Linked(o, open + {dir}) {
        assert o in open ==> Linked(o, open);
      }
      assert c in open ==> Linked(c, open);
      assert c in realParent ==> IsRelocated(c);
      assert dir in realParent ==> IsRelocated(dir);
    }

    /** One round of the loop: u is the tree after the visit of the child at index i. */
    lemma LoopAdvances(dir: NodeId, i: nat, exact: bool, open: set<NodeId>, level: map<NodeId, nat>,
                       pathLen: map<NodeId, nat>, u: Tree, level': map<NodeId, nat>, pathLen': map<NodeId, nat>)
      requires IsTree() && KeepsMeaning() && u.IsTree() && u.KeepsMeaning()
      requires LoopState(dir, i, exact, open, level) && i < |children[dir]|
      requires dir in children && children[dir][i] in children
      requires Worked(u, children[dir][i], level, pathLen, level', pathLen')
      requires level'.Keys <= u.children.Keys && u.AllComplete(open, level')
      requires var c := children[dir][i]; c in level' || (IsDeep(c, level) && c in u.realParent)
      requires children[dir][i] == target ==> u.TargetComplete(level'.Keys)
      ensures u.LoopState(dir, i + 1, exact, open, level')
      ensures dir in u.children && i < |u.children[dir]|
    {
      hide Means, IsPlaceholder, StandsFor;
      var c := children[dir][i];
      assert OwnsKids(dir) && u.OwnsKids(dir) && ListGrownTo(u, dir) && Distinct(children[dir]);
      forall k | 0 <= k <= i && u.children[dir][k] in u.children ensures u.children[dir][k] in level' {
        assert u.children[dir][k] == children[dir][k];
        assert IsKid(children[dir][k], dir) && u.IsKid(u.children[dir][k], dir);
        assert c in u.realParent ==> u.IsRelocated(c);
      }
      forall k | 0 <= k <= i && u.children[dir][k] == target ensures u.TargetComplete(level'.Keys) {
        assert u.children[dir][k] == children[dir][k];
      }
      if !exact {
        RestIsNew(dir, i, open, level, pathLen, u, level', pathLen');
      }
    }

    /** The children behind index i have not been placed by the visit of the child at index i. */
    lemma RestIsNew(dir: NodeId, i: nat, open: set<NodeId>, level: map<NodeId, nat>, pathLen: map<NodeId, nat>,
                    u: Tree, level': map<NodeId, nat>, pathLen': map<NodeId, nat>)
      requires IsTree() && KeepsMeaning() && u.IsTree() && u.KeepsMeaning()
      requires LoopState(dir, i, false, open, level) && i < |children[dir]|
      requires dir in children && children[dir][i] in children
      requires Worked(u, children[dir][i], level, pathLen, level', pathLen')
      requires level'.Keys <= u.children.Keys
      ensures dir in u.children
      ensures forall k :: i < k < |u.children[dir]| ==> u.children[dir][k] !in level'
    {
      hide Means, IsPlaceholder, StandsFor;
      var c := children[dir][i];
      assert OwnsKids(dir) && u.OwnsKids(dir) && ListGrownTo(u, dir) && Distinct(children[dir]);
      forall k | i < k < |u.children[dir]| ensures u.children[dir][k] !in level' {
        var e := u.children[dir][k];
        assert u.IsKid(e, dir);
        assert e in u.realParent ==> u.IsRelocated(e);
        assert e in level' && e !in level ==> u.Reached(e, c, level.Keys);
        assert e == children[dir][k] || e !in u.children;
      }
    }

    lemma WorkKeeps(u: Tree, dir: NodeId, c: NodeId, open: set<NodeId>, level: map<NodeId, nat>,
                    pathLen: map<NodeId, nat>, level': map<NodeId, nat>, pathLen': map<NodeId, nat>)
      requires Worked(u, c, level, pathLen, level', pathLen')
      requires InWork(open, dir, level.Keys) && level'.Keys <= u.children.Keys && dir in pathLen
      requires u.realParent.Keys <= u.children.Keys
      ensures u.InWork(open, dir, level'.Keys)
      ensures dir in level' && level'[dir] == level[dir] && dir in pathLen' && pathLen'[dir] == pathLen[dir]
      ensures u.Unmoved() <= Unmoved() && (u.Unmoved() == Unmoved() ==> u.children == children)
    {
      StaysInWork(u, open, dir, level.Keys, level'.Keys);
      GrownMovesMore(u, level.Keys);
    }

    /** The effects of the loop so far and of one more child add up. */
    lemma WorkAddsUp(t: Tree, u: Tree, dir: NodeId, c: NodeId, open: set<NodeId>, l0: map<NodeId, nat>,
                     p0: map<NodeId, nat>, l1: map<NodeId, nat>, p1: map<NodeId, nat>, l2: map<NodeId, nat>,
                     p2: map<NodeId, nat>)
      requires Worked(t, dir, l0, p0, l1, p1) && t.Worked(u, c, l1, p1, l2, p2)
      requires t.IsTree() && u.IsTree() && u.KeepsMeaning()
      requires t.IsKid(c, dir) && l1.Keys <= t.children.Keys && t.AllComplete(open, l1) && c !in open
      requires l2.Keys <= u.children.Keys && root in l0
      ensures Worked(u, dir, l0, p0, l2, p2)
    {
      GrownTransitive(t, u, l0.Keys, l1.Keys);
      forall d | d in l2 && d !in l0 ensures u.Reached(d, dir, l0.Keys) {
        if d in l1 {
          assert t.Reached(d, dir, l0.Keys);
          assert d in t.parent ==> d in u.parent && (t.parent[d] == u.parent[d] || t.Newly(u, d));
        } else {
          assert d in u.children && d in t.children;
          assert u.Reached(d, c, l1.Keys) && u.Listed(d) && t.Listed(d);
          assert t.parent[d] == u.parent[d] || t.Newly(u, d);
          if t.parent[d] == c && c in l0 {
            assert c == target || t.Complete(c, l1.Keys);
          }
        }
      }
    }

    lemma CompleteAcross(t: Tree, except: set<NodeId>, level: map<NodeId, nat>, level': map<NodeId, nat>)
      requires level.Keys <= children.Keys && AllComplete(except, level) && GrownTo(t, level.Keys)
      requires level.Keys <= level'.Keys <= level.Keys + except && level'.Keys <= t.children.Keys
      ensures t.AllComplete(except, level')
    {
      forall d | d in level'.Keys && d !in except && d != target ensures t.Complete(d, level'.Keys) {
        assert Complete(d, level.Keys);
        StaysComplete(t, d, level.Keys, level'.Keys);
      }
    }

    /** The directories under work, dir included, as seen by the loop. */
    ghost predicate InWork(open: set<NodeId>, dir: NodeId, done: set<NodeId>) {
      && open <= done <= children.Keys && dir in done && dir !in open
      && (forall o {:trigger Linked(o, open)} :: o in open ==> Linked(o, open))
      && Linked(dir, open)
      && (dir == target ==> open <= {root})
      && (dir == root ==> open == {})
    }

    lemma StaysInWork(t: Tree, open: set<NodeId>, dir: NodeId, done: set<NodeId>, done': set<NodeId>)
      requires open <= done && dir !in open && Linked(dir, open)
      requires forall o {:trigger Linked(o, open)} :: o in open ==> Linked(o, open)
      requires dir == target ==> open <= {root}
      requires dir == root ==> open == {}
      requires GrownTo(t, done) && done <= done' <= t.children.Keys && dir in done'
      ensures t.InWork(open, dir, done')
    {
      forall o | o in open ensures t.Linked(o, open) {
        assert Linked(o, open);
        assert o in parent ==> t.parent[o] == parent[o] || Newly(t, o);
      }
      assert dir in parent ==> t.parent[dir] == parent[dir] || Newly(t, dir);
    }

    lemma KidEnters(dir: NodeId, i: nat, exact: bool, open: set<NodeId>, level: map<NodeId, nat>,
                    pathLen: map<NodeId, nat>, pathlen: nat)
      requires IsTree() && TargetInRoot() && KeepsMeaning() && Placed(level, pathLen)
      requires InWork(open, dir, level.Keys)
      requires LoopState(dir, i, exact, open + {dir}, level) && i < |children[dir]|
      requires pathlen >= pathLen[dir] && (exact ==> pathlen == pathLen[dir])
      requires children[dir][i] in children
      ensures var c := children[dir][i];
        && c in isoName && IsKid(c, dir) && c !in open + {dir} && Stack(open + {dir}, c, level)
        && Enters(c, level[dir] + 1, pathlen + 1 + |isoName[c]|, level, pathLen)
        && c != root && level[dir] <= MAX_LEVEL
        && AllComplete(open + {dir}, level) && AllComplete(open + {dir} + {c}, level)
    {
      var c := children[dir][i];
      assert OwnsKids(dir) && IsKid(c, dir);
      KidOnStack(dir, open, level, c);
      TargetIsShallow(level, pathLen);
      assert IsPlaced(dir, level, pathLen);
      assert c in level ==> IsPlaced(c, level, pathLen);
    }

    lemma RootIsPlaced(level: map<NodeId, nat>, pathLen: map<NodeId, nat>)
      requires IsTree() && Placed(level, pathLen) && KeepsMeaning()
      ensures root in level && target in level && level.Keys == pathLen.Keys && level.Keys <= children.Keys
      ensures realParent.Keys <= children.Keys
    {
      forall x | x in realParent ensures x in children {
        assert IsRelocated(x);
      }
    }

    lemma WorkEnds(open: set<NodeId>, dir: NodeId, level: map<NodeId, nat>)
      requires level.Keys <= children.Keys && AllComplete(open + {dir}, level)
      requires dir in level ==> dir == target || Complete(dir, level.Keys)
      ensures AllComplete(open, level)
    {
      forall d | d in level.Keys && d !in open && d != target ensures Complete(d, level.Keys) {
        assert d != dir ==> d !in open + {dir};
      }
    }

    lemma LoopStateEnds(dir: NodeId, exact: bool, open: set<NodeId>, level: map<NodeId, nat>)
      requires dir in children && LoopState(dir, |children[dir]|, exact, open + {dir}, level)
      ensures level.Keys <= children.Keys && Complete(dir, level.Keys) && AllComplete(open, level)
      ensures forall k :: 0 <= k < |children[dir]| && children[dir][k] == target ==> TargetComplete(level.Keys)
    {
      WorkEnds(open, dir, level);
    }

    lemma LoopStateSkips(dir: NodeId, i: nat, exact: bool, open: set<NodeId>, level: map<NodeId, nat>)
      requires LoopState(dir, i, exact, open, level)
      requires dir in children && i < |children[dir]| && children[dir][i] !in children && target in children
      ensures LoopState(dir, i + 1, exact, open, level)
    {
    }

    /** The effect of the part before the loop: at most dir has got its place. */
    lemma WorkBegins(t: Tree, dir: NodeId, level: map<NodeId, nat>, pathLen: map<NodeId, nat>,
                     level': map<NodeId, nat>, pathLen': map<NodeId, nat>)
      requires GrownTo(t, level.Keys) && level.Keys == pathLen.Keys && level'.Keys == pathLen'.Keys
      requires forall d :: d in level ==> d in level' && level'[d] == level[d]
      requires forall d :: d in pathLen ==> d in pathLen' && pathLen'[d] == pathLen[d]
      requires forall d :: d in level' ==> d in level || d == dir
      requires t.target in t.children && (t.target != t.root ==> t.realParent.Keys <= level'.Keys)
      ensures Worked(t, dir, level, pathLen, level', pathLen')
    {
      assert forall d :: d in level.Keys ==> d in level'.Keys;
      assert forall d :: d in pathLen.Keys ==> d in pathLen'.Keys;
      if target != root && TargetComplete(level.Keys) {
        StaysComplete(t, target, level.Keys, level'.Keys);
      }
    }

    /** Directory dir is now under work. */
    lemma StackGrows(t: Tree, dir: NodeId, open: set<NodeId>, level: map<NodeId, nat>, done: set<NodeId>)
      requires Stack(open, dir, level) && GrownTo(t, level.Keys) && t.KeepsMeaning()
      requires dir in done && level.Keys <= done <= t.children.Keys
      ensures t.InWork(open, dir, done)
      ensures dir != root ==> dir in t.parent && t.parent[dir] != dir
    {
      StaysInWork(t, open, dir, level.Keys, done);
      assert dir in t.realParent ==> t.IsRelocated(dir);
    }

    /** The depth and path length handed to reorder_tree() agree with the place of the directory.
        The path length may be overestimated inside a freshly relocated directory. */
    ghost predicate Enters(dir: NodeId, dirLevel: nat, dirPathlen: nat, level: map<NodeId, nat>,
                           pathLen: map<NodeId, nat>)
      requires IsTree() && Placed(level, pathLen)
    {
      && dir in children
      && (dir in level ==> dirLevel == level[dir] && dirPathlen == pathLen[dir])
      && (dir !in level ==>
            && dir != root && dir in parent && parent[dir] in level
            && dirLevel == level[parent[dir]] + 1
            && dirPathlen >= pathLen[parent[dir]] + 1 + |isoName[dir]|
            && (parent[dir] == target ==> dirPathlen <= 2 * (MAX_NAME + 1)))
    }

    ghost predicate IsLongestName(dir: NodeId, len: nat)
      requires dir in children
    {
      && (forall k :: 0 <= k < |children[dir]| ==> children[dir][k] in isoName && |isoName[children[dir][k]]| <= len)
      && (len == 0 || exists k :: 0 <= k < |children[dir]| && |isoName[children[dir][k]]| == len)
    }

    /** A directory that may get relocated: not done yet, and not listed by the target. */
    ghost predicate IsDeep(dir: NodeId, level: map<NodeId, nat>) {
      && dir in children && dir !in level && dir != root && dir != target && dir !in realParent
      && Listed(dir) && parent[dir] != target
    }

    lemma EntersDeep(dir: NodeId, dirLevel: nat, dirPathlen: nat, maxName: nat, level: map<NodeId, nat>,
                     pathLen: map<NodeId, nat>)
      requires IsTree() && TargetInRoot() && KeepsMeaning() && Placed(level, pathLen)
      requires Enters(dir, dirLevel, dirPathlen, level, pathLen) && IsLongestName(dir, maxName)
      requires dirLevel > MAX_LEVEL || dirPathlen + 1 + maxName > MAX_PATH
      ensures IsDeep(dir, level)
    {
      TargetIsShallow(level, pathLen);
      PlacedFits(dir, level, pathLen, maxName);
      assert Listed(dir);
      assert dir in realParent ==> IsRelocated(dir);
      assert OwnsKids(dir);
      if maxName > 0 {
        var k :| 0 <= k < |children[dir]| && |isoName[children[dir][k]]| == maxName;
        assert IsKid(children[dir][k], dir);
      }
    }

    /** The number of directories that were not relocated yet. */
    ghost function Unmoved(): nat {
      |children.Keys - realParent.Keys|
    }

    lemma GrownMovesMore(t: Tree, done: set<NodeId>)
      requires GrownTo(t, done) && t.realParent.Keys <= t.children.Keys
      ensures t.Unmoved() <= Unmoved()
      ensures t.Unmoved() == Unmoved() ==> t.realParent.Keys == realParent.Keys && t.children == children
    {
      SmallerRest(children.Keys, realParent.Keys, t.realParent.Keys);
    }

    lemma MovedNames(x: NodeId, i: nat)
      requires Movable(x, i)
      ensures Moved(x, i).root == root && Moved(x, i).target == target
      ensures forall n :: n in isoName ==> n in Moved(x, i).isoName && Moved(x, i).isoName[n] == isoName[n]
    {
    }

    ghost predicate RelocatedTo(t: Tree, dir: NodeId, l0: map<NodeId, nat>, p0: map<NodeId, nat>,
                                l1: map<NodeId, nat>, p1: map<NodeId, nat>, dedicated: bool) {
      && t.Invariant(l1, p1, dedicated) && GrownTo(t, l0.Keys)
      && t.realParent.Keys == realParent.Keys + {dir}
    }

    lemma HasNames(dir: NodeId, level: map<NodeId, nat>, pathLen: map<NodeId, nat>, dedicated: bool)
      requires Invariant(level, pathLen, dedicated) && IsDeep(dir, level)
      ensures target in isoName && target in pathLen && dir in isoName && IsTree() && KeepsMeaning()
    {
    }

    /** What reorder_tree() may rely on. */
    ghost predicate CallPre(dir: NodeId, dirLevel: nat, dirPathlen: nat, open: set<NodeId>, level: map<NodeId, nat>,
                            pathLen: map<NodeId, nat>, dedicated: bool) {
      && Invariant(level, pathLen, dedicated) && Enters(dir, dirLevel, dirPathlen, level, pathLen)
      && Stack(open, dir, level) && AllComplete(open + {dir}, level)
    }

    /** What reorder_tree() achieves for dir and what lies below. */
    ghost predicate CallPost(t: Tree, dir: NodeId, open: set<NodeId>, l0: map<NodeId, nat>, p0: map<NodeId, nat>,
                             l1: map<NodeId, nat>, p1: map<NodeId, nat>, dedicated: bool) {
      && t.Invariant(l1, p1, dedicated)
      && Worked(t, dir, l0, p0, l1, p1)
      && t.AllComplete(open, l1)
      && (dir in l1 ==> t.Complete(dir, l1.Keys))
      && (dir in l1 ==> forall k :: 0 <= k < |t.children[dir]| && t.children[dir][k] == target ==>
            t.TargetComplete(l1.Keys))
      && (dir in l1 || (IsDeep(dir, l0) && dir in t.realParent))
    }

    /** The outcome of the part before the loop. */
    ghost predicate Settled(t: Tree, dir: NodeId, dirLevel: nat, again: bool, level': nat, pathlen: nat,
                            open: set<NodeId>, l0: map<NodeId, nat>, p0: map<NodeId, nat>, l1: map<NodeId, nat>,
                            p1: map<NodeId, nat>, dedicated: bool) {
      && IsTree() && Placed(l0, p0)
      && t.Invariant(l1, p1, dedicated) && GrownTo(t, l0.Keys) && Worked(t, dir, l0, p0, l1, p1)
      && t.AllComplete(open + {dir}, l1)
      && l1.Keys <= l0.Keys + {dir}
      && (again ==> IsDeep(dir, l0) && dir !in l1 && dir in t.realParent)
      && (!again ==>
            && dir in l1 && dir in p1 && level' == l1[dir] && pathlen >= p1[dir]
            && (dir in l0 || dir == target ==> pathlen == p1[dir])
            && t.InWork(open, dir, l1.Keys)
            && (t.Unmoved() < Unmoved() || (t.Unmoved() == Unmoved() && level' == dirLevel)))
    }

    lemma RelocationSettles(t: Tree, dir: NodeId, dirLevel: nat, dirPathlen: nat, again: bool, level': nat,
                            pathlen: nat, open: set<NodeId>, l0: map<NodeId, nat>, p0: map<NodeId, nat>,
                            l1: map<NodeId, nat>, p1: map<NodeId, nat>, dedicated: bool)
      requires CallPre(dir, dirLevel, dirPathlen, open, l0, p0, dedicated) && IsDeep(dir, l0)
      requires RelocatedTo(t, dir, l0, p0, l1, p1, dedicated)
      requires again ==> l1 == l0 && p1 == p0
      requires !again ==> dir in l1 && dir in p1 && level' == l1[dir] && pathlen >= p1[dir]
      requires !again ==> l1 == l0[dir := level'] && p1 == p0[dir := p1[dir]]
      ensures Settled(t, dir, dirLevel, again, level', pathlen, open, l0, p0, l1, p1, dedicated)
    {
      hide KeepsMeaning, GrownTo, Complete, IsTree, IsPlaced, Worked, AllComplete;
      RootIsPlaced(l0, p0);
      t.RootIsPlaced(l1, p1);
      WorkBegins(t, dir, l0, p0, l1, p1);
      CompleteAcross(t, open + {dir}, l0, l1);
      GrownMovesMore(t, l0.Keys);
      if !again {
        StackGrows(t, dir, open, l0, l1.Keys);
      }
    }

    lemma StayingSettles(dir: NodeId, dirLevel: nat, dirPathlen: nat, maxName: nat, open: set<NodeId>,
                         l0: map<NodeId, nat>, p0: map<NodeId, nat>, l1: map<NodeId, nat>, p1: map<NodeId, nat>,
                         dedicated: bool)
      requires CallPre(dir, dirLevel, dirPathlen, open, l0, p0, dedicated) && IsLongestName(dir, maxName)
      requires dirLevel <= MAX_LEVEL && dirPathlen + 1 + maxName <= MAX_PATH
      requires dir in l0 ==> l1 == l0 && p1 == p0
      requires dir !in l0 ==> l1 == l0[dir := dirLevel] && p1 == p0[dir := p0[parent[dir]] + 1 + |isoName[dir]|]
      ensures Settled(this, dir, dirLevel, false, dirLevel, dirPathlen, open, l0, p0, l1, p1, dedicated)
    {
      RootIsPlaced(l0, p0);
      GrownToItself(l0.Keys);
      if dir !in l0 {
        PlacedNow(dir, l0, p0, l1, p1, dirPathlen, maxName, dedicated);
      }
      WorkBegins(this, dir, l0, p0, l1, p1);
      CompleteAcross(this, open + {dir}, l0, l1);
      StackGrows(this, dir, open, l0, l1.Keys);
    }

    lemma SettledEnds(t: Tree, dir: NodeId, dirLevel: nat, again: bool, level': nat, pathlen: nat, open: set<NodeId>,
                      l0: map<NodeId, nat>, p0: map<NodeId, nat>, l1: map<NodeId, nat>, p1: map<NodeId, nat>,
                      dedicated: bool)
      requires Settled(t, dir, dirLevel, again, level', pathlen, open, l0, p0, l1, p1, dedicated)
      requires again || (dedicated && dir == t.target)
      ensures CallPost(t, dir, open, l0, p0, l1, p1, dedicated)
    {
      t.WorkEnds(open, dir, l1);
      assert dir in l1 ==> t.OwnsKids(dir);
      forall k | dir in l1 && 0 <= k < |t.children[dir]| && t.children[dir][k] == target
        ensures t.TargetComplete(l1.Keys)
      {
        assert t.IsKid(target, dir);
      }
    }

    lemma GrownSame(t: Tree, done: set<NodeId>)
      requires GrownTo(t, done)
      ensures t.root == root && t.target == target && t.children.Keys == children.Keys
    {
    }

    lemma RootIsPlacedAtAll(level: map<NodeId, nat>, pathLen: map<NodeId, nat>)
      requires IsTree() && Placed(level, pathLen)
      ensures root in level && target in level
    {
    }

    lemma NotOwnParent(open: set<NodeId>, dir: NodeId, done: set<NodeId>)
      requires InWork(open, dir, done) && KeepsMeaning()
      ensures dir != root ==> dir in parent && parent[dir] != dir
      ensures dir in children && done <= children.Keys
    {
      assert dir in realParent ==> IsRelocated(dir);
    }

    /** The invariant of the loop over the children of dir. */
    ghost predicate LoopInv(t: Tree, dir: NodeId, dirLevel: nat, i: nat, level': nat, pathlen: nat, open: set<NodeId>,
                            l0: map<NodeId, nat>, p0: map<NodeId, nat>, l1: map<NodeId, nat>, p1: map<NodeId, nat>,
                            dedicated: bool) {
      && root in l0
      && t.Invariant(l1, p1, dedicated) && Worked(t, dir, l0, p0, l1, p1)
      && t.InWork(open, dir, l1.Keys)
      && dir in l1 && dir in p1 && level' == l1[dir] && pathlen >= p1[dir]
      && i <= |t.children[dir]|
      && t.LoopState(dir, i, pathlen == p1[dir], open + {dir}, l1)
      && (t.Unmoved() < Unmoved() || (t.Unmoved() == Unmoved() && level' == dirLevel))
    }

    lemma SettledLoops(t: Tree, dir: NodeId, dirLevel: nat, level': nat, pathlen: nat, open: set<NodeId>,
                       l0: map<NodeId, nat>, p0: map<NodeId, nat>, l1: map<NodeId, nat>, p1: map<NodeId, nat>,
                       dedicated: bool)
      requires Settled(t, dir, dirLevel, false, level', pathlen, open, l0, p0, l1, p1, dedicated)
      ensures LoopInv(t, dir, dirLevel, 0, level', pathlen, open, l0, p0, l1, p1, dedicated)
      ensures dir in t.children
    {
      hide KeepsMeaning, Placed, IsTree, GrownTo, AllComplete, Complete, TargetInRoot, LoopState, InWork;
      GrownSame(t, l0.Keys);
      RootIsPlacedAtAll(l0, p0);
      assert l0.Keys <= l1.Keys && dir in l1.Keys;
      assert l1.Keys == l0.Keys + {dir};
      t.NotOwnParent(open, dir, l1.Keys);
      assert pathlen == p1[dir] || (dir !in l0 && dir != target && dir != root);
      LoopStarts(t, dir, pathlen == p1[dir], open, l0, p0, l1);
    }

    lemma LoopCalls(t: Tree, dir: NodeId, dirLevel: nat, i: nat, level': nat, pathlen: nat, open: set<NodeId>,
                    l0: map<NodeId, nat>, p0: map<NodeId, nat>, l1: map<NodeId, nat>, p1: map<NodeId, nat>,
                    dedicated: bool)
      requires LoopInv(t, dir, dirLevel, i, level', pathlen, open, l0, p0, l1, p1, dedicated)
      requires dir in t.children && i < |t.children[dir]|
      requires var c := t.children[dir][i]; c in t.nodeType && t.nodeType[c] == Directory
      ensures t.children[dir][i] in t.children && t.children[dir][i] in t.isoName
      ensures t.CallPre(t.children[dir][i], level' + 1, pathlen + 1 + |t.isoName[t.children[dir][i]]|, open + {dir},
                        l1, p1, dedicated)
      ensures level' <= MAX_LEVEL
      ensures t.Unmoved() < Unmoved() || (t.Unmoved() == Unmoved() && level' == dirLevel)
    {
      t.KidEnters(dir, i, pathlen == p1[dir], open, l1, p1, pathlen);
    }

    lemma LoopReturns(t: Tree, u: Tree, dir: NodeId, dirLevel: nat, i: nat, level': nat, pathlen: nat,
                      open: set<NodeId>, l0: map<NodeId, nat>, p0: map<NodeId, nat>, l1: map<NodeId, nat>,
                      p1: map<NodeId, nat>, l2: map<NodeId, nat>, p2: map<NodeId, nat>, dedicated: bool)
      requires LoopInv(t, dir, dirLevel, i, level', pathlen, open, l0, p0, l1, p1, dedicated)
      requires dir in t.children && i < |t.children[dir]| && t.children[dir][i] in t.children
      requires t.CallPost(u, t.children[dir][i], open + {dir}, l1, p1, l2, p2, dedicated)
      ensures LoopInv(u, dir, dirLevel, i + 1, level', pathlen, open, l0, p0, l2, p2, dedicated)
      ensures dir in u.children
      ensures u.Unmoved() < t.Unmoved() || (u.Unmoved() == t.Unmoved() && u.children == t.children)
    {
      var c := t.children[dir][i];
      u.RootIsPlaced(l2, p2);
      t.KidEnters(dir, i, pathlen == p1[dir], open, l1, p1, pathlen);
      t.LoopAdvances(dir, i, pathlen == p1[dir], open + {dir}, l1, p1, u, l2, p2);
      t.WorkKeeps(u, dir, c, open, l1, p1, l2, p2);
      WorkAddsUp(t, u, dir, c, open + {dir}, l0, p0, l1, p1, l2, p2);
    }

    lemma LoopSkips(t: Tree, dir: NodeId, dirLevel: nat, i: nat, level': nat, pathlen: nat, open: set<NodeId>,
                    l0: map<NodeId, nat>, p0: map<NodeId, nat>, l1: map<NodeId, nat>, p1: map<NodeId, nat>,
                    dedicated: bool)
      requires LoopInv(t, dir, dirLevel, i, level', pathlen, open, l0, p0, l1, p1, dedicated)
      requires dir in t.children && i < |t.children[dir]|
      requires var c := t.children[dir][i]; !(c in t.nodeType && t.nodeType[c] == Directory)
      ensures LoopInv(t, dir, dirLevel, i + 1, level', pathlen, open, l0, p0, l1, p1, dedicated)
    {
      t.LoopStateSkips(dir, i, pathlen == p1[dir], open + {dir}, l1);
    }

    lemma LoopEnds(t: Tree, dir: NodeId, dirLevel: nat, i: nat, level': nat, pathlen: nat, open: set<NodeId>,
                   l0: map<NodeId, nat>, p0: map<NodeId, nat>, l1: map<NodeId, nat>, p1: map<NodeId, nat>,
                   dedicated: bool)
      requires LoopInv(t, dir, dirLevel, i, level', pathlen, open, l0, p0, l1, p1, dedicated)
      requires dir in t.children && i >= |t.children[dir]|
      ensures CallPost(t, dir, open, l0, p0, l1, p1, dedicated)
    {
      t.LoopStateEnds(dir, pathlen == p1[dir], open, l1);
    }

    /** A tree before relocation. */
    ghost predicate Untouched() {
      && IsTree() && TargetInRoot()
      && realParent == map[] && realMe == map[] && origin == children
      && (forall n :: n in nodeType ==> nodeType[n] != Placeholder)
    }

    /** No directory is its own ancestor: a measure grows from each parent to its children. */
    ghost predicate RankedBy(depth: map<NodeId, nat>) {
      forall d :: d in children ==> HasRank(d, depth)
    }

    ghost predicate HasRank(d: NodeId, depth: map<NodeId, nat>) {
      d in depth && (d != root ==> d in parent && parent[d] in depth && depth[parent[d]] < depth[d])
    }

    lemma Starts(dedicated: bool)
      requires Untouched() && (dedicated ==> children[target] == [])
      ensures target in isoName
      ensures CallPre(root, 1, 0, {}, map[target := 2][root := 1], map[target := 1 + |isoName[target]|][root := 0],
              dedicated)
    {
      var level: map<NodeId, nat> := map[target := 2][root := 1];
      var pathLen: map<NodeId, nat> := map[target := 1 + |isoName[target]|][root := 0];
      ShortNames(root, 0);
      if target != root {
        ShortNames(target, pathLen[target]);
      }
      assert IsPlaced(root, level, pathLen) && IsPlaced(target, level, pathLen);
      forall d | d in origin ensures Means(d) {
      }
    }

    lemma {:induction false} PlacedByRank(t: Tree, depth: map<NodeId, nat>, l0: map<NodeId, nat>,
                                          l1: map<NodeId, nat>, d: NodeId)
      requires IsTree() && RankedBy(depth) && realParent == map[] && root in l1
      requires GrownTo(t, l0.Keys) && t.IsTree() && t.KeepsMeaning() && l1.Keys <= t.children.Keys
      requires t.AllComplete({}, l1) && t.Complete(root, l1.Keys) && t.TargetComplete(l1.Keys)
      requires d in children
      ensures d in l1
      decreases if d in depth then depth[d] else 0
    {
      if d != root {
        assert HasRank(d, depth) && Listed(d) && t.Listed(d);
        var p := t.parent[d];
        if d in t.realParent {
          assert t.IsRelocated(d);
        } else {
          assert p == parent[d] || Newly(t, d);
          PlacedByRank(t, depth, l0, l1, p);
        }
        assert p == root || p == target || t.Complete(p, l1.Keys);
        var k :| 0 <= k < |t.children[p]| && t.children[p][k] == d;
      }
    }

    /** After the run, every directory has got its final place. */
    lemma EverythingPlaced(t: Tree, depth: map<NodeId, nat>, l0: map<NodeId, nat>, p0: map<NodeId, nat>,
                           l1: map<NodeId, nat>, p1: map<NodeId, nat>, dedicated: bool)
      requires Untouched() && RankedBy(depth) && root in l0
      requires CallPost(t, root, {}, l0, p0, l1, p1, dedicated)
      ensures l1.Keys == t.children.Keys == children.Keys
    {
      if target != root {
        assert t.Listed(target);
      }
      forall d | d in children ensures d in l1 {
        PlacedByRank(t, depth, l0, l1, d);
      }
    }

    /** The Rock Ridge reader's child list of directory d. */
    ghost function LogicalList(d: NodeId): seq<NodeId>
      requires d in children
    {
      LogicalChildren(children[d], realMe, realParent.Keys)
    }

    /** Relocation does not change the tree that a Rock Ridge reader sees. */
    lemma LogicalTreeKept(d: NodeId)
      requires IsTree() && KeepsMeaning() && d in children
      ensures LogicalList(d) == origin[d]
    {
      assert Means(d);
      forall k | 0 <= k < |origin[d]|
        ensures children[d][k] !in realParent.Keys && Resolve(children[d][k], realMe) == origin[d][k]
      {
        assert StandsFor(children[d][k], origin[d][k]);
      }
      LogicalChildrenPointwise(children[d], realMe, realParent.Keys, origin[d]);
    }

    /** Placeholder p stands for x at index k, the original position of x. */
    ghost predicate HoldsPlace(p: NodeId, k: int, x: NodeId) {
      && x in realParent && realParent[x] in children && realParent[x] in origin
      && 0 <= k < |children[realParent[x]]| && k < |origin[realParent[x]]|
      && children[realParent[x]][k] == p && origin[realParent[x]][k] == x
      && p in realMe && realMe[p] == x
    }

    /** A relocated directory has exactly one placeholder, at its original position. */
    lemma OnePlaceholder(before: Tree, x: NodeId) returns (p: NodeId, k: int)
      requires IsTree() && KeepsMeaning() && x in realParent
      requires before.IsTree() && before.children == origin && before.root == root && x in before.nodeType
      ensures HoldsPlace(p, k, x)
      ensures forall q :: q in realMe && realMe[q] == x ==> q == p
    {
      assert IsRelocated(x) && before.Listed(x);
      var d := before.parent[x];
      k :| 0 <= k < |origin[d]| && origin[d][k] == x;
      assert Means(d) && before.OwnsKids(d) && OwnsKids(d);
      p := children[d][k];
      assert StandsFor(p, x);
      assert IsKid(p, d) && IsPlaceholder(p);
      forall q | q in realMe && realMe[q] == x ensures q == p {
        assert IsPlaceholder(q) && Listed(q);
        var j :| 0 <= j < |children[d]| && children[d][j] == q;
        assert q in realParent ==> IsRelocated(q);
        assert StandsFor(q, origin[d][j]);
        assert before.OwnsKids(d) && Distinct(before.children[d]);
      }
    }
  }
}
