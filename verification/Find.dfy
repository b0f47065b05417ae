/** The lazy search through a directory tree (libisofs/find.c): a chain of nested iterators,
    one per directory level, which together deliver the filtered preorder sequence. */
module Find {
  import opened Common

  /** id stands for the identity of the node object. */
  datatype Attrs = Attrs(id: nat, name: string, mode: bv32, uid: nat, gid: nat, atime: int, mtime: int, ctime: int)

  datatype Node =
    | Leaf(attrs: Attrs)
    | Dir(attrs: Attrs, children: seq<Node>)

  datatype WhatTime = Atime | Mtime | Ctime

  datatype Comparison = Greater | GreaterOrEqual | Equal | Less | LessOrEqual

  /** Name holds the names which the wildcard pattern stands for: fnmatch() itself is not modelled. */
  datatype Condition =
    | Name(pattern: set<string>)
    | Mode(mask: bv32)
    | Gid(gid: nat)
    | Uid(uid: nat)
    | Times(what: WhatTime, comparison: Comparison, time: int)
    | And(a: Condition, b: Condition)
    | Or(a: Condition, b: Condition)
    | Not(negate: Condition)

  function NodeTime(what: WhatTime, n: Attrs): int {
    match what
    case Atime => n.atime
    case Mtime => n.mtime
    case Ctime => n.ctime
  }

  predicate Compare(x: int, comparison: Comparison, y: int) {
    match comparison
    case Greater => x > y
    case GreaterOrEqual => x >= y
    case Equal => x == y
    case Less => x < y
    case LessOrEqual => x <= y
  }

  predicate Matches(c: Condition, n: Node) {
    match c
    case Name(pattern) => n.attrs.name in pattern
    case Mode(mask) => n.attrs.mode & mask != 0
    case Gid(gid) => n.attrs.gid == gid
    case Uid(uid) => n.attrs.uid == uid
    case Times(what, comparison, time) => Compare(NodeTime(what, n.attrs), comparison, time)
    case And(a, b) => Matches(a, n) && Matches(b, n)
    case Or(a, b) => Matches(a, n) || Matches(b, n)
    case Not(negate) => !Matches(negate, n)
  }

  // ---------- what a search means ----------

  /** The nodes of a list of trees: each node, then everything below it, then its later siblings. */
  function Below(nodes: seq<Node>): seq<Node> {
    if nodes == [] then [] else [nodes[0]] + Inside(nodes[0]) + Below(nodes[1..])
  }

  /** The nodes strictly below a node. */
  function Inside(n: Node): seq<Node> {
    match n
    case Leaf(_) => []
    case Dir(_, children) => Below(children)
  }

  function Select(c: Condition, nodes: seq<Node>): (r: seq<Node>) {
    if nodes == [] then []
    else (if Matches(c, nodes[0]) then [nodes[0]] else []) + Select(c, nodes[1..])
  }

  /** The result of a search: the matching nodes strictly below the start directory. */
  function Found(c: Condition, n: Node): seq<Node> {
    Select(c, Inside(n))
  }

  lemma {:induction false} SelectConcat(c: Condition, a: seq<Node>, b: seq<Node>)
    ensures Select(c, a + b) == Select(c, a) + Select(c, b)
  {
    hide Matches, Select;
    if a == [] {
      NothingBefore(b);
      SelectNone(c);
    } else {
      FirstOfConcat(a, b);
      SelectFirst(c, a);
      SelectFirst(c, a + b);
      SelectConcat(c, a[1..], b);
      Associate(if Matches(c, a[0]) then [a[0]] else [], Select(c, a[1..]), Select(c, b));
    }
  }

  lemma SelectNone(c: Condition)
    ensures Select(c, []) == []
  {
  }

  lemma SelectFirst(c: Condition, nodes: seq<Node>)
    requires nodes != []
    ensures Select(c, nodes) == (if Matches(c, nodes[0]) then [nodes[0]] else []) + Select(c, nodes[1..])
  {
    hide Matches;
  }

  /** A search in a list of trees is made of what each tree contributes. */
  lemma FoundStep(c: Condition, nodes: seq<Node>)
    requires nodes != []
    ensures Select(c, Below(nodes))
         == (if Matches(c, nodes[0]) then [nodes[0]] else []) + Found(c, nodes[0]) + Select(c, Below(nodes[1..]))
  {
    hide Inside, Matches;
    var head, inner, rest := [nodes[0]], Inside(nodes[0]), Below(nodes[1..]);
    SelectConcat(c, head + inner, rest);
    SelectConcat(c, head, inner);
    assert Select(c, head) == if Matches(c, nodes[0]) then head else [];
  }

  /** Preorder: in the order of Below each node is directly followed by everything inside it. */
  lemma {:induction false} FollowedByContents(nodes: seq<Node>, i: nat)
    requires i < |Below(nodes)|
    ensures i + 1 + |Inside(Below(nodes)[i])| <= |Below(nodes)|
    ensures Below(nodes)[i + 1..i + 1 + |Inside(Below(nodes)[i])|] == Inside(Below(nodes)[i])
    decreases nodes
  {
    hide Inside;
    var inner, rest := Inside(nodes[0]), Below(nodes[1..]);
    if i == 0 {
      Shifted([nodes[0]], inner, rest, 0, |inner|);
    } else if i <= |inner| {
      InsideDir(nodes[0]);
      FollowedByContents(nodes[0].children, i - 1);
      Shifted([nodes[0]], inner, rest, i, i + |Inside(inner[i - 1])|);
    } else {
      var j := i - 1 - |inner|;
      FollowedByContents(nodes[1..], j);
      Shifted([nodes[0]] + inner, rest, [], j + 1, j + 1 + |Inside(rest[j])|);
    }
  }

  lemma InsideDir(n: Node)
    ensures Inside(n) != [] ==> n.Dir? && Inside(n) == Below(n.children)
  {
  }

  lemma Shifted<T>(a: seq<T>, b: seq<T>, c: seq<T>, lo: nat, hi: nat)
    requires lo <= hi <= |b|
    ensures (a + b + c)[|a| + lo..|a| + hi] == b[lo..hi]
  {
  }

  /** Every match is found, and nothing else. */
  lemma {:induction false} SelectExactly(c: Condition, nodes: seq<Node>, n: Node)
    ensures n in Select(c, nodes) <==> n in nodes && Matches(c, n)
  {
    if nodes != [] {
      SelectExactly(c, nodes[1..], n);
      assert nodes == [nodes[0]] + nodes[1..];
    }
  }

  predicate OwnIds(nodes: seq<Node>) {
    forall i, j :: 0 <= i < j < |nodes| ==> nodes[i].attrs.id != nodes[j].attrs.id
  }

  /** No node object is returned twice. */
  lemma {:induction false} EachOnce(c: Condition, nodes: seq<Node>)
    requires OwnIds(nodes)
    ensures OwnIds(Select(c, nodes))
  {
    if nodes != [] {
      EachOnce(c, nodes[1..]);
      forall n | n in Select(c, nodes[1..])
        ensures n.attrs.id != nodes[0].attrs.id
      {
        SelectExactly(c, nodes[1..], n);
      }
    }
  }

  lemma ChildStep(c: Condition, children: seq<Node>, pos: nat)
    requires pos < |children|
    ensures Select(c, Below(children[pos..]))
         == (if Matches(c, children[pos]) then [children[pos]] else [])
            + Found(c, children[pos]) + Select(c, Below(children[pos + 1..]))
    ensures children[pos].Leaf? ==> Found(c, children[pos]) == []
  {
    FoundStep(c, children[pos..]);
    assert children[pos..][1..] == children[pos + 1..];
  }

  lemma FoundInLeaf(c: Condition, n: Option<Node>)
    ensures n.Some? && n.value.Leaf? ==> Found(c, n.value) == []
  {
  }

  lemma NoChildren(c: Condition, nodes: seq<Node>)
    ensures nodes == [] ==> Select(c, Below(nodes)) == []
  {
  }

  // ---------- the iterator ----------

  class FindIter {
    const dir: Node
    const cond: Condition
    /** how many children the underlying child iterator has delivered */
    var pos: nat
    /** the search in the child directory delivered last, while it has more to give */
    var itersec: FindIter?
    /** the node to be returned next, and the node returned last */
    var current: Option<Node>
    var prev: Option<Node>
    ghost var Repr: set<object>

    /** The chain of iterators leads down the tree, and each is in order. */
    ghost predicate Linked()
      reads this, Repr
      decreases Repr, 0
    {
      && this in Repr
      && dir.Dir? && pos <= |dir.children|
      && (itersec != null ==>
            && itersec in Repr && itersec.Repr <= Repr && this !in itersec.Repr
            && itersec.Valid()
            && itersec.cond == cond
            && pos > 0 && itersec.dir == dir.children[pos - 1])
    }

    ghost predicate Valid()
      reads this, Repr
      decreases Repr, 1
    {
      && Linked()
      && (current.None? ==> itersec == null && pos == |dir.children|)
      && (itersec == null && current.Some? ==> pos > 0 && current.value == dir.children[pos - 1])
    }

    /** What is still to be fetched, the current node set aside. */
    ghost function Remaining(): seq<Node>
      requires Linked()
      reads this, Repr
      decreases Repr, 0
    {
      (if itersec != null then itersec.Pending() else []) + Select(cond, Below(dir.children[pos..]))
    }

    /** What the iterator will still return. */
    ghost function Pending(): seq<Node>
      requires Valid()
      reads this, Repr
      decreases Repr, 2
    {
      if current.None? then []
      else [current.value] + Owed()
    }

    constructor Start(dir: Node, cond: Condition)
      requires dir.Dir?
      ensures this.dir == dir && this.cond == cond
      ensures Linked() && fresh(Repr)
      ensures Remaining() == Found(cond, dir)
      ensures itersec == null && current == None && prev == None
    {
      this.dir, this.cond := dir, cond;
      pos, itersec, current, prev := 0, null, None, None;
      Repr := {this};
      new;
      assert dir.children[0..] == dir.children;
    }

    /** n is the first of the nodes which were to be fetched before, the others are still to be fetched. */
    ghost predicate Fetched(n: Option<Node>, before: seq<Node>)
      requires Linked()
      reads this, Repr
    {
      if n.None? then before == [] && itersec == null && pos == |dir.children|
      else
        && (itersec == null ==> pos > 0 && n.value == dir.children[pos - 1])
        && before == [n.value] + (if itersec == null then Found(cond, n.value) else []) + Remaining()
    }

    /** Asks the nested search, and drops it when it has no more items. */
    method NextNested() returns (n: Option<Node>)
      requires Linked() && itersec != null
      modifies Repr
      ensures Linked() && fresh(Repr - old(Repr))
      ensures current == old(current) && prev == old(prev) && pos == old(pos)
      ensures if n.Some? then Fetched(n, old(Remaining())) else itersec == null && Remaining() == old(Remaining())
      decreases dir, 0, |dir.children| - pos, 0
    {
      hide Select, Below, Found, Inside, Matches, Pending, Valid, Owed;
      ghost var rest := Select(cond, Below(dir.children[pos..]));
      assert Remaining() == itersec.Pending() + rest;
      n := itersec.Next();
      assert this !in itersec.Repr;
      Repr := Repr + itersec.Repr;
      if n.None? {
        itersec := null;
      } else {
        Associate([n.value], itersec.Pending(), rest);
      }
    }

    /** Goes on through the children to the next match, or to the next directory with a match inside. */
    method NextChild() returns (n: Option<Node>)
      requires Linked() && itersec == null
      modifies Repr
      ensures Linked() && fresh(Repr - old(Repr))
      ensures current == old(current) && prev == old(prev)
      ensures Fetched(n, old(Remaining()))
      decreases dir, 0, |dir.children| - pos, 0
    {
      hide Select, Below, Found, Inside, Matches, Pending, Valid, Owed;
      while pos < |dir.children|
        invariant Linked() && itersec == null && Repr == old(Repr)
        invariant current == old(current) && prev == old(prev) && pos >= old(pos)
        invariant Remaining() == old(Remaining())
        decreases |dir.children| - pos
      {
        var child := dir.children[pos];
        ChildStep(cond, dir.children, pos);
        pos := pos + 1;
        if Matches(cond, child) {
          return Some(child);
        } else if child.Dir? {
          n := SearchInside(child);
          return;
        }
      }
      NoChildren(cond, dir.children[pos..]);
      n := None;
    }

    /** Recurses into a child directory which itself does not match. */
    method SearchInside(child: Node) returns (n: Option<Node>)
      requires Linked() && itersec == null && pos > 0 && child == dir.children[pos - 1] && child.Dir?
      modifies Repr
      ensures Linked() && fresh(Repr - old(Repr))
      ensures current == old(current) && prev == old(prev)
      ensures Fetched(n, Found(cond, child) + old(Remaining()))
      decreases dir, 0, |dir.children| - pos, 2
    {
      hide Select, Below, Found, Inside, Matches, Pending, Owed;
      itersec := FindChildren(child, cond);
      Repr := Repr + itersec.Repr;
      n := GetNext();
    }

    /** Fetches the next match: from the nested search while it lasts, then from the children. */
    method GetNext() returns (n: Option<Node>)
      requires Linked()
      modifies Repr
      ensures Linked() && fresh(Repr - old(Repr))
      ensures current == old(current) && prev == old(prev)
      ensures Fetched(n, old(Remaining()))
      decreases dir, 0, |dir.children| - pos, 1
    {
      hide Select, Below, Found, Inside, Matches, Pending, Valid, Owed;
      if itersec != null {
        n := NextNested();
        if n.Some? {
          return;
        }
      }
      n := NextChild();
    }

    /** What the directory just returned and the search behind it will still give. */
    ghost function Owed(): seq<Node>
      requires Linked()
      reads this, Repr
      decreases Repr, 1
    {
      (if itersec == null && current.Some? then Found(cond, current.value) else []) + Remaining()
    }

    /** Opens the directory that is about to be returned, unless it came from the nested search. */
    method OpenCurrent()
      requires Linked()
      requires itersec == null && current.Some? ==> pos > 0 && current.value == dir.children[pos - 1]
      modifies Repr
      ensures Linked() && fresh(Repr - old(Repr))
      ensures current == old(current) && prev == old(prev)
      ensures Remaining() == old(Owed())
      decreases dir, 1, 0
    {
      hide Select, Below, Found, Inside, Matches, Pending;
      FoundInLeaf(cond, current);
      NothingBefore(Select(cond, Below(dir.children[pos..])));
      NothingBefore(Remaining());
      if itersec == null && current.Some? && current.value.Dir? {
        itersec := FindChildren(current.value, cond);
        Repr := Repr + itersec.Repr;
      }
    }

    /** Moves current to prev and fetches the next node, first opening the directory it leaves. */
    method UpdateNext()
      requires Linked()
      requires itersec == null && current.Some? ==> pos > 0 && current.value == dir.children[pos - 1]
      modifies Repr
      ensures Valid() && fresh(Repr - old(Repr))
      ensures prev == old(current)
      ensures Pending() == old(Owed())
      decreases dir, 1, 1
    {
      hide Select, Below, Found, Inside, Matches, Owed, Pending, Fetched;
      OpenCurrent();
      ghost var before := Remaining();
      prev := current;
      assert Remaining() == before;
      var n := GetNext();
      Deliver(n, before);
    }

    /** The fetched node is the next one to be returned. */
    method Deliver(n: Option<Node>, ghost before: seq<Node>)
      requires Linked() && Fetched(n, before)
      modifies this`current
      ensures Valid() && Pending() == before
    {
      hide Select, Below, Found, Inside, Matches;
      ghost var after := Remaining();
      if n.Some? {
        Associate([n.value], if itersec == null then Found(cond, n.value) else [], after);
      }
      current := n;
      assert Remaining() == after;
    }

    /** Returns the next node of the search, or None at its end. */
    method Next() returns (node: Option<Node>)
      requires Valid()
      modifies Repr
      ensures Valid() && fresh(Repr - old(Repr))
      ensures node.None? <==> old(Pending()) == []
      ensures node.None? ==> Pending() == []
      ensures node.Some? ==> old(Pending()) == [node.value] + Pending()
      ensures prev == node
      decreases dir, 2
    {
      hide Select, Below, Found, Inside, Matches;
      NoChildren(cond, dir.children[pos..]);
      node := current;
      UpdateNext();
    }

    method HasNext() returns (more: bool)
      requires Valid()
      ensures more <==> Pending() != []
    {
      more := current.Some?;
    }

    /** Opens a search: its results are the matching nodes strictly below the directory, in preorder. */
    static method FindChildren(dir: Node, cond: Condition) returns (it: FindIter)
      requires dir.Dir?
      ensures it.Valid() && fresh(it.Repr)
      ensures it.dir == dir && it.cond == cond
      ensures it.Pending() == Found(cond, dir)
      decreases dir, 3
    {
      it := new FindIter.Start(dir, cond);
      it.UpdateNext();
    }
  }

  lemma FoundExactly(c: Condition, dir: Node)
    ensures forall n :: n in Found(c, dir) <==> n in Inside(dir) && Matches(c, n)
    ensures OwnIds(Inside(dir)) ==> OwnIds(Found(c, dir))
  {
    hide Matches, Select, Inside;
    forall n ensures n in Found(c, dir) <==> n in Inside(dir) && Matches(c, n) {
      SelectExactly(c, Inside(dir), n);
    }
    if OwnIds(Inside(dir)) {
      EachOnce(c, Inside(dir));
    }
  }

  /** Calls the iterator until it reports the end: each matching node below the directory is returned, no
      other node, and no node object twice. */
  method CollectAll(dir: Node, cond: Condition) returns (found: seq<Node>)
    requires dir.Dir?
    ensures found == Found(cond, dir)
    ensures forall n :: n in found <==> n in Inside(dir) && Matches(cond, n)
    ensures OwnIds(Inside(dir)) ==> OwnIds(found)
  {
    hide Found, Matches, Select, Inside, Below, OwnIds;
    FoundExactly(cond, dir);
    var it := FindIter.FindChildren(dir, cond);
    found := [];
    var node := it.Next();
    ghost var todo := if node.Some? then [node.value] + it.Pending() else [];
    while node.Some?
      invariant it.Valid() && fresh(it.Repr)
      invariant todo == if node.Some? then [node.value] + it.Pending() else []
      invariant found + todo == Found(cond, dir)
      decreases |todo|
    {
      Associate(found, [node.value], it.Pending());
      found := found + [node.value];
      node := it.Next();
      todo := if node.Some? then [node.value] + it.Pending() else [];
    }
  }
}
