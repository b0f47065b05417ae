/**
 How colliding names of siblings get changed (libisofs/ecma119_tree.c).
 */
module Mangling {

  // ---------------------------------------------------------------- Order of names

  /** strcmp(a, b) <= 0 */
  predicate Leq(a: string, b: string) {
    a == "" || (b != "" && (a[0] < b[0] || (a[0] == b[0] && Leq(a[1..], b[1..]))))
  }

  lemma {:induction false} LeqTotal(a: string, b: string)
    ensures Leq(a, b) || Leq(b, a)
    ensures Leq(a, b) && Leq(b, a) ==> a == b
  {
    if a != "" && b != "" {
      LeqTotal(a[1..], b[1..]);
      assert a == [a[0]] + a[1..] && b == [b[0]] + b[1..];
    }
  }

  lemma {:induction false} LeqTransitive(a: string, b: string, c: string)
    requires Leq(a, b) && Leq(b, c)
    ensures Leq(a, c)
  {
    if a != "" && a[0] == b[0] && b[0] == c[0] {
      LeqTransitive(a[1..], b[1..], c[1..]);
    }
  }

  lemma {:induction false} LeqReflexive(a: string)
    ensures Leq(a, a)
  {
    if a != "" {
      LeqReflexive(a[1..]);
    }
  }

  // ---------------------------------------------------------------- Nodes

  /** What matters of an Ecma119Node. The identity tells apart nodes of the same name. */
  datatype Node = Node(name: string, isDir: bool, id: nat)

  predicate Sorted(s: seq<Node>) {
    forall i, j :: 0 <= i < j < |s| ==> Leq(s[i].name, s[j].name)
  }

  predicate Distinct(s: seq<Node>) {
    forall i, j :: 0 <= i < j < |s| ==> s[i].name != s[j].name
  }

  function Names(s: seq<Node>): (r: seq<string>)
    ensures |r| == |s| && forall i :: 0 <= i < |s| ==> r[i] == s[i].name
  {
    seq(|s|, i requires 0 <= i < |s| => s[i].name)
  }

  /** The node at index i is the only one with its name. */
  ghost predicate Unique(s: seq<Node>, i: nat)
    requires i < |s|
  {
    forall j :: 0 <= j < |s| && j != i ==> s[j].name != s[i].name
  }

  // ---------------------------------------------------------------- Candidates for new names

  function Pow10(d: nat): (p: nat)
    ensures p > 0
  {
    if d == 0 then 1 else 10 * Pow10(d - 1)
  }

  /** The number n as exactly d decimal digits, for n below 10^d */
  function Digits(n: nat, d: nat): (s: string)
    ensures |s| == d && '.' !in s
  {
    if d == 0 then "" else Digits(n / 10, d - 1) + [('0' as int + n % 10) as char]
  }

  lemma {:induction false} DigitsInjective(m: nat, n: nat, d: nat)
    requires m < Pow10(d) && n < Pow10(d) && Digits(m, d) == Digits(n, d)
    ensures m == n
  {
    if d > 0 {
      var a, b := Digits(m, d), Digits(n, d);
      assert a[..d - 1] == Digits(m / 10, d - 1) && b[..d - 1] == Digits(n / 10, d - 1);
      assert a[d - 1] == b[d - 1];
      assert m % 10 == n % 10;
      DigitsInjective(m / 10, n / 10, d - 1);
    }
  }

  const FULL_MAX_LEN: nat := 39

  /** The name as copied by strncpy() into full_name */
  function Buffered(name: string): string {
    Cut(name, FULL_MAX_LEN)
  }

  function Cut(s: string, n: int): (r: string)
    ensures r <= s && (n >= 0 ==> |r| <= n) && (|s| <= n ==> r == s)
  {
    if 0 <= n < |s| then s[..n] else s
  }

  /** strrchr(s, '.') as index, or -1 */
  function LastDot(s: string): (r: int)
    ensures -1 <= r < |s|
    ensures r >= 0 ==> s[r] == '.'
    ensures forall k :: r < k < |s| ==> s[k] != '.'
  {
    if s == "" then -1 else if s[|s| - 1] == '.' then |s| - 1 else LastDot(s[..|s| - 1])
  }

  /** The length limits as chosen by mangle_tree(), and the option to have dots in directory names */
  datatype Limits = Limits(file: nat, dir: nat, dirExt: bool)

  /** max_37_char_filenames, iso_level 1, or other levels */
  predicate ProperLimits(l: Limits) {
    (l.file == 37 && l.dir == 37) || (l.file == 12 && l.dir == 8) || (l.file == 31 && l.dir == 31)
  }

  predicate TakesExt(node: Node, l: Limits) {
    LastDot(Buffered(node.name)) >= 0 && (!node.isDir || l.dirExt)
  }

  function ExtOf(node: Node): string {
    var full := Buffered(node.name);
    full[LastDot(full) + 1..]
  }

  /** The unchanging parts of new names */
  datatype Base = Base(name: string, ext: string, dotted: bool) | ExtTooLong

  /** The computation of name and extension in mangle_single_dir() */
  function BaseOf(node: Node, l: Limits, digits: nat): Base {
    var full := Buffered(node.name);
    if TakesExt(node, l) then
      var stem, ext := full[..LastDot(full)], ExtOf(node);
      var extlen := if l.file == 12 then 3 else |ext|;
      var max := l.file - extlen - 1 - digits;
      if max > 0 then Base(Cut(stem, max), ext, true)
      else if extlen + max > 3 then
        var extlen' := extlen + max - 1;
        Base(Cut(stem, l.file - extlen' - 1 - digits), Cut(ext, extlen'), true)
      else ExtTooLong
    else Base(Cut(full, (if node.isDir then l.dir else l.file) - digits), "", false)
  }

  /** sprintf() with the format of the new names */
  function Candidate(b: Base, digits: nat, change: nat): string
    requires b.Base?
  {
    b.name + Digits(change, digits) + (if b.dotted then "." + b.ext else b.ext)
  }

  /** The limit that the names of a group have to obey. It depends on the first node only. */
  function GroupLimit(first: Node, l: Limits): nat {
    if first.isDir && !TakesExt(first, l) then l.dir else l.file
  }

  /** With the limits of ISO level 1, extensions have at most 3 characters. */
  predicate ProperExt(node: Node, l: Limits) {
    l.file == 12 && TakesExt(node, l) ==> |ExtOf(node)| <= 3
  }

  /** The error about too long extensions is not reachable, and all candidates fit. */
  lemma CandidatesFit(first: Node, l: Limits, digits: nat, change: nat)
    requires ProperLimits(l) && ProperExt(first, l) && 1 <= digits < 8
    ensures var b := BaseOf(first, l, digits);
      b.Base? && |Candidate(b, digits, change)| <= GroupLimit(first, l) < 40
  {
  }

  /** A candidate takes the same branch as the name that it was made of, and keeps a short extension. */
  lemma CandidateKind(first: Node, l: Limits, digits: nat, change: nat, node: Node)
    requires ProperLimits(l) && ProperExt(first, l) && 1 <= digits < 8
    requires BaseOf(first, l, digits).Base?
    requires node == first.(name := Candidate(BaseOf(first, l, digits), digits, change))
    ensures GroupLimit(node, l) == GroupLimit(first, l) && ProperExt(node, l)
  {
    hide LastDot, Digits;
    var b := BaseOf(first, l, digits);
    CandidatesFit(first, l, digits, change);
    assert Buffered(node.name) == node.name;
    var head := b.name + Digits(change, digits);
    if b.dotted {
      DottedCandidate(b, digits, change);
    } else if !first.isDir {
      assert node.name == head + "" == head;
      assert '.' !in Buffered(first.name);
    }
  }

  lemma DottedCandidate(b: Base, digits: nat, change: nat)
    requires b.Base? && b.dotted && forall k :: 0 <= k < |b.ext| ==> b.ext[k] != '.'
    ensures var name := Candidate(b, digits, change); LastDot(name) >= 0 && name[LastDot(name) + 1..] == b.ext
  {
    var head, tail := b.name + Digits(change, digits), "." + b.ext;
    hide Digits, LastDot;
    assert tail[0] == '.' && tail[1..] == b.ext;
    LastDotOf(head, tail);
  }

  lemma LastDotOf(head: string, tail: string)
    requires tail != "" && tail[0] == '.' && forall k :: 0 < k < |tail| ==> tail[k] != '.'
    ensures LastDot(head + tail) == |head| && (head + tail)[|head| + 1..] == tail[1..]
  {
    hide LastDot;
    var s := head + tail;
    assert s[|head|] == '.';
    forall k | |head| < k < |s| ensures s[k] != '.' {
      assert s[k] == tail[k - |head|];
    }
  }

  lemma CandidatesDiffer(b: Base, digits: nat, m: nat, n: nat)
    requires b.Base? && m < Pow10(digits) && n < Pow10(digits) && Candidate(b, digits, m) == Candidate(b, digits, n)
    ensures m == n
  {
    var tail := if b.dotted then "." + b.ext else b.ext;
    var i, j := |b.name|, |b.name| + digits;
    assert Candidate(b, digits, m)[i..j] == Digits(m, digits);
    assert Candidate(b, digits, n)[i..j] == Digits(n, digits);
    DigitsInjective(m, n, digits);
  }

  /** All candidates of an attempt have the same length. */
  function NameLen(first: Node, l: Limits, digits: nat): nat
    requires BaseOf(first, l, digits).Base?
  {
    |Candidate(BaseOf(first, l, digits), digits, 0)|
  }

  lemma CandidateLength(first: Node, l: Limits, digits: nat, change: nat)
    requires BaseOf(first, l, digits).Base?
    ensures |Candidate(BaseOf(first, l, digits), digits, change)| == NameLen(first, l, digits)
  {
    hide BaseOf, Digits;
  }

  // ---------------------------------------------------------------- Counting of candidates

  /** The names with numbers below n */
  function FirstCandidates(b: Base, digits: nat, n: nat): set<string>
    requires b.Base?
  {
    set c | 0 <= c < n :: Candidate(b, digits, c)
  }

  lemma {:induction false} CandidateCount(b: Base, digits: nat, n: nat)
    requires b.Base? && n <= Pow10(digits)
    ensures |FirstCandidates(b, digits, n)| == n
  {
    hide Candidate, Pow10;
    if n > 0 {
      CandidateCount(b, digits, n - 1);
      var last := Candidate(b, digits, n - 1);
      if last in FirstCandidates(b, digits, n - 1) {
        var c :| 0 <= c < n - 1 && Candidate(b, digits, c) == last;
        CandidatesDiffer(b, digits, c, n - 1);
      }
      assert FirstCandidates(b, digits, n) == FirstCandidates(b, digits, n - 1) + {last};
    }
  }

  function NameSet(s: seq<Node>): set<string> {
    set i | 0 <= i < |s| :: s[i].name
  }

  lemma {:induction false} NameSetSize(s: seq<Node>)
    ensures |NameSet(s)| <= |s|
  {
    if s != [] {
      var n := |s| - 1;
      NameSetSize(s[..n]);
      assert NameSet(s) == NameSet(s[..n]) + {s[n].name};
    }
  }

  lemma SubsetSize(a: set<string>, b: set<string>)
    requires a <= b
    ensures |a| <= |b|
  {
    var d := b - a;
    assert b == a + d;
  }

  /** If all candidates are names from before or among the taken ones, there are many names. */
  lemma AllTaken(b: Base, digits: nat, s: seq<Node>, taken: set<string>, count: nat)
    requires b.Base? && |taken| <= count
    requires forall c :: 0 <= c < Pow10(digits) ==>
               Candidate(b, digits, c) in NameSet(s) + taken
    ensures Pow10(digits) <= |s| + count
  {
    CandidateCount(b, digits, Pow10(digits));
    NameSetSize(s);
    SubsetSize(FirstCandidates(b, digits, Pow10(digits)), NameSet(s) + taken);
  }

  // ---------------------------------------------------------------- Renaming

  /** A new name, not used by any node, keeps unique what is unique. */
  lemma RenameKeepsUnique(s: seq<Node>, k: nat, name: string)
    requires k < |s| && name !in NameSet(s)
    ensures var s' := s[k := s[k].(name := name)];
      Unique(s', k) && forall x :: 0 <= x < |s| && x != k && Unique(s, x) ==> Unique(s', x)
  {
    assert forall j :: 0 <= j < |s| ==> s[j].name in NameSet(s);
  }

  lemma TableOfNames(s: seq<Node>, name: string)
    ensures name in multiset(Names(s)) <==> name in NameSet(s)
  {
    assert name in multiset(Names(s)) <==> name in Names(s);
  }

  lemma TableAfterRename(s: seq<Node>, k: nat, name: string)
    requires k < |s|
    ensures multiset(Names(s[k := s[k].(name := name)])) == multiset(Names(s)) - multiset{s[k].name} + multiset{name}
  {
    assert Names(s[k := s[k].(name := name)]) == Names(s)[k := name];
  }

  /** All candidates with numbers in the given range are names of nodes. */
  ghost predicate AllUsed(s: seq<Node>, b: Base, digits: nat, from: nat, to: int)
    requires b.Base?
  {
    forall c :: from <= c < to ==> Candidate(b, digits, c) in NameSet(s)
  }

  /** The innermost loop: the first candidate from number start on that is not in the table */
  method NextName(table: multiset<string>, b: Base, digits: nat, start: nat, ghost s: seq<Node>)
    returns (tmp: string, change: nat, ok: bool)
    requires b.Base? && start <= Pow10(digits) && table == multiset(Names(s))
    ensures ok ==> start < change <= Pow10(digits) && tmp == Candidate(b, digits, change - 1) && tmp !in NameSet(s)
    ensures !ok ==> change == Pow10(digits) + 1
    ensures AllUsed(s, b, digits, start, change - 1)
  {
    change := start;
    while true
      invariant start <= change <= Pow10(digits)
      invariant AllUsed(s, b, digits, start, change)
      decreases Pow10(digits) - change
    {
      tmp := Candidate(b, digits, change);
      TableOfNames(s, tmp);
      change := change + 1;
      if change > Pow10(digits) {
        return tmp, change, false;
      }
      if tmp !in table {
        return tmp, change, true;
      }
    }
  }

  /** Nodes i to j - 1 differ from what they were before in nothing but the name. */
  ghost predicate OnlyNames(before: seq<Node>, after: seq<Node>, i: nat, j: nat) {
    && |before| == |after|
    && (forall x :: 0 <= x < |after| ==> after[x] == before[x].(name := after[x].name))
    && (forall x :: 0 <= x < |after| && !(i <= x < j) ==> after[x] == before[x])
  }

  ghost predicate UniqueIn(s: seq<Node>, i: nat, j: nat) {
    forall x :: i <= x < j && x < |s| ==> Unique(s, x)
  }

  /** The exchange of a name in the node and in the table */
  method Rename(children: array<Node>, table: multiset<string>, k: nat, tmp: string) returns (table': multiset<string>)
    requires k < children.Length && table == multiset(Names(children[..]))
    modifies children
    ensures children[..] == old(children[..])[k := old(children[k]).(name := tmp)]
    ensures table' == multiset(Names(children[..]))
  {
    TableAfterRename(children[..], k, tmp);
    hide Names;
    table' := table - multiset{children[k].name};
    children[k] := children[k].(name := tmp);
    table' := table' + multiset{tmp};
    assert children[..] == old(children[..])[k := old(children[k]).(name := tmp)];
  }

  /** The attempt to rename the nodes i to j with a given number of digits */
  method TryDigits(children: array<Node>, table: multiset<string>, i: nat, j: nat, l: Limits, digits: nat)
    returns (ok: bool, table': multiset<string>)
    requires i < j < children.Length && table == multiset(Names(children[..]))
    requires ProperLimits(l) && ProperExt(children[i], l) && 1 <= digits < 8
    modifies children
    ensures OnlyNames(old(children[..]), children[..], i, j + 1) && table' == multiset(Names(children[..]))
    ensures KeptUnique(old(children[..]), children[..], i, j)
    ensures GroupLimit(children[i], l) == GroupLimit(old(children[i]), l) && ProperExt(children[i], l)
    ensures ok ==> UniqueIn(children[..], i, j + 1) && FitsIn(children[..], i, j + 1, GroupLimit(old(children[i]), l))
    ensures BaseOf(old(children[i]), l, digits).Base?
    ensures ok ==> SameLen(children[..], i, j + 1, NameLen(old(children[i]), l, digits))
    ensures !ok ==> Pow10(digits) < 2 * children.Length
  {
    hide *;
    ghost var before := children[..];
    ghost var taken: set<string> := {};
    var b := BaseOf(children[i], l, digits);
    CandidatesFit(children[i], l, digits, 0);
    var change: nat := 0;
    table' := table;
    TriedStart(before, i, j, l, digits);
    for k := i to j + 1
      invariant children.Length == |before|
      invariant Tried(before, children[..], i, j, k, l, digits, change, taken)
                && table' == multiset(Names(children[..]))
    {
      ghost var s := children[..];
      var found;
      found, table', change := TryOne(children, table', k, b, digits, change, before, i, j, l, taken);
      if !found {
        return false, table';
      }
      taken := taken + {children[k].name};
    }
    ok := true;
    TriedFacts(before, children[..], i, j, j + 1, l, digits, change, taken);
  }

  ghost predicate SameLen(s: seq<Node>, i: nat, j: nat, len: nat) {
    forall x :: i <= x < j && x < |s| ==> |s[x].name| == len
  }

  ghost predicate FitsIn(s: seq<Node>, i: nat, j: nat, limit: nat) {
    forall x :: i <= x < j && x < |s| ==> |s[x].name| <= limit
  }

  lemma TriedStart(before: seq<Node>, i: nat, j: nat, l: Limits, digits: nat)
    requires i < j < |before| && ProperLimits(l) && ProperExt(before[i], l) && 1 <= digits < 8
    ensures Tried(before, before, i, j, i, l, digits, 0, {})
  {
    CandidatesFit(before[i], l, digits, 0);
  }

  /** One round of the loop over the nodes of a group */
  method TryOne(children: array<Node>, table: multiset<string>, k: nat, b: Base, digits: nat, change: nat,
                ghost before: seq<Node>, ghost i: nat, ghost j: nat, ghost l: Limits, ghost taken: set<string>)
    returns (found: bool, table': multiset<string>, change': nat)
    requires k <= j < |before| == children.Length && i < |before| && b == BaseOf(before[i], l, digits)
    requires Tried(before, children[..], i, j, k, l, digits, change, taken) && table == multiset(Names(children[..]))
    modifies children
    ensures table' == multiset(Names(children[..]))
    ensures found ==> Tried(before, children[..], i, j, k + 1, l, digits, change', taken + {children[k].name})
    ensures !found ==> children[..] == old(children[..]) && Pow10(digits) < 2 * |before|
    ensures !found ==> OnlyNames(before, children[..], i, j + 1) && KeptUnique(before, children[..], i, j)
    ensures !found ==> GroupLimit(children[i], l) == GroupLimit(before[i], l) && ProperExt(children[i], l)
  {
    hide *;
    ghost var s := children[..];
    TriedFacts(before, s, i, j, k, l, digits, change, taken);
    var tmp;
    tmp, change', found := NextName(table, b, digits, change, s);
    table' := table;
    if !found {
      TriedAll(before, s, i, j, k, l, digits, change, taken);
    } else {
      TriedStep(before, s, i, j, k, l, digits, change, taken, change');
      table' := Rename(children, table, k, tmp);
    }
  }

  /** The nodes from i up to k have got names made from numbers below change. */
  ghost predicate Tried(before: seq<Node>, s: seq<Node>, i: nat, j: nat, k: nat, l: Limits, digits: nat, change: nat,
                        taken: set<string>)
  {
    && i <= k <= j + 1 && i < j < |before| && OnlyNames(before, s, i, k) && KeptUnique(before, s, i, j)
      && UniqueIn(s, i, k)
    && ProperLimits(l) && ProperExt(before[i], l) && 1 <= digits < 8
    && FitsIn(s, i, k, GroupLimit(before[i], l))
    && GroupLimit(s[i], l) == GroupLimit(before[i], l) && ProperExt(s[i], l)
    && BaseOf(before[i], l, digits).Base? && SameLen(s, i, k, NameLen(before[i], l, digits))
      && change <= Pow10(digits) && |taken| <= k - i
    && (forall c :: 0 <= c < change ==> Candidate(BaseOf(before[i], l, digits), digits, c) in NameSet(before) + taken)
    && NameSet(s) <= NameSet(before) + taken
  }

  ghost predicate KeptUnique(before: seq<Node>, s: seq<Node>, i: nat, j: nat) {
    && |s| == |before|
    && forall x :: 0 <= x < |s| && !(i <= x <= j) && Unique(before, x) ==> Unique(s, x)
  }

  lemma TriedFacts(before: seq<Node>, s: seq<Node>, i: nat, j: nat, k: nat, l: Limits, digits: nat, change: nat,
                   taken: set<string>)
    requires Tried(before, s, i, j, k, l, digits, change, taken)
    ensures |s| == |before| && i <= k <= j + 1 <= |s| && BaseOf(before[i], l, digits).Base? && change <= Pow10(digits)
    ensures OnlyNames(before, s, i, k) && KeptUnique(before, s, i, j) && UniqueIn(s, i, k)
    ensures FitsIn(s, i, k, GroupLimit(before[i], l)) && GroupLimit(s[i], l) == GroupLimit(before[i], l)
            && ProperExt(s[i], l)
    ensures SameLen(s, i, k, NameLen(before[i], l, digits))
  {
  }

  lemma TriedAll(before: seq<Node>, s: seq<Node>, i: nat, j: nat, k: nat, l: Limits, digits: nat, change: nat,
                 taken: set<string>)
    requires Tried(before, s, i, j, k, l, digits, change, taken) && k <= j
    requires AllUsed(s, BaseOf(before[i], l, digits), digits, change, Pow10(digits))
    ensures Pow10(digits) < 2 * |before| && OnlyNames(before, s, i, j + 1)
  {
    AllTaken(BaseOf(before[i], l, digits), digits, before, taken, k - i);
  }

  lemma TriedStep(before: seq<Node>, s: seq<Node>, i: nat, j: nat, k: nat, l: Limits, digits: nat, change: nat,
                  taken: set<string>, change': nat)
    requires Tried(before, s, i, j, k, l, digits, change, taken) && k <= j && change < change' <= Pow10(digits)
    requires var b := BaseOf(before[i], l, digits);
      Candidate(b, digits, change' - 1) !in NameSet(s) && AllUsed(s, b, digits, change, change' - 1)
    ensures var tmp := Candidate(BaseOf(before[i], l, digits), digits, change' - 1);
      Tried(before, s[k := s[k].(name := tmp)], i, j, k + 1, l, digits, change', taken + {tmp})
  {
    hide BaseOf, Candidate, GroupLimit, ProperExt, ProperLimits, OnlyNames, KeptUnique, UniqueIn, FitsIn, NameSet,
         SameLen, NameLen;
    var first, b := before[i], BaseOf(before[i], l, digits);
    var tmp := Candidate(b, digits, change' - 1);
    CandidatesFit(first, l, digits, change' - 1);
    CandidateKind(first, l, digits, change' - 1, first.(name := tmp));
    CandidateLength(first, l, digits, change' - 1);
    SameCounts(before, s, i, k);
    StepKeeps(before, s, i, j, k, tmp, GroupLimit(first, l));
    SameLenNext(s, i, k, tmp, NameLen(first, l, digits));
    var s' := s[k := s[k].(name := tmp)];
    assert s'[i] == if k == i then first.(name := tmp) else s[i];
    forall c | 0 <= c < change' ensures Candidate(b, digits, c) in NameSet(before) + (taken + {tmp}) {
      if change <= c < change' - 1 {
        assert Candidate(b, digits, c) in NameSet(s);
      }
    }
  }

  lemma SameCounts(before: seq<Node>, s: seq<Node>, i: nat, k: nat)
    requires i <= k < |before| && OnlyNames(before, s, i, k)
    ensures |s| == |before| && (k == i ==> s[i] == before[i])
  {
  }

  lemma SameLenNext(s: seq<Node>, i: nat, k: nat, tmp: string, len: nat)
    requires i <= k < |s| && SameLen(s, i, k, len) && |tmp| == len
    ensures SameLen(s[k := s[k].(name := tmp)], i, k + 1, len)
  {
  }

  lemma StepKeeps(before: seq<Node>, s: seq<Node>, i: nat, j: nat, k: nat, tmp: string, limit: nat)
    requires i <= k <= j < |s| && OnlyNames(before, s, i, k) && KeptUnique(before, s, i, j) && UniqueIn(s, i, k)
    requires FitsIn(s, i, k, limit) && tmp !in NameSet(s) && |tmp| <= limit
    ensures var s' := s[k := s[k].(name := tmp)];
      && OnlyNames(before, s', i, k + 1) && KeptUnique(before, s', i, j) && UniqueIn(s', i, k + 1)
      && FitsIn(s', i, k + 1, limit) && NameSet(s') <= NameSet(s) + {tmp}
  {
    RenameKeepsUnique(s, k, tmp);
    hide Unique;
  }

  // ---------------------------------------------------------------- Groups

  datatype Result = Success | NeedsTranslation | TooManyFiles | Failure

  lemma OnlyNamesTwice(s0: seq<Node>, s1: seq<Node>, s2: seq<Node>, i: nat, j: nat)
    requires OnlyNames(s0, s1, i, j) && OnlyNames(s1, s2, i, j)
    ensures OnlyNames(s0, s2, i, j)
  {
  }

  /** The first node of a group had the name of f when the successful attempt began. With one digit that is
      its original name. Failed attempts need many children. */
  ghost predicate Attempt(first: Node, f: Node, digits: nat, l: Limits, len: nat, count: nat) {
    && 1 <= digits < 8 && f == first.(name := f.name) && BaseOf(f, l, digits).Base? && len == NameLen(f, l, digits)
    && (digits == 1 ==> f == first) && (digits > 1 ==> Pow10(digits - 1) < 2 * count)
  }

  /** The length of the new names of a group with the given first node, in a directory with count children */
  ghost predicate NewLength(first: Node, l: Limits, len: nat, count: nat) {
    exists f, digits :: Attempt(first, f, digits, l, len, count)
  }

  lemma FoundLength(before: seq<Node>, s: seq<Node>, i: nat, j: nat, l: Limits, digits: nat)
    requires i < |before| && OnlyNames(before, s, i, j + 1) && BaseOf(s[i], l, digits).Base? && 1 <= digits < 8
    requires (digits == 1 ==> s == before) && (digits > 1 ==> Pow10(digits - 1) < 2 * |s|)
    ensures NewLength(before[i], l, NameLen(s[i], l, digits), |s|)
  {
    hide BaseOf, NameLen;
    assert Attempt(before[i], s[i], digits, l, NameLen(s[i], l, digits), |s|);
  }

  /** The loop over the numbers of digits. The names of a failed attempt are what the next one starts with. */
  method RenameGroup(children: array<Node>, table: multiset<string>, i: nat, j: nat, l: Limits)
    returns (ret: Result, table': multiset<string>, ghost len: nat)
    requires i < j < children.Length && table == multiset(Names(children[..]))
    requires ProperLimits(l) && ProperExt(children[i], l)
    modifies children
    ensures OnlyNames(old(children[..]), children[..], i, j + 1) && table' == multiset(Names(children[..]))
    ensures KeptUnique(old(children[..]), children[..], i, j)
    ensures ret == Success || ret == TooManyFiles
    ensures ret == Success ==>
      UniqueIn(children[..], i, j + 1) && FitsIn(children[..], i, j + 1, GroupLimit(old(children[i]), l))
    ensures ret == Success ==>
      SameLen(children[..], i, j + 1, len) && NewLength(old(children[i]), l, len, children.Length)
    ensures ret == TooManyFiles ==> 10_000_000 < 2 * children.Length
  {
    var digits: nat := 1;
    table' := table;
    len := 0;
    ghost var before := children[..];
    hide *;
    assert OnlyNames(before, before, i, j + 1) && KeptUnique(before, before, i, j) by {
      GroupStart(before, i, j);
    }
    while digits < 8
      invariant 1 <= digits <= 8
      invariant OnlyNames(before, children[..], i, j + 1) && KeptUnique(before, children[..], i, j)
      invariant table' == multiset(Names(children[..]))
      invariant GroupLimit(children[i], l) == GroupLimit(before[i], l) && ProperExt(children[i], l)
      invariant digits > 1 ==> Pow10(digits - 1) < 2 * children.Length
      invariant digits == 1 ==> children[..] == before
    {
      ghost var s := children[..];
      var ok: bool;
      ok, table' := TryDigits(children, table', i, j, l, digits);
      OnlyNamesTwice(before, s, children[..], i, j + 1);
      KeptTwice(before, s, children[..], i, j);
      if ok {
        len := NameLen(s[i], l, digits);
        FoundLength(before, s, i, j, l, digits);
        return Success, table', len;
      }
      digits := digits + 1;
    }
    Pow10Of7();
    ret := TooManyFiles;
  }

  lemma GroupStart(s: seq<Node>, i: nat, j: nat)
    ensures OnlyNames(s, s, i, j + 1) && KeptUnique(s, s, i, j)
  {
  }

  lemma KeptTwice(s0: seq<Node>, s1: seq<Node>, s2: seq<Node>, i: nat, j: nat)
    requires KeptUnique(s0, s1, i, j) && KeptUnique(s1, s2, i, j)
    ensures KeptUnique(s0, s2, i, j)
  {
    hide Unique;
  }

  lemma Pow10Of7()
    ensures Pow10(7) == 10_000_000
  {
    assert Pow10(3) == 1000;
    assert Pow10(5) == 100_000;
  }

  // ---------------------------------------------------------------- All groups

  /** The first one of the nodes with the same name, for sorted nodes */
  function FirstOf(s: seq<Node>, x: nat): (r: nat)
    requires x < |s|
    ensures r <= x
  {
    if x > 0 && s[x - 1].name == s[x].name then FirstOf(s, x - 1) else x
  }

  /** What happened to one node: a unique name stays, and any other one is changed within the limits. */
  ghost predicate Mangled(before: seq<Node>, after: seq<Node>, l: Limits, x: nat)
    requires x < |before| == |after|
  {
    && after[x] == before[x].(name := after[x].name)
    && Unique(after, x)
    && (Unique(before, x) ==> after[x] == before[x])
    && (!Unique(before, x) ==>
          && |after[x].name| == |after[FirstOf(before, x)].name| <= GroupLimit(before[FirstOf(before, x)], l)
          && NewLength(before[FirstOf(before, x)], l, |after[x].name|, |before|))
  }

  ghost predicate MangledTo(before: seq<Node>, after: seq<Node>, l: Limits, i: nat) {
    && |before| == |after| && i <= |before|
    && (forall x :: 0 <= x < i ==> Mangled(before, after, l, x))
    && (forall x :: i <= x < |before| ==> after[x] == before[x])
  }

  /** A group of equal names begins at index i. */
  predicate GroupBegins(s: seq<Node>, i: nat) {
    i == 0 || i >= |s| || s[i - 1].name != s[i].name
  }

  /** The nodes i to j are a whole group of equal names. */
  ghost predicate IsGroup(s: seq<Node>, i: nat, j: nat) {
    && i <= j < |s| && GroupBegins(s, i) && GroupBegins(s, j + 1)
    && forall x :: i <= x <= j ==> s[x].name == s[i].name
  }

  /** In a group of more than one node nobody is unique, and who is alone is unique. */
  lemma GroupUnique(s: seq<Node>, i: nat, j: nat, x: nat)
    requires Sorted(s) && IsGroup(s, i, j) && i <= x <= j
    ensures Unique(s, x) <==> i == j
  {
    if i == j {
      forall y | 0 <= y < |s| && y != x ensures s[y].name != s[x].name {
        if y < x {
          NotBetween(s[y].name, s[x - 1].name, s[x].name);
        } else {
          NotBetween(s[x].name, s[x + 1].name, s[y].name);
        }
      }
    } else {
      var y := if x == i then j else i;
      assert s[y].name == s[x].name;
    }
  }

  lemma NotBetween(a: string, b: string, c: string)
    requires (a == b || Leq(a, b)) && (b == c || Leq(b, c))
    ensures a == c ==> a == b == c
  {
    LeqTotal(a, b);
    LeqTotal(b, c);
  }

  lemma {:induction false} FirstOfGroup(s: seq<Node>, i: nat, j: nat, x: nat)
    requires IsGroup(s, i, j) && i <= x <= j
    ensures FirstOf(s, x) == i
    decreases x
  {
    if x > i {
      assert s[x - 1].name == s[x].name;
      FirstOfGroup(s, i, j, x - 1);
    }
  }

  lemma SingleStep(before: seq<Node>, s: seq<Node>, l: Limits, i: nat)
    requires Sorted(before) && MangledTo(before, s, l, i) && IsGroup(before, i, i)
    ensures MangledTo(before, s, l, i + 1)
  {
    GroupUnique(before, i, i, i);
    forall y | 0 <= y < |s| && y != i ensures s[y].name != s[i].name {
      if y < i {
        assert Mangled(before, s, l, y);
      }
    }
  }

  lemma GroupStep(before: seq<Node>, s: seq<Node>, s': seq<Node>, l: Limits, i: nat, j: nat, len: nat)
    requires Sorted(before) && MangledTo(before, s, l, i) && IsGroup(before, i, j) && i < j
    requires OnlyNames(s, s', i, j + 1) && KeptUnique(s, s', i, j)
    requires UniqueIn(s', i, j + 1) && FitsIn(s', i, j + 1, GroupLimit(before[i], l))
    requires SameLen(s', i, j + 1, len) && NewLength(before[i], l, len, |before|)
    ensures MangledTo(before, s', l, j + 1)
  {
    hide NewLength;
    forall x | 0 <= x < j + 1 ensures Mangled(before, s', l, x) {
      if x < i {
        assert Mangled(before, s, l, x);
      } else {
        GroupUnique(before, i, j, x);
        FirstOfGroup(before, i, j, x);
      }
    }
  }

  lemma AllMangled(before: seq<Node>, s: seq<Node>, l: Limits)
    requires MangledTo(before, s, l, |s|)
    ensures Distinct(s)
  {
    forall i, j | 0 <= i < j < |s| ensures s[i].name != s[j].name {
      assert Mangled(before, s, l, i);
    }
  }

  /** A directory without collisions stays as it is. */
  lemma NothingMangled(before: seq<Node>, s: seq<Node>, l: Limits)
    requires MangledTo(before, s, l, |s|) && Distinct(before)
    ensures s == before
  {
    forall x | 0 <= x < |s| ensures s[x] == before[x] {
      assert Mangled(before, s, l, x);
      assert Unique(before, x);
    }
  }

  // ---------------------------------------------------------------- Sorting

  /** The order up to index i, disregarding index j */
  ghost predicate SortedBut(s: seq<Node>, i: nat, j: nat) {
    forall x, y :: 0 <= x < y <= i && y < |s| && y != j ==> Leq(s[x].name, s[y].name)
  }

  lemma SwapStep(s: seq<Node>, i: nat, j: nat)
    requires 0 < j <= i < |s| && SortedBut(s, i, j) && !Leq(s[j - 1].name, s[j].name)
    ensures var s' := s[j - 1 := s[j]][j := s[j - 1]];
      SortedBut(s', i, j - 1) && multiset(s') == multiset(s) && (Distinct(s) ==> Distinct(s'))
  {
    LeqTotal(s[j - 1].name, s[j].name);
    hide Leq;
  }

  lemma Inserted(s: seq<Node>, i: nat, j: nat)
    requires j <= i < |s| && SortedBut(s, i, j) && (j > 0 ==> Leq(s[j - 1].name, s[j].name))
    ensures SortedBut(s, i + 1, i + 1)
  {
    forall x | 0 <= x < j ensures Leq(s[x].name, s[j].name) {
      if x < j - 1 {
        LeqTransitive(s[x].name, s[j - 1].name, s[j].name);
      }
    }
    hide Leq;
  }

  /** Stands for qsort() with cmp_node_name(). */
  method SortByName(children: array<Node>)
    modifies children
    ensures Sorted(children[..]) && multiset(children[..]) == multiset(old(children[..]))
    ensures Distinct(old(children[..])) ==> Distinct(children[..])
  {
    hide Leq, Distinct;
    var i := 0;
    while i < children.Length
      invariant 0 <= i <= children.Length && SortedBut(children[..], i, i)
      invariant multiset(children[..]) == multiset(old(children[..]))
      invariant Distinct(old(children[..])) ==> Distinct(children[..])
    {
      var j := i;
      while j > 0 && !Leq(children[j - 1].name, children[j].name)
        invariant 0 <= j <= i && SortedBut(children[..], i, j)
        invariant multiset(children[..]) == multiset(old(children[..]))
        invariant Distinct(old(children[..])) ==> Distinct(children[..])
      {
        ghost var s := children[..];
        SwapStep(s, i, j);
        children[j - 1], children[j] := children[j], children[j - 1];
        assert children[..] == s[j - 1 := s[j]][j := s[j - 1]];
        j := j - 1;
      }
      Inserted(children[..], i, j);
      i := i + 1;
    }
  }

  // ---------------------------------------------------------------- The whole directory

  /** mangle_single_dir(). The second result, for the proof only, is the state before the nodes
      get sorted again. */
  method MangleSingleDir(children: array<Node>, l: Limits, untranslated: bool)
    returns (ret: Result, ghost renamed: seq<Node>)
    requires Sorted(children[..])
    requires !untranslated ==> ProperLimits(l) && forall x :: 0 <= x < children.Length ==> ProperExt(children[x], l)
    modifies children
    ensures ret == Success ==>
      && Sorted(children[..]) && Distinct(children[..])
      && multiset(children[..]) == multiset(renamed) && MangledTo(old(children[..]), renamed, l, children.Length)
    ensures Distinct(old(children[..])) ==> ret == Success && children[..] == old(children[..])
    ensures ret == NeedsTranslation ==> untranslated
    ensures untranslated ==> children[..] == old(children[..]) && (ret == Success || ret == NeedsTranslation)
    ensures ret == TooManyFiles ==> 10_000_000 < 2 * children.Length
    ensures ret != Failure
  {
    ghost var before := children[..];
    renamed := before;
    var nchildren := children.Length;
    if nchildren <= 0 {
      return Success, before;
    }
    var needSort;
    ret, needSort := MangleGroups(children, l, untranslated);
    renamed := children[..];
    hide Leq, Unique, ProperLimits, ProperExt, Mangled, MangledTo, Sorted, Distinct;
    if ret == Success {
      AllMangled(before, renamed, l);
      if Distinct(before) {
        NothingMangled(before, renamed, l);
      }
      if needSort {
        SortByName(children);
      }
    }
  }

  /** The loop over all groups of equal names, with the hash table of all current names */
  method MangleGroups(children: array<Node>, l: Limits, untranslated: bool) returns (ret: Result, needSort: bool)
    requires Sorted(children[..])
    requires !untranslated ==> ProperLimits(l) && forall x :: 0 <= x < children.Length ==> ProperExt(children[x], l)
    modifies children
    ensures ret == Success ==> MangledTo(old(children[..]), children[..], l, children.Length)
    ensures ret == Success && !needSort ==> children[..] == old(children[..])
    ensures needSort || ret != Success ==> !Distinct(old(children[..]))
    ensures untranslated ==>
      children[..] == old(children[..]) && (ret == Success || ret == NeedsTranslation) && !needSort
    ensures ret == NeedsTranslation ==> untranslated
    ensures ret == TooManyFiles ==> 10_000_000 < 2 * children.Length
    ensures ret != Failure
  {
    hide Leq, Sorted, Unique, Distinct, ProperLimits, ProperExt, Mangled, MangledTo, GroupBegins, Names;
    ghost var before := children[..];
    NothingYet(before, l);
    var table := FillTable(children);
    needSort := false;
    ret := Success;
    var i := 0;
    while i < children.Length
      invariant 0 <= i <= children.Length && GroupBegins(before, i) && ret == Success
      invariant MangledTo(before, children[..], l, i) && table == multiset(Names(children[..]))
      invariant !needSort ==> children[..] == before
      invariant needSort ==> !untranslated && !Distinct(before)
    {
      var j;
      ret, j, table := MangleGroup(children, table, i, l, untranslated, before);
      if ret != Success {
        return;
      }
      needSort := needSort || j != i;
      i := j + 1;
    }
  }

  lemma NothingYet(before: seq<Node>, l: Limits)
    ensures GroupBegins(before, 0) && MangledTo(before, before, l, 0)
  {
    hide Leq, Mangled;
  }

  /** One round of the outer loop: a group of children with the same name */
  method MangleGroup(children: array<Node>, table: multiset<string>, i: nat, l: Limits, untranslated: bool,
                     ghost before: seq<Node>)
    returns (ret: Result, j: nat, table': multiset<string>)
    requires Sorted(before) && i < children.Length == |before| && GroupBegins(before, i)
    requires !untranslated ==> ProperLimits(l) && forall x :: 0 <= x < |before| ==> ProperExt(before[x], l)
    requires MangledTo(before, children[..], l, i) && table == multiset(Names(children[..]))
    modifies children
    ensures ret == Success ==> i <= j < |before| && GroupBegins(before, j + 1)
    ensures ret == Success ==> MangledTo(before, children[..], l, j + 1) && table' == multiset(Names(children[..]))
    ensures ret == Success && j == i ==> children[..] == old(children[..])
    ensures ret != Success || j != i ==> !Distinct(before)
    ensures untranslated ==>
      children[..] == old(children[..]) && (ret == NeedsTranslation || (ret == Success && j == i))
    ensures ret == NeedsTranslation ==> untranslated
    ensures ret == TooManyFiles ==> 10_000_000 < 2 * children.Length
    ensures ret != Failure
  {
    hide Leq, Sorted, Unique, ProperLimits, ProperExt, Names, OnlyNames, KeptUnique, UniqueIn, FitsIn, Mangled,
         SameLen, NewLength;
    j := FindGroupEnd(children, i, before);
    if j == i {
      SingleStep(before, children[..], l, i);
      return Success, j, table;
    }
    assert before[i].name == before[j].name;
    if untranslated {
      return NeedsTranslation, j, table;
    }
    ghost var s := children[..];
    assert children[i] == before[i];
    ghost var len;
    ret, table', len := RenameGroup(children, table, i, j, l);
    if ret == Success {
      GroupStep(before, s, children[..], l, i, j, len);
    }
  }

  method FillTable(children: array<Node>) returns (table: multiset<string>)
    ensures table == multiset(Names(children[..]))
  {
    table := multiset{};
    for i := 0 to children.Length
      invariant table == multiset(Names(children[..i]))
    {
      assert Names(children[..i + 1]) == Names(children[..i]) + [children[i].name];
      table := table + multiset{children[i].name};
    }
    assert children[..children.Length] == children[..];
  }

  /** The search for all children with the same name */
  method FindGroupEnd(children: array<Node>, i: nat, ghost before: seq<Node>) returns (j: nat)
    requires i < children.Length == |before| && GroupBegins(before, i)
    requires forall x :: i <= x < |before| ==> children[x] == before[x]
    ensures IsGroup(before, i, j)
  {
    j := i;
    while j + 1 < children.Length && children[i].name == children[j + 1].name
      invariant i <= j < children.Length
      invariant forall x :: i <= x <= j ==> before[x].name == before[i].name
    {
      j := j + 1;
    }
  }

  // ---------------------------------------------------------------- The limit for directories

  /** A renamed directory gets a name as long as that of the first node in its group. Thus it fits the limit
      for directories if and only if that one does. */
  lemma DirectoryFits(before: seq<Node>, after: seq<Node>, l: Limits, x: nat)
    requires MangledTo(before, after, l, |before|) && x < |before| && !Unique(before, x)
    ensures |after[x].name| <= l.dir <==> |after[FirstOf(before, x)].name| <= l.dir
    ensures NewLength(before[FirstOf(before, x)], l, |after[x].name|, |before|)
  {
    hide NewLength, Unique, GroupLimit;
    assert Mangled(before, after, l, x);
  }

  /** With at most five children no attempt fails, and the original name of the first node decides. */
  lemma SmallDirectoryFits(before: seq<Node>, after: seq<Node>, l: Limits, x: nat)
    requires MangledTo(before, after, l, |before|) && x < |before| <= 5 && !Unique(before, x)
    ensures |after| == |before|
    ensures var first := before[FirstOf(before, x)];
      && BaseOf(first, l, 1).Base? && |after[x].name| == NameLen(first, l, 1)
      && (|after[x].name| <= l.dir <==> NameLen(first, l, 1) <= l.dir)
  {
    hide BaseOf, Unique, NameLen;
    var first := before[FirstOf(before, x)];
    DirectoryFits(before, after, l, x);
    var f, digits :| Attempt(first, f, digits, l, |after[x].name|, |before|);
    AtLeastTen(digits);
  }

  lemma AtLeastTen(digits: nat)
    ensures digits > 1 ==> Pow10(digits - 1) >= 10
  {
  }

  /** What keeps directories within their limit: equal limits, or a first node which is a directory without
      extension. */
  predicate Guarded(before: seq<Node>, l: Limits, x: nat)
    requires x < |before|
  {
    l.file == l.dir || (before[FirstOf(before, x)].isDir && !TakesExt(before[FirstOf(before, x)], l))
  }

  lemma GuardedFits(before: seq<Node>, after: seq<Node>, l: Limits, x: nat)
    requires MangledTo(before, after, l, |before|) && x < |before| && !Unique(before, x) && Guarded(before, l, x)
    ensures |after[x].name| <= l.dir
  {
    hide NewLength, Unique, TakesExt;
    assert Mangled(before, after, l, x);
  }

  /** At ISO level 1 the mangling of a file and a directory with the same 8-character name succeeds, but it
      gives the directory a name of 9 characters. */
  method MixedGroup() returns (ret: Result, children: array<Node>)
    ensures ret == Success && children.Length == 2
    ensures exists i :: 0 <= i < 2 && children[i].isDir && |children[i].name| == 9 > Limits(12, 8, false).dir
  {
    hide MangledTo, Mangled, BaseOf, NameLen, Distinct, Sorted, Unique, FirstOf, ProperExt, ProperLimits;
    var l := Limits(12, 8, false);
    var first, second := Node("ABCDEFGH", false, 0), Node("ABCDEFGH", true, 1);
    children := new Node[2][first, second];
    ghost var before := children[..];
    assert before == [first, second];
    SameNames(first, second);
    MixedLength(l);
    ghost var renamed;
    ret, renamed := MangleSingleDir(children, l, false);
    SmallDirectoryFits(before, renamed, l, 1);
    assert renamed[1].isDir && |renamed[1].name| == 9 by {
      SameKind(before, renamed, l, 1);
    }
    assert renamed[1] in multiset(renamed);
    assert renamed[1] in children[..];
  }

  lemma SameKind(before: seq<Node>, after: seq<Node>, l: Limits, x: nat)
    requires MangledTo(before, after, l, |before|) && x < |before|
    ensures after[x].isDir == before[x].isDir
  {
    assert Mangled(before, after, l, x);
  }

  lemma SameNames(first: Node, second: Node)
    requires first.name == second.name
    ensures Sorted([first, second]) && !Unique([first, second], 1) && FirstOf([first, second], 1) == 0
  {
    LeqReflexive(first.name);
    assert [first, second][0].name == [first, second][1].name;
  }

  lemma MixedLength(l: Limits)
    requires l == Limits(12, 8, false)
    ensures var first := Node("ABCDEFGH", false, 0); BaseOf(first, l, 1).Base? && NameLen(first, l, 1) == 9
    ensures ProperLimits(l) && ProperExt(Node("ABCDEFGH", false, 0), l) && ProperExt(Node("ABCDEFGH", true, 1), l)
  {
    var s := "ABCDEFGH";
    assert LastDot(s) == -1 by {
      assert '.' !in s;
    }
    assert Buffered(s) == s;
  }
}
