/** Walking a process tree: downwards with a stack of pending processes, upwards by parents. */
module ProcessTree {
  import opened Sequences
  import opened Options

  type Pid = int

  /** A snapshot: the parent of each process, and the lists of children. A missing list is
      that of a process that has gone. */
  datatype Table = Table(parent: map<Pid, Pid>, children: map<Pid, seq<Pid>>)

  const LIMIT := 100

  function Children(t: Table, p: Pid): seq<Pid> { if p in t.children then t.children[p] else [] }

  /** Process numbers are positive, and the first process has no parent among the others. */
  ghost predicate Numbered(t: Table) {
    forall c :: c in t.parent ==> c >= 1 && (c == 1 ==> t.parent[c] == 0)
  }

  /** Both views of the snapshot agree. */
  ghost predicate Consistent(t: Table) {
    && (forall p, c :: c in Children(t, p) <==> c in t.parent && t.parent[c] == p)
    && (forall p :: Distinct(Children(t, p)))
    && Numbered(t)
  }

  ghost predicate Ranked(t: Table, rank: map<Pid, nat>) {
    forall c :: c in t.parent ==> c in rank && t.parent[c] in rank && rank[t.parent[c]] < rank[c]
  }

  ghost predicate Acyclic(t: Table) { exists rank :: Ranked(t, rank) }

  /** Each process on the path is the parent of the one before it. */
  predicate Climbs(t: Table, path: seq<Pid>) {
    forall i :: 0 <= i < |path| - 1 ==> path[i] in t.parent && t.parent[path[i]] == path[i + 1]
  }

  /** The walk by parents from `p` meets `root`. */
  ghost predicate Descends(t: Table, p: Pid, root: Pid) {
    exists path: seq<Pid> :: path != [] && Climbs(t, path) && path[0] == p && path[|path| - 1] == root
  }

  ghost function Tree(t: Table, root: Pid): set<Pid> { set p | p in t.parent.Keys + {root} && Descends(t, p, root) }

  // ---------------------------------------------------------------------------
  // Paths

  lemma DescendsSelf(t: Table, root: Pid)
    ensures Descends(t, root, root)
  {
    assert Climbs(t, [root]);
  }

  lemma DescendsByParent(t: Table, c: Pid, root: Pid)
    requires c in t.parent && Descends(t, t.parent[c], root)
    ensures Descends(t, c, root)
  {
    var path :| path != [] && Climbs(t, path) && path[0] == t.parent[c] && path[|path| - 1] == root;
    var longer := [c] + path;
    assert Climbs(t, longer) by {
      forall i | 0 <= i < |longer| - 1 ensures longer[i] in t.parent && t.parent[longer[i]] == longer[i + 1] {
        if i > 0 { assert longer[i] == path[i - 1]; }
      }
    }
    assert longer[0] == c && longer[|longer| - 1] == root;
  }

  lemma ParentDescends(t: Table, c: Pid, root: Pid)
    requires c != root && Descends(t, c, root)
    ensures c in t.parent && Descends(t, t.parent[c], root)
  {
    var path :| path != [] && Climbs(t, path) && path[0] == c && path[|path| - 1] == root;
    var shorter := path[1..];
    assert Climbs(t, shorter) by {
      forall i | 0 <= i < |shorter| - 1 ensures shorter[i] in t.parent && t.parent[shorter[i]] == shorter[i + 1] {
        assert shorter[i] == path[i + 1];
      }
    }
    assert shorter[0] == t.parent[c] && shorter[|shorter| - 1] == root;
  }

  lemma {:induction false} PathRises(t: Table, rank: map<Pid, nat>, path: seq<Pid>)
    requires Ranked(t, rank) && |path| > 1 && Climbs(t, path)
    ensures path[0] in rank && path[|path| - 1] in rank && rank[path[0]] > rank[path[|path| - 1]]
    decreases |path|
  {
    var c, d := path[0], path[1];
    assert c in t.parent && t.parent[c] == d;
    assert c in rank && d in rank && rank[d] < rank[c];
    if |path| > 2 {
      assert Climbs(t, path[1..]);
      PathRises(t, rank, path[1..]);
      assert path[1..][|path| - 2] == path[|path| - 1];
    }
  }

  /** In an acyclic table the root is not below its own descendants. */
  lemma RootIsOnTop(t: Table, p: Pid, root: Pid)
    requires Acyclic(t) && Descends(t, p, root)
    ensures !(root in t.parent && t.parent[root] == p)
  {
    var rank :| Ranked(t, rank);
    var path :| path != [] && Climbs(t, path) && path[0] == p && path[|path| - 1] == root;
    if |path| > 1 {
      PathRises(t, rank, path);
    }
  }

  /** What holds the root and the children of its members holds all descendants. */
  lemma {:induction false} ClosedHoldsPath(t: Table, found: set<Pid>, root: Pid, path: seq<Pid>)
    requires root in found && forall c :: c in t.parent && t.parent[c] in found ==> c in found
    requires path != [] && Climbs(t, path) && path[|path| - 1] == root
    ensures path[0] in found
    decreases |path|
  {
    if |path| > 1 {
      assert Climbs(t, path[1..]);
      ClosedHoldsPath(t, found, root, path[1..]);
    }
  }

  // ---------------------------------------------------------------------------
  // Down

  ghost predicate NoRepeat(m: multiset<Pid>) { forall x :: m[x] <= 1 }

  ghost predicate Listed(t: Table, root: Pid, found: seq<Pid>, pending: seq<Pid>) {
    && (root in found || root in pending)
    && (forall p :: p in found || p in pending ==> Descends(t, p, root))
    && (forall c :: c in found || c in pending ==> c == root || (c in t.parent && t.parent[c] in found))
  }

  predicate ParentsFirst(t: Table, root: Pid, found: seq<Pid>) {
    forall j :: 0 <= j < |found| && found[j] != root ==> found[j] in t.parent && t.parent[found[j]] in found[..j]
  }

  /** Everything listed is below the root, once, and was reached through a listed parent;
      the children of what is found are found or pending. */
  ghost predicate Progress(t: Table, root: Pid, found: seq<Pid>, pending: seq<Pid>) {
    && NoRepeat(multiset(found) + multiset(pending))
    && Listed(t, root, found, pending)
    && (forall c :: c in t.parent && t.parent[c] in found ==> c in found || c in pending)
    && ParentsFirst(t, root, found)
  }

  lemma DistinctMultiset(s: seq<Pid>)
    ensures Distinct(s) <==> NoRepeat(multiset(s))
  {
    if Distinct(s) {
      CountDistinct(s);
      forall x: Pid ensures multiset(s)[x] <= 1 {
      }
    } else {
      var i, j :| 0 <= i < j < |s| && s[i] == s[j];
      TwiceCounts(s, i, j);
      var x: Pid := s[i];
      assert multiset(s)[x] >= 2;
    }
  }

  /** A child of a process that is only now found has not been listed before. */
  lemma {:induction false} ChildrenAreNew(t: Table, root: Pid, found: seq<Pid>, pending: seq<Pid>, p: Pid, c: Pid)
    requires Consistent(t) && Acyclic(t) && Progress(t, root, found, pending)
    requires p in pending && c in Children(t, p)
    ensures c !in found && c !in pending && c != root && Descends(t, c, root)
  {
    hide Descends, Distinct, Acyclic;
    assert t.parent[c] == p;
    RootIsOnTop(t, p, root);
    DescendsByParent(t, c, root);
    assert p !in found by {
      assert (multiset(found) + multiset(pending))[p] <= 1;
    }
  }

  lemma {:induction false} Step(t: Table, root: Pid, found: seq<Pid>, pending: seq<Pid>)
    requires Consistent(t) && Acyclic(t) && Progress(t, root, found, pending) && pending != []
    ensures var p := pending[|pending| - 1];
            Progress(t, root, found + [p], pending[..|pending| - 1] + Children(t, p))
  {
    hide Descends, Acyclic, Distinct, NoRepeat, ParentsFirst, Listed;
    var p := pending[|pending| - 1];
    var rest, kids := pending[..|pending| - 1], Children(t, p);
    assert pending == rest + [p];
    forall c | c in kids ensures c !in found && c !in pending && c != root && Descends(t, c, root) {
      ChildrenAreNew(t, root, found, pending, p, c);
    }
    assert Distinct(kids);
    DistinctMultiset(kids);
    StepOnce(found, rest, p, kids);
    StepListed(t, root, found, rest, p, kids);
    StepInOrder(t, root, found, rest, p);
  }

  lemma StepListed(t: Table, root: Pid, found: seq<Pid>, rest: seq<Pid>, p: Pid, kids: seq<Pid>)
    requires Listed(t, root, found, rest + [p])
    requires forall c :: c in kids ==> Descends(t, c, root) && c in t.parent && t.parent[c] == p
    ensures Listed(t, root, found + [p], rest + kids)
  {
    hide Descends;
  }

  lemma StepInOrder(t: Table, root: Pid, found: seq<Pid>, rest: seq<Pid>, p: Pid)
    requires Listed(t, root, found, rest + [p]) && ParentsFirst(t, root, found)
    ensures ParentsFirst(t, root, found + [p])
  {
    hide Descends;
    var longer := found + [p];
    assert p in rest + [p];
    forall j | 0 <= j < |longer| && longer[j] != root
      ensures longer[j] in t.parent && t.parent[longer[j]] in longer[..j]
    {
      assert longer[..j] == found[..j];
      assert found[..|found|] == found;
    }
  }

  lemma StepOnce(found: seq<Pid>, rest: seq<Pid>, p: Pid, kids: seq<Pid>)
    requires NoRepeat(multiset(found) + multiset(rest + [p])) && NoRepeat(multiset(kids))
    requires forall c :: c in kids ==> c !in found && c !in rest + [p]
    ensures NoRepeat(multiset(found + [p]) + multiset(rest + kids))
  {
    forall x ensures (multiset(found + [p]) + multiset(rest + kids))[x] <= 1 {
      assert multiset(found + [p]) + multiset(rest + kids) == multiset(found) + multiset(rest + [p]) + multiset(kids);
      assert x in multiset(kids) <==> x in kids;
    }
  }

  /** What the list of descendants is: each once, parents first, and exactly those from which
      the walk by parents meets the root. */
  ghost predicate Listing(t: Table, root: Pid, found: seq<Pid>) {
    && found != [] && found[0] == root && Distinct(found)
    && (forall p :: p in found <==> Descends(t, p, root))
    && (forall j :: 0 < j < |found| ==> found[j] in t.parent && t.parent[found[j]] in found[..j])
  }

  lemma Finish(t: Table, root: Pid, found: seq<Pid>)
    requires Acyclic(t) && Progress(t, root, found, [])
    ensures Listing(t, root, found) && (forall p :: p in found <==> p in Tree(t, root)) && |Tree(t, root)| == |found|
  {
    assert multiset(found) + multiset([]) == multiset(found);
    DistinctMultiset(found);
    forall p | Descends(t, p, root) ensures p in found {
      var path :| path != [] && Climbs(t, path) && path[0] == p && path[|path| - 1] == root;
      ClosedHoldsPath(t, (set x | x in found), root, path);
    }
    assert found[0] == root;
    InTree(t, root, found);
    DistinctSize(found, Tree(t, root));
  }

  lemma InTree(t: Table, root: Pid, found: seq<Pid>)
    requires forall p :: p in found ==> Descends(t, p, root)
    ensures forall p :: p in found ==> p in Tree(t, root)
  {
    hide Descends;
    forall p | p in found ensures p in Tree(t, root) {
      if p != root { ParentDescends(t, p, root); }
    }
  }

  lemma {:induction false} DistinctSize(s: seq<Pid>, all: set<Pid>)
    requires Distinct(s) && forall p :: p in s ==> p in all
    ensures |s| <= |all| && ((forall p :: p in all ==> p in s) ==> |s| == |all|)
  {
    if s != [] {
      var n := |s| - 1;
      assert s[n] !in s[..n];
      assert s == s[..n] + [s[n]] && s[n] in s;
      var last: Pid := s[n];
      assert last in all;
      DistinctSize(s[..n], all - {last});
      assert |all - {last}| == |all| - 1;
      assert (forall p :: p in all ==> p in s) ==> forall p :: p in all - {s[n]} ==> p in s[..n];
    } else if forall p :: p in all ==> p in s {
      assert all == {};
    }
  }

  /** All processes from the root down, or nothing when there are unexpectedly many. It ends on
      any table; on an acyclic one it succeeds exactly below the limit. */
  method Descendants(t: Table, pid: Pid) returns (r: Option<seq<Pid>>)
    ensures r.Some? ==> 1 <= |r.value| < 100
    ensures Consistent(t) && Acyclic(t) ==> (r.Some? <==> |Tree(t, pid)| < 100)
    ensures Consistent(t) && Acyclic(t) && r.Some? ==> Listing(t, pid, r.value)
  {
    hide Descends, Consistent, Acyclic, Progress, Listing, Tree, Distinct;
    var pending, found := [pid], [];
    Start(t, pid);
    while pending != []
      invariant |found| < LIMIT && (found != [] || pending != [])
      invariant Consistent(t) && Acyclic(t) ==> Progress(t, pid, found, pending)
      decreases LIMIT - |found|
    {
      var parent := pending[|pending| - 1];
      if Consistent(t) && Acyclic(t) {
        Step(t, pid, found, pending);
      }
      pending := pending[..|pending| - 1];
      found := found + [parent];
      if |found| >= LIMIT {
        if Consistent(t) && Acyclic(t) {
          TooMany(t, pid, found, pending + Children(t, parent));
        }
        return None;
      }
      pending := pending + Children(t, parent);
    }
    if Consistent(t) && Acyclic(t) {
      Finish(t, pid, found);
    }
    return Some(found);
  }

  lemma Start(t: Table, root: Pid)
    ensures Progress(t, root, [], [root])
  {
    DescendsSelf(t, root);
  }

  lemma TooMany(t: Table, root: Pid, found: seq<Pid>, pending: seq<Pid>)
    requires Progress(t, root, found, pending)
    ensures |found| <= |Tree(t, root)|
  {
    hide Descends, Tree;
    DistinctMultiset(found);
    assert NoRepeat(multiset(found)) by {
      forall x ensures multiset(found)[x] <= 1 {
        assert (multiset(found) + multiset(pending))[x] <= 1;
      }
    }
    InTree(t, root, found);
    DistinctSize(found, Tree(t, root));
  }

  // ---------------------------------------------------------------------------
  // Up

  /** No process is above itself, but for one that is recorded as its own parent. */
  ghost predicate Grounded(t: Table) {
    exists rank: map<Pid, nat> :: RankedButSelf(t, rank)
  }

  ghost predicate RankedButSelf(t: Table, rank: map<Pid, nat>) {
    forall c :: c in t.parent && t.parent[c] != c ==> c in rank && t.parent[c] in rank && rank[t.parent[c]] < rank[c]
  }

  lemma {:induction false} StuckPath(t: Table, c: Pid, path: seq<Pid>)
    requires c in t.parent && t.parent[c] == c && path != [] && Climbs(t, path) && path[0] == c
    ensures path[|path| - 1] == c
    decreases |path|
  {
    if |path| > 1 {
      assert Climbs(t, path[1..]);
      StuckPath(t, c, path[1..]);
    }
  }

  lemma OwnParentIsStuck(t: Table, c: Pid, outer: Pid)
    requires c in t.parent && t.parent[c] == c && c != outer
    ensures !Descends(t, c, outer)
  {
    forall path: seq<Pid> | path != [] && Climbs(t, path) && path[0] == c ensures path[|path| - 1] != outer {
      StuckPath(t, c, path);
    }
  }

  lemma NotAbove(t: Table, ancestor: Pid, outer: Pid)
    requires Numbered(t) && outer > 1 && ancestor <= 1
    ensures !Descends(t, ancestor, outer)
  {
    hide Descends;
    if Descends(t, ancestor, outer) {
      ParentDescends(t, ancestor, outer);
      ParentDescends(t, 0, outer);
    }
  }

  lemma ParentDiffers(t: Table, rank: map<Pid, nat>, c: Pid)
    requires RankedButSelf(t, rank) && c in t.parent && t.parent[c] != c
    ensures c in rank && t.parent[c] in rank && rank[t.parent[c]] < rank[c]
  {
  }

  lemma SameAbove(t: Table, c: Pid, outer: Pid)
    requires c != outer
    ensures Descends(t, c, outer) <==> c in t.parent && Descends(t, t.parent[c], outer)
  {
    hide Descends;
    if Descends(t, c, outer) {
      ParentDescends(t, c, outer);
    }
    if c in t.parent && Descends(t, t.parent[c], outer) {
      DescendsByParent(t, c, outer);
    }
  }

  /** Follows the recorded parents from `child`; true exactly if that meets `outer`. A process that
      is its own parent is rejected; a longer cycle has no end in the original either. */
  method MeetsAncestor(t: Table, child: Pid, outer: Pid) returns (ok: bool)
    requires Numbered(t) && Grounded(t) && outer > 1
    ensures ok <==> Descends(t, child, outer)
  {
    hide Descends, Numbered, RankedButSelf;
    ghost var rank: map<Pid, nat> :| RankedButSelf(t, rank);
    var ancestor := child;
    while ancestor > 1 && ancestor != outer
      invariant Descends(t, child, outer) <==> Descends(t, ancestor, outer)
      decreases if ancestor in rank then rank[ancestor] + 1 else 0
    {
      SameAbove(t, ancestor, outer);
      if ancestor !in t.parent {
        return false;
      }
      var parent := t.parent[ancestor];
      if parent == ancestor {
        OwnParentIsStuck(t, ancestor, outer);
        return false;
      }
      ParentDiffers(t, rank, ancestor);
      ancestor := parent;
    }
    if ancestor == outer {
      DescendsSelf(t, outer);
    } else {
      NotAbove(t, ancestor, outer);
    }
    return ancestor == outer;
  }

  // ---------------------------------------------------------------------------
  // Stopping the tree

  /** No process is stopped before one of its own children. */
  predicate ChildrenFirst(t: Table, kills: seq<Pid>) {
    forall i, j :: 0 <= i < j < |kills| ==> !(kills[j] in t.parent && t.parent[kills[j]] == kills[i])
  }

  /** The processes one cleanup round stops, in order: the listing backwards without the root. */
  method KillOrder(t: Table, self: Pid, alive: set<Pid>) returns (kills: Option<seq<Pid>>)
    ensures kills.Some? ==> |kills.value| < 100 && forall p :: p in kills.value ==> p in alive
    ensures Consistent(t) && Acyclic(t) ==> (kills.Some? <==> |Tree(t, self)| < 100)
    ensures Consistent(t) && Acyclic(t) && kills.Some? ==> Distinct(kills.value) && ChildrenFirst(t, kills.value)
    ensures Consistent(t) && Acyclic(t) && kills.Some? ==>
              forall p :: p in kills.value <==> p in alive && p != self && Descends(t, p, self)
  {
    hide Descends, Consistent, Acyclic, Tree, Distinct, ChildrenFirst;
    var listing := Descendants(t, self);
    if listing.None? {
      return None;
    }
    var found := listing.value;
    var list: seq<Pid> := [];
    Nothing(t);
    for i := |found| downto 1
      invariant |list| <= |found| - i
      invariant Consistent(t) && Acyclic(t) ==> Distinct(list) && ChildrenFirst(t, list)
      invariant forall p :: p in list <==> p in alive && p in found[i..]
    {
      assert found[i..] == [found[i]] + found[i + 1..];
      if found[i] in alive {
        if Consistent(t) && Acyclic(t) {
          KillNext(t, self, found, list, i);
        }
        list := list + [found[i]];
      }
    }
    if Consistent(t) && Acyclic(t) {
      assert found == [self] + found[1..];
      RootOnce(found);
    }
    return Some(list);
  }

  lemma Nothing(t: Table)
    ensures Distinct<Pid>([]) && ChildrenFirst(t, [])
  {
  }

  lemma RootOnce(found: seq<Pid>)
    requires found != [] && Distinct(found)
    ensures found[0] !in found[1..]
  {
  }

  lemma KillNext(t: Table, self: Pid, found: seq<Pid>, list: seq<Pid>, i: nat)
    requires Listing(t, self, found) && 0 < i < |found|
    requires Distinct(list) && ChildrenFirst(t, list) && forall p :: p in list ==> p in found[i + 1..]
    ensures Distinct(list + [found[i]]) && ChildrenFirst(t, list + [found[i]])
  {
    hide Listing;
    forall x | 0 <= x < |list| ensures list[x] != found[i] && !(found[i] in t.parent && t.parent[found[i]] == list[x]) {
      var q := list[x];
      assert q in list && q in found[i + 1..];
      var k :| i + 1 <= k < |found| && found[k] == q;
      NotLater(t, self, found, i, k);
    }
  }

  lemma NotLater(t: Table, self: Pid, found: seq<Pid>, i: nat, k: nat)
    requires Listing(t, self, found) && 0 < i < k < |found|
    ensures found[k] != found[i] && !(found[i] in t.parent && t.parent[found[i]] == found[k])
  {
    hide Descends;
    assert t.parent[found[i]] in found[..i];
  }
}
