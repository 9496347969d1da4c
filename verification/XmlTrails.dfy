/** Where references are left in an expansion, read off the documents: a trail of ids leads from the
    root to each of them, through the documents that bring it in and what their pointers select. */
module XmlTrails {
  import opened Options
  import opened XmlDocuments
  import opened XmlLaws
  import opened XmlReferences

  /** The ids of elements, each one the parent of the next. */
  type Trail = seq<Option<string>>

  /** Some way down the tree along these ids ends at a reference. */
  ghost predicate Holds(t: Tree, trail: Trail)
    decreases t
  {
    && trail != [] && trail[0] == t.head.id
    && if |trail| == 1 then !Ordinary(t) else HoldsAny(t.children, trail[1..])
  }

  ghost predicate HoldsAny(ts: seq<Tree>, trail: Trail)
    decreases ts
  {
    exists i :: 0 <= i < |ts| && Holds(ts[i], trail)
  }

  // ---------------------------------------------------------------------------
  // The same, by the documents

  /** The document leaves a reference at the end of the trail, which comes from at most `n`
      documents further. */
  ghost predicate Leaves(w: World, path: Path, trail: Trail, n: nat)
    decreases n, 2
  {
    && path in w.files && trail != [] && trail[0] == w.files[path].root.head.id
    && if |trail| == 1 then !w.files[path].root.head.tag.Element?
       else LeavesBelow(w, path, w.files[path].root.children, trail[1..], n)
  }

  ghost predicate LeavesBelow(w: World, path: Path, raws: seq<Raw>, trail: Trail, n: nat)
    requires path in w.files
    decreases n, 1, raws
  {
    raws != [] && (LeavesAt(w, path, raws[0], trail, n) || LeavesBelow(w, path, raws[1..], trail, n))
  }

  ghost predicate LeavesAt(w: World, path: Path, raw: Raw, trail: Trail, n: nat)
    requires path in w.files
    decreases n, 1, raw
  {
    if raw.head.tag.Element? then
      trail != [] && trail[0] == raw.head.id && LeavesBelow(w, path, raw.children, trail[1..], n)
    else Brings(w, path, raw.head.tag, trail, n)
  }

  /** What a reference brings in: a trail of its target, whole or from an element that the pointer
      selects. An id selects by the trail itself; what a query selects is given. */
  ghost predicate Brings(w: World, path: Path, tag: Tag, trail: Trail, n: nat)
    requires path in w.files && !tag.Element?
    decreases n, 0
  {
    && n > 0 && TargetOf(w.files[path], tag).Some?
    && var target := TargetOf(w.files[path], tag).value;
       match tag
       case Entity(_) => Leaves(w, target, trail, n - 1)
       case Include(_, _, Whole) => Leaves(w, target, trail, n - 1)
       case Include(_, _, ById(id)) =>
         trail != [] && trail[0] == Some(id) && exists above: Trail :: Leaves(w, target, above + trail, n - 1)
       case Include(_, _, Query(q)) => QueryBrings(w, target, q, trail)
  }

  ghost predicate QueryBrings(w: World, target: Path, query: string, trail: Trail) {
    && Expand(w, target, {}).Some?
    && var t := Expand(w, target, {}).value;
       w.find(query, t).Some? && exists k :: k in w.find(query, t).value && HoldsAt(Elements(t), k, trail)
  }

  ghost predicate HoldsAt(ts: seq<Tree>, k: nat, trail: Trail) { k < |ts| && Holds(ts[k], trail) }

  /** The same from any number of documents. */
  ghost predicate Left(w: World, path: Path, trail: Trail) { exists n: nat :: Leaves(w, path, trail, n) }

  ghost predicate LeftBelow(w: World, path: Path, raws: seq<Raw>, trail: Trail)
    requires path in w.files
  {
    exists n: nat :: LeavesBelow(w, path, raws, trail, n)
  }

  ghost predicate LeftAt(w: World, path: Path, raw: Raw, trail: Trail)
    requires path in w.files
  {
    exists n: nat :: LeavesAt(w, path, raw, trail, n)
  }

  ghost predicate Brought(w: World, path: Path, tag: Tag, trail: Trail)
    requires path in w.files && !tag.Element?
  {
    exists n: nat :: Brings(w, path, tag, trail, n)
  }

  // ---------------------------------------------------------------------------
  // What a pointer selects

  /** An id selects the elements that have it, in document order, and a query those at the positions
      it finds, in their order; neither may select nothing. */
  lemma {:induction false} SelectedInOrder(w: World, pointer: Pointer, t: Tree)
    ensures match pointer
            case Whole => Selection(w, pointer, t) == Some([0])
            case ById(id) => SelectsId(Elements(t), id, Selection(w, pointer, t))
            case Query(query) => SelectsFound(Elements(t), w.find(query, t), Selection(w, pointer, t))
  {
    if pointer.ById? {
      IdIsSelected(Elements(t), pointer.id);
    } else if pointer.Query? && w.find(pointer.query, t).Some? {
      hide Elements;
      var ks, n := w.find(pointer.query, t).value, |Elements(t)|;
      if i :| 0 <= i < |ks| && ks[i] >= n {
        assert ks[i] in ks;
      }
      if k :| k in ks && k >= n {
        var i :| 0 <= i < |ks| && ks[i] == k;
      }
    }
  }

  ghost predicate SelectsId(es: seq<Tree>, id: string, r: Option<seq<nat>>) {
    match r
    case None => forall k :: 0 <= k < |es| ==> es[k].head.id != Some(id)
    case Some(ks) =>
      ks != [] && Rising(ks) && forall k :: k in ks <==> 0 <= k < |es| && es[k].head.id == Some(id)
  }

  ghost predicate SelectsFound(es: seq<Tree>, found: Option<seq<nat>>, r: Option<seq<nat>>) {
    if found.Some? && found.value != [] && forall k :: k in found.value ==> k < |es| then r == found else r == None
  }

  lemma IdIsSelected(es: seq<Tree>, id: string)
    ensures SelectsId(es, id, if WithId(es, id, 0) == [] then None else Some(WithId(es, id, 0)))
  {
    WithIdExactly(es, id, 0);
    WithIdRises(es, id, 0);
    hide WithId, Rising;
    var ks := WithId(es, id, 0);
    if ks == [] {
      forall k | 0 <= k < |es| ensures es[k].head.id != Some(id) {
        assert k !in ks;
      }
    }
  }

  predicate Rising(ks: seq<nat>) { forall i, j :: 0 <= i < j < |ks| ==> ks[i] < ks[j] }

  lemma RisingCons(k: nat, ks: seq<nat>)
    requires Rising(ks) && forall i :: 0 <= i < |ks| ==> k < ks[i]
    ensures Rising([k] + ks)
  {
  }

  lemma {:induction false} WithIdRises(ts: seq<Tree>, id: string, k: nat)
    ensures Rising(WithId(ts, id, k))
  {
    hide Rising;
    if ts == [] {
      NothingRises();
    } else {
      var rest := WithId(ts[1..], id, k + 1);
      WithIdRises(ts[1..], id, k + 1);
      RisingCons(k, rest);
      assert [] + rest == rest;
    }
  }

  lemma NothingRises()
    ensures Rising([])
  {
  }

  // ---------------------------------------------------------------------------
  // The same, for any number of documents

  lemma LeftUnfold(w: World, path: Path, trail: Trail)
    requires path in w.files
    ensures Left(w, path, trail) <==>
              && trail != [] && trail[0] == w.files[path].root.head.id
              && if |trail| == 1 then !w.files[path].root.head.tag.Element?
                 else LeftBelow(w, path, w.files[path].root.children, trail[1..])
  {
    hide LeavesBelow;
    var root := w.files[path].root;
    if Left(w, path, trail) {
      var n: nat :| Leaves(w, path, trail, n);
      assert |trail| > 1 ==> LeavesBelow(w, path, root.children, trail[1..], n);
    }
    if |trail| > 1 && trail[0] == root.head.id && LeftBelow(w, path, root.children, trail[1..]) {
      var n: nat :| LeavesBelow(w, path, root.children, trail[1..], n);
      assert Leaves(w, path, trail, n);
    }
    if |trail| == 1 && trail[0] == root.head.id && !root.head.tag.Element? {
      assert Leaves(w, path, trail, 0);
    }
  }

  lemma LeftBelowCons(w: World, path: Path, raws: seq<Raw>, trail: Trail)
    requires path in w.files
    ensures LeftBelow(w, path, raws, trail) <==>
              raws != [] && (LeftAt(w, path, raws[0], trail) || LeftBelow(w, path, raws[1..], trail))
  {
    hide LeavesAt;
    if LeftBelow(w, path, raws, trail) {
      var n: nat :| LeavesBelow(w, path, raws, trail, n);
      assert LeavesAt(w, path, raws[0], trail, n) || LeavesBelow(w, path, raws[1..], trail, n);
    }
    if raws != [] && LeftAt(w, path, raws[0], trail) {
      var n: nat :| LeavesAt(w, path, raws[0], trail, n);
      assert LeavesBelow(w, path, raws, trail, n);
    }
    if raws != [] && LeftBelow(w, path, raws[1..], trail) {
      var n: nat :| LeavesBelow(w, path, raws[1..], trail, n);
      assert LeavesBelow(w, path, raws, trail, n);
    }
  }

  lemma LeftAtUnfold(w: World, path: Path, raw: Raw, trail: Trail)
    requires path in w.files
    ensures LeftAt(w, path, raw, trail) <==>
              if raw.head.tag.Element? then
                trail != [] && trail[0] == raw.head.id && LeftBelow(w, path, raw.children, trail[1..])
              else Brought(w, path, raw.head.tag, trail)
  {
    hide LeavesBelow, Brings;
    if LeftAt(w, path, raw, trail) {
      var n: nat :| LeavesAt(w, path, raw, trail, n);
      if raw.head.tag.Element? {
        assert LeavesBelow(w, path, raw.children, trail[1..], n);
      } else {
        assert Brings(w, path, raw.head.tag, trail, n);
      }
    }
    if raw.head.tag.Element? && trail != [] && trail[0] == raw.head.id
       && LeftBelow(w, path, raw.children, trail[1..]) {
      var n: nat :| LeavesBelow(w, path, raw.children, trail[1..], n);
      assert LeavesAt(w, path, raw, trail, n);
    }
    if !raw.head.tag.Element? && Brought(w, path, raw.head.tag, trail) {
      var n: nat :| Brings(w, path, raw.head.tag, trail, n);
      assert LeavesAt(w, path, raw, trail, n);
    }
  }

  /** What a reference brings, by the whole trails its target leaves. */
  ghost predicate BringsFrom(w: World, tag: Tag, target: Path, trail: Trail) {
    match tag
    case Element(_) => false
    case Entity(_) => Left(w, target, trail)
    case Include(_, _, Whole) => Left(w, target, trail)
    case Include(_, _, ById(id)) =>
      trail != [] && trail[0] == Some(id) && exists above: Trail :: Left(w, target, above + trail)
    case Include(_, _, Query(q)) => QueryBrings(w, target, q, trail)
  }

  lemma BroughtUnfold(w: World, path: Path, tag: Tag, trail: Trail)
    requires path in w.files && !tag.Element? && TargetOf(w.files[path], tag).Some?
    ensures Brought(w, path, tag, trail) <==> BringsFrom(w, tag, TargetOf(w.files[path], tag).value, trail)
  {
    hide Leaves, QueryBrings;
    var target := TargetOf(w.files[path], tag).value;
    if Brought(w, path, tag, trail) {
      var n: nat :| Brings(w, path, tag, trail, n);
      match tag
      case Entity(_) => assert Leaves(w, target, trail, n - 1);
      case Include(_, _, Whole) => assert Leaves(w, target, trail, n - 1);
      case Include(_, _, ById(_)) =>
        var above: Trail :| Leaves(w, target, above + trail, n - 1);
        assert Left(w, target, above + trail);
      case Include(_, _, Query(_)) =>
    }
    if BringsFrom(w, tag, target, trail) {
      match tag
      case Entity(_) =>
        var n: nat :| Leaves(w, target, trail, n);
        assert Brings(w, path, tag, trail, n + 1);
      case Include(_, _, Whole) =>
        var n: nat :| Leaves(w, target, trail, n);
        assert Brings(w, path, tag, trail, n + 1);
      case Include(_, _, ById(_)) =>
        var above: Trail :| Left(w, target, above + trail);
        var n: nat :| Leaves(w, target, above + trail, n);
        assert Brings(w, path, tag, trail, n + 1);
      case Include(_, _, Query(_)) =>
        assert Brings(w, path, tag, trail, 1);
    }
  }

  // ---------------------------------------------------------------------------
  // Trails and elements

  ghost predicate HoldsNone(ts: seq<Tree>) { forall trail: Trail :: !HoldsAny(ts, trail) }

  lemma HoldsAnyOf(a: seq<Tree>, b: seq<Tree>, trail: Trail)
    ensures HoldsAny(a + b, trail) <==> HoldsAny(a, trail) || HoldsAny(b, trail)
  {
    hide Holds;
    var ts := a + b;
    if HoldsAny(a, trail) {
      var i :| 0 <= i < |a| && Holds(a[i], trail);
      assert ts[i] == a[i];
    }
    if HoldsAny(b, trail) {
      var i :| 0 <= i < |b| && Holds(b[i], trail);
      assert ts[|a| + i] == b[i];
    }
  }

  lemma HoldsOne(t: Tree, trail: Trail)
    ensures HoldsAny([t], trail) <==> Holds(t, trail)
  {
    hide Holds;
    assert [t][0] == t;
  }

  lemma NoneHeld(ts: seq<Tree>, trail: Trail)
    requires HoldsNone(ts)
    ensures !HoldsAny(ts, trail)
  {
    hide HoldsAny;
  }

  lemma SomeHeld(ts: seq<Tree>) returns (trail: Trail)
    requires !HoldsNone(ts)
    ensures HoldsAny(ts, trail)
  {
    hide HoldsAny;
    trail :| HoldsAny(ts, trail);
  }

  lemma HoldsNoneOf(a: seq<Tree>, b: seq<Tree>)
    ensures HoldsNone(a + b) <==> HoldsNone(a) && HoldsNone(b)
  {
    hide HoldsNone, HoldsAny;
    if !HoldsNone(a + b) {
      var trail := SomeHeld(a + b);
      HoldsAnyOf(a, b, trail);
      if HoldsNone(a) && HoldsNone(b) {
        NoneHeld(a, trail);
        NoneHeld(b, trail);
      }
    } else {
      if !HoldsNone(a) {
        var trail := SomeHeld(a);
        HoldsAnyOf(a, b, trail);
        NoneHeld(a + b, trail);
      }
      if !HoldsNone(b) {
        var trail := SomeHeld(b);
        HoldsAnyOf(a, b, trail);
        NoneHeld(a + b, trail);
      }
    }
  }

  /** Children hold no reference exactly if no trail leads to one. */
  lemma {:induction false} OrdinaryWithoutTrails(ts: seq<Tree>)
    ensures AllOrdinary(ElementsOf(ts)) <==> HoldsNone(ts)
    decreases ts
  {
    if ts == [] {
      assert ElementsOf([]) == [];
    } else {
      OrdinaryWithoutTrails(ts[1..]);
      OrdinaryTree(ts[0]);
      hide HoldsNone, AllOrdinary, ElementsOf;
      assert ts == [ts[0]] + ts[1..];
      AllOrdinaryOf([ts[0]], ts[1..]);
      HoldsNoneOf([ts[0]], ts[1..]);
    }
  }

  lemma {:induction false} OrdinaryTree(t: Tree)
    ensures AllOrdinary(ElementsOf([t])) <==> HoldsNone([t])
    decreases t, 0
  {
    OrdinaryWithoutTrails(t.children);
    AllOrdinaryOne(t);
    hide HoldsNone, HoldsAny, AllOrdinary, ElementsOf;
    if HoldsNone([t]) {
      NoneHeld([t], [t.head.id]);
      HoldsOne(t, [t.head.id]);
      if !HoldsNone(t.children) {
        var trail := SomeHeld(t.children);
        ChildTrail(t, trail);
        HoldsOne(t, [t.head.id] + trail);
        NoneHeld([t], [t.head.id] + trail);
      }
    } else {
      var trail := SomeHeld([t]);
      HoldsOne(t, trail);
      if Ordinary(t) && HoldsNone(t.children) {
        NoneHeld(t.children, trail[1..]);
      }
    }
  }

  lemma ChildTrail(t: Tree, trail: Trail)
    requires HoldsAny(t.children, trail)
    ensures Holds(t, [t.head.id] + trail)
  {
    assert ([t.head.id] + trail)[1..] == trail;
    NoEmptyTrail(t.children);
  }

  lemma NoEmptyTrail(ts: seq<Tree>)
    ensures !HoldsAny(ts, [])
  {
  }

  /** From an element within the tree, a trail is the end of one from the tree itself. */
  lemma {:induction false} ElementTrails(t: Tree, trail: Trail)
    requires trail != []
    ensures HoldsAny(Elements(t), trail) <==> EndsIn([t], trail)
    decreases t, 1
  {
    ElementsTrails(t.children, trail);
    ElementsUnfold(t);
    hide HoldsAny, Elements, ElementsOf;
    HoldsAnyOf([t], ElementsOf(t.children), trail);
    if HoldsAny([t], trail) {
      assert [] + trail == trail;
    }
    if EndsIn(t.children, trail) {
      var above: Trail :| HoldsAny(t.children, above + trail);
      ChildTrail(t, above + trail);
      HoldsOne(t, [t.head.id] + (above + trail));
      assert [t.head.id] + (above + trail) == ([t.head.id] + above) + trail;
    }
    if EndsIn([t], trail) {
      var above: Trail :| HoldsAny([t], above + trail);
      HoldsOne(t, above + trail);
      if above == [] {
        assert above + trail == trail;
      } else {
        assert (above + trail)[1..] == above[1..] + trail;
        assert HoldsAny(t.children, above[1..] + trail);
      }
    }
  }

  /** The trail is the end of a trail that the trees hold. */
  ghost predicate EndsIn(ts: seq<Tree>, trail: Trail) { exists above: Trail :: HoldsAny(ts, above + trail) }

  lemma EndsInOf(a: seq<Tree>, b: seq<Tree>, trail: Trail)
    ensures EndsIn(a + b, trail) <==> EndsIn(a, trail) || EndsIn(b, trail)
  {
    hide HoldsAny;
    forall above: Trail
      ensures HoldsAny(a + b, above + trail) <==> HoldsAny(a, above + trail) || HoldsAny(b, above + trail)
    {
      HoldsAnyOf(a, b, above + trail);
    }
  }

  lemma ElementsUnfold(t: Tree)
    ensures Elements(t) == [t] + ElementsOf(t.children)
  {
  }

  lemma {:induction false} ElementsTrails(ts: seq<Tree>, trail: Trail)
    requires trail != []
    ensures HoldsAny(ElementsOf(ts), trail) <==> EndsIn(ts, trail)
    decreases ts, 0
  {
    if ts == [] {
      assert ElementsOf([]) == [];
    } else {
      ElementTrails(ts[0], trail);
      ElementsTrails(ts[1..], trail);
      assert ElementsOf(ts) == Elements(ts[0]) + ElementsOf(ts[1..]);
      hide HoldsAny, EndsIn, Elements, ElementsOf;
      HoldsAnyOf(Elements(ts[0]), ElementsOf(ts[1..]), trail);
      assert ts == [ts[0]] + ts[1..];
      EndsInOf([ts[0]], ts[1..], trail);
    }
  }

  // ---------------------------------------------------------------------------
  // The expansion

  /** The trails of an expansion are those its documents leave. */
  lemma {:induction false} TrailsOfExpansion(w: World, path: Path, a: set<Path>, trail: Trail)
    requires Expand(w, path, a).Some?
    ensures Holds(Expand(w, path, a).value, trail) <==> Left(w, path, trail)
    decreases |w.files.Keys - a|, 0
  {
    var env := Opened(w, path, a);
    RootKeepsHead(w, path, a);
    hide Expand, ExpandChildren, ExpandEntities, Left, LeftBelow, HoldsAny;
    LeftUnfold(w, path, trail);
    if |trail| > 1 {
      TrailsOfChildren(w, env, path, a + {path}, w.files[path].root.children, trail[1..]);
    }
  }

  lemma {:induction false} TrailsOfChildren(w: World, env: map<string, Tree>, path: Path, a: set<Path>,
                                            raws: seq<Raw>, trail: Trail)
    requires path in w.files && ExpandEntities(w, w.files[path].entities, a) == Some(env)
    requires ExpandChildren(w, env, path, a, raws).Some?
    ensures HoldsAny(ExpandChildren(w, env, path, a, raws).value, trail) <==> LeftBelow(w, path, raws, trail)
    decreases |w.files.Keys - a|, 3, raws
  {
    LeftBelowCons(w, path, raws, trail);
    if raws == [] {
      assert !HoldsAny([], trail);
    } else {
      var ts, rest := Splice(w, env, path, a, raws[0]).value, ExpandChildren(w, env, path, a, raws[1..]).value;
      TrailsOfSplice(w, env, path, a, raws[0], trail);
      TrailsOfChildren(w, env, path, a, raws[1..], trail);
      hide Splice, ExpandEntities, LeftAt, LeftBelow, HoldsAny;
      HoldsAnyOf(ts, rest, trail);
    }
  }

  lemma {:induction false} TrailsOfSplice(w: World, env: map<string, Tree>, path: Path, a: set<Path>, raw: Raw,
                                          trail: Trail)
    requires path in w.files && ExpandEntities(w, w.files[path].entities, a) == Some(env)
    requires Splice(w, env, path, a, raw).Some?
    ensures HoldsAny(Splice(w, env, path, a, raw).value, trail) <==> LeftAt(w, path, raw, trail)
    decreases |w.files.Keys - a|, 3, raw
  {
    hide ExpandEntities, HoldsAny, LeftAt, LeftBelow, Brought, Replacement, ExpandChildren;
    LeftAtUnfold(w, path, raw, trail);
    if raw.head.tag.Element? {
      var t := Splice(w, env, path, a, raw).value[0];
      HoldsOne(t, trail);
      assert t.head == raw.head && Some(t.children) == ExpandChildren(w, env, path, a, raw.children);
      if trail != [] {
        if |trail| == 1 {
          assert trail[1..] == [];
        }
        TrailsOfChildren(w, env, path, a, raw.children, trail[1..]);
        NoEmptyTrail(t.children);
      }
    } else {
      TrailsOfReplacement(w, env, path, a, raw.head.tag, trail);
    }
  }

  lemma {:induction false} TrailsOfReplacement(w: World, env: map<string, Tree>, path: Path, a: set<Path>, tag: Tag,
                                               trail: Trail)
    requires path in w.files && ExpandEntities(w, w.files[path].entities, a) == Some(env)
    requires !tag.Element? && Replacement(w, env, a, tag).Some?
    ensures HoldsAny(Replacement(w, env, a, tag).value, trail) <==> Brought(w, path, tag, trail)
    decreases |w.files.Keys - a|, 2
  {
    var target := TargetOfReplacement(w, env, path, a, tag);
    var t := Expand(w, target, a).value;
    hide Expand, ExpandEntities, Left, Brought, Holds, HoldsAny, Elements, QueryBrings;
    TrailsOfExpansion(w, target, a, trail);
    HoldsOne(t, trail);
    BroughtUnfold(w, path, tag, trail);
    match tag
    case Entity(_) =>
    case Include(_, _, Whole) =>
      ElementsUnfold(t);
      assert Pick(Elements(t), [0]) == [t];
    case Include(_, _, ById(id)) => TrailsById(w, target, a, id, trail);
    case Include(_, _, Query(q)) => TrailsOfQuery(w, target, a, q, trail);
  }

  lemma TargetOfReplacement(w: World, env: map<string, Tree>, path: Path, a: set<Path>, tag: Tag)
    returns (target: Path)
    requires path in w.files && ExpandEntities(w, w.files[path].entities, a) == Some(env)
    requires !tag.Element? && Replacement(w, env, a, tag).Some?
    ensures TargetOf(w.files[path], tag) == Some(target) && Expand(w, target, a).Some?
    ensures tag.Entity? ==> Replacement(w, env, a, tag) == Some([Expand(w, target, a).value])
    ensures tag.Include? ==>
              && Selection(w, tag.pointer, Expand(w, target, a).value).Some?
              && Replacement(w, env, a, tag).value ==
                 Pick(Elements(Expand(w, target, a).value), Selection(w, tag.pointer, Expand(w, target, a).value).value)
  {
    hide Expand, ExpandEntities, Selection;
    match tag
    case Entity(name) =>
      EnvironmentIsLast(w, w.files[path].entities, a, name);
      target := LastDeclared(w.files[path].entities, name).value;
    case Include(_, to, _) =>
      target := to.value;
  }

  lemma {:induction false} WithIdExactly(ts: seq<Tree>, id: string, k: nat)
    ensures forall i :: i in WithId(ts, id, k) <==> k <= i < k + |ts| && ts[i - k].head.id == Some(id)
  {
    if ts != [] {
      var rest := WithId(ts[1..], id, k + 1);
      WithIdExactly(ts[1..], id, k + 1);
      forall i ensures i in WithId(ts, id, k) <==> k <= i < k + |ts| && ts[i - k].head.id == Some(id) {
        assert i in rest <==> k + 1 <= i < k + |ts| && ts[1..][i - k - 1].head.id == Some(id);
        assert i in WithId(ts, id, k) <==> i in rest || (i == k && ts[0].head.id == Some(id));
      }
    }
  }

  /** A picked element holds a trail if it is one of the picked positions. */
  lemma PickedTrails(es: seq<Tree>, ks: seq<nat>, trail: Trail)
    requires forall i :: 0 <= i < |ks| ==> ks[i] < |es|
    ensures HoldsAny(Pick(es, ks), trail) <==> exists k :: k in ks && HoldsAt(es, k, trail)
  {
    hide Holds;
    if k :| k in ks && HoldsAt(es, k, trail) {
      var i :| 0 <= i < |ks| && ks[i] == k;
      assert Holds(Pick(es, ks)[i], trail);
    }
    if HoldsAny(Pick(es, ks), trail) {
      var i :| 0 <= i < |ks| && Holds(Pick(es, ks)[i], trail);
      assert ks[i] in ks && HoldsAt(es, ks[i], trail);
    }
  }

  lemma {:induction false} TrailsById(w: World, target: Path, a: set<Path>, id: string, trail: Trail)
    requires Expand(w, target, a).Some?
    ensures var es := Elements(Expand(w, target, a).value);
            HoldsAny(Pick(es, WithId(es, id, 0)), trail) <==>
              trail != [] && trail[0] == Some(id) && exists above: Trail :: Left(w, target, above + trail)
    decreases |w.files.Keys - a|, 1
  {
    var t := Expand(w, target, a).value;
    var es := Elements(t);
    IdTrails(es, id, trail);
    hide Expand, Left, Holds, HoldsAny, Elements, WithId;
    if trail != [] {
      ElementTrails(t, trail);
      forall above: Trail ensures HoldsAny([t], above + trail) <==> Left(w, target, above + trail) {
        HoldsOne(t, above + trail);
        TrailsOfExpansion(w, target, a, above + trail);
      }
    }
  }

  lemma IdTrails(es: seq<Tree>, id: string, trail: Trail)
    ensures HoldsAny(Pick(es, WithId(es, id, 0)), trail) <==>
              trail != [] && trail[0] == Some(id) && HoldsAny(es, trail)
  {
    WithIdExactly(es, id, 0);
    PickedTrails(es, WithId(es, id, 0), trail);
    TrailStart(es, id, trail);
    hide HoldsAt, HoldsAny, WithId;
  }

  /** The first id of a trail is that of the element it begins at. */
  lemma TrailStart(es: seq<Tree>, id: string, trail: Trail)
    ensures (exists k: nat :: k < |es| && es[k].head.id == Some(id) && HoldsAt(es, k, trail)) <==>
              trail != [] && trail[0] == Some(id) && HoldsAny(es, trail)
  {
    forall k: nat ensures HoldsAt(es, k, trail) ==> trail != [] && trail[0] == es[k].head.id {
    }
    hide Holds;
    if HoldsAny(es, trail) {
      var k :| 0 <= k < |es| && Holds(es[k], trail);
      assert HoldsAt(es, k, trail);
    }
  }

  lemma TrailsOfQuery(w: World, target: Path, a: set<Path>, q: string, trail: Trail)
    requires Expand(w, target, a).Some? && Selection(w, Pointer.Query(q), Expand(w, target, a).value).Some?
    ensures var t := Expand(w, target, a).value;
            HoldsAny(Pick(Elements(t), Selection(w, Pointer.Query(q), t).value), trail) <==>
              QueryBrings(w, target, q, trail)
  {
    FewerAncestors(w, target, a, {});
    var t := Expand(w, target, a).value;
    PickedTrails(Elements(t), Selection(w, Pointer.Query(q), t).value, trail);
    hide Expand, Elements, HoldsAt, HoldsAny;
  }

  /** An expansion keeps a reference below its root exactly if the documents leave one there. */
  lemma {:induction false} CleanExactly(w: World, path: Path, a: set<Path>)
    requires Expand(w, path, a).Some?
    ensures Clean(Expand(w, path, a).value) <==> forall trail: Trail :: |trail| > 1 ==> !Left(w, path, trail)
  {
    var t := Expand(w, path, a).value;
    OrdinaryWithoutTrails(t.children);
    hide Expand, Left, HoldsAny, HoldsNone, ElementsOf, AllOrdinary;
    if !Clean(t) {
      var trail := SomeHeld(t.children);
      NoEmptyTrail(t.children);
      ChildTrail(t, trail);
      TrailsOfExpansion(w, path, a, [t.head.id] + trail);
      assert |[t.head.id] + trail| > 1;
    } else {
      forall trail: Trail | |trail| > 1 ensures !Left(w, path, trail) {
        TrailsOfExpansion(w, path, a, trail);
        NoneHeld(t.children, trail[1..]);
      }
    }
  }
}
