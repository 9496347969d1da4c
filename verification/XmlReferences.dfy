/** Which references an expansion still holds. */
module XmlReferences {
  import opened Options
  import opened XmlDocuments
  import opened XmlLaws

  predicate Ordinary(t: Tree) { t.head.tag.Element? }

  predicate AllOrdinary(ts: seq<Tree>) { forall k :: 0 <= k < |ts| ==> Ordinary(ts[k]) }

  /** No include and no placeholder is left below the root. */
  predicate Clean(t: Tree) { AllOrdinary(ElementsOf(t.children)) }

  /** The reference is spliced into the result: it is not below another reference. */
  ghost predicate Attached(raws: seq<Raw>, tag: Tag)
    decreases raws
  {
    && !tag.Element?
    && exists i ::
         && 0 <= i < |raws|
         && (if raws[i].head.tag.Element? then Attached(raws[i].children, tag) else raws[i].head.tag == tag)
  }

  // ---------------------------------------------------------------------------
  // One document

  lemma {:induction false} AllOrdinaryOf(a: seq<Tree>, b: seq<Tree>)
    ensures AllOrdinary(ElementsOf(a + b)) <==> AllOrdinary(ElementsOf(a)) && AllOrdinary(ElementsOf(b))
  {
    hide Ordinary, ElementsOf;
    ElementsOfConcat(a, b);
    var x, y := ElementsOf(a), ElementsOf(b);
    if AllOrdinary(x + y) {
      assert forall k :: 0 <= k < |x| ==> (x + y)[k] == x[k];
      assert forall k :: 0 <= k < |y| ==> (x + y)[|x| + k] == y[k];
    }
  }

  lemma AllOrdinaryOne(t: Tree)
    ensures AllOrdinary(ElementsOf([t])) <==> Ordinary(t) && Clean(t)
  {
    assert ElementsOf([t]) == Elements(t) + ElementsOf([]) && ElementsOf([]) == [];
    assert Elements(t) == [t] + ElementsOf(t.children);
    assert Elements(t) + [] == Elements(t);
    hide ElementsOf;
    if AllOrdinary(Elements(t)) {
      assert forall k :: 0 <= k < |ElementsOf(t.children)| ==> Elements(t)[k + 1] == ElementsOf(t.children)[k];
      assert Ordinary(Elements(t)[0]);
    }
  }

  ghost predicate Replaced(w: World, env: map<string, Tree>, a: set<Path>, tag: Tag) {
    !tag.Element? && Replacement(w, env, a, tag).Some? && AllOrdinary(ElementsOf(Replacement(w, env, a, tag).value))
  }

  ghost predicate AllReplaced(w: World, env: map<string, Tree>, a: set<Path>, raws: seq<Raw>) {
    forall tag: Tag :: Attached(raws, tag) ==> Replaced(w, env, a, tag)
  }

  lemma AttachedCons(raws: seq<Raw>, tag: Tag)
    requires raws != []
    ensures Attached(raws, tag) <==> Attached(raws[..1], tag) || Attached(raws[1..], tag)
  {
    if !tag.Element? && Attached(raws, tag) {
      var i :|
        && 0 <= i < |raws|
        && (if raws[i].head.tag.Element? then Attached(raws[i].children, tag) else raws[i].head.tag == tag);
      assert i == 0 ==> raws[..1][0] == raws[i];
      assert i > 0 ==> raws[1..][i - 1] == raws[i];
    }
    if Attached(raws[1..], tag) {
      var i :| 0 <= i < |raws[1..]| &&
        (if raws[1..][i].head.tag.Element? then Attached(raws[1..][i].children, tag) else raws[1..][i].head.tag == tag);
      assert raws[i + 1] == raws[1..][i];
    }
  }

  lemma AttachedOne(raw: Raw, tag: Tag)
    ensures Attached([raw], tag) <==>
              !tag.Element? && (if raw.head.tag.Element? then Attached(raw.children, tag) else raw.head.tag == tag)
  {
    assert [raw][0] == raw;
  }

  /** Children are clean exactly if what replaces each attached reference is. */
  lemma {:induction false} CleanChildren(w: World, env: map<string, Tree>, path: Path, a: set<Path>, raws: seq<Raw>)
    requires ExpandChildren(w, env, path, a, raws).Some?
    ensures AllOrdinary(ElementsOf(ExpandChildren(w, env, path, a, raws).value)) <==> AllReplaced(w, env, a, raws)
    decreases raws
  {
    if raws == [] {
      assert ElementsOf([]) == [];
    } else {
      var ts, rest := Splice(w, env, path, a, raws[0]).value, ExpandChildren(w, env, path, a, raws[1..]).value;
      CleanSplice(w, env, path, a, raws[0]);
      CleanChildren(w, env, path, a, raws[1..]);
      hide Splice, ExpandNode, Replaced, Attached, AllOrdinary;
      AllOrdinaryOf(ts, rest);
      assert raws[..1] == [raws[0]];
      forall tag: Tag ensures Attached(raws, tag) <==> Attached([raws[0]], tag) || Attached(raws[1..], tag) {
        AttachedCons(raws, tag);
      }
    }
  }

  lemma {:induction false} CleanSplice(w: World, env: map<string, Tree>, path: Path, a: set<Path>, raw: Raw)
    requires Splice(w, env, path, a, raw).Some?
    ensures AllOrdinary(ElementsOf(Splice(w, env, path, a, raw).value)) <==> AllReplaced(w, env, a, [raw])
    decreases raw
  {
    hide ElementsOf, AllOrdinary;
    forall tag: Tag
      ensures Attached([raw], tag) <==>
                !tag.Element? && (if raw.head.tag.Element? then Attached(raw.children, tag) else raw.head.tag == tag)
    {
      AttachedOne(raw, tag);
    }
    hide Attached;
    if raw.head.tag.Element? {
      CleanChildren(w, env, path, a, raw.children);
      AllOrdinaryOne(Splice(w, env, path, a, raw).value[0]);
    }
  }

  // ---------------------------------------------------------------------------
  // Chains of documents

  /** Where the last declaration of the name points. */
  function LastDeclared(decls: seq<(string, Option<Path>)>, name: string): Option<Path> {
    if decls == [] then None
    else if decls[|decls| - 1].0 == name then decls[|decls| - 1].1
    else LastDeclared(decls[..|decls| - 1], name)
  }

  lemma {:induction false} EnvironmentIsLast(w: World, decls: seq<(string, Option<Path>)>, a: set<Path>, name: string)
    requires ExpandEntities(w, decls, a).Some?
    ensures name in ExpandEntities(w, decls, a).value <==> LastDeclared(decls, name).Some?
    ensures name in ExpandEntities(w, decls, a).value ==>
              Expand(w, LastDeclared(decls, name).value, a) == Some(ExpandEntities(w, decls, a).value[name])
    decreases |decls|
  {
    hide Expand;
    if decls != [] {
      EnvironmentIsLast(w, decls[..|decls| - 1], a, name);
    }
  }

  function TargetOf(doc: Document, tag: Tag): Option<Path> {
    match tag
    case Element(_) => None
    case Entity(name) => LastDeclared(doc.entities, name)
    case Include(_, target, _) => target
  }

  /** An attached reference that brings in its whole target. */
  predicate IsWhole(tag: Tag) { tag.Entity? || (tag.Include? && tag.pointer == Pointer.Whole) }

  /** An attached reference of one document leads to the other; `whole` wants one without a
      pointer. */
  ghost predicate Leads(w: World, path: Path, target: Path, whole: bool) {
    path in w.files && exists tag: Tag ::
      Attached(w.files[path].root.children, tag) && TargetOf(w.files[path], tag) == Some(target)
      && (whole ==> IsWhole(tag))
  }

  ghost predicate IsChain(w: World, ws: seq<Path>, whole: bool) {
    ws != [] && forall i :: 0 <= i < |ws| - 1 ==> Leads(w, ws[i], ws[i + 1], whole)
  }

  predicate OrdinaryRoot(w: World, path: Path) { path in w.files ==> w.files[path].root.head.tag.Element? }

  /** Every document brought in by a chain of attached references has an ordinary root. */
  ghost predicate OrdinaryBelow(w: World, path: Path, whole: bool) {
    forall ws: seq<Path> :: IsChain(w, ws, whole) && ws[0] == path && |ws| > 1 ==> OrdinaryRoot(w, ws[|ws| - 1])
  }

  lemma OrdinaryStep(w: World, path: Path, target: Path)
    requires OrdinaryBelow(w, path, false) && Leads(w, path, target, false)
    ensures OrdinaryBelow(w, target, false) && OrdinaryRoot(w, target)
  {
    hide Leads, OrdinaryRoot;
    assert IsChain(w, [path, target], false);
    forall ws: seq<Path> | IsChain(w, ws, false) && ws[0] == target && |ws| > 1 ensures OrdinaryRoot(w, ws[|ws| - 1]) {
      var vs := [path] + ws;
      assert IsChain(w, vs, false);
      assert vs[|vs| - 1] == ws[|ws| - 1];
    }
  }

  lemma RootKeepsHead(w: World, path: Path, a: set<Path>)
    requires Expand(w, path, a).Some?
    ensures Expand(w, path, a).value.head == w.files[path].root.head
  {
    var doc, b := w.files[path], a + {path};
    var env := ExpandEntities(w, doc.entities, b).value;
    hide ExpandEntities, ExpandChildren;
    assert ExpandNode(w, env, path, b, doc.root).value.head == doc.root.head;
  }

  /** The expansion of a document, taken apart: its environment and its children. */
  lemma Opened(w: World, path: Path, a: set<Path>) returns (env: map<string, Tree>)
    requires Expand(w, path, a).Some?
    ensures path in w.files && path !in a && ExpandEntities(w, w.files[path].entities, a + {path}) == Some(env)
    ensures ExpandChildren(w, env, path, a + {path}, w.files[path].root.children) ==
              Some(Expand(w, path, a).value.children)
    ensures |w.files.Keys - (a + {path})| < |w.files.Keys - a|
  {
    Shrinks(w, path, a);
    env := ExpandEntities(w, w.files[path].entities, a + {path}).value;
    hide ExpandChildren, ExpandEntities;
  }

  /** An expansion is clean exactly if what replaces each attached reference is: this decides one
      document by those it refers to, whatever the pointers select. */
  lemma {:induction false} CleanByReplacements(w: World, path: Path, a: set<Path>) returns (env: map<string, Tree>)
    requires Expand(w, path, a).Some?
    ensures ExpandEntities(w, w.files[path].entities, a + {path}) == Some(env)
    ensures Clean(Expand(w, path, a).value) <==> AllReplaced(w, env, a + {path}, w.files[path].root.children)
  {
    hide Expand, ExpandChildren, ElementsOf;
    env := Opened(w, path, a);
    CleanChildren(w, env, path, a + {path}, w.files[path].root.children);
  }

  lemma {:induction false} PickedOrdinary(t: Tree, picked: seq<Tree>)
    requires Ordinary(t) && Clean(t) && forall k :: 0 <= k < |picked| ==> picked[k] in Elements(t)
    ensures AllOrdinary(ElementsOf(picked))
    decreases |picked|
  {
    hide Elements, Ordinary;
    if picked == [] {
      assert ElementsOf([]) == [];
    } else {
      PickedOrdinary(t, picked[1..]);
      ElementsNest(t, picked[0]);
      ElementsOrdinary(t);
      assert forall k :: 0 <= k < |Elements(picked[0])| ==> Elements(picked[0])[k] in Elements(t);
      assert picked == [picked[0]] + picked[1..];
    }
  }

  lemma ElementsOrdinary(t: Tree)
    requires Ordinary(t) && Clean(t)
    ensures forall v :: v in Elements(t) ==> Ordinary(v)
  {
    hide ElementsOf;
    assert Elements(t) == [t] + ElementsOf(t.children);
  }

  /** If every document that attached references bring in has an ordinary root, the expansion
      holds no reference below its own root. Other files of the world do not matter. */
  lemma {:induction false} NoReferenceLeft(w: World, path: Path, a: set<Path>)
    requires Expand(w, path, a).Some? && OrdinaryBelow(w, path, false)
    ensures Clean(Expand(w, path, a).value)
    decreases |w.files.Keys - a|
  {
    hide OrdinaryBelow, Attached, Replaced, Clean, Leads;
    var b, doc := a + {path}, w.files[path];
    var env := CleanByReplacements(w, path, a);
    var env' := Opened(w, path, a);
    forall tag: Tag | Attached(doc.root.children, tag) ensures Replaced(w, env, b, tag) {
      var target := AttachedExpands(w, path, a, env, tag);
      OrdinaryStep(w, path, target);
      NoReferenceLeft(w, target, b);
      CleanTargetReplaces(w, doc, b, env, tag, target);
    }
  }

  /** An attached reference of an expanding document has a target, and it expands. */
  lemma AttachedExpands(w: World, path: Path, a: set<Path>, env: map<string, Tree>, tag: Tag) returns (target: Path)
    requires Expand(w, path, a).Some? && ExpandEntities(w, w.files[path].entities, a + {path}) == Some(env)
    requires Attached(w.files[path].root.children, tag)
    ensures !tag.Element? && Replacement(w, env, a + {path}, tag).Some?
    ensures TargetOf(w.files[path], tag) == Some(target) && Leads(w, path, target, false)
    ensures IsWhole(tag) ==> Leads(w, path, target, true)
    ensures Expand(w, target, a + {path}).Some?
  {
    var doc, b := w.files[path], a + {path};
    var env' := Opened(w, path, a);
    hide Expand, ExpandEntities, ExpandChildren, Selection;
    AttachedReplaced(w, env, path, b, doc.root.children, tag);
    match tag
    case Entity(name) =>
      EnvironmentIsLast(w, doc.entities, b, name);
      target := LastDeclared(doc.entities, name).value;
    case Include(_, to, _) =>
      target := to.value;
  }

  lemma {:induction false} AttachedReplaced(w: World, env: map<string, Tree>, path: Path, a: set<Path>, raws: seq<Raw>,
                                            tag: Tag)
    requires ExpandChildren(w, env, path, a, raws).Some? && Attached(raws, tag)
    ensures Replacement(w, env, a, tag).Some?
    decreases raws
  {
    var i :|
      && 0 <= i < |raws|
      && (if raws[i].head.tag.Element? then Attached(raws[i].children, tag) else raws[i].head.tag == tag);
    if Splice(w, env, path, a, raws[i]).None? {
      ChildFails(w, env, path, a, raws, i);
    }
    assert ExpandNode(w, env, path, a, raws[i]).Some?;
    if raws[i].head.tag.Element? {
      AttachedReplaced(w, env, path, a, raws[i].children, tag);
    }
  }

  lemma CleanTargetReplaces(w: World, doc: Document, b: set<Path>, env: map<string, Tree>, tag: Tag, target: Path)
    requires !tag.Element? && ExpandEntities(w, doc.entities, b) == Some(env) && Replacement(w, env, b, tag).Some?
    requires TargetOf(doc, tag) == Some(target) && Expand(w, target, b).Some?
    requires OrdinaryRoot(w, target) && Clean(Expand(w, target, b).value)
    ensures Replaced(w, env, b, tag)
  {
    RootKeepsHead(w, target, b);
    var t := Expand(w, target, b).value;
    assert target in w.files;
    hide Expand, ExpandEntities, Selection, Clean, AllOrdinary, Elements, ElementsOf;
    match tag
    case Entity(name) =>
      EnvironmentIsLast(w, doc.entities, b, name);
      AllOrdinaryOne(t);
    case Include(_, _, pointer) =>
      PickedOrdinary(t, Pick(Elements(t), Selection(w, pointer, t).value));
  }

  /** Conversely, a chain of attached references without pointers that ends in a document whose
      root is a reference leaves this reference below the root of the expansion. */
  lemma {:induction false} ReferenceIsLeft(w: World, path: Path, a: set<Path>, ws: seq<Path>)
    requires Expand(w, path, a).Some? && IsChain(w, ws, true) && ws[0] == path && |ws| > 1
    requires !OrdinaryRoot(w, ws[|ws| - 1])
    ensures !Clean(Expand(w, path, a).value)
    decreases |ws|
  {
    hide Attached, Clean, OrdinaryRoot;
    var b, doc, target := a + {path}, w.files[path], ws[1];
    assert Leads(w, path, target, true);
    var tag: Tag :| Attached(doc.root.children, tag) && TargetOf(doc, tag) == Some(target) && IsWhole(tag);
    var env := CleanByReplacements(w, path, a);
    var again := AttachedExpands(w, path, a, env, tag);
    if |ws| > 2 {
      var rest := ws[1..];
      forall i | 0 <= i < |rest| - 1 ensures Leads(w, rest[i], rest[i + 1], true) {
        assert Leads(w, ws[i + 1], ws[i + 2], true);
      }
      ReferenceIsLeft(w, target, b, rest);
    }
    UncleanTargetStays(w, doc, b, env, tag, target);
  }

  lemma UncleanTargetStays(w: World, doc: Document, b: set<Path>, env: map<string, Tree>, tag: Tag, target: Path)
    requires IsWhole(tag) && ExpandEntities(w, doc.entities, b) == Some(env) && Replacement(w, env, b, tag).Some?
    requires TargetOf(doc, tag) == Some(target) && Expand(w, target, b).Some?
    requires !OrdinaryRoot(w, target) || !Clean(Expand(w, target, b).value)
    ensures !Replaced(w, env, b, tag)
  {
    RootKeepsHead(w, target, b);
    var t := Expand(w, target, b).value;
    hide Expand, ExpandEntities, Clean, AllOrdinary, ElementsOf;
    AllOrdinaryOne(t);
    match tag
    case Entity(name) =>
      EnvironmentIsLast(w, doc.entities, b, name);
    case Include(_, _, _) =>
      assert Elements(t)[0] == t;
      assert Pick(Elements(t), [0]) == [t];
  }

  lemma BareExpands(w: World, path: Path, a: set<Path>, head: Head)
    requires path in w.files && path !in a && w.files[path] == Document([], Raw(head, []))
    ensures Expand(w, path, a) == Some(Tree(head, path, []))
  {
    var b := a + {path};
    assert ExpandEntities(w, [], b) == Some(map[]);
    assert ExpandChildren(w, map[], path, b, []) == Some([]);
    assert ExpandNode(w, map[], path, b, Raw(head, [])) == Some(Tree(head, path, []));
  }

  /** There are such documents: one includes another, whose root is itself an include. */
  lemma {:induction false} SomeReferenceIsLeft(find: (string, Tree) -> Option<seq<nat>>)
    ensures var including := (target: Path) => Raw(Head(Include(true, Some(target), Pointer.Whole), None), []);
            var a := Document([], Raw(Head(Element("x"), None), [including("b")]));
            var c := Document([], Raw(Head(Element("y"), None), []));
            var w := World(map["a" := a, "b" := Document([], including("c")), "c" := c], find);
            Expand(w, "a", {}).Some? && !Clean(Expand(w, "a", {}).value)
  {
    var child := Raw(Head(Include(true, Some("b"), Pointer.Whole), None), []);
    var bare := Raw(Head(Include(true, Some("c"), Pointer.Whole), None), []);
    var holder := Document([], Raw(Head(Element("x"), None), [child]));
    var last := Document([], Raw(Head(Element("y"), None), []));
    var w := World(map["a" := holder, "b" := Document([], bare), "c" := last], find);
    var t := Tree(bare.head, "b", []);
    BareExpands(w, "b", {"a"}, bare.head);
    assert {} + {"a"} == {"a"};
    assert ExpandEntities(w, [], {"a"}) == Some(map[]);
    assert ExpandChildren(w, map[], "a", {"a"}, []) == Some([]);
    assert ExpandNode(w, map[], "a", {"a"}, child).Some?;
    assert Elements(t)[0] == t && Pick(Elements(t), [0]) == [t];
    assert Replacement(w, map[], {"a"}, child.head.tag) == Some([t]);
    assert Splice(w, map[], "a", {"a"}, child) == Some([t]);
    assert [child][1..] == [] && [t] + [] == [t];
    assert ExpandChildren(w, map[], "a", {"a"}, [child]) == Some([t]);
    AllOrdinaryOne(t);
  }
}
