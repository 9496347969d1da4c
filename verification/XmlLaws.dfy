/** When a document expands, and what its expansion contains. */
module XmlLaws {
  import opened Sequences
  import opened Options
  import opened XmlDocuments

  // ---------------------------------------------------------------------------
  // The ancestors only guard against cycles

  lemma {:induction false} FewerAncestors(w: World, path: Path, a: set<Path>, b: set<Path>)
    requires b <= a && Expand(w, path, a).Some?
    ensures Expand(w, path, b) == Expand(w, path, a)
    decreases |w.files.Keys - a|, 0, 0
  {
    var doc := w.files[path];
    Shrinks(w, path, a);
    FewerForEntities(w, doc.entities, a + {path}, b + {path});
    FewerForNode(w, ExpandEntities(w, doc.entities, a + {path}).value, path, a + {path}, b + {path}, doc.root);
  }

  lemma {:induction false} FewerForEntities(w: World, decls: seq<(string, Option<Path>)>, a: set<Path>, b: set<Path>)
    requires b <= a && ExpandEntities(w, decls, a).Some?
    ensures ExpandEntities(w, decls, b) == ExpandEntities(w, decls, a)
    decreases |w.files.Keys - a|, 1, |decls|
  {
    hide Expand;
    if decls != [] {
      FewerForEntities(w, decls[..|decls| - 1], a, b);
      FewerAncestors(w, decls[|decls| - 1].1.value, a, b);
    }
  }

  lemma {:induction false} FewerForReference(w: World, env: map<string, Tree>, a: set<Path>, b: set<Path>, tag: Tag)
    requires b <= a && !tag.Element? && Replacement(w, env, a, tag).Some?
    ensures Replacement(w, env, b, tag) == Replacement(w, env, a, tag)
    decreases |w.files.Keys - a|, 1, 0
  {
    hide Expand, Selection;
    if tag.Include? {
      FewerAncestors(w, tag.target.value, a, b);
    }
  }

  lemma {:induction false} FewerForNode(w: World, env: map<string, Tree>, path: Path, a: set<Path>, b: set<Path>,
                                        raw: Raw)
    requires b <= a && ExpandNode(w, env, path, a, raw).Some?
    ensures ExpandNode(w, env, path, b, raw) == ExpandNode(w, env, path, a, raw)
    decreases |w.files.Keys - a|, 2, raw, 0
  {
    FewerForChildren(w, env, path, a, b, raw.children);
  }

  lemma {:induction false} FewerForChildren(w: World, env: map<string, Tree>, path: Path, a: set<Path>, b: set<Path>,
                                            raws: seq<Raw>)
    requires b <= a && ExpandChildren(w, env, path, a, raws).Some?
    ensures ExpandChildren(w, env, path, b, raws) == ExpandChildren(w, env, path, a, raws)
    decreases |w.files.Keys - a|, 2, raws, 1
  {
    hide ExpandNode, Replacement;
    if raws != [] {
      FewerForNode(w, env, path, a, b, raws[0]);
      if !raws[0].head.tag.Element? {
        FewerForReference(w, env, a, b, raws[0].head.tag);
      }
      FewerForChildren(w, env, path, a, b, raws[1..]);
    }
  }

  // ---------------------------------------------------------------------------
  // References between documents

  ghost predicate Declares(doc: Document, target: Path) {
    exists k :: 0 <= k < |doc.entities| && doc.entities[k].1 == Some(target)
  }

  /** The reference is the child of some element of the document, detached or not. */
  ghost predicate Holds(raws: seq<Raw>, tag: Tag) {
    exists k, i :: 0 <= k < |raws| && 0 <= i < |raws[k].children| && raws[k].children[i].head.tag == tag
  }

  ghost predicate Includes(doc: Document, target: Path) {
    exists tag: Tag :: Holds(RawElements(doc.root), tag) && tag.Include? && tag.target == Some(target)
  }

  ghost predicate Refers(w: World, path: Path, target: Path) {
    path in w.files && (Declares(w.files[path], target) || Includes(w.files[path], target))
  }

  ghost predicate IsWalk(w: World, ws: seq<Path>) {
    ws != [] && forall i :: 0 <= i < |ws| - 1 ==> Refers(w, ws[i], ws[i + 1])
  }

  lemma {:induction false} DeclaredExpand(w: World, decls: seq<(string, Option<Path>)>, a: set<Path>, k: nat)
    requires ExpandEntities(w, decls, a).Some? && k < |decls|
    ensures decls[k].1.Some? && Expand(w, decls[k].1.value, a).Some?
    ensures decls[k].0 in ExpandEntities(w, decls, a).value
    decreases |decls|
  {
    hide Expand;
    if k < |decls| - 1 {
      DeclaredExpand(w, decls[..|decls| - 1], a, k);
    }
  }

  lemma {:induction false} OnlyDeclared(w: World, decls: seq<(string, Option<Path>)>, a: set<Path>, name: string)
    requires ExpandEntities(w, decls, a).Some? && name in ExpandEntities(w, decls, a).value
    ensures exists k :: 0 <= k < |decls| && decls[k].0 == name
    decreases |decls|
  {
    hide Expand;
    var n := |decls| - 1;
    if decls[n].0 != name {
      OnlyDeclared(w, decls[..n], a, name);
    }
  }

  lemma HeldIsReplaced(w: World, env: map<string, Tree>, path: Path, a: set<Path>, root: Raw, tag: Tag)
    requires ExpandNode(w, env, path, a, root).Some? && Holds(RawElements(root), tag) && !tag.Element?
    ensures Replacement(w, env, a, tag).Some?
  {
    hide RawElements, Replacement, ExpandNode;
    if Replacement(w, env, a, tag).None? {
      var raws := RawElements(root);
      var k, i :| 0 <= k < |raws| && 0 <= i < |raws[k].children| && raws[k].children[i].head.tag == tag;
      assert Unreplaced(w, env, a, raws[k].children[i]);
      BlockedFails(w, env, path, a, root);
    }
  }

  /** What an expanding document refers to expands below it. */
  lemma ReferenceExpands(w: World, path: Path, a: set<Path>, target: Path)
    requires Expand(w, path, a).Some? && Refers(w, path, target)
    ensures Expand(w, target, a + {path}).Some?
  {
    hide RawElements, ExpandNode, ExpandEntities, Holds;
    var doc := w.files[path];
    var env := ExpandEntities(w, doc.entities, a + {path}).value;
    if Declares(doc, target) {
      var k :| 0 <= k < |doc.entities| && doc.entities[k].1 == Some(target);
      DeclaredExpand(w, doc.entities, a + {path}, k);
    } else {
      var tag: Tag :| Holds(RawElements(doc.root), tag) && tag.Include? && tag.target == Some(target);
      HeldIsReplaced(w, env, path, a + {path}, doc.root, tag);
    }
  }

  /** If a document expands, no chain of references from it meets an ancestor or itself again. */
  lemma {:induction false} ExpansionIsAcyclic(w: World, path: Path, a: set<Path>, ws: seq<Path>)
    requires Expand(w, path, a).Some? && IsWalk(w, ws) && ws[0] == path
    ensures Distinct(ws) && forall i :: 0 <= i < |ws| ==> ws[i] in w.files && ws[i] !in a
    decreases |ws|
  {
    hide Refers;
    if |ws| > 1 {
      ReferenceExpands(w, path, a, ws[1]);
      ExpansionIsAcyclic(w, ws[1], a + {path}, ws[1..]);
      hide Expand;
      forall i | 0 < i < |ws| ensures ws[i] in w.files && ws[i] !in a + {path} {
        assert ws[i] == ws[1..][i - 1];
      }
      forall i, j | 0 <= i < j < |ws| ensures ws[i] != ws[j] {
        assert ws[j] == ws[1..][j - 1];
        if i > 0 {
          assert ws[i] == ws[1..][i - 1];
        }
      }
    }
  }

  /** The end of a chain expands as well, on its own. */
  lemma {:induction false} ChainExpands(w: World, path: Path, a: set<Path>, ws: seq<Path>)
    requires Expand(w, path, a).Some? && IsWalk(w, ws) && ws[0] == path
    ensures Expand(w, ws[|ws| - 1], {}).Some?
    decreases |ws|
  {
    hide Refers;
    if |ws| == 1 {
      FewerAncestors(w, path, a, {});
    } else {
      ReferenceExpands(w, path, a, ws[1]);
      ChainExpands(w, ws[1], a + {path}, ws[1..]);
    }
  }

  // ---------------------------------------------------------------------------
  // Exactly when a document expands

  /** A reference of the document can be followed: it is of a supported form, its target
      is local, its entity is declared, and its pointer selects something of its target. */
  ghost predicate Followable(w: World, doc: Document, tag: Tag) {
    match tag
    case Element(_) => true
    case Entity(name) => exists k :: 0 <= k < |doc.entities| && doc.entities[k].0 == name
    case Include(supported, target, pointer) =>
      && supported && target.Some?
      && (Expand(w, target.value, {}).Some? ==> Selection(w, pointer, Expand(w, target.value, {}).value).Some?)
  }

  ghost predicate Sound(w: World, path: Path) {
    && path in w.files
    && (forall k :: 0 <= k < |w.files[path].entities| ==> w.files[path].entities[k].1.Some?)
    && forall tag: Tag :: Holds(RawElements(w.files[path].root), tag) ==> Followable(w, w.files[path], tag)
  }

  lemma ExpandingIsSound(w: World, path: Path)
    requires Expand(w, path, {}).Some?
    ensures Sound(w, path)
  {
    hide RawElements, Holds, ExpandNode, ExpandEntities, Selection;
    var doc := w.files[path];
    var a: set<Path> := {} + {path};
    assert {} + {path} == a;
    var env := ExpandEntities(w, doc.entities, a).value;
    forall k | 0 <= k < |doc.entities| ensures doc.entities[k].1.Some? {
      DeclaredExpand(w, doc.entities, a, k);
    }
    forall tag: Tag | Holds(RawElements(doc.root), tag) ensures Followable(w, doc, tag) {
      if !tag.Element? {
        HeldIsReplaced(w, env, path, a, doc.root, tag);
        ReplacedIsFollowable(w, doc, env, a, tag);
      }
    }
  }

  lemma ReplacedIsFollowable(w: World, doc: Document, env: map<string, Tree>, a: set<Path>, tag: Tag)
    requires !tag.Element? && Replacement(w, env, a, tag).Some?
    requires ExpandEntities(w, doc.entities, a) == Some(env)
    ensures Followable(w, doc, tag)
  {
    hide Expand, Selection, ExpandEntities;
    match tag
    case Entity(name) => OnlyDeclared(w, doc.entities, a, name);
    case Include(_, target, _) => FewerAncestors(w, target.value, a, {});
  }

  /** A tree whose references are all replaced expands. */
  lemma {:induction false} UnblockedExpands(w: World, env: map<string, Tree>, path: Path, a: set<Path>, raw: Raw)
    requires !Blocked(w, env, a, RawElements(raw))
    ensures ExpandNode(w, env, path, a, raw).Some?
    decreases raw, 0
  {
    hide Replacement, Unreplaced;
    var raws := RawElements(raw);
    assert raws[0] == raw;
    forall i | 0 <= i < |raw.children|
      ensures !Blocked(w, env, a, RawElements(raw.children[i])) && !Unreplaced(w, env, a, raw.children[i])
    {
      assert !Unreplaced(w, env, a, raws[0].children[i]);
      if Blocked(w, env, a, RawElements(raw.children[i])) {
        BlockedBelow(w, env, a, raw, i);
      }
    }
    hide RawElements;
    UnblockedChildren(w, env, path, a, raw.children);
  }

  lemma {:induction false} BlockedBelow(w: World, env: map<string, Tree>, a: set<Path>, raw: Raw, c: nat)
    requires c < |raw.children| && Blocked(w, env, a, RawElements(raw.children[c]))
    ensures Blocked(w, env, a, RawElements(raw))
  {
    hide Unreplaced, RawElements;
    var raws := RawElements(raw.children[c]);
    var k, i :| 0 <= k < |raws| && 0 <= i < |raws[k].children| && Unreplaced(w, env, a, raws[k].children[i]);
    var m := ElementOfParent(raw, c, k);
    assert RawElements(raw)[m] == raws[k];
  }

  lemma ElementOfParent(raw: Raw, c: nat, k: nat) returns (m: nat)
    requires c < |raw.children| && k < |RawElements(raw.children[c])|
    ensures m < |RawElements(raw)| && RawElements(raw)[m] == RawElements(raw.children[c])[k]
  {
    m := ElementOfSibling(raw.children, c, k);
    m := m + 1;
  }

  lemma {:induction false} ElementOfSibling(raws: seq<Raw>, c: nat, k: nat) returns (m: nat)
    requires c < |raws| && k < |RawElements(raws[c])|
    ensures m < |RawElementsOf(raws)| && RawElementsOf(raws)[m] == RawElements(raws[c])[k]
  {
    hide RawElements;
    if c == 0 {
      m := k;
    } else {
      m := ElementOfSibling(raws[1..], c - 1, k);
      m := m + |RawElements(raws[0])|;
    }
  }

  lemma {:induction false} UnblockedChildren(w: World, env: map<string, Tree>, path: Path, a: set<Path>, raws: seq<Raw>)
    requires forall i :: 0 <= i < |raws| ==>
      !Blocked(w, env, a, RawElements(raws[i])) && !Unreplaced(w, env, a, raws[i])
    ensures ExpandChildren(w, env, path, a, raws).Some?
    decreases raws, 1
  {
    hide RawElements, Replacement, Blocked, ExpandNode;
    if raws != [] {
      UnblockedExpands(w, env, path, a, raws[0]);
      UnblockedChildren(w, env, path, a, raws[1..]);
    }
  }

  /** Every chain of references from `path` is simple, avoids `a` and ends in a sound document. */
  ghost predicate Clear(w: World, path: Path, a: set<Path>) {
    forall ws: seq<Path> :: IsWalk(w, ws) && ws[0] == path ==>
      Distinct(ws) && (forall i :: 0 <= i < |ws| ==> ws[i] !in a) && Sound(w, ws[|ws| - 1])
  }

  lemma ClearStep(w: World, path: Path, a: set<Path>, target: Path)
    requires Clear(w, path, a) && Refers(w, path, target)
    ensures Clear(w, target, a + {path})
  {
    hide Sound, Refers;
    forall ws: seq<Path> | IsWalk(w, ws) && ws[0] == target
      ensures Distinct(ws) && (forall i :: 0 <= i < |ws| ==> ws[i] !in a + {path}) && Sound(w, ws[|ws| - 1])
    {
      var vs := [path] + ws;
      assert IsWalk(w, vs);
      assert forall i :: 0 <= i < |ws| ==> ws[i] == vs[i + 1];
    }
  }

  lemma {:induction false} ClearExpands(w: World, path: Path, a: set<Path>)
    requires Clear(w, path, a)
    ensures Expand(w, path, a).Some?
    decreases |w.files.Keys - a|
  {
    hide Holds, RawElements, ExpandNode, ExpandEntities, Followable, Refers, Blocked;
    var ws := [path];
    assert IsWalk(w, ws) && path !in a && Sound(w, path);
    var doc, b := w.files[path], a + {path};
    Shrinks(w, path, a);
    forall target: Path | Refers(w, path, target) ensures Expand(w, target, b).Some? {
      ClearStep(w, path, a, target);
      ClearExpands(w, target, b);
    }
    EntitiesExpand(w, path, b);
    var env := ExpandEntities(w, doc.entities, b).value;
    ReferencesReplaced(w, path, b, env);
    UnblockedExpands(w, env, path, b, doc.root);
  }

  lemma EntitiesExpand(w: World, path: Path, b: set<Path>)
    requires Sound(w, path)
    requires forall target: Path :: Refers(w, path, target) ==> Expand(w, target, b).Some?
    ensures ExpandEntities(w, w.files[path].entities, b).Some?
  {
    var doc := w.files[path];
    hide Expand, RawElements, Holds, Includes;
    forall k | 0 <= k < |doc.entities| ensures doc.entities[k].1.Some? && Expand(w, doc.entities[k].1.value, b).Some? {
      assert Declares(doc, doc.entities[k].1.value);
      assert Refers(w, path, doc.entities[k].1.value);
    }
    DeclarationsExpand(w, doc.entities, b);
  }

  lemma {:induction false} DeclarationsExpand(w: World, decls: seq<(string, Option<Path>)>, b: set<Path>)
    requires forall k :: 0 <= k < |decls| ==> decls[k].1.Some? && Expand(w, decls[k].1.value, b).Some?
    ensures ExpandEntities(w, decls, b).Some?
    decreases |decls|
  {
    hide Expand;
    if decls != [] {
      DeclarationsExpand(w, decls[..|decls| - 1], b);
    }
  }

  lemma ReferencesReplaced(w: World, path: Path, b: set<Path>, env: map<string, Tree>)
    requires Sound(w, path) && ExpandEntities(w, w.files[path].entities, b) == Some(env)
    requires forall target: Path :: Refers(w, path, target) ==> Expand(w, target, b).Some?
    ensures !Blocked(w, env, b, RawElements(w.files[path].root))
  {
    var doc := w.files[path];
    var raws := RawElements(doc.root);
    hide Expand, RawElements, ExpandEntities, Selection, Declares;
    forall k, i | 0 <= k < |raws| && 0 <= i < |raws[k].children| ensures !Unreplaced(w, env, b, raws[k].children[i]) {
      var tag := raws[k].children[i].head.tag;
      assert Holds(raws, tag);
      match tag
      case Element(_) =>
      case Entity(name) =>
        var j :| 0 <= j < |doc.entities| && doc.entities[j].0 == name;
        DeclaredExpand(w, doc.entities, b, j);
      case Include(_, target, _) =>
        assert Includes(doc, target.value);
        assert Refers(w, path, target.value);
        FewerAncestors(w, target.value, b, {});
    }
  }

  /** A document expands exactly when no chain of references from it meets itself again
      and every document on such a chain is there with references that can be followed. */
  lemma {:induction false} ExpandsExactlyIfAcyclic(w: World, path: Path)
    ensures Expand(w, path, {}).Some? <==>
            forall ws: seq<Path> :: IsWalk(w, ws) && ws[0] == path ==> Distinct(ws) && Sound(w, ws[|ws| - 1])
  {
    if Expand(w, path, {}).Some? {
      forall ws: seq<Path> | IsWalk(w, ws) && ws[0] == path ensures Distinct(ws) && Sound(w, ws[|ws| - 1]) {
        ExpansionIsAcyclic(w, path, {}, ws);
        ChainExpands(w, path, {}, ws);
        ExpandingIsSound(w, ws[|ws| - 1]);
      }
    }
    if forall ws: seq<Path> :: IsWalk(w, ws) && ws[0] == path ==> Distinct(ws) && Sound(w, ws[|ws| - 1]) {
      assert Clear(w, path, {});
      ClearExpands(w, path, {});
    }
  }

  // ---------------------------------------------------------------------------
  // What an expansion contains

  /** An element of the result is written in the document it names. */
  ghost predicate Genuine(w: World, t: Tree) {
    t.origin in w.files && exists raw: Raw :: raw in RawElements(w.files[t.origin].root) && raw.head == t.head
  }

  ghost predicate AllGenuine(w: World, ts: seq<Tree>) { forall k :: 0 <= k < |ts| ==> Genuine(w, ts[k]) }

  ghost predicate EnvGenuine(w: World, env: map<string, Tree>) {
    forall name :: name in env ==> AllGenuine(w, Elements(env[name]))
  }

  /** The document contains the whole subtree. */
  ghost predicate Within(w: World, path: Path, raws: seq<Raw>) {
    path in w.files && forall raw :: raw in RawElementsOf(raws) ==> raw in RawElements(w.files[path].root)
  }

  /** An expansion holds only elements of documents, each with the one it is written in: no
      element is invented and none is marked with another document. */
  lemma {:induction false} ExpansionIsGenuine(w: World, path: Path, a: set<Path>)
    requires Expand(w, path, a).Some?
    ensures AllGenuine(w, Elements(Expand(w, path, a).value))
    decreases |w.files.Keys - a|, 0, 0
  {
    var doc, b := w.files[path], a + {path};
    Shrinks(w, path, a);
    EntitiesGenuine(w, doc.entities, b);
    var env := ExpandEntities(w, doc.entities, b).value;
    hide ExpandEntities, Genuine, ExpandNode;
    assert RawElements(doc.root) == [doc.root] + RawElementsOf(doc.root.children);
    NodeGenuine(w, env, path, b, doc.root);
  }

  lemma {:induction false} EntitiesGenuine(w: World, decls: seq<(string, Option<Path>)>, a: set<Path>)
    requires ExpandEntities(w, decls, a).Some?
    ensures EnvGenuine(w, ExpandEntities(w, decls, a).value)
    decreases |w.files.Keys - a|, 1, |decls|
  {
    hide Expand, AllGenuine;
    if decls != [] {
      EntitiesGenuine(w, decls[..|decls| - 1], a);
      ExpansionIsGenuine(w, decls[|decls| - 1].1.value, a);
    }
  }

  lemma {:induction false} NodeGenuine(w: World, env: map<string, Tree>, path: Path, a: set<Path>, raw: Raw)
    requires EnvGenuine(w, env) && ExpandNode(w, env, path, a, raw).Some?
    requires path in w.files && raw in RawElements(w.files[path].root) && Within(w, path, raw.children)
    ensures AllGenuine(w, Elements(ExpandNode(w, env, path, a, raw).value))
    decreases |w.files.Keys - a|, 2, raw, 0
  {
    ChildrenGenuine(w, env, path, a, raw.children);
    var t := ExpandNode(w, env, path, a, raw).value;
    hide ExpandChildren, RawElements, Within, EnvGenuine, ElementsOf;
    assert Genuine(w, t);
    assert Elements(t) == [t] + ElementsOf(t.children);
  }

  lemma {:induction false} ChildrenGenuine(w: World, env: map<string, Tree>, path: Path, a: set<Path>, raws: seq<Raw>)
    requires EnvGenuine(w, env) && ExpandChildren(w, env, path, a, raws).Some?
    requires Within(w, path, raws)
    ensures AllGenuine(w, ElementsOf(ExpandChildren(w, env, path, a, raws).value))
    decreases |w.files.Keys - a|, 2, raws, 1
  {
    if raws != [] {
      SpliceGenuine(w, env, path, a, raws);
      var rest := ExpandChildren(w, env, path, a, raws[1..]).value;
      WithinTail(w, path, raws);
      ChildrenGenuine(w, env, path, a, raws[1..]);
      hide Within, EnvGenuine, Splice, Genuine, ElementsOf;
      ElementsOfConcat(Splice(w, env, path, a, raws[0]).value, rest);
    } else {
      assert ElementsOf([]) == [];
    }
  }

  lemma WithinTail(w: World, path: Path, raws: seq<Raw>)
    requires Within(w, path, raws) && raws != []
    ensures Within(w, path, raws[1..])
    ensures raws[0] in RawElements(w.files[path].root) && Within(w, path, raws[0].children)
  {
    hide RawElements;
    var all := RawElementsOf(raws);
    assert all == RawElements(raws[0]) + RawElementsOf(raws[1..]);
    RawElementsSplit(raws[0]);
    assert forall raw :: raw in RawElementsOf(raws[1..]) ==> raw in all;
    assert forall raw :: raw in RawElements(raws[0]) ==> raw in all;
  }

  lemma RawElementsSplit(raw: Raw)
    ensures RawElements(raw) == [raw] + RawElementsOf(raw.children)
  {
  }

  lemma {:induction false} ElementsOfConcat(a: seq<Tree>, b: seq<Tree>)
    ensures ElementsOf(a + b) == ElementsOf(a) + ElementsOf(b)
  {
    hide Elements;
    if a == [] {
      assert a + b == b && ElementsOf([]) == [];
    } else {
      assert (a + b)[1..] == a[1..] + b;
      ElementsOfConcat(a[1..], b);
    }
  }

  lemma SpliceGenuine(w: World, env: map<string, Tree>, path: Path, a: set<Path>, raws: seq<Raw>)
    requires EnvGenuine(w, env) && raws != [] && Splice(w, env, path, a, raws[0]).Some?
    requires Within(w, path, raws)
    ensures AllGenuine(w, ElementsOf(Splice(w, env, path, a, raws[0]).value))
    decreases |w.files.Keys - a|, 2, raws, 0
  {
    var raw := raws[0];
    WithinTail(w, path, raws);
    if raw.head.tag.Element? {
      NodeGenuine(w, env, path, a, raw);
    } else {
      ReplacementGenuine(w, env, a, raw.head.tag);
    }
  }

  lemma ReplacementGenuine(w: World, env: map<string, Tree>, a: set<Path>, tag: Tag)
    requires EnvGenuine(w, env) && !tag.Element? && Replacement(w, env, a, tag).Some?
    ensures AllGenuine(w, ElementsOf(Replacement(w, env, a, tag).value))
    decreases |w.files.Keys - a|, 1, 0
  {
    hide Expand, Selection, Genuine;
    match tag
    case Entity(name) =>
    case Include(_, target, pointer) =>
      ExpansionIsGenuine(w, target.value, a);
      var t := Expand(w, target.value, a).value;
      var ks := Selection(w, pointer, t).value;
      PickedGenuine(w, t, Pick(Elements(t), ks));
  }

  /** The elements of a selected element are elements of the tree it is selected from. */
  lemma {:induction false} PickedGenuine(w: World, t: Tree, picked: seq<Tree>)
    requires AllGenuine(w, Elements(t)) && forall k :: 0 <= k < |picked| ==> picked[k] in Elements(t)
    ensures AllGenuine(w, ElementsOf(picked))
    decreases |picked|
  {
    hide Genuine, Elements;
    if picked == [] {
      assert ElementsOf([]) == [];
    } else {
      PickedGenuine(w, t, picked[1..]);
      ElementsNest(t, picked[0]);
      forall k | 0 <= k < |Elements(picked[0])| ensures Genuine(w, Elements(picked[0])[k]) {
        assert Elements(picked[0])[k] in Elements(t);
      }
      assert picked == [picked[0]] + picked[1..];
    }
  }

  lemma {:induction false} ElementsNest(t: Tree, u: Tree)
    requires u in Elements(t)
    ensures forall v :: v in Elements(u) ==> v in Elements(t)
    decreases t, 1
  {
    if u != t {
      ElementsNestBelow(t.children, u);
    }
  }

  lemma {:induction false} ElementsNestBelow(ts: seq<Tree>, u: Tree)
    requires u in ElementsOf(ts)
    ensures forall v :: v in Elements(u) ==> v in ElementsOf(ts)
    decreases ts, 0
  {
    if u in Elements(ts[0]) {
      ElementsNest(ts[0], u);
    } else {
      ElementsNestBelow(ts[1..], u);
    }
  }
}
