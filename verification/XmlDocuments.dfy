/** Documents that refer to other documents by external entities and by includes,
    and the tree each one expands to. The specification is a flat map of child lists;
    the documents above the one being expanded bound the recursion. */
module XmlDocuments {
  import opened Options

  type Path = string

  /** Which elements of an included document are taken. */
  datatype Pointer = Whole | ById(id: string) | Query(query: string)

  /** An ordinary element, the placeholder of a local entity or an include.  A target is
      absent when the reference is not local or leaves the repository. */
  datatype Tag =
    | Element(name: string)
    | Entity(entity: string)
    | Include(supported: bool, target: Option<Path>, pointer: Pointer)

  datatype Head = Head(tag: Tag, id: Option<string>)

  /** A parsed document element. */
  datatype Raw = Raw(head: Head, children: seq<Raw>)

  /** An expanded element, with the document it is written in. */
  datatype Tree = Tree(head: Head, origin: Path, children: seq<Tree>)

  datatype Document = Document(entities: seq<(string, Option<Path>)>, root: Raw)

  /** The files, and the result of evaluating a query as positions in document order. */
  datatype World = World(files: map<Path, Document>, find: (string, Tree) -> Option<seq<nat>>)

  /** The elements of a tree in document order. */
  function Elements(t: Tree): (r: seq<Tree>)
    ensures r != []
    decreases t, 0
  {
    [t] + ElementsOf(t.children)
  }

  function ElementsOf(ts: seq<Tree>): seq<Tree>
    decreases ts, 1
  {
    if ts == [] then [] else Elements(ts[0]) + ElementsOf(ts[1..])
  }

  /** The elements of a parsed document in document order. */
  function RawElements(raw: Raw): (r: seq<Raw>)
    ensures r != [] && r[0] == raw
    decreases raw, 0
  {
    [raw] + RawElementsOf(raw.children)
  }

  function RawElementsOf(raws: seq<Raw>): seq<Raw>
    decreases raws, 1
  {
    if raws == [] then [] else RawElements(raws[0]) + RawElementsOf(raws[1..])
  }

  /** The positions, from `k` on, of the elements with the given id. */
  function WithId(ts: seq<Tree>, id: string, k: nat): (r: seq<nat>)
    ensures forall i :: 0 <= i < |r| ==> k <= r[i] < k + |ts|
  {
    if ts == [] then []
    else (if ts[0].head.id == Some(id) then [k] else []) + WithId(ts[1..], id, k + 1)
  }

  /** The positions selected by a pointer; a pointer that selects nothing is an error. */
  function Selection(w: World, pointer: Pointer, t: Tree): (r: Option<seq<nat>>)
    ensures r.Some? ==> r.value != [] && forall i :: 0 <= i < |r.value| ==> r.value[i] < |Elements(t)|
  {
    match pointer
    case Whole => Some([0])
    case ById(id) =>
      var ks := WithId(Elements(t), id, 0);
      if ks == [] then None else Some(ks)
    case Query(q) =>
      match w.find(q, t)
      case None => None
      case Some(ks) =>
        if ks == [] || exists i :: 0 <= i < |ks| && ks[i] >= |Elements(t)| then None else Some(ks)
  }

  function Pick<T>(es: seq<T>, ks: seq<nat>): (r: seq<T>)
    requires forall i :: 0 <= i < |ks| ==> ks[i] < |es|
    ensures |r| == |ks| && forall i :: 0 <= i < |r| ==> r[i] == es[ks[i]]
  {
    seq(|ks|, i requires 0 <= i < |ks| => es[ks[i]])
  }

  /** Expanding a document that is reached through `ancestors`. */
  function Expand(w: World, path: Path, ancestors: set<Path>): Option<Tree>
    decreases |w.files.Keys - ancestors|, 0, 0
  {
    if path in ancestors || path !in w.files then None
    else
      Shrinks(w, path, ancestors);
      var doc := w.files[path];
      match ExpandEntities(w, doc.entities, ancestors + {path})
      case None => None
      case Some(env) => ExpandNode(w, env, path, ancestors + {path}, doc.root)
  }

  lemma Shrinks(w: World, path: Path, ancestors: set<Path>)
    requires path in w.files && path !in ancestors
    ensures |w.files.Keys - (ancestors + {path})| < |w.files.Keys - ancestors|
  {
    assert w.files.Keys - ancestors == (w.files.Keys - (ancestors + {path})) + {path};
  }

  /** Every external entity is expanded, used or not; the last declaration of a name wins. */
  function ExpandEntities(w: World, entities: seq<(string, Option<Path>)>,
                          ancestors: set<Path>): Option<map<string, Tree>>
    decreases |w.files.Keys - ancestors|, 1, |entities|
  {
    if entities == [] then Some(map[])
    else
      var last := entities[|entities| - 1];
      match ExpandEntities(w, entities[..|entities| - 1], ancestors)
      case None => None
      case Some(env) =>
        if last.1.None? then None
        else
          match Expand(w, last.1.value, ancestors)
          case None => None
          case Some(t) => Some(env[last.0 := t])
  }

  /** What stands in place of a placeholder or an include. */
  function Replacement(w: World, env: map<string, Tree>, ancestors: set<Path>, tag: Tag): Option<seq<Tree>>
    requires !tag.Element?
    decreases |w.files.Keys - ancestors|, 1, 0
  {
    match tag
    case Entity(name) => if name in env then Some([env[name]]) else None
    case Include(supported, target, pointer) =>
      if !supported || target.None? then None
      else
        match Expand(w, target.value, ancestors)
        case None => None
        case Some(t) =>
          match Selection(w, pointer, t)
          case None => None
          case Some(ks) => Some(Pick(Elements(t), ks))
  }

  /** The elements below a reference are processed too, although they are then detached. */
  function ExpandNode(w: World, env: map<string, Tree>, path: Path, ancestors: set<Path>, raw: Raw): Option<Tree>
    decreases |w.files.Keys - ancestors|, 2, raw, 0
  {
    match ExpandChildren(w, env, path, ancestors, raw.children)
    case None => None
    case Some(ts) => Some(Tree(raw.head, path, ts))
  }

  /** A reference is replaced by its elements, any other child by its own expansion. */
  function Splice(w: World, env: map<string, Tree>, path: Path, ancestors: set<Path>, raw: Raw): Option<seq<Tree>>
    decreases |w.files.Keys - ancestors|, 2, raw, 1
  {
    match ExpandNode(w, env, path, ancestors, raw)
    case None => None
    case Some(t) =>
      if raw.head.tag.Element? then Some([t]) else Replacement(w, env, ancestors, raw.head.tag)
  }

  /** The flat map of a child list through expansion. */
  function ExpandChildren(w: World, env: map<string, Tree>, path: Path, ancestors: set<Path>,
                          raws: seq<Raw>): Option<seq<Tree>>
    decreases |w.files.Keys - ancestors|, 2, raws, 2
  {
    if raws == [] then Some([])
    else
      match Splice(w, env, path, ancestors, raws[0])
      case None => None
      case Some(ts) =>
        match ExpandChildren(w, env, path, ancestors, raws[1..])
        case None => None
        case Some(rest) => Some(ts + rest)
  }

  predicate Unreplaced(w: World, env: map<string, Tree>, ancestors: set<Path>, raw: Raw) {
    !raw.head.tag.Element? && Replacement(w, env, ancestors, raw.head.tag).None?
  }
  /** Some child of some parsed element is a reference that cannot be replaced. */
  ghost predicate Blocked(w: World, env: map<string, Tree>, ancestors: set<Path>, raws: seq<Raw>) {
    exists k, i :: 0 <= k < |raws| && 0 <= i < |raws[k].children| && Unreplaced(w, env, ancestors, raws[k].children[i])
  }

  // ---------------------------------------------------------------------------
  // A blocked document does not expand

  lemma {:induction false} ChildFails(w: World, env: map<string, Tree>, path: Path, ancestors: set<Path>,
                                      raws: seq<Raw>, i: nat)
    requires i < |raws| && Splice(w, env, path, ancestors, raws[i]).None?
    ensures ExpandChildren(w, env, path, ancestors, raws).None?
    decreases |raws|
  {
    hide Splice;
    if i > 0 {
      ChildFails(w, env, path, ancestors, raws[1..], i - 1);
    }
  }

  lemma {:induction false} ElementsOfChild(raws: seq<Raw>, k: nat) returns (i: nat, j: nat)
    requires k < |RawElementsOf(raws)|
    ensures i < |raws| && j < |RawElements(raws[i])| && RawElementsOf(raws)[k] == RawElements(raws[i])[j]
    decreases |raws|
  {
    hide RawElements;
    var n := |RawElements(raws[0])|;
    if k < n {
      i, j := 0, k;
    } else {
      i, j := ElementsOfChild(raws[1..], k - n);
      i := i + 1;
    }
  }

  lemma {:induction false} FailureSpreads(w: World, env: map<string, Tree>, path: Path, ancestors: set<Path>, raw: Raw,
                                          k: nat)
    requires k < |RawElements(raw)| && ExpandNode(w, env, path, ancestors, RawElements(raw)[k]).None?
    ensures ExpandNode(w, env, path, ancestors, raw).None?
    decreases raw
  {
    if k > 0 {
      var i, j := ElementsOfChild(raw.children, k - 1);
      assert RawElements(raw)[k] == RawElementsOf(raw.children)[k - 1];
      FailureSpreads(w, env, path, ancestors, raw.children[i], j);
      ChildFails(w, env, path, ancestors, raw.children, i);
    }
  }

  lemma BlockedFails(w: World, env: map<string, Tree>, path: Path, ancestors: set<Path>, raw: Raw)
    requires Blocked(w, env, ancestors, RawElements(raw))
    ensures ExpandNode(w, env, path, ancestors, raw).None?
  {
    hide RawElements, Replacement;
    var raws := RawElements(raw);
    var k, i :| 0 <= k < |raws| && 0 <= i < |raws[k].children| && Unreplaced(w, env, ancestors, raws[k].children[i]);
    ChildFails(w, env, path, ancestors, raws[k].children, i);
    FailureSpreads(w, env, path, ancestors, raw, k);
  }
}
