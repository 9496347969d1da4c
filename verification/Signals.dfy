/** Pairing the documented signals of a C file with their registrations. */
module Signals {
  import opened Options
  import opened Surfaces
  import Lexer

  /** What the patterns find in the file, by offset.  `body` is the offset of the brace
      that opens the class initialiser. */
  datatype ClassInit = ClassInit(start: nat, body: nat, owner: string)

  datatype Block = Block(end: nat, owner: string, name: string)

  /** `standard` says that the function is g_signal_new itself; the name is absent when
      the first argument is not a literal. */
  datatype Registration = Registration(start: nat, standard: bool, name: Option<string>)

  datatype File = File(path: string, text: string, classes: seq<ClassInit>, blocks: seq<Block>,
                       registrations: seq<Registration>)

  /** Matches are found from left to right within the text. */
  ghost predicate Scanned(f: File) {
    && (forall i, j :: 0 <= i < j < |f.classes| ==> f.classes[i].start < f.classes[j].start)
    && (forall i, j :: 0 <= i < j < |f.blocks| ==> f.blocks[i].end < f.blocks[j].end)
    && (forall i, j :: 0 <= i < j < |f.registrations| ==> f.registrations[i].start < f.registrations[j].start)
    && (forall i :: 0 <= i < |f.registrations| ==> f.registrations[i].start <= |f.text|)
  }

  /** The last class initialiser that starts before the offset. */
  function Owner(classes: seq<ClassInit>, offset: nat): (r: Option<nat>)
    ensures r.Some? ==> r.value < |classes|
  {
    if classes == [] then None
    else if classes[|classes| - 1].start < offset then Some(|classes| - 1)
    else Owner(classes[..|classes| - 1], offset)
  }

  /** The last documented signal that ends at or before the offset. */
  function Nearest(blocks: seq<Block>, offset: nat): (r: Option<nat>)
    ensures r.Some? ==> r.value < |blocks| && blocks[r.value].end <= offset
    ensures forall k :: (if r.Some? then r.value + 1 else 0) <= k < |blocks| ==> offset < blocks[k].end
  {
    if blocks == [] then None
    else if blocks[|blocks| - 1].end <= offset then Some(|blocks| - 1)
    else Nearest(blocks[..|blocks| - 1], offset)
  }

  function Slice(s: string, i: nat, j: nat): string
    requires j <= |s|
  {
    if i <= j then s[i..j] else ""
  }

  /** The text without its string and character literals. */
  function StripLiterals(s: string): string
    decreases |s|
  {
    if s == "" then ""
    else match Lexer.LiteralLength(s)
         case Some(n) => StripLiterals(s[n..])
         case None => [s[0]] + StripLiterals(s[1..])
  }

  function CountChar(s: string, c: char): nat {
    if s == "" then 0 else (if s[0] == c then 1 else 0) + CountChar(s[1..], c)
  }

  /** More braces are open than closed between the class initialiser and the registration. */
  predicate Inside(f: File, k: nat, c: nat)
    requires k < |f.registrations| && c < |f.classes| && f.registrations[k].start <= |f.text|
  {
    Lexer.UncommentKeepsOffsets(f.text);
    var braces := StripLiterals(Slice(Lexer.Uncomment(f.text), f.classes[c].body, f.registrations[k].start));
    CountChar(braces, '{') > CountChar(braces, '}')
  }

  predicate SemicolonBetween(f: File, k: nat, b: nat)
    requires k < |f.registrations| && b < |f.blocks|
    requires f.blocks[b].end <= f.registrations[k].start <= |f.text|
  {
    ';' in Lexer.Uncomment(f.text[f.blocks[b].end..f.registrations[k].start])
  }

  /** The registration has a literal name and stands inside a class initialiser. */
  predicate Placed(f: File, k: nat)
    requires k < |f.registrations| && f.registrations[k].start <= |f.text|
  {
    var r := f.registrations[k];
    r.standard && r.name.Some? && Owner(f.classes, r.start).Some? && Inside(f, k, Owner(f.classes, r.start).value)
  }

  function OwnerName(f: File, k: nat): string
    requires k < |f.registrations|
  {
    match Owner(f.classes, f.registrations[k].start) case Some(c) => f.classes[c].owner case None => ""
  }

  predicate IsPublic(f: File, public: set<string>, k: nat)
    requires k < |f.registrations|
  {
    Owner(f.classes, f.registrations[k].start).Some? && OwnerName(f, k) in public
  }

  function Partner(f: File, k: nat): (r: Option<nat>)
    requires k < |f.registrations|
    ensures r.Some? ==> r.value < |f.blocks|
  {
    Nearest(f.blocks, f.registrations[k].start)
  }

  /** The nearest documentation block is for this signal, with no statement in between. */
  predicate Matches(f: File, k: nat)
    requires k < |f.registrations| && f.registrations[k].start <= |f.text|
  {
    && Partner(f, k).Some?
    && var b := Partner(f, k).value;
       && Some(f.blocks[b].name) == f.registrations[k].name && f.blocks[b].owner == OwnerName(f, k)
       && !SemicolonBetween(f, k, b)
  }

  function SignalId(owner: string, name: string): string { "library.signal." + owner + "." + name }

  function IdOf(f: File, k: nat): string
    requires k < |f.registrations|
  {
    SignalId(OwnerName(f, k), match f.registrations[k].name case Some(n) => n case None => "")
  }

  function ItemOf(f: File, k: nat): Surface
    requires k < |f.registrations|
  {
    var name := match f.registrations[k].name case Some(n) => n case None => "";
    Surface(LibrarySignal, name, OwnerName(f, k),
            [Source(f.path, SignalBlock(OwnerName(f, k), name)), Source(f.path, SignalRegistration(name))], [], [])
  }

  // ---------------------------------------------------------------------------
  // The outcome for the first `k` registrations

  /** One public registration may be accepted after the ones before it. */
  ghost predicate Accepted(f: File, public: set<string>, before: map<string, Surface>, k: nat)
    requires k < |f.registrations| && Scanned(f)
  {
    && Placed(f, k)
    && (IsPublic(f, public, k) ==>
          && Matches(f, k) && IdOf(f, k) !in before
          && forall j :: 0 <= j < k && IsPublic(f, public, j) ==>
               Partner(f, j) != Partner(f, k) && IdOf(f, j) != IdOf(f, k))
  }

  function Registered(f: File, public: set<string>, before: map<string, Surface>, k: nat): map<string, Surface>
    requires k <= |f.registrations|
  {
    if k == 0 then before
    else
      var s := Registered(f, public, before, k - 1);
      if IsPublic(f, public, k - 1) then s[IdOf(f, k - 1) := ItemOf(f, k - 1)] else s
  }

  function Excluded(f: File, public: set<string>, before: set<Exclusion>, k: nat): set<Exclusion>
    requires k <= |f.registrations|
  {
    if k == 0 then before
    else
      var s := Excluded(f, public, before, k - 1);
      if IsPublic(f, public, k - 1) then s
      else
        var name := match f.registrations[k - 1].name case Some(n) => n case None => "";
        s + {PrivateSignal(OwnerName(f, k - 1), name, f.path)}
  }

  /** A documented public signal has a registration. */
  ghost predicate Claimed(f: File, public: set<string>, b: nat)
    requires b < |f.blocks|
  {
    exists k :: 0 <= k < |f.registrations| && IsPublic(f, public, k) && Partner(f, k) == Some(b)
  }

  /** Exactly when the pass completes. */
  ghost predicate Pairable(f: File, public: set<string>, before: map<string, Surface>)
    requires Scanned(f)
  {
    && (forall k :: 0 <= k < |f.registrations| ==> Accepted(f, public, before, k))
    && (forall b :: 0 <= b < |f.blocks| && f.blocks[b].owner in public ==> Claimed(f, public, b))
  }

  lemma {:induction false} RegisteredKeys(f: File, public: set<string>, before: map<string, Surface>, k: nat,
                                          id: string)
    requires k <= |f.registrations|
    ensures id in Registered(f, public, before, k) <==>
            id in before || exists j :: 0 <= j < k && IsPublic(f, public, j) && IdOf(f, j) == id
  {
    hide IsPublic, IdOf, ItemOf;
    if k > 0 {
      RegisteredKeys(f, public, before, k - 1, id);
    }
  }

  /** When the pass completes, the public registrations and the documented public signals
      are in an order-preserving bijection that agrees on owner and name. */
  lemma {:induction false} PairingIsBijection(f: File, public: set<string>, before: map<string, Surface>)
    requires Scanned(f) && Pairable(f, public, before)
    ensures forall k :: 0 <= k < |f.registrations| && IsPublic(f, public, k) ==>
      && Partner(f, k).Some?
      && var b := f.blocks[Partner(f, k).value];
         b.owner == OwnerName(f, k) && b.owner in public && Some(b.name) == f.registrations[k].name
    ensures forall j, k :: 0 <= j < k < |f.registrations| && IsPublic(f, public, j) && IsPublic(f, public, k) ==>
      Partner(f, j).value < Partner(f, k).value
    ensures forall b :: 0 <= b < |f.blocks| && f.blocks[b].owner in public ==>
      exists k :: 0 <= k < |f.registrations| && IsPublic(f, public, k) && Partner(f, k) == Some(b)
  {
    hide Inside, SemicolonBetween, Owner, Nearest, IdOf;
    forall k | 0 <= k < |f.registrations| && IsPublic(f, public, k)
      ensures Matches(f, k)
    {
      assert Accepted(f, public, before, k);
    }
    forall j, k | 0 <= j < k < |f.registrations| && IsPublic(f, public, j) && IsPublic(f, public, k)
      ensures Partner(f, j).value < Partner(f, k).value
    {
      assert Accepted(f, public, before, k);
    }
    forall b | 0 <= b < |f.blocks| && f.blocks[b].owner in public
      ensures exists k :: 0 <= k < |f.registrations| && IsPublic(f, public, k) && Partner(f, k) == Some(b)
    {
      assert Claimed(f, public, b);
    }
  }

  /** The identifiers of a completed pass are new and distinct, so every public
      registration has an entry of its own. */
  lemma {:induction false} EachSignalIsListed(f: File, public: set<string>, before: map<string, Surface>, n: nat,
                                              k: nat)
    requires Scanned(f) && Pairable(f, public, before) && k < n <= |f.registrations| && IsPublic(f, public, k)
    ensures IdOf(f, k) !in before && IdOf(f, k) in Registered(f, public, before, n)
    ensures Registered(f, public, before, n)[IdOf(f, k)] == ItemOf(f, k)
    ensures forall id :: id in before ==>
              id in Registered(f, public, before, n) && Registered(f, public, before, n)[id] == before[id]
  {
    hide Placed, Matches, IdOf, ItemOf, IsPublic, Partner, Owner, Nearest;
    assert Accepted(f, public, before, k);
    if k + 1 < n {
      EachSignalIsListed(f, public, before, n - 1, k);
      assert Accepted(f, public, before, n - 1);
    } else {
      OldEntriesStay(f, public, before, k);
    }
  }

  lemma {:induction false} OldEntriesStay(f: File, public: set<string>, before: map<string, Surface>, n: nat)
    requires Scanned(f) && Pairable(f, public, before) && n <= |f.registrations|
    ensures forall id :: id in before ==>
              id in Registered(f, public, before, n) && Registered(f, public, before, n)[id] == before[id]
  {
    hide Placed, Matches, IdOf, ItemOf, IsPublic, Partner, Owner, Nearest;
    if n > 0 {
      OldEntriesStay(f, public, before, n - 1);
      assert Accepted(f, public, before, n - 1);
    }
  }
}
