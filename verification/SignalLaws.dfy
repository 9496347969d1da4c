/** The pairing of signals, by the offsets of what the patterns find and by the text between them. */
module SignalLaws {
  import opened Options
  import opened Lexer
  import opened Surfaces
  import opened Signals
  import opened WrittenText

  // ---------------------------------------------------------------------------
  // Offsets

  /** The class initialiser is the last one to begin before the registration. */
  ghost predicate Initialises(f: File, k: nat, c: nat)
    requires k < |f.registrations|
  {
    && c < |f.classes| && f.classes[c].start < f.registrations[k].start
    && forall d :: c < d < |f.classes| ==> f.registrations[k].start <= f.classes[d].start
  }

  /** The documented signal is the last one to end before the registration. */
  ghost predicate Documents(f: File, k: nat, b: nat)
    requires k < |f.registrations|
  {
    && b < |f.blocks| && f.blocks[b].end <= f.registrations[k].start
    && forall d :: b < d < |f.blocks| ==> f.registrations[k].start < f.blocks[d].end
  }

  lemma {:induction false} OwnerIsLast(classes: seq<ClassInit>, offset: nat)
    ensures match Owner(classes, offset)
            case None => forall d :: 0 <= d < |classes| ==> offset <= classes[d].start
            case Some(c) => classes[c].start < offset && forall d :: c < d < |classes| ==> offset <= classes[d].start
  {
    if classes != [] && classes[|classes| - 1].start >= offset {
      OwnerIsLast(classes[..|classes| - 1], offset);
    }
  }

  lemma OwnerInitialises(f: File, k: nat, c: nat)
    requires k < |f.registrations|
    ensures Initialises(f, k, c) <==> Owner(f.classes, f.registrations[k].start) == Some(c)
  {
    OwnerIsLast(f.classes, f.registrations[k].start);
    hide Owner;
  }

  lemma PartnerDocuments(f: File, k: nat, b: nat)
    requires k < |f.registrations|
    ensures Documents(f, k, b) <==> Partner(f, k) == Some(b)
  {
  }

  /** The registration belongs to a public class, by its initialiser. */
  ghost predicate PublicIn(f: File, public: set<string>, k: nat, c: nat)
    requires k < |f.registrations|
  {
    Initialises(f, k, c) && f.classes[c].owner in public
  }

  lemma PublicByOffset(f: File, public: set<string>, k: nat)
    requires k < |f.registrations|
    ensures IsPublic(f, public, k) <==> exists c: nat :: PublicIn(f, public, k, c)
    ensures forall c: nat :: Initialises(f, k, c) ==> OwnerName(f, k) == f.classes[c].owner
  {
    forall c: nat ensures Initialises(f, k, c) <==> Owner(f.classes, f.registrations[k].start) == Some(c) {
      OwnerInitialises(f, k, c);
    }
    hide Initialises;
    if IsPublic(f, public, k) {
      assert PublicIn(f, public, k, Owner(f.classes, f.registrations[k].start).value);
    }
  }

  function NameOf(f: File, k: nat): string
    requires k < |f.registrations|
  {
    match f.registrations[k].name case Some(n) => n case None => ""
  }

  function IdIn(f: File, k: nat, c: nat): string
    requires k < |f.registrations| && c < |f.classes|
  {
    "library.signal." + f.classes[c].owner + "." + NameOf(f, k)
  }

  /** The documented signal is the one registered, and nothing else has used it or its identifier. */
  ghost predicate Fits(f: File, public: set<string>, before: map<string, Surface>, k: nat, c: nat, b: nat)
    requires Scanned(f) && k < |f.registrations| && c < |f.classes|
  {
    && Documents(f, k, b) && f.blocks[b].owner == f.classes[c].owner
    && Some(f.blocks[b].name) == f.registrations[k].name && !SemicolonBetween(f, k, b)
    && IdIn(f, k, c) !in before
    && forall j: nat :: j < k ==> Unlike(f, public, j, b, IdIn(f, k, c))
  }

  /** If the registration is public, it uses another documented signal and another identifier. */
  ghost predicate Unlike(f: File, public: set<string>, j: nat, b: nat, id: string)
    requires j < |f.registrations|
  {
    forall d: nat :: PublicIn(f, public, j, d) ==> !Documents(f, j, b) && IdIn(f, j, d) != id
  }

  /** A registration by the function itself, of a literal name, inside a class initialiser; if the
      class is public, its signal is documented before it. */
  ghost predicate Sound(f: File, public: set<string>, before: map<string, Surface>, k: nat)
    requires Scanned(f) && k < |f.registrations|
  {
    && f.registrations[k].standard && f.registrations[k].name.Some?
    && (exists c: nat :: Initialises(f, k, c) && Inside(f, k, c))
    && forall c: nat :: PublicIn(f, public, k, c) ==> exists b: nat :: Fits(f, public, before, k, c, b)
  }

  lemma IdByOffset(f: File, public: set<string>, k: nat, c: nat)
    requires k < |f.registrations| && PublicIn(f, public, k, c)
    ensures IsPublic(f, public, k) && OwnerName(f, k) == f.classes[c].owner && IdOf(f, k) == IdIn(f, k, c)
  {
    PublicByOffset(f, public, k);
    hide Initialises, Owner;
  }

  lemma UnlikeByOffset(f: File, public: set<string>, j: nat, b: nat, id: string)
    requires j < |f.registrations|
    ensures Unlike(f, public, j, b, id) <==>
              (IsPublic(f, public, j) ==> Partner(f, j) != Some(b) && IdOf(f, j) != id)
  {
    PublicByOffset(f, public, j);
    PartnerDocuments(f, j, b);
    hide IsPublic, Documents, Partner, IdOf, IdIn, PublicIn;
    if IsPublic(f, public, j) {
      var d: nat :| PublicIn(f, public, j, d);
      IdByOffset(f, public, j, d);
    }
    forall d: nat | PublicIn(f, public, j, d) ensures IsPublic(f, public, j) && IdOf(f, j) == IdIn(f, j, d) {
      IdByOffset(f, public, j, d);
    }
  }

  /** What acceptance asks of a public registration. */
  ghost predicate Matched(f: File, public: set<string>, before: map<string, Surface>, k: nat)
    requires Scanned(f) && k < |f.registrations|
  {
    && Matches(f, k) && IdOf(f, k) !in before
    && forall j: nat :: j < k && IsPublic(f, public, j) ==>
         Partner(f, j) != Partner(f, k) && IdOf(f, j) != IdOf(f, k)
  }

  lemma PartnerFits(f: File, public: set<string>, before: map<string, Surface>, k: nat, c: nat, b: nat)
    requires Scanned(f) && k < |f.registrations| && PublicIn(f, public, k, c) && Documents(f, k, b)
    ensures Fits(f, public, before, k, c, b) <==> Matched(f, public, before, k)
  {
    IdByOffset(f, public, k, c);
    PartnerDocuments(f, k, b);
    forall j: nat | j < k
      ensures Unlike(f, public, j, b, IdIn(f, k, c)) <==>
                (IsPublic(f, public, j) ==> Partner(f, j) != Some(b) && IdOf(f, j) != IdIn(f, k, c))
    {
      UnlikeByOffset(f, public, j, b, IdIn(f, k, c));
    }
    hide Documents, Partner, IsPublic, OwnerName, SemicolonBetween, IdOf, IdIn, Unlike, PublicIn;
  }

  lemma {:induction false} FitsIfMatched(f: File, public: set<string>, before: map<string, Surface>, k: nat, c: nat)
    requires Scanned(f) && k < |f.registrations| && PublicIn(f, public, k, c)
    ensures (exists b: nat :: Fits(f, public, before, k, c, b)) <==> Matched(f, public, before, k)
  {
    if Matched(f, public, before, k) {
      var b: nat := Partner(f, k).value;
      PartnerDocuments(f, k, b);
      PartnerFits(f, public, before, k, c, b);
    }
    if b: nat :| Fits(f, public, before, k, c, b) {
      PartnerFits(f, public, before, k, c, b);
    }
  }

  lemma AcceptedIfSound(f: File, public: set<string>, before: map<string, Surface>, k: nat)
    requires Scanned(f) && k < |f.registrations|
    ensures Accepted(f, public, before, k) <==> Sound(f, public, before, k)
  {
    PublicByOffset(f, public, k);
    forall c: nat ensures Initialises(f, k, c) <==> Owner(f.classes, f.registrations[k].start) == Some(c) {
      OwnerInitialises(f, k, c);
    }
    forall c: nat | PublicIn(f, public, k, c)
      ensures (exists b: nat :: Fits(f, public, before, k, c, b)) <==> Matched(f, public, before, k)
    {
      FitsIfMatched(f, public, before, k, c);
    }
    hide Initialises, Owner, Fits, Matches, Partner, IsPublic, Inside, IdOf;
    if Accepted(f, public, before, k) {
      assert Initialises(f, k, Owner(f.classes, f.registrations[k].start).value);
    }
  }

  /** The pass completes exactly if every registration is sound and every documented signal of a
      public class is registered behind it. */
  lemma {:induction false} CompletesByOffsets(f: File, public: set<string>, before: map<string, Surface>)
    requires Scanned(f)
    ensures Pairable(f, public, before) <==>
              && (forall k: nat :: k < |f.registrations| ==> Sound(f, public, before, k))
              && forall b: nat :: b < |f.blocks| && f.blocks[b].owner in public ==>
                   exists k: nat, c: nat :: Registers(f, public, k, c, b)
  {
    forall k: nat | k < |f.registrations|
      ensures Accepted(f, public, before, k) <==> Sound(f, public, before, k)
    {
      AcceptedIfSound(f, public, before, k);
    }
    forall b: nat | b < |f.blocks|
      ensures Claimed(f, public, b) <==> exists k: nat, c: nat :: Registers(f, public, k, c, b)
    {
      ClaimedIfRegistered(f, public, b);
    }
    hide Accepted, Sound, Claimed, Registers;
  }

  ghost predicate Registers(f: File, public: set<string>, k: nat, c: nat, b: nat) {
    k < |f.registrations| && PublicIn(f, public, k, c) && Documents(f, k, b)
  }

  lemma ClaimedIfRegistered(f: File, public: set<string>, b: nat)
    requires b < |f.blocks|
    ensures Claimed(f, public, b) <==> exists k: nat, c: nat :: Registers(f, public, k, c, b)
  {
    forall k: nat | k < |f.registrations|
      ensures IsPublic(f, public, k) <==> exists c: nat :: PublicIn(f, public, k, c)
      ensures Documents(f, k, b) <==> Partner(f, k) == Some(b)
    {
      PublicByOffset(f, public, k);
      PartnerDocuments(f, k, b);
    }
    hide PublicIn, Documents, Partner, IsPublic;
    if Claimed(f, public, b) {
      var k: nat :| k < |f.registrations| && IsPublic(f, public, k) && Partner(f, k) == Some(b);
      var c: nat :| PublicIn(f, public, k, c);
      assert Registers(f, public, k, c, b);
    }
    if k: nat, c: nat :| Registers(f, public, k, c, b) {
      assert IsPublic(f, public, k) && Partner(f, k) == Some(b);
    }
  }

  // ---------------------------------------------------------------------------
  // What a completed pass lists and excludes

  /** The entry of a public registration. */
  lemma {:induction false} SignalEntry(f: File, public: set<string>, before: map<string, Surface>, k: nat, c: nat)
    requires Scanned(f) && Pairable(f, public, before) && k < |f.registrations| && PublicIn(f, public, k, c)
    ensures var after := Registered(f, public, before, |f.registrations|);
            && IdIn(f, k, c) in after
            && var s := after[IdIn(f, k, c)];
               && s.kind == LibrarySignal && Some(s.name) == f.registrations[k].name && s.scope == f.classes[c].owner
               && s.aliases == [] && s.documentedWith == []
               && s.sources == [Source(f.path, SignalBlock(f.classes[c].owner, NameOf(f, k))),
                                Source(f.path, SignalRegistration(NameOf(f, k)))]
  {
    PublicByOffset(f, public, k);
    EachSignalIsListed(f, public, before, |f.registrations|, k);
    assert Accepted(f, public, before, k);
    hide Owner, Registered, Pairable;
  }

  /** Private registrations, and nothing else, are added to the exclusions. */
  lemma {:induction false} PrivateSignalsAreExcluded(f: File, public: set<string>, before: set<Exclusion>, n: nat,
                                                     x: Exclusion)
    requires n <= |f.registrations|
    ensures x in Excluded(f, public, before, n) <==>
              x in before || exists k: nat :: k < n && IsPrivate(f, public, k, x)
  {
    hide IsPrivate;
    if n > 0 {
      PrivateSignalsAreExcluded(f, public, before, n - 1, x);
      PrivateByOffset(f, public, n - 1, x);
    }
  }

  /** The exclusion names a registration, with its class if it has one, that is of no public class. */
  ghost predicate IsPrivate(f: File, public: set<string>, k: nat, x: Exclusion)
    requires k < |f.registrations|
  {
    && (forall c: nat :: !PublicIn(f, public, k, c))
    && x.PrivateSignal? && x.name == NameOf(f, k) && x.path == f.path
    && (forall c: nat :: Initialises(f, k, c) ==> x.owner == f.classes[c].owner)
    && ((forall c: nat :: !Initialises(f, k, c)) ==> x.owner == "")
  }

  lemma PrivateByOffset(f: File, public: set<string>, k: nat, x: Exclusion)
    requires k < |f.registrations|
    ensures IsPrivate(f, public, k, x) <==>
              !IsPublic(f, public, k) && x == PrivateSignal(OwnerName(f, k), NameOf(f, k), f.path)
  {
    PublicByOffset(f, public, k);
    forall c: nat ensures Initialises(f, k, c) <==> Owner(f.classes, f.registrations[k].start) == Some(c) {
      OwnerInitialises(f, k, c);
    }
    hide Initialises, Owner;
    if Owner(f.classes, f.registrations[k].start).Some? {
      assert Initialises(f, k, Owner(f.classes, f.registrations[k].start).value);
    }
  }

  // ---------------------------------------------------------------------------
  // The text between

  /** The number of places where the character stands in code, not in a literal. */
  function InCode(ps: seq<Piece>, c: char): nat {
    if ps == [] then 0 else (if ps[0] == Code(c) then 1 else 0) + InCode(ps[1..], c)
  }

  predicate WithoutComments(ps: seq<Piece>) {
    forall i :: 0 <= i < |ps| ==> PieceOk(ps[i]) && (ps[i].Code? || ps[i].Quoted?)
  }

  lemma CodeCounts(d: char, rest: string, c: char)
    requires d != '"' && d != '\''
    ensures CountChar(StripLiterals([d] + rest), c) == (if d == c then 1 else 0) + CountChar(StripLiterals(rest), c)
  {
    var s := [d] + rest;
    assert s[1..] == rest && LiteralLength(s) == None;
    assert ([d] + StripLiterals(rest))[1..] == StripLiterals(rest);
  }

  lemma QuotedIsStripped(mark: char, glyphs: seq<Glyph>, rest: string)
    requires PieceOk(Quoted(mark, glyphs))
    ensures StripLiterals(Write(Quoted(mark, glyphs)) + rest) == StripLiterals(rest)
  {
    var t := Write(Quoted(mark, glyphs));
    var s := t + rest;
    BodyCloses(glyphs, mark, rest);
    assert s[0] == mark && s[1..] == WriteBody(glyphs) + [mark] + rest;
    assert LiteralLength(s) == Some(|t|) && s[|t|..] == rest;
  }

  lemma {:induction false} CharactersInCode(ps: seq<Piece>, c: char)
    requires WithoutComments(ps)
    ensures CountChar(StripLiterals(WriteAll(ps)), c) == InCode(ps, c)
  {
    hide StripLiterals, CountChar, PieceOk;
    if ps == [] {
      NothingCounted(c);
    } else {
      CharactersInCode(ps[1..], c);
      match ps[0]
      case Code(d) =>
        CodeIsNoQuote(d);
        CodeCounts(d, WriteAll(ps[1..]), c);
      case Quoted(mark, glyphs) => QuotedIsStripped(mark, glyphs, WriteAll(ps[1..]));
    }
  }

  lemma CodeIsNoQuote(d: char)
    requires PieceOk(Code(d))
    ensures d != '"' && d != '\''
  {
  }

  lemma NothingCounted(c: char)
    ensures CountChar(StripLiterals(""), c) == 0
  {
  }

  /** A registration is inside its class initialiser exactly if the code from the opening brace on,
      without comments and literals, opens more braces than it closes. */
  lemma {:induction false} InsideByBraces(f: File, k: nat, c: nat, ps: seq<Piece>)
    requires k < |f.registrations| && c < |f.classes| && f.classes[c].body <= f.registrations[k].start <= |f.text|
    requires |Uncomment(f.text)| == |f.text| && WithoutComments(ps)
    requires Uncomment(f.text)[f.classes[c].body..f.registrations[k].start] == WriteAll(ps)
    ensures Inside(f, k, c) <==> InCode(ps, '{') > InCode(ps, '}')
  {
    CharactersInCode(ps, '{');
    CharactersInCode(ps, '}');
  }

  lemma {:induction false} LeftOver(ps: seq<Piece>, c: char)
    requires c != ' ' && c != '\n'
    ensures c in LeftOfAll(ps) <==>
              exists i :: 0 <= i < |ps| && (ps[i].Code? || ps[i].Quoted?) && c in Write(ps[i])
  {
    hide Write;
    if ps != [] {
      LeftOver(ps[1..], c);
      NoneInSpaces(Write(ps[0]), c);
      assert forall i :: 0 <= i < |ps[1..]| ==> ps[1..][i] == ps[i + 1];
      if i :| 0 <= i < |ps| && (ps[i].Code? || ps[i].Quoted?) && c in Write(ps[i]) {
        assert i > 0 ==> ps[1..][i - 1] == ps[i];
      }
    }
  }

  lemma {:induction false} NoneInSpaces(s: string, c: char)
    requires c != ' ' && c != '\n'
    ensures c !in Spaces(s)
  {
    if s != "" {
      NoneInSpaces(s[1..], c);
    }
  }

  /** A statement stands between documentation and registration exactly if there is a semicolon
      outside the comments. */
  lemma {:induction false} SemicolonByPieces(f: File, k: nat, b: nat, ps: seq<Piece>)
    requires k < |f.registrations| && b < |f.blocks| && f.blocks[b].end <= f.registrations[k].start <= |f.text|
    requires f.text[f.blocks[b].end..f.registrations[k].start] == WriteAll(ps)
    requires (forall i :: 0 <= i < |ps| ==> PieceOk(ps[i])) && Apart(ps)
    ensures SemicolonBetween(f, k, b) <==>
              exists i :: 0 <= i < |ps| && (ps[i].Code? || ps[i].Quoted?) && ';' in Write(ps[i])
  {
    CommentsBecomeSpaces(ps);
    LeftOver(ps, ';');
  }
}
