/** Publishing interleaved with readers, one dictionary access at a time. */
module RegistryRuns {
  import opened Options
  import opened Registry

  /** An image that is being published, with the digests still to be stored. */
  datatype Publisher = Idle | Storing(name: string, image: Published, rest: set<string>) | Counting

  datatype Request = Index | Manifest(name: string, digest: string) | Blob(name: string, digest: string)

  /** A reader between two accesses: it has seen a name listed, holds an image, or has
      seen a digest stored.  Crashed is a missing key. */
  datatype Reader =
    | SawName(name: string, digest: string)
    | Holds(image: Published, digest: string)
    | SawBlob(name: string, digest: string)
    | Answered(reply: Reply)
    | Crashed

  datatype World = World(images: map<string, Published>, blobs: map<string, Blobs>, serial: nat,
                         publisher: Publisher, readers: map<nat, Reader>)

  datatype Step =
    | Begin(name: string, image: Published)
    | StoreBlob(digest: string)
    | ListImage
    | Count
    | Ask(reader: nat, request: Request)
    | Fetch(reader: nat)

  predicate ImageOk(hex: Bytes -> string, p: Published) {
    p.digest in p.blobs && Addressed(hex, p.blobs)
  }

  function Asked(w: World, request: Request): Reader {
    match request
    case Index => Answered(ListingOf(w.images))
    case Manifest(name, digest) => if name in w.images then SawName(name, digest) else Answered(Missing)
    case Blob(name, digest) =>
      if name in w.blobs && digest in w.blobs[name] then SawBlob(name, digest) else Answered(Missing)
  }

  function Fetched(w: World, r: Reader): Reader {
    match r
    case SawName(name, digest) => if name in w.images then Holds(w.images[name], digest) else Crashed
    case Holds(p, digest) =>
      if digest != "latest" && digest != p.digest then Answered(Missing)
      else if p.digest in p.blobs then Answered(Data(p.blobs[p.digest], p.record.mediaType))
      else Crashed
    case SawBlob(name, digest) =>
      if name in w.blobs && digest in w.blobs[name] then
        Answered(Data(w.blobs[name][digest], "application/octet-stream"))
      else Crashed
    case _ => r
  }

  /** The publisher's writes in the order of the program; readers at any time. */
  function Apply(hex: Bytes -> string, w: World, step: Step): Option<World> {
    match step
    case Begin(name, image) =>
      if w.publisher.Idle? && ImageOk(hex, image) then
        Some(w.(blobs := if name in w.blobs then w.blobs else w.blobs[name := map[]],
                publisher := Storing(name, image, image.blobs.Keys)))
      else None
    case StoreBlob(d) =>
      (match w.publisher
       case Storing(name, image, rest) =>
         if d in rest && d in image.blobs && name in w.blobs then
           Some(w.(blobs := w.blobs[name := w.blobs[name][d := image.blobs[d]]],
                   publisher := Storing(name, image, rest - {d})))
         else None
       case _ => None)
    case ListImage =>
      (match w.publisher
       case Storing(name, image, rest) =>
         if rest == {} then Some(w.(images := w.images[name := image], publisher := Counting)) else None
       case _ => None)
    case Count => if w.publisher.Counting? then Some(w.(serial := w.serial + 1, publisher := Idle)) else None
    case Ask(r, request) => Some(w.(readers := w.readers[r := Asked(w, request)]))
    case Fetch(r) => if r in w.readers then Some(w.(readers := w.readers[r := Fetched(w, w.readers[r])])) else None
  }

  function Run(hex: Bytes -> string, w: World, steps: seq<Step>): Option<World>
    decreases |steps|
  {
    if steps == [] then Some(w)
    else match Apply(hex, w, steps[0])
         case None => None
         case Some(v) => Run(hex, v, steps[1..])
  }

  // ---------------------------------------------------------------------------
  // What every step keeps

  predicate ReaderOk(hex: Bytes -> string, w: World, r: Reader) {
    match r
    case SawName(name, _) => name in w.images
    case Holds(p, _) => ImageOk(hex, p)
    case SawBlob(name, digest) => name in w.blobs && digest in w.blobs[name]
    case Answered(_) => true
    case Crashed => false
  }

  /** The blobs of every listed image are servable, everything servable is stored under
      its digest, and no reader meets a missing key. */
  ghost predicate Safe(hex: Bytes -> string, w: World) {
    && (forall n :: n in w.images ==>
         ImageOk(hex, w.images[n]) && n in w.blobs && w.images[n].blobs.Keys <= w.blobs[n].Keys)
    && (forall n :: n in w.blobs ==> Addressed(hex, w.blobs[n]))
    && (w.publisher.Storing? ==>
          var p := w.publisher;
          && p.name in w.blobs && ImageOk(hex, p.image) && p.rest <= p.image.blobs.Keys
          && p.image.blobs.Keys - p.rest <= w.blobs[p.name].Keys)
    && (forall r :: r in w.readers ==> ReaderOk(hex, w, w.readers[r]))
  }

  /** Names and digests never go away. */
  ghost predicate Keeps(w: World, v: World) {
    && w.images.Keys <= v.images.Keys && w.blobs.Keys <= v.blobs.Keys
    && forall n :: n in w.blobs ==> w.blobs[n].Keys <= v.blobs[n].Keys
  }

  lemma StepKeeps(hex: Bytes -> string, w: World, step: Step)
    requires Apply(hex, w, step).Some?
    ensures Keeps(w, Apply(hex, w, step).value)
  {
    hide ImageOk, Asked, Fetched;
  }

  lemma ReadersStayOk(hex: Bytes -> string, w: World, v: World, r: Reader)
    requires ReaderOk(hex, w, r) && Keeps(w, v)
    ensures ReaderOk(hex, v, r)
  {
  }

  lemma AllReadersStayOk(hex: Bytes -> string, w: World, v: World)
    requires Safe(hex, w) && Keeps(w, v) && v.readers == w.readers
    ensures forall r :: r in v.readers ==> ReaderOk(hex, v, v.readers[r])
  {
    hide ReaderOk, Keeps, Addressed, ImageOk;
    forall r | r in v.readers ensures ReaderOk(hex, v, v.readers[r]) {
      assert ReaderOk(hex, w, w.readers[r]);
      ReadersStayOk(hex, w, v, w.readers[r]);
    }
  }

  lemma BeginIsSafe(hex: Bytes -> string, w: World, step: Step)
    requires Safe(hex, w) && Apply(hex, w, step).Some? && step.Begin?
    ensures Safe(hex, Apply(hex, w, step).value)
  {
    var v := Apply(hex, w, step).value;
    NothingIsAddressed(hex);
    StepKeeps(hex, w, step);
    AllReadersStayOk(hex, w, v);
    hide Addressed, ReaderOk, ImageOk;
  }

  lemma StoreIsSafe(hex: Bytes -> string, w: World, step: Step)
    requires Safe(hex, w) && Apply(hex, w, step).Some? && step.StoreBlob?
    ensures Safe(hex, Apply(hex, w, step).value)
  {
    var v := Apply(hex, w, step).value;
    var p := w.publisher;
    assert Addressed(hex, w.blobs[p.name]) && Addressed(hex, p.image.blobs);
    assert Addressed(hex, v.blobs[p.name]);
    StepKeeps(hex, w, step);
    AllReadersStayOk(hex, w, v);
    hide Addressed, ReaderOk, ImageOk, Apply;
  }

  lemma {:induction false} PublisherStepIsSafe(hex: Bytes -> string, w: World, step: Step)
    requires Safe(hex, w) && Apply(hex, w, step).Some? && !step.Ask? && !step.Fetch?
    ensures Safe(hex, Apply(hex, w, step).value)
  {
    if step.Begin? {
      BeginIsSafe(hex, w, step);
    } else if step.StoreBlob? {
      StoreIsSafe(hex, w, step);
    } else {
      StepKeeps(hex, w, step);
      AllReadersStayOk(hex, w, Apply(hex, w, step).value);
      hide Addressed, ReaderOk, ImageOk;
    }
  }

  lemma {:induction false} ReaderStepIsSafe(hex: Bytes -> string, w: World, step: Step)
    requires Safe(hex, w) && Apply(hex, w, step).Some? && (step.Ask? || step.Fetch?)
    ensures Safe(hex, Apply(hex, w, step).value)
  {
    hide Addressed;
    var v := Apply(hex, w, step).value;
    var changed := step.reader;
    assert ReaderOk(hex, v, v.readers[changed]) by {
      if step.Fetch? {
        assert ReaderOk(hex, w, w.readers[changed]);
      }
    }
    hide Asked, Fetched;
    forall r | r in v.readers ensures ReaderOk(hex, v, v.readers[r]) {
      if r != changed {
        assert ReaderOk(hex, w, w.readers[r]);
      }
    }
  }

  /** Every state of every interleaving is safe, and nothing servable is ever lost. */
  lemma {:induction false} RunsAreSafe(hex: Bytes -> string, w: World, steps: seq<Step>)
    requires Safe(hex, w) && Run(hex, w, steps).Some?
    ensures Safe(hex, Run(hex, w, steps).value) && Keeps(w, Run(hex, w, steps).value)
    decreases |steps|
  {
    hide Safe, Apply;
    if steps != [] {
      var v := Apply(hex, w, steps[0]).value;
      if steps[0].Ask? || steps[0].Fetch? {
        ReaderStepIsSafe(hex, w, steps[0]);
      } else {
        PublisherStepIsSafe(hex, w, steps[0]);
      }
      StepKeeps(hex, w, steps[0]);
      RunsAreSafe(hex, v, steps[1..]);
    }
  }

  /** The registry as it is constructed: every image's blobs are copied, nobody reads yet. */
  function Initial(images: map<string, Published>): World {
    World(images, map n | n in images :: images[n].blobs, 0, Idle, map[])
  }

  /** So every run of a registry of valid images is safe throughout. */
  lemma {:induction false} RunsFromTheStartAreSafe(hex: Bytes -> string, images: map<string, Published>,
                                                   steps: seq<Step>)
    requires forall n :: n in images ==> ImageOk(hex, images[n])
    requires Run(hex, Initial(images), steps).Some?
    ensures Safe(hex, Run(hex, Initial(images), steps).value)
  {
    hide Run, Addressed;
    RunsAreSafe(hex, Initial(images), steps);
  }

  /** A blob of an image that is once listed is served from then on, in every later state
      and with bytes that hash to its digest. */
  lemma {:induction false} AdvertisedBlobsStayServable(hex: Bytes -> string, w: World, steps: seq<Step>, name: string,
                                                       digest: string)
    requires Safe(hex, w) && Run(hex, w, steps).Some?
    requires name in w.images && digest in w.images[name].blobs
    ensures var v := Run(hex, w, steps).value;
            && Asked(v, Blob(name, digest)) == SawBlob(name, digest)
            && name in v.blobs && digest in v.blobs[name] && Digest(hex, v.blobs[name][digest]) == digest
  {
    hide Run, Asked, Safe, Keeps;
    RunsAreSafe(hex, w, steps);
    KeptIsServed(hex, w, Run(hex, w, steps).value, name, digest);
  }

  lemma {:induction false} KeptIsServed(hex: Bytes -> string, w: World, v: World, name: string, digest: string)
    requires Safe(hex, w) && Safe(hex, v) && Keeps(w, v) && name in w.images && digest in w.images[name].blobs
    ensures Asked(v, Blob(name, digest)) == SawBlob(name, digest)
    ensures name in v.blobs && digest in v.blobs[name] && Digest(hex, v.blobs[name][digest]) == digest
  {
    hide ReaderOk, ImageOk;
    assert digest in w.blobs[name] && digest in v.blobs[name] && Addressed(hex, v.blobs[name]);
  }

  /** After any interleaving, a reader that found its blob or manifest is answered with bytes of
      the digest it asked for, whatever was published in between. */
  lemma {:induction false} AnswersHashToTheirDigest(hex: Bytes -> string, w: World, steps: seq<Step>, r: nat)
    requires Safe(hex, w) && Run(hex, w, steps).Some? && r in Run(hex, w, steps).value.readers
    ensures AnswersTruly(hex, Run(hex, w, steps).value, r)
  {
    hide Run, Safe, AnswersTruly;
    RunsAreSafe(hex, w, steps);
    AnswersAreTrue(hex, Run(hex, w, steps).value, r);
  }

  ghost predicate AnswersTruly(hex: Bytes -> string, w: World, r: nat)
    requires r in w.readers
  {
    match w.readers[r]
    case SawBlob(_, digest) =>
      Fetched(w, w.readers[r]).Answered? && Fetched(w, w.readers[r]).reply.Data? &&
      Digest(hex, Fetched(w, w.readers[r]).reply.bytes) == digest
    case SawName(name, digest) => name in w.images && Fetched(w, w.readers[r]) == Holds(w.images[name], digest)
    case Holds(p, digest) =>
      Fetched(w, w.readers[r]).Answered? &&
      (digest == "latest" || digest == p.digest ==>
         Fetched(w, w.readers[r]).reply.Data? && Digest(hex, Fetched(w, w.readers[r]).reply.bytes) == p.digest)
    case Crashed => false
    case Answered(_) => true
  }

  lemma AnswersAreTrue(hex: Bytes -> string, w: World, r: nat)
    requires Safe(hex, w) && r in w.readers
    ensures AnswersTruly(hex, w, r)
  {
    assert ReaderOk(hex, w, w.readers[r]);
  }

  // ---------------------------------------------------------------------------
  // The whole publish call

  function Stored(w: World, name: string, image: Published): Blobs {
    (if name in w.blobs then w.blobs[name] else map[]) + image.blobs
  }

  lemma {:induction false} StoreRest(hex: Bytes -> string, w: World) returns (steps: seq<Step>)
    requires w.publisher.Storing? && w.publisher.name in w.blobs && w.publisher.rest <= w.publisher.image.blobs.Keys
    ensures var p := w.publisher;
            Run(hex, w, steps) ==
            Some(w.(blobs := w.blobs[p.name := w.blobs[p.name] + Only(p.image.blobs, p.rest)],
                    publisher := Storing(p.name, p.image, {})))
    decreases w.publisher.rest
  {
    var p := w.publisher;
    if p.rest == {} {
      steps := [];
      assert w.blobs[p.name] + Only(p.image.blobs, {}) == w.blobs[p.name];
      assert w.blobs[p.name := w.blobs[p.name]] == w.blobs;
      assert w.publisher == Storing(p.name, p.image, {});
    } else {
      var d :| d in p.rest;
      var v := Apply(hex, w, StoreBlob(d)).value;
      var tail := StoreRest(hex, v);
      steps := [StoreBlob(d)] + tail;
      assert steps[1..] == tail;
      StoreOne(w.blobs[p.name], p.image.blobs, p.rest, d);
      var all := v.blobs[p.name] + Only(p.image.blobs, p.rest - {d});
      assert w.blobs[p.name := all] == v.blobs[p.name := all];
    }
  }

  function Only(blobs: Blobs, digests: set<string>): Blobs { map d | d in digests && d in blobs :: blobs[d] }

  lemma StoreOne(base: Blobs, blobs: Blobs, digests: set<string>, d: string)
    requires d in digests && d in blobs
    ensures base[d := blobs[d]] + Only(blobs, digests - {d}) == base + Only(blobs, digests)
  {
  }

  lemma {:induction false} RunAppend(hex: Bytes -> string, w: World, a: seq<Step>, b: seq<Step>)
    ensures Run(hex, w, a + b) == match Run(hex, w, a) case None => None case Some(v) => Run(hex, v, b)
    decreases |a|
  {
    hide Apply;
    if a == [] {
      assert a + b == b;
    } else {
      assert (a + b)[1..] == a[1..] + b;
      match Apply(hex, w, a[0])
      case None =>
      case Some(v) => RunAppend(hex, v, a[1..], b);
    }
  }

  /** What a server in this state shows. */
  function ViewOf(w: World): View { View(w.images, w.blobs, map[]) }

  lemma {:induction false} PublishSteps(hex: Bytes -> string, w: World, name: string, image: Published)
    returns (steps: seq<Step>)
    requires w.publisher.Idle? && ImageOk(hex, image)
    ensures Run(hex, w, steps) ==
            Some(w.(images := w.images[name := image], blobs := w.blobs[name := Stored(w, name, image)],
                    serial := w.serial + 1))
  {
    var v := Apply(hex, w, Begin(name, image)).value;
    var middle := StoreRest(hex, v);
    var u := Run(hex, v, middle).value;
    assert Only(image.blobs, image.blobs.Keys) == image.blobs;
    hide Only, ImageOk;
    assert u.blobs == w.blobs[name := Stored(w, name, image)];
    var last := [ListImage, Count];
    assert last[1..] == [Count] && [Count][1..] == [];
    var done := Run(hex, u, last);
    RunAppend(hex, v, middle, last);
    steps := [Begin(name, image)] + (middle + last);
    assert steps[1..] == middle + last;
  }

  /** Uninterrupted, the steps of one publish call leave the view that the call promises. */
  lemma {:induction false} PublishIsItsSteps(hex: Bytes -> string, w: World, name: string, image: Published)
    returns (steps: seq<Step>)
    requires w.publisher.Idle? && ImageOk(hex, image)
    ensures Run(hex, w, steps).Some?
    ensures var v := Run(hex, w, steps).value;
            && ViewOf(v) == Publishing(ViewOf(w), name, image)
            && v.serial == w.serial + 1 && v.publisher.Idle? && v.readers == w.readers
  {
    hide Run, ImageOk;
    steps := PublishSteps(hex, w, name, image);
  }

  // ---------------------------------------------------------------------------
  // The whole response

  /** What a path asks for; other paths touch neither images nor blobs. */
  function RequestOf(path: string): Option<Request> {
    if path == "/index/static" || path == "/index/dynamic" then Some(Index)
    else match Route(path)
         case None => None
         case Some((name, kind, digest)) =>
           if kind == "manifests" then Some(Manifest(name, digest))
           else if kind == "blobs" then Some(Blob(name, digest)) else None
  }

  /** A reader that nothing interrupts is answered as the response says. */
  lemma {:induction false} ResponseIsItsSteps(hex: Bytes -> string, w: World, path: string, r: nat)
    requires Safe(hex, w) && RequestOf(path).Some?
    ensures Run(hex, w, [Ask(r, RequestOf(path).value), Fetch(r), Fetch(r)]) ==
            Some(w.(readers := w.readers[r := Answered(Respond(ViewOf(w), path))]))
  {
    hide Route, Addressed;
    var request := RequestOf(path).value;
    if path == "/v2" || path == "/v2/" {
      FixedPathsHaveNoRoute(path);
    }
    var seen := Asked(w, request);
    var next := Fetched(w, seen);
    var reply := Answered(Respond(ViewOf(w), path));
    assert Fetched(w, next) == reply by {
      if request.Manifest? && request.name in w.images {
        assert ImageOk(hex, w.images[request.name]);
      }
    }
    ReaderSteps(hex, w, r, request);
  }

  lemma ReaderSteps(hex: Bytes -> string, w: World, r: nat, request: Request)
    ensures Run(hex, w, [Ask(r, request), Fetch(r), Fetch(r)]) ==
            Some(w.(readers := w.readers[r := Fetched(w, Fetched(w, Asked(w, request)))]))
  {
    hide Asked, Fetched, Run, Apply;
    AskApplies(hex, w, r, request);
    FetchApplies(hex, w, r, Asked(w, request));
    FetchApplies(hex, w, r, Fetched(w, Asked(w, request)));
    RunThree(hex, w, Ask(r, request), Fetch(r), Fetch(r));
  }

  lemma AskApplies(hex: Bytes -> string, w: World, r: nat, request: Request)
    ensures Apply(hex, w, Ask(r, request)) == Some(w.(readers := w.readers[r := Asked(w, request)]))
  {
    hide Asked, ImageOk;
  }

  lemma FetchApplies(hex: Bytes -> string, w: World, r: nat, seen: Reader)
    ensures Apply(hex, w.(readers := w.readers[r := seen]), Fetch(r)) ==
              Some(w.(readers := w.readers[r := Fetched(w, seen)]))
  {
    hide Fetched, ImageOk;
    var v := w.(readers := w.readers[r := seen]);
    SameAccess(w, v, seen);
    assert v.readers[r := Fetched(w, seen)] == w.readers[r := Fetched(w, seen)];
  }

  lemma RunThree(hex: Bytes -> string, w: World, a: Step, b: Step, c: Step)
    requires Apply(hex, w, a).Some? && Apply(hex, Apply(hex, w, a).value, b).Some?
    ensures Run(hex, w, [a, b, c]) == Apply(hex, Apply(hex, Apply(hex, w, a).value, b).value, c)
  {
    hide Apply;
    assert [a, b, c][1..] == [b, c] && [b, c][1..] == [c] && [c][1..] == [];
    var u := Apply(hex, w, a).value;
    var v := Apply(hex, u, b).value;
    assert Run(hex, v, [c]) == Apply(hex, v, c);
    assert Run(hex, u, [b, c]) == Run(hex, v, [c]);
  }

  lemma SameAccess(w: World, v: World, r: Reader)
    requires w.images == v.images && w.blobs == v.blobs
    ensures Fetched(w, r) == Fetched(v, r)
  {
  }
}
