/** A read-only image registry: loading images, publishing them and answering requests.
    The registry and its images are objects with dictionaries that are updated in place;
    what keeps them apart is part of the invariant, so publishing is seen to change
    no image. */
module Registry {
  import opened Options

  newtype Byte = x: int | 0 <= x < 256

  type Bytes = seq<Byte>

  type Blobs = map<string, Bytes>

  /** The part of an image that the index lists. */
  datatype Record = Record(digest: string, mediaType: string, details: string)

  /** A layout on disk: the digests its index names, and its files by name. */
  datatype Layout = Layout(manifests: seq<string>, files: seq<(string, Bytes)>)

  /** The hexadecimal hash, and the JSON readers: the configuration digest named by a
      manifest, and the record made of a manifest and a configuration. */
  datatype Readers = Readers(hex: Bytes -> string, config: Bytes -> Option<string>,
                             record: (string, Bytes, Bytes) -> Option<Record>)

  function Digest(hex: Bytes -> string, data: Bytes): string { "sha256:" + hex(data) }

  /** Every blob is stored under its own digest. */
  predicate Addressed(hex: Bytes -> string, blobs: Blobs) {
    forall d :: d in blobs ==> d == Digest(hex, blobs[d])
  }

  /** A dictionary of blobs that is updated in place. */
  class Store {
    var items: Blobs

    constructor (items: Blobs)
      ensures this.items == items
    {
      this.items := items;
    }

    method Update(more: Blobs)
      modifies this
      ensures items == old(items) + more
    {
      items := items + more;
    }
  }

  class Image {
    const digest: string
    const blobs: Store
    const record: Record

    constructor (digest: string, blobs: Store, record: Record)
      ensures this.digest == digest && this.blobs == blobs && this.record == record
    {
      this.digest, this.blobs, this.record := digest, blobs, record;
    }

    /** The image holds its own manifest and every blob under its digest. */
    ghost predicate Valid(hex: Bytes -> string)
      reads blobs
    {
      digest in blobs.items && Addressed(hex, blobs.items)
    }
  }

  /** The files, each under its digest; nothing if one does not hash to its name. */
  function Gather(hex: Bytes -> string, files: seq<(string, Bytes)>): Option<Blobs> {
    if files == [] then Some(map[])
    else
      var last := files[|files| - 1];
      match Gather(hex, files[..|files| - 1])
      case None => None
      case Some(blobs) => if hex(last.1) != last.0 then None else Some(blobs["sha256:" + last.0 := last.1])
  }

  lemma {:induction false} GatherPrefixFails(hex: Bytes -> string, files: seq<(string, Bytes)>, k: nat)
    requires k <= |files| && Gather(hex, files[..k]).None?
    ensures Gather(hex, files).None?
  {
    if k < |files| {
      assert files[..|files| - 1][..k] == files[..k];
      GatherPrefixFails(hex, files[..|files| - 1], k);
    } else {
      assert files[..k] == files;
    }
  }

  lemma {:induction false} GatheredIsAddressed(hex: Bytes -> string, files: seq<(string, Bytes)>)
    requires Gather(hex, files).Some?
    ensures Addressed(hex, Gather(hex, files).value)
    ensures forall i :: 0 <= i < |files| ==> "sha256:" + files[i].0 in Gather(hex, files).value
    ensures forall d :: d in Gather(hex, files).value ==> exists i :: 0 <= i < |files| && d == "sha256:" + files[i].0
  {
    if files != [] {
      GatheredIsAddressed(hex, files[..|files| - 1]);
    }
  }

  /** What loading a layout yields: the digest, the blobs and the record. */
  function Loaded(r: Readers, layout: Layout): Option<(string, Blobs, Record)> {
    if |layout.manifests| != 1 then None
    else
      match Gather(r.hex, layout.files)
      case None => None
      case Some(blobs) =>
        var digest := layout.manifests[0];
        if digest !in blobs then None
        else
          match r.config(blobs[digest])
          case None => None
          case Some(c) =>
            if c !in blobs then None
            else
              match r.record(digest, blobs[digest], blobs[c])
              case None => None
              case Some(record) => Some((digest, blobs, record))
  }

  method Load(r: Readers, layout: Layout) returns (image: Option<Image>)
    ensures image.Some? <==> Loaded(r, layout).Some?
    ensures image.Some? ==>
      && fresh(image.value) && fresh(image.value.blobs) && image.value.Valid(r.hex)
      && (image.value.digest, image.value.blobs.items, image.value.record) == Loaded(r, layout).value
  {
    if |layout.manifests| != 1 {
      return None;
    }
    var digest := layout.manifests[0];
    var blobs: Blobs := map[];
    for i := 0 to |layout.files|
      invariant Gather(r.hex, layout.files[..i]) == Some(blobs)
    {
      var name, data := layout.files[i].0, layout.files[i].1;
      assert layout.files[..i + 1][..i] == layout.files[..i];
      if r.hex(data) != name {
        GatherPrefixFails(r.hex, layout.files, i + 1);
        return None;
      }
      blobs := blobs["sha256:" + name := data];
    }
    assert layout.files[..|layout.files|] == layout.files;
    GatheredIsAddressed(r.hex, layout.files);
    if digest !in blobs {
      return None;
    }
    var config := r.config(blobs[digest]);
    if config.None? || config.value !in blobs {
      return None;
    }
    var record := r.record(digest, blobs[digest], blobs[config.value]);
    if record.None? {
      return None;
    }
    var store := new Store(blobs);
    var loaded := new Image(digest, store, record.value);
    return Some(loaded);
  }

  // ---------------------------------------------------------------------------
  // Requests

  datatype Reply =
    | Signature(bytes: Bytes)
    | Listing(images: map<string, Record>)
    | Data(bytes: Bytes, mediaType: string)
    | EmptyJson
    | Missing

  /** A published image as its readers see it. */
  datatype Published = Published(digest: string, blobs: Blobs, record: Record)

  datatype View = View(images: map<string, Published>, blobs: map<string, Blobs>, signatures: map<string, Bytes>)

  function TrimSlashes(s: string): string {
    if s != "" && s[0] == '/' then TrimSlashes(s[1..])
    else if s != "" && s[|s| - 1] == '/' then TrimSlashes(s[..|s| - 1])
    else s
  }

  function SplitSlashes(s: string): (parts: seq<string>)
    ensures parts != []
  {
    if s == "" then [""]
    else
      var rest := SplitSlashes(s[1..]);
      if s[0] == '/' then [""] + rest else [[s[0]] + rest[0]] + rest[1..]
  }

  /** The name, kind and digest of a request below /v2/. */
  function Route(path: string): Option<(string, string, string)> {
    var parts := SplitSlashes(TrimSlashes(path));
    if |parts| == 4 && parts[0] == "v2" then Some((parts[1], parts[2], parts[3])) else None
  }

  function ListingOf(images: map<string, Published>): Reply {
    Listing(map name | name in images :: images[name].record)
  }

  function Respond(v: View, path: string): Reply {
    if path in v.signatures then Signature(v.signatures[path])
    else if path == "/index/static" || path == "/index/dynamic" then ListingOf(v.images)
    else
      var other := if path == "/v2" || path == "/v2/" then EmptyJson else Missing;
      match Route(path)
      case None => other
      case Some((name, kind, digest)) =>
        if kind == "manifests" && name in v.images && (digest == "latest" || digest == v.images[name].digest)
           && v.images[name].digest in v.images[name].blobs then
          Data(v.images[name].blobs[v.images[name].digest], v.images[name].record.mediaType)
        else if kind == "blobs" && name in v.blobs && digest in v.blobs[name] then
          Data(v.blobs[name][digest], "application/octet-stream")
        else other
  }

  /** The images hold their manifests, and whatever is servable is served under its digest. */
  ghost predicate ViewOk(hex: Bytes -> string, v: View) {
    && (forall n :: n in v.images ==> v.images[n].digest in v.images[n].blobs && Addressed(hex, v.images[n].blobs))
    && (forall n :: n in v.blobs ==> Addressed(hex, v.blobs[n]))
  }

  lemma {:induction false} FirstPart(s: string)
    requires s != "" && s[0] != '/'
    ensures SplitSlashes(s)[0] != "" && SplitSlashes(s)[0][0] == s[0]
  {
  }

  /** The fixed paths are no blob or manifest routes. */
  lemma FixedPathsHaveNoRoute(path: string)
    requires path == "/index/static" || path == "/index/dynamic" || path == "/v2" || path == "/v2/"
    ensures Route(path).None?
  {
    hide SplitSlashes;
    if path == "/v2" || path == "/v2/" {
      assert "/v2"[1..] == "v2" && "/v2/"[1..] == "v2/" && "v2/"[..2] == "v2";
      assert TrimSlashes("v2") == "v2" && TrimSlashes("v2/") == "v2";
      assert TrimSlashes(path) == "v2";
      OnePart();
    } else {
      var inner := path[1..];
      assert inner[0] == 'i' && inner[|inner| - 1] == 'c';
      assert TrimSlashes(inner) == inner && TrimSlashes(path) == inner;
      FirstPart(inner);
    }
  }

  lemma OnePart()
    ensures SplitSlashes("v2") == ["v2"]
  {
    assert "v2"[1..] == "2" && "2"[1..] == "" && SplitSlashes("") == [""];
    assert ['2'] + "" == "2" && ['v'] + "2" == "v2";
    assert SplitSlashes("2") == ["2"] + [""][1..];
  }

  /** A request below /v2/ is answered exactly as follows, and every blob or manifest with bytes
      that hash to the digest it is known by. */
  lemma {:induction false} RoutedReplyIsTrue(hex: Bytes -> string, v: View, path: string, name: string, kind: string,
                                             digest: string)
    requires ViewOk(hex, v) && path !in v.signatures && Route(path) == Some((name, kind, digest))
    ensures Respond(v, path).Data? <==>
              || (kind == "manifests" && name in v.images && (digest == "latest" || digest == v.images[name].digest))
              || (kind == "blobs" && name in v.blobs && digest in v.blobs[name])
    ensures kind == "blobs" && Respond(v, path).Data? ==> Digest(hex, Respond(v, path).bytes) == digest
    ensures kind == "manifests" && Respond(v, path).Data? ==>
              Digest(hex, Respond(v, path).bytes) == v.images[name].digest
              && Respond(v, path).mediaType == v.images[name].record.mediaType
    ensures !Respond(v, path).Data? ==> Respond(v, path) == Missing
  {
    hide Route;
    if path == "/index/static" || path == "/index/dynamic" || path == "/v2" || path == "/v2/" {
      FixedPathsHaveNoRoute(path);
    }
  }

  /** What publishing makes of a view: the blobs are added, the image is listed. */
  function Publishing(v: View, name: string, image: Published): View {
    v.(images := v.images[name := image],
       blobs := v.blobs[name := (if name in v.blobs then v.blobs[name] else map[]) + image.blobs])
  }

  lemma UnionIsAddressed(hex: Bytes -> string, a: Blobs, b: Blobs)
    requires Addressed(hex, a) && Addressed(hex, b)
    ensures Addressed(hex, a + b)
  {
  }

  /** The registry keeps dictionaries of its own, so that publishing changes no image. */
  class Server {
    ghost const hex: Bytes -> string
    var images: map<string, Image>
    var blobs: map<string, Store>
    var signatures: map<string, Bytes>
    var requests: seq<string>
    var serial: nat
    ghost var own: set<Store>
    ghost var foreign: set<Store>

    /** Each name has a dictionary of its own, and none is an image's dictionary. */
    ghost predicate Separate()
      reads `images, `blobs, `own, `foreign
    {
      && own !! foreign
      && (forall n :: n in blobs ==> blobs[n] in own)
      && (forall n :: n in images ==> images[n].blobs in foreign)
      && (forall m, n :: m in blobs && n in blobs && m != n ==> blobs[m] != blobs[n])
    }

    /** A listed image is valid and all its digests are servable. */
    ghost predicate Listed(n: string)
      requires Separate()
      reads `images, `blobs, `own, `foreign, own, foreign
    {
      n in images ==> images[n].Valid(hex) && n in blobs && images[n].blobs.items.Keys <= blobs[n].items.Keys
    }

    /** Whatever is servable is served under its digest. */
    ghost predicate Valid()
      reads `images, `blobs, `own, `foreign, own, foreign
    {
      && Separate()
      && (forall n :: n in images ==> Listed(n))
      && (forall n :: n in blobs ==> Addressed(hex, blobs[n].items))
    }

    ghost function Look(): View
      requires Separate()
      reads `images, `blobs, `own, `foreign, `signatures, own, foreign
    {
      View(map n | n in images :: Published(images[n].digest, images[n].blobs.items, images[n].record),
           map n | n in blobs :: blobs[n].items, signatures)
    }

    /** `foreign` names the dictionaries of the images. */
    constructor (ghost hex: Bytes -> string, images: map<string, Image>, ghost foreign: set<Store>)
      requires forall n :: n in images ==> images[n].Valid(hex) && images[n].blobs in foreign
      ensures Valid() && this.hex == hex && this.images == images && fresh(own) && Copied(images.Keys)
      ensures requests == [] && signatures == map[] && serial == 0
    {
      this.hex := hex;
      this.images := images;
      blobs, signatures, requests, serial := map[], map[], [], 0;
      this.own, this.foreign := {}, foreign;
      new;
      hide Valid, Image.Valid, Copied;
      Fill();
    }

    method Fill()
      requires own == {} && blobs == map[] && forall n :: n in images ==> images[n].blobs in foreign
      requires forall n :: n in images ==> images[n].Valid(hex)
      modifies `blobs, `own
      ensures Valid() && fresh(own) && Copied(images.Keys)
    {
      hide Valid, Separate, Addressed, Copied, Image.Valid;
      NothingCopied();
      CopyBlobs();
      CopiedIsValid();
    }

    /** The names copied so far each have a new dictionary equal to the image's. */
    ghost predicate Copied(names: set<string>)
      reads `images, `blobs, `own, `foreign, own, foreign
    {
      && Separate() && names == blobs.Keys && names <= images.Keys
      && forall n :: n in names ==> blobs[n].items == images[n].blobs.items
    }

    lemma CopiedIsValid()
      requires Copied(images.Keys) && forall n :: n in images ==> images[n].Valid(hex)
      ensures Valid()
    {
      hide Addressed;
    }

    lemma NothingCopied()
      requires own == {} && blobs == map[] && forall n :: n in images ==> images[n].blobs in foreign
      ensures Copied({})
    {
    }

    /** Each image's blobs, copied to a dictionary of the registry. */
    method CopyBlobs()
      requires own == {} && Copied({})
      modifies `blobs, `own
      ensures Copied(images.Keys) && fresh(own)
    {
      hide Copied;
      var rest := images.Keys;
      ghost var done := {};
      while rest != {}
        invariant rest !! done && done + rest == images.Keys && fresh(own) && Copied(done)
        decreases rest
      {
        var n :| n in rest;
        CopyOne(n, done);
        rest, done := rest - {n}, done + {n};
      }
      assert done == images.Keys;
    }

    method CopyOne(n: string, ghost names: set<string>)
      requires Copied(names) && n in images && n !in names
      modifies `blobs, `own
      ensures Copied(names + {n}) && fresh(own - old(own))
    {
      var copy := new Store(images[n].blobs.items);
      blobs, own := blobs[n := copy], own + {copy};
    }

    /** A new, empty dictionary. */
    method AddName(name: string)
      requires Valid() && name !in blobs
      modifies `blobs, `own
      ensures Valid() && fresh(own - old(own)) && old(own) <= own
      ensures name in blobs && blobs == old(blobs)[name := blobs[name]] && blobs[name].items == map[]
    {
      var empty := new Store(map[]);
      NothingIsAddressed(hex);
      hide Addressed, Image.Valid;
      blobs, own := blobs[name := empty], own + {empty};
      forall n | n in images ensures Listed(n) {
        assert old(Listed(n));
      }
    }

    /** The dictionary of the name, new if need be, takes the blobs; nothing is listed yet. */
    method StoreBlobs(name: string, more: Blobs)
      requires Valid() && Addressed(hex, more)
      modifies `blobs, `own, own
      ensures Valid() && fresh(own - old(own)) && old(own) <= own && blobs.Keys == old(blobs).Keys + {name}
      ensures blobs[name].items == (if name in old(blobs) then old(blobs[name].items) else map[]) + more
      ensures forall n :: n in old(blobs) && n != name ==>
                blobs[n] == old(blobs)[n] && blobs[n].items == old(blobs[n].items)
    {
      SeparateStores();
      hide Addressed, Valid;
      if name !in blobs {
        AddName(name);
      }
      AddBlobs(name, more);
    }

    /** Adds blobs to the dictionary of the name; nothing is listed yet. */
    method AddBlobs(name: string, more: Blobs)
      requires Valid() && name in blobs && Addressed(hex, more)
      modifies own
      ensures Valid() && blobs[name].items == old(blobs[name].items) + more
      ensures forall n :: n in blobs && n != name ==> blobs[n].items == old(blobs[n].items)
    {
      UnionIsAddressed(hex, blobs[name].items, more);
      hide Addressed, Image.Valid;
      blobs[name].Update(more);
      forall n | n in images ensures Listed(n) {
        assert old(Listed(n));
      }
    }

    /** Lists an image whose blobs are servable. */
    method ListImage(name: string, image: Image)
      requires Valid() && image.Valid(hex) && image.blobs in foreign
      requires name in blobs && image.blobs.items.Keys <= blobs[name].items.Keys
      modifies `images
      ensures Valid() && images == old(images)[name := image]
    {
      hide Addressed, Image.Valid;
      images := images[name := image];
      assert Separate();
      forall n | n in images ensures Listed(n) {
        if n != name {
          assert old(Listed(n));
        }
      }
    }

    /** An image that is about to be published; its dictionary is not the registry's. */
    ghost method Meet(image: Image)
      requires Valid() && image.blobs !in own
      modifies `foreign
      ensures Valid() && foreign == old(foreign) + {image.blobs}
    {
      hide Addressed;
      foreign := foreign + {image.blobs};
    }

    /** Stores the blobs, lists the image, then counts: in this order.  Only dictionaries
        of the registry change, so no image does. */
    method Publish(name: string, image: Image)
      requires Valid() && image.Valid(hex) && image.blobs !in own
      modifies this, own
      ensures Valid() && fresh(own - old(own)) && foreign == old(foreign) + {image.blobs}
      ensures Look() == Publishing(old(Look()), name, Published(image.digest, image.blobs.items, image.record))
      ensures serial == old(serial) + 1 && requests == old(requests)
    {
      hide Addressed, Valid, Listed, Look, Publishing;
      SeparateStores();
      ghost var before := Look();
      LookEverywhere();
      PublishInOrder(name, image);
      SeparateStores();
      PublishedView(name, image, before);
    }

    lemma LookEverywhere()
      requires Separate()
      ensures var v := Look();
              && v.signatures == signatures && v.images.Keys == images.Keys && v.blobs.Keys == blobs.Keys
              && (forall n :: n in images ==>
                   v.images[n] == Published(images[n].digest, images[n].blobs.items, images[n].record))
              && (forall n :: n in blobs ==> v.blobs[n] == blobs[n].items)
    {
    }

    lemma PublishedView(name: string, image: Image, before: View)
      requires Separate() && signatures == before.signatures
      requires images.Keys == before.images.Keys + {name} && images[name] == image
      requires forall n :: n in before.images && n != name ==>
        before.images[n] == Published(images[n].digest, images[n].blobs.items, images[n].record)
      requires blobs.Keys == before.blobs.Keys + {name}
      requires blobs[name].items == (if name in before.blobs then before.blobs[name] else map[]) + image.blobs.items
      requires forall n :: n in before.blobs && n != name ==> blobs[n].items == before.blobs[n]
      ensures Look() == Publishing(before, name, Published(image.digest, image.blobs.items, image.record))
    {
      LookEverywhere();
      hide Separate, Look;
      OneUpdated(Look().images, before.images, name, Published(image.digest, image.blobs.items, image.record));
      OneUpdated(Look().blobs, before.blobs, name,
                 (if name in before.blobs then before.blobs[name] else map[]) + image.blobs.items);
    }

    method PublishInOrder(name: string, image: Image)
      requires Valid() && image.Valid(hex) && image.blobs !in own
      modifies this, own
      ensures Valid() && fresh(own - old(own)) && foreign == old(foreign) + {image.blobs}
      ensures images == old(images)[name := image] && serial == old(serial) + 1
      ensures requests == old(requests) && signatures == old(signatures)
      ensures blobs.Keys == old(blobs).Keys + {name}
      ensures blobs[name].items == (if name in old(blobs) then old(blobs[name].items) else map[]) + image.blobs.items
      ensures forall n :: n in old(blobs) && n != name ==> blobs[n].items == old(blobs[n].items)
    {
      hide Addressed, Valid, Listed;
      SeparateStores();
      Meet(image);
      StoreBlobs(name, image.blobs.items);
      ListImage(name, image);
      serial := serial + 1;
    }

    lemma SeparateStores()
      requires Valid()
      ensures Separate()
    {
      hide Addressed;
    }

    lemma ListedManifest(name: string)
      requires Valid() && name in images
      ensures images[name].digest in images[name].blobs.items
    {
      assert Listed(name);
    }

    lemma LookAt(name: string)
      requires Separate()
      ensures var v := Look();
              && v.signatures == signatures && v.images.Keys == images.Keys && v.blobs.Keys == blobs.Keys
              && (name in images ==>
                   v.images[name] == Published(images[name].digest, images[name].blobs.items, images[name].record))
              && (name in blobs ==> v.blobs[name] == blobs[name].items)
    {
    }

    lemma ViewIsOk()
      requires Valid()
      ensures ViewOk(hex, Look())
    {
      hide Addressed;
      forall n | n in images
        ensures images[n].digest in images[n].blobs.items && Addressed(hex, images[n].blobs.items)
      {
        assert Listed(n);
      }
    }

    lemma LookListing()
      requires Separate()
      ensures ListingOf(Look().images) == Listing(map name | name in images :: images[name].record)
    {
    }

    /** The reply of every route; the request is recorded. */
    method Response(path: string) returns (reply: Reply)
      requires Valid()
      modifies `requests
      ensures Valid() && Separate() && requests == old(requests) + [path]
      ensures reply == Respond(Look(), path) && ViewOk(hex, Look())
    {
      reply := Answer(path);
      ViewIsOk();
    }

    method Answer(path: string) returns (reply: Reply)
      requires Valid()
      modifies `requests
      ensures Valid() && Separate() && requests == old(requests) + [path]
      ensures reply == Respond(Look(), path)
    {
      SeparateStores();
      hide Addressed, Route, Valid, Separate, Look, ListingOf;
      requests := requests + [path];
      LookAt("");
      if path in signatures {
        return Signature(signatures[path]);
      }
      if path == "/index/static" || path == "/index/dynamic" {
        LookListing();
        return Listing(map name | name in images :: images[name].record);
      }
      var route := Route(path);
      if route.Some? {
        var (name, kind, digest) := route.value;
        LookAt(name);
        if kind == "manifests" && name in images {
          ListedManifest(name);
          var image := images[name];
          if digest == "latest" || digest == image.digest {
            return Data(image.blobs.items[image.digest], image.record.mediaType);
          }
        }
        if kind == "blobs" && name in blobs && digest in blobs[name].items {
          return Data(blobs[name].items[digest], "application/octet-stream");
        }
      }
      if path == "/v2" || path == "/v2/" {
        return EmptyJson;
      }
      return Missing;
    }
  }

  lemma NothingIsAddressed(hex: Bytes -> string)
    ensures Addressed(hex, map[])
  {
  }

  lemma OneUpdated<V>(m: map<string, V>, before: map<string, V>, name: string, value: V)
    requires m.Keys == before.Keys + {name} && m[name] == value
    requires forall n :: n in before && n != name ==> m[n] == before[n]
    ensures m == before[name := value]
  {
  }
}
