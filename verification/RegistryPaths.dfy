/** What the registry answers, read off the text of the path. */
module RegistryPaths {
  import opened Options
  import opened Registry

  predicate AllSlashes(s: string) { forall k :: 0 <= k < |s| ==> s[k] == '/' }

  /** A request for a blob or a manifest, with any number of slashes before and behind it. */
  ghost predicate Asks(path: string, name: string, kind: string, digest: string) {
    && '/' !in name && '/' !in kind && '/' !in digest && digest != ""
    && exists before: string, behind: string ::
         && AllSlashes(before) && AllSlashes(behind)
         && path == before + Core(name, kind, digest) + behind
  }

  function Core(name: string, kind: string, digest: string): string {
    "v2/" + (name + "/" + (kind + "/" + digest))
  }

  // ---------------------------------------------------------------------------
  // Trimming

  lemma {:induction false} TrimBehind(s: string, behind: string)
    requires AllSlashes(behind) && s != "" && s[0] != '/' && s[|s| - 1] != '/'
    ensures TrimSlashes(s + behind) == s
    decreases |behind|
  {
    var t := s + behind;
    if behind == "" {
      assert t == s;
    } else {
      assert t[|t| - 1] == '/' && t[0] == s[0];
      assert t[..|t| - 1] == s + behind[..|behind| - 1];
      TrimBehind(s, behind[..|behind| - 1]);
    }
  }

  lemma {:induction false} TrimBoth(before: string, s: string, behind: string)
    requires AllSlashes(before) && AllSlashes(behind) && s != "" && s[0] != '/' && s[|s| - 1] != '/'
    ensures TrimSlashes(before + s + behind) == s
    decreases |before|
  {
    if before == "" {
      assert before + s + behind == s + behind;
      TrimBehind(s, behind);
    } else {
      assert (before + s + behind)[0] == '/' && (before + s + behind)[1..] == before[1..] + s + behind;
      TrimBoth(before[1..], s, behind);
    }
  }

  /** Trimming takes slashes only, and all of them. */
  lemma {:induction false} TrimSplits(s: string) returns (before: string, behind: string)
    ensures AllSlashes(before) && AllSlashes(behind) && s == before + TrimSlashes(s) + behind
    ensures var t := TrimSlashes(s); t != "" ==> t[0] != '/' && t[|t| - 1] != '/'
    decreases |s|
  {
    if s != "" && s[0] == '/' {
      before, behind := TrimSplits(s[1..]);
      assert s == ("/" + before) + TrimSlashes(s) + behind;
      before := "/" + before;
    } else if s != "" && s[|s| - 1] == '/' {
      before, behind := TrimSplits(s[..|s| - 1]);
      assert s == before + TrimSlashes(s) + (behind + "/");
      behind := behind + "/";
    } else {
      before, behind := "", "";
      assert s == "" + s + "";
    }
  }

  // ---------------------------------------------------------------------------
  // Splitting

  lemma {:induction false} SplitFirst(part: string, rest: string)
    requires '/' !in part
    ensures SplitSlashes(part + "/" + rest) == [part] + SplitSlashes(rest)
    decreases |part|
  {
    var s := part + "/" + rest;
    if part == "" {
      assert s[0] == '/' && s[1..] == rest;
    } else {
      assert s[0] == part[0] && s[1..] == part[1..] + "/" + rest && '/' !in part[1..];
      SplitFirst(part[1..], rest);
      assert ([part[1..]] + SplitSlashes(rest))[1..] == SplitSlashes(rest);
      assert [part[0]] + part[1..] == part;
    }
  }

  lemma {:induction false} SplitLast(part: string)
    requires '/' !in part
    ensures SplitSlashes(part) == [part]
    decreases |part|
  {
    if part != "" {
      SplitLast(part[1..]);
      assert [part[0]] + part[1..] == part;
    }
  }

  /** The text begins with the first part, which has no slash, and goes on with the others. */
  ghost predicate Begins(s: string, parts: seq<string>) {
    && parts != [] && '/' !in parts[0]
    && if |parts| == 1 then s == parts[0]
       else |parts[0]| < |s| && s == parts[0] + "/" + s[|parts[0]| + 1..]
            && SplitSlashes(s[|parts[0]| + 1..]) == parts[1..]
  }

  lemma BeginsLonger(c: char, s: string, parts: seq<string>)
    requires c != '/' && Begins(s, parts)
    ensures Begins([c] + s, [[c] + parts[0]] + parts[1..])
  {
    hide SplitSlashes;
    var t, longer := [c] + s, [[c] + parts[0]] + parts[1..];
    assert longer[1..] == parts[1..];
    if |parts| > 1 {
      var rest := s[|parts[0]| + 1..];
      assert t[|longer[0]| + 1..] == rest;
      assert t == [c] + (parts[0] + "/" + rest) == longer[0] + "/" + rest;
    }
  }

  lemma {:induction false} SplitTakes(s: string)
    ensures Begins(s, SplitSlashes(s))
    decreases |s|
  {
    if s != "" {
      var rest := SplitSlashes(s[1..]);
      SplitTakes(s[1..]);
      if s[0] == '/' {
        assert ([""] + rest)[1..] == rest && "" + "/" + s[1..] == s;
      } else {
        hide Begins;
        BeginsLonger(s[0], s[1..], rest);
        assert [s[0]] + s[1..] == s;
      }
    }
  }

  lemma SplitCore(name: string, kind: string, digest: string)
    requires '/' !in name && '/' !in kind && '/' !in digest
    ensures SplitSlashes(Core(name, kind, digest)) == ["v2", name, kind, digest]
  {
    hide SplitSlashes;
    SplitLast(digest);
    SplitFirst(kind, digest);
    SplitFirst(name, kind + "/" + digest);
    assert name + "/" + (kind + "/" + digest) == name + "/" + (kind + "/" + digest);
    SplitFirst("v2", name + "/" + (kind + "/" + digest));
    assert "v2" + "/" == "v2/";
  }

  // ---------------------------------------------------------------------------
  // Routes

  /** The routes are the requests. */
  lemma {:induction false} RouteReads(path: string, name: string, kind: string, digest: string)
    requires Asks(path, name, kind, digest)
    ensures Route(path) == Some((name, kind, digest))
  {
    var core := Core(name, kind, digest);
    assert core[|core| - 1] == digest[|digest| - 1];
    var before, behind :| AllSlashes(before) && AllSlashes(behind) && path == before + core + behind;
    hide SplitSlashes, TrimSlashes, AllSlashes;
    TrimBoth(before, core, behind);
    SplitCore(name, kind, digest);
  }

  lemma EmptyDigestEnds(name: string, kind: string)
    ensures var core := Core(name, kind, ""); core[|core| - 1] == '/'
  {
  }

  lemma {:induction false} RouteIsAsked(path: string)
    requires Route(path).Some?
    ensures var (name, kind, digest) := Route(path).value; Asks(path, name, kind, digest)
  {
    var (name, kind, digest) := Route(path).value;
    var before, behind := TrimSplits(path);
    var core := TrimSlashes(path);
    hide TrimSlashes, SplitSlashes, AllSlashes;
    var parts := SplitSlashes(core);
    SplitTakes(core);
    var a := core[3..];
    SplitTakes(a);
    var b := a[|name| + 1..];
    SplitTakes(b);
    var c := b[|kind| + 1..];
    SplitTakes(c);
    assert c == digest && b == kind + "/" + digest && a == name + "/" + (kind + "/" + digest);
    assert core == "v2" + "/" + a && "v2" + "/" == "v2/";
    assert core == Core(name, kind, digest);
    if digest == "" {
      EmptyDigestEnds(name, kind);
    }
  }

  /** Every path is answered as follows: a signature if there is one, the listing and the empty
      object on their paths, a blob or a manifest if it is asked for and there, and nothing else. */
  lemma {:induction false} ReplyByPath(v: View, path: string)
    requires path !in v.signatures
    ensures path == "/index/static" || path == "/index/dynamic" ==>
              Respond(v, path) == Listing(map name | name in v.images :: v.images[name].record)
    ensures path == "/v2" || path == "/v2/" ==> Respond(v, path) == EmptyJson
    ensures forall name, digest | Asks(path, name, "blobs", digest) ::
              Respond(v, path) == if name in v.blobs && digest in v.blobs[name]
                                  then Data(v.blobs[name][digest], "application/octet-stream") else Missing
    ensures forall name, digest | Asks(path, name, "manifests", digest) ::
              Respond(v, path) == if Manifested(v, name, digest)
                                  then Data(v.images[name].blobs[v.images[name].digest],
                                            v.images[name].record.mediaType)
                                  else Missing
    ensures path !in {"/index/static", "/index/dynamic", "/v2", "/v2/"}
            && (forall name, digest :: !Asks(path, name, "blobs", digest) && !Asks(path, name, "manifests", digest)) ==>
              Respond(v, path) == Missing
  {
    hide Route, Asks;
    if path in {"/index/static", "/index/dynamic", "/v2", "/v2/"} {
      FixedPathsHaveNoRoute(path);
    }
    if Route(path).Some? {
      RouteIsAsked(path);
    }
    forall name, kind, digest | Asks(path, name, kind, digest) ensures Route(path) == Some((name, kind, digest)) {
      RouteReads(path, name, kind, digest);
    }
  }

  /** The manifest of the image, asked for by its digest or as the latest one. */
  predicate Manifested(v: View, name: string, digest: string) {
    && name in v.images && (digest == "latest" || digest == v.images[name].digest)
    && v.images[name].digest in v.images[name].blobs
  }

  /** The plain path of a blob is answered with the blob exactly if it is stored. */
  lemma {:induction false} BlobPath(v: View, name: string, digest: string)
    requires name != "" && digest != "" && '/' !in name && '/' !in digest
    ensures var path := "/v2/" + name + "/blobs/" + digest;
            path !in v.signatures ==>
              Respond(v, path) == if name in v.blobs && digest in v.blobs[name]
                                  then Data(v.blobs[name][digest], "application/octet-stream") else Missing
  {
    var path := "/v2/" + name + "/blobs/" + digest;
    PlainPathAsks(name, "blobs", digest);
    assert "/v2/" + name + "/" + "blobs" + "/" + digest == path;
    hide Respond, Asks;
    if path !in v.signatures {
      ReplyByPath(v, path);
    }
  }

  /** So is that of a manifest, by the listed digest or as the latest. */
  lemma {:induction false} ManifestPath(v: View, name: string, digest: string)
    requires name != "" && digest != "" && '/' !in name && '/' !in digest
    ensures var path := "/v2/" + name + "/manifests/" + digest;
            path !in v.signatures ==>
              Respond(v, path) == if Manifested(v, name, digest)
                                  then Data(v.images[name].blobs[v.images[name].digest],
                                            v.images[name].record.mediaType)
                                  else Missing
  {
    var path := "/v2/" + name + "/manifests/" + digest;
    PlainPathAsks(name, "manifests", digest);
    assert "/v2/" + name + "/" + "manifests" + "/" + digest == path;
    hide Respond, Asks;
    if path !in v.signatures {
      ReplyByPath(v, path);
    }
  }

  /** A signature is sent exactly under its path, whatever else the path asks for. */
  lemma SignedPath(v: View, path: string)
    ensures Respond(v, path).Signature? <==> path in v.signatures
    ensures path in v.signatures ==> Respond(v, path) == Signature(v.signatures[path])
  {
    hide Route;
  }

  function BlobRequest(name: string, digest: string): string { "/v2/" + name + "/blobs/" + digest }

  function ManifestRequest(name: string, digest: string): string { "/v2/" + name + "/manifests/" + digest }

  /** After an image is published its blobs are sent, and those stored before under the name. */
  lemma PublishedBlobs(v: View, name: string, image: Published, digest: string)
    requires name != "" && digest != "" && '/' !in name && '/' !in digest && v.signatures == map[]
    ensures var path := BlobRequest(name, digest);
            Respond(Publishing(v, name, image), path)
            == if digest in image.blobs then Data(image.blobs[digest], "application/octet-stream")
               else Respond(v, path)
  {
    hide Respond;
    BlobPath(v, name, digest);
    BlobPath(Publishing(v, name, image), name, digest);
  }

  /** Its manifest is sent as the latest and by its digest, and no earlier one of the name. */
  lemma PublishedManifest(v: View, name: string, image: Published, digest: string)
    requires name != "" && digest != "" && '/' !in name && '/' !in digest && v.signatures == map[]
    requires image.digest in image.blobs
    ensures Respond(Publishing(v, name, image), ManifestRequest(name, digest))
            == if digest in {"latest", image.digest} then Data(image.blobs[image.digest], image.record.mediaType)
               else Missing
  {
    hide Respond;
    ManifestPath(Publishing(v, name, image), name, digest);
  }

  /** Requests for other names are answered as before. */
  lemma OtherNamesAreAnsweredAlike(v: View, name: string, image: Published, other: string, digest: string)
    requires other !in {"", name} && digest != "" && '/' !in other && '/' !in digest && v.signatures == map[]
    ensures var after := Publishing(v, name, image);
            && Respond(after, BlobRequest(other, digest)) == Respond(v, BlobRequest(other, digest))
            && Respond(after, ManifestRequest(other, digest)) == Respond(v, ManifestRequest(other, digest))
  {
    hide Respond;
    var after := Publishing(v, name, image);
    BlobPath(v, other, digest);
    BlobPath(after, other, digest);
    ManifestPath(v, other, digest);
    ManifestPath(after, other, digest);
  }

  /** The listing names the image besides those listed before. */
  lemma PublishedListing(v: View, name: string, image: Published)
    requires v.signatures == map[]
    ensures Respond(Publishing(v, name, image), "/index/static")
            == Listing((map n | n in v.images :: v.images[n].record)[name := image.record])
  {
    hide Respond;
    ReplyByPath(Publishing(v, name, image), "/index/static");
  }

  lemma PlainPathAsks(name: string, kind: string, digest: string)
    requires digest != "" && '/' !in name && '/' !in kind && '/' !in digest
    ensures Asks("/v2/" + name + "/" + kind + "/" + digest, name, kind, digest)
  {
    var path := "/v2/" + name + "/" + kind + "/" + digest;
    assert path == "/" + Core(name, kind, digest) + "";
    assert AllSlashes("/") && AllSlashes("");
  }
}
