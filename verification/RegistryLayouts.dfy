/** Which layouts load, by the files they hold. */
module RegistryLayouts {
  import opened Options
  import opened Registry

  /** The last file whose name, behind the name of the hash, is the digest. */
  predicate IsLast(files: seq<(string, Bytes)>, i: nat, digest: string) {
    i < |files| && digest == "sha256:" + files[i].0 && forall j :: i < j < |files| ==> files[j].0 != files[i].0
  }

  predicate AllHash(hex: Bytes -> string, files: seq<(string, Bytes)>) {
    forall i :: 0 <= i < |files| ==> hex(files[i].1) == files[i].0
  }

  lemma PrefixedDiffer(a: string, b: string)
    ensures "sha256:" + a == "sha256:" + b <==> a == b
  {
    assert ("sha256:" + a)[7..] == a && ("sha256:" + b)[7..] == b;
  }

  lemma IsLastSnoc(files: seq<(string, Bytes)>, last: (string, Bytes), i: nat, digest: string)
    ensures IsLast(files + [last], i, digest) <==>
              if digest == "sha256:" + last.0 then i == |files| else IsLast(files, i, digest)
  {
    var all := files + [last];
    assert all[|files|] == last && forall j :: 0 <= j < |files| ==> all[j] == files[j];
    if i < |files| && digest == "sha256:" + files[i].0 {
      PrefixedDiffer(files[i].0, last.0);
    }
  }

  /** The files are gathered exactly if each hashes to its name; a blob is the last file of its name. */
  lemma {:induction false} GatheredByFiles(hex: Bytes -> string, files: seq<(string, Bytes)>)
    ensures Gather(hex, files).Some? <==> AllHash(hex, files)
    ensures Gather(hex, files).Some? ==> forall d: string, i: nat :: i < |files| && IsLast(files, i, d) ==>
              d in Gather(hex, files).value && Gather(hex, files).value[d] == files[i].1
    ensures Gather(hex, files).Some? ==>
              forall d :: d in Gather(hex, files).value ==> exists i: nat :: IsLast(files, i, d)
  {
    hide IsLast;
    if files == [] {
      NoFiles();
    } else {
      var n := |files| - 1;
      GatheredByFiles(hex, files[..n]);
      assert files == files[..n] + [files[n]];
      forall d: string, i: nat
        ensures IsLast(files, i, d) <==> if d == "sha256:" + files[n].0 then i == n else IsLast(files[..n], i, d)
      {
        IsLastSnoc(files[..n], files[n], i, d);
      }
      assert AllHash(hex, files) <==> AllHash(hex, files[..n]) && hex(files[n].1) == files[n].0;
      if Gather(hex, files).Some? {
        forall d: string, i: nat | i < |files| && IsLast(files, i, d)
          ensures d in Gather(hex, files).value && Gather(hex, files).value[d] == files[i].1
        {
          if d != "sha256:" + files[n].0 {
            WithinFront(files[..n], i, d);
          }
        }
        forall d | d in Gather(hex, files).value ensures exists i: nat :: IsLast(files, i, d) {
          if d == "sha256:" + files[n].0 {
            assert IsLast(files, n, d);
          } else {
            var i: nat :| IsLast(files[..n], i, d);
            assert IsLast(files, i, d);
          }
        }
      }
    }
  }

  lemma WithinFront(files: seq<(string, Bytes)>, i: nat, d: string)
    requires IsLast(files, i, d)
    ensures i < |files|
  {
  }

  lemma NoFiles()
    ensures forall d: string, i: nat :: !IsLast([], i, d)
  {
  }

  /** The manifest is the file `i`, its configuration the file `j`, and a record can be made of them. */
  ghost predicate Describes(r: Readers, layout: Layout, i: nat, j: nat) {
    && |layout.manifests| == 1 && IsLast(layout.files, i, layout.manifests[0])
    && r.config(layout.files[i].1).Some? && IsLast(layout.files, j, r.config(layout.files[i].1).value)
    && i < |layout.files| && j < |layout.files|
    && r.record(layout.manifests[0], layout.files[i].1, layout.files[j].1).Some?
  }

  /** A layout loads exactly if it lists one manifest, all its files hash to their names, and manifest and
      configuration are among them and readable; then the record is that of these two. */
  lemma {:induction false} LoadedByFiles(r: Readers, layout: Layout)
    ensures Loaded(r, layout).Some? <==>
              AllHash(r.hex, layout.files) && exists i: nat, j: nat :: Describes(r, layout, i, j)
    ensures forall i: nat, j: nat :: Loaded(r, layout).Some? && Describes(r, layout, i, j) ==>
              Loaded(r, layout).value.0 == layout.manifests[0]
              && Some(Loaded(r, layout).value.2) ==
                   r.record(layout.manifests[0], layout.files[i].1, layout.files[j].1)
    ensures forall k: nat, d: string :: Loaded(r, layout).Some? && k < |layout.files| && IsLast(layout.files, k, d) ==>
              d in Loaded(r, layout).value.1 && Loaded(r, layout).value.1[d] == layout.files[k].1
  {
    GatheredByFiles(r.hex, layout.files);
    hide IsLast, AllHash, Gather;
    if Loaded(r, layout).Some? {
      var blobs := Gather(r.hex, layout.files).value;
      var digest := layout.manifests[0];
      var i: nat :| IsLast(layout.files, i, digest);
      WithinFront(layout.files, i, digest);
      var j: nat :| IsLast(layout.files, j, r.config(blobs[digest]).value);
      WithinFront(layout.files, j, r.config(blobs[digest]).value);
      assert Describes(r, layout, i, j);
    }
  }
}
