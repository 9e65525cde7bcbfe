/** The sidecar file that holds the manifest, and the order in which it is
    replaced: write, sync, rename, sync the directory
    (src/compact_v2_migration_manifest_store.h:44-141).  What the directory could
    show after a crash is, name by name, what the migration machine assumes. */
module ManifestStore {
  import opened Pages
  import opened Manifest
  import opened Crc32
  import opened ManifestCodec

  // A file, and whether its contents have reached the disk.
  datatype File = File(contents: seq<byte>, synced: bool)

  // A file that outlives a crash with the byte form of a valid manifest.
  ghost predicate Holds(f: File, m: Manifest) {
    f.synced && IsValid(m) && Encodes(f.contents, m)
  }

  ghost predicate Matches(f: Option<File>, m: Option<Manifest>) {
    if m.None? then f.None? else f.Some? && Holds(f.value, m.value)
  }

  ghost predicate AllMatch(names: seq<Option<File>>, manifests: seq<Option<Manifest>>) {
    |names| == |manifests| && forall k :: 0 <= k < |names| ==> Matches(names[k], manifests[k])
  }

  lemma LastMatches(names: seq<Option<File>>, manifests: seq<Option<Manifest>>)
    requires AllMatch(names, manifests) && names != []
    ensures Matches(names[|names| - 1], manifests[|manifests| - 1])
    ensures AllMatch([names[|names| - 1]], [manifests[|manifests| - 1]])
  {
    var k := |names| - 1;
    assert Matches(names[k], manifests[k]);
  }

  // The same manifest but for its phase.
  method SameIdentity(a: Manifest, b: Manifest) returns (same: bool)
    ensures same <==> IsValid(a) && IsValid(b) && a == b.(phase := a.phase)
  {
    var aOk := CheckValid(a);
    var bOk := CheckValid(b);
    if !aOk || !bOk || a.tableId != b.tableId || a.oldRoot != b.oldRoot || a.stagedRoot != b.stagedRoot
       || a.oldGeneration != b.oldGeneration || a.newGeneration != b.newGeneration || |a.claims| != |b.claims| {
      return false;
    }
    for i := 0 to |a.claims|
      invariant forall j :: 0 <= j < i ==> a.claims[j] == b.claims[j]
    {
      if a.claims[i] != b.claims[i] {
        return false;
      }
    }
    assert a.claims == b.claims;
    same := true;
  }

  class Sidecar {
    var temp: Option<File>
    // What the directory may show for the active name, oldest possibility first.
    var names: seq<Option<File>>
    ghost var manifests: seq<Option<Manifest>>
    // Whether the next operations succeed; none do when it runs out.
    var luck: seq<bool>

    ghost predicate Valid()
      reads this
    {
      names != [] && AllMatch(names, manifests)
    }

    // The next `n` operations succeed.
    predicate Lucky(n: nat)
      reads this`luck
    {
      n <= |luck| && forall i :: 0 <= i < n ==> luck[i]
    }

    constructor (luck: seq<bool>)
      ensures Valid() && manifests == [None]
    {
      temp, names, manifests, this.luck := None, [None], [None], luck;
    }

    method Try() returns (ok: bool)
      modifies this`luck
      ensures ok == (old(luck) != [] && old(luck)[0])
      ensures luck == if old(luck) == [] then [] else old(luck)[1..]
    {
      if luck == [] {
        return false;
      }
      ok, luck := luck[0], luck[1..];
    }

    // A crash keeps one of the possible names; a file never synced may hold anything.
    method Crash(survivor: nat, torn: seq<byte>)
      requires Valid() && survivor < |names|
      modifies this
      ensures Valid() && manifests == [old(manifests[survivor])]
    {
      assert Matches(names[survivor], manifests[survivor]);
      var file := names[survivor];
      if file.Some? && !file.value.synced {
        file := Some(File(torn, true));
      }
      temp, names, manifests := None, [file], [manifests[survivor]];
    }

    method WriteTemp(contents: seq<byte>) returns (ok: bool)
      modifies this`temp, this`luck
      ensures ok ==> temp == Some(File(contents, false))
      ensures old(Lucky(1)) ==> ok
      ensures luck == if old(luck) == [] then [] else old(luck)[1..]
    {
      ok := Try();
      temp := if ok then Some(File(contents, false)) else None;
    }

    method SyncTemp() returns (ok: bool)
      modifies this`temp, this`luck
      ensures ok && old(temp).Some? ==> temp == Some(File(old(temp).value.contents, true))
      ensures !ok ==> temp == old(temp)
      ensures old(Lucky(1)) ==> ok
      ensures luck == if old(luck) == [] then [] else old(luck)[1..]
    {
      ok := Try();
      if ok && temp.Some? {
        temp := Some(temp.value.(synced := true));
      }
    }

    // Without the sync before it this rename would make torn bytes the manifest.
    method PublishTemp(ghost m: Manifest) returns (ok: bool)
      requires Valid() && temp.Some? && Holds(temp.value, m)
      modifies this
      ensures Valid()
      ensures manifests == if ok then old(manifests) + [Some(m)] else old(manifests)
      ensures old(Lucky(1)) ==> ok
      ensures luck == if old(luck) == [] then [] else old(luck)[1..]
    {
      ok := Try();
      if ok {
        names, manifests, temp := names + [temp], manifests + [Some(m)], None;
      }
    }

    method SyncParent() returns (ok: bool)
      requires Valid()
      modifies this`names, this`manifests, this`luck
      ensures Valid()
      ensures manifests == if ok then [old(manifests[|manifests| - 1])] else old(manifests)
      ensures old(Lucky(1)) ==> ok
    {
      ok := Try();
      if ok {
        LastMatches(names, manifests);
        names, manifests := [names[|names| - 1]], [manifests[|manifests| - 1]];
      }
    }

    // Whatever step fails, the directory shows what it showed before or `m`, never
    // anything else; success means it can only show `m`.
    method PublishDurable(m: Manifest, scratch: array<byte>) returns (ok: bool, length: nat)
      requires Valid()
      modifies this, scratch
      ensures Valid()
      ensures ok ==> manifests == [Some(m)] && length == Size(|m.claims|)
      ensures !ok ==> length == 0 && (manifests == old(manifests) || manifests == old(manifests) + [Some(m)])
      ensures manifests != old(manifests) ==> IsValid(m)
      ensures old(Lucky(4)) && IsValid(m) && Size(|m.claims|) <= scratch.Length ==> ok
    {
      var encoded;
      ok, encoded := Encode(m, scratch);
      length := 0;
      if !ok {
        return;
      }
      ok := WriteTemp(scratch[..encoded]);
      if !ok {
        return;
      }
      assert old(Lucky(4)) ==> Lucky(3);
      ok := SyncTemp();
      if !ok {
        return;
      }
      assert old(Lucky(4)) ==> Lucky(2);
      ok := PublishTemp(m);
      if !ok {
        return;
      }
      assert old(Lucky(4)) ==> Lucky(1);
      ok := SyncParent();
      if ok {
        length := encoded;
      }
    }

    method MarkCatalogPublished(m: Manifest, scratch: array<byte>)
      returns (ok: bool, length: nat, marked: Option<Manifest>)
      requires Valid()
      modifies this, scratch
      ensures Valid()
      ensures ok ==> m.phase == DURABLE_UNPUBLISHED && marked == Some(m.(phase := CATALOG_PUBLISHED))
      ensures ok ==> manifests == [marked]
      ensures !ok ==> marked == None && length == 0
      ensures !ok ==>
        manifests == old(manifests) || manifests == old(manifests) + [Some(m.(phase := CATALOG_PUBLISHED))]
      ensures m.phase != DURABLE_UNPUBLISHED || !IsValid(m) ==> manifests == old(manifests)
      ensures old(Lucky(4)) && IsValid(m) && m.phase == DURABLE_UNPUBLISHED && Size(|m.claims|) <= scratch.Length ==> ok
    {
      ok, length, marked := false, 0, None;
      var valid := CheckValid(m);
      if m.phase != DURABLE_UNPUBLISHED || !valid {
        return;
      }
      var candidate := m.(phase := CATALOG_PUBLISHED);
      var same := SameIdentity(m, candidate);
      if !same {
        return;
      }
      ok, length := PublishDurable(candidate, scratch);
      if ok {
        marked := Some(candidate);
      }
    }

    // Reopening reads back the very manifest that was published.
    method Load(claims: array<u32>) returns (r: Option<Manifest>)
      requires Valid()
      modifies claims
      ensures var m := manifests[|manifests| - 1];
        r == if m.Some? && |m.value.claims| <= claims.Length then m else None
    {
      ghost var m := manifests[|manifests| - 1];
      LastMatches(names, manifests);
      if names[|names| - 1].None? {
        return None;
      }
      r := LoadFile(names[|names| - 1].value, m.value, claims);
    }
  }

  method LoadFile(file: File, ghost m: Manifest, claims: array<u32>) returns (r: Option<Manifest>)
    requires Holds(file, m)
    modifies claims
    ensures r == if |m.claims| <= claims.Length then Some(m) else None
  {
    var n := |file.contents|;
    var buffer := new byte[n](i requires 0 <= i < n => file.contents[i]);
    assert buffer[..n] == file.contents;
    r := Decode(buffer, n, claims);
    if r.Some? {
      OneManifest(file.contents, r.value, m);
    }
  }
}
