/**
 * A worked migration.  The source mount m + "/" has a root listing
 * [d1 + "/", d2 + "/"]; the directory d1 lists the leaf l1 and d2 lists the
 * leaf l2.  The destination mount starts empty and accepts every write.  With
 * m = "app", d1 = "db", l1 = "password", d2 = "api" and l2 = "key" this is
 * the store holding db/password and api/key.
 */
module Scenario {
  import opened Wrappers
  import opened GoPath
  import opened Vault
  import opened Migrate

  /** The names of the example tree: proper path segments, the two directories distinct. */
  predicate Names(m: string, d1: string, l1: string, d2: string, l2: string)
  {
    ProperName(m) && ProperName(d1) && ProperName(l1) && ProperName(d2) && ProperName(l2) && d1 != d2
  }

  function Keys(keys: seq<Value>): ListReply
  {
    Listing(Some(map["keys" := Arr(keys)]))
  }

  function Store(m: string, d1: string, l1: string, d2: string, l2: string,
                 data1: SecretData, data2: SecretData): Source
  {
    Source(
      map[JoinSlash([m, "metadata"]) := Keys([Str(d1 + "/"), Str(d2 + "/")]),
          JoinSlash([m, "metadata", d1]) := Keys([Str(l1)]),
          JoinSlash([m, "metadata", d2]) := Keys([Str(l2)])],
      map[KvPath(m + "/", JoinSlash([d1, l1])) := Latest(data1),
          KvPath(m + "/", JoinSlash([d2, l2])) := Latest(data2)])
  }

  /** The copies the walk performs: the two leaves, in listing order, each at the path it was read from. */
  function Expected(d1: string, l1: string, d2: string, l2: string, data1: SecretData, data2: SecretData): seq<Copy>
  {
    [Copy(JoinSlash([d1, l1]), JoinSlash([d1, l1]), data1), Copy(JoinSlash([d2, l2]), JoinSlash([d2, l2]), data2)]
  }

  lemma NoSlashProper(xs: seq<string>)
    requires AllProper(xs)
    ensures NoSlash(xs)
  {
  }

  /** Where a node names of the mount m + "/" is listed. */
  lemma NodeListPath(m: string, names: seq<string>)
    requires ProperName(m) && AllProper(names)
    ensures ListPath(m + "/", JoinSlash(names)) == JoinSlash([m, "metadata"] + names)
  {
    assert [m, ""][1..] == [""];
    assert [""][1..] == [];
    assert JoinSlash([m, ""]) == m + "/";
    assert NonEmpty([m, ""]) == [m];
    ListPathLayout([m, ""], names);
    assert [m] + ["metadata"] + names == [m, "metadata"] + names;
  }

  /** The paths below the directory d: its own, where it is listed, and those of its leaf l. */
  lemma DirectoryPaths(m: string, d: string, l: string)
    requires ProperName(m) && ProperName(d) && ProperName(l)
    ensures Join(["", d + "/"]) == d
    ensures ListPath(m + "/", d) == JoinSlash([m, "metadata", d])
    ensures Join([d, l]) == JoinSlash([d, l])
    ensures ListPath(m + "/", JoinSlash([d, l])) == JoinSlash([m, "metadata", d, l])
  {
    JoinChild([], d + "/", d);
    assert [] + [d] == [d];
    NodeListPath(m, [d]);
    assert [m, "metadata"] + [d] == [m, "metadata", d];
    JoinChild([d], l, l);
    assert [d] + [l] == [d, l];
    NodeListPath(m, [d, l]);
    assert [m, "metadata"] + [d, l] == [m, "metadata", d, l];
  }

  /** Different segment lists without slashes are listed at different paths. */
  lemma Apart(xs: seq<string>, ys: seq<string>)
    requires AllProper(xs) && AllProper(ys) && |xs| > 0 && |ys| > 0 && xs != ys
    ensures JoinSlash(xs) != JoinSlash(ys)
  {
    NoSlashProper(xs);
    NoSlashProper(ys);
    if JoinSlash(xs) == JoinSlash(ys) {
      JoinSlashInjective(xs, ys);
    }
  }

  /** The three listed paths are distinct, and neither leaf is listed. */
  lemma ListedPaths(m: string, d1: string, l1: string, d2: string, l2: string, data1: SecretData, data2: SecretData)
    requires Names(m, d1, l1, d2, l2)
    ensures var src := Store(m, d1, l1, d2, l2, data1, data2);
            && src.List(JoinSlash([m, "metadata"])) == Keys([Str(d1 + "/"), Str(d2 + "/")])
            && src.List(JoinSlash([m, "metadata", d1])) == Keys([Str(l1)])
            && src.List(JoinSlash([m, "metadata", d2])) == Keys([Str(l2)])
            && src.List(JoinSlash([m, "metadata", d1, l1])) == NoListing
            && src.List(JoinSlash([m, "metadata", d2, l2])) == NoListing
  {
    var root, dir1, dir2 := [m, "metadata"], [m, "metadata", d1], [m, "metadata", d2];
    var leaf1, leaf2 := [m, "metadata", d1, l1], [m, "metadata", d2, l2];
    assert dir1[2] != dir2[2];
    Apart(root, dir1);
    Apart(root, dir2);
    Apart(dir1, dir2);
    Apart(leaf1, root);
    Apart(leaf1, dir1);
    Apart(leaf1, dir2);
    Apart(leaf2, root);
    Apart(leaf2, dir1);
    Apart(leaf2, dir2);
  }

  /** The two leaves are stored at distinct addresses. */
  lemma SecretPaths(m: string, d1: string, l1: string, d2: string, l2: string, data1: SecretData, data2: SecretData)
    requires Names(m, d1, l1, d2, l2)
    ensures var src := Store(m, d1, l1, d2, l2, data1, data2);
            src.Get(m + "/", JoinSlash([d1, l1])) == Latest(data1) && src.Get(m + "/", JoinSlash([d2, l2])) == Latest(data2)
  {
    assert [d1, l1][0] != [d2, l2][0];
    Apart([d1, l1], [d2, l2]);
  }

  /** The walk of one directory copies its one leaf and goes no deeper. */
  lemma DirectoryRun(m: string, d1: string, l1: string, d2: string, l2: string,
                     data1: SecretData, data2: SecretData, dm: string, first: bool)
    requires Names(m, d1, l1, d2, l2)
    ensures var src := Store(m, d1, l1, d2, l2, data1, data2);
            var d, l, data := if first then d1 else d2, if first then l1 else l2, if first then data1 else data2;
            WalkSpec(src, map[], m + "/", d, dm, d, 1) == Run([Copy(JoinSlash([d, l]), JoinSlash([d, l]), data)], None)
  {
    var src := Store(m, d1, l1, d2, l2, data1, data2);
    var d, l, data := if first then d1 else d2, if first then l1 else l2, if first then data1 else data2;
    DirectoryPaths(m, d, l);
    ListedPaths(m, d1, l1, d2, l2, data1, data2);
    SecretPaths(m, d1, l1, d2, l2, data1, data2);
    var leaf := JoinSlash([d, l]);
    assert WalkSpec(src, map[], m + "/", leaf, dm, leaf, 0) == Run([Copy(leaf, leaf, data)], None);
    assert KeyStep(src, map[], m + "/", d, dm, d, JoinSlash([m, "metadata", d]), Str(l), 0, 1)
        == Run([Copy(leaf, leaf, data)], None);
    assert [Copy(leaf, leaf, data)] + [] == [Copy(leaf, leaf, data)];
  }

  /** The whole walk from the root: both leaves are copied, in listing order, and the run finishes. */
  lemma ScenarioRun(m: string, d1: string, l1: string, d2: string, l2: string,
                    data1: SecretData, data2: SecretData, dm: string)
    requires Names(m, d1, l1, d2, l2)
    ensures WalkSpec(Store(m, d1, l1, d2, l2, data1, data2), map[], m + "/", "", dm, "", 2)
         == Run(Expected(d1, l1, d2, l2, data1, data2), None)
  {
    var src := Store(m, d1, l1, d2, l2, data1, data2);
    NodeListPath(m, []);
    assert [m, "metadata"] + [] == [m, "metadata"];
    DirectoryPaths(m, d1, l1);
    DirectoryPaths(m, d2, l2);
    ListedPaths(m, d1, l1, d2, l2, data1, data2);
    DirectoryRun(m, d1, l1, d2, l2, data1, data2, dm, true);
    DirectoryRun(m, d1, l1, d2, l2, data1, data2, dm, false);
    var rootList := JoinSlash([m, "metadata"]);
    var keys := [Str(d1 + "/"), Str(d2 + "/")];
    var c1 := Copy(JoinSlash([d1, l1]), JoinSlash([d1, l1]), data1);
    var c2 := Copy(JoinSlash([d2, l2]), JoinSlash([d2, l2]), data2);
    assert KeyStep(src, map[], m + "/", "", dm, "", rootList, keys[0], 0, 2) == Run([c1], None);
    assert KeyStep(src, map[], m + "/", "", dm, "", rootList, keys[1], 1, 2) == Run([c2], None);
    assert KeysFrom(src, map[], m + "/", "", dm, "", rootList, keys, 2, 2) == Run([], None);
    assert [c2] + [] == [c2];
    assert KeysFrom(src, map[], m + "/", "", dm, "", rootList, keys, 1, 2) == Run([c2], None);
    assert KeysFrom(src, map[], m + "/", "", dm, "", rootList, keys, 0, 2) == Run([c1] + [c2], None);
    assert [c1] + [c2] == Expected(d1, l1, d2, l2, data1, data2);
  }

  /**
   * A secret and a directory with the same name d: Vault lists both d and
   * d + "/" at the root.  path.Join gives the child d for either key, and d
   * is listed, so both keys walk the directory and the secret d is never read.
   */
  function SharedStore(m: string, d: string, l: string, secret: SecretData, data: SecretData): Source
  {
    Source(
      map[JoinSlash([m, "metadata"]) := Keys([Str(d), Str(d + "/")]),
          JoinSlash([m, "metadata", d]) := Keys([Str(l)])],
      map[KvPath(m + "/", d) := Latest(secret),
          KvPath(m + "/", JoinSlash([d, l])) := Latest(data)])
  }

  /** What that store answers at the paths the walk visits. */
  lemma SharedPaths(m: string, d: string, l: string, secret: SecretData, data: SecretData)
    requires ProperName(m) && ProperName(d) && ProperName(l)
    ensures var src := SharedStore(m, d, l, secret, data);
            && src.List(JoinSlash([m, "metadata"])) == Keys([Str(d), Str(d + "/")])
            && src.List(JoinSlash([m, "metadata", d])) == Keys([Str(l)])
            && src.List(JoinSlash([m, "metadata", d, l])) == NoListing
            && src.Get(m + "/", d) == Latest(secret)
            && src.Get(m + "/", JoinSlash([d, l])) == Latest(data)
            && d != JoinSlash([d, l])
  {
    Apart([m, "metadata"], [m, "metadata", d]);
    Apart([m, "metadata", d, l], [m, "metadata"]);
    Apart([m, "metadata", d, l], [m, "metadata", d]);
    assert JoinSlash([d]) == d;
    Apart([d], [d, l]);
  }

  /** The walk of the directory d copies its leaf and goes no deeper. */
  lemma SharedDirectoryRun(m: string, d: string, l: string, secret: SecretData, data: SecretData, dm: string)
    requires ProperName(m) && ProperName(d) && ProperName(l)
    ensures WalkSpec(SharedStore(m, d, l, secret, data), map[], m + "/", d, dm, d, 1)
         == Run([Copy(JoinSlash([d, l]), JoinSlash([d, l]), data)], None)
  {
    var src := SharedStore(m, d, l, secret, data);
    DirectoryPaths(m, d, l);
    SharedPaths(m, d, l, secret, data);
    var leafPath := JoinSlash([d, l]);
    var leaf := Copy(leafPath, leafPath, data);
    assert WalkSpec(src, map[], m + "/", leafPath, dm, leafPath, 0) == Run([leaf], None);
    assert KeyStep(src, map[], m + "/", d, dm, d, JoinSlash([m, "metadata", d]), Str(l), 0, 1) == Run([leaf], None);
    assert [leaf] + [] == [leaf];
  }

  /** Both root keys, d and d + "/", lead to the directory d, and each walks it once. */
  lemma SharedRootRun(m: string, d: string, l: string, secret: SecretData, data: SecretData, dm: string)
    requires ProperName(m) && ProperName(d) && ProperName(l)
    ensures var leaf := Copy(JoinSlash([d, l]), JoinSlash([d, l]), data);
            WalkSpec(SharedStore(m, d, l, secret, data), map[], m + "/", "", dm, "", 2) == Run([leaf, leaf], None)
  {
    var src := SharedStore(m, d, l, secret, data);
    var rootList := JoinSlash([m, "metadata"]);
    NodeListPath(m, []);
    assert [m, "metadata"] + [] == [m, "metadata"];
    DirectoryPaths(m, d, l);
    JoinChild([], d, d);
    assert [] + [d] == [d];
    SharedPaths(m, d, l, secret, data);
    SharedDirectoryRun(m, d, l, secret, data, dm);
    var leaf := Copy(JoinSlash([d, l]), JoinSlash([d, l]), data);
    var keys := [Str(d), Str(d + "/")];
    assert KeyStep(src, map[], m + "/", "", dm, "", rootList, keys[0], 0, 2) == Run([leaf], None);
    assert KeyStep(src, map[], m + "/", "", dm, "", rootList, keys[1], 1, 2) == Run([leaf], None);
    assert KeysFrom(src, map[], m + "/", "", dm, "", rootList, keys, 2, 2) == Run([], None);
    assert [leaf] + [] == [leaf];
    assert KeysFrom(src, map[], m + "/", "", dm, "", rootList, keys, 1, 2) == Run([leaf], None);
    assert [leaf] + [leaf] == [leaf, leaf];
  }

  /**
   * The walk of that store copies the directory's leaf twice and finishes;
   * the secret d is stored at the source, but the destination never receives
   * it.
   */
  lemma SharedNameRun(m: string, d: string, l: string, secret: SecretData, data: SecretData, dm: string)
    requires ProperName(m) && ProperName(d) && ProperName(l)
    ensures var src := SharedStore(m, d, l, secret, data);
            var leaf := Copy(JoinSlash([d, l]), JoinSlash([d, l]), data);
            var r := WalkSpec(src, map[], m + "/", "", dm, "", 2);
            && src.Get(m + "/", d) == Latest(secret)
            && r == Run([leaf, leaf], None)
            && KvPath(dm, d) !in Apply(map[], dm, r.copies)
  {
    SharedPaths(m, d, l, secret, data);
    SharedRootRun(m, d, l, secret, data, dm);
    var leaf := Copy(JoinSlash([d, l]), JoinSlash([d, l]), data);
    var copies := [leaf, leaf];
    assert copies[..|copies| - 1] == [leaf];
    assert [leaf][..0] == [];
    assert Apply(map[], dm, [leaf]) == map[KvPath(dm, JoinSlash([d, l])) := data];
    assert Apply(map[], dm, copies) == map[KvPath(dm, JoinSlash([d, l])) := data];
  }
  /**
   * Migrating the example into an empty destination leaves exactly the two
   * secrets, at the paths they were read from, with the source's field
   * mappings; the directories are never written.  Any depth bound of two or
   * more gives this run.
   */
  method ScenarioMigration(m: string, d1: string, l1: string, d2: string, l2: string,
                           data1: SecretData, data2: SecretData, dm: string, depth: nat)
    returns (fatal: Option<Fatal>, result: map<KvPath, SecretData>)
    requires Names(m, d1, l1, d2, l2) && depth >= 2
    ensures fatal == None
    ensures result == map[KvPath(dm, JoinSlash([d1, l1])) := data1, KvPath(dm, JoinSlash([d2, l2])) := data2]
  {
    var src := Store(m, d1, l1, d2, l2, data1, data2);
    ScenarioRun(m, d1, l1, d2, l2, data1, data2, dm);
    WalkDepthIrrelevant(src, map[], m + "/", "", dm, "", 2, depth);
    var dst := new Destination(map[], map[]);
    fatal := CopyMount(src, m + "/", dm, dst, depth);
    result := dst.secrets;
    var copies := Expected(d1, l1, d2, l2, data1, data2);
    assert copies[..1] == [copies[0]];
    assert copies[..1][..0] == [];
    assert Apply(map[], dm, copies[..1]) == map[KvPath(dm, JoinSlash([d1, l1])) := data1];
    assert result == Apply(map[], dm, copies);
  }

  /** The example with its names: app/db/password = {value: "x"} and app/api/key = {value: "y"}, copied into backup/. */
  method AppMigration() returns (fatal: Option<Fatal>, result: map<KvPath, SecretData>)
    ensures fatal == None
    ensures result == map[KvPath("backup/", "db/password") := map["value" := Str("x")],
                          KvPath("backup/", "api/key") := map["value" := Str("y")]]
  {
    assert ["db", "password"][1..] == ["password"];
    assert JoinSlash(["db", "password"]) == "db" + "/" + "password" == "db/password";
    assert ["api", "key"][1..] == ["key"];
    assert JoinSlash(["api", "key"]) == "api" + "/" + "key" == "api/key";
    fatal, result := ScenarioMigration("app", "db", "password", "api", "key",
                                       map["value" := Str("x")], map["value" := Str("y")], "backup/", 2);
  }
}
