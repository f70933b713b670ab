/**
 * The two Vault KV version 2 stores, reduced to the answers they give the copy
 * tool.  The source store is a value: it answers list requests by logical path
 * and "get latest version" requests by mount and relative path.  The
 * destination store is an object whose secrets the tool overwrites in place.
 * Transport, authentication and the HTTP API are not modelled; a store's
 * failures are injected as part of its state.
 */
module Vault {
  import opened Wrappers
  import opened GoPath

  /** A JSON value as the Vault client decodes it; only strings and arrays matter here. */
  datatype Value = Str(s: string) | Arr(items: seq<Value>) | Other(repr: string)

  /** The field mapping of one secret version, passed through unchanged. */
  type SecretData = map<string, Value>

  /** A secret's address: the KV mount and the path relative to it. */
  datatype KvPath = KvPath(mount: string, path: string)

  /** What Logical().List returns: an error, a nil secret, or a secret whose Data may be nil. */
  datatype ListReply =
    | ListFailed(err: string)
    | NoListing
    | Listing(data: Option<map<string, Value>>)

  /** What KVv2(mount).Get returns: an error, a nil secret, or the latest version's data. */
  datatype GetReply =
    | GetFailed(err: string)
    | NoSecret
    | Latest(data: SecretData)

  /** How KVv2(mount).Put can fail: an error, or a nil result without an error. */
  datatype PutFault = PutFailed(err: string) | NoPutResult

  /** The source store: its answer to every list path and to every secret address. */
  datatype Source = Source(listings: map<string, ListReply>, secrets: map<KvPath, GetReply>)
  {
    /** A path the store has no answer for has no listing, as Vault's list returns nil on "not found". */
    function List(listPath: string): ListReply
    {
      if listPath in listings then listings[listPath] else NoListing
    }

    function Get(mount: string, path: string): GetReply
    {
      var k := KvPath(mount, path);
      if k in secrets then secrets[k] else NoSecret
    }
  }

  /** The walker lists a KV version 2 node through the mount's metadata endpoint. */
  function ListPath(mount: string, path: string): string
  {
    Join([mount, "metadata", path])
  }

  /**
   * The list path of a node is the mount's segments (trailing or doubled
   * slashes dropped), then "metadata", then the node's own segments: the
   * metadata prefix sits between mount and path, and the root node ("") is
   * listed at "<mount>/metadata".
   */
  lemma ListPathLayout(mountSegs: seq<string>, names: seq<string>)
    requires |mountSegs| > 0 && ProperName(mountSegs[0]) && ProperOrEmpty(mountSegs)
    requires AllProper(names)
    ensures ListPath(JoinSlash(mountSegs), JoinSlash(names))
         == JoinSlash(NonEmpty(mountSegs) + ["metadata"] + names)
  {
    var xs := mountSegs + ["metadata"] + names;
    ListPathJoined(mountSegs, names);
    assert ProperOrEmpty(xs);
    CleanJoined(xs);
    NonEmptyLayout(mountSegs, names);
  }

  /** The list path is the cleaned join of the mount's segments, "metadata" and the node's segments. */
  lemma ListPathJoined(mountSegs: seq<string>, names: seq<string>)
    requires |mountSegs| > 0 && mountSegs[0] != "" && AllProper(names)
    ensures ListPath(JoinSlash(mountSegs), JoinSlash(names)) == Clean(JoinSlash(mountSegs + ["metadata"] + names))
  {
    var m := JoinSlash(mountSegs);
    var p := JoinSlash(names);
    JoinSlashHead(mountSegs);
    if names != [] { JoinSlashHead(names); }
    ListPathCleaned(m, p);
    if names == [] {
      ListPathRootJoined(mountSegs);
      assert [m, "metadata"] + [] == [m, "metadata"];
      assert mountSegs + ["metadata"] + names == mountSegs + ["metadata"];
    } else {
      ListPathNodeJoined(mountSegs, names);
      assert [m, "metadata"] + [p] == [m, "metadata", p];
    }
  }

  /** The non-empty segments of a list path. */
  lemma NonEmptyLayout(mountSegs: seq<string>, names: seq<string>)
    requires AllProper(names)
    ensures NonEmpty(mountSegs + ["metadata"] + names) == NonEmpty(mountSegs) + ["metadata"] + names
  {
    NonEmptyConcat(mountSegs + ["metadata"], names);
    NonEmptyConcat(mountSegs, ["metadata"]);
    NonEmptyProper(names);
    assert NonEmpty(["metadata"]) == ["metadata"] + NonEmpty([]);
  }

  /** The list path below a non-empty mount is the cleaned join of its non-empty elements. */
  lemma ListPathCleaned(m: string, p: string)
    requires m != ""
    ensures ListPath(m, p) == Clean(JoinSlash([m, "metadata"] + (if p == "" then [] else [p])))
  {
    var elems := [m, "metadata", p];
    assert elems[1..] == ["metadata", p];
    assert elems[1..][1..] == [p];
    assert NonEmpty([p]) == (if p == "" then [] else [p]) + NonEmpty([]);
    assert NonEmpty(elems) == [m, "metadata"] + (if p == "" then [] else [p]);
    JoinNonEmpty(elems);
  }

  /** The joined list path of the mount root. */
  lemma ListPathRootJoined(mountSegs: seq<string>)
    requires |mountSegs| > 0
    ensures JoinSlash([JoinSlash(mountSegs), "metadata"]) == JoinSlash(mountSegs + ["metadata"])
  {
    JoinSlashAppend(mountSegs, ["metadata"]);
    assert [JoinSlash(mountSegs), "metadata"][1..] == ["metadata"];
  }

  /** The joined list path of a node below the mount root. */
  lemma ListPathNodeJoined(mountSegs: seq<string>, names: seq<string>)
    requires |mountSegs| > 0 && |names| > 0
    ensures JoinSlash([JoinSlash(mountSegs), "metadata", JoinSlash(names)])
         == JoinSlash(mountSegs + ["metadata"] + names)
  {
    var m := JoinSlash(mountSegs);
    var p := JoinSlash(names);
    var tail := ["metadata"] + names;
    assert mountSegs + ["metadata"] + names == mountSegs + tail;
    JoinSlashAppend(mountSegs, tail);
    JoinSlashAppend(["metadata"], names);
    var kept := [m, "metadata", p];
    assert kept[1..] == ["metadata", p];
    assert kept[1..][1..] == [p];
    assert JoinSlash(kept[1..]) == "metadata" + "/" + p;
  }

  /** The destination store: the latest data at every address, and the addresses whose Put fails. */
  class Destination {
    var secrets: map<KvPath, SecretData>
    const faults: map<KvPath, PutFault>

    constructor (initial: map<KvPath, SecretData>, faults: map<KvPath, PutFault>)
      ensures secrets == initial && this.faults == faults
    {
      secrets := initial;
      this.faults := faults;
    }

    /** KVv2(mount).Put: a new latest version holding exactly data, or the injected fault and no write. */
    method Put(mount: string, path: string, data: SecretData) returns (fault: Option<PutFault>)
      modifies this
      ensures fault.Some? <==> KvPath(mount, path) in faults
      ensures fault.Some? ==> fault.value == faults[KvPath(mount, path)]
      ensures secrets == if fault.None? then old(secrets)[KvPath(mount, path) := data] else old(secrets)
    {
      var k := KvPath(mount, path);
      if k in faults {
        fault := Some(faults[k]);
      } else {
        secrets := secrets[k := data];
        fault := None;
      }
    }
  }
}
