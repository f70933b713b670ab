/**
 * The copy tool's core: walkVaultPath and copySecrets from main.go.
 *
 * A run is described by a pure trace: the copies it performs, in order, and
 * the fatal condition that ended it, if any.  The trace depends only on the
 * source store and on the destination's injected Put faults, never on the
 * destination's contents, and the destination afterwards is the old one with
 * the copies applied in order.  log.Fatalf ends the run: every method returns
 * the fatal condition at once and its callers stop.
 */
module Migrate {
  import opened Wrappers
  import opened GoPath
  import opened Vault

  /** The conditions on which the tool calls log.Fatalf (or, for malformed keys, panics). */
  datatype Fatal =
    | ListError(listPath: string, err: string)
    | NoListingData(listPath: string)
    | NoKeys(listPath: string)
    | KeysNotArray(listPath: string)
    | KeyNotString(listPath: string, index: nat)
    | GetError(path: string, err: string)
    | SecretMissing(path: string)
    | PutError(path: string, err: string)
    | PutUnconfirmed(path: string)
    | DepthExceeded(path: string)

  /** One completed copySecrets: the source path read, the destination path written, the data. */
  datatype Copy = Copy(source: string, destination: string, data: SecretData)

  /** The trace of a run: the copies done, and what stopped it (None: it finished). */
  datatype Run = Run(copies: seq<Copy>, fatal: Option<Fatal>)

  /** The copies of done followed by the run r. */
  function After(done: seq<Copy>, r: Run): Run
  {
    Run(done + r.copies, r.fatal)
  }

  /** The destination store after the copies, written into mount in order. */
  function Apply(d: map<KvPath, SecretData>, mount: string, copies: seq<Copy>): map<KvPath, SecretData>
  {
    if |copies| == 0 then d
    else
      var c := copies[|copies| - 1];
      Apply(d, mount, copies[..|copies| - 1])[KvPath(mount, c.destination) := c.data]
  }

  /** The data of the last copy that writes destination path p, if any. */
  function LastWrite(copies: seq<Copy>, p: string): Option<SecretData>
  {
    if |copies| == 0 then None
    else if copies[|copies| - 1].destination == p then Some(copies[|copies| - 1].data)
    else LastWrite(copies[..|copies| - 1], p)
  }

  // ---------------------------------------------------------------------------
  // The specification of a run

  /** copySecrets (main.go:165-188): read the latest version at the source, write its data at the destination. */
  function CopySpec(src: Source, faults: map<KvPath, PutFault>,
                    sourceMount: string, sourcePath: string,
                    destinationMount: string, destinationPath: string): Run
  {
    match src.Get(sourceMount, sourcePath)
    case GetFailed(e) => Run([], Some(GetError(sourcePath, e)))
    case NoSecret => Run([], Some(SecretMissing(sourcePath)))
    case Latest(data) =>
      var to := KvPath(destinationMount, destinationPath);
      if to !in faults then Run([Copy(sourcePath, destinationPath, data)], None)
      else match faults[to]
        case PutFailed(e) => Run([], Some(PutError(destinationPath, e)))
        case NoPutResult => Run([], Some(PutUnconfirmed(destinationPath)))
  }

  /**
   * walkVaultPath (main.go:127-163), descending at most depth levels below
   * this node: list the node; no listing makes it a leaf to copy; a listing
   * must carry Data with an array of string "keys", and each key is walked in
   * order, appended to both relative paths with path.Join.
   */
  function WalkSpec(src: Source, faults: map<KvPath, PutFault>,
                    sourceMount: string, sourcePath: string,
                    destinationMount: string, destinationPath: string, depth: nat): Run
    decreases depth, 1
  {
    var listPath := ListPath(sourceMount, sourcePath);
    match src.List(listPath)
    case ListFailed(e) => Run([], Some(ListError(listPath, e)))
    case NoListing => CopySpec(src, faults, sourceMount, sourcePath, destinationMount, destinationPath)
    case Listing(data) =>
      if data.None? then Run([], Some(NoListingData(listPath)))
      else if "keys" !in data.value then Run([], Some(NoKeys(listPath)))
      else match data.value["keys"]
        case Arr(keys) =>
          KeysFrom(src, faults, sourceMount, sourcePath, destinationMount, destinationPath, listPath, keys, 0, depth)
        case _ => Run([], Some(KeysNotArray(listPath)))
  }

  /** The walk over keys[i..] of the node at sourcePath, stopping at the first fatal condition. */
  function KeysFrom(src: Source, faults: map<KvPath, PutFault>,
                    sourceMount: string, sourcePath: string,
                    destinationMount: string, destinationPath: string,
                    listPath: string, keys: seq<Value>, i: nat, depth: nat): Run
    requires i <= |keys|
    decreases depth, 0, |keys| - i
  {
    if i == |keys| then Run([], None)
    else
      var first := KeyStep(src, faults, sourceMount, sourcePath, destinationMount, destinationPath,
                           listPath, keys[i], i, depth);
      if first.fatal.Some? then first
      else After(first.copies, KeysFrom(src, faults, sourceMount, sourcePath, destinationMount, destinationPath,
                                        listPath, keys, i + 1, depth))
  }

  /** One key of a listing: a string key is appended to both paths and walked one level down. */
  function KeyStep(src: Source, faults: map<KvPath, PutFault>,
                   sourceMount: string, sourcePath: string,
                   destinationMount: string, destinationPath: string,
                   listPath: string, key: Value, i: nat, depth: nat): Run
    decreases depth, 0, 0
  {
    match key
    case Str(k) =>
      var childSource := Join([sourcePath, k]);
      var childDestination := Join([destinationPath, k]);
      if depth == 0 then Run([], Some(DepthExceeded(childSource)))
      else WalkSpec(src, faults, sourceMount, childSource, destinationMount, childDestination, depth - 1)
    case _ => Run([], Some(KeyNotString(listPath, i)))
  }

  // ---------------------------------------------------------------------------
  // The imperative walk over the destination object

  /**
   * copySecrets over the destination object: Get the latest version, stop on
   * an error or a missing secret, Put its data, stop on an error or a nil
   * result.
   */
  method CopySecrets(src: Source, sourceMount: string, sourcePath: string,
                     destinationMount: string, destinationPath: string, dst: Destination)
    returns (fatal: Option<Fatal>)
    modifies dst
    ensures fatal == CopySpec(src, dst.faults, sourceMount, sourcePath, destinationMount, destinationPath).fatal
    ensures dst.secrets == Apply(old(dst.secrets), destinationMount,
                                 CopySpec(src, dst.faults, sourceMount, sourcePath, destinationMount, destinationPath).copies)
  {
    var secret := src.Get(sourceMount, sourcePath);
    match secret {
      case GetFailed(e) =>
        return Some(GetError(sourcePath, e));
      case NoSecret =>
        return Some(SecretMissing(sourcePath));
      case Latest(data) =>
        var fault := dst.Put(destinationMount, destinationPath, data);
        match fault {
          case None =>
            fatal := None;
          case Some(PutFailed(e)) =>
            fatal := Some(PutError(destinationPath, e));
          case Some(NoPutResult) =>
            fatal := Some(PutUnconfirmed(destinationPath));
        }
    }
  }

  /**
   * walkVaultPath over the destination object: the loop over the keys of a
   * listing recurses into each child in turn and stops at the first fatal
   * condition a child reports.
   */
  method WalkVaultPath(src: Source, sourceMount: string, sourcePath: string,
                       destinationMount: string, destinationPath: string, dst: Destination, depth: nat)
    returns (fatal: Option<Fatal>)
    modifies dst
    decreases depth
    ensures fatal == WalkSpec(src, dst.faults, sourceMount, sourcePath, destinationMount, destinationPath, depth).fatal
    ensures dst.secrets == Apply(old(dst.secrets), destinationMount,
                                 WalkSpec(src, dst.faults, sourceMount, sourcePath, destinationMount, destinationPath, depth).copies)
  {
    var listPath := ListPath(sourceMount, sourcePath);
    var listing := src.List(listPath);
    match listing {
      case ListFailed(e) =>
        return Some(ListError(listPath, e));
      case NoListing =>
        fatal := CopySecrets(src, sourceMount, sourcePath, destinationMount, destinationPath, dst);
        return;
      case Listing(data) =>
        if data.None? {
          return Some(NoListingData(listPath));
        }
        if "keys" !in data.value {
          return Some(NoKeys(listPath));
        }
        var keysValue := data.value["keys"];
        if !keysValue.Arr? {
          return Some(KeysNotArray(listPath));
        }
        var keys := keysValue.items;
        ghost var done: seq<Copy> := [];
        ghost var whole := KeysFrom(src, dst.faults, sourceMount, sourcePath, destinationMount, destinationPath,
                                    listPath, keys, 0, depth);
        assert WalkSpec(src, dst.faults, sourceMount, sourcePath, destinationMount, destinationPath, depth) == whole;
        var i := 0;
        while i < |keys|
          invariant 0 <= i <= |keys|
          invariant dst.secrets == Apply(old(dst.secrets), destinationMount, done)
          invariant whole == After(done, KeysFrom(src, dst.faults, sourceMount, sourcePath, destinationMount,
                                                  destinationPath, listPath, keys, i, depth))
        {
          ghost var step := KeyStep(src, dst.faults, sourceMount, sourcePath, destinationMount, destinationPath,
                                    listPath, keys[i], i, depth);
          ghost var rest := KeysFrom(src, dst.faults, sourceMount, sourcePath, destinationMount, destinationPath,
                                     listPath, keys, i + 1, depth);
          assert whole == After(done, if step.fatal.Some? then step else After(step.copies, rest));
          var key := keys[i];
          if !key.Str? {
            assert done + [] == done;
            return Some(KeyNotString(listPath, i));
          }
          var childSource := Join([sourcePath, key.s]);
          var childDestination := Join([destinationPath, key.s]);
          if depth == 0 {
            assert done + [] == done;
            return Some(DepthExceeded(childSource));
          }
          var childFatal := WalkVaultPath(src, sourceMount, childSource, destinationMount, childDestination, dst, depth - 1);
          ApplyConcat(old(dst.secrets), destinationMount, done, step.copies);
          if childFatal.Some? {
            return childFatal;
          }
          assert done + (step.copies + rest.copies) == (done + step.copies) + rest.copies;
          done := done + step.copies;
          i := i + 1;
        }
        assert done + [] == done;
        return None;
    }
  }

  /** main.go:83: the whole migration walks both mounts from their roots. */
  method CopyMount(src: Source, sourceMount: string, destinationMount: string, dst: Destination, depth: nat)
    returns (fatal: Option<Fatal>)
    modifies dst
    ensures fatal == WalkSpec(src, dst.faults, sourceMount, "", destinationMount, "", depth).fatal
    ensures dst.secrets == Apply(old(dst.secrets), destinationMount,
                                 WalkSpec(src, dst.faults, sourceMount, "", destinationMount, "", depth).copies)
    ensures fatal == None ==>
              forall q :: Reaches(src, sourceMount, "", q, depth) && src.List(ListPath(sourceMount, q)) == NoListing ==>
                && src.Get(sourceMount, q).Latest? && KvPath(destinationMount, q) in dst.secrets
                && dst.secrets[KvPath(destinationMount, q)] == src.Get(sourceMount, q).data
    ensures forall k :: k in dst.secrets && (k !in old(dst.secrets) || dst.secrets[k] != old(dst.secrets)[k]) ==>
              && k.mount == destinationMount
              && Reaches(src, sourceMount, "", k.path, depth)
              && src.List(ListPath(sourceMount, k.path)) == NoListing
              && src.Get(sourceMount, k.path).Latest?
              && dst.secrets[k] == src.Get(sourceMount, k.path).data
  {
    fatal := WalkVaultPath(src, sourceMount, "", destinationMount, "", dst, depth);
    forall k | k in dst.secrets && (k !in old(dst.secrets) || dst.secrets[k] != old(dst.secrets)[k])
      ensures k.mount == destinationMount && Reaches(src, sourceMount, "", k.path, depth)
      ensures src.List(ListPath(sourceMount, k.path)) == NoListing && src.Get(sourceMount, k.path).Latest?
      ensures dst.secrets[k] == src.Get(sourceMount, k.path).data
    {
      WrittenAreReachedLeaves(src, dst.faults, sourceMount, destinationMount, old(dst.secrets), k, depth);
    }
    if fatal == None {
      forall q | Reaches(src, sourceMount, "", q, depth) && src.List(ListPath(sourceMount, q)) == NoListing
        ensures src.Get(sourceMount, q).Latest? && KvPath(destinationMount, q) in dst.secrets
        ensures dst.secrets[KvPath(destinationMount, q)] == src.Get(sourceMount, q).data
      {
        ReachedLeavesArrive(src, dst.faults, sourceMount, destinationMount, old(dst.secrets), q, depth);
      }
    }
  }

  // ---------------------------------------------------------------------------
  // Applying copies to the destination

  lemma {:induction false} ApplyConcat(d: map<KvPath, SecretData>, mount: string, a: seq<Copy>, b: seq<Copy>)
    ensures Apply(d, mount, a + b) == Apply(Apply(d, mount, a), mount, b)
    decreases |b|
  {
    if |b| == 0 {
      assert a + b == a;
    } else {
      assert (a + b)[..|a + b| - 1] == a + b[..|b| - 1];
      ApplyConcat(d, mount, a, b[..|b| - 1]);
    }
  }

  /**
   * The destination afterwards: a key of the destination mount that some copy
   * wrote holds the data of the last such copy; every other key, in any
   * mount, keeps what it held before.
   */
  lemma {:induction false} ApplyLookup(d: map<KvPath, SecretData>, mount: string, copies: seq<Copy>, k: KvPath)
    ensures k in Apply(d, mount, copies) <==> k in d || (k.mount == mount && LastWrite(copies, k.path).Some?)
    ensures k in Apply(d, mount, copies) ==>
              Apply(d, mount, copies)[k]
              == if k.mount == mount && LastWrite(copies, k.path).Some? then LastWrite(copies, k.path).value else d[k]
    decreases |copies|
  {
    if |copies| > 0 {
      ApplyLookup(d, mount, copies[..|copies| - 1], k);
    }
  }

  /** Writing the same copies a second time changes nothing. */
  lemma ApplyIdempotent(d: map<KvPath, SecretData>, mount: string, copies: seq<Copy>)
    ensures Apply(Apply(d, mount, copies), mount, copies) == Apply(d, mount, copies)
  {
    var once := Apply(d, mount, copies);
    forall k
      ensures k in Apply(once, mount, copies) <==> k in once
      ensures k in once ==> Apply(once, mount, copies)[k] == once[k]
    {
      ApplyLookup(d, mount, copies, k);
      ApplyLookup(once, mount, copies, k);
    }
  }

  /**
   * Running the migration again over the same stores leaves the destination
   * as the first run left it: the run's trace does not depend on what the
   * destination holds, and every copy overwrites.
   */
  lemma RerunIdempotent(src: Source, faults: map<KvPath, PutFault>, sourceMount: string, destinationMount: string,
                        d: map<KvPath, SecretData>, depth: nat)
    ensures var copies := WalkSpec(src, faults, sourceMount, "", destinationMount, "", depth).copies;
            Apply(Apply(d, destinationMount, copies), destinationMount, copies) == Apply(d, destinationMount, copies)
  {
    ApplyIdempotent(d, destinationMount, WalkSpec(src, faults, sourceMount, "", destinationMount, "", depth).copies);
  }

  // ---------------------------------------------------------------------------
  // What a run copies

  /** The keys of a listing that walkVaultPath descends into: Data holding an array under "keys". */
  function ListedKeys(reply: ListReply): Option<seq<Value>>
  {
    if reply.Listing? && reply.data.Some? && "keys" in reply.data.value && reply.data.value["keys"].Arr?
    then Some(reply.data.value["keys"].items)
    else None
  }

  /**
   * The node q lies within depth levels below the node p of the source
   * mount: q is p, or p is listed with keys and one of its string keys,
   * appended to p with path.Join, leads to q one level further down.
   */
  predicate Reaches(src: Source, sourceMount: string, p: string, q: string, depth: nat)
    decreases depth
  {
    || q == p
    || (&& depth > 0
        && ListedKeys(src.List(ListPath(sourceMount, p))).Some?
        && var keys := ListedKeys(src.List(ListPath(sourceMount, p))).value;
           exists j :: 0 <= j < |keys| && keys[j].Str? && Reaches(src, sourceMount, Join([p, keys[j].s]), q, depth - 1))
  }

  /** A copy the walk may do: its source is a leaf holding that data, and its destination accepts the write. */
  predicate LeafCopy(src: Source, faults: map<KvPath, PutFault>, sourceMount: string, destinationMount: string, c: Copy)
  {
    && src.List(ListPath(sourceMount, c.source)) == NoListing
    && src.Get(sourceMount, c.source) == Latest(c.data)
    && KvPath(destinationMount, c.destination) !in faults
  }

  predicate LeafCopies(src: Source, faults: map<KvPath, PutFault>, sourceMount: string, destinationMount: string,
                       copies: seq<Copy>)
  {
    forall c :: c in copies ==> LeafCopy(src, faults, sourceMount, destinationMount, c)
  }

  /** Every copy writes the same relative path it read. */
  predicate Mirrored(copies: seq<Copy>)
  {
    forall c :: c in copies ==> c.source == c.destination
  }

  /**
   * Only leaves are copied, each with the data of its latest version, and a
   * walk that starts with equal relative paths writes every secret at the
   * path it was read from.
   */
  lemma {:induction false} WalkCopiesLeaves(src: Source, faults: map<KvPath, PutFault>,
                                            sourceMount: string, sourcePath: string,
                                            destinationMount: string, destinationPath: string, depth: nat)
    ensures LeafCopies(src, faults, sourceMount, destinationMount,
                       WalkSpec(src, faults, sourceMount, sourcePath, destinationMount, destinationPath, depth).copies)
    ensures sourcePath == destinationPath ==>
              Mirrored(WalkSpec(src, faults, sourceMount, sourcePath, destinationMount, destinationPath, depth).copies)
    ensures forall c :: c in WalkSpec(src, faults, sourceMount, sourcePath, destinationMount, destinationPath, depth).copies
                        ==> Reaches(src, sourceMount, sourcePath, c.source, depth)
    decreases depth, 1
  {
    var listPath := ListPath(sourceMount, sourcePath);
    match src.List(listPath)
    case ListFailed(_) =>
    case NoListing =>
    case Listing(data) =>
      if data.Some? && "keys" in data.value && data.value["keys"].Arr? {
        KeysCopyLeaves(src, faults, sourceMount, sourcePath, destinationMount, destinationPath,
                       listPath, data.value["keys"].items, 0, depth);
      }
  }

  lemma {:induction false} KeysCopyLeaves(src: Source, faults: map<KvPath, PutFault>,
                                          sourceMount: string, sourcePath: string,
                                          destinationMount: string, destinationPath: string,
                                          listPath: string, keys: seq<Value>, i: nat, depth: nat)
    requires i <= |keys|
    ensures LeafCopies(src, faults, sourceMount, destinationMount,
                       KeysFrom(src, faults, sourceMount, sourcePath, destinationMount, destinationPath,
                                listPath, keys, i, depth).copies)
    ensures sourcePath == destinationPath ==>
              Mirrored(KeysFrom(src, faults, sourceMount, sourcePath, destinationMount, destinationPath,
                                listPath, keys, i, depth).copies)
    ensures listPath == ListPath(sourceMount, sourcePath) && ListedKeys(src.List(listPath)) == Some(keys) ==>
              forall c :: c in KeysFrom(src, faults, sourceMount, sourcePath, destinationMount, destinationPath,
                                        listPath, keys, i, depth).copies
                          ==> Reaches(src, sourceMount, sourcePath, c.source, depth)
    decreases depth, 0, |keys| - i
  {
    if i < |keys| {
      KeyCopiesLeaves(src, faults, sourceMount, sourcePath, destinationMount, destinationPath,
                      listPath, keys[i], i, depth);
      KeysCopyLeaves(src, faults, sourceMount, sourcePath, destinationMount, destinationPath,
                     listPath, keys, i + 1, depth);
      if listPath == ListPath(sourceMount, sourcePath) && ListedKeys(src.List(listPath)) == Some(keys) {
        forall c | c in KeyStep(src, faults, sourceMount, sourcePath, destinationMount, destinationPath,
                                listPath, keys[i], i, depth).copies
          ensures Reaches(src, sourceMount, sourcePath, c.source, depth)
        {
          assert keys[i].Str? && Reaches(src, sourceMount, Join([sourcePath, keys[i].s]), c.source, depth - 1);
        }
      }
    }
  }

  lemma {:induction false} KeyCopiesLeaves(src: Source, faults: map<KvPath, PutFault>,
                                           sourceMount: string, sourcePath: string,
                                           destinationMount: string, destinationPath: string,
                                           listPath: string, key: Value, i: nat, depth: nat)
    ensures LeafCopies(src, faults, sourceMount, destinationMount,
                       KeyStep(src, faults, sourceMount, sourcePath, destinationMount, destinationPath,
                               listPath, key, i, depth).copies)
    ensures sourcePath == destinationPath ==>
              Mirrored(KeyStep(src, faults, sourceMount, sourcePath, destinationMount, destinationPath,
                               listPath, key, i, depth).copies)
    ensures forall c :: c in KeyStep(src, faults, sourceMount, sourcePath, destinationMount, destinationPath,
                                     listPath, key, i, depth).copies
                        ==> key.Str? && depth > 0 && Reaches(src, sourceMount, Join([sourcePath, key.s]), c.source, depth - 1)
    decreases depth, 0, 0
  {
    if key.Str? && depth > 0 {
      WalkCopiesLeaves(src, faults, sourceMount, Join([sourcePath, key.s]),
                       destinationMount, Join([destinationPath, key.s]), depth - 1);
    }
  }

  // ---------------------------------------------------------------------------
  // Every leaf a run reaches is copied

  /** A walk over keys[i..] that finishes walked every key from i on without a fatal condition, and kept its copies. */
  lemma {:induction false} KeysFromIncludes(src: Source, faults: map<KvPath, PutFault>,
                                            sourceMount: string, sourcePath: string,
                                            destinationMount: string, destinationPath: string,
                                            listPath: string, keys: seq<Value>, i: nat, j: nat, depth: nat)
    requires i <= j < |keys|
    requires KeysFrom(src, faults, sourceMount, sourcePath, destinationMount, destinationPath,
                      listPath, keys, i, depth).fatal == None
    ensures KeyStep(src, faults, sourceMount, sourcePath, destinationMount, destinationPath,
                    listPath, keys[j], j, depth).fatal == None
    ensures forall c :: c in KeyStep(src, faults, sourceMount, sourcePath, destinationMount, destinationPath,
                                     listPath, keys[j], j, depth).copies
                        ==> c in KeysFrom(src, faults, sourceMount, sourcePath, destinationMount, destinationPath,
                                          listPath, keys, i, depth).copies
    decreases j - i
  {
    if i < j {
      KeysFromIncludes(src, faults, sourceMount, sourcePath, destinationMount, destinationPath,
                       listPath, keys, i + 1, j, depth);
    }
  }

  /**
   * A walk from p that finishes copies every leaf it reaches: the leaf has a
   * latest version, and a copy of that version from q to the same relative
   * path q is among the run's copies.
   */
  lemma {:induction false} WalkCopiesReached(src: Source, faults: map<KvPath, PutFault>,
                                             sourceMount: string, p: string, destinationMount: string,
                                             q: string, depth: nat)
    requires WalkSpec(src, faults, sourceMount, p, destinationMount, p, depth).fatal == None
    requires Reaches(src, sourceMount, p, q, depth)
    requires src.List(ListPath(sourceMount, q)) == NoListing
    ensures src.Get(sourceMount, q).Latest?
    ensures Copy(q, q, src.Get(sourceMount, q).data) in WalkSpec(src, faults, sourceMount, p, destinationMount, p, depth).copies
    decreases depth
  {
    if q != p {
      var listPath := ListPath(sourceMount, p);
      var keys := ListedKeys(src.List(listPath)).value;
      var j :| 0 <= j < |keys| && keys[j].Str? && Reaches(src, sourceMount, Join([p, keys[j].s]), q, depth - 1);
      assert WalkSpec(src, faults, sourceMount, p, destinationMount, p, depth)
          == KeysFrom(src, faults, sourceMount, p, destinationMount, p, listPath, keys, 0, depth);
      KeysFromIncludes(src, faults, sourceMount, p, destinationMount, p, listPath, keys, 0, j, depth);
      var child := Join([p, keys[j].s]);
      assert KeyStep(src, faults, sourceMount, p, destinationMount, p, listPath, keys[j], j, depth)
          == WalkSpec(src, faults, sourceMount, child, destinationMount, child, depth - 1);
      WalkCopiesReached(src, faults, sourceMount, child, destinationMount, q, depth - 1);
    }
  }

  /** Some copy writes p exactly when LastWrite finds one, and what it finds is the data of such a copy. */
  lemma {:induction false} LastWriteFound(copies: seq<Copy>, p: string)
    ensures LastWrite(copies, p).Some? <==> exists c :: c in copies && c.destination == p
    ensures LastWrite(copies, p).Some? ==>
              exists c :: c in copies && c.destination == p && c.data == LastWrite(copies, p).value
    decreases |copies|
  {
    if |copies| > 0 {
      var front := copies[..|copies| - 1];
      assert copies == front + [copies[|copies| - 1]];
      LastWriteFound(front, p);
    }
  }

  /**
   * A migration that finishes leaves, for every leaf reached from the root of
   * the source mount, that leaf's latest data at the same relative path of
   * the destination mount, whatever the destination held before.
   */
  lemma ReachedLeavesArrive(src: Source, faults: map<KvPath, PutFault>, sourceMount: string, destinationMount: string,
                            d: map<KvPath, SecretData>, q: string, depth: nat)
    requires WalkSpec(src, faults, sourceMount, "", destinationMount, "", depth).fatal == None
    requires Reaches(src, sourceMount, "", q, depth)
    requires src.List(ListPath(sourceMount, q)) == NoListing
    ensures src.Get(sourceMount, q).Latest?
    ensures var after := Apply(d, destinationMount, WalkSpec(src, faults, sourceMount, "", destinationMount, "", depth).copies);
            KvPath(destinationMount, q) in after && after[KvPath(destinationMount, q)] == src.Get(sourceMount, q).data
  {
    var copies := WalkSpec(src, faults, sourceMount, "", destinationMount, "", depth).copies;
    WalkCopiesReached(src, faults, sourceMount, "", destinationMount, q, depth);
    WalkCopiesLeaves(src, faults, sourceMount, "", destinationMount, "", depth);
    var reached := Copy(q, q, src.Get(sourceMount, q).data);
    assert reached in copies && reached.destination == q;
    LastWriteFound(copies, q);
    ApplyLookup(d, destinationMount, copies, KvPath(destinationMount, q));
    var c :| c in copies && c.destination == q && c.data == LastWrite(copies, q).value;
    assert LeafCopy(src, faults, sourceMount, destinationMount, c);
  }

  /**
   * A migration, finished or stopped, writes only reached leaves: every entry
   * of the destination it adds or changes is in the destination mount, at the
   * relative path of a leaf reached from the root of the source mount, and
   * holds that leaf's latest data.
   */
  lemma WrittenAreReachedLeaves(src: Source, faults: map<KvPath, PutFault>, sourceMount: string, destinationMount: string,
                                d: map<KvPath, SecretData>, k: KvPath, depth: nat)
    ensures var after := Apply(d, destinationMount, WalkSpec(src, faults, sourceMount, "", destinationMount, "", depth).copies);
            k in after && (k !in d || after[k] != d[k]) ==>
              && k.mount == destinationMount
              && Reaches(src, sourceMount, "", k.path, depth)
              && src.List(ListPath(sourceMount, k.path)) == NoListing
              && src.Get(sourceMount, k.path).Latest?
              && after[k] == src.Get(sourceMount, k.path).data
  {
    var copies := WalkSpec(src, faults, sourceMount, "", destinationMount, "", depth).copies;
    var after := Apply(d, destinationMount, copies);
    ApplyLookup(d, destinationMount, copies, k);
    if k in after && (k !in d || after[k] != d[k]) {
      WalkCopiesLeaves(src, faults, sourceMount, "", destinationMount, "", depth);
      LastWriteFound(copies, k.path);
      var c :| c in copies && c.destination == k.path && c.data == LastWrite(copies, k.path).value;
      assert LeafCopy(src, faults, sourceMount, destinationMount, c);
    }
  }

  // ---------------------------------------------------------------------------
  // The depth bound

  /** The run stopped only because it reached the depth bound. */
  predicate Exhausted(r: Run)
  {
    r.fatal.Some? && r.fatal.value.DepthExceeded?
  }

  /**
   * A walk that stayed within its depth bound is the walk with any larger
   * bound: the bound is invisible to every run that does not hit it, so such
   * runs are the unbounded recursion of walkVaultPath.
   */
  lemma {:induction false} WalkDepthIrrelevant(src: Source, faults: map<KvPath, PutFault>,
                                               sourceMount: string, sourcePath: string,
                                               destinationMount: string, destinationPath: string,
                                               depth: nat, more: nat)
    requires depth <= more
    requires !Exhausted(WalkSpec(src, faults, sourceMount, sourcePath, destinationMount, destinationPath, depth))
    ensures WalkSpec(src, faults, sourceMount, sourcePath, destinationMount, destinationPath, more)
         == WalkSpec(src, faults, sourceMount, sourcePath, destinationMount, destinationPath, depth)
    decreases depth, 1
  {
    var listPath := ListPath(sourceMount, sourcePath);
    match src.List(listPath)
    case ListFailed(_) =>
    case NoListing =>
    case Listing(data) =>
      if data.Some? && "keys" in data.value && data.value["keys"].Arr? {
        KeysDepthIrrelevant(src, faults, sourceMount, sourcePath, destinationMount, destinationPath,
                            listPath, data.value["keys"].items, 0, depth, more);
      }
  }

  lemma {:induction false} KeysDepthIrrelevant(src: Source, faults: map<KvPath, PutFault>,
                                               sourceMount: string, sourcePath: string,
                                               destinationMount: string, destinationPath: string,
                                               listPath: string, keys: seq<Value>, i: nat, depth: nat, more: nat)
    requires i <= |keys| && depth <= more
    requires !Exhausted(KeysFrom(src, faults, sourceMount, sourcePath, destinationMount, destinationPath,
                                 listPath, keys, i, depth))
    ensures KeysFrom(src, faults, sourceMount, sourcePath, destinationMount, destinationPath, listPath, keys, i, more)
         == KeysFrom(src, faults, sourceMount, sourcePath, destinationMount, destinationPath, listPath, keys, i, depth)
    decreases depth, 0, |keys| - i
  {
    if i < |keys| {
      KeyDepthIrrelevant(src, faults, sourceMount, sourcePath, destinationMount, destinationPath,
                         listPath, keys[i], i, depth, more);
      var first := KeyStep(src, faults, sourceMount, sourcePath, destinationMount, destinationPath,
                           listPath, keys[i], i, depth);
      if first.fatal.None? {
        KeysDepthIrrelevant(src, faults, sourceMount, sourcePath, destinationMount, destinationPath,
                            listPath, keys, i + 1, depth, more);
      }
    }
  }

  lemma {:induction false} KeyDepthIrrelevant(src: Source, faults: map<KvPath, PutFault>,
                                              sourceMount: string, sourcePath: string,
                                              destinationMount: string, destinationPath: string,
                                              listPath: string, key: Value, i: nat, depth: nat, more: nat)
    requires depth <= more
    requires !Exhausted(KeyStep(src, faults, sourceMount, sourcePath, destinationMount, destinationPath,
                                listPath, key, i, depth))
    ensures KeyStep(src, faults, sourceMount, sourcePath, destinationMount, destinationPath, listPath, key, i, more)
         == KeyStep(src, faults, sourceMount, sourcePath, destinationMount, destinationPath, listPath, key, i, depth)
    decreases depth, 0, 0
  {
    if key.Str? {
      WalkDepthIrrelevant(src, faults, sourceMount, Join([sourcePath, key.s]),
                          destinationMount, Join([destinationPath, key.s]), depth - 1, more - 1);
    }
  }

  // ---------------------------------------------------------------------------
  // One node

  /**
   * copySecrets succeeds exactly when the source has a latest version and the
   * destination accepts the write; then the destination holds that data at the
   * destination path and nothing else changes, and otherwise nothing changes.
   */
  lemma CopyOutcome(src: Source, faults: map<KvPath, PutFault>,
                    sourceMount: string, sourcePath: string,
                    destinationMount: string, destinationPath: string, d: map<KvPath, SecretData>)
    ensures var r := CopySpec(src, faults, sourceMount, sourcePath, destinationMount, destinationPath);
            r.fatal.None? <==> src.Get(sourceMount, sourcePath).Latest? && KvPath(destinationMount, destinationPath) !in faults
    ensures var r := CopySpec(src, faults, sourceMount, sourcePath, destinationMount, destinationPath);
            Apply(d, destinationMount, r.copies)
            == if r.fatal.None? then d[KvPath(destinationMount, destinationPath) := src.Get(sourceMount, sourcePath).data] else d
  {
    var r := CopySpec(src, faults, sourceMount, sourcePath, destinationMount, destinationPath);
    if r.fatal.None? {
      assert r.copies[..0] == [];
    }
  }

  /**
   * A node that fails to list, or whose listing is malformed, stops the run
   * before anything is written: no copy, and the fatal condition that names
   * the failure and the node's list path.
   */
  lemma BadNodeWritesNothing(src: Source, faults: map<KvPath, PutFault>,
                             sourceMount: string, sourcePath: string,
                             destinationMount: string, destinationPath: string, depth: nat)
    ensures var listPath := ListPath(sourceMount, sourcePath);
            var reply := src.List(listPath);
            reply.ListFailed? ==>
              WalkSpec(src, faults, sourceMount, sourcePath, destinationMount, destinationPath, depth)
              == Run([], Some(ListError(listPath, reply.err)))
    ensures var listPath := ListPath(sourceMount, sourcePath);
            var reply := src.List(listPath);
            reply.Listing? && reply.data.None? ==>
              WalkSpec(src, faults, sourceMount, sourcePath, destinationMount, destinationPath, depth)
              == Run([], Some(NoListingData(listPath)))
    ensures var listPath := ListPath(sourceMount, sourcePath);
            var reply := src.List(listPath);
            reply.Listing? && reply.data.Some? && "keys" !in reply.data.value ==>
              WalkSpec(src, faults, sourceMount, sourcePath, destinationMount, destinationPath, depth)
              == Run([], Some(NoKeys(listPath)))
    ensures var listPath := ListPath(sourceMount, sourcePath);
            var reply := src.List(listPath);
            reply.Listing? && reply.data.Some? && "keys" in reply.data.value && !reply.data.value["keys"].Arr? ==>
              WalkSpec(src, faults, sourceMount, sourcePath, destinationMount, destinationPath, depth)
              == Run([], Some(KeysNotArray(listPath)))
  {
  }

  /** A node without a listing is a leaf: the walk is exactly one copySecrets, with no descent. */
  lemma LeafIsCopied(src: Source, faults: map<KvPath, PutFault>,
                     sourceMount: string, sourcePath: string,
                     destinationMount: string, destinationPath: string, depth: nat)
    requires src.List(ListPath(sourceMount, sourcePath)) == NoListing
    ensures WalkSpec(src, faults, sourceMount, sourcePath, destinationMount, destinationPath, depth)
         == CopySpec(src, faults, sourceMount, sourcePath, destinationMount, destinationPath)
    ensures |WalkSpec(src, faults, sourceMount, sourcePath, destinationMount, destinationPath, depth).copies| <= 1
  {
  }
}
