/**
 * Go's slash-separated path handling as the copy tool uses it: strings.Join and
 * strings.Split on "/", and path.Clean and path.Join from the standard library.
 *
 * Clean is modelled on segments: split on '/', drop empty and "." segments,
 * let ".." cancel the previous segment (kept at the front of a relative path,
 * dropped at the root of a rooted one), and render the rest.  Go implements the
 * same rules as one loop over the bytes of the path.
 */
module GoPath {

  /** strings.Join(xs, "/") */
  function JoinSlash(xs: seq<string>): string
  {
    if |xs| == 0 then ""
    else if |xs| == 1 then xs[0]
    else xs[0] + "/" + JoinSlash(xs[1..])
  }

  /** strings.Split(s, "/"): the segments between slashes, never an empty list. */
  function Split(s: string): (segs: seq<string>)
    ensures |segs| > 0
    decreases |s|
  {
    if |s| == 0 then [""]
    else if s[|s| - 1] == '/' then Split(s[..|s| - 1]) + [""]
    else
      var init := Split(s[..|s| - 1]);
      init[..|init| - 1] + [init[|init| - 1] + [s[|s| - 1]]]
  }

  /** One step of Clean's scan: how a segment changes the segments kept so far. */
  function Step(kept: seq<string>, seg: string, rooted: bool): seq<string>
  {
    if seg == "" || seg == "." then kept
    else if seg == ".." then
      if |kept| > 0 && kept[|kept| - 1] != ".." then kept[..|kept| - 1]
      else if rooted then kept
      else kept + [".."]
    else kept + [seg]
  }

  /** The segments Clean keeps, scanning left to right. */
  function Normalize(segs: seq<string>, rooted: bool): seq<string>
  {
    if |segs| == 0 then []
    else Step(Normalize(segs[..|segs| - 1], rooted), segs[|segs| - 1], rooted)
  }

  /** path.Clean */
  function Clean(p: string): string
  {
    if p == "" then "."
    else
      var rooted := p[0] == '/';
      var body := JoinSlash(Normalize(Split(p), rooted));
      if rooted then "/" + body
      else if body == "" then "."
      else body
  }

  /**
   * path.Join: the non-empty elements joined with "/", then cleaned; "" when
   * every element is empty.  The elements are gathered one at a time into acc.
   */
  function Join(elems: seq<string>): string
  {
    JoinFrom("", elems)
  }

  function JoinFrom(acc: string, rest: seq<string>): string
    decreases |rest|
  {
    if |rest| == 0 then (if acc == "" then "" else Clean(acc))
    else
      var next := if rest[0] == "" then acc else if acc == "" then rest[0] else acc + "/" + rest[0];
      JoinFrom(next, rest[1..])
  }

  /** A single path segment that Clean keeps as it is. */
  predicate ProperName(k: string)
  {
    |k| > 0 && '/' !in k && k != "." && k != ".."
  }

  predicate AllProper(xs: seq<string>)
  {
    forall i :: 0 <= i < |xs| ==> ProperName(xs[i])
  }

  /** Segments that are proper names or empty (doubled or trailing slashes). */
  predicate ProperOrEmpty(xs: seq<string>)
  {
    forall i :: 0 <= i < |xs| ==> xs[i] == "" || ProperName(xs[i])
  }

  predicate NoSlash(xs: seq<string>)
  {
    forall i :: 0 <= i < |xs| ==> '/' !in xs[i]
  }

  /** The non-empty segments, in order. */
  function NonEmpty(xs: seq<string>): seq<string>
  {
    if |xs| == 0 then []
    else (if xs[0] == "" then [] else [xs[0]]) + NonEmpty(xs[1..])
  }

  // ---------------------------------------------------------------------------
  // strings.Join and strings.Split

  lemma {:induction false} JoinSlashAppend(a: seq<string>, b: seq<string>)
    requires |a| > 0 && |b| > 0
    ensures JoinSlash(a + b) == JoinSlash(a) + "/" + JoinSlash(b)
    decreases |a|
  {
    if |a| == 1 {
      assert (a + b)[1..] == b;
    } else {
      assert (a + b)[1..] == a[1..] + b;
      JoinSlashAppend(a[1..], b);
    }
  }

  lemma {:induction false} SplitConcat(a: string, b: string)
    ensures Split(a + "/" + b) == Split(a) + Split(b)
    decreases |b|
  {
    var s := a + "/" + b;
    if |b| == 0 {
      assert s[..|s| - 1] == a;
    } else {
      var b', c := b[..|b| - 1], b[|b| - 1];
      assert b == b' + [c];
      assert s == (a + "/" + b') + [c];
      SplitConcat(a, b');
      SplitConcatLast(Split(a), a + "/" + b', b', c);
    }
  }

  /** The inductive step of SplitConcat: one more character at the end of both t and u. */
  lemma SplitConcatLast(prefix: seq<string>, t: string, u: string, c: char)
    requires Split(t) == prefix + Split(u)
    ensures Split(t + [c]) == prefix + Split(u + [c])
  {
    var l := Split(u);
    if c == '/' {
      SplitSlash(t);
      SplitSlash(u);
      assert (prefix + l) + [""] == prefix + (l + [""]);
    } else {
      SplitChar(t, c);
      SplitChar(u, c);
      ExtendLast(prefix, l, c);
    }
  }

  /** Split on a string with a slash at the end: one more, empty, segment. */
  lemma SplitSlash(t: string)
    ensures Split(t + "/") == Split(t) + [""]
  {
    assert (t + "/")[..|t + "/"| - 1] == t;
  }

  /** Split on a string with another character at the end: the last segment grows by it. */
  lemma SplitChar(t: string, c: char)
    requires c != '/'
    ensures Split(t + [c]) == Split(t)[..|Split(t)| - 1] + [Split(t)[|Split(t)| - 1] + [c]]
  {
    assert (t + [c])[..|t + [c]| - 1] == t;
  }

  /** Appending a character to the last segment of A + l appends it to the last segment of l. */
  lemma ExtendLast(A: seq<string>, l: seq<string>, c: char)
    requires |l| > 0
    ensures (A + l)[..|A + l| - 1] + [(A + l)[|A + l| - 1] + [c]] == A + (l[..|l| - 1] + [l[|l| - 1] + [c]])
  {
    assert (A + l)[..|A + l| - 1] == A + l[..|l| - 1];
  }

  lemma {:induction false} SplitName(x: string)
    requires '/' !in x
    ensures Split(x) == [x]
    decreases |x|
  {
    if |x| > 0 {
      var x' := x[..|x| - 1];
      assert '/' !in x' by {
        forall i | 0 <= i < |x'| ensures x'[i] != '/' { assert x'[i] == x[i]; }
      }
      SplitName(x');
      assert x' + [x[|x| - 1]] == x;
    }
  }

  /** Splitting undoes joining, for segments without a slash. */
  lemma {:induction false} SplitJoinSlash(xs: seq<string>)
    requires |xs| > 0 && NoSlash(xs)
    ensures Split(JoinSlash(xs)) == xs
    decreases |xs|
  {
    if |xs| == 1 {
      SplitName(xs[0]);
    } else {
      SplitConcat(xs[0], JoinSlash(xs[1..]));
      SplitName(xs[0]);
      SplitJoinSlash(xs[1..]);
      assert [xs[0]] + xs[1..] == xs;
    }
  }

  /** Joining segments that contain no slash loses nothing: equal joins come from equal lists. */
  lemma JoinSlashInjective(xs: seq<string>, ys: seq<string>)
    requires |xs| > 0 && NoSlash(xs) && |ys| > 0 && NoSlash(ys)
    requires JoinSlash(xs) == JoinSlash(ys)
    ensures xs == ys
  {
    SplitJoinSlash(xs);
    SplitJoinSlash(ys);
  }

  /** Joining undoes splitting, for every string. */
  lemma {:induction false} JoinSlashSplit(s: string)
    ensures JoinSlash(Split(s)) == s
    decreases |s|
  {
    if |s| > 0 {
      var s', c := s[..|s| - 1], s[|s| - 1];
      assert s == s' + [c];
      JoinSlashSplit(s');
      JoinSlashSplitLast(s', c);
    }
  }

  /** The inductive step of JoinSlashSplit: one more character at the end. */
  lemma JoinSlashSplitLast(t: string, c: char)
    requires JoinSlash(Split(t)) == t
    ensures JoinSlash(Split(t + [c])) == t + [c]
  {
    var segs := Split(t);
    if c == '/' {
      SplitSlash(t);
      JoinSlashAppend(segs, [""]);
      assert t + "/" == t + [c];
    } else {
      SplitChar(t, c);
      var front, last := segs[..|segs| - 1], segs[|segs| - 1];
      assert segs == front + [last];
      JoinSlashExtend(front, last, c);
    }
  }

  /** Appending a character to the last segment appends it to the joined string. */
  lemma JoinSlashExtend(front: seq<string>, last: string, c: char)
    ensures JoinSlash(front + [last + [c]]) == JoinSlash(front + [last]) + [c]
  {
    if |front| == 0 {
      assert front + [last + [c]] == [last + [c]];
      assert front + [last] == [last];
    } else {
      JoinSlashAppend(front, [last]);
      JoinSlashAppend(front, [last + [c]]);
      var j := JoinSlash(front);
      assert JoinSlash([last]) == last;
      assert JoinSlash([last + [c]]) == last + [c];
      assert j + "/" + (last + [c]) == (j + "/" + last) + [c];
    }
  }

  // ---------------------------------------------------------------------------
  // Clean and Join on well-formed segments

  lemma {:induction false} NonEmptyConcat(a: seq<string>, b: seq<string>)
    ensures NonEmpty(a + b) == NonEmpty(a) + NonEmpty(b)
    decreases |a|
  {
    if |a| > 0 {
      assert (a + b)[0] == a[0];
      assert (a + b)[1..] == a[1..] + b;
      NonEmptyConcat(a[1..], b);
    } else {
      assert a + b == b;
    }
  }

  lemma {:induction false} NonEmptyProper(xs: seq<string>)
    requires AllProper(xs)
    ensures NonEmpty(xs) == xs
    decreases |xs|
  {
    if |xs| > 0 {
      NonEmptyProper(xs[1..]);
    }
  }

  lemma {:induction false} NormalizeProper(xs: seq<string>, rooted: bool)
    requires ProperOrEmpty(xs)
    ensures Normalize(xs, rooted) == NonEmpty(xs)
    decreases |xs|
  {
    if |xs| > 0 {
      var front, last := xs[..|xs| - 1], xs[|xs| - 1];
      assert xs == front + [last];
      NormalizeProper(front, rooted);
      NonEmptyConcat(front, [last]);
    }
  }

  /** Join is Clean applied to the non-empty elements joined with "/". */
  lemma JoinNonEmpty(elems: seq<string>)
    ensures Join(elems) == if NonEmpty(elems) == [] then "" else Clean(JoinSlash(NonEmpty(elems)))
  {
    JoinFromNonEmpty("", elems);
    var ne := NonEmpty(elems);
    assert [] + ne == ne;
    if ne != [] {
      NonEmptyHasNoEmpty(elems);
      JoinSlashHead(ne);
    }
  }

  /** The segments NonEmpty keeps are all non-empty. */
  lemma {:induction false} NonEmptyHasNoEmpty(xs: seq<string>)
    ensures forall i :: 0 <= i < |NonEmpty(xs)| ==> NonEmpty(xs)[i] != ""
    decreases |xs|
  {
    if |xs| > 0 {
      NonEmptyHasNoEmpty(xs[1..]);
    }
  }

  /**
   * Gathering elements into acc amounts to joining acc and the non-empty
   * rest with "/" and finishing as though nothing were left.
   */
  lemma {:induction false} JoinFromNonEmpty(acc: string, rest: seq<string>)
    ensures JoinFrom(acc, rest) == JoinFrom(JoinSlash((if acc == "" then [] else [acc]) + NonEmpty(rest)), [])
    decreases |rest|
  {
    if |rest| > 0 {
      var r, tail := rest[0], rest[1..];
      var ne := NonEmpty(tail);
      assert NonEmpty(rest) == (if r == "" then [] else [r]) + ne;
      if r == "" {
        JoinFromNonEmpty(acc, tail);
        assert [] + ne == ne;
      } else if acc == "" {
        JoinFromNonEmpty(r, tail);
        assert [] + ([r] + ne) == [r] + ne;
      } else {
        JoinFromNonEmpty(acc + "/" + r, tail);
        assert [acc] + ([r] + ne) == [acc, r] + ne;
        JoinSlashRegroup(acc, r, ne);
      }
    }
  }

  lemma JoinSlashRegroup(acc: string, r: string, ne: seq<string>)
    ensures JoinSlash([acc + "/" + r] + ne) == JoinSlash([acc, r] + ne)
  {
    if ne == [] {
      assert [acc + "/" + r] + ne == [acc + "/" + r];
      assert [acc, r] + ne == [acc, r];
      assert [acc, r][1..] == [r];
    } else {
      assert ([acc + "/" + r] + ne)[1..] == ne;
      assert ([acc, r] + ne)[1..] == [r] + ne;
      assert ([r] + ne)[1..] == ne;
      var j := JoinSlash(ne);
      assert JoinSlash([r] + ne) == r + "/" + j;
      assert (acc + "/" + r) + "/" + j == acc + "/" + (r + "/" + j);
    }
  }

  /** A joined path starts with its first segment. */
  lemma JoinSlashHead(xs: seq<string>)
    requires |xs| > 0 && xs[0] != ""
    ensures JoinSlash(xs) != "" && JoinSlash(xs)[0] == xs[0][0]
  {
    if |xs| > 1 {
      assert JoinSlash(xs) == xs[0] + ("/" + JoinSlash(xs[1..]));
    }
  }

  /**
   * Cleaning a relative path whose segments are proper names, possibly with
   * doubled or trailing slashes, just drops the empty segments.
   */
  lemma CleanJoined(xs: seq<string>)
    requires |xs| > 0 && ProperName(xs[0]) && ProperOrEmpty(xs)
    ensures NonEmpty(xs) != [] && Clean(JoinSlash(xs)) == JoinSlash(NonEmpty(xs))
  {
    var p := JoinSlash(xs);
    JoinSlashHead(xs);
    assert p[0] != '/' by { assert xs[0][0] in xs[0]; }
    assert NoSlash(xs);
    SplitJoinSlash(xs);
    NormalizeProper(xs, false);
    var ys := NonEmpty(xs);
    assert ys == [xs[0]] + NonEmpty(xs[1..]);
    JoinSlashHead(ys);
    assert Clean(p) == JoinSlash(Normalize(Split(p), false));
  }

  /**
   * Joining a clean relative path with a child key, which may carry the
   * trailing slash that marks a directory, appends one segment and drops the
   * slash: Join("", "db/") == "db" and Join("db", "password") == "db/password".
   */
  lemma JoinChild(names: seq<string>, key: string, name: string)
    requires AllProper(names) && ProperName(name)
    requires key == name || key == name + "/"
    ensures Join([JoinSlash(names), key]) == JoinSlash(names + [name])
  {
    var tail := [name] + (if key == name then [] else [""]);
    KeySegments(key, name);
    if |names| == 0 {
      JoinRootChild(key, name);
      assert names + [name] == [name];
    } else {
      JoinNestedChild(names, key, name, tail);
    }
  }

  /** A key is its name, or its name and one empty segment after the trailing slash. */
  lemma KeySegments(key: string, name: string)
    requires ProperName(name) && (key == name || key == name + "/")
    ensures var tail := [name] + (if key == name then [] else [""]);
            JoinSlash(tail) == key && NonEmpty(tail) == [name] && ProperOrEmpty(tail)
  {
    var extra: seq<string> := if key == name then [] else [""];
    var tail := [name] + extra;
    if key != name {
      assert tail == [name, ""];
      assert tail[1..] == [""];
    }
    NonEmptyConcat([name], extra);
  }

  /** Join("", key) is the key's name. */
  lemma JoinRootChild(key: string, name: string)
    requires ProperName(name) && (key == name || key == name + "/")
    ensures Join(["", key]) == name
  {
    var tail := [name] + (if key == name then [] else [""]);
    KeySegments(key, name);
    JoinNonEmpty(["", key]);
    assert NonEmpty(["", key]) == [key] by {
      assert ["", key][1..] == [key];
      assert NonEmpty([key]) == [key] + NonEmpty([]);
    }
    CleanJoined(tail);
  }

  /** Join(p, key) for a non-empty clean path p appends the key's name. */
  lemma JoinNestedChild(names: seq<string>, key: string, name: string, tail: seq<string>)
    requires AllProper(names) && |names| > 0 && ProperName(name)
    requires JoinSlash(tail) == key && NonEmpty(tail) == [name] && ProperOrEmpty(tail) && tail[0] == name
    ensures Join([JoinSlash(names), key]) == JoinSlash(names + [name])
  {
    var p := JoinSlash(names);
    JoinSlashHead(names);
    JoinNonEmpty([p, key]);
    assert NonEmpty([p, key]) == [p, key] by {
      assert [p, key][1..] == [key];
      assert NonEmpty([key]) == [key] + NonEmpty([]);
    }
    assert JoinSlash([p, key]) == p + "/" + key by {
      assert [p, key][1..] == [key];
    }
    JoinSlashAppend(names, tail);
    assert ProperOrEmpty(names + tail);
    CleanJoined(names + tail);
    NonEmptyConcat(names, tail);
    NonEmptyProper(names);
  }
}
