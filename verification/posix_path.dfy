/** Node's POSIX `path.resolve(root, rel)` for an absolute `root` and a relative `rel`:
    the two are joined with "/", then the segments are normalised left to right —
    empty and "." segments vanish, ".." drops the previous segment (and is ignored at
    the filesystem root), and the result is "/" followed by the survivors joined by "/". */
module PosixPath {
  import opened Text

  predicate IsAbsolute(path: string) {
    |path| > 0 && path[0] == '/'
  }

  /** A segment that survives normalisation. */
  predicate IsName(seg: string) {
    seg != "" && seg != "." && seg != ".." && '/' !in seg
  }

  predicate AllNames(segs: seq<string>) {
    forall i :: 0 <= i < |segs| ==> IsName(segs[i])
  }

  /** The absolute path whose segments are `segs`; the empty list is "/". */
  function PathOf(segs: seq<string>): string {
    "/" + Join(segs, '/')
  }

  /** One segment of the normaliser applied to the segments kept so far: the list shrinks
      or grows by at most one, its other entries stay, and a list of names stays one. */
  function Step(kept: seq<string>, seg: string): (r: seq<string>)
    ensures |kept| - 1 <= |r| <= |kept| + 1
    ensures |r| <= |kept| ==> r == kept[..|r|]
    ensures |r| > |kept| ==> r[..|kept|] == kept && r[|kept|] == seg
    ensures AllNames(kept) && '/' !in seg ==> AllNames(r)
  {
    if seg == "" || seg == "." then kept
    else if seg == ".." then (if |kept| == 0 then kept else kept[..|kept| - 1])
    else kept + [seg]
  }

  /** The normaliser run over `segs`, starting from the segments `kept`: each input
      segment adds at most one. */
  function NormalizeFrom(kept: seq<string>, segs: seq<string>): (r: seq<string>)
    ensures |r| <= |kept| + |segs|
    decreases |segs|
  {
    if |segs| == 0 then kept
    else NormalizeFrom(Step(kept, segs[0]), segs[1..])
  }

  /** Normalising segments without "/" from names leaves only names: no empty, "." or
      ".." segment survives. */
  lemma {:induction false} NormalizeKeepsNames(kept: seq<string>, segs: seq<string>)
    requires AllNames(kept)
    requires forall i :: 0 <= i < |segs| ==> '/' !in segs[i]
    ensures AllNames(NormalizeFrom(kept, segs))
    decreases |segs|
  {
    if |segs| > 0 {
      var next := Step(kept, segs[0]);
      assert AllNames(next) by {
        if segs[0] == ".." && |kept| > 0 {
          forall i | 0 <= i < |next| ensures IsName(next[i]) { assert next[i] == kept[i]; }
        }
      }
      assert forall i :: 0 <= i < |segs[1..]| ==> '/' !in segs[1..][i] by {
        forall i | 0 <= i < |segs[1..]| ensures '/' !in segs[1..][i] { assert segs[1..][i] == segs[i + 1]; }
      }
      NormalizeKeepsNames(next, segs[1..]);
    }
  }

  /** The segments of `path.resolve(root, rel)`: those of `root + "/" + rel + "/"`, normalised. */
  function ResolveSegments(root: string, rel: string): (segs: seq<string>)
    requires IsAbsolute(root) && !IsAbsolute(rel)
    ensures AllNames(segs)
  {
    var pieces := Split(root + "/" + rel + "/", '/');
    SplitPiecesFree(root + "/" + rel + "/", '/');
    NormalizeKeepsNames([], pieces);
    NormalizeFrom([], pieces)
  }

  /** `path.resolve(root, rel)`: no empty, "." or ".." segment remains in the result. */
  function Resolve(root: string, rel: string): (r: string)
    requires IsAbsolute(root) && !IsAbsolute(rel)
    ensures IsAbsolute(r)
    ensures r == PathOf(ResolveSegments(root, rel)) && AllNames(ResolveSegments(root, rel))
  {
    PathOf(ResolveSegments(root, rel))
  }

  /** Normalising in two parts is normalising the whole. */
  lemma {:induction false} NormalizeConcat(kept: seq<string>, a: seq<string>, b: seq<string>)
    ensures NormalizeFrom(kept, a + b) == NormalizeFrom(NormalizeFrom(kept, a), b)
    decreases |a|
  {
    if |a| > 0 {
      assert (a + b)[0] == a[0];
      assert (a + b)[1..] == a[1..] + b;
      NormalizeConcat(Step(kept, a[0]), a[1..], b);
    } else {
      assert a + b == b;
    }
  }

  /** Plain names are kept as they are. */
  lemma {:induction false} NormalizeNames(kept: seq<string>, names: seq<string>)
    requires AllNames(names)
    ensures NormalizeFrom(kept, names) == kept + names
    decreases |names|
  {
    if |names| > 0 {
      NameStep(kept, names[0]);
      NormalizeNames(kept + [names[0]], names[1..]);
      AppendHead(kept, names);
    }
  }

  lemma NameStep(kept: seq<string>, name: string)
    requires IsName(name)
    ensures Step(kept, name) == kept + [name]
  {
  }

  lemma AppendHead<T>(a: seq<T>, b: seq<T>)
    requires |b| > 0
    ensures a + [b[0]] + b[1..] == a + b
  {
    assert [b[0]] + b[1..] == b;
  }

  /** Segments without ".." only ever add to what was kept. */
  lemma {:induction false} NormalizeWithoutParent(kept: seq<string>, segs: seq<string>)
    requires forall i :: 0 <= i < |segs| ==> segs[i] != ".."
    ensures |kept| <= |NormalizeFrom(kept, segs)|
    ensures NormalizeFrom(kept, segs)[..|kept|] == kept
    decreases |segs|
  {
    if |segs| > 0 {
      var next := Step(kept, segs[0]);
      NormalizeWithoutParent(next, segs[1..]);
      assert next[..|kept|] == kept;
    }
  }

  /** A ".." with nothing kept stays at the filesystem root. */
  lemma ParentAtRoot(segs: seq<string>)
    ensures NormalizeFrom([], [".."] + segs) == NormalizeFrom([], segs)
  {
    assert ([".."] + segs)[1..] == segs;
  }

  /** The segments of an absolute path built from names are those names. */
  lemma NormalizeJoined(kept: seq<string>, names: seq<string>)
    requires AllNames(names)
    ensures NormalizeFrom(kept, Split(Join(names, '/'), '/')) == kept + names
  {
    if |names| == 0 {
      assert Split(Join(names, '/'), '/') == [""];
    } else {
      SplitJoin(names, '/');
      NormalizeNames(kept, names);
    }
  }

  /** Resolving against a root made of names continues from the root's names with the
      segments of `rel`. */
  lemma {:induction false} ResolveFromRoot(rootNames: seq<string>, rel: string)
    requires AllNames(rootNames) && !IsAbsolute(rel)
    ensures IsAbsolute(PathOf(rootNames))
    ensures ResolveSegments(PathOf(rootNames), rel) == NormalizeFrom(rootNames, Split(rel + "/", '/'))
  {
    var joined := Join(rootNames, '/');
    var tail := rel + "/";
    var whole := PathOf(rootNames) + "/" + rel + "/";
    assert whole == "" + ['/'] + (joined + ['/'] + tail);
    SplitConcat("", joined + ['/'] + tail, '/');
    SplitConcat(joined, tail, '/');
    assert Split(whole, '/') == [""] + (Split(joined, '/') + Split(tail, '/'));
    NormalizeJoined([], rootNames);
    NormalizeConcat([], [""], Split(joined, '/') + Split(tail, '/'));
    assert NormalizeFrom([], [""]) == [];
    NormalizeConcat([], Split(joined, '/'), Split(tail, '/'));
    assert NormalizeFrom([], Split(joined, '/')) == rootNames;
    assert [""] + (Split(joined, '/') + Split(tail, '/')) == Split(whole, '/');
  }

  /** `segs` lies in the directory whose segments are `dir` (or is that directory). */
  predicate Within(segs: seq<string>, dir: seq<string>) {
    |dir| <= |segs| && segs[..|dir|] == dir
  }

  /** `segs` lies in a sibling of the directory `dir` whose name extends the name of `dir`,
      as "/srv/app2/x" does for "/srv/app". */
  predicate InNamePrefixSibling(segs: seq<string>, dir: seq<string>) {
    && 0 < |dir| <= |segs|
    && segs[..|dir| - 1] == dir[..|dir| - 1]
    && StartsWith(segs[|dir| - 1], dir[|dir| - 1])
    && segs[|dir| - 1] != dir[|dir| - 1]
  }

  lemma PrefixOfSlashed(s0: string, rest: string, d: string, tail: string)
    requires '/' !in s0 && '/' !in d
    ensures StartsWith(s0 + "/" + rest, d + "/" + tail) <==> s0 == d && StartsWith(rest, tail)
  {
    var x, y := s0 + "/" + rest, d + "/" + tail;
    if StartsWith(x, y) {
      assert forall i :: 0 <= i < |y| ==> x[i] == y[i];
      assert forall i :: 0 <= i < |s0| ==> x[i] == s0[i] && x[i] != '/';
      assert forall i :: 0 <= i < |d| ==> y[i] == d[i] && y[i] != '/';
      assert x[|s0|] == '/' && y[|d|] == '/';
      assert |d| == |s0|;
      assert s0 == x[..|s0|] == y[..|d|] == d;
      assert rest[..|tail|] == x[|s0| + 1..][..|tail|];
    }
    if s0 == d && StartsWith(rest, tail) {
      assert x[..|y|] == d + "/" + rest[..|tail|];
    }
  }

  lemma PlainNotSlashed(s0: string, d: string, tail: string)
    requires '/' !in s0
    ensures !StartsWith(s0, d + "/" + tail)
  {
    var y := d + "/" + tail;
    assert y[|d|] == '/';
    assert forall i :: 0 <= i < |s0| ==> s0[i] != '/';
  }

  lemma SlashedPlain(s0: string, rest: string, d: string)
    requires '/' !in d
    ensures StartsWith(s0 + "/" + rest, d) <==> StartsWith(s0, d)
  {
    var x := s0 + "/" + rest;
    assert x[|s0|] == '/';
    assert forall i :: 0 <= i < |d| ==> d[i] != '/';
    assert forall i :: 0 <= i < |s0| ==> x[i] == s0[i];
    if StartsWith(x, d) {
      assert |d| <= |s0|;
      assert s0[..|d|] == x[..|d|];
    }
    if StartsWith(s0, d) {
      assert x[..|d|] == s0[..|d|];
    }
  }

  lemma WithinCons(segs: seq<string>, dir: seq<string>)
    requires |segs| > 0 && |dir| > 0
    ensures Within(segs, dir) <==> segs[0] == dir[0] && Within(segs[1..], dir[1..])
  {
    if |dir| <= |segs| {
      assert segs[..|dir|] == [segs[0]] + segs[1..][..|dir| - 1];
      assert dir == [dir[0]] + dir[1..];
    }
  }

  lemma SiblingCons(segs: seq<string>, dir: seq<string>)
    requires |segs| > 0 && |dir| > 1
    ensures InNamePrefixSibling(segs, dir) <==>
      segs[0] == dir[0] && InNamePrefixSibling(segs[1..], dir[1..])
  {
    if |dir| <= |segs| {
      assert segs[..|dir| - 1] == [segs[0]] + segs[1..][..|dir| - 2];
      assert dir[..|dir| - 1] == [dir[0]] + dir[1..][..|dir| - 2];
      assert segs[|dir| - 1] == segs[1..][|dir| - 2];
      assert dir[|dir| - 1] == dir[1..][|dir| - 2];
    }
  }

  /** String prefixes of joined names: `Join(dir)` starts `Join(segs)` exactly when `segs`
      lies within `dir` or within a sibling whose name extends the last name of `dir`. */
  lemma {:induction false} JoinedPrefix(segs: seq<string>, dir: seq<string>)
    requires AllNames(segs) && AllNames(dir)
    ensures StartsWith(Join(segs, '/'), Join(dir, '/')) <==> Within(segs, dir) || InNamePrefixSibling(segs, dir)
    decreases |dir|
  {
    if |dir| == 0 {
    } else if |segs| == 0 {
      assert |dir[0]| > 0;
    } else {
      var s0, d := segs[0], dir[0];
      JoinAppend([s0], segs[1..], '/');
      JoinAppend([d], dir[1..], '/');
      assert [s0] + segs[1..] == segs;
      assert [d] + dir[1..] == dir;
      if |dir| == 1 {
        if |segs| == 1 {
        } else {
          SlashedPlain(s0, Join(segs[1..], '/'), d);
        }
      } else {
        assert AllNames(segs[1..]) && AllNames(dir[1..]);
        JoinedPrefix(segs[1..], dir[1..]);
        if |segs| == 1 {
          PlainNotSlashed(s0, d, Join(dir[1..], '/'));
        } else {
          PrefixOfSlashed(s0, Join(segs[1..], '/'), d, Join(dir[1..], '/'));
          WithinCons(segs, dir);
          SiblingCons(segs, dir);
        }
      }
    }
  }

  /** The same for the absolute paths of the two lists. */
  lemma PathPrefix(segs: seq<string>, dir: seq<string>)
    requires AllNames(segs) && AllNames(dir)
    ensures StartsWith(PathOf(segs), PathOf(dir)) <==> Within(segs, dir) || InNamePrefixSibling(segs, dir)
  {
    JoinedPrefix(segs, dir);
    SlashedPrefix(Join(segs, '/'), Join(dir, '/'));
  }

  /** A leading slash on both sides does not change a prefix test. */
  lemma SlashedPrefix(a: string, b: string)
    ensures StartsWith("/" + a, "/" + b) <==> StartsWith(a, b)
  {
    if StartsWith("/" + a, "/" + b) {
      assert a[..|b|] == ("/" + a)[1..|b| + 1];
    }
    if StartsWith(a, b) {
      assert ("/" + a)[..|b| + 1] == "/" + a[..|b|];
    }
  }

  /** One step of the normaliser. */
  lemma NormalizeStep(kept: seq<string>, seg: string, rest: seq<string>)
    ensures NormalizeFrom(kept, [seg] + rest) == NormalizeFrom(Step(kept, seg), rest)
  {
    assert ([seg] + rest)[1..] == rest;
  }

  /** "." then ".." from a non-empty list drops its last name. */
  lemma DotParent(kept: seq<string>, rest: seq<string>)
    requires |kept| > 0
    ensures NormalizeFrom(kept, [".", ".."] + rest) == NormalizeFrom(kept[..|kept| - 1], rest)
  {
    NormalizeStep(kept, "..", rest);
    NormalizeStep(kept, ".", [".."] + rest);
    assert [".", ".."] + rest == ["."] + ([".."] + rest);
  }

  /** ".." then more segments climbs one level, staying at the filesystem root. */
  lemma ParentThen(kept: seq<string>, rest: seq<string>)
    ensures NormalizeFrom(kept, [".."] + rest) ==
      NormalizeFrom(if |kept| == 0 then [] else kept[..|kept| - 1], rest)
  {
    NormalizeStep(kept, "..", rest);
  }

  /** Two names and a closing empty segment are appended as they are. */
  lemma TwoNames(kept: seq<string>, a: string, b: string)
    requires IsName(a) && IsName(b)
    ensures NormalizeFrom(kept, [a, b, ""]) == kept + [a, b]
  {
    NormalizeStep(kept + [a] + [b], "", []);
    NormalizeStep(kept + [a], b, [""]);
    NormalizeStep(kept, a, [b, ""]);
    assert kept + [a] + [b] == kept + [a, b];
  }
}
