/** POSIX path handling as Node's `path.resolve` and `path.dirname` perform
    it, with the process's working directory taken to be "/". A path is a
    string; its segments are the pieces between '/' characters. */
module Paths {
  import opened Text

  predicate IsAbsolute(p: string) {
    |p| > 0 && p[0] == '/'
  }

  /** The pieces of s between '/' characters, empty pieces included. */
  function Split(s: string): (r: seq<string>)
    ensures |r| >= 1
    ensures forall k :: 0 <= k < |r| ==> '/' !in r[k]
    decreases |s|
  {
    if s == [] then [""]
    else
      var rest := Split(s[1..]);
      if s[0] == '/' then [""] + rest else [[s[0]] + rest[0]] + rest[1..]
  }

  /** The segments glued back together with '/'. */
  function Join(segs: seq<string>): string
    decreases |segs|
  {
    if segs == [] then ""
    else if |segs| == 1 then segs[0]
    else segs[0] + "/" + Join(segs[1..])
  }

  /** A segment that survives normalisation. */
  predicate IsName(seg: string) {
    seg != "" && seg != "." && seg != ".." && '/' !in seg
  }

  predicate IsNormal(segs: seq<string>) {
    forall k :: 0 <= k < |segs| ==> IsName(segs[k])
  }

  /** One segment applied to the directory stack built so far:
      "" and "." stay put, ".." goes up (never above the root). */
  function Step(dir: seq<string>, seg: string): seq<string> {
    if seg == "" || seg == "." then dir
    else if seg == ".." then (if dir == [] then [] else dir[..|dir| - 1])
    else dir + [seg]
  }

  function Fold(dir: seq<string>, segs: seq<string>): (r: seq<string>)
    ensures IsNormal(dir) && (forall k :: 0 <= k < |segs| ==> '/' !in segs[k]) ==> IsNormal(r)
    decreases |segs|
  {
    if segs == [] then dir else Fold(Step(dir, segs[0]), segs[1..])
  }

  /** The segments of the absolute path p denotes. */
  function Normalize(p: string): (r: seq<string>)
    ensures IsNormal(r)
  {
    Fold([], Split(p))
  }

  /** `path.resolve(dir, spec)`: an absolute spec wins, otherwise spec is
      taken relative to dir; the result is absolute and normalised. */
  function Resolve(dir: string, spec: string): (r: string)
    ensures IsAbsolute(r)
  {
    "/" + Join(Normalize(if IsAbsolute(spec) then spec else dir + "/" + spec))
  }

  function TrimTrailingEmpty(segs: seq<string>): seq<string>
    decreases |segs|
  {
    if segs != [] && segs[|segs| - 1] == "" then TrimTrailingEmpty(segs[..|segs| - 1]) else segs
  }

  /** `path.dirname(p)`: p without its last segment (trailing '/' ignored);
      "/" for a top-level absolute path and "." for a bare name. */
  function Dirname(p: string): string {
    var segs := TrimTrailingEmpty(Split(p));
    if |segs| <= 1 then (if IsAbsolute(p) then "/" else ".")
    else
      var d := Join(segs[..|segs| - 1]);
      if d == "" then "/" else d
  }

  lemma {:induction false} JoinSplit(s: string)
    ensures Join(Split(s)) == s
    decreases |s|
  {
    if s != [] {
      JoinSplit(s[1..]);
      var rest := Split(s[1..]);
      if s[0] == '/' {
        assert Join([""] + rest) == "" + "/" + Join(rest);
      } else if |rest| == 1 {
        assert Join([[s[0]] + rest[0]] + rest[1..]) == [s[0]] + rest[0];
      } else {
        assert Join(rest) == rest[0] + "/" + Join(rest[1..]);
        assert Join([[s[0]] + rest[0]] + rest[1..]) == ([s[0]] + rest[0]) + "/" + Join(rest[1..]);
      }
    }
  }

  /** Splitting distributes over a '/' between two strings. */
  lemma {:induction false} SplitConcat(a: string, b: string)
    ensures Split(a + "/" + b) == Split(a) + Split(b)
    decreases |a|
  {
    if a == [] {
      assert a + "/" + b == "/" + b;
      assert ("/" + b)[1..] == b;
    } else {
      var s := a + "/" + b;
      assert s[0] == a[0];
      assert s[1..] == a[1..] + "/" + b;
      SplitConcat(a[1..], b);
    }
  }

  lemma {:induction false} SplitName(a: string)
    requires '/' !in a
    ensures Split(a) == [a]
    decreases |a|
  {
    if a != [] {
      SplitName(a[1..]);
      assert [a[0]] + a[1..] == a;
    }
  }

  /** Join and Split are inverse on segments without '/'. */
  lemma {:induction false} SplitJoin(segs: seq<string>)
    requires |segs| >= 1
    requires forall k :: 0 <= k < |segs| ==> '/' !in segs[k]
    ensures Split(Join(segs)) == segs
    decreases |segs|
  {
    if |segs| == 1 {
      SplitName(segs[0]);
    } else {
      SplitConcat(segs[0], Join(segs[1..]));
      SplitName(segs[0]);
      SplitJoin(segs[1..]);
    }
  }

  lemma {:induction false} FoldConcat(dir: seq<string>, a: seq<string>, b: seq<string>)
    ensures Fold(dir, a + b) == Fold(Fold(dir, a), b)
    decreases |a|
  {
    if a == [] {
      assert a + b == b;
    } else {
      assert (a + b)[0] == a[0];
      assert (a + b)[1..] == a[1..] + b;
      FoldConcat(Step(dir, a[0]), a[1..], b);
    }
  }

  /** Normal segments are appended unchanged. */
  lemma {:induction false} FoldNormal(dir: seq<string>, segs: seq<string>)
    requires IsNormal(segs)
    ensures Fold(dir, segs) == dir + segs
    decreases |segs|
  {
    if segs != [] {
      FoldNormal(dir + [segs[0]], segs[1..]);
      assert dir + [segs[0]] + segs[1..] == dir + segs;
    }
  }

  /** The segments of an absolute path written out from normal segments. */
  lemma NormalizeAbsolute(segs: seq<string>)
    requires IsNormal(segs)
    ensures Normalize("/" + Join(segs)) == segs
  {
    assert "/" + Join(segs) == "" + "/" + Join(segs);
    SplitConcat("", Join(segs));
    if segs == [] {
      assert Split("/" + Join(segs)) == ["", ""];
      assert Fold([], ["", ""]) == Fold([], [""]) == Fold([], []);
    } else {
      SplitJoin(segs);
      FoldConcat([], [""], segs);
      FoldNormal([], segs);
    }
  }

  /** Resolving an already resolved path changes nothing, from anywhere. */
  lemma ResolveIdempotent(dir: string, spec: string, other: string)
    ensures Resolve(other, Resolve(dir, spec)) == Resolve(dir, spec)
  {
    var segs := Normalize(if IsAbsolute(spec) then spec else dir + "/" + spec);
    NormalizeAbsolute(segs);
  }

  /** The segments of an absolute path written out from normal segments,
      empty leading piece included. */
  lemma SplitAbsolute(segs: seq<string>)
    requires IsNormal(segs)
    ensures Split("/" + Join(segs)) == [""] + Split(Join(segs))
  {
    assert "/" + Join(segs) == "" + "/" + Join(segs);
    SplitConcat("", Join(segs));
  }

  /** Segments under the root, glued back: the leading '/' of an absolute path. */
  lemma JoinUnderRoot(parent: seq<string>)
    ensures Join([""] + parent) == if parent == [] then "" else "/" + Join(parent)
  {
    if parent != [] {
      assert ([""] + parent)[1..] == parent;
    }
  }

  /** Dirname in terms of the segments of a path that does not end in '/'. */
  lemma DirnameBySegments(p: string, all: seq<string>)
    requires Split(p) == all && |all| >= 2 && all[|all| - 1] != ""
    ensures Dirname(p) == (if Join(all[..|all| - 1]) == "" then "/" else Join(all[..|all| - 1]))
  {
    assert TrimTrailingEmpty(all) == all;
  }

  /** The directory of an absolute path is the path without its last segment. */
  lemma DirnameAbsolute(segs: seq<string>)
    requires |segs| >= 1 && IsNormal(segs)
    ensures Dirname("/" + Join(segs)) == "/" + Join(segs[..|segs| - 1])
  {
    var n := |segs|;
    var all := [""] + segs;
    var parent := segs[..n - 1];
    assert all[|all| - 1] == segs[n - 1] != "";
    assert all[..|all| - 1] == [""] + parent;
    JoinUnderRoot(parent);
    SplitAbsolute(segs);
    SplitJoin(segs);
    DirnameBySegments("/" + Join(segs), all);
  }

  /** A relative path below an absolute directory is applied to that
      directory segment by segment. */
  lemma NormalizeUnder(parent: seq<string>, rel: string)
    requires IsNormal(parent)
    ensures Normalize("/" + Join(parent) + "/" + rel) == Fold(parent, Split(rel))
  {
    var d := "/" + Join(parent);
    SplitConcat(d, rel);
    FoldConcat([], Split(d), Split(rel));
    NormalizeAbsolute(parent);
  }

  /** A relative specifier is applied, segment by segment, to the directory
      that holds the importing file. */
  lemma DirnameResolve(segs: seq<string>, rel: string)
    requires |segs| >= 1 && IsNormal(segs)
    requires !IsAbsolute(rel)
    ensures Resolve(Dirname("/" + Join(segs)), rel) == "/" + Join(Fold(segs[..|segs| - 1], Split(rel)))
  {
    DirnameAbsolute(segs);
    NormalizeUnder(segs[..|segs| - 1], rel);
  }

  /** "a/name" splits into its two segments. */
  lemma SplitPair(a: string, name: string)
    requires '/' !in a && '/' !in name
    ensures Split(a + "/" + name) == [a, name]
  {
    SplitConcat(a, name);
    SplitName(a);
    SplitName(name);
  }

  /** `./name` from a file names a sibling of that file. */
  lemma SiblingResolve(segs: seq<string>, name: string)
    requires |segs| >= 1 && IsNormal(segs) && IsName(name)
    ensures Resolve(Dirname("/" + Join(segs)), "./" + name) == "/" + Join(segs[..|segs| - 1] + [name])
  {
    var parent := segs[..|segs| - 1];
    assert [".", name][1..] == [name];
    assert Fold(parent, [".", name]) == Fold(parent, [name]);
    FoldNormal(parent, [name]);
    var rel := "./" + name;
    assert "." + "/" == "./";
    DirnameResolve(segs, rel);
    SplitPair(".", name);
  }

  /** `../name` from a file names a sibling of the file's directory. */
  lemma ParentResolve(segs: seq<string>, name: string)
    requires |segs| >= 2 && IsNormal(segs) && IsName(name)
    ensures Resolve(Dirname("/" + Join(segs)), "../" + name) == "/" + Join(segs[..|segs| - 2] + [name])
  {
    var parent := segs[..|segs| - 1];
    assert parent[..|parent| - 1] == segs[..|segs| - 2];
    assert ["..", name][1..] == [name];
    assert Fold(parent, ["..", name]) == Fold(segs[..|segs| - 2], [name]);
    FoldNormal(segs[..|segs| - 2], [name]);
    var rel := "../" + name;
    assert ".." + "/" == "../";
    DirnameResolve(segs, rel);
    SplitPair("..", name);
  }

  /** Joining a plain name onto a directory appends it as the last segment. */
  lemma ResolveName(dir: string, name: string)
    requires IsName(name)
    ensures Resolve(dir, name) == "/" + Join(Normalize(dir) + [name])
  {
    assert !IsAbsolute(name);
    SplitConcat(dir, name);
    SplitName(name);
    FoldConcat([], Split(dir), [name]);
    FoldNormal(Normalize(dir), [name]);
  }

  lemma JoinLast(segs: seq<string>, name: string)
    ensures EndsWith(Join(segs + [name]), name)
    decreases |segs|
  {
    if segs != [] {
      var all := segs + [name];
      assert all[1..] == segs[1..] + [name];
      JoinLast(segs[1..], name);
    }
  }

  /** A resolved plain name ends with that name, extension included. */
  lemma ResolveNameSuffix(dir: string, name: string, ext: string)
    requires IsName(name) && EndsWith(name, ext)
    ensures EndsWith(Resolve(dir, name), ext)
  {
    ResolveName(dir, name);
    var j := Join(Normalize(dir) + [name]);
    JoinLast(Normalize(dir), name);
    var r := "/" + j;
    assert r[|r| - |name|..] == name;
    assert r[|r| - |ext|..] == name[|name| - |ext|..];
  }
}
