/**
 * The parts of Node's posix `path` module the server uses: `path.join`
 * onto an absolute, already normalised directory, and `path.extname`.
 * A directory is given by its list of segments: `["srv", "app", "audio"]`
 * stands for `/srv/app/audio`.
 */
module NodePath {
  import opened Strings

  predicate NoSlash(s: string)
  {
    forall i :: 0 <= i < |s| ==> s[i] != '/'
  }

  /** A segment that normalisation keeps as it is. */
  predicate PlainSegment(s: string)
  {
    s != "" && s != "." && s != ".." && NoSlash(s)
  }

  predicate PlainSegments(segs: seq<string>)
  {
    forall i :: 0 <= i < |segs| ==> PlainSegment(segs[i])
  }

  /** `s.split("/")` */
  function Split(s: string): (r: seq<string>)
    ensures |r| >= 1
    ensures forall i :: 0 <= i < |r| ==> NoSlash(r[i])
  {
    if s == [] then [""]
    else if s[0] == '/' then [""] + Split(s[1..])
    else
      var t := Split(s[1..]);
      [[s[0]] + t[0]] + t[1..]
  }

  /** `segs.join("/")` */
  function Joined(segs: seq<string>): string
  {
    if segs == [] then ""
    else if |segs| == 1 then segs[0]
    else segs[0] + "/" + Joined(segs[1..])
  }

  lemma {:induction false} SplitAround(a: string, b: string)
    ensures Split(a + "/" + b) == Split(a) + Split(b)
  {
    if a == [] {
      assert a + "/" + b == "/" + b;
      assert ("/" + b)[1..] == b;
    } else {
      assert (a + "/" + b)[1..] == a[1..] + "/" + b;
      SplitAround(a[1..], b);
    }
  }

  lemma {:induction false} SplitNoSlash(s: string)
    requires NoSlash(s)
    ensures Split(s) == [s]
  {
    if s != [] {
      SplitNoSlash(s[1..]);
      assert [s[0]] + s[1..] == s;
    }
  }

  lemma {:induction false} SplitJoined(segs: seq<string>)
    requires |segs| >= 1
    requires forall i :: 0 <= i < |segs| ==> NoSlash(segs[i])
    ensures Split(Joined(segs)) == segs
  {
    if |segs| == 1 {
      SplitNoSlash(segs[0]);
    } else {
      SplitJoined(segs[1..]);
      SplitAround(segs[0], Joined(segs[1..]));
      SplitNoSlash(segs[0]);
    }
  }

  lemma {:induction false} JoinedSnoc(segs: seq<string>, s: string)
    requires segs != []
    ensures Joined(segs + [s]) == Joined(segs) + "/" + s
  {
    if |segs| == 1 {
      assert segs + [s] == [segs[0], s];
    } else {
      assert (segs + [s])[1..] == segs[1..] + [s];
      JoinedSnoc(segs[1..], s);
    }
  }

  /**
   * The directory-stack reading of Node's `normalizeString` for an absolute
   * path: empty and `.` segments vanish, `..` drops the last kept segment
   * (and nothing at the root), any other segment is kept.
   */
  function Resolve(segs: seq<string>, stack: seq<string>): (r: seq<string>)
    requires PlainSegments(stack)
    requires forall i :: 0 <= i < |segs| ==> NoSlash(segs[i])
    ensures PlainSegments(r)
  {
    if segs == [] then stack
    else if segs[0] == "" || segs[0] == "." then Resolve(segs[1..], stack)
    else if segs[0] == ".." then Resolve(segs[1..], if stack == [] then [] else stack[..|stack| - 1])
    else Resolve(segs[1..], stack + [segs[0]])
  }

  lemma {:induction false} ResolveConcat(a: seq<string>, b: seq<string>, stack: seq<string>)
    requires PlainSegments(stack)
    requires forall i :: 0 <= i < |a| ==> NoSlash(a[i])
    requires forall i :: 0 <= i < |b| ==> NoSlash(b[i])
    ensures Resolve(a + b, stack) == Resolve(b, Resolve(a, stack))
  {
    if a == [] {
      assert a + b == b;
    } else {
      assert (a + b)[1..] == a[1..] + b;
      var next := if a[0] == "" || a[0] == "." then stack
        else if a[0] == ".." then (if stack == [] then [] else stack[..|stack| - 1])
        else stack + [a[0]];
      ResolveConcat(a[1..], b, next);
    }
  }

  lemma {:induction false} ResolvePlain(segs: seq<string>, stack: seq<string>)
    requires PlainSegments(stack) && PlainSegments(segs)
    ensures Resolve(segs, stack) == stack + segs
  {
    if segs != [] {
      ResolvePlain(segs[1..], stack + [segs[0]]);
      assert stack + [segs[0]] + segs[1..] == stack + segs;
    }
  }

  /** An absolute directory, written out: `/` followed by its segments. */
  function Dir(segs: seq<string>): string
  {
    "/" + Joined(segs)
  }

  /** How `normalize` writes an absolute result: `/` when nothing is left, a trailing `/` kept. */
  function Render(stack: seq<string>, trailingSlash: bool): string
  {
    if stack == [] then "/" else Dir(stack) + (if trailingSlash then "/" else "")
  }

  /** `path.normalize` of an absolute path. */
  function Normalize(p: string): string
    requires p != [] && p[0] == '/'
  {
    Render(Resolve(Split(p), []), p[|p| - 1] == '/')
  }

  /** `path.join(dir, name)` for an absolute directory: an empty name is skipped. */
  function Join(dir: string, name: string): string
    requires dir != [] && dir[0] == '/'
  {
    if name == "" then Normalize(dir) else Normalize(dir + "/" + name)
  }

  /** A directory reads back as its own segments. */
  lemma DirResolves(dirSegs: seq<string>)
    requires dirSegs != [] && PlainSegments(dirSegs)
    ensures Split(Dir(dirSegs)) == [""] + dirSegs
    ensures Resolve([""] + dirSegs, []) == dirSegs
  {
    SplitJoined([""] + dirSegs);
    assert Joined([""] + dirSegs) == Dir(dirSegs);
    ResolvePlain(dirSegs, []);
    assert [] + dirSegs == dirSegs;
    assert ([""] + dirSegs)[1..] == dirSegs;
  }

  /** A normalised directory does not end with a slash. */
  lemma DirHasNoTrailingSlash(dirSegs: seq<string>)
    requires dirSegs != [] && PlainSegments(dirSegs)
    ensures Dir(dirSegs)[|Dir(dirSegs)| - 1] != '/'
  {
    var last := dirSegs[|dirSegs| - 1];
    if |dirSegs| > 1 {
      JoinedSnoc(dirSegs[..|dirSegs| - 1], last);
      assert dirSegs[..|dirSegs| - 1] + [last] == dirSegs;
    }
    assert PlainSegment(last);
    assert Dir(dirSegs)[|Dir(dirSegs)| - 1] == last[|last| - 1];
  }

  /**
   * Joining onto a normalised directory resolves the name's segments on top
   * of the directory's own.
   */
  lemma JoinOntoDir(dirSegs: seq<string>, name: string)
    requires dirSegs != [] && PlainSegments(dirSegs)
    ensures Join(Dir(dirSegs), name) == Render(Resolve(Split(name), dirSegs), name != "" && name[|name| - 1] == '/')
  {
    if name == "" {
      JoinEmptyName(dirSegs);
    } else {
      JoinNonEmptyName(dirSegs, name);
    }
  }

  lemma JoinEmptyName(dirSegs: seq<string>)
    requires dirSegs != [] && PlainSegments(dirSegs)
    ensures Join(Dir(dirSegs), "") == Render(dirSegs, false)
    ensures Resolve(Split(""), dirSegs) == dirSegs
  {
    var d := Dir(dirSegs);
    DirResolves(dirSegs);
    DirHasNoTrailingSlash(dirSegs);
    assert Join(d, "") == Render(Resolve(Split(d), []), false);
  }

  lemma JoinNonEmptyName(dirSegs: seq<string>, name: string)
    requires dirSegs != [] && PlainSegments(dirSegs)
    requires name != ""
    ensures Join(Dir(dirSegs), name) == Render(Resolve(Split(name), dirSegs), name[|name| - 1] == '/')
  {
    var d := Dir(dirSegs);
    var p := d + "/" + name;
    DirResolves(dirSegs);
    SplitAround(d, name);
    ResolveConcat([""] + dirSegs, Split(name), []);
    assert Resolve(Split(p), []) == Resolve(Split(name), dirSegs);
    assert p[|p| - 1] == name[|name| - 1];
    assert Join(d, name) == Normalize(p);
  }

  /** A plain file name joined onto a directory lands directly inside it. */
  lemma JoinPlainName(dirSegs: seq<string>, name: string)
    requires dirSegs != [] && PlainSegments(dirSegs)
    requires PlainSegment(name)
    ensures Join(Dir(dirSegs), name) == Dir(dirSegs) + "/" + name
  {
    JoinOntoDir(dirSegs, name);
    assert name != "" && name[|name| - 1] != '/';
    RenderPlainName(dirSegs, name);
  }

  lemma RenderPlainName(dirSegs: seq<string>, name: string)
    requires dirSegs != [] && PlainSegments(dirSegs)
    requires PlainSegment(name)
    ensures Render(Resolve(Split(name), dirSegs), false) == Dir(dirSegs) + "/" + name
  {
    SplitNoSlash(name);
    assert PlainSegments([name]);
    ResolvePlain([name], dirSegs);
    JoinedSnoc(dirSegs, name);
  }

  /** Drops the slashes at the end of `s`. */
  function TrimTrailingSlashes(s: string): (r: string)
    ensures |r| <= |s| && r == s[..|r|]
    ensures r == [] || r[|r| - 1] != '/'
    ensures forall i :: |r| <= i < |s| ==> s[i] == '/'
  {
    if s != [] && s[|s| - 1] == '/' then TrimTrailingSlashes(s[..|s| - 1]) else s
  }

  /** The last path component, trailing slashes ignored. */
  function Basename(path: string): (r: string)
    ensures NoSlash(r)
  {
    var p := TrimTrailingSlashes(path);
    p[LastIndexOf(p, '/') + 1..]
  }

  /**
   * `path.extname`: from the last dot of the last component to its end; empty
   * when there is no dot, when the dot starts the component, or for `..`.
   */
  function Extname(path: string): (r: string)
    ensures r == [] || r[0] == '.'
    ensures NoSlash(r)
  {
    var base := Basename(path);
    var dot := LastIndexOf(base, '.');
    if base == ".." || dot <= 0 then ""
    else
      assert base[dot] == '.';
      base[dot..]
  }

  /** If one segment followed by more path starts like another segment and a slash, the two segments are equal. */
  lemma FirstSegmentMatches(a: string, r: string, x: string, z: string)
    requires a != [] && NoSlash(a) && NoSlash(r)
    requires x == [] || x[0] == '/'
    requires StartsWith(r + x, a + "/" + z)
    ensures r == a && StartsWith(x, "/" + z)
  {
    var S, P := r + x, a + "/" + z;
    assert S[..|P|] == P;
    assert forall i :: 0 <= i < |r| ==> S[i] == r[i];
    assert forall i :: 0 <= i < |a| ==> S[i] == P[i] == a[i];
    assert S[|a|] == P[|a|] == '/';
    assert |r| < |S| ==> S[|r|] == x[0] == '/';
    assert |r| == |a|;
    assert r == S[..|a|] == P[..|a|] == a;
    assert x[..|P| - |a|] == S[|a|..|P|] == P[|a|..] == "/" + z;
  }

  /** If one segment followed by more path starts with another segment, the first starts with the second. */
  lemma FirstSegmentExtends(a: string, r: string, x: string)
    requires a != [] && NoSlash(a) && NoSlash(r)
    requires x == [] || x[0] == '/'
    requires StartsWith(r + x, a)
    ensures StartsWith(r, a)
  {
    var S := r + x;
    assert S[..|a|] == a;
    assert forall i :: 0 <= i < |a| ==> S[i] == a[i];
    assert |r| < |S| ==> S[|r|] == x[0] == '/';
    assert |r| >= |a|;
    assert r[..|a|] == S[..|a|];
  }

  /** The segments after the first one, written out with their leading slash, and the given tail. */
  function RestOfJoined(segs: seq<string>, tail: string): string
    requires segs != []
  {
    (if |segs| > 1 then "/" + Joined(segs[1..]) else "") + tail
  }

  lemma JoinedUnfolds(segs: seq<string>, tail: string)
    requires segs != []
    ensures Joined(segs) + tail == segs[0] + RestOfJoined(segs, tail)
  {
  }

  /** The first step of `JoinedPrefix`: the first segments are equal and the rest still has the prefix. */
  lemma JoinedPrefixStep(a: seq<string>, r: seq<string>, tail: string)
    requires a != [] && PlainSegments(a) && PlainSegments(r)
    requires tail == "" || tail == "/"
    requires StartsWith(Joined(r) + tail, Joined(a) + "/")
    ensures r != [] && r[0] == a[0]
    ensures |a| > 1 ==> |r| > 1 && StartsWith(Joined(r[1..]) + tail, Joined(a[1..]) + "/")
  {
    JoinedUnfolds(a, "/");
    var z := if |a| > 1 then Joined(a[1..]) + "/" else "";
    assert Joined(a) + "/" == a[0] + "/" + z;
    if r == [] {
      assert false;
    }
    JoinedUnfolds(r, tail);
    var xr := RestOfJoined(r, tail);
    FirstSegmentMatches(a[0], r[0], xr, z);
    if |a| > 1 {
      if |r| == 1 {
        assert false;
      }
      assert xr == "/" + (Joined(r[1..]) + tail);
      assert "/" + z == "/" + (Joined(a[1..]) + "/");
      StartsWithTail('/', Joined(r[1..]) + tail, Joined(a[1..]) + "/");
    }
  }

  /**
   * A joined segment list (plus a possible trailing slash) that starts with
   * another joined list and a slash extends that list segment by segment.
   */
  lemma {:induction false} JoinedPrefix(a: seq<string>, r: seq<string>, tail: string)
    requires a != [] && PlainSegments(a) && PlainSegments(r)
    requires tail == "" || tail == "/"
    requires StartsWith(Joined(r) + tail, Joined(a) + "/")
    ensures |r| >= |a| && r[..|a|] == a
  {
    JoinedPrefixStep(a, r, tail);
    if |a| > 1 {
      JoinedPrefix(a[1..], r[1..], tail);
      ConsPrefix(a, r, |a|);
      assert a[..|a|] == a;
    } else {
      assert r[..1] == [r[0]];
    }
  }

  /** The first step of `JoinedLoosePrefix`. */
  lemma JoinedLoosePrefixStep(a: seq<string>, r: seq<string>, tail: string)
    requires a != [] && PlainSegments(a) && PlainSegments(r)
    requires tail == "" || tail == "/"
    requires StartsWith(Joined(r) + tail, Joined(a))
    ensures r != []
    ensures |a| == 1 ==> StartsWith(r[0], a[0])
    ensures |a| > 1 ==> |r| > 1 && r[0] == a[0] && StartsWith(Joined(r[1..]) + tail, Joined(a[1..]))
  {
    if r == [] {
      assert false;
    }
    JoinedUnfolds(r, tail);
    var xr := RestOfJoined(r, tail);
    if |a| == 1 {
      FirstSegmentExtends(a[0], r[0], xr);
    } else {
      JoinedUnfolds(a, "");
      var z := Joined(a[1..]);
      assert Joined(a) == a[0] + "/" + z;
      FirstSegmentMatches(a[0], r[0], xr, z);
      if |r| == 1 {
        assert false;
      }
      assert xr == "/" + (Joined(r[1..]) + tail);
      StartsWithTail('/', Joined(r[1..]) + tail, z);
    }
  }

  /**
   * A joined segment list that merely starts with another joined list agrees
   * with it up to the last segment, whose name only has to begin with that
   * segment's name.
   */
  lemma {:induction false} JoinedLoosePrefix(a: seq<string>, r: seq<string>, tail: string)
    requires a != [] && PlainSegments(a) && PlainSegments(r)
    requires tail == "" || tail == "/"
    requires StartsWith(Joined(r) + tail, Joined(a))
    ensures |r| >= |a| && r[..|a| - 1] == a[..|a| - 1] && StartsWith(r[|a| - 1], a[|a| - 1])
  {
    JoinedLoosePrefixStep(a, r, tail);
    if |a| > 1 {
      JoinedLoosePrefix(a[1..], r[1..], tail);
      ConsPrefix(a, r, |a| - 1);
      assert r[|a| - 1] == r[1..][|a| - 2] && a[|a| - 1] == a[1..][|a| - 2];
    }
  }

  /** Two lists that agree on their first element and then on `k - 1` more agree on their first `k`. */
  lemma ConsPrefix(a: seq<string>, r: seq<string>, k: nat)
    requires 1 <= k <= |a| && k <= |r| && r[0] == a[0]
    requires r[1..][..k - 1] == a[1..][..k - 1]
    ensures r[..k] == a[..k]
  {
    assert r[..k] == [r[0]] + r[1..][..k - 1];
    assert a[..k] == [a[0]] + a[1..][..k - 1];
  }

  /** A common first character can be dropped from both sides of a prefix test. */
  lemma StartsWithTail(c: char, x: string, y: string)
    requires StartsWith([c] + x, [c] + y)
    ensures StartsWith(x, y)
  {
    assert x[..|y|] == ([c] + x)[1..|y| + 1];
    assert y == ([c] + y)[1..];
  }

  /** A normalised path under `dir + "/"` resolves to the directory's segments followed by more. */
  lemma RenderUnderDir(dirSegs: seq<string>, stack: seq<string>, trailingSlash: bool)
    requires dirSegs != [] && PlainSegments(dirSegs) && PlainSegments(stack)
    requires StartsWith(Render(stack, trailingSlash), Dir(dirSegs) + "/")
    ensures |stack| >= |dirSegs| && stack[..|dirSegs|] == dirSegs
  {
    var tail := if trailingSlash then "/" else "";
    if stack == [] {
      assert false;
    }
    assert Render(stack, trailingSlash) == "/" + (Joined(stack) + tail);
    assert Dir(dirSegs) + "/" == "/" + (Joined(dirSegs) + "/");
    StartsWithTail('/', Joined(stack) + tail, Joined(dirSegs) + "/");
    JoinedPrefix(dirSegs, stack, tail);
  }

  /**
   * A normalised path that merely starts with `dir` lies in the directory's
   * parent, in an entry whose name begins with the directory's own name.
   */
  lemma RenderLooselyUnderDir(dirSegs: seq<string>, stack: seq<string>, trailingSlash: bool)
    requires dirSegs != [] && PlainSegments(dirSegs) && PlainSegments(stack)
    requires StartsWith(Render(stack, trailingSlash), Dir(dirSegs))
    ensures |stack| >= |dirSegs|
    ensures stack[..|dirSegs| - 1] == dirSegs[..|dirSegs| - 1]
    ensures StartsWith(stack[|dirSegs| - 1], dirSegs[|dirSegs| - 1])
  {
    var tail := if trailingSlash then "/" else "";
    if stack == [] {
      assert false;
    }
    assert Render(stack, trailingSlash) == "/" + (Joined(stack) + tail);
    StartsWithTail('/', Joined(stack) + tail, Joined(dirSegs));
    JoinedLoosePrefix(dirSegs, stack, tail);
  }
}
