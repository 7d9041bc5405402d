/** The reader's resolver for references between entries of the archive
    (`resolveRelativePath`, components/epub-viewer.tsx:33-47). */
module Paths {
  import opened Strings

  /** The directory part of a path: everything up to and including its last
      `/`, or the empty string when the path holds no `/`. It is the longest
      prefix of `path` that is empty or ends in `/`. */
  function Dir(path: string): (d: string)
    ensures d <= path
    ensures d == "" || d[|d| - 1] == '/'
    ensures '/' !in path[|d|..]
  {
    path[..LastIndexOf(path, '/') + 1]
  }

  /** One step of the resolver's stack: `..` pops (and does nothing on an
      empty stack), `.` and empty segments are dropped, anything else is
      pushed. */
  function Step(stack: seq<string>, part: string): seq<string>
  {
    if part == ".." then (if |stack| == 0 then [] else stack[..|stack| - 1])
    else if part == "." || part == "" then stack
    else stack + [part]
  }

  /** The stack after processing `parts` left to right from `stack`. */
  function Normalize(stack: seq<string>, parts: seq<string>): seq<string>
    decreases |parts|
  {
    if |parts| == 0 then stack else Normalize(Step(stack, parts[0]), parts[1..])
  }

  /** A segment that can survive the resolver: not empty, not `.`, not `..`,
      and free of `/`. */
  predicate Clean(segment: string)
  {
    segment != "" && segment != "." && segment != ".." && '/' !in segment
  }

  predicate AllClean(segments: seq<string>)
  {
    forall i :: 0 <= i < |segments| ==> Clean(segments[i])
  }

  /** What `resolveRelativePath(base, relative)` returns. */
  function Resolve(base: string, relative: string): string
  {
    Join(Normalize([], Split(Dir(base) + relative, '/')), '/')
  }

  /** The resolver as the source runs it: a loop with a stack of segments. */
  method ResolveRelativePath(basePath: string, relativePath: string) returns (r: string)
    ensures r == Resolve(basePath, relativePath)
  {
    var baseDir := Dir(basePath);
    var parts := Split(baseDir + relativePath, '/');
    var resolved: seq<string> := [];
    for i := 0 to |parts|
      invariant Normalize(resolved, parts[i..]) == Normalize([], parts)
    {
      var part := parts[i];
      assert parts[i..][1..] == parts[i + 1..];
      if part == ".." {
        if |resolved| > 0 {
          resolved := resolved[..|resolved| - 1];
        }
      } else if part != "." && part != "" {
        resolved := resolved + [part];
      }
    }
    r := Join(resolved, '/');
  }

  /** A stack of clean segments only ever holds clean segments, whatever
      separator-free parts are processed. */
  lemma {:induction false} NormalizeClean(stack: seq<string>, parts: seq<string>)
    requires AllClean(stack)
    requires forall i :: 0 <= i < |parts| ==> '/' !in parts[i]
    ensures AllClean(Normalize(stack, parts))
    decreases |parts|
  {
    if |parts| > 0 {
      NormalizeClean(Step(stack, parts[0]), parts[1..]);
    }
  }

  /** Clean segments are all pushed, in order. */
  lemma {:induction false} NormalizeKeepsClean(stack: seq<string>, parts: seq<string>)
    requires AllClean(parts)
    ensures Normalize(stack, parts) == stack + parts
    decreases |parts|
  {
    if |parts| > 0 {
      NormalizeKeepsClean(stack + [parts[0]], parts[1..]);
      assert stack + [parts[0]] + parts[1..] == stack + parts;
    }
  }

  /** The segments of the resolved path, before joining; all clean. */
  lemma ResolvedSegmentsClean(base: string, relative: string)
    ensures AllClean(Normalize([], Split(Dir(base) + relative, '/')))
  {
    NormalizeClean([], Split(Dir(base) + relative, '/'));
  }

  /** The resolver never fails, and no segment of a non-empty result is
      empty, `.` or `..`: splitting the result on `/` gives clean segments
      only. */
  lemma ResolveIsClean(base: string, relative: string)
    ensures var r := Resolve(base, relative);
      r == "" || AllClean(Split(r, '/'))
  {
    var segments := Normalize([], Split(Dir(base) + relative, '/'));
    ResolvedSegmentsClean(base, relative);
    if |segments| > 0 {
      SplitJoin(segments, '/');
    }
  }

  /** Resolving an already resolved path against a base with no `/` gives
      it back unchanged. */
  lemma ResolveIdempotent(base: string, relative: string)
    ensures Resolve("", Resolve(base, relative)) == Resolve(base, relative)
  {
    var segments := Normalize([], Split(Dir(base) + relative, '/'));
    var r := Join(segments, '/');
    assert Dir("") == "";
    assert Dir("") + r == r;
    ResolvedSegmentsClean(base, relative);
    if |segments| == 0 {
      assert r == "";
      assert Split(r, '/') == [""];
      assert Normalize([], [""]) == Normalize([], []) == [];
    } else {
      SplitJoin(segments, '/');
      NormalizeKeepsClean([], segments);
      assert [] + segments == segments;
    }
  }

  /** The directory of a path is the prefix up to a `/` that no other `/`
      follows. */
  lemma DirAt(path: string, k: nat)
    requires k < |path| && path[k] == '/' && '/' !in path[k + 1..]
    ensures Dir(path) == path[..k + 1]
  {
    var r := LastIndexOf(path, '/');
    assert r >= k;
    assert r <= k by {
      assert forall j :: k < j < |path| ==> path[j] == path[k + 1..][j - k - 1];
    }
  }

  /** One step of the stack, on a list of parts given by its head. */
  lemma NormalizeCons(stack: seq<string>, part: string, rest: seq<string>)
    ensures Normalize(stack, [part] + rest) == Normalize(Step(stack, part), rest)
  {
    assert ([part] + rest)[1..] == rest;
  }

  /** Two segments joined with `/`. */
  lemma JoinTwo(a: string, b: string)
    ensures Join([a, b], '/') == a + "/" + b
  {
    assert [a, b][1..] == [b];
    assert Join([b], '/') == b;
  }

  /** Three segments joined with `/`. */
  lemma JoinThree(a: string, b: string, c: string)
    ensures Join([a, b, c], '/') == a + "/" + b + "/" + c
  {
    assert [a, b, c][1..] == [b, c];
    JoinTwo(b, c);
    assert Join([a, b, c], '/') == a + ['/'] + (b + "/" + c);
  }

  /** The directory of `a/b/f` is `a/b/`. */
  lemma DirOfTwo(a: string, b: string, f: string)
    requires '/' !in a && '/' !in b && '/' !in f
    ensures Dir(a + "/" + b + "/" + f) == a + "/" + b + "/"
  {
    var base := a + "/" + b + "/" + f;
    DirAt(base, |a| + 1 + |b|) by {
      assert base[|a| + 1 + |b| + 1..] == f;
    }
    assert base[..|a| + 1 + |b| + 1] == a + "/" + b + "/";
  }

  /** A parent step: in a chapter `a/b/f`, the reference `../i/x` names
      `a/i/x`, for any clean segments. */
  lemma ResolveParent(a: string, b: string, f: string, i: string, x: string)
    requires Clean(a) && Clean(b) && '/' !in f && Clean(i) && Clean(x)
    ensures Resolve(a + "/" + b + "/" + f, "../" + i + "/" + x) == a + "/" + i + "/" + x
  {
    ParentSegments(a, b, f, i, x);
    ParentStack(a, b, i, x);
    JoinThree(a, i, x);
  }

  lemma ParentSegments(a: string, b: string, f: string, i: string, x: string)
    requires Clean(a) && Clean(b) && '/' !in f && Clean(i) && Clean(x)
    ensures Split(Dir(a + "/" + b + "/" + f) + ("../" + i + "/" + x), '/') == [a, b, "..", i, x]
  {
    DirOfTwo(a, b, f);
    var tail := ".." + ['/'] + (i + ['/'] + x);
    assert a + "/" + b + "/" + ("../" + i + "/" + x) == a + ['/'] + (b + ['/'] + tail);
    SplitNoSeparator(x, '/');
    SplitAfterHead(i, '/', x);
    SplitAfterHead("..", '/', i + ['/'] + x);
    SplitAfterHead(b, '/', tail);
    SplitAfterHead(a, '/', b + ['/'] + tail);
  }

  lemma ParentStack(a: string, b: string, i: string, x: string)
    requires Clean(a) && Clean(b) && Clean(i) && Clean(x)
    ensures Normalize([], [a, b, "..", i, x]) == [a, i, x]
  {
    assert [a, b, "..", i, x] == [a] + [b, "..", i, x];
    NormalizeCons([], a, [b, "..", i, x]);
    assert Step([], a) == [a];
    assert [b, "..", i, x] == [b] + ["..", i, x];
    NormalizeCons([a], b, ["..", i, x]);
    assert ["..", i, x] == [".."] + [i, x];
    NormalizeCons([a, b], "..", [i, x]);
    assert Step([a, b], "..") == [a];
    assert [i, x] == [i] + [x];
    NormalizeCons([a], i, [x]);
    assert [x] == [x] + [];
    NormalizeCons([a, i], x, []);
  }

  /** A current step: in a chapter `a/f`, the reference `./c` names `a/c`;
      the `.` is dropped. */
  lemma ResolveCurrent(a: string, f: string, c: string)
    requires Clean(a) && '/' !in f && Clean(c)
    ensures Resolve(a + "/" + f, "./" + c) == a + "/" + c
  {
    CurrentSegments(a, f, c);
    CurrentStack(a, c);
    JoinTwo(a, c);
  }

  lemma CurrentSegments(a: string, f: string, c: string)
    requires Clean(a) && '/' !in f && Clean(c)
    ensures Split(Dir(a + "/" + f) + ("./" + c), '/') == [a, ".", c]
  {
    var base := a + "/" + f;
    DirAt(base, |a|) by {
      assert base[|a| + 1..] == f;
    }
    assert base[..|a| + 1] == a + "/";
    assert Dir(base) + ("./" + c) == a + ['/'] + ("." + ['/'] + c);
    SplitNoSeparator(c, '/');
    SplitAfterHead(".", '/', c);
    SplitAfterHead(a, '/', "." + ['/'] + c);
  }

  lemma CurrentStack(a: string, c: string)
    requires Clean(a) && Clean(c)
    ensures Normalize([], [a, ".", c]) == [a, c]
  {
    assert [a, ".", c] == [a] + [".", c];
    NormalizeCons([], a, [".", c]);
    assert Step([], a) == [a];
    assert [".", c] == ["."] + [c];
    NormalizeCons([a], ".", [c]);
    assert [c] == [c] + [];
    NormalizeCons([a], c, []);
  }

  /** `..` segments that underflow the stack are dropped silently: in a
      chapter `f` at the archive's root, `../../y` names `y`. */
  lemma ResolveUnderflow(f: string, y: string)
    requires '/' !in f && Clean(y)
    ensures Resolve(f, "../../" + y) == y
  {
    UnderflowSegments(f, y);
    UnderflowStack(y);
  }

  lemma UnderflowSegments(f: string, y: string)
    requires '/' !in f && Clean(y)
    ensures Split(Dir(f) + ("../../" + y), '/') == ["..", "..", y]
  {
    assert Dir(f) == "";
    assert Dir(f) + ("../../" + y) == ".." + ['/'] + (".." + ['/'] + y);
    SplitNoSeparator(y, '/');
    SplitAfterHead("..", '/', y);
    SplitAfterHead("..", '/', ".." + ['/'] + y);
  }

  lemma UnderflowStack(y: string)
    requires Clean(y)
    ensures Normalize([], ["..", "..", y]) == [y]
  {
    assert ["..", "..", y] == [".."] + ["..", y];
    NormalizeCons([], "..", ["..", y]);
    assert ["..", y] == [".."] + [y];
    NormalizeCons([], "..", [y]);
    assert [y] == [y] + [];
    NormalizeCons([], y, []);
  }
}
