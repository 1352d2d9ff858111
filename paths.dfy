/**
 * The POSIX behaviour of Node's `path.normalize`, `path.join` and
 * `path.extname`, which the workspace and git services rely on.
 */
module Paths {
  import opened Strings

  predicate IsAbsolute(s: string) {
    |s| > 0 && s[0] == '/'
  }

  /** A path segment that normalisation keeps as it is. */
  predicate Plain(seg: string) {
    seg != "" && seg != "." && seg != ".." && '/' !in seg
  }

  predicate AllPlain(segs: seq<string>) {
    forall k :: 0 <= k < |segs| ==> Plain(segs[k])
  }

  /**
   * One step of segment resolution: empty and "." segments vanish, ".." pops the
   * previous segment (or stays, above the root of a relative path), anything else
   * is pushed.
   */
  function Step(stack: seq<string>, seg: string, absolute: bool): seq<string> {
    if seg == "" || seg == "." then stack
    else if seg == ".." then
      if |stack| > 0 && stack[|stack| - 1] != ".." then stack[..|stack| - 1]
      else if absolute then stack
      else stack + [".."]
    else stack + [seg]
  }

  function Resolve(stack: seq<string>, segs: seq<string>, absolute: bool): seq<string>
    decreases |segs|
  {
    if segs == [] then stack else Resolve(Step(stack, segs[0], absolute), segs[1..], absolute)
  }

  /** `path.posix.normalize(s)`. */
  function Normalize(s: string): (r: string)
    ensures r != ""
  {
    if s == "" then "."
    else
      var absolute := IsAbsolute(s);
      var trailing := s[|s| - 1] == '/';
      var body := Join(Resolve([], Split(s, '/'), absolute), '/');
      if body == "" then
        if absolute then "/" else if trailing then "./" else "."
      else
        var body' := if trailing then body + "/" else body;
        if absolute then "/" + body' else body'
  }

  /** The non-empty arguments of `path.join`, glued with '/'. */
  function Glue(args: seq<string>): string
    decreases |args|
  {
    if args == [] then ""
    else
      var rest := Glue(args[1..]);
      if args[0] == "" then rest
      else if rest == "" then args[0]
      else args[0] + "/" + rest
  }

  /** `path.posix.join(...args)`. */
  function JoinPaths(args: seq<string>): (r: string)
    ensures r != ""
  {
    var glued := Glue(args);
    if glued == "" then "." else Normalize(glued)
  }

  lemma {:induction false} ResolvePlain(stack: seq<string>, segs: seq<string>, absolute: bool)
    requires AllPlain(segs)
    ensures Resolve(stack, segs, absolute) == stack + segs
    decreases |segs|
  {
    if segs != [] {
      ResolvePlain(stack + [segs[0]], segs[1..], absolute);
      assert stack + [segs[0]] + segs[1..] == stack + segs;
    }
  }

  /** Resolving a concatenation resolves the second part on the stack the first part leaves. */
  lemma {:induction false} ResolveAppend(stack: seq<string>, a: seq<string>, b: seq<string>, absolute: bool)
    ensures Resolve(stack, a + b, absolute) == Resolve(Resolve(stack, a, absolute), b, absolute)
    decreases |a|
  {
    if a == [] {
      assert a + b == b;
    } else {
      assert (a + b)[0] == a[0];
      assert (a + b)[1..] == a[1..] + b;
      ResolveAppend(Step(stack, a[0], absolute), a[1..], b, absolute);
    }
  }

  lemma {:induction false} JoinNonEmpty(parts: seq<string>, sep: char)
    requires |parts| >= 1 && AllPlain(parts)
    ensures Join(parts, sep) != ""
    ensures Join(parts, sep)[|Join(parts, sep)| - 1] != '/'
  {
    if |parts| > 1 {
      JoinNonEmpty(parts[1..], sep);
    }
  }

  /** Normalising an absolute path made of plain segments changes nothing. */
  lemma NormalizeAbsolutePlain(segs: seq<string>)
    requires |segs| >= 1 && AllPlain(segs)
    ensures Normalize("/" + Join(segs, '/')) == "/" + Join(segs, '/')
  {
    var body := Join(segs, '/');
    var s := "/" + body;
    JoinNonEmpty(segs, '/');
    assert s[|s| - 1] == body[|body| - 1];
    SplitJoin(segs, '/');
    SplitAt("", body, '/');
    assert "" + ['/'] + body == s;
    assert Split(s, '/') == [""] + segs;
    assert ([""] + segs)[1..] == segs;
    ResolvePlain([], segs, true);
    assert Resolve([], Split(s, '/'), true) == segs;
  }

  /**
   * Joining a workspace root made of plain segments with a relative path made of
   * plain segments yields the root, a slash and the relative path.
   */
  lemma JoinPlain(rootSegs: seq<string>, relSegs: seq<string>)
    requires |rootSegs| >= 1 && AllPlain(rootSegs)
    requires |relSegs| >= 1 && AllPlain(relSegs)
    ensures JoinPaths(["/" + Join(rootSegs, '/'), Join(relSegs, '/')])
         == "/" + Join(rootSegs, '/') + "/" + Join(relSegs, '/')
  {
    var root := "/" + Join(rootSegs, '/');
    var rel := Join(relSegs, '/');
    JoinNonEmpty(relSegs, '/');
    GlueTwo(root, rel);
    var glued := root + "/" + rel;
    assert JoinPaths([root, rel]) == Normalize(glued);
    JoinAppend(rootSegs, relSegs);
    ConcatAssoc(Join(rootSegs, '/'), rel);
    AllPlainAppend(rootSegs, relSegs);
    NormalizeAbsolutePlain(rootSegs + relSegs);
  }

  lemma ConcatAssoc(a: string, b: string)
    ensures "/" + a + "/" + b == "/" + (a + "/" + b)
  {
  }

  lemma GlueTwo(a: string, b: string)
    requires a != "" && b != ""
    ensures Glue([a, b]) == a + "/" + b
  {
    assert [b][1..] == [];
    assert Glue([b]) == b;
    assert [a, b][1..] == [b];
  }

  lemma GlueThree(a: string, b: string, c: string)
    requires a != "" && b != "" && c != ""
    ensures Glue([a, b, c]) == a + "/" + (b + "/" + c)
  {
    assert [c][1..] == [];
    assert Glue([c]) == c;
    assert [b, c][1..] == [c];
    assert Glue([b, c]) == b + "/" + c;
    assert [a, b, c][1..] == [b, c];
  }

  lemma AllPlainAppend(a: seq<string>, b: seq<string>)
    requires AllPlain(a) && AllPlain(b)
    ensures AllPlain(a + b)
  {
    forall k | 0 <= k < |a + b| ensures Plain((a + b)[k]) {
      if k < |a| { assert (a + b)[k] == a[k]; }
      else { assert (a + b)[k] == b[k - |a|]; }
    }
  }

  lemma {:induction false} JoinAppend(a: seq<string>, b: seq<string>)
    requires |a| >= 1 && |b| >= 1
    ensures Join(a + b, '/') == Join(a, '/') + "/" + Join(b, '/')
  {
    if |a| == 1 {
      assert (a + b)[1..] == b;
    } else {
      assert (a + b)[1..] == a[1..] + b;
      JoinAppend(a[1..], b);
    }
  }

  // ---------------------------------------------------------------- extname

  /** Index just after the last character that is not a trailing '/'. */
  function TrimEnd(s: string): (end: nat)
    ensures end <= |s|
    ensures forall k :: end <= k < |s| ==> s[k] == '/'
    ensures end > 0 ==> s[end - 1] != '/'
  {
    if s == [] || s[|s| - 1] != '/' then |s| else TrimEnd(s[..|s| - 1])
  }

  /** Start index of the last path component of `s[..end]`. */
  function BaseStart(s: string, end: nat): (start: nat)
    requires end <= |s|
    ensures start <= end
    ensures start > 0 ==> s[start - 1] == '/'
    ensures forall k :: start <= k < end ==> s[k] != '/'
  {
    if end == 0 || s[end - 1] == '/' then end else BaseStart(s, end - 1)
  }

  /** Index of the last '.' in `s[start..end]`, if any. */
  function LastDot(s: string, start: nat, end: nat): (r: Results.Option<nat>)
    requires start <= end <= |s|
    decreases end
    ensures r.Some? ==> start <= r.value < end && s[r.value] == '.'
    ensures r.Some? ==> forall k :: r.value < k < end ==> s[k] != '.'
    ensures r.None? ==> forall k :: start <= k < end ==> s[k] != '.'
  {
    if end <= start then Results.None
    else if s[end - 1] == '.' then Results.Some(end - 1)
    else LastDot(s, start, end - 1)
  }

  /**
   * `path.posix.extname(s)`: from the last '.' of the last component to its end;
   * empty when that component has no '.', starts with its only relevant '.', or is "..".
   */
  function Extname(s: string): (r: string)
    ensures r != "" ==> r[0] == '.'
    ensures r != "" ==> EndsWith(s[..TrimEnd(s)], r)
  {
    var end := TrimEnd(s);
    var start := BaseStart(s, end);
    match LastDot(s, start, end)
    case None => ""
    case Some(d) =>
      if d == start || s[start..end] == ".." then "" else s[d..end]
  }
}
