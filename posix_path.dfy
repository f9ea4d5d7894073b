/**
 * `path.posix.join` as Node.js implements it, which `anchorFor` uses to
 * build image links: join the non-empty arguments with `/`, then normalise
 * (drop empty and `.` segments, let `..` remove the segment before it).
 */
module PosixPath {
  import opened Text

  /** Index of the first `/` in `s`, or |s|. */
  function FirstSlash(s: string): (n: nat)
    ensures n <= |s|
  {
    if s == [] || s[0] == '/' then 0 else 1 + FirstSlash(s[1..])
  }

  /** No slash comes before the first one, and the first one is a slash. */
  lemma {:induction false} FirstSlashFacts(s: string)
    ensures forall i :: 0 <= i < FirstSlash(s) ==> s[i] != '/'
    ensures FirstSlash(s) < |s| ==> s[FirstSlash(s)] == '/'
    decreases |s|
  {
    if s != [] && s[0] != '/' {
      FirstSlashFacts(s[1..]);
      assert forall i :: 1 <= i < |s| ==> s[i] == s[1..][i - 1];
    }
  }

  /** `s.split('/')`. */
  function Split(s: string): (segs: seq<string>)
    ensures |segs| >= 1
    decreases |s|
  {
    var n := FirstSlash(s);
    if n == |s| then [s] else [s[..n]] + Split(s[n + 1..])
  }

  lemma SplitNoSlash(s: string)
    requires NoChar(s, '/')
    ensures Split(s) == [s]
  {
    FirstSlashFacts(s);
  }

  lemma {:induction false} SplitConcat(a: string, b: string)
    ensures Split(a + "/" + b) == Split(a) + Split(b)
    decreases |a|
  {
    var n := FirstSlash(a);
    FirstSlashFacts(a);
    if n == |a| {
      SplitPrefixed(a, b, a + "/" + b);
      assert Split(a) == [a];
    } else {
      var rest := a[n + 1..];
      SplitShift(a, b, a + "/" + b, n);
      SplitConcat(rest, b);
      assert Split(a) == [a[..n]] + Split(rest);
    }
  }

  lemma SplitPrefixed(a: string, b: string, s: string)
    requires s == a + "/" + b && NoChar(a, '/')
    ensures Split(s) == [a] + Split(b)
  {
    assert forall i :: 0 <= i < |a| ==> s[i] == a[i];
    assert s[..|a|] == a && s[|a|] == '/' && s[|a| + 1..] == b;
    SplitAt(s, |a|);
  }

  lemma SplitShift(a: string, b: string, s: string, n: nat)
    requires s == a + "/" + b && n < |a| && a[n] == '/'
    requires forall i :: 0 <= i < n ==> a[i] != '/'
    ensures Split(s) == [a[..n]] + Split(a[n + 1..] + "/" + b)
  {
    assert forall i :: 0 <= i <= n ==> s[i] == a[i];
    assert s[..n] == a[..n];
    assert s[n + 1..] == a[n + 1..] + "/" + b;
    SplitAt(s, n);
  }

  /** The first slash of `s` is at `n`. */
  lemma {:induction false} FirstSlashAt(s: string, n: nat)
    requires n < |s| && s[n] == '/'
    requires forall i :: 0 <= i < n ==> s[i] != '/'
    ensures FirstSlash(s) == n
    decreases n
  {
    if n > 0 {
      FirstSlashAt(s[1..], n - 1);
    }
  }

  lemma SplitAt(s: string, n: nat)
    requires n < |s| && s[n] == '/'
    requires forall i :: 0 <= i < n ==> s[i] != '/'
    ensures Split(s) == [s[..n]] + Split(s[n + 1..])
  {
    FirstSlashAt(s, n);
  }

  /** A segment that normalisation keeps as it is. */
  predicate PlainSegment(x: string) {
    x != "" && x != "." && x != ".." && NoChar(x, '/')
  }

  /** One segment of Node's `normalizeString`, on the stack of kept segments. */
  function Step(stack: seq<string>, seg: string, allowAboveRoot: bool): seq<string> {
    if seg == "" || seg == "." then stack
    else if seg == ".." then
      if |stack| > 0 && stack[|stack| - 1] != ".." then stack[..|stack| - 1]
      else if allowAboveRoot then stack + [".."]
      else stack
    else stack + [seg]
  }

  /** Normalisation of the segments, left to right. */
  function NormalizeSegments(segs: seq<string>, allowAboveRoot: bool): seq<string> {
    if segs == [] then []
    else Step(NormalizeSegments(segs[..|segs| - 1], allowAboveRoot), segs[|segs| - 1], allowAboveRoot)
  }

  /** `path.posix.normalize(p)`. */
  function Normalize(p: string): string {
    if p == [] then "."
    else
      var absolute := p[0] == '/';
      var trailing := p[|p| - 1] == '/';
      var body := Join(NormalizeSegments(Split(p), !absolute), "/");
      if body == [] then (if absolute then "/" else if trailing then "./" else ".")
      else (if absolute then "/" else "") + body + (if trailing then "/" else "")
  }

  /** `path.posix.join(a, b)`. */
  function PosixJoin(a: string, b: string): string {
    if a == [] && b == [] then "."
    else if a == [] then Normalize(b)
    else if b == [] then Normalize(a)
    else Normalize(a + "/" + b)
  }

  lemma {:induction false} JoinAppend(xs: seq<string>, y: string, sep: string)
    ensures Join(xs + [y], sep) == if xs == [] then y else Join(xs, sep) + sep + y
    decreases |xs|
  {
    if |xs| == 1 {
      assert xs + [y] == [xs[0], y];
      assert [xs[0], y][1..] == [y];
    } else if |xs| > 1 {
      assert (xs + [y])[1..] == xs[1..] + [y];
      JoinAppend(xs[1..], y, sep);
    } else {
      assert xs + [y] == [y];
    }
  }

  /** The last segment of `s` keeps every slash-free ending of `s`. */
  lemma {:induction false} SplitLast(s: string, x: string)
    requires EndsWith(s, x) && NoChar(x, '/')
    ensures EndsWith(Split(s)[|Split(s)| - 1], x)
    decreases |s|
  {
    var n := FirstSlash(s);
    FirstSlashFacts(s);
    if n < |s| {
      assert forall i :: |s| - |x| <= i < |s| ==> s[i] == x[i - (|s| - |x|)];
      assert |s| - |x| > n;
      var t := s[n + 1..];
      assert t[|t| - |x|..] == s[|s| - |x|..];
      SplitLast(t, x);
    }
  }

  /** Plain segments are all kept, after whatever the prefix left. */
  lemma {:induction false} NormalizePlain(pre: seq<string>, xs: seq<string>, allow: bool)
    requires forall k :: 0 <= k < |xs| ==> PlainSegment(xs[k])
    ensures NormalizeSegments(pre + xs, allow) == NormalizeSegments(pre, allow) + xs
    decreases |xs|
  {
    if xs == [] {
      assert pre + xs == pre;
    } else {
      var init := xs[..|xs| - 1];
      assert (pre + xs)[..|pre + xs| - 1] == pre + init;
      NormalizePlain(pre, init, allow);
      assert init + [xs[|xs| - 1]] == xs;
    }
  }

  /** Normalisation of a path that does not end in `/` and keeps some segment. */
  lemma NormalizeUnfold(p: string, abs: bool, body: string)
    requires p != [] && p[|p| - 1] != '/' && abs == (p[0] == '/')
    requires body == Join(NormalizeSegments(Split(p), !abs), "/") && body != []
    ensures Normalize(p) == (if abs then "/" else "") + body
  {
  }

  /** A joined path whose last argument ends in a slash-free, non-dot name
      keeps that ending. */
  lemma PosixJoinEnding(a: string, b: string, x: string)
    requires EndsWith(b, x) && NoChar(x, '/') && |x| >= 1 && x[|x| - 1] != '/' && x[|x| - 1] != '.'
    ensures EndsWith(PosixJoin(a, b), x)
  {
    var p := if a == [] then b else a + "/" + b;
    assert PosixJoin(a, b) == Normalize(p);
    if a != [] {
      EndsWithConcat(a + "/", b);
      EndsWithTrans(p, b, x);
    }
    NormalizeEnding(p, x);
  }

  /** Normalisation keeps a slash-free ending that does not end in a dot. */
  lemma NormalizeEnding(p: string, x: string)
    requires EndsWith(p, x) && NoChar(x, '/') && |x| >= 1 && x[|x| - 1] != '/' && x[|x| - 1] != '.'
    ensures EndsWith(Normalize(p), x)
  {
    var segs := Split(p);
    SplitLast(p, x);
    var last := segs[|segs| - 1];
    assert last[|last| - 1] == x[|x| - 1];
    assert last != "" && last != "." && last != "..";
    var abs := p[0] == '/';
    var stack := NormalizeSegments(segs[..|segs| - 1], !abs);
    assert NormalizeSegments(segs, !abs) == stack + [last];
    var body := Join(stack + [last], "/");
    JoinEnding(stack, last, x);
    assert p[|p| - 1] == x[|x| - 1];
    NormalizeUnfold(p, abs, body);
    EndsWithConcat(if abs then "/" else "", body);
    EndsWithTrans(Normalize(p), body, x);
  }

  /** Joining keeps the ending of the last part. */
  lemma JoinEnding(stack: seq<string>, last: string, x: string)
    requires EndsWith(last, x) && |x| >= 1
    ensures EndsWith(Join(stack + [last], "/"), x) && Join(stack + [last], "/") != []
  {
    JoinAppend(stack, last, "/");
    EndsWithConcat(if stack == [] then [] else Join(stack, "/") + "/", last);
    EndsWithTrans(Join(stack + [last], "/"), last, x);
  }

  /** With an absolute base made of plain segments and a plain name, joining
      is plain concatenation with `/`. */
  lemma {:induction false} PosixJoinPlain(segs: seq<string>, name: string)
    requires |segs| >= 1 && forall k :: 0 <= k < |segs| ==> PlainSegment(segs[k])
    requires PlainSegment(name)
    ensures PosixJoin("/" + Join(segs, "/"), name) == "/" + Join(segs, "/") + "/" + name
  {
    var base := Join(segs, "/");
    var q := base + "/" + name;
    var p := "/" + q;
    assert "/" + base + "/" + name == p;
    assert PosixJoin("/" + base, name) == Normalize(p);
    var all := segs + [name];
    PlainSplit(segs, name);
    PlainNormalized(all);
    JoinAppend(segs, name, "/");
    NormalizeAbsolute(p, all, q);
  }

  /** An absolute path whose segments normalise to themselves is its own
      normal form. */
  lemma NormalizeAbsolute(p: string, all: seq<string>, q: string)
    requires p == "/" + q && q != [] && q[|q| - 1] != '/'
    requires Split(p) == [""] + all
    requires NormalizeSegments([""] + all, false) == all
    requires Join(all, "/") == q
    ensures Normalize(p) == p
  {
    assert p[|p| - 1] == q[|q| - 1];
    NormalizeUnfold(p, true, q);
  }

  /** The segments of `/a/b/.../name`. */
  lemma {:induction false} PlainSplit(segs: seq<string>, name: string)
    requires |segs| >= 1 && forall k :: 0 <= k < |segs| ==> PlainSegment(segs[k])
    requires PlainSegment(name)
    ensures Split("/" + (Join(segs, "/") + "/" + name)) == [""] + (segs + [name])
  {
    var base := Join(segs, "/");
    var q := base + "/" + name;
    assert forall k :: 0 <= k < |segs| ==> NoChar(segs[k], '/');
    SplitJoin(segs);
    SplitConcat(base, name);
    SplitNoSlash(name);
    SplitLeadingSlash(q);
  }

  /** An absolute path of plain segments normalises to those segments. */
  lemma {:induction false} PlainNormalized(all: seq<string>)
    requires forall k :: 0 <= k < |all| - 1 ==> PlainSegment(all[k])
    requires |all| >= 1 && PlainSegment(all[|all| - 1])
    ensures NormalizeSegments([""] + all, false) == all
  {
    assert forall k :: 0 <= k < |all| ==> PlainSegment(all[k]);
    NormalizePlain([""], all, false);
    assert NormalizeSegments([""], false) == [];
  }

  lemma SplitLeadingSlash(q: string)
    ensures Split("/" + q) == [""] + Split(q)
  {
    assert FirstSlash("/" + q) == 0;
    assert ("/" + q)[1..] == q;
  }

  lemma {:induction false} SplitJoin(segs: seq<string>)
    requires |segs| >= 1 && forall k :: 0 <= k < |segs| ==> NoChar(segs[k], '/')
    ensures Split(Join(segs, "/")) == segs
    decreases |segs|
  {
    if |segs| == 1 {
      SplitNoSlash(segs[0]);
    } else {
      var tail := segs[1..];
      assert forall k :: 0 <= k < |tail| ==> tail[k] == segs[k + 1];
      SplitJoin(tail);
      JoinCons(segs, "/");
      SplitCons(segs[0], Join(tail, "/"), tail);
      assert segs == [segs[0]] + tail;
    }
  }

  lemma JoinCons(parts: seq<string>, sep: string)
    requires |parts| >= 2
    ensures Join(parts, sep) == parts[0] + sep + Join(parts[1..], sep)
  {
  }

  /** A slash-free segment in front of a path adds one segment. */
  lemma SplitCons(a: string, rest: string, tail: seq<string>)
    requires NoChar(a, '/') && Split(rest) == tail
    ensures Split(a + "/" + rest) == [a] + tail
  {
    SplitConcat(a, rest);
    SplitNoSlash(a);
  }
}
