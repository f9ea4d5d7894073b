/**
 * The command line of generateRhymil.js: `parseArgs`, and the two path
 * normalisations `main` applies, to `--baseRoot` and to each section's
 * base href.
 */
module Cli {
  import opened Wrappers
  import opened Text

  /** What `parseArgs` binds a key to: `true`, or the token after the option. */
  datatype ArgValue = Flag | Value(s: string)

  type Binding = (string, ArgValue)

  /** A token `parseArgs` treats as an option. */
  predicate IsOption(a: string) {
    StartsWith(a, "--")
  }

  /** The token after an option is its value when it exists, is truthy (not
      empty) and is not an option itself. */
  predicate TakesValue(ts: seq<string>, i: nat) {
    i + 1 < |ts| && ts[i + 1] != "" && !IsOption(ts[i + 1])
  }

  /** The tokens from index `i` on. */
  function From(ts: seq<string>, i: nat): seq<string> {
    if i < |ts| then ts[i..] else []
  }

  /** The bindings the scan makes over `ts`, in the order it makes them. */
  function Bindings(ts: seq<string>): seq<Binding>
    decreases |ts|
  {
    if ts == [] then []
    else if !IsOption(ts[0]) then Bindings(ts[1..])
    else if TakesValue(ts, 0) then [(ts[0][2..], Value(ts[1]))] + Bindings(ts[2..])
    else [(ts[0][2..], Flag)] + Bindings(ts[1..])
  }

  /** Storing the bindings, in order, into an object that holds `m`. */
  function Assign(m: map<string, ArgValue>, bs: seq<Binding>): map<string, ArgValue>
    decreases |bs|
  {
    if bs == [] then m else Assign(m[bs[0].0 := bs[0].1], bs[1..])
  }

  /** The value of the last binding of `k`, if any. */
  function LastBinding(bs: seq<Binding>, k: string): Option<ArgValue>
    decreases |bs|
  {
    if bs == [] then None
    else match LastBinding(bs[1..], k)
      case Some(v) => Some(v)
      case None => if bs[0].0 == k then Some(bs[0].1) else None
  }

  /** The object `parseArgs(argv)` returns: `argv[0]` (the interpreter) and
      `argv[1]` (the script) are never looked at. */
  function Parsed(argv: seq<string>): map<string, ArgValue> {
    Assign(map[], Bindings(From(argv, 2)))
  }

  /** `parseArgs(argv)`: the loop with its index advanced past a consumed value. */
  method ParseArgs(argv: seq<string>) returns (args: map<string, ArgValue>)
    ensures args == Parsed(argv)
  {
    args := map[];
    var i := 2;
    while i < |argv|
      invariant 2 <= i
      invariant Assign(args, Bindings(From(argv, i))) == Parsed(argv)
    {
      var ts := From(argv, i);
      assert ts[0] == argv[i];
      if IsOption(argv[i]) {
        var key := argv[i][2..];
        var val: ArgValue;
        if i + 1 < |argv| && argv[i + 1] != "" && !IsOption(argv[i + 1]) {
          assert TakesValue(ts, 0) && ts[1] == argv[i + 1] && ts[2..] == From(argv, i + 2);
          i := i + 1;
          val := Value(argv[i]);
        } else {
          assert !TakesValue(ts, 0) && ts[1..] == From(argv, i + 1);
          val := Flag;
        }
        args := args[key := val];
      } else {
        assert ts[1..] == From(argv, i + 1);
      }
      i := i + 1;
    }
  }

  /** Storing bindings in order leaves each key with the value of its last binding. */
  lemma {:induction false} AssignLast(m: map<string, ArgValue>, bs: seq<Binding>, k: string)
    ensures LastBinding(bs, k).Some? ==> k in Assign(m, bs) && Assign(m, bs)[k] == LastBinding(bs, k).value
    ensures LastBinding(bs, k).None? ==> (k in Assign(m, bs) <==> k in m)
    ensures LastBinding(bs, k).None? && k in m ==> Assign(m, bs)[k] == m[k]
    decreases |bs|
  {
    if bs != [] {
      AssignLast(m[bs[0].0 := bs[0].1], bs[1..], k);
    }
  }

  /** A key is bound by `parseArgs` exactly when some option names it, and
      then to the value of the last option that does. */
  lemma ParsedLast(argv: seq<string>, k: string)
    ensures k in Parsed(argv) <==> LastBinding(Bindings(From(argv, 2)), k).Some?
    ensures k in Parsed(argv) ==> Parsed(argv)[k] == LastBinding(Bindings(From(argv, 2)), k).value
  {
    AssignLast(map[], Bindings(From(argv, 2)), k);
  }

  /** Token `j` of `ts` is the option `--key` of binding `b`, followed by
      its value when `b` binds one. */
  predicate MadeAt(ts: seq<string>, j: nat, b: Binding) {
    j < |ts| && ts[j] == "--" + b.0 && (b.1.Value? ==> TakesValue(ts, j) && ts[j + 1] == b.1.s)
  }

  /** Every binding comes from an option token `--key`; a bound value is the
      token right after it, which is neither empty nor an option. */
  lemma {:induction false} BindingsSound(ts: seq<string>, n: nat)
    requires n < |Bindings(ts)|
    ensures exists j: nat :: MadeAt(ts, j, Bindings(ts)[n])
    decreases |ts|
  {
    var b := Bindings(ts)[n];
    if !IsOption(ts[0]) {
      BindingsSound(ts[1..], n);
      assert Bindings(ts) == Bindings(ts[1..]);
      var j: nat :| MadeAt(ts[1..], j, b);
      if b.1.Value? {
        assert ts[j + 2] == ts[1..][j + 1];
      }
      assert MadeAt(ts, j + 1, b);
    } else {
      var skip := if TakesValue(ts, 0) then 2 else 1;
      if n == 0 {
        assert ts[0][..2] == "--";
        assert ts[0] == "--" + ts[0][2..];
        assert MadeAt(ts, 0, b);
      } else {
        BindingsSound(ts[skip..], n - 1);
        var j: nat :| MadeAt(ts[skip..], j, b);
        if b.1.Value? {
          assert ts[j + skip + 1] == ts[skip..][j + 1];
        }
        assert MadeAt(ts, j + skip, b);
      }
    }
  }

  /** `--key value`: the key is bound to the value, and the scan goes on
      after the value. */
  lemma OptionWithValue(ts: seq<string>, key: string, v: string, rest: seq<string>)
    requires ts == ["--" + key, v] + rest && v != "" && !IsOption(v)
    ensures Bindings(ts) == [(key, Value(v))] + Bindings(rest)
  {
    assert ts[0][..2] == "--" && ts[0][2..] == key && ts[1] == v;
    assert ts[2..] == rest;
  }

  /** `--key` followed by an option, by an empty token or by nothing: the
      key is bound to `true`, and the scan goes on with the next token. */
  lemma OptionWithoutValue(ts: seq<string>, key: string, rest: seq<string>)
    requires ts == ["--" + key] + rest && (rest == [] || rest[0] == "" || IsOption(rest[0]))
    ensures Bindings(ts) == [(key, Flag)] + Bindings(rest)
  {
    assert ts[0][..2] == "--" && ts[0][2..] == key;
    assert ts[1..] == rest;
  }

  /** A token that is not an option, where an option is looked for, binds nothing. */
  lemma BareToken(ts: seq<string>, t: string, rest: seq<string>)
    requires ts == [t] + rest && !IsOption(t)
    ensures Bindings(ts) == Bindings(rest)
  {
    assert ts[1..] == rest;
  }

  /** A token that is not an option and does not follow one is ignored,
      wherever it stands. */
  lemma {:induction false} BareTokenIgnored(pre: seq<string>, t: string, post: seq<string>)
    requires !IsOption(t)
    requires pre == [] || !IsOption(pre[|pre| - 1])
    ensures Bindings(pre + [t] + post) == Bindings(pre + post)
    decreases |pre|
  {
    if pre == [] {
      assert ([t] + post)[1..] == post;
      assert pre + [t] + post == [t] + post && pre + post == post;
    } else {
      var xs, ys := pre + [t] + post, pre + post;
      assert xs[0] == pre[0] == ys[0];
      if !IsOption(pre[0]) {
        assert xs[1..] == pre[1..] + [t] + post && ys[1..] == pre[1..] + post;
        BareTokenIgnored(pre[1..], t, post);
      } else {
        // The last token of `pre` is not an option, so `pre` goes on past its first token.
        assert |pre| >= 2;
        assert xs[1] == pre[1] == ys[1];
        assert TakesValue(xs, 0) == TakesValue(ys, 0);
        if TakesValue(xs, 0) {
          assert xs[2..] == pre[2..] + [t] + post && ys[2..] == pre[2..] + post;
          BareTokenIgnored(pre[2..], t, post);
        } else {
          assert xs[1..] == pre[1..] + [t] + post && ys[1..] == pre[1..] + post;
          BareTokenIgnored(pre[1..], t, post);
        }
      }
    }
  }

  /** A repeated key keeps its last value; an option followed by an empty
      token, or by nothing, is bound to `true`. */
  lemma ParseArgsExample(argv: seq<string>, dir: string, v: string)
    requires dir == "--dir" && v == "./rhymil"
    requires argv == ["node", "generateRhymil.js", dir, v, dir, "", dir]
    ensures Parsed(argv) == map["dir" := Flag]
  {
    var ts := From(argv, 2);
    assert ts == [dir, v, dir, "", dir];
    assert dir == "--" + "dir" && v[..2] == "./";
    var t2 := [dir, "", dir];
    var t3 := ["", dir];
    var t4 := [dir];
    assert ts == [dir, v] + t2 && t2 == [dir] + t3 && t3 == [""] + t4 && t4 == [dir] + [];
    OptionWithValue(ts, "dir", v, t2);
    OptionWithoutValue(t2, "dir", t3);
    BareToken(t3, "", t4);
    OptionWithoutValue(t4, "dir", []);
    var bs := [("dir", Value(v)), ("dir", Flag), ("dir", Flag)];
    assert Bindings(ts) == bs;
    assert bs[1..] == [("dir", Flag), ("dir", Flag)] && bs[1..][1..] == [("dir", Flag)];
    var m0: map<string, ArgValue> := map[];
    var m1 := m0["dir" := Value(v)];
    assert m1["dir" := Flag] == map["dir" := Flag];
    assert Assign(m0, bs) == Assign(m1, bs[1..]);
    assert Assign(m1, bs[1..]) == Assign(map["dir" := Flag], bs[1..][1..]);
    assert map["dir" := Flag]["dir" := Flag] == map["dir" := Flag];
    assert Assign(map["dir" := Flag], [("dir", Flag)]) == Assign(map["dir" := Flag], []);
  }

  // ---- baseRoot and baseHref ------------------------------------------------

  /** `args.baseRoot ? String(args.baseRoot) : 'rhymil'`. */
  function BaseRootArg(args: map<string, ArgValue>): (root: string)
    ensures "baseRoot" !in args ==> root == "rhymil"
    ensures "baseRoot" in args && args["baseRoot"] == Flag ==> root == "true"
    ensures "baseRoot" in args && args["baseRoot"].Value? && args["baseRoot"].s != "" ==> root == args["baseRoot"].s
  {
    if "baseRoot" !in args then "rhymil"
    else match args["baseRoot"]
      case Flag => "true"
      case Value(s) => if s == "" then "rhymil" else s
  }

  /** Number of `/` at the start of `s`. */
  function LeadingSlashes(s: string): (n: nat)
    ensures n <= |s|
    ensures forall i :: 0 <= i < n ==> s[i] == '/'
    ensures n < |s| ==> s[n] != '/'
  {
    if s == [] || s[0] != '/' then 0 else 1 + LeadingSlashes(s[1..])
  }

  /** Number of `/` at the end of `s`. */
  function TrailingSlashes(s: string): (n: nat)
    ensures n <= |s|
    ensures forall i :: |s| - n <= i < |s| ==> s[i] == '/'
    ensures n < |s| ==> s[|s| - n - 1] != '/'
  {
    if s == [] || s[|s| - 1] != '/' then 0 else 1 + TrailingSlashes(s[..|s| - 1])
  }

  /** The characters of `s` other than `/`, in order. */
  function NonSlashes(s: string): string {
    if s == [] then [] else (if s[0] == '/' then [] else [s[0]]) + NonSlashes(s[1..])
  }

  lemma {:induction false} NonSlashesConcat(a: string, b: string)
    ensures NonSlashes(a + b) == NonSlashes(a) + NonSlashes(b)
  {
    if a == [] {
      assert a + b == b;
    } else {
      assert (a + b)[0] == a[0] && (a + b)[1..] == a[1..] + b;
      NonSlashesConcat(a[1..], b);
    }
  }

  lemma {:induction false} NonSlashesOfSlashes(s: string)
    requires forall i :: 0 <= i < |s| ==> s[i] == '/'
    ensures NonSlashes(s) == []
  {
    if s != [] {
      NonSlashesOfSlashes(s[1..]);
    }
  }

  /** Neither end of `s` is a slash. */
  predicate SlashFreeEnds(s: string) {
    s == [] || (s[0] != '/' && s[|s| - 1] != '/')
  }

  /** `s.replace(/^\/+|\/+$/g, '')`: the leading run of slashes goes, then
      the trailing one (a text of slashes only goes entirely with the first).
      Only slashes are removed, and none is left at either end. */
  function TrimSlashes(s: string): (r: string)
    ensures SlashFreeEnds(r)
    ensures NonSlashes(r) == NonSlashes(s)
    ensures |r| <= |s|
  {
    var a := LeadingSlashes(s);
    var t := s[a..];
    var b := TrailingSlashes(t);
    var r := t[..|t| - b];
    TrimParts(s, a, b);
    assert r != [] ==> r[0] == t[0] == s[a];
    r
  }

  /** Cutting slashes off both ends keeps every other character. */
  lemma TrimParts(s: string, a: nat, b: nat)
    requires a <= |s| && b <= |s| - a
    requires forall i :: 0 <= i < a ==> s[i] == '/'
    requires forall i :: |s[a..]| - b <= i < |s[a..]| ==> s[a..][i] == '/'
    ensures NonSlashes(s[a..][..|s[a..]| - b]) == NonSlashes(s)
  {
    var t := s[a..];
    var r := t[..|t| - b];
    var head, tail := s[..a], t[|t| - b..];
    assert s == head + (r + tail);
    NonSlashesConcat(head, r + tail);
    NonSlashesConcat(r, tail);
    NonSlashesOfSlashes(head);
    NonSlashesOfSlashes(tail);
  }

  /** The trimmed text is the one way of writing `s` as slashes, a text
      with no slash at either end, and slashes. */
  lemma TrimSlashesUnique(x: string, r: string, y: string)
    requires forall i :: 0 <= i < |x| ==> x[i] == '/'
    requires forall i :: 0 <= i < |y| ==> y[i] == '/'
    requires SlashFreeEnds(r)
    ensures TrimSlashes(x + r + y) == r
  {
    var s := x + r + y;
    if r == [] {
      assert forall i :: 0 <= i < |s| ==> s[i] == '/';
      assert LeadingSlashes(s) == |s|;
    } else {
      assert s[|x|] == r[0];
      assert LeadingSlashes(s) == |x|;
      var t := s[|x|..];
      assert t == r + y;
      assert t[|r| - 1] == r[|r| - 1];
      assert TrailingSlashes(t) == |y|;
      assert t[..|r|] == r;
    }
  }

  lemma TrimSlashesIdempotent(s: string)
    ensures TrimSlashes(TrimSlashes(s)) == TrimSlashes(s)
  {
    var r := TrimSlashes(s);
    TrimSlashesUnique("", r, "");
    assert "" + r + "" == r;
  }

  /** `baseRoot` as `main` computes it. */
  function BaseRoot(args: map<string, ArgValue>): (root: string)
    ensures SlashFreeEnds(root)
    ensures "baseRoot" !in args ==> root == "rhymil"
  {
    assert "" + "rhymil" + "" == "rhymil";
    TrimSlashesUnique("", "rhymil", "");
    TrimSlashes(BaseRootArg(args))
  }

  /** Length of the run of slashes `s` starts with. */
  function SlashRun(s: string): (n: nat)
    ensures n <= |s|
    ensures forall i :: 0 <= i < n ==> s[i] == '/'
    ensures n < |s| ==> s[n] != '/'
  {
    LeadingSlashes(s)
  }

  /** `s.replace(/\/{2,}/g, '/')`: each run of two or more slashes becomes one. */
  function CollapseSlashes(s: string): (r: string)
    ensures NonSlashes(r) == NonSlashes(s)
    ensures NoDoubleSlash(r)
    ensures NoDoubleSlash(s) ==> r == s
    ensures s != [] ==> r != [] && r[0] == s[0]
    decreases |s|
  {
    if s == [] then []
    else if StartsWith(s, "//") then
      var n := SlashRun(s);
      var rest := CollapseSlashes(s[n..]);
      SlashRunDrop(s);
      ConsFacts('/', rest);
      "/" + rest
    else
      var rest := CollapseSlashes(s[1..]);
      NoRunFacts(s);
      ConsFacts(s[0], rest);
      [s[0]] + rest
  }

  /** A run of two or more slashes holds no other character, and the text
      after it does not begin with a slash. */
  lemma SlashRunDrop(s: string)
    requires StartsWith(s, "//")
    ensures SlashRun(s) >= 2 && NonSlashes(s[SlashRun(s)..]) == NonSlashes(s)
    ensures SlashRun(s) < |s| ==> s[SlashRun(s)] != '/'
    ensures !NoDoubleSlash(s) && s[0] == '/'
  {
    assert s[0] == s[..2][0] && s[1] == s[..2][1];
    RunNonSlashes(s);
  }

  lemma RunNonSlashes(s: string)
    ensures NonSlashes(s[SlashRun(s)..]) == NonSlashes(s)
  {
    var n := SlashRun(s);
    var head := s[..n];
    assert s == head + s[n..];
    NonSlashesConcat(head, s[n..]);
    NonSlashesOfSlashes(head);
  }

  /** A text that does not begin with two slashes, seen from its first character. */
  lemma NoRunFacts(s: string)
    requires s != [] && !StartsWith(s, "//")
    ensures s[0] == '/' && |s| > 1 ==> s[1] != '/'
    ensures NoDoubleSlash(s) ==> NoDoubleSlash(s[1..])
    ensures s == [s[0]] + s[1..]
  {
    if s[0] == '/' && |s| > 1 {
      assert s[..2] == [s[0], s[1]];
    }
    if NoDoubleSlash(s) {
      forall i | 0 <= i < |s[1..]| - 1 ensures !(s[1..][i] == '/' && s[1..][i + 1] == '/') {
        assert s[1..][i] == s[i + 1] && s[1..][i + 1] == s[i + 2];
      }
    }
  }

  /** One character in front of a text. */
  lemma ConsFacts(c: char, rest: string)
    ensures NonSlashes([c] + rest) == (if c == '/' then [] else [c]) + NonSlashes(rest)
    ensures NoDoubleSlash(rest) && (c == '/' && rest != [] ==> rest[0] != '/') ==> NoDoubleSlash([c] + rest)
    ensures ([c] + rest)[0] == c && "/" + rest == ['/'] + rest
  {
    assert ([c] + rest)[1..] == rest;
    if NoDoubleSlash(rest) && (c == '/' && rest != [] ==> rest[0] != '/') {
      var r := [c] + rest;
      forall i | 0 <= i < |r| - 1 ensures !(r[i] == '/' && r[i + 1] == '/') {
        if i > 0 {
          assert r[i] == rest[i - 1] && r[i + 1] == rest[i];
        }
      }
    }
  }

  lemma CollapseSlashesIdempotent(s: string)
    ensures CollapseSlashes(CollapseSlashes(s)) == CollapseSlashes(s)
  {
  }

  /** Reference for the collapse: every `/` that another `/` follows is
      dropped, so each maximal run of slashes leaves exactly its last one and
      every other character stays, in order. */
  function SqueezeSlashes(s: string): string
    decreases |s|
  {
    if |s| < 2 then s
    else (if s[0] == '/' && s[1] == '/' then [] else [s[0]]) + SqueezeSlashes(s[1..])
  }

  /** The collapse is the reference: each run of two or more slashes becomes one. */
  lemma {:induction false} CollapseSlashesSqueezes(s: string)
    ensures CollapseSlashes(s) == SqueezeSlashes(s)
    decreases |s|
  {
    if s != [] {
      if StartsWith(s, "//") {
        var n := SlashRun(s);
        assert s[0] == '/' && s[1] == '/';
        SqueezeSlashRun(s, 0);
        CollapseSlashesSqueezes(s[n..]);
      } else if |s| >= 2 {
        assert !(s[0] == '/' && s[1] == '/');
        CollapseSlashesSqueezes(s[1..]);
      }
    }
  }

  /** Inside a leading run of slashes, the reference keeps a single `/`. */
  lemma {:induction false} SqueezeSlashRun(s: string, i: nat)
    requires i < SlashRun(s)
    ensures SqueezeSlashes(s[i..]) == "/" + SqueezeSlashes(s[SlashRun(s)..])
    decreases SlashRun(s) - i
  {
    var n := SlashRun(s);
    var t := s[i..];
    assert t[0] == '/';
    if i + 1 < n {
      assert t[1] == '/';
      assert t[1..] == s[i + 1..];
      SqueezeSlashRun(s, i + 1);
    } else if n < |s| {
      assert t[1] == s[n] && s[n] != '/';
      assert t[1..] == s[n..];
    } else {
      assert t == "/";
    }
  }

  /** `` `/${baseRoot}/${slug}`.replace(/\/{2,}/g, '/') ``. */
  function BaseHref(root: string, slug: string): (href: string)
    ensures NoDoubleSlash(href)
    ensures StartsWith(href, "/")
  {
    var s := "/" + root + "/" + slug;
    assert s[0] == '/';
    CollapseSlashes(s)
  }

  /** With a trimmed root that has no doubled slash and a slash-free slug,
      the collapse only matters when the root is empty. */
  lemma BaseHrefPlain(root: string, slug: string)
    requires SlashFreeEnds(root) && NoDoubleSlash(root)
    requires slug != [] && NoChar(slug, '/')
    ensures root != [] ==> BaseHref(root, slug) == "/" + root + "/" + slug
    ensures root == [] ==> BaseHref(root, slug) == "/" + slug
  {
    var s := "/" + root + "/" + slug;
    if root != [] {
      forall i | 0 <= i < |s| - 1 ensures !(s[i] == '/' && s[i + 1] == '/') {
        if i == 0 {
          assert s[1] == root[0];
        } else if i < |root| {
          assert s[i] == root[i - 1] && s[i + 1] == root[i];
        } else if i == |root| {
          assert s[i] == root[|root| - 1];
        } else {
          assert s[i + 1] == slug[i - |root| - 1];
        }
      }
    } else {
      assert s == "//" + slug;
      assert s[..2] == "//";
      assert SlashRun(s) == 2 by {
        assert s[2] == slug[0];
      }
      assert s[2..] == slug;
      assert NoDoubleSlash(slug);
    }
  }
}
