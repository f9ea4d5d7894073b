/**
 * Character classes and string searches shared by the two generators.
 * Strings are `seq<char>`; a JavaScript string of UTF-16 code units is
 * modelled by the scalar values it denotes.
 */
module Text {
  import opened Wrappers

  /** `\s` in a JavaScript regular expression, and what `String.prototype.trim`
      removes: WhiteSpace and LineTerminator of ECMA-262 (U+FEFF included). */
  predicate IsSpace(c: char) {
    || c == '\t' || c == '\n' || c == '\U{000B}' || c == '\U{000C}' || c == '\r'
    || c == ' ' || c == '\U{00A0}' || c == '\U{1680}'
    || ('\U{2000}' <= c <= '\U{200A}')
    || c == '\U{2028}' || c == '\U{2029}' || c == '\U{202F}' || c == '\U{205F}'
    || c == '\U{3000}' || c == '\U{FEFF}'
  }

  /** The characters `.` refuses and `$` (multiline) stops at. */
  predicate IsLineTerminator(c: char) {
    c == '\n' || c == '\r' || c == '\U{2028}' || c == '\U{2029}'
  }

  /** `\w`: ASCII letters, digits and underscore. */
  predicate IsWordChar(c: char) {
    ('a' <= c <= 'z') || ('A' <= c <= 'Z') || ('0' <= c <= '9') || c == '_'
  }

  /** ASCII upper-casing, the canonical form used by case-insensitive
      matching of ASCII patterns. */
  function Upper(c: char): char {
    if 'a' <= c <= 'z' then (c as int - 32) as char else c
  }

  predicate StartsWith(s: string, p: string) {
    |p| <= |s| && s[..|p|] == p
  }

  predicate EndsWith(s: string, p: string) {
    |p| <= |s| && s[|s| - |p|..] == p
  }

  lemma EndsWithConcat(a: string, b: string)
    ensures EndsWith(a + b, b)
  {
    assert (a + b)[|a + b| - |b|..] == b;
  }

  lemma EndsWithTrans(s: string, t: string, x: string)
    requires EndsWith(s, t) && EndsWith(t, x)
    ensures EndsWith(s, x)
  {
    assert s[|s| - |x|..] == s[|s| - |t|..][|t| - |x|..];
  }

  /** `s` begins with `p`, comparing letters without regard to ASCII case. */
  predicate CIStartsWith(s: string, p: string) {
    |p| <= |s| && forall i :: 0 <= i < |p| ==> Upper(s[i]) == Upper(p[i])
  }

  /** Only the first |p| characters of the subject decide a case-insensitive prefix test. */
  lemma CIStartsWithLocal(s: string, t: string, p: string)
    requires |p| <= |s| && |p| <= |t| && s[..|p|] == t[..|p|]
    ensures CIStartsWith(s, p) <==> CIStartsWith(t, p)
  {
    forall i | 0 <= i < |p| ensures s[i] == t[i] {
      assert s[..|p|][i] == s[i] && t[..|p|][i] == t[i];
    }
  }

  predicate NoChar(s: string, c: char) {
    forall i :: 0 <= i < |s| ==> s[i] != c
  }

  /** No two consecutive slashes. */
  predicate NoDoubleSlash(s: string) {
    forall i :: 0 <= i < |s| - 1 ==> !(s[i] == '/' && s[i + 1] == '/')
  }

  /** The number of leading characters of `s` matched by `\s*`. */
  function SpaceRun(s: string): (n: nat)
    ensures n <= |s|
  {
    if s == [] || !IsSpace(s[0]) then 0 else 1 + SpaceRun(s[1..])
  }

  /** The run is made of spaces and stops at the first non-space. */
  lemma {:induction false} SpaceRunFacts(s: string)
    ensures forall i :: 0 <= i < SpaceRun(s) ==> IsSpace(s[i])
    ensures SpaceRun(s) < |s| ==> !IsSpace(s[SpaceRun(s)])
    decreases |s|
  {
    if s != [] && IsSpace(s[0]) {
      SpaceRunFacts(s[1..]);
      assert forall i :: 1 <= i < |s| ==> s[i] == s[1..][i - 1];
    }
  }

  /** The run of leading spaces depends only on the characters up to and
      including the first non-space. */
  lemma SpaceRunLocal(s: string, t: string, k: nat)
    requires SpaceRun(s) < k <= |s| && k <= |t| && s[..k] == t[..k]
    ensures SpaceRun(t) == SpaceRun(s)
  {
    var n := SpaceRun(s);
    SpaceRunFacts(s);
    SpaceRunFacts(t);
    forall i | 0 <= i <= n ensures s[i] == t[i] {
      assert s[..k][i] == s[i] && t[..k][i] == t[i];
    }
  }

  /** The first index at or after `from` where `p` starts, comparing without
      regard to ASCII case: the search a case-insensitive regular expression
      without metacharacters performs. */
  function FindCI(s: string, p: string, from: nat): (r: Option<nat>)
    decreases |s| - from
    ensures r.Some? ==> from <= r.value && r.value + |p| <= |s| && CIStartsWith(s[r.value..], p)
    ensures r.Some? ==> forall j :: from <= j < r.value ==> !CIStartsWith(s[j..], p)
    ensures r.None? ==> forall j :: from <= j <= |s| ==> !CIStartsWith(s[j..], p)
  {
    if from + |p| > |s| then
      assert forall j :: from <= j <= |s| ==> |s[j..]| < |p|;
      None
    else if CIStartsWith(s[from..], p) then Some(from)
    else FindCI(s, p, from + 1)
  }

  /** A search from `from` finds every later occurrence it does not skip. */
  lemma FindCIFinds(s: string, p: string, from: nat, j: nat)
    requires from <= j <= |s| && CIStartsWith(s[j..], p)
    ensures FindCI(s, p, from).Some? && FindCI(s, p, from).value <= j
    decreases j - from
  {
    if from < j && !CIStartsWith(s[from..], p) {
      FindCIFinds(s, p, from + 1, j);
    }
  }

  /** Replaces every occurrence of the character `c` by `r`: what
      `s.replace(/c/g, r)` does when `r` holds no `$`. */
  function ReplaceChar(s: string, c: char, r: string): (t: string)
    ensures NoChar(s, c) ==> t == s
    ensures |r| >= 1 ==> |t| >= |s|
  {
    if s == [] then []
    else
      assert forall i :: 0 <= i < |s| - 1 ==> s[1..][i] == s[i + 1];
      assert s == [s[0]] + s[1..];
      (if s[0] == c then r else [s[0]]) + ReplaceChar(s[1..], c, r)
  }

  /** With a one-character replacement the text keeps its length, and each
      position holds either its own character or the replacement. */
  lemma {:induction false} ReplaceCharAt(s: string, c: char, r: string)
    requires |r| == 1
    ensures |ReplaceChar(s, c, r)| == |s|
    ensures forall i :: 0 <= i < |s| ==> ReplaceChar(s, c, r)[i] == if s[i] == c then r[0] else s[i]
  {
    if s != [] {
      ReplaceCharAt(s[1..], c, r);
      var t := ReplaceChar(s, c, r);
      assert t == [if s[0] == c then r[0] else s[0]] + ReplaceChar(s[1..], c, r);
      forall i | 1 <= i < |s| ensures t[i] == if s[i] == c then r[0] else s[i] {
        assert s[1..][i - 1] == s[i];
      }
    }
  }

  lemma {:induction false} ReplaceCharConcat(a: string, b: string, c: char, r: string)
    ensures ReplaceChar(a + b, c, r) == ReplaceChar(a, c, r) + ReplaceChar(b, c, r)
  {
    if a == [] {
      assert a + b == b;
    } else {
      assert (a + b)[0] == a[0] && (a + b)[1..] == a[1..] + b;
      ReplaceCharConcat(a[1..], b, c, r);
    }
  }

  /** `parts.join(sep)`. */
  function Join(parts: seq<string>, sep: string): string {
    if parts == [] then ""
    else if |parts| == 1 then parts[0]
    else parts[0] + sep + Join(parts[1..], sep)
  }

  /** A template: fixed text `gaps[0]`, hole `holes[0]`, `gaps[1]`, and so on,
      ending with the last gap: what a JavaScript template literal produces. */
  function Interleave(gaps: seq<string>, holes: seq<string>): string
    requires |gaps| == |holes| + 1
    decreases |holes|
  {
    if holes == [] then gaps[0] else gaps[0] + holes[0] + Interleave(gaps[1..], holes[1..])
  }

  lemma {:induction false} InterleaveEnds(gaps: seq<string>, holes: seq<string>)
    requires |gaps| == |holes| + 1
    ensures EndsWith(Interleave(gaps, holes), gaps[|gaps| - 1])
    decreases |holes|
  {
    if holes == [] {
      assert Interleave(gaps, holes)[|gaps[0]| - |gaps[0]|..] == gaps[0];
    } else {
      InterleaveEnds(gaps[1..], holes[1..]);
      EndsWithConcat(gaps[0] + holes[0], Interleave(gaps[1..], holes[1..]));
      EndsWithTrans(Interleave(gaps, holes), Interleave(gaps[1..], holes[1..]), gaps[|gaps| - 1]);
    }
  }

  /** With at least one hole, the first and the last gap do not overlap. */
  lemma InterleaveOuter(gaps: seq<string>, holes: seq<string>)
    requires |gaps| == |holes| + 1 && holes != []
    ensures |Interleave(gaps, holes)| >= |gaps[0]| + |holes[0]| + |gaps[|gaps| - 1]|
  {
    InterleaveEnds(gaps[1..], holes[1..]);
  }

  /** A filled template begins with whatever its first gap begins with. */
  lemma {:induction false} InterleaveHead(gaps: seq<string>, holes: seq<string>, x: string)
    requires |gaps| == |holes| + 1 && StartsWith(gaps[0], x)
    ensures StartsWith(Interleave(gaps, holes), x)
  {
    if holes != [] {
      var rest := holes[0] + Interleave(gaps[1..], holes[1..]);
      assert Interleave(gaps, holes) == gaps[0] + rest;
      StartsWithConcat(gaps[0], rest, x);
    }
  }

  lemma StartsWithConcat(a: string, b: string, x: string)
    requires StartsWith(a, x)
    ensures StartsWith(a + b, x)
  {
    assert (a + b)[..|x|] == a[..|x|];
  }

  lemma InterleaveEndsWith(gaps: seq<string>, holes: seq<string>, x: string)
    requires |gaps| == |holes| + 1 && EndsWith(gaps[|gaps| - 1], x)
    ensures EndsWith(Interleave(gaps, holes), x)
  {
    InterleaveEnds(gaps, holes);
    EndsWithTrans(Interleave(gaps, holes), gaps[|gaps| - 1], x);
  }

  /** A filled template begins with its first gap, its first hole and
      whatever the second gap begins with. */
  lemma InterleaveStarts(gaps: seq<string>, holes: seq<string>, x: string)
    requires |gaps| == |holes| + 1 && holes != [] && StartsWith(gaps[1], x)
    ensures StartsWith(Interleave(gaps, holes), gaps[0] + holes[0] + x)
  {
    var a := Interleave(gaps, holes);
    var h := gaps[0] + holes[0];
    var rest := Interleave(gaps[1..], holes[1..]);
    assert a == h + rest;
    assert rest[..|gaps[1]|] == gaps[1] by {
      if holes[1..] == [] {
      } else {
        assert rest == gaps[1] + holes[1] + Interleave(gaps[2..], holes[2..]);
      }
    }
    assert a[..|h| + |x|] == h + x;
  }

  /** `parts[k]` occurs in `doc` at index `i`. */
  predicate At(doc: string, part: string, i: nat) {
    i + |part| <= |doc| && doc[i..i + |part|] == part
  }

  /** The strings of `parts` occur in `doc` one after the other, in this order
      and without overlapping. */
  ghost predicate Follows(doc: string, parts: seq<string>)
    decreases |parts|
  {
    parts == [] ||
    exists i: nat {:trigger At(doc, parts[0], i)} ::
      At(doc, parts[0], i) && Follows(doc[i + |parts[0]|..], parts[1..])
  }

  lemma {:induction false} FollowsAfter(a: string, b: string, parts: seq<string>)
    requires Follows(b, parts)
    ensures Follows(a + b, parts)
  {
    if parts != [] {
      var i: nat :| At(b, parts[0], i) && Follows(b[i + |parts[0]|..], parts[1..]);
      var j := |a| + i;
      assert (a + b)[j..j + |parts[0]|] == b[i..i + |parts[0]|];
      assert (a + b)[j + |parts[0]|..] == b[i + |parts[0]|..];
      assert At(a + b, parts[0], j);
    }
  }

  lemma {:induction false} FollowsConcat(a: string, b: string, p: seq<string>, q: seq<string>)
    requires Follows(a, p) && Follows(b, q)
    ensures Follows(a + b, p + q)
    decreases |p|
  {
    if p == [] {
      assert p + q == q;
      FollowsAfter(a, b, q);
    } else {
      var i: nat :| At(a, p[0], i) && Follows(a[i + |p[0]|..], p[1..]);
      var rest := a[i + |p[0]|..];
      FollowsConcat(rest, b, p[1..], q);
      assert (a + b)[i..i + |p[0]|] == a[i..i + |p[0]|];
      assert (a + b)[i + |p[0]|..] == rest + b;
      assert (p + q)[0] == p[0] && (p + q)[1..] == p[1..] + q;
      assert At(a + b, (p + q)[0], i);
    }
  }

  lemma FollowsOne(s: string)
    ensures Follows(s, [s])
  {
    var parts := [s];
    assert parts[0] == s && parts[1..] == [];
    assert At(s, parts[0], 0);
    assert Follows(s[0 + |parts[0]|..], parts[1..]);
  }

  /** A filled template holds its holes in order. */
  lemma {:induction false} FollowsInterleave(gaps: seq<string>, holes: seq<string>)
    requires |gaps| == |holes| + 1
    ensures Follows(Interleave(gaps, holes), holes)
    decreases |holes|
  {
    if holes != [] {
      FollowsInterleave(gaps[1..], holes[1..]);
      FollowsOne(holes[0]);
      FollowsAfter(gaps[0], holes[0], [holes[0]]);
      FollowsConcat(gaps[0] + holes[0], Interleave(gaps[1..], holes[1..]), [holes[0]], holes[1..]);
      assert [holes[0]] + holes[1..] == holes;
    }
  }

  function Flatten(xss: seq<seq<string>>): seq<string> {
    if xss == [] then [] else xss[0] + Flatten(xss[1..])
  }

  /** When each part of an ordered list holds its own ordered sub-parts, the
      document holds all the sub-parts in order. */
  lemma {:induction false} FollowsRefine(doc: string, parts: seq<string>, subs: seq<seq<string>>)
    requires |subs| == |parts| && Follows(doc, parts)
    requires forall k :: 0 <= k < |parts| ==> Follows(parts[k], subs[k])
    ensures Follows(doc, Flatten(subs))
    decreases |parts|
  {
    if parts != [] {
      var i: nat :| At(doc, parts[0], i) && Follows(doc[i + |parts[0]|..], parts[1..]);
      var rest := doc[i + |parts[0]|..];
      assert forall k :: 0 <= k < |parts| - 1 ==> parts[1..][k] == parts[k + 1] && subs[1..][k] == subs[k + 1];
      FollowsRefine(rest, parts[1..], subs[1..]);
      FollowsAfter(doc[..i], parts[0], subs[0]);
      FollowsConcat(doc[..i] + parts[0], rest, subs[0], Flatten(subs[1..]));
      assert doc == doc[..i] + parts[0] + rest;
    }
  }

  /** A joined list holds its parts in order. */
  lemma {:induction false} FollowsJoin(parts: seq<string>, sep: string)
    ensures Follows(Join(parts, sep), parts)
    decreases |parts|
  {
    if parts == [] {
    } else if |parts| == 1 {
      FollowsOne(parts[0]);
      assert parts == [parts[0]];
    } else {
      FollowsJoin(parts[1..], sep);
      FollowsOne(parts[0]);
      FollowsAfter(sep, Join(parts[1..], sep), parts[1..]);
      FollowsConcat(parts[0], sep + Join(parts[1..], sep), [parts[0]], parts[1..]);
      assert [parts[0]] + parts[1..] == parts;
      assert parts[0] + (sep + Join(parts[1..], sep)) == Join(parts, sep);
    }
  }
}
