/**
 * `upsertSection` of generateRhymil.js: put a `<section id="…">` block into
 * a page, replacing the first block with that id, or else inserting it after
 * the `section-docs` block, at the start of the `panel-content` division,
 * before `</body>`, or at the end, in that order of preference.
 *
 * Each of the four regular expressions is modelled by the search its engine
 * performs: the leftmost opening tag that has a closer after it, and the
 * nearest closer after that tag. Matching ignores ASCII case.
 */
module Splice {
  import opened Wrappers
  import opened Text

  /** `id="<id>"`, as `upsertSection` writes it into its pattern. The ids the
      generator passes hold only letters, digits and dashes, none of which is
      special in a regular expression, so the id is matched literally. */
  function IdAttr(id: string): string {
    "id=\"" + id + "\""
  }

  const PanelAttr: string := "class=\"panel-content\""

  /** The characters `\s+` takes, between the tag name and the attribute. */
  predicate Spaces(s: string) {
    forall i :: 0 <= i < |s| ==> IsSpace(s[i])
  }

  /** Length of the `<tag\s+attr` that `s` begins with, if it begins with one.
      `\s+` is greedy and the attributes begin with a letter, so only the
      whole run of spaces can be followed by the attribute. */
  function OpenLength(s: string, tag: string, attr: string): (n: Option<nat>)
    ensures n.Some? ==> |tag| + 1 + |attr| <= n.value <= |s|
  {
    if CIStartsWith(s, tag) then
      var w := SpaceRun(s[|tag|..]);
      if w >= 1 && CIStartsWith(s[|tag| + w..], attr) then Some(|tag| + w + |attr|) else None
    else None
  }

  /** Reference reading of `<tag\s+attr`: the tag, one or more spaces, the
      attribute, `n` characters in all. */
  predicate OpenMatches(s: string, tag: string, attr: string, n: nat) {
    n <= |s| && |tag| + 1 + |attr| <= n && CIStartsWith(s, tag)
    && Spaces(s[|tag|..n - |attr|]) && CIStartsWith(s[n - |attr|..], attr)
  }

  /** The computed opening is exactly the regular expression's match, for an
      attribute that does not begin with a space. */
  lemma OpenLengthMatches(s: string, tag: string, attr: string, n: nat)
    requires attr != [] && !IsSpace(attr[0])
    ensures OpenLength(s, tag, attr) == Some(n) <==> OpenMatches(s, tag, attr, n)
  {
    if OpenMatches(s, tag, attr, n) {
      var t := s[|tag|..];
      var k := n - |attr| - |tag|;
      assert forall i :: 0 <= i < k ==> IsSpace(t[i]) by {
        forall i | 0 <= i < k ensures IsSpace(t[i]) {
          assert t[i] == s[|tag|..n - |attr|][i];
        }
      }
      assert Upper(t[k]) == Upper(attr[0]) by {
        assert t[k] == s[n - |attr|..][0];
      }
      assert !IsSpace(Upper(attr[0]));
      SpaceRunFacts(t);
      assert SpaceRun(t) == k;
      assert s[|tag| + k..] == s[n - |attr|..];
    }
    if OpenLength(s, tag, attr) == Some(n) {
      var w := SpaceRun(s[|tag|..]);
      SpaceRunFacts(s[|tag|..]);
      assert n - |attr| == |tag| + w;
      forall i | 0 <= i < w ensures s[|tag|..n - |attr|][i] == s[|tag|..][i] {
      }
    }
  }

  /** A match of `<tag\s+attr` followed by the shortest run of characters up
      to and including `closer`: `[\s\S]*?<\/section>` stops at the nearest
      closer, and so does `[^>]*>`. It spans `s[p..e]`. */
  predicate IsMatch(s: string, tag: string, attr: string, closer: string, p: nat, e: nat) {
    p <= |s| && OpenLength(s[p..], tag, attr).Some?
    && var o := p + OpenLength(s[p..], tag, attr).value;
       o + |closer| <= e <= |s| && CIStartsWith(s[e - |closer|..], closer)
       && forall k :: o <= k < e - |closer| ==> !CIStartsWith(s[k..], closer)
  }

  /** What `regex.test(s)` reports. */
  ghost predicate HasMatch(s: string, tag: string, attr: string, closer: string) {
    exists p: nat, e: nat :: IsMatch(s, tag, attr, closer, p, e)
  }

  /** The match `s.replace(regex, …)` replaces: the one that starts first. */
  ghost predicate Leftmost(s: string, tag: string, attr: string, closer: string, p: nat, e: nat) {
    IsMatch(s, tag, attr, closer, p, e)
    && forall q: nat, e': nat :: q < p ==> !IsMatch(s, tag, attr, closer, q, e')
  }

  datatype Span = Span(start: nat, end: nat)

  /** The engine's search from index `from`: try each start in turn; at a
      start where the opening tag matches, take the nearest closer after it,
      and move on when there is none. */
  function FirstMatch(s: string, tag: string, attr: string, closer: string, from: nat): (r: Option<Span>)
    ensures r.Some? ==> from <= r.value.start && IsMatch(s, tag, attr, closer, r.value.start, r.value.end)
    ensures r.Some? ==> forall q: nat, e: nat :: from <= q < r.value.start ==> !IsMatch(s, tag, attr, closer, q, e)
    ensures r.None? ==> forall q: nat, e: nat :: from <= q ==> !IsMatch(s, tag, attr, closer, q, e)
    decreases |s| - from
  {
    if from > |s| then None
    else
      var here := MatchAt(s, tag, attr, closer, from);
      if here.Some? then Some(Span(from, here.value))
      else FirstMatch(s, tag, attr, closer, from + 1)
  }

  /** The end of the match starting at `p`, if one starts there. */
  function MatchAt(s: string, tag: string, attr: string, closer: string, p: nat): (e: Option<nat>)
    requires p <= |s|
    ensures e.Some? ==> IsMatch(s, tag, attr, closer, p, e.value)
    ensures e.None? ==> forall e': nat :: !IsMatch(s, tag, attr, closer, p, e')
  {
    match OpenLength(s[p..], tag, attr)
    case None => None
    case Some(n) =>
      match FindCI(s, closer, p + n)
      case Some(k) => Some(k + |closer|)
      case None => None
  }

  /** A start has at most one match: the closer is the nearest one. */
  lemma MatchEndUnique(s: string, tag: string, attr: string, closer: string, p: nat, e1: nat, e2: nat)
    requires IsMatch(s, tag, attr, closer, p, e1) && IsMatch(s, tag, attr, closer, p, e2)
    ensures e1 == e2
  {
    assert CIStartsWith(s[e1 - |closer|..], closer) && CIStartsWith(s[e2 - |closer|..], closer);
  }

  /** The leftmost match is the one the search finds. */
  lemma LeftmostFound(s: string, tag: string, attr: string, closer: string, p: nat, e: nat)
    requires Leftmost(s, tag, attr, closer, p, e)
    ensures FirstMatch(s, tag, attr, closer, 0) == Some(Span(p, e))
  {
    var r := FirstMatch(s, tag, attr, closer, 0);
    assert IsMatch(s, tag, attr, closer, p, e);
    assert r.Some?;
    assert IsMatch(s, tag, attr, closer, r.value.start, r.value.end);
    assert r.value.start == p;
    MatchEndUnique(s, tag, attr, closer, p, e, r.value.end);
  }

  lemma NoMatchNotFound(s: string, tag: string, attr: string, closer: string)
    requires !HasMatch(s, tag, attr, closer)
    ensures FirstMatch(s, tag, attr, closer, 0).None?
  {
  }

  /** The text `String.prototype.replace` inserts for a replacement string
      `repl` when the pattern has no capture groups: `$$` gives `$`, `$&` the
      matched text, `` $` `` the text before the match and `$'` the text after
      it; any other `$` stands for itself. */
  function Substitute(repl: string, matched: string, before: string, after: string): string
    decreases |repl|
  {
    if repl == [] then []
    else if repl[0] == '$' && |repl| >= 2 && repl[1] in "$&`'" then
      (match repl[1]
       case '$' => "$"
       case '&' => matched
       case '`' => before
       case _ => after)
      + Substitute(repl[2..], matched, before, after)
    else [repl[0]] + Substitute(repl[1..], matched, before, after)
  }

  /** Without a `$` the replacement is inserted as written. */
  lemma {:induction false} SubstituteLiteral(repl: string, matched: string, before: string, after: string)
    requires NoChar(repl, '$')
    ensures Substitute(repl, matched, before, after) == repl
    decreases |repl|
  {
    if repl != [] {
      assert forall i :: 0 <= i < |repl| - 1 ==> repl[1..][i] == repl[i + 1];
      SubstituteLiteral(repl[1..], matched, before, after);
      assert repl == [repl[0]] + repl[1..];
    }
  }

  /** A section whose text holds `$&` does not arrive as written. */
  lemma SubstituteExample()
    ensures Substitute("a$&b$1", "<m>", "pre", "post") == "a<m>b$1"
    ensures Substitute("$$", "<m>", "pre", "post") == "$"
  {
    var r := "a$&b$1";
    assert r[1..][2..] == "b$1" && r[1..][2..][1..] == "$1";
    assert "$1"[1..] == "1";
    assert "$$"[2..] == [];
  }

  lemma NoCharConcat(a: string, b: string, c: char)
    requires NoChar(a, c) && NoChar(b, c)
    ensures NoChar(a + b, c)
  {
    forall i | 0 <= i < |a + b| ensures (a + b)[i] != c {
      if i >= |a| {
        assert (a + b)[i] == b[i - |a|];
      }
    }
  }

  const BodyClose: string := "</body>"

  /** `upsertSection(html, id, section)`: the fallback cascade of the source,
      each regular expression searched for as its engine does. */
  function UpsertSection(html: string, id: string, section: string): string {
    match FirstMatch(html, "<section", IdAttr(id), "</section>", 0)
    case Some(m) =>
      html[..m.start] + Substitute(section, html[m.start..m.end], html[..m.start], html[m.end..]) + html[m.end..]
    case None =>
      match FirstMatch(html, "<section", IdAttr("section-docs"), "</section>", 0)
      case Some(m) => html[..m.end] + "\n\n" + section + html[m.end..]
      case None =>
        match FirstMatch(html, "<div", PanelAttr, ">", 0)
        case Some(m) => html[..m.end] + "\n" + section + "\n" + html[m.end..]
        case None =>
          match FindCI(html, BodyClose, 0)
          case Some(k) =>
            html[..k] + Substitute(section + "\n" + BodyClose, html[k..k + 7], html[..k], html[k + 7..]) + html[k + 7..]
          case None => html + "\n" + section + "\n"
  }

  /** A block with the id exists: the first one, from its opening tag to the
      nearest `</section>`, is replaced, and the text before and after it is
      kept. */
  lemma UpsertReplaces(html: string, id: string, section: string, p: nat, e: nat)
    requires Leftmost(html, "<section", IdAttr(id), "</section>", p, e)
    ensures p <= e <= |html|
    ensures UpsertSection(html, id, section)
         == html[..p] + Substitute(section, html[p..e], html[..p], html[e..]) + html[e..]
    ensures NoChar(section, '$') ==> UpsertSection(html, id, section) == html[..p] + section + html[e..]
  {
    LeftmostFound(html, "<section", IdAttr(id), "</section>", p, e);
    if NoChar(section, '$') {
      SubstituteLiteral(section, html[p..e], html[..p], html[e..]);
    }
  }

  /** No block with the id, but a `section-docs` block: the section goes
      after the first one, behind a blank line. */
  lemma UpsertAfterDocs(html: string, id: string, section: string, p: nat, e: nat)
    requires !HasMatch(html, "<section", IdAttr(id), "</section>")
    requires Leftmost(html, "<section", IdAttr("section-docs"), "</section>", p, e)
    ensures e <= |html|
    ensures UpsertSection(html, id, section) == html[..e] + "\n\n" + section + html[e..]
  {
    NoMatchNotFound(html, "<section", IdAttr(id), "</section>");
    LeftmostFound(html, "<section", IdAttr("section-docs"), "</section>", p, e);
  }

  /** Neither block, but a `panel-content` division: the section goes right
      after the division's opening tag, on lines of its own. */
  lemma UpsertIntoPanel(html: string, id: string, section: string, p: nat, e: nat)
    requires !HasMatch(html, "<section", IdAttr(id), "</section>")
    requires !HasMatch(html, "<section", IdAttr("section-docs"), "</section>")
    requires Leftmost(html, "<div", PanelAttr, ">", p, e)
    ensures e <= |html|
    ensures UpsertSection(html, id, section) == html[..e] + "\n" + section + "\n" + html[e..]
  {
    NoMatchNotFound(html, "<section", IdAttr(id), "</section>");
    NoMatchNotFound(html, "<section", IdAttr("section-docs"), "</section>");
    LeftmostFound(html, "<div", PanelAttr, ">", p, e);
  }

  /** None of those, but a `</body>` (in any case): the section goes before
      the first one, which is written back in lower case. */
  lemma UpsertBeforeBody(html: string, id: string, section: string, k: nat)
    requires !HasMatch(html, "<section", IdAttr(id), "</section>")
    requires !HasMatch(html, "<section", IdAttr("section-docs"), "</section>")
    requires !HasMatch(html, "<div", PanelAttr, ">")
    requires k + 7 <= |html| && CIStartsWith(html[k..], BodyClose)
    requires forall j :: 0 <= j < k ==> !CIStartsWith(html[j..], BodyClose)
    ensures UpsertSection(html, id, section)
         == html[..k] + Substitute(section + "\n" + BodyClose, html[k..k + 7], html[..k], html[k + 7..]) + html[k + 7..]
    ensures NoChar(section, '$') ==>
      UpsertSection(html, id, section) == html[..k] + (section + "\n" + BodyClose) + html[k + 7..]
  {
    FirstBodyClose(html, k);
    UpsertBodyCase(html, id, section, k);
    if NoChar(section, '$') {
      BodyReplacementLiteral(html, k, section);
    }
  }

  lemma FirstBodyClose(html: string, k: nat)
    requires k + 7 <= |html| && CIStartsWith(html[k..], BodyClose)
    requires forall j :: 0 <= j < k ==> !CIStartsWith(html[j..], BodyClose)
    ensures FindCI(html, BodyClose, 0) == Some(k)
  {
    FindCIFinds(html, BodyClose, 0, k);
  }

  lemma BodyReplacementLiteral(html: string, k: nat, section: string)
    requires NoChar(section, '$') && k + 7 <= |html|
    ensures Substitute(section + "\n" + BodyClose, html[k..k + 7], html[..k], html[k + 7..])
         == section + "\n" + BodyClose
  {
    NoCharConcat(section, "\n", '$');
    NoCharConcat(section + "\n", BodyClose, '$');
    SubstituteLiteral(section + "\n" + BodyClose, html[k..k + 7], html[..k], html[k + 7..]);
  }

  lemma UpsertBodyCase(html: string, id: string, section: string, k: nat)
    requires !HasMatch(html, "<section", IdAttr(id), "</section>")
    requires !HasMatch(html, "<section", IdAttr("section-docs"), "</section>")
    requires !HasMatch(html, "<div", PanelAttr, ">")
    requires FindCI(html, BodyClose, 0) == Some(k)
    ensures UpsertSection(html, id, section)
         == html[..k] + Substitute(section + "\n" + BodyClose, html[k..k + 7], html[..k], html[k + 7..]) + html[k + 7..]
  {
    NoMatchNotFound(html, "<section", IdAttr(id), "</section>");
    NoMatchNotFound(html, "<section", IdAttr("section-docs"), "</section>");
    NoMatchNotFound(html, "<div", PanelAttr, ">");
  }

  /** Nothing to anchor on: the section is appended on lines of its own. */
  lemma UpsertAppends(html: string, id: string, section: string)
    requires !HasMatch(html, "<section", IdAttr(id), "</section>")
    requires !HasMatch(html, "<section", IdAttr("section-docs"), "</section>")
    requires !HasMatch(html, "<div", PanelAttr, ">")
    requires forall j :: 0 <= j <= |html| ==> !CIStartsWith(html[j..], BodyClose)
    ensures UpsertSection(html, id, section) == html + "\n" + section + "\n"
  {
    NoMatchNotFound(html, "<section", IdAttr(id), "</section>");
    NoMatchNotFound(html, "<section", IdAttr("section-docs"), "</section>");
    NoMatchNotFound(html, "<div", PanelAttr, ">");
    assert FindCI(html, BodyClose, 0).None?;
  }

  /** The number of places in `s` where `<section\s+id="<id>"` matches: how
      many opening tags the page has for the id. */
  function Openings(s: string, id: string): nat
    decreases |s|
  {
    if s == [] then 0
    else (if OpenLength(s, "<section", IdAttr(id)).Some? then 1 else 0) + Openings(s[1..], id)
  }

  /** Only the characters an opening tag spans decide whether it matches. */
  lemma OpenLengthLocal(s: string, t: string, tag: string, attr: string, n: nat)
    requires attr != [] && OpenLength(s, tag, attr) == Some(n) && n <= |t| && s[..n] == t[..n]
    ensures OpenLength(t, tag, attr) == Some(n)
  {
    OpenLengthParts(s, tag, attr);
    var w := SpaceRun(s[|tag|..]);
    SamePrefixShift(s, t, n, 0, |tag|);
    CIStartsWithLocal(s, t, tag);
    SamePrefixShift(s, t, n, |tag|, w + 1);
    SpaceRunLocal(s[|tag|..], t[|tag|..], w + 1);
    SamePrefixShift(s, t, n, |tag| + w, |attr|);
    CIStartsWithLocal(s[|tag| + w..], t[|tag| + w..], attr);
    OpenLengthFromParts(t, tag, attr, w);
  }

  lemma OpenLengthParts(s: string, tag: string, attr: string)
    requires OpenLength(s, tag, attr).Some?
    ensures |tag| <= |s| && CIStartsWith(s, tag)
    ensures SpaceRun(s[|tag|..]) >= 1
    ensures CIStartsWith(s[|tag| + SpaceRun(s[|tag|..])..], attr)
    ensures OpenLength(s, tag, attr).value == |tag| + SpaceRun(s[|tag|..]) + |attr|
  {
  }

  lemma OpenLengthFromParts(t: string, tag: string, attr: string, w: nat)
    requires |tag| <= |t| && CIStartsWith(t, tag) && SpaceRun(t[|tag|..]) == w && w >= 1
    requires CIStartsWith(t[|tag| + w..], attr)
    ensures OpenLength(t, tag, attr) == Some(|tag| + w + |attr|)
  {
  }

  /** Two texts that agree on their first `n` characters agree on every
      stretch inside them. */
  lemma SamePrefixShift(s: string, t: string, n: nat, i: nat, k: nat)
    requires n <= |s| && n <= |t| && s[..n] == t[..n] && i + k <= n
    ensures s[i..][..k] == t[i..][..k]
  {
    forall j | 0 <= j < k ensures s[i..][..k][j] == t[i..][..k][j] {
      assert s[i..][..k][j] == s[..n][i + j] && t[i..][..k][j] == t[..n][i + j];
    }
  }

  /** An opening tag for an id without angle brackets begins with the only
      `<` it holds, holds no `>`, and ends with a quote. */
  lemma OpeningShape(s: string, j: nat, id: string)
    requires j <= |s| && OpenLength(s[j..], "<section", IdAttr(id)).Some?
    requires NoChar(id, '<') && NoChar(id, '>')
    ensures var n := OpenLength(s[j..], "<section", IdAttr(id)).value;
      && s[j] == '<' && s[j + n - 1] == '"'
      && (forall i :: j < i < j + n ==> s[i] != '<')
      && (forall i :: j <= i < j + n ==> s[i] != '>')
  {
    var t := s[j..];
    var n := OpenLength(t, "<section", IdAttr(id)).value;
    var attr := IdAttr(id);
    var w := SpaceRun(t[8..]);
    SpaceRunFacts(t[8..]);
    assert n == 8 + w + |attr|;
    assert forall i :: 0 <= i < |attr| ==> attr[i] != '<' && attr[i] != '>' by {
      forall i | 0 <= i < |attr| ensures attr[i] != '<' && attr[i] != '>' {
        if 4 <= i < 4 + |id| {
          assert attr[i] == id[i - 4];
        }
      }
    }
    forall i | 0 <= i < n ensures (t[i] == '<' <==> i == 0) && t[i] != '>' {
      if i < 8 {
        assert Upper(t[i]) == Upper("<section"[i]);
      } else if i < 8 + w {
        assert IsSpace(t[8..][i - 8]);
      } else {
        assert Upper(t[8 + w..][i - 8 - w]) == Upper(attr[i - 8 - w]);
      }
    }
    assert Upper(t[8 + w..][|attr| - 1]) == Upper(attr[|attr| - 1]);
    forall i | j <= i < j + n ensures s[i] == t[i - j] {
    }
  }

  /** No opening tag for `id` starts in `a` and ends in `b`. */
  predicate Unstraddled(a: string, b: string, id: string) {
    forall j :: 0 <= j < |a| && OpenAt(a + b, j, id).Some? ==> j + OpenAt(a + b, j, id).value <= |a|
  }

  /** The length of the opening tag for `id` that starts at index `j` of `s`. */
  function OpenAt(s: string, j: nat, id: string): Option<nat>
    requires j <= |s|
  {
    OpenLength(s[j..], "<section", IdAttr(id))
  }

  /** Openings add up across a join no tag runs across. */
  lemma {:induction false} OpeningsConcat(a: string, b: string, id: string)
    requires Unstraddled(a, b, id)
    ensures Openings(a + b, id) == Openings(a, id) + Openings(b, id)
    decreases |a|
  {
    if a == [] {
      assert a + b == b;
    } else {
      UnstraddledTail(a, b, id);
      OpeningsConcat(a[1..], b, id);
      HeadOpening(a, b, id);
      assert (a + b)[1..] == a[1..] + b;
    }
  }

  lemma UnstraddledTail(a: string, b: string, id: string)
    requires Unstraddled(a, b, id) && a != []
    ensures Unstraddled(a[1..], b, id)
  {
    var ab := a + b;
    forall j | 0 <= j < |a[1..]| && OpenAt(a[1..] + b, j, id).Some?
      ensures j + OpenAt(a[1..] + b, j, id).value <= |a[1..]|
    {
      assert (a[1..] + b)[j..] == ab[j + 1..];
      assert OpenAt(a[1..] + b, j, id) == OpenAt(ab, j + 1, id);
    }
  }

  /** An unstraddled join does not change whether a tag opens at the front. */
  lemma HeadOpening(a: string, b: string, id: string)
    requires Unstraddled(a, b, id) && a != []
    ensures OpenLength(a + b, "<section", IdAttr(id)).Some? <==> OpenLength(a, "<section", IdAttr(id)).Some?
  {
    var ab := a + b;
    var attr := IdAttr(id);
    if OpenLength(ab, "<section", attr).Some? {
      var n := OpenLength(ab, "<section", attr).value;
      assert ab[0..] == ab;
      assert OpenAt(ab, 0, id) == OpenLength(ab, "<section", attr);
      assert ab[..n] == a[..n];
      OpenLengthLocal(ab, a, "<section", attr, n);
    }
    if OpenLength(a, "<section", attr).Some? {
      var n := OpenLength(a, "<section", attr).value;
      assert ab[..n] == a[..n];
      OpenLengthLocal(a, ab, "<section", attr, n);
    }
  }

  /** No tag runs across a join after a `>` that no `<` follows. */
  lemma UnstraddledAfterGt(a: string, b: string, id: string, i: nat)
    requires NoChar(id, '<') && NoChar(id, '>')
    requires i < |a| && a[i] == '>' && forall k :: i < k < |a| ==> a[k] != '<'
    ensures Unstraddled(a, b, id)
  {
    var ab := a + b;
    forall j | 0 <= j < |a| && OpenAt(ab, j, id).Some?
      ensures j + OpenAt(ab, j, id).value <= |a|
    {
      OpeningShape(ab, j, id);
      assert ab[i] == '>' && ab[j] == a[j];
      assert forall k :: i < k < |a| ==> ab[k] != '<';
    }
  }

  /** No tag runs across a join before spaces and a `<`. */
  lemma UnstraddledBeforeLt(a: string, b: string, id: string)
    requires NoChar(id, '<') && NoChar(id, '>')
    requires SpaceRun(b) < |b| && b[SpaceRun(b)] == '<'
    ensures Unstraddled(a, b, id)
  {
    var ab := a + b;
    var w := SpaceRun(b);
    SpaceRunFacts(b);
    SpacesShift(a, b, w);
    forall j | 0 <= j < |a| && OpenAt(ab, j, id).Some?
      ensures j + OpenAt(ab, j, id).value <= |a|
    {
      OpenEndsBefore(ab, j, id, |a|, w);
    }
  }

  /** Leading spaces of `b` stay spaces behind `a`. */
  lemma SpacesShift(a: string, b: string, w: nat)
    requires w < |b| && forall i :: 0 <= i < w ==> IsSpace(b[i])
    ensures forall k :: |a| <= k < |a| + w ==> IsSpace((a + b)[k])
    ensures (a + b)[|a| + w] == b[w]
  {
    forall k | |a| <= k < |a| + w ensures IsSpace((a + b)[k]) {
      assert (a + b)[k] == b[k - |a|];
    }
  }

  /** An opening tag that starts before spaces and a `<` ends before them. */
  lemma OpenEndsBefore(s: string, j: nat, id: string, x: nat, w: nat)
    requires NoChar(id, '<') && NoChar(id, '>')
    requires j < x && x + w < |s| && s[x + w] == '<'
    requires forall k :: x <= k < x + w ==> IsSpace(s[k])
    requires OpenLength(s[j..], "<section", IdAttr(id)).Some?
    ensures j + OpenLength(s[j..], "<section", IdAttr(id)).value <= x
  {
    OpeningShape(s, j, id);
  }

  /** Text without a `<` holds no opening tag. */
  lemma {:induction false} OpeningsNoLt(s: string, id: string)
    requires NoChar(s, '<')
    ensures Openings(s, id) == 0
    decreases |s|
  {
    if s != [] {
      OpenStartsLt(s, IdAttr(id));
      assert forall i :: 0 <= i < |s| - 1 ==> s[1..][i] == s[i + 1];
      OpeningsNoLt(s[1..], id);
    }
  }

  lemma OpenStartsLt(s: string, attr: string)
    ensures OpenLength(s, "<section", attr).Some? ==> s[0] == '<'
  {
  }

  /** Text too short for a tag holds none. */
  lemma {:induction false} OpeningsShort(s: string, id: string)
    requires |s| < 9 + |IdAttr(id)|
    ensures Openings(s, id) == 0
    decreases |s|
  {
    if s != [] {
      OpeningsShort(s[1..], id);
    }
  }

  /** A fragment made for `id`: spaces, an opening tag for the id, and a
      `</section>` that ends the fragment, after the tag. */
  predicate Keyed(f: string, id: string) {
    var w := SpaceRun(f);
    w < |f| && OpenLength(f[w..], "<section", IdAttr(id)).Some?
    && w + OpenLength(f[w..], "<section", IdAttr(id)).value + 10 <= |f|
    && CIStartsWith(f[|f| - 10..], "</section>")
  }

  /** A fragment that begins with a line break, two spaces and the opening
      tag written plainly, and ends, after that, with `</section>`, is keyed. */
  lemma HeadKeyed(f: string, id: string)
    requires StartsWith(f, "\n  <section " + IdAttr(id)) && EndsWith(f, "</section>")
    requires |f| >= |"\n  <section " + IdAttr(id)| + 10
    ensures Keyed(f, id)
  {
    var attr := IdAttr(id);
    var open := "<section " + attr;
    assert "\n  <section " + attr == "\n  " + open;
    StartsWithSplit(f, "\n  ", open);
    assert f[3..][0] == open[0] == '<';
    LeadingSpaces(f);
    PlainOpening(f[3..], attr);
    assert f[|f| - 10..] == "</section>";
  }

  lemma StartsWithSplit(f: string, p: string, q: string)
    requires StartsWith(f, p + q)
    ensures f[..|p|] == p && StartsWith(f[|p|..], q)
  {
    assert f[..|p|] == (p + q)[..|p|];
    assert f[|p|..][..|q|] == (p + q)[|p|..];
  }

  /** A line break and two spaces before a `<`. */
  lemma LeadingSpaces(f: string)
    requires |f| > 3 && f[..3] == "\n  " && f[3] == '<'
    ensures SpaceRun(f) == 3
  {
    SpaceRunFacts(f);
    assert f[0] == '\n' && f[1] == ' ' && f[2] == ' ' by {
      assert f[..3][0] == f[0] && f[..3][1] == f[1] && f[..3][2] == f[2];
    }
    assert f[1..][1..][1..] == f[3..];
  }

  /** An opening tag written plainly, with one space before the attribute. */
  lemma PlainOpening(t: string, attr: string)
    requires attr != [] && !IsSpace(attr[0]) && StartsWith(t, "<section " + attr)
    ensures OpenLength(t, "<section", attr) == Some(9 + |attr|)
  {
    StartsWithSplit(t, "<section", " " + attr);
    assert CIStartsWith(t, "<section");
    var u := t[8..];
    StartsWithSplit(u, " ", attr);
    assert u[0] == ' ' && u[1] == attr[0];
    assert SpaceRun(u) == 1 by {
      assert u[1..][0] == attr[0];
    }
    assert t[9..] == u[1..];
    assert CIStartsWith(t[9..], attr);
  }

  /** A match whose closer ends in `>` ends in `>`. */
  lemma CloserEndsGt(s: string, e: nat, closer: string)
    requires closer != [] && closer[|closer| - 1] == '>'
    requires |closer| <= e <= |s| && CIStartsWith(s[e - |closer|..], closer)
    ensures s[e - 1] == '>'
  {
    assert Upper(s[e - |closer|..][|closer| - 1]) == Upper(closer[|closer| - 1]);
  }

  lemma KeyedEnds(f: string, id: string)
    requires Keyed(f, id) && NoChar(id, '<') && NoChar(id, '>')
    ensures f[SpaceRun(f)] == '<' && f[|f| - 1] == '>'
  {
    OpeningShape(f, SpaceRun(f), id);
    CloserEndsGt(f, |f|, "</section>");
  }

  lemma SpaceRunPrefix(f: string, x: string)
    requires SpaceRun(f) < |f|
    ensures SpaceRun(f + x) == SpaceRun(f)
  {
    assert (f + x)[..SpaceRun(f) + 1] == f[..SpaceRun(f) + 1];
    SpaceRunLocal(f, f + x, SpaceRun(f) + 1);
  }

  /** Openings add up across a join after a `>`. */
  lemma OpeningsAfterGt(a: string, b: string, id: string)
    requires NoChar(id, '<') && NoChar(id, '>') && a != [] && a[|a| - 1] == '>'
    ensures Openings(a + b, id) == Openings(a, id) + Openings(b, id)
  {
    UnstraddledAfterGt(a, b, id, |a| - 1);
    OpeningsConcat(a, b, id);
  }

  /** Openings add up across a join before a keyed fragment. */
  lemma OpeningsBeforeKeyed(a: string, f: string, x: string, id: string)
    requires NoChar(id, '<') && NoChar(id, '>') && Keyed(f, id)
    ensures Openings(a + (f + x), id) == Openings(a, id) + Openings(f + x, id)
  {
    KeyedEnds(f, id);
    SpaceRunPrefix(f, x);
    assert (f + x)[SpaceRun(f)] == '<';
    UnstraddledBeforeLt(a, f + x, id);
    OpeningsConcat(a, f + x, id);
  }

  /** A keyed fragment between two texts adds its own openings to theirs. */
  lemma FragmentOpenings(pre: string, f: string, post: string, id: string)
    requires NoChar(id, '<') && NoChar(id, '>') && Keyed(f, id)
    ensures Openings(pre + f + post, id) == Openings(pre, id) + Openings(f, id) + Openings(post, id)
  {
    assert pre + f + post == pre + (f + post);
    OpeningsBeforeKeyed(pre, f, post, id);
    KeyedEnds(f, id);
    OpeningsAfterGt(f, post, id);
  }

  /** A block matched for `id` holds at least one opening, and no tag runs
      across its ends. */
  lemma BlockOpenings(html: string, id: string, p: nat, e: nat)
    requires NoChar(id, '<') && NoChar(id, '>')
    requires IsMatch(html, "<section", IdAttr(id), "</section>", p, e)
    ensures p <= e <= |html|
    ensures Openings(html, id) == Openings(html[..p], id) + Openings(html[p..e], id) + Openings(html[e..], id)
    ensures Openings(html[p..e], id) >= 1
  {
    BlockEnds(html, id, p, e);
    SplitOpenings(html, id, p, e);
  }

  /** Cutting a page around a text from a `<` to a `>` that opens a tag. */
  lemma SplitOpenings(html: string, id: string, p: nat, e: nat)
    requires NoChar(id, '<') && NoChar(id, '>')
    requires p < e <= |html| && html[p] == '<' && html[e - 1] == '>'
    requires OpenLength(html[p..e], "<section", IdAttr(id)).Some?
    ensures Openings(html, id) == Openings(html[..p], id) + Openings(html[p..e], id) + Openings(html[e..], id)
    ensures Openings(html[p..e], id) >= 1
  {
    var pre, block, post := html[..p], html[p..e], html[e..];
    Cut3(html, p, e);
    TagOpenings(pre, block, post, id);
    OpeningsHead(block, id);
  }

  lemma BlockEnds(html: string, id: string, p: nat, e: nat)
    requires NoChar(id, '<') && NoChar(id, '>')
    requires IsMatch(html, "<section", IdAttr(id), "</section>", p, e)
    ensures p < e <= |html| && html[p] == '<' && html[e - 1] == '>'
    ensures OpenLength(html[p..e], "<section", IdAttr(id)).Some?
  {
    var n := OpenLength(html[p..], "<section", IdAttr(id)).value;
    OpeningShape(html, p, id);
    CloserEndsGt(html, e, "</section>");
    assert html[p..][..n] == html[p..e][..n];
    OpenLengthLocal(html[p..], html[p..e], "<section", IdAttr(id), n);
  }

  lemma Cut3(s: string, p: nat, e: nat)
    requires p < e <= |s|
    ensures s == s[..p] + (s[p..e] + s[e..])
    ensures s[p..e][0] == s[p] && s[p..e][e - p - 1] == s[e - 1]
  {
  }

  /** A text from a `<` to a `>` between two others: the openings add up. */
  lemma TagOpenings(pre: string, block: string, post: string, id: string)
    requires NoChar(id, '<') && NoChar(id, '>')
    requires block != [] && block[0] == '<' && block[|block| - 1] == '>'
    ensures Openings(pre + (block + post), id) == Openings(pre, id) + Openings(block, id) + Openings(post, id)
  {
    assert SpaceRun(block) == 0;
    SpaceRunPrefix(block, post);
    UnstraddledBeforeLt(pre, block + post, id);
    OpeningsConcat(pre, block + post, id);
    OpeningsAfterGt(block, post, id);
  }

  /** An opening at the start counts. */
  lemma OpeningsHead(s: string, id: string)
    requires OpenLength(s, "<section", IdAttr(id)).Some?
    ensures Openings(s, id) >= 1
  {
  }

  /** Replacing the first block takes its openings out and puts the
      fragment's in; the block held at least one. */
  lemma ReplaceOpenings(html: string, id: string, f: string, p: nat, e: nat)
    requires NoChar(id, '<') && NoChar(id, '>') && NoChar(f, '$') && Keyed(f, id)
    requires Leftmost(html, "<section", IdAttr(id), "</section>", p, e)
    ensures Openings(UpsertSection(html, id, f), id) + 1 <= Openings(html, id) + Openings(f, id)
  {
    UpsertReplaces(html, id, f, p, e);
    FragmentOpenings(html[..p], f, html[e..], id);
    BlockOpenings(html, id, p, e);
  }

  // ---- Where the fragment lands, and what a second upsert does --------------

  lemma PlacedAt(a: string, f: string, b: string)
    ensures At(a + f + b, f, |a|)
  {
    assert (a + f + b)[|a|..|a| + |f|] == f;
  }

  /** Whichever branch is taken, a fragment without `$` appears in the page
      as written. */
  lemma UpsertPlaces(html: string, id: string, f: string)
    requires NoChar(f, '$')
    ensures exists i: nat :: At(UpsertSection(html, id, f), f, i)
  {
    var u := UpsertSection(html, id, f);
    match FirstMatch(html, "<section", IdAttr(id), "</section>", 0)
    case Some(m) =>
      SubstituteLiteral(f, html[m.start..m.end], html[..m.start], html[m.end..]);
      PlacedAt(html[..m.start], f, html[m.end..]);
    case None =>
      match FirstMatch(html, "<section", IdAttr("section-docs"), "</section>", 0)
      case Some(m) =>
        PlacedAt(html[..m.end] + "\n\n", f, html[m.end..]);
      case None =>
        match FirstMatch(html, "<div", PanelAttr, ">", 0)
        case Some(m) =>
          assert u == (html[..m.end] + "\n") + f + ("\n" + html[m.end..]);
          PlacedAt(html[..m.end] + "\n", f, "\n" + html[m.end..]);
        case None =>
          match FindCI(html, BodyClose, 0)
          case Some(k) =>
            BodyReplacementLiteral(html, k, f);
            assert u == html[..k] + f + ("\n" + BodyClose + html[k + 7..]);
            PlacedAt(html[..k], f, "\n" + BodyClose + html[k + 7..]);
          case None =>
            PlacedAt(html + "\n", f, "\n");
  }

  /** A keyed fragment anywhere in a page gives the page a block for its id. */
  lemma KeyedMatches(s: string, f: string, i: nat, id: string)
    requires At(s, f, i) && Keyed(f, id)
    ensures HasMatch(s, "<section", IdAttr(id), "</section>")
  {
    var w := SpaceRun(f);
    var attr := IdAttr(id);
    var n := OpenLength(f[w..], "<section", attr).value;
    var p := i + w;
    var c := i + |f| - 10;
    KeyedOpens(s, f, i, w, n, "<section", attr);
    KeyedCloses(s, f, i);
    assert p <= |s| && OpenLength(s[p..], "<section", attr) == Some(n);
    assert p + n <= c <= |s| && CIStartsWith(s[c..], "</section>");
    MatchFromParts(s, "<section", attr, "</section>", p, n, c);
  }

  /** An opening tag and, after it, a closer make a match. */
  lemma MatchFromParts(s: string, tag: string, attr: string, closer: string, p: nat, n: nat, c: nat)
    requires p <= |s| && OpenLength(s[p..], tag, attr) == Some(n)
    requires p + n <= c <= |s| && CIStartsWith(s[c..], closer)
    ensures HasMatch(s, tag, attr, closer)
  {
    FindCIFinds(s, closer, p + n, c);
    var m := MatchAt(s, tag, attr, closer, p);
    assert m.Some?;
    assert IsMatch(s, tag, attr, closer, p, m.value);
  }

  /** The fragment's opening tag opens in the page where the fragment sits. */
  lemma KeyedOpens(s: string, f: string, i: nat, w: nat, n: nat, tag: string, attr: string)
    requires At(s, f, i) && attr != [] && w + n <= |f|
    requires OpenLength(f[w..], tag, attr) == Some(n)
    ensures i + w <= |s| && OpenLength(s[i + w..], tag, attr) == Some(n)
  {
    AtSlice(s, f, i, w, n);
    OpenLengthLocal(f[w..], s[i + w..], tag, attr, n);
  }

  /** Where `f` sits in `s`, every stretch of `f` sits in `s`. */
  lemma AtSlice(s: string, f: string, i: nat, w: nat, n: nat)
    requires At(s, f, i) && w + n <= |f|
    ensures i + w + n <= |s| && s[i + w..][..n] == f[w..][..n]
  {
    var a, b := s[i + w..][..n], f[w..][..n];
    forall j | 0 <= j < n ensures a[j] == b[j] {
      assert a[j] == s[i + w + j] == s[i..i + |f|][w + j];
    }
  }

  /** The fragment's closing tag closes in the page too. */
  lemma KeyedCloses(s: string, f: string, i: nat)
    requires At(s, f, i) && |f| >= 10 && CIStartsWith(f[|f| - 10..], "</section>")
    ensures CIStartsWith(s[i + |f| - 10..], "</section>")
  {
    var c := i + |f| - 10;
    assert s[c..][..10] == f[|f| - 10..][..10] by {
      assert s[c..][..10] == s[i..i + |f|][|f| - 10..];
    }
    CIStartsWithLocal(f[|f| - 10..], s[c..], "</section>");
  }

  /** After an upsert of a keyed fragment without `$`, the page has a block
      for the id, so the next upsert of that id replaces. */
  lemma UpsertLeavesBlock(html: string, id: string, f: string)
    requires NoChar(f, '$') && Keyed(f, id)
    ensures HasMatch(UpsertSection(html, id, f), "<section", IdAttr(id), "</section>")
  {
    UpsertPlaces(html, id, f);
    var i: nat :| At(UpsertSection(html, id, f), f, i);
    KeyedMatches(UpsertSection(html, id, f), f, i, id);
  }

  /** Upserting the same fragment a second time replaces the block the first
      upsert left: the page does not gain opening tags for the id. */
  lemma ReupsertDoesNotGrow(html: string, id: string, f: string)
    requires NoChar(id, '<') && NoChar(id, '>') && NoChar(f, '$') && Keyed(f, id) && Openings(f, id) <= 1
    ensures Openings(UpsertSection(UpsertSection(html, id, f), id, f), id) <= Openings(UpsertSection(html, id, f), id)
  {
    var h := UpsertSection(html, id, f);
    UpsertLeavesBlock(html, id, f);
    var m := FirstMatch(h, "<section", IdAttr(id), "</section>", 0);
    assert m.Some?;
    ReplaceOpenings(h, id, f, m.value.start, m.value.end);
  }

  // ---- Inserting adds exactly the fragment's opening tags -------------------

  /** Text without `<` in front adds no opening tag. */
  lemma {:induction false} OpeningsAfterPlain(a: string, b: string, id: string)
    requires NoChar(a, '<')
    ensures Openings(a + b, id) == Openings(b, id)
    decreases |a|
  {
    if a == [] {
      assert a + b == b;
    } else {
      OpenStartsLt(a + b, IdAttr(id));
      assert (a + b)[1..] == a[1..] + b;
      assert forall i :: 0 <= i < |a| - 1 ==> a[1..][i] == a[i + 1];
      OpeningsAfterPlain(a[1..], b, id);
    }
  }

  /** A closing tag `</…>` in front adds no opening tag. */
  lemma ClosingTagOpenings(t: string, b: string, id: string)
    requires |t| >= 2 && t[0] == '<' && t[1] == '/' && NoChar(t[1..], '<')
    ensures Openings(t + b, id) == Openings(b, id)
  {
    assert Upper((t + b)[1]) != Upper("<section"[1]);
    assert (t + b)[1..] == t[1..] + b;
    OpeningsAfterPlain(t[1..], b, id);
  }

  /** Inserted after a `>` of the page, between texts without `<`. */
  lemma InsertAfterGt(a: string, rest: string, lead: string, f: string, trail: string, id: string)
    requires NoChar(id, '<') && NoChar(id, '>') && Keyed(f, id)
    requires a != [] && a[|a| - 1] == '>' && NoChar(lead, '<') && NoChar(trail, '<')
    ensures Openings(a + lead + f + trail + rest, id) == Openings(a + rest, id) + Openings(f, id)
  {
    var tail := lead + (f + (trail + rest));
    OpeningsAfterGt(a, rest, id);
    Assoc5(a, lead, f, trail, rest);
    OpeningsAfterGt(a, tail, id);
    PaddedOpenings(lead, f, trail, rest, id);
  }

  lemma Assoc5(a: string, b: string, c: string, d: string, e: string)
    ensures a + b + c + d + e == a + (b + (c + (d + e)))
  {
  }

  lemma PaddedOpenings(lead: string, f: string, trail: string, rest: string, id: string)
    requires NoChar(id, '<') && NoChar(id, '>') && Keyed(f, id)
    requires NoChar(lead, '<') && NoChar(trail, '<')
    ensures Openings(lead + (f + (trail + rest)), id) == Openings(f, id) + Openings(rest, id)
  {
    OpeningsAfterPlain(lead, f + (trail + rest), id);
    KeyedEnds(f, id);
    OpeningsAfterGt(f, trail + rest, id);
    OpeningsAfterPlain(trail, rest, id);
  }

  /** `</body>` in any case is a closing tag. */
  lemma BodyCloseShape(t: string)
    requires |t| == 7 && CIStartsWith(t, BodyClose)
    ensures t[0] == '<' && t[1] == '/' && NoChar(t[1..], '<')
  {
    assert Upper(t[0]) == Upper(BodyClose[0]);
    assert Upper(t[1]) == Upper(BodyClose[1]);
    forall i | 1 <= i < 7 ensures t[i] != '<' {
      assert Upper(t[i]) == Upper(BodyClose[i]);
    }
  }

  /** Inserted before a `</body>`. */
  lemma InsertBeforeBody(a: string, t: string, rest: string, f: string, id: string)
    requires NoChar(id, '<') && NoChar(id, '>') && Keyed(f, id)
    requires |t| == 7 && CIStartsWith(t, BodyClose)
    ensures Openings(a + (f + "\n" + BodyClose) + rest, id) == Openings(a + t + rest, id) + Openings(f, id)
  {
    BodyOpenings(a, t, rest, id);
    Regroup(a, f, BodyClose, rest);
    FragmentOpenings(a, f, "\n" + (BodyClose + rest), id);
    BodyTailOpenings(rest, id);
  }

  lemma Regroup(a: string, f: string, b: string, rest: string)
    ensures a + (f + "\n" + b) + rest == a + f + ("\n" + (b + rest))
  {
  }

  /** A line break and `</body>` add no opening tag. */
  lemma BodyTailOpenings(rest: string, id: string)
    ensures Openings("\n" + (BodyClose + rest), id) == Openings(rest, id)
  {
    OpeningsAfterPlain("\n", BodyClose + rest, id);
    assert BodyClose[1..] == "/body>";
    ClosingTagOpenings(BodyClose, rest, id);
  }

  /** The page's openings are those before and those after its `</body>`. */
  lemma BodyOpenings(a: string, t: string, rest: string, id: string)
    requires NoChar(id, '<') && NoChar(id, '>')
    requires |t| == 7 && CIStartsWith(t, BodyClose)
    ensures Openings(a + t + rest, id) == Openings(a, id) + Openings(rest, id)
  {
    BodyCloseShape(t);
    assert a + t + rest == a + (t + rest);
    assert SpaceRun(t + rest) == 0;
    UnstraddledBeforeLt(a, t + rest, id);
    OpeningsConcat(a, t + rest, id);
    ClosingTagOpenings(t, rest, id);
  }

  /** No opening tag of the page runs into a line break after it: a tag
      ends with a quote. */
  lemma UnstraddledNewline(a: string, id: string)
    requires NoChar(id, '<') && NoChar(id, '>')
    ensures Unstraddled(a, "\n", id)
  {
    var s := a + "\n";
    forall j | 0 <= j < |a| && OpenAt(s, j, id).Some?
      ensures j + OpenAt(s, j, id).value <= |a|
    {
      OpeningShape(s, j, id);
    }
  }

  /** Appended at the end, on a line of its own. */
  lemma InsertAtEnd(html: string, f: string, id: string)
    requires NoChar(id, '<') && NoChar(id, '>') && Keyed(f, id)
    ensures Openings(html + "\n" + f + "\n", id) == Openings(html, id) + Openings(f, id)
  {
    FragmentOpenings(html + "\n", f, "\n", id);
    UnstraddledNewline(html, id);
    OpeningsConcat(html, "\n", id);
    OpeningsNoLt("\n", id);
  }

  /** Without a block for the id, the upsert inserts: the page gains exactly
      the fragment's opening tags, whichever insertion point is used. */
  lemma InsertOpenings(html: string, id: string, f: string)
    requires NoChar(id, '<') && NoChar(id, '>') && NoChar(f, '$') && Keyed(f, id)
    requires !HasMatch(html, "<section", IdAttr(id), "</section>")
    ensures Openings(UpsertSection(html, id, f), id) == Openings(html, id) + Openings(f, id)
  {
    var docs := FirstMatch(html, "<section", IdAttr("section-docs"), "</section>", 0);
    var panel := FirstMatch(html, "<div", PanelAttr, ">", 0);
    if docs.Some? {
      InsertDocsCase(html, id, f, docs.value);
    } else if panel.Some? {
      InsertPanelCase(html, id, f, panel.value);
    } else if FindCI(html, BodyClose, 0).Some? {
      InsertBodyCase(html, id, f, FindCI(html, BodyClose, 0).value);
    } else {
      UpsertAppends(html, id, f);
      InsertAtEnd(html, f, id);
    }
  }

  lemma InsertDocsCase(html: string, id: string, f: string, m: Span)
    requires NoChar(id, '<') && NoChar(id, '>') && Keyed(f, id)
    requires !HasMatch(html, "<section", IdAttr(id), "</section>")
    requires Leftmost(html, "<section", IdAttr("section-docs"), "</section>", m.start, m.end)
    ensures Openings(UpsertSection(html, id, f), id) == Openings(html, id) + Openings(f, id)
  {
    UpsertAfterDocs(html, id, f, m.start, m.end);
    MatchEndGt(html, "<section", IdAttr("section-docs"), "</section>", m.start, m.end);
    AfterDocsOpenings(html, m.end, f, id);
  }

  lemma AfterDocsOpenings(html: string, e: nat, f: string, id: string)
    requires NoChar(id, '<') && NoChar(id, '>') && Keyed(f, id)
    requires 1 <= e <= |html| && html[e - 1] == '>'
    ensures Openings(html[..e] + "\n\n" + f + html[e..], id) == Openings(html, id) + Openings(f, id)
  {
    var a, rest := html[..e], html[e..];
    assert html == a + rest;
    assert a + "\n\n" + f + rest == a + "\n\n" + f + "" + rest;
    InsertAfterGt(a, rest, "\n\n", f, "", id);
  }

  lemma InsertPanelCase(html: string, id: string, f: string, m: Span)
    requires NoChar(id, '<') && NoChar(id, '>') && Keyed(f, id)
    requires !HasMatch(html, "<section", IdAttr(id), "</section>")
    requires !HasMatch(html, "<section", IdAttr("section-docs"), "</section>")
    requires FirstMatch(html, "<div", PanelAttr, ">", 0) == Some(m)
    ensures Openings(UpsertSection(html, id, f), id) == Openings(html, id) + Openings(f, id)
  {
    UpsertIntoPanel(html, id, f, m.start, m.end);
    MatchEndGt(html, "<div", PanelAttr, ">", m.start, m.end);
    PanelOpenings(html, m.end, f, id);
  }

  /** A match whose closer ends with `>` ends with that `>`. */
  lemma MatchEndGt(html: string, tag: string, attr: string, closer: string, p: nat, e: nat)
    requires closer != [] && closer[|closer| - 1] == '>'
    requires IsMatch(html, tag, attr, closer, p, e)
    ensures 1 <= e <= |html| && html[e - 1] == '>'
  {
    CloserEndsGt(html, e, closer);
  }

  lemma PanelOpenings(html: string, e: nat, f: string, id: string)
    requires NoChar(id, '<') && NoChar(id, '>') && Keyed(f, id)
    requires 1 <= e <= |html| && html[e - 1] == '>'
    ensures Openings(html[..e] + "\n" + f + "\n" + html[e..], id) == Openings(html, id) + Openings(f, id)
  {
    var a, rest := html[..e], html[e..];
    assert html == a + rest;
    InsertAfterGt(a, rest, "\n", f, "\n", id);
  }

  lemma InsertBodyCase(html: string, id: string, f: string, k: nat)
    requires NoChar(id, '<') && NoChar(id, '>') && NoChar(f, '$') && Keyed(f, id)
    requires !HasMatch(html, "<section", IdAttr(id), "</section>")
    requires !HasMatch(html, "<section", IdAttr("section-docs"), "</section>")
    requires !HasMatch(html, "<div", PanelAttr, ">")
    requires FindCI(html, BodyClose, 0) == Some(k)
    ensures Openings(UpsertSection(html, id, f), id) == Openings(html, id) + Openings(f, id)
  {
    UpsertBodyCase(html, id, f, k);
    FoundAt(html, BodyClose, k);
    BodyOpeningsAt(html, k, f, id);
  }

  /** What a case-insensitive search finds occupies `|p|` characters. */
  lemma FoundAt(html: string, p: string, k: nat)
    requires FindCI(html, p, 0) == Some(k)
    ensures k + |p| <= |html| && CIStartsWith(html[k..k + |p|], p)
  {
    CIStartsWithLocal(html[k..], html[k..k + |p|], p);
  }

  lemma BodyOpeningsAt(html: string, k: nat, f: string, id: string)
    requires NoChar(id, '<') && NoChar(id, '>') && NoChar(f, '$') && Keyed(f, id)
    requires k + 7 <= |html| && CIStartsWith(html[k..k + 7], BodyClose)
    ensures Openings(html[..k] + Substitute(f + "\n" + BodyClose, html[k..k + 7], html[..k], html[k + 7..]) + html[k + 7..], id)
         == Openings(html, id) + Openings(f, id)
  {
    BodyReplacementLiteral(html, k, f);
    var a, t, rest := html[..k], html[k..k + 7], html[k + 7..];
    assert html == a + t + rest;
    InsertBeforeBody(a, t, rest, f, id);
  }
}
