/**
 * HTML escaping of the five reserved characters, as `escapeHtml` in
 * generateRhymil.js does it (a chain of five global replaces, `&` first),
 * with an independent per-character definition and an unescaper as partners.
 */
module Html {
  import opened Text

  /** The reserved characters. */
  predicate IsReserved(c: char) {
    c == '&' || c == '<' || c == '>' || c == '"' || c == '\''
  }

  predicate NoReserved(s: string) {
    forall i :: 0 <= i < |s| ==> !IsReserved(s[i])
  }

  /** The entity each reserved character becomes. */
  function EscapeChar(c: char): (e: string)
    ensures !IsReserved(c) ==> e == [c]
    ensures IsReserved(c) ==> |e| >= 4 && e[0] == '&'
  {
    match c
    case '&' => "&amp;"
    case '<' => "&lt;"
    case '>' => "&gt;"
    case '"' => "&quot;"
    case '\'' => "&#39;"
    case _ => [c]
  }

  /** Reference definition: every character replaced by its own escape. */
  function Escaped(s: string): string {
    if s == [] then [] else EscapeChar(s[0]) + Escaped(s[1..])
  }

  /** `escapeHtml(s)` of generateRhymil.js: five global replaces in the
      source's order. `&` goes first, so the later replacements never see an
      ampersand they introduced. */
  function EscapeHtml(s: string): (r: string)
    ensures r == Escaped(s)
    ensures WellEscaped(r)
    ensures Unescape(r) == s
    ensures |r| >= |s|
    ensures r == s <==> NoReserved(s)
  {
    EscapeHtmlPerChar(s);
    EscapedIsWellEscaped(s);
    UnescapeEscaped(s);
    EscapedLength(s);
    ReplaceChain(s)
  }

  function ReplaceChain(s: string): string {
    var s1 := ReplaceChar(s, '&', "&amp;");
    var s2 := ReplaceChar(s1, '<', "&lt;");
    var s3 := ReplaceChar(s2, '>', "&gt;");
    var s4 := ReplaceChar(s3, '"', "&quot;");
    ReplaceChar(s4, '\'', "&#39;")
  }

  lemma ReplaceChainConcat(a: string, b: string)
    ensures ReplaceChain(a + b) == ReplaceChain(a) + ReplaceChain(b)
  {
    ReplaceCharConcat(a, b, '&', "&amp;");
    var a1, b1 := ReplaceChar(a, '&', "&amp;"), ReplaceChar(b, '&', "&amp;");
    ReplaceCharConcat(a1, b1, '<', "&lt;");
    var a2, b2 := ReplaceChar(a1, '<', "&lt;"), ReplaceChar(b1, '<', "&lt;");
    ReplaceCharConcat(a2, b2, '>', "&gt;");
    var a3, b3 := ReplaceChar(a2, '>', "&gt;"), ReplaceChar(b2, '>', "&gt;");
    ReplaceCharConcat(a3, b3, '"', "&quot;");
    var a4, b4 := ReplaceChar(a3, '"', "&quot;"), ReplaceChar(b3, '"', "&quot;");
    ReplaceCharConcat(a4, b4, '\'', "&#39;");
  }

  lemma ReplaceChainOne(c: char)
    ensures ReplaceChain([c]) == EscapeChar(c)
  {
    var s := [c];
    assert s[1..] == [];
  }

  /** The replace chain agrees with the per-character escape. */
  lemma {:induction false} EscapeHtmlPerChar(s: string)
    ensures ReplaceChain(s) == Escaped(s)
  {
    if s != [] {
      assert s == [s[0]] + s[1..];
      ReplaceChainConcat([s[0]], s[1..]);
      ReplaceChainOne(s[0]);
      EscapeHtmlPerChar(s[1..]);
    }
  }

  /** Length of the entity `r` begins with, or 0 when it begins with none. */
  function EntityLength(r: string): (n: nat)
    ensures n > 0 ==> n <= |r| && r[0] == '&'
  {
    if StartsWith(r, "&amp;") then 5
    else if StartsWith(r, "&lt;") || StartsWith(r, "&gt;") then 4
    else if StartsWith(r, "&quot;") then 6
    else if StartsWith(r, "&#39;") then 5
    else 0
  }

  /** The character an entity at the start of `r` stands for. */
  function EntityChar(r: string): char
    requires EntityLength(r) > 0
  {
    if StartsWith(r, "&amp;") then '&'
    else if StartsWith(r, "&lt;") then '<'
    else if StartsWith(r, "&gt;") then '>'
    else if StartsWith(r, "&quot;") then '"'
    else '\''
  }

  /** `r` splits into plain characters and entities: no raw `<`, `>`, `"`,
      `'`, and every `&` begins one of the five entities. */
  predicate WellEscaped(r: string)
    decreases |r|
  {
    if r == [] then true
    else if r[0] == '&' then EntityLength(r) > 0 && WellEscaped(r[EntityLength(r)..])
    else !IsReserved(r[0]) && WellEscaped(r[1..])
  }

  /** Decodes the five entities, leaving every other character as it is. */
  function Unescape(r: string): string
    decreases |r|
  {
    if r == [] then []
    else if EntityLength(r) > 0 then [EntityChar(r)] + Unescape(r[EntityLength(r)..])
    else [r[0]] + Unescape(r[1..])
  }

  lemma EscapeCharPrefix(c: char, t: string)
    ensures IsReserved(c) ==> EntityLength(EscapeChar(c) + t) == |EscapeChar(c)|
                              && EntityChar(EscapeChar(c) + t) == c
    ensures !IsReserved(c) ==> EntityLength(EscapeChar(c) + t) == 0
  {
    var r := EscapeChar(c) + t;
    assert r[..|EscapeChar(c)|] == EscapeChar(c);
    if IsReserved(c) {
      assert r[0] == '&' && r[1] == EscapeChar(c)[1] && r[2] == EscapeChar(c)[2];
      assert r[..4] == EscapeChar(c)[..4];
    } else {
      assert r[0] == c;
    }
  }

  lemma {:induction false} EscapedIsWellEscaped(s: string)
    ensures WellEscaped(Escaped(s))
  {
    if s != [] {
      EscapedIsWellEscaped(s[1..]);
      var e, t := EscapeChar(s[0]), Escaped(s[1..]);
      EscapeCharPrefix(s[0], t);
      assert (e + t)[|e|..] == t;
      if !IsReserved(s[0]) {
        assert (e + t)[0] == s[0];
      }
    }
  }

  /** Unescaping the escape gives back the input. */
  lemma {:induction false} UnescapeEscaped(s: string)
    ensures Unescape(Escaped(s)) == s
  {
    if s != [] {
      UnescapeEscaped(s[1..]);
      var e, t := EscapeChar(s[0]), Escaped(s[1..]);
      EscapeCharPrefix(s[0], t);
      assert (e + t)[|e|..] == t;
      if !IsReserved(s[0]) {
        assert (e + t)[0] == s[0];
        assert (e + t)[1..] == t;
      }
      assert s == [s[0]] + s[1..];
    }
  }

  lemma {:induction false} EscapedLength(s: string)
    ensures |Escaped(s)| >= |s|
    ensures Escaped(s) == s <==> NoReserved(s)
    ensures !NoReserved(s) ==> |Escaped(s)| > |s|
  {
    if s != [] {
      EscapedLength(s[1..]);
      assert forall i :: 0 <= i < |s| - 1 ==> s[1..][i] == s[i + 1];
      assert s == [s[0]] + s[1..];
      if NoReserved(s) {
        assert !IsReserved(s[0]) && NoReserved(s[1..]);
      }
      if !NoReserved(s) && !IsReserved(s[0]) {
        var i :| 0 <= i < |s| && IsReserved(s[i]);
        assert s[1..][i - 1] == s[i];
      }
    }
  }

  /** What a well-escaped string promises at every index. */
  lemma {:induction false} WellEscapedAt(r: string, i: nat)
    requires WellEscaped(r) && i < |r|
    ensures r[i] != '<' && r[i] != '>' && r[i] != '"' && r[i] != '\''
    ensures r[i] == '&' ==> EntityLength(r[i..]) > 0
    decreases |r|
  {
    if r[0] == '&' {
      var n := EntityLength(r);
      if i >= n {
        assert r[n..][i - n] == r[i] && r[n..][i - n..] == r[i..];
        WellEscapedAt(r[n..], i - n);
      } else if i > 0 {
        assert r[..n] in {"&amp;", "&lt;", "&gt;", "&quot;", "&#39;"};
        assert r[..n][i] == r[i];
      }
    } else if i > 0 {
      assert r[1..][i - 1] == r[i] && r[1..][i - 1..] == r[i..];
      WellEscapedAt(r[1..], i - 1);
    }
  }
}
