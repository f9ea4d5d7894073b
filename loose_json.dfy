/**
 * The text passes `loadJsonLoose` (generateRhymil.js) runs before
 * `JSON.parse`: drop a leading byte-order mark, `//` comments, `/* */`
 * comments and trailing commas. Each pass is one left-to-right global
 * regular-expression replace; each is modelled as the scan that replace does.
 */
module LooseJson {
  import opened Wrappers
  import opened Text

  const Bom: char := '\U{FEFF}'

  /** `s.replace(/^\uFEFF/, '')`. */
  function StripBom(s: string): (r: string)
    ensures |s| > 0 && s[0] == Bom ==> r == s[1..]
    ensures !(|s| > 0 && s[0] == Bom) ==> r == s
  {
    if |s| > 0 && s[0] == Bom then s[1..] else s
  }

  /** Index of the first line terminator of `s`, or |s|: where `.*$` with the
      `m` flag stops. */
  function LineEnd(s: string): (n: nat)
    ensures n <= |s|
    ensures forall i :: 0 <= i < n ==> !IsLineTerminator(s[i])
    ensures n < |s| ==> IsLineTerminator(s[n])
  {
    if s == [] || IsLineTerminator(s[0]) then 0 else 1 + LineEnd(s[1..])
  }

  /** `s.replace(/\/\/.*$/mg, '')`: from each `//` up to, not including, the
      end of its line. */
  function StripLineComments(s: string): string
    decreases |s|
  {
    if |s| < 2 then s
    else if s[0] == '/' && s[1] == '/' then StripLineComments(s[LineEnd(s)..])
    else [s[0]] + StripLineComments(s[1..])
  }

  /** The line terminators of `s`, in order. */
  function Terminators(s: string): string {
    if s == [] then [] else (if IsLineTerminator(s[0]) then [s[0]] else []) + Terminators(s[1..])
  }

  lemma {:induction false} LineEndTerminators(s: string)
    ensures Terminators(s) == Terminators(s[LineEnd(s)..])
  {
    if s != [] && !IsLineTerminator(s[0]) {
      LineEndTerminators(s[1..]);
      assert s[1..][LineEnd(s[1..])..] == s[LineEnd(s)..];
    }
  }

  /** The first character left after the pass. */
  lemma {:induction false} StripLineCommentsHead(s: string)
    requires StripLineComments(s) != []
    ensures StartsWith(s, "//") ==> LineEnd(s) < |s| && StripLineComments(s)[0] == s[LineEnd(s)]
    ensures !StartsWith(s, "//") ==> StripLineComments(s)[0] == s[0]
    decreases |s|
  {
    if |s| >= 2 && s[0] == '/' && s[1] == '/' {
      var t := s[LineEnd(s)..];
      assert StripLineComments(s) == StripLineComments(t);
      assert t == [] || IsLineTerminator(t[0]);
    }
  }

  /** After the pass no `//` is left, and every line break is kept, so the
      text keeps its lines. */
  lemma {:induction false} StripLineCommentsSpec(s: string)
    ensures NoDoubleSlash(StripLineComments(s))
    ensures Terminators(StripLineComments(s)) == Terminators(s)
    decreases |s|
  {
    var r := StripLineComments(s);
    if |s| < 2 {
    } else if s[0] == '/' && s[1] == '/' {
      StripLineCommentsSpec(s[LineEnd(s)..]);
      LineEndTerminators(s);
    } else {
      var t := StripLineComments(s[1..]);
      StripLineCommentsSpec(s[1..]);
      assert r == [s[0]] + t;
      forall i | 0 <= i < |r| - 1 ensures !(r[i] == '/' && r[i + 1] == '/') {
        if i == 0 {
          if s[0] == '/' {
            StripLineCommentsHead(s[1..]);
            assert r[1] == t[0];
          }
        } else {
          assert r[i] == t[i - 1] && r[i + 1] == t[i];
        }
      }
      assert Terminators(r) == (if IsLineTerminator(s[0]) then [s[0]] else []) + Terminators(t);
    }
  }

  /** Text without `//` passes through unchanged. */
  lemma {:induction false} StripLineCommentsKeeps(s: string)
    requires NoDoubleSlash(s)
    ensures StripLineComments(s) == s
    decreases |s|
  {
    if |s| >= 2 {
      NoDoubleSlashTail(s);
      StripLineCommentsKeeps(s[1..]);
      assert s == [s[0]] + s[1..];
    }
  }

  lemma NoDoubleSlashTail(s: string)
    requires s != [] && NoDoubleSlash(s)
    ensures NoDoubleSlash(s[1..])
  {
    var t := s[1..];
    forall j | 0 <= j < |t| - 1 ensures !(t[j] == '/' && t[j + 1] == '/') {
      assert t[j] == s[j + 1] && t[j + 1] == s[j + 2];
    }
  }

  /** The text before the first `//` is kept, the comment from there to the
      end of its line is dropped, and the pass goes on after it. */
  lemma {:induction false} StripLineCommentsFirst(s: string, i: nat)
    requires i + 1 < |s| && s[i] == '/' && s[i + 1] == '/'
    requires forall j :: 0 <= j < i ==> !(s[j] == '/' && s[j + 1] == '/')
    ensures StripLineComments(s) == s[..i] + StripLineComments(s[i + LineEnd(s[i..])..])
  {
    StripLineCommentsPrefix(s, i);
    var r := s[i..];
    assert r[0] == '/' && r[1] == '/';
    assert StripLineComments(r) == StripLineComments(r[LineEnd(r)..]);
    assert r[LineEnd(r)..] == s[i + LineEnd(r)..];
  }

  lemma StripLineCommentsCons(s: string)
    requires |s| >= 2 && !(s[0] == '/' && s[1] == '/')
    ensures StripLineComments(s) == [s[0]] + StripLineComments(s[1..])
  {
  }

  lemma {:induction false} StripLineCommentsPrefix(s: string, i: nat)
    requires i < |s|
    requires forall j :: 0 <= j < i ==> !(s[j] == '/' && s[j + 1] == '/')
    ensures StripLineComments(s) == s[..i] + StripLineComments(s[i..])
    decreases i
  {
    if i > 0 {
      var t := s[1..];
      StripLineCommentsCons(s);
      forall j | 0 <= j < i - 1 ensures !(t[j] == '/' && t[j + 1] == '/') {
        assert t[j] == s[j + 1] && t[j + 1] == s[j + 2];
      }
      StripLineCommentsPrefix(t, i - 1);
      assert t[i - 1..] == s[i..];
      assert s[..i] == [s[0]] + t[..i - 1];
    }
  }

  /** `s.replace(/\/\*[\s\S]*?\*\//g, '')`: each `/*` up to the nearest
      following `*/`. An opener with no closer after it ends the scan, since no
      later opener can be closed either. (The patterns hold no letters, so the
      case-insensitive search is an exact one.) */
  function StripBlockComments(s: string): string
    decreases |s|
  {
    if |s| < 2 then s
    else if s[0] == '/' && s[1] == '*' then
      match FindCI(s, "*/", 2)
      case Some(k) => StripBlockComments(s[k + 2..])
      case None => s
    else [s[0]] + StripBlockComments(s[1..])
  }

  predicate NoBlockOpener(s: string) {
    forall i :: 0 <= i < |s| - 1 ==> !(s[i] == '/' && s[i + 1] == '*')
  }

  /** A case-insensitive match of `*` then `/` is exactly those two characters. */
  lemma CloserAt(t: string)
    ensures CIStartsWith(t, "*/") <==> |t| >= 2 && t[0] == '*' && t[1] == '/'
  {
    if |t| >= 2 && CIStartsWith(t, "*/") {
      assert Upper(t[0]) == Upper('*') && Upper(t[1]) == Upper('/');
    }
  }

  lemma StripBlockCommentsCons(s: string)
    requires |s| >= 2 && !(s[0] == '/' && s[1] == '*')
    ensures StripBlockComments(s) == [s[0]] + StripBlockComments(s[1..])
  {
  }

  lemma {:induction false} StripBlockCommentsPrefix(s: string, k: nat)
    requires k < |s|
    requires forall m :: 0 <= m < k ==> !(s[m] == '/' && s[m + 1] == '*')
    ensures StripBlockComments(s) == s[..k] + StripBlockComments(s[k..])
    decreases k
  {
    if k > 0 {
      var t := s[1..];
      StripBlockCommentsCons(s);
      forall m | 0 <= m < k - 1 ensures !(t[m] == '/' && t[m + 1] == '*') {
        assert t[m] == s[m + 1] && t[m + 1] == s[m + 2];
      }
      StripBlockCommentsPrefix(t, k - 1);
      assert t[k - 1..] == s[k..];
      assert s[..k] == [s[0]] + t[..k - 1];
    }
  }

  /** The text before the first comment opener (`/` then `*`) is kept, the
      comment up to and including the first closer (`*` then `/`) after the
      opener is dropped, and the pass goes on after it. */
  lemma {:induction false} StripBlockCommentsFirst(s: string, k: nat, j: nat)
    requires k + 2 <= j && j + 2 <= |s|
    requires s[k] == '/' && s[k + 1] == '*' && s[j] == '*' && s[j + 1] == '/'
    requires forall m :: 0 <= m < k ==> !(s[m] == '/' && s[m + 1] == '*')
    requires forall m :: k + 2 <= m < j ==> !(s[m] == '*' && s[m + 1] == '/')
    ensures StripBlockComments(s) == s[..k] + StripBlockComments(s[j + 2..])
  {
    StripBlockCommentsPrefix(s, k);
    var r := s[k..];
    CloserAt(r[j - k..]);
    FindCIFinds(r, "*/", 2, j - k);
    var v := FindCI(r, "*/", 2).value;
    CloserAt(r[v..]);
    assert s[k + v] == '*' && s[k + v + 1] == '/';
    assert v == j - k;
    assert r[v + 2..] == s[j + 2..];
  }

  /** An opener with no closer after it keeps the rest of the text. */
  lemma {:induction false} StripBlockCommentsUnclosed(s: string, k: nat)
    requires k + 2 <= |s| && s[k] == '/' && s[k + 1] == '*'
    requires forall m :: 0 <= m < k ==> !(s[m] == '/' && s[m + 1] == '*')
    requires forall m :: k + 2 <= m < |s| - 1 ==> !(s[m] == '*' && s[m + 1] == '/')
    ensures StripBlockComments(s) == s
  {
    StripBlockCommentsPrefix(s, k);
    var r := s[k..];
    match FindCI(r, "*/", 2)
    case Some(v) =>
      CloserAt(r[v..]);
      assert false;
    case None =>
      assert s == s[..k] + r;
  }

  /** Text with no comment opener passes through; the pass never lengthens the text. */
  lemma {:induction false} StripBlockCommentsSpec(s: string)
    ensures NoBlockOpener(s) ==> StripBlockComments(s) == s
    ensures |StripBlockComments(s)| <= |s|
    decreases |s|
  {
    if |s| >= 2 && s[0] == '/' && s[1] == '*' {
      match FindCI(s, "*/", 2)
      case Some(k) => StripBlockCommentsSpec(s[k + 2..]);
      case None =>
    } else if |s| >= 2 {
      StripBlockCommentsSpec(s[1..]);
      if NoBlockOpener(s) {
        assert forall i :: 0 <= i < |s| - 1 ==> s[1..][i] == s[i + 1];
        assert NoBlockOpener(s[1..]);
        assert s == [s[0]] + s[1..];
      }
    }
  }

  /** Length of the `\s*[}\]]` that `s` begins with, if it begins with one. */
  function CloseAfterSpace(s: string): (r: Option<nat>)
    ensures r.Some? ==> 1 <= r.value <= |s| && s[r.value - 1] in "}]"
    ensures r.Some? ==> forall i :: 0 <= i < r.value - 1 ==> IsSpace(s[i])
    ensures r.None? ==> forall k :: 0 <= k < |s| && s[k] in "}]" ==> exists i :: 0 <= i < k && !IsSpace(s[i])
  {
    SpaceRunFacts(s);
    var w := SpaceRun(s);
    if w < |s| && s[w] in "}]" then Some(w + 1) else None
  }

  /** `s.replace(/,(\s*[}\]])/g, '$1')`: the match consumes the comma, the
      spaces and the bracket, and puts back all but the comma. */
  function StripTrailingCommas(s: string): string
    decreases |s|
  {
    if s == [] then []
    else if s[0] == ',' && CloseAfterSpace(s[1..]).Some? then
      var n := CloseAfterSpace(s[1..]).value;
      s[1..1 + n] + StripTrailingCommas(s[1 + n..])
    else [s[0]] + StripTrailingCommas(s[1..])
  }

  /** Reference definition: drop exactly the commas followed by optional
      spaces and a closing bracket, keeping every other character. */
  function DropClosingCommas(s: string): string {
    if s == [] then []
    else (if s[0] == ',' && CloseAfterSpace(s[1..]).Some? then [] else [s[0]]) + DropClosingCommas(s[1..])
  }

  predicate NoComma(s: string) {
    forall i :: 0 <= i < |s| ==> s[i] != ','
  }

  lemma {:induction false} DropClosingCommasAfter(a: string, b: string)
    requires NoComma(a)
    ensures DropClosingCommas(a + b) == a + DropClosingCommas(b)
  {
    if a != [] {
      assert (a + b)[0] == a[0] && (a + b)[1..] == a[1..] + b;
      assert forall i :: 0 <= i < |a| - 1 ==> a[1..][i] == a[i + 1];
      DropClosingCommasAfter(a[1..], b);
      assert DropClosingCommas(a + b) == [a[0]] + DropClosingCommas(a[1..] + b);
      assert a == [a[0]] + a[1..];
    } else {
      assert a + b == b;
    }
  }

  /** The single regular-expression pass removes exactly the commas the
      reference drops. */
  lemma {:induction false} StripTrailingCommasDropsCommas(s: string)
    ensures StripTrailingCommas(s) == DropClosingCommas(s)
    decreases |s|
  {
    if s != [] {
      if s[0] == ',' && CloseAfterSpace(s[1..]).Some? {
        var n := CloseAfterSpace(s[1..]).value;
        var t := s[1..];
        assert t[..n] == s[1..1 + n] && t[n..] == s[1 + n..];
        assert t == t[..n] + t[n..];
        assert NoComma(t[..n]) by {
          forall i | 0 <= i < n ensures t[..n][i] != ',' {
            assert t[..n][i] == t[i];
          }
        }
        DropClosingCommasAfter(t[..n], t[n..]);
        StripTrailingCommasDropsCommas(s[1 + n..]);
      } else {
        StripTrailingCommasDropsCommas(s[1..]);
      }
    }
  }

  /** The characters of `s` other than commas. */
  function NonCommas(s: string): string {
    if s == [] then [] else (if s[0] == ',' then [] else [s[0]]) + NonCommas(s[1..])
  }

  /** Only commas are removed, and never a comma that is not followed by a
      closing bracket. */
  lemma {:induction false} DropClosingCommasKeeps(s: string)
    ensures NonCommas(DropClosingCommas(s)) == NonCommas(s)
    ensures |DropClosingCommas(s)| <= |s|
  {
    if s != [] {
      DropClosingCommasKeeps(s[1..]);
      var head := if s[0] == ',' && CloseAfterSpace(s[1..]).Some? then [] else [s[0]];
      NonCommasConcat(head, DropClosingCommas(s[1..]));
    }
  }

  lemma {:induction false} NonCommasConcat(a: string, b: string)
    ensures NonCommas(a + b) == NonCommas(a) + NonCommas(b)
  {
    if a != [] {
      assert (a + b)[0] == a[0] && (a + b)[1..] == a[1..] + b;
      NonCommasConcat(a[1..], b);
      assert a == [a[0]] + a[1..];
      var h := if a[0] == ',' then [] else [a[0]];
      assert NonCommas(a + b) == h + NonCommas(a[1..] + b);
      assert NonCommas(a) == h + NonCommas(a[1..]);
    } else {
      assert a + b == b;
    }
  }

  /** One pass, not a fixpoint: a comma freed by the removal of the one after it stays. */
  lemma StripTrailingCommasSinglePass()
    ensures StripTrailingCommas(",,}") == ",}"
    ensures StripTrailingCommas("[1,\n]") == "[1\n]"
  {
    assert CloseAfterSpace(",}") == None;
    assert CloseAfterSpace("}") == Some(1);
    assert ",,}"[1..] == ",}" && ",}"[1..] == "}";
    var t := "[1,\n]";
    assert t[1..] == "1,\n]" && t[2..] == ",\n]" && t[3..] == "\n]";
    assert SpaceRun("]") == 0;
    assert SpaceRun("\n]") == 1;
    assert CloseAfterSpace("\n]") == Some(2);
    var c := ",\n]";
    assert c[1..] == "\n]" && c[1..3] == "\n]" && c[3..] == [];
    assert StripTrailingCommas(c) == "\n]";
    assert CloseAfterSpace("1,\n]").None? && CloseAfterSpace(t[1..]).None?;
    assert StripTrailingCommas("1,\n]") == "1\n]";
    assert t[3..5] == "\n]" && t[5..] == [];
  }

  /** No comma is followed by optional spaces and a closing bracket. */
  predicate NoClosingComma(s: string) {
    forall i :: 0 <= i < |s| && s[i] == ',' ==> CloseAfterSpace(s[i + 1..]).None?
  }

  lemma {:induction false} DropClosingCommasNone(s: string)
    requires NoClosingComma(s)
    ensures DropClosingCommas(s) == s
  {
    if s != [] {
      var t := s[1..];
      forall i | 0 <= i < |t| && t[i] == ',' ensures CloseAfterSpace(t[i + 1..]).None? {
        assert t[i] == s[i + 1] && t[i + 1..] == s[i + 2..];
      }
      DropClosingCommasNone(t);
      assert s[0] == ',' ==> CloseAfterSpace(s[0 + 1..]).None?;
      assert s == [s[0]] + t;
    }
  }

  /** All of `loadJsonLoose` before `JSON.parse`, in the source's order. */
  function NormalizeLoose(raw: string): string {
    StripTrailingCommas(StripBlockComments(StripLineComments(StripBom(raw))))
  }

  /** Text with no byte-order mark, no comment opener and no trailing comma
      reaches `JSON.parse` unchanged. */
  lemma NormalizeLooseKeeps(raw: string)
    requires !(|raw| > 0 && raw[0] == Bom)
    requires NoDoubleSlash(raw) && NoBlockOpener(raw) && NoClosingComma(raw)
    ensures NormalizeLoose(raw) == raw
  {
    StripLineCommentsKeeps(raw);
    StripBlockCommentsSpec(raw);
    StripTrailingCommasDropsCommas(raw);
    DropClosingCommasNone(raw);
  }
}
