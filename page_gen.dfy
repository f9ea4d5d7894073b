/**
 * rhymil/_generate.js: for each faction folder, read its JSON file
 * tolerantly, fill the page template with the faction's title, intro and an
 * article per player and per master, write `<faction>.html`, and count
 * successes and warnings.
 *
 * The file system is a parameter: for each faction, what reading and parsing
 * its file gives.
 */
module PageGen {
  import opened Wrappers
  import opened Text
  import opened Html
  import opened Faction
  import opened LooseJson
  import Markup

  /** The faction folders, in the order the pages are generated. */
  const PageTargets: seq<string> := [
    "nuova-fratellanza-dei-pirati",
    "ordine-dei-cavalieri",
    "ordine-dei-paladini",
    "ordine-dei-maghi",
    "ordine-clericale",
    "terre-barbariche",
    "stato-del-popolo-libero"
  ]

  // ---------------------------------------------------------------------
  // readJsonTolerant: the text passes before JSON.parse

  /** The number of trailing characters of `s` that are spaces. */
  function TrailingSpaceRun(s: string): (n: nat)
    ensures n <= |s|
    ensures forall i :: |s| - n <= i < |s| ==> IsSpace(s[i])
    ensures n < |s| ==> !IsSpace(s[|s| - n - 1])
    decreases |s|
  {
    if s == [] || !IsSpace(s[|s| - 1]) then 0 else 1 + TrailingSpaceRun(s[..|s| - 1])
  }

  /** `String.prototype.trim`: the longest slice of `s` that neither begins
      nor ends with a space; everything cut off is space. */
  function Trim(s: string): (r: string)
    ensures SpaceRun(s) + |r| <= |s| && r == s[SpaceRun(s)..SpaceRun(s) + |r|]
    ensures r == [] || (!IsSpace(r[0]) && !IsSpace(r[|r| - 1]))
    ensures forall i :: 0 <= i < SpaceRun(s) ==> IsSpace(s[i])
    ensures forall i :: SpaceRun(s) + |r| <= i < |s| ==> IsSpace(s[i])
  {
    SpaceRunFacts(s);
    var a := SpaceRun(s);
    if a == |s| then [] else s[a..|s| - TrailingSpaceRun(s)]
  }

  /** Trimming twice is trimming once. */
  lemma TrimIdempotent(s: string)
    ensures Trim(Trim(s)) == Trim(s)
  {
    var r := Trim(s);
    if r != [] {
      assert SpaceRun(r) == 0;
      assert TrailingSpaceRun(r) == 0;
    }
  }

  /** `s.replace(/,\s*([}\]])/g, '$1')`: the match consumes the comma, the
      spaces and the bracket, and puts back only the bracket. */
  function TightCommas(s: string): string
    decreases |s|
  {
    if s == [] then []
    else if s[0] == ',' && CloseAfterSpace(s[1..]).Some? then
      var n := CloseAfterSpace(s[1..]).value;
      [s[n]] + TightCommas(s[1 + n..])
    else [s[0]] + TightCommas(s[1..])
  }

  /** Reference for the pass: a comma that spaces and a closing bracket
      follow is dropped together with those spaces, and the scan resumes at
      the bracket, which is kept like every other character. */
  function DropTrailingCommas(s: string): string
    decreases |s|
  {
    if s == [] then []
    else if s[0] == ',' && CloseAfterSpace(s[1..]).Some? then DropTrailingCommas(s[1 + SpaceRun(s[1..])..])
    else [s[0]] + DropTrailingCommas(s[1..])
  }

  /** The pass is the reference. */
  lemma {:induction false} TightCommasDrops(s: string)
    ensures TightCommas(s) == DropTrailingCommas(s)
    decreases |s|
  {
    if s != [] {
      if s[0] == ',' && CloseAfterSpace(s[1..]).Some? {
        var n := CloseAfterSpace(s[1..]).value;
        CloseAfterSpaceRun(s[1..]);
        assert DropTrailingCommas(s) == DropTrailingCommas(s[n..]);
        DropAtBracket(s, n);
        TightCommasDrops(s[1 + n..]);
      } else {
        TightCommasDrops(s[1..]);
      }
    }
  }

  lemma CloseAfterSpaceRun(s: string)
    requires CloseAfterSpace(s).Some?
    ensures CloseAfterSpace(s).value == SpaceRun(s) + 1
  {
  }

  /** The reference keeps the bracket a dropped comma stood before. */
  lemma DropAtBracket(s: string, n: nat)
    requires n < |s| && s[n] in "}]"
    ensures DropTrailingCommas(s[n..]) == [s[n]] + DropTrailingCommas(s[n + 1..])
  {
    assert s[n..][0] == s[n] && s[n..][1..] == s[n + 1..];
  }

  /** The characters of `s` that are not spaces, in order. */
  function NonSpaces(s: string): string {
    if s == [] then [] else (if IsSpace(s[0]) then [] else [s[0]]) + NonSpaces(s[1..])
  }

  lemma {:induction false} NonSpacesConcat(a: string, b: string)
    ensures NonSpaces(a + b) == NonSpaces(a) + NonSpaces(b)
  {
    if a != [] {
      assert (a + b)[0] == a[0] && (a + b)[1..] == a[1..] + b;
      NonSpacesConcat(a[1..], b);
    } else {
      assert a + b == b;
    }
  }

  lemma {:induction false} NonSpacesOfSpaces(s: string)
    requires forall i :: 0 <= i < |s| ==> IsSpace(s[i])
    ensures NonSpaces(s) == []
  {
    if s != [] {
      NonSpacesOfSpaces(s[1..]);
    }
  }

  /** This pass and the trailing-comma pass of generateRhymil.js remove the
      same commas and differ only in the spaces before the bracket, which
      this one drops as well. */
  lemma {:induction false} TightCommasAgree(s: string)
    ensures NonSpaces(TightCommas(s)) == NonSpaces(StripTrailingCommas(s))
    ensures |TightCommas(s)| <= |StripTrailingCommas(s)| <= |s|
    decreases |s|
  {
    if s != [] {
      if s[0] == ',' && CloseAfterSpace(s[1..]).Some? {
        var n := CloseAfterSpace(s[1..]).value;
        TightCommasAgree(s[1 + n..]);
        CloseFacts(s, n);
        CommaAgree(s[1..n], s[n], TightCommas(s[1 + n..]), StripTrailingCommas(s[1 + n..]));
      } else {
        TightCommasAgree(s[1..]);
        ConsAgree(s[0], TightCommas(s[1..]), StripTrailingCommas(s[1..]));
      }
    }
  }

  /** What a trailing comma is followed by: spaces, then a bracket. */
  lemma CloseFacts(s: string, n: nat)
    requires s != [] && CloseAfterSpace(s[1..]) == Some(n)
    ensures 1 + n <= |s| && s[1..1 + n] == s[1..n] + [s[n]]
    ensures forall i :: 0 <= i < |s[1..n]| ==> IsSpace(s[1..n][i])
    ensures !IsSpace(s[n])
  {
    assert forall i :: 0 <= i < n - 1 ==> s[1..n][i] == s[1..][i];
    assert s[n] == s[1..][n - 1];
  }

  /** A trailing comma: one pass keeps the spaces and the bracket, the other
      only the bracket. */
  lemma CommaAgree(spaces: string, b: char, tight: string, strip: string)
    requires forall i :: 0 <= i < |spaces| ==> IsSpace(spaces[i])
    requires !IsSpace(b)
    requires NonSpaces(tight) == NonSpaces(strip) && |tight| <= |strip|
    ensures NonSpaces([b] + tight) == NonSpaces(spaces + [b] + strip)
  {
    NonSpacesOfSpaces(spaces);
    NonSpacesConcat(spaces, [b]);
    assert NonSpaces([b]) == [b];
    NonSpacesConcat(spaces + [b], strip);
    NonSpacesConcat([b], tight);
  }

  /** Any other character is kept by both passes. */
  lemma ConsAgree(c: char, tight: string, strip: string)
    requires NonSpaces(tight) == NonSpaces(strip) && |tight| <= |strip|
    ensures NonSpaces([c] + tight) == NonSpaces([c] + strip)
  {
    NonSpacesConcat([c], tight);
    NonSpacesConcat([c], strip);
  }

  /** The two passes on the same text: here the newline before the bracket
      goes with the comma; the pass is single, so a comma that becomes
      trailing only after another is removed stays. */
  lemma TightCommasExamples()
    ensures TightCommas("[1,\n]") == "[1]"
    ensures StripTrailingCommas("[1,\n]") == "[1\n]"
    ensures TightCommas(",,}") == ",}"
  {
    TightCommasNewline();
    LooseJson.StripTrailingCommasSinglePass();
    TightCommasDouble();
  }

  lemma TightCommasNewline()
    ensures TightCommas("[1,\n]") == "[1]"
  {
    var t := "[1,\n]";
    assert t[1..] == "1,\n]" && t[2..] == ",\n]" && t[3..] == "\n]";
    assert SpaceRun("\n]") == 1;
    assert CloseAfterSpace("\n]") == Some(2);
    assert t[4] == ']' && t[5..] == [];
    assert TightCommas(t[2..]) == "]";
  }

  lemma TightCommasDouble()
    ensures TightCommas(",,}") == ",}"
  {
    assert CloseAfterSpace(",}") == None;
    assert CloseAfterSpace("}") == Some(1);
    assert ",,}"[1..] == ",}" && ",}"[1..] == "}" && ",}"[2..] == [];
  }

  /** `readJsonTolerant` up to `JSON.parse`: trim, drop a byte-order mark,
      remove trailing commas. Trimming already removes a leading U+FEFF, so
      the second step never changes anything. */
  method ReadJsonTolerant(text: string) returns (raw: string)
    ensures raw == TightCommas(Trim(text))
    ensures NonSpaces(raw) == NonSpaces(StripTrailingCommas(Trim(text)))
    ensures |raw| <= |text|
  {
    raw := Trim(text);
    raw := StripBom(raw);
    raw := TightCommas(raw);
    TightCommasAgree(Trim(text));
  }

  // ---------------------------------------------------------------------
  // escapeHtml, articleHTML and buildHtml

  /** `escapeHtml(str = '')` applied to a field: an absent field is the empty
      string; five `replaceAll`s, `&` first. It is the escape of
      generateRhymil.js on the same text. */
  function EscapeField(f: Option<string>): (r: string)
    ensures r == EscapeHtml(if f.Some? then f.value else "")
    ensures WellEscaped(r)
    ensures Unescape(r) == OrEmpty(f)
  {
    EscapeHtmlPerChar(OrEmpty(f));
    ReplaceChain(OrEmpty(f))
  }

  /** The owner's `<span>`: present exactly when the owner is truthy. */
  function OwnerHtml(owner: Option<string>): (r: string)
    ensures r != "" <==> Truthy(owner)
    ensures Truthy(owner) ==> r == "<span>- " + EscapeField(owner) + "</span>"
  {
    if Truthy(owner) then "<span>- " + EscapeField(owner) + "</span>" else ""
  }

  /** The fixed text between the parts of an article. */
  const ArticleGaps: seq<string> := [
    "\n    <article>" + "\n      <a class=\"thumbnail\" ",
    ">",
    " alt=\"\" /></a>\n      ",
    "\n      ",
    "\n    " + "</article>\n  "
  ]

  /** The parts of an article: the link to `./<dir>/<image>.png`, the image
      `./<dir>/<image>.jpg`, the heading with the escaped name and the owner's
      span, and the paragraph with the escaped text. */
  function ArticleParts(dir: string, item: Item): seq<string> {
    var file := "./" + dir + "/" + OrEmpty(item.image);
    [ "href=\"" + file + ".png\"",
      "<img src=\"" + file + ".jpg\"",
      "<h2>" + EscapeField(item.name) + " " + OwnerHtml(item.owner) + "</h2>",
      "<p>\n        " + EscapeField(item.text) + "\n      </p>" ]
  }

  /** `articleHTML(dir, item)`: an `<article>` holding its parts in order. */
  function ArticleHtml(dir: string, item: Item): (a: string)
    ensures Follows(a, ArticleParts(dir, item))
    ensures StartsWith(a, "\n    <article>")
    ensures EndsWith(a, "</article>\n  ")
  {
    ArticleFacts(ArticleParts(dir, item));
    Interleave(ArticleGaps, ArticleParts(dir, item))
  }

  lemma ArticleFacts(parts: seq<string>)
    requires |parts| == 4
    ensures Follows(Interleave(ArticleGaps, parts), parts)
    ensures StartsWith(Interleave(ArticleGaps, parts), "\n    <article>")
    ensures EndsWith(Interleave(ArticleGaps, parts), "</article>\n  ")
  {
    FollowsInterleave(ArticleGaps, parts);
    assert ArticleGaps[0] == "\n    <article>" + "\n      <a class=\"thumbnail\" ";
    assert ArticleGaps[0][..|"\n    <article>"|] == "\n    <article>";
    InterleaveHead(ArticleGaps, parts, "\n    <article>");
    assert ArticleGaps[4] == "\n    " + "</article>\n  ";
    EndsWithConcat("\n    ", "</article>\n  ");
    InterleaveEndsWith(ArticleGaps, parts, "</article>\n  ");
  }

  /** The articles of a list of entries, in the list's order. */
  function Articles(dir: string, items: seq<Item>): (articles: seq<string>)
    ensures |articles| == |items|
    ensures forall k :: 0 <= k < |items| ==> articles[k] == ArticleHtml(dir, items[k])
  {
    seq(|items|, k requires 0 <= k < |items| => ArticleHtml(dir, items[k]))
  }

  /** The fixed text between the parts of the page. */
  const HtmlGaps: seq<string> := [
    "<!DOCTYPE HTML>" + "\n<html>\n  <head>\n    ",
    "\n    <link rel=\"manifest\" href=\"../icons/manifest.webmanifest\">\n    <link rel=\"icon\" href=\"../icons/favicon.ico\" type=\"image/x-icon\">\n    <meta charset=\"utf-8\" />\n    <meta name=\"viewport\" content=\"width=device-width, initial-scale=1, user-scalable=no\" />\n    <link rel=\"stylesheet\" href=\"./assets/main.css\" />\n  </head>\n  <body class=\"is-preload-0 is-preload-1 is-preload-2\">\n    <!-- Main -->\n    <div id=\"main\">\n      <!-- Header -->\n      <header id=\"header\">\n        <a href=\"../index.html\" class=\"home-button\" title=\"Torna alla home\">\n          <svg viewBox=\"0 0 24 24\"><path d=\"M15.41 16.59L10.83 12l4.58-4.59L14 6l-6 6 6 6z\"/></svg>\n          Home\n        </a>\n        ",
    "\n        ",
    "\n      </header>\n\n      <!-- Thumbnail -->\n      ",
    "\n        ",
    PageFooter + "</html>\n"
  ]

  /** The page after the thumbnails, up to `</html>`. */
  const PageFooter: string :=
    "\n\n      <!-- Footer -->\n      <footer id=\"footer\">\n        <ul class=\"icons\">\n          <li><a\n            href=\"https://www.instagram.com/rhymil_/\"\n            class=\"icon brands fa-instagram\"><span class=\"label\">\n            Instagram</span></a></li>\n          <li><a\n            href=\"https://www.facebook.com/profile.php?id=100063593580176\"\n            class=\"icon brands fa-facebook-square\"><span class=\"label\">\n            Facebook</span></a></li>\n          <li><a\n            href=\"https://wa.me/3453293560\"\n            class=\"icon brands fa-whatsapp\"><span class=\"label\">\n            Whatsapp</span></a></li>\n          <li><a\n            href=\"https://rhymil.arcanadomine.it/dashboard.php\"\n            class=\"icon solid fa-globe-americas\"><span class=\"label\">\n            website</span></a></li>\n          <li><a\n            href=\"mailto:rhymil.info@gmail.com\"\n            class=\"icon solid fa-envelope\"><span class=\"label\">\n            Email</span></a></li>\n        </ul>\n        <ul class=\"copyright\">\n          <li>&copy; <a href=\"https://www.arcanadomine.it/\">Arcana Domine</a></li>\n          <li>design by <a href=\"https://www.mandragora.ws/\">Mandragora Web Studio</a></li>\n        </ul>\n    </div>\n\n    <!-- Scripts -->\n    <script src=\"./assets/js/jquery.min.js\"></script>\n    <script src=\"./assets/js/browser.min.js\"></script>\n    <script src=\"./assets/js/breakpoints.min.js\"></script>\n    <script src=\"./assets/js/main.js\"></script>\n  </body>\n"

  /** The parts of the page: the `<title>` and the `<h1>`, both with the
      escaped title, the paragraph with the escaped intro, then, inside
      `#thumbnails`, the players' markup followed by the masters'. */
  function HtmlParts(title: string, intro: string, players: string, masters: string): seq<string> {
    [ "<title>Rhymil | " + EscapeHtml(title) + "</title>",
      "<h1>" + EscapeHtml(title) + "</h1>",
      "<p>\n          " + EscapeHtml(intro) + "\n        </p>",
      "<section id=\"thumbnails\">\n        " + players,
      masters + "\n      </section>" ]
  }

  /** `buildHtml({ title, intro, playersHTML, mastersHTML })`. */
  function BuildHtml(title: string, intro: string, players: string, masters: string): (r: string)
    ensures Follows(r, HtmlParts(title, intro, players, masters))
    ensures StartsWith(r, "<!DOCTYPE HTML>")
    ensures EndsWith(r, "</html>\n")
  {
    var parts := HtmlParts(title, intro, players, masters);
    FollowsInterleave(HtmlGaps, parts);
    InterleaveHead(HtmlGaps, parts, "<!DOCTYPE HTML>");
    EndsWithConcat(PageFooter, "</html>\n");
    InterleaveEndsWith(HtmlGaps, parts, "</html>\n");
    Interleave(HtmlGaps, parts)
  }

  // ---------------------------------------------------------------------
  // main

  /** `data.name || 'Titolo'`. */
  function Title(name: Option<string>): string {
    OrDefault(name, "Titolo")
  }

  /** `Array.isArray(list) ? list : []`: anything that is not an array counts
      as no entries. */
  function ItemsOf(l: Listing): (items: seq<Item>)
    ensures l.Array? ==> items == l.items
    ensures !l.Array? ==> items == []
  {
    if l.Array? then l.items else []
  }

  /** The two generators agree on a list that is an array or absent; on a
      truthy non-array, generateRhymil.js fails where this one sees no entries. */
  lemma ListsAgree(l: Listing)
    ensures !l.NotArray? ==> Markup.Entries(l) == Some(ItemsOf(l))
    ensures l.NotArray? ==> Markup.Entries(l).None? && ItemsOf(l) == []
  {
  }

  /** The page written for faction `dir` with record `data`. */
  function Page(dir: string, data: Record): string {
    BuildHtml(Title(data.name), OrEmpty(data.text),
              Join(Articles(dir, ItemsOf(data.players)), "\n"),
              Join(Articles(dir, ItemsOf(data.masters)), "\n"))
  }

  /** A page holds its title twice, then its intro, then an article for each
      player and then for each master, in the lists' order. */
  lemma PageOrder(dir: string, data: Record)
    ensures Follows(Page(dir, data),
                    HtmlParts(Title(data.name), OrEmpty(data.text), "", "")[..3]
                    + Articles(dir, ItemsOf(data.players))
                    + Articles(dir, ItemsOf(data.masters)))
  {
    PartsOrder(Page(dir, data), Title(data.name), OrEmpty(data.text),
               Articles(dir, ItemsOf(data.players)), Articles(dir, ItemsOf(data.masters)));
  }

  lemma PartsOrder(doc: string, title: string, intro: string, players: seq<string>, masters: seq<string>)
    requires Follows(doc, HtmlParts(title, intro, Join(players, "\n"), Join(masters, "\n")))
    ensures Follows(doc, HtmlParts(title, intro, "", "")[..3] + players + masters)
  {
    var parts := HtmlParts(title, intro, Join(players, "\n"), Join(masters, "\n"));
    JoinedAfter("<section id=\"thumbnails\">\n        ", players);
    JoinedBefore(masters, "\n      </section>");
    RefineFive(doc, parts, players, masters);
    assert HtmlParts(title, intro, "", "")[..3] == parts[..3];
  }

  lemma JoinedAfter(a: string, parts: seq<string>)
    ensures Follows(a + Join(parts, "\n"), parts)
  {
    FollowsJoin(parts, "\n");
    FollowsAfter(a, Join(parts, "\n"), parts);
  }

  lemma JoinedBefore(parts: seq<string>, b: string)
    ensures Follows(Join(parts, "\n") + b, parts)
  {
    FollowsJoin(parts, "\n");
    FollowsConcat(Join(parts, "\n"), b, parts, []);
    assert parts + [] == parts;
  }

  /** Five ordered parts, the last two refined into their own ordered parts. */
  lemma RefineFive(doc: string, parts: seq<string>, xs: seq<string>, ys: seq<string>)
    requires |parts| == 5 && Follows(doc, parts)
    requires Follows(parts[3], xs) && Follows(parts[4], ys)
    ensures Follows(doc, parts[..3] + xs + ys)
  {
    FollowsOne(parts[0]);
    FollowsOne(parts[1]);
    FollowsOne(parts[2]);
    var subs := [[parts[0]], [parts[1]], [parts[2]], xs, ys];
    FollowsRefine(doc, parts, subs);
    FlattenFive(subs);
    assert parts[..3] == [parts[0]] + [parts[1]] + [parts[2]];
  }

  lemma FlattenFive(subs: seq<seq<string>>)
    requires |subs| == 5
    ensures Flatten(subs) == subs[0] + subs[1] + subs[2] + subs[3] + subs[4]
  {
    assert subs[4..][1..] == [];
    assert Flatten(subs[4..]) == subs[4];
    assert subs[3..][1..] == subs[4..];
    assert Flatten(subs[3..]) == subs[3] + subs[4];
    assert subs[2..][1..] == subs[3..];
    assert Flatten(subs[2..]) == subs[2] + (subs[3] + subs[4]);
    assert subs[1..][1..] == subs[2..];
    assert Flatten(subs[1..]) == subs[1] + (subs[2] + (subs[3] + subs[4]));
  }

  /** How many of `dirs` have a record (are counted in `ok`). */
  function OkCount(files: map<string, Load>, dirs: seq<string>): nat {
    if dirs == [] then 0
    else OkCount(files, dirs[..|dirs| - 1]) + (if LoadOf(files, dirs[|dirs| - 1]).Loaded? then 1 else 0)
  }

  /** How many of `dirs` have no file or one that does not parse (counted in
      `warn`). */
  function WarnCount(files: map<string, Load>, dirs: seq<string>): nat {
    if dirs == [] then 0
    else WarnCount(files, dirs[..|dirs| - 1]) + (if LoadOf(files, dirs[|dirs| - 1]).Loaded? then 0 else 1)
  }

  /** Every faction is counted exactly once. */
  lemma {:induction false} OkWarnTotal(files: map<string, Load>, dirs: seq<string>)
    ensures OkCount(files, dirs) + WarnCount(files, dirs) == |dirs|
  {
    if dirs != [] {
      OkWarnTotal(files, dirs[..|dirs| - 1]);
    }
  }

  /** The pages written after the factions `dirs`, last faction last. */
  function Pages(files: map<string, Load>, dirs: seq<string>): map<string, string> {
    if dirs == [] then map[]
    else
      var prev := Pages(files, dirs[..|dirs| - 1]);
      var d := dirs[|dirs| - 1];
      match LoadOf(files, d)
      case Loaded(data) => prev[d := Page(d, data)]
      case _ => prev
  }

  /** A page is written for each faction with a record and for no other
      name. */
  lemma {:induction false} PagesKeys(files: map<string, Load>, dirs: seq<string>)
    ensures forall d :: d in Pages(files, dirs) <==> d in dirs && LoadOf(files, d).Loaded?
  {
    if dirs != [] {
      var init := dirs[..|dirs| - 1];
      PagesKeys(files, init);
      assert dirs == init + [dirs[|dirs| - 1]];
    }
  }

  /** Each page written is its faction's page, built from its record. */
  lemma {:induction false} PagesValues(files: map<string, Load>, dirs: seq<string>, d: string)
    requires d in Pages(files, dirs)
    ensures LoadOf(files, d).Loaded? && Pages(files, dirs)[d] == Page(d, LoadOf(files, d).data)
  {
    var init, last := dirs[..|dirs| - 1], dirs[|dirs| - 1];
    if d != last || !LoadOf(files, last).Loaded? {
      PagesValues(files, init, d);
    }
  }

  /** One more faction: what it adds to the counts. */
  lemma CountsStep(files: map<string, Load>, dirs: seq<string>, k: nat)
    requires k < |dirs|
    ensures OkCount(files, dirs[..k + 1]) == OkCount(files, dirs[..k]) + (if LoadOf(files, dirs[k]).Loaded? then 1 else 0)
    ensures WarnCount(files, dirs[..k + 1]) == WarnCount(files, dirs[..k]) + (if LoadOf(files, dirs[k]).Loaded? then 0 else 1)
  {
    var e := dirs[..k + 1];
    assert e[..|e| - 1] == dirs[..k] && e[|e| - 1] == dirs[k];
  }

  /** One more faction: the page it adds, if its file loaded. */
  lemma PagesStep(files: map<string, Load>, dirs: seq<string>, k: nat)
    requires k < |dirs|
    ensures LoadOf(files, dirs[k]).Loaded? ==>
      Pages(files, dirs[..k + 1]) == Pages(files, dirs[..k])[dirs[k] := Page(dirs[k], LoadOf(files, dirs[k]).data)]
    ensures !LoadOf(files, dirs[k]).Loaded? ==> Pages(files, dirs[..k + 1]) == Pages(files, dirs[..k])
  {
    var e := dirs[..k + 1];
    PagesSnoc(files, e, dirs[..k], dirs[k]);
  }

  lemma PagesSnoc(files: map<string, Load>, e: seq<string>, init: seq<string>, d: string)
    requires e == init + [d]
    ensures Pages(files, e) == (match LoadOf(files, d)
                                case Loaded(data) => Pages(files, init)[d := Page(d, data)]
                                case _ => Pages(files, init))
  {
    assert e[..|e| - 1] == init;
  }

  /** `main()`: for each faction in order, a missing file or one that does
      not parse is a warning; otherwise its page is written and counted. */
  method Generate(files: map<string, Load>) returns (ok: nat, warn: nat, pages: map<string, string>)
    ensures ok == OkCount(files, PageTargets) && warn == WarnCount(files, PageTargets)
    ensures ok + warn == |PageTargets|
    ensures pages == Pages(files, PageTargets)
  {
    ok, warn, pages := 0, 0, map[];
    for k := 0 to |PageTargets|
      invariant ok == OkCount(files, PageTargets[..k]) && warn == WarnCount(files, PageTargets[..k])
      invariant ok + warn == k
      invariant pages == Pages(files, PageTargets[..k])
    {
      var dir := PageTargets[k];
      CountsStep(files, PageTargets, k);
      PagesStep(files, PageTargets, k);
      var load := LoadOf(files, dir);
      if load.NotFound? {
        warn := warn + 1;
        continue;
      }
      if load.Malformed? {
        warn := warn + 1;
        continue;
      }
      if load.Null? {
        // `data.name` throws inside the `try`: a warning, no page.
        warn := warn + 1;
        continue;
      }
      var html := Page(dir, load.data);
      pages := pages[dir := html];
      ok := ok + 1;
    }
    assert PageTargets[..|PageTargets|] == PageTargets;
  }
}
