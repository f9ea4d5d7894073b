/**
 * The markup builders of generateRhymil.js: the title of a slug, the link of
 * an image, one gallery anchor per entry and the `<section>` of a faction.
 */
module Markup {
  import opened Wrappers
  import opened Text
  import opened Html
  import opened Faction
  import opened PosixPath

  /** What `titleFromSlug` puts at index `i` of a slug: a space for each
      dash, an upper-cased word character at the start of each word, and the
      character itself elsewhere. */
  function TitleChar(slug: string, i: nat): char
    requires i < |slug|
  {
    if slug[i] == '-' then ' '
    else if i == 0 || !IsWordChar(slug[i - 1]) then Upper(slug[i])
    else slug[i]
  }

  /** `replace(/\b\w/g, upper)` on the rest of a text; `boundary` says whether
      the character before it was not a word character (or there was none). */
  function CapitalizeWords(s: string, boundary: bool): string
  {
    if s == [] then []
    else [if boundary && IsWordChar(s[0]) then Upper(s[0]) else s[0]]
         + CapitalizeWords(s[1..], !IsWordChar(s[0]))
  }

  lemma {:induction false} CapitalizeWordsAt(s: string, boundary: bool)
    ensures |CapitalizeWords(s, boundary)| == |s|
    ensures forall i :: 0 <= i < |s| ==>
      CapitalizeWords(s, boundary)[i] ==
        if (if i == 0 then boundary else !IsWordChar(s[i - 1])) && IsWordChar(s[i]) then Upper(s[i]) else s[i]
  {
    if s != [] {
      CapitalizeWordsAt(s[1..], !IsWordChar(s[0]));
      var r := CapitalizeWords(s, boundary);
      forall i | 1 <= i < |s|
        ensures r[i] == if !IsWordChar(s[i - 1]) && IsWordChar(s[i]) then Upper(s[i]) else s[i]
      {
        assert s[1..][i - 1] == s[i];
        if i > 1 {
          assert s[1..][i - 2] == s[i - 1];
        }
      }
    }
  }

  /** `titleFromSlug(slug)`: dashes become spaces, then the first character of
      each word is upper-cased. The result has the slug's length and is
      described index by index. */
  function TitleFromSlug(slug: string): (r: string)
    ensures |r| == |slug|
    ensures forall i :: 0 <= i < |slug| ==> r[i] == TitleChar(slug, i)
  {
    TitleFromSlugAt(slug);
    CapitalizeWords(ReplaceChar(slug, '-', " "), true)
  }

  lemma TitleFromSlugAt(slug: string)
    ensures |CapitalizeWords(ReplaceChar(slug, '-', " "), true)| == |slug|
    ensures forall i :: 0 <= i < |slug| ==>
      CapitalizeWords(ReplaceChar(slug, '-', " "), true)[i] == TitleChar(slug, i)
  {
    var spaced := ReplaceChar(slug, '-', " ");
    ReplaceCharAt(slug, '-', " ");
    CapitalizeWordsAt(spaced, true);
    forall i | 0 <= i < |slug| ensures CapitalizeWords(spaced, true)[i] == TitleChar(slug, i) {
      if i > 0 {
        assert IsWordChar(spaced[i - 1]) == IsWordChar(slug[i - 1]);
      }
    }
  }

  lemma TitleFromSlugExample(slug: string)
    requires slug == "ordine-dei-maghi"
    ensures TitleFromSlug(slug) == "Ordine Dei Maghi"
  {
    var r := TitleFromSlug(slug);
    var t := "Ordine Dei Maghi";
    forall i | 0 <= i < 16 ensures r[i] == t[i] {
      assert r[i] == TitleChar(slug, i);
    }
  }

  /** `s` ends with `e`, letters compared without regard to ASCII case. */
  predicate CIEndsWith(s: string, e: string) {
    |e| <= |s| && CIStartsWith(s[|s| - |e|..], e)
  }

  /** The image extensions `anchorFor` strips: `/\.(jpg|jpeg|png|webp)$/i`. */
  predicate IsImageExtension(x: string) {
    (|x| == 4 && CIStartsWith(x, ".jpg")) || (|x| == 5 && CIStartsWith(x, ".jpeg"))
    || (|x| == 4 && CIStartsWith(x, ".png")) || (|x| == 5 && CIStartsWith(x, ".webp"))
  }

  predicate HasImageExtension(s: string) {
    CIEndsWith(s, ".jpg") || CIEndsWith(s, ".jpeg") || CIEndsWith(s, ".png") || CIEndsWith(s, ".webp")
  }

  /** The image name with one trailing image extension removed. */
  function ImageStem(image: string): (stem: string)
    ensures |stem| <= |image| && stem == image[..|stem|]
    ensures |stem| < |image| <==> HasImageExtension(image)
    ensures |stem| < |image| ==> IsImageExtension(image[|stem|..])
  {
    if CIEndsWith(image, ".jpg") then image[..|image| - 4]
    else if CIEndsWith(image, ".jpeg") then image[..|image| - 5]
    else if CIEndsWith(image, ".png") then image[..|image| - 4]
    else if CIEndsWith(image, ".webp") then image[..|image| - 5]
    else image
  }

  /** Only the last extension goes, and case does not matter. */
  lemma ImageStemExamples()
    ensures ImageStem("capitano.PNG") == "capitano"
    ensures ImageStem("a.jpg.jpeg") == "a.jpg"
    ensures ImageStem("ritratto.gif") == "ritratto.gif"
  {
    var png := "capitano.PNG";
    assert png[8..] == ".PNG" && png[..8] == "capitano";
    assert Upper(png[8..][1]) != Upper(".jpg"[1]);
    assert Upper(png[7..][0]) != Upper(".jpeg"[0]);
    assert CIStartsWith(png[8..], ".png");
    var twice := "a.jpg.jpeg";
    assert twice[5..] == ".jpeg" && twice[6..] == "jpeg" && twice[..5] == "a.jpg";
    assert !CIStartsWith(twice[6..], ".jpg");
    assert CIStartsWith(twice[5..], ".jpeg");
    var gif := "ritratto.gif";
    assert gif[8..] == ".gif" && gif[7..] == "o.gif";
    assert !CIStartsWith(gif[8..], ".jpg") && !CIStartsWith(gif[8..], ".png");
    assert !CIStartsWith(gif[7..], ".jpeg") && !CIStartsWith(gif[7..], ".webp");
  }

  /** The link of an entry's image under `base`. */
  function Href(image: Option<string>, base: string): (href: string)
    ensures EndsWith(href, ".jpg")
  {
    var file := ImageStem(OrEmpty(image)) + ".jpg";
    EndsWithConcat(ImageStem(OrEmpty(image)), ".jpg");
    PosixJoinEnding(base, file, ".jpg");
    PosixJoin(base, file)
  }

  /** With a plain base and a plain image name the link is the base, a slash,
      the stem and `.jpg`: `/rhymil/ordine-dei-maghi/merlino.jpg`. */
  lemma {:induction false} HrefPlain(segs: seq<string>, image: string)
    requires |segs| >= 1 && forall k :: 0 <= k < |segs| ==> PlainSegment(segs[k])
    requires image != "" && NoChar(image, '/')
    ensures Href(Some(image), "/" + Join(segs, "/")) == "/" + Join(segs, "/") + "/" + ImageStem(image) + ".jpg"
  {
    var name := ImageStem(image) + ".jpg";
    assert NoChar(name, '/') by {
      forall i | 0 <= i < |name| ensures name[i] != '/' {
        if i < |ImageStem(image)| {
          assert name[i] == image[i];
        }
      }
    }
    assert name[|name| - 1] == 'g';
    PosixJoinPlain(segs, name);
  }

  /** The fixed text around the holes of the anchor template (split where a
      proof needs to see where a gap begins or ends). */
  const AnchorGaps: seq<string> := [
    "\n  <a href=\"",
    "\"" + " data-pswp-width=\"1200\" data-pswp-height=\"750\" title=\"",
    "\">\n    <img src=\"",
    "\" width=\"150\" alt=\"",
    "\" loading=\"lazy\" />\n    <span class=\"pswp-caption-content\">\n      <span class=\"myimage-name\">",
    "</span>\n      <span class=\"myimage-owner\">- ",
    "</span><br />\n      <span class=\"myimage-desc\">",
    "</span>\n    </span>\n  " + "</a>"
  ]

  /** What fills the anchor's holes, in order: the link, the name (title),
      the link again, the name (alt), the name (caption), the owner and the text. */
  function AnchorHoles(item: Item, base: string): seq<string> {
    var href := Href(item.image, base);
    var name := EscapeHtml(OrEmpty(item.name));
    [href, name, href, name, name, EscapeHtml(OrEmpty(item.owner)), EscapeHtml(OrEmpty(item.text))]
  }

  /** `anchorFor(item, baseHref)`: the template filled in. The link, the
      escaped name three times, the escaped owner and the escaped text appear
      in that order; each free-text hole is escaped and unescapes to the field. */
  function AnchorFor(item: Item, base: string): (a: string)
    ensures Follows(a, AnchorHoles(item, base))
    ensures StartsWith(a, "\n  <a href=\"" + Href(item.image, base) + "\"")
    ensures EndsWith(a, "</a>")
  {
    AnchorFacts(AnchorHoles(item, base));
    Interleave(AnchorGaps, AnchorHoles(item, base))
  }

  lemma AnchorFacts(holes: seq<string>)
    requires |holes| == 7
    ensures Follows(Interleave(AnchorGaps, holes), holes)
    ensures StartsWith(Interleave(AnchorGaps, holes), AnchorGaps[0] + holes[0] + "\"")
    ensures EndsWith(Interleave(AnchorGaps, holes), "</a>")
  {
    var a := Interleave(AnchorGaps, holes);
    FollowsInterleave(AnchorGaps, holes);
    assert AnchorGaps[1][..1] == "\"";
    InterleaveStarts(AnchorGaps, holes, "\"");
    InterleaveEnds(AnchorGaps, holes);
    assert AnchorGaps[7] == "</span>\n    </span>\n  " + "</a>";
    EndsWithConcat("</span>\n    </span>\n  ", "</a>");
    EndsWithTrans(a, AnchorGaps[7], "</a>");
  }

  /** The free-text holes of an anchor are escaped and give back the entry's
      fields: nothing the entry says can open or close a tag or an attribute. */
  lemma AnchorHolesEscaped(item: Item, base: string)
    ensures AnchorHoles(item, base)[3] == AnchorHoles(item, base)[1] == AnchorHoles(item, base)[4]
    ensures WellEscaped(AnchorHoles(item, base)[1])
    ensures WellEscaped(AnchorHoles(item, base)[5]) && WellEscaped(AnchorHoles(item, base)[6])
    ensures Unescape(AnchorHoles(item, base)[1]) == OrEmpty(item.name)
    ensures Unescape(AnchorHoles(item, base)[5]) == OrEmpty(item.owner)
    ensures Unescape(AnchorHoles(item, base)[6]) == OrEmpty(item.text)
  {
    var holes := AnchorHoles(item, base);
    var name, owner, text := OrEmpty(item.name), OrEmpty(item.owner), OrEmpty(item.text);
    assert holes[1] == EscapeHtml(name) && holes[3] == holes[1] && holes[4] == holes[1];
    assert holes[5] == EscapeHtml(owner) && holes[6] == EscapeHtml(text);
  }

  /** The anchors of a list of entries, in the list's order. */
  function Anchors(items: seq<Item>, base: string): (anchors: seq<string>)
    ensures |anchors| == |items|
    ensures forall k :: 0 <= k < |items| ==> anchors[k] == AnchorFor(items[k], base)
  {
    seq(|items|, k requires 0 <= k < |items| => AnchorFor(items[k], base))
  }

  /** `(list || []).map(...)`: an absent list maps to nothing; a truthy list
      that is not an array has no `map` and throws, which is `None`. */
  function Entries(l: Listing): (items: Option<seq<Item>>)
    ensures items.None? <==> l.NotArray?
    ensures l.Array? ==> items == Some(l.items)
    ensures l.Absent? ==> items == Some([])
  {
    match l
    case Absent => Some([])
    case NotArray => None
    case Array(xs) => Some(xs)
  }

  /** The lead paragraph: present exactly when the faction's text is truthy. */
  function Lead(text: Option<string>): (lead: string)
    ensures lead != "" <==> Truthy(text)
    ensures Truthy(text) ==> lead == "<p>" + EscapeHtml(text.value) + "</p>"
  {
    if Truthy(text) then "<p>" + EscapeHtml(text.value) + "</p>" else ""
  }

  /** `section-<slug>`. */
  function SectionId(slug: string): string {
    "section-" + slug
  }

  /** How every generated section begins: a newline, two spaces, and the
      opening tag up to the closing quote of its id. */
  function SectionHead(slug: string): string {
    "\n  <section id=\"" + SectionId(slug) + "\""
  }

  /** The fixed text around the holes of the section template (split as the
      anchor's). */
  const SectionGaps: seq<string> :=
    [
      "\n  <section id=\"section-",
      "\"" + " class=\"panel-section\">\n    <header class=\"major\">\n      ",
      "\n    </header>\n    <div class=\"pswp-gallery\" id=\"gallery--",
      "\">\n      ",
      "\n      ",
      "\n    </div>\n  " + "</section>"
    ]

  /** `buildSection(data, { slug, baseHref })`. It fails when either list is a
      truthy non-array. Otherwise the section starts with its id, ends with
      `</section>`, and holds the lead and then an anchor for each player and
      each master, in the lists' order. */
  function BuildSection(data: Record, slug: string, base: string): (r: Option<string>)
    ensures r.Some? <==> !data.players.NotArray? && !data.masters.NotArray?
    ensures r.Some? ==> StartsWith(r.value, SectionHead(slug))
    ensures r.Some? ==> EndsWith(r.value, "</section>")
    ensures r.Some? ==> |r.value| >= |SectionHead(slug)| + |"</section>"|
    ensures r.Some? ==> Follows(r.value, [Lead(data.text)]
                          + Anchors(Entries(data.players).value, base)
                          + Anchors(Entries(data.masters).value, base))
  {
    match (Entries(data.players), Entries(data.masters))
    case (Some(ps), Some(ms)) =>
      var lead := Lead(data.text);
      var players := Anchors(ps, base);
      var masters := Anchors(ms, base);
      var holes := [slug, lead, slug, Join(players, "\n"), Join(masters, "\n")];
      var s := Interleave(SectionGaps, holes);
      SectionFacts(s, slug, lead, players, masters);
      Some(s)
    case _ => None
  }

  lemma SectionFacts(s: string, slug: string, lead: string, players: seq<string>, masters: seq<string>)
    requires s == Interleave(SectionGaps, [slug, lead, slug, Join(players, "\n"), Join(masters, "\n")])
    ensures StartsWith(s, SectionHead(slug))
    ensures EndsWith(s, "</section>")
    ensures |s| >= |SectionHead(slug)| + |"</section>"|
    ensures Follows(s, [lead] + players + masters)
  {
    var holes := [slug, lead, slug, Join(players, "\n"), Join(masters, "\n")];
    SectionGapsEnd();
    SectionLength(s, slug, holes);
    InterleaveEndsWith(SectionGaps, holes, "</section>");
    SectionStarts(s, slug, holes);
    SectionFollows(s, holes, lead, players, masters);
  }

  lemma SectionLength(s: string, slug: string, holes: seq<string>)
    requires |holes| == 5 && holes[0] == slug && s == Interleave(SectionGaps, holes)
    ensures |s| >= |SectionHead(slug)| + |"</section>"|
  {
    SectionGapsStart(slug);
    assert s == SectionGaps[0] + slug + Interleave(SectionGaps[1..], holes[1..]);
    InterleaveOuter(SectionGaps[1..], holes[1..]);
    assert |SectionGaps[5]| >= 10 by {
      EndsWithConcat("\n    </div>\n  ", "</section>");
    }
    assert |SectionGaps[1]| >= 1;
  }

  lemma SectionGapsEnd()
    ensures EndsWith(SectionGaps[5], "</section>")
  {
    EndsWithConcat("\n    </div>\n  ", "</section>");
  }

  lemma SectionStarts(s: string, slug: string, holes: seq<string>)
    requires |holes| == 5 && holes[0] == slug && s == Interleave(SectionGaps, holes)
    ensures StartsWith(s, SectionHead(slug))
  {
    SectionGapsStart(slug);
    InterleaveStarts(SectionGaps, holes, "\"");
  }

  lemma SectionGapsStart(slug: string)
    ensures StartsWith(SectionGaps[1], "\"")
    ensures SectionHead(slug) == SectionGaps[0] + slug + "\""
  {
    assert SectionGaps[1][..1] == "\"";
    var open := "\n  <section id=\"";
    assert open + "section-" == SectionGaps[0];
    assert SectionHead(slug) == (open + "section-") + slug + "\"";
  }

  lemma SectionFollows(s: string, holes: seq<string>, lead: string, players: seq<string>, masters: seq<string>)
    requires |holes| == 5 && holes[1] == lead
    requires holes[3] == Join(players, "\n") && holes[4] == Join(masters, "\n")
    requires s == Interleave(SectionGaps, holes)
    ensures Follows(s, [lead] + players + masters)
  {
    FollowsInterleave(SectionGaps, holes);
    FollowsOne(lead);
    FollowsJoin(players, "\n");
    FollowsJoin(masters, "\n");
    var subs := [[], [lead], [], players, masters];
    forall k | 0 <= k < 5 ensures Follows(holes[k], subs[k]) {
    }
    FollowsRefine(s, holes, subs);
    assert subs[4..] == [masters] && subs[4..][1..] == [];
    assert Flatten(subs[4..]) == masters;
    assert subs[3..][1..] == subs[4..];
    assert Flatten(subs[3..]) == players + masters;
    assert subs[2..][1..] == subs[3..];
    assert Flatten(subs[2..]) == players + masters;
    assert subs[1..][1..] == subs[2..];
    assert Flatten(subs[1..]) == [lead] + (players + masters);
    assert Flatten(subs) == [lead] + players + masters;
  }
}
