# Rhymil page generators in Dafny

The Rhymil website has two Node scripts that build its faction pages from one
JSON file per faction:

- `generateRhymil.js` reads a page (`index.html`) and upserts one
  `<section id="section-<slug>">` per faction into it. For each faction:
  - it reads the faction's JSON file with a tolerant parser, `loadJsonLoose`;
  - it renders the lead paragraph and one gallery anchor per player and per
    master (`buildSection`, `anchorFor`);
  - it splices the section into the page (`upsertSection`).

  Splicing replaces the first existing block with that id. Otherwise it inserts
  the block after the `section-docs` block, or at the start of
  `.panel-content`, or before `</body>`, or at the end of the page. The command
  line (`parseArgs`) gives the site root, from which each faction's image base
  link is derived.
- `rhymil/_generate.js` writes one complete page per faction
  (`buildHtml`, `articleHTML`) after its own tolerant read
  (`readJsonTolerant`). It counts successes and warnings.

The model has one module per concern:

| module | what it holds |
|---|---|
| `Text` | JavaScript whitespace, prefix tests and case-insensitive search; the "parts appear in order" predicate `Follows` |
| `Html` | `escapeHtml`, as a five-replace chain, with a per-character definition and an unescaper as its partners |
| `Faction` | the records after `JSON.parse`, and JavaScript truthiness |
| `LooseJson` | the text passes of `loadJsonLoose` |
| `PosixPath` | `path.posix.join`, which `anchorFor` uses |
| `Markup` | `titleFromSlug`, `anchorFor` and `buildSection` |
| `Splice` | `upsertSection`: the regular-expression matches it relies on, with proofs about where the fragment lands and how many openings the page holds |
| `Cli` | `parseArgs` and the `baseRoot`/`baseHref` normalisation |
| `GenerateRhymil` | the `main` loop of generateRhymil.js |
| `PageGen` | rhymil/_generate.js |

File reading, writing and `JSON.parse` are parameters. The file system is a
map from each faction to what reading it gives: missing, unparsable, or a
record.

Where the code's behaviour is surprising, the model follows the code:

- **Re-running is not byte-identical.** Re-splicing a section replaces the
  old block from its `<section` tag onwards. The new fragment begins with a
  line break and two spaces, and the whitespace in front of the old block
  stays. So every run adds that whitespace once more. The model proves only
  that the number of `<section id="section-<slug>"` openings does not grow.
- **A malformed list aborts the whole run.** A faction whose `players` or
  `masters` is truthy but not an array makes `buildSection` throw. The
  exception leaves `main`, and the process exits with code 1 without writing
  the page. This is `GenerateRhymil.Step` returning `None`.
- **A `null` document is fatal in one script and a warning in the other.**
  A faction file holding `null` parses, and then `buildSection` reads
  `data.text` from it and throws, so generateRhymil.js exits with code 1.
  rhymil/_generate.js reads `data.name` inside its `try` and counts the
  faction as a warning.
- **A bare path option ends the run.** A `--dir`, `--html` or `--out` with
  no value after it binds `true`. `fs.existsSync(true)` is false, and
  `path.join` and `fs.writeFileSync` throw on it, so the script exits with
  code 1.
- **A `//` inside a string value is cut like a comment.** `loadJsonLoose`
  strips from any `//` to the end of its line, so a URL in a field breaks
  the file.

## Model

| member | source | states |
|---|---|---|
| Html.EscapeHtml | generateRhymil.js:39-46 | The replace chain, `&` first, equals escaping each character on its own. Its output is well escaped: no raw `< > " '`, and every `&` starts one of the five entities. Unescaping it gives back the input. It is never shorter than the input, and it is the identity exactly when the input holds no reserved character. |
| Html.EscapeHtmlPerChar | generateRhymil.js:39-46 | The five global replaces, applied in the source's order, agree with the per-character escape on every string. |
| Html.EscapedIsWellEscaped | generateRhymil.js:39-46 | Per-character escaping leaves no raw `<`, `>`, `"` or `'`, and every `&` begins an entity. |
| Html.UnescapeEscaped | generateRhymil.js:39-46 | Unescaping an escaped string gives back the string. |
| Html.EscapedLength | generateRhymil.js:39-46 | Escaping never shortens a string. It is the identity exactly on strings with no reserved character, and it strictly lengthens every other string. |
| Html.WellEscapedAt | generateRhymil.js:39-46 | At any position of a well-escaped string there is no raw `< > " '`, and an `&` there begins an entity. |
| Cli.ParseArgs | generateRhymil.js:26-37 | The loop, which skips `argv[0..1]` and steps past a consumed value, returns the bindings of the scan folded into a map in order. A later binding of a key overwrites an earlier one. |
| Cli.ParsedLast | generateRhymil.js:26-37 | A key is in the parsed arguments exactly when the scan bound it. Its value is the one from the last binding. |
| Cli.AssignLast | generateRhymil.js:33 | Assigning bindings in order leaves each key with its last binding, and leaves the other keys as they were. |
| Cli.BindingsSound | generateRhymil.js:28-33 | Every binding comes from a `--key` token. A bound value is the token right after it, which is neither empty nor an option. |
| Cli.OptionWithValue | generateRhymil.js:30-33 | `--key v`, where `v` is non-empty and not an option, binds `v` and consumes it. |
| Cli.OptionWithoutValue | generateRhymil.js:30-33 | `--key` binds `true` when it is the last token or when it is followed by an empty token or another option. |
| Cli.BareToken | generateRhymil.js:28-30 | A bare token at the front of the scan binds nothing. |
| Cli.BareTokenIgnored | generateRhymil.js:28-34 | Removing a bare token that does not follow an option leaves the bindings unchanged. |
| Cli.ParseArgsExample | generateRhymil.js:26-37 | `--dir ./rhymil --dir "" --dir` parses to `dir: true`: a later flag overwrites an earlier value, and an empty token is not a value. |
| Cli.BaseRootArg | generateRhymil.js:141 | An absent `baseRoot` gives `rhymil`, a bare `--baseRoot` gives `"true"`, and a non-empty value gives itself. |
| Cli.TrimSlashes | generateRhymil.js:141 | Removing the leading and the trailing run of slashes removes only slashes, and leaves none at either end. |
| Cli.TrimSlashesUnique | generateRhymil.js:141 | Any string wrapped in runs of slashes trims back to itself, provided it neither begins nor ends with a slash. |
| Cli.TrimSlashesIdempotent | generateRhymil.js:141 | Trimming slashes twice is trimming them once. |
| Cli.BaseRoot | generateRhymil.js:141 | The site root has no slash at either end, and it defaults to `rhymil`. |
| Cli.CollapseSlashes | generateRhymil.js:175 | `replace(/\/{2,}/g, '/')` keeps every non-slash character in order. It leaves no `//`, it is the identity on text without `//`, and it keeps the first character. |
| Cli.CollapseSlashesSqueezes | generateRhymil.js:175 | The replace equals a reference that drops every `/` another `/` follows: each maximal run of slashes becomes one `/`, and every other character stays where it was. |
| Cli.BaseHref | generateRhymil.js:175 | The base link starts with `/` and holds no `//`. |
| Cli.BaseHrefPlain | generateRhymil.js:175 | For a trimmed root without `//` and a slug without `/`, the base link is `/<root>/<slug>`, or `/<slug>` when the root is empty. |
| Markup.TitleFromSlug | generateRhymil.js:48-52 | Keeps the slug's length. Each character becomes a space if it is `-`. Otherwise it is upper-cased when it is a word character at a word boundary, and kept as it is otherwise. |
| Markup.CapitalizeWordsAt | generateRhymil.js:51 | `replace(/\b\w/g, toUpperCase)` upper-cases exactly the word characters that do not follow a word character. |
| Markup.TitleFromSlugAt | generateRhymil.js:48-52 | The two replaces in sequence give the characterisation above. |
| Markup.TitleFromSlugExample | generateRhymil.js:48-52 | `ordine-dei-maghi` becomes `Ordine Dei Maghi`. |
| Markup.ImageStem | generateRhymil.js:66 | Removes a suffix only, and only one of `.jpg`, `.jpeg`, `.png`, `.webp` in any case. It removes one exactly when such a suffix is there. |
| Markup.ImageStemExamples | generateRhymil.js:66 | Case does not matter, only the last extension goes, and other extensions stay. |
| Markup.Href | generateRhymil.js:66-67 | The image link always ends in `.jpg`. |
| Markup.HrefPlain | generateRhymil.js:66-67 | Under a plain base the link is the base, `/`, the stem and `.jpg`. |
| PosixPath.PosixJoinPlain | generateRhymil.js:67 | `path.posix.join` of an absolute base of plain segments and a plain name puts a single `/` between them. |
| PosixPath.PosixJoinEnding | generateRhymil.js:67 | Joining keeps the ending of the last part when that ending has no `/` and does not end in `.`. |
| Markup.AnchorFor | generateRhymil.js:65-81 | The anchor begins with `<a href="` and the image link, and ends with `</a>`. The link, the escaped name (three times), the escaped owner and the escaped text appear in that order. |
| Markup.AnchorHolesEscaped | generateRhymil.js:68-78 | Name, owner and text reach the anchor only escaped, and each unescapes to the field, or to `''` when the field is missing. |
| Markup.Anchors | generateRhymil.js:88-89 | One anchor per entry, in the list's order. |
| Markup.Entries | generateRhymil.js:88-89 | A missing list is empty and an array is its entries. A truthy non-array fails, because it has no `map`. |
| Markup.Lead | generateRhymil.js:87 | The lead paragraph is present exactly when the faction's text is truthy, and it holds that text escaped. |
| Markup.BuildSection | generateRhymil.js:83-100 | It fails exactly when a list is a truthy non-array. Otherwise the section begins `\n  <section id="section-<slug>"` and ends with `</section>`. It holds the lead, then each player's anchor, then each master's, in order. |
| LooseJson.StripBom | generateRhymil.js:57 | A leading U+FEFF is dropped, and nothing else changes. |
| LooseJson.LineEnd | generateRhymil.js:58 | Where `.*$` (multiline) stops: at the first line terminator, or at the end. |
| LooseJson.StripLineCommentsSpec | generateRhymil.js:58 | After the pass no `//` is left, and every line terminator is kept in order. |
| LooseJson.StripLineCommentsKeeps | generateRhymil.js:58 | Text without `//` passes through unchanged. |
| LooseJson.StripLineCommentsFirst | generateRhymil.js:58 | The text before the first `//` is kept, everything from it to the end of its line is dropped, and the pass goes on after that. |
| LooseJson.StripBlockCommentsSpec | generateRhymil.js:59 | Text with no `/*` passes through, and the pass never lengthens its input. |
| LooseJson.StripBlockCommentsFirst | generateRhymil.js:59 | With `k` the first `/*` and `j` the first `*/` at or after `k + 2`, the result is the text before `k` followed by the pass applied after `j + 2`: the lazy match removes exactly that comment. |
| LooseJson.StripBlockCommentsUnclosed | generateRhymil.js:59 | An opener with no `*/` after it is not a match: the text is kept whole. |
| LooseJson.CloseAfterSpace | generateRhymil.js:60 | `\s*[}\]]` at the front: when it matches, its length ends on a `}` or `]` after spaces only. When it does not, every `}` or `]` in the text has a non-space before it. |
| LooseJson.StripTrailingCommasDropsCommas | generateRhymil.js:60 | The replace removes exactly the commas that are followed by optional spaces and a closing bracket, and keeps everything else. |
| LooseJson.DropClosingCommasKeeps | generateRhymil.js:60 | Only commas are removed, so the non-comma characters are unchanged. The result is never longer. |
| LooseJson.NormalizeLooseKeeps | generateRhymil.js:55-61 | Text with no leading BOM, no `//`, no `/*` and no trailing comma reaches `JSON.parse` unchanged. |
| LooseJson.StripTrailingCommasSinglePass | generateRhymil.js:60 | `,,}` becomes `,}` (one pass, not a fixpoint), and `[1,\n]` becomes `[1\n]` (the spaces stay). |
| Splice.FirstMatch | generateRhymil.js:104-107 | The regular-expression search returns the leftmost start where the opening tag matches. The match ends at the nearest closer after that opening. When it returns nothing, there is no match at all. |
| Splice.OpenLengthMatches | generateRhymil.js:104 | The computed opening is exactly `<section\s+id="ID"`, matched case-insensitively. |
| Splice.MatchEndUnique | generateRhymil.js:104 | A start has at most one lazy match end. |
| Splice.LeftmostFound | generateRhymil.js:104-107 | The search finds the leftmost match. |
| Splice.NoMatchNotFound | generateRhymil.js:106 | When `test` fails, the search finds nothing. |
| Splice.SubstituteLiteral | generateRhymil.js:107 | A replacement string without `$` is inserted literally. |
| Splice.SubstituteExample | generateRhymil.js:107 | `$&` inserts the match and `$$` inserts a `$`. |
| Splice.UpsertReplaces | generateRhymil.js:104-108 | When the id exists, only its first block, up to the nearest `</section>`, is replaced. The text before and after the block is kept. |
| Splice.UpsertAfterDocs | generateRhymil.js:111-114 | Otherwise the fragment goes after the first `section-docs` block, preceded by a blank line. |
| Splice.UpsertIntoPanel | generateRhymil.js:117-120 | Otherwise it goes right after the first `<div class="panel-content"…>`, between line breaks. |
| Splice.UpsertBeforeBody | generateRhymil.js:123-126 | Otherwise the text before the first `</body>` and the text after it are kept, and the match is replaced by the fragment, a line break and `</body>` in lower case, with the fragment's `$`-patterns expanded as `String.replace` does. A fragment without `$` is inserted literally. |
| Splice.UpsertAppends | generateRhymil.js:129 | Otherwise it is appended, between line breaks. |
| Splice.UpsertPlaces | generateRhymil.js:103-130 | On every path a fragment without `$` occurs in the result. |
| Splice.UpsertLeavesBlock | generateRhymil.js:103-130 | After an upsert of a keyed fragment without `$`, the page holds a block with its id. |
| Splice.InsertOpenings | generateRhymil.js:110-129 | On each insertion path, the page gains exactly the openings of the id that a keyed fragment without `$` holds. |
| Splice.ReplaceOpenings | generateRhymil.js:104-108 | Replacing the first block by a keyed fragment without `$` loses at least the one opening that block began with. |
| Splice.ReupsertDoesNotGrow | generateRhymil.js:104-108 | Upserting the same fragment again does not add an opening of the id. The fragment must be keyed, hold at most one opening and hold no `$`. |
| Splice.OpeningsConcat | generateRhymil.js:104 | Openings add up across a join that no opening tag crosses. |
| Faction.OrDefault | generateRhymil.js:68-70 | JavaScript's `or` on a field and a default: the field when it is truthy, the default otherwise. The anchor fields default to `''`, and a page title to `Titolo`. |
| Faction.LoadOf | generateRhymil.js:161-173 | A faction without a file is "not found". |
| GenerateRhymil.Step | generateRhymil.js:160-187 | One pass fails exactly when the document is `null` or one of its lists is a truthy non-array. A missing or unparsable file leaves the page as it is. |
| GenerateRhymil.Generate | generateRhymil.js:133-196 | No page, or a bare `--html`, `--dir` or `--out`, means exit 1. Otherwise the outcome is the fold of the passes over the seven slugs in order, starting from the page, with the root taken from the command line. |
| GenerateRhymil.Passes | generateRhymil.js:160-186 | The `for` loop computes that fold. With a bare `--dir` it fails on the first faction. |
| GenerateRhymil.BareDirExample | generateRhymil.js:134-161 | `--dir` as the last token binds `true`, which ends the run. |
| GenerateRhymil.RunFails | generateRhymil.js:176-196 | The run writes nothing exactly when some faction's section cannot be built. |
| GenerateRhymil.MissingLikeMalformed | generateRhymil.js:162-173 | A missing file and an unparsable one lead to the same result. |
| GenerateRhymil.RunWithoutFiles | generateRhymil.js:160-189 | With no faction files, the page is written back unchanged. |
| GenerateRhymil.SectionKeyed | generateRhymil.js:90-99 | Every section built is keyed: spaces, the opening tag of its id, and `</section>` at its end. |
| GenerateRhymil.StepTwice | generateRhymil.js:184-185 | Running a faction's pass again on its own output adds no opening of its section, provided its section holds at most one opening and no `$`. |
| GenerateRhymil.SectionIdPlain | generateRhymil.js:184 | `section-<slug>` holds no angle bracket when the slug holds none. |
| PageGen.Trim | rhymil/_generate.js:21 | `trim()` returns a slice that neither begins nor ends with a space, and everything cut off is space. |
| PageGen.TrimIdempotent | rhymil/_generate.js:21 | Trimming twice is trimming once. |
| PageGen.ReadJsonTolerant | rhymil/_generate.js:20-25 | The three reassignments give the comma pass of the trimmed text, so the BOM step never changes anything. The result keeps the non-space characters of the other script's comma pass, and it is never longer than the input. |
| PageGen.TightCommasDrops | rhymil/_generate.js:23 | `/,\s*([}\]])/g → '$1'` equals a reference that drops each comma followed by spaces and a closing bracket, together with those spaces, and keeps every other character. |
| PageGen.TightCommasAgree | rhymil/_generate.js:23 | This pass and the comma pass of `loadJsonLoose` leave the same non-space characters, and this one is never longer. |
| PageGen.TightCommasExamples | rhymil/_generate.js:23 | `[1,\n]` becomes `[1]`, where the other script gives `[1\n]`. `,,}` becomes `,}`. |
| PageGen.EscapeField | rhymil/_generate.js:27-34 | The `replaceAll` chain equals the other script's `escapeHtml` on the same text. A missing field is `''`. The output is well escaped and unescapes to the field. |
| PageGen.OwnerHtml | rhymil/_generate.js:38 | The owner's span is present exactly when the owner is truthy, and it holds the escaped owner. |
| PageGen.ArticleHtml | rhymil/_generate.js:36-48 | The article begins with `<article>` and ends with `</article>`. In order it holds: the link to `./<dir>/<image>.png`; the image `./<dir>/<image>.jpg`, with a missing image as `''`; the heading with the escaped name and the owner's span; and the paragraph with the escaped text. |
| PageGen.Articles | rhymil/_generate.js:144-145 | One article per entry, in the list's order. |
| PageGen.BuildHtml | rhymil/_generate.js:50-120 | The page begins `<!DOCTYPE HTML>` and ends `</html>\n`. It holds the escaped title in `<title>` and then in `<h1>`, then the escaped intro in `<p>`, then inside `#thumbnails` the players' markup followed by the masters'. |
| PageGen.ItemsOf | rhymil/_generate.js:141-142 | Anything that is not an array counts as no entries. |
| PageGen.ListsAgree | rhymil/_generate.js:141-142 | The two scripts read arrays and missing lists alike. On a truthy non-array, one fails and the other sees no entries. |
| PageGen.PageOrder | rhymil/_generate.js:139-152 | A faction's page holds its title twice, then its intro, then an article per player and then per master, in the lists' order. |
| PageGen.OkWarnTotal | rhymil/_generate.js:124-163 | Each faction is counted exactly once, as a success or a warning. |
| PageGen.PagesKeys | rhymil/_generate.js:126-161 | A page is written exactly for the factions with a record. |
| PageGen.PagesValues | rhymil/_generate.js:126-161 | Each page written is that faction's page, built from its record. |
| PageGen.Generate | rhymil/_generate.js:123-164 | `ok` counts the factions with a record and `warn` counts the rest, so `ok + warn` is 7. The pages written are those above. |

## Left out

- File-system effects are parameters or are dropped:
  - existence checks, reads and writes;
  - the `.bak` backup (generateRhymil.js:153-158);
  - console output and `process.exit`.
- The values of `--dir`, `--html` and `--out` only locate files, so only whether each is given bare (`true`) is modelled.
- A `writeFileSync` that throws in rhymil/_generate.js, which the script counts as a warning: the model assumes every write succeeds.
- `JSON.parse` itself is not modelled. Each faction's file gives "not found", "malformed" or a record with the fields the generators read.
- Field values that are not strings (`null`, numbers, objects), and entries that are not objects, are not modelled:
  - `String(null)` would render as `null`;
  - destructuring a `null` entry would throw.
- `Number(...)` of `--width`, `--height` and `--thumb` (generateRhymil.js:142-144) is not modelled: `anchorFor` ignores these values and hard-codes 1200, 750 and 150.
- The general regular-expression engine is not modelled; the model has only the four patterns `upsertSection` uses, as explicit searches.
  - The section id is taken as literal text. The generator's slugs hold only letters, digits and `-`.
  - Case-insensitive matching is ASCII upper-case folding, which is exact for these ASCII patterns without the `u` flag.
- Strings are sequences of Unicode scalar values. UTF-16 surrogate pairs are not modelled.
- `parseArgs` keys that name `Object.prototype` members (`__proto__`, for instance) are treated like any other key.
- Splice.ReupsertDoesNotGrow: the re-run bound is stated for fragments without `$`, because `String.replace` expands `$`-patterns in a replacement string. `Substitute` models those patterns, but the bound is not proved for them.
- Splice.UpsertPlaces: stated for fragments without `$`, for the same reason.
- Splice.UpsertLeavesBlock: stated for fragments without `$`, for the same reason.
- Splice.InsertOpenings: stated for fragments without `$`, for the same reason.
- Splice.ReplaceOpenings: stated for fragments without `$`, for the same reason.
- GenerateRhymil.StepTwice: states that the count of openings does not grow, not byte-identical output, because the code re-adds the fragment's leading whitespace on each run.
- GenerateRhymil.StepTwice: takes as given that the built section holds at most one opening of its id and no `$`. The model does not prove this of `BuildSection`'s output. Reading the template, a section meets both conditions when no slug, root or entry field holds `$` or `<`, but that proof needs the template text checked character by character, and it is not made.
- The HTML of rhymil/_generate.js is not parsed. The model says where each part appears in the text, not how a browser nests it (its footer template never closes `<footer>`).
