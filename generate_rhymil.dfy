/**
 * `main` of generateRhymil.js: read the command line and the page, then, for
 * each faction in a fixed order, build the faction's section from its JSON
 * file and splice it into the page; the page is written once, at the end.
 *
 * The file system is a parameter: whether the page exists and what it holds,
 * and for each faction what reading and parsing its file gives.
 */
module GenerateRhymil {
  import opened Wrappers
  import opened Text
  import opened Faction
  import opened Markup
  import opened Splice
  import opened Cli

  /** The factions, in the order their sections are upserted. */
  const Targets: seq<string> := [
    "fratellanza-dei-pirati",
    "ordine-dei-cavalieri",
    "ordine-dei-paladini",
    "ordine-dei-maghi",
    "ordine-clericale",
    "terre-barbariche",
    "stato-del-popolo-libero"
  ]

  /** How a run ends: with exit code 1 and nothing written, or by writing
      this page. */
  datatype Outcome = Failed | Written(page: string)

  /** A faction whose `buildSection` throws: the document is `null`, so
      reading `data.text` throws, or one of its lists is truthy but not an
      array. The exception is not caught inside the loop. */
  predicate Breaks(load: Load) {
    load.Null? || (load.Loaded? && (load.data.players.NotArray? || load.data.masters.NotArray?))
  }

  /** One pass of the loop for `slug`, on the page so far. A missing file or
      one `JSON.parse` rejects is skipped; `None` ends the whole run. */
  function Step(html: string, load: Load, root: string, slug: string): (r: Option<string>)
    ensures r.None? <==> Breaks(load)
    ensures load.NotFound? || load.Malformed? ==> r == Some(html)
  {
    match load
    case Loaded(data) =>
      (match BuildSection(data, slug, BaseHref(root, slug))
       case Some(section) => Some(UpsertSection(html, SectionId(slug), section))
       case None => None)
    case Null => None
    case _ => Some(html)
  }

  /** The loop over `slugs`, from the page `html`. */
  function Run(html: string, files: map<string, Load>, root: string, slugs: seq<string>): Option<string>
    decreases |slugs|
  {
    if slugs == [] then Some(html)
    else match Step(html, LoadOf(files, slugs[0]), root, slugs[0])
      case None => None
      case Some(next) => Run(next, files, root, slugs[1..])
  }

  function Finish(r: Option<string>): Outcome {
    match r
    case None => Failed
    case Some(page) => Written(page)
  }

  /** A path option given bare (`--dir` with no value after it) is `true`,
      not a path. */
  predicate BarePath(args: map<string, ArgValue>, key: string) {
    key in args && args[key].Flag?
  }

  /** The options whose bare form ends the run: `fs.existsSync(true)` is
      false, so a bare `--html` is a missing page; `path.join(true, …)`
      throws before the first faction; `fs.writeFileSync(true, …)` throws
      when the page is written. */
  predicate BadPaths(args: map<string, ArgValue>) {
    BarePath(args, "html") || BarePath(args, "dir") || BarePath(args, "out")
  }

  /** `main()`: `page` is the text of the page file, `None` when it does not
      exist. */
  method Generate(argv: seq<string>, page: Option<string>, files: map<string, Load>) returns (out: Outcome)
    ensures page.None? || BadPaths(Parsed(argv)) ==> out == Failed
    ensures page.Some? && !BadPaths(Parsed(argv)) ==>
      out == Finish(Run(page.value, files, BaseRoot(Parsed(argv)), Targets))
  {
    var args := ParseArgs(argv);
    var root := BaseRoot(args);
    if BarePath(args, "html") || page.None? {
      return Failed;
    }
    var html := Passes(page.value, files, root, Targets, BarePath(args, "dir"));
    if html.None? {
      return Failed;
    }
    if BarePath(args, "out") {
      return Failed;
    }
    return Written(html.value);
  }

  /** The `for` loop of `main` over `slugs`, from the page `page`. With a
      bare `--dir` (`bareDir`), `path.join` throws on the first faction. */
  method Passes(page: string, files: map<string, Load>, root: string, slugs: seq<string>, bareDir: bool)
    returns (r: Option<string>)
    ensures bareDir && slugs != [] ==> r.None?
    ensures !bareDir ==> r == Run(page, files, root, slugs)
  {
    var html := page;
    for k := 0 to |slugs|
      invariant Run(page, files, root, slugs) == Run(html, files, root, slugs[k..])
      invariant k > 0 ==> !bareDir
    {
      if bareDir {
        return None;
      }
      var slug := slugs[k];
      assert slugs[k..][1..] == slugs[k + 1..];
      RunHead(html, files, root, slugs[k..]);
      var load := LoadOf(files, slug);
      if load.NotFound? || load.Malformed? {
        continue;
      }
      if load.Null? {
        return None;
      }
      var section := BuildSection(load.data, slug, BaseHref(root, slug));
      if section.None? {
        return None;
      }
      html := UpsertSection(html, SectionId(slug), section.value);
    }
    return Some(html);
  }

  /** What the first pass of a run does to the rest of it. */
  lemma RunHead(html: string, files: map<string, Load>, root: string, slugs: seq<string>)
    requires slugs != []
    ensures var slug, load := slugs[0], LoadOf(files, slugs[0]);
      && (load.NotFound? || load.Malformed? ==> Run(html, files, root, slugs) == Run(html, files, root, slugs[1..]))
      && (load.Null? ==> Run(html, files, root, slugs).None?)
      && (load.Loaded? && BuildSection(load.data, slug, BaseHref(root, slug)).None? ==> Run(html, files, root, slugs).None?)
      && (load.Loaded? && BuildSection(load.data, slug, BaseHref(root, slug)).Some? ==>
            Run(html, files, root, slugs)
            == Run(UpsertSection(html, SectionId(slug), BuildSection(load.data, slug, BaseHref(root, slug)).value), files, root, slugs[1..]))
  {
  }

  /** `node generateRhymil.js --dir` parses to a bare `dir`. */
  lemma BareDirExample(argv0: string, argv1: string)
    ensures BadPaths(Parsed([argv0, argv1, "--dir"]))
  {
    var argv := [argv0, argv1, "--dir"];
    ParsedLast(argv, "dir");
    assert From(argv, 2) == ["--dir"];
  }

  /** A run fails exactly when some faction's section cannot be built; the
      factions before it are not written either. */
  lemma {:induction false} RunFails(html: string, files: map<string, Load>, root: string, slugs: seq<string>)
    ensures Run(html, files, root, slugs).None? <==>
            exists k :: 0 <= k < |slugs| && Breaks(LoadOf(files, slugs[k]))
    decreases |slugs|
  {
    if slugs != [] {
      var step := Step(html, LoadOf(files, slugs[0]), root, slugs[0]);
      if step.Some? {
        RunFails(step.value, files, root, slugs[1..]);
        assert forall k :: 1 <= k < |slugs| ==> slugs[1..][k - 1] == slugs[k];
        if exists k :: 1 <= k < |slugs| && Breaks(LoadOf(files, slugs[k])) {
          var k :| 1 <= k < |slugs| && Breaks(LoadOf(files, slugs[k]));
          assert Breaks(LoadOf(files, slugs[1..][k - 1]));
        }
      }
    }
  }

  /** A faction whose file is missing and one whose file does not parse are
      treated alike: both are skipped. */
  lemma {:induction false} MissingLikeMalformed(html: string, files: map<string, Load>, root: string, slugs: seq<string>, slug: string)
    ensures Run(html, files[slug := NotFound], root, slugs) == Run(html, files[slug := Malformed], root, slugs)
    decreases |slugs|
  {
    if slugs != [] {
      var a, b := files[slug := NotFound], files[slug := Malformed];
      var s0 := slugs[0];
      if s0 == slug {
        assert LoadOf(a, s0) == NotFound && LoadOf(b, s0) == Malformed;
      } else {
        assert LoadOf(a, s0) == LoadOf(b, s0);
      }
      var step := Step(html, LoadOf(a, s0), root, s0);
      if step.Some? {
        MissingLikeMalformed(step.value, files, root, slugs[1..], slug);
      }
    }
  }

  /** With no faction file at all, the page is written back unchanged. */
  lemma {:induction false} RunWithoutFiles(html: string, root: string, slugs: seq<string>)
    ensures Run(html, map[], root, slugs) == Some(html)
    decreases |slugs|
  {
    if slugs != [] {
      RunWithoutFiles(html, root, slugs[1..]);
    }
  }

  /** The sections the generator builds are keyed fragments: spaces, the
      opening tag of `section-<slug>`, and `</section>` at the end. */
  lemma SectionKeyed(data: Record, slug: string, base: string)
    requires BuildSection(data, slug, base).Some?
    ensures Keyed(BuildSection(data, slug, base).value, SectionId(slug))
  {
    var f := BuildSection(data, slug, base).value;
    HeadIsOpening(slug);
    HeadKeyed(f, SectionId(slug));
  }

  lemma HeadIsOpening(slug: string)
    ensures SectionHead(slug) == "\n  <section " + IdAttr(SectionId(slug))
  {
  }

  /** A faction's pass, done again on the page it produced, does not add an
      opening tag for its section, provided its section has at most one such
      tag and no `$`. */
  lemma StepTwice(html: string, data: Record, root: string, slug: string)
    requires NoChar(slug, '<') && NoChar(slug, '>')
    requires BuildSection(data, slug, BaseHref(root, slug)).Some?
    requires NoChar(BuildSection(data, slug, BaseHref(root, slug)).value, '$')
    requires Openings(BuildSection(data, slug, BaseHref(root, slug)).value, SectionId(slug)) <= 1
    ensures Step(html, Loaded(data), root, slug).Some?
    ensures Step(Step(html, Loaded(data), root, slug).value, Loaded(data), root, slug).Some?
    ensures Openings(Step(Step(html, Loaded(data), root, slug).value, Loaded(data), root, slug).value, SectionId(slug))
         <= Openings(Step(html, Loaded(data), root, slug).value, SectionId(slug))
  {
    var id := SectionId(slug);
    var f := BuildSection(data, slug, BaseHref(root, slug)).value;
    SectionKeyed(data, slug, BaseHref(root, slug));
    SectionIdPlain(slug);
    var once := UpsertSection(html, id, f);
    assert Step(html, Loaded(data), root, slug) == Some(once);
    assert Step(once, Loaded(data), root, slug) == Some(UpsertSection(once, id, f));
    ReupsertDoesNotGrow(html, id, f);
  }

  /** A section id holds an angle bracket only if its slug does. */
  lemma SectionIdPlain(slug: string)
    requires NoChar(slug, '<') && NoChar(slug, '>')
    ensures NoChar(SectionId(slug), '<') && NoChar(SectionId(slug), '>')
  {
    var id := SectionId(slug);
    forall i | 0 <= i < |id| ensures id[i] != '<' && id[i] != '>' {
      if i >= 8 {
        assert id[i] == slug[i - 8];
      }
    }
  }
}
