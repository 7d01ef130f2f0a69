/**
 * The lecture catalog that `build` in build_site.py writes to
 * `lectures.json`: one entry per notebook whose file stem matches the
 * notebook-name pattern, with a summary and an optional quiz link looked up
 * by lecture number, finally sorted by lecture number.
 *
 * The calendar formatting of the date, the title casing and the markdown
 * cleaning are parameters (`Formatters`); the notebook execution that
 * precedes the excerpt is represented by the executed cells themselves.
 */
module Catalog {
  import opened Base
  import Slug
  import Cells
  import Excerpt

  /** `LECTURE_SUMMARIES`: the curated blurb of each lecture number. */
  const LectureSummaries: map<nat, string> := map[
    1 := "Course orientation, environment setup, and expectations for AI-supported coding.",
    2 := "Core Python syntax, data structures, and essential debugging patterns for research scripts.",
    3 := "Control flow design, file handling, and automation techniques for data-driven workflows.",
    4 := "NumPy arrays, vectorisation, and numerical best practices for large astronomical datasets.",
    5 := "Function design, modular organisation, and foundations of object-oriented programming.",
    6 := "Matplotlib workflows, visual diagnostics, and interactive plotting techniques.",
    7 := "LLM API authentication, structured prompting, and cost-aware usage patterns.",
    8 := "Function calling, retrieval-augmented generation, and vector search integrations.",
    9 := "Git and GitHub fundamentals, documentation standards, and GitHub Pages publishing.",
    10 := "Streamlit interface design, state management, and deployment of interactive research tools.",
    11 := "Pandas DataFrames, catalog operations, and data manipulation for astronomical analysis.",
    12 := "GroupBy operations, merging catalogs, pivot tables, and advanced Pandas transformations.",
    13 := "Astroquery database access, Astropy units and coordinates, and catalog cross-matching.",
    14 := "Astropy Time systems, observation planning, visibility calculations, and FITS file handling.",
    15 := "SkyField ephemerides, precise planetary positions, and rise/set/transit calculations.",
    16 := "SciPy interpolation, differentiation, and integration for astronomical time-series data.",
    17 := "Statistical analysis, measurement uncertainty, random variables, and error propagation."
  ]

  /** The address every quiz link starts with. */
  const QuizPrefix: string := "https://www.playlab.ai/project/"

  /** `QUIZ_LINKS`: the quiz of each lecture number that has one. */
  const QuizLinks: map<nat, string> := map[
    2 := QuizPrefix + "cmef7fyyr049hjo0unode4jfp",
    3 := QuizPrefix + "cmej5um0y0bp6jx0uipjwrc4e",
    4 := QuizPrefix + "cmeaywmuo015rlc0uegalyjtm",
    5 := QuizPrefix + "cmex8qs8d06fole0uiw8yk4vf",
    6 := QuizPrefix + "cmf1ur1ba0k6yje0vdb875ll8",
    7 := QuizPrefix + "cmfichs6103zjl50u67eq8opb",
    8 := QuizPrefix + "cmfokigx40oqwow0uauvk1z3p",
    9 := QuizPrefix + "cmf1uyhie0knkhn0uml9sls1c",
    10 := QuizPrefix + "cmfud0fvx0fscnv0udkrqfvj5",
    11 := QuizPrefix + "cmgd0wbkp0vjsp80ufo2go2u8",
    12 := QuizPrefix + "cmgiohn0d0n1gk50ucl7r4v9t",
    13 := QuizPrefix + "cmgpnfltg6uapjy0u7fjnxgis"
  ]

  /** The summary used when neither the table nor the notebook supplies one. */
  const DefaultSummary: string := "Hands-on coding walkthrough."

  // ---------------------------------------------------------------------
  // The notebook-name pattern `^Lecture(\d+)_([A-Za-z0-9_\-]+)_(\d{8})$`
  // ---------------------------------------------------------------------

  /** The literal the pattern starts with. */
  const LecturePrefix: string := "Lecture"

  predicate IsDigit(c: char)
  {
    '0' <= c <= '9'
  }

  predicate AllDigits(s: string)
  {
    forall i :: 0 <= i < |s| ==> IsDigit(s[i])
  }

  /** The character class `[A-Za-z0-9_\-]` of the title group. */
  predicate TitleChar(c: char)
  {
    'A' <= c <= 'Z' || 'a' <= c <= 'z' || IsDigit(c) || c == '_' || c == '-'
  }

  predicate AllTitleChars(s: string)
  {
    forall i :: 0 <= i < |s| ==> TitleChar(s[i])
  }

  /** The three groups the pattern captures: the number, the raw title and the raw date. */
  datatype StemParts = StemParts(digits: string, rawTitle: string, rawDate: string)

  /** Each group holds what its sub-pattern admits. */
  predicate PartsOk(p: StemParts)
  {
    && |p.digits| >= 1 && AllDigits(p.digits)
    && |p.rawTitle| >= 1 && AllTitleChars(p.rawTitle)
    && |p.rawDate| == 8 && AllDigits(p.rawDate)
  }

  /** The stem the groups spell out. */
  function Joined(p: StemParts): string
  {
    LecturePrefix + p.digits + "_" + p.rawTitle + "_" + p.rawDate
  }

  /**
   * The reference reading of the pattern: the stem is the groups joined by
   * the pattern's literals, optionally followed by one newline, which
   * Python's `$` lets through.
   */
  predicate Matches(stem: string, p: StemParts)
  {
    PartsOk(p) && (stem == Joined(p) || stem == Joined(p) + "\n")
  }

  /** The length of the run of decimal digits in `s` that starts at `i`. */
  function DigitRun(s: string, i: nat): (k: nat)
    requires i <= |s|
    ensures i + k <= |s|
    ensures forall j :: i <= j < i + k ==> IsDigit(s[j])
    ensures i + k == |s| || !IsDigit(s[i + k])
    decreases |s| - i
  {
    if i < |s| && IsDigit(s[i]) then 1 + DigitRun(s, i + 1) else 0
  }

  /** Matching the pattern against a stem that must end with the date. */
  function MatchExact(s: string): Option<StemParts>
  {
    if |s| < |LecturePrefix| || s[..|LecturePrefix|] != LecturePrefix then None
    else
      var k := DigitRun(s, 7);
      if k == 0 || |s| < k + 18 || s[7 + k] != '_' || s[|s| - 9] != '_' then None
      else
        var title := s[8 + k..|s| - 9];
        var date := s[|s| - 8..];
        if AllTitleChars(title) && AllDigits(date) then Some(StemParts(s[7..7 + k], title, date))
        else None
  }

  /** `NOTEBOOK_PATTERN.match(stem)`, giving the three groups or `None`. */
  function MatchStem(stem: string): Option<StemParts>
  {
    if stem != [] && stem[|stem| - 1] == '\n' then MatchExact(stem[..|stem| - 1]) else MatchExact(stem)
  }

  /** What `MatchExact` accepts is the groups joined by the literals. */
  lemma MatchExactSound(s: string)
    requires MatchExact(s).Some?
    ensures PartsOk(MatchExact(s).value) && s == Joined(MatchExact(s).value)
  {
    var p := MatchExact(s).value;
    var k := |p.digits|;
    assert s == s[..7] + s[7..7 + k] + [s[7 + k]] + s[8 + k..|s| - 9] + [s[|s| - 9]] + s[|s| - 8..];
  }

  /** The groups joined by the literals are matched, and read back as the same groups. */
  lemma MatchExactJoined(p: StemParts)
    requires PartsOk(p)
    ensures MatchExact(Joined(p)) == Some(p)
  {
    var s := Joined(p);
    var k := |p.digits|;
    assert s[..7] == LecturePrefix;
    assert s[7..7 + k] == p.digits;
    assert s[7 + k] == '_';
    assert forall j :: 7 <= j < 7 + k ==> s[j] == p.digits[j - 7];
    assert DigitRun(s, 7) == k;
    assert s[8 + k..|s| - 9] == p.rawTitle;
    assert s[|s| - 9] == '_';
    assert s[|s| - 8..] == p.rawDate;
  }

  /** A stem matches exactly when it is the groups joined, possibly with a trailing newline. */
  lemma MatchStemSound(stem: string)
    requires MatchStem(stem).Some?
    ensures Matches(stem, MatchStem(stem).value)
  {
    if stem != [] && stem[|stem| - 1] == '\n' {
      MatchExactSound(stem[..|stem| - 1]);
      assert stem == stem[..|stem| - 1] + "\n";
    } else {
      MatchExactSound(stem);
    }
  }

  /** Every stem of the pattern's shape is matched, with its own groups. */
  lemma MatchStemComplete(stem: string, p: StemParts)
    requires Matches(stem, p)
    ensures MatchStem(stem) == Some(p)
  {
    MatchExactJoined(p);
    if stem == Joined(p) {
      assert stem[|stem| - 1] == p.rawDate[7];
    } else {
      assert stem[..|stem| - 1] == Joined(p);
    }
  }

  // ---------------------------------------------------------------------
  // Catalog entries
  // ---------------------------------------------------------------------

  /** The transforms the catalog uses but this model does not define. */
  datatype Formatters = Formatters(
    title: string -> string,  // `_format_title`
    date: string -> string,   // `_format_date`
    clean: string -> string)  // the markdown cleaning inside `_first_markdown_excerpt`

  /** The two lookup tables, by lecture number: curated summaries and quiz links. */
  datatype Tables = Tables(summaries: map<nat, string>, quizLinks: map<nat, string>)

  /** The tables `build` uses. */
  const SiteTables: Tables := Tables(LectureSummaries, QuizLinks)

  /** No curated summary is empty and every quiz link is a quiz address. */
  predicate TablesOk(t: Tables)
  {
    && (forall n :: n in t.summaries ==> t.summaries[n] != "")
    && (forall n :: n in t.quizLinks ==> QuizPrefix <= t.quizLinks[n])
  }

  /**
   * The site tables are well formed, curate lectures 1 to 17 and link
   * quizzes for lectures 2 to 13.
   */
  lemma SiteTablesSpec()
    ensures TablesOk(SiteTables)
    ensures forall n :: n in SiteTables.summaries <==> 1 <= n <= 17
    ensures forall n :: n in SiteTables.quizLinks <==> 2 <= n <= 13
  {
    SummaryKeys();
    QuizKeys();
  }

  /** `LECTURE_SUMMARIES` curates lectures 1 to 17, none with an empty blurb. */
  lemma SummaryKeys()
    ensures forall n :: n in LectureSummaries <==> 1 <= n <= 17
    ensures forall n :: n in LectureSummaries ==> LectureSummaries[n] != ""
  {
  }

  /** `QUIZ_LINKS` covers lectures 2 to 13, each with a quiz address. */
  lemma QuizKeys()
    ensures forall n :: n in QuizLinks <==> 2 <= n <= 13
    ensures forall n :: n in QuizLinks ==> QuizPrefix <= QuizLinks[n]
  {
    forall n | n in QuizLinks
      ensures QuizPrefix <= QuizLinks[n]
    {
      assert QuizLinks[n][..|QuizPrefix|] == QuizPrefix;
    }
  }

  /**
   * A notebook as `build` sees it: its file stem, whether its HTML page
   * already exists, and the cells the notebook runner leaves (read only when
   * the page is built afresh).
   */
  datatype NotebookFile = NotebookFile(stem: string, htmlExists: bool, executed: seq<Cells.Cell>)

  /** One record of `lectures.json`; `quizLink` is `None` when the key is absent. */
  datatype Entry = Entry(
    number: nat,
    title: string,
    date: string,
    slug: string,
    relativePath: string,
    summary: string,
    quizLink: Option<string>)

  /**
   * The summary of lecture `number`: the curated blurb, else (for a page
   * built afresh) the notebook excerpt when it is not empty, else the
   * default.
   */
  function Summary(t: Tables, number: nat, htmlExists: bool, excerpt: string): string
  {
    if number in t.summaries then t.summaries[number]
    else if htmlExists || excerpt == "" then DefaultSummary
    else excerpt
  }

  /** `QUIZ_LINKS.get(number)`, kept only when truthy. */
  function QuizLink(t: Tables, number: nat): Option<string>
  {
    if number in t.quizLinks && t.quizLinks[number] != "" then Some(t.quizLinks[number]) else None
  }

  /** The entry `build` appends for one notebook, or `None` for a name it skips. */
  function EntryFor(t: Tables, nb: NotebookFile, f: Formatters): Option<Entry>
  {
    match MatchStem(nb.stem)
    case None => None
    case Some(p) =>
      MatchStemSound(nb.stem);
      Some(EntryOf(t, nb, f, p))
  }

  /** The entry of a notebook whose stem has the groups `p`. */
  function EntryOf(t: Tables, nb: NotebookFile, f: Formatters, p: StemParts): Entry
    requires PartsOk(p)
  {
    var n := Slug.DecimalValue(p.digits);
    var slug := Slug.Slugify(n, p.rawTitle);
    var excerpt := if nb.htmlExists then "" else Excerpt.ExcerptOf(nb.executed, f.clean);
    Entry(
      n,
      "Lecture " + Slug.Decimal(n) + ": " + f.title(p.rawTitle),
      f.date(p.rawDate),
      slug,
      "lectures/" + slug + ".html",
      Summary(t, n, nb.htmlExists, excerpt),
      QuizLink(t, n))
  }

  /**
   * A curated lecture gets its blurb; any other lecture gets the notebook
   * excerpt when its page is built afresh and the excerpt is not empty, and
   * the default otherwise. No summary is empty.
   */
  lemma SummaryRule(t: Tables, number: nat, htmlExists: bool, excerpt: string)
    requires TablesOk(t)
    ensures Summary(t, number, htmlExists, excerpt) != ""
    ensures number in t.summaries ==> Summary(t, number, htmlExists, excerpt) == t.summaries[number]
    ensures number !in t.summaries && !htmlExists && excerpt != "" ==> Summary(t, number, htmlExists, excerpt) == excerpt
    ensures number !in t.summaries && (htmlExists || excerpt == "") ==> Summary(t, number, htmlExists, excerpt) == DefaultSummary
  {
  }

  /** A lecture gets a quiz link exactly when the table lists it, and the link is a quiz address. */
  lemma QuizLinkRule(t: Tables, number: nat)
    requires TablesOk(t)
    ensures QuizLink(t, number).Some? <==> number in t.quizLinks
    ensures QuizLink(t, number).Some? ==> QuizLink(t, number).value == t.quizLinks[number]
    ensures QuizLink(t, number).Some? ==> QuizPrefix <= QuizLink(t, number).value
  {
  }

  /** What every catalog entry satisfies, whatever notebook it came from. */
  predicate WellFormed(t: Tables, e: Entry)
  {
    SummaryOk(t, e) && QuizLinkOk(t, e) && TitleOk(e) && SlugOk(e)
  }

  /** The summary is not empty, and is the curated blurb when there is one. */
  predicate SummaryOk(t: Tables, e: Entry)
  {
    e.summary != "" && (e.number in t.summaries ==> e.summary == t.summaries[e.number])
  }

  /** The quiz link is present exactly for listed lectures, and is a quiz address. */
  predicate QuizLinkOk(t: Tables, e: Entry)
  {
    && (e.quizLink.Some? <==> e.number in t.quizLinks)
    && (e.quizLink.Some? ==> QuizPrefix <= e.quizLink.value)
  }

  /** The title opens with `Lecture <number>: `. */
  predicate TitleOk(e: Entry)
  {
    "Lecture " + Slug.Decimal(e.number) + ": " <= e.title
  }

  /** The slug is `lecture<NN>`-prefixed and in slug shape, and names the page's path. */
  predicate SlugOk(e: Entry)
  {
    SlugShape(e.number, e.slug) && e.relativePath == "lectures/" + e.slug + ".html"
  }

  /** `slug` starts with `lecture<NN>`, is made of `[a-z0-9-]` and has no doubled, leading or trailing hyphen. */
  predicate SlugShape(n: nat, slug: string)
  {
    && |Slug.SlugPrefix(n)| <= |slug| && slug[..|Slug.SlugPrefix(n)|] == Slug.SlugPrefix(n)
    && slug != [] && Slug.AllSlugChars(slug) && Slug.NoDoubleHyphen(slug)
    && slug[0] != '-' && slug[|slug| - 1] != '-'
  }

  /** A notebook yields an entry exactly when its stem has the pattern's shape. */
  lemma EntryForMatches(t: Tables, nb: NotebookFile, f: Formatters)
    ensures EntryFor(t, nb, f).Some? <==> exists p :: Matches(nb.stem, p)
  {
    if EntryFor(t, nb, f).Some? {
      MatchStemSound(nb.stem);
    } else if p :| Matches(nb.stem, p) {
      MatchStemComplete(nb.stem, p);
    }
  }

  /** The slug of lecture `n` is `lecture<NN>`-prefixed and in slug shape. */
  lemma SlugFacts(n: nat, rawTitle: string)
    ensures SlugShape(n, Slug.Slugify(n, rawTitle))
  {
    var slug := Slug.Slugify(n, rawTitle);
    var prefix := Slug.SlugPrefix(n);
    Slug.SlugifyShape(n, rawTitle);
    Slug.SlugifyPrefix(n, rawTitle);
    if slug != prefix {
      var w := slug[..|prefix| + 1];
      assert w == prefix + "-";
      assert w[..|prefix|] == prefix;
      assert slug[..|prefix|] == w[..|prefix|];
    }
  }

  /**
   * A notebook named `Lecture<digits>_<title>_<date>` yields the entry of
   * those groups, whose number is the value of the digits.
   */
  lemma EntryForSpec(t: Tables, nb: NotebookFile, f: Formatters, p: StemParts)
    requires PartsOk(p) && Matches(nb.stem, p)
    ensures EntryFor(t, nb, f) == Some(EntryOf(t, nb, f, p))
    ensures EntryOf(t, nb, f, p).number == Slug.DecimalValue(p.digits)
  {
    MatchStemComplete(nb.stem, p);
  }

  /** Every entry is well formed, whatever its notebook and groups. */
  lemma EntryOfWellFormed(t: Tables, nb: NotebookFile, f: Formatters, p: StemParts)
    requires TablesOk(t) && PartsOk(p)
    ensures WellFormed(t, EntryOf(t, nb, f, p))
  {
    var e := EntryOf(t, nb, f, p);
    var n := e.number;
    var excerpt := if nb.htmlExists then "" else Excerpt.ExcerptOf(nb.executed, f.clean);
    var heading := "Lecture " + Slug.Decimal(n) + ": ";
    assert TitleOk(e) by {
      assert e.title == heading + f.title(p.rawTitle);
      assert e.title[..|heading|] == heading;
    }
    assert SummaryOk(t, e) by { SummaryRule(t, n, nb.htmlExists, excerpt); }
    assert QuizLinkOk(t, e) by { QuizLinkRule(t, n); }
    assert SlugOk(e) by { SlugFacts(n, p.rawTitle); }
  }

  /** Every entry a notebook yields is well formed. */
  lemma EntryForWellFormed(t: Tables, nb: NotebookFile, f: Formatters)
    requires TablesOk(t) && EntryFor(t, nb, f).Some?
    ensures WellFormed(t, EntryFor(t, nb, f).value)
  {
    MatchStemSound(nb.stem);
    EntryOfWellFormed(t, nb, f, MatchStem(nb.stem).value);
  }

  /** The values `g` gives the elements of `xs`, in order, skipping the `None`s. */
  function Present<A, B>(xs: seq<A>, g: A -> Option<B>): seq<B>
  {
    if xs == [] then []
    else Present(xs[..|xs| - 1], g) + match g(xs[|xs| - 1]) { case None => [] case Some(y) => [y] }
  }

  /** `Present` keeps exactly the values `g` gives, at most one per element. */
  lemma {:induction false} PresentSpec<A, B>(xs: seq<A>, g: A -> Option<B>)
    ensures |Present(xs, g)| <= |xs|
    ensures forall y :: y in Present(xs, g) <==> exists i :: 0 <= i < |xs| && g(xs[i]) == Some(y)
  {
    if xs != [] {
      var init := xs[..|xs| - 1];
      PresentSpec(init, g);
      forall y
        ensures y in Present(xs, g) <==> exists i :: 0 <= i < |xs| && g(xs[i]) == Some(y)
      {
        if y in Present(xs, g) && y !in Present(init, g) {
          assert g(xs[|xs| - 1]) == Some(y);
        }
        if i :| 0 <= i < |xs| && g(xs[i]) == Some(y) {
          if i < |xs| - 1 {
            assert init[i] == xs[i];
          }
        }
      }
    }
  }

  /** The positions of the elements of `xs` to which `g` gives a value. */
  function Hits<A, B>(xs: seq<A>, g: A -> Option<B>): set<nat>
  {
    set i: nat | i < |xs| && g(xs[i]).Some?
  }

  /** `Present` holds one value per position in `Hits`. */
  lemma {:induction false} PresentCount<A, B>(xs: seq<A>, g: A -> Option<B>)
    ensures |Present(xs, g)| == |Hits(xs, g)|
  {
    if xs != [] {
      var n := |xs| - 1;
      PresentCount(xs[..n], g);
      HitsSnoc(xs, g);
    } else {
      assert Hits(xs, g) == {};
    }
  }

  /** The hits of `xs` are those of all but its last element, plus the last position when `g` gives it a value. */
  lemma HitsSnoc<A, B>(xs: seq<A>, g: A -> Option<B>)
    requires xs != []
    ensures Hits(xs, g) == Hits(xs[..|xs| - 1], g) + if g(xs[|xs| - 1]).Some? then {|xs| - 1} else {}
    ensures |xs| - 1 !in Hits(xs[..|xs| - 1], g)
  {
    var n := |xs| - 1;
    forall i: nat | i < n ensures xs[..n][i] == xs[i] { }
  }

  /** The entries of the notebooks, in the order the notebooks are visited. */
  function Collect(t: Tables, nbs: seq<NotebookFile>, f: Formatters): seq<Entry>
  {
    Present(nbs, nb => EntryFor(t, nb, f))
  }

  /** The collected entries are exactly the entries of the notebooks, at most one each. */
  lemma CollectSpec(t: Tables, nbs: seq<NotebookFile>, f: Formatters)
    ensures |Collect(t, nbs, f)| <= |nbs|
    ensures forall e :: e in Collect(t, nbs, f) <==> exists i :: 0 <= i < |nbs| && EntryFor(t, nbs[i], f) == Some(e)
    ensures |Collect(t, nbs, f)| == |set i: nat | i < |nbs| && EntryFor(t, nbs[i], f).Some?|
  {
    PresentSpec(nbs, nb => EntryFor(t, nb, f));
    PresentCount(nbs, nb => EntryFor(t, nb, f));
    assert Hits(nbs, nb => EntryFor(t, nb, f)) == set i: nat | i < |nbs| && EntryFor(t, nbs[i], f).Some?;
  }

  /** Visiting one more notebook appends its entry, if it has one. */
  lemma CollectSnoc(t: Tables, nbs: seq<NotebookFile>, f: Formatters, i: nat)
    requires i < |nbs|
    ensures Collect(t, nbs[..i + 1], f)
      == Collect(t, nbs[..i], f) + if EntryFor(t, nbs[i], f).Some? then [EntryFor(t, nbs[i], f).value] else []
  {
    assert nbs[..i + 1][..i] == nbs[..i];
  }

  // ---------------------------------------------------------------------
  // The stable sort by number
  // ---------------------------------------------------------------------

  predicate SortedByNumber(s: seq<Entry>)
  {
    forall i, j :: 0 <= i < j < |s| ==> s[i].number <= s[j].number
  }

  /** `e` placed before the first entry whose number is not smaller. */
  function Insert(e: Entry, s: seq<Entry>): seq<Entry>
  {
    if s == [] || e.number <= s[0].number then [e] + s else [s[0]] + Insert(e, s[1..])
  }

  /** `lectures.sort(key=number)`: a stable sort by lecture number. */
  function SortByNumber(s: seq<Entry>): seq<Entry>
  {
    if s == [] then [] else Insert(s[0], SortByNumber(s[1..]))
  }

  /** The entries of `s` with number `n`, in their order in `s`. */
  function WithNumber(s: seq<Entry>, n: nat): seq<Entry>
  {
    if s == [] then []
    else (if s[0].number == n then [s[0]] else []) + WithNumber(s[1..], n)
  }

  /** Inserting into a sorted sequence keeps it sorted and adds exactly `e`. */
  lemma {:induction false} InsertSpec(e: Entry, s: seq<Entry>)
    requires SortedByNumber(s)
    ensures SortedByNumber(Insert(e, s))
    ensures multiset(Insert(e, s)) == multiset(s) + multiset{e}
  {
    InsertMultiset(e, s);
    InsertSorted(e, s);
  }

  /** Insertion adds exactly one copy of `e`. */
  lemma {:induction false} InsertMultiset(e: Entry, s: seq<Entry>)
    ensures multiset(Insert(e, s)) == multiset(s) + multiset{e}
  {
    if s != [] && e.number > s[0].number {
      InsertMultiset(e, s[1..]);
      assert s == [s[0]] + s[1..];
    }
  }

  /** Insertion into a sorted sequence keeps it sorted. */
  lemma {:induction false} InsertSorted(e: Entry, s: seq<Entry>)
    requires SortedByNumber(s)
    ensures SortedByNumber(Insert(e, s))
    ensures forall x :: x in Insert(e, s) ==> x == e || x in s
  {
    if s != [] && e.number > s[0].number {
      InsertSorted(e, s[1..]);
      var t := Insert(e, s[1..]);
      forall j | 0 <= j < |t|
        ensures s[0].number <= t[j].number
      {
        assert t[j] in t;
      }
    }
  }

  /** The inserted entry comes before the entries of its own number already present. */
  lemma {:induction false} InsertWithNumber(e: Entry, s: seq<Entry>, n: nat)
    ensures WithNumber(Insert(e, s), n) == (if e.number == n then [e] else []) + WithNumber(s, n)
  {
    if s != [] && e.number > s[0].number {
      var rest := Insert(e, s[1..]);
      assert Insert(e, s) == [s[0]] + rest;
      InsertWithNumber(e, s[1..], n);
      WithNumberCons(s[0], rest, n);
      WithNumberCons(s[0], s[1..], n);
      assert s == [s[0]] + s[1..];
    } else {
      assert Insert(e, s) == [e] + s;
      WithNumberCons(e, s, n);
    }
  }

  /** `WithNumber` of a sequence with a given first entry. */
  lemma WithNumberCons(x: Entry, r: seq<Entry>, n: nat)
    ensures WithNumber([x] + r, n) == (if x.number == n then [x] else []) + WithNumber(r, n)
  {
    assert ([x] + r)[1..] == r;
  }

  /** The sort orders by number and is a permutation. */
  lemma {:induction false} SortByNumberSpec(s: seq<Entry>)
    ensures SortedByNumber(SortByNumber(s))
    ensures multiset(SortByNumber(s)) == multiset(s)
  {
    if s != [] {
      SortByNumberSpec(s[1..]);
      InsertSpec(s[0], SortByNumber(s[1..]));
      assert s == [s[0]] + s[1..];
    }
  }

  /** The sort is stable: entries that share a number keep their relative order. */
  lemma {:induction false} SortByNumberStable(s: seq<Entry>, n: nat)
    ensures WithNumber(SortByNumber(s), n) == WithNumber(s, n)
  {
    if s != [] {
      SortByNumberStable(s[1..], n);
      InsertWithNumber(s[0], SortByNumber(s[1..]), n);
    }
  }

  /**
   * The catalog is sorted by number, holds exactly the collected entries,
   * keeps the visiting order among entries of one number, and every entry
   * in it is well formed.
   */
  lemma CatalogSpec(t: Tables, nbs: seq<NotebookFile>, f: Formatters)
    requires TablesOk(t)
    ensures SortedByNumber(SortByNumber(Collect(t, nbs, f)))
    ensures multiset(SortByNumber(Collect(t, nbs, f))) == multiset(Collect(t, nbs, f))
    ensures forall n :: WithNumber(SortByNumber(Collect(t, nbs, f)), n) == WithNumber(Collect(t, nbs, f), n)
    ensures forall i :: 0 <= i < |SortByNumber(Collect(t, nbs, f))| ==> WellFormed(t, SortByNumber(Collect(t, nbs, f))[i])
  {
    var c := Collect(t, nbs, f);
    var r := SortByNumber(c);
    SortByNumberSpec(c);
    forall n: nat
      ensures WithNumber(r, n) == WithNumber(c, n)
    {
      SortByNumberStable(c, n);
    }
    CollectSpec(t, nbs, f);
    forall i | 0 <= i < |r|
      ensures WellFormed(t, r[i])
    {
      assert r[i] in multiset(r);
      var j :| 0 <= j < |nbs| && EntryFor(t, nbs[j], f) == Some(r[i]);
      EntryForWellFormed(t, nbs[j], f);
    }
  }

  // ---------------------------------------------------------------------
  // The build loop
  // ---------------------------------------------------------------------

  /**
   * The catalog part of `build`: visit the notebooks in order, append the
   * entry of each whose name matches, then sort by number.
   */
  method BuildCatalog(nbs: seq<NotebookFile>, f: Formatters) returns (lectures: seq<Entry>)
    ensures lectures == SortByNumber(Collect(SiteTables, nbs, f))
    ensures |lectures| == |set i: nat | i < |nbs| && EntryFor(SiteTables, nbs[i], f).Some?|
  {
    lectures := [];
    for i := 0 to |nbs|
      invariant lectures == Collect(SiteTables, nbs[..i], f)
    {
      CollectSnoc(SiteTables, nbs, f, i);
      var entry := EntryFor(SiteTables, nbs[i], f);
      if entry.Some? {
        lectures := lectures + [entry.value];
      }
    }
    assert nbs[..|nbs|] == nbs;
    SortByNumberSpec(lectures);
    assert |SortByNumber(lectures)| == |lectures| by {
      assert |multiset(SortByNumber(lectures))| == |multiset(lectures)|;
    }
    CollectSpec(SiteTables, nbs, f);
    lectures := SortByNumber(lectures);
  }

  /**
   * In the site catalog, lectures 1 to 17 carry their curated summary and
   * exactly lectures 2 to 13 carry a quiz link.
   */
  lemma SiteCatalogSpec(nbs: seq<NotebookFile>, f: Formatters)
    ensures forall e :: e in SortByNumber(Collect(SiteTables, nbs, f)) ==>
      && (1 <= e.number <= 17 ==> e.number in LectureSummaries && e.summary == LectureSummaries[e.number])
      && (e.quizLink.Some? <==> 2 <= e.number <= 13)
  {
    SiteTablesSpec();
    CatalogSpec(SiteTables, nbs, f);
  }
}
