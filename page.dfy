/**
 * `_inject_header_and_footer(html, header_html, footer_html)` in
 * build_site.py: the fixed sequence of rewrites that turns an exported
 * notebook page into a site page. The opening `<body` tag gains the
 * `lecture-page` class, the header goes right after that tag, the footer
 * right before `</body>`, and the Jupyter theme attributes are switched to
 * the dark theme.
 *
 * Each regular-expression substitution is modelled by the scan `re.sub`
 * performs: at each index, try to match there; on a match, emit the
 * replacement and continue after the match; otherwise copy one character.
 */
module Page {
  import opened Text

  /** The start of the opening body tag. */
  const BodyOpen: string := "<body"

  /** The start of a class attribute, up to its opening quote. */
  const ClassAttr: string := "class=\""

  /** The class every lecture page carries. */
  const PageClass: string := "lecture-page"

  /** The opening body tag the page gets when its body tag has no class attribute. */
  const BodyWithClass: string := BodyOpen + " " + ClassAttr + PageClass + "\""

  /** The closing body tag. */
  const BodyClose: string := "</body>"

  /** The light-theme flag as exported. */
  const LightTrue: string := "data-jp-theme-light=\"true\""

  /** The light-theme flag after the rewrite. */
  const LightFalse: string := "data-jp-theme-light=\"false\""

  /** The theme-name attribute up to its opening quote. */
  const NameKey: string := "data-jp-theme-name=\""

  /** The theme-name attribute after the rewrite. */
  const NameDark: string := NameKey + DarkTheme + "\""

  /** The theme name the pages use. */
  const DarkTheme: string := "JupyterLab Dark"

  /** No character of `w` is `c`. */
  predicate Avoids(w: string, c: char)
  {
    forall k :: 0 <= k < |w| ==> w[k] != c
  }

  /** A concatenation avoids a character when both parts do. */
  lemma AvoidsAppend(a: string, b: string, c: char)
    requires Avoids(a, c) && Avoids(b, c)
    ensures Avoids(a + b, c)
  {
    forall k | 0 <= k < |a + b|
      ensures (a + b)[k] != c
    {
      if k >= |a| {
        assert (a + b)[k] == b[k - |a|];
      }
    }
  }

  // ---------------------------------------------------------------------
  // The `lecture-page` class.
  // ---------------------------------------------------------------------

  /** `lecture-page` is one class name, and holds no quote. */
  lemma PageClassLetters()
    ensures IsToken(PageClass) && |PageClass| == 12 && Avoids(PageClass, '"')
  {
    assert forall k :: 0 <= k < |PageClass| ==> !IsSpace(PageClass[k]) && PageClass[k] != '"';
  }

  /** `add_body_class`: the class list, with `lecture-page` put in front unless it is already one of its classes. */
  function NewClasses(classes: string): string
  {
    if PageClass in Split(classes) then classes else PageClass + " " + classes
  }

  /**
   * The new class list holds `lecture-page`, and otherwise the classes it
   * held before, in order.
   */
  lemma NewClassesSpec(classes: string)
    ensures PageClass in Split(NewClasses(classes))
    ensures Split(NewClasses(classes))
      == if PageClass in Split(classes) then Split(classes) else [PageClass] + Split(classes)
  {
    if PageClass !in Split(classes) {
      PageClassLetters();
      SplitCons(PageClass, classes);
    }
  }

  /** The new class list holds a quote only where the old one did. */
  lemma NewClassesNoQuote(classes: string)
    requires Avoids(classes, '"')
    ensures Avoids(NewClasses(classes), '"')
  {
    if PageClass !in Split(classes) {
      PageClassLetters();
      AvoidsAppend(PageClass, " ", '"');
      AvoidsAppend(PageClass + " ", classes, '"');
    }
  }

  /** `s[i..j]` holds no `>`. */
  predicate NoTagEnd(s: string, i: int, j: int)
  {
    forall k :: i <= k < j && 0 <= k < |s| ==> s[k] != '>'
  }

  /** Where the run `[^>]*` that starts at index `i` ends: the next `>`, or the end of `s`. */
  function TagEnd(s: string, i: nat): (e: nat)
    requires i <= |s|
    ensures i <= e <= |s| && NoTagEnd(s, i, e) && (e == |s| || s[e] == '>')
  {
    var k := FindChar(s, '>', i);
    if k == -1 then |s| else k
  }

  /** A `class="` at index `p` that a closing quote follows somewhere after. */
  predicate ClosedClassAt(s: string, p: int)
  {
    TextAt(s, ClassAttr, p) && FindChar(s, '"', p + |ClassAttr|) != -1
  }

  /** The last index `p` with `lo <= p <= hi` holding a closed `class="`, or -1. */
  function LastClosedClass(s: string, lo: nat, hi: int): (p: int)
    ensures p == -1 || (lo <= p <= hi && ClosedClassAt(s, p))
    ensures forall k :: lo <= k <= hi && p < k ==> !ClosedClassAt(s, k)
    decreases hi - lo
  {
    if hi < lo then -1
    else if ClosedClassAt(s, hi) then hi
    else LastClosedClass(s, lo, hi - 1)
  }

  /** The body-class pattern can match with `<body` at `i` and `class="` at `p`. */
  predicate MatchAt(s: string, i: int, p: int)
  {
    TextAt(s, BodyOpen, i) && i + |BodyOpen| <= p && NoTagEnd(s, i + |BodyOpen|, p) && ClosedClassAt(s, p)
  }

  /**
   * `<body([^>]*)class="([^"]*)"` tried at index `i`: the index of the
   * `class="` it matches, or -1. The greedy `[^>]*` makes this the last
   * closed `class="` before the next `>`.
   */
  function BodyClassAt(s: string, i: nat): (p: int)
    requires i <= |s|
    ensures p != -1 ==> MatchAt(s, i, p) && forall k :: p < k <= TagEnd(s, i + |BodyOpen|) ==> !ClosedClassAt(s, k)
    ensures p == -1 && TextAt(s, BodyOpen, i) ==>
      forall k :: i + |BodyOpen| <= k <= TagEnd(s, i + |BodyOpen|) ==> !ClosedClassAt(s, k)
  {
    if !TextAt(s, BodyOpen, i) then -1 else LastClosedClass(s, i + |BodyOpen|, TagEnd(s, i + |BodyOpen|))
  }

  /** The pattern matches at `k` with its `class="` at `p`, and at no index from `i` up to `k`. */
  predicate LeftmostMatch(s: string, i: nat, k: nat, p: int)
    requires k <= |s|
  {
    BodyClassAt(s, k) == p && p != -1 && forall j :: i <= j < k ==> BodyClassAt(s, j) == -1
  }

  /** The index of the `<body` of the leftmost match of the body-class pattern at index `i` or later, or -1. */
  function FirstBodyMatch(s: string, i: nat): (k: int)
    requires i <= |s|
    ensures k == -1 <==> forall j :: i <= j <= |s| ==> BodyClassAt(s, j) == -1
    ensures k != -1 ==> i <= k <= |s| && LeftmostMatch(s, i, k, BodyClassAt(s, k))
    decreases |s| - i
  {
    if BodyClassAt(s, i) != -1 then i
    else if i == |s| then -1
    else
      var k := FirstBodyMatch(s, i + 1);
      if k == -1 then -1 else LeftmostExtend(s, i, k, BodyClassAt(s, k)); k
  }

  /** A leftmost match from `i + 1` is the leftmost from `i` when the pattern does not match at `i`. */
  lemma LeftmostExtend(s: string, i: nat, k: nat, p: int)
    requires i < k <= |s| && BodyClassAt(s, i) == -1 && LeftmostMatch(s, i + 1, k, p)
    ensures LeftmostMatch(s, i, k, p)
  {
  }

  /** The leftmost match of the body-class pattern at index `i` or later: the index of its `class="`, or -1. */
  function FirstBodyClass(s: string, i: nat): (p: int)
    requires i <= |s|
    ensures p == -1 <==> forall k :: i <= k <= |s| ==> BodyClassAt(s, k) == -1
    ensures p != -1 ==> ClosedClassAt(s, p) && exists k :: i <= k <= |s| && BodyClassAt(s, k) == p && MatchAt(s, k, p)
  {
    var k := FirstBodyMatch(s, i);
    if k == -1 then -1 else BodyClassAt(s, k)
  }

  /**
   * The first rewrite: `re.subn` of the body-class pattern with
   * `add_body_class`, at most once; without a match, `<body` becomes
   * `<body class="lecture-page"` at its first occurrence.
   */
  function AddBodyClass(html: string): string
  {
    var p := FirstBodyClass(html, 0);
    if p == -1 then ReplaceFirst(html, BodyOpen, BodyWithClass) else RewriteClasses(html, p)
  }

  /** The replacement of a match whose `class="` is at `p`: its class list becomes the `add_body_class` one. */
  function RewriteClasses(html: string, p: nat): string
    requires ClosedClassAt(html, p)
  {
    Splice(html, p, NewClasses(ClassList(html, p)))
  }

  /** The page with the class list of the closed class attribute at `p` replaced by `c`. */
  function Splice(html: string, p: nat, c: string): string
    requires ClosedClassAt(html, p)
  {
    html[..p + |ClassAttr|] + c + html[FindChar(html, '"', p + |ClassAttr|)..]
  }

  /** A `<body` at `i` whose class attribute at `p`, before the tag ends, lists `lecture-page`. */
  predicate PageClassAt(r: string, i: int, p: int)
  {
    MatchAt(r, i, p) && PageClass in Split(ClassList(r, p))
  }

  /** The class list of the closed class attribute at `p`: the text between its quotes. */
  function ClassList(r: string, p: nat): string
    requires ClosedClassAt(r, p)
  {
    r[p + |ClassAttr|..FindChar(r, '"', p + |ClassAttr|)]
  }

  /** `r` holds an opening body tag whose class attribute lists `lecture-page`. */
  ghost predicate HasPageClass(r: string)
  {
    exists i, p :: PageClassAt(r, i, p)
  }

  /** A page without `<body` is left as it is. */
  lemma AddBodyClassNoBody(html: string)
    requires !Occurs(html, BodyOpen)
    ensures AddBodyClass(html) == html
  {
    assert FirstBodyClass(html, 0) == -1;
  }

  /**
   * A page with `<body` comes out with a body tag whose class attribute lists
   * `lecture-page`: the tag of the leftmost match when the pattern matches,
   * otherwise the first `<body`, which gets a new class attribute.
   */
  lemma AddBodyClassSpec(html: string) returns (i: nat, p: nat)
    requires Occurs(html, BodyOpen)
    ensures HasPageClass(AddBodyClass(html))
    ensures PageClassAt(AddBodyClass(html), i, p)
    ensures FirstBodyClass(html, 0) != -1 ==> p == FirstBodyClass(html, 0) && i <= |html| && LeftmostMatch(html, 0, i, p)
    ensures FirstBodyClass(html, 0) == -1 ==> i == FindFrom(html, BodyOpen, 0) && p == i + |BodyOpen| + 1
  {
    if FirstBodyClass(html, 0) == -1 {
      i := AddBodyClassFallback(html);
      p := i + |BodyOpen| + 1;
    } else {
      p := FirstBodyClass(html, 0);
      i := AddBodyClassMatched(html);
    }
  }

  /** Without a match, `<body class="lecture-page"` replaces the first `<body` and nothing else changes. */
  lemma AddBodyClassFallback(html: string) returns (b: nat)
    requires Occurs(html, BodyOpen) && FirstBodyClass(html, 0) == -1
    ensures b == FindFrom(html, BodyOpen, 0)
    ensures TextAt(html, BodyOpen, b) && forall j :: 0 <= j < b ==> !TextAt(html, BodyOpen, j)
    ensures AddBodyClass(html) == html[..b] + BodyWithClass + html[b + |BodyOpen|..]
    ensures PageClassAt(AddBodyClass(html), b, b + |BodyOpen| + 1)
  {
    b := FindFrom(html, BodyOpen, 0);
    FallbackClass(html, b);
  }

  /** With a match, the matched body tag lists `lecture-page`. */
  lemma AddBodyClassMatched(html: string) returns (i: nat)
    requires FirstBodyClass(html, 0) != -1
    ensures i <= |html| && LeftmostMatch(html, 0, i, FirstBodyClass(html, 0))
    ensures PageClassAt(AddBodyClass(html), i, FirstBodyClass(html, 0))
  {
    var p := FirstBodyClass(html, 0);
    i := FirstBodyMatch(html, 0);
    MatchedClass(html, i, p);
  }

  /** A closed class list: `cls` at `start`, free of quotes, and a quote right after it. */
  lemma QuotedList(r: string, start: nat, cls: string)
    requires start + |cls| < |r| && r[start..start + |cls|] == cls && r[start + |cls|] == '"'
    requires Avoids(cls, '"')
    ensures FindChar(r, '"', start) == start + |cls|
  {
    forall k | start <= k < start + |cls|
      ensures r[k] != '"'
    {
      assert r[k] == cls[k - start];
    }
  }

  /** The fallback rewrite of the `<body` at `b` gives it the class `lecture-page`. */
  lemma FallbackClass(html: string, b: nat)
    requires TextAt(html, BodyOpen, b)
    requires forall j :: 0 <= j < b ==> !TextAt(html, BodyOpen, j)
    ensures ReplaceFirst(html, BodyOpen, BodyWithClass) == html[..b] + BodyWithClass + html[b + |BodyOpen|..]
    ensures PageClassAt(ReplaceFirst(html, BodyOpen, BodyWithClass), b, b + |BodyOpen| + 1)
  {
    var pre, post := html[..b], html[b + |BodyOpen|..];
    ClassedTag(pre, BodyOpen, ClassAttr, PageClass, post);
    PageClassLetters();
    var r := pre + BodyWithClass + post;
    var start := b + |BodyOpen| + 1 + |ClassAttr|;
    QuotedList(r, start, PageClass);
    SplitToken(PageClass);
  }

  /** The pieces of a tag `open + " " + attr + cls + "\""` placed between `pre` and `post`. */
  lemma ClassedTag(pre: string, open: string, attr: string, cls: string, post: string)
    ensures var r := pre + (open + " " + attr + cls + "\"") + post;
      var p := |pre| + |open| + 1;
      var q := p + |attr| + |cls|;
      && TextAt(r, open, |pre|) && r[|pre| + |open|] == ' ' && TextAt(r, attr, p)
      && q < |r| && r[p + |attr|..q] == cls && r[q] == '"'
  {
    var r := pre + (open + " " + attr + cls + "\"") + post;
    var p := |pre| + |open| + 1;
    assert r[|pre|..|pre| + |open|] == open;
    assert r[p..p + |attr|] == attr;
    assert r[p + |attr|..p + |attr| + |cls|] == cls;
  }

  /**
   * The `add_body_class` rewrite of the match at `i` leaves that body tag listing
   * `lecture-page`.
   */
  lemma MatchedClass(html: string, i: nat, p: nat)
    requires MatchAt(html, i, p)
    ensures PageClassAt(RewriteClasses(html, p), i, p)
  {
    var c := NewClasses(ClassList(html, p));
    assert Avoids(c, '"') by {
      ClassListNoQuote(html, p);
      NewClassesNoQuote(ClassList(html, p));
    }
    assert PageClass in Split(c) by {
      NewClassesSpec(ClassList(html, p));
    }
    SplicedClass(html, i, p, c);
    assert RewriteClasses(html, p) == Splice(html, p, c);
  }

  /** A class list read between quotes holds no quote. */
  lemma ClassListNoQuote(r: string, p: nat)
    requires ClosedClassAt(r, p)
    ensures Avoids(ClassList(r, p), '"')
  {
    var start := p + |ClassAttr|;
    var q := FindChar(r, '"', start);
    forall k | 0 <= k < q - start
      ensures ClassList(r, p)[k] != '"'
    {
      assert ClassList(r, p)[k] == r[start + k];
    }
  }

  /**
   * Any class list `c` without quotes, spliced in place of the class list
   * of a matched body tag, keeps the tag and its class attribute.
   */
  lemma SplicedClass(html: string, i: nat, p: nat, c: string)
    requires MatchAt(html, i, p)
    requires Avoids(c, '"') && PageClass in Split(c)
    ensures PageClassAt(Splice(html, p, c), i, p)
  {
    var r := Splice(html, p, c);
    SplicedTag(html, i, p, c);
    assert ClassList(r, p) == c;
  }

  /** The tag and the class attribute around a spliced class list `c` without quotes. */
  lemma SplicedTag(html: string, i: nat, p: nat, c: string)
    requires MatchAt(html, i, p)
    requires Avoids(c, '"')
    ensures var start := p + |ClassAttr|;
      var r := html[..start] + c + html[FindChar(html, '"', start)..];
      MatchAt(r, i, p) && FindChar(r, '"', start) == start + |c| && r[start..start + |c|] == c
  {
    var start := p + |ClassAttr|;
    var q := FindChar(html, '"', start);
    var r := html[..start] + c + html[q..];
    assert TextAt(r, BodyOpen, i) && TextAt(r, ClassAttr, p) by {
      SpliceParts(html[..start], c, html[q..]);
      TextAtSamePrefix(r, html, start, BodyOpen, i);
      TextAtSamePrefix(r, html, start, ClassAttr, p);
    }
    assert NoTagEnd(r, i + |BodyOpen|, p) by {
      SpliceParts(html[..start], c, html[q..]);
      forall k | i + |BodyOpen| <= k < p
        ensures r[k] == html[k]
      {
        assert r[k] == r[..start][k];
      }
    }
    assert FindChar(r, '"', start) == start + |c| && r[start..start + |c|] == c by {
      SpliceParts(html[..start], c, html[q..]);
      assert r[start + |c|] == html[q];
      QuotedList(r, start, c);
    }
  }

  // ---------------------------------------------------------------------
  // Header and footer.
  // ---------------------------------------------------------------------

  /**
   * The second rewrite: `"\n" + header` goes right after the `>` that ends
   * the first `<body` tag; without such a tag nothing changes. `<body`
   * holds no `>`, so the search for it may start right after `<body`.
   */
  function InsertHeader(html: string, header: string): string
  {
    var b := FindFrom(html, BodyOpen, 0);
    if b == -1 then html
    else
      var e := TagEnd(html, b + |BodyOpen|);
      if e == |html| then html else html[..e + 1] + ("\n" + header) + html[e + 1..]
  }

  /** The end of the first body tag: the first `>` after the first `<body`, or -1. */
  function BodyTagEnd(html: string): int
  {
    var b := FindFrom(html, BodyOpen, 0);
    if b == -1 then -1
    else
      var e := TagEnd(html, b + |BodyOpen|);
      if e == |html| then -1 else e
  }

  /**
   * After the rewrite the first body tag ends where it did, and the header,
   * after a newline, follows it directly; what comes after is what came
   * after the tag before.
   */
  lemma InsertHeaderSpec(html: string, header: string)
    ensures BodyTagEnd(html) == -1 ==> InsertHeader(html, header) == html
    ensures var e := BodyTagEnd(html);
      var r := InsertHeader(html, header);
      e != -1 ==>
        && BodyTagEnd(r) == e
        && TextAt(r, "\n" + header, e + 1)
        && r[..e + 1] == html[..e + 1]
        && r[e + 2 + |header|..] == html[e + 1..]
  {
    var e := BodyTagEnd(html);
    if e != -1 {
      var b := FindFrom(html, BodyOpen, 0);
      var r := InsertHeader(html, header);
      assert r == html[..e + 1] + ("\n" + header) + html[e + 1..];
      SpliceParts(html[..e + 1], "\n" + header, html[e + 1..]);
      forall k | 0 <= k < b
        ensures !TextAt(r, BodyOpen, k)
      {
        TextAtSamePrefix(r, html, e + 1, BodyOpen, k);
      }
      TextAtSamePrefix(r, html, e + 1, BodyOpen, b);
      FindFromFirst(r, BodyOpen, 0, b);
      assert forall k :: 0 <= k <= e ==> r[k] == html[k] by {
        forall k | 0 <= k <= e
          ensures r[k] == html[k]
        {
          assert r[k] == r[..e + 1][k];
        }
      }
    }
  }

  /** The third rewrite: the footer goes right before the first `</body>`. */
  function InsertFooter(html: string, footer: string): string
  {
    ReplaceFirst(html, BodyClose, footer + BodyClose)
  }

  /** The footer is inserted right before the first `</body>`, which stays; without one nothing changes. */
  lemma InsertFooterSpec(html: string, footer: string)
    ensures var p := FindFrom(html, BodyClose, 0);
      && (p == -1 ==> InsertFooter(html, footer) == html)
      && (p != -1 ==> InsertFooter(html, footer) == html[..p] + footer + html[p..])
  {
    var p := FindFrom(html, BodyClose, 0);
    if p != -1 {
      var post := html[p + |BodyClose|..];
      assert html[p..] == BodyClose + post by {
        assert html[p..] == html[p..p + |BodyClose|] + post;
      }
      Reassociate(html[..p], footer, BodyClose, post);
    }
  }

  /** Regrouping a concatenation of four strings. */
  lemma Reassociate(a: string, b: string, c: string, d: string)
    ensures a + (b + c) + d == a + b + (c + d)
  {
  }

  // ---------------------------------------------------------------------
  // Substitution of every match, left to right.
  // ---------------------------------------------------------------------

  /** The two theme substitutions. */
  datatype ThemeRewrite = Light | Name

  /** The index of the first quote in `s`, or -1. */
  function QuoteIndex(s: string): (k: int)
    ensures -1 <= k < |s|
    ensures k >= 0 ==> s[k] == '"' && Avoids(s[..k], '"')
    ensures k == -1 ==> Avoids(s, '"')
  {
    if s == [] then -1
    else if s[0] == '"' then 0
    else
      var k := QuoteIndex(s[1..]);
      if k < 0 then -1 else k + 1
  }

  /** A quote that no quote precedes is the first one. */
  lemma {:induction false} QuoteIndexAt(s: string, k: nat)
    requires k < |s| && s[k] == '"' && Avoids(s[..k], '"')
    ensures QuoteIndex(s) == k
  {
    if k > 0 {
      assert s[0] == s[..k][0];
      assert s[1..][..k - 1] == s[..k][1..];
      QuoteIndexAt(s[1..], k - 1);
    }
  }

  /**
   * The length of the pattern's match at the start of `s`, or 0.
   * `data-jp-theme-light="true"` matches itself; `data-jp-theme-name="[^"]+"`
   * needs a non-empty value closed by a quote.
   */
  function MatchLength(t: ThemeRewrite, s: string): (n: nat)
    ensures n <= |s|
    ensures n > 0 ==> s[0] == 'd'
  {
    match t
    case Light => if TextAt(s, LightTrue, 0) then |LightTrue| else 0
    case Name =>
      if TextAt(s, NameKey, 0) then
        var k := QuoteIndex(s[|NameKey|..]);
        if k > 0 then |NameKey| + k + 1 else 0
      else 0
  }

  /** The text each match is replaced with. */
  function Replacement(t: ThemeRewrite): (r: string)
    ensures |r| > 21 && r[0] == 'd' && Avoids(r[1..], 'd')
  {
    LightFalseLetters();
    NameDarkLetters();
    match t
    case Light => LightFalse
    case Name => NameDark
  }

  /** `re.sub(pattern, replacement, s)` for the rewrite `t`. */
  function SubAll(t: ThemeRewrite, s: string): string
    decreases |s|
  {
    if s == [] then []
    else
      var n := MatchLength(t, s);
      if n > 0 then Replacement(t) + SubAll(t, s[n..]) else [s[0]] + SubAll(t, s[1..])
  }

  /** Putting a character in front of a concatenation. */
  lemma ConsAppend(c: char, x: string, y: string)
    ensures [c] + (x + y) == ([c] + x) + y
  {
  }

  /** A string not starting with `'d'` has its first character copied. */
  lemma SubAllCons(t: ThemeRewrite, u: string)
    requires u != [] && u[0] != 'd'
    ensures SubAll(t, u) == [u[0]] + SubAll(t, u[1..])
  {
  }

  /** A text without `'d'`, with which no match starts, is copied as it is. */
  lemma SubAllCopies(t: ThemeRewrite, w: string, v: string)
    requires Avoids(w, 'd')
    ensures SubAll(t, w + v) == w + SubAll(t, v)
  {
    forall s | s != [] && s[0] != 'd'
      ensures SubAll(t, s) == [s[0]] + SubAll(t, s[1..])
    {
      SubAllCons(t, s);
    }
    CopiedPrefix(s => SubAll(t, s), w, v);
  }

  /** For any `f` that copies a first character other than `'d'`, a prefix without `'d'` is copied. */
  lemma {:induction false} CopiedPrefix(f: string -> string, w: string, v: string)
    requires forall s :: s != [] && s[0] != 'd' ==> f(s) == [s[0]] + f(s[1..])
    requires Avoids(w, 'd')
    ensures f(w + v) == w + f(v)
  {
    if w != [] {
      var s := w + v;
      assert s[0] == w[0] && s[1..] == w[1..] + v;
      CopiedPrefix(f, w[1..], v);
      ConsAppend(w[0], w[1..], f(v));
      assert w == [w[0]] + w[1..];
    } else {
      assert w + v == v;
    }
  }

  /** When the output starts with a text without `'d'`, which starts every replacement, the input started with it too. */
  lemma {:induction false} SubAllPrefix(t: ThemeRewrite, u: string, w: string)
    requires var r := SubAll(t, u); |w| <= |r| && r[..|w|] == w && Avoids(w, 'd')
    ensures |w| <= |u| && u[..|w|] == w
  {
    if w != [] {
      var r := SubAll(t, u);
      assert r[0] == w[0];
      assert MatchLength(t, u) == 0;
      assert r[1..][..|w| - 1] == w[1..];
      SubAllPrefix(t, u[1..], w[1..]);
    }
  }

  /** The fourth rewrite: every light-theme flag set to `"false"`. */
  function SwitchLight(html: string): string
  {
    SubAll(Light, html)
  }

  /** The fifth rewrite: every matched theme name set to `JupyterLab Dark`. */
  function SwitchName(html: string): string
  {
    SubAll(Name, html)
  }

  /** `'d'` starts the light flag and occurs nowhere else in it. */
  lemma LightTrueLetters()
    ensures LightTrue[0] == 'd' && Avoids(LightTrue[1..], 'd')
  {
    assert forall k :: 1 <= k < |LightTrue| ==> LightTrue[k] != 'd';
  }

  /** `'d'` starts the switched light flag and occurs nowhere else in it. */
  lemma LightFalseLetters()
    ensures LightFalse[0] == 'd' && Avoids(LightFalse[1..], 'd') && LightFalse[21] != LightTrue[21]
  {
    assert forall k :: 1 <= k < |LightFalse| ==> LightFalse[k] != 'd';
  }

  /** `'d'` starts the theme-name key and occurs nowhere else in it; its last character is its only quote. */
  lemma NameKeyLetters()
    ensures |NameKey| == 20 && NameKey[0] == 'd' && Avoids(NameKey[1..], 'd')
    ensures NameKey[19] == '"' && Avoids(NameKey[..19], '"')
  {
    assert forall k :: 1 <= k < |NameKey| ==> NameKey[k] != 'd';
    assert forall k :: 0 <= k < 19 ==> NameKey[k] != '"';
  }

  /** `'d'` starts the dark theme attribute and occurs nowhere else in it. */
  lemma NameDarkLetters()
    ensures NameDark[0] == 'd' && Avoids(NameDark[1..], 'd') && |NameDark| > 21 && NameDark[14] != LightTrue[14]
  {
    NameKeyLetters();
    assert forall k :: 0 <= k < |DarkTheme| ==> DarkTheme[k] != 'd';
    assert NameDark[1..] == NameKey[1..] + DarkTheme + "\"";
  }

  /** An occurrence at or after `k` is one in the part of `r` from `k` on. */
  lemma ShiftOccurrence(r: string, k: nat, pat: string, j: nat)
    requires k <= j && k <= |r| && TextAt(r, pat, j)
    ensures TextAt(r[k..], pat, j - k)
  {
    assert r[k..][j - k..j - k + |pat|] == r[j..j + |pat|];
  }

  /** An occurrence in a suffix is an occurrence in the whole, shifted. */
  lemma ShiftIff(r: string, k: nat, pat: string, j: nat)
    requires k <= |r|
    ensures TextAt(r[k..], pat, j) <==> TextAt(r, pat, k + j)
  {
    if k + j + |pat| <= |r| {
      assert r[k..][j..j + |pat|] == r[k + j..k + j + |pat|];
    }
  }

  /** No light flag starts inside a replacement. */
  lemma NoLightInReplacement(t: ThemeRewrite, x: string, j: nat)
    requires j < |Replacement(t)|
    ensures !TextAt(Replacement(t) + x, LightTrue, j)
  {
    var rep := Replacement(t);
    var r := rep + x;
    LightTrueLetters();
    LightFalseLetters();
    NameDarkLetters();
    if j + |LightTrue| <= |r| {
      if j == 0 {
        var d := if t.Light? then 21 else 14;
        assert r[..|LightTrue|][d] == rep[d] != LightTrue[d];
      } else {
        assert r[j..j + |LightTrue|][0] == rep[1..][j - 1] != LightTrue[0];
      }
    }
  }

  /** A light flag at the start of an output whose input did not start with one comes from the input. */
  lemma LightFromInput(t: ThemeRewrite, html: string)
    requires html != [] && MatchLength(t, html) == 0
    requires TextAt(SubAll(t, html), LightTrue, 0)
    ensures TextAt(html, LightTrue, 0)
  {
    var r := SubAll(t, html);
    var tail := SubAll(t, html[1..]);
    var w := LightTrue[1..];
    assert html[0] == LightTrue[0] && TextAt(tail, w, 0) by {
      assert r == [html[0]] + tail;
      ConsTextAt(html[0], tail, LightTrue);
    }
    assert TextAt(html[1..], w, 0) by {
      LightTrueLetters();
      SubAllPrefix(t, html[1..], w);
    }
    assert html == [html[0]] + html[1..];
    ConsTextAt(html[0], html[1..], LightTrue);
  }

  /** An occurrence at the start of `[c] + tail`: `c` is its first character, the rest starts `tail`. */
  lemma ConsTextAt(c: char, tail: string, pat: string)
    requires pat != []
    ensures TextAt([c] + tail, pat, 0) <==> c == pat[0] && TextAt(tail, pat[1..], 0)
  {
    var r := [c] + tail;
    if |pat| <= |r| {
      assert r[..|pat|] == [c] + tail[..|pat| - 1];
      assert pat == [pat[0]] + pat[1..];
    }
  }

  /**
   * After either theme rewrite no light flag says `"true"`; for the
   * theme-name rewrite, provided none did before.
   */
  lemma {:induction false} NoLightTrue(t: ThemeRewrite, html: string)
    requires t.Name? ==> forall j :: !TextAt(html, LightTrue, j)
    ensures forall j :: !TextAt(SubAll(t, html), LightTrue, j)
    decreases |html|
  {
    var r := SubAll(t, html);
    if html != [] {
      var n := MatchLength(t, html);
      var k := if n > 0 then n else 1;
      var rest := html[k..];
      if t.Name? {
        forall j: nat
          ensures !TextAt(rest, LightTrue, j)
        {
          ShiftIff(html, k, LightTrue, j);
        }
      }
      NoLightTrue(t, rest);
      var tail := SubAll(t, rest);
      var head := if n > 0 then Replacement(t) else [html[0]];
      assert r == head + tail;
      forall j: nat | TextAt(r, LightTrue, j)
        ensures false
      {
        if j >= |head| {
          ShiftOccurrence(r, |head|, LightTrue, j);
        } else if n > 0 {
          NoLightInReplacement(t, tail, j);
        } else {
          LightFromInput(t, html);
        }
      }
    }
  }

  /** After the light rewrite no light flag says `"true"`. */
  lemma SwitchLightSpec(html: string)
    ensures forall j :: !TextAt(SwitchLight(html), LightTrue, j)
  {
    NoLightTrue(Light, html);
  }

  /** The first `m` characters of a non-empty string: its head, then the first `m - 1` of its tail. */
  lemma ConsPrefix(x: string, m: nat)
    requires 1 <= m <= |x|
    ensures x[..m] == [x[0]] + x[1..][..m - 1]
  {
  }

  /** Slices of `h + tail` that start after `h` are slices of `tail`. */
  lemma SuffixSlices(h: string, tail: string, j: nat, m: nat)
    requires |h| <= j && j + m <= |h| + |tail|
    ensures (h + tail)[j..] == tail[j - |h|..]
    ensures (h + tail)[j..j + m] == tail[j - |h|..j - |h| + m]
  {
  }

  /** In a string starting with the theme-name key, the first quote is the key's own last character. */
  lemma QuoteAfterKey(x: string)
    requires TextAt(x, NameKey, 0)
    ensures QuoteIndex(x) == |NameKey| - 1 && x[..|NameKey| - 1] == NameKey[..|NameKey| - 1]
  {
    NameKeyLetters();
    assert x[..19] == x[..20][..19];
    assert x[19] == x[..20][19];
    QuoteIndexAt(x, 19);
  }

  /** The name rewrite keeps the position of the first quote and everything before it. */
  lemma {:induction false} SwitchNameQuote(u: string)
    ensures QuoteIndex(SwitchName(u)) == QuoteIndex(u)
    ensures QuoteIndex(u) >= 0 ==> SwitchName(u)[..QuoteIndex(u)] == u[..QuoteIndex(u)]
    decreases |u|
  {
    if u != [] {
      var r := SwitchName(u);
      var n := MatchLength(Name, u);
      if n > 0 {
        assert TextAt(r, NameKey, 0) by {
          NameKeyLetters();
          assert r[..|NameKey|] == NameDark[..|NameKey|] == NameKey;
        }
        QuoteAfterKey(u);
        QuoteAfterKey(r);
      } else if u[0] != '"' {
        SwitchNameQuote(u[1..]);
        var tail := SwitchName(u[1..]);
        assert r == [u[0]] + tail;
        assert r[1..] == tail;
        if QuoteIndex(u) >= 0 {
          ConsPrefix(r, QuoteIndex(u));
          ConsPrefix(u, QuoteIndex(u));
        }
      }
    }
  }

  /** The replacement text is itself a whole match. */
  lemma DarkMatch(tail: string)
    ensures MatchLength(Name, NameDark + tail) == |NameDark|
  {
    var s := NameDark + tail;
    assert s == NameKey + (DarkTheme + "\"" + tail);
    assert s[..|NameKey|] == NameKey;
    var v := s[|NameKey|..];
    assert v == DarkTheme + "\"" + tail;
    assert forall k :: 0 <= k < |DarkTheme| ==> DarkTheme[k] != '"';
    assert v[..|DarkTheme|] == DarkTheme;
    QuoteIndexAt(v, |DarkTheme|);
  }

  /** A string the theme-name pattern does not match at its start does not come out matched there. */
  lemma UnmatchedStaysUnmatched(html: string)
    requires html != [] && MatchLength(Name, html) == 0
    ensures MatchLength(Name, SwitchName(html)) == 0
  {
    var r := SwitchName(html);
    var tail := SwitchName(html[1..]);
    assert r == [html[0]] + tail;
    if TextAt(r, NameKey, 0) {
      NameKeyLetters();
      var w := NameKey[1..];
      assert tail[..|w|] == r[..|NameKey|][1..];
      SubAllPrefix(Name, html[1..], w);
      assert html[..|NameKey|] == [html[0]] + html[1..][..|w|];
      assert html[0] == r[0] == NameKey[0];
      assert html[1..] == w + html[|NameKey|..];
      SubAllCopies(Name, w, html[|NameKey|..]);
      assert r[|NameKey|..] == SwitchName(html[|NameKey|..]);
      SwitchNameQuote(html[|NameKey|..]);
    }
  }

  /** Every place the theme-name pattern matches `r` holds exactly the dark theme attribute. */
  ghost predicate NamesAreDark(r: string)
  {
    forall j :: 0 <= j <= |r| ==> DarkAt(r, j)
  }

  /** A match of the theme-name pattern at index `j` of `r`, if any, holds exactly the dark theme attribute. */
  predicate DarkAt(r: string, j: nat)
    requires j <= |r|
  {
    MatchLength(Name, r[j..]) > 0 ==> r[j..j + MatchLength(Name, r[j..])] == NameDark
  }

  /**
   * After the name rewrite every theme-name attribute the pattern still
   * matches names `JupyterLab Dark`.
   */
  lemma {:induction false} SwitchNameSpec(html: string)
    ensures NamesAreDark(SwitchName(html))
    decreases |html|
  {
    var r := SwitchName(html);
    if html != [] {
      var n := MatchLength(Name, html);
      var k := if n > 0 then n else 1;
      SwitchNameSpec(html[k..]);
      var tail := SwitchName(html[k..]);
      var head := if n > 0 then NameDark else [html[0]];
      assert r == head + tail;
      forall j | 0 <= j <= |r|
        ensures DarkAt(r, j)
      {
        if j >= |head| {
          DarkAfter(head, tail, j);
        } else if n > 0 {
          if j == 0 {
            DarkMatch(tail);
          } else {
            NoMatchInside(tail, j);
          }
        } else {
          UnmatchedStaysUnmatched(html);
        }
      }
    }
  }

  /** A match after `head` is a match in `tail`. */
  lemma DarkAfter(head: string, tail: string, j: nat)
    requires NamesAreDark(tail)
    requires |head| <= j <= |head + tail|
    ensures DarkAt(head + tail, j)
  {
    var k := j - |head|;
    assert DarkAt(tail, k);
    var m := MatchLength(Name, tail[k..]);
    SuffixSlices(head, tail, j, m);
  }

  /** No match starts inside the dark theme attribute after its first character. */
  lemma NoMatchInside(tail: string, j: nat)
    requires 0 < j < |NameDark|
    ensures MatchLength(Name, (NameDark + tail)[j..]) == 0
  {
    NameDarkLetters();
    assert (NameDark + tail)[j..][0] == NameDark[1..][j - 1];
  }

  /** `data-jp-theme-name="[^"]+"` matches the first `m` characters of `s`. */
  ghost predicate NameMatch(s: string, m: int)
  {
    |NameKey| + 1 < m <= |s| && TextAt(s, NameKey, 0) && s[m - 1] == '"' && Avoids(s[|NameKey|..m - 1], '"')
  }

  /** The light pattern matches at the start of `s` exactly when the flag is there, and takes all of it. */
  lemma MatchLengthLight(s: string)
    ensures MatchLength(Light, s) > 0 <==> TextAt(s, LightTrue, 0)
    ensures MatchLength(Light, s) > 0 ==> MatchLength(Light, s) == |LightTrue|
  {
  }

  /**
   * The theme-name pattern's length at the start of `s` is that of a match,
   * and a match of any length `m` is the one measured: `[^"]+` stops at the
   * first quote, so there is at most one.
   */
  lemma MatchLengthName(s: string, m: int)
    ensures MatchLength(Name, s) > 0 ==> NameMatch(s, MatchLength(Name, s))
    ensures NameMatch(s, m) ==> MatchLength(Name, s) == m
  {
    if TextAt(s, NameKey, 0) {
      var v := s[|NameKey|..];
      var k := QuoteIndex(v);
      if k > 0 {
        var n := |NameKey| + k + 1;
        assert s[n - 1] == v[k];
        assert s[|NameKey|..n - 1] == v[..k];
      }
      if NameMatch(s, m) {
        var k' := m - 1 - |NameKey|;
        assert v[k'] == s[m - 1];
        assert v[..k'] == s[|NameKey|..m - 1];
        QuoteIndexAt(v, k');
      }
    }
  }

  /** A text the pattern matches nowhere in comes out of the substitution unchanged. */
  lemma {:induction false} SubAllUnmatched(t: ThemeRewrite, s: string)
    requires forall j :: 0 <= j <= |s| ==> MatchLength(t, s[j..]) == 0
    ensures SubAll(t, s) == s
    decreases |s|
  {
    if s != [] {
      assert s[0..] == s;
      forall j | 0 <= j <= |s[1..]|
        ensures MatchLength(t, s[1..][j..]) == 0
      {
        assert s[1..][j..] == s[j + 1..];
      }
      SubAllUnmatched(t, s[1..]);
      assert s == [s[0]] + s[1..];
    }
  }

  /** From index `i` on, the light rewrite is the literal `str.replace` of the flag. */
  lemma {:induction false} SwitchLightFrom(s: string, i: nat)
    requires i <= |s|
    ensures SubAll(Light, s[i..]) == ReplaceFrom(s, LightTrue, LightFalse, i)
    decreases |s| - i
  {
    if i < |s| {
      ShiftIff(s, i, LightTrue, 0);
      if TextAt(s, LightTrue, i) {
        ReplaceFromMatch(s, LightTrue, LightFalse, i);
        SwitchLightFrom(s, i + |LightTrue|);
        assert s[i..][|LightTrue|..] == s[i + |LightTrue|..];
      } else {
        ReplaceFromSkip(s, LightTrue, LightFalse, i);
        SwitchLightFrom(s, i + 1);
        assert s[i..][1..] == s[i + 1..];
      }
    } else {
      assert FindFrom(s, LightTrue, i) == -1;
    }
  }

  /**
   * The light rewrite is `html.replace('data-jp-theme-light="true"',
   * 'data-jp-theme-light="false"')`: the pattern has no metacharacters, so
   * `re.sub` with it is literal replacement.
   */
  lemma SwitchLightReplace(html: string)
    ensures SwitchLight(html) == ReplaceAll(html, LightTrue, LightFalse)
  {
    SwitchLightFrom(html, 0);
    assert html[0..] == html;
  }

  /** Both theme rewrites leave alone a page in which neither pattern's start occurs. */
  lemma ThemeUnchanged(html: string)
    requires forall j :: !TextAt(html, LightTrue, j) && !TextAt(html, NameKey, j)
    ensures SwitchLight(html) == html && SwitchName(html) == html
  {
    forall t: ThemeRewrite, j | 0 <= j <= |html|
      ensures MatchLength(t, html[j..]) == 0
    {
      ShiftIff(html, j, LightTrue, 0);
      ShiftIff(html, j, NameKey, 0);
    }
    SubAllUnmatched(Light, html);
    SubAllUnmatched(Name, html);
  }

  /** `_inject_header_and_footer(html, header_html, footer_html)`. */
  function InjectHeaderAndFooter(html: string, header: string, footer: string): string
  {
    SwitchName(SwitchLight(InsertFooter(InsertHeader(AddBodyClass(html), header), footer)))
  }

  /** The finished page: no light flag says `"true"`, and every matched theme name is dark. */
  lemma InjectThemeSpec(html: string, header: string, footer: string)
    ensures var r := InjectHeaderAndFooter(html, header, footer);
      (forall j :: !TextAt(r, LightTrue, j)) && NamesAreDark(r)
    ensures var m := InsertFooter(InsertHeader(AddBodyClass(html), header), footer);
      (forall j :: !TextAt(m, LightTrue, j) && !TextAt(m, NameKey, j)) ==> InjectHeaderAndFooter(html, header, footer) == m
  {
    var m := InsertFooter(InsertHeader(AddBodyClass(html), header), footer);
    var light := SwitchLight(m);
    SwitchLightSpec(m);
    SwitchNameSpec(light);
    NoLightTrue(Name, light);
    if forall j :: !TextAt(m, LightTrue, j) && !TextAt(m, NameKey, j) {
      ThemeUnchanged(m);
    }
  }

  /**
   * A theme-name attribute left unclosed inside the body tag can run over
   * the class attribute; the theme-name rewrite then replaces `class="`
   * with the rest of the match, and the page loses its `lecture-page`
   * class.
   */
  lemma NameRewriteDropsClass() returns (q: string)
    ensures HasPageClass(q) && !HasPageClass(SwitchName(q))
  {
    var b := "cture-page\">";
    var post := "le" + b;
    var tail := NameKey + ("x " + (ClassAttr + post));
    q := "<body " + tail;
    ClassTail(b);
    UnclosedNameHasClass(tail, post);
    KeyFirst("x " + (ClassAttr + post));
    SwitchAfterBody(tail);
    SwitchUnclosedName(post);
    var a := "<body " + (NameDark + "le");
    Regroup("<body ", NameDark, "le", b);
    DarkPageLetters();
    NoClassAttr(a, b);
  }

  /** Regrouping `x + (y + (z + w))`. */
  lemma Regroup(x: string, y: string, z: string, w: string)
    ensures x + (y + (z + w)) == (x + (y + z)) + w
  {
  }

  /** The class list `lecture-page` closed by `">`, split after its `le`. */
  lemma ClassTail(b: string)
    requires b == "cture-page\">"
    ensures "le" + b == PageClass + "\">"
    ensures b[0] == 'c' && b[1] == 't' && Avoids(b[1..], 'c')
  {
    assert forall k :: 1 <= k < |b| ==> b[k] != 'c';
  }

  /** `<body ` followed by the dark theme attribute and `le` holds no `c`. */
  lemma DarkPageLetters()
    ensures Avoids("<body " + (NameDark + "le"), 'c')
  {
    assert Avoids("<body ", 'c') by {
      assert forall k :: 0 <= k < 6 ==> "<body "[k] != 'c';
    }
    assert Avoids(NameDark, 'c') by {
      assert forall k :: 0 <= k < |NameDark| ==> NameDark[k] != 'c';
    }
    AvoidsAppend(NameDark, "le", 'c');
    AvoidsAppend("<body ", NameDark + "le", 'c');
  }

  /** A text that starts with the theme-name key has it at index 0. */
  lemma KeyFirst(u: string)
    ensures TextAt(NameKey + u, NameKey, 0)
  {
    assert (NameKey + u)[..|NameKey|] == NameKey;
  }

  /** The page of `NameRewriteDropsClass` lists `lecture-page` in its body tag. */
  lemma UnclosedNameHasClass(tail: string, post: string)
    requires tail == NameKey + ("x " + (ClassAttr + post)) && post == PageClass + "\">"
    ensures HasPageClass("<body " + tail)
  {
    var q := "<body " + tail;
    var p := 6 + |NameKey| + 2;
    var start := p + |ClassAttr|;
    assert q[p..] == ClassAttr + post;
    assert q[start..] == post;
    assert FindChar(q, '"', start) == start + |PageClass| by {
      PageClassLetters();
      assert forall k :: start <= k < start + |PageClass| ==> q[k] == PageClass[k - start];
      assert q[start + |PageClass|] == '"';
    }
    assert MatchAt(q, 0, p) by {
      assert TextAt(q, BodyOpen, 0) by {
        assert q[..|BodyOpen|] == BodyOpen;
      }
      assert TextAt(q, ClassAttr, p) by {
        assert q[p..p + |ClassAttr|] == ClassAttr;
      }
      assert NoTagEnd(q, |BodyOpen|, p) by {
        assert q[..p] == "<body " + NameKey + "x ";
        assert forall k :: 0 <= k < p ==> q[k] == q[..p][k];
        assert forall k :: 0 <= k < |NameKey| ==> NameKey[k] != '>';
      }
    }
    assert PageClass in Split(ClassList(q, p)) by {
      assert ClassList(q, p) == PageClass;
      PageClassLetters();
      SplitToken(PageClass);
    }
    assert PageClassAt(q, 0, p);
  }

  /** The rewrite copies `<body ` in front of a theme-name key. */
  lemma SwitchAfterBody(tail: string)
    requires TextAt(tail, NameKey, 0)
    ensures SwitchName("<body " + tail) == "<body " + SwitchName(tail)
  {
    var x := "dy " + tail;
    var rest := SwitchName(tail);
    assert SwitchName(x) == "d" + ("y " + rest) by {
      assert MatchLength(Name, x) == 0 by {
        assert x[..|NameKey|][1] == 'y' != NameKey[1];
      }
      assert x[1..] == "y " + tail;
      SubAllCopies(Name, "y ", tail);
    }
    assert SwitchName("<body " + tail) == "<bo" + SwitchName(x) by {
      assert "<body " + tail == "<bo" + x;
      SubAllCopies(Name, "<bo", x);
    }
    BodyRegroup(rest);
  }

  /** `<body ` written in three pieces. */
  lemma BodyRegroup(t: string)
    ensures "<bo" + ("d" + ("y " + t)) == "<body " + t
  {
  }

  /** An unclosed theme-name value runs up to the quote that opens the class list. */
  lemma SwitchUnclosedName(post: string)
    requires post == PageClass + "\">"
    ensures SwitchName(NameKey + ("x " + (ClassAttr + post))) == NameDark + post
  {
    var tail := NameKey + ("x " + (ClassAttr + post));
    assert MatchLength(Name, tail) == |NameKey| + 9 by {
      var v := tail[|NameKey|..];
      assert v == "x " + (ClassAttr + post);
      KeyFirst("x " + (ClassAttr + post));
      QuoteAfterClass(post);
      QuoteIndexAt(v, 8);
    }
    assert tail[|NameKey| + 9..] == post;
    assert SwitchName(post) == post by {
      PageClassLetters();
      assert Avoids(post, 'd');
      SubAllCopies(Name, post, []);
      assert post + [] == post;
    }
  }

  /** In `x class="…`, the first quote is the one that opens the class list. */
  lemma QuoteAfterClass(post: string)
    ensures var v := "x " + (ClassAttr + post);
      v[8] == '"' && Avoids(v[..8], '"')
  {
    var v := "x " + (ClassAttr + post);
    var w := "x " + ClassAttr;
    assert v[..9] == w;
    assert forall k :: 0 <= k < 8 ==> w[k] != '"';
    assert forall k :: 0 <= k < 8 ==> v[..8][k] == w[k];
  }

  /** A text with no `class="`: `a` holds no `c`, and the only `c` of `b`, its first character, is not followed by `l`. */
  lemma NoClassAttr(a: string, b: string)
    requires Avoids(a, 'c') && |b| >= 2 && b[0] == 'c' && b[1] != 'l' && Avoids(b[1..], 'c')
    ensures !HasPageClass(a + b)
  {
    var r := a + b;
    forall p: int | 0 <= p && p + |ClassAttr| <= |r|
      ensures !TextAt(r, ClassAttr, p)
    {
      if p < |a| {
        assert r[p] != 'c' by {
          assert r[p] == a[p];
        }
      } else if p == |a| {
        assert r[p + 1] != 'l' by {
          assert r[p + 1] == b[1];
        }
      } else {
        assert r[p] != 'c' by {
          assert r[p] == b[1..][p - |a| - 1];
        }
      }
      NotClassAt(r, p);
    }
  }

  /** No `class="` starts where the text does not read `cl`. */
  lemma NotClassAt(r: string, p: nat)
    requires p + |ClassAttr| <= |r| && (r[p] != 'c' || r[p + 1] != 'l')
    ensures !TextAt(r, ClassAttr, p)
  {
    var w := r[p..p + |ClassAttr|];
    assert w[0] == r[p] && w[1] == r[p + 1];
  }
}
