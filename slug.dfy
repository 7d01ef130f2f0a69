/**
 * `_slugify(number, raw)` in build_site.py: the page slug of a lecture,
 * `lecture<NN>-<raw>` lower-cased, with every run of characters outside
 * `[a-z0-9-]` replaced by one hyphen, runs of hyphens collapsed, and
 * hyphens stripped from both ends.
 *
 * Each step is a function over strings; the lemmas at the end state what the
 * slug looks like (its alphabet, no doubled or outer hyphen, its
 * `lecture<NN>` prefix) and that its letters and digits are exactly those of
 * the prefix followed by those of the lower-cased title.
 */
module Slug {

  /** The characters a slug is made of: `[a-z0-9-]`. */
  predicate SlugChar(c: char)
  {
    'a' <= c <= 'z' || '0' <= c <= '9' || c == '-'
  }

  /** The slug characters other than the hyphen. */
  predicate Alnum(c: char)
  {
    'a' <= c <= 'z' || '0' <= c <= '9'
  }

  /** Every character of `s` is a letter or a digit. */
  predicate AllAlnum(s: string)
  {
    forall i :: 0 <= i < |s| ==> Alnum(s[i])
  }

  /** No two hyphens in a row. */
  predicate NoDoubleHyphen(s: string)
  {
    forall i :: 0 <= i < |s| - 1 ==> !(s[i] == '-' && s[i + 1] == '-')
  }

  /** The letters and digits of `s`, in order. */
  function Alnums(s: string): string
  {
    if s == [] then []
    else Alnums(s[..|s| - 1]) + if Alnum(s[|s| - 1]) then [s[|s| - 1]] else []
  }

  /** The decimal digit `d`. */
  function Digit(d: nat): char
    requires d < 10
  {
    ('0' as int + d) as char
  }

  /** `str(n)`: the decimal numeral of `n`, without leading zeros. */
  function Decimal(n: nat): (r: string)
    ensures |r| >= 1 && forall i :: 0 <= i < |r| ==> '0' <= r[i] <= '9'
    ensures r[0] == '0' <==> n == 0
    ensures |r| == 1 || r[0] != '0'
  {
    if n < 10 then [Digit(n)] else Decimal(n / 10) + [Digit(n % 10)]
  }

  /** `f"{n:02d}"`: the decimal numeral of `n`, zero-padded to at least two digits. */
  function Pad2(n: nat): (r: string)
    ensures |r| >= 2 && forall i :: 0 <= i < |r| ==> '0' <= r[i] <= '9'
    ensures |r| == 2 || r[0] != '0'
  {
    if n < 10 then ['0', Digit(n)] else Decimal(n)
  }

  /** The value of a string of decimal digits. */
  function DecimalValue(s: string): nat
    requires forall i :: 0 <= i < |s| ==> '0' <= s[i] <= '9'
  {
    if s == [] then 0
    else DecimalValue(s[..|s| - 1]) * 10 + (s[|s| - 1] as int - '0' as int)
  }

  /** Reading the numeral back gives `n`. */
  lemma {:induction false} DecimalRoundTrip(n: nat)
    ensures DecimalValue(Decimal(n)) == n
  {
    if n >= 10 {
      DecimalRoundTrip(n / 10);
      var s := Decimal(n);
      assert s[..|s| - 1] == Decimal(n / 10);
    }
  }

  /** The zero-padded numeral reads back as `n`, so `int(f"{n:02d}") == n`. */
  lemma Pad2RoundTrip(n: nat)
    ensures DecimalValue(Pad2(n)) == n
  {
    if n < 10 {
      var s := Pad2(n);
      assert s[..1] == ['0'] && s[..1][..0] == [];
      assert DecimalValue(s[..1]) == 0;
    } else {
      DecimalRoundTrip(n);
    }
  }

  /** `str.lower()` on one character, for the ASCII letters the notebook-name pattern admits. */
  function LowerChar(c: char): char
  {
    if 'A' <= c <= 'Z' then (c as int - 'A' as int + 'a' as int) as char else c
  }

  /** `raw.lower().replace("_", "-")`. */
  function LowerHyphenated(raw: string): string
  {
    seq(|raw|, i requires 0 <= i < |raw| => if raw[i] == '_' then '-' else LowerChar(raw[i]))
  }

  /** The string `_slugify` starts from: `f"lecture{n:02d}-" + raw.lower().replace("_", "-")`. */
  function SlugBase(n: nat, raw: string): string
  {
    "lecture" + Pad2(n) + "-" + LowerHyphenated(raw)
  }

  /**
   * `re.sub(r"[^a-z0-9\-]+", "-", s)`: each maximal run of characters
   * outside `[a-z0-9-]` becomes a single hyphen. A character outside the
   * class right after another one continues that run.
   */
  function ReplaceRuns(s: string): string
  {
    if s == [] then []
    else
      var r := ReplaceRuns(s[..|s| - 1]);
      var c := s[|s| - 1];
      if SlugChar(c) then r + [c]
      else if |s| >= 2 && !SlugChar(s[|s| - 2]) then r
      else r + ['-']
  }

  /**
   * `re.sub(r"-+", "-", s)`: each maximal run of hyphens becomes one. The
   * result keeps the first and last characters.
   */
  function Collapse(s: string): (r: string)
    ensures |r| <= |s|
    ensures s != [] ==> r != [] && r[0] == s[0] && r[|r| - 1] == s[|s| - 1]
  {
    if |s| <= 1 then s
    else
      var r := Collapse(s[..|s| - 1]);
      if s[|s| - 1] == '-' && s[|s| - 2] == '-' then r else r + [s[|s| - 1]]
  }

  /** `s.lstrip("-")`: a suffix of `s` that does not start with a hyphen. */
  function TrimLeft(s: string): (r: string)
    ensures |r| <= |s| && r == s[|s| - |r|..]
    ensures r == [] || r[0] != '-'
    ensures forall i :: 0 <= i < |s| - |r| ==> s[i] == '-'
  {
    if s != [] && s[0] == '-' then TrimLeft(s[1..]) else s
  }

  /** `s.rstrip("-")`: a prefix of `s` that does not end with a hyphen. */
  function TrimRight(s: string): (r: string)
    ensures |r| <= |s| && r == s[..|r|]
    ensures r == [] || r[|r| - 1] != '-'
    ensures forall i :: |r| <= i < |s| ==> s[i] == '-'
  {
    if s != [] && s[|s| - 1] == '-' then TrimRight(s[..|s| - 1]) else s
  }

  /** Every character of `s` is a slug character. */
  predicate AllSlugChars(s: string)
  {
    forall i :: 0 <= i < |s| ==> SlugChar(s[i])
  }

  /** Every character `ReplaceRuns` writes is a slug character. */
  lemma {:induction false} ReplaceRunsChars(s: string)
    ensures AllSlugChars(ReplaceRuns(s))
  {
    if s != [] {
      var r := ReplaceRuns(s[..|s| - 1]);
      ReplaceRunsChars(s[..|s| - 1]);
      assert ReplaceRuns(s) in {r, r + [s[|s| - 1]], r + ['-']};
    }
  }

  /** `Collapse` leaves no two hyphens in a row and writes no character outside the slug alphabet it was given. */
  lemma {:induction false} CollapseChars(s: string)
    ensures NoDoubleHyphen(Collapse(s))
    ensures AllSlugChars(s) ==> AllSlugChars(Collapse(s))
  {
    if |s| >= 2 {
      CollapseChars(s[..|s| - 1]);
    }
  }

  /** A slice of a string keeps its alphabet and its lack of doubled hyphens. */
  lemma SliceShape(s: string, i: nat, j: nat)
    requires i <= j <= |s|
    ensures AllSlugChars(s) ==> AllSlugChars(s[i..j])
    ensures NoDoubleHyphen(s) ==> NoDoubleHyphen(s[i..j])
  {
    var t := s[i..j];
    if NoDoubleHyphen(s) {
      forall k | 0 <= k < |t| - 1
        ensures !(t[k] == '-' && t[k + 1] == '-')
      {
        assert t[k] == s[i + k] && t[k + 1] == s[i + k + 1];
      }
    }
  }

  /** `_slugify(number, raw)`. */
  function Slugify(n: nat, raw: string): string
  {
    Rewrite(SlugBase(n, raw))
  }

  /** The letters and digits of a concatenation are those of each part, in order. */
  lemma {:induction false} AlnumsAppend(x: string, y: string)
    ensures Alnums(x + y) == Alnums(x) + Alnums(y)
  {
    if y != [] {
      AlnumsAppend(x, y[..|y| - 1]);
      assert (x + y)[..|x + y| - 1] == x + y[..|y| - 1];
      assert (x + y)[|x + y| - 1] == y[|y| - 1];
    } else {
      assert x + y == x;
    }
  }

  /** A string of hyphens has no letters or digits. */
  lemma {:induction false} AlnumsHyphens(s: string)
    requires forall i :: 0 <= i < |s| ==> s[i] == '-'
    ensures Alnums(s) == []
  {
    if s != [] {
      AlnumsHyphens(s[..|s| - 1]);
    }
  }

  /** Replacing runs of other characters by hyphens keeps every letter and digit. */
  lemma {:induction false} ReplaceRunsAlnums(s: string)
    ensures Alnums(ReplaceRuns(s)) == Alnums(s)
  {
    if s != [] {
      var init := s[..|s| - 1];
      ReplaceRunsAlnums(init);
      var r := ReplaceRuns(init);
      var c := s[|s| - 1];
      if SlugChar(c) {
        AlnumsAppend(r, [c]);
      } else if |s| < 2 || SlugChar(s[|s| - 2]) {
        AlnumsAppend(r, ['-']);
      }
    }
  }

  /** Collapsing hyphens keeps every letter and digit. */
  lemma {:induction false} CollapseAlnums(s: string)
    ensures Alnums(Collapse(s)) == Alnums(s)
  {
    if |s| >= 2 {
      var init := s[..|s| - 1];
      CollapseAlnums(init);
      if !(s[|s| - 1] == '-' && s[|s| - 2] == '-') {
        AlnumsAppend(Collapse(init), [s[|s| - 1]]);
      }
    }
  }

  /** Stripping hyphens keeps every letter and digit. */
  lemma TrimAlnums(s: string)
    ensures Alnums(TrimRight(s)) == Alnums(s)
    ensures Alnums(TrimLeft(s)) == Alnums(s)
  {
    TrimRightAlnums(s);
    TrimLeftAlnums(s);
  }

  /** `rstrip("-")` keeps every letter and digit. */
  lemma TrimRightAlnums(s: string)
    ensures Alnums(TrimRight(s)) == Alnums(s)
  {
    var r := TrimRight(s);
    assert s == r + s[|r|..];
    AlnumsAppend(r, s[|r|..]);
    AlnumsHyphens(s[|r|..]);
  }

  /** `lstrip("-")` keeps every letter and digit. */
  lemma TrimLeftAlnums(s: string)
    ensures Alnums(TrimLeft(s)) == Alnums(s)
  {
    var l := TrimLeft(s);
    assert s == s[..|s| - |l|] + l;
    AlnumsAppend(s[..|s| - |l|], l);
    AlnumsHyphens(s[..|s| - |l|]);
  }

  /** Lower-casing and hyphenating keeps the letters and digits of the ASCII-lower-cased title. */
  lemma {:induction false} LowerHyphenatedAlnums(raw: string)
    ensures Alnums(LowerHyphenated(raw)) == Alnums(seq(|raw|, i requires 0 <= i < |raw| => LowerChar(raw[i])))
  {
    if raw != [] {
      var init := raw[..|raw| - 1];
      LowerHyphenatedAlnums(init);
      assert LowerHyphenated(raw)[..|raw| - 1] == LowerHyphenated(init);
      var lowered := seq(|raw|, i requires 0 <= i < |raw| => LowerChar(raw[i]));
      assert lowered[..|raw| - 1] == seq(|init|, i requires 0 <= i < |init| => LowerChar(init[i]));
    }
  }

  /** A string already in the slug alphabet is left alone by `ReplaceRuns`. */
  lemma {:induction false} ReplaceRunsIdentity(s: string)
    requires forall i :: 0 <= i < |s| ==> SlugChar(s[i])
    ensures ReplaceRuns(s) == s
  {
    if s != [] {
      ReplaceRunsIdentity(s[..|s| - 1]);
    }
  }

  /** After a slug character, the runs of `y` are replaced on their own. */
  lemma {:induction false} ReplaceRunsAppend(x: string, y: string)
    requires x == [] || SlugChar(x[|x| - 1])
    ensures ReplaceRuns(x + y) == ReplaceRuns(x) + ReplaceRuns(y)
  {
    if y != [] {
      ReplaceRunsAppend(x, y[..|y| - 1]);
      assert (x + y)[..|x + y| - 1] == x + y[..|y| - 1];
      assert (x + y)[|x + y| - 1] == y[|y| - 1];
      if |y| >= 2 {
        assert (x + y)[|x + y| - 2] == y[|y| - 2];
      } else if x != [] {
        assert (x + y)[|x + y| - 2] == x[|x| - 1];
      }
    } else {
      assert x + y == x;
    }
  }

  /** A string without doubled hyphens is left alone by `Collapse`. */
  lemma {:induction false} CollapseIdentity(s: string)
    requires NoDoubleHyphen(s)
    ensures Collapse(s) == s
  {
    if |s| >= 2 {
      CollapseIdentity(s[..|s| - 1]);
    }
  }

  /** After a character other than a hyphen, the hyphen runs of `y` are collapsed on their own. */
  lemma {:induction false} CollapseAppend(x: string, y: string)
    requires x != [] && x[|x| - 1] != '-'
    ensures Collapse(x + y) == Collapse(x) + Collapse(y)
  {
    if y != [] {
      CollapseAppend(x, y[..|y| - 1]);
      assert (x + y)[..|x + y| - 1] == x + y[..|y| - 1];
      assert (x + y)[|x + y| - 1] == y[|y| - 1];
      if |y| >= 2 {
        assert (x + y)[|x + y| - 2] == y[|y| - 2];
      } else {
        assert (x + y)[|x + y| - 2] == x[|x| - 1];
      }
    } else {
      assert x + y == x;
    }
  }

  /** Right-stripping a concatenation whose right part has something besides hyphens strips only that part. */
  lemma {:induction false} TrimRightAppend(x: string, y: string)
    requires y != [] && y[0] != '-'
    ensures TrimRight(x + y) == x + TrimRight(y) && TrimRight(y) != []
  {
    if y[|y| - 1] == '-' {
      TrimRightAppend(x, y[..|y| - 1]);
      assert (x + y)[..|x + y| - 1] == x + y[..|y| - 1];
    }
  }

  /** The slug's fixed part: `lecture` and the zero-padded number. */
  function SlugPrefix(n: nat): (p: string)
    ensures p != [] && p[0] == 'l' && AllAlnum(p)
  {
    "lecture" + Pad2(n)
  }

  /** The three rewriting steps of `_slugify` after the base string is built. */
  function Rewrite(s: string): string
  {
    TrimLeft(TrimRight(Collapse(ReplaceRuns(s))))
  }

  /** Collapsing `p-u` for a hyphen-free prefix `p` leaves `p-` and a part not starting with a hyphen. */
  lemma CollapsePrefixed(p: string, u: string) returns (w: string)
    requires p != [] && AllAlnum(p)
    ensures Collapse(p + "-" + u) == p + "-" + w
    ensures w == [] || w[0] != '-'
  {
    var cu := Collapse("-" + u);
    w := cu[1..];
    assert cu == "-" + w;
    assert Collapse(p + "-" + u) == p + cu by {
      assert p + "-" + u == p + ("-" + u);
      CollapseAppend(p, "-" + u);
      assert NoDoubleHyphen(p) by {
        assert forall i :: 0 <= i < |p| ==> p[i] != '-';
      }
      CollapseIdentity(p);
    }
    assert p + cu == p + "-" + w;
    assert w == [] || w[0] != '-' by {
      CollapseChars("-" + u);
      if w != [] {
        assert cu[0] == '-' && cu[1] == w[0];
      }
    }
  }

  /** Stripping `p-w` keeps `p`, and keeps the hyphen only when `w` has more than hyphens. */
  lemma TrimPrefixed(p: string, w: string)
    requires p != [] && AllAlnum(p)
    requires w == [] || w[0] != '-'
    ensures var r := TrimLeft(TrimRight(p + "-" + w));
      r == p || (|r| > |p| + 1 && r[..|p| + 1] == p + "-")
  {
    if w == [] {
      TrimPrefixedEmpty(p);
    } else {
      TrimPrefixedMore(p, w);
    }
  }

  /** `p-` trims to `p`. */
  lemma TrimPrefixedEmpty(p: string)
    requires p != [] && AllAlnum(p)
    ensures TrimLeft(TrimRight(p + "-" + [])) == p
  {
    var s := p + "-" + [];
    assert s[..|s| - 1] == p && s[|s| - 1] == '-';
    assert Alnum(p[|p| - 1]) && Alnum(p[0]);
    assert TrimRight(p) == p;
    assert TrimRight(s) == p;
    assert TrimLeft(p) == p;
  }

  /** `p-w` with `w` not starting with a hyphen trims to `p-` and at least one more character. */
  lemma TrimPrefixedMore(p: string, w: string)
    requires p != [] && AllAlnum(p)
    requires w != [] && w[0] != '-'
    ensures var r := TrimLeft(TrimRight(p + "-" + w));
      |r| > |p| + 1 && r[..|p| + 1] == p + "-"
  {
    var s := p + "-" + w;
    assert s == (p + "-") + w;
    TrimRightAppend(p + "-", w);
    var t := TrimRight(s);
    assert t[0] == p[0];
    assert TrimLeft(t) == t;
    assert t[..|p| + 1] == p + "-";
  }

  /** Rewriting `p-h` for a prefix `p` of letters and digits keeps `p` in front. */
  lemma RewritePrefixed(p: string, h: string)
    requires p != [] && AllAlnum(p)
    ensures var r := Rewrite(p + "-" + h);
      r == p || (|r| > |p| + 1 && r[..|p| + 1] == p + "-")
  {
    ReplaceRunsAppend(p + "-", h);
    ReplaceRunsIdentity(p + "-");
    var w := CollapsePrefixed(p, ReplaceRuns(h));
    TrimPrefixed(p, w);
  }

  /**
   * The slug is `lecture<NN>` alone, or `lecture<NN>-` followed by at least
   * one more character.
   */
  lemma SlugifyPrefix(n: nat, raw: string)
    ensures var r := Slugify(n, raw);
      r == SlugPrefix(n) || (|r| > |SlugPrefix(n)| + 1 && r[..|SlugPrefix(n)| + 1] == SlugPrefix(n) + "-")
  {
    assert SlugBase(n, raw) == SlugPrefix(n) + "-" + LowerHyphenated(raw);
    RewritePrefixed(SlugPrefix(n), LowerHyphenated(raw));
  }

  /** The rewriting yields slug characters only, with no doubled, leading or trailing hyphen. */
  lemma RewriteShape(s: string)
    ensures var r := Rewrite(s);
      && AllSlugChars(r)
      && NoDoubleHyphen(r)
      && (r == [] || (r[0] != '-' && r[|r| - 1] != '-'))
  {
    ReplaceRunsChars(s);
    CollapseChars(ReplaceRuns(s));
    TrimShape(Collapse(ReplaceRuns(s)));
  }

  /** Trimming hyphens from both ends keeps the alphabet and removes the end hyphens. */
  lemma TrimShape(c: string)
    requires AllSlugChars(c) && NoDoubleHyphen(c)
    ensures var r := TrimLeft(TrimRight(c));
      && AllSlugChars(r)
      && NoDoubleHyphen(r)
      && (r == [] || (r[0] != '-' && r[|r| - 1] != '-'))
  {
    var right := TrimRight(c);
    assert AllSlugChars(right) && NoDoubleHyphen(right) by {
      SliceShape(c, 0, |right|);
    }
    var r := TrimLeft(right);
    assert AllSlugChars(r) && NoDoubleHyphen(r) by {
      SliceShape(right, |right| - |r|, |right|);
      assert right[|right| - |r|..|right|] == r;
    }
    if r != [] {
      SuffixLast(right, r);
    }
  }

  /** A non-empty suffix ends where the whole string does. */
  lemma SuffixLast(x: string, r: string)
    requires r != [] && |r| <= |x| && r == x[|x| - |r|..]
    ensures r[|r| - 1] == x[|x| - 1]
  {
  }

  /**
   * The slug is made of `[a-z0-9-]`, is not empty, and has no doubled,
   * leading or trailing hyphen.
   */
  lemma SlugifyShape(n: nat, raw: string)
    ensures var r := Slugify(n, raw);
      && r != []
      && AllSlugChars(r)
      && NoDoubleHyphen(r)
      && r[0] != '-' && r[|r| - 1] != '-'
  {
    var r := Slugify(n, raw);
    assert r != [] by { SlugifyPrefix(n, raw); }
    RewriteShape(SlugBase(n, raw));
  }

  /** The rewriting keeps every letter and digit, in order. */
  lemma RewriteAlnums(s: string)
    ensures Alnums(Rewrite(s)) == Alnums(s)
  {
    var replaced := ReplaceRuns(s);
    var collapsed := Collapse(replaced);
    TrimAlnums(TrimRight(collapsed));
    TrimAlnums(collapsed);
    CollapseAlnums(replaced);
    ReplaceRunsAlnums(s);
  }

  /**
   * The letters and digits of the slug are exactly those of `lecture<NN>`
   * followed by those of the lower-cased title, in order: the rewriting
   * only ever adds, merges or removes hyphens.
   */
  lemma SlugifyAlnums(n: nat, raw: string)
    ensures Alnums(Slugify(n, raw))
      == SlugPrefix(n) + Alnums(seq(|raw|, i requires 0 <= i < |raw| => LowerChar(raw[i])))
  {
    var p := SlugPrefix(n);
    var h := LowerHyphenated(raw);
    var base := SlugBase(n, raw);
    assert Alnums(Slugify(n, raw)) == Alnums(base) by { RewriteAlnums(base); }
    assert Alnums(base) == Alnums(p + "-") + Alnums(h) by {
      assert base == (p + "-") + h;
      AlnumsAppend(p + "-", h);
    }
    assert Alnums(p + "-") == p by {
      AlnumsAppend(p, "-");
      AlnumsHyphens("-");
      AlnumsIdentity(p);
    }
    LowerHyphenatedAlnums(raw);
  }

  /** A string of letters and digits is its own `Alnums`. */
  lemma {:induction false} AlnumsIdentity(s: string)
    requires AllAlnum(s)
    ensures Alnums(s) == s
  {
    if s != [] {
      AlnumsIdentity(s[..|s| - 1]);
    }
  }

  // ---------------------------------------------------------------------
  // The slug as the words of its base joined by hyphens.
  // ---------------------------------------------------------------------

  /** The maximal runs of letters and digits of `s`, in order. */
  function Words(s: string): (ws: seq<string>)
    ensures forall k :: 0 <= k < |ws| ==> ws[k] != [] && AllAlnum(ws[k])
    ensures s != [] && Alnum(s[|s| - 1]) ==> ws != []
    ensures ws == [] ==> forall i :: 0 <= i < |s| ==> !Alnum(s[i])
  {
    if s == [] then []
    else
      var init := s[..|s| - 1];
      var ws := Words(init);
      var c := s[|s| - 1];
      if !Alnum(c) then ws
      else if |s| >= 2 && Alnum(init[|init| - 1]) then ws[..|ws| - 1] + [ws[|ws| - 1] + [c]]
      else ws + [[c]]
  }

  /** `"-".join(ws)`. */
  function JoinHyphens(ws: seq<string>): string
  {
    if ws == [] then []
    else if |ws| == 1 then ws[0]
    else JoinHyphens(ws[..|ws| - 1]) + "-" + ws[|ws| - 1]
  }

  /**
   * `s` with each maximal run of characters other than letters and digits
   * written as one hyphen, the shape the first two substitutions give.
   */
  function Marked(s: string): string
  {
    if s == [] then []
    else
      var m := Marked(s[..|s| - 1]);
      var c := s[|s| - 1];
      if Alnum(c) then m + [c]
      else if |s| >= 2 && !Alnum(s[|s| - 2]) then m
      else m + "-"
  }

  /** `ReplaceRuns` ends with the last character when it is a slug character, and with a hyphen otherwise. */
  lemma {:induction false} ReplaceRunsLast(t: string)
    requires t != []
    ensures var r := ReplaceRuns(t);
      r != [] && r[|r| - 1] == if SlugChar(t[|t| - 1]) then t[|t| - 1] else '-'
  {
    var init := t[..|t| - 1];
    if !SlugChar(t[|t| - 1]) && |t| >= 2 && !SlugChar(t[|t| - 2]) {
      ReplaceRunsLast(init);
    }
  }

  /** `Collapse` of a string with one more character. */
  lemma CollapseSnoc(x: string, c: char)
    ensures Collapse(x + [c]) == if x != [] && c == '-' && x[|x| - 1] == '-' then Collapse(x) else Collapse(x) + [c]
  {
    var y := x + [c];
    if x != [] {
      assert y[..|y| - 1] == x;
      assert y[|y| - 1] == c && y[|y| - 2] == x[|x| - 1];
    } else {
      assert y == [c];
    }
  }

  /** Replacing runs and collapsing hyphens leaves one hyphen for each gap between letters and digits. */
  lemma {:induction false} CollapseReplaceRuns(s: string)
    ensures Collapse(ReplaceRuns(s)) == Marked(s)
  {
    if s != [] {
      var init := s[..|s| - 1];
      var c := s[|s| - 1];
      var r := ReplaceRuns(init);
      CollapseReplaceRuns(init);
      if init != [] {
        ReplaceRunsLast(init);
        assert init[|init| - 1] == s[|s| - 2];
      }
      if SlugChar(c) {
        CollapseSnoc(r, c);
      } else if !(|s| >= 2 && !SlugChar(s[|s| - 2])) {
        CollapseSnoc(r, '-');
      }
    }
  }

  /** A hyphen in front of the words when `s` starts with something else. */
  function Lead(s: string): string
  {
    if s != [] && !Alnum(s[0]) then "-" else ""
  }

  /** A hyphen after the words when `s` ends with something else after some word. */
  function Tail(s: string): string
  {
    if s != [] && !Alnum(s[|s| - 1]) && Words(s) != [] then "-" else ""
  }

  /** Joining one more word. */
  lemma JoinSnoc(ws: seq<string>, w: string)
    ensures JoinHyphens(ws + [w]) == if ws == [] then w else JoinHyphens(ws) + "-" + w
  {
    assert (ws + [w])[..|ws|] == ws;
  }

  /** Joining after the last word got one more character. */
  lemma JoinExtend(ws: seq<string>, c: char)
    requires ws != []
    ensures JoinHyphens(ws[..|ws| - 1] + [ws[|ws| - 1] + [c]]) == JoinHyphens(ws) + [c]
  {
    var init := ws[..|ws| - 1];
    var w := ws[|ws| - 1];
    JoinSnoc(init, w + [c]);
    assert JoinHyphens(ws) == JoinHyphens(init + [w]) by {
      InitLast(ws);
    }
    JoinSnoc(init, w);
    if init != [] {
      AppendAssoc(JoinHyphens(init) + "-", w, [c]);
    }
  }

  /** Concatenation is associative. */
  lemma AppendAssoc<T>(a: seq<T>, b: seq<T>, c: seq<T>)
    ensures a + (b + c) == (a + b) + c
  {
  }

  /** A non-empty sequence is its front followed by its last element. */
  lemma InitLast<T>(xs: seq<T>)
    requires xs != []
    ensures xs[..|xs| - 1] + [xs[|xs| - 1]] == xs
  {
  }

  /** Joined non-empty words of letters and digits start and end with a letter or digit. */
  lemma {:induction false} JoinEnds(ws: seq<string>)
    requires forall k :: 0 <= k < |ws| ==> ws[k] != [] && AllAlnum(ws[k])
    ensures var j := JoinHyphens(ws);
      (j == [] <==> ws == []) && (j != [] ==> Alnum(j[0]) && Alnum(j[|j| - 1]))
  {
    if |ws| > 1 {
      JoinEnds(ws[..|ws| - 1]);
    }
  }

  /** The marked string is the joined words, with a hyphen for any gap at either end. */
  lemma {:induction false} MarkedParts(s: string)
    ensures Marked(s) == Lead(s) + JoinHyphens(Words(s)) + Tail(s)
  {
    if s != [] {
      var init := s[..|s| - 1];
      MarkedParts(init);
      if Alnum(s[|s| - 1]) {
        MarkedWord(s);
      } else {
        MarkedGap(s);
      }
    }
  }

  /** A letter or digit at the end of `s` is written after the marked front. */
  lemma MarkedWord(s: string)
    requires s != [] && Alnum(s[|s| - 1])
    requires var init := s[..|s| - 1];
      Marked(init) == Lead(init) + JoinHyphens(Words(init)) + Tail(init)
    ensures Marked(s) == Lead(s) + JoinHyphens(Words(s)) + Tail(s)
  {
    var init := s[..|s| - 1];
    var c := s[|s| - 1];
    assert Marked(s) == Marked(init) + [c];
    if init == [] {
      assert Words(s) == [[c]];
    } else {
      assert init[0] == s[0] && init[|init| - 1] == s[|s| - 2];
      var l, j := Lead(init), JoinHyphens(Words(init));
      assert Lead(s) == l && Tail(s) == "";
      if Alnum(s[|s| - 2]) {
        assert Tail(init) == "";
        JoinExtend(Words(init), c);
        assert JoinHyphens(Words(s)) == j + [c];
        AppendAssoc(l, j, [c]);
      } else {
        WordAfterGap(s);
      }
    }
  }

  /** A letter or digit after a gap starts a new word. */
  lemma WordAfterGap(s: string)
    requires |s| >= 2 && Alnum(s[|s| - 1]) && !Alnum(s[|s| - 2])
    requires var init := s[..|s| - 1];
      Marked(init) == Lead(init) + JoinHyphens(Words(init)) + Tail(init)
    ensures Marked(s) == Lead(s) + JoinHyphens(Words(s)) + Tail(s)
  {
    var init := s[..|s| - 1];
    var c := s[|s| - 1];
    var ws := Words(init);
    var l := Lead(init);
    assert Marked(s) == Marked(init) + [c];
    assert Lead(s) == l && Tail(s) == "" by {
      assert init[0] == s[0];
    }
    assert JoinHyphens(Words(s)) == if ws == [] then [c] else JoinHyphens(ws) + "-" + [c] by {
      assert init[|init| - 1] == s[|s| - 2];
      assert Words(s) == ws + [[c]];
      JoinSnoc(ws, [c]);
    }
    if ws == [] {
      assert Marked(init) == "-" && l == "-" by {
        assert init[|init| - 1] == s[|s| - 2];
        assert !Alnum(init[0]);
      }
    } else {
      var j := JoinHyphens(ws);
      assert Marked(init) == l + j + "-" by {
        assert init[|init| - 1] == s[|s| - 2];
      }
      AppendAssoc(l + j, "-", [c]);
      AppendAssoc(l, j + "-", [c]);
    }
  }

  /** Another character at the end of `s` adds a hyphen only right after a word. */
  lemma MarkedGap(s: string)
    requires s != [] && !Alnum(s[|s| - 1])
    requires var init := s[..|s| - 1];
      Marked(init) == Lead(init) + JoinHyphens(Words(init)) + Tail(init)
    ensures Marked(s) == Lead(s) + JoinHyphens(Words(s)) + Tail(s)
  {
    var init := s[..|s| - 1];
    if init != [] {
      assert init[0] == s[0] && init[|init| - 1] == s[|s| - 2];
    }
  }

  /** Stripping hyphens from `l + j + t`, with at most a hyphen at each end of the word part `j`, leaves `j`. */
  lemma TrimParts(l: string, j: string, t: string)
    requires (l == "" || l == "-") && (t == "" || t == "-") && (j == [] ==> t == "")
    requires j == [] || (j[0] != '-' && j[|j| - 1] != '-')
    ensures TrimLeft(TrimRight(l + j + t)) == j
  {
    if j == [] {
      assert l + j + t == l;
    } else {
      TrimRightPart(l + j, t);
      TrimLeftPart(l, j);
    }
  }

  /** Right-stripping drops an optional hyphen after a text that does not end with one. */
  lemma TrimRightPart(x: string, t: string)
    requires x != [] && x[|x| - 1] != '-' && (t == "" || t == "-")
    ensures TrimRight(x + t) == x
  {
    if t == "-" {
      assert (x + t)[..|x|] == x;
    } else {
      assert x + t == x;
    }
  }

  /** Left-stripping drops an optional hyphen before a text that does not start with one. */
  lemma TrimLeftPart(l: string, j: string)
    requires j != [] && j[0] != '-' && (l == "" || l == "-")
    ensures TrimLeft(l + j) == j
  {
    if l == "-" {
      assert (l + j)[1..] == j;
    } else {
      assert l + j == j;
    }
  }

  /** The rewriting joins the maximal runs of letters and digits with single hyphens. */
  lemma RewriteWords(s: string)
    ensures Rewrite(s) == JoinHyphens(Words(s))
  {
    CollapseReplaceRuns(s);
    MarkedParts(s);
    JoinEnds(Words(s));
    TrimParts(Lead(s), JoinHyphens(Words(s)), Tail(s));
  }

  /**
   * The slug is the maximal runs of letters and digits of
   * `lecture<NN>-<title>`, lower-cased, joined by single hyphens.
   */
  lemma SlugifyWords(n: nat, raw: string)
    ensures Slugify(n, raw) == JoinHyphens(Words(SlugBase(n, raw)))
  {
    RewriteWords(SlugBase(n, raw));
  }
}
