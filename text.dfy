/**
 * String primitives of Python's `str` that the build script relies on:
 * whitespace (as `str.isspace` defines it), `strip`/`lstrip`, substring
 * search (`in`, `find`), `split()` and the `\b` word boundary of `re`.
 */
module Text {

  /** The characters for which Python's `str.isspace()` is true. */
  predicate IsSpace(c: char)
  {
    || c == ' ' || c == '\t' || c == '\n' || c == '\r'
    || c == '\U{0B}' || c == '\U{0C}'
    || ('\U{1C}' <= c <= '\U{1F}')
    || c == '\U{85}' || c == '\U{A0}' || c == '\U{1680}'
    || ('\U{2000}' <= c <= '\U{200A}')
    || c == '\U{2028}' || c == '\U{2029}' || c == '\U{202F}' || c == '\U{205F}' || c == '\U{3000}'
  }

  /** `not s.strip()`: the string is empty or made of whitespace only. */
  predicate Blank(s: string)
  {
    forall i :: 0 <= i < |s| ==> IsSpace(s[i])
  }

  /** `s.lstrip()`: drops the leading whitespace. */
  function LStrip(s: string): (r: string)
    ensures |r| <= |s| && r == s[|s| - |r|..]
    ensures forall i :: 0 <= i < |s| - |r| ==> IsSpace(s[i])
    ensures r == [] || !IsSpace(r[0])
  {
    if s != [] && IsSpace(s[0]) then LStrip(s[1..]) else s
  }

  /** `s.rstrip()`: drops the trailing whitespace. */
  function RStrip(s: string): (r: string)
    ensures |r| <= |s| && r == s[..|r|]
    ensures forall i :: |r| <= i < |s| ==> IsSpace(s[i])
    ensures r == [] || !IsSpace(r[|r| - 1])
  {
    if s != [] && IsSpace(s[|s| - 1]) then RStrip(s[..|s| - 1]) else s
  }

  /** `s.strip()`. */
  function Strip(s: string): (r: string)
    ensures r == [] || (!IsSpace(r[0]) && !IsSpace(r[|r| - 1]))
    ensures r == [] <==> Blank(s)
  {
    RStrip(LStrip(s))
  }

  /** `t` occurs in `s` starting at index `i`. */
  predicate TextAt(s: string, t: string, i: int)
  {
    0 <= i && i + |t| <= |s| && s[i..i + |t|] == t
  }

  /** `t in s`, scanning from index `i` on. */
  function OccursFrom(s: string, t: string, i: nat): (r: bool)
    requires i <= |s|
    ensures r <==> exists j :: i <= j && TextAt(s, t, j)
    decreases |s| - i
  {
    if TextAt(s, t, i) then true
    else if i == |s| then false
    else OccursFrom(s, t, i + 1)
  }

  /** Python's `t in s`. */
  function Occurs(s: string, t: string): (r: bool)
    ensures r <==> exists j :: TextAt(s, t, j)
  {
    OccursFrom(s, t, 0)
  }

  /** `s.find(t, i)`: the leftmost occurrence at or after `i`, or `None` (Python's -1). */
  function FindFrom(s: string, t: string, i: nat): (r: int)
    requires i <= |s|
    ensures r == -1 || (i <= r && TextAt(s, t, r))
    ensures forall j :: i <= j && TextAt(s, t, j) ==> r != -1 && r <= j
    decreases |s| - i
  {
    if TextAt(s, t, i) then i
    else if i == |s| then -1
    else FindFrom(s, t, i + 1)
  }

  /** A leftmost occurrence is what `FindFrom` finds. */
  lemma FindFromFirst(s: string, t: string, i: nat, q: nat)
    requires i <= q && TextAt(s, t, q)
    requires forall k :: i <= k < q ==> !TextAt(s, t, k)
    ensures FindFrom(s, t, i) == q
  {
  }

  /** `s.find(c, i)` for a single character `c`: the first index at or after `i` holding `c`, or -1. */
  function FindChar(s: string, c: char, i: nat): (k: int)
    requires i <= |s|
    ensures k == -1 || (i <= k < |s| && s[k] == c)
    ensures forall j :: i <= j < |s| && (k == -1 || j < k) ==> s[j] != c
    decreases |s| - i
  {
    if i == |s| then -1
    else if s[i] == c then i
    else FindChar(s, c, i + 1)
  }

  /** The three parts of `a + c + b`, read back by slicing. */
  lemma SpliceParts(a: string, c: string, b: string)
    ensures var r := a + c + b;
      && r[..|a|] == a && r[|a|..|a| + |c|] == c && r[|a| + |c|..] == b
      && TextAt(r, c, |a|)
  {
    var r := a + c + b;
    assert r[..|a|] == a;
    assert r[|a|..|a| + |c|] == c;
    assert r[|a| + |c|..] == b;
  }

  /** Two strings that agree on their first `n` characters have the same occurrences inside them. */
  lemma TextAtSamePrefix(s: string, s': string, n: nat, t: string, k: int)
    requires n <= |s| && n <= |s'| && s[..n] == s'[..n] && k + |t| <= n
    ensures TextAt(s, t, k) <==> TextAt(s', t, k)
  {
    if 0 <= k {
      assert s[k..k + |t|] == s[..n][k..k + |t|];
      assert s'[k..k + |t|] == s'[..n][k..k + |t|];
    }
  }

  /** `s.replace(pat, rep, 1)` for a non-empty `pat`: the first occurrence is replaced. */
  function ReplaceFirst(s: string, pat: string, rep: string): (r: string)
    requires pat != []
    ensures (forall j :: !TextAt(s, pat, j)) ==> r == s
    ensures forall p :: TextAt(s, pat, p) && (forall j :: 0 <= j < p ==> !TextAt(s, pat, j)) ==>
      r == s[..p] + rep + s[p + |pat|..]
  {
    var p := FindFrom(s, pat, 0);
    if p == -1 then s else s[..p] + rep + s[p + |pat|..]
  }

  /**
   * `s.replace(pat, rep)` for a non-empty `pat`, scanning from index `i`:
   * the leftmost occurrence is replaced and the search goes on after it, so
   * occurrences never overlap.
   */
  function ReplaceFrom(s: string, pat: string, rep: string, i: nat): string
    requires pat != [] && i <= |s|
    decreases |s| - i
  {
    var p := FindFrom(s, pat, i);
    if p == -1 then s[i..] else s[i..p] + (rep + ReplaceFrom(s, pat, rep, p + |pat|))
  }

  /** `s.replace(pat, rep)` for a non-empty `pat`. */
  function ReplaceAll(s: string, pat: string, rep: string): string
    requires pat != []
  {
    ReplaceFrom(s, pat, rep, 0)
  }

  /** An occurrence at `i` is replaced, and the scan goes on after it. */
  lemma ReplaceFromMatch(s: string, pat: string, rep: string, i: nat)
    requires pat != [] && TextAt(s, pat, i)
    ensures ReplaceFrom(s, pat, rep, i) == rep + ReplaceFrom(s, pat, rep, i + |pat|)
  {
    assert s[i..i] == [];
  }

  /** Where no occurrence starts at `i`, `s[i]` is copied and the scan goes on from `i + 1`. */
  lemma ReplaceFromSkip(s: string, pat: string, rep: string, i: nat)
    requires pat != [] && i < |s| && !TextAt(s, pat, i)
    ensures ReplaceFrom(s, pat, rep, i) == [s[i]] + ReplaceFrom(s, pat, rep, i + 1)
  {
    var p := FindFrom(s, pat, i + 1);
    assert FindFrom(s, pat, i) == p;
    if p == -1 {
      assert s[i..] == [s[i]] + s[i + 1..];
    } else {
      var a := s[i + 1..p];
      var rest := rep + ReplaceFrom(s, pat, rep, p + |pat|);
      assert ReplaceFrom(s, pat, rep, i + 1) == a + rest;
      assert ReplaceFrom(s, pat, rep, i) == s[i..p] + rest;
      assert s[i..p] == [s[i]] + a;
      ConsAssoc(s[i], a, rest);
    }
  }

  /** Putting a character in front of a concatenation. */
  lemma ConsAssoc(c: char, a: string, b: string)
    ensures ([c] + a) + b == [c] + (a + b)
  {
  }

  /** The characters the `\w` class of an ASCII regular expression matches. */
  predicate IsWordChar(c: char)
  {
    ('a' <= c <= 'z') || ('A' <= c <= 'Z') || ('0' <= c <= '9') || c == '_'
  }

  /** Index `i` holds a word character (out of range counts as none). */
  predicate WordCharAt(s: string, i: int)
  {
    0 <= i < |s| && IsWordChar(s[i])
  }

  /** The regex `\b` holds between index `i - 1` and index `i`. */
  predicate Boundary(s: string, i: int)
  {
    WordCharAt(s, i - 1) != WordCharAt(s, i)
  }

  /** `\bw\b` matches at index `i` of `s`. */
  predicate WholeWordAt(s: string, w: string, i: int)
  {
    TextAt(s, w, i) && Boundary(s, i) && Boundary(s, i + |w|)
  }

  /** `re.search(rf"\b{re.escape(w)}\b", s)` scanning from index `i` on. */
  function SearchWordFrom(s: string, w: string, i: nat): (r: bool)
    requires i <= |s|
    ensures r <==> exists j :: i <= j && WholeWordAt(s, w, j)
    decreases |s| - i
  {
    if WholeWordAt(s, w, i) then true
    else if i == |s| then false
    else SearchWordFrom(s, w, i + 1)
  }

  /** `re.search(rf"\b{re.escape(w)}\b", s) is not None`. */
  function SearchWord(s: string, w: string): (r: bool)
    ensures r <==> exists j :: WholeWordAt(s, w, j)
  {
    SearchWordFrom(s, w, 0)
  }

  /** The string is non-empty and holds no whitespace: one token of `split()`. */
  predicate IsToken(w: string)
  {
    w != [] && forall i :: 0 <= i < |w| ==> !IsSpace(w[i])
  }

  /** A single token splits into itself. */
  lemma SplitToken(w: string)
    requires IsToken(w)
    ensures Split(w) == [w]
  {
    assert LStrip(w) == w;
    assert WordLength(w, 0) == |w|;
    assert w[..|w|] == w && w[|w|..] == [];
    assert Split([]) == [];
  }

  /** A token followed by a space and more text splits into that token and the splitting of the rest. */
  lemma SplitCons(w: string, rest: string)
    requires IsToken(w)
    ensures Split(w + " " + rest) == [w] + Split(rest)
  {
    var s := w + " " + rest;
    assert LStrip(s) == s by { assert s[0] == w[0]; }
    assert WordLength(s, 0) == |w| by { WordEnds(s, w); }
    assert s[..|w|] == w;
    assert s[|w|..] == " " + rest;
    SplitSpace(rest);
  }

  /** In `w + " " + rest`, the first word ends where `w` does. */
  lemma WordEnds(s: string, w: string)
    requires IsToken(w) && |w| < |s| && s[..|w|] == w && s[|w|] == ' '
    ensures WordLength(s, 0) == |w|
  {
    assert forall j :: 0 <= j < |w| ==> s[j] == w[j];
  }

  /** A leading space does not change the splitting. */
  lemma SplitSpace(rest: string)
    ensures Split(" " + rest) == Split(rest)
  {
    assert (" " + rest)[1..] == rest;
    assert LStrip(" " + rest) == LStrip(rest);
  }

  /** Python's `s.split()`: the maximal runs of non-whitespace, in order. */
  function Split(s: string): (r: seq<string>)
    ensures forall k :: 0 <= k < |r| ==> IsToken(r[k])
    decreases |s|
  {
    var t := LStrip(s);
    if t == [] then []
    else
      var n := WordLength(t, 0);
      FirstWord(t);
      var rest := Split(t[n..]);
      TokensCons(t[..n], rest);
      [t[..n]] + rest
  }

  /** A token put in front of a sequence of tokens gives a sequence of tokens. */
  lemma TokensCons(w: string, r: seq<string>)
    requires IsToken(w) && forall k :: 0 <= k < |r| ==> IsToken(r[k])
    ensures forall k :: 0 <= k < |[w] + r| ==> IsToken(([w] + r)[k])
  {
    forall k | 0 <= k < |[w] + r|
      ensures IsToken(([w] + r)[k])
    {
      if k > 0 {
        assert ([w] + r)[k] == r[k - 1];
      }
    }
  }

  /** The first word of a text that starts with a non-space is a non-empty token. */
  lemma FirstWord(t: string)
    requires t != [] && !IsSpace(t[0])
    ensures WordLength(t, 0) >= 1 && IsToken(t[..WordLength(t, 0)])
  {
    var n := WordLength(t, 0);
    forall i | 0 <= i < n
      ensures !IsSpace(t[..n][i])
    {
      assert t[..n][i] == t[i];
    }
  }

  /** The length of the run of non-whitespace at the start of `t[i..]`, plus `i`. */
  function WordLength(t: string, i: nat): (n: nat)
    requires i <= |t|
    ensures i <= n <= |t|
    ensures forall j :: i <= j < n ==> !IsSpace(t[j])
    ensures n == |t| || IsSpace(t[n])
    decreases |t| - i
  {
    if i == |t| || IsSpace(t[i]) then i else WordLength(t, i + 1)
  }

  /** Every character of `s` satisfies `sp`. */
  predicate All(sp: char -> bool, s: string)
  {
    forall k :: 0 <= k < |s| ==> sp(s[k])
  }

  /** No character of `s` satisfies `sp`. */
  predicate NoneOf(sp: char -> bool, s: string)
  {
    forall k :: 0 <= k < |s| ==> !sp(s[k])
  }

  /**
   * `w` is a maximal run of characters outside `sp` in `s`, starting at
   * index `i`: it is non-empty and has `sp` (or an end of `s`) on each side.
   */
  predicate RunIn(sp: char -> bool, s: string, i: int, w: string)
  {
    && w != [] && NoneOf(sp, w) && TextAt(s, w, i)
    && (i == 0 || sp(s[i - 1]))
    && (i + |w| == |s| || sp(s[i + |w|]))
  }

  /**
   * `s` starts with `d` characters satisfying `sp`, followed by a run of
   * `n >= 1` characters outside `sp` that ends at `sp` or at the end of `s`.
   */
  predicate Layout(sp: char -> bool, s: string, d: nat, n: nat)
  {
    && d + n <= |s| && n >= 1
    && (forall k :: 0 <= k < d ==> sp(s[k]))
    && (forall k :: d <= k < d + n ==> !sp(s[k]))
    && (d + n == |s| || sp(s[d + n]))
  }

  /** Text made of whitespace only splits into nothing. */
  lemma SplitBlank(s: string)
    requires Blank(s)
    ensures Split(s) == []
  {
  }

  /**
   * One step of `split()` on text that is not all whitespace: `d` leading
   * whitespace characters, then the first piece of length `n`, which ends
   * at whitespace or at the end of the text.
   */
  lemma SplitStep(s: string) returns (d: nat, n: nat)
    requires !Blank(s)
    ensures Layout(IsSpace, s, d, n)
    ensures Split(s) == [s[d..d + n]] + Split(s[d + n..])
  {
    var t := LStrip(s);
    d := |s| - |t|;
    n := WordLength(t, 0);
    FirstWord(t);
    assert Split(s) == [t[..n]] + Split(t[n..]);
    WordInSuffix(s, d, n);
  }

  /** A word of length `n` at the start of `s[d..]` occupies `s[d..d + n]`. */
  lemma WordInSuffix(s: string, d: nat, n: nat)
    requires d + n <= |s| && WordLength(s[d..], 0) == n
    ensures forall k :: d <= k < d + n ==> !IsSpace(s[k])
    ensures d + n == |s| || IsSpace(s[d + n])
    ensures s[d..][..n] == s[d..d + n] && s[d..][n..] == s[d + n..]
  {
    var t := s[d..];
    forall k | d <= k < d + n
      ensures !IsSpace(s[k])
    {
      assert s[k] == t[k - d];
    }
    if d + n < |s| {
      assert s[d + n] == t[n];
    }
  }

  /**
   * `r` is a splitting of `s` at the characters satisfying `sp`, taken one
   * step at a time, where `ds` holds the separators skipped before each
   * piece: only separators are left once `r` is exhausted; otherwise
   * `ds[0]` separators come first, then the first piece, which ends at a
   * separator or at the end of the text, then a splitting of what follows.
   */
  predicate Chain(sp: char -> bool, s: string, r: seq<string>, ds: seq<nat>)
    decreases |s|
  {
    && |ds| == |r|
    && if r == [] then All(sp, s)
       else
         var d, n := ds[0], |r[0]|;
         && Layout(sp, s, d, n)
         && r[0] == s[d..d + n]
         && Chain(sp, s[d + n..], r[1..], ds[1..])
  }

  /** `split()` proceeds by the steps `Chain` describes, with whitespace as the separator. */
  lemma {:induction false} SplitChain(s: string) returns (ds: seq<nat>)
    ensures Chain(IsSpace, s, Split(s), ds)
    decreases |s|
  {
    if Blank(s) {
      SplitBlank(s);
      ds := [];
    } else {
      var d, n := SplitStep(s);
      var rest := SplitChain(s[d + n..]);
      ds := [d] + rest;
      ChainCons(IsSpace, s, d, n, Split(s[d + n..]), rest);
    }
  }

  /** A first piece in front of a step-wise splitting of the rest gives one of the whole text. */
  lemma ChainCons(sp: char -> bool, s: string, d: nat, n: nat, r: seq<string>, ds: seq<nat>)
    requires Layout(sp, s, d, n) && Chain(sp, s[d + n..], r, ds)
    ensures Chain(sp, s, [s[d..d + n]] + r, [d] + ds)
  {
    var r' := [s[d..d + n]] + r;
    assert r'[1..] == r && ([d] + ds)[1..] == ds;
  }

  /** The pieces of `split()` are exactly the maximal runs of non-whitespace. */
  lemma SplitRuns(s: string)
    ensures forall w :: w in Split(s) <==> exists i :: RunIn(IsSpace, s, i, w)
  {
    var ds := SplitChain(s);
    RunsExactly(IsSpace, s, Split(s), ds);
  }

  /** The pieces of a step-wise splitting are exactly the maximal runs between separators. */
  lemma RunsExactly(sp: char -> bool, s: string, r: seq<string>, ds: seq<nat>)
    requires Chain(sp, s, r, ds)
    ensures forall w :: w in r <==> exists i :: RunIn(sp, s, i, w)
  {
    forall w
      ensures w in r <==> exists i :: RunIn(sp, s, i, w)
    {
      if w in r {
        var i := RunsSound(sp, s, r, ds, w);
      }
      if i :| RunIn(sp, s, i, w) {
        RunsComplete(sp, s, r, ds, i, w);
      }
    }
  }

  /** Every piece of a step-wise splitting is a maximal run between separators. */
  lemma {:induction false} RunsSound(sp: char -> bool, s: string, r: seq<string>, ds: seq<nat>, w: string)
    returns (i: nat)
    requires Chain(sp, s, r, ds) && w in r
    ensures RunIn(sp, s, i, w)
    decreases |s|
  {
    var d, n := ds[0], |r[0]|;
    if w == r[0] {
      i := d;
      FirstRun(sp, s, d, n);
    } else {
      InTail(r, w);
      var j := RunsSound(sp, s[d + n..], r[1..], ds[1..], w);
      i := d + n + j;
      ChainFrom(sp, s, r, ds, j, w);
    }
  }

  /** Every maximal run between separators is a piece of a step-wise splitting. */
  lemma {:induction false} RunsComplete(sp: char -> bool, s: string, r: seq<string>, ds: seq<nat>, i: nat, w: string)
    requires Chain(sp, s, r, ds) && RunIn(sp, s, i, w)
    ensures w in r
    decreases |s|
  {
    assert s[i] == w[0];
    if r != [] {
      var d, n := ds[0], |r[0]|;
      if i < d + n {
        FirstRunOnly(sp, s, d, n, i, w);
      } else {
        ChainTo(sp, s, r, ds, i, w);
        RunsComplete(sp, s[d + n..], r[1..], ds[1..], i - (d + n), w);
        InTail(r, w);
      }
    }
  }

  /** A member of `r` other than its first is a member of `r[1..]`, and conversely. */
  lemma InTail(r: seq<string>, w: string)
    requires r != []
    ensures w in r[1..] ==> w in r
    ensures w in r && w != r[0] ==> w in r[1..]
  {
    assert r == [r[0]] + r[1..];
  }

  /** A maximal run of what follows the first piece is a maximal run of the whole text. */
  lemma ChainFrom(sp: char -> bool, s: string, r: seq<string>, ds: seq<nat>, j: nat, w: string)
    requires Chain(sp, s, r, ds) && r != []
    requires RunIn(sp, s[ds[0] + |r[0]|..], j, w)
    ensures RunIn(sp, s, ds[0] + |r[0]| + j, w)
  {
    RunFromSuffix(sp, s, ds[0] + |r[0]|, j, w);
  }

  /** A maximal run of the whole text past the first piece is a maximal run of what follows it. */
  lemma ChainTo(sp: char -> bool, s: string, r: seq<string>, ds: seq<nat>, i: nat, w: string)
    requires Chain(sp, s, r, ds) && r != []
    requires ds[0] + |r[0]| <= i && RunIn(sp, s, i, w)
    ensures RunIn(sp, s[ds[0] + |r[0]|..], i - (ds[0] + |r[0]|), w)
  {
    RunToSuffix(sp, s, ds[0] + |r[0]|, i - (ds[0] + |r[0]|), w);
  }

  /** When `s` starts with `d` separators and then a run of length `n`, that run is maximal. */
  lemma FirstRun(sp: char -> bool, s: string, d: nat, n: nat)
    requires Layout(sp, s, d, n)
    ensures RunIn(sp, s, d, s[d..d + n])
  {
    var v := s[d..d + n];
    forall k | 0 <= k < |v|
      ensures !sp(v[k])
    {
      assert v[k] == s[d + k];
    }
  }

  /** ... and it is the only maximal run starting before `d + n`. */
  lemma FirstRunOnly(sp: char -> bool, s: string, d: nat, n: nat, i: int, w: string)
    requires Layout(sp, s, d, n) && i < d + n && RunIn(sp, s, i, w)
    ensures i == d && w == s[d..d + n]
  {
    assert s[i] == w[0];
    assert i == d;
    assert d + |w| < |s| ==> sp(s[d + |w|]);
    assert d + n < |s| ==> sp(s[d + n]);
    assert forall k :: 0 <= k < |w| ==> w[k] == s[d + k];
  }

  /** A maximal run of a suffix that starts at a separator or at the end is one of the whole text. */
  lemma RunFromSuffix(sp: char -> bool, s: string, m: nat, j: nat, w: string)
    requires m <= |s| && (m == |s| || sp(s[m]))
    requires RunIn(sp, s[m..], j, w)
    ensures RunIn(sp, s, m + j, w)
  {
    RunShift(sp, s, m, j, w);
  }

  /** A maximal run of the whole text that starts in a suffix beginning at a separator is one of the suffix. */
  lemma RunToSuffix(sp: char -> bool, s: string, m: nat, j: nat, w: string)
    requires m <= |s| && (m == |s| || sp(s[m]))
    requires RunIn(sp, s, m + j, w)
    ensures RunIn(sp, s[m..], j, w)
  {
    RunShift(sp, s, m, j, w);
  }

  /** A slice of a suffix is a slice of the whole. */
  lemma SuffixSlice(s: string, m: nat, a: nat, b: nat)
    requires m <= |s| && a <= b <= |s| - m
    ensures s[m..][a..b] == s[m + a..m + b]
  {
  }

  /**
   * A run at or after index `m` is maximal in `s` exactly when it is maximal
   * in `s[m..]`, provided a separator sits just before `m` or at `m`.
   */
  lemma RunShift(sp: char -> bool, s: string, m: nat, j: nat, w: string)
    requires m <= |s|
    requires m == 0 || sp(s[m - 1]) || m == |s| || sp(s[m])
    ensures RunIn(sp, s, m + j, w) <==> RunIn(sp, s[m..], j, w)
  {
    var u := s[m..];
    var i := m + j;
    if i + |w| <= |s| {
      SuffixSlice(s, m, j, j + |w|);
      if i + |w| < |s| {
        assert u[j + |w|] == s[i + |w|];
      }
    }
    if 0 < j <= |u| {
      assert u[j - 1] == s[i - 1];
    } else if w != [] && i < |s| {
      assert u[0] == s[i];
    }
  }

  /** The text of `s` without the characters satisfying `sp`. */
  function Drop(sp: char -> bool, s: string): (r: string)
    ensures |r| <= |s|
  {
    if s == [] then [] else (if sp(s[0]) then [] else [s[0]]) + Drop(sp, s[1..])
  }

  /** The text of `s` with its whitespace characters removed. */
  function NonSpace(s: string): (r: string)
    ensures |r| <= |s| && forall k :: 0 <= k < |r| ==> !IsSpace(r[k])
  {
    DropNone(IsSpace, s);
    Drop(IsSpace, s)
  }

  /** Nothing that `Drop` keeps satisfies `sp`. */
  lemma {:induction false} DropNone(sp: char -> bool, s: string)
    ensures NoneOf(sp, Drop(sp, s))
  {
    if s != [] {
      DropNone(sp, s[1..]);
      var h := if sp(s[0]) then [] else [s[0]];
      var t := Drop(sp, s[1..]);
      assert forall k :: |h| <= k < |h + t| ==> (h + t)[k] == t[k - |h|];
    }
  }

  /** The pieces of `ws` written one after the other. */
  function Concat(ws: seq<string>): string
  {
    if ws == [] then [] else ws[0] + Concat(ws[1..])
  }

  /** Written one after the other, the pieces of `split()` give the text without its whitespace, in order. */
  lemma SplitConcat(s: string)
    ensures Concat(Split(s)) == NonSpace(s)
  {
    var ds := SplitChain(s);
    PiecesConcat(IsSpace, s, Split(s), ds);
  }

  /** The pieces of a step-wise splitting, written one after the other, give the text without its separators. */
  lemma {:induction false} PiecesConcat(sp: char -> bool, s: string, r: seq<string>, ds: seq<nat>)
    requires Chain(sp, s, r, ds)
    ensures Concat(r) == Drop(sp, s)
    decreases |s|
  {
    if r == [] {
      DropAll(sp, s);
    } else {
      var d, n := ds[0], |r[0]|;
      PiecesConcat(sp, s[d + n..], r[1..], ds[1..]);
      PiecesStep(sp, s, r, ds);
    }
  }

  /** One step of `PiecesConcat`: the first piece in front of what the rest gives. */
  lemma PiecesStep(sp: char -> bool, s: string, r: seq<string>, ds: seq<nat>)
    requires Chain(sp, s, r, ds) && r != []
    requires Concat(r[1..]) == Drop(sp, s[ds[0] + |r[0]|..])
    ensures Concat(r) == Drop(sp, s)
  {
    DropStep(sp, s, ds[0], |r[0]|);
  }

  /** Separators, a run without separators, then the rest: only the run and what the rest keeps remain. */
  lemma DropStep(sp: char -> bool, s: string, d: nat, n: nat)
    requires Layout(sp, s, d, n)
    ensures Drop(sp, s) == s[d..d + n] + Drop(sp, s[d + n..])
  {
    SliceParts(sp, s, d, n);
    DropThree(sp, s[..d], s[d..d + n], s[d + n..]);
  }

  /** The three slices of a layout: separators, a run without them, and the rest. */
  lemma SliceParts(sp: char -> bool, s: string, d: nat, n: nat)
    requires Layout(sp, s, d, n)
    ensures All(sp, s[..d]) && NoneOf(sp, s[d..d + n])
    ensures s == s[..d] + (s[d..d + n] + s[d + n..])
  {
    var x, y := s[..d], s[d..d + n];
    forall k | 0 <= k < d ensures sp(x[k]) { assert x[k] == s[k]; }
    forall k | 0 <= k < n ensures !sp(y[k]) { assert y[k] == s[d + k]; }
  }

  /** Separators, then a run without separators, then more text. */
  lemma DropThree(sp: char -> bool, x: string, y: string, z: string)
    requires All(sp, x) && NoneOf(sp, y)
    ensures Drop(sp, x + (y + z)) == y + Drop(sp, z)
  {
    DropAll(sp, x);
    DropNoneOf(sp, y);
    DropAppend(sp, y, z);
    DropAppend(sp, x, y + z);
    assert [] + (y + Drop(sp, z)) == y + Drop(sp, z);
  }

  /** Dropping separators from a concatenation drops them from each part. */
  lemma {:induction false} DropAppend(sp: char -> bool, x: string, y: string)
    ensures Drop(sp, x + y) == Drop(sp, x) + Drop(sp, y)
  {
    if x != [] {
      assert (x + y)[0] == x[0] && (x + y)[1..] == x[1..] + y;
      DropAppend(sp, x[1..], y);
    } else {
      assert x + y == y;
    }
  }

  /** Separators alone leave nothing. */
  lemma {:induction false} DropAll(sp: char -> bool, x: string)
    requires All(sp, x)
    ensures Drop(sp, x) == []
  {
    if x != [] {
      DropAll(sp, x[1..]);
    }
  }

  /** A run without separators is left as it is. */
  lemma {:induction false} DropNoneOf(sp: char -> bool, w: string)
    requires NoneOf(sp, w)
    ensures Drop(sp, w) == w
  {
    if w != [] {
      DropNoneOf(sp, w[1..]);
      assert w == [w[0]] + w[1..];
    }
  }
}
