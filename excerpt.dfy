/**
 * `_first_markdown_excerpt` in build_site.py: the catalog blurb of a
 * notebook, taken from its first markdown cell with visible text and cut
 * down to at most 180 characters at a word boundary.
 *
 * The markdown-cleaning regular expressions applied before the cut are a
 * parameter `clean` here.
 */
module Excerpt {
  import opened Text
  import opened Cells

  /** The longest excerpt kept whole. */
  const MaxLength: nat := 180

  /** A longer text is first cut to this many characters. */
  const CutLength: nat := 177

  /** The ellipsis character `…` appended to a cut text. */
  const Ellipsis: char := '…'

  /** The index of the last space in `s`, or -1 when there is none. */
  function LastSpace(s: string): (k: int)
    ensures -1 <= k < |s|
    ensures k >= 0 ==> s[k] == ' '
    ensures forall j :: k < j < |s| ==> s[j] != ' '
  {
    if s == [] then -1
    else if s[|s| - 1] == ' ' then |s| - 1
    else LastSpace(s[..|s| - 1])
  }

  /** `s.rsplit(" ", 1)[0]`: `s` up to its last space, or all of `s` when it has none. */
  function BeforeLastSpace(s: string): string
  {
    var k := LastSpace(s);
    if k < 0 then s else s[..k]
  }

  /**
   * The truncation step: a text of at most 180 characters is kept; a longer
   * one becomes its first 177 characters cut at their last space (or kept
   * whole when they hold none), followed by `…`.
   */
  function Truncate(text: string): (r: string)
    ensures |r| <= MaxLength
    ensures |text| <= MaxLength ==> r == text
    ensures |text| > MaxLength ==> 1 <= |r| <= CutLength + 1 && r[|r| - 1] == Ellipsis
    ensures |text| > MaxLength ==>
      var cut := |r| - 1;
      && r[..cut] == text[..cut]
      && (cut == CutLength ==> forall j :: 0 <= j < CutLength ==> text[j] != ' ')
      && (cut < CutLength ==> text[cut] == ' ' && forall j :: cut < j < CutLength ==> text[j] != ' ')
  {
    if |text| > MaxLength then BeforeLastSpace(text[..CutLength]) + [Ellipsis] else text
  }

  /** A markdown cell whose source is not all whitespace. */
  predicate HasText(cell: Cell)
  {
    cell.cellType == Markdown && Strip(cell.source) != []
  }

  /** The excerpt of `cells`: from the first markdown cell with text, or `""` when there is none. */
  function ExcerptOf(cells: seq<Cell>, clean: string -> string): string
  {
    if cells == [] then ""
    else if HasText(cells[0]) then Truncate(clean(Strip(cells[0].source)))
    else ExcerptOf(cells[1..], clean)
  }

  /** The excerpt comes from the first markdown cell with text. */
  lemma {:induction false} ExcerptFromFirst(cells: seq<Cell>, clean: string -> string, i: nat)
    requires i < |cells| && HasText(cells[i])
    requires forall j :: 0 <= j < i ==> !HasText(cells[j])
    ensures ExcerptOf(cells, clean) == Truncate(clean(Strip(cells[i].source)))
  {
    if i > 0 {
      assert !HasText(cells[0]);
      ExcerptFromFirst(cells[1..], clean, i - 1);
    }
  }

  /** Without a markdown cell with text, the excerpt is empty. */
  lemma {:induction false} ExcerptEmpty(cells: seq<Cell>, clean: string -> string)
    requires forall i :: 0 <= i < |cells| ==> !HasText(cells[i])
    ensures ExcerptOf(cells, clean) == ""
  {
    if cells != [] {
      assert !HasText(cells[0]);
      ExcerptEmpty(cells[1..], clean);
    }
  }

  /** `_first_markdown_excerpt(nb)`. */
  method FirstMarkdownExcerpt(cells: seq<Cell>, clean: string -> string) returns (excerpt: string)
    ensures excerpt == ExcerptOf(cells, clean)
    ensures |excerpt| <= MaxLength
  {
    var i := 0;
    while i < |cells|
      invariant i <= |cells|
      invariant ExcerptOf(cells[i..], clean) == ExcerptOf(cells, clean)
    {
      assert cells[i..][1..] == cells[i + 1..];
      if cells[i].cellType == Markdown {
        var text := Strip(cells[i].source);
        if text != [] {
          excerpt := Truncate(clean(text));
          return;
        }
      }
      i := i + 1;
    }
    excerpt := "";
  }
}
