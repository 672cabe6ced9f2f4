/** The shared column-label normaliser: strip, lowercase, spaces to underscores. */
module BaseCleaner {
  import opened Cells
  import opened Tables

  /** The first position at or after `i` that is not whitespace (or |s|). */
  function SkipBlankForward(s: string, i: nat): (n: nat)
    requires i <= |s|
    ensures i <= n <= |s|
    ensures forall k :: i <= k < n ==> IsSpace(s[k])
    ensures n == |s| || !IsSpace(s[n])
    decreases |s| - i
  {
    if i < |s| && IsSpace(s[i]) then SkipBlankForward(s, i + 1) else i
  }

  /** The end of `s[lo..j]` once its trailing whitespace is dropped. */
  function SkipBlankBackward(s: string, lo: nat, j: nat): (n: nat)
    requires lo <= j <= |s|
    ensures lo <= n <= j
    ensures forall k :: n <= k < j ==> IsSpace(s[k])
    ensures n == lo || !IsSpace(s[n - 1])
    decreases j
  {
    if j > lo && IsSpace(s[j - 1]) then SkipBlankBackward(s, lo, j - 1) else j
  }

  /** str.strip(): the part of `s` between its leading and its trailing whitespace. */
  function Strip(s: string): (r: string)
    ensures var lo := SkipBlankForward(s, 0);
            && lo + |r| <= |s| && r == s[lo..lo + |r|]
            && (forall k :: 0 <= k < lo ==> IsSpace(s[k]))
            && (forall k :: lo + |r| <= k < |s| ==> IsSpace(s[k]))
    ensures r == [] || (!IsSpace(r[0]) && !IsSpace(r[|r| - 1]))
    ensures r == [] <==> IsBlank(s)
  {
    var lo := SkipBlankForward(s, 0);
    var hi := SkipBlankBackward(s, lo, |s|);
    assert hi < |s| ==> lo < hi || lo == |s|;
    s[lo..hi]
  }

  predicate IsUpper(c: char) {
    'A' <= c <= 'Z'
  }

  /** str.lower(), on ASCII letters. */
  function LowerChar(c: char): char {
    if IsUpper(c) then (c as int - 'A' as int + 'a' as int) as char else c
  }

  function Lower(s: string): string {
    seq(|s|, i requires 0 <= i < |s| => LowerChar(s[i]))
  }

  /** str.replace(" ", "_"). */
  function ReplaceSpaces(s: string): string {
    seq(|s|, i requires 0 <= i < |s| => if s[i] == ' ' then '_' else s[i])
  }

  /** str.lower() leaves no upper-case letter: each one becomes the letter the
      same distance from 'a', and every other character stays. */
  lemma LowerChars(s: string)
    ensures |Lower(s)| == |s|
    ensures forall i :: 0 <= i < |s| ==> !IsUpper(Lower(s)[i])
    ensures forall i :: 0 <= i < |s| && IsUpper(s[i]) ==>
              'a' <= Lower(s)[i] <= 'z' && Lower(s)[i] as int - 'a' as int == s[i] as int - 'A' as int
    ensures forall i :: 0 <= i < |s| && !IsUpper(s[i]) ==> Lower(s)[i] == s[i]
  {
  }

  /** str.replace(" ", "_") leaves no space: each one becomes an underscore,
      and every other character stays. */
  lemma ReplaceSpacesChars(s: string)
    ensures |ReplaceSpaces(s)| == |s|
    ensures forall i :: 0 <= i < |s| ==> ReplaceSpaces(s)[i] != ' '
    ensures forall i :: 0 <= i < |s| && s[i] == ' ' ==> ReplaceSpaces(s)[i] == '_'
    ensures forall i :: 0 <= i < |s| && s[i] != ' ' ==> ReplaceSpaces(s)[i] == s[i]
  {
  }

  /** The label a column gets from normalize_columns. */
  function NormalizeLabel(s: string): string {
    ReplaceSpaces(Lower(Strip(s)))
  }

  /** A normalised label has no space and no upper-case letter, no whitespace
      at either end, is as long as the stripped label, and is empty exactly
      when the original label was blank. */
  lemma NormalizeLabelShape(s: string)
    ensures var r := NormalizeLabel(s);
            && |r| == |Strip(s)|
            && (forall i :: 0 <= i < |r| ==> r[i] != ' ' && !IsUpper(r[i]))
            && (r == [] || (!IsSpace(r[0]) && !IsSpace(r[|r| - 1])))
            && (r == [] <==> IsBlank(s))
  {
  }

  function NormalizeLabels(labels: seq<string>): (r: seq<string>)
    ensures |r| == |labels|
    ensures forall j :: 0 <= j < |r| ==> r[j] == NormalizeLabel(labels[j])
  {
    seq(|labels|, j requires 0 <= j < |labels| => NormalizeLabel(labels[j]))
  }

  /** A label with no whitespace at either end is its own strip. */
  lemma StripTrimmed(s: string)
    requires s == [] || (!IsSpace(s[0]) && !IsSpace(s[|s| - 1]))
    ensures Strip(s) == s
  {
  }

  /** A label without any whitespace is its own strip. */
  lemma StripNoSpace(s: string)
    requires forall i :: 0 <= i < |s| ==> !IsSpace(s[i])
    ensures Strip(s) == s
  {
    if |s| > 0 {
      StripTrimmed(s);
    }
  }

  /** Normalising is idempotent: a normalised label normalises to itself. */
  lemma NormalizeLabelIdempotent(s: string)
    ensures NormalizeLabel(NormalizeLabel(s)) == NormalizeLabel(s)
  {
    var r := NormalizeLabel(s);
    NormalizeLabelShape(s);
    StripTrimmed(r);
    assert Lower(r) == r;
    assert ReplaceSpaces(r) == r;
  }

  /** What normalising does to each character of the stripped label: a space
      becomes an underscore, an upper-case letter its lower-case letter, and
      every other character, an interior tab or newline included, stays in place. */
  lemma NormalizeLabelChars(s: string)
    ensures var u := Strip(s);
            && |NormalizeLabel(s)| == |u|
            && (forall i :: 0 <= i < |u| && u[i] == ' ' ==> NormalizeLabel(s)[i] == '_')
            && (forall i :: 0 <= i < |u| && IsUpper(u[i]) ==> NormalizeLabel(s)[i] == LowerChar(u[i]))
            && (forall i :: 0 <= i < |u| && !IsUpper(u[i]) && u[i] != ' ' ==> NormalizeLabel(s)[i] == u[i])
  {
    LowerChars(Strip(s));
    ReplaceSpacesChars(Lower(Strip(s)));
  }

  lemma NormalizeLabelsIdempotent(labels: seq<string>)
    ensures NormalizeLabels(NormalizeLabels(labels)) == NormalizeLabels(labels)
  {
    forall j | 0 <= j < |labels| ensures NormalizeLabel(NormalizeLabel(labels[j])) == NormalizeLabel(labels[j]) {
      NormalizeLabelIdempotent(labels[j]);
    }
  }

  /** normalize_columns: the frame's labels are replaced in place by their
      normalised forms and the same frame is returned; its cells and row
      count are untouched. */
  method NormalizeColumns(df: Frame) returns (same: Frame)
    requires df.Valid()
    modifies df
    ensures same == df && df.Valid()
    ensures df.labels == NormalizeLabels(old(df.labels))
    ensures df.columns == old(df.columns) && df.height == old(df.height)
  {
    df.labels := NormalizeLabels(df.labels);
    same := df;
  }
}
