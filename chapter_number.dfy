/**
 * `extract_chapter_number` (app.py:135-146): the chapter key of an archive folder.
 *
 * The lowered folder name loses one leading label (`chapter`, `ch`, `episode`,
 * `ep`, tried in that order) together with the `[\s\-_]*` after it; the first
 * `\d+(\.\d+)?` in what is left is the chapter key; a name without any digit is
 * its own key, with its original case.
 */
module ChapterNumber {
  import opened Wrappers
  import opened Text

  /** The labels of the alternation `(chapter|ch|episode|ep)`, in the order it tries them. */
  const Labels: seq<string> := ["chapter", "ch", "episode", "ep"]

  /** `[\s\-_]`: what may follow a label. */
  predicate IsLabelSeparator(c: char) { IsSpace(c) || c == '-' || c == '_' }

  /** The first of `labels` that `s` starts with. */
  function MatchedLabel(s: string, labels: seq<string>): (r: Option<string>)
    ensures r.Some? ==> r.value in labels && StartsWith(s, r.value)
    ensures r.None? ==> forall l :: l in labels ==> !StartsWith(s, l)
  {
    if labels == [] then None
    else if StartsWith(s, labels[0]) then Some(labels[0])
    else MatchedLabel(s, labels[1..])
  }

  /** How many characters `[\s\-_]*` takes at the start of `s`. */
  function LabelSeparatorsLength(s: string): (n: nat)
    ensures n <= |s|
    ensures forall i :: 0 <= i < n ==> IsLabelSeparator(s[i])
    ensures n == |s| || !IsLabelSeparator(s[n])
  {
    if s != [] && IsLabelSeparator(s[0]) then 1 + LabelSeparatorsLength(s[1..]) else 0
  }

  lemma LabelsHaveNoDigits()
    ensures forall l, i :: l in Labels && 0 <= i < |l| ==> !IsDigit(l[i])
  {
  }

  /** How many characters `^(chapter|ch|episode|ep)[\s\-_]*` matches at the start of `s`: none of them a digit. */
  function LabelLength(s: string): (n: nat)
    ensures n <= |s|
    ensures forall i :: 0 <= i < n ==> !IsDigit(s[i])
  {
    match MatchedLabel(s, Labels)
    case None => 0
    case Some(l) =>
      LabelsHaveNoDigits();
      assert forall i :: 0 <= i < |l| ==> s[i] == l[i];
      |l| + LabelSeparatorsLength(s[|l|..])
  }

  /** `s` without its leading label and the separators after it, when it starts with one. */
  function StripLabel(s: string): string
  {
    s[LabelLength(s)..]
  }

  /** A digit run, then at most one `.` and another digit run: what `\d+(\.\d+)?` matches. */
  predicate IsNumeral(r: string) {
    var n := LeadingDigits(r);
    n >= 1 && (n == |r| || (r[n] == '.' && n + 1 < |r| && LeadingDigits(r[n + 1..]) == |r| - n - 1))
  }

  /** The match of `\d+(\.\d+)?` at the start of `s`, which starts with a digit. */
  function Numeral(s: string): (r: string)
    requires s != [] && IsDigit(s[0])
    ensures |r| <= |s| && forall i :: 0 <= i < |r| ==> r[i] == s[i]
    ensures IsNumeral(r)
    ensures |r| == |s| || !IsDigit(s[|r|])
    ensures LeadingDigits(r) == |r| ==> !(|r| + 1 < |s| && s[|r|] == '.' && IsDigit(s[|r| + 1]))
  {
    var n := LeadingDigits(s);
    if n + 1 < |s| && s[n] == '.' && IsDigit(s[n + 1]) then
      var m := LeadingDigits(s[n + 1..]);
      var r := s[..n + 1 + m];
      assert LeadingDigits(r) == n by { LeadingDigitsOfPrefix(s, r, n); }
      assert r[n + 1..] == s[n + 1..][..m];
      LeadingDigitsOfPrefix(s[n + 1..], r[n + 1..], m);
      r
    else
      var r := s[..n];
      LeadingDigitsOfPrefix(s, r, n);
      r
  }

  /** A prefix that keeps the first `n` digits and stops there (or at the end) has `n` leading digits. */
  lemma {:induction false} LeadingDigitsOfPrefix(s: string, r: string, n: nat)
    requires n == LeadingDigits(s) && |r| <= |s| && forall i :: 0 <= i < |r| ==> r[i] == s[i]
    requires n <= |r|
    ensures LeadingDigits(r) == n
  {
    if n > 0 {
      assert r[0] == s[0];
      LeadingDigitsOfPrefix(s[1..], r[1..], n - 1);
    }
  }

  /** Where the first digit of `s` is, or `|s|` when there is none: where `re.search` finds `\d`. */
  function FirstDigit(s: string): (k: nat)
    ensures k <= |s|
    ensures forall i :: 0 <= i < k ==> !IsDigit(s[i])
    ensures k < |s| ==> IsDigit(s[k])
  {
    if s == [] then 0 else if IsDigit(s[0]) then 0 else 1 + FirstDigit(s[1..])
  }

  /** The leftmost integer-or-decimal numeral of `s`: it starts at the first digit. */
  function SearchNumeral(s: string): (r: Option<string>)
    ensures r.None? <==> FirstDigit(s) == |s|
    ensures r.Some? ==> r.value == Numeral(s[FirstDigit(s)..])
  {
    var k := FirstDigit(s);
    if k < |s| then Some(Numeral(s[k..])) else None
  }

  /** The chapter key of a folder, as the source computes it (its meaning: ExtractChapterNumberIsFirstNumeral). */
  function ExtractChapterNumber(name: string): (r: string)
    ensures |r| <= |name|
  {
    match SearchNumeral(StripLabel(Lower(name)))
    case Some(n) => n
    case None => name
  }

  /**
   * The key does not depend on the label or on case: it is the numeral at the
   * folder name's first digit, or the name itself when it holds no digit.
   */
  lemma ExtractChapterNumberIsFirstNumeral(name: string)
    ensures FirstDigit(name) == |name| ==> ExtractChapterNumber(name) == name
    ensures FirstDigit(name) < |name| ==> ExtractChapterNumber(name) == Numeral(name[FirstDigit(name)..])
  {
    var lowered := Lower(name);
    SearchAfterLabel(lowered);
    SearchLowered(name);
  }

  lemma SearchAfterLabel(s: string)
    ensures SearchNumeral(StripLabel(s)) == SearchNumeral(s)
  {
    SearchAfterPrefix(s, LabelLength(s));
  }

  /** Skipping a prefix without digits changes nothing that `re.search` finds. */
  lemma SearchAfterPrefix(s: string, d: nat)
    requires d <= |s| && forall i :: 0 <= i < d ==> !IsDigit(s[i])
    ensures SearchNumeral(s[d..]) == SearchNumeral(s)
  {
    FirstDigitAfter(s, d);
    var k := FirstDigit(s[d..]);
    if d + k < |s| {
      SliceOfSlice(s, d, k);
      assert SearchNumeral(s[d..]) == Some(Numeral(s[d..][k..]));
      assert SearchNumeral(s) == Some(Numeral(s[d + k..]));
    }
  }

  lemma SearchLowered(s: string)
    ensures SearchNumeral(Lower(s)) == SearchNumeral(s)
  {
    FirstDigitOfLower(s);
    var k := FirstDigit(s);
    if k < |s| {
      LowerOfSuffix(s, k);
      var t := Lower(s[k..]);
      assert SameNumerals(s[k..], t);
      NumeralOfSameNumerals(s[k..], t);
    }
  }

  lemma SliceOfSlice(s: string, d: nat, k: nat)
    requires d + k <= |s|
    ensures s[d..][k..] == s[d + k..]
  {
  }

  /** Lowering moves no digit: the first digit of `Lower(s)` is the first digit of `s`. */
  lemma FirstDigitOfLower(s: string)
    ensures FirstDigit(Lower(s)) == FirstDigit(s)
  {
    var k, l := FirstDigit(s), FirstDigit(Lower(s));
    assert l < |s| ==> IsDigit(s[l]);
    assert k < |s| ==> IsDigit(Lower(s)[k]);
  }

  /** Skipping a prefix without digits moves the first digit by the prefix length. */
  lemma FirstDigitAfter(s: string, d: nat)
    requires d <= |s| && forall i :: 0 <= i < d ==> !IsDigit(s[i])
    ensures FirstDigit(s) == d + FirstDigit(s[d..])
  {
    var k, l := FirstDigit(s[d..]), FirstDigit(s);
    assert k < |s| - d ==> IsDigit(s[d + k]);
    assert l >= d ==> l - d < |s| - d ==> IsDigit(s[d..][l - d]);
  }

  /**
   * `t` has digits and dots exactly where `s` has them, and the same ones:
   * what lowering keeps, and all a numeral depends on.
   */
  predicate SameNumerals(s: string, t: string) {
    |t| == |s| &&
    forall i :: 0 <= i < |s| ==> (IsDigit(s[i]) || s[i] == '.' || IsDigit(t[i]) || t[i] == '.' ==> t[i] == s[i])
  }

  lemma {:induction false} LeadingDigitsOfSameNumerals(s: string, t: string)
    requires SameNumerals(s, t)
    ensures LeadingDigits(t) == LeadingDigits(s)
  {
    if s != [] {
      LeadingDigitsOfSameNumerals(s[1..], t[1..]);
    }
  }

  lemma NumeralOfSameNumerals(s: string, t: string)
    requires s != [] && IsDigit(s[0]) && SameNumerals(s, t)
    ensures t != [] && IsDigit(t[0]) && Numeral(t) == Numeral(s)
  {
    LeadingDigitsOfSameNumerals(s, t);
    var n := LeadingDigits(s);
    if n + 1 < |s| && s[n] == '.' && IsDigit(s[n + 1]) {
      assert t[n] == '.' && IsDigit(t[n + 1]);
      assert SameNumerals(s[n + 1..], t[n + 1..]);
      LeadingDigitsOfSameNumerals(s[n + 1..], t[n + 1..]);
      var m := LeadingDigits(s[n + 1..]);
      SamePrefix(s, t, n + 1 + m);
    } else {
      assert !(n + 1 < |t| && t[n] == '.' && IsDigit(t[n + 1]));
      SamePrefix(s, t, n);
    }
  }

  /** The first `k` characters of two strings with the same numerals agree when none of them is anything else. */
  lemma SamePrefix(s: string, t: string, k: nat)
    requires SameNumerals(s, t) && k <= |s|
    requires forall i :: 0 <= i < k ==> IsDigit(s[i]) || s[i] == '.'
    ensures t[..k] == s[..k]
  {
  }

  /** A name that starts with digit-free text and then a digit has the numeral there as its key. */
  lemma ExtractAfterPrefix(p: string, t: string)
    requires forall i :: 0 <= i < |p| ==> !IsDigit(p[i])
    requires t != [] && IsDigit(t[0])
    ensures ExtractChapterNumber(p + t) == Numeral(t)
  {
    var s := p + t;
    FirstDigitAfter(s, |p|);
    assert s[|p|..] == t;
    ExtractChapterNumberIsFirstNumeral(s);
  }

  /** A name without digits is its own key. */
  lemma ExtractWithoutDigits(name: string)
    requires forall i :: 0 <= i < |name| ==> !IsDigit(name[i])
    ensures ExtractChapterNumber(name) == name
  {
    ExtractChapterNumberIsFirstNumeral(name);
  }

  /**
   * The cases of the repository's own tests. Each name is built from
   * parameters so that the verifier follows the lemmas above rather than
   * evaluating every step on the literal.
   */
  lemma ExtractExampleChapter(p: string, d: string)
    requires p == "Chapter " && d == "1"
    ensures ExtractChapterNumber(p + d) == d
  {
    NumeralExamples(d, "2.5", "10", "03");
    ExtractAfterPrefix(p, d);
  }

  lemma ExtractExampleCh(p: string, d: string)
    requires p == "ch " && d == "2.5"
    ensures ExtractChapterNumber(p + d) == d
  {
    NumeralExamples("1", d, "10", "03");
    ExtractAfterPrefix(p, d);
  }

  lemma ExtractExampleEpisode(p: string, d: string)
    requires p == "Episode " && d == "10"
    ensures ExtractChapterNumber(p + d) == d
  {
    NumeralExamples("1", "2.5", d, "03");
    ExtractAfterPrefix(p, d);
  }

  /** The leading zero stays: the key is a string, not a number. */
  lemma ExtractExampleLeadingZero(p: string, d: string)
    requires p == "chapter-" && d == "03"
    ensures ExtractChapterNumber(p + d) == d
  {
    NumeralExamples("1", "2.5", "10", d);
    ExtractAfterPrefix(p, d);
  }

  lemma ExtractExampleWithoutDigits(n: string)
    requires n == "Special Chapter"
    ensures ExtractChapterNumber(n) == n
  {
    ExtractWithoutDigits(n);
  }

  lemma NumeralExamples(d1: string, d2: string, d3: string, d4: string)
    requires d1 == "1" && d2 == "2.5" && d3 == "10" && d4 == "03"
    ensures Numeral(d1) == d1 && Numeral(d2) == d2 && Numeral(d3) == d3 && Numeral(d4) == d4
  {
    assert LeadingDigits(d2) == 1;
    assert d2[2..] == "5";
    assert LeadingDigits(d2[2..]) == 1;
  }
}
