/**
 * The order in which the pages of one archive folder are uploaded
 * (app.py:177): the file names are sorted by a key that splits each name at
 * its digit runs.
 *
 * Splitting at digit runs while keeping them alternates the text between
 * digit runs and the digit runs themselves, starting and ending with a
 * (possibly empty) text piece; text pieces are compared lowered, digit runs
 * by their value.
 */
module NaturalSort {
  import opened Text
  import opened Order

  /** The number of non-digits `s` starts with. */
  function LeadingNonDigits(s: string): (n: nat)
    ensures n <= |s|
    ensures forall i :: 0 <= i < n ==> !IsDigit(s[i])
    ensures n == |s| || IsDigit(s[n])
  {
    if s != [] && !IsDigit(s[0]) then 1 + LeadingNonDigits(s[1..]) else 0
  }

  /** A non-empty run of decimal digits: `str.isdigit()` on ASCII. */
  predicate IsDigitString(c: string) {
    c != [] && forall i :: 0 <= i < |c| ==> IsDigit(c[i])
  }

  predicate HasNoDigit(c: string) {
    forall i :: 0 <= i < |c| ==> !IsDigit(c[i])
  }

  function DigitValue(c: char): (v: nat)
    requires IsDigit(c)
    ensures v <= 9
  {
    c as int - '0' as int
  }

  /** `int(c)` for a run of decimal digits. */
  function DecimalValue(s: string): (v: nat)
    requires forall i :: 0 <= i < |s| ==> IsDigit(s[i])
  {
    if s == [] then 0 else DecimalValue(s[..|s| - 1]) * 10 + DigitValue(s[|s| - 1])
  }

  /**
   * The shape of a name split at its digit runs: a text piece without
   * digits, then any number of (digit run, text piece) pairs.
   */
  predicate Alternating(r: seq<string>) {
    |r| >= 1 && HasNoDigit(r[0]) && (|r| == 1 || (|r| >= 3 && IsDigitString(r[1]) && Alternating(r[2..])))
  }

  /** `x` split at its digit runs, keeping the runs. */
  function Split(x: string): (r: seq<string>)
    ensures Alternating(r)
    decreases |x|, 1
  {
    var n := LeadingNonDigits(x);
    if n == |x| then [x]
    else
      var r := [x[..n]] + SplitAtDigits(x[n..]);
      assert r[1..] == SplitAtDigits(x[n..]);
      assert r[2..] == SplitAtDigits(x[n..])[1..];
      r
  }

  /** The rest of the split from a digit run on. */
  function SplitAtDigits(t: string): (r: seq<string>)
    requires t != [] && IsDigit(t[0])
    ensures |r| >= 2 && IsDigitString(r[0]) && Alternating(r[1..])
    decreases |t|, 0
  {
    var m := LeadingDigits(t);
    var r := [t[..m]] + Split(t[m..]);
    assert r[1..] == Split(t[m..]);
    r
  }

  function Concat(pieces: seq<string>): string {
    if pieces == [] then [] else pieces[0] + Concat(pieces[1..])
  }

  lemma ConcatCons(a: string, r: seq<string>)
    ensures Concat([a] + r) == a + Concat(r)
  {
    assert ([a] + r)[1..] == r;
  }

  /** Joining the pieces gives back the path: nothing is lost or reordered. */
  lemma {:induction false} SplitConcat(x: string)
    ensures Concat(Split(x)) == x
    decreases |x|, 1
  {
    var n := LeadingNonDigits(x);
    if n < |x| {
      SplitAtDigitsConcat(x[n..]);
      ConcatCons(x[..n], SplitAtDigits(x[n..]));
      assert x[..n] + x[n..] == x;
    } else {
      ConcatCons(x, []);
    }
  }

  lemma {:induction false} SplitAtDigitsConcat(t: string)
    requires t != [] && IsDigit(t[0])
    ensures Concat(SplitAtDigits(t)) == t
    decreases |t|, 0
  {
    var m := LeadingDigits(t);
    SplitConcat(t[m..]);
    ConcatCons(t[..m], Split(t[m..]));
    assert t[..m] + t[m..] == t;
  }

  /** One element of the key: a digit run by its value, any other piece lowered. */
  function PartOf(c: string): Part {
    if IsDigitString(c) then Int(DecimalValue(c)) else Str(Lower(c))
  }

  /** `[PartOf(c) for c in pieces]`. */
  function KeyOf(pieces: seq<string>): (k: seq<Part>)
    ensures |k| == |pieces|
  {
    if pieces == [] then [] else [PartOf(pieces[0])] + KeyOf(pieces[1..])
  }

  /** The sort key of one archive path; it alternates text and numbers, starting and ending with text. */
  function NaturalKey(x: string): (k: seq<Part>)
    ensures KeyAlternates(k)
  {
    KeyOfAlternating(Split(x));
    KeyOf(Split(x))
  }

  /** Text, then any number of (number, text) pairs. */
  predicate KeyAlternates(k: seq<Part>) {
    |k| >= 1 && k[0].Str? && (|k| == 1 || (|k| >= 3 && k[1].Int? && KeyAlternates(k[2..])))
  }

  lemma {:induction false} KeyOfAlternating(r: seq<string>)
    requires Alternating(r)
    ensures KeyAlternates(KeyOf(r))
  {
    var k := KeyOf(r);
    assert r[0] != [] ==> !IsDigit(r[0][0]);
    if |r| > 1 {
      assert KeyOf(r)[1..] == KeyOf(r[1..]);
      assert KeyOf(r[1..])[1..] == KeyOf(r[2..]);
      KeyOfAlternating(r[2..]);
    }
  }

  /**
   * Two keys hold the same kind at every position they share: Python never
   * has to compare an `int` with a `str`, so the sort cannot raise.
   */
  lemma {:induction false} KeysAgreeInKind(k: seq<Part>, l: seq<Part>, i: nat)
    requires KeyAlternates(k) && KeyAlternates(l)
    requires i < |k| && i < |l|
    ensures k[i].Str? <==> l[i].Str?
  {
    if i >= 2 {
      KeysAgreeInKind(k[2..], l[2..], i - 2);
    }
  }

  /**
   * A path made of digit-free text `p`, a digit run `a` and the remainder `q`
   * (empty or not starting with a digit) splits into `p`, `a` and the pieces
   * of `q`.
   */
  lemma SplitJoin(p: string, a: string, q: string)
    requires HasNoDigit(p) && IsDigitString(a)
    requires q == [] || !IsDigit(q[0])
    ensures Split(p + a + q) == [p, a] + Split(q)
  {
    var t := a + q;
    assert p + a + q == p + t;
    assert t[0] == a[0];
    SplitBeforeDigits(p, t);
    SplitAtDigitsJoin(a, q);
  }

  lemma SplitBeforeDigits(p: string, t: string)
    requires HasNoDigit(p)
    requires t != [] && IsDigit(t[0])
    ensures Split(p + t) == [p] + SplitAtDigits(t)
  {
    var x := p + t;
    NonDigitsOfJoin(p, t);
    assert x[..|p|] == p && x[|p|..] == t;
  }

  lemma SplitAtDigitsJoin(a: string, q: string)
    requires IsDigitString(a)
    requires q == [] || !IsDigit(q[0])
    ensures SplitAtDigits(a + q) == [a] + Split(q)
  {
    var t := a + q;
    DigitsOfJoin(a, q);
    assert t[..|a|] == a && t[|a|..] == q;
  }

  lemma {:induction false} NonDigitsOfJoin(p: string, t: string)
    requires HasNoDigit(p)
    requires t != [] && IsDigit(t[0])
    ensures LeadingNonDigits(p + t) == |p|
  {
    if p != [] {
      assert (p + t)[1..] == p[1..] + t;
      NonDigitsOfJoin(p[1..], t);
    }
  }

  lemma {:induction false} DigitsOfJoin(a: string, q: string)
    requires forall i :: 0 <= i < |a| ==> IsDigit(a[i])
    requires q == [] || !IsDigit(q[0])
    ensures LeadingDigits(a + q) == |a|
  {
    if a != [] {
      assert (a + q)[1..] == a[1..] + q;
      DigitsOfJoin(a[1..], q);
    }
  }

  lemma NaturalKeyJoin(p: string, a: string, q: string)
    requires HasNoDigit(p) && IsDigitString(a)
    requires q == [] || !IsDigit(q[0])
    ensures NaturalKey(p + a + q) == [Str(Lower(p)), Int(DecimalValue(a))] + NaturalKey(q)
  {
    SplitJoin(p, a, q);
    KeyOfPair(p, a, Split(q));
    assert p != [] ==> !IsDigit(p[0]);
  }

  lemma KeyOfPair(p: string, a: string, rest: seq<string>)
    ensures KeyOf([p, a] + rest) == [PartOf(p), PartOf(a)] + KeyOf(rest)
  {
    var r := [p, a] + rest;
    assert r[1..] == [a] + rest;
    assert r[1..][1..] == rest;
  }

  /**
   * Pages that differ only in their number are ordered by its value, not by
   * its digits: `page2` comes before `page10`.
   */
  lemma NumberedPagesInNumericOrder(p: string, a: string, b: string, q: string, r: string)
    requires HasNoDigit(p) && IsDigitString(a) && IsDigitString(b)
    requires q == [] || !IsDigit(q[0])
    requires r == [] || !IsDigit(r[0])
    requires DecimalValue(a) < DecimalValue(b)
    ensures KeyLess(NaturalKey(p + a + q), NaturalKey(p + b + r))
  {
    NaturalKeyJoin(p, a, q);
    NaturalKeyJoin(p, b, r);
    var k, l := NaturalKey(p + a + q), NaturalKey(p + b + r);
    assert k[1..][0] == Int(DecimalValue(a)) && l[1..][0] == Int(DecimalValue(b));
  }

  /** Numbers that differ only in leading zeros give the same key: `page01` ties with `page1`. */
  lemma LeadingZerosTie(p: string, a: string, b: string, q: string)
    requires HasNoDigit(p) && IsDigitString(a) && IsDigitString(b)
    requires q == [] || !IsDigit(q[0])
    requires DecimalValue(a) == DecimalValue(b)
    ensures NaturalKey(p + a + q) == NaturalKey(p + b + q)
  {
    NaturalKeyJoin(p, a, q);
    NaturalKeyJoin(p, b, q);
  }

  /** Every piece lowered. */
  function LowerAll(pieces: seq<string>): (r: seq<string>)
    ensures |r| == |pieces|
  {
    if pieces == [] then [] else [Lower(pieces[0])] + LowerAll(pieces[1..])
  }

  lemma {:induction false} SplitOfLower(x: string)
    ensures Split(Lower(x)) == LowerAll(Split(x))
    decreases |x|, 1
  {
    var n := LeadingNonDigits(x);
    LeadingNonDigitsOfLower(x);
    LowerOfPrefix(x, n);
    if n < |x| {
      LowerOfSuffix(x, n);
      SplitAtDigitsOfLower(x[n..]);
      var r := [x[..n]] + SplitAtDigits(x[n..]);
      assert r[1..] == SplitAtDigits(x[n..]);
    }
  }

  lemma {:induction false} SplitAtDigitsOfLower(t: string)
    requires t != [] && IsDigit(t[0])
    ensures Lower(t) != [] && IsDigit(Lower(t)[0])
    ensures SplitAtDigits(Lower(t)) == LowerAll(SplitAtDigits(t))
    decreases |t|, 0
  {
    var m := LeadingDigits(t);
    LeadingDigitsOfLower(t);
    LowerOfPrefix(t, m);
    LowerOfSuffix(t, m);
    SplitOfLower(t[m..]);
    var r := [t[..m]] + Split(t[m..]);
    assert r[1..] == Split(t[m..]);
  }

  lemma PartOfLower(c: string)
    ensures PartOf(Lower(c)) == PartOf(c)
  {
    if IsDigitString(c) {
      assert Lower(c) == c;
    } else {
      assert !IsDigitString(Lower(c)) by {
        if c != [] {
          var i :| 0 <= i < |c| && !IsDigit(c[i]);
          assert !IsDigit(Lower(c)[i]);
        }
      }
      LowerIdempotent(c);
    }
  }

  lemma {:induction false} KeyOfLowerAll(pieces: seq<string>)
    ensures KeyOf(LowerAll(pieces)) == KeyOf(pieces)
  {
    if pieces != [] {
      PartOfLower(pieces[0]);
      KeyOfLowerAll(pieces[1..]);
      assert LowerAll(pieces)[1..] == LowerAll(pieces[1..]);
    }
  }

  /** The key ignores case. */
  lemma NaturalKeyIgnoresCase(x: string)
    ensures NaturalKey(Lower(x)) == NaturalKey(x)
  {
    SplitOfLower(x);
    KeyOfLowerAll(Split(x));
  }

  lemma LeadingNonDigitsOfLower(x: string)
    ensures LeadingNonDigits(Lower(x)) == LeadingNonDigits(x)
  {
    var n, l := LeadingNonDigits(x), LeadingNonDigits(Lower(x));
    assert n < |x| ==> IsDigit(Lower(x)[n]);
    assert l < |x| ==> IsDigit(x[l]);
  }

  lemma LeadingDigitsOfLower(x: string)
    ensures LeadingDigits(Lower(x)) == LeadingDigits(x)
  {
    var n, l := LeadingDigits(x), LeadingDigits(Lower(x));
    assert n < |x| ==> !IsDigit(Lower(x)[n]);
    assert l < |x| ==> !IsDigit(x[l]);
  }

  /** `files.sort(key=...)`. */
  function NaturalSorted(files: seq<string>): seq<string> {
    SortBy(files, NaturalKey)
  }

  /** The sort is a permutation, ordered by the key, and stable: paths with equal keys keep the archive's order. */
  lemma NaturalSortedCorrect(files: seq<string>)
    ensures multiset(NaturalSorted(files)) == multiset(files)
    ensures SortedBy(NaturalSorted(files), NaturalKey)
    ensures forall k :: WithKey(NaturalSorted(files), NaturalKey, k) == WithKey(files, NaturalKey, k)
  {
    SortByCorrect(files, NaturalKey);
  }

  /** `page1.jpg`, `page2.jpg`, `page10.jpg` sort numerically, and `page01.jpg` ties with `page1.jpg`. */
  lemma PageExamples(p: string, q: string, one: string, two: string, ten: string, zeroOne: string)
    requires p == "page" && q == ".jpg" && one == "1" && two == "2" && ten == "10" && zeroOne == "01"
    ensures KeyLess(NaturalKey(p + one + q), NaturalKey(p + two + q))
    ensures KeyLess(NaturalKey(p + two + q), NaturalKey(p + ten + q))
    ensures NaturalKey(p + zeroOne + q) == NaturalKey(p + one + q)
  {
    DecimalExamples(one, two, ten, zeroOne);
    NumberedPagesInNumericOrder(p, one, two, q, q);
    NumberedPagesInNumericOrder(p, two, ten, q, q);
    LeadingZerosTie(p, zeroOne, one, q);
  }

  lemma DecimalExamples(one: string, two: string, ten: string, zeroOne: string)
    requires one == "1" && two == "2" && ten == "10" && zeroOne == "01"
    ensures DecimalValue(one) == 1 && DecimalValue(two) == 2 && DecimalValue(ten) == 10 && DecimalValue(zeroOne) == 1
  {
    assert ten[..1] == "1" && zeroOne[..1] == "0";
  }
}
