/**
 * `slugify` (app.py:128-133): the catalog key of a work, derived from its title.
 *
 *   1. lower-case the text and delete every character outside `[\w\s-]`;
 *   2. replace every run of `-` and white space by a single `-`;
 *   3. strip `-` from both ends.
 */
module Slug {
  import opened Text

  /** Characters the first substitution keeps: `[\w\s-]`. */
  predicate Kept(c: char) { IsWordChar(c) || IsSpace(c) || c == '-' }

  /** Characters the second substitution collapses: `[-\s]`. */
  predicate IsSeparator(c: char) { c == '-' || IsSpace(c) }

  /** Characters a slug may hold: lower-case word characters and `-`. */
  predicate IsSlugChar(c: char) { IsLowerLetter(c) || IsDigit(c) || c == '_' || c == '-' }

  /** No two neighbouring hyphens. */
  predicate NoDoubleHyphen(s: string) {
    |s| < 2 || (!(s[0] == '-' && s[1] == '-') && NoDoubleHyphen(s[1..]))
  }

  /** What every slug looks like: no white space, no upper case, single hyphens, none at the ends. */
  predicate IsSlug(s: string) {
    && (forall i :: 0 <= i < |s| ==> IsSlugChar(s[i]))
    && NoDoubleHyphen(s)
    && (s == [] || (s[0] != '-' && s[|s| - 1] != '-'))
  }

  /** The word characters of `s`, in order: what a slug keeps of a title besides hyphens. */
  function WordChars(s: string): (r: string)
    ensures |r| <= |s|
  {
    if s == [] then [] else (if IsWordChar(s[0]) then [s[0]] else []) + WordChars(s[1..])
  }

  lemma {:induction false} WordCharsAppend(a: string, b: string)
    ensures WordChars(a + b) == WordChars(a) + WordChars(b)
  {
    if a != [] {
      WordCharsAppend(a[1..], b);
      assert (a + b)[0] == a[0] && (a + b)[1..] == a[1..] + b;
    } else {
      assert a + b == b;
    }
  }

  lemma WordCharsCons(c: char, x: string)
    ensures WordChars([c] + x) == (if IsWordChar(c) then [c] else []) + WordChars(x)
  {
    assert ([c] + x)[1..] == x;
  }

  /** Step 1 on an already lowered string: delete every character outside `[\w\s-]`. */
  function DropUnkept(s: string): string {
    if s == [] then []
    else if Kept(s[0]) then [s[0]] + DropUnkept(s[1..])
    else DropUnkept(s[1..])
  }

  /** What step 1 leaves of a lowered string. */
  predicate Collapsible(s: string) {
    forall i :: 0 <= i < |s| ==> Kept(s[i]) && !IsUpper(s[i])
  }

  /** Step 1 keeps only `[\w\s-]`, adds no upper case, and loses no word character. */
  lemma {:induction false} DropUnkeptProperties(s: string)
    ensures forall i :: 0 <= i < |DropUnkept(s)| ==> Kept(DropUnkept(s)[i])
    ensures (forall i :: 0 <= i < |s| ==> !IsUpper(s[i])) ==> Collapsible(DropUnkept(s))
    ensures WordChars(DropUnkept(s)) == WordChars(s)
  {
    if s != [] {
      DropUnkeptProperties(s[1..]);
      WordCharsCons(s[0], s[1..]);
      assert s == [s[0]] + s[1..];
      if Kept(s[0]) {
        WordCharsCons(s[0], DropUnkept(s[1..]));
        assert ([s[0]] + DropUnkept(s[1..]))[1..] == DropUnkept(s[1..]);
      }
    }
  }

  lemma {:induction false} DropUnkeptOfKept(s: string)
    requires forall i :: 0 <= i < |s| ==> Kept(s[i])
    ensures DropUnkept(s) == s
  {
    if s != [] { DropUnkeptOfKept(s[1..]); }
  }

  /** The separators at the front of `s` taken off. */
  function DropSeparators(s: string): (r: string)
    ensures |r| <= |s| && forall i :: 0 <= i < |r| ==> r[i] == s[|s| - |r| + i]
    ensures r == [] || !IsSeparator(r[0])
  {
    if s != [] && IsSeparator(s[0]) then DropSeparators(s[1..]) else s
  }

  lemma {:induction false} DropSeparatorsWordChars(s: string)
    ensures WordChars(DropSeparators(s)) == WordChars(s)
  {
    if s != [] && IsSeparator(s[0]) {
      DropSeparatorsWordChars(s[1..]);
      assert WordChars(s) == WordChars(s[1..]);
    }
  }

  lemma {:induction false} DropSeparatorsPrefix(p: string, t: string)
    requires forall i :: 0 <= i < |p| ==> IsSeparator(p[i])
    requires t == [] || !IsSeparator(t[0])
    ensures DropSeparators(p + t) == t
  {
    if p == [] {
      assert p + t == t;
    } else {
      var u := p + t;
      assert u[0] == p[0] && IsSeparator(u[0]);
      assert u[1..] == p[1..] + t;
      assert DropSeparators(u) == DropSeparators(u[1..]);
      DropSeparatorsPrefix(p[1..], t);
    }
  }

  /** Step 2: every run of hyphens and white space becomes one hyphen. */
  function Collapse(s: string): string
    decreases |s|
  {
    if s == [] then []
    else if IsSeparator(s[0]) then ['-'] + Collapse(DropSeparators(s))
    else [s[0]] + Collapse(s[1..])
  }

  /** What step 2 makes of step 1's output: hyphens that stand alone, nothing else touched. */
  lemma {:induction false} CollapseProperties(s: string)
    requires Collapsible(s)
    ensures forall i :: 0 <= i < |Collapse(s)| ==> IsSlugChar(Collapse(s)[i])
    ensures NoDoubleHyphen(Collapse(s))
    ensures s != [] && !IsSeparator(s[0]) ==> Collapse(s) != [] && Collapse(s)[0] == s[0]
    ensures WordChars(Collapse(s)) == WordChars(s)
    decreases |s|
  {
    if s == [] {
    } else if IsSeparator(s[0]) {
      var rest := DropSeparators(s);
      CollapseProperties(rest);
      DropSeparatorsWordChars(s);
      var r := ['-'] + Collapse(rest);
      WordCharsCons('-', Collapse(rest));
      assert r[1..] == Collapse(rest);
    } else {
      CollapseProperties(s[1..]);
      var r := [s[0]] + Collapse(s[1..]);
      assert r[1..] == Collapse(s[1..]);
      WordCharsCons(s[0], Collapse(s[1..]));
      WordCharsCons(s[0], s[1..]);
      assert s == [s[0]] + s[1..];
    }
  }

  /** Characters other than separators pass through step 2 unchanged. */
  lemma {:induction false} CollapseWord(w: string, t: string)
    requires forall i :: 0 <= i < |w| ==> !IsSeparator(w[i])
    ensures Collapse(w + t) == w + Collapse(t)
  {
    if w == [] {
      assert w + t == t;
    } else {
      var u := w + t;
      assert u[0] == w[0] && u[1..] == w[1..] + t;
      CollapseWord(w[1..], t);
      assert w == [w[0]] + w[1..];
    }
  }

  /** A run of separators becomes one hyphen. */
  lemma CollapseSeparators(p: string, t: string)
    requires p != [] && forall i :: 0 <= i < |p| ==> IsSeparator(p[i])
    requires t == [] || !IsSeparator(t[0])
    ensures Collapse(p + t) == "-" + Collapse(t)
  {
    DropSeparatorsPrefix(p, t);
    assert (p + t)[0] == p[0];
  }

  function DropLeadingHyphens(s: string): (r: string)
    ensures |r| <= |s| && forall i :: 0 <= i < |r| ==> r[i] == s[|s| - |r| + i]
    ensures r == [] || r[0] != '-'
  {
    if s != [] && s[0] == '-' then DropLeadingHyphens(s[1..]) else s
  }

  function DropTrailingHyphens(s: string): (r: string)
    ensures |r| <= |s| && forall i :: 0 <= i < |r| ==> r[i] == s[i]
    ensures r == [] || r[|r| - 1] != '-'
  {
    if s != [] && s[|s| - 1] == '-' then DropTrailingHyphens(s[..|s| - 1]) else s
  }

  lemma {:induction false} NoDoubleHyphenDropLast(s: string)
    requires s != []
    ensures NoDoubleHyphen(s) ==> NoDoubleHyphen(s[..|s| - 1])
    decreases |s|
  {
    if |s| >= 3 {
      NoDoubleHyphenDropLast(s[1..]);
      assert s[1..][..|s| - 2] == s[..|s| - 1][1..];
    }
  }

  lemma {:induction false} DropLeadingHyphensProperties(s: string)
    ensures NoDoubleHyphen(s) ==> NoDoubleHyphen(DropLeadingHyphens(s))
    ensures WordChars(DropLeadingHyphens(s)) == WordChars(s)
  {
    if s != [] && s[0] == '-' {
      DropLeadingHyphensProperties(s[1..]);
    }
  }

  lemma {:induction false} DropTrailingHyphensProperties(s: string)
    ensures NoDoubleHyphen(s) ==> NoDoubleHyphen(DropTrailingHyphens(s))
    ensures WordChars(DropTrailingHyphens(s)) == WordChars(s)
    decreases |s|
  {
    if s != [] && s[|s| - 1] == '-' {
      NoDoubleHyphenDropLast(s);
      DropTrailingHyphensProperties(s[..|s| - 1]);
      WordCharsAppend(s[..|s| - 1], [s[|s| - 1]]);
      assert s == s[..|s| - 1] + [s[|s| - 1]];
    }
  }

  /** Step 3: hyphens removed from both ends. */
  function StripHyphens(s: string): (r: string)
    ensures |r| <= |s|
    ensures r == [] || (r[0] != '-' && r[|r| - 1] != '-')
  {
    DropTrailingHyphens(DropLeadingHyphens(s))
  }

  /** Stripping takes a middle part of `s`: no new characters, no new hyphen pairs, the same word characters. */
  lemma StripHyphensProperties(s: string)
    ensures (forall i :: 0 <= i < |s| ==> IsSlugChar(s[i])) ==>
              forall i :: 0 <= i < |StripHyphens(s)| ==> IsSlugChar(StripHyphens(s)[i])
    ensures NoDoubleHyphen(s) ==> NoDoubleHyphen(StripHyphens(s))
    ensures WordChars(StripHyphens(s)) == WordChars(s)
  {
    DropLeadingHyphensProperties(s);
    DropTrailingHyphensProperties(DropLeadingHyphens(s));
  }

  /** The slug of a title; always a well-formed slug. */
  function Slugify(text: string): (r: string)
    ensures IsSlug(r)
  {
    var lowered := Lower(text);
    var kept := DropUnkept(lowered);
    assert forall i :: 0 <= i < |lowered| ==> !IsUpper(lowered[i]);
    DropUnkeptProperties(lowered);
    CollapseProperties(kept);
    StripHyphensProperties(Collapse(kept));
    StripHyphens(Collapse(kept))
  }

  /**
   * The slug keeps every letter (lowered), digit and underscore of the title in
   * order: taking its hyphens out gives exactly the word characters of the lowered title.
   */
  lemma SlugifyKeepsWordChars(text: string)
    ensures WordChars(Slugify(text)) == WordChars(Lower(text))
  {
    DropUnkeptProperties(Lower(text));
    CollapseProperties(DropUnkept(Lower(text)));
    StripHyphensProperties(Collapse(DropUnkept(Lower(text))));
  }

  /** Collapsing leaves a slug alone: its hyphens already stand alone. */
  lemma {:induction false} CollapseOfSlug(s: string)
    requires forall i :: 0 <= i < |s| ==> IsSlugChar(s[i])
    requires NoDoubleHyphen(s)
    requires s == [] || s[|s| - 1] != '-'
    ensures Collapse(s) == s
    decreases |s|
  {
    if s != [] {
      var t := s[1..];
      assert forall i :: 0 <= i < |t| ==> IsSlugChar(t[i]);
      CollapseOfSlug(t);
      if s[0] == '-' {
        assert t != [] && t[0] == s[1] && !IsSeparator(t[0]);
        assert DropSeparators(s) == t;
        assert Collapse(s) == ['-'] + Collapse(t);
      } else {
        assert Collapse(s) == [s[0]] + Collapse(t);
      }
      assert s == [s[0]] + t;
    }
  }

  /** A string is its own slug exactly when it is a slug; so slugify is idempotent. */
  lemma SlugifyFixedPoints(t: string)
    ensures Slugify(t) == t <==> IsSlug(t)
    ensures Slugify(Slugify(t)) == Slugify(t)
  {
    forall s | IsSlug(s) ensures Slugify(s) == s {
      assert Lower(s) == s;
      DropUnkeptOfKept(s);
      CollapseOfSlug(s);
    }
  }

  /** A run of word characters. */
  predicate IsWord(w: string) {
    w != [] && forall i :: 0 <= i < |w| ==> IsWordChar(w[i])
  }

  /** A run of white space and hyphens, possibly empty. */
  predicate IsBlank(p: string) {
    forall i :: 0 <= i < |p| ==> IsSeparator(p[i])
  }

  lemma LowerAppend(x: string, y: string)
    ensures Lower(x + y) == Lower(x) + Lower(y)
  {
    forall i | 0 <= i < |x + y| ensures Lower(x + y)[i] == (Lower(x) + Lower(y))[i] {
      if i < |x| { assert (x + y)[i] == x[i]; } else { assert (x + y)[i] == y[i - |x|]; }
    }
  }

  lemma {:induction false} LowerOfNoUpper(s: string)
    requires forall i :: 0 <= i < |s| ==> !IsUpper(s[i])
    ensures Lower(s) == s
  {
    if s != [] {
      LowerOfNoUpper(s[1..]);
      assert s == [s[0]] + s[1..];
    }
  }

  lemma LowerPaddedJoin(p: string, a: string, m: string, b: string, q: string)
    requires IsBlank(p) && IsBlank(m) && IsBlank(q)
    ensures Lower(p + a + m + b + q) == p + Lower(a) + m + Lower(b) + q
  {
    LowerOfNoUpper(p);
    LowerOfNoUpper(m);
    LowerOfNoUpper(q);
    LowerAppend(p, a);
    LowerAppend(p + a, m);
    LowerAppend(p + a + m, b);
    LowerAppend(p + a + m + b, q);
  }

  lemma CollapseJoin(a: string, m: string, b: string, q: string)
    requires IsWord(a) && IsBlank(m) && m != [] && IsWord(b) && IsBlank(q)
    ensures Collapse(a + (m + (b + q))) == a + ("-" + (b + (if q == [] then [] else "-")))
  {
    if q != [] {
      CollapseSeparators(q, []);
      assert q + [] == q;
    }
    CollapseWord(b, q);
    CollapseSeparators(m, b + q);
    CollapseWord(a, m + (b + q));
  }

  lemma CollapsePaddedJoin(p: string, a: string, m: string, b: string, q: string)
    requires IsBlank(p) && IsWord(a) && IsBlank(m) && m != [] && IsWord(b) && IsBlank(q)
    ensures Collapse(p + a + m + b + q) ==
              (if p == [] then [] else "-") + a + "-" + b + (if q == [] then [] else "-")
  {
    var head, tail := if p == [] then [] else "-", if q == [] then [] else "-";
    var rest := a + (m + (b + q));
    CollapseJoin(a, m, b, q);
    if p == [] {
      assert p + rest == rest;
    } else {
      CollapseSeparators(p, rest);
    }
    assert head + (a + ("-" + (b + tail))) == Collapse(p + rest);
    Reassociate(p, a, m, b, q);
    Reassociate(head, a, "-", b, tail);
  }

  lemma Regroup(l: string, a: string, b: string, r: string)
    ensures l + a + "-" + b + r == l + ((a + "-" + b) + r)
  {
  }

  /** Concatenation is associative. */
  lemma Reassociate(p: string, a: string, m: string, b: string, q: string)
    ensures p + a + m + b + q == p + (a + (m + (b + q)))
  {
  }

  lemma DropLeadingHyphenOnce(x: string)
    requires x != [] && x[0] != '-'
    ensures DropLeadingHyphens(x) == x && DropLeadingHyphens("-" + x) == x
  {
    var y := "-" + x;
    assert y[0] == '-' && y[1..] == x;
    assert DropLeadingHyphens(y) == DropLeadingHyphens(x);
  }

  lemma DropTrailingHyphenOnce(x: string)
    requires x != [] && x[|x| - 1] != '-'
    ensures DropTrailingHyphens(x) == x && DropTrailingHyphens(x + "-") == x
  {
    assert (x + "-")[..|x|] == x;
  }

  lemma StripHyphensPadded(l: string, a: string, b: string, r: string)
    requires l == [] || l == "-"
    requires r == [] || r == "-"
    requires IsWord(a) && IsWord(b)
    ensures StripHyphens(l + a + "-" + b + r) == a + "-" + b
  {
    var core := a + "-" + b;
    assert core[0] == a[0] && core[|core| - 1] == b[|b| - 1];
    assert DropLeadingHyphens(l + a + "-" + b + r) == core + r by {
      Regroup(l, a, b, r);
      DropLeadingHyphenOnce(core + r);
      if l == [] { assert l + (core + r) == core + r; }
    }
    assert DropTrailingHyphens(core + r) == core by {
      DropTrailingHyphenOnce(core);
      if r == [] { assert core + r == core; }
    }
  }

  /**
   * Two words with white space or hyphens around and between them: the outer
   * runs go, the inner run becomes a single hyphen, and the words are lowered.
   */
  lemma SlugifyPaddedJoin(p: string, a: string, m: string, b: string, q: string)
    requires IsBlank(p) && IsWord(a) && IsBlank(m) && m != [] && IsWord(b) && IsBlank(q)
    ensures Slugify(p + a + m + b + q) == Lower(a) + "-" + Lower(b)
  {
    LowerPaddedJoin(p, a, m, b, q);
    var lowered := p + Lower(a) + m + Lower(b) + q;
    DropUnkeptOfKept(lowered);
    CollapsePaddedJoin(p, Lower(a), m, Lower(b), q);
    StripHyphensPadded(if p == [] then [] else "-", Lower(a), Lower(b), if q == [] then [] else "-");
  }

  lemma {:induction false} DropUnkeptAppend(a: string, b: string)
    ensures DropUnkept(a + b) == DropUnkept(a) + DropUnkept(b)
  {
    if a == [] {
      assert a + b == b;
    } else {
      DropUnkeptAppend(a[1..], b);
      assert (a + b)[0] == a[0] && (a + b)[1..] == a[1..] + b;
    }
  }

  lemma {:induction false} DropUnkeptOfUnkept(z: string)
    requires forall i :: 0 <= i < |z| ==> !Kept(z[i])
    ensures DropUnkept(z) == []
  {
    if z != [] { DropUnkeptOfUnkept(z[1..]); }
  }

  /** Characters outside `[\w\s-]` at the end of a title do not change its slug. */
  lemma SlugifyIgnoresUnkept(y: string, z: string)
    requires forall i :: 0 <= i < |z| ==> !Kept(z[i])
    ensures Slugify(y + z) == Slugify(y)
  {
    LowerAppend(y, z);
    LowerOfNoUpper(z);
    DropUnkeptAppend(Lower(y), z);
    DropUnkeptOfUnkept(z);
    assert DropUnkept(Lower(y)) + [] == DropUnkept(Lower(y));
  }

  lemma LowerThreeWords(a: string, m: string, b: string, n: string, c: string)
    requires IsBlank(m) && IsBlank(n)
    ensures Lower(a + m + b + n + c) == Lower(a) + m + Lower(b) + n + Lower(c)
  {
    LowerOfNoUpper(m);
    LowerOfNoUpper(n);
    LowerAppend(a, m);
    LowerAppend(a + m, b);
    LowerAppend(a + m + b, n);
    LowerAppend(a + m + b + n, c);
  }

  lemma CollapseThreeWords(a: string, m: string, b: string, n: string, c: string)
    requires IsWord(a) && IsBlank(m) && m != [] && IsWord(b) && IsBlank(n) && n != [] && IsWord(c)
    ensures Collapse(a + m + b + n + c) == a + "-" + b + "-" + c
  {
    Reassociate(a, m, b, n, c);
    CollapseWord(c, []);
    assert c + [] == c;
    CollapseSeparators(n, c);
    CollapseWord(b, n + c);
    CollapseSeparators(m, b + (n + c));
    CollapseWord(a, m + (b + (n + c)));
    Reassociate(a, "-", b, "-", c);
  }

  /** Three words with runs of white space or hyphens between them: the words lowered, joined by single hyphens. */
  lemma SlugifyThreeWords(a: string, m: string, b: string, n: string, c: string)
    requires IsWord(a) && IsBlank(m) && m != [] && IsWord(b) && IsBlank(n) && n != [] && IsWord(c)
    ensures Slugify(a + m + b + n + c) == Lower(a) + "-" + Lower(b) + "-" + Lower(c)
  {
    var la, lb, lc := Lower(a), Lower(b), Lower(c);
    LowerThreeWords(a, m, b, n, c);
    var lowered := la + m + lb + n + lc;
    DropUnkeptOfKept(lowered);
    CollapseThreeWords(la, m, lb, n, lc);
    var inner := "-" + lb + "-";
    assert la + "-" + lb + "-" + lc == la + inner + lc;
    StripHyphensBetweenWords(la, inner, lc);
  }

  lemma StripHyphensBetweenWords(a: string, m: string, c: string)
    requires IsWord(a) && IsWord(c)
    ensures StripHyphens(a + m + c) == a + m + c
  {
    var r := a + m + c;
    assert r[0] == a[0] && r[|r| - 1] == c[|c| - 1];
    StripHyphensOfWordEnds(r);
  }

  lemma StripHyphensOfWordEnds(r: string)
    requires r != [] && IsWordChar(r[0]) && IsWordChar(r[|r| - 1])
    ensures StripHyphens(r) == r
  {
  }

  /**
   * The cases of the repository's own tests. The pieces are parameters so
   * that the verifier follows the lemmas above rather than evaluating every
   * step on the literal.
   */
  lemma SlugifyExampleTestComic(e: string, a: string, b: string)
    requires e == "" && a == "Test" && b == "Comic"
    ensures Slugify(e + a + " " + b + e) == "test-comic"
  {
    SlugifyPaddedJoin(e, a, " ", b, e);
    LowerExamples();
  }

  lemma SlugifyExampleMultipleSpaces(p: string, a: string, b: string)
    requires p == "   " && a == "Multiple" && b == "Spaces"
    ensures Slugify(p + a + p + b + p) == "multiple-spaces"
  {
    SlugifyPaddedJoin(p, a, p, b, p);
    LowerExamples();
  }

  lemma SlugifyExampleAmazingStory(a: string, b: string, c: string, sp: string, bang: string)
    requires a == "My" && b == "Amazing" && c == "Story" && sp == " " && bang == "!"
    ensures Slugify(a + sp + b + sp + c + bang) == "my-amazing-story"
  {
    ExampleWords(a);
    ExampleWords(b);
    ExampleWords(c);
    assert IsBlank(sp) && !Kept(bang[0]);
    SlugifyIgnoresUnkept(a + sp + b + sp + c, bang);
    SlugifyThreeWords(a, sp, b, sp, c);
    LowerExampleAmazingStory();
  }

  lemma SlugifyExampleSpecialCharacters(e: string, a: string, h: string, b: string, sp: string, junk: string)
    requires e == "" && a == "Special" && h == "-" && b == "Characters" && sp == " " && junk == "@#$"
    ensures Slugify(e + a + h + b + sp + junk) == "special-characters"
  {
    ExampleWords(a);
    ExampleWords(b);
    assert IsBlank(h) && IsBlank(sp);
    assert !Kept(junk[0]) && !Kept(junk[1]) && !Kept(junk[2]);
    SlugifyIgnoresUnkept(e + a + h + b + sp, junk);
    SlugifyPaddedJoin(e, a, h, b, sp);
    LowerExampleSpecialCharacters();
  }

  lemma ExampleWords(w: string)
    requires w in {"My", "Amazing", "Story", "Special", "Characters"}
    ensures IsWord(w)
  {
  }

  lemma LowerExamples()
    ensures Lower("Test") + "-" + Lower("Comic") == "test-comic"
    ensures Lower("Multiple") + "-" + Lower("Spaces") == "multiple-spaces"
  {
    assert Lower("Test") == "test" && Lower("Comic") == "comic";
    assert Lower("Multiple") == "multiple" && Lower("Spaces") == "spaces";
  }

  lemma LowerExampleAmazingStory()
    ensures Lower("My") + "-" + Lower("Amazing") + "-" + Lower("Story") == "my-amazing-story"
  {
    assert Lower("My") == "my";
    assert Lower("Amazing") == "amazing";
    assert Lower("Story") == "story";
  }

  lemma LowerExampleSpecialCharacters()
    ensures Lower("Special") + "-" + Lower("Characters") == "special-characters"
  {
    assert Lower("Special") == "special";
    assert Lower("Characters") == "characters";
  }
}
