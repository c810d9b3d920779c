/**
 * The catalog the bot edits and the site lists: a dictionary from slug to
 * work, each work holding its title, description, optional cover and a
 * dictionary from chapter number to page references.
 *
 * Python dictionaries remember insertion order; the catalog operations below
 * do not depend on it, except the title lookup of the text commands, which
 * takes the first match (see FindByTitle). Sums over the catalog and
 * the listings sorted by slug go through the slugs in increasing order.
 */
module Catalog {
  import opened Wrappers
  import opened Text
  import opened Order
  import Slug
  import Ingest

  type FileRef = Ingest.FileRef

  /** Chapter number to the references of its pages, in reading order. */
  type Chapters = map<string, seq<FileRef>>

  datatype Work = Work(title: string, description: string, cover: Option<FileRef>, chapters: Chapters)

  /** `MANGA_DATA`: slug to work. */
  type Comics = map<string, Work>

  // ---------------------------------------------------------------------------
  // The least slug, and `sorted` over a set of distinct slugs
  // ---------------------------------------------------------------------------

  predicate IsLeast(m: string, s: set<string>) {
    m in s && forall x :: x in s && x != m ==> StrLess(m, x)
  }

  lemma {:induction false} LeastExists(s: set<string>)
    requires s != {}
    ensures exists m :: IsLeast(m, s)
    decreases |s|
  {
    var y :| y in s;
    if s != {y} {
      LeastExists(s - {y});
      var m :| IsLeast(m, s - {y});
      if StrLess(y, m) {
        forall x | x in s && x != y
          ensures StrLess(y, x)
        {
          if x != m { StrLessTransitive(y, m, x); }
        }
        assert IsLeast(y, s);
      } else {
        if y != m { StrLessTotal(y, m); }
        assert IsLeast(m, s);
      }
    } else {
      assert IsLeast(y, s);
    }
  }

  lemma LeastUnique(a: string, b: string, s: set<string>)
    requires IsLeast(a, s) && IsLeast(b, s)
    ensures a == b
  {
    if a != b {
      StrLessTransitive(a, b, a);
      StrLessIrreflexive(a);
    }
  }

  function Least(s: set<string>): (m: string)
    requires s != {}
    ensures IsLeast(m, s)
  {
    LeastExists(s);
    forall a, b | IsLeast(a, s) && IsLeast(b, s)
      ensures a == b
    {
      LeastUnique(a, b, s);
    }
    var m :| IsLeast(m, s); m
  }

  /** `sorted(keys)` for a set of distinct strings. */
  function SortedSlugs(s: set<string>): (r: seq<string>)
    ensures |r| == |s|
    decreases |s|
  {
    if s == {} then [] else var m := Least(s); [m] + SortedSlugs(s - {m})
  }

  lemma {:induction false} SortedSlugsMembers(s: set<string>)
    ensures forall x :: x in SortedSlugs(s) <==> x in s
    decreases |s|
  {
    if s != {} {
      var m := Least(s);
      SortedSlugsMembers(s - {m});
      assert SortedSlugs(s) == [m] + SortedSlugs(s - {m});
    }
  }

  lemma {:induction false} SortedSlugsIncreasing(s: set<string>)
    ensures forall i, j :: 0 <= i < j < |SortedSlugs(s)| ==> StrLess(SortedSlugs(s)[i], SortedSlugs(s)[j])
    decreases |s|
  {
    if s != {} {
      var m := Least(s);
      var t := SortedSlugs(s - {m});
      var r := SortedSlugs(s);
      SortedSlugsIncreasing(s - {m});
      SortedSlugsMembers(s - {m});
      assert r == [m] + t;
      forall i, j | 0 <= i < j < |r|
        ensures StrLess(r[i], r[j])
      {
        assert r[j] == t[j - 1] && r[j] in t;
        if i > 0 {
          assert r[i] == t[i - 1];
        }
      }
    }
  }

  /** Every slug exactly once, in strictly increasing order. */
  lemma SortedSlugsCorrect(s: set<string>)
    ensures forall x :: x in SortedSlugs(s) <==> x in s
    ensures forall i, j :: 0 <= i < j < |SortedSlugs(s)| ==> StrLess(SortedSlugs(s)[i], SortedSlugs(s)[j])
  {
    SortedSlugsMembers(s);
    SortedSlugsIncreasing(s);
  }

  // ---------------------------------------------------------------------------
  // Sums over a dictionary
  // ---------------------------------------------------------------------------

  /** The sum of `f` over the values of `m`. */
  function SumMap<V>(m: map<string, V>, f: V -> nat): nat
    decreases |m.Keys|
  {
    if m.Keys == {} then 0 else var k := Least(m.Keys); f(m[k]) + SumMap(m - {k}, f)
  }

  /** The sum does not depend on the order: any entry can be taken out first. */
  lemma {:induction false} SumMapRemove<V>(m: map<string, V>, f: V -> nat, k: string)
    requires k in m
    ensures SumMap(m, f) == f(m[k]) + SumMap(m - {k}, f)
    decreases |m.Keys|
  {
    var l := Least(m.Keys);
    if k != l {
      var ml := m - {l};
      var mk := m - {k};
      SumMapRemove(ml, f, k);
      assert IsLeast(l, mk.Keys);
      LeastUnique(l, Least(mk.Keys), mk.Keys);
      assert mk - {l} == ml - {k};
    }
  }

  /** Storing `v` under `k` replaces that key's share of the sum by `f(v)`. */
  lemma SumMapPut<V>(m: map<string, V>, f: V -> nat, k: string, v: V)
    ensures SumMap(m[k := v], f) + (if k in m then f(m[k]) else 0) == SumMap(m, f) + f(v)
  {
    var r := m[k := v];
    SumMapRemove(r, f, k);
    assert r - {k} == m - {k};
    if k in m {
      SumMapRemove(m, f, k);
    } else {
      assert m - {k} == m;
    }
  }

  lemma UnionRemove<V>(a: map<string, V>, b: map<string, V>, k: string)
    requires k in b && k !in a
    ensures (a + b) - {k} == a + (b - {k})
  {
  }

  lemma UnionEmpty<V>(a: map<string, V>, b: map<string, V>)
    requires b.Keys == {}
    ensures a + b == a
  {
  }

  lemma {:induction false} SumMapUnion<V>(a: map<string, V>, b: map<string, V>, f: V -> nat)
    requires a.Keys !! b.Keys
    ensures SumMap(a + b, f) == SumMap(a, f) + SumMap(b, f)
    decreases |b.Keys|
  {
    if b.Keys != {} {
      var k := Least(b.Keys);
      SumMapUnion(a, b - {k}, f);
      SumMapRemove(a + b, f, k);
      UnionRemove(a, b, k);
    } else {
      UnionEmpty(a, b);
    }
  }

  lemma SumMapSame<V>(a: map<string, V>, b: map<string, V>, f: V -> nat)
    requires a.Keys == b.Keys && forall k :: k in a ==> f(a[k]) == f(b[k])
    ensures SumMap(a, f) == SumMap(b, f)
    decreases |a.Keys|
  {
    if a.Keys != {} {
      var k := Least(a.Keys);
      SumMapSame(a - {k}, b - {k}, f);
    }
  }

  function ChapterCount(w: Work): nat { |w.chapters| }

  function PageCount(pages: seq<FileRef>): nat { |pages| }

  function WorkPages(w: Work): nat { SumMap(w.chapters, PageCount) }

  /** `total_chapters`: the sum over the works of their chapter counts. */
  function TotalChapters(c: Comics): nat { SumMap(c, ChapterCount) }

  /** `total_pages`: the sum over the works and their chapters of the page counts. */
  function TotalPages(c: Comics): nat { SumMap(c, WorkPages) }

  // ---------------------------------------------------------------------------
  // Mutations
  // ---------------------------------------------------------------------------

  /**
   * The chapters `added` stored into the work `slug`, each overwriting a
   * chapter of the same number; a slug not in the catalog changes nothing.
   */
  function MergeChapters(c: Comics, slug: string, added: Chapters): (r: Comics)
    ensures slug !in c ==> r == c
    ensures r.Keys == c.Keys
    ensures forall s :: s in c && s != slug ==> r[s] == c[s]
    ensures slug in c ==> (
      && r[slug].title == c[slug].title
      && r[slug].description == c[slug].description
      && r[slug].cover == c[slug].cover
      && r[slug].chapters.Keys == c[slug].chapters.Keys + added.Keys
      && (forall k :: k in added ==> r[slug].chapters[k] == added[k])
      && (forall k :: k in c[slug].chapters && k !in added ==> r[slug].chapters[k] == c[slug].chapters[k]))
  {
    if slug in c then c[slug := c[slug].(chapters := c[slug].chapters + added)] else c
  }

  /** The new work stored under the slug of its title, with no chapters, replacing any work of that slug. */
  function AddWork(c: Comics, title: string, description: string, cover: Option<FileRef>): (r: Comics)
    ensures r.Keys == c.Keys + {Slug.Slugify(title)}
    ensures r[Slug.Slugify(title)] == Work(title, description, cover, map[])
    ensures forall s :: s in c && s != Slug.Slugify(title) ==> r[s] == c[s]
  {
    c[Slug.Slugify(title) := Work(title, description, cover, map[])]
  }

  /** `del MANGA_DATA[slug]` when present. */
  function Remove(c: Comics, slug: string): (r: Comics)
    ensures r.Keys == c.Keys - {slug}
    ensures forall s :: s in r ==> r[s] == c[s]
  {
    c - {slug}
  }

  /** An empty batch of chapters leaves the catalog as it was. */
  lemma MergeNothing(c: Comics, slug: string)
    ensures MergeChapters(c, slug, map[]) == c
  {
    if slug in c {
      assert c[slug].chapters + map[] == c[slug].chapters;
      assert c[slug].(chapters := c[slug].chapters) == c[slug];
    }
  }

  /** Merging the same batch twice is merging it once. */
  lemma MergeIdempotent(c: Comics, slug: string, added: Chapters)
    ensures MergeChapters(MergeChapters(c, slug, added), slug, added) == MergeChapters(c, slug, added)
  {
    if slug in c {
      var once := MergeChapters(c, slug, added);
      assert once[slug].chapters + added == once[slug].chapters;
    }
  }

  lemma UnionSize(a: set<string>, b: set<string>)
    ensures |a + b| == |a| + |b - a|
  {
    assert a + b == a + (b - a);
    assert a !! (b - a);
  }

  /** Each merge adds to total_chapters exactly the chapter numbers the work did not have yet. */
  lemma MergeChaptersTotal(c: Comics, slug: string, added: Chapters)
    requires slug in c
    ensures TotalChapters(MergeChapters(c, slug, added))
         == TotalChapters(c) + |added.Keys - c[slug].chapters.Keys|
  {
    var w := c[slug].(chapters := c[slug].chapters + added);
    assert MergeChapters(c, slug, added) == c[slug := w];
    SumMapPut(c, ChapterCount, slug, w);
    UnionSize(c[slug].chapters.Keys, added.Keys);
    assert |w.chapters| == |w.chapters.Keys|;
    assert |c[slug].chapters| == |c[slug].chapters.Keys|;
  }

  /** With new chapter numbers only, total_pages grows by exactly the pages added. */
  lemma MergeNewChaptersPages(c: Comics, slug: string, added: Chapters)
    requires slug in c && c[slug].chapters.Keys !! added.Keys
    ensures TotalPages(MergeChapters(c, slug, added)) == TotalPages(c) + SumMap(added, PageCount)
  {
    var w := c[slug].(chapters := c[slug].chapters + added);
    assert MergeChapters(c, slug, added) == c[slug := w];
    SumMapPut(c, WorkPages, slug, w);
    SumMapUnion(c[slug].chapters, added, PageCount);
  }

  lemma PutEmptyWorkTotal(c: Comics, s: string, w: Work)
    requires w.chapters == map[]
    ensures TotalChapters(c[s := w]) + (if s in c then ChapterCount(c[s]) else 0) == TotalChapters(c)
  {
    SumMapPut(c, ChapterCount, s, w);
  }

  /** A new work adds no chapters; one replacing a work of the same slug drops that work's chapters. */
  lemma AddWorkTotal(c: Comics, title: string, description: string, cover: Option<FileRef>)
    ensures var s := Slug.Slugify(title);
      TotalChapters(AddWork(c, title, description, cover)) + (if s in c then ChapterCount(c[s]) else 0)
      == TotalChapters(c)
    ensures |AddWork(c, title, description, cover)| == |c| + (if Slug.Slugify(title) in c then 0 else 1)
  {
    PutEmptyWorkTotal(c, Slug.Slugify(title), Work(title, description, cover, map[]));
  }

  /** Deleting a work takes exactly its chapters out of total_chapters. */
  lemma RemoveTotal(c: Comics, slug: string)
    requires slug in c
    ensures TotalChapters(Remove(c, slug)) + ChapterCount(c[slug]) == TotalChapters(c)
    ensures |Remove(c, slug)| + 1 == |c|
  {
    SumMapRemove(c, ChapterCount, slug);
  }

  // ---------------------------------------------------------------------------
  // Slugs as keys, and the title lookup of the text commands
  // ---------------------------------------------------------------------------

  /** Every work is stored under the slug of its title, as the bot itself stores works. */
  predicate KeysAreSlugs(c: Comics) {
    forall s :: s in c ==> s == Slug.Slugify(c[s].title)
  }

  lemma SlugifyIgnoresCase(a: string, b: string)
    requires Lower(a) == Lower(b)
    ensures Slug.Slugify(a) == Slug.Slugify(b)
  {
  }

  /** The first slug of `order` whose work's title equals `title` ignoring case. */
  function FindIn(c: Comics, order: seq<string>, title: string): (r: Option<string>)
    requires forall i :: 0 <= i < |order| ==> order[i] in c
    ensures r.Some? ==> r.value in order && Lower(c[r.value].title) == Lower(title)
    ensures r.None? ==> forall i :: 0 <= i < |order| ==> Lower(c[order[i]].title) != Lower(title)
  {
    if order == [] then None
    else if Lower(c[order[0]].title) == Lower(title) then Some(order[0])
    else FindIn(c, order[1..], title)
  }

  /**
   * The work `/addchapter "T"` and `/deletecomic "T"` act on: one whose title
   * equals T ignoring case, none when no title does.
   */
  function FindByTitle(c: Comics, title: string): (r: Option<string>)
    ensures r.Some? ==> r.value in c && Lower(c[r.value].title) == Lower(title)
  {
    SortedSlugsCorrect(c.Keys);
    FindIn(c, SortedSlugs(c.Keys), title)
  }

  /** The lookup fails exactly when no title matches. */
  lemma FindByTitleNone(c: Comics, title: string)
    ensures FindByTitle(c, title).None? <==> forall s :: s in c ==> Lower(c[s].title) != Lower(title)
  {
    SortedSlugsCorrect(c.Keys);
    var order := SortedSlugs(c.Keys);
    if FindByTitle(c, title).None? {
      forall s | s in c
        ensures Lower(c[s].title) != Lower(title)
      {
        var i :| 0 <= i < |order| && order[i] == s;
      }
    }
  }

  /**
   * When works are stored under the slugs of their titles, at most one title
   * matches, so the lookup finds that work whatever order the dictionary has.
   */
  lemma FindByTitleUnique(c: Comics, title: string, s: string)
    requires KeysAreSlugs(c)
    requires s in c && Lower(c[s].title) == Lower(title)
    ensures FindByTitle(c, title) == Some(s)
  {
    FindByTitleNone(c, title);
    var f := FindByTitle(c, title).value;
    SlugifyIgnoresCase(c[f].title, c[s].title);
  }

  lemma AddWorkKeepsSlugs(c: Comics, title: string, description: string, cover: Option<FileRef>)
    requires KeysAreSlugs(c)
    ensures KeysAreSlugs(AddWork(c, title, description, cover))
  {
  }

  lemma MergeKeepsSlugs(c: Comics, slug: string, added: Chapters)
    requires KeysAreSlugs(c)
    ensures KeysAreSlugs(MergeChapters(c, slug, added))
  {
  }

  lemma RemoveKeepsSlugs(c: Comics, slug: string)
    requires KeysAreSlugs(c)
    ensures KeysAreSlugs(Remove(c, slug))
  {
  }

  // ---------------------------------------------------------------------------
  // The site's listing
  // ---------------------------------------------------------------------------

  /** A listed work with its slug added, as the home page receives it. */
  datatype Entry = Entry(slug: string, work: Work)

  function TitleKey(e: Entry): seq<Part> { [Str(e.work.title)] }

  function Entries(c: Comics, order: seq<string>): (r: seq<Entry>)
    requires forall i :: 0 <= i < |order| ==> order[i] in c
    ensures |r| == |order| && forall i :: 0 <= i < |r| ==> r[i] == Entry(order[i], c[order[i]])
  {
    seq(|order|, i requires 0 <= i < |order| => Entry(order[i], c[order[i]]))
  }

  /** `index`: the works sorted by slug, then stably by title; every work is listed once, with its own record. */
  function Index(c: Comics): (r: seq<Entry>)
    ensures |r| == |c|
    ensures forall e :: e in r <==> e.slug in c && e.work == c[e.slug]
  {
    SortedSlugsCorrect(c.Keys);
    var order := SortedSlugs(c.Keys);
    var t := Entries(c, order);
    SortByPermutation(t, TitleKey);
    EntriesListEveryWork(c, order);
    var r := SortBy(t, TitleKey);
    assert forall e :: e in r <==> e in multiset(t);
    r
  }

  /** Entries over an order that holds every slug list every work. */
  lemma EntriesListEveryWork(c: Comics, order: seq<string>)
    requires forall x :: x in order <==> x in c
    ensures forall e :: e in Entries(c, order) <==> e.slug in c && e.work == c[e.slug]
  {
    var t := Entries(c, order);
    forall e: Entry | e.slug in c && e.work == c[e.slug]
      ensures e in t
    {
      var i :| 0 <= i < |order| && order[i] == e.slug;
      assert t[i] == e;
    }
  }

  lemma TitleKeyLess(a: Entry, b: Entry)
    requires a.work.title != b.work.title
    ensures KeyLess(TitleKey(a), TitleKey(b)) <==> StrLess(a.work.title, b.work.title)
  {
    assert TitleKey(a)[0] != TitleKey(b)[0];
  }

  /**
   * The home page is ordered by title, and works of equal title by slug:
   * the second, stable sort keeps the slug order of the first among equal titles.
   */
  lemma IndexOrder(c: Comics, i: nat, j: nat)
    requires i < j < |Index(c)|
    ensures var a := Index(c)[i]; var b := Index(c)[j];
      StrLess(a.work.title, b.work.title) || (a.work.title == b.work.title && StrLess(a.slug, b.slug))
  {
    SortedSlugsCorrect(c.Keys);
    var order := SortedSlugs(c.Keys);
    var t := Entries(c, order);
    var r := Index(c);
    var a := r[i];
    var b := r[j];
    SortBySorted(t, TitleKey);
    assert !KeyLess(TitleKey(b), TitleKey(a));
    if a.work.title != b.work.title {
      StrLessTotal(a.work.title, b.work.title);
      TitleKeyLess(b, a);
    } else {
      var k := TitleKey(a);
      SortByStable(t, TitleKey, k);
      WithKeyKeepsOrder(r, TitleKey, k, i, j);
      var p, q :| 0 <= p < q < |WithKey(r, TitleKey, k)|
        && WithKey(r, TitleKey, k)[p] == a && WithKey(r, TitleKey, k)[q] == b;
      WithKeyOrderFrom(t, TitleKey, k, p, q);
      var x, y :| 0 <= x < y < |t| && t[x] == a && t[y] == b;
      assert StrLess(order[x], order[y]);
    }
  }

  // ---------------------------------------------------------------------------
  // Statistics
  // ---------------------------------------------------------------------------

  datatype Stats = Stats(comics: nat, chapters: nat, pages: nat)

  /**
   * `/stats`: nothing for an empty catalog, otherwise the number of works, the
   * number of (work, chapter) pairs and the page total; with no empty chapter
   * there are at least as many pages as chapters.
   */
  function QuickStats(c: Comics): (r: Option<Stats>)
    ensures r.None? <==> c == map[]
    ensures r.Some? ==> r.value.comics == |c| > 0
    ensures r.Some? ==> r.value.chapters == TotalChapters(c) == |ChapterPairs(c)|
    ensures r.Some? ==> r.value.pages == TotalPages(c)
    ensures r.Some? && NoEmptyChapters(c) ==> r.value.chapters <= r.value.pages
  {
    if c == map[] then None
    else
      TotalChaptersCountsPairs(c);
      PagesWhenNoEmptyChapters(c);
      Some(Stats(|c|, TotalChapters(c), TotalPages(c)))
  }

  lemma PagesWhenNoEmptyChapters(c: Comics)
    ensures NoEmptyChapters(c) ==> TotalChapters(c) <= TotalPages(c)
  {
    if NoEmptyChapters(c) {
      PagesAtLeastChapters(c);
    }
  }

  /** No chapter of any work is empty, as every way the bot stores chapters ensures. */
  predicate NoEmptyChapters(c: Comics) {
    forall s, k :: s in c && k in c[s].chapters ==> c[s].chapters[k] != []
  }

  lemma {:induction false} SumMapMonotone<V>(m: map<string, V>, f: V -> nat, g: V -> nat)
    requires forall k :: k in m ==> f(m[k]) <= g(m[k])
    ensures SumMap(m, f) <= SumMap(m, g)
    decreases |m.Keys|
  {
    if m.Keys != {} {
      SumMapMonotone(m - {Least(m.Keys)}, f, g);
    }
  }

  lemma {:induction false} SumMapAtLeastSize<V>(m: map<string, V>, f: V -> nat)
    requires forall k :: k in m ==> f(m[k]) >= 1
    ensures SumMap(m, f) >= |m|
    decreases |m.Keys|
  {
    if m.Keys != {} {
      var k := Least(m.Keys);
      SumMapAtLeastSize(m - {k}, f);
      assert |m - {k}| == |m| - 1;
    }
  }

  /** Without empty chapters the catalog holds at least as many pages as chapters. */
  lemma PagesAtLeastChapters(c: Comics)
    requires NoEmptyChapters(c)
    ensures TotalChapters(c) <= TotalPages(c)
  {
    forall s | s in c
      ensures ChapterCount(c[s]) <= WorkPages(c[s])
    {
      SumMapAtLeastSize(c[s].chapters, PageCount);
    }
    SumMapMonotone(c, ChapterCount, WorkPages);
  }

  /** Every chapter of the catalog, named by its work's slug and its number. */
  function ChapterPairs(c: Comics): set<(string, string)> {
    set s, k | s in c && k in c[s].chapters :: (s, k)
  }

  /** The chapters of one work, as pairs. */
  function PairsOf(slug: string, keys: set<string>): (r: set<(string, string)>)
    ensures forall p :: p in r <==> p.0 == slug && p.1 in keys
  {
    set k | k in keys :: (slug, k)
  }

  lemma {:induction false} PairsOfSize(slug: string, keys: set<string>)
    ensures |PairsOf(slug, keys)| == |keys|
    decreases |keys|
  {
    if keys != {} {
      var k :| k in keys;
      PairsOfSize(slug, keys - {k});
      assert PairsOf(slug, keys) == PairsOf(slug, keys - {k}) + {(slug, k)};
    }
  }

  /** The chapter total counts every (work, chapter) pair once: it does not depend on how the sum runs. */
  lemma {:induction false} TotalChaptersCountsPairs(c: Comics)
    ensures TotalChapters(c) == |ChapterPairs(c)|
    decreases |c.Keys|
  {
    if c.Keys != {} {
      var k := Least(c.Keys);
      var rest := c - {k};
      assert |rest.Keys| < |c.Keys| by { assert rest.Keys == c.Keys - {k}; }
      TotalChaptersCountsPairs(rest);
      PairsOfSize(k, c[k].chapters.Keys);
      ChapterPairsSplit(c, k);
      assert |c[k].chapters| == |c[k].chapters.Keys|;
    }
  }

  lemma ChapterPairsSplit(c: Comics, k: string)
    requires k in c
    ensures ChapterPairs(c) == ChapterPairs(c - {k}) + PairsOf(k, c[k].chapters.Keys)
    ensures ChapterPairs(c - {k}) !! PairsOf(k, c[k].chapters.Keys)
  {
    var rest := c - {k};
    forall p | p in ChapterPairs(c)
      ensures p in ChapterPairs(rest) || p in PairsOf(k, c[k].chapters.Keys)
    {
      var s, x :| s in c && x in c[s].chapters && p == (s, x);
      if s != k {
        assert s in rest && rest[s] == c[s];
      }
    }
    forall p | p in ChapterPairs(rest)
      ensures p in ChapterPairs(c) && p.0 != k
    {
      var s, x :| s in rest && x in rest[s].chapters && p == (s, x);
      assert s in c && c[s] == rest[s];
    }
  }

  lemma MergeKeepsChaptersNonEmpty(c: Comics, slug: string, added: Chapters)
    requires NoEmptyChapters(c)
    requires forall k :: k in added ==> added[k] != []
    ensures NoEmptyChapters(MergeChapters(c, slug, added))
  {
  }
}
