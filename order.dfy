/**
 * Sort keys as Python compares them, and a stable sort by such a key.
 *
 * A key is a list of parts; a part is a string or an integer. Python compares
 * two lists element by element, a proper prefix first, and this is the order
 * used both for the natural file-name key (lowered text pieces and numbers)
 * and for the (title, slug) order of the catalog listing.
 * Python cannot compare an `int` with a `str`; the keys built here never put
 * the two kinds at one position (see NaturalSort.NaturalKey), so the order
 * chosen below for mixed parts is never consulted.
 *
 * `list.sort` and `sorted` are stable; SortBy is a stable insertion sort, and
 * the lemmas prove it returns a sorted permutation that keeps the relative
 * order of elements with equal keys.
 */
module Order {
  import opened Text

  datatype Part = Str(s: string) | Int(n: nat)

  predicate PartLess(a: Part, b: Part) {
    match (a, b)
    case (Int(x), Int(y)) => x < y
    case (Str(x), Str(y)) => StrLess(x, y)
    case (Int(_), Str(_)) => true
    case (Str(_), Int(_)) => false
  }

  /** Python's `<` on lists: the first differing element decides, a proper prefix is smaller. */
  predicate KeyLess(a: seq<Part>, b: seq<Part>) {
    if a == [] then b != []
    else if b == [] then false
    else if a[0] != b[0] then PartLess(a[0], b[0])
    else KeyLess(a[1..], b[1..])
  }

  lemma PartLessIrreflexive(a: Part)
    ensures !PartLess(a, a)
  {
    if a.Str? { StrLessIrreflexive(a.s); }
  }

  lemma PartLessTransitive(a: Part, b: Part, c: Part)
    requires PartLess(a, b) && PartLess(b, c)
    ensures PartLess(a, c)
  {
    if a.Str? && b.Str? && c.Str? { StrLessTransitive(a.s, b.s, c.s); }
  }

  lemma PartLessTotal(a: Part, b: Part)
    requires a != b
    ensures PartLess(a, b) || PartLess(b, a)
  {
    if a.Str? && b.Str? { StrLessTotal(a.s, b.s); }
  }

  lemma {:induction false} KeyLessIrreflexive(a: seq<Part>)
    ensures !KeyLess(a, a)
  {
    if a != [] { KeyLessIrreflexive(a[1..]); }
  }

  lemma {:induction false} KeyLessTransitive(a: seq<Part>, b: seq<Part>, c: seq<Part>)
    requires KeyLess(a, b) && KeyLess(b, c)
    ensures KeyLess(a, c)
  {
    if a != [] && b != [] && c != [] {
      if a[0] == b[0] && b[0] == c[0] {
        KeyLessTransitive(a[1..], b[1..], c[1..]);
      } else if a[0] != b[0] && b[0] != c[0] {
        PartLessTransitive(a[0], b[0], c[0]);
        if a[0] == c[0] { PartLessIrreflexive(a[0]); }
      }
    }
  }

  lemma {:induction false} KeyLessTotal(a: seq<Part>, b: seq<Part>)
    requires a != b
    ensures KeyLess(a, b) || KeyLess(b, a)
  {
    if a != [] && b != [] {
      if a[0] == b[0] {
        assert a == [a[0]] + a[1..] && b == [b[0]] + b[1..];
        KeyLessTotal(a[1..], b[1..]);
      } else {
        PartLessTotal(a[0], b[0]);
      }
    }
  }

  lemma KeyLessAsymmetric(a: seq<Part>, b: seq<Part>)
    requires KeyLess(a, b)
    ensures !KeyLess(b, a)
  {
    if KeyLess(b, a) {
      KeyLessTransitive(a, b, a);
      KeyLessIrreflexive(a);
    }
  }

  /** Sorted by `key`, every pair in order (not only neighbours). */
  predicate SortedBy<T>(s: seq<T>, key: T -> seq<Part>) {
    forall i, j :: 0 <= i < j < |s| ==> !KeyLess(key(s[j]), key(s[i]))
  }

  /** The elements of `s` whose key is `k`, in the order of `s`. */
  function WithKey<T>(s: seq<T>, key: T -> seq<Part>, k: seq<Part>): (r: seq<T>)
    ensures |r| <= |s|
  {
    if s == [] then []
    else if key(s[0]) == k then [s[0]] + WithKey(s[1..], key, k)
    else WithKey(s[1..], key, k)
  }

  /** Places `x` before the first element whose key is not smaller than its own. */
  function InsertBy<T>(x: T, s: seq<T>, key: T -> seq<Part>): (r: seq<T>)
    ensures |r| == |s| + 1
  {
    if s == [] then [x]
    else if KeyLess(key(s[0]), key(x)) then [s[0]] + InsertBy(x, s[1..], key)
    else [x] + s
  }

  /** The stable sort `sorted(s, key=key)`. */
  function SortBy<T>(s: seq<T>, key: T -> seq<Part>): (r: seq<T>)
    ensures |r| == |s|
  {
    if s == [] then [] else InsertBy(s[0], SortBy(s[1..], key), key)
  }

  lemma {:induction false} InsertByMultiset<T>(x: T, s: seq<T>, key: T -> seq<Part>)
    ensures multiset(InsertBy(x, s, key)) == multiset(s) + multiset{x}
  {
    if s != [] && KeyLess(key(s[0]), key(x)) {
      InsertByMultiset(x, s[1..], key);
      assert s == [s[0]] + s[1..];
    }
  }

  lemma {:induction false} SortByPermutation<T>(s: seq<T>, key: T -> seq<Part>)
    ensures multiset(SortBy(s, key)) == multiset(s)
  {
    if s != [] {
      SortByPermutation(s[1..], key);
      InsertByMultiset(s[0], SortBy(s[1..], key), key);
      assert s == [s[0]] + s[1..];
    }
  }

  lemma {:induction false} InsertBySorted<T>(x: T, s: seq<T>, key: T -> seq<Part>)
    requires SortedBy(s, key)
    ensures SortedBy(InsertBy(x, s, key), key)
  {
    if s != [] {
      var r := InsertBy(x, s, key);
      if KeyLess(key(s[0]), key(x)) {
        var t := InsertBy(x, s[1..], key);
        InsertBySorted(x, s[1..], key);
        InsertByMultiset(x, s[1..], key);
        forall j | 0 < j < |r| ensures !KeyLess(key(r[j]), key(r[0])) {
          assert r[j] == t[j - 1];
          assert r[j] in multiset(t);
          if r[j] == x {
            KeyLessAsymmetric(key(s[0]), key(x));
          } else {
            assert r[j] in multiset(s[1..]);
            var m :| 0 <= m < |s[1..]| && s[1..][m] == r[j];
            assert s[m + 1] == r[j];
          }
        }
      } else {
        forall j | 0 < j < |r| ensures !KeyLess(key(r[j]), key(x)) {
          assert r[j] == s[j - 1];
          if KeyLess(key(s[j - 1]), key(x)) {
            if j - 1 > 0 {
              if key(s[j - 1]) != key(s[0]) {
                KeyLessTotal(key(s[j - 1]), key(s[0]));
                KeyLessTransitive(key(s[0]), key(s[j - 1]), key(x));
              }
            }
          }
        }
      }
    }
  }

  lemma {:induction false} SortBySorted<T>(s: seq<T>, key: T -> seq<Part>)
    ensures SortedBy(SortBy(s, key), key)
  {
    if s != [] {
      SortBySorted(s[1..], key);
      InsertBySorted(s[0], SortBy(s[1..], key), key);
    }
  }

  lemma {:induction false} InsertByWithKey<T>(x: T, s: seq<T>, key: T -> seq<Part>, k: seq<Part>)
    requires key(x) == k ==> forall i :: 0 <= i < |s| && key(s[i]) == k ==> !KeyLess(key(s[i]), key(x))
    ensures WithKey(InsertBy(x, s, key), key, k) == WithKey([x] + s, key, k)
  {
    if s != [] && KeyLess(key(s[0]), key(x)) {
      if key(x) == k {
        assert key(s[0]) != k;
      }
      InsertByWithKey(x, s[1..], key, k);
      assert ([x] + s)[1..] == s;
      assert ([x] + s[1..])[1..] == s[1..];
      assert ([s[0]] + InsertBy(x, s[1..], key))[1..] == InsertBy(x, s[1..], key);
    }
  }

  lemma {:induction false} SortByStable<T>(s: seq<T>, key: T -> seq<Part>, k: seq<Part>)
    ensures WithKey(SortBy(s, key), key, k) == WithKey(s, key, k)
  {
    if s != [] {
      var t := SortBy(s[1..], key);
      SortByStable(s[1..], key, k);
      if key(s[0]) == k { KeyLessIrreflexive(k); }
      InsertByWithKey(s[0], t, key, k);
      assert ([s[0]] + t)[1..] == t;
    }
  }

  /** An element of `s` with key `k` is kept by WithKey. */
  lemma {:induction false} WithKeyHas<T>(s: seq<T>, key: T -> seq<Part>, k: seq<Part>, j: nat)
    requires j < |s| && key(s[j]) == k
    ensures exists q :: 0 <= q < |WithKey(s, key, k)| && WithKey(s, key, k)[q] == s[j]
  {
    var w := WithKey(s, key, k);
    if j == 0 {
      assert w[0] == s[0];
    } else {
      WithKeyHas(s[1..], key, k, j - 1);
      var q' :| 0 <= q' < |WithKey(s[1..], key, k)| && WithKey(s[1..], key, k)[q'] == s[1..][j - 1];
      if key(s[0]) == k {
        assert w[q' + 1] == s[j];
      } else {
        assert w[q'] == s[j];
      }
    }
  }

  /** Two elements with key `k` keep their relative order in WithKey. */
  lemma {:induction false} WithKeyKeepsOrder<T>(s: seq<T>, key: T -> seq<Part>, k: seq<Part>, i: nat, j: nat)
    requires i < j < |s| && key(s[i]) == k && key(s[j]) == k
    ensures exists p, q :: (0 <= p < q < |WithKey(s, key, k)|
      && WithKey(s, key, k)[p] == s[i] && WithKey(s, key, k)[q] == s[j])
  {
    var w := WithKey(s, key, k);
    var w' := WithKey(s[1..], key, k);
    if i == 0 {
      WithKeyHas(s[1..], key, k, j - 1);
      var q' :| 0 <= q' < |w'| && w'[q'] == s[1..][j - 1];
      assert w[0] == s[0] && w[q' + 1] == s[j];
    } else {
      WithKeyKeepsOrder(s[1..], key, k, i - 1, j - 1);
      var p', q' :| 0 <= p' < q' < |w'| && w'[p'] == s[1..][i - 1] && w'[q'] == s[1..][j - 1];
      if key(s[0]) == k {
        assert w[p' + 1] == s[i] && w[q' + 1] == s[j];
      } else {
        assert w[p'] == s[i] && w[q'] == s[j];
      }
    }
  }

  /** Every element of WithKey comes from `s`. */
  lemma {:induction false} WithKeyFrom<T>(s: seq<T>, key: T -> seq<Part>, k: seq<Part>, p: nat)
    requires p < |WithKey(s, key, k)|
    ensures exists a :: 0 <= a < |s| && s[a] == WithKey(s, key, k)[p]
  {
    var w := WithKey(s, key, k);
    var w' := WithKey(s[1..], key, k);
    if key(s[0]) == k {
      if p == 0 {
        assert s[0] == w[0];
      } else {
        WithKeyFrom(s[1..], key, k, p - 1);
        var a' :| 0 <= a' < |s[1..]| && s[1..][a'] == w'[p - 1];
        assert s[a' + 1] == w[p];
      }
    } else {
      WithKeyFrom(s[1..], key, k, p);
      var a' :| 0 <= a' < |s[1..]| && s[1..][a'] == w'[p];
      assert s[a' + 1] == w[p];
    }
  }

  /** Two elements of WithKey in some order occur in `s` in that order. */
  lemma {:induction false} WithKeyOrderFrom<T>(s: seq<T>, key: T -> seq<Part>, k: seq<Part>, p: nat, q: nat)
    requires p < q < |WithKey(s, key, k)|
    ensures exists a, b :: 0 <= a < b < |s| && s[a] == WithKey(s, key, k)[p] && s[b] == WithKey(s, key, k)[q]
  {
    var w := WithKey(s, key, k);
    var w' := WithKey(s[1..], key, k);
    if key(s[0]) == k {
      if p == 0 {
        WithKeyFrom(s[1..], key, k, q - 1);
        var b' :| 0 <= b' < |s[1..]| && s[1..][b'] == w'[q - 1];
        assert s[0] == w[0] && s[b' + 1] == w[q];
      } else {
        WithKeyOrderFrom(s[1..], key, k, p - 1, q - 1);
        var a', b' :| 0 <= a' < b' < |s[1..]| && s[1..][a'] == w'[p - 1] && s[1..][b'] == w'[q - 1];
        assert s[a' + 1] == w[p] && s[b' + 1] == w[q];
      }
    } else {
      WithKeyOrderFrom(s[1..], key, k, p, q);
      var a', b' :| 0 <= a' < b' < |s[1..]| && s[1..][a'] == w'[p] && s[1..][b'] == w'[q];
      assert s[a' + 1] == w[p] && s[b' + 1] == w[q];
    }
  }

  /** SortBy returns a sorted permutation of its input and keeps equal-key elements in input order. */
  lemma SortByCorrect<T>(s: seq<T>, key: T -> seq<Part>)
    ensures multiset(SortBy(s, key)) == multiset(s)
    ensures SortedBy(SortBy(s, key), key)
    ensures forall k :: WithKey(SortBy(s, key), key, k) == WithKey(s, key, k)
  {
    SortByPermutation(s, key);
    SortBySorted(s, key);
    forall k { SortByStable(s, key, k); }
  }
}
