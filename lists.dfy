/**
 * Sequence facts behind the JavaScript array built-ins the builders use:
 * `new Set(values).size`, `values.filter((v, i) => values.indexOf(v) !== i)`
 * and the first-encounter order of a registry.
 */
module Lists {

  /** No element occurs twice. */
  predicate Distinct<T(==)>(s: seq<T>) {
    forall i, j | 0 <= i < j < |s| :: s[i] != s[j]
  }

  /** Three distinct pieces with no element in common make a distinct concatenation. */
  lemma DistinctConcat<T>(a: seq<T>, b: seq<T>, c: seq<T>)
    requires Distinct(a) && Distinct(b) && Distinct(c)
    requires forall x :: !(x in a && x in b) && !(x in a && x in c) && !(x in b && x in c)
    ensures Distinct(a + b + c)
  {
    var s := a + b + c;
    forall i, j | 0 <= i < j < |s| ensures s[i] != s[j] {
      if i < |a| && |a| <= j < |a| + |b| {
        assert s[i] in a && s[j] in b;
      } else if i < |a| && |a| + |b| <= j {
        assert s[i] in a && s[j] in c;
      } else if |a| <= i < |a| + |b| && |a| + |b| <= j {
        assert s[i] in b && s[j] in c;
      }
    }
  }

  /** The elements of `s` as a set: what `new Set(s)` holds. */
  function Elements<T>(s: seq<T>): set<T> {
    set x | x in s
  }

  /** `0, 1, ..., n - 1`. */
  function Range(n: nat): (r: seq<nat>)
    ensures |r| == n
    ensures forall i | 0 <= i < n :: r[i] == i
  {
    if n == 0 then [] else Range(n - 1) + [n - 1]
  }

  lemma {:induction false} ElementsOfSnoc<T>(s: seq<T>, x: T)
    ensures Elements(s + [x]) == Elements(s) + {x}
  {
    assert forall y :: y in s + [x] <==> y in s || y == x;
  }

  /** `new Set(s).size === s.length` exactly when `s` has no repeated element. */
  lemma {:induction false} DistinctIffSetSize<T>(s: seq<T>)
    ensures Distinct(s) <==> |Elements(s)| == |s|
    ensures |Elements(s)| <= |s|
  {
    if |s| > 0 {
      var init, x := s[..|s| - 1], s[|s| - 1];
      assert s == init + [x];
      DistinctIffSetSize(init);
      ElementsOfSnoc(init, x);
      if x in init {
        assert Elements(init) + {x} == Elements(init);
        var k :| 0 <= k < |init| && init[k] == x;
        assert s[k] == s[|s| - 1];
      } else {
        assert x !in Elements(init);
        assert Distinct(s) <==> Distinct(init);
      }
    } else {
      assert Elements(s) == {};
    }
  }

  /**
   * The occurrences that follow an earlier equal element, in order:
   * `s.filter((v, i) => s.indexOf(v) !== i)`.
   */
  function LaterOccurrences<T(==)>(s: seq<T>): seq<T> {
    if |s| == 0 then []
    else
      var init, x := s[..|s| - 1], s[|s| - 1];
      LaterOccurrences(init) + (if x in init then [x] else [])
  }

  /** Each value is reported once for every occurrence after its first, and nothing else is reported. */
  lemma {:induction false} LaterOccurrencesCount<T>(s: seq<T>, x: T)
    ensures multiset(LaterOccurrences(s))[x] == if x in s then multiset(s)[x] - 1 else 0
  {
    if |s| > 0 {
      var init, y := s[..|s| - 1], s[|s| - 1];
      assert s == init + [y];
      LaterOccurrencesCount(init, x);
      assert multiset(s) == multiset(init) + multiset{y};
      assert x in s <==> x in init || x == y;
      if y in init && x == y {
        assert x in multiset(init);
      }
    }
  }

  /** The duplicate report is empty exactly when the values are pairwise distinct. */
  lemma {:induction false} LaterOccurrencesEmptyIffDistinct<T>(s: seq<T>)
    ensures LaterOccurrences(s) == [] <==> Distinct(s)
  {
    if |s| > 0 {
      var init, y := s[..|s| - 1], s[|s| - 1];
      assert s == init + [y];
      LaterOccurrencesEmptyIffDistinct(init);
      if y in init {
        var k :| 0 <= k < |init| && init[k] == y;
        assert s[k] == s[|s| - 1];
      } else {
        assert Distinct(s) <==> Distinct(init);
      }
    }
  }

  /** The elements of `s` in the order of their first occurrence (a first-come registry). */
  function FirstOccurrences<T(==)>(s: seq<T>): seq<T> {
    if |s| == 0 then []
    else
      var init, x := s[..|s| - 1], s[|s| - 1];
      var firsts := FirstOccurrences(init);
      if x in firsts then firsts else firsts + [x]
  }

  /** The first-occurrence list holds every element of `s` exactly once. */
  lemma {:induction false} FirstOccurrencesSpec<T>(s: seq<T>)
    ensures Distinct(FirstOccurrences(s))
    ensures forall x :: x in FirstOccurrences(s) <==> x in s
  {
    if |s| > 0 {
      var init, x := s[..|s| - 1], s[|s| - 1];
      assert s == init + [x];
      FirstOccurrencesSpec(init);
    }
  }

  /** Appending one element extends the first-occurrence list by it exactly when it is new. */
  lemma FirstOccurrencesSnoc<T>(s: seq<T>, x: T)
    ensures FirstOccurrences(s + [x]) ==
      if x in FirstOccurrences(s) then FirstOccurrences(s) else FirstOccurrences(s) + [x]
  {
    assert (s + [x])[..|s|] == s;
  }
}
