/** The parts of the JavaScript runtime that the snapshot utilities lean on:
    optional values, numbers that may be non-finite, `Array.prototype.filter`
    and the `[...new Set(xs)]` idiom for distinct values. */
module JsCore {

  datatype Option<+T> = None | Some(value: T)

  datatype Result<+T, +E> = Ok(value: T) | Err(error: E)

  /** A JavaScript number as the utilities can produce it: a finite value, or
      one of the non-finite results of dividing by zero. */
  datatype Num = Finite(value: real) | PosInfinity | NegInfinity | NaN

  /** JavaScript's `a / b` on two finite numbers. */
  function Div(a: real, b: real): (r: Num)
    ensures r.Finite? <==> b != 0.0
    ensures r.Finite? ==> r.value * b == a
    ensures r == NaN <==> a == 0.0 && b == 0.0
    ensures r == PosInfinity <==> b == 0.0 && a > 0.0
    ensures r == NegInfinity <==> b == 0.0 && a < 0.0
  {
    if b != 0.0 then Finite(a / b)
    else if a > 0.0 then PosInfinity
    else if a < 0.0 then NegInfinity
    else NaN
  }

  /** `r` can be obtained from `s` by deleting elements: it keeps their order. */
  ghost predicate IsSubseq<T>(r: seq<T>, s: seq<T>)
    decreases |s|
  {
    r == [] || (s != [] && ((r[0] == s[0] && IsSubseq(r[1..], s[1..])) || IsSubseq(r, s[1..])))
  }

  ghost predicate Distinct<T>(s: seq<T>)
  {
    forall i, j :: 0 <= i < j < |s| ==> s[i] != s[j]
  }

  /** `xs.filter(p)`: the elements of `xs` that satisfy `p`, in the order of
      `xs` (FilterOrder and FilterCounts state the order and multiplicities). */
  function Filter<T(==, !new)>(xs: seq<T>, p: T -> bool): (r: seq<T>)
    ensures forall x :: x in r <==> x in xs && p(x)
    decreases |xs|
  {
    if xs == [] then []
    else if p(xs[0]) then [xs[0]] + Filter(xs[1..], p)
    else Filter(xs[1..], p)
  }

  /** The filtered list keeps the order of the original. */
  lemma {:induction false} FilterOrder<T(!new)>(xs: seq<T>, p: T -> bool)
    ensures IsSubseq(Filter(xs, p), xs)
    decreases |xs|
  {
    if xs != [] {
      FilterOrder(xs[1..], p);
      var rest := Filter(xs[1..], p);
      if p(xs[0]) {
        assert ([xs[0]] + rest)[1..] == rest;
      }
    }
  }

  /** The filtered list holds every element that satisfies `p` as often as
      `xs` does, and nothing else. */
  lemma {:induction false} FilterCounts<T(!new)>(xs: seq<T>, p: T -> bool)
    ensures forall x :: multiset(Filter(xs, p))[x] == if p(x) then multiset(xs)[x] else 0
    decreases |xs|
  {
    if xs != [] {
      FilterCounts(xs[1..], p);
      assert xs == [xs[0]] + xs[1..];
      assert multiset(xs) == multiset{xs[0]} + multiset(xs[1..]);
    }
  }

  /** Filtering with a callback no element satisfies gives the empty list. */
  lemma {:induction false} FilterNone<T(!new)>(xs: seq<T>, p: T -> bool)
    requires forall i :: 0 <= i < |xs| ==> !p(xs[i])
    ensures Filter(xs, p) == []
    decreases |xs|
  {
    if xs != [] {
      FilterNone(xs[1..], p);
    }
  }

  /** `[...new Set(xs)]`: the distinct elements of `xs`, in the order in which
      they first appear. */
  function Dedup<T(==, !new)>(xs: seq<T>): (r: seq<T>)
    ensures Distinct(r)
    ensures forall x :: x in r <==> x in xs
  {
    DedupAfter(xs, {})
  }

  /** The first occurrences in `xs` of the elements not in `seen`. */
  function DedupAfter<T(==, !new)>(xs: seq<T>, seen: set<T>): (r: seq<T>)
    ensures Distinct(r)
    ensures forall x :: x in r <==> x in xs && x !in seen
    decreases |xs|
  {
    if xs == [] then []
    else if xs[0] in seen then DedupAfter(xs[1..], seen)
    else [xs[0]] + DedupAfter(xs[1..], seen + {xs[0]})
  }

  /** The position of the first occurrence of `x` in `xs`. */
  function FirstIndex<T(==)>(xs: seq<T>, x: T): (k: nat)
    requires x in xs
    ensures k < |xs| && xs[k] == x && x !in xs[..k]
    decreases |xs|
  {
    if xs[0] == x then 0
    else
      var k := FirstIndex(xs[1..], x);
      assert xs[..k + 1] == [xs[0]] + xs[1..][..k];
      k + 1
  }

  /** The distinct elements keep the order of `xs`. */
  lemma {:induction false} DedupAfterOrder<T(!new)>(xs: seq<T>, seen: set<T>)
    ensures IsSubseq(DedupAfter(xs, seen), xs)
    decreases |xs|
  {
    if xs != [] {
      if xs[0] in seen {
        DedupAfterOrder(xs[1..], seen);
      } else {
        DedupAfterOrder(xs[1..], seen + {xs[0]});
        var rest := DedupAfter(xs[1..], seen + {xs[0]});
        assert ([xs[0]] + rest)[1..] == rest;
      }
    }
  }

  /** Past the head, first occurrences move one place along. */
  lemma FirstIndexTail<T(!new)>(xs: seq<T>, x: T)
    requires x in xs && x != xs[0]
    ensures x in xs[1..] && FirstIndex(xs, x) == FirstIndex(xs[1..], x) + 1
  {
    assert xs == [xs[0]] + xs[1..];
  }

  /** The elements of `r` occur in `xs`, and of any two of them the earlier
      one first occurs in `xs` before the later one does. */
  ghost predicate FirstOccurrenceOrder<T>(r: seq<T>, xs: seq<T>)
  {
    && (forall x :: x in r ==> x in xs)
    && (forall i, j :: 0 <= i < j < |r| ==> FirstIndex(xs, r[i]) < FirstIndex(xs, r[j]))
  }

  /** The distinct elements are listed in the order of their first
      occurrences in `xs`. */
  lemma {:induction false} DedupAfterFirstOrder<T(!new)>(xs: seq<T>, seen: set<T>)
    ensures FirstOccurrenceOrder(DedupAfter(xs, seen), xs)
    decreases |xs|
  {
    if xs != [] {
      var r := DedupAfter(xs, seen);
      if xs[0] in seen {
        DedupAfterFirstOrder(xs[1..], seen);
        assert r == DedupAfter(xs[1..], seen);
        forall i, j | 0 <= i < j < |r|
          ensures FirstIndex(xs, r[i]) < FirstIndex(xs, r[j])
        {
          assert r[i] in r && r[j] in r;
          FirstIndexTail(xs, r[i]);
          FirstIndexTail(xs, r[j]);
        }
      } else {
        var rest := DedupAfter(xs[1..], seen + {xs[0]});
        DedupAfterFirstOrder(xs[1..], seen + {xs[0]});
        assert r == [xs[0]] + rest;
        forall i, j | 0 <= i < j < |r|
          ensures FirstIndex(xs, r[i]) < FirstIndex(xs, r[j])
        {
          assert r[j] == rest[j - 1] && rest[j - 1] in rest;
          FirstIndexTail(xs, r[j]);
          if i == 0 {
            assert FirstIndex(xs, r[i]) == 0;
          } else {
            assert r[i] == rest[i - 1] && rest[i - 1] in rest;
            FirstIndexTail(xs, r[i]);
          }
        }
      }
    }
  }

  /** Extending a prefix by one element. */
  lemma PrefixStep<T>(s: seq<T>, j: nat)
    requires j < |s|
    ensures s[..j + 1] == s[..j] + [s[j]]
    ensures forall x :: x in s[..j + 1] <==> x in s[..j] || x == s[j]
  {
  }
}
