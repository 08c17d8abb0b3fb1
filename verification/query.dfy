/**
 * The LINQ operators the controller composes, over sequences: `Where`,
 * `Any` and the index found by `Where(p).FirstOrDefault()`.
 */
module Query {
  import opened Results

  /**
   * `Where`: the elements satisfying `p`, in their original order. The order
   * and the multiplicities are stated by `WhereAppend` and `WhereCounts`.
   */
  function Where<T(!new)>(s: seq<T>, p: T -> bool): (r: seq<T>)
    ensures forall x :: x in r <==> x in s && p(x)
    ensures |r| <= |s|
  {
    if |s| == 0 then []
    else (if p(s[0]) then [s[0]] else []) + Where(s[1..], p)
  }

  /** `Where` keeps every satisfying element as often as it occurs, and nothing else. */
  lemma {:induction false} WhereCounts<T(!new)>(s: seq<T>, p: T -> bool)
    ensures forall x :: multiset(Where(s, p))[x] == if p(x) then multiset(s)[x] else 0
  {
    if |s| > 0 {
      WhereCounts(s[1..], p);
      assert s == [s[0]] + s[1..];
      assert multiset(s) == multiset{s[0]} + multiset(s[1..]);
      assert Where(s, p) == (if p(s[0]) then [s[0]] else []) + Where(s[1..], p);
    }
  }

  /** `Any`: whether some element satisfies `p`. */
  function Any<T(!new)>(s: seq<T>, p: T -> bool): (r: bool)
    ensures r <==> exists x :: x in s && p(x)
  {
    if |s| == 0 then false
    else p(s[0]) || Any(s[1..], p)
  }

  /** The position of the element `Where(p).FirstOrDefault()` returns, if any. */
  function FindIndex<T>(s: seq<T>, p: T -> bool): (r: Option<nat>)
    ensures r.None? <==> forall i :: 0 <= i < |s| ==> !p(s[i])
    ensures r.Some? ==> r.value < |s| && p(s[r.value])
    ensures r.Some? ==> forall j :: 0 <= j < r.value ==> !p(s[j])
  {
    if |s| == 0 then None
    else if p(s[0]) then Some(0)
    else match FindIndex(s[1..], p)
      case None => None
      case Some(k) => Some(k + 1)
  }

  /** Filtering a sequence with a head is deciding the head, then filtering the tail. */
  lemma WhereCons<T(!new)>(x: T, s: seq<T>, p: T -> bool)
    ensures Where([x] + s, p) == (if p(x) then [x] else []) + Where(s, p)
  {
    assert ([x] + s)[1..] == s;
  }

  /** A single element is kept exactly when it satisfies `p`. */
  lemma WhereOne<T(!new)>(x: T, p: T -> bool)
    ensures Where([x], p) == if p(x) then [x] else []
  {
    assert [x] == [x] + [];
    WhereCons(x, [], p);
  }

  /**
   * Filtering distributes over concatenation and keeps a single element
   * exactly when it satisfies `p`. These two facts determine `Where` on every
   * sequence, so they state both the order and the multiplicity it keeps.
   */
  lemma WhereAppend<T(!new)>(a: seq<T>, b: seq<T>, p: T -> bool)
    ensures Where(a + b, p) == Where(a, p) + Where(b, p)
    ensures |b| == 1 ==> Where(b, p) == if p(b[0]) then b else []
  {
    WhereDistributes(a, b, p);
    if |b| == 1 {
      assert b == [b[0]];
      WhereOne(b[0], p);
    }
  }

  /** The concatenation half of `WhereAppend`, by induction on `a`. */
  lemma {:induction false} WhereDistributes<T(!new)>(a: seq<T>, b: seq<T>, p: T -> bool)
    ensures Where(a + b, p) == Where(a, p) + Where(b, p)
  {
    if |a| == 0 {
      assert a + b == b;
    } else {
      var x, a' := a[0], a[1..];
      var kept := if p(x) then [x] else [];
      calc {
        Where(a + b, p);
        { assert a + b == [x] + (a' + b); }
        Where([x] + (a' + b), p);
        { WhereCons(x, a' + b, p); }
        kept + Where(a' + b, p);
        { WhereDistributes(a', b, p); }
        kept + (Where(a', p) + Where(b, p));
        (kept + Where(a', p)) + Where(b, p);
        { assert a == [x] + a'; WhereCons(x, a', p); }
        Where(a, p) + Where(b, p);
      }
    }
  }
}
