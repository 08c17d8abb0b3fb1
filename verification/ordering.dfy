/**
 * `OrderByDescending(x => x.StartTime)` on the store query, the in-memory
 * `OrderBy(x => x.StartTime)`, and `FirstOrDefault()`. The in-memory sort is
 * LINQ to Objects, which is stable: orders with equal start times keep their
 * relative order. The descending sort is translated into the store's ORDER BY,
 * which leaves the order of ties unspecified; the model takes it to be stable
 * over storage order as well. Any stable sort gives the same sequence, so both
 * are a stable insertion sort here.
 */
module Ordering {
  import opened BookingModel
  import opened Query

  datatype Direction = Ascending | Descending

  /** `a` may precede `b` in a sequence sorted by start time in direction `dir`. */
  predicate Before(dir: Direction, a: Order, b: Order) {
    match dir
    case Ascending => a.startTime <= b.startTime
    case Descending => a.startTime >= b.startTime
  }

  ghost predicate Sorted(dir: Direction, s: seq<Order>) {
    forall i, j :: 0 <= i < j < |s| ==> Before(dir, s[i], s[j])
  }

  /** Inserts `o` in front of the first element it may precede. */
  function InsertBy(dir: Direction, o: Order, s: seq<Order>): (r: seq<Order>)
    ensures multiset(r) == multiset(s) + multiset{o}
    ensures |r| == |s| + 1
  {
    if |s| == 0 || Before(dir, o, s[0]) then [o] + s
    else
      assert s == [s[0]] + s[1..];
      [s[0]] + InsertBy(dir, o, s[1..])
  }

  /** Inserting into a sorted sequence keeps it sorted. */
  lemma {:induction false} InsertBySorted(dir: Direction, o: Order, s: seq<Order>)
    requires Sorted(dir, s)
    ensures Sorted(dir, InsertBy(dir, o, s))
  {
    if |s| > 0 && !Before(dir, o, s[0]) {
      var rest := InsertBy(dir, o, s[1..]);
      InsertBySorted(dir, o, s[1..]);
      forall k | 0 <= k < |rest| ensures Before(dir, s[0], rest[k]) {
        assert rest[k] in multiset(rest);
        assert rest[k] == o || rest[k] in s[1..];
      }
      assert InsertBy(dir, o, s) == [s[0]] + rest;
    }
  }

  /** The stable sort of `s` by start time in direction `dir`. */
  function SortBy(dir: Direction, s: seq<Order>): (r: seq<Order>)
    ensures multiset(r) == multiset(s)
    ensures |r| == |s|
    ensures Sorted(dir, r)
  {
    if |s| == 0 then []
    else
      assert s == [s[0]] + s[1..];
      InsertBySorted(dir, s[0], SortBy(dir, s[1..]));
      InsertBy(dir, s[0], SortBy(dir, s[1..]))
  }

  /**
   * Reference selection: the position of the first element of `s` that may
   * precede every element (for Descending, the first with the latest start;
   * for Ascending, the first with the earliest start).
   */
  function FirstIndex(dir: Direction, s: seq<Order>): (i: nat)
    requires |s| > 0
    ensures i < |s|
    ensures forall j :: 0 <= j < |s| ==> Before(dir, s[i], s[j])
    ensures forall j :: 0 <= j < i ==> !Before(dir, s[j], s[i])
  {
    if |s| == 1 then 0
    else
      var k := FirstIndex(dir, s[1..]) + 1;
      if Before(dir, s[0], s[k]) then 0 else k
  }

  /** The element at `FirstIndex`. */
  function Best(dir: Direction, s: seq<Order>): Order
    requires |s| > 0
  {
    s[FirstIndex(dir, s)]
  }

  /** The two properties of `FirstIndex` determine it. */
  lemma FirstIndexUnique(dir: Direction, s: seq<Order>, i: nat)
    requires i < |s|
    requires forall j :: 0 <= j < |s| ==> Before(dir, s[i], s[j])
    requires forall j :: 0 <= j < i ==> !Before(dir, s[j], s[i])
    ensures i == FirstIndex(dir, s)
  {
  }

  /** An element appended after elements that all start strictly earlier is the latest. */
  lemma BestOfLaterSnoc(s: seq<Order>, n: Order)
    requires forall o :: o in s ==> o.startTime < n.startTime
    ensures Best(Descending, s + [n]) == n
  {
    var s' := s + [n];
    forall j | 0 <= j < |s| ensures !Before(Descending, s'[j], s'[|s|]) {
      assert s'[j] == s[j];
      assert s[j] in s;
    }
    FirstIndexUnique(Descending, s', |s|);
  }

  /** The selection over a sequence with a head: the head wins ties. */
  lemma BestCons(dir: Direction, a: Order, t: seq<Order>)
    requires |t| > 0
    ensures Best(dir, [a] + t) == if Before(dir, a, Best(dir, t)) then a else Best(dir, t)
  {
    assert ([a] + t)[1..] == t;
  }

  /** The first element of a stable sort is the first extreme element of the input. */
  lemma {:induction false} HeadOfSort(dir: Direction, s: seq<Order>)
    requires |s| > 0
    ensures SortBy(dir, s)[0] == Best(dir, s)
  {
    if |s| > 1 {
      HeadOfSort(dir, s[1..]);
      assert s == [s[0]] + s[1..];
      BestCons(dir, s[0], s[1..]);
    }
  }

  /** An element that may precede every element of `t` is inserted at the front. */
  lemma InsertByFront(dir: Direction, o: Order, t: seq<Order>)
    requires forall x :: x in t ==> Before(dir, o, x)
    ensures InsertBy(dir, o, t) == [o] + t
  {
    if |t| > 0 {
      assert t[0] in t;
    }
  }

  /** Filtering commutes with inserting into a sorted sequence. */
  lemma {:induction false} WhereInsertBy(dir: Direction, p: Order -> bool, o: Order, t: seq<Order>)
    requires Sorted(dir, t)
    ensures Where(InsertBy(dir, o, t), p) == if p(o) then InsertBy(dir, o, Where(t, p)) else Where(t, p)
    decreases |t|, 1
  {
    if |t| == 0 || Before(dir, o, t[0]) {
      WhereInsertByFront(dir, p, o, t);
    } else {
      WhereInsertByLater(dir, p, o, t);
    }
  }

  /** The case of WhereInsertBy where `o` goes to the front. */
  lemma WhereInsertByFront(dir: Direction, p: Order -> bool, o: Order, t: seq<Order>)
    requires Sorted(dir, t)
    requires |t| == 0 || Before(dir, o, t[0])
    ensures Where(InsertBy(dir, o, t), p) == if p(o) then InsertBy(dir, o, Where(t, p)) else Where(t, p)
  {
    assert InsertBy(dir, o, t) == [o] + t;
    WhereCons(o, t, p);
    var w := Where(t, p);
    forall x | x in w ensures Before(dir, o, x) {
      var k :| 0 <= k < |t| && t[k] == x;
      assert Before(dir, t[0], t[k]);
    }
    InsertByFront(dir, o, w);
  }

  /** The case of WhereInsertBy where `o` goes behind the head of `t`. */
  lemma {:induction false} WhereInsertByLater(dir: Direction, p: Order -> bool, o: Order, t: seq<Order>)
    requires Sorted(dir, t)
    requires |t| > 0 && !Before(dir, o, t[0])
    ensures Where(InsertBy(dir, o, t), p) == if p(o) then InsertBy(dir, o, Where(t, p)) else Where(t, p)
    decreases |t|, 0
  {
    var h, t' := t[0], t[1..];
    var hs := if p(h) then [h] else [];
    assert t == [h] + t';
    var ins' := InsertBy(dir, o, t');
    assert InsertBy(dir, o, t) == [h] + ins';
    calc {
      Where(InsertBy(dir, o, t), p);
      Where([h] + ins', p);
      { WhereCons(h, ins', p); }
      hs + Where(ins', p);
      { WhereInsertBy(dir, p, o, t'); }
      hs + (if p(o) then InsertBy(dir, o, Where(t', p)) else Where(t', p));
    }
    WhereCons(h, t', p);
    assert Where(t, p) == hs + Where(t', p);
    if p(o) {
      var w := Where(t', p);
      if p(h) {
        assert ([h] + w)[1..] == w;
        assert InsertBy(dir, o, [h] + w) == [h] + InsertBy(dir, o, w);
        assert Where(t, p) == [h] + w;
      } else {
        assert hs == [];
        assert hs + InsertBy(dir, o, w) == InsertBy(dir, o, w);
        assert Where(t, p) == w;
      }
    } else {
      assert hs + Where(t', p) == Where(t, p);
    }
  }

  /** Stable sorting commutes with filtering. */
  lemma {:induction false} WhereSortBy(dir: Direction, p: Order -> bool, s: seq<Order>)
    ensures Where(SortBy(dir, s), p) == SortBy(dir, Where(s, p))
  {
    if |s| > 0 {
      var x, s' := s[0], s[1..];
      assert s == [x] + s';
      var w := Where(s', p);
      calc {
        Where(SortBy(dir, s), p);
        Where(InsertBy(dir, x, SortBy(dir, s')), p);
        { WhereInsertBy(dir, p, x, SortBy(dir, s')); }
        if p(x) then InsertBy(dir, x, Where(SortBy(dir, s'), p)) else Where(SortBy(dir, s'), p);
        { WhereSortBy(dir, p, s'); }
        if p(x) then InsertBy(dir, x, SortBy(dir, w)) else SortBy(dir, w);
      }
      WhereCons(x, s', p);
      if p(x) {
        assert Where(s, p) == [x] + w;
        assert ([x] + w)[1..] == w;
        assert SortBy(dir, [x] + w) == InsertBy(dir, x, SortBy(dir, w));
      } else {
        assert Where(s, p) == w;
      }
    }
  }

  /**
   * Inserting into a descending sequence keeps the first earliest element,
   * unless the inserted element starts no later than it: then the inserted
   * element lands ahead of every earliest element.
   */
  lemma {:induction false} SoonestOfInsertDescending(o: Order, t: seq<Order>)
    requires |t| > 0
    requires Sorted(Descending, t)
    ensures Best(Ascending, InsertBy(Descending, o, t))
         == if Before(Ascending, o, Best(Ascending, t)) then o else Best(Ascending, t)
  {
    var h, t' := t[0], t[1..];
    assert t == [h] + t';
    if Before(Descending, o, h) {
      BestCons(Ascending, o, t);
    } else if |t'| == 0 {
      assert InsertBy(Descending, o, t) == [h] + [o];
      BestCons(Ascending, h, [o]);
    } else {
      SoonestOfInsertDescending(o, t');
      BestCons(Ascending, h, InsertBy(Descending, o, t'));
      BestCons(Ascending, h, t');
      assert Before(Descending, h, Best(Ascending, t'));
    }
  }

  /**
   * Sorting newest first and then taking the first earliest element selects
   * the same element as taking the first earliest element of the input.
   */
  lemma {:induction false} SoonestOfSortDescending(y: seq<Order>)
    requires |y| > 0
    ensures Best(Ascending, SortBy(Descending, y)) == Best(Ascending, y)
  {
    if |y| > 1 {
      var x, y' := y[0], y[1..];
      var sorted' := SortBy(Descending, y');
      calc {
        Best(Ascending, SortBy(Descending, y));
        { assert SortBy(Descending, y) == InsertBy(Descending, x, sorted'); }
        Best(Ascending, InsertBy(Descending, x, sorted'));
        { SoonestOfInsertDescending(x, sorted'); }
        if Before(Ascending, x, Best(Ascending, sorted')) then x else Best(Ascending, sorted');
        { SoonestOfSortDescending(y'); }
        if Before(Ascending, x, Best(Ascending, y')) then x else Best(Ascending, y');
        { BestCons(Ascending, x, y'); }
        Best(Ascending, [x] + y');
        { assert y == [x] + y'; }
        Best(Ascending, y);
      }
    }
  }
}
