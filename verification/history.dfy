/**
 * The history collections behind `/history`: records are appended with the
 * time they were created, and listed sorted by creation time, newest first.
 */
module History {
  /** A stored record with its `createdAt` timestamp. */
  datatype Stamped<T> = Stamped(createdAt: int, record: T)

  /** Sorted by `createdAt`, newest first. */
  predicate NewestFirstOrder<T>(xs: seq<Stamped<T>>) {
    forall i, j | 0 <= i < j < |xs| :: xs[i].createdAt >= xs[j].createdAt
  }

  /** Places `x` before the first entry that is not newer than it. */
  function Insert<T(!new)>(x: Stamped<T>, xs: seq<Stamped<T>>): (r: seq<Stamped<T>>)
    ensures |r| == |xs| + 1
    ensures multiset(r) == multiset(xs) + multiset{x}
    ensures forall y {:trigger y in r} :: y in r <==> y == x || y in xs
  {
    if |xs| == 0 then [x]
    else if x.createdAt >= xs[0].createdAt then [x] + xs
    else
      assert xs == [xs[0]] + xs[1..];
      [xs[0]] + Insert(x, xs[1..])
  }

  /** The listing order of the store: later appends are inserted first, so
      among equal timestamps the later record comes first. */
  function NewestFirst<T(!new)>(xs: seq<Stamped<T>>): (r: seq<Stamped<T>>)
    ensures |r| == |xs|
    ensures multiset(r) == multiset(xs)
  {
    if |xs| == 0 then []
    else
      assert xs == xs[..|xs| - 1] + [xs[|xs| - 1]];
      Insert(xs[|xs| - 1], NewestFirst(xs[..|xs| - 1]))
  }

  lemma {:induction false} InsertKeepsOrder<T(!new)>(x: Stamped<T>, xs: seq<Stamped<T>>)
    requires NewestFirstOrder(xs)
    ensures NewestFirstOrder(Insert(x, xs))
  {
    if |xs| > 0 && x.createdAt < xs[0].createdAt {
      var rest := Insert(x, xs[1..]);
      InsertKeepsOrder(x, xs[1..]);
      forall k | 0 <= k < |rest| ensures xs[0].createdAt >= rest[k].createdAt {
        var y := rest[k];
        assert y in rest;
        if y != x {
          var m :| 0 <= m < |xs[1..]| && xs[1..][m] == y;
          assert xs[m + 1] == y;
        }
      }
      var r := [xs[0]] + rest;
      forall i, j | 0 <= i < j < |r| ensures r[i].createdAt >= r[j].createdAt {
        if i == 0 {
          assert r[j] == rest[j - 1];
        } else {
          assert r[i] == rest[i - 1] && r[j] == rest[j - 1];
        }
      }
    }
  }

  /** The listing is sorted newest first and holds exactly the stored
      records. */
  lemma {:induction false} NewestFirstSorted<T(!new)>(xs: seq<Stamped<T>>)
    ensures NewestFirstOrder(NewestFirst(xs))
  {
    if |xs| > 0 {
      NewestFirstSorted(xs[..|xs| - 1]);
      InsertKeepsOrder(xs[|xs| - 1], NewestFirst(xs[..|xs| - 1]));
    }
  }

  function Reverse<T>(xs: seq<T>): (r: seq<T>)
    ensures |r| == |xs|
    ensures forall k {:trigger r[k]} | 0 <= k < |xs| :: r[k] == xs[|xs| - 1 - k]
  {
    if |xs| == 0 then [] else [xs[|xs| - 1]] + Reverse(xs[..|xs| - 1])
  }

  /** Records appended with non-decreasing timestamps (as a clock gives them)
      are listed in exactly the reverse of the order they were appended. */
  lemma {:induction false} ChronologicalListedReversed<T(!new)>(xs: seq<Stamped<T>>)
    requires forall i, j | 0 <= i < j < |xs| :: xs[i].createdAt <= xs[j].createdAt
    ensures NewestFirst(xs) == Reverse(xs)
  {
    if |xs| > 0 {
      var init := xs[..|xs| - 1];
      ChronologicalListedReversed(init);
      var r := Reverse(init);
      if |r| > 0 {
        assert r[0] == init[|init| - 1];
      }
    }
  }

  /** The entries a handler writes, stamped with one time. */
  function StampAll<T>(now: int, records: seq<T>): (r: seq<Stamped<T>>)
    ensures |r| == |records|
    ensures forall k {:trigger r[k]} | 0 <= k < |r| :: r[k] == Stamped(now, records[k])
  {
    if |records| == 0 then [] else [Stamped(now, records[0])] + StampAll(now, records[1..])
  }

  /** An append-only collection of timestamped records. */
  class HistoryStore<T(!new)> {
    var entries: seq<Stamped<T>>

    constructor ()
      ensures entries == []
    {
      entries := [];
    }

    /** Saves one record, created at `now`. */
    method Append(record: T, now: int)
      modifies this
      ensures entries == old(entries) + [Stamped(now, record)]
    {
      entries := entries + [Stamped(now, record)];
    }

    /** `find().sort({ createdAt: -1 })`. */
    method List() returns (r: seq<Stamped<T>>)
      ensures r == NewestFirst(entries)
      ensures NewestFirstOrder(r)
      ensures multiset(r) == multiset(entries)
    {
      r := NewestFirst(entries);
      NewestFirstSorted(entries);
    }
  }
}
