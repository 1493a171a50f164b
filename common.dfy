/** Shared value types. */
module Common {

  /** An optional value; None stands for Python's None and for an empty (NaN/NaT) table cell. */
  datatype Option<T> = None | Some(value: T)

  /** The value of an option as a list of zero or one elements. */
  function Listed<T>(o: Option<T>): (l: seq<T>)
    ensures |l| <= 1 && (l == [] <==> o.None?)
    ensures o.Some? ==> l == [o.value]
  {
    if o.Some? then [o.value] else []
  }

  /** `a` is `b` with some elements left out and the others kept in their order. */
  predicate Subsequence<T(==)>(a: seq<T>, b: seq<T>)
    decreases |b|
  {
    a == [] || (b != [] && if a[0] == b[0] then Subsequence(a[1..], b[1..]) else Subsequence(a, b[1..]))
  }

  /** A boolean-mask selection `df[mask]`: the elements of `s` that satisfy `keep`, in order. */
  function Filter<T(==)>(s: seq<T>, keep: T -> bool): (r: seq<T>)
    ensures |r| <= |s|
    ensures forall i | 0 <= i < |r| :: keep(r[i])
    ensures Subsequence(r, s)
  {
    if s == [] then []
    else
      var rest := Filter(s[1..], keep);
      if keep(s[0]) then
        assert ([s[0]] + rest)[1..] == rest;
        [s[0]] + rest
      else
        assert rest != [] ==> keep(rest[0]);
        rest
  }

  /** The selection keeps every element that satisfies `keep` as often as it occurs, and no other. */
  lemma {:induction false} FilterCounts<T(!new)>(s: seq<T>, keep: T -> bool)
    ensures forall x :: multiset(Filter(s, keep))[x] == if keep(x) then multiset(s)[x] else 0
  {
    if s != [] {
      FilterCounts(s[1..], keep);
      assert s == [s[0]] + s[1..];
    }
  }

  lemma {:induction false} FilterFirstAt<T>(s: seq<T>, keep: T -> bool, k: int)
    requires 0 <= k < |s| && keep(s[k])
    requires forall j | 0 <= j < k :: !keep(s[j])
    ensures Filter(s, keep) != [] && Filter(s, keep)[0] == s[k]
  {
    if k > 0 {
      FilterFirstAt(s[1..], keep, k - 1);
    }
  }

  /** The selection starts with the first element that satisfies `keep` (what `.iloc[0]` reads). */
  lemma FilterFirst<T>(s: seq<T>, keep: T -> bool)
    ensures forall k | 0 <= k < |s| && keep(s[k]) && (forall j | 0 <= j < k :: !keep(s[j])) ::
              Filter(s, keep) != [] && Filter(s, keep)[0] == s[k]
  {
    forall k | 0 <= k < |s| && keep(s[k]) && (forall j | 0 <= j < k :: !keep(s[j])) {
      FilterFirstAt(s, keep, k);
    }
  }

  /** A mask that keeps every element selects the whole sequence. */
  lemma {:induction false} FilterAll<T>(s: seq<T>, keep: T -> bool)
    ensures (forall i | 0 <= i < |s| :: keep(s[i])) ==> Filter(s, keep) == s
  {
    if s != [] {
      FilterAll(s[1..], keep);
      assert [s[0]] + s[1..] == s;
    }
  }

  /** Two selections one after the other are the selection by both masks. */
  lemma {:induction false} FilterTwice<T>(s: seq<T>, p: T -> bool, q: T -> bool, both: T -> bool)
    requires forall x :: both(x) == (p(x) && q(x))
    ensures Filter(Filter(s, p), q) == Filter(s, both)
  {
    if s != [] {
      FilterTwice(s[1..], p, q, both);
      if p(s[0]) {
        assert ([s[0]] + Filter(s[1..], p))[1..] == Filter(s[1..], p);
      }
    }
  }

  /** Seconds in one day; timestamps are whole seconds of local time counted from a midnight. */
  const SecondsPerDay: int := 86400

  /** Midnight of the day that contains the timestamp t. */
  function DayStart(t: int): (d: int)
    ensures d <= t < d + SecondsPerDay
    ensures d % SecondsPerDay == 0
  {
    t - t % SecondsPerDay
  }
}
