/** Python's `list.sort(key=...)` is a stable sort: the result is ordered by the key, holds
    the same elements, and keeps the elements of each key in their input order. */
module StableSort {

  /** `le` is total and transitive: the "key is less than or equal" relation of a sort key. */
  ghost predicate IsTotalPreorder<T(!new)>(le: (T, T) -> bool) {
    && (forall x, y :: le(x, y) || le(y, x))
    && (forall x, y, z :: le(x, y) && le(y, z) ==> le(x, z))
  }

  ghost predicate SortedBy<T>(s: seq<T>, le: (T, T) -> bool) {
    forall i, j :: 0 <= i < j < |s| ==> le(s[i], s[j])
  }

  /** Inserts `x` in front of the first element it does not exceed, so that `x` stays
      ahead of the elements with an equal key that follow it in the input. */
  function Insert<T(!new)>(x: T, s: seq<T>, le: (T, T) -> bool): (r: seq<T>)
    requires IsTotalPreorder(le) && SortedBy(s, le)
    ensures SortedBy(r, le)
    ensures multiset(r) == multiset(s) + multiset{x}
    decreases |s|
  {
    if s == [] || le(x, s[0]) then
      assert forall k :: 0 <= k < |s| ==> le(s[0], s[k]);
      [x] + s
    else
      var rest := Insert(x, s[1..], le);
      assert s == [s[0]] + s[1..];
      ConsSorted(s[0], rest, le, s[1..], x);
      [s[0]] + rest
  }

  /** `h` may head `rest` when it is below every element `rest` is made of. */
  lemma ConsSorted<T(!new)>(h: T, rest: seq<T>, le: (T, T) -> bool, t: seq<T>, x: T)
    requires IsTotalPreorder(le) && SortedBy(rest, le) && SortedBy([h] + t, le)
    requires multiset(rest) == multiset(t) + multiset{x}
    requires le(h, x)
    ensures SortedBy([h] + rest, le)
  {
    forall k | 0 <= k < |rest| ensures le(h, rest[k]) {
      assert rest[k] in multiset(rest);
      if rest[k] != x {
        assert rest[k] in multiset(t);
        var l :| 0 <= l < |t| && t[l] == rest[k];
        assert ([h] + t)[0] == h && ([h] + t)[l + 1] == t[l];
      }
    }
  }

  /** The stable sort of `s` under `le`. */
  function Sort<T(!new)>(s: seq<T>, le: (T, T) -> bool): (r: seq<T>)
    requires IsTotalPreorder(le)
    ensures SortedBy(r, le)
    ensures multiset(r) == multiset(s)
    ensures |r| == |s|
    decreases |s|
  {
    if s == [] then []
    else
      assert s == [s[0]] + s[1..];
      Insert(s[0], Sort(s[1..], le), le)
  }

  /** `[x]` when `x` has the key of `e`, else nothing. */
  function Tag<T>(x: T, e: T, le: (T, T) -> bool): seq<T> {
    if le(x, e) && le(e, x) then [x] else []
  }

  /** The elements of `s` with the same key as `e`, in their order in `s`. */
  function SameKey<T>(s: seq<T>, e: T, le: (T, T) -> bool): seq<T>
    decreases |s|
  {
    if s == [] then []
    else Tag(s[0], e, le) + SameKey(s[1..], e, le)
  }

  /** Insertion puts `x` ahead of every element of its key already in `s`. */
  lemma {:induction false} InsertStable<T(!new)>(x: T, s: seq<T>, le: (T, T) -> bool, e: T)
    requires IsTotalPreorder(le) && SortedBy(s, le)
    ensures SameKey(Insert(x, s, le), e, le) == Tag(x, e, le) + SameKey(s, e, le)
    decreases |s|
  {
    if s == [] || le(x, s[0]) {
      SameKeyCons(x, s, e, le);
    } else {
      assert SortedBy(s[1..], le);
      InsertStable(x, s[1..], le, e);
      NotBoth(x, e, s[0], le);
      MovePast(s[0], x, s[1..], Insert(x, s[1..], le), e, le);
    }
  }

  /** When `x` and `h` are not both of `e`'s key, putting `h` in front of the elements
      `x` went in among lets the two trade places among the elements of that key. */
  lemma MovePast<T>(h: T, x: T, t: seq<T>, rest: seq<T>, e: T, le: (T, T) -> bool)
    requires !(le(x, e) && le(e, h))
    requires SameKey(rest, e, le) == Tag(x, e, le) + SameKey(t, e, le)
    ensures SameKey([h] + rest, e, le) == Tag(x, e, le) + (Tag(h, e, le) + SameKey(t, e, le))
  {
    SameKeyCons(h, rest, e, le);
    assert Tag(x, e, le) == [] || Tag(h, e, le) == [];
  }

  lemma SameKeyCons<T>(h: T, t: seq<T>, e: T, le: (T, T) -> bool)
    ensures SameKey([h] + t, e, le) == Tag(h, e, le) + SameKey(t, e, le)
  {
    assert ([h] + t)[1..] == t;
  }

  /** An element below `y`'s key is not of the same key as anything at or above `y`. */
  lemma NotBoth<T(!new)>(x: T, e: T, y: T, le: (T, T) -> bool)
    requires IsTotalPreorder(le) && !le(x, y)
    ensures !(le(x, e) && le(e, y))
  {
  }

  /** The sort is stable: the elements of each key come out in their input order. */
  lemma {:induction false} SortStable<T(!new)>(s: seq<T>, le: (T, T) -> bool, e: T)
    requires IsTotalPreorder(le)
    ensures SameKey(Sort(s, le), e, le) == SameKey(s, e, le)
    decreases |s|
  {
    if s != [] {
      SortStable(s[1..], le, e);
      InsertStable(s[0], Sort(s[1..], le), le, e);
    }
  }
}
