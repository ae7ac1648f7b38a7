/** `Array.prototype.sort`, which ECMAScript 2019 and later require to be
    stable, modelled as a stable insertion sort over a total preorder `le`
    (`le(a, b)` means the comparator does not put `b` before `a`), and the
    `Array.from(new Set(xs))` idiom that drops repeated elements. */
module Sorting {
  import SeqLemmas

  ghost predicate Total<T(!new)>(le: (T, T) -> bool) {
    forall a, b :: le(a, b) || le(b, a)
  }

  ghost predicate Transitive<T(!new)>(le: (T, T) -> bool) {
    forall a, b, c :: le(a, b) && le(b, c) ==> le(a, c)
  }

  ghost predicate TotalPreorder<T(!new)>(le: (T, T) -> bool) {
    Total(le) && Transitive(le)
  }

  predicate SortedBy<T>(s: seq<T>, le: (T, T) -> bool) {
    forall i, j :: 0 <= i < j < |s| ==> le(s[i], s[j])
  }

  lemma SortedCons<T>(h: T, t: seq<T>, le: (T, T) -> bool)
    requires SortedBy(t, le)
    requires forall k :: 0 <= k < |t| ==> le(h, t[k])
    ensures SortedBy([h] + t, le)
  {
    var r := [h] + t;
    forall i, j | 0 <= i < j < |r| ensures le(r[i], r[j]) {
      if i > 0 {
        assert r[i] == t[i - 1] && r[j] == t[j - 1];
      }
    }
  }

  lemma NoDuplicatesCons<T>(h: T, t: seq<T>)
    requires NoDuplicates(t) && h !in t
    ensures NoDuplicates([h] + t)
  {
    var r := [h] + t;
    forall i, j | 0 <= i < j < |r| ensures r[i] != r[j] {
      assert r[j] == t[j - 1];
      if i > 0 {
        assert r[i] == t[i - 1];
      }
    }
  }

  /** Places `x` in front of the first element it may precede. */
  function Insert<T(==,!new)>(x: T, s: seq<T>, le: (T, T) -> bool): (r: seq<T>)
    requires TotalPreorder(le)
    requires SortedBy(s, le)
    ensures multiset(r) == multiset(s) + multiset{x}
    ensures SortedBy(r, le)
    ensures NoDuplicates(s) && x !in s ==> NoDuplicates(r)
  {
    if |s| == 0 || le(x, s[0]) then
      SortedCons(x, s, le);
      if NoDuplicates(s) && x !in s then NoDuplicatesCons(x, s); [x] + s else [x] + s
    else
      var rest := Insert(x, s[1..], le);
      InsertStep(x, s, rest, le);
      SortedCons(s[0], rest, le);
      if NoDuplicates(s) && x !in s then
        NoDuplicatesCons(s[0], rest);
        [s[0]] + rest
      else
        [s[0]] + rest
  }

  /** The head of `s` precedes everything `x` was inserted among after it. */
  lemma InsertStep<T>(x: T, s: seq<T>, rest: seq<T>, le: (T, T) -> bool)
    requires |s| > 0 && SortedBy(s, le) && le(s[0], x)
    requires multiset(rest) == multiset(s[1..]) + multiset{x}
    ensures multiset(rest) + multiset{s[0]} == multiset(s) + multiset{x}
    ensures forall k :: 0 <= k < |rest| ==> le(s[0], rest[k])
    ensures NoDuplicates(s) && x !in s ==> NoDuplicates(s[1..]) && x !in s[1..] && s[0] !in rest
  {
    assert s == [s[0]] + s[1..];
    forall k | 0 <= k < |rest| ensures le(s[0], rest[k]) {
      assert rest[k] in multiset(rest);
      if rest[k] != x {
        assert rest[k] in multiset(s[1..]);
        var m :| 0 <= m < |s[1..]| && s[1..][m] == rest[k];
        assert s[m + 1] == rest[k];
      }
    }
    if NoDuplicates(s) && x !in s {
      assert s[0] !in multiset(s[1..]);
      assert s[0] !in multiset(rest);
    }
  }

  /** A stable sort: the result is a permutation of `s` ordered by `le`, and
      the elements equivalent to any `x` keep their order in `s`. */
  function Sort<T(==,!new)>(s: seq<T>, le: (T, T) -> bool): (r: seq<T>)
    requires TotalPreorder(le)
    ensures multiset(r) == multiset(s)
    ensures SortedBy(r, le)
    ensures NoDuplicates(s) ==> NoDuplicates(r)
    ensures forall x :: EquivalentsOf(r, x, le) == EquivalentsOf(s, x, le)
  {
    if |s| == 0 then []
    else
      var rest := Sort(s[1..], le);
      SortStep(s, rest);
      forall x ensures EquivalentsOf(Insert(s[0], rest, le), x, le) == EquivalentsOf(s, x, le) {
        InsertStable(s[0], rest, x, le);
        assert s == [s[0]] + s[1..];
      }
      Insert(s[0], rest, le)
  }

  /** Neither of `a` and `b` has to come before the other. */
  predicate Equivalent<T>(a: T, b: T, le: (T, T) -> bool) {
    le(a, b) && le(b, a)
  }

  /** The elements of `s` equivalent to `x`, in order. */
  function EquivalentsOf<T>(s: seq<T>, x: T, le: (T, T) -> bool): seq<T> {
    if |s| == 0 then []
    else (if Equivalent(s[0], x, le) then [s[0]] else []) + EquivalentsOf(s[1..], x, le)
  }

  /** Inserting `y` puts it in front of every element equivalent to it. */
  lemma {:induction false} InsertStable<T(!new)>(y: T, s: seq<T>, x: T, le: (T, T) -> bool)
    requires TotalPreorder(le) && SortedBy(s, le)
    ensures EquivalentsOf(Insert(y, s, le), x, le)
         == (if Equivalent(y, x, le) then [y] else []) + EquivalentsOf(s, x, le)
  {
    if |s| == 0 || le(y, s[0]) {
      EquivalentsCons(y, s, x, le);
    } else {
      var rest := Insert(y, s[1..], le);
      InsertStable(y, s[1..], x, le);
      EquivalentsCons(s[0], rest, x, le);
      EquivalentsCons(s[0], s[1..], x, le);
      assert s == [s[0]] + s[1..];
      NotBothEquivalent(y, s[0], x, le);
      SeqLemmas.SwapEmpty(if Equivalent(s[0], x, le) then [s[0]] else [], if Equivalent(y, x, le) then [y] else [], EquivalentsOf(s[1..], x, le));
    }
  }

  lemma EquivalentsCons<T>(h: T, t: seq<T>, x: T, le: (T, T) -> bool)
    ensures EquivalentsOf([h] + t, x, le) == (if Equivalent(h, x, le) then [h] else []) + EquivalentsOf(t, x, le)
  {
    assert ([h] + t)[0] == h && ([h] + t)[1..] == t;
  }

  /** An element strictly after `y` is not equivalent to what `y` is equivalent to. */
  lemma NotBothEquivalent<T(!new)>(y: T, z: T, x: T, le: (T, T) -> bool)
    requires Transitive(le) && !le(y, z)
    ensures !(Equivalent(y, x, le) && Equivalent(z, x, le))
  {
  }


  /** What sorting the tail leaves for inserting the head. */
  lemma SortStep<T>(s: seq<T>, rest: seq<T>)
    requires |s| > 0 && multiset(rest) == multiset(s[1..])
    ensures multiset(rest) + multiset{s[0]} == multiset(s)
    ensures NoDuplicates(s) ==> NoDuplicates(s[1..]) && s[0] !in rest
  {
    assert s == [s[0]] + s[1..];
    assert s[0] in rest <==> s[0] in multiset(s[1..]);
  }

  predicate NoDuplicates<T(==)>(s: seq<T>) {
    forall i, j :: 0 <= i < j < |s| ==> s[i] != s[j]
  }

  /** `Array.from(new Set(s))`: the first occurrence of each element, in order. */
  function Dedup<T(==)>(s: seq<T>): (r: seq<T>)
    ensures NoDuplicates(r)
    ensures forall i :: 0 <= i < |r| ==> r[i] in s
    ensures forall i :: 0 <= i < |s| ==> s[i] in r
    ensures |r| <= |s|
  {
    if |s| == 0 then []
    else
      var init := Dedup(s[..|s| - 1]);
      var last := s[|s| - 1];
      assert s == s[..|s| - 1] + [last];
      if last in init then init else init + [last]
  }

  /** Two lists with the same multiset hold the same elements. */
  lemma SameElements<T>(a: seq<T>, b: seq<T>)
    requires multiset(a) == multiset(b)
    ensures forall i :: 0 <= i < |a| ==> a[i] in b
    ensures forall i :: 0 <= i < |b| ==> b[i] in a
  {
    assert forall i :: 0 <= i < |a| ==> a[i] in multiset(a);
    assert forall i :: 0 <= i < |b| ==> b[i] in multiset(b);
  }
}
