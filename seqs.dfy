/** Sequence operations shared by the PHP query and the JavaScript loader:
    an order-keeping filter (PHP `array_filter`, the loops that push or
    `unset`), hole compaction (JavaScript `filter(function() { return true; })`
    after `delete a[i]`) and reversal (PHP `array_reverse`). */
module Seqs {
  import opened Wrappers

  /** The elements of `s` that satisfy `p`, in the order of `s`. */
  function Filter<T(!new)>(p: T -> bool, s: seq<T>): (r: seq<T>)
    ensures |r| <= |s|
  {
    if s == [] then []
    else
      var init := s[..|s| - 1];
      assert s == init + [s[|s| - 1]];
      Filter(p, init) + (if p(s[|s| - 1]) then [s[|s| - 1]] else [])
  }

  /** The filter keeps exactly the elements that satisfy `p`. */
  lemma {:induction false} FilterMembers<T(!new)>(p: T -> bool, s: seq<T>)
    ensures forall x :: x in Filter(p, s) <==> x in s && p(x)
  {
    if s != [] {
      var init := s[..|s| - 1];
      assert s == init + [s[|s| - 1]];
      FilterMembers(p, init);
    }
  }

  /** Filtering a concatenation filters each part and keeps them in order:
      everything kept from `a` comes before everything kept from `b`. */
  lemma {:induction false} FilterAppend<T(!new)>(p: T -> bool, a: seq<T>, b: seq<T>)
    ensures Filter(p, a + b) == Filter(p, a) + Filter(p, b)
  {
    if b != [] {
      var b' := b[..|b| - 1];
      assert (a + b)[..|a + b| - 1] == a + b';
      FilterAppend(p, a, b');
    } else {
      assert a + b == a;
    }
  }

  /** `x` occurs in `s` at an earlier position than `y`. */
  ghost predicate Precedes<T>(s: seq<T>, x: T, y: T) {
    exists a, b :: 0 <= a < b < |s| && s[a] == x && s[b] == y
  }

  /** The filter keeps the order of `s`: of two kept elements, the earlier
      one comes from an earlier position of `s`. */
  lemma {:induction false} FilterOrder<T(!new)>(p: T -> bool, s: seq<T>)
    ensures forall i, j :: 0 <= i < j < |Filter(p, s)| ==> Precedes(s, Filter(p, s)[i], Filter(p, s)[j])
  {
    if s != [] {
      var init := s[..|s| - 1];
      var x := s[|s| - 1];
      assert s == init + [x];
      var f := Filter(p, init);
      var r := Filter(p, s);
      assert r == f + (if p(x) then [x] else []);
      FilterOrder(p, init);
      FilterMembers(p, init);
      forall i, j | 0 <= i < j < |r| ensures Precedes(s, r[i], r[j]) {
        if j < |f| {
          assert Precedes(init, f[i], f[j]);
          var a, b :| 0 <= a < b < |init| && init[a] == f[i] && init[b] == f[j];
          assert s[a] == r[i] && s[b] == r[j];
        } else {
          assert r[i] == f[i] && f[i] in init;
          var a :| 0 <= a < |init| && init[a] == f[i];
          assert s[a] == r[i] && s[|s| - 1] == r[j];
        }
      }
    }
  }

  /** Reversing the filter turns its order around: of two elements of the
      result, the later one comes from an earlier position of `s`. */
  lemma ReverseFilterOrder<T(!new)>(p: T -> bool, s: seq<T>)
    ensures var r := Reverse(Filter(p, s));
      forall i, j :: 0 <= i < j < |r| ==> Precedes(s, r[j], r[i])
  {
    var f := Filter(p, s);
    var r := Reverse(f);
    FilterOrder(p, s);
    forall i, j | 0 <= i < j < |r| ensures Precedes(s, r[j], r[i]) {
      assert r[i] == f[|f| - 1 - i] && r[j] == f[|f| - 1 - j];
    }
  }

  /** One more element at the end of the input. */
  lemma FilterSnoc<T(!new)>(p: T -> bool, s: seq<T>, x: T)
    ensures Filter(p, s + [x]) == Filter(p, s) + (if p(x) then [x] else [])
  {
    assert (s + [x])[..|s + [x]| - 1] == s;
  }

  /** A filter that keeps everything is the identity. */
  lemma {:induction false} FilterAll<T(!new)>(p: T -> bool, s: seq<T>)
    requires forall x :: x in s ==> p(x)
    ensures Filter(p, s) == s
  {
    if s != [] {
      var init := s[..|s| - 1];
      assert s == init + [s[|s| - 1]];
      FilterAll(p, init);
    }
  }

  /** Filtering twice is filtering once by the conjunction. */
  lemma {:induction false} FilterFilter<T(!new)>(p: T -> bool, q: T -> bool, pq: T -> bool, s: seq<T>)
    requires forall x :: pq(x) == (p(x) && q(x))
    ensures Filter(q, Filter(p, s)) == Filter(pq, s)
  {
    if s != [] {
      var init := s[..|s| - 1];
      var x := s[|s| - 1];
      assert s == init + [x];
      FilterFilter(p, q, pq, init);
      var kept := if p(x) then [x] else [];
      assert Filter(p, s) == Filter(p, init) + kept;
      FilterAppend(q, Filter(p, init), kept);
      assert Filter(q, kept) == if pq(x) then [x] else [] by {
        if p(x) { FilterSnoc(q, [], x); }
      }
    }
  }

  /** No element occurs twice. */
  ghost predicate Distinct<T>(s: seq<T>) {
    forall i, j :: 0 <= i < j < |s| ==> s[i] != s[j]
  }

  /** Filtering keeps a sequence free of repetitions. */
  lemma {:induction false} FilterDistinct<T(!new)>(p: T -> bool, s: seq<T>)
    requires Distinct(s)
    ensures Distinct(Filter(p, s))
  {
    if s != [] {
      var init := s[..|s| - 1];
      var x := s[|s| - 1];
      assert s == init + [x];
      FilterDistinct(p, init);
      FilterMembers(p, init);
      assert x !in init;
    }
  }

  /** The values left after closing the holes of `slots`, in order. */
  function Compact<T(!new)>(slots: seq<Option<T>>): (r: seq<T>)
    ensures |r| <= |slots|
  {
    if slots == [] then []
    else
      var init := slots[..|slots| - 1];
      assert slots == init + [slots[|slots| - 1]];
      Compact(init) + (match slots[|slots| - 1] case None => [] case Some(x) => [x])
  }

  /** Compaction of a prefix one slot longer. */
  lemma CompactPrefix<T(!new)>(slots: seq<Option<T>>, i: nat)
    requires i < |slots|
    ensures Compact(slots[..i + 1])
         == Compact(slots[..i]) + (match slots[i] case None => [] case Some(x) => [x])
  {
    assert slots[..i + 1][..i] == slots[..i];
  }

  /** One step of a loop that punches a hole into `slots` at `i` exactly when
      `s[i]` fails `p`: compaction of the visited prefix stays the filter of it. */
  lemma CompactFilterStep<T(!new)>(p: T -> bool, s: seq<T>, before: seq<Option<T>>, after: seq<Option<T>>, i: nat)
    requires i < |s| && i < |before| && i < |after|
    requires Compact(before[..i]) == Filter(p, s[..i])
    requires after[..i] == before[..i]
    requires after[i] == if p(s[i]) then Some(s[i]) else None
    ensures Compact(after[..i + 1]) == Filter(p, s[..i + 1])
  {
    CompactPrefix(after, i);
    FilterSnoc(p, s[..i], s[i]);
    assert s[..i + 1] == s[..i] + [s[i]];
  }

  /** `s` with no holes. */
  function Filled<T>(s: seq<T>): (r: seq<Option<T>>)
    ensures |r| == |s|
    ensures forall i :: 0 <= i < |s| ==> r[i] == Some(s[i])
  {
    seq(|s|, i requires 0 <= i < |s| => Some(s[i]))
  }

  /** Reversal keeps the elements. */
  lemma ReverseMembers<T>(s: seq<T>)
    ensures forall x :: x in Reverse(s) <==> x in s
  {
    var r := Reverse(s);
    forall x | x in s ensures x in r {
      var i :| 0 <= i < |s| && s[i] == x;
      assert r[|s| - 1 - i] == x;
    }
  }

  /** `s` backwards. */
  function Reverse<T>(s: seq<T>): (r: seq<T>)
    ensures |r| == |s|
    ensures forall k :: 0 <= k < |s| ==> r[k] == s[|s| - 1 - k]
  {
    if s == [] then [] else Reverse(s[1..]) + [s[0]]
  }
}
