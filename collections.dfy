/** Sequence vocabulary shared by the grouping model: index ranges, duplicate-freedom,
    flattening of groups, the `Array.filter` used to drop seeds, and first-occurrence
    de-duplication used to describe seed selection. */
module Collections {

  /** The list `[0, 1, ..., n-1]` that `Array.from({ length: n }, (_, i) => i)` builds. */
  function Range(n: nat): (r: seq<nat>)
    ensures |r| == n
    ensures forall i :: 0 <= i < n ==> r[i] == i
  {
    if n == 0 then [] else Range(n - 1) + [n - 1]
  }

  /** Every `x` below `n` occurs exactly once in `Range(n)`, nothing else occurs. */
  lemma {:induction false} RangeCount(n: nat)
    ensures forall x: nat :: multiset(Range(n))[x] == if x < n then 1 else 0
  {
    if n == 0 {
      assert multiset(Range(n)) == multiset{};
    } else {
      var last: nat := n - 1;
      var r := Range(last);
      RangeCount(last);
      assert Range(n) == r + [last];
      assert multiset(Range(n)) == multiset(r) + multiset{last};
    }
  }

  predicate NoDup<T(==)>(s: seq<T>) {
    forall i, j :: 0 <= i < j < |s| ==> s[i] != s[j]
  }

  predicate InRange(s: seq<nat>, n: nat) {
    forall k :: 0 <= k < |s| ==> s[k] < n
  }

  predicate StrictlyAscending(s: seq<nat>) {
    forall i, j :: 0 <= i < j < |s| ==> s[i] < s[j]
  }

  /** A sequence is duplicate-free exactly when no element is counted twice. */
  lemma {:induction false} NoDupIffCountsAtMostOne<T>(s: seq<T>)
    ensures NoDup(s) <==> forall x :: multiset(s)[x] <= 1
  {
    if NoDup(s) {
      NoDupCounts(s);
    } else {
      var i, j :| 0 <= i < j < |s| && s[i] == s[j];
      assert s == s[..j] + s[j..];
      assert s[i] in multiset(s[..j]);
      assert s[j] in multiset(s[j..]);
      assert multiset(s)[s[i]] == multiset(s[..j])[s[i]] + multiset(s[j..])[s[i]];
    }
  }

  lemma {:induction false} NoDupCounts<T>(s: seq<T>)
    requires NoDup(s)
    ensures forall x :: multiset(s)[x] <= 1
  {
    if s != [] {
      var t := s[..|s| - 1];
      assert s == t + [s[|s| - 1]];
      assert NoDup(t);
      NoDupCounts(t);
      assert s[|s| - 1] !in t;
    }
  }

  /** The halves of a duplicate-free concatenation are duplicate-free and share nothing. */
  lemma {:induction false} NoDupConcat<T>(s: seq<T>, t: seq<T>)
    requires NoDup(s + t)
    ensures NoDup(s) && NoDup(t)
    ensures forall x :: x in s ==> x !in t
  {
    var u := s + t;
    forall i, j | 0 <= i < j < |s| ensures s[i] != s[j] {
      assert u[i] == s[i] && u[j] == s[j];
    }
    forall i, j | 0 <= i < j < |t| ensures t[i] != t[j] {
      assert u[|s| + i] == t[i] && u[|s| + j] == t[j];
    }
    forall x | x in s ensures x !in t {
      var i :| 0 <= i < |s| && s[i] == x;
      forall j | 0 <= j < |t| ensures t[j] != x {
        assert u[i] == x && u[|s| + j] == t[j];
      }
    }
  }

  /** Concatenation of all groups, in group order. */
  function Flatten<T>(gs: seq<seq<T>>): seq<T> {
    if gs == [] then [] else gs[0] + Flatten(gs[1..])
  }

  /** `x` occurs in the flattening exactly when some group holds it. */
  lemma {:induction false} FlattenMember<T>(gs: seq<seq<T>>, x: T)
    ensures x in Flatten(gs) <==> exists g :: 0 <= g < |gs| && x in gs[g]
  {
    if gs != [] {
      FlattenMember(gs[1..], x);
      if x in Flatten(gs[1..]) {
        var g :| 0 <= g < |gs[1..]| && x in gs[1..][g];
        assert x in gs[g + 1];
      }
      if exists g :: 0 <= g < |gs| && x in gs[g] {
        var g :| 0 <= g < |gs| && x in gs[g];
        if g > 0 {
          assert x in gs[1..][g - 1];
        }
      }
    }
  }

  /** Appending `x` to one group adds exactly one `x` to the flattening. */
  lemma {:induction false} FlattenPlace<T>(gs: seq<seq<T>>, c: nat, x: T)
    requires c < |gs|
    ensures multiset(Flatten(gs[c := gs[c] + [x]])) == multiset(Flatten(gs)) + multiset{x}
  {
    if c == 0 {
      assert gs[c := gs[c] + [x]][1..] == gs[1..];
    } else {
      FlattenPlace(gs[1..], c - 1, x);
      assert gs[c := gs[c] + [x]][1..] == gs[1..][c - 1 := gs[c] + [x]];
    }
  }

  /** An element occurring in two different groups is counted at least twice. */
  lemma {:induction false} FlattenTwoGroups<T>(gs: seq<seq<T>>, g1: nat, g2: nat, x: T)
    requires g1 < g2 < |gs| && x in gs[g1] && x in gs[g2]
    ensures multiset(Flatten(gs))[x] >= 2
  {
    if g1 == 0 {
      FlattenMember(gs[1..], x);
      assert x in gs[1..][g2 - 1];
      assert x in multiset(Flatten(gs[1..]));
    } else {
      FlattenTwoGroups(gs[1..], g1 - 1, g2 - 1, x);
    }
  }

  /** `[s[0]], [s[1]], ...`: one singleton group per element (`tmp.map((group) => [group])`). */
  function Singletons(s: seq<nat>): (r: seq<seq<nat>>)
    ensures |r| == |s|
    ensures forall i :: 0 <= i < |s| ==> r[i] == [s[i]]
  {
    seq(|s|, i requires 0 <= i < |s| => [s[i]])
  }

  lemma {:induction false} FlattenSingletons(s: seq<nat>)
    ensures Flatten(Singletons(s)) == s
  {
    if s != [] {
      FlattenSingletons(s[1..]);
      assert Singletons(s)[1..] == Singletons(s[1..]);
    }
  }

  /** `s.filter((node) => node !== x)`. */
  function Without(s: seq<nat>, x: nat): seq<nat> {
    if s == [] then []
    else (if s[0] == x then [] else [s[0]]) + Without(s[1..], x)
  }

  /** The elements of `s` that do not occur in `t`, in their order in `s`. */
  function FilterOut(s: seq<nat>, t: seq<nat>): seq<nat> {
    if s == [] then []
    else (if s[0] in t then [] else [s[0]]) + FilterOut(s[1..], t)
  }

  lemma {:induction false} FilterOutNothing(s: seq<nat>)
    ensures FilterOut(s, []) == s
  {
    if s != [] {
      FilterOutNothing(s[1..]);
      assert s == [s[0]] + s[1..];
    }
  }

  /** Filtering out one more element is the same as one more `Without`. */
  lemma {:induction false} FilterOutSnoc(s: seq<nat>, t: seq<nat>, x: nat)
    ensures Without(FilterOut(s, t), x) == FilterOut(s, t + [x])
  {
    if s != [] {
      FilterOutSnoc(s[1..], t, x);
      WithoutConcat(if s[0] in t then [] else [s[0]], FilterOut(s[1..], t), x);
    }
  }

  lemma {:induction false} WithoutConcat(a: seq<nat>, b: seq<nat>, x: nat)
    ensures Without(a + b, x) == Without(a, x) + Without(b, x)
  {
    if a != [] {
      WithoutConcat(a[1..], b, x);
      var h := if a[0] == x then [] else [a[0]];
      assert (a + b)[0] == a[0] && (a + b)[1..] == a[1..] + b;
      calc {
        Without(a + b, x);
        h + Without(a[1..] + b, x);
        h + (Without(a[1..], x) + Without(b, x));
        (h + Without(a[1..], x)) + Without(b, x);
      }
    } else {
      assert a + b == b;
    }
  }

  lemma {:induction false} FilterOutMember(s: seq<nat>, t: seq<nat>, y: nat)
    ensures y in FilterOut(s, t) <==> y in s && y !in t
  {
    if s != [] {
      FilterOutMember(s[1..], t, y);
      assert y in s <==> y == s[0] || y in s[1..];
    }
  }

  lemma {:induction false} FilterOutCount(s: seq<nat>, t: seq<nat>, y: nat)
    ensures multiset(FilterOut(s, t))[y] == if y in t then 0 else multiset(s)[y]
  {
    if s != [] {
      FilterOutCount(s[1..], t, y);
      assert s == [s[0]] + s[1..];
    }
  }

  /** Filtering keeps an ascending list ascending. */
  lemma {:induction false} FilterOutAscending(s: seq<nat>, t: seq<nat>)
    requires StrictlyAscending(s)
    ensures StrictlyAscending(FilterOut(s, t))
  {
    if s != [] {
      FilterOutAscending(s[1..], t);
      var rest := FilterOut(s[1..], t);
      forall y | y in rest ensures s[0] < y {
        FilterOutMember(s[1..], t, y);
        var k :| 0 <= k < |s[1..]| && s[1..][k] == y;
        assert s[k + 1] == y;
      }
      var r := FilterOut(s, t);
      forall i, j | 0 <= i < j < |r| ensures r[i] < r[j] {
        if s[0] !in t {
          assert r == [s[0]] + rest;
          if i == 0 {
            assert r[j] == rest[j - 1] && rest[j - 1] in rest;
          } else {
            assert r[i] == rest[i - 1] && r[j] == rest[j - 1];
          }
        } else {
          assert r == rest;
        }
      }
    }
  }

  /** The indices below `n` that are not in `taken`, ascending (what `nodes` holds after the seed loop). */
  function Remaining(n: nat, taken: seq<nat>): seq<nat> {
    FilterOut(Range(n), taken)
  }

  /** `Remaining` is the ascending complement of `taken` in `0..n-1`, and together with a
      duplicate-free, in-range `taken` it accounts for every index exactly once. */
  lemma {:induction false} RemainingComplement(n: nat, taken: seq<nat>)
    requires NoDup(taken) && InRange(taken, n)
    ensures StrictlyAscending(Remaining(n, taken))
    ensures forall y: nat :: y in Remaining(n, taken) <==> y < n && y !in taken
    ensures multiset(taken) + multiset(Remaining(n, taken)) == multiset(Range(n))
  {
    var r := Range(n);
    assert StrictlyAscending(r) by {
      forall i, j | 0 <= i < j < |r| ensures r[i] < r[j] {
        assert r[i] == i && r[j] == j;
      }
    }
    FilterOutAscending(r, taken);
    forall y: nat ensures y in Remaining(n, taken) <==> y < n && y !in taken {
      FilterOutMember(Range(n), taken, y);
      assert y < n ==> Range(n)[y] == y;
    }
    RangeCount(n);
    NoDupCounts(taken);
    forall y: nat ensures (multiset(taken) + multiset(Remaining(n, taken)))[y] == multiset(Range(n))[y] {
      FilterOutCount(Range(n), taken, y);
      if y in taken {
        var k :| 0 <= k < |taken| && taken[k] == y;
        assert taken[k] < n;
      }
    }
    assert multiset(taken) + multiset(Remaining(n, taken)) == multiset(Range(n));
  }

  /** The distinct elements of `s` in order of first occurrence. */
  function Distinct(s: seq<nat>): (r: seq<nat>)
    ensures NoDup(r)
    ensures forall x :: x in r <==> x in s
  {
    if s == [] then []
    else
      var d := Distinct(s[..|s| - 1]);
      assert forall x :: x in s <==> x in s[..|s| - 1] || x == s[|s| - 1];
      if s[|s| - 1] in d then d else d + [s[|s| - 1]]
  }

  lemma {:induction false} DistinctSnoc(s: seq<nat>, x: nat)
    ensures Distinct(s + [x]) == if x in Distinct(s) then Distinct(s) else Distinct(s) + [x]
  {
    assert (s + [x])[..|s|] == s;
  }

  /** De-duplicating a longer input only extends the result. */
  lemma {:induction false} DistinctPrefix(s: seq<nat>, t: seq<nat>)
    ensures Distinct(s) <= Distinct(s + t)
  {
    if t != [] {
      var u := t[..|t| - 1];
      DistinctPrefix(s, u);
      assert s + t == (s + u) + [t[|t| - 1]];
      DistinctSnoc(s + u, t[|t| - 1]);
      var a, b, c := Distinct(s), Distinct(s + u), Distinct(s + t);
      assert b <= c;
      assert a == b[..|a|] && b == c[..|b|];
      assert a == c[..|a|];
    } else {
      assert s + t == s;
    }
  }
}
