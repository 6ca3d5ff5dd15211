/** The few container operations that every replica in this project relies on. */
module Lists {

  datatype Option<+T> = None | Some(value: T)

  /** QList::indexOf: the first position of x, or -1. */
  function IndexOf<T(==)>(s: seq<T>, x: T): (i: int)
    ensures -1 <= i < |s|
    ensures i == -1 <==> x !in s
    ensures 0 <= i ==> s[i] == x && x !in s[..i]
  {
    if s == [] then -1
    else if s[0] == x then 0
    else
      var rest := IndexOf(s[1..], x);
      assert s == [s[0]] + s[1..];
      if rest == -1 then -1 else
        assert s[..rest + 1] == [s[0]] + s[1..][..rest];
        rest + 1
  }

  /** QList::removeAt. */
  function RemoveAt<T>(s: seq<T>, i: nat): seq<T>
    requires i < |s|
  {
    s[..i] + s[i + 1..]
  }

  lemma RemoveAtExactly<T>(s: seq<T>, i: nat)
    requires i < |s|
    ensures |RemoveAt(s, i)| == |s| - 1
    ensures forall k | 0 <= k < |s| - 1 :: RemoveAt(s, i)[k] == if k < i then s[k] else s[k + 1]
  {
  }

  /** QList::removeAll. */
  function Without<T(==)>(s: seq<T>, x: T): seq<T> {
    if s == [] then []
    else (if s[0] == x then [] else [s[0]]) + Without(s[1..], x)
  }

  lemma {:induction false} WithoutCount<T>(s: seq<T>, x: T)
    ensures multiset(Without(s, x)) == multiset(s)[x := 0]
  {
    if s != [] {
      WithoutCount(s[1..], x);
      assert s == [s[0]] + s[1..];
    }
  }

  lemma {:induction false} WithoutMembers<T>(s: seq<T>, x: T)
    ensures x !in Without(s, x)
    ensures forall y | y in Without(s, x) :: y in s && y != x
    ensures forall y | y in s && y != x :: y in Without(s, x)
  {
    if s != [] {
      WithoutMembers(s[1..], x);
      assert s == [s[0]] + s[1..];
    }
  }

  ghost predicate NoDup<T>(s: seq<T>) {
    forall i, j :: 0 <= i < j < |s| ==> s[i] != s[j]
  }

  lemma {:induction false} WithoutNoDup<T>(s: seq<T>, x: T)
    requires NoDup(s)
    ensures NoDup(Without(s, x))
  {
    if s != [] {
      WithoutNoDup(s[1..], x);
      WithoutMembers(s[1..], x);
      assert s[0] !in s[1..];
    }
  }

  lemma RemoveAtNoDup<T>(s: seq<T>, i: nat)
    requires NoDup(s) && i < |s|
    ensures NoDup(RemoveAt(s, i))
    ensures forall y :: y in RemoveAt(s, i) <==> y in s && y != s[i]
  {
    var r := RemoveAt(s, i);
    assert forall k :: 0 <= k < |r| ==> r[k] == (if k < i then s[k] else s[k + 1]);
    forall y | y in s && y != s[i] ensures y in r {
      var k :| 0 <= k < |s| && s[k] == y;
      assert y == r[if k < i then k else k - 1];
    }
  }

  lemma AppendNoDup<T>(s: seq<T>, x: T)
    requires NoDup(s) && x !in s
    ensures NoDup(s + [x])
  {
  }

  lemma WithoutOne<T>(y: T, x: T)
    ensures Without([y], x) == if y == x then [] else [y]
  {
    assert [y][1..] == [];
  }

  lemma {:induction false} WithoutNothing<T>(s: seq<T>, x: T)
    requires x !in s
    ensures Without(s, x) == s
  {
    if s != [] {
      WithoutNothing(s[1..], x);
      assert s == [s[0]] + s[1..];
    }
  }

  lemma {:induction false} WithoutConcat<T>(a: seq<T>, b: seq<T>, x: T)
    ensures Without(a + b, x) == Without(a, x) + Without(b, x)
  {
    if a == [] {
      assert a + b == b;
    } else {
      assert (a + b)[1..] == a[1..] + b;
      WithoutConcat(a[1..], b, x);
    }
  }

  lemma {:induction false} WithoutMiddle<T>(a: seq<T>, x: T, b: seq<T>)
    requires x !in a && x !in b
    ensures Without(a + ([x] + b), x) == a + b
  {
    WithoutNothing(a, x);
    WithoutNothing(b, x);
    var s := [x] + b;
    assert s[1..] == b;
    assert Without(s, x) == b;
    WithoutConcat(a, s, x);
  }

  lemma NoDupSplit<T>(s: seq<T>, i: nat)
    requires NoDup(s) && i < |s|
    ensures s[i] !in s[..i] && s[i] !in s[i + 1..]
  {
  }

  /** Where x occurs once, removing every x is removing that one. */
  lemma {:induction false} WithoutIs<T>(s: seq<T>, i: nat)
    requires i < |s| && s[i] !in s[..i] && s[i] !in s[i + 1..]
    ensures Without(s, s[i]) == RemoveAt(s, i)
  {
    var a, x, b := s[..i], s[i], s[i + 1..];
    SplitAt(s, i);
    WithoutMiddle(a, x, b);
  }

  lemma SplitAt<T>(s: seq<T>, i: nat)
    requires i < |s|
    ensures s == s[..i] + ([s[i]] + s[i + 1..])
  {
  }

  /** QList::removeOne and QList::removeAll agree on a list without repetitions. */
  lemma {:induction false} RemoveOneIs<T>(s: seq<T>, x: T)
    requires NoDup(s) && x in s
    ensures RemoveAt(s, IndexOf(s, x)) == Without(s, x)
  {
    var i := IndexOf(s, x);
    NoDupSplit(s, i);
    WithoutIs(s, i);
  }

  /** The concatenation of all parts. */
  function Flatten<T>(parts: seq<seq<T>>): seq<T> {
    if parts == [] then [] else Flatten(parts[..|parts| - 1]) + parts[|parts| - 1]
  }

  lemma {:induction false} FlattenOne<T>(part: seq<T>)
    ensures Flatten([part]) == part
  {
    var parts := [part];
    assert parts[..0] == [];
    assert Flatten(parts[..0]) + part == part;
  }

  lemma {:induction false} FlattenAppend<T>(parts: seq<seq<T>>, part: seq<T>)
    ensures Flatten(parts + [part]) == Flatten(parts) + part
  {
    assert (parts + [part])[..|parts|] == parts;
  }

  lemma {:induction false} FlattenConcat<T>(a: seq<seq<T>>, b: seq<seq<T>>)
    ensures Flatten(a + b) == Flatten(a) + Flatten(b)
  {
    if b == [] {
      assert a + b == a;
    } else {
      var before, last := b[..|b| - 1], b[|b| - 1];
      FlattenConcat(a, before);
      FlattenAppend(a + before, last);
      assert a + b == (a + before) + [last];
      assert Flatten(a) + Flatten(before) + last == Flatten(a) + (Flatten(before) + last);
    }
  }

  /** The first part that is not empty comes first. */
  lemma {:induction false} FlattenFirst<T>(parts: seq<seq<T>>, i: nat)
    requires i < |parts| && parts[i] != [] && forall j | 0 <= j < i :: parts[j] == []
    ensures Flatten(parts) != [] && Flatten(parts)[0] == parts[i][0]
  {
    var n := |parts| - 1;
    if i < n {
      FlattenFirst(parts[..n], i);
    } else {
      FlattenNothing(parts[..n]);
    }
  }

  lemma {:induction false} FirstPart<T>(parts: seq<seq<T>>) returns (i: nat)
    requires Flatten(parts) != []
    ensures i < |parts| && parts[i] != [] && forall j | 0 <= j < i :: parts[j] == []
  {
    var n := |parts| - 1;
    if Flatten(parts[..n]) != [] {
      i := FirstPart(parts[..n]);
    } else {
      i := n;
      forall j | 0 <= j < n ensures parts[j] == [] {
        if parts[j] != [] { FlattenContains(parts[..n], j, parts[j][0]); }
      }
    }
  }

  lemma {:induction false} FlattenNothing<T>(parts: seq<seq<T>>)
    requires forall i | 0 <= i < |parts| :: parts[i] == []
    ensures Flatten(parts) == []
  {
    if parts != [] {
      FlattenNothing(parts[..|parts| - 1]);
    }
  }

  lemma {:induction false} FlattenMember<T>(parts: seq<seq<T>>, x: T)
    requires x in Flatten(parts)
    ensures exists i | 0 <= i < |parts| :: x in parts[i]
  {
    var n := |parts| - 1;
    if x !in parts[n] {
      FlattenMember(parts[..n], x);
      var i :| 0 <= i < n && x in parts[..n][i];
      assert x in parts[i];
    }
  }

  lemma {:induction false} FlattenContains<T>(parts: seq<seq<T>>, i: nat, x: T)
    requires i < |parts| && x in parts[i]
    ensures x in Flatten(parts)
  {
    var n := |parts| - 1;
    if i < n {
      FlattenContains(parts[..n], i, x);
    }
  }

  // ---------- Filters ----------

  /** The elements that satisfy `keep`, in order. */
  function Keep<T>(s: seq<T>, keep: T -> bool): seq<T> {
    if s == [] then []
    else Keep(s[..|s| - 1], keep) + (if keep(s[|s| - 1]) then [s[|s| - 1]] else [])
  }

  lemma {:induction false} KeepAppend<T>(s: seq<T>, x: T, keep: T -> bool)
    ensures Keep(s + [x], keep) == Keep(s, keep) + (if keep(x) then [x] else [])
  {
    assert (s + [x])[..|s|] == s;
  }

  lemma KeepOne<T>(x: T, keep: T -> bool)
    ensures Keep([x], keep) == if keep(x) then [x] else []
  {
    KeepAppend([], x, keep);
    assert [] + [x] == [x];
  }

  lemma {:induction false} KeepConcat<T>(a: seq<T>, b: seq<T>, keep: T -> bool)
    ensures Keep(a + b, keep) == Keep(a, keep) + Keep(b, keep)
  {
    if b == [] {
      assert a + b == a;
    } else {
      assert (a + b)[..|a + b| - 1] == a + b[..|b| - 1];
      KeepConcat(a, b[..|b| - 1], keep);
    }
  }

  lemma {:induction false} KeepMembers<T>(s: seq<T>, keep: T -> bool)
    ensures forall x | x in Keep(s, keep) :: x in s && keep(x)
    ensures forall x | x in s && keep(x) :: x in Keep(s, keep)
  {
    if s != [] {
      KeepMembers(s[..|s| - 1], keep);
    }
  }

  lemma {:induction false} KeepAll<T>(s: seq<T>, keep: T -> bool)
    requires forall x | x in s :: keep(x)
    ensures Keep(s, keep) == s
  {
    if s != [] {
      var before, x := s[..|s| - 1], s[|s| - 1];
      assert s == before + [x];
      KeepAll(before, keep);
      assert keep(x) && Keep(s, keep) == Keep(before, keep) + [x];
    }
  }

  lemma {:induction false} KeepNone<T>(s: seq<T>, keep: T -> bool)
    requires forall x | x in s :: !keep(x)
    ensures Keep(s, keep) == []
  {
    if s != [] {
      KeepNone(s[..|s| - 1], keep);
    }
  }

  /** Filters that agree on the elements of a list give the same list. */
  lemma {:induction false} KeepSame<T>(s: seq<T>, f: T -> bool, g: T -> bool)
    requires forall x | x in s :: f(x) == g(x)
    ensures Keep(s, f) == Keep(s, g)
  {
    if s != [] {
      KeepSame(s[..|s| - 1], f, g);
    }
  }

  lemma {:induction false} KeepTwice<T>(s: seq<T>, f: T -> bool, g: T -> bool, both: T -> bool)
    requires forall x | x in s :: both(x) == (f(x) && g(x))
    ensures Keep(Keep(s, f), g) == Keep(s, both)
  {
    if s != [] {
      var before, x := s[..|s| - 1], s[|s| - 1];
      KeepTwice(before, f, g, both);
      if f(x) {
        KeepAppend(Keep(before, f), x, g);
      } else {
        assert Keep(s, f) == Keep(before, f);
      }
    }
  }

  /** Dropping one element from the middle. */
  lemma {:induction false} KeepMiddle<T>(a: seq<T>, x: T, b: seq<T>, keep: T -> bool)
    requires (forall y | y in a :: keep(y)) && !keep(x) && (forall y | y in b :: keep(y))
    ensures Keep(a + ([x] + b), keep) == a + b
  {
    calc {
      Keep(a + ([x] + b), keep);
      { KeepConcat(a, [x] + b, keep); }
      Keep(a, keep) + Keep([x] + b, keep);
      { KeepConcat([x], b, keep); KeepOne(x, keep); }
      Keep(a, keep) + Keep(b, keep);
      { KeepAll(a, keep); KeepAll(b, keep); }
      a + b;
    }
  }

  /** removeAll is a filter. */
  lemma {:induction false} WithoutIsKeep<T>(s: seq<T>, x: T, keep: T -> bool)
    requires forall y | y in s :: keep(y) == (y != x)
    ensures Without(s, x) == Keep(s, keep)
  {
    if s != [] {
      var n := |s| - 1;
      WithoutIsKeep(s[..n], x, keep);
      WithoutConcat(s[..n], [s[n]], x);
      WithoutOne(s[n], x);
      assert s == s[..n] + [s[n]];
    }
  }

  /** Filtering every part filters the concatenation. */
  lemma {:induction false} FlattenKeep<T>(parts: seq<seq<T>>, kept: seq<seq<T>>, keep: T -> bool)
    requires |kept| == |parts| && forall i | 0 <= i < |parts| :: kept[i] == Keep(parts[i], keep)
    ensures Flatten(kept) == Keep(Flatten(parts), keep)
  {
    if parts != [] {
      var n := |parts| - 1;
      FlattenKeep(parts[..n], kept[..n], keep);
      KeepConcat(Flatten(parts[..n]), parts[n], keep);
    }
  }

  /** The closed form of a list over a history grows by filtering the parts and adding the newest one. */
  lemma {:induction false} FlattenStep<T>(parts: seq<seq<T>>, more: seq<seq<T>>, keep: T -> bool)
    requires |more| == |parts| + 1 && forall i | 0 <= i < |parts| :: more[i] == Keep(parts[i], keep)
    ensures Flatten(more) == Keep(Flatten(parts), keep) + more[|parts|]
  {
    FlattenKeep(parts, more[..|parts|], keep);
  }
}
