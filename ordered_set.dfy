/** A JavaScript `Set` of values, seen as the sequence of its elements in insertion order.
    `Array.from(set)` yields exactly this sequence. */
module OrderedSet {

  /** No element occurs twice. */
  ghost predicate NoDup<T>(s: seq<T>)
  {
    forall i, j :: 0 <= i < j < |s| ==> s[i] != s[j]
  }

  /** `set.add(x)`: appends `x` unless it is already present. */
  function Add<T(==,!new)>(s: seq<T>, x: T): (r: seq<T>)
    ensures x in r
    ensures forall y :: y in r <==> y in s || y == x
    ensures NoDup(s) ==> NoDup(r)
    ensures s <= r && |r| <= |s| + 1
  {
    if x in s then s else s + [x]
  }

  /** Adds every element of `xs` in order, as a sequence of `set.add` calls does. */
  function AddAll<T(==,!new)>(s: seq<T>, xs: seq<T>): (r: seq<T>)
    decreases |xs|
  {
    if xs == [] then s else AddAll(Add(s, xs[0]), xs[1..])
  }

  /** Adding one or two values is one or two `Add` calls. */
  lemma AddAllSteps<T(!new)>(s: seq<T>, xs: seq<T>)
    ensures |xs| == 1 ==> AddAll(s, xs) == Add(s, xs[0])
    ensures |xs| == 2 ==> AddAll(s, xs) == Add(Add(s, xs[0]), xs[1])
  {
    if |xs| == 2 {
      assert xs[1..] == [xs[1]] && xs[1..][1..] == [];
      assert AddAll(Add(s, xs[0]), xs[1..]) == AddAll(Add(Add(s, xs[0]), xs[1]), []);
    }
  }

  /** `Array.from(new Set(xs))`. */
  function Dedupe<T(==,!new)>(xs: seq<T>): (r: seq<T>)
  {
    AddAll([], xs)
  }

  lemma {:induction false} AddAllMembers<T(!new)>(s: seq<T>, xs: seq<T>)
    ensures forall y :: y in AddAll(s, xs) <==> y in s || y in xs
    ensures NoDup(s) ==> NoDup(AddAll(s, xs))
    ensures s <= AddAll(s, xs)
    decreases |xs|
  {
    if xs != [] {
      AddAllMembers(Add(s, xs[0]), xs[1..]);
      assert xs == [xs[0]] + xs[1..];
    }
  }

  /** Adding elements one batch after another is adding their concatenation. */
  lemma {:induction false} AddAllAppend<T(!new)>(s: seq<T>, xs: seq<T>, ys: seq<T>)
    ensures AddAll(AddAll(s, xs), ys) == AddAll(s, xs + ys)
    decreases |xs|
  {
    if xs != [] {
      assert xs + ys != [] && (xs + ys)[0] == xs[0] && (xs + ys)[1..] == xs[1..] + ys;
      assert AddAll(s, xs) == AddAll(Add(s, xs[0]), xs[1..]);
      AddAllAppend(Add(s, xs[0]), xs[1..], ys);
      assert AddAll(s, xs + ys) == AddAll(Add(s, xs[0]), xs[1..] + ys);
    } else {
      assert xs + ys == ys;
    }
  }

  /** A list without duplicates goes through a `Set` unchanged. */
  lemma {:induction false} AddAllDistinct<T(!new)>(s: seq<T>, xs: seq<T>)
    requires NoDup(s + xs)
    ensures AddAll(s, xs) == s + xs
    decreases |xs|
  {
    if xs != [] {
      forall i | 0 <= i < |s| ensures s[i] != xs[0] {
        assert (s + xs)[i] == s[i] && (s + xs)[|s|] == xs[0];
      }
      assert s + xs == (s + [xs[0]]) + xs[1..];
      AddAllDistinct(s + [xs[0]], xs[1..]);
    }
  }

  lemma DedupeSpec<T(!new)>(xs: seq<T>)
    ensures NoDup(Dedupe(xs))
    ensures forall y :: y in Dedupe(xs) <==> y in xs
    ensures NoDup(xs) ==> Dedupe(xs) == xs
  {
    AddAllMembers([], xs);
    if NoDup(xs) {
      assert [] + xs == xs;
      AddAllDistinct([], xs);
    }
  }

  /** `xs.filter(x => !excluded.includes(x))`. */
  function FilterOut<T(==,!new)>(xs: seq<T>, excluded: seq<T>): (r: seq<T>)
  {
    if xs == [] then []
    else if xs[0] in excluded then FilterOut(xs[1..], excluded)
    else [xs[0]] + FilterOut(xs[1..], excluded)
  }

  /** `a` is `b` with some elements dropped, the rest kept in order. */
  ghost predicate IsSubsequence<T>(a: seq<T>, b: seq<T>)
    decreases |b|
  {
    if a == [] then true
    else if b == [] then false
    else if a[0] == b[0] then IsSubsequence(a[1..], b[1..])
    else IsSubsequence(a, b[1..])
  }

  lemma {:induction false} FilterOutSpec<T(!new)>(xs: seq<T>, excluded: seq<T>)
    ensures forall y :: y in FilterOut(xs, excluded) <==> y in xs && y !in excluded
    ensures NoDup(xs) ==> NoDup(FilterOut(xs, excluded))
    ensures IsSubsequence(FilterOut(xs, excluded), xs)
    decreases |xs|
  {
    if xs != [] {
      FilterOutSpec(xs[1..], excluded);
      assert xs == [xs[0]] + xs[1..];
      var r := FilterOut(xs, excluded);
      if xs[0] !in excluded {
        assert r[0] == xs[0] && r[1..] == FilterOut(xs[1..], excluded);
        if NoDup(xs) {
          assert NoDup(xs[1..]) by {
            forall i, j | 0 <= i < j < |xs[1..]| ensures xs[1..][i] != xs[1..][j] {
              assert xs[1..][i] == xs[i + 1] && xs[1..][j] == xs[j + 1];
            }
          }
        }
      } else {
        if NoDup(xs) {
          assert NoDup(xs[1..]) by {
            forall i, j | 0 <= i < j < |xs[1..]| ensures xs[1..][i] != xs[1..][j] {
              assert xs[1..][i] == xs[i + 1] && xs[1..][j] == xs[j + 1];
            }
          }
        }
        if r != [] {
          assert r[0] in r;
        }
      }
    }
  }

  /** Skipping an element of `b` keeps `a` a subsequence of it. */
  lemma {:induction false} SubsequenceSkip<T>(a: seq<T>, b: seq<T>)
    requires b != [] && IsSubsequence(a, b[1..])
    ensures IsSubsequence(a, b)
    decreases |a| + |b|
  {
    if a != [] && a[0] == b[0] {
      SubsequenceTail(a, b[1..]);
    }
  }

  /** Dropping the first element of `a` keeps it a subsequence. */
  lemma {:induction false} SubsequenceTail<T>(a: seq<T>, c: seq<T>)
    requires a != [] && IsSubsequence(a, c)
    ensures IsSubsequence(a[1..], c)
    decreases |a| + |c|
  {
    if a[0] == c[0] {
      SubsequenceSkip(a[1..], c);
    } else {
      SubsequenceTail(a, c[1..]);
      SubsequenceSkip(a[1..], c);
    }
  }
}
