/** Sequence facts shared by the symbol table, the scanner and the resolver. */
module Lists {

  predicate Distinct(s: seq<string>) {
    forall i, j :: 0 <= i < j < |s| ==> s[i] != s[j]
  }

  /** The position of the first occurrence of `x` in `s`. */
  function FirstIndex(s: seq<string>, x: string): (n: nat)
    requires x in s
    ensures n < |s| && s[n] == x && x !in s[..n]
  {
    if s[0] == x then 0 else 1 + FirstIndex(s[1..], x)
  }

  /** One list-append step of a dependency list: `x` is appended unless it is
      already present. */
  function AppendNew(acc: seq<string>, x: string): seq<string> {
    if x in acc then acc else acc + [x]
  }

  /** `AppendNew` applied to every element of `xs`, left to right. */
  function AppendAll(acc: seq<string>, xs: seq<string>): seq<string> {
    if xs == [] then acc else AppendNew(AppendAll(acc, xs[..|xs| - 1]), xs[|xs| - 1])
  }

  lemma {:induction false} AppendAllMembers(acc: seq<string>, xs: seq<string>)
    ensures forall x :: x in AppendAll(acc, xs) <==> x in acc || x in xs
  {
    if xs != [] {
      var init := xs[..|xs| - 1];
      AppendAllMembers(acc, init);
      assert xs == init + [xs[|xs| - 1]];
    }
  }

  lemma {:induction false} AppendAllDistinct(acc: seq<string>, xs: seq<string>)
    requires Distinct(acc)
    ensures Distinct(AppendAll(acc, xs))
  {
    if xs != [] {
      AppendAllDistinct(acc, xs[..|xs| - 1]);
    }
  }

  /** Appending never disturbs what is already in the list. */
  lemma {:induction false} AppendAllPrefix(acc: seq<string>, xs: seq<string>)
    ensures |acc| <= |AppendAll(acc, xs)| && AppendAll(acc, xs)[..|acc|] == acc
  {
    if xs != [] {
      var init := xs[..|xs| - 1];
      AppendAllPrefix(acc, init);
      var r := AppendAll(acc, init);
      assert (r + [xs[|xs| - 1]])[..|acc|] == r[..|acc|];
    }
  }

  lemma {:induction false} AppendAllConcat(acc: seq<string>, xs: seq<string>, ys: seq<string>)
    ensures AppendAll(acc, xs + ys) == AppendAll(AppendAll(acc, xs), ys)
  {
    if ys == [] {
      assert xs + ys == xs;
    } else {
      var yi := ys[..|ys| - 1];
      AppendAllConcat(acc, xs, yi);
      assert (xs + ys)[..|xs + ys| - 1] == xs + yi;
    }
  }

  /** A list that already holds every element of `xs` is left as it is. */
  lemma {:induction false} AppendAllPresent(acc: seq<string>, xs: seq<string>)
    requires forall x :: x in xs ==> x in acc
    ensures AppendAll(acc, xs) == acc
  {
    if xs != [] {
      AppendAllPresent(acc, xs[..|xs| - 1]);
    }
  }

  /** Repeating the same appends changes nothing. */
  lemma AppendAllIdempotent(acc: seq<string>, xs: seq<string>)
    ensures AppendAll(AppendAll(acc, xs), xs) == AppendAll(acc, xs)
  {
    AppendAllMembers(acc, xs);
    AppendAllPresent(AppendAll(acc, xs), xs);
  }

  /** Appending elements that are new and pairwise distinct appends them all. */
  lemma {:induction false} AppendAllFresh(acc: seq<string>, xs: seq<string>)
    requires Distinct(acc + xs)
    ensures AppendAll(acc, xs) == acc + xs
  {
    if xs != [] {
      var init := xs[..|xs| - 1];
      assert acc + xs == (acc + init) + [xs[|xs| - 1]];
      assert Distinct(acc + init) by {
        forall i, j | 0 <= i < j < |acc + init|
          ensures (acc + init)[i] != (acc + init)[j]
        {
          assert (acc + init)[i] == (acc + xs)[i] && (acc + init)[j] == (acc + xs)[j];
        }
      }
      AppendAllFresh(acc, init);
      assert xs[|xs| - 1] == (acc + xs)[|acc + xs| - 1];
      assert xs[|xs| - 1] !in acc + init by {
        forall i | 0 <= i < |acc + init| ensures (acc + init)[i] != xs[|xs| - 1] {
          assert (acc + init)[i] == (acc + xs)[i];
        }
      }
    }
  }

  lemma FirstIndexSnoc(s: seq<string>, x: string, y: string)
    requires y in s
    ensures FirstIndex(s + [x], y) == FirstIndex(s, y)
  {
    if s[0] != y {
      assert (s + [x])[1..] == s[1..] + [x];
      FirstIndexSnoc(s[1..], x, y);
    }
  }

  lemma FirstIndexLast(s: seq<string>, x: string)
    requires x !in s
    ensures FirstIndex(s + [x], x) == |s|
  {
    if s != [] {
      assert (s + [x])[1..] == s[1..] + [x];
      FirstIndexLast(s[1..], x);
    }
  }

  /** From position `from` on, `r` holds elements of `xs` in the order of
      their first occurrence in `xs`. */
  predicate InFirstSeenOrder(xs: seq<string>, r: seq<string>, from: nat) {
    && (forall i :: from <= i < |r| ==> r[i] in xs)
    && (forall i, j :: from <= i < j < |r| ==> r[i] in xs && r[j] in xs && FirstIndex(xs, r[i]) < FirstIndex(xs, r[j]))
  }

  /** The elements `AppendAll` adds are in the order of their first
      occurrence in `xs`. */
  lemma {:induction false} AppendAllFirstSeen(acc: seq<string>, xs: seq<string>)
    requires Distinct(acc)
    ensures InFirstSeenOrder(xs, AppendAll(acc, xs), |acc|)
  {
    var r := AppendAll(acc, xs);
    AppendAllDistinct(acc, xs);
    AppendAllPrefix(acc, xs);
    AppendAllMembers(acc, xs);
    forall i | |acc| <= i < |r| ensures r[i] in xs {
      assert r[i] in r && r[i] !in r[..|acc|];
    }
    if xs != [] {
      var init := xs[..|xs| - 1];
      var x := xs[|xs| - 1];
      assert xs == init + [x];
      var r0 := AppendAll(acc, init);
      AppendAllFirstSeen(acc, init);
      AppendAllMembers(acc, init);
      assert r == if x in r0 then r0 else r0 + [x];
      forall i, j | |acc| <= i < j < |r| ensures FirstIndex(xs, r[i]) < FirstIndex(xs, r[j]) {
        assert |acc| <= i < |r0|;
        assert r0[i] in init;
        FirstIndexSnoc(init, x, r0[i]);
        if j < |r0| {
          assert r0[j] in init;
          FirstIndexSnoc(init, x, r0[j]);
          assert FirstIndex(init, r0[i]) < FirstIndex(init, r0[j]);
          assert r[i] == r0[i] && r[j] == r0[j];
        } else {
          assert x !in r0 && r[j] == x && r[i] == r0[i];
          assert x !in init;
          FirstIndexLast(init, x);
          assert FirstIndex(init, r0[i]) < |init|;
        }
      }
    }
  }
}
