/**
 * Keeping the first occurrence of each element of a sequence: the key order
 * of a JavaScript `Map` fed a stream of keys.
 */
module FirstOccurrence {

  predicate Distinct<T(==)>(xs: seq<T>) {
    forall i, j :: 0 <= i < j < |xs| ==> xs[i] != xs[j]
  }

  /** `ks` followed by each element of `ys` not already present, in order of first appearance. */
  function Extend<T(==)>(ks: seq<T>, ys: seq<T>): seq<T>
    decreases |ys|
  {
    if ys == [] then ks
    else
      var d := Extend(ks, ys[..|ys| - 1]);
      var y := ys[|ys| - 1];
      if y in d then d else d + [y]
  }

  /** The elements of `xs`, each once, in order of first appearance. */
  function Dedup<T(==)>(xs: seq<T>): seq<T> {
    Extend([], xs)
  }

  /** The index of the first occurrence of `x` in `xs`. */
  function IndexOf<T(==)>(xs: seq<T>, x: T): (i: nat)
    requires x in xs
    ensures i < |xs| && xs[i] == x && x !in xs[..i]
  {
    if xs[0] == x then 0 else 1 + IndexOf(xs[1..], x)
  }

  lemma {:induction false} IndexOfAppend<T>(xs: seq<T>, y: T, x: T)
    requires x in xs + [y]
    ensures x in xs ==> IndexOf(xs + [y], x) == IndexOf(xs, x)
    ensures x !in xs ==> IndexOf(xs + [y], x) == |xs|
  {
    var i := IndexOf(xs + [y], x);
    if x in xs {
      var j := IndexOf(xs, x);
      assert (xs + [y])[j] == x;
    }
  }

  /**
   * What `Extend` computes: a sequence without repetitions that starts with
   * `ks`, holds exactly the elements of `ks` and `ys`, and lists the new
   * elements in the order of their first appearance in `ys`.
   */
  lemma {:induction false} ExtendSpec<T>(ks: seq<T>, ys: seq<T>)
    requires Distinct(ks)
    ensures var e := Extend(ks, ys);
      && Distinct(e)
      && |e| >= |ks| && e[..|ks|] == ks
      && (forall x :: x in e <==> x in ks || x in ys)
      && (forall i :: |ks| <= i < |e| ==> e[i] in ys && e[i] !in ks)
      && (forall i, j :: |ks| <= i < j < |e| ==> IndexOf(ys, e[i]) < IndexOf(ys, e[j]))
    decreases |ys|
  {
    var e := Extend(ks, ys);
    if ys != [] {
      var init := ys[..|ys| - 1];
      var y := ys[|ys| - 1];
      assert ys == init + [y];
      ExtendSpec(ks, init);
      var d := Extend(ks, init);
      forall i | |ks| <= i < |d| ensures IndexOf(ys, d[i]) == IndexOf(init, d[i]) {
        IndexOfAppend(init, y, d[i]);
      }
      if y !in d {
        assert e == d + [y];
        IndexOfAppend(init, y, y);
        forall i | |ks| <= i < |d| ensures IndexOf(ys, e[i]) < IndexOf(ys, y) {
          assert e[i] == d[i];
        }
        assert e[..|ks|] == d[..|ks|];
      }
    }
  }

  /** Keys fed in two runs give the same order as one run over both. */
  lemma {:induction false} ExtendAppend<T>(ks: seq<T>, a: seq<T>, b: seq<T>)
    ensures Extend(ks, a + b) == Extend(Extend(ks, a), b)
    decreases |b|
  {
    if b == [] {
      assert a + b == a;
    } else {
      var init := b[..|b| - 1];
      assert (a + b)[..|a + b| - 1] == a + init;
      assert (a + b)[|a + b| - 1] == b[|b| - 1];
      ExtendAppend(ks, a, init);
    }
  }

  /** Keys already present change nothing. */
  lemma {:induction false} ExtendCovered<T>(ks: seq<T>, a: seq<T>)
    requires forall x :: x in a ==> x in ks
    ensures Extend(ks, a) == ks
    decreases |a|
  {
    if a != [] {
      var init := a[..|a| - 1];
      assert forall x :: x in init ==> x in a;
      ExtendCovered(ks, init);
      assert a[|a| - 1] in a;
    }
  }

  /** New keys without repetitions are appended as they come. */
  lemma {:induction false} ExtendFresh<T>(ks: seq<T>, t: seq<T>)
    requires Distinct(ks + t)
    ensures Extend(ks, t) == ks + t
    decreases |t|
  {
    if t != [] {
      var init := t[..|t| - 1];
      assert ks + t == (ks + init) + [t[|t| - 1]];
      assert Distinct(ks + init) by {
        forall i, j | 0 <= i < j < |ks + init| ensures (ks + init)[i] != (ks + init)[j] {
          assert (ks + init)[i] == (ks + t)[i] && (ks + init)[j] == (ks + t)[j];
        }
      }
      ExtendFresh(ks, init);
      var y := t[|t| - 1];
      assert y !in ks + init by {
        forall i | 0 <= i < |ks + init| ensures (ks + init)[i] != y {
          assert (ks + init)[i] == (ks + t)[i];
          assert y == (ks + t)[|ks + t| - 1];
        }
      }
    }
  }

  /** Extending by an extension of the same base adds nothing more. */
  lemma ExtendTwice<T>(ks: seq<T>, ys: seq<T>)
    requires Distinct(ks)
    ensures Extend(ks, Extend(ks, ys)) == Extend(ks, ys)
  {
    var d := Extend(ks, ys);
    ExtendSpec(ks, ys);
    var t := d[|ks|..];
    assert d == ks + t;
    ExtendAppend(ks, ks, t);
    ExtendCovered(ks, ks);
    ExtendFresh(ks, t);
  }
}
