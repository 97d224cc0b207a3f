/**
 * How far one run of the script gets through the uploads. Each file shows
 * its widgets under a name, or under none when it was rejected before
 * them; the first file whose name was already shown stops the run.
 */
module Runs {
  import opened Wrappers
  import opened Tables

  /** `g` applied to each of `xs`, in order. */
  function Each<A, B>(xs: seq<A>, g: A -> B): (w: seq<B>)
    ensures |w| == |xs|
    ensures forall i :: 0 <= i < |xs| ==> w[i] == g(xs[i])
  {
    seq(|xs|, i requires 0 <= i < |xs| => g(xs[i]))
  }

  lemma EachConcat<A, B>(xs: seq<A>, ys: seq<A>, g: A -> B)
    ensures Each(xs + ys, g) == Each(xs, g) + Each(ys, g)
  {
    var l, r := Each(xs + ys, g), Each(xs, g) + Each(ys, g);
    forall i | 0 <= i < |xs + ys| ensures l[i] == r[i] {
      if i < |xs| {
        assert (xs + ys)[i] == xs[i];
      } else {
        assert (xs + ys)[i] == ys[i - |xs|];
      }
    }
  }

  lemma EachSnoc<A, B>(xs: seq<A>, g: A -> B, i: nat)
    requires i < |xs|
    ensures Each(xs, g)[..i + 1] == Each(xs, g)[..i] + [g(xs[i])]
  {
    var w := Each(xs, g);
    assert w[..i + 1] == w[..i] + [w[i]];
  }

  /**
   * With `f` inserted after `xs`, the first `k` results before the
   * insertion point are unchanged, and past it they shift by one around
   * `g(f)`.
   */
  lemma EachInsert<A, B>(xs: seq<A>, f: A, ys: seq<A>, g: A -> B, k: nat)
    requires k <= |xs| + |ys|
    ensures k <= |xs| ==> Each(xs + [f] + ys, g)[..k] == Each(xs + ys, g)[..k]
    ensures |xs| <= k ==>
              var before := Each(xs + ys, g)[..k];
              Each(xs + [f] + ys, g)[..k + 1] == before[..|xs|] + [g(f)] + before[|xs|..]
  {
    EachConcat(xs + [f], ys, g);
    EachConcat(xs, [f], g);
    EachConcat(xs, ys, g);
    var a, b, c := Each(xs, g), Each(ys, g), [g(f)];
    assert Each([f], g) == c;
    if k <= |xs| {
      assert (a + c + b)[..k] == a[..k] == (a + b)[..k];
    }
    if |xs| <= k {
      assert (a + c + b)[..k + 1] == a + c + b[..k - |xs|];
      assert (a + b)[..k][..|xs|] == a;
      assert (a + b)[..k][|xs|..] == b[..k - |xs|];
    }
  }

  /** The names that were shown, in order. */
  function Names<T(==)>(shown: seq<Option<T>>): (names: seq<T>)
    ensures |names| <= |shown|
  {
    if shown == [] then [] else NameOf(shown[0]) + Names(shown[1..])
  }

  /** The name one file shows, as a list of zero or one names. */
  function NameOf<T>(o: Option<T>): (n: seq<T>)
    ensures |n| <= 1
  {
    if o.Some? then [o.value] else []
  }

  /**
   * Where a run stops, given the names its files show and the names `seen`
   * shown before them: the position of the first file whose name was
   * already shown, or `|shown|` when there is none.
   */
  function StopAt<T(==)>(shown: seq<Option<T>>, seen: seq<T>): (k: nat)
    ensures k <= |shown|
    ensures k < |shown| ==> shown[k].Some?
    decreases |shown|
  {
    if shown == [] then 0
    else if shown[0].Some? && shown[0].value in seen then 0
    else 1 + StopAt(shown[1..], seen + NameOf(shown[0]))
  }

  lemma {:induction false} NamesConcat<T>(xs: seq<Option<T>>, ys: seq<Option<T>>)
    ensures Names(xs + ys) == Names(xs) + Names(ys)
  {
    if xs == [] {
      assert xs + ys == ys;
    } else {
      assert (xs + ys)[0] == xs[0];
      assert (xs + ys)[1..] == xs[1..] + ys;
      NamesConcat(xs[1..], ys);
      assert (NameOf(xs[0]) + Names(xs[1..])) + Names(ys) == NameOf(xs[0]) + (Names(xs[1..]) + Names(ys));
    }
  }

  /**
   * Running two lists of files one after the other is running them
   * together: the second list sees the names the first one showed, and a
   * run that stopped in the first list never reaches the second.
   */
  lemma {:induction false} StopConcat<T>(xs: seq<Option<T>>, ys: seq<Option<T>>, seen: seq<T>)
    ensures var a := StopAt(xs, seen);
            StopAt(xs + ys, seen) == if a < |xs| then a else |xs| + StopAt(ys, seen + Names(xs))
    decreases |xs|
  {
    if xs == [] {
      assert xs + ys == ys;
      assert seen + Names(xs) == seen;
    } else {
      var seen' := seen + NameOf(xs[0]);
      assert (xs + ys)[0] == xs[0];
      assert (xs + ys)[1..] == xs[1..] + ys;
      StopConcat(xs[1..], ys, seen');
      assert (seen + NameOf(xs[0])) + Names(xs[1..]) == seen + (NameOf(xs[0]) + Names(xs[1..]));
    }
  }

  lemma DistinctSnoc<T>(s: seq<T>, x: T)
    ensures Distinct(s + [x]) <==> Distinct(s) && x !in s
  {
    if Distinct(s + [x]) {
      assert forall i, j :: 0 <= i < j < |s| ==> (s + [x])[i] == s[i] && (s + [x])[j] == s[j];
      forall i | 0 <= i < |s| ensures s[i] != x {
        assert (s + [x])[i] == s[i] && (s + [x])[|s|] == x;
      }
    }
  }

  /** A repeated element makes a list non-distinct. */
  lemma RepeatNotDistinct<T>(s: seq<T>, x: T, rest: seq<T>)
    requires x in s
    ensures !Distinct(s + [x] + rest)
  {
    var k :| 0 <= k < |s| && s[k] == x;
    var t := s + [x] + rest;
    assert t[k] == x && t[|s|] == x;
  }

  /** The run goes through all files exactly when no shown name repeats. */
  lemma {:induction false} StopCompletes<T>(shown: seq<Option<T>>, seen: seq<T>)
    requires Distinct(seen)
    ensures StopAt(shown, seen) == |shown| <==> Distinct(seen + Names(shown))
    decreases |shown|
  {
    if shown == [] {
      assert seen + Names(shown) == seen;
    } else {
      var o, rest := shown[0], shown[1..];
      var seen' := seen + NameOf(o);
      assert (seen + NameOf(o)) + Names(rest) == seen + (NameOf(o) + Names(rest));
      if o.Some? && o.value in seen {
        RepeatNotDistinct(seen, o.value, Names(rest));
      } else {
        if o.Some? {
          DistinctSnoc(seen, o.value);
        } else {
          assert seen' == seen;
        }
        StopCompletes(rest, seen');
      }
    }
  }

  /**
   * An unshown file leaves the stopping point where it was: before it when
   * the run stops earlier, one place later otherwise.
   */
  lemma SkipUnshown<T>(xs: seq<Option<T>>, ys: seq<Option<T>>)
    ensures var k := StopAt(xs + ys, []);
            StopAt(xs + [None] + ys, []) == if k < |xs| then k else k + 1
  {
    assert xs + [None] + ys == xs + ([None] + ys);
    assert ([None] + ys)[0] == None && ([None] + ys)[1..] == ys;
    StopConcat(xs, [None] + ys, []);
    StopConcat(xs, ys, []);
    var seen := [] + Names(xs);
    assert seen + [] == seen;
  }

  /** A single file: where it stops the run and which names it shows. */
  lemma StopOne<T>(o: Option<T>, seen: seq<T>)
    ensures StopAt([o], seen) == if o.Some? && o.value in seen then 0 else 1
    ensures Names([o]) == NameOf(o)
  {
    assert [o][1..] == [];
    assert NameOf(o) + [] == NameOf(o);
  }

  /** In a run that has got past `shown[..i]`, file `i` either stops it there or is passed too. */
  lemma StopStep<T>(shown: seq<Option<T>>, i: nat)
    requires i < |shown|
    requires StopAt(shown[..i], []) == i
    ensures var seen := Names(shown[..i]);
            && (StopAt(shown, []) == i <==> shown[i].Some? && shown[i].value in seen)
            && (StopAt(shown, []) != i ==>
                  && StopAt(shown[..i + 1], []) == i + 1
                  && Names(shown[..i + 1]) == seen + NameOf(shown[i]))
  {
    var pre, rest := shown[..i], shown[i..];
    var seen := Names(pre);
    assert [] + seen == seen;
    assert shown == pre + rest;
    StopConcat(pre, rest, []);
    assert rest[0] == shown[i];
    if !(shown[i].Some? && shown[i].value in seen) {
      assert shown[..i + 1] == pre + [shown[i]];
      StopPassOne(pre, shown[i]);
    }
  }

  /** Past a run prefix, an item whose name is new is passed and its name joins the others. */
  lemma StopPassOne<T>(pre: seq<Option<T>>, o: Option<T>)
    requires StopAt(pre, []) == |pre|
    requires !(o.Some? && o.value in Names(pre))
    ensures StopAt(pre + [o], []) == |pre| + 1
    ensures Names(pre + [o]) == Names(pre) + NameOf(o)
  {
    assert [] + Names(pre) == Names(pre);
    StopConcat(pre, [o], []);
    StopOne(o, Names(pre));
    NamesConcat(pre, [o]);
  }

  /** A shown file followed by one under the same name: the run stops at the second. */
  lemma StopAtRepeat<T>(shown: seq<Option<T>>)
    requires |shown| >= 2 && shown[0].Some? && shown[1] == shown[0]
    ensures StopAt(shown, []) == 1
  {
    assert shown[1..][0] == shown[1];
    assert [] + [shown[0].value] == [shown[0].value];
  }

  /** Past the insertion point, every result moves one place on. */
  lemma EachInsertAt<A, B>(xs: seq<A>, f: A, ys: seq<A>, g: A -> B, j: nat)
    requires |xs| <= j < |xs| + |ys|
    ensures Each(xs + [f] + ys, g)[j + 1] == Each(xs + ys, g)[j]
  {
    assert (xs + [f] + ys)[j + 1] == (xs + ys)[j];
  }

  /**
   * Inserting an item that shows no name after `xs`: the run stops at the
   * same item, one place later when that item comes after the insertion.
   */
  lemma InsertUnshown<A, T>(xs: seq<A>, f: A, ys: seq<A>, shown: A -> Option<T>)
    requires shown(f) == None
    ensures var k' := StopAt(Each(xs + ys, shown), []);
            StopAt(Each(xs + [f] + ys, shown), []) == if k' < |xs| then k' else k' + 1
  {
    EachConcat(xs + [f], ys, shown);
    EachConcat(xs, [f], shown);
    EachConcat(xs, ys, shown);
    assert Each([f], shown) == [None];
    SkipUnshown(Each(xs, shown), Each(ys, shown));
  }
}
