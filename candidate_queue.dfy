/**
 * The unique-candidate queue that `processWords` (main.go) and
 * `findUniqueWords` (algo.go) both maintain: a list of the items whose word was
 * seen exactly once so far, in order of first occurrence, beside a set of every
 * word seen. Items are generic; `key` gives an item's word.
 */
module CandidateQueue {
  import opened WordSet

  /** Number of items of `s` whose word is `w`. */
  function Occurrences<T>(s: seq<T>, key: T -> string, w: string): nat
  {
    if s == [] then 0
    else Occurrences(s[..|s| - 1], key, w) + (if key(s[|s| - 1]) == w then 1 else 0)
  }

  /** The items of `xs`, in order, whose word occurs exactly once in `all`. */
  function OnceIn<T>(xs: seq<T>, all: seq<T>, key: T -> string): seq<T>
  {
    if xs == [] then []
    else
      OnceIn(xs[..|xs| - 1], all, key)
      + (if Occurrences(all, key, key(xs[|xs| - 1])) == 1 then [xs[|xs| - 1]] else [])
  }

  /** The items of `s` whose word occurs exactly once in `s`, in order. */
  function Survivors<T>(s: seq<T>, key: T -> string): seq<T>
  {
    OnceIn(s, s, key)
  }

  /** `q` with every item whose word is `w` taken out. */
  function WithoutKey<T>(q: seq<T>, key: T -> string, w: string): seq<T>
  {
    if q == [] then []
    else WithoutKey(q[..|q| - 1], key, w) + (if key(q[|q| - 1]) == w then [] else [q[|q| - 1]])
  }

  /** The words of the items of `s`. */
  ghost function KeySet<T>(s: seq<T>, key: T -> string): set<string>
  {
    set i | 0 <= i < |s| :: key(s[i])
  }

  /** The word of a plain word. */
  function Id(w: string): string { w }

  // ---------------------------------------------------------------------------
  // Counting
  // ---------------------------------------------------------------------------

  lemma {:induction false} OccurrencesAppend<T>(a: seq<T>, b: seq<T>, key: T -> string, w: string)
    ensures Occurrences(a + b, key, w) == Occurrences(a, key, w) + Occurrences(b, key, w)
    decreases |b|
  {
    if b == [] {
      assert a + b == a;
    } else {
      assert (a + b)[..|a + b| - 1] == a + b[..|b| - 1];
      OccurrencesAppend(a, b[..|b| - 1], key, w);
    }
  }

  /** A word occurs in `s` exactly when some item of `s` carries it. */
  lemma {:induction false} OccurrencesPositive<T>(s: seq<T>, key: T -> string, w: string)
    ensures Occurrences(s, key, w) > 0 <==> exists i :: 0 <= i < |s| && key(s[i]) == w
  {
    if s != [] {
      var init := s[..|s| - 1];
      OccurrencesPositive(init, key, w);
      if exists i :: 0 <= i < |init| && key(init[i]) == w {
        var i :| 0 <= i < |init| && key(init[i]) == w;
        assert key(s[i]) == w;
      }
      if exists i :: 0 <= i < |s| && key(s[i]) == w {
        var i :| 0 <= i < |s| && key(s[i]) == w;
        if i < |init| { assert key(init[i]) == w; }
      }
    }
  }

  lemma OccurrencesMember<T>(s: seq<T>, key: T -> string, i: nat)
    requires i < |s|
    ensures Occurrences(s, key, key(s[i])) > 0
  {
    OccurrencesPositive(s, key, key(s[i]));
  }

  lemma KeySetOccurrences<T>(s: seq<T>, key: T -> string, w: string)
    ensures w in KeySet(s, key) <==> Occurrences(s, key, w) > 0
  {
    OccurrencesPositive(s, key, w);
  }

  /** Reordering the items does not change how often a word occurs. */
  lemma {:induction false} OccurrencesPermutation<T>(a: seq<T>, b: seq<T>, key: T -> string, w: string)
    requires multiset(a) == multiset(b)
    ensures Occurrences(a, key, w) == Occurrences(b, key, w)
    decreases |a|
  {
    if a != [] {
      var x := a[|a| - 1];
      var a' := a[..|a| - 1];
      assert a == a' + [x];
      assert x in multiset(b);
      var j :| 0 <= j < |b| && b[j] == x;
      var b' := b[..j] + b[j + 1..];
      assert b == b[..j] + [x] + b[j + 1..];
      assert multiset(b') == multiset(b) - multiset{x};
      assert multiset(a') == multiset(a) - multiset{x};
      OccurrencesPermutation(a', b', key, w);
      OccurrencesAppend(b[..j], b[j + 1..], key, w);
      OccurrencesAppend(b[..j] + [x], b[j + 1..], key, w);
      OccurrencesAppend(b[..j], [x], key, w);
      assert Occurrences([x], key, w) == if key(x) == w then 1 else 0 by {
        assert [x][..0] == [];
      }
    }
  }

  // ---------------------------------------------------------------------------
  // Removal by word
  // ---------------------------------------------------------------------------

  lemma {:induction false} WithoutKeyAppend<T>(a: seq<T>, b: seq<T>, key: T -> string, w: string)
    ensures WithoutKey(a + b, key, w) == WithoutKey(a, key, w) + WithoutKey(b, key, w)
    decreases |b|
  {
    if b == [] {
      assert a + b == a;
    } else {
      assert (a + b)[..|a + b| - 1] == a + b[..|b| - 1];
      WithoutKeyAppend(a, b[..|b| - 1], key, w);
    }
  }

  lemma {:induction false} WithoutAbsentKey<T>(q: seq<T>, key: T -> string, w: string)
    requires forall i :: 0 <= i < |q| ==> key(q[i]) != w
    ensures WithoutKey(q, key, w) == q
  {
    if q != [] {
      WithoutAbsentKey(q[..|q| - 1], key, w);
    }
  }

  /**
   * The linear scan of main.go:55-60 and algo.go:36-41: unlink the first item
   * whose word is `w`, if any. When `w` occurs at most once, as in a queue of
   * survivors, this is removing `w` altogether.
   */
  method RemoveByKey<T>(q: seq<T>, key: T -> string, w: string) returns (q': seq<T>)
    ensures Occurrences(q, key, w) == 0 ==> q' == q
    ensures Occurrences(q, key, w) > 0 ==>
      exists j :: 0 <= j < |q| && key(q[j]) == w && (forall i :: 0 <= i < j ==> key(q[i]) != w)
        && q' == q[..j] + q[j + 1..]
    ensures Occurrences(q, key, w) <= 1 ==> q' == WithoutKey(q, key, w)
  {
    var j := 0;
    while j < |q| && key(q[j]) != w
      invariant 0 <= j <= |q|
      invariant forall i :: 0 <= i < j ==> key(q[i]) != w
    {
      j := j + 1;
    }
    if j < |q| {
      q' := q[..j] + q[j + 1..];
      UnlinkFirst(q, key, w, j);
    } else {
      q' := q;
      OccurrencesPositive(q, key, w);
      WithoutAbsentKey(q, key, w);
    }
  }

  /** Unlinking the first item with word `w` removes `w` when it occurs at most once. */
  lemma UnlinkFirst<T>(q: seq<T>, key: T -> string, w: string, j: nat)
    requires j < |q| && key(q[j]) == w
    requires forall i :: 0 <= i < j ==> key(q[i]) != w
    ensures Occurrences(q, key, w) >= 1
    ensures Occurrences(q, key, w) <= 1 ==> q[..j] + q[j + 1..] == WithoutKey(q, key, w)
  {
    var a, x, b := q[..j], q[j], q[j + 1..];
    assert q == a + [x] + b;
    assert [x][..0] == [];
    assert Occurrences(q, key, w) == Occurrences(a, key, w) + 1 + Occurrences(b, key, w) by {
      OccurrencesAppend(a + [x], b, key, w);
      OccurrencesAppend(a, [x], key, w);
    }
    assert WithoutKey(q, key, w) == WithoutKey(a, key, w) + WithoutKey(b, key, w) by {
      WithoutKeyAppend(a + [x], b, key, w);
      WithoutKeyAppend(a, [x], key, w);
    }
    WithoutAbsentKey(a, key, w);
    if Occurrences(q, key, w) <= 1 {
      OccurrencesPositiveZero(b, key, w);
      WithoutAbsentKey(b, key, w);
    }
  }

  lemma OccurrencesPositiveZero<T>(s: seq<T>, key: T -> string, w: string)
    requires Occurrences(s, key, w) == 0
    ensures forall i :: 0 <= i < |s| ==> key(s[i]) != w
  {
    OccurrencesPositive(s, key, w);
  }

  // ---------------------------------------------------------------------------
  // How the survivors evolve
  // ---------------------------------------------------------------------------

  lemma {:induction false} OnceInAppend<T>(xs: seq<T>, ys: seq<T>, all: seq<T>, key: T -> string)
    ensures OnceIn(xs + ys, all, key) == OnceIn(xs, all, key) + OnceIn(ys, all, key)
    decreases |ys|
  {
    if ys == [] {
      assert xs + ys == xs;
    } else {
      assert (xs + ys)[..|xs + ys| - 1] == xs + ys[..|ys| - 1];
      OnceInAppend(xs, ys[..|ys| - 1], all, key);
    }
  }

  /** A repeat of an already seen word removes that word from the survivors. */
  lemma {:induction false} OnceInRepeat<T>(xs: seq<T>, all: seq<T>, x: T, key: T -> string)
    requires Occurrences(all, key, key(x)) > 0
    ensures OnceIn(xs, all + [x], key) == WithoutKey(OnceIn(xs, all, key), key, key(x))
    decreases |xs|
  {
    if xs != [] {
      var init := xs[..|xs| - 1];
      OnceInRepeat(init, all, x, key);
      assert (all + [x])[..|all|] == all;
      WithoutKeyAppend(OnceIn(init, all, key),
        if Occurrences(all, key, key(xs[|xs| - 1])) == 1 then [xs[|xs| - 1]] else [], key, key(x));
      var y := xs[|xs| - 1];
      assert WithoutKey([y], key, key(x)) == if key(y) == key(x) then [] else [y] by {
        assert [y][..0] == [];
      }
    }
  }

  /** A word never seen before leaves the survivors among `xs` unchanged when `xs` lacks it. */
  lemma {:induction false} OnceInFresh<T>(xs: seq<T>, all: seq<T>, x: T, key: T -> string)
    requires Occurrences(all, key, key(x)) == 0
    requires forall i :: 0 <= i < |xs| ==> key(xs[i]) != key(x)
    ensures OnceIn(xs, all + [x], key) == OnceIn(xs, all, key)
    decreases |xs|
  {
    if xs != [] {
      OnceInFresh(xs[..|xs| - 1], all, x, key);
      assert (all + [x])[..|all|] == all;
    }
  }

  /**
   * The queue update of main.go:54-64 and algo.go:35-45, stated on the
   * specification: a new word is appended, a repeated word is taken out.
   */
  lemma SurvivorsStep<T>(p: seq<T>, x: T, key: T -> string)
    ensures Survivors(p + [x], key) ==
      if Occurrences(p, key, key(x)) > 0 then WithoutKey(Survivors(p, key), key, key(x))
      else Survivors(p, key) + [x]
  {
    var s := p + [x];
    assert s[..|p|] == p;
    OnceInAppend(p, [x], s, key);
    assert OnceIn([x], s, key) == if Occurrences(s, key, key(x)) == 1 then [x] else [] by {
      assert [x][..0] == [];
    }
    if Occurrences(p, key, key(x)) > 0 {
      OnceInRepeat(p, p, x, key);
    } else {
      OccurrencesPositiveZero(p, key, key(x));
      OnceInFresh(p, p, x, key);
    }
  }

  /** How often a word occurs among the survivors of `xs` within `all`. */
  lemma {:induction false} OccurrencesOnceIn<T>(xs: seq<T>, all: seq<T>, key: T -> string, w: string)
    ensures Occurrences(OnceIn(xs, all, key), key, w) ==
      if Occurrences(all, key, w) == 1 then Occurrences(xs, key, w) else 0
    decreases |xs|
  {
    if xs != [] {
      var init, y := xs[..|xs| - 1], xs[|xs| - 1];
      OccurrencesOnceIn(init, all, key, w);
      var tail := if Occurrences(all, key, key(y)) == 1 then [y] else [];
      OccurrencesAppend(OnceIn(init, all, key), tail, key, w);
      assert [y][..0] == [];
    }
  }

  /** No word occurs twice among the survivors. */
  lemma SurvivorsDistinct<T>(s: seq<T>, key: T -> string, w: string)
    ensures Occurrences(Survivors(s, key), key, w) <= 1
  {
    OccurrencesOnceIn(s, s, key, w);
  }

  /** An item survives exactly when it comes from `xs` and its word occurs once in `all`. */
  lemma {:induction false} OnceInMembers<T>(xs: seq<T>, all: seq<T>, key: T -> string, x: T)
    ensures x in OnceIn(xs, all, key) <==> x in xs && Occurrences(all, key, key(x)) == 1
    decreases |xs|
  {
    if xs != [] {
      var init := xs[..|xs| - 1];
      OnceInMembers(init, all, key, x);
      assert xs == init + [xs[|xs| - 1]];
    }
  }

  /**
   * The survivors are empty exactly when no word of `xs` occurs once in `all`;
   * otherwise the first survivor is the first item of `xs` whose word occurs
   * once in `all`.
   */
  lemma {:induction false} OnceInFirst<T>(xs: seq<T>, all: seq<T>, key: T -> string)
    ensures OnceIn(xs, all, key) == [] <==>
      forall i :: 0 <= i < |xs| ==> Occurrences(all, key, key(xs[i])) != 1
    ensures OnceIn(xs, all, key) != [] ==>
      exists i :: 0 <= i < |xs| && xs[i] == OnceIn(xs, all, key)[0]
        && Occurrences(all, key, key(xs[i])) == 1
        && forall j :: 0 <= j < i ==> Occurrences(all, key, key(xs[j])) != 1
    decreases |xs|
  {
    if xs != [] {
      var init, y := xs[..|xs| - 1], xs[|xs| - 1];
      OnceInFirst(init, all, key);
      if OnceIn(init, all, key) != [] {
        var i :| 0 <= i < |init| && init[i] == OnceIn(init, all, key)[0]
          && Occurrences(all, key, key(init[i])) == 1
          && forall j :: 0 <= j < i ==> Occurrences(all, key, key(init[j])) != 1;
        assert xs[i] == init[i];
        assert forall j :: 0 <= j < i ==> xs[j] == init[j];
      } else {
        assert forall j :: 0 <= j < |init| ==> xs[j] == init[j];
      }
    }
  }

  /** The first survivor is the first item whose word occurs exactly once. */
  lemma FirstSurvivor<T>(s: seq<T>, key: T -> string)
    ensures Survivors(s, key) == [] <==> forall i :: 0 <= i < |s| ==> Occurrences(s, key, key(s[i])) != 1
    ensures Survivors(s, key) != [] ==>
      exists i :: 0 <= i < |s| && s[i] == Survivors(s, key)[0]
        && Occurrences(s, key, key(s[i])) == 1
        && forall j :: 0 <= j < i ==> Occurrences(s, key, key(s[j])) != 1
  {
    OnceInFirst(s, s, key);
  }

  // ---------------------------------------------------------------------------
  // The queue update, imperatively
  // ---------------------------------------------------------------------------

  /**
   * One step of the tracker (main.go:54-64, algo.go:35-45): if the word of `x`
   * was seen, unlink it from the queue by a scan; otherwise mark it seen and
   * append `x`. Given the queue and set for the items `p` seen so far, it
   * returns the queue and leaves the set for `p + [x]`.
   */
  method Observe<T>(queue: seq<T>, seen: WordHashSet, x: T, key: T -> string, ghost p: seq<T>)
    returns (queue': seq<T>)
    requires queue == Survivors(p, key)
    requires seen.Members() == KeySet(p, key)
    modifies seen
    ensures queue' == Survivors(p + [x], key)
    ensures seen.Members() == KeySet(p + [x], key)
  {
    KeySetOccurrences(p, key, key(x));
    assert KeySet(p + [x], key) == KeySet(p, key) + {key(x)} by {
      assert forall i :: 0 <= i < |p| ==> (p + [x])[i] == p[i];
      assert (p + [x])[|p|] == x;
    }
    SurvivorsStep(p, x, key);
    var wasSeen := seen.Has(key(x));
    if wasSeen {
      SurvivorsDistinct(p, key, key(x));
      queue' := RemoveByKey(queue, key, key(x));
    } else {
      seen.Add(key(x));
      queue' := queue + [x];
    }
  }
}
