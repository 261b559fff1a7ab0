/**
 * The partition-aware tracker `findUniqueWords` of algo.go:17-55. Its input is
 * a stream of entries, each a word with a partition number; every maximal run
 * of consecutive entries with the same partition is reduced on its own to the
 * entries whose word occurs exactly once in the run, and the tracker is reset
 * between runs.
 */
module PartitionRuns {
  import opened Outcomes
  import opened WordSet
  import opened CandidateQueue

  /** The `input` (and `output`) record of algo.go:8-13. */
  datatype Entry = Entry(word: string, partition: int)

  /** The key the tracker compares entries by. */
  function WordOf(e: Entry): string { e.word }

  /** `NO_PARTITION` (algo.go:15): the "no previous entry" marker. */
  const NoPartition: int := -1

  /**
   * Entry `i` opens a new run: the guard of algo.go:22. An entry after one
   * labelled `NoPartition` never opens a run, because the guard reads that
   * label as "no previous entry".
   */
  predicate StartsRun(s: seq<Entry>, i: nat)
    requires i < |s|
  {
    i > 0 && s[i - 1].partition != NoPartition && s[i].partition != s[i - 1].partition
  }

  /**
   * The runs after one more entry: `x` opens a new run, or joins the last.
   */
  function AddEntry(runs: seq<seq<Entry>>, x: Entry, opens: bool): (r: seq<seq<Entry>>)
    ensures |r| > 0
  {
    if opens || runs == [] then runs + [[x]]
    else runs[..|runs| - 1] + [runs[|runs| - 1] + [x]]
  }

  /** The runs of `s`, in order, as the loop of algo.go:21-47 delimits them. */
  function Runs(s: seq<Entry>): seq<seq<Entry>>
    decreases |s|
  {
    if s == [] then []
    else AddEntry(Runs(s[..|s| - 1]), s[|s| - 1], StartsRun(s, |s| - 1))
  }

  /** The concatenation of a sequence of sequences. */
  function Flatten<T>(xss: seq<seq<T>>): seq<T>
  {
    if xss == [] then [] else Flatten(xss[..|xss| - 1]) + xss[|xss| - 1]
  }

  /** All entries of `run` carry the same partition. */
  predicate OnePartition(run: seq<Entry>)
  {
    forall j, l :: 0 <= j < |run| && 0 <= l < |run| ==> run[j].partition == run[l].partition
  }

  /** Two emissions one after the other; the first panic wins. */
  function Join(a: Result<seq<Entry>>, b: Result<seq<Entry>>): Result<seq<Entry>>
  {
    match a
    case Err(f) => Err(f)
    case Ok(x) =>
      match b
      case Err(f) => Err(f)
      case Ok(y) => Ok(x + y)
  }

  /**
   * What one run emits when it is flushed (algo.go:23-29, algo.go:48-54): its
   * whole queue, or only the queue's front, which panics on an empty queue.
   */
  function Emit(run: seq<Entry>, onlyFirstUnique: bool): Result<seq<Entry>>
  {
    var queue := Survivors(run, WordOf);
    if !onlyFirstUnique then Ok(queue)
    else if queue == [] then Err(NilFront)
    else Ok([queue[0]])
  }

  /** The emissions of a sequence of runs, flushed in order. */
  function FlushAll(runs: seq<seq<Entry>>, onlyFirstUnique: bool): Result<seq<Entry>>
  {
    if runs == [] then Ok([])
    else Join(FlushAll(runs[..|runs| - 1], onlyFirstUnique), Emit(runs[|runs| - 1], onlyFirstUnique))
  }

  /**
   * What `findUniqueWords` sends on its output stream. An empty input still
   * reaches the final flush (algo.go:48-54) with an empty queue.
   */
  function FindUniqueWordsSpec(s: seq<Entry>, onlyFirstUnique: bool): Result<seq<Entry>>
  {
    FlushAll(if s == [] then [[]] else Runs(s), onlyFirstUnique)
  }

  /**
   * What `findUniqueWords` has sent once its input stream has delivered `s`
   * and is left open: only the flushes at a partition change (algo.go:22-29).
   * The closing flush (algo.go:48-54) runs only after the stream is closed.
   */
  function SentWhileOpen(s: seq<Entry>, onlyFirstUnique: bool): Result<seq<Entry>>
  {
    if s == [] then Ok([]) else FlushAll(Runs(s)[..|Runs(s)| - 1], onlyFirstUnique)
  }

  /** The survivors of each run, run by run. */
  function MapSurvivors(runs: seq<seq<Entry>>): (r: seq<seq<Entry>>)
    ensures |r| == |runs|
    ensures forall k :: 0 <= k < |runs| ==> r[k] == Survivors(runs[k], WordOf)
  {
    seq(|runs|, k requires 0 <= k < |runs| => Survivors(runs[k], WordOf))
  }

  // ---------------------------------------------------------------------------
  // Runs
  // ---------------------------------------------------------------------------

  lemma FlattenSnoc<T>(xss: seq<seq<T>>, xs: seq<T>)
    ensures Flatten(xss + [xs]) == Flatten(xss) + xs
  {
    assert (xss + [xs])[..|xss|] == xss;
  }

  /** Reducing one more run adds its survivors at the end. */
  lemma MapSurvivorsSnoc(runs: seq<seq<Entry>>, run: seq<Entry>)
    ensures MapSurvivors(runs + [run]) == MapSurvivors(runs) + [Survivors(run, WordOf)]
  {
    var all := MapSurvivors(runs + [run]);
    var m := MapSurvivors(runs) + [Survivors(run, WordOf)];
    forall k | 0 <= k < |all|
      ensures all[k] == m[k]
    {
      if k < |runs| {
        assert (runs + [run])[k] == runs[k];
      }
    }
  }

  /** An element of a concatenation comes from one of its parts. */
  lemma {:induction false} FlattenMember<T>(xss: seq<seq<T>>, x: T)
    ensures x in Flatten(xss) <==> exists k :: 0 <= k < |xss| && x in xss[k]
    decreases |xss|
  {
    if xss != [] {
      var init := xss[..|xss| - 1];
      FlattenMember(init, x);
      assert forall k :: 0 <= k < |init| ==> init[k] == xss[k];
      if x in xss[|xss| - 1] {
        assert x in Flatten(xss);
      }
    }
  }

  /** How the runs of a prefix grow by one entry. */
  lemma RunsStep(s: seq<Entry>, i: nat)
    requires i < |s|
    ensures Runs(s[..i + 1]) == AddEntry(Runs(s[..i]), s[i], StartsRun(s, i))
  {
    var t := s[..i + 1];
    assert t[..i] == s[..i];
    assert StartsRun(t, i) == StartsRun(s, i);
  }

  /** Adding an entry appends it to the concatenation of the runs. */
  lemma AddEntryCover(runs: seq<seq<Entry>>, x: Entry, opens: bool)
    requires forall k :: 0 <= k < |runs| ==> runs[k] != []
    ensures Flatten(AddEntry(runs, x, opens)) == Flatten(runs) + [x]
    ensures forall k :: 0 <= k < |AddEntry(runs, x, opens)| ==> AddEntry(runs, x, opens)[k] != []
    ensures Last(AddEntry(runs, x, opens)) == x
  {
    var r := AddEntry(runs, x, opens);
    if opens || runs == [] {
      FlattenSnoc(runs, [x]);
    } else {
      var m := |runs|;
      var init := runs[..m - 1];
      assert runs == init + [runs[m - 1]];
      FlattenSnoc(init, runs[m - 1]);
      FlattenSnoc(init, runs[m - 1] + [x]);
    }
  }

  /** The last entry of the last run. */
  function Last(runs: seq<seq<Entry>>): Entry
    requires runs != [] && runs[|runs| - 1] != []
  {
    runs[|runs| - 1][|runs[|runs| - 1]| - 1]
  }

  /**
   * The runs cut the input into consecutive non-empty pieces, the last of
   * which ends with the last entry.
   */
  lemma {:induction false} RunsCover(s: seq<Entry>)
    ensures Flatten(Runs(s)) == s
    ensures forall k :: 0 <= k < |Runs(s)| ==> Runs(s)[k] != []
    ensures |s| > 0 ==> Runs(s) != [] && Last(Runs(s)) == s[|s| - 1]
    decreases |s|
  {
    if s != [] {
      var p := s[..|s| - 1];
      RunsCover(p);
      AddEntryCover(Runs(p), s[|s| - 1], StartsRun(s, |s| - 1));
      assert p + [s[|s| - 1]] == s;
    }
  }

  /**
   * Runs that are maximal blocks of one partition: none is empty, each holds
   * a single partition, and neighbours hold different ones.
   */
  predicate Maximal(runs: seq<seq<Entry>>)
  {
    (forall k :: 0 <= k < |runs| ==> runs[k] != [] && OnePartition(runs[k]))
    && (forall k :: 0 < k < |runs| ==> runs[k][0].partition != runs[k - 1][0].partition)
  }

  lemma AddEntryMaximal(runs: seq<seq<Entry>>, x: Entry, opens: bool)
    requires Maximal(runs)
    requires runs != [] ==> (opens <==> x.partition != Last(runs).partition)
    ensures Maximal(AddEntry(runs, x, opens))
  {
    if !opens && runs != [] {
      var m := |runs|;
      var last := runs[m - 1] + [x];
      assert OnePartition(last) by {
        assert forall j :: 0 <= j < |last| ==> last[j].partition == runs[m - 1][0].partition;
      }
      var r := AddEntry(runs, x, opens);
      assert forall k :: 0 <= k < m - 1 ==> r[k] == runs[k];
      assert r[m - 1] == last;
    }
  }

  /**
   * When no entry is labelled `NoPartition`, the runs are exactly the maximal
   * blocks of equal partition (algo.go:22).
   */
  lemma {:induction false} RunsAreMaximal(s: seq<Entry>)
    requires forall i :: 0 <= i < |s| ==> s[i].partition != NoPartition
    ensures Maximal(Runs(s))
    decreases |s|
  {
    if s != [] {
      var p := s[..|s| - 1];
      RunsAreMaximal(p);
      RunsCover(p);
      AddEntryMaximal(Runs(p), s[|s| - 1], StartsRun(s, |s| - 1));
    }
  }

  /** All entries in one partition form a single run. */
  lemma {:induction false} RunsSingle(s: seq<Entry>)
    requires |s| > 0
    requires forall i :: 0 <= i < |s| ==> s[i].partition == s[0].partition
    ensures Runs(s) == [s]
    decreases |s|
  {
    var p := s[..|s| - 1];
    if |s| > 1 {
      RunsSingle(p);
      assert !StartsRun(s, |s| - 1);
      assert p + [s[|s| - 1]] == s;
      assert [p][..0] + [p + [s[|s| - 1]]] == [s];
    } else {
      assert p == [];
      assert s == [s[0]];
    }
  }

  /** Adding an entry leaves every run but the last alone. */
  lemma AddEntryKeeps(runs: seq<seq<Entry>>, x: Entry, opens: bool, n: nat)
    requires n < |runs| || (opens && n == |runs|)
    ensures n < |AddEntry(runs, x, opens)| && AddEntry(runs, x, opens)[..n] == runs[..n]
  {
    var r := AddEntry(runs, x, opens);
    assert forall k :: 0 <= k < n ==> r[k] == runs[k];
  }

  /** A run boundary at `i` fixes the runs of `s[..i]` for good. */
  lemma {:induction false} RunsPrefix(s: seq<Entry>, i: nat, j: nat)
    requires 0 < i < j <= |s| && StartsRun(s, i)
    ensures |Runs(s[..i])| < |Runs(s[..j])|
    ensures Runs(s[..j])[..|Runs(s[..i])|] == Runs(s[..i])
    decreases j
  {
    RunsStep(s, j - 1);
    var n := |Runs(s[..i])|;
    if j > i + 1 {
      RunsPrefix(s, i, j - 1);
      var r := Runs(s[..j - 1]);
      AddEntryKeeps(r, s[j - 1], StartsRun(s, j - 1), n);
      assert r[..n] == Runs(s[..i]);
    } else {
      AddEntryKeeps(Runs(s[..i]), s[i], true, n);
    }
  }

  lemma AddEntryAppend(ra: seq<seq<Entry>>, rb: seq<seq<Entry>>, x: Entry, opens: bool)
    requires rb != []
    ensures AddEntry(ra + rb, x, opens) == ra + AddEntry(rb, x, opens)
  {
    if !opens {
      assert (ra + rb)[..|ra + rb| - 1] == ra + rb[..|rb| - 1];
    }
  }

  /**
   * Runs on either side of a boundary are formed independently: the runs of
   * `a + b` are those of `a` followed by those of `b`.
   */
  lemma {:induction false} RunsAppend(a: seq<Entry>, b: seq<Entry>)
    requires |a| > 0 && |b| > 0 && StartsRun(a + b, |a|)
    ensures Runs(a + b) == Runs(a) + Runs(b)
    decreases |b|
  {
    var b' := b[..|b| - 1];
    assert (a + b)[..|a + b| - 1] == a + b';
    if |b| == 1 {
      assert Runs(b) == [[b[0]]] by {
        assert b' == [];
      }
    } else {
      BoundaryKept(a, b);
      RunsAppend(a, b');
      RunsCover(b');
      AddEntryAppend(Runs(a), Runs(b'), b[|b| - 1], StartsRun(b, |b| - 1));
    }
  }

  /** Dropping the last entry of `b` keeps the boundary, and `b`'s own boundaries are those of `a + b`. */
  lemma BoundaryKept(a: seq<Entry>, b: seq<Entry>)
    requires |a| > 0 && |b| > 1 && StartsRun(a + b, |a|)
    ensures StartsRun(a + b[..|b| - 1], |a|)
    ensures StartsRun(a + b, |a + b| - 1) == StartsRun(b, |b| - 1)
  {
    var s, t := a + b, a + b[..|b| - 1];
    assert t[|a| - 1] == s[|a| - 1] && t[|a|] == s[|a|];
    assert s[|s| - 2] == b[|b| - 2] && s[|s| - 1] == b[|b| - 1];
  }

  // ---------------------------------------------------------------------------
  // Flushing
  // ---------------------------------------------------------------------------

  lemma JoinAssoc(a: Result<seq<Entry>>, b: Result<seq<Entry>>, c: Result<seq<Entry>>)
    ensures Join(Join(a, b), c) == Join(a, Join(b, c))
  {
    if a.Ok? && b.Ok? && c.Ok? {
      assert (a.value + b.value) + c.value == a.value + (b.value + c.value);
    }
  }

  /** Flushing two lists of runs in turn is flushing their concatenation. */
  lemma {:induction false} FlushAllAppend(a: seq<seq<Entry>>, b: seq<seq<Entry>>, only: bool)
    ensures FlushAll(a + b, only) == Join(FlushAll(a, only), FlushAll(b, only))
    decreases |b|
  {
    if b == [] {
      assert a + b == a;
      if FlushAll(a, only).Ok? {
        assert FlushAll(a, only).value + [] == FlushAll(a, only).value;
      }
    } else {
      var b' := b[..|b| - 1];
      assert (a + b)[..|a + b| - 1] == a + b';
      FlushAllAppend(a, b', only);
      JoinAssoc(FlushAll(a, only), FlushAll(b', only), Emit(b[|b| - 1], only));
    }
  }

  /**
   * On a boundary the output of `findUniqueWords` splits: the runs before it
   * never affect the runs after it (algo.go:31-33).
   */
  lemma RunsIndependent(a: seq<Entry>, b: seq<Entry>, only: bool)
    requires |a| > 0 && |b| > 0 && StartsRun(a + b, |a|)
    ensures FindUniqueWordsSpec(a + b, only) ==
      Join(FindUniqueWordsSpec(a, only), FindUniqueWordsSpec(b, only))
  {
    RunsAppend(a, b);
    FlushAllAppend(Runs(a), Runs(b), only);
  }

  /** Without `onlyFirstUnique`, every run's survivors are sent, run after run. */
  lemma {:induction false} FlushAllSurvivors(runs: seq<seq<Entry>>)
    ensures FlushAll(runs, false) == Ok(Flatten(MapSurvivors(runs)))
    decreases |runs|
  {
    if runs != [] {
      var init := runs[..|runs| - 1];
      FlushAllSurvivors(init);
      assert MapSurvivors(runs) == MapSurvivors(init) + [Survivors(runs[|runs| - 1], WordOf)];
      FlattenSnoc(MapSurvivors(init), Survivors(runs[|runs| - 1], WordOf));
    }
  }

  /**
   * With `onlyFirstUnique`, each run sends the front of its queue; the whole
   * call panics exactly when some run has no word occurring once in it.
   */
  lemma {:induction false} FlushAllFronts(runs: seq<seq<Entry>>)
    ensures FlushAll(runs, true).Ok? <==>
      forall k :: 0 <= k < |runs| ==> Survivors(runs[k], WordOf) != []
    ensures !FlushAll(runs, true).Ok? ==> FlushAll(runs, true) == Err(NilFront)
    ensures FlushAll(runs, true).Ok? ==>
      |FlushAll(runs, true).value| == |runs|
      && forall k :: 0 <= k < |runs| ==> FlushAll(runs, true).value[k] == Survivors(runs[k], WordOf)[0]
    decreases |runs|
  {
    if runs != [] {
      var init := runs[..|runs| - 1];
      FlushAllFronts(init);
      assert forall k :: 0 <= k < |init| ==> init[k] == runs[k];
    }
  }

  /**
   * Without `onlyFirstUnique` nothing panics, and the output is each run's
   * entries whose word occurs exactly once in that run, with their partition
   * unchanged, run by run; an empty input sends nothing (algo.go:21-54).
   */
  lemma ReportsRunUniques(s: seq<Entry>)
    ensures s == [] ==> FindUniqueWordsSpec(s, false) == Ok([])
    ensures s != [] ==> FindUniqueWordsSpec(s, false) == Ok(Flatten(MapSurvivors(Runs(s))))
    ensures forall x :: x in FindUniqueWordsSpec(s, false).value <==>
      exists k :: 0 <= k < |Runs(s)| && x in Runs(s)[k] && Occurrences(Runs(s)[k], WordOf, x.word) == 1
  {
    if s == [] {
      assert FlushAll([[]], false) == Join(FlushAll([], false), Emit([], false));
    } else {
      var runs := Runs(s);
      FlushAllSurvivors(runs);
      forall x
        ensures x in FindUniqueWordsSpec(s, false).value <==>
          exists k :: 0 <= k < |runs| && x in runs[k] && Occurrences(runs[k], WordOf, x.word) == 1
      {
        FlattenMember(MapSurvivors(runs), x);
        forall k | 0 <= k < |runs| {
          OnceInMembers(runs[k], runs[k], WordOf, x);
        }
      }
    }
  }

  /**
   * With `onlyFirstUnique`, the output is the first surviving entry of every
   * run, and the call panics when the input is empty or some run has no word
   * occurring once in it (algo.go:23-24, algo.go:48-49).
   */
  lemma ReportsRunFronts(s: seq<Entry>)
    ensures FindUniqueWordsSpec(s, true).Ok? <==>
      s != [] && forall k :: 0 <= k < |Runs(s)| ==> Survivors(Runs(s)[k], WordOf) != []
    ensures !FindUniqueWordsSpec(s, true).Ok? ==> FindUniqueWordsSpec(s, true) == Err(NilFront)
    ensures FindUniqueWordsSpec(s, true).Ok? ==>
      |FindUniqueWordsSpec(s, true).value| == |Runs(s)|
      && forall k :: 0 <= k < |Runs(s)| ==>
        FindUniqueWordsSpec(s, true).value[k] == Survivors(Runs(s)[k], WordOf)[0]
  {
    if s == [] {
      assert Survivors([], WordOf) == [];
      assert FlushAll([[]], true) == Join(FlushAll([], true), Emit([], true));
    } else {
      assert FindUniqueWordsSpec(s, true) == FlushAll(Runs(s), true);
      FlushAllFronts(Runs(s));
    }
  }

  // ---------------------------------------------------------------------------
  // The tracker, imperatively
  // ---------------------------------------------------------------------------

  /**
   * algo.go:17-55 with the channels as sequences: the queue and seen-set of
   * the current run, reset at every run boundary after flushing the queue.
   */
  method FindUniqueWords(inputs: seq<Entry>, onlyFirstUnique: bool)
    returns (r: Result<seq<Entry>>, whileOpen: Result<seq<Entry>>)
    ensures r == FindUniqueWordsSpec(inputs, onlyFirstUnique)
    ensures whileOpen == SentWhileOpen(inputs, onlyFirstUnique)
  {
    var queue: seq<Entry> := [];
    var seen := new WordHashSet();
    var lastPartition := NoPartition;
    var out: seq<Entry> := [];
    ghost var closed: seq<seq<Entry>> := [];
    ghost var current: seq<Entry> := [];
    for i := 0 to |inputs|
      invariant lastPartition == if i == 0 then NoPartition else inputs[i - 1].partition
      invariant i == 0 ==> closed == [] && current == []
      invariant i > 0 ==> Runs(inputs[..i]) == closed + [current]
      invariant FlushAll(closed, onlyFirstUnique) == Ok(out)
      invariant queue == Survivors(current, WordOf)
      invariant seen.Members() == KeySet(current, WordOf)
      invariant fresh(seen)
    {
      var x := inputs[i];
      RunsStep(inputs, i);
      if lastPartition != NoPartition && x.partition != lastPartition {
        assert StartsRun(inputs, i);
        FlushStep(closed, current, onlyFirstUnique);
        if onlyFirstUnique {
          if queue == [] {
            r := Err(NilFront);
            whileOpen := r;
            PanicIsFinal(inputs, i, closed, current);
            return;
          }
          out := out + [queue[0]];
        } else {
          out := out + queue;
        }
        closed := closed + [current];
        current := [];
        queue := [];
        seen := new WordHashSet();
      } else {
        assert !StartsRun(inputs, i);
      }
      queue := Observe(queue, seen, x, WordOf, current);
      current := current + [x];
      lastPartition := x.partition;
    }
    if |inputs| > 0 {
      assert inputs[..|inputs|] == inputs;
      assert Runs(inputs)[..|Runs(inputs)| - 1] == closed;
    }
    whileOpen := Ok(out);
    FlushStep(closed, current, onlyFirstUnique);
    if onlyFirstUnique {
      if queue == [] {
        r := Err(NilFront);
        return;
      }
      out := out + [queue[0]];
    } else {
      out := out + queue;
    }
    r := Ok(out);
  }

  /** Flushing one more run. */
  lemma FlushStep(closed: seq<seq<Entry>>, current: seq<Entry>, only: bool)
    ensures FlushAll(closed + [current], only) == Join(FlushAll(closed, only), Emit(current, only))
  {
    assert (closed + [current])[..|closed|] == closed;
  }

  /** A panic while flushing the run that ends before entry `i` is the result. */
  lemma PanicIsFinal(s: seq<Entry>, i: nat, closed: seq<seq<Entry>>, current: seq<Entry>)
    requires 0 < i < |s| && StartsRun(s, i)
    requires Runs(s[..i]) == closed + [current]
    requires FlushAll(closed, true).Ok? && Survivors(current, WordOf) == []
    ensures FindUniqueWordsSpec(s, true) == Err(NilFront)
    ensures SentWhileOpen(s, true) == Err(NilFront)
  {
    assert s[..|s|] == s;
    RunsPrefix(s, i, |s|);
    var runs := Runs(s);
    var n := |closed| + 1;
    assert (closed + [current])[..|closed|] == closed;
    assert FlushAll(runs[..n], true) == Err(NilFront);
    FlushPrefixPanics(runs, n, true);
    var open := runs[..|runs| - 1];
    assert open[..n] == runs[..n];
    FlushPrefixPanics(open, n, true);
  }

  /** A panic while flushing the first `n` runs is the panic of flushing them all. */
  lemma FlushPrefixPanics(runs: seq<seq<Entry>>, n: nat, only: bool)
    requires n <= |runs| && FlushAll(runs[..n], only).Err?
    ensures FlushAll(runs, only) == FlushAll(runs[..n], only)
  {
    assert runs == runs[..n] + runs[n..];
    FlushAllAppend(runs[..n], runs[n..], only);
  }
}
