/**
 * The reduction glue of algo.go: `pushToPartitionChannel` (sort a batch by its
 * old partition, relabel it with a fresh partition) and `getUniqueResult`
 * (cut the workers' survivors into batches, reduce every batch, then relabel
 * everything to partition 0 and keep the first word occurring once). The
 * channels between the stages are sequences and the stages run one after the
 * other.
 */
module Tournament {
  import opened Outcomes
  import opened CandidateQueue
  import opened PartitionRuns

  /** Entries in nondecreasing partition order: what `sort.Slice` leaves (algo.go:58-60). */
  predicate SortedByPartition(s: seq<Entry>)
  {
    forall i, j :: 0 <= i < j < |s| ==> s[i].partition <= s[j].partition
  }

  /** The words of `s`, each with `partition` as its partition (algo.go:62-65). */
  function Relabel(s: seq<Entry>, partition: int): (r: seq<Entry>)
    ensures |r| == |s|
    ensures forall i :: 0 <= i < |s| ==> r[i] == Entry(s[i].word, partition)
  {
    if s == [] then [] else Relabel(s[..|s| - 1], partition) + [Entry(s[|s| - 1].word, partition)]
  }

  /**
   * The batches `getUniqueResult` cuts its input into (algo.go:84-99): an entry
   * opens a new batch once the current one holds `size` entries. The last batch
   * is empty only when the input is.
   */
  function Batches(s: seq<Entry>, size: nat): (r: seq<seq<Entry>>)
    requires size > 0
    ensures r != []
  {
    if s == [] then [[]]
    else AddToBatch(Batches(s[..|s| - 1], size), s[|s| - 1], size)
  }

  /** One more entry for the batching loop of algo.go:87-98. */
  function AddToBatch(batches: seq<seq<Entry>>, x: Entry, size: nat): (r: seq<seq<Entry>>)
    requires batches != []
    ensures r != []
  {
    var last := batches[|batches| - 1];
    if |last| >= size then batches + [[x]]
    else batches[..|batches| - 1] + [last + [x]]
  }

  /** Batch `k`, relabelled with partition `k`. */
  function Numbered(batches: seq<seq<Entry>>): (r: seq<seq<Entry>>)
    ensures |r| == |batches|
  {
    if batches == [] then []
    else Numbered(batches[..|batches| - 1]) + [Relabel(batches[|batches| - 1], |batches| - 1)]
  }

  /** What the second stage reads: the numbered batches, one after the other. */
  function Labelled(batches: seq<seq<Entry>>): seq<Entry>
  {
    if batches == [] then []
    else Labelled(batches[..|batches| - 1]) + Relabel(batches[|batches| - 1], |batches| - 1)
  }

  /** What the second stage sends: the survivors of every batch, batch by batch. */
  function BatchSurvivors(batches: seq<seq<Entry>>): seq<Entry>
  {
    Flatten(MapSurvivors(Numbered(batches)))
  }

  /**
   * The answer of `getUniqueResult` for the batches as sorted: the front of
   * the queue after the second stage's survivors, relabelled to partition 0,
   * are reduced once more (algo.go:103-113).
   */
  function Answer(batches: seq<seq<Entry>>): Result<Entry>
  {
    var last := Survivors(Relabel(BatchSurvivors(batches), 0), WordOf);
    if last == [] then Err(NilFront) else Ok(last[0])
  }

  // ---------------------------------------------------------------------------
  // Relabelling and batching
  // ---------------------------------------------------------------------------

  /** Relabelling keeps every word's count. */
  lemma {:induction false} RelabelOccurrences(s: seq<Entry>, partition: int, w: string)
    ensures Occurrences(Relabel(s, partition), WordOf, w) == Occurrences(s, WordOf, w)
    decreases |s|
  {
    if s != [] {
      var r := Relabel(s, partition);
      assert r[..|r| - 1] == Relabel(s[..|s| - 1], partition);
      RelabelOccurrences(s[..|s| - 1], partition, w);
    }
  }

  lemma BatchesStep(s: seq<Entry>, i: nat, size: nat)
    requires i < |s| && size > 0
    ensures Batches(s[..i + 1], size) == AddToBatch(Batches(s[..i], size), s[i], size)
  {
    assert s[..i + 1][..i] == s[..i];
  }

  /** Every batch but the last is full, and none overflows. */
  predicate WellCut(batches: seq<seq<Entry>>, size: nat)
  {
    batches != []
    && (forall k :: 0 <= k < |batches| - 1 ==> |batches[k]| == size)
    && |batches[|batches| - 1]| <= size
  }

  lemma AddToBatchShape(batches: seq<seq<Entry>>, x: Entry, size: nat)
    requires size > 0 && WellCut(batches, size)
    requires batches == [[]] || forall k :: 0 <= k < |batches| ==> batches[k] != []
    ensures WellCut(AddToBatch(batches, x, size), size)
    ensures Flatten(AddToBatch(batches, x, size)) == Flatten(batches) + [x]
    ensures forall k :: 0 <= k < |AddToBatch(batches, x, size)| ==> AddToBatch(batches, x, size)[k] != []
  {
    var m := |batches|;
    var init, last := batches[..m - 1], batches[m - 1];
    assert batches == init + [last];
    if |last| >= size {
      OpenBatch(init, last, x, size);
      FlattenSnoc(batches, [x]);
    } else {
      GrowLastBatch(init, last, x, size);
      FlattenSnoc(init, last);
      FlattenSnoc(init, last + [x]);
    }
  }

  /**
   * The batches are consecutive pieces of the input, each of `size` entries but
   * the last, which holds at most `size` and at least one unless the input is
   * empty.
   */
  lemma {:induction false} BatchesShape(s: seq<Entry>, size: nat)
    requires size > 0
    ensures Flatten(Batches(s, size)) == s
    ensures WellCut(Batches(s, size), size)
    ensures s != [] ==> forall k :: 0 <= k < |Batches(s, size)| ==> Batches(s, size)[k] != []
    decreases |s|
  {
    if s == [] {
      assert Flatten([[]]) == Flatten<Entry>([]) + [];
    } else {
      var p, x := s[..|s| - 1], s[|s| - 1];
      BatchesShape(p, size);
      AddToBatchShape(Batches(p, size), x, size);
      assert p + [x] == s;
    }
  }

  /** An entry after a full last batch opens a new one. */
  lemma OpenBatch(full: seq<seq<Entry>>, last: seq<Entry>, x: Entry, size: nat)
    requires |last| >= size
    ensures AddToBatch(full + [last], x, size) == (full + [last]) + [[x]]
  {
  }

  /** An entry joins a last batch that has room. */
  lemma GrowLastBatch(full: seq<seq<Entry>>, last: seq<Entry>, x: Entry, size: nat)
    requires |last| < size
    ensures AddToBatch(full + [last], x, size) == full + [last + [x]]
  {
    assert (full + [last])[..|full|] == full;
  }

  /** An input that fits one batch is one batch. */
  lemma {:induction false} OneBatch(s: seq<Entry>, size: nat)
    requires 0 < size && |s| <= size
    ensures Batches(s, size) == [s]
    decreases |s|
  {
    if s != [] {
      var p, x := s[..|s| - 1], s[|s| - 1];
      OneBatch(p, size);
      assert p + [x] == s;
      GrowLastBatch([], p, x, size);
    }
  }

  // ---------------------------------------------------------------------------
  // The second stage reduces every batch on its own
  // ---------------------------------------------------------------------------

  /** The runs of the second stage's input are the numbered batches. */
  lemma {:induction false} LabelledRuns(batches: seq<seq<Entry>>)
    requires forall k :: 0 <= k < |batches| ==> batches[k] != []
    ensures Runs(Labelled(batches)) == Numbered(batches)
    ensures batches != [] ==>
      (Labelled(batches) != [] && Labelled(batches)[|Labelled(batches)| - 1].partition == |batches| - 1)
    decreases |batches|
  {
    if batches != [] {
      var n := |batches|;
      var init := batches[..n - 1];
      var tail := Relabel(batches[n - 1], n - 1);
      LabelledRuns(init);
      RunsSingle(tail);
      if init == [] {
        assert Labelled(batches) == tail;
      } else {
        var head := Labelled(init);
        assert (head + tail)[|head| - 1] == head[|head| - 1];
        RunsAppend(head, tail);
      }
    }
  }

  /**
   * The second stage (algo.go:77-101) sends, batch by batch, the entries whose
   * word occurs exactly once in their batch.
   */
  lemma StageTwo(batches: seq<seq<Entry>>)
    requires batches == [[]] || forall k :: 0 <= k < |batches| ==> batches[k] != []
    ensures FindUniqueWordsSpec(Labelled(batches), false) == Ok(BatchSurvivors(batches))
  {
    if batches == [[]] {
      assert Labelled(batches) == Labelled([]) + Relabel([], 0);
      ReportsRunUniques([]);
      assert MapSurvivors(Numbered(batches)) == [[]];
      assert Flatten([[]]) == Flatten<Entry>([]) + [];
    } else {
      LabelledRuns(batches);
      if batches == [] {
        ReportsRunUniques([]);
      } else {
        FlushAllSurvivors(Runs(Labelled(batches)));
      }
    }
  }

  /**
   * The final stage (algo.go:103-113): everything in partition 0 is one run,
   * so the output is the front of its queue, or a panic when it is empty.
   */
  lemma FinalStage(s: seq<Entry>)
    ensures FindUniqueWordsSpec(Relabel(s, 0), true) ==
      var last := Survivors(Relabel(s, 0), WordOf);
      if last == [] then Err(NilFront) else Ok([last[0]])
  {
    var t := Relabel(s, 0);
    var last := Survivors(t, WordOf);
    if t == [] {
      ReportsRunFronts(t);
    } else {
      assert Runs(t) == [t] by {
        RunsSingle(t);
      }
      ReportsRunFronts(t);
      if last != [] {
        assert FindUniqueWordsSpec(t, true).value == [last[0]];
      }
    }
  }

  // ---------------------------------------------------------------------------
  // What the answer is
  // ---------------------------------------------------------------------------

  /**
   * The answer is the first entry of the second stage's output whose word
   * occurs once in that output, relabelled to partition 0; the pipeline panics
   * exactly when there is none.
   */
  lemma AnswerIsFirstOnce(batches: seq<seq<Entry>>)
    ensures var s := BatchSurvivors(batches);
      Answer(batches).Ok? <==> exists i :: 0 <= i < |s| && Occurrences(s, WordOf, s[i].word) == 1
    ensures var s := BatchSurvivors(batches);
      Answer(batches).Ok? ==>
        exists i :: 0 <= i < |s| && Answer(batches).value == Entry(s[i].word, 0)
          && Occurrences(s, WordOf, s[i].word) == 1
          && forall j :: 0 <= j < i ==> Occurrences(s, WordOf, s[j].word) != 1
  {
    var s := BatchSurvivors(batches);
    var t := Relabel(s, 0);
    FirstSurvivor(t, WordOf);
    forall w {
      RelabelOccurrences(s, 0, w);
    }
    assert forall i :: 0 <= i < |s| ==> t[i].word == s[i].word;
  }

  lemma BatchSurvivorsStep(batches: seq<seq<Entry>>)
    requires batches != []
    ensures BatchSurvivors(batches) ==
      BatchSurvivors(batches[..|batches| - 1])
      + Survivors(Relabel(batches[|batches| - 1], |batches| - 1), WordOf)
  {
    var n := |batches|;
    var init := Numbered(batches[..n - 1]);
    var lastRun := Relabel(batches[n - 1], n - 1);
    assert Numbered(batches) == init + [lastRun];
    MapSurvivorsSnoc(init, lastRun);
    FlattenSnoc(MapSurvivors(init), Survivors(lastRun, WordOf));
  }

  /** How often a word occurs in one batch's survivors. */
  lemma BatchSurvivorCount(batch: seq<Entry>, k: int, w: string)
    ensures Occurrences(Survivors(Relabel(batch, k), WordOf), WordOf, w) ==
      if Occurrences(batch, WordOf, w) == 1 then 1 else 0
  {
    OccurrencesOnceIn(Relabel(batch, k), Relabel(batch, k), WordOf, w);
    RelabelOccurrences(batch, k, w);
  }

  /** A word occurring once in all the batches together survives the second stage once. */
  lemma {:induction false} UniqueSurvivesStageTwo(batches: seq<seq<Entry>>, w: string)
    requires Occurrences(Flatten(batches), WordOf, w) == 1
    ensures Occurrences(BatchSurvivors(batches), WordOf, w) == 1
    decreases |batches|
  {
    var init := batches[..|batches| - 1];
    StageTwoCountStep(batches, w);
    if Occurrences(Flatten(init), WordOf, w) == 1 {
      UniqueSurvivesStageTwo(init, w);
    } else {
      NoneSurviveStageTwo(init, w);
    }
  }

  /** A word absent from the batches is absent from the second stage's output. */
  lemma {:induction false} NoneSurviveStageTwo(batches: seq<seq<Entry>>, w: string)
    requires Occurrences(Flatten(batches), WordOf, w) == 0
    ensures Occurrences(BatchSurvivors(batches), WordOf, w) == 0
    decreases |batches|
  {
    if batches == [] {
      assert BatchSurvivors(batches) == [];
    } else {
      StageTwoCountStep(batches, w);
      NoneSurviveStageTwo(batches[..|batches| - 1], w);
    }
  }

  /** How the last batch adds to a word's count, before and after the second stage. */
  lemma StageTwoCountStep(batches: seq<seq<Entry>>, w: string)
    requires batches != []
    ensures var init, last := batches[..|batches| - 1], batches[|batches| - 1];
      Occurrences(Flatten(batches), WordOf, w) ==
        Occurrences(Flatten(init), WordOf, w) + Occurrences(last, WordOf, w)
      && Occurrences(BatchSurvivors(batches), WordOf, w) ==
        Occurrences(BatchSurvivors(init), WordOf, w) + (if Occurrences(last, WordOf, w) == 1 then 1 else 0)
  {
    var n := |batches|;
    var init := batches[..n - 1];
    var last := batches[n - 1];
    OccurrencesAppend(Flatten(init), last, WordOf, w);
    BatchSurvivorsStep(batches);
    OccurrencesAppend(BatchSurvivors(init), Survivors(Relabel(last, n - 1), WordOf), WordOf, w);
    BatchSurvivorCount(last, n - 1, w);
  }

  /** Sorting every batch keeps every word's count over all batches. */
  lemma {:induction false} SortedBatchesCount(sorted: seq<seq<Entry>>, batches: seq<seq<Entry>>, w: string)
    requires |sorted| == |batches|
    requires forall k :: 0 <= k < |batches| ==> multiset(sorted[k]) == multiset(batches[k])
    ensures Occurrences(Flatten(sorted), WordOf, w) == Occurrences(Flatten(batches), WordOf, w)
    decreases |batches|
  {
    if batches != [] {
      var n := |batches|;
      SortedBatchesCount(sorted[..n - 1], batches[..n - 1], w);
      OccurrencesAppend(Flatten(sorted[..n - 1]), sorted[n - 1], WordOf, w);
      OccurrencesAppend(Flatten(batches[..n - 1]), batches[n - 1], WordOf, w);
      OccurrencesPermutation(sorted[n - 1], batches[n - 1], WordOf, w);
    }
  }

  /** Sorting every batch keeps the total length. */
  lemma {:induction false} SortedBatchesLength(sorted: seq<seq<Entry>>, batches: seq<seq<Entry>>)
    requires |sorted| == |batches|
    requires forall k :: 0 <= k < |batches| ==> multiset(sorted[k]) == multiset(batches[k])
    ensures |Flatten(sorted)| == |Flatten(batches)|
    decreases |batches|
  {
    if batches != [] {
      var n := |batches|;
      SortedBatchesLength(sorted[..n - 1], batches[..n - 1]);
      assert |sorted[n - 1]| == |multiset(sorted[n - 1])| == |batches[n - 1]|;
    }
  }

  /** The batches as `getUniqueResult` sorts them. */
  ghost predicate SortedBatchesOf(sorted: seq<seq<Entry>>, results: seq<Entry>, size: nat)
    requires size > 0
  {
    var batches := Batches(results, size);
    |sorted| == |batches|
    && forall k :: 0 <= k < |batches| ==>
      SortedByPartition(sorted[k]) && multiset(sorted[k]) == multiset(batches[k])
  }

  /**
   * If some word occurs exactly once among the workers' results, the pipeline
   * does not panic: that word survives its batch and is the only copy left.
   */
  lemma UniqueWordAnswered(results: seq<Entry>, size: nat, sorted: seq<seq<Entry>>, w: string)
    requires size > 0 && SortedBatchesOf(sorted, results, size)
    requires Occurrences(results, WordOf, w) == 1
    ensures Answer(sorted).Ok?
  {
    BatchesShape(results, size);
    SortedBatchesCount(sorted, Batches(results, size), w);
    UniqueSurvivesStageTwo(sorted, w);
    var s := BatchSurvivors(sorted);
    OccurrencesPositive(s, WordOf, w);
    AnswerIsFirstOnce(sorted);
  }

  /** The second stage's output for a single batch. */
  lemma OneBatchSurvivors(b: seq<Entry>)
    ensures BatchSurvivors([b]) == Survivors(Relabel(b, 0), WordOf)
  {
    assert [b][..0] == [];
    BatchSurvivorsStep([b]);
    assert BatchSurvivors([]) == [] by {
      assert Flatten(MapSurvivors(Numbered([]))) == [];
    }
  }

  /** An answer from a single batch occurs exactly once in that batch. */
  lemma OneBatchAnswerUnique(b: seq<Entry>, results: seq<Entry>)
    requires multiset(b) == multiset(results) && Answer([b]).Ok?
    ensures Answer([b]).value.partition == 0
    ensures Occurrences(results, WordOf, Answer([b]).value.word) == 1
  {
    AnswerIsFirstOnce([b]);
    var s := BatchSurvivors([b]);
    var i :| 0 <= i < |s| && Answer([b]).value == Entry(s[i].word, 0)
      && Occurrences(s, WordOf, s[i].word) == 1;
    OneBatchSurvivors(b);
    BatchSurvivorCount(b, 0, s[i].word);
    OccurrencesPermutation(b, results, WordOf, s[i].word);
  }

  /**
   * With a single batch the answer is right: it occurs exactly once in the
   * results, and the pipeline panics exactly when no word does.
   */
  lemma SingleBatchAnswer(results: seq<Entry>, size: nat, sorted: seq<seq<Entry>>)
    requires 0 < size && |results| <= size && SortedBatchesOf(sorted, results, size)
    ensures Answer(sorted).Ok? <==> exists i :: 0 <= i < |results| && Occurrences(results, WordOf, results[i].word) == 1
    ensures Answer(sorted).Ok? ==>
      Answer(sorted).value.partition == 0 && Occurrences(results, WordOf, Answer(sorted).value.word) == 1
  {
    OneBatch(results, size);
    var b := sorted[0];
    assert sorted == [b];
    if exists i :: 0 <= i < |results| && Occurrences(results, WordOf, results[i].word) == 1 {
      var i :| 0 <= i < |results| && Occurrences(results, WordOf, results[i].word) == 1;
      UniqueWordAnswered(results, size, sorted, results[i].word);
    }
    if Answer(sorted).Ok? {
      OneBatchAnswerUnique(b, results);
      OccurrencesPositive(results, WordOf, Answer(sorted).value.word);
    }
  }

  /**
   * The answer need not occur once in the results: with batches of two, three
   * copies of one word split as two and one, and the lone copy in the second
   * batch wins.
   */
  lemma AnswerNotGloballyUnique(e: Entry, sorted: seq<seq<Entry>>)
    requires e.partition == 0
    requires SortedBatchesOf(sorted, [e, e, e], 2)
    ensures Answer(sorted) == Ok(e)
    ensures Occurrences([e, e, e], WordOf, e.word) == 3
  {
    ThreeCopiesSorted(e, sorted);
    ThreeCopiesAnswer(e);
    ThreeOccurrences(e);
  }

  /**
   * The answer with the cross-batch check the tournament lacks: the first
   * second-stage survivor whose word occurs once among all the batches,
   * relabelled to partition 0, or the panic of an empty queue.
   */
  function CheckedAnswer(batches: seq<seq<Entry>>): Result<Entry>
  {
    var c := OnceIn(BatchSurvivors(batches), Flatten(batches), WordOf);
    if c == [] then Err(NilFront) else Ok(Entry(c[0].word, 0))
  }

  /**
   * With the cross-batch check the answer is right for any number of batches:
   * it occurs exactly once in the results, and there is one exactly when some
   * word does.
   */
  lemma CheckedAnswerUnique(results: seq<Entry>, size: nat, sorted: seq<seq<Entry>>)
    requires size > 0 && SortedBatchesOf(sorted, results, size)
    ensures CheckedAnswer(sorted).Ok? <==>
      exists i :: 0 <= i < |results| && Occurrences(results, WordOf, results[i].word) == 1
    ensures CheckedAnswer(sorted).Ok? ==>
      CheckedAnswer(sorted).value.partition == 0
      && Occurrences(results, WordOf, CheckedAnswer(sorted).value.word) == 1
  {
    var batches := Batches(results, size);
    assert Flatten(batches) == results by {
      BatchesShape(results, size);
    }
    var s, all := BatchSurvivors(sorted), Flatten(sorted);
    OnceInFirst(s, all, WordOf);
    if exists i :: 0 <= i < |results| && Occurrences(results, WordOf, results[i].word) == 1 {
      var i :| 0 <= i < |results| && Occurrences(results, WordOf, results[i].word) == 1;
      var w := results[i].word;
      SortedBatchesCount(sorted, batches, w);
      UniqueSurvivesStageTwo(sorted, w);
      OccurrencesPositive(s, WordOf, w);
    }
    var c := OnceIn(s, all, WordOf);
    if c != [] {
      var w := c[0].word;
      SortedBatchesCount(sorted, batches, w);
      OccurrencesPositive(results, WordOf, w);
    }
  }

  lemma ThreeOccurrences(e: Entry)
    ensures Occurrences([e, e, e], WordOf, e.word) == 3
  {
    assert [e, e, e][..2] == [e, e] && [e, e][..1] == [e] && [e][..0] == [];
    assert Occurrences([e], WordOf, e.word) == 1;
    assert Occurrences([e, e], WordOf, e.word) == 2;
  }

  /** Sorting the batches of three copies changes nothing. */
  lemma ThreeCopiesSorted(e: Entry, sorted: seq<seq<Entry>>)
    requires SortedBatchesOf(sorted, [e, e, e], 2)
    ensures sorted == [[e, e], [e]]
  {
    assert |sorted| == 2 && multiset(sorted[0]) == multiset([e, e]) && multiset(sorted[1]) == multiset([e]) by {
      ThreeCopiesBatches(e);
    }
    CopiesSorted(e, sorted);
  }

  /** Two batches holding two copies and one copy of `e` are those copies. */
  lemma CopiesSorted(e: Entry, sorted: seq<seq<Entry>>)
    requires |sorted| == 2 && multiset(sorted[0]) == multiset([e, e]) && multiset(sorted[1]) == multiset([e])
    ensures sorted == [[e, e], [e]]
  {
    OnlyCopies(sorted[0], [e, e], e);
    OnlyCopies(sorted[1], [e], e);
  }

  /** The pipeline's answer on the batches of three copies. */
  lemma ThreeCopiesAnswer(e: Entry)
    requires e.partition == 0
    ensures Answer([[e, e], [e]]) == Ok(e)
  {
    ThreeCopiesSurvivors(e);
    assert Relabel([Entry(e.word, 1)], 0) == [e];
    LoneCopySurvives(e);
  }

  /** Three entries in batches of two. */
  lemma ThreeCopiesBatches(e: Entry)
    ensures Batches([e, e, e], 2) == [[e, e], [e]]
  {
    var none: seq<Entry> := [];
    assert [e][..0] == none && [e, e][..1] == [e] && [e, e, e][..2] == [e, e];
    assert none + [e] == [e] && [e] + [e] == [e, e];
    assert [none][..0] + [none + [e]] == [[e]];
    assert Batches([e], 2) == AddToBatch([none], e, 2) == [[e]];
    assert [[e]][..0] + [[e] + [e]] == [[e, e]];
    assert Batches([e, e], 2) == AddToBatch([[e]], e, 2) == [[e, e]];
    assert Batches([e, e, e], 2) == AddToBatch([[e, e]], e, 2) == [[e, e], [e]];
  }

  /** A word that occurs alone survives. */
  lemma LoneCopySurvives(x: Entry)
    ensures Survivors([x], WordOf) == [x]
  {
    var none: seq<Entry> := [];
    assert [x][..0] == none;
    assert Occurrences([x], WordOf, x.word) == 1;
    assert OnceIn([x], [x], WordOf) == OnceIn(none, [x], WordOf) + [x];
  }

  /** A word that occurs twice does not. */
  lemma TwoCopiesVanish(x: Entry)
    ensures Survivors([x, x], WordOf) == []
  {
    var none: seq<Entry> := [];
    assert [x, x][..1] == [x] && [x][..0] == none;
    assert Occurrences([x, x], WordOf, x.word) == 2 by {
      assert Occurrences([x], WordOf, x.word) == 1;
    }
    assert OnceIn([x], [x, x], WordOf) == OnceIn(none, [x, x], WordOf) + [];
  }

  /** The second stage's output on the batches of three copies. */
  lemma ThreeCopiesSurvivors(e: Entry)
    requires e.partition == 0
    ensures BatchSurvivors([[e, e], [e]]) == [Entry(e.word, 1)]
  {
    var sorted := [[e, e], [e]];
    assert BatchSurvivors(sorted[..1]) == [] by {
      assert sorted[..1] == [[e, e]];
      OneBatchSurvivors([e, e]);
      assert Relabel([e, e], 0) == [e, e];
      TwoCopiesVanish(e);
    }
    assert Survivors(Relabel([e], 1), WordOf) == [Entry(e.word, 1)] by {
      assert Relabel([e], 1) == [Entry(e.word, 1)];
      LoneCopySurvives(Entry(e.word, 1));
    }
    BatchSurvivorsStep(sorted);
  }

  /** A permutation of copies of one entry is those copies. */
  lemma OnlyCopies(s: seq<Entry>, copies: seq<Entry>, e: Entry)
    requires forall i :: 0 <= i < |copies| ==> copies[i] == e
    requires multiset(s) == multiset(copies)
    ensures s == copies
  {
    assert |s| == |multiset(s)| == |copies|;
    forall i | 0 <= i < |s| ensures s[i] == e {
      assert s[i] in multiset(copies);
    }
  }

  // ---------------------------------------------------------------------------
  // The pipeline, imperatively
  // ---------------------------------------------------------------------------

  /** The first `i` entries are in order and none exceeds an entry after them. */
  predicate SelectedPrefix(s: seq<Entry>, i: nat)
    requires i <= |s|
  {
    (forall j, k :: 0 <= j < k < i ==> s[j].partition <= s[k].partition)
    && (forall j, k :: 0 <= j < i <= k < |s| ==> s[j].partition <= s[k].partition)
  }

  /** Swapping a least remaining entry into place `i` extends the selected prefix. */
  lemma SelectStep(s: seq<Entry>, i: nat, m: nat)
    requires i <= m < |s| && SelectedPrefix(s, i)
    requires forall l :: i <= l < |s| ==> s[m].partition <= s[l].partition
    ensures SelectedPrefix(s[i := s[m]][m := s[i]], i + 1)
    ensures multiset(s[i := s[m]][m := s[i]]) == multiset(s)
  {
    var t := s[i := s[m]][m := s[i]];
    forall j, k | 0 <= j < k < i + 1 ensures t[j].partition <= t[k].partition {
      assert t[j] == s[j];
    }
    forall j, k | 0 <= j < i + 1 <= k < |s| ensures t[j].partition <= t[k].partition {
      assert t[j] == if j == i then s[m] else s[j];
      assert t[k] == if k == m then s[i] else s[k];
    }
  }

  /** Sort the entries of `a` by partition in place; the order among equal partitions is not promised. */
  method SortByPartition(a: array<Entry>)
    modifies a
    ensures SortedByPartition(a[..])
    ensures multiset(a[..]) == multiset(old(a[..]))
  {
    for i := 0 to a.Length
      invariant multiset(a[..]) == multiset(old(a[..]))
      invariant SelectedPrefix(a[..], i)
    {
      var m := MinPartitionFrom(a, i);
      ghost var s := a[..];
      SelectStep(s, i, m);
      a[i], a[m] := a[m], a[i];
      assert a[..] == s[i := s[m]][m := s[i]];
    }
  }

  /** The index of an entry of least partition among `a[i..]`. */
  method MinPartitionFrom(a: array<Entry>, i: nat) returns (m: nat)
    requires i < a.Length
    ensures i <= m < a.Length
    ensures forall l :: i <= l < a.Length ==> a[m].partition <= a[l].partition
  {
    m := i;
    for k := i + 1 to a.Length
      invariant i <= m < a.Length
      invariant forall l :: i <= l < k ==> a[m].partition <= a[l].partition
    {
      if a[k].partition < a[m].partition {
        m := k;
      }
    }
  }

  /** Send every entry's word with partition `partition` (algo.go:61-66, algo.go:108-113). */
  method Forward(s: seq<Entry>, partition: int) returns (sent: seq<Entry>)
    ensures sent == Relabel(s, partition)
  {
    sent := [];
    for i := 0 to |s|
      invariant sent == Relabel(s[..i], partition)
    {
      assert s[..i + 1][..i] == s[..i];
      sent := sent + [Entry(s[i].word, partition)];
    }
    assert s[..|s|] == s;
  }

  /**
   * `pushToPartitionChannel` (algo.go:57-67): sort the caller's batch in place
   * by partition, then send every word with the new partition number.
   */
  method PushToPartition(inputs: array<Entry>, partition: int) returns (sent: seq<Entry>)
    modifies inputs
    ensures SortedByPartition(inputs[..])
    ensures multiset(inputs[..]) == multiset(old(inputs[..]))
    ensures sent == Relabel(inputs[..], partition)
  {
    SortByPartition(inputs);
    sent := Forward(inputs[..], partition);
  }

  /**
   * One call of `pushToPartitionChannel` on the batch collected so far, whose
   * backing array it sorts; returns what it sends and the batch as sorted.
   */
  method PushBatch(newInputs: seq<Entry>, partition: int) returns (sent: seq<Entry>, ghost sorted: seq<Entry>)
    ensures SortedByPartition(sorted) && multiset(sorted) == multiset(newInputs)
    ensures sent == Relabel(sorted, partition)
    ensures |sent| == |newInputs|
    ensures forall i :: 0 <= i < |sent| ==> sent[i].partition == partition
    ensures forall w :: Occurrences(sent, WordOf, w) == Occurrences(newInputs, WordOf, w)
  {
    var batch := new Entry[|newInputs|](k requires 0 <= k < |newInputs| => newInputs[k]);
    assert batch[..] == newInputs;
    sent := PushToPartition(batch, partition);
    sorted := batch[..];
    assert |sorted| == |multiset(sorted)| == |newInputs|;
    forall w ensures Occurrences(sent, WordOf, w) == Occurrences(newInputs, WordOf, w) {
      RelabelOccurrences(sorted, partition, w);
      OccurrencesPermutation(sorted, newInputs, WordOf, w);
    }
  }

  /** The sorted batches `sorted` pair off with the batches `pushed`. */
  ghost predicate SortedPairs(sorted: seq<seq<Entry>>, pushed: seq<seq<Entry>>)
  {
    |sorted| == |pushed|
    && forall k :: 0 <= k < |pushed| ==>
      SortedByPartition(sorted[k]) && multiset(sorted[k]) == multiset(pushed[k])
  }

  lemma SortedPairsSnoc(sorted: seq<seq<Entry>>, pushed: seq<seq<Entry>>, b: seq<Entry>, p: seq<Entry>)
    requires SortedPairs(sorted, pushed)
    requires SortedByPartition(b) && multiset(b) == multiset(p)
    ensures SortedPairs(sorted + [b], pushed + [p])
  {
  }

  lemma LabelledSnoc(sorted: seq<seq<Entry>>, b: seq<Entry>)
    ensures Labelled(sorted + [b]) == Labelled(sorted) + Relabel(b, |sorted|)
  {
    assert (sorted + [b])[..|sorted|] == sorted;
  }

  /**
   * The batching loop of `getUniqueResult` (algo.go:84-101) over the workers'
   * results in arrival order, with `WordsPerWorker` as `wordsPerWorker`:
   * returns what it pushes on the second-stage stream, and the batches as
   * sorted, since `sort.Slice` fixes no order among equal partitions.
   */
  method BatchAndPush(results: seq<Entry>, wordsPerWorker: nat)
    returns (partitionStream: seq<Entry>, ghost sorted: seq<seq<Entry>>)
    requires wordsPerWorker > 0
    ensures SortedBatchesOf(sorted, results, wordsPerWorker)
    ensures partitionStream == Labelled(sorted)
    ensures |partitionStream| == |results|
    ensures forall w :: Occurrences(partitionStream, WordOf, w) == Occurrences(results, WordOf, w)
  {
    var ctr := 0;
    var partition := 0;
    var newInputs: seq<Entry> := [];
    partitionStream := [];
    ghost var pushed: seq<seq<Entry>> := [];
    sorted := [];
    for i := 0 to |results|
      invariant ctr == |newInputs| && partition == |pushed|
      invariant Batches(results[..i], wordsPerWorker) == pushed + [newInputs]
      invariant SortedPairs(sorted, pushed)
      invariant partitionStream == Labelled(sorted)
    {
      BatchesStep(results, i, wordsPerWorker);
      if ctr < wordsPerWorker {
        GrowLastBatch(pushed, newInputs, results[i], wordsPerWorker);
      } else {
        OpenBatch(pushed, newInputs, results[i], wordsPerWorker);
      }
      if ctr >= wordsPerWorker {
        var sent, b := PushBatch(newInputs, partition);
        LabelledSnoc(sorted, b);
        SortedPairsSnoc(sorted, pushed, b, newInputs);
        partitionStream := partitionStream + sent;
        pushed := pushed + [newInputs];
        sorted := sorted + [b];
        newInputs := [];
        ctr := 0;
        partition := partition + 1;
        assert newInputs + [results[i]] == [results[i]];
      }
      newInputs := newInputs + [results[i]];
      ctr := ctr + 1;
    }
    assert results[..|results|] == results;
    var sent, b := PushBatch(newInputs, partition);
    LabelledSnoc(sorted, b);
    LastBatchPushed(results, wordsPerWorker, sorted, pushed, b, newInputs);
    partitionStream := partitionStream + sent;
    sorted := sorted + [b];
    PushedAll(results, wordsPerWorker, sorted);
  }

  /** What is pushed for the sorted batches holds every result once, whatever its partition. */
  lemma PushedAll(results: seq<Entry>, size: nat, sorted: seq<seq<Entry>>)
    requires size > 0 && SortedBatchesOf(sorted, results, size)
    ensures |Labelled(sorted)| == |results|
    ensures forall w :: Occurrences(Labelled(sorted), WordOf, w) == Occurrences(results, WordOf, w)
  {
    var batches := Batches(results, size);
    assert Flatten(batches) == results by {
      BatchesShape(results, size);
    }
    LabelledCount(sorted, "");
    SortedBatchesLength(sorted, batches);
    forall w
      ensures Occurrences(Labelled(sorted), WordOf, w) == Occurrences(results, WordOf, w)
    {
      LabelledCount(sorted, w);
      SortedBatchesCount(sorted, batches, w);
    }
  }

  /** Numbering the batches keeps their total length and every word's count. */
  lemma {:induction false} LabelledCount(batches: seq<seq<Entry>>, w: string)
    ensures |Labelled(batches)| == |Flatten(batches)|
    ensures Occurrences(Labelled(batches), WordOf, w) == Occurrences(Flatten(batches), WordOf, w)
    decreases |batches|
  {
    if batches != [] {
      var n := |batches|;
      var init, last := batches[..n - 1], batches[n - 1];
      LabelledCount(init, w);
      OccurrencesAppend(Labelled(init), Relabel(last, n - 1), WordOf, w);
      OccurrencesAppend(Flatten(init), last, WordOf, w);
      RelabelOccurrences(last, n - 1, w);
    }
  }

  /**
   * `getUniqueResult` (algo.go:74-116) with the final stream closed after its
   * last send (after algo.go:113), so that the final stage flushes its queue.
   * The batches as sorted are returned alongside.
   */
  method GetUniqueResult(results: seq<Entry>, wordsPerWorker: nat)
    returns (r: Result<Entry>, ghost sorted: seq<seq<Entry>>)
    requires wordsPerWorker > 0
    ensures SortedBatchesOf(sorted, results, wordsPerWorker)
    ensures r == Answer(sorted)
    ensures (exists i :: 0 <= i < |results| && Occurrences(results, WordOf, results[i].word) == 1) ==> r.Ok?
    ensures |results| <= wordsPerWorker ==>
      (r.Ok? <==> exists i :: 0 <= i < |results| && Occurrences(results, WordOf, results[i].word) == 1)
    ensures |results| <= wordsPerWorker && r.Ok? ==>
      r.value.partition == 0 && Occurrences(results, WordOf, r.value.word) == 1
  {
    var partitionStream;
    partitionStream, sorted := BatchAndPush(results, wordsPerWorker);
    AnswerFacts(results, wordsPerWorker, sorted);
    r := Reduce(partitionStream, sorted);
  }

  /**
   * `getUniqueResult` (algo.go:74-116) as written: the stream made at
   * algo.go:103 is never closed, so the final stage never reaches its closing
   * flush, and the channel the caller waits on receives nothing.
   */
  method GetUniqueResultAsWritten(results: seq<Entry>, wordsPerWorker: nat) returns (r: Result<Entry>)
    requires wordsPerWorker > 0
    ensures r == Err(NeverSent)
  {
    var partitionStream, sorted := BatchAndPush(results, wordsPerWorker);
    r := ReduceAsWritten(partitionStream);
  }

  /**
   * The two reduction stages as written (algo.go:77-82, algo.go:103-113): the
   * caller receives the first entry the final stage sends while its input
   * stream stays open, and there is none.
   */
  method ReduceAsWritten(partitionStream: seq<Entry>) returns (r: Result<Entry>)
    ensures r == Err(NeverSent)
  {
    ReportsRunUniques(partitionStream);
    var stageTwo, _ := FindUniqueWords(partitionStream, false);
    var final := Forward(stageTwo.value, 0);
    OpenFinalStageSilent(stageTwo.value);
    var _, sent := FindUniqueWords(final, true);
    r := FirstReceived(sent);
  }

  /**
   * What a caller ranging over the result channel of a stage that is never
   * closed receives first, given what the stage has sent: its panic, its first
   * entry, or nothing at all.
   */
  function FirstReceived(sent: Result<seq<Entry>>): Result<Entry>
  {
    match sent
    case Err(f) => Err(f)
    case Ok(s) => if s == [] then Err(NeverSent) else Ok(s[0])
  }

  /**
   * Entries all relabelled to partition 0 never change partition, so while
   * its stream stays open the final stage flushes nothing.
   */
  lemma OpenFinalStageSilent(s: seq<Entry>)
    ensures SentWhileOpen(Relabel(s, 0), true) == Ok([])
  {
    var t := Relabel(s, 0);
    if t != [] {
      assert Runs(t) == [t] by {
        RunsSingle(t);
      }
      assert Runs(t)[..0] == [];
    }
  }

  /** Pushing the last batch completes the sorted batches of the whole input. */
  lemma LastBatchPushed(results: seq<Entry>, size: nat, sorted: seq<seq<Entry>>,
                        pushed: seq<seq<Entry>>, b: seq<Entry>, last: seq<Entry>)
    requires size > 0 && Batches(results, size) == pushed + [last]
    requires SortedPairs(sorted, pushed)
    requires SortedByPartition(b) && multiset(b) == multiset(last)
    ensures SortedBatchesOf(sorted + [b], results, size)
  {
    SortedPairsSnoc(sorted, pushed, b, last);
  }

  /** What the answer computed from the sorted batches promises about the input. */
  lemma AnswerFacts(results: seq<Entry>, size: nat, sorted: seq<seq<Entry>>)
    requires size > 0 && SortedBatchesOf(sorted, results, size)
    ensures sorted == [[]] || forall k :: 0 <= k < |sorted| ==> sorted[k] != []
    ensures (exists i :: 0 <= i < |results| && Occurrences(results, WordOf, results[i].word) == 1) ==>
      Answer(sorted).Ok?
    ensures |results| <= size ==>
      (Answer(sorted).Ok? <==> exists i :: 0 <= i < |results| && Occurrences(results, WordOf, results[i].word) == 1)
    ensures |results| <= size && Answer(sorted).Ok? ==>
      Answer(sorted).value.partition == 0 && Occurrences(results, WordOf, Answer(sorted).value.word) == 1
  {
    SortedBatchesNonEmpty(results, size, sorted);
    if exists i :: 0 <= i < |results| && Occurrences(results, WordOf, results[i].word) == 1 {
      var i :| 0 <= i < |results| && Occurrences(results, WordOf, results[i].word) == 1;
      UniqueWordAnswered(results, size, sorted, results[i].word);
    }
    if |results| <= size {
      SingleBatchAnswer(results, size, sorted);
    }
  }

  /**
   * The two reduction stages of `getUniqueResult` (algo.go:77-82,
   * algo.go:103-113) with the final stream closed after its last send: reduce
   * every batch, relabel the survivors to partition 0, and keep the front of
   * the final queue.
   */
  method Reduce(partitionStream: seq<Entry>, ghost sorted: seq<seq<Entry>>) returns (r: Result<Entry>)
    requires sorted == [[]] || forall k :: 0 <= k < |sorted| ==> sorted[k] != []
    requires partitionStream == Labelled(sorted)
    ensures r == Answer(sorted)
  {
    StageTwo(sorted);
    var stageTwo, _ := FindUniqueWords(partitionStream, false);
    var final := Forward(stageTwo.value, 0);
    FinalStage(stageTwo.value);
    var out, _ := FindUniqueWords(final, true);
    if out.Err? {
      r := Err(out.fault);
    } else {
      r := Ok(out.value[0]);
    }
  }

  /** The sorted batches are all non-empty, or the single empty batch of an empty input. */
  lemma SortedBatchesNonEmpty(results: seq<Entry>, size: nat, sorted: seq<seq<Entry>>)
    requires size > 0 && SortedBatchesOf(sorted, results, size)
    ensures sorted == [[]] || forall k :: 0 <= k < |sorted| ==> sorted[k] != []
  {
    BatchesShape(results, size);
    if results == [] {
      assert Batches(results, size) == [[]];
      assert multiset(sorted[0]) == multiset([]);
    } else {
      forall k | 0 <= k < |sorted| ensures sorted[k] != [] {
        assert |multiset(sorted[k])| == |multiset(Batches(results, size)[k])|;
      }
    }
  }
}
