/**
 * The generation loop of main (main.go): for i = 1 .. nftCount it selects layers,
 * consults the cache, composites and stores on a miss and starts a save for index i,
 * and on a hit prints a notice and skips the save. It then receives nftCount times
 * from the done channel. Of the goroutines and the channel only the number of saves
 * started and the number of completions received are kept.
 */
module Generation {
  import opened Wrappers
  import opened Images
  import opened Selection
  import opened CacheKeys
  import opened Output

  /** One saveImageToFile goroutine: writes image to OutputFileName(index). */
  datatype Save = Save(index: int, image: Image)

  /** The loop's state: the cache, the saves started so far, the notices printed. */
  datatype State = State(cache: map<string, Image>, saves: seq<Save>, notices: seq<string>)

  /** Ways a run stops early. */
  datatype Halt =
    | ReadLayersFatal      // log.Fatal("Error reading layers from dirs"): exit status 1
    | EmptyDirPanic        // rand.Intn(0) panics; handlePanic recovers and main returns
    | NoLayersPanic        // combineLayers indexes layers[0] of an empty selection
    | Deadlock             // the wait loop blocks on a receive no save will send

  datatype Run = Live(st: State) | Halted(why: Halt, st: State)

  /** The end of a run: how it stopped, how many saves were started, how many completions were received. */
  datatype Report = Report(run: Run, dispatched: nat, received: nat)

  type Selections = seq<Result<seq<Layer>, ReadError>>

  /** Go's int on the 64-bit targets the program is built for. */
  newtype int64 = x: int | -0x8000_0000_0000_0000 <= x < 0x8000_0000_0000_0000

  const MaxInt: int64 := 0x7fff_ffff_ffff_ffff

  /** nftCount+1 in Go's int: the largest int wraps round to the smallest. */
  function Succ(n: int64): int64
  {
    if n == MaxInt then -0x8000_0000_0000_0000 else n + 1
  }

  /** The number of iterations of `for i := 1; i < nftCount+1; i++`. */
  function Count(nftCount: int64): nat
  {
    if Succ(nftCount) > 1 then (Succ(nftCount) - 1) as int else 0
  }

  /**
   * The loop runs nftCount times for a positive count below the largest int, and
   * not at all for a non-positive count or for the largest int, where the bound wraps.
   */
  lemma CountRange(nftCount: int64)
    ensures 0 < nftCount < MaxInt ==> Count(nftCount) == nftCount as int
    ensures nftCount <= 0 || nftCount == MaxInt ==> Count(nftCount) == 0
  {
  }

  /** The line printed for a duplicate: fmt.Println(key, "already exists"). */
  function Notice(key: string): string
  {
    key + " already exists"
  }

  /** Iteration i of the loop, given what readRandomLayersFromDirs returned. */
  function Iterate(st: State, i: int, selection: Result<seq<Layer>, ReadError>): (r: Run)
    ensures r.Halted? ==> r.st == st
    ensures selection.Err? <==> r.Halted? && r.why in {ReadLayersFatal, EmptyDirPanic}
  {
    match selection
    case Err(e) => Halted(if e.NoEntries? then EmptyDirPanic else ReadLayersFatal, st)
    case Ok(layers) =>
      var key := CacheKey(layers);
      if GetFromCache(st.cache, layers).Some? then
        Live(st.(notices := st.notices + [Notice(key)]))
      else if |layers| == 0 then
        Halted(NoLayersPanic, st)
      else
        var combined := Composite(layers);
        Live(State(st.cache[key := combined], st.saves + [Save(i, combined)], st.notices))
  }

  /** A hit only prints the notice for its key. */
  lemma IterateHit(st: State, i: int, layers: seq<Layer>)
    requires CacheKey(layers) in st.cache
    ensures Iterate(st, i, Ok(layers)) == Live(st.(notices := st.notices + [Notice(CacheKey(layers))]))
  {
  }

  /**
   * A miss on an empty selection panics in combineLayers; any other miss stores the
   * composite under the new key and starts a save for index i.
   */
  lemma IterateMiss(st: State, i: int, layers: seq<Layer>)
    requires CacheKey(layers) !in st.cache
    ensures |layers| == 0 ==> Iterate(st, i, Ok(layers)) == Halted(NoLayersPanic, st)
    ensures |layers| > 0 ==>
              Iterate(st, i, Ok(layers))
                == Live(State(st.cache[CacheKey(layers) := Composite(layers)],
                              st.saves + [Save(i, Composite(layers))], st.notices))
  {
  }

  /** The loop after iterations 1 .. |selections|, where selections[i-1] is what iteration i selected. */
  function Process(selections: Selections): Run
    decreases |selections|
  {
    if |selections| == 0 then Live(State(map[], [], []))
    else
      var before := Process(selections[..|selections| - 1]);
      match before
      case Halted(_, _) => before
      case Live(st) => Iterate(st, |selections|, selections[|selections| - 1])
  }

  /**
   * A closing wait of `waits` receives from done, where one send happens per save
   * started: it blocks for good once the sends run out. A halted run never waits.
   */
  function FinishWaiting(run: Run, waits: nat): Report
  {
    match run
    case Halted(_, st) => Report(run, |st.saves|, 0)
    case Live(st) =>
      if |st.saves| < waits then Report(Halted(Deadlock, st), |st.saves|, |st.saves|)
      else Report(run, |st.saves|, waits)
  }

  /** The closing loop of main as written: one receive per iteration. */
  function Finish(run: Run, nftCount: int64): Report
  {
    FinishWaiting(run, Count(nftCount))
  }

  /** What the iterations select: readRandomLayersFromDirs with the draws of each iteration. */
  function SelectAll(fs: FileSystem, dirs: seq<string>, draws: seq<seq<nat>>): (r: Selections)
    requires forall j :: 0 <= j < |draws| ==> |draws[j]| == |dirs|
  {
    seq(|draws|, j requires 0 <= j < |draws| => SelectLayers(fs, dirs, draws[j]))
  }

  lemma {:induction false} HaltIsFinal(selections: Selections, n: nat)
    requires n <= |selections|
    requires Process(selections[..n]).Halted?
    ensures Process(selections) == Process(selections[..n])
    decreases |selections| - n
  {
    if n < |selections| {
      var m := |selections| - 1;
      assert selections[..m][..n] == selections[..n];
      HaltIsFinal(selections[..m], n);
    } else {
      assert selections[..n] == selections;
    }
  }

  /**
   * The body of main from the cache's creation on. draws[i-1][k] is the random
   * value drawn for directory k in iteration i.
   */
  method Generate(fs: FileSystem, dirs: seq<string>, nftCount: int64, draws: seq<seq<nat>>)
    returns (report: Report)
    requires |draws| == Count(nftCount)
    requires forall j :: 0 <= j < |draws| ==> |draws[j]| == |dirs|
    ensures report == Finish(Process(SelectAll(fs, dirs, draws)), nftCount)
  {
    ghost var selections := SelectAll(fs, dirs, draws);
    var cache: map<string, Image> := map[];
    var saves: seq<Save> := [];
    var notices: seq<string> := [];
    // i stays below bound, so i++ does not wrap.
    var bound := Succ(nftCount) as int;
    var i := 1;
    ghost var done: Selections := [];
    while i < bound
      invariant 1 <= i <= |selections| + 1
      invariant done == selections[..i - 1]
      invariant Process(done) == Live(State(cache, saves, notices))
    {
      var selection := ReadRandomLayersFromDirs(fs, dirs, draws[i - 1]);
      ghost var before := State(cache, saves, notices);
      ProcessSnoc(done, selection);
      assert selection == selections[i - 1];
      PrefixSnoc(selections, i - 1);
      done := done + [selection];
      if selection.Err? {
        HaltIsFinal(selections, i);
        var why := if selection.error.NoEntries? then EmptyDirPanic else ReadLayersFatal;
        return Report(Halted(why, State(cache, saves, notices)), |saves|, 0);
      }
      var layers := selection.value;
      var combined: Image;
      if GetFromCache(cache, layers).None? {
        if |layers| == 0 {
          HaltIsFinal(selections, i);
          return Report(Halted(NoLayersPanic, State(cache, saves, notices)), |saves|, 0);
        }
        IterateMiss(before, i, layers);
        combined := CombineLayers(layers);
        var key := GetCacheKey(layers);
        cache := cache[key := combined];
      } else {
        IterateHit(before, i, layers);
        var key := GetCacheKey(layers);
        notices := notices + [Notice(key)];
        i := i + 1;
        continue;
      }
      saves := saves + [Save(i, combined)];
      i := i + 1;
    }
    assert selections[..i - 1] == selections;
    var received := 0;
    var w := 1;
    while w < bound
      invariant 1 <= w <= Count(nftCount) + 1
      invariant received == w - 1 <= |saves|
    {
      if received == |saves| {
        return Report(Halted(Deadlock, State(cache, saves, notices)), |saves|, received);
      }
      received := received + 1;
      w := w + 1;
    }
    report := Report(Live(State(cache, saves, notices)), |saves|, received);
  }

  /** The cache key of each iteration ("" where the read failed, which halts the run). */
  function Keys(selections: Selections): (keys: seq<string>)
  {
    seq(|selections|, k requires 0 <= k < |selections| =>
      if selections[k].Ok? then CacheKey(selections[k].value) else "")
  }

  function Indices(saves: seq<Save>): (r: seq<int>)
  {
    seq(|saves|, k requires 0 <= k < |saves| => saves[k].index)
  }

  function Distinct(keys: seq<string>): set<string>
  {
    set k | k in keys
  }

  predicate HasDuplicate(keys: seq<string>)
  {
    exists i, j :: 0 <= i < j < |keys| && keys[i] == keys[j]
  }

  lemma KeysPrefix(selections: Selections, n: nat)
    requires n <= |selections|
    ensures Keys(selections[..n]) == Keys(selections)[..n]
  {
  }

  /** The keys of a run extended by one iteration. */
  lemma KeysSnoc(selections: Selections)
    requires |selections| > 0
    ensures var n := |selections| - 1;
            Keys(selections)
              == Keys(selections[..n]) + [if selections[n].Ok? then CacheKey(selections[n].value) else ""]
  {
  }

  lemma {:induction false} DistinctCount(keys: seq<string>)
    ensures |Distinct(keys)| <= |keys|
    ensures |Distinct(keys)| == |keys| <==> !HasDuplicate(keys)
    decreases |keys|
  {
    if |keys| > 0 {
      var n := |keys| - 1;
      var p, x := keys[..n], keys[n];
      assert keys == p + [x];
      assert Distinct(keys) == Distinct(p) + {x};
      DistinctCount(p);
      if x in p {
        var i :| 0 <= i < n && p[i] == x;
        assert keys[i] == keys[n];
      } else {
        assert |Distinct(keys)| == |Distinct(p)| + 1;
        if HasDuplicate(keys) {
          var i, j :| 0 <= i < j < |keys| && keys[i] == keys[j];
          assert j < n;
          assert p[i] == p[j];
        }
        if HasDuplicate(p) {
          var i, j :| 0 <= i < j < |p| && p[i] == p[j];
          assert keys[i] == keys[j];
        }
      }
    }
  }

  /** One step of a live run: the run before it was live and the last selection succeeded. */
  lemma LiveStep(selections: Selections)
    requires |selections| > 0 && Process(selections).Live?
    ensures Process(selections[..|selections| - 1]).Live?
    ensures selections[|selections| - 1].Ok?
    ensures Process(selections)
         == Iterate(Process(selections[..|selections| - 1]).st, |selections|, selections[|selections| - 1])
  {
  }

  /** The last iteration of a live run, in terms of the states before and after it. */
  lemma Step(selections: Selections)
    requires |selections| > 0 && Process(selections).Live?
    ensures var n := |selections| - 1;
            var st, st' := Process(selections[..n]).st, Process(selections).st;
            var key := Keys(selections)[n];
            && Process(selections[..n]).Live?
            && selections[n].Ok? && key == CacheKey(selections[n].value)
            && (key in st.cache ==>
                  st' == st.(notices := st.notices + [Notice(key)]))
            && (key !in st.cache ==>
                  && |selections[n].value| > 0
                  && st' == State(st.cache[key := Composite(selections[n].value)],
                                  st.saves + [Save(n + 1, Composite(selections[n].value))], st.notices))
  {
    var n := |selections| - 1;
    LiveStep(selections);
    var layers := selections[n].value;
    if CacheKey(layers) in Process(selections[..n]).st.cache {
      IterateHit(Process(selections[..n]).st, n + 1, layers);
    } else {
      IterateMiss(Process(selections[..n]).st, n + 1, layers);
    }
  }

  /** A live iteration keeps every cache entry and every save started before it. */
  lemma IterateExtends(st: State, i: int, selection: Result<seq<Layer>, ReadError>)
    requires Iterate(st, i, selection).Live?
    ensures forall key :: key in st.cache ==>
              key in Iterate(st, i, selection).st.cache
              && Iterate(st, i, selection).st.cache[key] == st.cache[key]
    ensures forall s :: s in st.saves ==> s in Iterate(st, i, selection).st.saves
  {
  }

  /** A run that is still live read successfully in every iteration. */
  lemma {:induction false} LiveMeansSelected(selections: Selections)
    requires Process(selections).Live?
    ensures forall k :: 0 <= k < |selections| ==> selections[k].Ok?
    decreases |selections|
  {
    if |selections| > 0 {
      var n := |selections| - 1;
      LiveStep(selections);
      LiveMeansSelected(selections[..n]);
      assert forall k :: 0 <= k < n ==> selections[..n][k] == selections[k];
    }
  }

  /**
   * The cache holds exactly the keys seen so far, one save was started per cache
   * entry, and every iteration either started a save or printed a notice.
   */
  lemma {:induction false} CacheBookkeeping(selections: Selections)
    requires Process(selections).Live?
    ensures Process(selections).st.cache.Keys == Distinct(Keys(selections))
    ensures |Process(selections).st.saves| == |Process(selections).st.cache|
    ensures |Process(selections).st.saves| + |Process(selections).st.notices| == |selections|
    decreases |selections|
  {
    if |selections| > 0 {
      var n := |selections| - 1;
      var p := selections[..n];
      Step(selections);
      CacheBookkeeping(p);
      KeysSnoc(selections);
      var key := Keys(selections)[n];
      var st := Process(p).st;
      DistinctSnoc(Keys(p), key);
      if key in st.cache {
        BookkeepingHit(st, Process(selections).st, Keys(p), key);
      } else {
        var img := Composite(selections[n].value);
        BookkeepingMiss(st, Process(selections).st, Keys(p), key, img, Save(n + 1, img));
      }
    }
  }

  /** A hit keeps the bookkeeping of CacheBookkeeping. */
  lemma BookkeepingHit(st: State, st': State, keys: seq<string>, key: string)
    requires st.cache.Keys == Distinct(keys) && |st.saves| == |st.cache|
    requires key in st.cache && st' == st.(notices := st.notices + [Notice(key)])
    ensures st'.cache.Keys == Distinct(keys) + {key}
    ensures |st'.saves| == |st'.cache|
    ensures |st'.saves| + |st'.notices| == |st.saves| + |st.notices| + 1
  {
  }

  /** A miss keeps the bookkeeping of CacheBookkeeping. */
  lemma BookkeepingMiss(st: State, st': State, keys: seq<string>, key: string, img: Image, save: Save)
    requires st.cache.Keys == Distinct(keys) && |st.saves| == |st.cache|
    requires key !in st.cache && st' == State(st.cache[key := img], st.saves + [save], st.notices)
    ensures st'.cache.Keys == Distinct(keys) + {key}
    ensures |st'.saves| == |st'.cache|
    ensures |st'.saves| + |st'.notices| == |st.saves| + |st.notices| + 1
  {
  }

  lemma DistinctSnoc(keys: seq<string>, key: string)
    ensures Distinct(keys + [key]) == Distinct(keys) + {key}
  {
    assert forall k :: k in keys + [key] <==> k in keys || k == key;
  }

  /** The indices of the saves increase and lie in [1, |selections|]. */
  lemma {:induction false} SaveIndexOrder(selections: Selections)
    requires Process(selections).Live?
    ensures forall k :: 0 <= k < |Process(selections).st.saves| ==>
              1 <= Process(selections).st.saves[k].index <= |selections|
    ensures forall a, b :: 0 <= a < b < |Process(selections).st.saves| ==>
              Process(selections).st.saves[a].index < Process(selections).st.saves[b].index
    decreases |selections|
  {
    if |selections| > 0 {
      var n := |selections| - 1;
      var p := selections[..n];
      var st, st' := Process(p).st, Process(selections).st;
      LiveStep(selections);
      SaveIndexOrder(p);
      if CacheKey(selections[n].value) in st.cache {
        assert st'.saves == st.saves;
      } else {
        assert st'.saves == st.saves + [Save(n + 1, Composite(selections[n].value))];
      }
    }
  }

  /** The last iteration adds its index to the saves exactly when its key is new. */
  lemma IndicesStep(selections: Selections)
    requires |selections| > 0 && Process(selections).Live?
    ensures Process(selections[..|selections| - 1]).Live?
    ensures var n := |selections| - 1;
            var keys := Keys(selections);
            Indices(Process(selections).st.saves)
              == Indices(Process(selections[..n]).st.saves) + (if keys[n] in keys[..n] then [] else [n + 1])
  {
    var n := |selections| - 1;
    var p := selections[..n];
    var st, st' := Process(p).st, Process(selections).st;
    Step(selections);
    CacheBookkeeping(p);
    KeysSnoc(selections);
    var keys := Keys(selections);
    assert keys[n] in st.cache <==> keys[n] in keys[..n];
    if keys[n] !in st.cache {
      var save := Save(n + 1, Composite(selections[n].value));
      IndicesSnoc(st.saves, save);
    }
  }

  lemma IndicesSnoc(saves: seq<Save>, save: Save)
    ensures Indices(saves + [save]) == Indices(saves) + [save.index]
  {
  }

  /**
   * A save is started for index k + 1 exactly when the key of that iteration did not
   * occur in an earlier one.
   */
  lemma {:induction false} SavedIffFirstOccurrence(selections: Selections)
    requires Process(selections).Live?
    ensures forall k :: 0 <= k < |selections| ==>
              (k + 1 in Indices(Process(selections).st.saves) <==> Keys(selections)[k] !in Keys(selections)[..k])
    decreases |selections|
  {
    if |selections| > 0 {
      var n := |selections| - 1;
      var p := selections[..n];
      IndicesStep(selections);
      SavedIffFirstOccurrence(p);
      SaveIndexOrder(p);
      var before := Indices(Process(p).st.saves);
      assert n + 1 !in before;
      KeysPrefix(selections, n);
      FirstOccurrenceStep(before, Indices(Process(selections).st.saves), Keys(p), Keys(selections));
    }
  }

  /** Extending the saved indices by the last iteration's index when its key is new. */
  lemma FirstOccurrenceStep(before: seq<int>, after: seq<int>, prev: seq<string>, keys: seq<string>)
    requires |keys| > 0 && prev == keys[..|keys| - 1]
    requires |keys| !in before
    requires forall k :: 0 <= k < |prev| ==> (k + 1 in before <==> prev[k] !in prev[..k])
    requires var n := |keys| - 1;
             after == before + (if keys[n] in keys[..n] then [] else [n + 1])
    ensures forall k :: 0 <= k < |keys| ==> (k + 1 in after <==> keys[k] !in keys[..k])
  {
    var n := |keys| - 1;
    forall k | 0 <= k < |keys|
      ensures k + 1 in after <==> keys[k] !in keys[..k]
    {
      if k < n {
        assert prev[..k] == keys[..k] && prev[k] == keys[k];
        assert k + 1 in after <==> k + 1 in before;
      }
    }
  }

  /** Iteration k + 1 read a non-empty selection whose composite is cached under its key and saved under k + 1. */
  predicate CachedAt(selections: Selections, st: State, k: nat)
    requires k < |selections|
  {
    && selections[k].Ok? && |selections[k].value| > 0
    && CacheKey(selections[k].value) in st.cache
    && st.cache[CacheKey(selections[k].value)] == Composite(selections[k].value)
    && Save(k + 1, Composite(selections[k].value)) in st.saves
  }

  /** The key of iteration k + 1 does not occur in an earlier iteration. */
  predicate FirstOccurrence(keys: seq<string>, k: nat)
    requires k < |keys|
  {
    keys[k] !in keys[..k]
  }

  /** The entry and the save that the last iteration adds when its key is new. */
  lemma NewKeyCached(selections: Selections)
    requires |selections| > 0 && Process(selections).Live?
    requires FirstOccurrence(Keys(selections), |selections| - 1)
    ensures CachedAt(selections, Process(selections).st, |selections| - 1)
  {
    var n := |selections| - 1;
    var p := selections[..n];
    LiveStep(selections);
    CacheBookkeeping(p);
    KeysPrefix(selections, n);
    var key := Keys(selections)[n];
    assert key == CacheKey(selections[n].value);
    assert key !in Process(p).st.cache;
  }

  /** What was cached and saved before the last iteration still is after it. */
  lemma OldKeysCached(selections: Selections)
    requires |selections| > 0 && Process(selections).Live?
    ensures forall k :: 0 <= k < |selections| - 1 ==>
              CachedAt(selections[..|selections| - 1], Process(selections[..|selections| - 1]).st, k) ==>
              CachedAt(selections, Process(selections).st, k)
  {
    var n := |selections| - 1;
    var p := selections[..n];
    LiveStep(selections);
    IterateExtends(Process(p).st, n + 1, selections[n]);
    KeysSnoc(selections);
    forall k | 0 <= k < n
      ensures Keys(selections)[..k] == Keys(p)[..k]
    {
    }
  }

  /**
   * The cache entry of each first occurrence is the composite of that iteration's
   * layers, and that image is what its save writes.
   */
  lemma {:induction false} CachedComposites(selections: Selections)
    requires Process(selections).Live?
    ensures forall k :: 0 <= k < |selections| && FirstOccurrence(Keys(selections), k) ==>
              CachedAt(selections, Process(selections).st, k)
    decreases |selections|
  {
    if |selections| > 0 {
      var n := |selections| - 1;
      if FirstOccurrence(Keys(selections), n) {
        NewKeyCached(selections);
      }
      LiveStep(selections);
      CachedComposites(selections[..n]);
      OldKeysCached(selections);
      KeysPrefix(selections, n);
      forall k | 0 <= k < n && FirstOccurrence(Keys(selections), k)
        ensures FirstOccurrence(Keys(selections[..n]), k)
      {
        assert Keys(selections)[..k] == Keys(selections[..n])[..k];
      }
    }
  }

  /** Saves started = distinct keys = cache entries; the other iterations printed notices. */
  lemma CountsAgree(selections: Selections)
    requires Process(selections).Live?
    ensures |Process(selections).st.saves| == |Process(selections).st.cache| == |Distinct(Keys(selections))|
    ensures |Process(selections).st.notices| == |selections| - |Distinct(Keys(selections))|
  {
    CacheBookkeeping(selections);
    var cache := Process(selections).st.cache;
    assert |cache| == |cache.Keys|;
  }

  /** Two iterations whose selections share a key (even with different names) save only once. */
  lemma RepeatedKeyNotSaved(selections: Selections, j: nat, i: nat)
    requires Process(selections).Live?
    requires j < i < |selections|
    requires Keys(selections)[j] == Keys(selections)[i]
    ensures i + 1 !in Indices(Process(selections).st.saves)
  {
    SavedIffFirstOccurrence(selections);
    assert Keys(selections)[..i][j] == Keys(selections)[i];
  }

  /** No two saves write the same file. */
  lemma SavedFileNamesDistinct(selections: Selections)
    requires Process(selections).Live?
    ensures forall a, b :: 0 <= a < b < |Process(selections).st.saves| ==>
              OutputFileName(Process(selections).st.saves[a].index)
                != OutputFileName(Process(selections).st.saves[b].index)
  {
    SaveIndexOrder(selections);
    var saves := Process(selections).st.saves;
    forall a, b | 0 <= a < b < |saves|
      ensures OutputFileName(saves[a].index) != OutputFileName(saves[b].index)
    {
      OutputFileNamesDistinct(saves[a].index, saves[b].index);
    }
  }

  /**
   * As written, a run whose iterations all succeed ends in a deadlock exactly when
   * some key repeats: nftCount receives wait for one send per distinct key.
   */
  lemma WaitDeadlocksOnDuplicate(selections: Selections, nftCount: int64)
    requires |selections| == Count(nftCount)
    requires Process(selections).Live?
    ensures Finish(Process(selections), nftCount).dispatched == |Distinct(Keys(selections))|
    ensures Finish(Process(selections), nftCount).run.Halted? <==> HasDuplicate(Keys(selections))
    ensures Finish(Process(selections), nftCount).run.Halted? ==>
              Finish(Process(selections), nftCount).run.why == Deadlock
              && Finish(Process(selections), nftCount).received < Count(nftCount)
  {
    CountsAgree(selections);
    DistinctCount(Keys(selections));
  }

  /** The wait the loop evidently intends: one receive per save started. */
  function CorrectedFinish(run: Run): Report
  {
    FinishWaiting(run, |run.st.saves|)
  }

  /** With the corrected wait every successful run completes, receiving once per distinct key. */
  lemma CorrectedWaitCompletes(selections: Selections)
    requires Process(selections).Live?
    ensures CorrectedFinish(Process(selections)).run.Live?
    ensures CorrectedFinish(Process(selections)).received
         == CorrectedFinish(Process(selections)).dispatched
         == |Distinct(Keys(selections))|
  {
    CountsAgree(selections);
  }

  lemma PrefixSnoc<T>(s: seq<T>, n: nat)
    requires n < |s|
    ensures s[..n] + [s[n]] == s[..n + 1]
  {
  }

  /** Running one more iteration after a live prefix. */
  lemma ProcessSnoc(selections: Selections, next: Result<seq<Layer>, ReadError>)
    requires Process(selections).Live?
    ensures Process(selections + [next]) == Iterate(Process(selections).st, |selections| + 1, next)
  {
    assert (selections + [next])[..|selections|] == selections;
  }

  /** Two iterations with different keys both miss: each adds a cache entry and a save. */
  lemma TwoMisses(la: seq<Layer>, lb: seq<Layer>)
    requires |la| > 0 && |lb| > 0 && CacheKey(la) != CacheKey(lb)
    ensures Process([Ok(la), Ok(lb)])
         == Live(State(map[CacheKey(la) := Composite(la), CacheKey(lb) := Composite(lb)],
                       [Save(1, Composite(la)), Save(2, Composite(lb))], []))
  {
    var first: Result<seq<Layer>, ReadError> := Ok(la);
    var second: Result<seq<Layer>, ReadError> := Ok(lb);
    ProcessSnoc([], first);
    assert [] + [first] == [first];
    ProcessSnoc([first], second);
    assert [first] + [second] == [first, second];
  }

  /** Two more iterations whose keys are already cached only print notices. */
  lemma TwoHits(prefix: Selections, la: seq<Layer>, lb: seq<Layer>)
    requires Process(prefix).Live?
    requires CacheKey(la) in Process(prefix).st.cache && CacheKey(lb) in Process(prefix).st.cache
    ensures var st := Process(prefix).st;
            Process(prefix + [Ok(la), Ok(lb)])
              == Live(st.(notices := st.notices + [Notice(CacheKey(la)), Notice(CacheKey(lb))]))
  {
    var first: Result<seq<Layer>, ReadError> := Ok(la);
    var second: Result<seq<Layer>, ReadError> := Ok(lb);
    ProcessSnoc(prefix, first);
    ProcessSnoc(prefix + [first], second);
    assert prefix + [first] + [second] == prefix + [first, second];
  }

  /** The state after four iterations cycling through two selections with distinct keys. */
  lemma CyclingSelectionsRun(la: seq<Layer>, lb: seq<Layer>)
    requires |la| > 0 && |lb| > 0 && CacheKey(la) != CacheKey(lb)
    ensures var first, second := Ok(la), Ok(lb);
            Process([first, second, first, second])
              == Live(State(map[CacheKey(la) := Composite(la), CacheKey(lb) := Composite(lb)],
                            [Save(1, Composite(la)), Save(2, Composite(lb))],
                            [Notice(CacheKey(la)), Notice(CacheKey(lb))]))
  {
    var first: Result<seq<Layer>, ReadError> := Ok(la);
    var second: Result<seq<Layer>, ReadError> := Ok(lb);
    TwoMisses(la, lb);
    TwoHits([first, second], la, lb);
    assert [first, second] + [first, second] == [first, second, first, second];
  }

  /**
   * Four iterations cycling through two selections with distinct keys: the first two
   * are saved as 1.png and 2.png, the last two print notices, and the wait for four
   * completions deadlocks after two.
   */
  lemma CyclingSelectionsDeadlock(la: seq<Layer>, lb: seq<Layer>)
    requires |la| > 0 && |lb| > 0 && CacheKey(la) != CacheKey(lb)
    ensures var first, second := Ok(la), Ok(lb);
            var run := Process([first, second, first, second]);
            && run.Live?
            && Indices(run.st.saves) == [1, 2]
            && OutputFileName(run.st.saves[0].index) == "1.png"
            && OutputFileName(run.st.saves[1].index) == "2.png"
            && |run.st.notices| == 2
            && Finish(run, 4) == Report(Halted(Deadlock, run.st), 2, 2)
  {
    CyclingSelectionsRun(la, lb);
    assert OutputFileName(1) == "1.png" && OutputFileName(2) == "2.png";
  }

  /** The layer names A, X and B, Y give the distinct keys A-X and B-Y. */
  lemma CyclingExampleKeys(a: Image, b: Image, x: Image, y: Image)
    ensures CacheKey([Layer("A", a), Layer("X", x)]) == "A-X"
    ensures CacheKey([Layer("B", b), Layer("Y", y)]) == "B-Y"
  {
    var la, lb := [Layer("A", a), Layer("X", x)], [Layer("B", b), Layer("Y", y)];
    assert Names(la) == ["A", "X"] && Names(lb) == ["B", "Y"];
    assert ["A", "X"][1..] == ["X"] && ["B", "Y"][1..] == ["Y"];
  }

  /**
   * Two iterations selecting ("a-b", "c") and then ("a", "b-c"): different layers,
   * one key, so the second is reported as a duplicate and never saved.
   */
  lemma CollidingSelectionsSavedOnce(i1: Image, i2: Image, i3: Image, i4: Image)
    ensures var first := [Layer("a-b", i1), Layer("c", i2)];
            var second := [Layer("a", i3), Layer("b-c", i4)];
            var run := Process([Ok(first), Ok(second)]);
            && run.Live?
            && run.st.saves == [Save(1, Composite(first))]
            && run.st.cache == map["a-b-c" := Composite(first)]
            && run.st.notices == ["a-b-c already exists"]
  {
    var first := [Layer("a-b", i1), Layer("c", i2)];
    var second := [Layer("a", i3), Layer("b-c", i4)];
    CacheKeyCollisions(i1, i2, i3, i4);
    assert Notice("a-b-c") == "a-b-c already exists";
    var s: Selections := [Ok(first), Ok(second)];
    assert s[..1][..0] == [] && s[..1] == [Ok(first)];
    assert Process(s[..1]) == Live(State(map["a-b-c" := Composite(first)], [Save(1, Composite(first))], []));
  }
}
