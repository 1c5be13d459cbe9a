# LayerMixer in Dafny

LayerMixer generates images by stacking one randomly chosen PNG from each layer
directory. Its generation loop works as follows:

- It reads one random selection of layers per iteration.
- It keys the selection by the layer names joined with `-`.
- On a cache miss, it composites the layers, stores the result under the key and
  starts a goroutine that saves the image as `<i>.png`.
- On a cache hit, it prints `<key> already exists` and skips the save.
- At the end it waits for completions from the goroutines.

This project models that loop and the helpers it calls:

- the cache key and lookup;
- layer selection, with the random index as an input;
- composition, with bounds and draw order only;
- discovery of layer directories from the environment;
- the output file name.

It proves the properties the code's structure promises. It also proves the
deadlock that the closing wait loop causes whenever a key repeats.

Modules, one file each:

- `Wrappers` (`wrappers.dfy`): `Option` and `Result`.
- `Images` (`images.dfy`):
  - points, rectangles and images, whose pixels are an uninterpreted term of draw calls;
  - a `Canvas` class for the RGBA buffer that `combineLayers` draws into in place;
  - `CombineLayers`, proved against the specification function `Composite`.
- `Selection` (`selection.dfy`):
  - the file system is a value: a listing of `(name, isDir)` entries per directory,
    the decoded content per file, and the files whose `Close` fails;
  - `rand.Intn` is replaced by an oracle value per directory;
  - the pick ranges over all entries of a listing, subdirectories included, and a
    subdirectory pick adds no layer;
  - `ReadRandomLayersFromDirs` is proved against the specification function
    `SelectLayers`.
- `CacheKeys` (`cache_keys.dfy`):
  - `strings.Join`;
  - `GetCacheKey`, which fills an array of names in a loop;
  - `GetFromCache`;
  - injectivity and collisions of the key.
- `Environment` (`environment.dfy`):
  - the process environment is the raw sequence of entries the Go runtime starts from;
  - `os.Getenv` returns `""` for the empty key, and otherwise the value of the first
    entry that has an `=` and the key (`""` when there is none);
  - `os.Environ()` reports the raw entries minus empty ones and minus every later
    entry that repeats an earlier key; entries without `=` stay;
  - `GetDirNames` walks `os.Environ()`.
- `Output` (`output.dfy`): the `%d.png` name and its decimal round trip.
- `Generation` (`generation.dfy`):
  - Go's `int` is 64 bits wide, so `nftCount+1` wraps at the largest value;
  - the loop of `main` as a specification function `Process` over the per-iteration
    selections, with the method `Generate` proved against it;
  - the counting lemmas;
  - the wait-count finding.

## Model

| member | source | states |
|---|---|---|
| Images.Canvas.constructor | main.go:66-67 | a new RGBA canvas has the given bounds and zeroed (blank) pixels |
| Images.Canvas.Draw | main.go:69-72 | a draw call leaves the canvas holding that draw applied onto its previous pixels, bounds unchanged |
| Images.Composite | main.go:65-76 | specification of `combineLayers`: the first layer's bounds, and the paint `Layered` builds from all layers (its properties are the lemmas below) |
| Images.CombineLayers | main.go:65-76 | for a non-empty slice the result is `Composite(layers)` and its bounds are those of the first layer |
| Images.LayeredDraws | main.go:69-73 | after n layers the canvas holds exactly n draws on a blank base: `Src` for layer 0, `Over` for each later one, in slice order, all over the first layer's bounds |
| Images.CompositeDrawOrder | main.go:65-76 | the composite has the first layer's bounds, a blank base, one draw per layer in slice order, `Src` first and `Over` after |
| Images.CompositeAppend | main.go:71-73 | adding a layer on top draws it with `Over` onto the composite of the layers below |
| Selection.PickIndex | main.go:38 | the picked index lies in [0, n) and equals the oracle value when that is already in range |
| Selection.PickLayer | main.go:31-59 | the iteration for one directory: `ReadDirFailed` iff the directory is unreadable; `NoEntries` (the `rand.Intn(0)` panic) iff its listing is empty; no layer iff the picked entry is a directory; for a picked file, `OpenFailed` when it is missing, `DecodeFailed` when it is not a PNG, `CloseFailed` when closing fails, and otherwise the layer named after the file holding its decoded image |
| Selection.SelectLayers | main.go:27-63 | specification of `readRandomLayersFromDirs`: the picks in directory order, a directory pick adding nothing, stopping at the first error (its properties are the lemmas below) |
| Selection.ErrorIsFinal | main.go:30-34 | once the walk over the directories has failed, later directories do not change the result |
| Selection.ReadRandomLayersFromDirs | main.go:27-63 | the loop with its early returns computes `SelectLayers`: the picks in directory order, stopping at the first error |
| Selection.SelectLayersBound | main.go:30-62 | a successful call returns at most one layer per directory |
| Selection.SelectLayersOkIff | main.go:30-62 | the call succeeds exactly when the pick in every directory succeeds |
| Selection.SelectLayersFirstError | main.go:30-58 | a failed call returns the error of the first directory whose pick fails, and every earlier pick succeeded |
| Selection.SelectLayersFull | main.go:42-53 | a successful result has one layer per directory exactly when no picked entry is a directory, and then layer k is the file picked in directory k |
| Selection.SelectLayersSkipsDirectories | main.go:42-53 | a successful call returns one layer per directory exactly when no picked entry is a subdirectory |
| Selection.SelectLayersLast | main.go:30-62 | when the earlier directories and the last pick succeed, the result is the earlier layers followed by the last pick's layer, if any |
| Selection.SelectLayersAppend | main.go:30-62 | the walk over two successful runs of directories returns the first run's layers followed by the second's, so layers come back in directory order |
| Selection.SelectLayersSkipsDirectory | main.go:42-44 | a directory whose pick is a subdirectory adds nothing and leaves the earlier result as it was |
| CacheKeys.Join | main.go:122 | `strings.Join`: `""` for no parts; otherwise every part once with one separator between neighbours, so the length is the parts' total plus one separator per gap |
| CacheKeys.CacheKey | main.go:117-124 | specification of `getCacheKey`: the layer names in slice order joined with `-` (its properties are `GetCacheKey` and the lemmas below) |
| CacheKeys.GetCacheKey | main.go:117-124 | the loop that fills the name array, then the join, yields `CacheKey(layers)` |
| CacheKeys.GetFromCache | main.go:126-129 | found exactly when the key is in the cache, and then the stored image |
| CacheKeys.SameNamesSameEntry | main.go:117-129 | equal ordered name sequences give equal keys and the same lookup result |
| CacheKeys.SingleLayerKey | main.go:122 | a single layer's key is its own name |
| CacheKeys.LookupAfterStore | main.go:189-193 | after storing under a key, a lookup with that key finds the stored image; any other key's lookup is unchanged |
| CacheKeys.JoinInjective | main.go:122 | joining non-empty part sequences whose parts avoid the separator is injective |
| CacheKeys.CacheKeyInjective | main.go:117-124 | for non-empty selections whose names contain no `-`, equal keys imply equal name sequences |
| CacheKeys.CacheKeyCollisions | main.go:122 | `["a-b","c"]` and `["a","b-c"]` both give key `a-b-c`; the empty selection and a single layer named `""` both give `""` |
| Environment.FirstIndex | main.go:82 | the index of the first occurrence of the character |
| Environment.EnvKey | main.go:82 | the key contains no `=`; an entry without `=` is its own key |
| Environment.EntrySplits | main.go:82 | an entry with `=` is its key, `=`, then its value (the split at the first `=`) |
| Environment.EntryJoin | main.go:82 | conversely, a key without `=` joined to any value by `=` splits back into that key and value |
| Environment.Lookup | main.go:83 | the lookup behind `os.Getenv` finds a value exactly when some entry has an `=` and the key |
| Environment.Getenv | main.go:83 | `os.Getenv`: `""` for the empty key, otherwise the looked-up value, `""` when the key is unset |
| Environment.DirKeyNonEmpty | main.go:81-83 | the key of an entry starting with `DIR` is never empty, so `getDirNames` always performs a real lookup |
| Environment.LookupFirst | main.go:83 | the lookup returns the value of the first entry with the key, whatever later entries say |
| Environment.Environ | main.go:80 | `os.Environ()` reports no more entries than the environment holds, each one of them and none empty |
| Environment.EnvironComplete | main.go:80 | conversely, every entry that is not empty and whose key no earlier entry set is reported, entries without `=` included |
| Environment.EnvironPrefix | main.go:80 | the raw order is kept: what is reported for the first n entries is a prefix of what is reported for all |
| Environment.EnvironValues | main.go:80-83 | every reported entry with `=` is the one `os.Getenv` answers with for its key |
| Environment.EnvironKeysUnique | main.go:80 | `os.Environ()` reports each key at most once |
| Environment.EnvironSameLookup | main.go:80-83 | dropping the repeated keys changes no lookup |
| Environment.HasPrefix | main.go:81 | `strings.HasPrefix`: the string is at least as long as the prefix and begins with it |
| Environment.DirEntries | main.go:80-81 | the entries kept are exactly those starting with `DIR` |
| Environment.DirEntriesSingleton | main.go:81 | a single entry is kept exactly when it starts with `DIR` |
| Environment.DirEntriesAppend | main.go:80-81 | the filter distributes over concatenation, so it keeps the entries in environment order |
| Environment.GetDirNames | main.go:78-87 | one result per `DIR` entry of `os.Environ()`, in its order: `os.Getenv` of the text before the entry's first `=` |
| Environment.DirNamesAreValues | main.go:78-87 | each directory name is the text after the first `=` of its `DIR` entry |
| Environment.DuplicateKeyListedOnce | main.go:78-87 | a `DIR` key set twice is reported once, so it names one directory, with the first value |
| Output.Digits | main.go:132 | non-empty, only decimal digits, no leading zero unless the number is 0 |
| Output.Decimal | main.go:132 | `%d` is non-empty and starts with `-` exactly for a negative integer |
| Output.OutputFileName | main.go:132 | the name ends in `.png` |
| Output.DigitsRoundTrip | main.go:132 | reading the printed digits back gives the number |
| Output.DecimalRoundTrip | main.go:132 | parsing `%d` of an integer gives the integer back, negatives included |
| Output.OutputFileNamesDistinct | main.go:131-133 | different indices are saved under different file names |
| Generation.Succ | main.go:180 | Go's `nftCount+1` on a 64-bit `int`: one more, except that the largest value wraps round to the smallest |
| Generation.Count | main.go:180 | specification of the loop bound, with `nftCount+1` wrapping at the largest int (its properties are `CountRange`) |
| Generation.CountRange | main.go:180 | the loop runs `nftCount` times for a positive count below the largest int, and not at all for a non-positive count or for the largest int |
| Generation.Notice | main.go:196 | the line `fmt.Println(key, "already exists")` prints, without its newline |
| Generation.Iterate | main.go:183-198 | a halted iteration leaves the state unchanged; it halts through `log.Fatal` or the `rand.Intn(0)` panic exactly when the read failed |
| Generation.IterateHit | main.go:189-197 | a hit leaves the cache and the saves unchanged and appends the notice `<key> already exists` |
| Generation.IterateMiss | main.go:189-205 | a miss on an empty selection panics in `combineLayers`; any other miss adds exactly the entry key to composite and starts one save for index i; the notices are unchanged |
| Generation.SelectAll | main.go:183 | the `readRandomLayersFromDirs(dirs)` call of each iteration, with that iteration's draws |
| Generation.Process | main.go:180-207 | specification of the generation loop: the iterations applied in order from an empty cache, a halted run staying halted (its properties are the lemmas below) |
| Generation.Finish | main.go:209-212 | specification of the closing wait as written: `nftCount` receives, one send per save started, blocking for good once the sends run out |
| Generation.HaltIsFinal | main.go:185 | a run that has stopped is not changed by later selections |
| Generation.Generate | main.go:174-212 | the loop and the wait compute `Finish(Process(selections), nftCount)` |
| Generation.DistinctCount | main.go:180-198 | the number of distinct keys is at most the number of iterations, with equality iff no key repeats |
| Generation.IterateExtends | main.go:190-198 | a live iteration keeps every earlier cache entry and every earlier save |
| Generation.LiveMeansSelected | main.go:183-186 | a run that is still live read successfully in every iteration |
| Generation.CacheBookkeeping | main.go:180-207 | the cache's keys are exactly the keys seen; one save per cache entry; every iteration either saved or printed a notice |
| Generation.SaveIndexOrder | main.go:180-205 | save indices strictly increase and lie in [1, number of iterations] |
| Generation.SavedIffFirstOccurrence | main.go:189-205 | a save is started for index k+1 exactly when the key of iteration k+1 did not occur earlier |
| Generation.CachedComposites | main.go:189-205 | for each first occurrence, the cache holds that iteration's composite under its key, and the save for that index writes it |
| Generation.CountsAgree | main.go:180-207 | saves started = cache entries = distinct keys; notices = iterations minus distinct keys |
| Generation.RepeatedKeyNotSaved | main.go:194-197 | a later iteration whose key matches an earlier one, even with different layer names, starts no save |
| Generation.SavedFileNamesDistinct | main.go:180-205 | no two saves write the same file |
| Generation.WaitDeadlocksOnDuplicate | main.go:202-212 | as written, with all reads successful, one send per distinct key is dispatched and the run deadlocks in the wait exactly when some key repeats, after receiving fewer than `nftCount` completions |
| Generation.CorrectedWaitCompletes | main.go:209-212 | with a wait of one receive per started save, every successful run completes, receiving once per distinct key |
| Generation.TwoMisses | main.go:189-205 | two iterations with different keys each add a cache entry and a save, for indices 1 and 2 |
| Generation.TwoHits | main.go:194-197 | two more iterations whose keys are cached only append the two notices |
| Generation.CyclingSelectionsRun | main.go:180-207 | four iterations cycling two distinct-key selections leave two cache entries, saves 1 and 2, and two notices |
| Generation.CyclingSelectionsDeadlock | main.go:180-212 | that run saves `1.png` and `2.png` only, and with `nftCount` = 4 the wait deadlocks after two receives |
| Generation.CyclingExampleKeys | main.go:117-124 | layers named A, X and B, Y have the distinct keys `A-X` and `B-Y` |
| Generation.CollidingSelectionsSavedOnce | main.go:189-205 | selecting `("a-b","c")` and then `("a","b-c")` saves only the first and prints `a-b-c already exists` |

## Left out

- PNG decoding and encoding, and `ioutil.ReadDir`, `os.Open`, `os.Create`, `os.Stat`,
  `os.MkdirAll` and `godotenv.Load`:
  - these are library I/O;
  - the file system is an input value, and decoding is a lookup in it;
  - `saveImageToFile` is modelled only by the file name it computes and the image it is given.
- `filepath.Join`: files are addressed by the pair (directory, name).
- `ioutil.ReadDir` returns entries sorted by name. The model takes each listing as given.
- `getNFTCount` (`strconv.Atoi`, `log.Fatal`), `getOutputDir` and `createOutputDir`:
  - these are configuration I/O and process exits;
  - `nftCount` is an input 64-bit integer; a non-positive value, or the largest one
    (where `nftCount+1` wraps), runs no iterations.
- `rand.Seed` and `rand.Intn`: the distribution and the clock reseeding cannot be
  verified. Each draw is an oracle value reduced modulo the listing length. An empty
  listing is the `rand.Intn(0)` panic.
- `handlePanic` and `recover`:
  - a panic is a halted run (`EmptyDirPanic`, `NoLayersPanic`) with no completions received;
  - the printed message is not modelled.
- The goroutines and the `done` channel are kept only as counts: saves started
  (`dispatched`) and completions received. Scheduling, completion order, and saves cut
  short by an early exit are not modelled.
- Pixel arithmetic of `draw.Draw` (`Src`, `Over`) is left uninterpreted. An image is its
  bounds plus the term of draw calls that produced it.
- The `image.Image` that `combineLayers` returns aliases its RGBA buffer. The model
  returns a value snapshot, and later aliasing is not captured.
- `log.Fatal` inside `saveImageToFile` (a failed `os.Create` or `png.Encode`) is not
  modelled: `Finish` takes every started save to send its completion.
- The environment is taken as it stands after `godotenv.Load`; how `os.Setenv`
  rewrites it is library code.
- The printed notices are modelled as strings. Other output (`log.Fatal` messages, the
  panic report) is not.

## Findings

| source | as written | input that shows it | evidently intended | confidence | as-written member | corrected member |
|---|---|---|---|---|---|---|
| main.go:210-212 | the wait loop receives `nftCount` times from `done`, but a send happens only for a cache miss (main.go:202-205), so any repeated key leaves a receive that no goroutine will satisfy ("all goroutines are asleep", a fatal deadlock) | `NFT_COUNT=4` with selections (A, X), (B, Y), (A, X), (B, Y): two saves start, the wait blocks on its third receive | wait for one completion per started save | high (not executed) | Generation.WaitDeadlocksOnDuplicate, Generation.CyclingSelectionsDeadlock | Generation.CorrectedWaitCompletes |
