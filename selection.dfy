/**
 * Layer selection (main.go, readRandomLayersFromDirs): one entry is picked per
 * directory, in directory order; a picked sub-directory adds no layer; any error
 * aborts the whole call. The random index is an input oracle and the file system
 * is a value.
 */
module Selection {
  import opened Wrappers
  import opened Images

  /** One entry of a directory listing, as ioutil.ReadDir reports it. */
  datatype Entry = Entry(name: string, isDir: bool)

  /** What png.Decode makes of a file's bytes. */
  datatype Content = Png(image: Image) | Undecodable

  /**
   * The part of the file system the generator reads. A directory missing from
   * listings cannot be read; a file is addressed by its directory and its name;
   * closeFails lists the files whose Close reports an error.
   */
  datatype FileSystem = FileSystem(
    listings: map<string, seq<Entry>>,
    files: map<(string, string), Content>,
    closeFails: set<(string, string)>)

  datatype ReadError =
    | ReadDirFailed(dir: string)                 // ioutil.ReadDir
    | NoEntries(dir: string)                     // rand.Intn(0) panics
    | OpenFailed(dir: string, name: string)      // os.Open
    | DecodeFailed(dir: string, name: string)    // png.Decode
    | CloseFailed(dir: string, name: string)     // f.Close

  /** rand.Intn(n): some index in [0, n), here chosen by the oracle value draw. */
  function PickIndex(draw: nat, n: nat): (k: nat)
    requires n > 0
    ensures k < n
    ensures draw < n ==> k == draw
  {
    draw % n
  }

  /** One iteration of the loop over dirs: no layer (a directory was picked), one layer, or an error. */
  function PickLayer(fs: FileSystem, dir: string, draw: nat): (r: Result<Option<Layer>, ReadError>)
    ensures r == Err(ReadDirFailed(dir)) <==> dir !in fs.listings
    ensures r == Err(NoEntries(dir)) <==> dir in fs.listings && |fs.listings[dir]| == 0
    ensures r.Ok? ==> dir in fs.listings && |fs.listings[dir]| > 0
    ensures dir in fs.listings && |fs.listings[dir]| > 0 ==>
              var entry := fs.listings[dir][PickIndex(draw, |fs.listings[dir]|)];
              var path := (dir, entry.name);
              && (entry.isDir <==> r == Ok(None))
              && (!entry.isDir && path !in fs.files ==> r == Err(OpenFailed(dir, entry.name)))
              && (!entry.isDir && path in fs.files && fs.files[path].Undecodable? ==>
                    r == Err(DecodeFailed(dir, entry.name)))
              && (!entry.isDir && path in fs.files && fs.files[path].Png? ==>
                    r == if path in fs.closeFails then Err(CloseFailed(dir, entry.name))
                         else Ok(Some(Layer(entry.name, fs.files[path].image))))
  {
    if dir !in fs.listings then Err(ReadDirFailed(dir))
    else
      var files := fs.listings[dir];
      if |files| == 0 then Err(NoEntries(dir))
      else
        var file := files[PickIndex(draw, |files|)];
        if file.isDir then Ok(None)
        else if (dir, file.name) !in fs.files then Err(OpenFailed(dir, file.name))
        else match fs.files[(dir, file.name)]
          case Undecodable => Err(DecodeFailed(dir, file.name))
          case Png(img) =>
            if (dir, file.name) in fs.closeFails then Err(CloseFailed(dir, file.name))
            else Ok(Some(Layer(file.name, img)))
  }

  /** The result of readRandomLayersFromDirs over the first |dirs| directories. */
  function SelectLayers(fs: FileSystem, dirs: seq<string>, draws: seq<nat>): Result<seq<Layer>, ReadError>
    requires |draws| == |dirs|
    decreases |dirs|
  {
    if |dirs| == 0 then Ok([])
    else
      var n := |dirs| - 1;
      match SelectLayers(fs, dirs[..n], draws[..n])
      case Err(e) => Err(e)
      case Ok(layers) =>
        match PickLayer(fs, dirs[n], draws[n])
        case Err(e) => Err(e)
        case Ok(None) => Ok(layers)
        case Ok(Some(layer)) => Ok(layers + [layer])
  }

  lemma {:induction false} ErrorIsFinal(fs: FileSystem, dirs: seq<string>, draws: seq<nat>, n: nat)
    requires |draws| == |dirs| && n <= |dirs|
    requires SelectLayers(fs, dirs[..n], draws[..n]).Err?
    ensures SelectLayers(fs, dirs, draws) == SelectLayers(fs, dirs[..n], draws[..n])
    decreases |dirs| - n
  {
    if n < |dirs| {
      var m := |dirs| - 1;
      assert dirs[..m][..n] == dirs[..n] && draws[..m][..n] == draws[..n];
      ErrorIsFinal(fs, dirs[..m], draws[..m], n);
    } else {
      assert dirs[..n] == dirs && draws[..n] == draws;
    }
  }

  /** readRandomLayersFromDirs */
  method ReadRandomLayersFromDirs(fs: FileSystem, dirs: seq<string>, draws: seq<nat>)
    returns (r: Result<seq<Layer>, ReadError>)
    requires |draws| == |dirs|
    ensures r == SelectLayers(fs, dirs, draws)
  {
    var layers: seq<Layer> := [];
    for k := 0 to |dirs|
      invariant SelectLayers(fs, dirs[..k], draws[..k]) == Ok(layers)
    {
      assert dirs[..k + 1][..k] == dirs[..k] && draws[..k + 1][..k] == draws[..k];
      var dir := dirs[k];
      if dir !in fs.listings {
        r := Err(ReadDirFailed(dir));
        ErrorIsFinal(fs, dirs, draws, k + 1);
        return;
      }
      var files := fs.listings[dir];
      if |files| == 0 {
        r := Err(NoEntries(dir));
        ErrorIsFinal(fs, dirs, draws, k + 1);
        return;
      }
      var file := files[PickIndex(draws[k], |files|)];
      if !file.isDir {
        var path := (dir, file.name);
        if path !in fs.files {
          r := Err(OpenFailed(dir, file.name));
          ErrorIsFinal(fs, dirs, draws, k + 1);
          return;
        }
        match fs.files[path]
        case Undecodable =>
          r := Err(DecodeFailed(dir, file.name));
          ErrorIsFinal(fs, dirs, draws, k + 1);
          return;
        case Png(img) =>
          layers := layers + [Layer(file.name, img)];
        if path in fs.closeFails {
          r := Err(CloseFailed(dir, file.name));
          ErrorIsFinal(fs, dirs, draws, k + 1);
          return;
        }
      }
    }
    assert dirs[..|dirs|] == dirs && draws[..|draws|] == draws;
    r := Ok(layers);
  }

  /** At most one layer per directory. */
  lemma {:induction false} SelectLayersBound(fs: FileSystem, dirs: seq<string>, draws: seq<nat>)
    requires |draws| == |dirs|
    requires SelectLayers(fs, dirs, draws).Ok?
    ensures |SelectLayers(fs, dirs, draws).value| <= |dirs|
    decreases |dirs|
  {
    if |dirs| > 0 {
      var n := |dirs| - 1;
      SelectLayersBound(fs, dirs[..n], draws[..n]);
    }
  }

  /** The call succeeds exactly when the pick in every directory succeeds. */
  lemma {:induction false} SelectLayersOkIff(fs: FileSystem, dirs: seq<string>, draws: seq<nat>)
    requires |draws| == |dirs|
    ensures SelectLayers(fs, dirs, draws).Ok?
        <==> forall k :: 0 <= k < |dirs| ==> PickLayer(fs, dirs[k], draws[k]).Ok?
    decreases |dirs|
  {
    if |dirs| > 0 {
      var n := |dirs| - 1;
      SelectLayersOkIff(fs, dirs[..n], draws[..n]);
      assert forall k :: 0 <= k < n ==> dirs[..n][k] == dirs[k] && draws[..n][k] == draws[k];
    }
  }

  /** A failed call reports the error of the first directory whose pick fails. */
  lemma {:induction false} SelectLayersFirstError(fs: FileSystem, dirs: seq<string>, draws: seq<nat>)
    requires |draws| == |dirs|
    requires SelectLayers(fs, dirs, draws).Err?
    ensures exists k :: 0 <= k < |dirs|
              && PickLayer(fs, dirs[k], draws[k]) == Err(SelectLayers(fs, dirs, draws).error)
              && forall j :: 0 <= j < k ==> PickLayer(fs, dirs[j], draws[j]).Ok?
    decreases |dirs|
  {
    var n := |dirs| - 1;
    var e := SelectLayers(fs, dirs, draws).error;
    assert forall k :: 0 <= k < n ==> dirs[..n][k] == dirs[k] && draws[..n][k] == draws[k];
    if SelectLayers(fs, dirs[..n], draws[..n]).Err? {
      SelectLayersFirstError(fs, dirs[..n], draws[..n]);
      var k :| 0 <= k < n
              && PickLayer(fs, dirs[..n][k], draws[..n][k]) == Err(e)
              && forall j :: 0 <= j < k ==> PickLayer(fs, dirs[..n][j], draws[..n][j]).Ok?;
      assert PickLayer(fs, dirs[k], draws[k]) == Err(e);
    } else {
      SelectLayersOkIff(fs, dirs[..n], draws[..n]);
      assert PickLayer(fs, dirs[n], draws[n]) == Err(e);
    }
  }

  /**
   * On success the result has one layer per directory exactly when no picked entry
   * is a directory, and then the k-th layer is the file picked in the k-th directory.
   */
  lemma {:induction false} SelectLayersFull(fs: FileSystem, dirs: seq<string>, draws: seq<nat>)
    requires |draws| == |dirs|
    requires SelectLayers(fs, dirs, draws).Ok?
    ensures |SelectLayers(fs, dirs, draws).value| == |dirs|
        <==> forall k :: 0 <= k < |dirs| ==> PickLayer(fs, dirs[k], draws[k]) != Ok(None)
    ensures |SelectLayers(fs, dirs, draws).value| == |dirs| ==>
              forall k :: 0 <= k < |dirs| ==>
                PickLayer(fs, dirs[k], draws[k]) == Ok(Some(SelectLayers(fs, dirs, draws).value[k]))
    decreases |dirs|
  {
    if |dirs| > 0 {
      var n := |dirs| - 1;
      var layers := SelectLayers(fs, dirs[..n], draws[..n]).value;
      SelectLayersFull(fs, dirs[..n], draws[..n]);
      SelectLayersBound(fs, dirs[..n], draws[..n]);
      SelectLayersOkIff(fs, dirs, draws);
      assert forall k :: 0 <= k < n ==> dirs[..n][k] == dirs[k] && draws[..n][k] == draws[k];
    }
  }

  /** The entry picked in dir is a subdirectory. */
  predicate PicksDirectory(fs: FileSystem, dir: string, draw: nat)
  {
    dir in fs.listings && |fs.listings[dir]| > 0
    && fs.listings[dir][PickIndex(draw, |fs.listings[dir]|)].isDir
  }

  /** A successful walk has one layer per directory exactly when no pick is a subdirectory. */
  lemma SelectLayersSkipsDirectories(fs: FileSystem, dirs: seq<string>, draws: seq<nat>)
    requires |draws| == |dirs|
    requires SelectLayers(fs, dirs, draws).Ok?
    ensures |SelectLayers(fs, dirs, draws).value| == |dirs|
        <==> forall k :: 0 <= k < |dirs| ==> !PicksDirectory(fs, dirs[k], draws[k])
  {
    SelectLayersFull(fs, dirs, draws);
    SelectLayersOkIff(fs, dirs, draws);
  }

  /** The layers the pick in one directory contributes. */
  function Picked(pick: Option<Layer>): seq<Layer>
  {
    match pick
    case None => []
    case Some(layer) => [layer]
  }

  /** The last directory of a walk whose earlier part and last pick both succeed. */
  lemma SelectLayersLast(fs: FileSystem, dirs: seq<string>, draws: seq<nat>)
    requires |draws| == |dirs| > 0
    requires SelectLayers(fs, dirs[..|dirs| - 1], draws[..|dirs| - 1]).Ok?
    requires PickLayer(fs, dirs[|dirs| - 1], draws[|dirs| - 1]).Ok?
    ensures SelectLayers(fs, dirs, draws)
         == Ok(SelectLayers(fs, dirs[..|dirs| - 1], draws[..|dirs| - 1]).value
               + Picked(PickLayer(fs, dirs[|dirs| - 1], draws[|dirs| - 1]).value))
  {
    var n := |dirs| - 1;
    var layers := SelectLayers(fs, dirs[..n], draws[..n]).value;
    match PickLayer(fs, dirs[n], draws[n]).value
    case None =>
      assert layers + [] == layers;
    case Some(layer) =>
  }

  /**
   * The walk over a + b is the walk over a followed by the walk over b: the layers
   * come back in directory order.
   */
  lemma {:induction false} SelectLayersAppend(fs: FileSystem, a: seq<string>, da: seq<nat>, b: seq<string>, db: seq<nat>)
    requires |da| == |a| && |db| == |b|
    requires SelectLayers(fs, a, da).Ok? && SelectLayers(fs, b, db).Ok?
    ensures SelectLayers(fs, a + b, da + db)
         == Ok(SelectLayers(fs, a, da).value + SelectLayers(fs, b, db).value)
    decreases |b|
  {
    var front := SelectLayers(fs, a, da).value;
    if |b| == 0 {
      assert a + b == a && da + db == da;
      assert SelectLayers(fs, b, db).value == [];
      assert front + [] == front;
    } else {
      var n := |b| - 1;
      var b', db' := b[..n], db[..n];
      var c, dc := a + b, da + db;
      assert c[..|c| - 1] == a + b' && dc[..|c| - 1] == da + db';
      assert c[|c| - 1] == b[n] && dc[|c| - 1] == db[n];
      var pick := PickLayer(fs, b[n], db[n]);
      assert SelectLayers(fs, b', db').Ok? && pick.Ok?;
      SelectLayersAppend(fs, a, da, b', db');
      SelectLayersLast(fs, b, db);
      SelectLayersLast(fs, c, dc);
      var back := SelectLayers(fs, b', db').value;
      assert front + (back + Picked(pick.value)) == front + back + Picked(pick.value);
    }
  }

  /** A directory whose pick is a subdirectory adds nothing and leaves the earlier layers as they were. */
  lemma SelectLayersSkipsDirectory(fs: FileSystem, a: seq<string>, da: seq<nat>, d: string, w: nat)
    requires |da| == |a|
    requires PicksDirectory(fs, d, w)
    ensures SelectLayers(fs, a + [d], da + [w]) == SelectLayers(fs, a, da)
  {
    assert (a + [d])[..|a|] == a && (da + [w])[..|a|] == da;
  }
}
