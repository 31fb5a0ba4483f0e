/** The tile loader, TiffLoader: the sorted TIFF files of one well are the channel planes of one
    5-D tile of shape (t, c, z, y, x) = (1, number of files, 1, H, W). Reading TIFF files is done by
    two reader functions passed in: the header of a file (the shape of its first series) and the
    decoded first page of a file. */
module TiffLoading {
  import opened Results

  /** A decoded page: its rows of pixel values, top to bottom. */
  type Plane = seq<seq<int>>

  /** tifffile.TiffFile(path).series[0].shape; None where opening the file raises. */
  type HeaderReader = string -> Option<seq<nat>>

  /** tifffile.imread(path)[0]; None where reading raises. */
  type Decoder = string -> Option<Plane>

  /** numpy's shape of a 2-D plane. */
  function PlaneShape(p: Plane): (s: seq<nat>)
    ensures |s| == 2 && s[0] == |p|
  {
    [|p|, if |p| == 0 then 0 else |p[0]|]
  }

  /** The plane has exactly h rows of w pixels: it fits the (H, W) slot of a tile. */
  predicate Fits(p: Plane, h: nat, w: nat) {
    |p| == h && forall y :: 0 <= y < h ==> |p[y]| == w
  }

  /** The header gives a shape whose indices 1 and 2 exist (else the source's indexing raises and
      the loader falls back to decoding). */
  predicate HeaderUsable(d: Option<seq<nat>>) {
    d.Some? && |d.value| >= 3
  }

  // ---------------------------------------------------------------------------------------------
  // tile_shape

  /** tile_shape as the source writes it: the fallback returns the shape of the decoded plane,
      a pair, where the header branch returns the 5-tuple. It fails, naming the first file,
      exactly when neither the header nor the decoding works. */
  function TileShapeAsWritten(paths: seq<string>, header: HeaderReader, decode: Decoder): (r: Result<seq<nat>>)
    requires paths != []
    ensures r.Err? <==> !HeaderUsable(header(paths[0])) && decode(paths[0]).None?
    ensures r.Err? ==> r.error == TiffDecodeFailure(paths[0])
    ensures r.Ok? && HeaderUsable(header(paths[0])) ==> |r.value| == 5 && r.value[1] == |paths|
    ensures r.Ok? && !HeaderUsable(header(paths[0])) ==> |r.value| == 2
  {
    var d := header(paths[0]);
    if HeaderUsable(d) then Ok([1, |paths|, 1, d.value[1], d.value[2]])
    else
      match decode(paths[0])
      case None => Err(TiffDecodeFailure(paths[0]))
      case Some(p) => Ok(PlaneShape(p))
  }

  /** tile_shape with the fallback completed to the 5-tuple (1, k, 1, H, W) of the decoded plane.
      The shape is (1, k, 1, H, W) with k the number of paths; it fails only when neither the
      header nor the first file's decoding works, and then names the first file. H and W come
      from the header when it is usable and from the decoded first plane otherwise. */
  function TileShape(paths: seq<string>, header: HeaderReader, decode: Decoder): (r: Result<seq<nat>>)
    requires paths != []
    ensures r.Ok? ==> |r.value| == 5 && r.value[0] == 1 && r.value[1] == |paths| && r.value[2] == 1
    ensures r.Err? <==> !HeaderUsable(header(paths[0])) && decode(paths[0]).None?
    ensures r.Err? ==> r.error == TiffDecodeFailure(paths[0])
    ensures HeaderUsable(header(paths[0])) ==> r.Ok? && r.value[3..] == header(paths[0]).value[1..3]
    ensures !HeaderUsable(header(paths[0])) && decode(paths[0]).Some? ==>
              r.Ok? && r.value[3..] == PlaneShape(decode(paths[0]).value)
  {
    var d := header(paths[0]);
    if HeaderUsable(d) then Ok([1, |paths|, 1, d.value[1], d.value[2]])
    else
      match decode(paths[0])
      case None => Err(TiffDecodeFailure(paths[0]))
      case Some(p) => Ok([1, |paths|, 1] + PlaneShape(p))
  }

  /** Where the header is usable, the source's tile_shape and the completed one agree. */
  lemma TileShapeAgreesOnHeaderPath(paths: seq<string>, header: HeaderReader, decode: Decoder)
    requires paths != [] && HeaderUsable(header(paths[0]))
    ensures TileShapeAsWritten(paths, header, decode) == TileShape(paths, header, decode)
  {
  }

  /** The completed fallback is the source's fallback shape with (1, k, 1) put in front of it. */
  lemma TileShapeExtendsFallback(paths: seq<string>, header: HeaderReader, decode: Decoder)
    requires paths != [] && !HeaderUsable(header(paths[0])) && decode(paths[0]).Some?
    ensures TileShape(paths, header, decode).value ==
            [1, |paths|, 1] + TileShapeAsWritten(paths, header, decode).value
  {
  }

  /** A file whose header cannot be read but which decodes to a 2 x 3 plane: the source's
      tile_shape returns the pair (2, 3), which the five-name unpacking in parse_drogon_metadata
      cannot take apart; the completed shape is (1, 1, 1, 2, 3). */
  lemma FallbackShapeIsAPair(header: HeaderReader, decode: Decoder)
    requires header("plate_B03_1.tif") == None
    requires decode("plate_B03_1.tif") == Some([[0, 0, 0], [0, 0, 0]])
    ensures TileShapeAsWritten(["plate_B03_1.tif"], header, decode) == Ok([2, 3])
    ensures TileShape(["plate_B03_1.tif"], header, decode) == Ok([1, 1, 1, 2, 3])
  {
    var paths := ["plate_B03_1.tif"];
    assert paths[0] == "plate_B03_1.tif";
    assert PlaneShape(decode(paths[0]).value) == [2, 3];
    assert [1, 1, 1] + [2, 3] == [1, 1, 1, 2, 3];
  }

  // ---------------------------------------------------------------------------------------------
  // Reference definition of load().

  /** Each path decoded and checked against the (H, W) slot, in order; the first path that does
      not decode or does not fit is reported. */
  function PlanesFrom(paths: seq<string>, h: nat, w: nat, decode: Decoder): Result<seq<Plane>>
    decreases |paths|
  {
    if paths == [] then Ok([])
    else
      match decode(paths[0])
      case None => Err(TiffDecodeFailure(paths[0]))
      case Some(p) =>
        if !Fits(p, h, w) then Err(PlaneShapeMismatch(paths[0]))
        else
          match PlanesFrom(paths[1..], h, w, decode)
          case Err(e) => Err(e)
          case Ok(rest) => Ok([p] + rest)
  }

  /** The planes load() puts into the tile: the first file is decoded before the shape is asked
      for, the shape fixes the slot size (H, W), and every file's plane must fit it. */
  function LoadedPlanes(paths: seq<string>, header: HeaderReader, decode: Decoder): Result<seq<Plane>>
    requires paths != []
  {
    if decode(paths[0]).None? then Err(TiffDecodeFailure(paths[0]))
    else
      var s := TileShape(paths, header, decode).value;
      PlanesFrom(paths, s[3], s[4], decode)
  }

  /** load() as the source writes it: np.zeros takes the as-written tile_shape, so on the
      fallback path the array has only the two axes (H, W), and the write into [0, 0, 0, :, :]
      raises. */
  function LoadedPlanesAsWritten(paths: seq<string>, header: HeaderReader, decode: Decoder): Result<seq<Plane>>
    requires paths != []
  {
    if decode(paths[0]).None? then Err(TiffDecodeFailure(paths[0]))
    else
      var s := TileShapeAsWritten(paths, header, decode).value;
      if |s| != 5 then Err(TooManyIndices)
      else PlanesFrom(paths, s[3], s[4], decode)
  }

  /** The source's load() and the one over the completed tile_shape agree when the first file
      does not decode or its header is usable; when the header is unusable and the file decodes,
      the source's load() always fails, whatever the other files hold. */
  lemma LoadAsWrittenMeaning(paths: seq<string>, header: HeaderReader, decode: Decoder)
    requires paths != []
    ensures decode(paths[0]).None? ==>
              LoadedPlanesAsWritten(paths, header, decode) == LoadedPlanes(paths, header, decode) ==
              Err(TiffDecodeFailure(paths[0]))
    ensures HeaderUsable(header(paths[0])) ==>
              LoadedPlanesAsWritten(paths, header, decode) == LoadedPlanes(paths, header, decode)
    ensures !HeaderUsable(header(paths[0])) && decode(paths[0]).Some? ==>
              LoadedPlanesAsWritten(paths, header, decode) == Err(TooManyIndices)
  {
  }

  predicate AllFit(paths: seq<string>, h: nat, w: nat, decode: Decoder) {
    forall i :: 0 <= i < |paths| ==> decode(paths[i]).Some? && Fits(decode(paths[i]).value, h, w)
  }

  /** The planes are loaded exactly when every file decodes to a plane of the slot's size, and
      then plane i is the decoding of file i. */
  lemma {:induction false} PlanesFromMeaning(paths: seq<string>, h: nat, w: nat, decode: Decoder)
    ensures PlanesFrom(paths, h, w, decode).Ok? <==> AllFit(paths, h, w, decode)
    ensures PlanesFrom(paths, h, w, decode).Ok? ==>
              var planes := PlanesFrom(paths, h, w, decode).value;
              |planes| == |paths| && forall i :: 0 <= i < |paths| ==> planes[i] == decode(paths[i]).value
    decreases |paths|
  {
    if paths != [] {
      PlanesFromMeaning(paths[1..], h, w, decode);
      assert forall i :: 1 <= i < |paths| ==> paths[i] == paths[1..][i - 1];
    }
  }

  /** The error a file that does not give a fitting plane stops the load with. */
  function FailureFor(path: string, decode: Decoder): Error {
    if decode(path).None? then TiffDecodeFailure(path) else PlaneShapeMismatch(path)
  }

  /** File i is the first, in path order, that does not decode or does not fit, and `e` is its
      error. */
  predicate FirstFailureAt(paths: seq<string>, i: int, h: nat, w: nat, decode: Decoder, e: Error) {
    0 <= i < |paths| && AllFit(paths[..i], h, w, decode) && e == FailureFor(paths[i], decode) &&
    !(decode(paths[i]).Some? && Fits(decode(paths[i]).value, h, w))
  }

  /** A failed load names the first file, in path order, that does not decode or does not fit. */
  lemma {:induction false} PlanesFromFirstFailure(paths: seq<string>, h: nat, w: nat, decode: Decoder)
    requires PlanesFrom(paths, h, w, decode).Err?
    ensures exists i :: FirstFailureAt(paths, i, h, w, decode, PlanesFrom(paths, h, w, decode).error)
    decreases |paths|
  {
    var p := decode(paths[0]);
    if p.Some? && Fits(p.value, h, w) {
      PlanesFromFirstFailure(paths[1..], h, w, decode);
      var i :| FirstFailureAt(paths[1..], i, h, w, decode, PlanesFrom(paths[1..], h, w, decode).error);
      FirstFailureShifts(paths, i, h, w, decode, PlanesFrom(paths, h, w, decode).error);
    } else {
      assert paths[..0] == [];
      assert FirstFailureAt(paths, 0, h, w, decode, PlanesFrom(paths, h, w, decode).error);
    }
  }

  lemma FirstFailureShifts(paths: seq<string>, i: int, h: nat, w: nat, decode: Decoder, e: Error)
    requires paths != [] && decode(paths[0]).Some? && Fits(decode(paths[0]).value, h, w)
    requires FirstFailureAt(paths[1..], i, h, w, decode, e)
    ensures FirstFailureAt(paths, i + 1, h, w, decode, e)
  {
    assert paths[1..][i] == paths[i + 1];
    assert paths[..i + 1] == [paths[0]] + paths[1..][..i];
  }

  /** Channel slot i of the tile holds the plane p, which has the tile's height and width. */
  ghost predicate SlotHolds(tile: array5<int>, i: nat, p: Plane)
    reads tile
    requires tile.Length0 == 1 && tile.Length2 == 1 && i < tile.Length1
  {
    Fits(p, tile.Length3, tile.Length4) &&
    forall y, x :: 0 <= y < tile.Length3 && 0 <= x < tile.Length4 ==> tile[0, i, 0, y, x] == p[y][x]
  }

  /** The first |planes| channel slots of the tile hold the planes. */
  ghost predicate SlotsHold(tile: array5<int>, planes: seq<Plane>)
    reads tile
  {
    tile.Length0 == 1 && tile.Length2 == 1 && |planes| <= tile.Length1 &&
    forall k :: 0 <= k < |planes| ==> SlotHolds(tile, k, planes[k])
  }

  /** The tile has the 5-D shape `shape` and its channel slots hold the planes, one per slot. */
  ghost predicate TileHolds(tile: array5<int>, shape: seq<nat>, planes: seq<Plane>)
    reads tile
  {
    |shape| == 5 &&
    tile.Length0 == shape[0] && tile.Length1 == shape[1] && tile.Length2 == shape[2] &&
    tile.Length3 == shape[3] && tile.Length4 == shape[4] &&
    tile.Length1 == |planes| && SlotsHold(tile, planes)
  }

  // ---------------------------------------------------------------------------------------------
  // The loader.

  class TiffLoader {
    /** The files of the tile's channels, in channel order. */
    const tiffPaths: seq<string>

    ghost predicate Valid() {
      tiffPaths != []
    }

    constructor (paths: seq<string>)
      requires paths != []
      ensures tiffPaths == paths && Valid()
    {
      tiffPaths := paths;
    }

    /** load(): decode the first file, allocate a zero tile of tile_shape, and write the plane
        of file i into channel slot i, [0, i, 0, :, :]. */
    method Load(header: HeaderReader, decode: Decoder) returns (r: Result<array5<int>>)
      requires Valid()
      ensures r.Ok? <==> LoadedPlanes(tiffPaths, header, decode).Ok?
      ensures r.Err? ==> r.error == LoadedPlanes(tiffPaths, header, decode).error
      ensures r.Ok? ==> fresh(r.value) &&
                        TileHolds(r.value, TileShape(tiffPaths, header, decode).value,
                                  LoadedPlanes(tiffPaths, header, decode).value)
    {
      var first := decode(tiffPaths[0]);
      if first.None? {
        return Err(TiffDecodeFailure(tiffPaths[0]));
      }
      var shape := TileShape(tiffPaths, header, decode).value;
      var h, w := shape[3], shape[4];
      var tile := new int[1, |tiffPaths|, 1, h, w]((t, c, z, y, x) => 0);
      ghost var written: seq<Plane> := [];
      assert tiffPaths[0..] == tiffPaths;
      assert forall rest: seq<Plane> :: written + rest == rest;
      var i := 0;
      while i < |tiffPaths|
        invariant 0 <= i <= |tiffPaths| && |written| == i
        invariant tile.Length0 == 1 && tile.Length1 == |tiffPaths| && tile.Length2 == 1
        invariant tile.Length3 == h && tile.Length4 == w
        invariant SlotsHold(tile, written)
        invariant LoadedPlanes(tiffPaths, header, decode) ==
                  match PlanesFrom(tiffPaths[i..], h, w, decode)
                  case Err(e) => Err(e)
                  case Ok(rest) => Ok(written + rest)
      {
        var plane := decode(tiffPaths[i]);
        assert tiffPaths[i..][0] == tiffPaths[i] && tiffPaths[i..][1..] == tiffPaths[i + 1..];
        if plane.None? {
          return Err(TiffDecodeFailure(tiffPaths[i]));
        }
        if !Fits(plane.value, h, w) {
          return Err(PlaneShapeMismatch(tiffPaths[i]));
        }
        ghost var before := written;
        WritePlane(tile, i, plane.value, written);
        written := written + [plane.value];
        assert forall rest: seq<Plane> :: before + ([plane.value] + rest) == written + rest;
        i := i + 1;
      }
      assert tiffPaths[i..] == [];
      assert written + [] == written;
      return Ok(tile);
    }
  }

  /** The slice assignment tile[0, i, 0, :, :] = p: slot i becomes p, every other slot is kept;
      so when the slots before i hold `planes`, the slots up to i hold `planes + [p]`. */
  method WritePlane(tile: array5<int>, i: nat, p: Plane, ghost planes: seq<Plane>)
    requires tile.Length0 == 1 && tile.Length2 == 1 && i < tile.Length1
    requires Fits(p, tile.Length3, tile.Length4)
    requires |planes| == i && SlotsHold(tile, planes)
    modifies tile
    ensures forall y, x :: 0 <= y < tile.Length3 && 0 <= x < tile.Length4 ==> tile[0, i, 0, y, x] == p[y][x]
    ensures forall k, y, x :: 0 <= k < tile.Length1 && k != i && 0 <= y < tile.Length3 && 0 <= x < tile.Length4 ==>
              tile[0, k, 0, y, x] == old(tile[0, k, 0, y, x])
    ensures SlotsHold(tile, planes + [p])
  {
    var y := 0;
    while y < tile.Length3
      invariant 0 <= y <= tile.Length3
      invariant forall y', x :: 0 <= y' < y && 0 <= x < tile.Length4 ==> tile[0, i, 0, y', x] == p[y'][x]
      invariant forall k, y', x :: 0 <= k < tile.Length1 && k != i && 0 <= y' < tile.Length3 && 0 <= x < tile.Length4 ==>
                  tile[0, k, 0, y', x] == old(tile[0, k, 0, y', x])
    {
      var x := 0;
      while x < tile.Length4
        invariant 0 <= x <= tile.Length4
        invariant forall y', x' :: 0 <= y' < y && 0 <= x' < tile.Length4 ==> tile[0, i, 0, y', x'] == p[y'][x']
        invariant forall x' :: 0 <= x' < x ==> tile[0, i, 0, y, x'] == p[y][x']
        invariant forall k, y', x' :: 0 <= k < tile.Length1 && k != i && 0 <= y' < tile.Length3 && 0 <= x' < tile.Length4 ==>
                    tile[0, k, 0, y', x'] == old(tile[0, k, 0, y', x'])
      {
        tile[0, i, 0, y, x] := p[y][x];
        x := x + 1;
      }
      y := y + 1;
    }
    var all := planes + [p];
    forall k | 0 <= k < |all|
      ensures SlotHolds(tile, k, all[k])
    {
      if k < i {
        assert all[k] == planes[k];
        assert old(SlotHolds(tile, k, planes[k]));
      } else {
        assert all[k] == p;
      }
    }
  }

  /** The loader's factory: TiffLoader(paths) raises on an empty list. */
  method NewTiffLoader(paths: seq<string>) returns (r: Result<TiffLoader>)
    ensures r.Err? <==> paths == []
    ensures r.Err? ==> r.error == NoTiffPaths
    ensures r.Ok? ==> fresh(r.value) && r.value.tiffPaths == paths && r.value.Valid()
  {
    if paths == [] {
      return Err(NoTiffPaths);
    }
    var loader := new TiffLoader(paths);
    return Ok(loader);
  }

  /** A successful load fills one channel slot per file, each with that file's decoded plane. */
  lemma LoadedPlanesMeaning(paths: seq<string>, header: HeaderReader, decode: Decoder)
    requires paths != [] && decode(paths[0]).Some?
    ensures var s := TileShape(paths, header, decode).value;
            |s| == 5 && s[1] == |paths| &&
            (LoadedPlanes(paths, header, decode).Ok? <==> AllFit(paths, s[3], s[4], decode)) &&
            (LoadedPlanes(paths, header, decode).Ok? ==>
               var planes := LoadedPlanes(paths, header, decode).value;
               |planes| == |paths| && forall i :: 0 <= i < |paths| ==> planes[i] == decode(paths[i]).value)
  {
    var s := TileShape(paths, header, decode).value;
    PlanesFromMeaning(paths, s[3], s[4], decode);
  }
}
