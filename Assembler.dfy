/** The acquisition parser, parse_drogon_metadata: the channel map, the TIFF groups of the
    TIF_OVR_MIP folder and the cell-line layout are read, and every layout well (in layout order)
    that has TIFF files becomes one tiled image holding one tile, whose loader reads the well's
    files as its channel planes. The tiled-image types of the converter library are plain records
    here; a tile's loader is its type parameter, TiffLoader in the images the loop builds and the
    loader's path list in the reference definition. */
module Assembler {
  import opened Results
  import opened Text
  import opened CellLineLayout
  import opened TiffFiles
  import opened TiffLoading
  import opened ChannelsMeta

  datatype Point = Point(x: real, y: real, z: real, c: int, t: int)
  datatype Vector = Vector(x: real, y: real, z: real, c: int, t: int)
  datatype PixelSize = PixelSize(x: real, y: real, z: real)
  datatype TileSpace = RealSpace | PixelSpace

  datatype Tile<L> = Tile(topLeft: Point, diagonal: Vector, pixelSize: PixelSize, space: TileSpace, dataLoader: L)

  /** PlatePathBuilder's arguments. */
  datatype PlatePath = PlatePath(plateName: string, row: string, column: int, acquisitionId: int)

  datatype TiledImage<L> = TiledImage(name: string, pathBuilder: PlatePath, channelNames: seq<string>,
                                      attributes: seq<(string, string)>, tiles: seq<Tile<L>>)

  /** The two versions: _parser.py (named yaml file, strict zip, extents scaled by the pixel size,
      attributes) and parser.py (globbed yaml file, plain zip, extents in pixels). */
  datatype Variant =
    | Physical(yamlName: string, pixelSizeUm: real, timePoint: int)
    | Pixel

  datatype Config = Config(variant: Variant, plateName: string, acquisitionId: int)

  /** What the parser reads: the acquisition folder's entry names, every entry name of its
      TIF_OVR_MIP sub-folder in listing order (find_tiff_files globs the *.tif ones out of
      them), and the cell-line table. */
  datatype Acquisition = Acquisition(entries: seq<string>, tiffNames: seq<string>, table: LayoutTable)

  const Origin := Point(0.0, 0.0, 0.0, 0, 0)

  /** The fixed pixel size of the pixel-space version, in micrometres. */
  const PixelVersionPixelSize: real := 0.325

  /** The tile of a well whose tile shape has c channels of h x w pixels. */
  function TileFor<L>(variant: Variant, c: nat, h: nat, w: nat, loader: L): Tile<L> {
    match variant
    case Physical(_, ps, _) =>
      Tile(Origin, Vector(w as real * ps, h as real * ps, 1.0, c, 1), PixelSize(ps, ps, 1.0), RealSpace, loader)
    case Pixel =>
      Tile(Origin, Vector(w as real, h as real, 1.0, c, 1),
           PixelSize(PixelVersionPixelSize, PixelVersionPixelSize, 1.0), PixelSpace, loader)
  }

  function Attributes(variant: Variant, entry: LayoutEntry): seq<(string, string)> {
    match variant
    case Physical(_, _, tp) => [("cell_line", entry.cellLine), ("time_point", IntToString(tp))]
    case Pixel => []
  }

  function MakeImage<L>(cfg: Config, well: string, entry: LayoutEntry, column: int, shape: seq<nat>,
                        channels: ChannelMap, loader: L): TiledImage<L>
    requires |shape| == 5
  {
    TiledImage(well, PlatePath(cfg.plateName, entry.row, column, cfg.acquisitionId), ChannelNames(channels),
               Attributes(cfg.variant, entry), [TileFor(cfg.variant, shape[1], shape[3], shape[4], loader)])
  }

  // ---------------------------------------------------------------------------------------------
  // Reference definition.

  /** One pass of the loop body for a well that has files: the loader is made (it rejects an
      empty list), int() reads the entry's column, and the tile shape is asked for; the body
      fails on those checks, in that order. The image is named after its well, builds its plate
      path from the entry's row and the int() of the entry's column, carries the channel names
      in YAML order and exactly one tile at the origin whose loader reads the well's files and
      whose channel extent is the number of those files, with z and t extents 1 (the attributes
      and the x/y extents, which follow the version, are stated by ImageForExtents). */
  function ImageFor(cfg: Config, well: string, entry: LayoutEntry, files: seq<string>, channels: ChannelMap,
                    header: HeaderReader, decode: Decoder): (r: Result<TiledImage<seq<string>>>)
    ensures (files == [] ==> r == Err(NoTiffPaths)) &&
            (files != [] && ParseInt(entry.column).None? ==> r == Err(InvalidColumn(entry.column))) &&
            (files != [] && ParseInt(entry.column).Some? && TileShape(files, header, decode).Err? ==>
               r == Err(TiffDecodeFailure(files[0]))) &&
            (files != [] && ParseInt(entry.column).Some? && TileShape(files, header, decode).Ok? ==> r.Ok?)
    ensures r.Ok? ==>
              var image := r.value;
              var shape := TileShape(files, header, decode).value;
              |shape| == 5 && |image.tiles| == 1 &&
              image.name == well &&
              image.pathBuilder == PlatePath(cfg.plateName, entry.row, ParseInt(entry.column).value, cfg.acquisitionId) &&
              image.channelNames == ChannelNames(channels) &&
              image.tiles[0].topLeft == Origin &&
              image.tiles[0].dataLoader == files &&
              image.tiles[0].diagonal.c == |files| &&
              image.tiles[0].diagonal.z == 1.0 && image.tiles[0].diagonal.t == 1
  {
    if files == [] then Err(NoTiffPaths)
    else
      match ParseInt(entry.column)
      case None => Err(InvalidColumn(entry.column))
      case Some(column) =>
        match TileShape(files, header, decode)
        case Err(e) => Err(e)
        case Ok(shape) => Ok(MakeImage(cfg, well, entry, column, shape, channels, files))
  }

  /** The version-dependent part of an image: _parser.py scales the pixel width and height of
      the tile shape by the pixel size and attaches cell_line and time_point; parser.py keeps the
      extents in pixels, with the fixed pixel size, and attaches nothing. */
  lemma ImageForExtents(cfg: Config, well: string, entry: LayoutEntry, files: seq<string>, channels: ChannelMap,
                        header: HeaderReader, decode: Decoder)
    requires ImageFor(cfg, well, entry, files, channels, header, decode).Ok?
    ensures var image := ImageFor(cfg, well, entry, files, channels, header, decode).value;
            var shape := TileShape(files, header, decode).value;
            |shape| == 5 &&
            match cfg.variant
            case Physical(_, ps, tp) =>
              image.attributes == [("cell_line", entry.cellLine), ("time_point", IntToString(tp))] &&
              image.tiles[0].diagonal.x == shape[4] as real * ps &&
              image.tiles[0].diagonal.y == shape[3] as real * ps &&
              image.tiles[0].pixelSize == PixelSize(ps, ps, 1.0) && image.tiles[0].space == RealSpace
            case Pixel =>
              image.attributes == [] &&
              image.tiles[0].diagonal.x == shape[4] as real &&
              image.tiles[0].diagonal.y == shape[3] as real &&
              image.tiles[0].pixelSize == PixelSize(0.325, 0.325, 1.0) && image.tiles[0].space == PixelSpace
  {
  }

  /** The loop body as the source writes it: the five-name unpacking of the as-written
      tile_shape raises when the shape is the fallback pair. */
  function ImageForAsWritten(cfg: Config, well: string, entry: LayoutEntry, files: seq<string>, channels: ChannelMap,
                             header: HeaderReader, decode: Decoder): Result<TiledImage<seq<string>>>
  {
    if files == [] then Err(NoTiffPaths)
    else
      match ParseInt(entry.column)
      case None => Err(InvalidColumn(entry.column))
      case Some(column) =>
        match TileShapeAsWritten(files, header, decode)
        case Err(e) => Err(e)
        case Ok(shape) =>
          if |shape| != 5 then Err(ShapeNotUnpackable)
          else Ok(MakeImage(cfg, well, entry, column, shape, channels, files))
  }

  /** The source's loop body and the one over the completed tile_shape agree except on a well
      whose first file has an unusable header but decodes: there the source raises at the
      unpacking and the completed body makes an image. */
  lemma ImageForAsWrittenMeaning(cfg: Config, well: string, entry: LayoutEntry, files: seq<string>, channels: ChannelMap,
                                 header: HeaderReader, decode: Decoder)
    ensures files == [] || HeaderUsable(header(files[0])) || decode(files[0]).None? ==>
              ImageForAsWritten(cfg, well, entry, files, channels, header, decode) ==
              ImageFor(cfg, well, entry, files, channels, header, decode)
    ensures files != [] && !HeaderUsable(header(files[0])) && decode(files[0]).Some? &&
            ParseInt(entry.column).Some? ==>
              ImageForAsWritten(cfg, well, entry, files, channels, header, decode) == Err(ShapeNotUnpackable) &&
              ImageFor(cfg, well, entry, files, channels, header, decode).Ok?
  {
    if files != [] {
      if HeaderUsable(header(files[0])) {
        TileShapeAgreesOnHeaderPath(files, header, decode);
      }
    }
  }

  /** The input of the finding: a single-file well B03 whose header cannot be read and whose
      file decodes to a 2 x 3 plane makes the source's loop body raise, while the completed one
      gives an image with a tile of 3 x 2 pixels and one channel. */
  lemma FallbackBreaksLoopBody(header: HeaderReader, decode: Decoder)
    requires header("plate_B03_1.tif") == None
    requires decode("plate_B03_1.tif") == Some([[0, 0, 0], [0, 0, 0]])
    ensures var entry := LayoutEntry("B", "03", "WT");
            var files := ["plate_B03_1.tif"];
            ImageForAsWritten(Config(Pixel, "plate", 0), "B03", entry, files, [], header, decode) == Err(ShapeNotUnpackable) &&
            ImageFor(Config(Pixel, "plate", 0), "B03", entry, files, [], header, decode).Ok? &&
            ImageFor(Config(Pixel, "plate", 0), "B03", entry, files, [], header, decode).value.tiles[0].diagonal ==
              Vector(3.0, 2.0, 1.0, 1, 1)
  {
    FallbackShapeIsAPair(header, decode);
    assert ParseInt("03") == Some(3) by {
      assert IsDigits("03") && "03"[..1] == "0";
    }
  }

  /** The image is for a well with files, has one tile whose loader reads exactly those files,
      and carries the channel names in YAML order. */
  predicate ImageOfGroups(image: TiledImage<seq<string>>, groups: TiffGroups, channels: ChannelMap) {
    image.name in groups && |image.tiles| == 1 && image.tiles[0].dataLoader == groups[image.name] &&
    image.channelNames == ChannelNames(channels)
  }

  function Prepend<T>(acc: seq<T>, r: Result<seq<T>>): Result<seq<T>> {
    match r
    case Err(e) => Err(e)
    case Ok(rest) => Ok(acc + rest)
  }

  /** The loop over the layout from its first remaining entry: wells without files are skipped.
      There are never more images than entries, and every image is for a well that has files,
      has one tile whose loader reads exactly those files, and has the YAML channel names. */
  function ImagesFrom(cfg: Config, layout: Layout, groups: TiffGroups, channels: ChannelMap,
                      header: HeaderReader, decode: Decoder): (r: Result<seq<TiledImage<seq<string>>>>)
    ensures r.Ok? ==> |r.value| <= |layout|
    ensures r.Ok? ==> forall k :: 0 <= k < |r.value| ==> ImageOfGroups(r.value[k], groups, channels)
    decreases |layout|
  {
    if layout == [] then Ok([])
    else if layout[0].0 !in groups then ImagesFrom(cfg, layout[1..], groups, channels, header, decode)
    else
      match ImageFor(cfg, layout[0].0, layout[0].1, groups[layout[0].0], channels, header, decode)
      case Err(e) => Err(e)
      case Ok(image) => Prepend([image], ImagesFrom(cfg, layout[1..], groups, channels, header, decode))
  }

  function ChannelsOf(variant: Variant, entries: seq<string>, read: YamlReader): Result<ChannelMap> {
    match variant
    case Physical(yamlName, _, _) => ChannelsMetaNamed(entries, yamlName, read)
    case Pixel => ChannelsMetaGlob(entries, read)
  }

  function ZipOf(variant: Variant): ZipMode {
    if variant.Physical? then Strict else Truncating
  }

  /** parse_drogon_metadata: channels, then TIFF groups, then layout, then the loop. The
      channel metadata is checked before the TIFF folder is looked at, and the TIFF folder before
      the layout; a result is returned only when all three were read, and every image in it is
      for a well of the TIFF groups, reads exactly that well's files and has the YAML channel
      names. */
  function DrogonMetadata(cfg: Config, acq: Acquisition, read: YamlReader, header: HeaderReader,
                          decode: Decoder): (r: Result<seq<TiledImage<seq<string>>>>)
    ensures ChannelsOf(cfg.variant, acq.entries, read).Err? ==>
              r == Err(ChannelsOf(cfg.variant, acq.entries, read).error)
    ensures ChannelsOf(cfg.variant, acq.entries, read).Ok? && TiffGroupsOf(acq.tiffNames).Err? ==>
              r == Err(TiffGroupsOf(acq.tiffNames).error)
    ensures r.Ok? ==>
              ChannelsOf(cfg.variant, acq.entries, read).Ok? && TiffGroupsOf(acq.tiffNames).Ok? &&
              LayoutOf(acq.table, ZipOf(cfg.variant)).Ok? &&
              forall k :: 0 <= k < |r.value| ==>
                ImageOfGroups(r.value[k], TiffGroupsOf(acq.tiffNames).value, ChannelsOf(cfg.variant, acq.entries, read).value)
  {
    match ChannelsOf(cfg.variant, acq.entries, read)
    case Err(e) => Err(e)
    case Ok(channels) =>
      match TiffGroupsOf(acq.tiffNames)
      case Err(e) => Err(e)
      case Ok(groups) =>
        match LayoutOf(acq.table, ZipOf(cfg.variant))
        case Err(e) => Err(e)
        case Ok(layout) => ImagesFrom(cfg, layout, groups, channels, header, decode)
  }

  // ---------------------------------------------------------------------------------------------
  // The source's loop.

  /** An image as a value: each tile's loader replaced by the loader's path list. */
  function DescribeImage(image: TiledImage<TiffLoader>): TiledImage<seq<string>> {
    TiledImage(image.name, image.pathBuilder, image.channelNames, image.attributes,
               seq(|image.tiles|, k requires 0 <= k < |image.tiles| =>
                 var t := image.tiles[k];
                 Tile(t.topLeft, t.diagonal, t.pixelSize, t.space, t.dataLoader.tiffPaths)))
  }

  function Describe(images: seq<TiledImage<TiffLoader>>): seq<TiledImage<seq<string>>> {
    seq(|images|, i requires 0 <= i < |images| => DescribeImage(images[i]))
  }

  method AssembleImages(cfg: Config, layout: Layout, groups: TiffGroups, channels: ChannelMap,
                        header: HeaderReader, decode: Decoder) returns (r: Result<seq<TiledImage<TiffLoader>>>)
    ensures r.Ok? <==> ImagesFrom(cfg, layout, groups, channels, header, decode).Ok?
    ensures r.Err? ==> r.error == ImagesFrom(cfg, layout, groups, channels, header, decode).error
    ensures r.Ok? ==> Describe(r.value) == ImagesFrom(cfg, layout, groups, channels, header, decode).value
  {
    var images: seq<TiledImage<TiffLoader>> := [];
    assert Describe(images) == [] && layout[0..] == layout;
    assert forall rest: seq<TiledImage<seq<string>>> :: [] + rest == rest;
    var i := 0;
    while i < |layout|
      invariant 0 <= i <= |layout|
      invariant Prepend(Describe(images), ImagesFrom(cfg, layout[i..], groups, channels, header, decode)) ==
                ImagesFrom(cfg, layout, groups, channels, header, decode)
    {
      var well, info := layout[i].0, layout[i].1;
      assert layout[i..][0] == layout[i] && layout[i..][1..] == layout[i + 1..];
      if well !in groups {
        i := i + 1;
        continue;
      }
      var made := NewTiffLoader(groups[well]);
      if made.Err? {
        return Err(made.error);
      }
      var loader := made.value;
      var column := ParseInt(info.column);
      if column.None? {
        return Err(InvalidColumn(info.column));
      }
      var shape := TileShape(loader.tiffPaths, header, decode);
      if shape.Err? {
        return Err(shape.error);
      }
      var image := MakeImage(cfg, well, info, column.value, shape.value, channels, loader);
      assert DescribeImage(image) == MakeImage(cfg, well, info, column.value, shape.value, channels, groups[well]);
      assert Describe(images + [image]) == Describe(images) + [DescribeImage(image)];
      assert forall rest: seq<TiledImage<seq<string>>> ::
        Describe(images) + ([DescribeImage(image)] + rest) == Describe(images + [image]) + rest;
      images := images + [image];
      i := i + 1;
    }
    assert layout[i..] == [];
    assert Describe(images) + [] == Describe(images);
    return Ok(images);
  }

  method ParseDrogonMetadata(cfg: Config, acq: Acquisition, read: YamlReader, header: HeaderReader, decode: Decoder)
    returns (r: Result<seq<TiledImage<TiffLoader>>>)
    ensures r.Ok? <==> DrogonMetadata(cfg, acq, read, header, decode).Ok?
    ensures r.Err? ==> r.error == DrogonMetadata(cfg, acq, read, header, decode).error
    ensures r.Ok? ==> Describe(r.value) == DrogonMetadata(cfg, acq, read, header, decode).value
  {
    var channels := ChannelsOf(cfg.variant, acq.entries, read);
    if channels.Err? {
      return Err(channels.error);
    }
    var groups := FindTiffFiles(acq.tiffNames);
    if groups.Err? {
      return Err(groups.error);
    }
    var layout := LoadCellLineLayout(acq.table, ZipOf(cfg.variant));
    if layout.Err? {
      return Err(layout.error);
    }
    r := AssembleImages(cfg, layout.value, groups.value, channels.value, header, decode);
  }

  // ---------------------------------------------------------------------------------------------
  // What the result is.

  /** The layout entries whose well has TIFF files, in layout order. */
  function Joined(layout: Layout, groups: TiffGroups): Layout
    decreases |layout|
  {
    if layout == [] then []
    else (if layout[0].0 in groups then [layout[0]] else []) + Joined(layout[1..], groups)
  }

  /** a is b with some elements left out. */
  predicate IsSubsequence<T(==)>(a: seq<T>, b: seq<T>)
    decreases |b|
  {
    if a == [] then true
    else if b == [] then false
    else if a[0] == b[0] then IsSubsequence(a[1..], b[1..])
    else IsSubsequence(a, b[1..])
  }

  /** The joined entries are exactly the layout entries whose well has files, in layout order. */
  lemma {:induction false} JoinedMembers(layout: Layout, groups: TiffGroups)
    ensures forall e :: e in Joined(layout, groups) <==> e in layout && e.0 in groups
    ensures IsSubsequence(Joined(layout, groups), layout)
    decreases |layout|
  {
    if layout != [] {
      JoinedMembers(layout[1..], groups);
      assert layout == [layout[0]] + layout[1..];
      var rest := Joined(layout[1..], groups);
      if layout[0].0 in groups {
        assert ([layout[0]] + rest)[1..] == rest;
      } else if rest != [] {
        assert Joined(layout, groups) == rest;
        assert rest[0] in rest;
        assert rest[0] != layout[0];
      }
    }
  }

  /** Distinct layout wells stay distinct after the join. */
  lemma {:induction false} JoinedDistinct(layout: Layout, groups: TiffGroups)
    requires DistinctWells(layout)
    ensures DistinctWells(Joined(layout, groups))
    decreases |layout|
  {
    if layout != [] {
      DistinctTail(layout);
      JoinedDistinct(layout[1..], groups);
      var rest := Joined(layout[1..], groups);
      if layout[0].0 in groups {
        JoinedMembers(layout[1..], groups);
        forall j | 0 <= j < |rest| ensures rest[j].0 != layout[0].0 {
          assert rest[j] in layout[1..];
          var m :| 0 <= m < |layout[1..]| && layout[1..][m] == rest[j];
          assert layout[m + 1] == rest[j];
        }
        DistinctCons(layout[0], rest);
      }
    }
  }

  lemma DistinctTail(layout: Layout)
    requires layout != [] && DistinctWells(layout)
    ensures DistinctWells(layout[1..])
  {
    assert forall i :: 0 <= i < |layout| - 1 ==> layout[1..][i] == layout[i + 1];
  }

  lemma DistinctCons(e: (string, LayoutEntry), rest: Layout)
    requires DistinctWells(rest) && forall j :: 0 <= j < |rest| ==> rest[j].0 != e.0
    ensures DistinctWells([e] + rest)
  {
    var all := [e] + rest;
    forall i, j | 0 <= i < j < |all| ensures all[i].0 != all[j].0 {
      assert all[j] == rest[j - 1];
      if i > 0 {
        assert all[i] == rest[i - 1];
      }
    }
  }

  /** The loop body for one joined entry. */
  function BodyFor(cfg: Config, e: (string, LayoutEntry), groups: TiffGroups, channels: ChannelMap,
                   header: HeaderReader, decode: Decoder): Result<TiledImage<seq<string>>>
  {
    ImageFor(cfg, e.0, e.1, Bucket(groups, e.0), channels, header, decode)
  }

  predicate AllImagesMade(cfg: Config, joined: Layout, groups: TiffGroups, channels: ChannelMap,
                          header: HeaderReader, decode: Decoder)
  {
    forall k :: 0 <= k < |joined| ==> BodyFor(cfg, joined[k], groups, channels, header, decode).Ok?
  }

  predicate ImagesAreBodies(cfg: Config, images: seq<TiledImage<seq<string>>>, joined: Layout, groups: TiffGroups,
                            channels: ChannelMap, header: HeaderReader, decode: Decoder)
  {
    |images| == |joined| &&
    forall k :: 0 <= k < |joined| ==> BodyFor(cfg, joined[k], groups, channels, header, decode) == Ok(images[k])
  }

  /** The loop over layout succeeds exactly when the body succeeds for every joined entry, and
      then its images are the bodies' images, in order. */
  predicate LoopIsBodies(cfg: Config, layout: Layout, groups: TiffGroups, channels: ChannelMap,
                         header: HeaderReader, decode: Decoder)
  {
    var joined := Joined(layout, groups);
    var r := ImagesFrom(cfg, layout, groups, channels, header, decode);
    (r.Ok? <==> AllImagesMade(cfg, joined, groups, channels, header, decode)) &&
    (r.Ok? ==> ImagesAreBodies(cfg, r.value, joined, groups, channels, header, decode))
  }

  lemma AllMadeCons(cfg: Config, e: (string, LayoutEntry), rest: Layout, groups: TiffGroups, channels: ChannelMap,
                    header: HeaderReader, decode: Decoder)
    ensures AllImagesMade(cfg, [e] + rest, groups, channels, header, decode) <==>
            BodyFor(cfg, e, groups, channels, header, decode).Ok? &&
            AllImagesMade(cfg, rest, groups, channels, header, decode)
  {
    var joined := [e] + rest;
    if BodyFor(cfg, e, groups, channels, header, decode).Ok? &&
       AllImagesMade(cfg, rest, groups, channels, header, decode) {
      forall k | 0 <= k < |joined|
        ensures BodyFor(cfg, joined[k], groups, channels, header, decode).Ok?
      {
        if k > 0 {
          assert joined[k] == rest[k - 1];
        }
      }
    }
    if AllImagesMade(cfg, joined, groups, channels, header, decode) {
      assert joined[0] == e;
      forall k | 0 <= k < |rest|
        ensures BodyFor(cfg, rest[k], groups, channels, header, decode).Ok?
      {
        assert joined[k + 1] == rest[k];
      }
    }
  }

  lemma BodiesCons(cfg: Config, image: TiledImage<seq<string>>, images: seq<TiledImage<seq<string>>>,
                   e: (string, LayoutEntry), rest: Layout, groups: TiffGroups, channels: ChannelMap,
                   header: HeaderReader, decode: Decoder)
    requires BodyFor(cfg, e, groups, channels, header, decode) == Ok(image)
    requires ImagesAreBodies(cfg, images, rest, groups, channels, header, decode)
    ensures ImagesAreBodies(cfg, [image] + images, [e] + rest, groups, channels, header, decode)
  {
    var joined := [e] + rest;
    var all := [image] + images;
    forall k | 0 <= k < |joined|
      ensures BodyFor(cfg, joined[k], groups, channels, header, decode) == Ok(all[k])
    {
      if k > 0 {
        assert joined[k] == rest[k - 1] && all[k] == images[k - 1];
      }
    }
  }

  /** One step of the loop over an entry whose well has files. */
  lemma LoopStep(cfg: Config, layout: Layout, groups: TiffGroups, channels: ChannelMap,
                 header: HeaderReader, decode: Decoder)
    requires layout != [] && layout[0].0 in groups
    requires LoopIsBodies(cfg, layout[1..], groups, channels, header, decode)
    ensures LoopIsBodies(cfg, layout, groups, channels, header, decode)
  {
    var rest := Joined(layout[1..], groups);
    assert Joined(layout, groups) == [layout[0]] + rest;
    AllMadeCons(cfg, layout[0], rest, groups, channels, header, decode);
    var first := BodyFor(cfg, layout[0], groups, channels, header, decode);
    var tail := ImagesFrom(cfg, layout[1..], groups, channels, header, decode);
    if first.Ok? && tail.Ok? {
      BodiesCons(cfg, first.value, tail.value, layout[0], rest, groups, channels, header, decode);
    }
  }

  /** The loop succeeds exactly when the loop body succeeds for every joined entry, and then
      image k is the body's image for joined entry k. */
  lemma {:induction false} ImagesFromJoined(cfg: Config, layout: Layout, groups: TiffGroups, channels: ChannelMap,
                                            header: HeaderReader, decode: Decoder)
    ensures LoopIsBodies(cfg, layout, groups, channels, header, decode)
    decreases |layout|
  {
    if layout != [] {
      ImagesFromJoined(cfg, layout[1..], groups, channels, header, decode);
      if layout[0].0 in groups {
        LoopStep(cfg, layout, groups, channels, header, decode);
      } else {
        assert Joined(layout, groups) == Joined(layout[1..], groups);
      }
    }
  }

  /** The tile's channel extent is the number of planes its loader fills. */
  lemma TileChannelsArePlanes(cfg: Config, well: string, entry: LayoutEntry, files: seq<string>, channels: ChannelMap,
                              header: HeaderReader, decode: Decoder)
    requires ImageFor(cfg, well, entry, files, channels, header, decode).Ok?
    ensures files != []
    ensures LoadedPlanes(files, header, decode).Ok? ==>
              |LoadedPlanes(files, header, decode).value| ==
              ImageFor(cfg, well, entry, files, channels, header, decode).value.tiles[0].diagonal.c
  {
    if LoadedPlanes(files, header, decode).Ok? {
      LoadedPlanesMeaning(files, header, decode);
    }
  }

  /** The time_point attribute is read back by int() as the time point. */
  lemma TimePointRoundTrip(yamlName: string, ps: real, tp: int, entry: LayoutEntry)
    ensures Attributes(Physical(yamlName, ps, tp), entry)[1].0 == "time_point"
    ensures ParseInt(Attributes(Physical(yamlName, ps, tp), entry)[1].1) == Some(tp)
  {
    IntToStringRoundTrip(tp);
  }

  /** With non-empty file groups and columns int() reads, the loop can only fail on a tile
      shape that cannot be read. */
  lemma {:induction false} ImagesFromFailsOnlyOnShape(cfg: Config, layout: Layout, groups: TiffGroups, channels: ChannelMap,
                                                      header: HeaderReader, decode: Decoder)
    requires forall w :: w in groups ==> groups[w] != []
    requires ColumnsParse(layout)
    ensures ImagesFrom(cfg, layout, groups, channels, header, decode).Err? ==>
              ImagesFrom(cfg, layout, groups, channels, header, decode).error.TiffDecodeFailure?
    decreases |layout|
  {
    if layout != [] {
      assert ColumnsParse(layout[1..]) by {
        assert forall k :: 0 <= k < |layout| - 1 ==> layout[1..][k] == layout[k + 1];
      }
      ImagesFromFailsOnlyOnShape(cfg, layout[1..], groups, channels, header, decode);
      if layout[0].0 in groups {
        assert HeaderOk(layout[0].1.column);
      }
    }
  }

  /** On a table whose headers int() reads as non-negative numbers, once channels, TIFF groups
      and layout are read, the only error left is a tile shape that cannot be read: no well's
      loader is ever given an empty list and every entry's column is read back. */
  lemma MetadataFailsOnlyOnShape(cfg: Config, acq: Acquisition, read: YamlReader, header: HeaderReader, decode: Decoder,
                                 channels: ChannelMap, groups: TiffGroups, layout: Layout)
    requires HeadersOk(acq.table)
    requires ChannelsOf(cfg.variant, acq.entries, read) == Ok(channels)
    requires TiffGroupsOf(acq.tiffNames) == Ok(groups)
    requires LayoutOf(acq.table, ZipOf(cfg.variant)) == Ok(layout)
    ensures DrogonMetadata(cfg, acq, read, header, decode).Err? ==>
              DrogonMetadata(cfg, acq, read, header, decode).error.TiffDecodeFailure?
  {
    TiffGroupsSorted(acq.tiffNames, groups);
    LayoutColumnsParse(acq.table, ZipOf(cfg.variant));
    ImagesFromFailsOnlyOnShape(cfg, layout, groups, channels, header, decode);
  }

  /** The images of a successful run: one per layout well that has TIFF files, in layout order,
      no well twice; image k is named after its well, its tile's loader reads that well's sorted
      files and its channel names are the YAML values in order. */
  lemma MetadataImages(cfg: Config, acq: Acquisition, read: YamlReader, header: HeaderReader, decode: Decoder,
                       channels: ChannelMap, groups: TiffGroups, layout: Layout, images: seq<TiledImage<seq<string>>>)
    requires ChannelsOf(cfg.variant, acq.entries, read) == Ok(channels)
    requires TiffGroupsOf(acq.tiffNames) == Ok(groups)
    requires LayoutOf(acq.table, ZipOf(cfg.variant)) == Ok(layout)
    requires DrogonMetadata(cfg, acq, read, header, decode) == Ok(images)
    ensures var joined := Joined(layout, groups);
            |images| == |joined| && IsSubsequence(joined, layout) && DistinctWells(joined) &&
            (forall e :: e in joined <==> e in layout && e.0 in groups) &&
            forall k :: 0 <= k < |images| ==>
              images[k].name == joined[k].0 && images[k].name in groups &&
              |images[k].tiles| == 1 && images[k].tiles[0].dataLoader == groups[images[k].name] &&
              images[k].tiles[0].diagonal.c == |groups[images[k].name]| &&
              images[k].channelNames == ChannelNames(channels)
  {
    var joined := Joined(layout, groups);
    ImagesFromJoined(cfg, layout, groups, channels, header, decode);
    JoinedMembers(layout, groups);
    JoinedDistinct(layout, groups);
    forall k | 0 <= k < |images|
      ensures images[k].name == joined[k].0 && images[k].name in groups &&
              |images[k].tiles| == 1 && images[k].tiles[0].dataLoader == groups[images[k].name] &&
              images[k].tiles[0].diagonal.c == |groups[images[k].name]| &&
              images[k].channelNames == ChannelNames(channels)
    {
      assert joined[k] in joined;
    }
  }
}
