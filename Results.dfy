/** Option and Result types, and the error conditions raised by the converter's parsing core. */
module Results {

  datatype Option<+T> = None | Some(value: T)

  /** The exceptions of the parsing core, one constructor per raise site (or per library call
      whose failure propagates). */
  datatype Error =
    | ChannelYamlMissing(path: string)        // FileNotFoundError: the named yaml file does not exist
    | NoChannelYaml                           // FileNotFoundError: no *.yml / *.yaml file found
    | MultipleChannelYaml                     // FileNotFoundError: several *.yml / *.yaml files found
    | YamlUnreadable(path: string)            // the yaml file could not be parsed into a mapping
    | InvalidColumn(text: string)             // ValueError from int() on a column string
    | DuplicateWell(well: string)             // ValueError: a well id derived twice
    | ZipLengthMismatch(column: string)       // ValueError from zip(..., strict=True)
    | NoTiffFiles                             // FileNotFoundError: no *.tif file found
    | MalformedTiffName(name: string)         // IndexError: the stem has no second-to-last '_' token
    | NoTiffPaths                             // ValueError: TiffLoader given an empty path list
    | TiffDecodeFailure(path: string)         // ValueError wrapping a decode failure of one file
    | PlaneShapeMismatch(path: string)        // a decoded plane does not fit the tile's (H, W) slot
    | TooManyIndices                          // IndexError: a five-index write into a 2-D array
    | ShapeNotUnpackable                      // ValueError: a shape of other than five values unpacked into five names

  datatype Result<+T> = Ok(value: T) | Err(error: Error)
}
