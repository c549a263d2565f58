/**
 The values that flow through the converter: the tagged results of the three
 EC-Lab parsers, the tables built from them, and the errors that abort a
 conversion. The parsers themselves are collaborators whose code is not part
 of this model; they are passed in as total functions from a path to a result.
 */
module EcLabData {

  datatype Option<T> = None | Some(value: T)

  datatype Result<T, E> = Ok(value: T) | Err(error: E)

  /** A scalar cell of a datapoint: a number or a string. */
  datatype Value = Number(x: real) | Text(s: string)

  /** One datapoint: column name to value. */
  type Record = map<string, Value>

  /** A data frame, kept as its rows in acquisition order (`DataFrame.from_dict(records)`). */
  datatype Table = Table(rows: seq<Record>)

  /** Parsed `.mpt` text file: `mpt['datapoints']`. */
  datatype MptFile = MptFile(datapoints: seq<Record>)

  /** One module of a parsed `.mpr` binary file; `datapoints` is `module['data']['datapoints']`
      when the module's data holds datapoints. */
  datatype Module = Module(name: string, datapoints: Option<seq<Record>>)

  /** The data files a settings technique points to: at most one `mpt` and one `mpr` entry. */
  datatype TechniqueData = TechniqueData(mpt: Option<MptFile>, mpr: Option<seq<Module>>)

  /** One technique of a settings file; `data` is absent unless its data files were loaded. */
  datatype Technique = Technique(data: Option<TechniqueData>)

  /** Parsed `.mps` settings file: its techniques in declaration order. */
  datatype MpsFile = MpsFile(techniques: seq<Technique>)

  /** What `parse` returns, tagged by the parser that produced it. */
  datatype ParseResult = TextResult(mpt: MptFile) | BinaryResult(modules: seq<Module>) | SettingsResult(mps: MpsFile)

  /**
   The parser collaborators: `parse_mpt(path)`, `parse_mpr(path)`,
   `parse_mps(path)` with its default arguments, and
   `parse_mps(path, load_data=True)`.
   */
  datatype Parsers = Parsers(
    mpt: string -> MptFile,
    mpr: string -> seq<Module>,
    mps: string -> MpsFile,
    mpsWithData: string -> MpsFile)

  /** What `to_df` returns: one frame for `.mpt`/`.mpr`, a list of frames for `.mps`. */
  datatype Frames = Single(table: Table) | Many(tables: seq<Table>)

  datatype Error =
    | UnrecognizedExtension(ext: string)  // the ValueError raised by to_df
    | MissingDataModule                   // mpr[1]['data']['datapoints'] does not exist
}
