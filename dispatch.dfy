/**
 Extension routing: the last extension of the input path (as
 `os.path.splitext` finds it) picks the parser. The comparison is exact and
 case-sensitive.
 */
module Dispatch {
  import opened EcLabData
  import opened PosixPath

  datatype Format = TextFormat | BinaryFormat | SettingsFormat

  /** The extension each format is recognised by. */
  function ExtensionOf(f: Format): string
  {
    match f
    case TextFormat => ".mpt"
    case BinaryFormat => ".mpr"
    case SettingsFormat => ".mps"
  }

  /** `os.path.splitext(path)[1]`. */
  function Extension(path: string): string
  {
    SplitExt(path).1
  }

  /** The `if ext == '.mpt' ... elif ... else raise ValueError` chain of `to_df`. */
  function Route(path: string): (r: Result<Format, Error>)
    ensures r.Ok? ==> ExtensionOf(r.value) == Extension(path)
    ensures r.Err? ==> r.error == UnrecognizedExtension(Extension(path))
    ensures r.Err? ==> forall f: Format :: ExtensionOf(f) != Extension(path)
  {
    var ext := Extension(path);
    if ext == ".mpt" then Ok(TextFormat)
    else if ext == ".mpr" then Ok(BinaryFormat)
    else if ext == ".mps" then Ok(SettingsFormat)
    else Err(UnrecognizedExtension(ext))
  }

  /** A path is routed to a format exactly when its extension is that format's
      extension; every other extension is refused and reported. */
  lemma RouteExact(path: string)
    ensures forall f: Format :: Route(path) == Ok(f) <==> Extension(path) == ExtensionOf(f)
    ensures Route(path).Err? <==> forall f: Format :: Extension(path) != ExtensionOf(f)
    ensures Route(path).Err? ==> Route(path).error == UnrecognizedExtension(Extension(path))
  {
    assert ExtensionOf(TextFormat) == ".mpt";
    assert ExtensionOf(BinaryFormat) == ".mpr";
    assert ExtensionOf(SettingsFormat) == ".mps";
  }

  /** The extension is taken from the file name alone, so a dotted directory name
      cannot select a parser. */
  lemma RouteByName(path: string)
    ensures Route(path) == Route(Split(path).1)
  {
    hide SplitExt;
    hide Split;
    ExtensionOfName(path);
  }

  /** A file name with a non-dot in its stem and one of the three extensions is routed to
      that extension's format, whatever directory or prefix comes before it. */
  lemma RouteByExtension(h: string, stem: string, f: Format)
    requires Sep !in stem && HasNonDot(stem, 0, |stem|)
    ensures Route(h + stem + ExtensionOf(f)) == Ok(f)
  {
    var ext := ExtensionOf(f);
    assert ext[1..] == "mp" + [ext[3]];
    SplitExtAppend(h, stem, ext);
  }

  /** Upper-case extensions, a missing extension, a bare ".mpt" file name (a leading dot
      does not start an extension) and a ".mpt" directory are all refused. */
  lemma RouteExamples()
    ensures Route("cv.mpt") == Ok(TextFormat)
    ensures Route("cv.MPT").Err?
    ensures Route("cv").Err?
    ensures Route(".mpt").Err?
    ensures Route("run.mpt/cv").Err?
  {
    TextExtension();
    UpperCaseExtension();
    NoExtension();
    LeadingDotExtension();
    DirectoryExtension();
  }

  lemma TextExtension()
    ensures Extension("cv.mpt") == ".mpt"
  {
    RFindUnique("cv.mpt", ExtSep, 2);
    assert RFind("cv.mpt", Sep) == -1;
    assert "cv.mpt"[0] != ExtSep;
  }

  lemma UpperCaseExtension()
    ensures Extension("cv.MPT") == ".MPT"
  {
    RFindUnique("cv.MPT", ExtSep, 2);
    assert RFind("cv.MPT", Sep) == -1;
    assert "cv.MPT"[0] != ExtSep;
  }

  lemma NoExtension()
    ensures Extension("cv") == []
  {
    assert RFind("cv", ExtSep) == -1;
  }

  lemma LeadingDotExtension()
    ensures Extension(".mpt") == []
  {
    RFindUnique(".mpt", ExtSep, 0);
    assert RFind(".mpt", Sep) == -1;
  }

  lemma DirectoryExtension()
    ensures Extension("run.mpt/cv") == []
  {
    RFindUnique("run.mpt/cv", ExtSep, 3);
    RFindUnique("run.mpt/cv", Sep, 7);
  }

  /**
   `parse(path)`: run the parser the extension selects. The source has no
   `else` branch, so an unrecognised extension fails (with an unbound local
   variable) rather than with a designed error; the model returns None.
   */
  function Parse(path: string, parsers: Parsers): (r: Option<ParseResult>)
    ensures r.None? <==> Route(path).Err?
    ensures r.Some? ==> (r.value.TextResult? <==> Route(path) == Ok(TextFormat))
    ensures r.Some? ==> (r.value.BinaryResult? <==> Route(path) == Ok(BinaryFormat))
    ensures r.Some? ==> (r.value.SettingsResult? <==> Route(path) == Ok(SettingsFormat))
  {
    var ext := Extension(path);
    if ext == ".mpt" then Some(TextResult(parsers.mpt(path)))
    else if ext == ".mpr" then Some(BinaryResult(parsers.mpr(path)))
    else if ext == ".mps" then Some(SettingsResult(parsers.mps(path)))
    else None
  }

  /** `parse` and `to_df` agree on routing, and the result comes from the parser of the routed format. */
  lemma ParseAgreesWithRoute(path: string, parsers: Parsers)
    ensures Parse(path, parsers).None? <==> Route(path).Err?
    ensures Route(path) == Ok(TextFormat) ==> Parse(path, parsers) == Some(TextResult(parsers.mpt(path)))
    ensures Route(path) == Ok(BinaryFormat) ==> Parse(path, parsers) == Some(BinaryResult(parsers.mpr(path)))
    ensures Route(path) == Ok(SettingsFormat) ==> Parse(path, parsers) == Some(SettingsResult(parsers.mps(path)))
  {
  }
}
