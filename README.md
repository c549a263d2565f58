# eclabfiles conversion core, modelled in Dafny

This project models the decision logic of `eclabfiles`. The package converts
EC-Lab instrument files into pandas data frames, CSV files and Excel
workbooks. There are three kinds of input file: `.mpt` text exports, `.mpr`
binary raw files and `.mps` settings files. The model covers four parts:

- **Extension routing** (`parse`, and the `if/elif` chain of `to_df`). The last
  extension of the path, as POSIX `os.path.splitext` finds it, picks the
  parser. The match is exact and case-sensitive.
- **Table extraction** (`to_df`). A text file gives one table of its
  `datapoints`. A binary file gives one table of `mpr[1]['data']['datapoints']`.
  A settings file, loaded with its data, gives a list of tables. The list walks
  the techniques in order, skips those without `data`, and uses the `mpt` entry
  in preference to the `mpr` entry.
- **Output naming** (`_construct_path`). It keeps the directory, drops the file
  name's last extension and appends a suffix such as `.csv` or `_03.csv`.
  Because the directory goes through `os.path.split` and `os.path.join`,
  several slashes before the file name collapse into one: `a//b.mpt` gives
  `a/b.csv`.
- **Write plans** (`to_csv`, `to_xlsx`). Each writer returns the writes it
  would perform instead of touching the filesystem. For CSV that is the list of
  (target, table) writes in order. For Excel it is the workbook target and its
  sheets, named `"01"`, `"02"`, … in table order.

Modules, leaf first:

| file | module | contents |
|---|---|---|
| `posix_path.dfy` | `PosixPath` | `os.path.split`, `splitext` and two-argument `join`, POSIX flavour |
| `decimal.dfy` | `Decimal` | `f'{n:02d}'`, with a decimal reader as its inverse and Python string ordering |
| `eclab_data.dfy` | `EcLabData` | parse results, tables, frames, errors, and the parser collaborators |
| `dispatch.dfy` | `Dispatch` | extension routing and `parse` |
| `extraction.dfy` | `Extraction` | `to_df` as a specification function and as the method with its loop |
| `output_names.dfy` | `OutputNames` | `_construct_path` and the indexed suffixes |
| `writers.dfy` | `Writers` | `to_csv` and `to_xlsx` as methods that return their write plans |

Modelling choices:

- A table is its sequence of rows. Each row maps column names to a number or
  a string. Row order is the datapoint order of the parse result.
- The parsers `parse_mpt`, `parse_mpr`, `parse_mps(path)` and
  `parse_mps(path, load_data=True)` are total functions passed in as a
  `Parsers` value. Their results are tagged datatypes: a text file with
  datapoints, a binary file as a sequence of modules, and a settings file
  as a sequence of techniques. A technique has an optional `data` holding an
  optional `mpt` and an optional `mpr` entry.
- The lookup `mpr[1]['data']['datapoints']` fails when there is no module at
  index 1 or that module holds no datapoints. The model returns
  `Err(MissingDataModule)` for this case, in the top-level binary branch and
  in the settings loop alike. The unknown-extension `ValueError` of `to_df` is
  `Err(UnrecognizedExtension(ext))`.
- `csv_path` and `xlsx_path` are `Option<string>`. `is None` is the `None`
  case. Truthiness, which `to_csv` uses in list mode, is `Some(s)` with
  `s != ""`.
- Paths follow POSIX rules only: `/` is the separator, and there are no
  drive letters or alternative separators.

Choices fixed by the code of `main.py`:

- In a settings technique the entries are keyed `mpt` and `mpr`.
- In list mode `to_csv` writes each table to the file derived from
  `csv_path` first and to the file derived from the input path second. The
  `csv_path` write happens only when `csv_path` is truthy, not whenever it is
  given. A single table is written to `csv_path` whenever it `is not None`,
  so `csv_path=""` is used for one table and ignored for a list
  (`Writers.EmptyCsvPath`).
- The duplicate write in list mode is kept as the code does it
  (`Writers.DualListWritesAt`, `Writers.DualWriteSameFile`), rather than
  replaced by a single-target policy.

## Model

| member | source | states |
|---|---|---|
| `PosixPath.RFind` | src/eclabfiles/main.py:37-38 | the index found is the last occurrence of the character, or -1 when there is none |
| `PosixPath.Split` | src/eclabfiles/main.py:37 | `os.path.split`: the head is the text up to the last `/`, with trailing slashes removed unless it is all slashes, and the tail is the rest; its properties are the `SplitShape`, `SplitJoin` and `SplitCollapsesSlashes` rows |
| `PosixPath.SplitExt` | src/eclabfiles/main.py:38 | `os.path.splitext`: the root and the extension concatenate back to the input |
| `PosixPath.Join` | src/eclabfiles/main.py:39 | two-argument `os.path.join`; its properties are the `JoinName` and `SplitJoin` rows |
| `PosixPath.JoinName` | src/eclabfiles/main.py:39 | joining a name without `/` gives the directory, then one `/` unless the directory is empty or already ends in `/`, then the name |
| `PosixPath.SplitShape` | src/eclabfiles/main.py:37 | `os.path.split` gives a head that is empty, all slashes or not ending in `/`, and a tail without `/` that is the text after the last `/`; the head is a prefix of the text up to that `/`, only slashes lie between them, and an all-slash head is that whole text |
| `PosixPath.SplitHeadText` | src/eclabfiles/main.py:37 | the head of `split` is the text up to the last `/` with only trailing slashes removed, and kept whole when it is all slashes |
| `PosixPath.SplitCollapsesSlashes` | src/eclabfiles/main.py:37 | a directory not ending in `/`, one or more slashes and a name split into that directory and that name |
| `PosixPath.SplitExtShape` | src/eclabfiles/main.py:38 | `os.path.splitext` gives a root and an extension that concatenate back to the input; a non-empty extension is one `.` followed by text with no `.` and no `/` |
| `PosixPath.ExtensionFound` | src/eclabfiles/main.py:38 | a `.` after the last `/` with a non-dot before it in the same component means an extension is found |
| `PosixPath.SplitExtAt` | src/eclabfiles/main.py:38 | a `.` followed by neither `.` nor `/`, with a non-dot between it and the last `/`, starts the extension |
| `PosixPath.SplitExtAppend` | src/eclabfiles/main.py:38 | for a name with a non-dot and no `/` followed by a `.`-led extension, `splitext` returns exactly that extension, whatever precedes the name |
| `PosixPath.ExtensionOfName` | src/eclabfiles/main.py:60 | the extension of a whole path is the extension of its last component, so a dot in a directory name never starts an extension |
| `PosixPath.SplitJoin` | src/eclabfiles/main.py:37-39 | `split` undoes `join` for a head-shaped directory and a name without `/` |
| `OutputNames.ConstructPathParts` | src/eclabfiles/main.py:21-40 | `_construct_path(p, ext)` keeps `p`'s directory, and its name is `p`'s name with only the last extension removed, followed by `ext`; a name without extension gets `ext` appended whole |
| `OutputNames.ConstructPath` | src/eclabfiles/main.py:21-40 | `_construct_path`: the head of `split`, joined with the root of the tail under `splitext` followed by the new suffix; its properties are the `ConstructPathParts`, `ConstructPathKeepsPrefix`, `ConstructPathCollapsesSlashes` and `ConstructPathReplacesExtension` rows |
| `OutputNames.StemNoSep` | src/eclabfiles/main.py:37-38 | the stem is a prefix of the last path component and has no `/` |
| `OutputNames.ConstructPathKeepsPrefix` | src/eclabfiles/main.py:21-40 | as text, the derived path is the input up to and including its last `/`, then the stem, then the suffix, unless that `/` follows another `/` after a directory name |
| `OutputNames.ConstructPathCollapsesSlashes` | src/eclabfiles/main.py:21-40 | for a directory, several slashes and a name, the derived path has exactly one `/` between the directory and the stem followed by the suffix |
| `OutputNames.ConstructPathDoubledSlash` | src/eclabfiles/main.py:21-40 | `_construct_path("a//b.mpt", ".csv")` is `"a/b.csv"` |
| `OutputNames.ConstructPathReplacesExtension` | src/eclabfiles/main.py:37-40 | a file `stem + oldExt` in directory `h` becomes `stem + ext` in the same directory: only the last extension is replaced, and dots earlier in the name or in the directory are kept |
| `OutputNames.ConstructPathInjective` | src/eclabfiles/main.py:21-40 | different suffixes derive different paths from the same source path |
| `OutputNames.IndexedSuffixInjective` | src/eclabfiles/main.py:148 | the suffixes `_NN.csv` of distinct indices differ |
| `OutputNames.IndexedPathsDistinct` | src/eclabfiles/main.py:148-152 | distinct table indices derive distinct file paths from the same base path |
| `Decimal.Digits` | src/eclabfiles/main.py:148 | `str(n)` is a non-empty string of decimal digits with no leading zero, one digit long exactly when `n < 10` |
| `Decimal.Pad2` | src/eclabfiles/main.py:148 | `f'{n:02d}'` is at least two decimal digits and starts with `0` exactly when `n < 10` |
| `Decimal.DigitsRoundTrip` | src/eclabfiles/main.py:148 | reading back the decimal digits of `n` gives `n` |
| `Decimal.Pad2Spec` | src/eclabfiles/main.py:148 | `f'{n:02d}'` is at least two digits, reads back as `n`, and is exactly two digits long if and only if `n < 100`; it is padded no further: a leading `0` only below 10, and from 10 on exactly as long as `str(n)` |
| `Decimal.Pad2Injective` | src/eclabfiles/main.py:178 | distinct indices give distinct padded names |
| `Decimal.Pad2Ordered` | src/eclabfiles/main.py:176-178 | below 100 the padded names sort as Python strings in the numeric order of their indices |
| `Decimal.Pad2OrderBreaksAt100` | src/eclabfiles/main.py:178 | the ordering stops at 100: `"100"` sorts before `"99"` |
| `Dispatch.RouteExact` | src/eclabfiles/main.py:95-121 | a path is routed to a format exactly when its extension equals that format's extension; every other extension is refused with an error naming it |
| `Dispatch.Route` | src/eclabfiles/main.py:95-121 | a routed path's extension is the format's extension; a refused path's extension matches no format and the error names it |
| `Dispatch.RouteByExtension` | src/eclabfiles/main.py:95-104 | any name with a non-dot in its stem and the extension `.mpt`, `.mpr` or `.mps` is routed to that format, whatever directory precedes it |
| `Dispatch.RouteByName` | src/eclabfiles/main.py:95 | routing depends only on the last path component |
| `Dispatch.RouteExamples` | src/eclabfiles/main.py:95-121 | `cv.mpt` is text; `cv.MPT`, `cv`, `.mpt` and `run.mpt/cv` are refused |
| `Dispatch.ParseAgreesWithRoute` | src/eclabfiles/main.py:43-67 | `parse` fails exactly when `to_df`'s routing refuses the path, and otherwise returns the result of the parser the routing selects |
| `Dispatch.Parse` | src/eclabfiles/main.py:43-67 | `parse` fails exactly when routing refuses the path, and the result carries the tag of the routed format |
| `Extraction.BinaryTable` | src/eclabfiles/main.py:101-103 | `mpr[1]['data']['datapoints']` succeeds exactly when module 1 exists and holds datapoints, and the table rows are those datapoints in order |
| `Extraction.TechniqueTable` | src/eclabfiles/main.py:108-119 | a technique yields no table exactly when it does not contribute; with an `mpt` entry the rows are the `mpt` datapoints; failure only through `mpr` without `mpt` |
| `Extraction.SettingsTables` | src/eclabfiles/main.py:104-119 | the settings list has at most as many tables as techniques, and its only error is the missing module 1 |
| `Extraction.ContributingIndices` | src/eclabfiles/main.py:107-119 | the positions of the techniques that have `data` with an `mpt` or `mpr` entry, strictly increasing, complete, and no more than the technique count |
| `Extraction.TechniqueTableSpec` | src/eclabfiles/main.py:108-119 | a technique yields no table exactly when it has no `data` or neither entry, and fails only through a missing module 1 of its `mpr` entry when it has no `mpt` entry |
| `Extraction.SettingsTablesSpec` | src/eclabfiles/main.py:104-119 | the settings list fails exactly when some technique's lookup fails, and otherwise holds one table per contributing technique, in declaration order |
| `Extraction.TableOfTechnique` | src/eclabfiles/main.py:111-118 | a contributing technique's table sits at the position counting the contributing techniques before it, and comes from the `mpt` entry whenever there is one, else from module 1 of the `mpr` entry |
| `Extraction.PropagatesError` | src/eclabfiles/main.py:117 | once a lookup fails, the whole settings extraction fails with that error |
| `Extraction.ThreeTechniquesExample` | src/eclabfiles/main.py:107-119 | techniques without data, with both entries, and with `mpr` only give exactly two tables: the second technique's text table and the third's binary table |
| `Extraction.ExtractSpec` | src/eclabfiles/main.py:95-122 | `to_df` raises for an unknown extension, gives the text datapoints, or module 1's datapoints, or a list of tables no longer than the technique list |
| `Extraction.Extract` | src/eclabfiles/main.py:95-122 | an unknown extension gives the error naming it; a list is returned exactly for the settings format; any other error is the missing module 1 |
| `Extraction.CollectTables` | src/eclabfiles/main.py:106-119 | the loop over techniques builds exactly the specified list of tables, or the specified error |
| `Extraction.ToDf` | src/eclabfiles/main.py:70-122 | `to_df` returns exactly the specified frames or error |
| `Writers.TableTargetsAt` | src/eclabfiles/main.py:145-152 | table i is written to two files when `csv_path` is truthy (the `csv_path` file first), otherwise to one file, all with suffix `_NN.csv` |
| `Writers.TableTargets` | src/eclabfiles/main.py:145-152 | one table goes to two files when `csv_path` is truthy and to one otherwise |
| `Writers.GivenOrDerived` | src/eclabfiles/main.py:140-143 | a single table goes to `csv_path` when it is not None, and the workbook to `xlsx_path` (lines 169-170); otherwise the target is the file with the input's stem and the given suffix in the input's directory |
| `Writers.ListWrites` | src/eclabfiles/main.py:144-152 | the writes of a list, table by table in list order; its properties are the `ListWritesAt` row |
| `Writers.WritesTo` | src/eclabfiles/main.py:146-152 | one write per target, in target order, each of the same table |
| `Writers.ListWritesAt` | src/eclabfiles/main.py:145-152 | when every table has `width` targets, write `width*k + j` is table k to its j-th target, and there are `width*n` writes |
| `Writers.DualListWritesAt` | src/eclabfiles/main.py:144-152 | with a truthy `csv_path` there are 2n writes; table k goes first to `csv_path`'s file and then to the input path's file, both with index k+1 |
| `Writers.SingleListWritesAt` | src/eclabfiles/main.py:144-152 | without a truthy `csv_path` there are n writes; table k goes to the input path's file with index k+1 |
| `Writers.ToCsv` | src/eclabfiles/main.py:125-152 | `to_csv` writes nothing when `to_df` fails; one table is written once to `csv_path` unless it is None, else to the derived `.csv` path; a list follows the list plan |
| `Writers.WriteTables` | src/eclabfiles/main.py:144-152 | the loop over the list performs exactly the list plan's writes in order |
| `Writers.WriteTable` | src/eclabfiles/main.py:146-152 | one iteration writes the table to `csv_path`'s indexed file when it is truthy, then to the input path's indexed file |
| `Writers.CsvTargetsDistinct` | src/eclabfiles/main.py:144-152 | in list mode no two tables share a target derived from the same base path |
| `Writers.DualWriteSameFile` | src/eclabfiles/main.py:146-152 | when `csv_path` equals the input path, each table of a list is written twice to the same file |
| `Writers.EmptyCsvPath` | src/eclabfiles/main.py:141-152 | `csv_path=""` is the target of a single table (`is None` test) but is ignored for a list (truthiness test) |
| `Writers.ToXlsx` | src/eclabfiles/main.py:155-178 | `to_xlsx` writes nothing when `to_df` fails; the workbook goes to `xlsx_path` unless it is None, else to the derived `.xlsx` path; one default sheet for a table, one indexed sheet per table of a list |
| `Writers.AddSheets` | src/eclabfiles/main.py:175-178 | sheet k holds table k and is named k+1 padded to two digits, in table order |
| `Writers.SheetNamesOrdered` | src/eclabfiles/main.py:176-178 | sheet names of a list are pairwise distinct, and strictly increasing when there are at most 99 tables |
| `Writers.SkippedTechniqueWorkbook` | src/eclabfiles/main.py:104-119 | a settings file of three techniques whose second has no data gives exactly two tables, the first's and the third's, and so exactly two sheets, `"01"` and `"02"` |

## Left out

- `_parse_arguments` and `_run` (command-line parsing and dispatch to the writers): argument handling only, with no logic of the converter.
- `setup.py`: packaging metadata.
- The parsers `parse_mpt`, `parse_mpr` and `parse_mps` are not part of this model. They are total functions supplied by the caller, and the exceptions they raise on malformed input are not modelled.
- `DataFrame.from_dict`: a table is its row sequence. The union of keys across rows that pandas forms for columns is not modelled.
- CSV rendering: the `'%.15f'` float format, the header row, and `index=False`. A write is recorded as (target, table).
- Excel rendering through `ExcelWriter`/openpyxl. This includes the error openpyxl raises when a settings file yields no tables and the workbook has no sheets. The model returns a workbook with an empty sheet list in that case.
- File I/O errors (permissions, a missing directory, an empty target path): writes are records, so they cannot fail.
- Windows `os.path` (backslashes, drive letters): only POSIX paths are modelled.
- Dispatch.Parse: the missing `else` in `parse` raises an unbound-local error. The model returns `None` and gives it no error type.
- Extraction.BinaryTable: an `IndexError` (no module 1) and a `KeyError` (module 1 without `data` or `datapoints`) are one error, `MissingDataModule`.
