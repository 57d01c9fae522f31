# WikiArt dataset loader, modelled in Dafny

The WikiArt loading script describes a small image dataset of paintings
labelled by style. It declares three builder configurations (`All`,
`Baroque`, `Realism`), a `style` class label with the names `Baroque` and
`Realism`, and two splits (`train`, `test`), each downloaded as its own
archive. For a split it reads a manifest CSV with the columns `Style`,
`Artwork` and `Link`. Unless the configuration is `All`, it keeps only the
rows whose `Style` equals the configuration name. For each remaining row it
yields the pair `(row index, {style, artwork, image})`, where `image` is
`os.path.join(folderpath, split, <text after the last '/' of Link>)`.

The model has two modules:

- `Paths` (`paths.dfy`): Python's `str.split` on one separator character,
  the basename `link.split('/')[-1]`, and POSIX `os.path.join` as a fold of
  its one-component step. The contract of `Split` is a round trip: joining
  the pieces back gives the input. Lemmas characterise the basename as the
  text after the last `/` and state what the join builds.
- `WikiArt` (`wiki_art.dfy`): the configurations, labels and URLs as
  constants; the split table (`SplitGenerators`); manifest rows, data-frame
  rows carrying their pandas index label, and emitted records. The
  specification function `Examples` is defined as frame, then query, then
  emit. The method `GenerateExamples` does what the generator does: it reads
  the manifest from a given map of parsed files and reassigns the frame to its
  query result. It then calls `IterRows`, the loop over `df.iterrows()`, which
  builds the output in a `for` loop. Its contract ties the result to
  `Examples`. The lemmas then prove, about `Examples`, that the
  filter is correct in both directions, that order is kept, that keys are the
  original positions and strictly increase, that style and artwork fields are
  copied unchanged, and what shape the image path has.

Inputs the script gets from outside are parameters:

- `dataDir` is the map that `download_and_extract` returns.
- `manifests` maps each readable path to the rows `read_csv` parses from it.
  A path missing from the map is the missing-file error.

## Model

| member | source | states |
|---|---|---|
| `WikiArt.ConfigNamesAreLabels` | Datasets/wiki_art.py:29-43 | The builder declares exactly the three configurations `All`, `Baroque` and `Realism`. No two have the same name. Every configuration other than `All` is named after one of the `style` labels. |
| `WikiArt.SplitGenerators` | Datasets/wiki_art.py:74-91 | The table has exactly two entries, `train` then `test`. In each entry the split name matches the generator name and has a download URL. The folder is `data_dir[split]` and the manifest is `wikiart_scraped_<split>.csv`. |
| `WikiArt.SplitManifestPaths` | Datasets/wiki_art.py:74-97 | For each split in the table, the manifest is read from `<folder>/<split>/wikiart_scraped_<split>.csv`. No separator is doubled after a folder that already ends with `/`. |
| `WikiArt.ManifestPath` | Datasets/wiki_art.py:97 | The manifest path is `os.path.join(folderpath, split, csv_file)`. A file name without `/` is that path's basename. |
| `WikiArt.Frame` | Datasets/wiki_art.py:97 | `read_csv` with its default index labels row i with i. The labels strictly increase, and a labelled row is in the frame exactly when it is the manifest row at that label's position. |
| `WikiArt.Query` | Datasets/wiki_art.py:100 | `query("Style == '<name>'")` returns no more rows than the frame has. Every row it returns is a frame row whose `Style` equals the name. |
| `WikiArt.Select` | Datasets/wiki_art.py:99-100 | Under `All` the frame is left unchanged. Otherwise every remaining row is a frame row that the configuration keeps. |
| `WikiArt.ImagePath` | Datasets/wiki_art.py:105 | The image path `os.path.join(folderpath, split, basename of Link)` has the same basename as `Link`. |
| `WikiArt.ExampleOf` | Datasets/wiki_art.py:105-111 | The pair yielded for a frame row is keyed by the row's label and copies its `Style` and `Artwork`. Its image has the same basename as its `Link`. |
| `WikiArt.Emit` | Datasets/wiki_art.py:103-111 | The loop yields one pair per frame row, and the i-th pair's key is the i-th row's label. |
| `WikiArt.Examples` | Datasets/wiki_art.py:97-111 | The generator yields at most one pair per manifest row, and exactly one per row under `All`. |
| `WikiArt.GenerateExamples` | Datasets/wiki_art.py:94-111 | The generator fails exactly when no manifest exists at `os.path.join(folderpath, split, csv_file)`, and the error names that path. Otherwise it returns the filtered, keyed records that `Examples` specifies for that manifest. |
| `WikiArt.IterRows` | Datasets/wiki_art.py:103-111 | The `for index, row in df.iterrows()` loop, which builds an image path and appends one `(index, record)` pair per step, ends with exactly `Emit` of the frame. The proof goes through the loop invariant. |
| `WikiArt.EmitSnoc` | Datasets/wiki_art.py:103-111 | One more loop step appends the next row's pair to what has been yielded so far. |
| `WikiArt.QueryMembers` | Datasets/wiki_art.py:100 | The style query keeps a frame row if and only if that row's `Style` equals the queried string exactly. |
| `WikiArt.QueryKeepsOrder` | Datasets/wiki_art.py:100 | The query keeps the surviving rows in frame order: strictly increasing index labels stay strictly increasing. |
| `WikiArt.QueryNoMatch` | Datasets/wiki_art.py:100 | Querying a style that no row has gives an empty frame. |
| `WikiArt.SelectMembers` | Datasets/wiki_art.py:97-100 | After the optional filter, a frame row is present if and only if it is some manifest row under that row's own position as label, and the configuration keeps it. |
| `WikiArt.ExamplesComeFromKeptRows` | Datasets/wiki_art.py:99-111 | Soundness. Every yielded pair is keyed by the position of a manifest row that the configuration keeps. Its record copies that row's `Style` and `Artwork` unchanged, and its image path is built from that row's `Link`. |
| `WikiArt.KeptRowsAreYielded` | Datasets/wiki_art.py:99-103 | Completeness. Every manifest row the configuration keeps is yielded, with its position as key. |
| `WikiArt.KeysStrictlyIncrease` | Datasets/wiki_art.py:97-107 | Yielded keys strictly increase, so they are unique within a split and follow manifest order. |
| `WikiArt.StyleIsConfigName` | Datasets/wiki_art.py:99-100 | Under `Baroque` or `Realism`, the style of every yielded record equals the configuration name exactly. That name is one of the class labels. |
| `WikiArt.StylesStayInLabelSet` | Datasets/wiki_art.py:29 | Every yielded style is a class label when the configuration selects a single style. Under `All` this holds when every manifest style is a label. |
| `WikiArt.AllYieldsEveryRow` | Datasets/wiki_art.py:99-111 | Under `All`, one record is yielded per manifest row: the i-th pair has key i and is built from row i. |
| `WikiArt.UnmatchedStyleYieldsNothing` | Datasets/wiki_art.py:99-103 | A single-style configuration that no row matches yields nothing, and no error is raised. |
| `WikiArt.ImagePathShape` | Datasets/wiki_art.py:105 | The image path is `<folderpath>/<split>/<basename of Link>`, with one separator added after the folder unless it already ends in one. The basename of the image path is the basename of `Link`. |
| `WikiArt.TrailingSepLink` | Datasets/wiki_art.py:105 | When `Link` ends in `/` its basename is empty, so the image path is `<folderpath>/<split>/`. |
| `WikiArt.BaroqueScenario` | Datasets/wiki_art.py:94-111 | Worked example. Under `Baroque`, rows styled Baroque, Realism and Baroque with links `http://x/a.jpg`, `http://x/b.jpg` and `http://x/c.jpg`, read from folder `/data` for split `train`, give exactly `(0, Baroque, A1, /data/train/a.jpg)` and `(2, Baroque, A3, /data/train/c.jpg)`. |
| `Paths.Split` | Datasets/wiki_art.py:105 | `str.split` with one separator never returns an empty list. No piece contains the separator. Joining the pieces back with the separator gives the input. |
| `Paths.Basename` | Datasets/wiki_art.py:105 | The basename `link.split('/')[-1]` contains no `/`. |
| `Paths.BasenameIsTextAfterLastSep` | Datasets/wiki_art.py:105 | The basename is a suffix of `Link`. It is all of `Link` exactly when `Link` has no `/`. Otherwise the character just before it is a `/`, so it is the text after the last `/`. |
| `Paths.BasenameAfterSep` | Datasets/wiki_art.py:105 | Taking the basename of `prefix + "/" + name`, where name has no `/`, gives back `name`. |
| `Paths.BasenameOfTrailingSep` | Datasets/wiki_art.py:105 | A `Link` that ends in `/` has the empty basename. |
| `Paths.JoinStep` | Datasets/wiki_art.py:97 | One step of POSIX `os.path.join` always ends with the new component. A component that is not absolute keeps the path so far as a prefix and adds at most one separator. |
| `Paths.PathJoin` | Datasets/wiki_art.py:97 | POSIX `os.path.join(first, *parts)` ends with its last component. When no component is absolute it starts with `first`, and with no components it is `first`. |
| `Paths.DirPrefix` | Datasets/wiki_art.py:97 | The directory part of a joined path is empty exactly when the directory is. Otherwise it is the directory with a `/` added only when it does not already end in one. |
| `Paths.JoinThree` | Datasets/wiki_art.py:97 | `os.path.join(dir, sub, name)` gives `dir` with one trailing `/` (none added when `dir` is empty or already ends in `/`), then `sub`, a `/`, and `name`. This needs `sub` to be a non-empty segment without `/` and `name` not to be absolute. |
| `Paths.BasenameOfJoin` | Datasets/wiki_art.py:105 | If the last component passed to `os.path.join` has no `/`, that component is the basename of the joined path. |

## Left out

- `_info` and the citation, description, homepage and license strings are
  static metadata built from library objects. They have no behaviour.
- `dl_manager.download_and_extract` is done by the dataset framework: the
  network fetch, extraction and caching. Its result comes in as the
  `dataDir` parameter. `SplitGenerators` requires the `train` and `test`
  keys, which the framework returns because they are the keys of `_URLS`.
- CSV parsing by `pd.read_csv` is not modelled. Each manifest comes in
  already parsed, and the model has no errors for malformed rows or missing
  columns.
- Missing cell values are not modelled, because every field of `Row` is a
  string. `read_csv` turns an empty cell (or `NA`, `null`, `None`) into a
  float NaN. An empty `Link` in a kept row makes `row['Link'].split('/')` at
  Datasets/wiki_art.py:105 raise `AttributeError`. Under `All`, a NaN `Style`
  or `Artwork` would be yielded as it is.
- The pandas query language is modelled only as exact string equality on
  `Style`. Any other expression, and a configuration name that would break
  the quoted expression, cannot occur because the configuration names are
  fixed.
- `os.path.join` is modelled with POSIX semantics only. Windows path rules
  are not modelled, and nothing checks that files exist.
- `ClassLabel` encoding of `style` and image decoding (`datasets.Image`) are
  left out. The writer batch size and the `GeneratorBasedBuilder` base class
  are framework internals.
- The generator's laziness and single-pass use are not modelled: the model
  returns the whole finite sequence. Because `Examples` is a function,
  running it again on the same manifest gives the same sequence.
- pandas index labels are 64-bit integers. The model uses `nat`, since a
  manifest with 2^63 rows cannot occur.

Further modelling notes:

- The image path is built by `os.path.join`, so a folder that already ends
  in `/` gets no second separator.
- A missing manifest makes `read_csv` raise Python's `FileNotFoundError`.
  The model calls it `ManifestNotFound`.
- The generator does not restrict styles to the label set. The
  `ClassLabel(names=_NAMES)` feature at Datasets/wiki_art.py:47 would reject
  an unknown style when the framework encodes a record, and that encoding is
  left out. `StylesStayInLabelSet` therefore requires it of the manifest under
  `All`.
