/**
 The WikiArt dataset loader: the fixed configurations and labels, the table
 of the two splits, and the generator that turns a split's manifest into
 keyed example records, optionally keeping only the rows of one style.
 */
module WikiArt {
  import opened Paths

  /** The builder configurations a user can choose between. */
  datatype Config = All | Baroque | Realism {
    /** The configuration's name, the string the generator filters on. */
    function Name(): string {
      match this
      case All => "All"
      case Baroque => "Baroque"
      case Realism => "Realism"
    }
  }

  /** The configurations declared by the builder, in declaration order. */
  const BuilderConfigs: seq<Config> := [All, Baroque, Realism]

  /** The names of the `style` class label, in ordinal order. */
  const Names: seq<string> := ["Baroque", "Realism"]

  /** The remote archive of each split. */
  const Urls: map<string, string> := map[
    "train" := "https://workshophuggingface.blob.core.windows.net/wikiart/train.zip",
    "test" := "https://workshophuggingface.blob.core.windows.net/wikiart/test.zip"
  ]

  /** Every configuration except `All` selects one of the style labels, and no two share a name. */
  lemma ConfigNamesAreLabels()
    ensures forall c: Config :: c in BuilderConfigs
    ensures forall c: Config :: c != All ==> c.Name() in Names
    ensures forall c: Config, d: Config :: c.Name() == d.Name() ==> c == d
  {
    forall c: Config ensures c in BuilderConfigs {
      assert BuilderConfigs[if c == All then 0 else if c == Baroque then 1 else 2] == c;
    }
  }

  // ---------------------------------------------------------------------------
  // Split table
  // ---------------------------------------------------------------------------

  /** The keyword arguments one split's generator is invoked with. */
  datatype SplitGenerator = SplitGenerator(name: string, folderpath: string, csvFile: string, split: string)

  /** The manifest file name inside a split's folder. */
  function CsvFileOf(split: string): string {
    "wikiart_scraped_" + split + ".csv"
  }

  /**
   The two split generators, given the local folder each split's archive was
   extracted to (`dataDir` has the same keys as `Urls`).
   */
  function SplitGenerators(dataDir: map<string, string>): (gens: seq<SplitGenerator>)
    requires "train" in dataDir && "test" in dataDir
    ensures |gens| == 2 && gens[0].name == "train" && gens[1].name == "test"
    ensures forall g :: g in gens ==>
      && g.split == g.name
      && g.split in Urls
      && g.split in dataDir
      && g.folderpath == dataDir[g.split]
      && g.csvFile == CsvFileOf(g.split)
  {
    [ SplitGenerator("train", dataDir["train"], "wikiart_scraped_train.csv", "train"),
      SplitGenerator("test", dataDir["test"], "wikiart_scraped_test.csv", "test") ]
  }

  /** The path the generator reads a split's manifest from; a plain file name is its basename. */
  function ManifestPath(folderpath: string, split: string, csvFile: string): (p: string)
    ensures Sep !in csvFile ==> Basename(p) == csvFile
  {
    assert [split] + [csvFile] == [split, csvFile];
    if Sep in csvFile then PathJoin(folderpath, [split, csvFile])
    else (BasenameOfJoin(folderpath, [split], csvFile); PathJoin(folderpath, [split, csvFile]))
  }

  /** Each split of the table reads `<folder>/<split>/wikiart_scraped_<split>.csv`. */
  lemma SplitManifestPaths(dataDir: map<string, string>)
    requires "train" in dataDir && "test" in dataDir
    ensures forall g :: g in SplitGenerators(dataDir) ==>
      ManifestPath(g.folderpath, g.split, g.csvFile)
        == DirPrefix(g.folderpath) + g.split + [Sep] + CsvFileOf(g.split)
  {
    var gens := SplitGenerators(dataDir);
    forall g | g in gens
      ensures ManifestPath(g.folderpath, g.split, g.csvFile)
        == DirPrefix(g.folderpath) + g.split + [Sep] + CsvFileOf(g.split)
    {
      assert g.split == "train" || g.split == "test";
      assert g.csvFile[0] == 'w';
      JoinThree(g.folderpath, g.split, g.csvFile);
    }
  }

  // ---------------------------------------------------------------------------
  // Manifest rows and emitted records
  // ---------------------------------------------------------------------------

  /** One manifest row: its `Style`, `Artwork` and `Link` columns. */
  datatype Row = Row(style: string, artwork: string, link: string)

  /** A row of the data frame: the index label pandas gives it, and the row. */
  datatype LabelledRow = LabelledRow(index: nat, row: Row)

  /** An emitted example record. */
  datatype Record = Record(style: string, artwork: string, image: string)

  /** One `(key, record)` pair yielded by the generator. */
  datatype Example = Example(key: nat, record: Record)

  /** Why generating a split's examples can fail. */
  datatype LoadError = ManifestNotFound(path: string)

  datatype Result<T> = Ok(value: T) | Err(error: LoadError)

  /**
   The data frame `read_csv` builds from a manifest. Its default index labels
   the manifest's rows 0, 1, ... in order, so the labels strictly increase and
   a labelled row is in the frame exactly when it is the manifest row at its
   label's position.
   */
  function Frame(manifest: seq<Row>): (df: seq<LabelledRow>)
    ensures |df| == |manifest|
    ensures forall i :: 0 <= i < |df| ==> df[i].index == i && df[i].row == manifest[i]
    ensures Increasing(df)
    ensures forall x :: x in df <==> x.index < |manifest| && x.row == manifest[x.index]
  {
    var df := seq(|manifest|, i requires 0 <= i < |manifest| => LabelledRow(i, manifest[i]));
    assert forall x: LabelledRow :: x.index < |manifest| && x.row == manifest[x.index] ==> df[x.index] == x;
    df
  }

  /** `df.query("Style == '<style>'")`: the rows whose style is `style`, labels and order kept. */
  function Query(df: seq<LabelledRow>, style: string): (q: seq<LabelledRow>)
    ensures |q| <= |df|
    ensures forall i :: 0 <= i < |q| ==> q[i] in df && q[i].row.style == style
    decreases |df|
  {
    if df == [] then []
    else (if df[0].row.style == style then [df[0]] else []) + Query(df[1..], style)
  }

  /** The rows the configuration selects: all of them for `All`, else the rows of its style. */
  function Select(config: Config, df: seq<LabelledRow>): (sel: seq<LabelledRow>)
    ensures |sel| <= |df|
    ensures config == All ==> sel == df
    ensures forall i :: 0 <= i < |sel| ==> sel[i] in df && Kept(config, sel[i].row)
  {
    if config.Name() != "All" then Query(df, config.Name()) else df
  }

  /** The image path of a row: `os.path.join(folderpath, split, basename of Link)`. Its basename is `Link`'s. */
  function ImagePath(folderpath: string, split: string, link: string): (p: string)
    ensures Basename(p) == Basename(link)
  {
    var name := Basename(link);
    assert [split] + [name] == [split, name];
    BasenameOfJoin(folderpath, [split], name);
    PathJoin(folderpath, [split, name])
  }

  /**
   The pair yielded for a frame row: keyed by the row's label, with its style
   and artwork unchanged and an image named like its `Link`.
   */
  function ExampleOf(folderpath: string, split: string, r: LabelledRow): (e: Example)
    ensures e.key == r.index
    ensures e.record.style == r.row.style && e.record.artwork == r.row.artwork
    ensures Basename(e.record.image) == Basename(r.row.link)
  {
    Example(r.index, Record(r.row.style, r.row.artwork, ImagePath(folderpath, split, r.row.link)))
  }

  /**
   The pairs the loop over `df.iterrows()` yields, one per frame row in frame
   order, each keyed by its row's label.
   */
  function Emit(folderpath: string, split: string, df: seq<LabelledRow>): (out: seq<Example>)
    ensures |out| == |df|
    ensures forall i :: 0 <= i < |out| ==> out[i].key == df[i].index
  {
    seq(|df|, i requires 0 <= i < |df| => ExampleOf(folderpath, split, df[i]))
  }

  /**
   What the generator yields for a split whose manifest has been read as
   `manifest`: at most one pair per row, and exactly one per row under `All`.
   */
  function Examples(config: Config, folderpath: string, split: string, manifest: seq<Row>): (ex: seq<Example>)
    ensures |ex| <= |manifest|
    ensures config == All ==> |ex| == |manifest|
  {
    Emit(folderpath, split, Select(config, Frame(manifest)))
  }

  /**
   The generator: read the manifest, filter the frame in place unless the
   configuration is `All`, then yield one keyed record per remaining row.
   */
  method GenerateExamples(config: Config, manifests: map<string, seq<Row>>,
                          folderpath: string, csvFile: string, split: string)
    returns (r: Result<seq<Example>>)
    ensures r.Err? <==> ManifestPath(folderpath, split, csvFile) !in manifests
    ensures r.Err? ==> r.error == ManifestNotFound(ManifestPath(folderpath, split, csvFile))
    ensures r.Ok? ==> r.value == Examples(config, folderpath, split,
                                          manifests[ManifestPath(folderpath, split, csvFile)])
  {
    var path := ManifestPath(folderpath, split, csvFile);
    if path !in manifests {
      return Err(ManifestNotFound(path));
    }
    var df := Frame(manifests[path]);
    if config.Name() != "All" {
      df := Query(df, config.Name());
    }
    var out := IterRows(folderpath, split, df);
    return Ok(out);
  }

  /** The loop over `df.iterrows()`: one `(index, record)` pair per frame row, in frame order. */
  method IterRows(folderpath: string, split: string, df: seq<LabelledRow>) returns (out: seq<Example>)
    ensures out == Emit(folderpath, split, df)
  {
    out := [];
    for i := 0 to |df|
      invariant out == Emit(folderpath, split, df[..i])
    {
      var index, row := df[i].index, df[i].row;
      var imagePath := ImagePath(folderpath, split, row.link);
      out := out + [Example(index, Record(row.style, row.artwork, imagePath))];
      EmitSnoc(folderpath, split, df[..i], df[i]);
      assert df[..i + 1] == df[..i] + [df[i]];
    }
    assert df[..|df|] == df;
  }

  /** Emitting one more frame row appends its pair. */
  lemma EmitSnoc(folderpath: string, split: string, df: seq<LabelledRow>, r: LabelledRow)
    ensures Emit(folderpath, split, df + [r]) == Emit(folderpath, split, df) + [ExampleOf(folderpath, split, r)]
  {
    var lhs, rhs := Emit(folderpath, split, df + [r]), Emit(folderpath, split, df) + [ExampleOf(folderpath, split, r)];
    assert |lhs| == |rhs|;
    forall k | 0 <= k < |lhs| ensures lhs[k] == rhs[k] {
      if k < |df| {
        assert (df + [r])[k] == df[k];
      }
    }
  }

  // ---------------------------------------------------------------------------
  // Properties of the generator
  // ---------------------------------------------------------------------------

  /** Whether the configuration keeps a manifest row. */
  predicate Kept(config: Config, row: Row) {
    config == All || row.style == config.Name()
  }

  /** The rows of a frame carry strictly increasing labels. */
  predicate Increasing(df: seq<LabelledRow>) {
    forall i, j :: 0 <= i < j < |df| ==> df[i].index < df[j].index
  }

  /** The query keeps exactly the frame rows of the given style. */
  lemma {:induction false} QueryMembers(df: seq<LabelledRow>, style: string)
    ensures forall x :: x in Query(df, style) <==> x in df && x.row.style == style
    decreases |df|
  {
    if df != [] {
      QueryMembers(df[1..], style);
      assert df == [df[0]] + df[1..];
    }
  }

  /** The query of a style no row has is empty. */
  lemma {:induction false} QueryNoMatch(df: seq<LabelledRow>, style: string)
    requires forall i :: 0 <= i < |df| ==> df[i].row.style != style
    ensures Query(df, style) == []
    decreases |df|
  {
    if df != [] {
      QueryNoMatch(df[1..], style);
    }
  }

  /** The query keeps the surviving rows in frame order. */
  lemma {:induction false} QueryKeepsOrder(df: seq<LabelledRow>, style: string)
    requires Increasing(df)
    ensures Increasing(Query(df, style))
    decreases |df|
  {
    if df != [] {
      var rest := Query(df[1..], style);
      QueryKeepsOrder(df[1..], style);
      QueryMembers(df[1..], style);
      if df[0].row.style == style {
        var q := [df[0]] + rest;
        forall i, j | 0 <= i < j < |q| ensures q[i].index < q[j].index {
          if i == 0 {
            assert q[j] in df[1..];
          } else {
            assert q[i] == rest[i - 1] && q[j] == rest[j - 1];
          }
        }
      } else {
        assert Query(df, style) == rest;
      }
    }
  }

  /** The frame the configuration selects is made of kept manifest rows under their own labels. */
  lemma SelectMembers(config: Config, manifest: seq<Row>)
    ensures forall x :: x in Select(config, Frame(manifest)) <==>
      x.index < |manifest| && x.row == manifest[x.index] && Kept(config, x.row)
  {
    QueryMembers(Frame(manifest), config.Name());
  }

  /**
   Soundness: every yielded pair is keyed by the manifest position of a row the
   configuration keeps, and its record copies that row's style and artwork and
   points at the image named by its `Link`.
   */
  lemma ExamplesComeFromKeptRows(config: Config, folderpath: string, split: string, manifest: seq<Row>)
    ensures forall i :: 0 <= i < |Examples(config, folderpath, split, manifest)| ==>
      var e := Examples(config, folderpath, split, manifest)[i];
      && e.key < |manifest|
      && Kept(config, manifest[e.key])
      && e.record == Record(manifest[e.key].style, manifest[e.key].artwork,
                            ImagePath(folderpath, split, manifest[e.key].link))
  {
    var sel := Select(config, Frame(manifest));
    SelectMembers(config, manifest);
    assert forall i :: 0 <= i < |sel| ==> sel[i] in sel;
  }

  /** Completeness: every manifest row the configuration keeps is yielded, under its position as key. */
  lemma KeptRowsAreYielded(config: Config, folderpath: string, split: string, manifest: seq<Row>)
    ensures forall k :: 0 <= k < |manifest| && Kept(config, manifest[k]) ==>
      exists i :: 0 <= i < |Examples(config, folderpath, split, manifest)|
        && Examples(config, folderpath, split, manifest)[i].key == k
  {
    var sel := Select(config, Frame(manifest));
    var ex := Examples(config, folderpath, split, manifest);
    SelectMembers(config, manifest);
    forall k | 0 <= k < |manifest| && Kept(config, manifest[k])
      ensures exists i :: 0 <= i < |ex| && ex[i].key == k
    {
      var x := LabelledRow(k, manifest[k]);
      assert x in sel;
      var i :| 0 <= i < |sel| && sel[i] == x;
      assert ex[i].key == k;
    }
  }

  /** Keys are strictly increasing, hence unique, and follow manifest order. */
  lemma KeysStrictlyIncrease(config: Config, folderpath: string, split: string, manifest: seq<Row>)
    ensures forall i, j :: 0 <= i < j < |Examples(config, folderpath, split, manifest)| ==>
      Examples(config, folderpath, split, manifest)[i].key
        < Examples(config, folderpath, split, manifest)[j].key
  {
    var df := Frame(manifest);
    assert Increasing(df);
    if config != All {
      QueryKeepsOrder(df, config.Name());
    }
  }

  /** Under a single-style configuration every yielded record has exactly that style. */
  lemma StyleIsConfigName(config: Config, folderpath: string, split: string, manifest: seq<Row>)
    requires config != All
    ensures forall e :: e in Examples(config, folderpath, split, manifest) ==>
      e.record.style == config.Name() && e.record.style in Names
  {
    var ex := Examples(config, folderpath, split, manifest);
    ExamplesComeFromKeptRows(config, folderpath, split, manifest);
    forall e | e in ex ensures e.record.style == config.Name() {
      var i :| 0 <= i < |ex| && ex[i] == e;
    }
    ConfigNamesAreLabels();
  }

  /**
   Every yielded style is a class label when the manifest's styles are, or
   when the configuration is a single style.
   */
  lemma StylesStayInLabelSet(config: Config, folderpath: string, split: string, manifest: seq<Row>)
    requires config != All || forall i :: 0 <= i < |manifest| ==> manifest[i].style in Names
    ensures forall e :: e in Examples(config, folderpath, split, manifest) ==> e.record.style in Names
  {
    var ex := Examples(config, folderpath, split, manifest);
    if config != All {
      StyleIsConfigName(config, folderpath, split, manifest);
    } else {
      ExamplesComeFromKeptRows(config, folderpath, split, manifest);
      forall e | e in ex ensures e.record.style in Names {
        var i :| 0 <= i < |ex| && ex[i] == e;
      }
    }
  }

  /** Under `All` the generator yields one record per manifest row, keyed 0, 1, ... in manifest order. */
  lemma AllYieldsEveryRow(folderpath: string, split: string, manifest: seq<Row>)
    ensures |Examples(All, folderpath, split, manifest)| == |manifest|
    ensures forall i :: 0 <= i < |manifest| ==>
      Examples(All, folderpath, split, manifest)[i]
        == Example(i, Record(manifest[i].style, manifest[i].artwork,
                             ImagePath(folderpath, split, manifest[i].link)))
  {
  }

  /** A style filter that matches no row yields nothing, without an error. */
  lemma UnmatchedStyleYieldsNothing(config: Config, folderpath: string, split: string, manifest: seq<Row>)
    requires config != All
    requires forall i :: 0 <= i < |manifest| ==> manifest[i].style != config.Name()
    ensures Examples(config, folderpath, split, manifest) == []
  {
    var df := Frame(manifest);
    QueryNoMatch(df, config.Name());
  }

  /**
   The image path is `<folderpath>/<split>/<text after the last '/' of Link>`
   (no separator doubled after a folder that already ends in one), and its own
   basename is that of the `Link`.
   */
  lemma ImagePathShape(folderpath: string, split: string, link: string)
    requires split != [] && Sep !in split
    ensures ImagePath(folderpath, split, link) == DirPrefix(folderpath) + split + [Sep] + Basename(link)
    ensures Basename(ImagePath(folderpath, split, link)) == Basename(link)
  {
    var name := Basename(link);
    assert name == [] || name[0] != Sep;
    JoinThree(folderpath, split, name);
    assert [split] + [name] == [split, name];
    BasenameOfJoin(folderpath, [split], name);
  }

  /**
   A worked example: under `Baroque`, a manifest whose rows have the styles
   Baroque, Realism, Baroque yields rows 0 and 2 under their own keys.
   */
  lemma BaroqueScenario(m: seq<Row>)
    requires m == [Row("Baroque", "A1", "http://x/a.jpg"),
                   Row("Realism", "A2", "http://x/b.jpg"),
                   Row("Baroque", "A3", "http://x/c.jpg")]
    ensures Examples(Baroque, "/data", "train", m)
         == [Example(0, Record("Baroque", "A1", "/data/train/a.jpg")),
             Example(2, Record("Baroque", "A3", "/data/train/c.jpg"))]
  {
    var sel := [LabelledRow(0, m[0]), LabelledRow(2, m[2])];
    ScenarioSelect(m);
    assert Examples(Baroque, "/data", "train", m) == Emit("/data", "train", sel);
    ScenarioLiterals();
    ScenarioImage(m[0].link, "a.jpg");
    ScenarioImage(m[2].link, "c.jpg");
    EmitPair("/data", "train", sel[0], sel[1]);
  }

  /** Emitting a two-row frame. */
  lemma EmitPair(folderpath: string, split: string, a: LabelledRow, b: LabelledRow)
    ensures Emit(folderpath, split, [a, b]) == [ExampleOf(folderpath, split, a), ExampleOf(folderpath, split, b)]
  {
  }

  /** The worked example's filter keeps the first and the last row. */
  lemma ScenarioSelect(m: seq<Row>)
    requires |m| == 3 && m[0].style == "Baroque" && m[1].style == "Realism" && m[2].style == "Baroque"
    ensures Select(Baroque, Frame(m)) == [LabelledRow(0, m[0]), LabelledRow(2, m[2])]
  {
    var df := Frame(m);
    assert df == [LabelledRow(0, m[0]), LabelledRow(1, m[1]), LabelledRow(2, m[2])];
    assert df[1..][1..] == [LabelledRow(2, m[2])];
    assert Query(df[1..][1..], "Baroque") == [LabelledRow(2, m[2])];
    assert Query(df[1..], "Baroque") == [LabelledRow(2, m[2])];
  }

  /** The image path of a row of the worked example whose `Link` is `http://x/<name>`. */
  lemma ScenarioImage(link: string, name: string)
    requires Sep !in name && link == "http://x" + [Sep] + name
    ensures ImagePath("/data", "train", link) == "/data" + [Sep] + "train" + [Sep] + name
  {
    BasenameAfterSep("http://x", name);
    ImagePathShape("/data", "train", link);
    assert DirPrefix("/data") == "/data" + [Sep];
  }

  /** The string literals of the worked example, spelt with the separator. */
  lemma ScenarioLiterals()
    ensures "http://x/a.jpg" == "http://x" + [Sep] + "a.jpg"
    ensures "http://x/c.jpg" == "http://x" + [Sep] + "c.jpg"
    ensures "/data/train/a.jpg" == "/data" + [Sep] + "train" + [Sep] + "a.jpg"
    ensures "/data/train/c.jpg" == "/data" + [Sep] + "train" + [Sep] + "c.jpg"
  {
  }

  /**
   A `Link` that ends in `/` has an empty basename, so its image path is the
   split's folder itself, with a trailing separator.
   */
  lemma TrailingSepLink(folderpath: string, split: string, link: string)
    requires split != [] && Sep !in split
    requires link != [] && link[|link| - 1] == Sep
    ensures ImagePath(folderpath, split, link) == DirPrefix(folderpath) + split + [Sep]
  {
    BasenameOfTrailingSep(link);
    ImagePathShape(folderpath, split, link);
  }
}
