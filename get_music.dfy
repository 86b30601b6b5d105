/**
 * The batch downloader: reads the catalog, decides the mode of operation from
 * the command-line flags, builds the `yt-dlp` command for each item, picks the
 * artifact the tool produced and names it `"<artist> - <title>.<ext>"`.
 * Running processes, globbing, reading mtimes and renaming files are not
 * modelled; their results are parameters.
 */
module GetMusic {
  import opened Wrappers
  import opened Text
  import opened Storage

  /** One work item: `(url, artist, title)`. */
  datatype Item = Item(url: string, artist: string, title: string)

  // ---------------------------------------------------------------------------
  // ler_playlist_csv

  /** Rows with fewer than three cells (the empty row among them) are skipped. */
  predicate IsItemRow(row: Row) {
    |row| >= 3
  }

  /** The item a kept row yields: its first three cells, stripped; later cells are ignored. */
  function ItemOf(row: Row): (item: Item)
    requires IsItemRow(row)
    ensures NoEdgeSpace(item.url) && NoEdgeSpace(item.artist) && NoEdgeSpace(item.title)
  {
    Item(Trim(row[0]), Trim(row[1]), Trim(row[2]))
  }

  /** The items read from a catalog: one per kept row, in row order. */
  function CatalogItems(rows: seq<Row>): (items: seq<Item>)
    ensures |items| <= |rows|
  {
    if rows == [] then []
    else
      var last := rows[|rows| - 1];
      CatalogItems(rows[..|rows| - 1]) + (if IsItemRow(last) then [ItemOf(last)] else [])
  }

  /** Positions of the rows the reader keeps. */
  ghost function KeptIndices(rows: seq<Row>): seq<nat> {
    if rows == [] then []
    else KeptIndices(rows[..|rows| - 1]) + (if IsItemRow(rows[|rows| - 1]) then [|rows| - 1] else [])
  }

  /** The k-th item is read from the row at the k-th kept position. */
  predicate ItemsFromRows(rows: seq<Row>, idx: seq<nat>, items: seq<Item>) {
    |idx| == |items|
    && forall k :: 0 <= k < |idx| ==> idx[k] < |rows| && IsItemRow(rows[idx[k]]) && items[k] == ItemOf(rows[idx[k]])
  }

  lemma ItemsFromRowsExtend(rows: seq<Row>, idx: seq<nat>, items: seq<Item>, row: Row)
    requires ItemsFromRows(rows, idx, items)
    ensures ItemsFromRows(rows + [row], idx, items)
    ensures IsItemRow(row) ==> ItemsFromRows(rows + [row], idx + [|rows|], items + [ItemOf(row)])
  {
    var r := rows + [row];
    assert forall i :: 0 <= i < |rows| ==> r[i] == rows[i];
  }

  /** Each item comes from a kept row: the k-th item is the stripped triple of the k-th kept row. */
  lemma {:induction false} KeptIndicesSound(rows: seq<Row>)
    ensures ItemsFromRows(rows, KeptIndices(rows), CatalogItems(rows))
    decreases |rows|
  {
    if rows != [] {
      var n := |rows|;
      var p, last := rows[..n - 1], rows[n - 1];
      assert rows == p + [last];
      KeptIndicesSound(p);
      ItemsFromRowsExtend(p, KeptIndices(p), CatalogItems(p), last);
    }
  }

  /** Kept positions increase, and every row with three cells or more is kept. */
  lemma {:induction false} KeptIndicesComplete(rows: seq<Row>)
    ensures forall k :: 0 <= k < |KeptIndices(rows)| ==> KeptIndices(rows)[k] < |rows|
    ensures forall k, l :: 0 <= k < l < |KeptIndices(rows)| ==> KeptIndices(rows)[k] < KeptIndices(rows)[l]
    ensures forall i :: 0 <= i < |rows| && IsItemRow(rows[i]) ==> i in KeptIndices(rows)
    decreases |rows|
  {
    if rows != [] {
      var n := |rows|;
      var p := rows[..n - 1];
      KeptIndicesComplete(p);
      var idx, ip := KeptIndices(rows), KeptIndices(p);
      forall i | 0 <= i < n && IsItemRow(rows[i])
        ensures i in idx
      {
        if i < n - 1 {
          assert p[i] == rows[i];
        }
      }
    }
  }

  /** The reader's loop: rows with fewer than three cells are skipped, the rest appended in order. */
  method ReadPlaylistCsv(rows: seq<Row>) returns (items: seq<Item>)
    ensures items == CatalogItems(rows)
  {
    items := [];
    for i := 0 to |rows|
      invariant items == CatalogItems(rows[..i])
    {
      assert rows[..i + 1][..i] == rows[..i];
      var row := rows[i];
      if |row| < 3 {
        continue;
      }
      var url, artist, title := Trim(row[0]), Trim(row[1]), Trim(row[2]);
      items := items + [Item(url, artist, title)];
    }
    assert rows[..|rows|] == rows;
  }

  /** A full row, a two-cell row and an empty row give exactly one item. */
  lemma ShortRowsSkipped()
    ensures CatalogItems([["a", "b", "c"], ["x", "y"], []]) == [Item("a", "b", "c")]
  {
    var rows: seq<Row> := [["a", "b", "c"], ["x", "y"], []];
    assert rows[..2][..1] == [["a", "b", "c"]];
    TrimUnchanged("a");
    TrimUnchanged("b");
    TrimUnchanged("c");
  }

  /** Cells are not checked for emptiness: a row of blanks is kept as an item of empty fields. */
  lemma BlankRowKept()
    ensures CatalogItems([[" ", "", "\t", "extra"]]) == [Item("", "", "")]
  {
    TrimAllSpace(" ");
    TrimAllSpace("");
    TrimAllSpace("\t");
  }

  // ---------------------------------------------------------------------------
  // baixar: artifact discovery

  /** A directory entry of the working directory with its modification time. */
  datatype FileEntry = FileEntry(name: string, mtime: int)

  /** `glob.glob("*.opus")`: the name ends in `.opus` and is not hidden. */
  predicate MatchesOpusGlob(name: string) {
    |name| >= 5 && name[|name| - 5..] == ".opus" && name[0] != '.'
  }

  /** The glob's matches, in listing order. */
  function OpusFiles(cwd: seq<FileEntry>): (r: seq<FileEntry>)
    ensures forall f :: f in r ==> f in cwd && MatchesOpusGlob(f.name)
    ensures forall i :: 0 <= i < |cwd| && MatchesOpusGlob(cwd[i].name) ==> cwd[i] in r
  {
    if cwd == [] then []
    else
      var last := cwd[|cwd| - 1];
      OpusFiles(cwd[..|cwd| - 1]) + (if MatchesOpusGlob(last.name) then [last] else [])
  }

  predicate SortedByMtime(s: seq<FileEntry>) {
    forall i, j :: 0 <= i < j < |s| ==> s[i].mtime <= s[j].mtime
  }

  /** Stable insertion: `f`, which came later in the input, goes after every entry whose mtime is not larger. */
  function Insert(s: seq<FileEntry>, f: FileEntry): (r: seq<FileEntry>)
    ensures |r| == |s| + 1
    ensures multiset(r) == multiset(s) + multiset{f}
  {
    if s == [] || s[|s| - 1].mtime <= f.mtime then s + [f]
    else
      assert s == s[..|s| - 1] + [s[|s| - 1]];
      Insert(s[..|s| - 1], f) + [s[|s| - 1]]
  }

  /** Python's `sorted(files, key=os.path.getmtime)`: a stable sort by mtime. */
  function SortByMtime(s: seq<FileEntry>): (r: seq<FileEntry>)
    ensures |r| == |s|
    ensures multiset(r) == multiset(s)
  {
    if s == [] then []
    else
      assert s == s[..|s| - 1] + [s[|s| - 1]];
      Insert(SortByMtime(s[..|s| - 1]), s[|s| - 1])
  }

  lemma {:induction false} InsertKeepsSorted(s: seq<FileEntry>, f: FileEntry)
    requires SortedByMtime(s)
    ensures SortedByMtime(Insert(s, f))
    decreases |s|
  {
    if s != [] && s[|s| - 1].mtime > f.mtime {
      var p, y := s[..|s| - 1], s[|s| - 1];
      InsertKeepsSorted(p, f);
      var q := Insert(p, f);
      forall i | 0 <= i < |q|
        ensures q[i].mtime <= y.mtime
      {
        assert q[i] in multiset(q);
        if q[i] != f {
          assert q[i] in multiset(p);
          var m :| 0 <= m < |p| && p[m] == q[i];
          assert s[m] == q[i];
        }
      }
    }
  }

  /** The sort is a sort: ordered by mtime (and, by its contract, a permutation). */
  lemma {:induction false} SortIsSorted(s: seq<FileEntry>)
    ensures SortedByMtime(SortByMtime(s))
    decreases |s|
  {
    if s != [] {
      SortIsSorted(s[..|s| - 1]);
      InsertKeepsSorted(SortByMtime(s[..|s| - 1]), s[|s| - 1]);
    }
  }

  /**
   * Entry `k` is the artifact the heuristic should pick: it matches the glob,
   * no match is newer, and every later match in the listing is strictly older.
   */
  predicate NewestAt(cwd: seq<FileEntry>, k: int) {
    0 <= k < |cwd| && MatchesOpusGlob(cwd[k].name)
    && (forall j :: 0 <= j < |cwd| && MatchesOpusGlob(cwd[j].name) ==> cwd[j].mtime <= cwd[k].mtime)
    && (forall j :: k < j < |cwd| && MatchesOpusGlob(cwd[j].name) ==> cwd[j].mtime < cwd[k].mtime)
  }

  /** The last element after inserting `f`: `f` itself unless the old last entry is strictly newer. */
  lemma InsertLast(s: seq<FileEntry>, f: FileEntry)
    ensures Insert(s, f)[|s|] == if s == [] || s[|s| - 1].mtime <= f.mtime then f else s[|s| - 1]
  {
  }

  /** Appending an entry that the glob skips, or one strictly older than the newest, keeps the newest. */
  lemma NewestKept(p: seq<FileEntry>, x: FileEntry, k: int)
    requires NewestAt(p, k)
    requires !MatchesOpusGlob(x.name) || x.mtime < p[k].mtime
    ensures NewestAt(p + [x], k)
  {
    var c := p + [x];
    assert forall j :: 0 <= j < |p| ==> c[j] == p[j];
  }

  /** Appending a match at least as new as every earlier match makes it the newest. */
  lemma NewestReplaced(p: seq<FileEntry>, x: FileEntry)
    requires MatchesOpusGlob(x.name)
    requires forall j :: 0 <= j < |p| && MatchesOpusGlob(p[j].name) ==> p[j].mtime <= x.mtime
    ensures NewestAt(p + [x], |p|)
  {
    var c := p + [x];
    assert forall j :: 0 <= j < |p| ==> c[j] == p[j];
  }

  /** No match listed means no entry passes the glob. */
  lemma NoMatches(cwd: seq<FileEntry>)
    requires OpusFiles(cwd) == []
    ensures forall j :: 0 <= j < |cwd| ==> !MatchesOpusGlob(cwd[j].name)
  {
  }

  /** Entry `k` is the newest match of `cwd` and the last element of its sorted matches. */
  predicate PickedAt(cwd: seq<FileEntry>, k: int) {
    NewestAt(cwd, k) && OpusFiles(cwd) != [] && SortByMtime(OpusFiles(cwd))[|OpusFiles(cwd)| - 1] == cwd[k]
  }

  /** Appending a match `x`: the sorted matches end in `x` unless the previous newest is strictly newer. */
  lemma SortedLastAfterMatch(p: seq<FileEntry>, x: FileEntry)
    requires MatchesOpusGlob(x.name)
    ensures var fp, files := OpusFiles(p), OpusFiles(p + [x]);
      |files| == |fp| + 1
      && SortByMtime(files)[|fp|] ==
           if fp == [] || SortByMtime(fp)[|fp| - 1].mtime <= x.mtime then x else SortByMtime(fp)[|fp| - 1]
  {
    var cwd := p + [x];
    assert cwd[..|cwd| - 1] == p;
    var fp, files := OpusFiles(p), OpusFiles(cwd);
    assert files == fp + [x];
    assert files[..|files| - 1] == fp && files[|files| - 1] == x;
    assert SortByMtime(files) == Insert(SortByMtime(fp), x);
    InsertLast(SortByMtime(fp), x);
  }

  /** Step: a first match of all is the one picked. */
  lemma PickedFirstMatch(p: seq<FileEntry>, x: FileEntry)
    requires OpusFiles(p) == [] && MatchesOpusGlob(x.name)
    ensures PickedAt(p + [x], |p|)
  {
    SortedLastAfterMatch(p, x);
    NoMatches(p);
    NewestReplaced(p, x);
  }

  /** Step: a match appended after the pick at `k` replaces it unless the pick is strictly newer. */
  lemma PickedAfterMatch(p: seq<FileEntry>, x: FileEntry, k: int)
    requires PickedAt(p, k) && MatchesOpusGlob(x.name)
    ensures PickedAt(p + [x], if p[k].mtime <= x.mtime then |p| else k)
  {
    var cwd := p + [x];
    SortedLastAfterMatch(p, x);
    if p[k].mtime <= x.mtime {
      NewestReplaced(p, x);
    } else {
      NewestKept(p, x, k);
      assert cwd[k] == p[k];
    }
  }

  /** Step: an entry the glob skips leaves the pick where it was. */
  lemma PickedAfterSkip(p: seq<FileEntry>, x: FileEntry, k: int)
    requires PickedAt(p, k) && !MatchesOpusGlob(x.name)
    ensures PickedAt(p + [x], k)
  {
    var cwd := p + [x];
    assert cwd[..|cwd| - 1] == p;
    assert OpusFiles(cwd) == OpusFiles(p);
    NewestKept(p, x, k);
    assert cwd[k] == p[k];
  }

  /** The last element of the sorted matches is the newest one, ties going to the later listing position. */
  lemma {:induction false} LastOfSortedIsNewest(cwd: seq<FileEntry>)
    requires OpusFiles(cwd) != []
    ensures exists k :: NewestAt(cwd, k) && SortByMtime(OpusFiles(cwd))[|OpusFiles(cwd)| - 1] == cwd[k]
  {
    var k := PickedIndex(cwd);
    assert PickedAt(cwd, k);
  }

  /** The position of the picked entry, found along the listing. */
  lemma {:induction false} PickedIndex(cwd: seq<FileEntry>) returns (k: int)
    requires OpusFiles(cwd) != []
    ensures PickedAt(cwd, k)
    decreases |cwd|
  {
    var p, x := cwd[..|cwd| - 1], cwd[|cwd| - 1];
    assert cwd == p + [x];
    assert OpusFiles(cwd) == OpusFiles(p) + (if MatchesOpusGlob(x.name) then [x] else []);
    if OpusFiles(p) == [] {
      PickedFirstMatch(p, x);
      k := |p|;
    } else {
      var j := PickedIndex(p);
      if MatchesOpusGlob(x.name) {
        PickedAfterMatch(p, x, j);
        k := if p[j].mtime <= x.mtime then |p| else j;
      } else {
        PickedAfterSkip(p, x, j);
        k := j;
      }
    }
  }

  datatype Failure =
    | FetchFailed   // `subprocess.run(..., check=True)` raised: the tool exited non-zero
    | NoOpusFound   // the RuntimeError raised when the glob matched nothing

  /**
   * `files[-1]` of `sorted(glob.glob("*.opus"), key=os.path.getmtime)`, or the
   * error raised when that list is empty.
   */
  function NewestOpus(cwd: seq<FileEntry>): (r: Result<string, Failure>)
    ensures r.Failure? <==> forall i :: 0 <= i < |cwd| ==> !MatchesOpusGlob(cwd[i].name)
    ensures r.Failure? ==> r.error == NoOpusFound
    ensures r.Success? ==> exists k :: NewestAt(cwd, k) && r.value == cwd[k].name
  {
    var files := SortByMtime(OpusFiles(cwd));
    if files == [] then
      assert OpusFiles(cwd) == [] by {
        assert |multiset(OpusFiles(cwd))| == 0;
      }
      Failure(NoOpusFound)
    else
      LastOfSortedIsNewest(cwd);
      Success(files[|files| - 1].name)
  }

  // ---------------------------------------------------------------------------
  // baixar: command vector and output name

  /** Python truthiness of an optional string flag: present and non-empty. */
  predicate Truthy(o: Option<string>) {
    o.Some? && o.value != ""
  }

  /** The metadata argument handed to the post-processor; `quote` stands for `shlex.quote`. */
  function Metadata(artist: string, title: string, quote: string -> string): (arg: string)
    ensures |arg| == 34 + |quote(artist)| + |quote(title)|
    ensures arg[..17] == "-metadata artist=" && arg[17..17 + |quote(artist)|] == quote(artist)
    ensures arg[|arg| - |quote(title)| - 17..] == " -metadata title=" + quote(title)
  {
    "-metadata artist=" + quote(artist) + " -metadata title=" + quote(title)
  }

  /** The argument vector of the `yt-dlp` invocation, run under `conda run -n ENV` when the environment name is truthy. */
  function Command(env: Option<string>, url: string, artist: string, title: string, quote: string -> string): (cmd: seq<string>)
    ensures |cmd| == if Truthy(env) then 9 else 5
    ensures Truthy(env) ==> cmd[..5] == ["conda", "run", "-n", env.value, "yt-dlp"]
    ensures !Truthy(env) ==> cmd[0] == "yt-dlp"
    ensures cmd[|cmd| - 4..] == ["-x", url, "--postprocessor-args", Metadata(artist, title, quote)]
  {
    var prefix := if Truthy(env) then ["conda", "run", "-n", env.value, "yt-dlp"] else ["yt-dlp"];
    prefix + ["-x", url, "--postprocessor-args", Metadata(artist, title, quote)]
  }

  /** Default target encoding of `baixar`. */
  const DefaultExt: string := "opus"

  /** `f"{artist} - {title}.{ext}"`. */
  function OutputName(artist: string, title: string, ext: string): (name: string)
    ensures |name| == |artist| + |title| + |ext| + 4
    ensures name[..|artist|] == artist && SepAt(name, |artist|)
    ensures name[|artist| + 3..|name| - |ext| - 1] == title && name[|name| - |ext| - 1..] == "." + ext
  {
    artist + Sep + title + "." + ext
  }

  /** Where the renamed artifact ends up: `Path.home() / "Downloads" / name`. */
  function DownloadsTarget(home: string, name: string): (path: string)
    ensures |path| == |home| + 11 + |name|
    ensures path[..|home|] == home && path[|home|..|home| + 11] == "/Downloads/"
    ensures path[|path| - |name|..] == name
  {
    home + "/Downloads/" + name
  }

  /** What the fetch tool did: exited non-zero, or succeeded leaving this working directory listing. */
  datatype FetchOutcome = ToolFailed | ToolSucceeded(cwd: seq<FileEntry>)

  /** The two renames of a successful item: the artifact, its canonical name, the final path. */
  datatype Saved = Saved(source: string, renamed: string, target: string)

  /** One call of `baixar`: the command it ran and how it ended. */
  datatype Step = Step(command: seq<string>, result: Result<Saved, Failure>)

  /**
   * `baixar(url, artist, title, ext)`: the command is always issued; a failed
   * tool stops the item before discovery; discovery globs `*.opus` whatever
   * `ext` is, while the output name uses `ext`.
   */
  function Download(item: Item, ext: string, env: Option<string>, quote: string -> string,
                    home: string, fetch: FetchOutcome): (step: Step)
    ensures step.command == Command(env, item.url, item.artist, item.title, quote)
  {
    var cmd := Command(env, item.url, item.artist, item.title, quote);
    match fetch
    case ToolFailed => Step(cmd, Failure(FetchFailed))
    case ToolSucceeded(cwd) =>
      match NewestOpus(cwd)
      case Failure(e) => Step(cmd, Failure(e))
      case Success(source) =>
        var out := OutputName(item.artist, item.title, ext);
        Step(cmd, Success(Saved(source, out, DownloadsTarget(home, out))))
  }

  /**
   * How one call of `baixar` ends: the command is always issued; a failed
   * tool stops the item before discovery; discovery globs `*.opus` whatever
   * `ext` is, while the output name uses `ext`.
   */
  lemma DownloadOutcome(item: Item, ext: string, env: Option<string>, quote: string -> string,
                        home: string, fetch: FetchOutcome)
    ensures var step := Download(item, ext, env, quote, home, fetch);
      step.command == Command(env, item.url, item.artist, item.title, quote)
      && (step.result == Failure(FetchFailed) <==> fetch.ToolFailed?)
      && (step.result == Failure(NoOpusFound) <==>
           fetch.ToolSucceeded? && forall i :: 0 <= i < |fetch.cwd| ==> !MatchesOpusGlob(fetch.cwd[i].name))
      && (step.result.Success? ==>
           fetch.ToolSucceeded?
           && (exists k :: NewestAt(fetch.cwd, k) && step.result.value.source == fetch.cwd[k].name)
           && step.result.value.renamed == OutputName(item.artist, item.title, ext)
           && step.result.value.target == DownloadsTarget(home, step.result.value.renamed))
  {
  }

  /** The extension only names the output: whether a file is found, and which, does not depend on it. */
  lemma DiscoveryIgnoresExt(item: Item, ext1: string, ext2: string, env: Option<string>,
                            quote: string -> string, home: string, fetch: FetchOutcome)
    ensures var s1, s2 := Download(item, ext1, env, quote, home, fetch), Download(item, ext2, env, quote, home, fetch);
      s1.result.Success? == s2.result.Success?
      && (s1.result.Success? ==> s1.result.value.source == s2.result.value.source)
      && (s1.result.Failure? ==> s1.result.error == s2.result.error)
  {
  }

  // ---------------------------------------------------------------------------
  // main

  /** The parsed flags; `None` is a flag that was not given. */
  datatype Args = Args(url: Option<string>, artist: Option<string>, title: Option<string>, playlist: Option<string>)

  /** What `main` decides to do before downloading anything. */
  datatype Plan =
    | Conflict                    // catalog path and direct arguments together
    | IncompleteTriple            // some but not all of url, artist, title
    | Single(item: Item)          // one explicit download
    | CatalogMissing(path: string)
    | CatalogEmpty(path: string)  // the file holds no row with three cells
    | Batch(items: seq<Item>)     // every catalog item, in catalog order

  /** `args.url or args.artist or args.title`. */
  predicate DirectMode(args: Args) {
    Truthy(args.url) || Truthy(args.artist) || Truthy(args.title)
  }

  predicate FullTriple(args: Args) {
    Truthy(args.url) && Truthy(args.artist) && Truthy(args.title)
  }

  const DefaultCatalog: string := "playlist.csv"

  /** `args.playlist if args.playlist else "playlist.csv"`: an empty path falls back to the default. */
  function CatalogPath(args: Args): (path: string)
    ensures path != ""
    ensures Truthy(args.playlist) ==> path == args.playlist.value
    ensures !Truthy(args.playlist) ==> path == DefaultCatalog
  {
    if Truthy(args.playlist) then args.playlist.value else DefaultCatalog
  }

  /** The mode-selection decision of `main`, over the flags and the files present. */
  function ChoosePlan(args: Args, disk: Disk): (p: Plan)
    ensures p.Conflict? <==> args.playlist.Some? && DirectMode(args)
    ensures p.IncompleteTriple? <==> args.playlist.None? && DirectMode(args) && !FullTriple(args)
    ensures p.Single? <==> args.playlist.None? && FullTriple(args)
    ensures p.Single? ==> p.item == Item(args.url.value, args.artist.value, args.title.value)
    ensures p.CatalogMissing? <==> !DirectMode(args) && CatalogPath(args) !in disk
    ensures p.CatalogEmpty? <==> !DirectMode(args) && CatalogPath(args) in disk && CatalogItems(disk[CatalogPath(args)]) == []
    ensures p.Batch? <==> !DirectMode(args) && CatalogPath(args) in disk && CatalogItems(disk[CatalogPath(args)]) != []
    ensures (p.CatalogMissing? || p.CatalogEmpty?) ==> p.path == CatalogPath(args)
    ensures p.Batch? ==> p.items == CatalogItems(disk[CatalogPath(args)])
  {
    if args.playlist.Some? && DirectMode(args) then Conflict
    else if DirectMode(args) then
      if FullTriple(args) then Single(Item(args.url.value, args.artist.value, args.title.value))
      else IncompleteTriple
    else
      var path := CatalogPath(args);
      if path !in disk then CatalogMissing(path)
      else
        var items := CatalogItems(disk[path]);
        if items == [] then CatalogEmpty(path) else Batch(items)
  }

  /** The items a plan downloads: none for the error plans. */
  function Planned(p: Plan): seq<Item> {
    match p
    case Single(item) => [item]
    case Batch(items) => items
    case _ => []
  }

  predicate AllSucceeded(log: seq<Step>) {
    forall k :: 0 <= k < |log| ==> log[k].result.Success?
  }

  /** The run stopped because its last download failed. */
  predicate EndsInFailure(log: seq<Step>) {
    log != [] && log[|log| - 1].result.Failure?
  }

  /**
   * `log` is what downloading `items` one after the other produced, the k-th
   * call seeing fetch outcome `fetch(k)`: it stops right after the first failure.
   */
  predicate RanInOrder(items: seq<Item>, log: seq<Step>, env: Option<string>, quote: string -> string,
                       home: string, fetch: nat -> FetchOutcome) {
    |log| <= |items|
    && (forall k :: 0 <= k < |log| ==> log[k] == Download(items[k], DefaultExt, env, quote, home, fetch(k)))
    && (forall k :: 0 <= k < |log| - 1 ==> log[k].result.Success?)
  }

  /** Running the next item after a run of successes keeps the log in order. */
  lemma RanInOrderExtend(items: seq<Item>, log: seq<Step>, step: Step, env: Option<string>, quote: string -> string,
                         home: string, fetch: nat -> FetchOutcome)
    requires RanInOrder(items, log, env, quote, home, fetch) && AllSucceeded(log) && |log| < |items|
    requires step == Download(items[|log|], DefaultExt, env, quote, home, fetch(|log|))
    ensures RanInOrder(items, log + [step], env, quote, home, fetch)
  {
    var log' := log + [step];
    assert forall k :: 0 <= k < |log| ==> log'[k] == log[k];
  }

  /** The `for` loop of `main` over the catalog items: sequential, aborting on the first exception. */
  method DownloadAll(items: seq<Item>, env: Option<string>, quote: string -> string,
                     home: string, fetch: nat -> FetchOutcome) returns (log: seq<Step>, completed: bool)
    ensures RanInOrder(items, log, env, quote, home, fetch)
    ensures completed <==> |log| == |items| && AllSucceeded(log)
    ensures !completed ==> EndsInFailure(log)
  {
    log := [];
    var i := 0;
    while i < |items|
      invariant 0 <= i <= |items| && |log| == i
      invariant RanInOrder(items, log, env, quote, home, fetch)
      invariant AllSucceeded(log)
    {
      var step := Download(items[i], DefaultExt, env, quote, home, fetch(i));
      RanInOrderExtend(items, log, step, env, quote, home, fetch);
      log := log + [step];
      if step.result.Failure? {
        return log, false;
      }
      i := i + 1;
    }
    completed := true;
  }

  /**
   * `main`: validate the flags, then download one item or the whole catalog.
   * Exit status 1 stands for `sys.exit(1)` and for an uncaught exception.
   */
  method Run(args: Args, disk: Disk, env: Option<string>, quote: string -> string,
             home: string, fetch: nat -> FetchOutcome) returns (plan: Plan, log: seq<Step>, exitCode: int)
    ensures plan == ChoosePlan(args, disk)
    ensures RanInOrder(Planned(plan), log, env, quote, home, fetch)
    ensures exitCode == 0 <==> (plan.Single? || plan.Batch?) && |log| == |Planned(plan)| && AllSucceeded(log)
    ensures exitCode == 0 || exitCode == 1
    ensures (plan.Single? || plan.Batch?) && exitCode != 0 ==> EndsInFailure(log)
  {
    var usingCsv := args.playlist.Some?;
    var usingArgs := Truthy(args.url) || Truthy(args.artist) || Truthy(args.title);
    if usingCsv && usingArgs {
      assert ChoosePlan(args, disk) == Conflict;
      return Conflict, [], 1;
    }
    if usingArgs {
      if !(Truthy(args.url) && Truthy(args.artist) && Truthy(args.title)) {
        assert ChoosePlan(args, disk) == IncompleteTriple;
        return IncompleteTriple, [], 1;
      }
      var item := Item(args.url.value, args.artist.value, args.title.value);
      assert ChoosePlan(args, disk) == Single(item);
      // One call of `baixar`; an exception it raises ends the program, as a failed batch item does.
      var completed;
      log, completed := DownloadAll([item], env, quote, home, fetch);
      return Single(item), log, if completed then 0 else 1;
    }
    var path := if Truthy(args.playlist) then args.playlist.value else DefaultCatalog;
    assert path == CatalogPath(args);
    if path !in disk {
      assert ChoosePlan(args, disk) == CatalogMissing(path);
      return CatalogMissing(path), [], 1;
    }
    var items := ReadPlaylistCsv(disk[path]);
    if items == [] {
      assert ChoosePlan(args, disk) == CatalogEmpty(path);
      return CatalogEmpty(path), [], 1;
    }
    assert ChoosePlan(args, disk) == Batch(items);
    var completed;
    log, completed := DownloadAll(items, env, quote, home, fetch);
    assert Planned(Batch(items)) == items;
    plan, exitCode := Batch(items), if completed then 0 else 1;
  }
}
