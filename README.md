# get_music, modelled in Dafny

Two scripts turn a YouTube playlist into tagged audio files:

- `create_playlist.py` lists a playlist without downloading anything. For each video it derives an artist and a title from the display name by splitting on the first `" - "`. It writes one CSV row `url, artist, title` per video, with no header.
- `get_music.py` takes either a single `--url/--artist/--title` triple or a catalog file (`--playlist`, default `playlist.csv`). For each item it runs `yt-dlp -x`, optionally under `conda run -n ENV`, passing the artist and title as metadata. It then takes the newest `*.opus` file in the working directory, renames it to `"<artist> - <title>.<ext>"` and moves it to `~/Downloads`.

The model keeps the decisions these scripts make and drops the I/O around them:

- `text.dfy` (module `Text`) holds Python's argument-less `str.strip()` and the search for the separator `" - "`.
- `create_playlist.dfy` (module `CreatePlaylist`) holds the title-splitting policy, the entry-to-row mapping and the row-writing loop.
- `get_music.dfy` (module `GetMusic`) holds:
  - the catalog reader loop;
  - the artifact selection, done as a stable sort by modification time followed by taking the last element;
  - the command vector and the output name;
  - one call of `baixar`;
  - the mode decision of `main`, and its download loop with exit status.
- `workflow.dfy` (module `Workflow`) connects the two scripts: the CSV round trip, the extractor's output feeding the downloader, and the output file name parsing back into artist and title.
- `wrappers.dfy` holds `Option` and `Result`.
- `storage.dfy` (module `Storage`) holds the rows-of-cells view of CSV files that both scripts share.

External effects become parameters:

- The listing is a sequence of `Entry(id, title)`.
- Files on disk are a map from path to already-split rows.
- The working directory after a fetch is a list of `(name, mtime)` entries.
- The outcome of the k-th `yt-dlp` run is `fetch(k)`.
- `shlex.quote` is an arbitrary function `quote`.
- The home directory and the conda environment name are arguments.

Behaviour of the code the model keeps, where a reader might expect otherwise:

- `--playlist` needs a value; an empty value selects CSV mode but reads `playlist.csv`.
- Direct arguments count only when non-empty.
- The glob is `*.opus` whatever `ext` is.
- Catalog fields are not checked for emptiness.
- A `None` environment name and an empty one both mean "no conda".

## Model

| member | source | states |
|---|---|---|
| Text.Trim | create_playlist.py:11 | `strip()` never lengthens a string and leaves no white space at either edge |
| Text.IsSpace | create_playlist.py:11 | (predicate) the white space `strip()` removes: exactly the code points for which Python's `str.isspace()` holds |
| Text.TrimStartSpec | create_playlist.py:11 | left strip: the result is a suffix of the input, everything cut is white space, and the result does not start with white space |
| Text.TrimEndSpec | create_playlist.py:11 | right strip: the result is a prefix of the input, everything cut is white space, and the result does not end with white space |
| Text.TrimSpec | get_music.py:64 | `strip()` returns a contiguous piece of the input with only white space removed on either side, and no white space at either edge |
| Text.TrimIdempotent | get_music.py:64 | stripping twice is the same as stripping once |
| Text.TrimAllSpace | get_music.py:64 | a blank cell strips to the empty string |
| Text.SepAtIsSliceMatch | create_playlist.py:6 | the character-wise separator test at position `k` is exactly "the three characters at `k` are `" - "`" |
| Text.ContainsSep | create_playlist.py:6 | (predicate) `" - " in s`: some position starts the three characters `" - "` |
| Text.FindSep | create_playlist.py:6-7 | the split position exists exactly when `" - "` occurs, and it is the first occurrence |
| CreatePlaylist.ArtistTitle | create_playlist.py:5-11 | total on every string; both results have no white space at their edges |
| CreatePlaylist.ArtistTitleSplits | create_playlist.py:6-11 | without a separator the result is `("", strip(name))`; with one, it is the stripped text before and after the first occurrence |
| CreatePlaylist.SplitReassembles | create_playlist.py:7 | left part, separator and right part rebuild the name, and the untrimmed left part contains no separator |
| CreatePlaylist.SplitsAtFirstOnly | create_playlist.py:7 | when no separator starts inside `a` (not even one completed by the `" -"` that follows it), `ArtistTitle(a + " - " + b)` is `(strip(a), strip(b))` for any `b`, so later separators stay in the title |
| CreatePlaylist.DisplayName | create_playlist.py:31 | the name to split is empty exactly when the title is missing or empty, and is the title itself otherwise |
| CreatePlaylist.EmptyName | create_playlist.py:31 | a missing or empty title yields `("", "")` |
| CreatePlaylist.ExampleSplit | create_playlist.py:5-11 | `"Artist X - Song Y"` splits into `("Artist X", "Song Y")` |
| CreatePlaylist.RowOf | create_playlist.py:30-32 | each row has three cells: the watch URL built from the id, then the artist and title of the display name |
| CreatePlaylist.ExampleRow | create_playlist.py:29-32 | video `abc123` named `"Artist X - Song Y"` gives the row `watch?v=abc123, Artist X, Song Y` |
| CreatePlaylist.CatalogRows | create_playlist.py:27-32 | one row per listing entry, in listing order, with no header row |
| CreatePlaylist.SavePlaylistCsv | create_playlist.py:25-32 | the loop leaves the output path holding exactly the catalog rows and changes no other file |
| GetMusic.IsItemRow | get_music.py:62-63 | (predicate) a row is read exactly when it has at least three cells; the empty row is among those skipped |
| GetMusic.ItemOf | get_music.py:64 | the url, artist and title of an item read from a row have no white space at their edges |
| GetMusic.CatalogItems | get_music.py:57-66 | the reader never yields more items than there are rows |
| GetMusic.KeptIndicesSound | get_music.py:61-65 | the k-th item is the first three cells, stripped, of the k-th kept row, which has at least three cells; later cells are ignored |
| GetMusic.KeptIndicesComplete | get_music.py:62-63 | kept rows appear in increasing order, and every row with three or more cells is kept, so the result is an order-preserving subsequence |
| GetMusic.ReadPlaylistCsv | get_music.py:57-66 | the loop with `continue` computes exactly the catalog items of the rows |
| GetMusic.ShortRowsSkipped | get_music.py:62-63 | rows `a,b,c` / `x,y` / empty give exactly the item `(a, b, c)`, without error |
| GetMusic.BlankRowKept | get_music.py:62-65 | a row of blank cells is kept as `("", "", "")` |
| GetMusic.MatchesOpusGlob | get_music.py:39 | (predicate) `*.opus` matches a name that ends in `.opus` and does not start with `.`, as the glob skips hidden names |
| GetMusic.OpusFiles | get_music.py:39 | the glob returns only names that end in `.opus` and are not hidden, and it returns every such entry |
| GetMusic.Insert | get_music.py:39 | stable insertion adds exactly one element and loses none |
| GetMusic.SortByMtime | get_music.py:39 | the sort by modification time is a permutation of its input |
| GetMusic.InsertKeepsSorted | get_music.py:39 | inserting into a sorted list keeps it sorted by mtime |
| GetMusic.SortIsSorted | get_music.py:39 | the sort's output is ordered by mtime |
| GetMusic.LastOfSortedIsNewest | get_music.py:39-43 | `files[-1]` is a match with maximal mtime, and every later match in the listing is strictly older |
| GetMusic.NewestOpus | get_music.py:39-43 | selection fails with NoOpusFound exactly when nothing matches `*.opus`; otherwise it returns the newest match, ties going to the later listing position |
| GetMusic.Metadata | get_music.py:33 | the postprocessor argument is `-metadata artist=`, the quoted artist, ` -metadata title=`, the quoted title, and nothing else |
| GetMusic.Truthy | get_music.py:24 | (predicate) Python truthiness of an optional string: present and non-empty |
| GetMusic.Command | get_music.py:24-34 | the vector starts with `conda run -n ENV yt-dlp` when the environment name is non-empty and with `yt-dlp` otherwise, and ends with `-x url --postprocessor-args <metadata>` |
| GetMusic.OutputName | get_music.py:44 | the output name is the artist, then `" - "` at the artist's length, then the title, then `"." + ext` |
| GetMusic.DownloadsTarget | get_music.py:50-51 | the target path is the home directory, then `/Downloads/`, then the file name |
| GetMusic.Download | get_music.py:20-36 | every call issues the `yt-dlp` command for the item, whatever the fetch outcome |
| GetMusic.DownloadOutcome | get_music.py:20-52 | the command is always issued; a failed tool gives FetchFailed; no `.opus` match gives NoOpusFound; on success the newest match is renamed to `artist - title.ext` and moved under `home/Downloads` |
| GetMusic.DiscoveryIgnoresExt | get_music.py:39-44 | whether a file is found, and which one, does not depend on `ext` |
| GetMusic.DirectMode | get_music.py:89 | (predicate) direct mode is chosen when any of `--url`, `--artist`, `--title` is non-empty |
| GetMusic.FullTriple | get_music.py:97 | (predicate) a direct download needs all three of `--url`, `--artist`, `--title` non-empty |
| GetMusic.CatalogPath | get_music.py:105 | the catalog path is never empty: a non-empty `--playlist` value is the path read, as given; a missing or empty one reads `playlist.csv` |
| GetMusic.ChoosePlan | get_music.py:88-113 | a catalog path with any non-empty direct argument is a conflict; a partial triple is an error; a full triple is one download; otherwise the catalog at the given or default path is missing, empty, or a batch of its items |
| GetMusic.DownloadAll | get_music.py:117-118 | items are downloaded in catalog order, each with its own fetch outcome; the loop stops right after the first failure and completes only if every item succeeded |
| GetMusic.Run | get_music.py:87-118 | the plan is `ChoosePlan`; error plans download nothing; the exit status is 0 exactly when every planned download succeeded; a non-zero status after a planned download means the last download made failed; direct mode is the one-item case of the download loop |
| Workflow.ExtractedItems | create_playlist.py:29-32 | one item per listing entry, in listing order |
| Workflow.CatalogRoundTrip | get_music.py:57-66 | reading back the extractor's rows gives exactly the extracted items, for ids without trailing white space |
| Workflow.ExtractThenPlan | get_music.py:105-118 | catalog mode on a freshly written catalog plans exactly the extracted items, or reports an empty catalog when the listing was empty |
| Workflow.DefaultPathsAgree | get_music.py:105 | with no flags, the downloader reads the file the extractor writes by default |
| Workflow.OutputStemParsesBack | get_music.py:44 | the output name is `stem + "." + ext`, and the stem splits back into the same artist and title when they are stripped and no separator starts inside the artist |

## Left out

- The playlist listing through `YoutubeDL.extract_info` and its options is left out because it is a foreign library. Its result is the given sequence of entries.
- A listing entry whose title is present but `None` (a TypeError in the source) is left out, and so is one without an `id` (a KeyError).
- CSV quoting, dialects and encoding in both the reader and the writer are left out because they belong to a library. Rows are already-split sequences of cells.
- Running `conda` and `yt-dlp`, with their exit codes and output, is left out because it is process I/O. The outcome of each run is a parameter, and `check=True` is modelled as "failure aborts the batch".
- `shlex.quote` is left out because it is library code. The model treats it as an arbitrary function `quote`.
- `glob`, `os.path.getmtime`, `os.path.exists`, `os.rename` and `Path.home()` are left out because they touch the filesystem. The working directory is a list of `(name, mtime)` pairs; existence is membership in the disk map; the two renames are recorded as paths, not performed.
- NewestOpus: modification times are integers, while the source uses float seconds.
- OpusFiles: covers neither a directory whose name matches the glob nor case-insensitive file systems.
- DownloadOutcome: the target is the string `home + "/Downloads/" + name`. Path joining when the name contains `/`, and overwriting an existing target, are not modelled.
- DownloadOutcome: both renames (get_music.py:47 and get_music.py:52) are assumed to succeed. An item the source aborts on there counts as saved: an artist or title containing `/`, a missing `~/Downloads`, or a move across file systems.
- Run: because both renames are assumed to succeed, a run that the source aborts at get_music.py:47 or get_music.py:52 can end here with exit status 0.
- `argparse`, `sys.exit` and every `print` message are left out because they are CLI plumbing. Outcomes are a `Plan` and an exit status.
- A catalog path that exists but cannot be opened (for example a directory) is left out.
- The module-level example call at the end of `create_playlist.py` is left out because it is a script side effect.
- The `CONDA_ENV` global is passed as a parameter instead of being modelled as global state.
