/**
 * The catalog extractor: turns a flat playlist listing into CSV rows
 * `url, artist, title`, one per listed video, with no header row.
 * The listing service and the CSV writer are not modelled; the listing is a
 * given sequence of entries and the file system maps a path to the rows it holds.
 */
module CreatePlaylist {
  import opened Wrappers
  import opened Text
  import opened Storage

  /** One item of the flat listing: its video id and, when present, its display title. */
  datatype Entry = Entry(id: string, title: Option<string>)

  const WatchPrefix: string := "https://www.youtube.com/watch?v="

  /** Default output path of `salvar_playlist_csv`. */
  const DefaultOutput: string := "playlist.csv"

  /**
   * `extrair_artista_titulo`: the artist is the text before the first `" - "`
   * and the title the text after it, both stripped; without a separator the
   * artist is empty and the title is the whole name, stripped.
   */
  function ArtistTitle(name: string): (r: (string, string))
    ensures NoEdgeSpace(r.0) && NoEdgeSpace(r.1)
  {
    match FindSep(name)
    case None =>
      TrimSpec(name);
      ("", Trim(name))
    case Some(k) =>
      TrimSpec(name[..k]);
      TrimSpec(name[k + 3..]);
      (Trim(name[..k]), Trim(name[k + 3..]))
  }

  /** Both branches of the policy, stated through the first occurrence of the separator. */
  lemma ArtistTitleSplits(name: string)
    ensures !ContainsSep(name) ==> ArtistTitle(name) == ("", Trim(name))
    ensures ContainsSep(name) ==>
      exists k :: 0 <= k < |name| && FirstSepAt(name, k) && ArtistTitle(name) == (Trim(name[..k]), Trim(name[k + 3..]))
  {
    var r := FindSep(name);
    if r.Some? {
      assert FirstSepAt(name, r.value);
    }
  }

  /** Cutting at the first separator loses nothing: left, separator and right rebuild the name, and the left part holds no separator. */
  lemma SplitReassembles(name: string, k: int)
    requires FirstSepAt(name, k)
    ensures name[..k] + Sep + name[k + 3..] == name
    ensures !ContainsSep(name[..k])
  {
    assert name[k..k + 3] == Sep;
    assert name == name[..k] + name[k..k + 3] + name[k + 3..];
    forall j | 0 <= j < k
      ensures !SepAt(name[..k], j)
    {
      assert !SepAt(name, j);
    }
  }

  /**
   * Only the first separator splits: whatever follows it, further separators
   * included, stays in the title. `a + " -"` holding no separator is exactly
   * the condition for no separator to start inside `a`.
   */
  lemma {:induction false} SplitsAtFirstOnly(a: string, b: string)
    requires !ContainsSep(a + " -")
    ensures ArtistTitle(a + Sep + b) == (Trim(a), Trim(b))
  {
    var name := a + Sep + b;
    assert SepAt(name, |a|);
    forall j | 0 <= j < |a|
      ensures !SepAt(name, j)
    {
      var t := a + " -";
      assert !SepAt(t, j);
      assert name[j] == t[j] && name[j + 1] == t[j + 1] && name[j + 2] == t[j + 2];
    }
    assert FirstSepAt(name, |a|);
    assert name[..|a|] == a && name[|a| + 3..] == b;
  }

  lemma EmptyName()
    ensures ArtistTitle("") == ("", "")
  {
    TrimAllSpace("");
  }

  /** `item.get("title", "")`: a missing title reads as the empty name. */
  function DisplayName(e: Entry): (name: string)
    ensures name == "" <==> e.title.None? || e.title.value == ""
    ensures name != "" ==> e.title == Some(name)
  {
    e.title.GetOr("")
  }

  /** The row written for one listing entry (lines 30-32). */
  function RowOf(e: Entry): (row: Row)
    ensures |row| == 3 && row[0] == WatchPrefix + e.id
    ensures (row[1], row[2]) == ArtistTitle(DisplayName(e))
  {
    var (artist, title) := ArtistTitle(DisplayName(e));
    [WatchPrefix + e.id, artist, title]
  }

  /** A listed video `abc123` titled `"Artist X - Song Y"` becomes the row `url, "Artist X", "Song Y"`. */
  lemma ExampleRow()
    ensures RowOf(Entry("abc123", Some("Artist X - Song Y"))) == [WatchPrefix + "abc123", "Artist X", "Song Y"]
  {
    var e := Entry("abc123", Some("Artist X - Song Y"));
    assert DisplayName(e) == "Artist X - Song Y";
    ExampleSplit();
    var row := RowOf(e);
    assert row[1] == "Artist X" && row[2] == "Song Y";
    assert row == [row[0], row[1], row[2]];
  }

  lemma ExampleSplit()
    ensures ArtistTitle("Artist X - Song Y") == ("Artist X", "Song Y")
  {
    ExampleFieldsTrimmed();
    assert "Artist X - Song Y" == "Artist X" + Sep + "Song Y";
    ExampleArtistHasNoSep();
    SplitsAtFirstOnly("Artist X", "Song Y");
  }

  lemma ExampleFieldsTrimmed()
    ensures Trim("Artist X") == "Artist X" && Trim("Song Y") == "Song Y"
  {
    TrimUnchanged("Artist X");
    TrimUnchanged("Song Y");
  }

  lemma ExampleArtistHasNoSep()
    ensures !ContainsSep("Artist X -")
  {
    var t := "Artist X -";
    forall k | 0 <= k < |t|
      ensures !SepAt(t, k)
    {
    }
  }

  /** All rows the extractor writes: one per entry, in listing order, no header. */
  function CatalogRows(entries: seq<Entry>): (rows: seq<Row>)
    ensures |rows| == |entries|
    ensures forall i :: 0 <= i < |entries| ==> rows[i] == RowOf(entries[i])
  {
    if entries == [] then []
    else CatalogRows(entries[..|entries| - 1]) + [RowOf(entries[|entries| - 1])]
  }

  /**
   * `salvar_playlist_csv` after the listing is fetched: the loop writes the
   * rows one at a time into the output file, replacing whatever it held.
   */
  method SavePlaylistCsv(entries: seq<Entry>, path: string, disk: Disk) returns (disk': Disk)
    ensures disk' == disk[path := CatalogRows(entries)]
  {
    var written: seq<Row> := [];
    for i := 0 to |entries|
      invariant written == CatalogRows(entries[..i])
    {
      var url := WatchPrefix + entries[i].id;
      var (artist, title) := ArtistTitle(DisplayName(entries[i]));
      written := written + [[url, artist, title]];
      assert entries[..i + 1][..i] == entries[..i];
    }
    assert entries[..|entries|] == entries;
    disk' := disk[path := written];
  }
}
