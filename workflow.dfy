/**
 * How the two scripts fit together through the catalog file: what the
 * extractor writes is what the downloader reads back, and the name given to a
 * downloaded file splits back into the artist and title it was built from.
 */
module Workflow {
  import opened Wrappers
  import opened Text
  import opened Storage
  import opened CreatePlaylist
  import opened GetMusic

  /** Ids whose watch URL survives the reader's stripping: no trailing white space. */
  predicate UrlSafeId(id: string) {
    id == [] || !IsSpace(id[|id| - 1])
  }

  /** The item the extractor means for one listing entry. */
  function ExtractedItem(e: Entry): (item: Item)
    ensures item.url == WatchPrefix + e.id
    ensures (item.artist, item.title) == ArtistTitle(DisplayName(e))
  {
    var (artist, title) := ArtistTitle(DisplayName(e));
    Item(WatchPrefix + e.id, artist, title)
  }

  function ExtractedItems(entries: seq<Entry>): (items: seq<Item>)
    ensures |items| == |entries|
    ensures forall i :: 0 <= i < |entries| ==> items[i] == ExtractedItem(entries[i])
  {
    if entries == [] then []
    else ExtractedItems(entries[..|entries| - 1]) + [ExtractedItem(entries[|entries| - 1])]
  }

  lemma WatchUrlUnchangedByTrim(id: string)
    requires UrlSafeId(id)
    ensures Trim(WatchPrefix + id) == WatchPrefix + id
  {
    var url := WatchPrefix + id;
    assert url[0] == 'h';
    assert url[|url| - 1] == if id == [] then '=' else id[|id| - 1];
    TrimUnchanged(url);
  }

  /** One written row reads back as the item it was written for. */
  lemma RowReadsBack(e: Entry)
    requires UrlSafeId(e.id)
    ensures IsItemRow(RowOf(e)) && ItemOf(RowOf(e)) == ExtractedItem(e)
  {
    var row := RowOf(e);
    WatchUrlUnchangedByTrim(e.id);
    TrimUnchanged(row[1]);
    TrimUnchanged(row[2]);
  }

  lemma CatalogItemsSnoc(rows: seq<Row>, row: Row)
    ensures CatalogItems(rows + [row]) == CatalogItems(rows) + (if IsItemRow(row) then [ItemOf(row)] else [])
  {
    assert (rows + [row])[..|rows|] == rows;
  }

  /**
   * Catalog round trip: reading back the rows the extractor wrote gives one
   * item per listing entry, in listing order, with the URL, artist and title
   * it was written with.
   */
  lemma {:induction false} CatalogRoundTrip(entries: seq<Entry>)
    requires forall i :: 0 <= i < |entries| ==> UrlSafeId(entries[i].id)
    ensures CatalogItems(CatalogRows(entries)) == ExtractedItems(entries)
    decreases |entries|
  {
    if entries != [] {
      var n := |entries|;
      var p, x := entries[..n - 1], entries[n - 1];
      assert forall i :: 0 <= i < |p| ==> p[i] == entries[i];
      CatalogRoundTrip(p);
      RowReadsBack(x);
      var rp := CatalogRows(p);
      assert CatalogRows(entries) == rp + [RowOf(x)];
      CatalogItemsSnoc(rp, RowOf(x));
      assert ExtractedItems(entries) == ExtractedItems(p) + [ExtractedItem(x)];
    }
  }

  /**
   * Running the downloader in catalog mode on the file the extractor just
   * wrote plans exactly the extracted items, or reports an empty catalog
   * when the playlist listed nothing.
   */
  lemma ExtractThenPlan(entries: seq<Entry>, args: Args, disk: Disk)
    requires !DirectMode(args)
    requires forall i :: 0 <= i < |entries| ==> UrlSafeId(entries[i].id)
    ensures ChoosePlan(args, disk[CatalogPath(args) := CatalogRows(entries)])
         == if entries == [] then CatalogEmpty(CatalogPath(args)) else Batch(ExtractedItems(entries))
  {
    CatalogRoundTrip(entries);
  }

  /** With no flags at all the downloader reads the file the extractor writes by default. */
  lemma DefaultPathsAgree(entries: seq<Entry>, disk: Disk)
    requires entries != []
    requires forall i :: 0 <= i < |entries| ==> UrlSafeId(entries[i].id)
    ensures ChoosePlan(Args(None, None, None, None), disk[DefaultOutput := CatalogRows(entries)])
         == Batch(ExtractedItems(entries))
  {
    assert CatalogPath(Args(None, None, None, None)) == DefaultOutput;
    ExtractThenPlan(entries, Args(None, None, None, None), disk);
  }

  /**
   * The stem of the output file name splits back into the artist and title
   * it was made from, provided they are stripped and no separator starts
   * inside the artist.
   */
  lemma OutputStemParsesBack(artist: string, title: string, ext: string)
    requires NoEdgeSpace(artist) && NoEdgeSpace(title)
    requires !ContainsSep(artist + " -")
    ensures var name := OutputName(artist, title, ext);
      |name| == |artist| + |title| + |ext| + 4
      && name[|name| - |ext| - 1..] == "." + ext
      && ArtistTitle(name[..|name| - |ext| - 1]) == (artist, title)
  {
    var name := OutputName(artist, title, ext);
    var stem := artist + Sep + title;
    assert name == stem + ("." + ext);
    assert name[..|stem|] == stem;
    SplitsAtFirstOnly(artist, title);
    TrimUnchanged(artist);
    TrimUnchanged(title);
  }
}
