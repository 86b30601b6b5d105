/** The file system as both programs see it: CSV files held as rows of cells. */
module Storage {

  /** A catalog row, already split into its cells. */
  type Row = seq<string>

  /** Files on disk, by path, as the rows they hold. */
  type Disk = map<string, seq<Row>>
}
