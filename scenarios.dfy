/** Uses of the library that combine several operations. */
module Scenarios {
  import opened GameRecords
  import opened Library
  import Csv

  /** Two SNES games listed alphabetically whatever order they were added in. */
  method ListsAlphabetically() returns (titles: seq<string>)
    ensures titles == ["Chrono Trigger", "Earthbound"]
  {
    var lib := new GameLibrary([]);
    lib.Add("SNES", "Earthbound");
    ghost var a := lib.rows[0];
    assert lib.rows == [a];
    lib.Add("SNES", "Chrono Trigger");
    ghost var b := lib.rows[1];
    assert lib.rows == [a, b];
    EarthboundAfterChronoTrigger(a, b);
    var games := lib.GetGames();
    TwoInOrder(games, b, a);
    titles := [games[0].record.title, games[1].record.title];
  }

  lemma EarthboundAfterChronoTrigger(a: Game, b: Game)
    requires a.record.platform == b.record.platform
    requires a.record.title == "Earthbound" && b.record.title == "Chrono Trigger"
    ensures !KeyLessEq(a, b)
  {
  }

  /** A sorted listing of two rows where `first` must precede `second`. */
  lemma TwoInOrder(games: seq<Game>, first: Game, second: Game)
    requires Query.SortedBy(games, KeyLessEq)
    requires multiset(games) == multiset{second, first}
    requires !KeyLessEq(second, first)
    ensures games == [first, second]
  {
    assert |games| == |multiset(games)| == 2;
    assert multiset(games) == multiset{games[0], games[1]} by {
      assert games == [games[0], games[1]];
    }
    assert KeyLessEq(games[0], games[1]);
  }

  /** Exporting a library and importing the file into an empty library opens
      the same file and copies every row's values, in display order, when no
      value holds a comma or a line break. */
  method CopyThroughCsv(src: GameLibrary, path: string) returns (dst: GameLibrary, ok: bool)
    requires src.Valid()
    requires forall g :: g in src.rows ==> Csv.NoCommas(g.record) && Csv.NoLineBreaks(g.record)
    ensures fresh(dst) && dst.Valid() && ok
    ensures RecordsOf(dst.rows) == RecordsOf(src.GetGames())
  {
    var file, text := src.Export(path);
    dst := new GameLibrary([]);
    var read;
    read, ok := dst.Import(file, text);
    Csv.WithCsvIdempotent(path);
    assert read == file;
    var games := src.GetGames();
    forall g | g in games
      ensures Csv.NoCommas(g.record) && Csv.NoLineBreaks(g.record)
    {
      assert g in multiset(src.rows);
    }
    Csv.ExportedFileReadsBack(games);
    Csv.ImportReadsExport(games);
    assert dst.rows[0..] == dst.rows;
  }
}
