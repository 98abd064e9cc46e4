/**
 * The game library: one `library` table of games and a `saved` flag that the
 * mutators clear and `save` sets again. Queries filter the table and list the
 * result in display order (platform, then title).
 */
module Library {
  import opened Wrappers
  import opened Text
  import opened Query
  import opened GameRecords
  import opened Csv

  /** The optional arguments of `update`: `None` keeps the stored value. */
  datatype Patch = Patch(
    platform: Option<string>,
    platformId: Option<string>,
    title: Option<string>,
    titleId: Option<string>,
    cover: Option<string>,
    coverId: Option<string>,
    releaseDate: Option<string>,
    genres: Option<string>)
  {
    /** Every field is supplied, so the stored row is never read. */
    predicate Complete()
    {
      && platform.Some? && platformId.Some? && title.Some? && titleId.Some?
      && cover.Some? && coverId.Some? && releaseDate.Some? && genres.Some?
    }

    /** The values `update` writes over row `r`. */
    function ApplyTo(r: Record): Record
    {
      Record(platform.GetOr(r.platform), platformId.GetOr(r.platformId), title.GetOr(r.title),
             titleId.GetOr(r.titleId), cover.GetOr(r.cover), coverId.GetOr(r.coverId),
             releaseDate.GetOr(r.releaseDate), genres.GetOr(r.genres))
    }

    /** The values of a complete patch. */
    function Values(): (r: Record)
      requires Complete()
      ensures forall stored: Record :: ApplyTo(stored) == r
    {
      Record(platform.value, platformId.value, title.value, titleId.value,
             cover.value, coverId.value, releaseDate.value, genres.value)
    }
  }

  /** `update(uid)` with every field omitted. */
  const Unchanged := Patch(None, None, None, None, None, None, None, None)

  /** A patch that supplies nothing leaves a row as it was. */
  lemma UnchangedKeepsRow(r: Record)
    ensures Unchanged.ApplyTo(r) == r
  {
  }

  /** The rows `getGamesByQuery(query, platform)` returns: on `platform` unless it
      is empty, with `query` in one of the seven columns after platform. */
  ghost predicate MatchesQuery(g: Game, query: string, platform: string)
  {
    var r := g.record;
    && (platform == "" || r.platform == platform)
    && (|| Like(r.platformId, query) || Like(r.title, query) || Like(r.titleId, query)
        || Like(r.cover, query) || Like(r.coverId, query) || Like(r.releaseDate, query)
        || Like(r.genres, query))
  }

  /** The rows `getGamesBySearch` returns: on `platform` unless it is empty, with
      each term in its own column. */
  ghost predicate MatchesSearch(g: Game, platform: string, platformId: string, title: string,
                                titleId: string, cover: string, coverId: string,
                                releaseDate: string, genres: string)
  {
    var r := g.record;
    && (platform == "" || r.platform == platform)
    && Like(r.platformId, platformId) && Like(r.title, title) && Like(r.titleId, titleId)
    && Like(r.cover, cover) && Like(r.coverId, coverId) && Like(r.releaseDate, releaseDate)
    && Like(r.genres, genres)
  }

  /** `DISTINCT` over values already in order. */
  function Distinct(s: seq<string>): (r: seq<string>)
    requires SortedBy(s, LessEq)
    ensures forall i, j :: 0 <= i < j < |r| ==> Less(r[i], r[j])
    ensures forall x :: x in r <==> x in s
  {
    if |s| <= 1 then s
    else if s[0] == s[1] then Distinct(s[1..])
    else
      var rest := Distinct(s[1..]);
      assert forall k :: 0 <= k < |rest| ==> Less(s[0], rest[k]) by {
        forall k | 0 <= k < |rest|
          ensures Less(s[0], rest[k])
        {
          assert rest[k] in s[1..];
          var m :| 1 <= m < |s| && s[m] == rest[k];
          if s[0] == s[m] && m > 1 {
            LessEqAntisymmetric(s[0], s[1]);
          }
        }
      }
      [s[0]] + rest
  }

  class GameLibrary {
    /** The `library` table, in storage order. */
    var rows: seq<Game>
    /** No change since the last commit. */
    var saved: bool

    /** `id` is the table's primary key. */
    ghost predicate Valid()
      reads this
    {
      UniqueBy(rows, GameId)
    }

    /** Opens a library file that holds `stored`. */
    constructor (stored: seq<Game>)
      requires UniqueBy(stored, GameId)
      ensures Valid() && rows == stored && saved
    {
      rows := stored;
      saved := true;
    }

    /** Inserts one row with a fresh id; the optional columns default to empty text. */
    method Add(platform: string, title: string, platformId: string := "", titleId: string := "",
               cover: string := "", coverId: string := "", releaseDate: string := "",
               genres: string := "")
      requires Valid()
      modifies this
      ensures Valid() && !saved
      ensures |rows| == |old(rows)| + 1 && rows[..|old(rows)|] == old(rows)
      ensures rows[|old(rows)|].record
           == Record(platform, platformId, title, titleId, cover, coverId, releaseDate, genres)
      ensures forall g :: g in old(rows) ==> g.id != rows[|old(rows)|].id
      ensures GetGamesById(rows[|old(rows)|].id) == Some(rows[|old(rows)|])
    {
      var id := NextId(rows);
      var g := Game(id, Record(platform, platformId, title, titleId, cover, coverId, releaseDate, genres));
      forall i | 0 <= i < |rows|
        ensures GameId(rows[i]) != GameId(g)
      {
        assert rows[i] in rows;
      }
      rows := rows + [g];
      saved := false;
    }

    /** Deletes every row with this platform and title, and no other. */
    method Remove(platform: string, title: string)
      requires Valid()
      modifies this
      ensures Valid() && !saved
      ensures forall g :: multiset(rows)[g]
                       == if g.record.platform == platform && g.record.title == title then 0
                          else multiset(old(rows))[g]
    {
      rows := Where(rows, (g: Game) => !(g.record.platform == platform && g.record.title == title));
      SubMultisetKeepsUnique(old(rows), rows, GameId);
      saved := false;
    }

    /** Rewrites row `uid` with the supplied fields and its own values for the
        others. An id outside the signed 64-bit range cannot be bound, and
        reading an omitted field of a row that does not exist fails; then
        nothing changes. With every field supplied a missing row is simply
        not updated. */
    method Update(uid: int, patch: Patch) returns (ok: bool)
      requires Valid()
      modifies this
      ensures Valid()
      ensures ok <==> Bindable(uid) && (patch.Complete() || exists g :: g in old(rows) && g.id == uid)
      ensures !ok ==> rows == old(rows) && saved == old(saved)
      ensures ok ==> !saved && |rows| == |old(rows)|
      ensures ok ==> forall i :: 0 <= i < |rows| ==>
                       rows[i] == if old(rows)[i].id == uid
                                  then Game(uid, patch.ApplyTo(old(rows)[i].record))
                                  else old(rows)[i]
    {
      if !Bindable(uid) {
        return false;
      }
      var game := GetGamesById(uid);
      if game.None? && !patch.Complete() {
        return false;
      }
      var prev := rows;
      var values: Record;
      if game.Some? {
        values := patch.ApplyTo(game.value.record);
        forall i | 0 <= i < |prev| && prev[i].id == uid
          ensures prev[i] == game.value
        {
          var k :| 0 <= k < |prev| && prev[k] == game.value;
        }
      } else {
        values := patch.Values();
      }
      rows := seq(|prev|, i requires 0 <= i < |prev| =>
                    if prev[i].id == uid then Game(uid, values) else prev[i]);
      assert forall i :: 0 <= i < |rows| ==> GameId(rows[i]) == GameId(prev[i]);
      saved := false;
      ok := true;
    }

    /** Commits: the table is kept and the library counts as saved. */
    method Save()
      modifies this`saved
      ensures saved
    {
      saved := true;
    }

    /** Every row, in display order. */
    function GetGames(): (r: seq<Game>)
      reads this
      ensures SortedBy(r, KeyLessEq)
      ensures multiset(r) == multiset(rows)
    {
      KeyIsTotalPreorder();
      OrderBy(rows, KeyLessEq)
    }

    /** The row with this id, or none. */
    function GetGamesById(uid: int): (r: Option<Game>)
      reads this
      ensures r.None? <==> forall g :: g in rows ==> g.id != uid
      ensures r.Some? ==> r.value in rows && r.value.id == uid
    {
      var found := Where(rows, (g: Game) => g.id == uid);
      assert forall g :: g in rows && g.id == uid ==> g in found by {
        forall g | g in rows && g.id == uid
          ensures g in found
        {
          assert multiset(rows)[g] > 0;
        }
      }
      assert found != [] ==> found[0] in multiset(found);
      First(found)
    }

    /** The rows whose platform is exactly `platform`, in display order. */
    function GetGamesByPlatform(platform: string): (r: seq<Game>)
      reads this
      ensures SortedBy(r, KeyLessEq)
      ensures forall g :: multiset(r)[g] == if g.record.platform == platform then multiset(rows)[g] else 0
    {
      KeyIsTotalPreorder();
      OrderBy(Where(rows, (g: Game) => g.record.platform == platform), KeyLessEq)
    }

    /** The rows with `query` in any column but platform, limited to `platform`
        unless it is empty, in display order. */
    function GetGamesByQuery(query: string := "", platform: string := ""): (r: seq<Game>)
      reads this
      requires NoWildcards(query)
      ensures SortedBy(r, KeyLessEq)
      ensures forall g :: multiset(r)[g] == if MatchesQuery(g, query, platform) then multiset(rows)[g] else 0
    {
      KeyIsTotalPreorder();
      OrderBy(Where(rows, (g: Game) => QueryFilter(g, query, platform)), KeyLessEq)
    }

    /** The rows that have each term in its column, limited to `platform` unless
        it is empty, in display order; `query` is not used. */
    function GetGamesBySearch(query: string := "", platform: string := "", platformId: string := "",
                              title: string := "", titleId: string := "", cover: string := "",
                              coverId: string := "", releaseDate: string := "",
                              genres: string := ""): (r: seq<Game>)
      reads this
      requires NoWildcards(platformId) && NoWildcards(title) && NoWildcards(titleId)
      requires NoWildcards(cover) && NoWildcards(coverId) && NoWildcards(releaseDate)
      requires NoWildcards(genres)
      ensures SortedBy(r, KeyLessEq)
      ensures forall g :: multiset(r)[g]
                       == if MatchesSearch(g, platform, platformId, title, titleId, cover, coverId,
                                           releaseDate, genres)
                          then multiset(rows)[g] else 0
    {
      KeyIsTotalPreorder();
      OrderBy(Where(rows, (g: Game) => SearchFilter(g, platform, platformId, title, titleId, cover,
                                            coverId, releaseDate, genres)), KeyLessEq)
    }

    /** Each platform some row is on, once, in ascending order. */
    function GetPlatforms(): (r: seq<string>)
      reads this
      ensures forall i, j :: 0 <= i < j < |r| ==> Less(r[i], r[j])
      ensures forall p :: p in r <==> exists g :: g in rows && g.record.platform == p
    {
      var rs := rows;
      var platforms := seq(|rs|, i requires 0 <= i < |rs| => rs[i].record.platform);
      PlatformOrder();
      var sorted := OrderBy(platforms, LessEq);
      assert forall p :: p in sorted <==> p in platforms by {
        forall p
          ensures p in sorted <==> p in platforms
        {
          assert p in sorted <==> p in multiset(sorted);
        }
      }
      assert forall g :: g in rows ==> g.record.platform in platforms by {
        forall g | g in rows
          ensures g.record.platform in platforms
        {
          var i :| 0 <= i < |rows| && rows[i] == g;
          assert platforms[i] == g.record.platform;
        }
      }
      assert forall p :: p in platforms ==> exists g :: g in rows && g.record.platform == p by {
        forall p | p in platforms
          ensures exists g :: g in rows && g.record.platform == p
        {
          var i :| 0 <= i < |rs| && platforms[i] == p;
          assert rs[i] in rows;
        }
      }
      Distinct(sorted)
    }

    /** Appends the rows of the lines of file `WithCsv(path)`, which holds
        `text`, one `add` per line, and stops with an error at the first line
        with fewer than eight fields, keeping the rows added before it. */
    method Import(path: string, text: string) returns (file: string, ok: bool)
      requires Valid()
      modifies this
      ensures Valid()
      ensures file == WithCsv(path)
      ensures ok <==> |ParsePrefix(ReadLines(text))| == |ReadLines(text)|
      ensures |rows| >= |old(rows)| && rows[..|old(rows)|] == old(rows)
      ensures RecordsOf(rows[|old(rows)|..]) == ParsePrefix(ReadLines(text))
      ensures saved <==> old(saved) && ParsePrefix(ReadLines(text)) == []
    {
      file := WithCsv(path);
      ok := ImportLines(ReadLines(text));
    }

    /** The loop of `import_`: one `add` per line until a line fails. */
    method ImportLines(lines: seq<string>) returns (ok: bool)
      requires Valid()
      modifies this
      ensures Valid()
      ensures ok <==> |ParsePrefix(lines)| == |lines|
      ensures |rows| >= |old(rows)| && rows[..|old(rows)|] == old(rows)
      ensures RecordsOf(rows[|old(rows)|..]) == ParsePrefix(lines)
      ensures saved <==> old(saved) && ParsePrefix(lines) == []
    {
      ghost var recs := ParsePrefix(lines);
      ghost var stored := rows;
      ghost var added: seq<Game> := [];
      var i := 0;
      while i < |lines|
        invariant Valid()
        invariant i <= |recs|
        invariant rows == stored + added
        invariant RecordsOf(added) == recs[..i]
        invariant saved <==> old(saved) && i == 0
      {
        ImportStep(lines, i);
        var added1 := ImportLine(lines[i]);
        if !added1 {
          assert rows[|stored|..] == added;
          return false;
        }
        RecordsOfAppend(added, rows[|rows| - 1]);
        added := added + [rows[|rows| - 1]];
        i := i + 1;
      }
      assert rows[|stored|..] == added;
      assert recs[..|recs|] == recs;
      ok := true;
    }

    /** One pass of `import_`'s loop: split the line and add its row, or fail
        on a line with fewer than eight fields. */
    method ImportLine(line: string) returns (ok: bool)
      requires Valid()
      modifies this
      ensures Valid()
      ensures ok <==> ParseLine(line).Success?
      ensures !ok ==> rows == old(rows) && saved == old(saved)
      ensures ok ==> !saved && |rows| == |old(rows)| + 1 && rows == old(rows) + [rows[|old(rows)|]]
      ensures ok ==> rows[|old(rows)|].record == ParseLine(line).value
    {
      var ln := Split(RStrip(line));
      ParseLineReads(line);
      if |ln| < 8 {
        return false;
      }
      Add(ln[0], ln[2], ln[1], ln[3], ln[4], ln[5], ln[6], ln[7]);
      ok := true;
    }

    /** The name of the file `export` writes and its text: one line per row, in display order. */
    method Export(path: string) returns (file: string, text: string)
      ensures file == WithCsv(path)
      ensures text == Concat(ExportLines(GetGames()))
    {
      file := WithCsv(path);
      var games := GetGames();
      text := "";
      for i := 0 to |games|
        invariant text == Concat(ExportLines(games[..i]))
      {
        assert games[..i + 1] == games[..i] + [games[i]];
        ExportTextAppend(games[..i], games[i]);
        text := text + FormatLine(games[i].record);
      }
      assert games[..|games|] == games;
    }
  }

  /** What `import_` finds at line `i` when every earlier line was parsed: either the
      line fails and the parsed lines end here, or it extends them by its record. */
  lemma ImportStep(lines: seq<string>, i: nat)
    requires i < |lines| && i <= |ParsePrefix(lines)|
    ensures var recs := ParsePrefix(lines);
      match ParseLine(lines[i])
      case Failure(_) => recs[..i] == recs && |recs| < |lines|
      case Success(r) => i < |recs| && recs[..i + 1] == recs[..i] + [r]
  {
    var recs := ParsePrefix(lines);
    ParsePrefixLines(lines);
    if i < |recs| {
      assert ParseLine(lines[i]) == Success(recs[i]);
      assert recs[..i + 1] == recs[..i] + [recs[i]];
    } else {
      assert recs[..i] == recs;
    }
  }

  /** The `WHERE` clause `getGamesByQuery` runs. */
  predicate QueryFilter(g: Game, query: string, platform: string)
    ensures QueryFilter(g, query, platform) <==> MatchesQuery(g, query, platform)
  {
    var r := g.record;
    && (platform == "" || r.platform == platform)
    && (|| LikeContains(r.platformId, query) || LikeContains(r.title, query)
        || LikeContains(r.titleId, query) || LikeContains(r.cover, query)
        || LikeContains(r.coverId, query) || LikeContains(r.releaseDate, query)
        || LikeContains(r.genres, query))
  }

  /** The `WHERE` clause `getGamesBySearch` runs. */
  predicate SearchFilter(g: Game, platform: string, platformId: string, title: string,
                         titleId: string, cover: string, coverId: string,
                         releaseDate: string, genres: string)
    ensures SearchFilter(g, platform, platformId, title, titleId, cover, coverId, releaseDate, genres)
        <==> MatchesSearch(g, platform, platformId, title, titleId, cover, coverId, releaseDate, genres)
  {
    var r := g.record;
    && (platform == "" || r.platform == platform)
    && LikeContains(r.platformId, platformId) && LikeContains(r.title, title)
    && LikeContains(r.titleId, titleId) && LikeContains(r.cover, cover)
    && LikeContains(r.coverId, coverId) && LikeContains(r.releaseDate, releaseDate)
    && LikeContains(r.genres, genres)
  }

  /** An empty query matches every row: `getGamesByQuery('', '')` lists exactly the rows of `getGames`. */
  lemma EmptyQueryListsAll(lib: GameLibrary)
    ensures lib.GetGamesByQuery("", "") == lib.GetGames()
  {
    forall g: Game | g in lib.rows
      ensures QueryFilter(g, "", "")
    {
      LikeEmpty(g.record.platformId);
    }
    WhereAll(lib.rows, (g: Game) => QueryFilter(g, "", ""));
  }

  /** With an empty query, `getGamesByQuery('', p)` lists exactly the rows of `getGamesByPlatform(p)`. */
  lemma EmptyQueryOnPlatform(lib: GameLibrary, platform: string)
    requires platform != ""
    ensures lib.GetGamesByQuery("", platform) == lib.GetGamesByPlatform(platform)
  {
    forall g: Game | g in lib.rows
      ensures QueryFilter(g, "", platform) == (g.record.platform == platform)
    {
      LikeEmpty(g.record.platformId);
    }
    WhereSame(lib.rows, (g: Game) => QueryFilter(g, "", platform), (g: Game) => g.record.platform == platform);
  }

  /** With every term empty, `getGamesBySearch` lists exactly the rows of `getGames`. */
  lemma EmptySearchListsAll(lib: GameLibrary)
    ensures lib.GetGamesBySearch() == lib.GetGames()
  {
    forall g: Game | g in lib.rows
      ensures SearchFilter(g, "", "", "", "", "", "", "", "")
    {
      var r := g.record;
      LikeEmpty(r.platformId);
      LikeEmpty(r.title);
      LikeEmpty(r.titleId);
      LikeEmpty(r.cover);
      LikeEmpty(r.coverId);
      LikeEmpty(r.releaseDate);
      LikeEmpty(r.genres);
    }
    WhereAll(lib.rows, (g: Game) => SearchFilter(g, "", "", "", "", "", "", "", ""));
  }

  /** A search by platform alone lists exactly the rows of `getGamesByPlatform`. */
  lemma PlatformSearchIsByPlatform(lib: GameLibrary, platform: string)
    requires platform != ""
    ensures lib.GetGamesBySearch(platform := platform) == lib.GetGamesByPlatform(platform)
  {
    forall g: Game | g in lib.rows
      ensures SearchFilter(g, platform, "", "", "", "", "", "", "") == (g.record.platform == platform)
    {
      var r := g.record;
      LikeEmpty(r.platformId);
      LikeEmpty(r.title);
      LikeEmpty(r.titleId);
      LikeEmpty(r.cover);
      LikeEmpty(r.coverId);
      LikeEmpty(r.releaseDate);
      LikeEmpty(r.genres);
    }
    WhereSame(lib.rows, (g: Game) => SearchFilter(g, platform, "", "", "", "", "", "", ""),
              (g: Game) => g.record.platform == platform);
  }

  /** The platform column is never searched: a row's platform plays no part
      in whether a query without a platform finds it. */
  lemma QueryIgnoresPlatformColumn(g: Game, query: string, other: string)
    ensures MatchesQuery(g, query, "") == MatchesQuery(g.(record := g.record.(platform := other)), query, "")
  {
  }

  /** Text order ranks any two values and is transitive. */
  lemma PlatformOrder()
    ensures TotalPreorder(LessEq)
  {
    forall a, b ensures LessEq(a, b) || LessEq(b, a) {
      LessEqTotal(a, b);
    }
    forall a, b, c | LessEq(a, b) && LessEq(b, c) ensures LessEq(a, c) {
      LessEqTransitive(a, b, c);
    }
  }
}
