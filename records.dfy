/**
 * A row of the `library` table: an id plus eight text columns, and the
 * canonical display order `ORDER BY platform ASC, title ASC`.
 */
module GameRecords {
  import Text
  import Query

  /** The eight value columns, in table order. */
  datatype Record = Record(
    platform: string,
    platformId: string,
    title: string,
    titleId: string,
    cover: string,
    coverId: string,
    releaseDate: string,
    genres: string)

  /** A stored row: its primary key and its values. */
  datatype Game = Game(id: int, record: Record)

  function GameId(g: Game): int
  {
    g.id
  }

  function RecordsOf(games: seq<Game>): (recs: seq<Record>)
    ensures |recs| == |games|
    ensures forall i :: 0 <= i < |games| ==> recs[i] == games[i].record
  {
    seq(|games|, i requires 0 <= i < |games| => games[i].record)
  }

  lemma RecordsOfAppend(games: seq<Game>, g: Game)
    ensures RecordsOf(games + [g]) == RecordsOf(games) + [g.record]
  {
  }

  /** `a` may be listed before `b`: by platform, then by title. */
  predicate KeyLessEq(a: Game, b: Game)
  {
    || Text.Less(a.record.platform, b.record.platform)
    || (a.record.platform == b.record.platform && Text.LessEq(a.record.title, b.record.title))
  }

  /** The display order ranks any two rows and is transitive, so it can sort. */
  lemma KeyIsTotalPreorder()
    ensures Query.TotalPreorder(KeyLessEq)
  {
    forall a: Game, b: Game
      ensures KeyLessEq(a, b) || KeyLessEq(b, a)
    {
      Text.LessEqTotal(a.record.platform, b.record.platform);
      Text.LessEqTotal(a.record.title, b.record.title);
    }
    forall a: Game, b: Game, c: Game | KeyLessEq(a, b) && KeyLessEq(b, c)
      ensures KeyLessEq(a, c)
    {
      var pa, pb, pc := a.record.platform, b.record.platform, c.record.platform;
      if pa == pb && pb == pc {
        Text.LessEqTransitive(a.record.title, b.record.title, c.record.title);
      } else {
        assert Text.LessEq(pa, pb) && Text.LessEq(pb, pc) by {
          if pa == pb { Text.LessEqReflexive(pa); }
          if pb == pc { Text.LessEqReflexive(pb); }
        }
        Text.LessEqTransitive(pa, pb, pc);
        if pa == pc {
          Text.LessEqAntisymmetric(pa, pb);
        }
      }
    }
  }

  /** The id a new row receives: one past the largest stored id, or 1 if
      that is larger; what matters is that no stored row has it. */
  function NextId(rows: seq<Game>): (id: int)
    ensures id >= 1
    ensures forall g :: g in rows ==> g.id < id
  {
    if rows == [] then 1
    else
      var rest := NextId(rows[1..]);
      assert forall g :: g in rows ==> g == rows[0] || g in rows[1..];
      if rows[0].id + 1 > rest then rows[0].id + 1 else rest
  }
}
