/**
 * Base stats (`get_stats`).
 *
 * The page is given already decoded: the tables that follow the base-stats
 * heading, in document order. Each table records whether it carries the
 * `at-c` class, how many form toggles it holds, and the texts of its five
 * stat values.
 */
module Stats {
  import opened Wrappers

  datatype StatsTable = StatsTable(
    isAtC: bool,
    toggleCount: nat,
    hp: string,
    attack: string,
    defense: string,
    spAttack: string,
    spDefense: string)

  datatype BaseStats = BaseStats(hp: string, attack: string, defense: string, spAttack: string, spDefense: string)

  /** The result: the stats of the ordinary form and, when the page shows several forms, of the last one. */
  datatype StatsRecord = StatsRecord(common: Option<BaseStats>, mega: Option<BaseStats>)

  /** There is a first table, and a toggled first table is followed by one table per toggle. */
  predicate EnoughTables(following: seq<StatsTable>) {
    |following| > 0 && (following[0].isAtC ==> following[0].toggleCount < |following|)
  }

  /** The tables read: one per toggle after a toggled first table, otherwise the first table alone. */
  function TableList(following: seq<StatsTable>): (tables: seq<StatsTable>)
    requires EnoughTables(following)
    ensures following[0].isAtC ==> |tables| == following[0].toggleCount
    ensures !following[0].isAtC ==> |tables| == 1
  {
    if following[0].isAtC then following[1..following[0].toggleCount + 1] else [following[0]]
  }

  function StatsOf(t: StatsTable): BaseStats {
    BaseStats(t.hp, t.attack, t.defense, t.spAttack, t.spDefense)
  }

  /** The first loop of `get_stats`: each toggle moves on to the next table and collects it. */
  method CollectTables(following: seq<StatsTable>) returns (tableList: seq<StatsTable>)
    requires EnoughTables(following)
    ensures tableList == TableList(following)
  {
    var tableEl := 0;
    if following[tableEl].isAtC {
      tableList := [];
      var statsTableSize := following[tableEl].toggleCount;
      for i := 0 to statsTableSize
        invariant tableEl == i && tableList == following[1..i + 1]
      {
        tableList := tableList + [following[tableEl + 1]];
        tableEl := tableEl + 1;
      }
    } else {
      tableList := [following[tableEl]];
    }
  }

  /**
   * `get_stats`: `common` holds the first table read and `mega` the last one
   * when at least two are read; each later table overwrites `mega`.
   */
  method GetStats(following: seq<StatsTable>) returns (stats: StatsRecord)
    requires EnoughTables(following)
    ensures var tables := TableList(following);
      && stats.common == (if |tables| > 0 then Some(StatsOf(tables[0])) else None)
      && stats.mega == (if |tables| > 1 then Some(StatsOf(tables[|tables| - 1])) else None)
  {
    var tableList := CollectTables(following);
    stats := StatsRecord(None, None);
    for index := 0 to |tableList|
      invariant stats.common == (if index > 0 then Some(StatsOf(tableList[0])) else None)
      invariant stats.mega == (if index > 1 then Some(StatsOf(tableList[index - 1])) else None)
    {
      var t := tableList[index];
      var result := BaseStats(t.hp, t.attack, t.defense, t.spAttack, t.spDefense);
      if index == 0 {
        stats := stats.(common := Some(result));
      } else {
        stats := stats.(mega := Some(result));
      }
    }
  }
}
