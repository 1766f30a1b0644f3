/**
  The statistics table of a match: one row per metric, one cell per player
  (web/portal/src/utils/match-stats.ts, buildPlayerStatMatrixRows).
 */
module StatMatrix {
  import opened Prelude

  type UserId = string

  datatype Stat = Stat(key: string, caption: string, value: int)

  /** A player with the rows buildPlayerStatRows made for them. */
  datatype Player = Player(user: UserId, stats: seq<Stat>)

  datatype Row = Row(key: string, caption: string, values: map<UserId, int>)

  /** One stat of one player, in the order the loops meet them. */
  datatype Entry = Entry(user: UserId, stat: Stat)

  function Tagged(player: Player): (entries: seq<Entry>)
    ensures |entries| == |player.stats|
    ensures forall i | 0 <= i < |entries| :: entries[i] == Entry(player.user, player.stats[i])
  {
    seq(|player.stats|, i requires 0 <= i < |player.stats| => Entry(player.user, player.stats[i]))
  }

  function Entries(players: seq<Player>): seq<Entry> {
    if players == [] then [] else Entries(players[..|players| - 1]) + Tagged(players[|players| - 1])
  }

  /** The value written last for a user under a key. */
  function LastValue(entries: seq<Entry>, user: UserId, key: string): Option<int> {
    if entries == [] then None
    else
      var last := entries[|entries| - 1];
      if last.user == user && last.stat.key == key then Some(last.stat.value)
      else LastValue(entries[..|entries| - 1], user, key)
  }

  /** The metrics met so far, each where it first occurs. */
  function Keys(entries: seq<Entry>): seq<string> {
    if entries == [] then []
    else
      var before := Keys(entries[..|entries| - 1]);
      var key := entries[|entries| - 1].stat.key;
      if key in before then before else before + [key]
  }

  /** The caption a metric came with where it first occurs. */
  function FirstCaption(entries: seq<Entry>, key: string): string {
    if entries == [] then ""
    else
      var front, last := entries[..|entries| - 1], entries[|entries| - 1];
      if last.stat.key == key && key !in Keys(front) then last.stat.caption else FirstCaption(front, key)
  }

  ghost predicate Filled(row: Row, entries: seq<Entry>) {
    forall user :: (user in row.values <==> LastValue(entries, user, row.key).Some?)
      && (user in row.values ==> LastValue(entries, user, row.key) == Some(row.values[user]))
  }

  ghost predicate Collected(matrix: map<string, Row>, order: seq<string>, entries: seq<Entry>) {
    && order == Keys(entries)
    && (forall key :: key in matrix <==> key in order)
    && (forall key | key in matrix ::
          matrix[key].key == key && matrix[key].caption == FirstCaption(entries, key) && Filled(matrix[key], entries))
  }

  lemma {:induction false} NothingUnderNewKey(entries: seq<Entry>, user: UserId, key: string)
    requires key !in Keys(entries)
    ensures LastValue(entries, user, key).None?
  {
    if entries != [] {
      NothingUnderNewKey(entries[..|entries| - 1], user, key);
    }
  }

  method AddEntry(matrix: map<string, Row>, order: seq<string>, user: UserId, stat: Stat, ghost entries: seq<Entry>)
    returns (matrix': map<string, Row>, order': seq<string>)
    requires Collected(matrix, order, entries)
    ensures Collected(matrix', order', entries + [Entry(user, stat)])
  {
    ghost var after := entries + [Entry(user, stat)];
    assert after[..|entries|] == entries;
    matrix', order' := matrix, order;
    if stat.key !in matrix' {
      matrix' := matrix'[stat.key := Row(stat.key, stat.caption, map[])];
      order' := order' + [stat.key];
      forall u ensures LastValue(entries, u, stat.key).None? {
        NothingUnderNewKey(entries, u, stat.key);
      }
    }
    var row := matrix'[stat.key];
    assert Filled(row, entries);
    matrix' := matrix'[stat.key := row.(values := row.values[user := stat.value])];
    forall key | key in matrix'
      ensures matrix'[key].key == key && matrix'[key].caption == FirstCaption(after, key) && Filled(matrix'[key], after)
    {
      if key != stat.key {
        assert Filled(matrix[key], entries);
      }
    }
  }

  predicate HasUser(players: seq<Player>, user: UserId) {
    exists p | 0 <= p < |players| :: players[p].user == user
  }

  /** A cell: what was written last for the player under the metric, else zero. */
  function Cell(entries: seq<Entry>, user: UserId, key: string): int {
    LastValue(entries, user, key).GetOr(0)
  }

  method FillRow(row: Row, players: seq<Player>, ghost entries: seq<Entry>) returns (full: Row)
    requires Filled(row, entries) && forall u | u in row.values :: HasUser(players, u)
    ensures full.key == row.key && full.caption == row.caption
    ensures forall u :: u in full.values <==> HasUser(players, u)
    ensures forall u | u in full.values :: full.values[u] == Cell(entries, u, row.key)
  {
    var values := row.values;
    for i := 0 to |players|
      invariant forall u :: u in values <==> u in row.values || HasUser(players[..i], u)
      invariant forall u | u in values :: values[u] == Cell(entries, u, row.key)
    {
      var user := players[i].user;
      if user !in values {
        values := values[user := 0];
      }
    }
    assert players[..|players|] == players;
    full := row.(values := values);
  }

  lemma {:induction false} EntriesHaveUsers(players: seq<Player>)
    ensures forall k | 0 <= k < |Entries(players)| :: HasUser(players, Entries(players)[k].user)
  {
    if players != [] {
      var front := players[..|players| - 1];
      EntriesHaveUsers(front);
      assert players[..|players|] == players;
      var entries := Entries(players);
      forall k | 0 <= k < |entries| ensures HasUser(players, entries[k].user) {
        if k < |Entries(front)| {
          assert entries[k] == Entries(front)[k];
        } else {
          assert entries[k] == Tagged(players[|players| - 1])[k - |Entries(front)|];
        }
      }
    }
  }

  lemma {:induction false} LastValueHasEntry(entries: seq<Entry>, user: UserId, key: string)
    requires LastValue(entries, user, key).Some?
    ensures exists k :: 0 <= k < |entries| && entries[k].user == user && entries[k].stat.key == key
  {
    var last := entries[|entries| - 1];
    if !(last.user == user && last.stat.key == key) {
      var front := entries[..|entries| - 1];
      LastValueHasEntry(front, user, key);
      var k :| 0 <= k < |front| && front[k].user == user && front[k].stat.key == key;
      assert entries[k] == front[k];
    }
  }

  /** The table: one row per metric in order of first occurrence, one cell per player. */
  ghost predicate IsTable(rows: seq<Row>, players: seq<Player>) {
    && |rows| == |Keys(Entries(players))|
    && forall r | 0 <= r < |rows| ::
         && rows[r].key == Keys(Entries(players))[r]
         && rows[r].caption == FirstCaption(Entries(players), rows[r].key)
         && (forall u :: u in rows[r].values <==> HasUser(players, u))
         && (forall u | u in rows[r].values :: rows[r].values[u] == Cell(Entries(players), u, rows[r].key))
  }

  method Collect(players: seq<Player>) returns (matrix: map<string, Row>, order: seq<string>)
    ensures Collected(matrix, order, Entries(players))
  {
    matrix, order := map[], [];
    for p := 0 to |players|
      invariant Collected(matrix, order, Entries(players[..p]))
    {
      assert players[..p + 1][..p] == players[..p];
      matrix, order := AddPlayer(matrix, order, players[p], Entries(players[..p]));
    }
    assert players[..|players|] == players;
  }

  method AddPlayer(matrix: map<string, Row>, order: seq<string>, player: Player, ghost before: seq<Entry>)
    returns (newMatrix: map<string, Row>, newOrder: seq<string>)
    requires Collected(matrix, order, before)
    ensures Collected(newMatrix, newOrder, before + Tagged(player))
  {
    newMatrix, newOrder := matrix, order;
    ghost var tagged := Tagged(player);
    assert before + tagged[..0] == before;
    for i := 0 to |player.stats|
      invariant Collected(newMatrix, newOrder, before + tagged[..i])
    {
      newMatrix, newOrder := AddEntry(newMatrix, newOrder, player.user, player.stats[i], before + tagged[..i]);
      assert before + tagged[..i] + [Entry(player.user, player.stats[i])] == before + tagged[..i + 1];
    }
    assert tagged[..|player.stats|] == tagged;
  }

  /** buildPlayerStatMatrixRows */
  method BuildMatrixRows(players: seq<Player>) returns (rows: seq<Row>)
    ensures IsTable(rows, players)
  {
    var matrix, order := Collect(players);
    ghost var entries := Entries(players);
    EntriesHaveUsers(players);
    rows := [];
    for r := 0 to |order|
      invariant |rows| == r
      invariant forall k | 0 <= k < r ::
        && rows[k].key == order[k] && rows[k].caption == FirstCaption(entries, order[k])
        && (forall u :: u in rows[k].values <==> HasUser(players, u))
        && (forall u | u in rows[k].values :: rows[k].values[u] == Cell(entries, u, rows[k].key))
    {
      assert order[r] in order;
      var row := matrix[order[r]];
      forall u | u in row.values ensures HasUser(players, u) {
        LastValueHasEntry(entries, u, row.key);
      }
      var full := FillRow(row, players, entries);
      rows := rows + [full];
    }
  }

  // -------------------------------------------------------------------- meaning

  ghost predicate DistinctUsers(players: seq<Player>) {
    forall p, q | 0 <= p < q < |players| :: players[p].user != players[q].user
  }

  ghost predicate DistinctStats(player: Player) {
    forall i, j | 0 <= i < j < |player.stats| :: player.stats[i].key != player.stats[j].key
  }

  lemma {:induction false} OtherEntriesDoNotMatter(entries: seq<Entry>, more: seq<Entry>, user: UserId, key: string)
    requires forall k | 0 <= k < |more| :: more[k].user != user || more[k].stat.key != key
    ensures LastValue(entries + more, user, key) == LastValue(entries, user, key)
  {
    if more == [] {
      assert entries + more == entries;
    } else {
      var front := more[..|more| - 1];
      OtherEntriesDoNotMatter(entries, front, user, key);
      assert (entries + more)[..|entries + more| - 1] == entries + front;
    }
  }

  lemma {:induction false} OwnStatIsLast(entries: seq<Entry>, player: Player, i: nat, n: nat)
    requires DistinctStats(player) && i < n <= |player.stats|
    ensures LastValue(entries + Tagged(player)[..n], player.user, player.stats[i].key) == Some(player.stats[i].value)
  {
    var tagged := Tagged(player);
    var now := entries + tagged[..n];
    assert now[..|now| - 1] == entries + tagged[..n - 1];
    assert now[|now| - 1] == tagged[n - 1];
    if i < n - 1 {
      OwnStatIsLast(entries, player, i, n - 1);
    }
  }

  /** Main result: for distinct players the table is rectangular, and each cell is that player's
      own value of the metric, or zero where the player has none. */
  lemma {:induction false} CellsAreOwnValues(players: seq<Player>, p: nat, key: string)
    requires DistinctUsers(players) && p < |players| && DistinctStats(players[p])
    ensures forall i | 0 <= i < |players[p].stats| && players[p].stats[i].key == key ::
      Cell(Entries(players), players[p].user, key) == players[p].stats[i].value
    ensures (forall i | 0 <= i < |players[p].stats| :: players[p].stats[i].key != key) ==>
      Cell(Entries(players), players[p].user, key) == 0
  {
    var front := players[..|players| - 1];
    var last := players[|players| - 1];
    var user := players[p].user;
    if p < |players| - 1 {
      CellsAreOwnValues(front, p, key);
      OtherEntriesDoNotMatter(Entries(front), Tagged(last), user, key);
    } else {
      assert Tagged(last)[..|last.stats|] == Tagged(last);
      forall i | 0 <= i < |last.stats| && last.stats[i].key == key
        ensures Cell(Entries(players), user, key) == last.stats[i].value
      {
        OwnStatIsLast(Entries(front), last, i, |last.stats|);
      }
      if forall i | 0 <= i < |last.stats| :: last.stats[i].key != key {
        OtherEntriesDoNotMatter(Entries(front), Tagged(last), user, key);
        NobodyElse(front, user, key);
      }
    }
  }

  lemma NobodyElse(players: seq<Player>, user: UserId, key: string)
    requires !HasUser(players, user)
    ensures LastValue(Entries(players), user, key).None?
  {
    EntriesHaveUsers(players);
    if LastValue(Entries(players), user, key).Some? {
      LastValueHasEntry(Entries(players), user, key);
    }
  }

  /** No metric has two rows. */
  lemma {:induction false} RowsAreDistinct(entries: seq<Entry>)
    ensures Distinct(Keys(entries))
    ensures forall key :: key in Keys(entries) <==> exists k :: 0 <= k < |entries| && entries[k].stat.key == key
  {
    if entries != [] {
      var front := entries[..|entries| - 1];
      RowsAreDistinct(front);
      forall key ensures key in Keys(entries) <==> exists k :: 0 <= k < |entries| && entries[k].stat.key == key {
        if key in Keys(front) {
          var k :| 0 <= k < |front| && front[k].stat.key == key;
          assert entries[k] == front[k];
        }
        if k :| 0 <= k < |entries| && entries[k].stat.key == key {
          if k < |front| {
            assert front[k] == entries[k];
          }
        }
        assert entries[|front|].stat.key == entries[|entries| - 1].stat.key;
      }
    }
  }

  /** The metric is met for the first time at position k. */
  predicate FirstAt(entries: seq<Entry>, key: string, k: int) {
    0 <= k < |entries| && entries[k].stat.key == key && forall j | 0 <= j < k :: entries[j].stat.key != key
  }

  lemma KnownKeysHaveEntries(entries: seq<Entry>, key: string)
    ensures key in Keys(entries) <==> exists k :: 0 <= k < |entries| && entries[k].stat.key == key
  {
    RowsAreDistinct(entries);
  }

  /** A row's caption is the one its metric came with where it was first met. */
  lemma {:induction false} CaptionsAreFirst(entries: seq<Entry>, key: string, k: int)
    requires FirstAt(entries, key, k)
    ensures FirstCaption(entries, key) == entries[k].stat.caption
  {
    var front := entries[..|entries| - 1];
    KnownKeysHaveEntries(front, key);
    if k < |front| {
      assert FirstAt(front, key, k) && front[k].stat.key == key;
      CaptionsAreFirst(front, key, k);
    } else {
      forall j | 0 <= j < |front| ensures front[j].stat.key != key {
        assert front[j] == entries[j];
      }
    }
  }

  lemma NewKeyIsLast(entries: seq<Entry>, k: int)
    requires entries != [] && 0 <= k < |entries| && entries[k].stat.key !in Keys(entries[..|entries| - 1])
    ensures k == |entries| - 1
  {
    var front := entries[..|entries| - 1];
    KnownKeysHaveEntries(front, entries[k].stat.key);
    assert forall n | 0 <= n < |front| :: front[n] == entries[n];
  }

  /** Rows stand in the order in which their metrics were first met. */
  lemma {:induction false} RowsStandInOrder(entries: seq<Entry>, a: int, b: int, i: int, j: int)
    requires 0 <= i < |Keys(entries)| && 0 <= j < |Keys(entries)|
    requires FirstAt(entries, Keys(entries)[i], a) && FirstAt(entries, Keys(entries)[j], b)
    ensures i < j ==> a < b
  {
    if entries != [] && i < j {
      var front, last := entries[..|entries| - 1], |entries| - 1;
      RowsAreDistinct(front);
      RowsAreDistinct(entries);
      assert Keys(entries)[i] == Keys(front)[i];
      assert Keys(front)[i] in Keys(front);
      var n :| 0 <= n < |front| && front[n].stat.key == Keys(front)[i];
      assert entries[n] == front[n] && a <= n;
      if j < |Keys(front)| {
        assert Keys(front)[j] in Keys(front);
        var m :| 0 <= m < |front| && front[m].stat.key == Keys(front)[j];
        assert entries[m] == front[m] && b <= m;
        assert FirstAt(front, Keys(front)[i], a) && FirstAt(front, Keys(front)[j], b);
        RowsStandInOrder(front, a, b, i, j);
      } else {
        assert Keys(entries)[j] == entries[last].stat.key && Keys(entries)[j] !in Keys(front);
        NewKeyIsLast(entries, b);
      }
    }
  }
}
