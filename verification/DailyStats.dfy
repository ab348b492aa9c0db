/**
 Daily site statistics: the duplicate repair of migrations/0018_fix_dailysitestats_duplicates.py and
 the increment of `AnalyticsMiddleware._increment_daily_stats` (paxalia/middleware.py).

 A table may hold several rows for one (site, date), because a NULL site escaped the old unique
 constraint. The repair folds each such group into its row with the lowest id.
 */
module DailyStats {
  import opened Prelude

  datatype Counters = Counters(
    totalViews: nat, uniqueIps: nat, uniqueUsers: nat, apiCalls: nat,
    totalSessions: nat, bounces: nat, botViews: nat)

  const ZERO := Counters(0, 0, 0, 0, 0, 0, 0)

  function Plus(a: Counters, b: Counters): (c: Counters) {
    Counters(a.totalViews + b.totalViews, a.uniqueIps + b.uniqueIps, a.uniqueUsers + b.uniqueUsers,
             a.apiCalls + b.apiCalls, a.totalSessions + b.totalSessions, a.bounces + b.bounces,
             a.botViews + b.botViews)
  }

  type Pages = map<string, int>

  /** `topPages` is `None` for a JSON null. */
  datatype Row = Row(site: Option<nat>, date: int, counters: Counters, topPages: Option<Pages>, importedFrom: string)

  type Table = map<nat, Row>

  datatype Key = Key(site: Option<nat>, date: int)

  function KeyOf(row: Row): (k: Key) {
    Key(row.site, row.date)
  }

  function PagesOf(row: Row): (m: Pages) {
    if row.topPages.Some? then row.topPages.value else map[]
  }

  function ViewsOf(m: Pages, path: string): (n: int) {
    if path in m then m[path] else 0
  }

  /** `order` lists the ids of the table in ascending order: the answer to the ordered query. */
  ghost predicate IsOrder(t: Table, order: seq<nat>) {
    && (forall i :: 0 <= i < |order| ==> order[i] in t)
    && (forall id :: id in t ==> id in order)
    && Ascending(order)
  }

  // ----- Groups -------------------------------------------------------------

  /** The ids with key `k` among the first `n` of `order`, ascending. */
  function Group(t: Table, order: seq<nat>, k: Key, n: nat): (ids: seq<nat>)
    requires n <= |order| && forall i :: 0 <= i < |order| ==> order[i] in t
    ensures forall id <- ids :: id in t && KeyOf(t[id]) == k
  {
    if n == 0 then []
    else if KeyOf(t[order[n - 1]]) == k then Group(t, order, k, n - 1) + [order[n - 1]]
    else Group(t, order, k, n - 1)
  }

  function SumOf(t: Table, ids: seq<nat>): (c: Counters)
    requires forall id <- ids :: id in t
  {
    if ids == [] then ZERO else Plus(SumOf(t, ids[..|ids| - 1]), t[ids[|ids| - 1]].counters)
  }

  function ViewsIn(t: Table, ids: seq<nat>, path: string): (n: int)
    requires forall id <- ids :: id in t
  {
    if ids == [] then 0
    else ViewsIn(t, ids[..|ids| - 1], path) + ViewsOf(PagesOf(t[ids[|ids| - 1]]), path)
  }

  lemma AscendingSnoc(ids: seq<nat>, last: nat)
    requires Ascending(ids) && forall i :: 0 <= i < |ids| ==> ids[i] < last
    ensures Ascending(ids + [last])
  {
  }

  /** A list that ascends and holds one number only has at most one entry. */
  lemma AscendingAlone(ids: seq<nat>, id: nat)
    requires Ascending(ids) && id in ids && forall x <- ids :: x == id
    ensures ids == [id]
  {
    var n := |ids|;
    assert n > 0 && ids[n - 1] in ids && ids[0] in ids;
    assert ids[n - 1] == ids[0];
  }

  lemma {:induction false} GroupMeaning(t: Table, order: seq<nat>, k: Key, n: nat)
    requires IsOrder(t, order) && n <= |order|
    ensures forall i :: 0 <= i < n ==> (order[i] in Group(t, order, k, n) <==> KeyOf(t[order[i]]) == k)
    ensures forall id <- Group(t, order, k, n) :: exists i :: 0 <= i < n && order[i] == id
    ensures Ascending(Group(t, order, k, n))
  {
    if n == 0 {
    } else {
      GroupMeaning(t, order, k, n - 1);
      var g := Group(t, order, k, n - 1);
      forall i | 0 <= i < |g| ensures g[i] < order[n - 1] {
        assert g[i] in g;
        var j :| 0 <= j < n - 1 && order[j] == g[i];
      }
      AscendingSnoc(g, order[n - 1]);
      forall i | 0 <= i < n - 1 ensures order[i] != order[n - 1] {
        assert order[i] < order[n - 1];
      }
      forall id | id in Group(t, order, k, n) ensures exists i :: 0 <= i < n && order[i] == id {
        if id != order[n - 1] {
          assert id in g;
        }
      }
    }
  }

  lemma SumOne(t: Table, id: nat)
    requires id in t
    ensures SumOf(t, [id]) == t[id].counters
  {
  }

  /** What `row` must be for the group `ids` of the old table `t`. */
  ghost predicate IsMergedRow(t: Table, ids: seq<nat>, row: Row)
    requires ids != [] && forall id <- ids :: id in t
  {
    var primary := t[ids[0]];
    if |ids| == 1 then row == primary
    else
      && row == primary.(counters := SumOf(t, ids), topPages := row.topPages)
      && row.topPages.Some?
      && forall path :: ViewsOf(row.topPages.value, path) == ViewsIn(t, ids, path)
  }

  /** The repaired table: from each group its lowest id, carrying the sums of the whole group. */
  ghost predicate IsMerge(t: Table, order: seq<nat>, merged: Table)
    requires IsOrder(t, order)
  {
    forall id :: id in t || id in merged ==> MergedAt(t, order, merged, id)
  }

  ghost predicate MergedAt(t: Table, order: seq<nat>, merged: Table, id: nat)
    requires IsOrder(t, order)
  {
    && id in t
    && var g := Group(t, order, KeyOf(t[id]), |order|);
       && g != []
       && (id in merged <==> id == g[0])
       && (id in merged ==> IsMergedRow(t, g, merged[id]))
  }

  ghost predicate UniqueKeys(t: Table) {
    forall a, b :: a in t && b in t && KeyOf(t[a]) == KeyOf(t[b]) ==> a == b
  }

  /** Each (site, date) of the old table has exactly one row left, the one with its lowest id. */
  lemma MergeIsUnique(t: Table, order: seq<nat>, merged: Table)
    requires IsOrder(t, order) && IsMerge(t, order, merged)
    ensures UniqueKeys(merged)
    ensures forall id :: id in t ==> exists s :: s in merged && s <= id && KeyOf(merged[s]) == KeyOf(t[id])
    ensures forall id, s :: id in t && s in merged && KeyOf(merged[s]) == KeyOf(t[id]) ==> s <= id
  {
    forall s | s in merged ensures SurvivorMeaning(t, order, merged, s) {
      SurvivorIsFirst(t, order, merged, s);
    }
    forall id | id in t
      ensures exists s :: s in merged && s <= id && KeyOf(merged[s]) == KeyOf(t[id])
    {
      FirstIsLowest(t, order, id);
      var s := Group(t, order, KeyOf(t[id]), |order|)[0];
      assert MergedAt(t, order, merged, s);
      SurvivorIsFirst(t, order, merged, s);
    }
    forall id, s | id in t && s in merged && KeyOf(merged[s]) == KeyOf(t[id]) ensures s <= id {
      assert SurvivorMeaning(t, order, merged, s);
      FirstIsLowest(t, order, id);
    }
    forall a, b | a in merged && b in merged && KeyOf(merged[a]) == KeyOf(merged[b]) ensures a == b {
      assert SurvivorMeaning(t, order, merged, a) && SurvivorMeaning(t, order, merged, b);
    }
  }

  ghost predicate SurvivorMeaning(t: Table, order: seq<nat>, merged: Table, s: nat)
    requires IsOrder(t, order)
  {
    && s in t && s in merged && KeyOf(merged[s]) == KeyOf(t[s])
    && var g := Group(t, order, KeyOf(t[s]), |order|); g != [] && g[0] == s
  }

  lemma SurvivorIsFirst(t: Table, order: seq<nat>, merged: Table, s: nat)
    requires IsOrder(t, order) && IsMerge(t, order, merged) && s in merged
    ensures SurvivorMeaning(t, order, merged, s)
  {
  }

  lemma FirstIsLowest(t: Table, order: seq<nat>, id: nat)
    requires IsOrder(t, order) && id in t
    ensures var g := Group(t, order, KeyOf(t[id]), |order|);
            g != [] && g[0] in t && KeyOf(t[g[0]]) == KeyOf(t[id]) && g[0] <= id
  {
    GroupMeaning(t, order, KeyOf(t[id]), |order|);
    var g := Group(t, order, KeyOf(t[id]), |order|);
    assert id in order;
    assert id in g;
    var i :| 0 <= i < |g| && g[i] == id;
    assert i > 0 ==> g[0] < g[i];
  }

  /** A table without duplicates is left exactly as it is, so repairing twice is repairing once. */
  lemma MergeIsStable(t: Table, order: seq<nat>, merged: Table)
    requires IsOrder(t, order) && IsMerge(t, order, merged) && UniqueKeys(t)
    ensures merged == t
  {
    forall id | id in t || id in merged ensures id in t && id in merged && merged[id] == t[id] {
      assert MergedAt(t, order, merged, id);
      AloneInGroup(t, order, id);
    }
  }

  lemma AloneInGroup(t: Table, order: seq<nat>, id: nat)
    requires IsOrder(t, order) && UniqueKeys(t) && id in t
    ensures Group(t, order, KeyOf(t[id]), |order|) == [id]
  {
    var k := KeyOf(t[id]);
    var g := Group(t, order, k, |order|);
    GroupMeaning(t, order, k, |order|);
    assert id in order;
    assert id in g;
    AscendingAlone(g, id);
  }

  // ----- Conservation of totals ---------------------------------------------

  /** The seven counters and the views of one path. */
  datatype Tally = Tally(counters: Counters, views: int)

  const NOTHING := Tally(ZERO, 0)

  function Add(a: Tally, b: Tally): (c: Tally) {
    Tally(Plus(a.counters, b.counters), a.views + b.views)
  }

  function TallyOf(row: Row, path: string): (c: Tally) {
    Tally(row.counters, ViewsOf(PagesOf(row), path))
  }

  function TallyIn(t: Table, ids: seq<nat>, path: string): (c: Tally)
    requires forall id <- ids :: id in t
  {
    Tally(SumOf(t, ids), ViewsIn(t, ids, path))
  }

  lemma TallySnoc(t: Table, ids: seq<nat>, id: nat, path: string)
    requires (forall x <- ids :: x in t) && id in t
    ensures TallyIn(t, ids + [id], path) == Add(TallyIn(t, ids, path), TallyOf(t[id], path))
    ensures ids == [] ==> TallyIn(t, ids, path) == NOTHING
  {
  }

  /** The tally of the rows at the first `n` ids of `order` that are still there. */
  function Total(t: Table, order: seq<nat>, path: string, n: nat): (c: Tally)
    requires n <= |order|
  {
    if n == 0 then NOTHING
    else Add(Total(t, order, path, n - 1), if order[n - 1] in t then TallyOf(t[order[n - 1]], path) else NOTHING)
  }

  /** The tallies of the groups that begin among the first `m` ids, each taken over the first `n` ids. */
  ghost function GroupTotals(t: Table, order: seq<nat>, path: string, m: nat, n: nat): (c: Tally)
    requires m <= n <= |order| && forall i :: 0 <= i < |order| ==> order[i] in t
  {
    if m == 0 then NOTHING
    else
      var k := KeyOf(t[order[m - 1]]);
      if Group(t, order, k, m - 1) == []
      then Add(GroupTotals(t, order, path, m - 1, n), TallyIn(t, Group(t, order, k, n), path))
      else GroupTotals(t, order, path, m - 1, n)
  }

  lemma AddSwap(a: Tally, b: Tally, c: Tally)
    ensures Add(Add(a, b), c) == Add(Add(a, c), b) == Add(a, Add(b, c))
    ensures Add(a, NOTHING) == a
  {
  }

  /** One more row adds its tally to exactly one group, if its group has begun. */
  lemma {:induction false} OneMoreRow(t: Table, order: seq<nat>, path: string, m: nat, n: nat)
    requires m <= n < |order| && forall i :: 0 <= i < |order| ==> order[i] in t
    ensures var row := t[order[n]];
            GroupTotals(t, order, path, m, n + 1) ==
            if Group(t, order, KeyOf(row), m) == [] then GroupTotals(t, order, path, m, n)
            else Add(GroupTotals(t, order, path, m, n), TallyOf(row, path))
  {
    if m == 0 {
    } else {
      OneMoreRow(t, order, path, m - 1, n);
      var k := KeyOf(t[order[m - 1]]);
      var row := t[order[n]];
      var g := Group(t, order, k, n);
      TallySnoc(t, g, order[n], path);
      AddSwap(GroupTotals(t, order, path, m - 1, n), TallyIn(t, g, path), TallyOf(row, path));
    }
  }

  lemma {:induction false} TotalByGroups(t: Table, order: seq<nat>, path: string, n: nat)
    requires n <= |order| && forall i :: 0 <= i < |order| ==> order[i] in t
    ensures Total(t, order, path, n) == GroupTotals(t, order, path, n, n)
  {
    if n == 0 {
    } else {
      TotalByGroups(t, order, path, n - 1);
      OneMoreRow(t, order, path, n - 1, n - 1);
      var id := order[n - 1];
      TallySnoc(t, [], id, path);
      assert Group(t, order, KeyOf(t[id]), n - 1) == [] ==> Group(t, order, KeyOf(t[id]), n) == [] + [id];
    }
  }

  lemma {:induction false} FirstOfGroup(t: Table, order: seq<nat>, k: Key, m: nat, n: nat)
    requires m <= n <= |order| && forall i :: 0 <= i < |order| ==> order[i] in t
    requires Group(t, order, k, m) != []
    ensures Group(t, order, k, n) != [] && Group(t, order, k, n)[0] == Group(t, order, k, m)[0]
    decreases n
  {
    if m == n {
    } else {
      FirstOfGroup(t, order, k, m, n - 1);
    }
  }

  /** The id at position `i` is the first of its group exactly if the group has nothing before it. */
  lemma BeginsGroup(t: Table, order: seq<nat>, i: nat)
    requires IsOrder(t, order) && i < |order|
    ensures var k := KeyOf(t[order[i]]);
            var g := Group(t, order, k, |order|);
            g != [] && (g[0] == order[i] <==> Group(t, order, k, i) == [])
  {
    var k := KeyOf(t[order[i]]);
    assert Group(t, order, k, i + 1) == Group(t, order, k, i) + [order[i]];
    FirstOfGroup(t, order, k, i + 1, |order|);
    GroupMeaning(t, order, k, i + 1);
    var g := Group(t, order, k, i + 1);
    assert forall j :: 0 <= j < |g| - 1 ==> g[j] < g[|g| - 1];
  }

  ghost predicate SurvivorTally(t: Table, order: seq<nat>, merged: Table, path: string, i: nat)
    requires IsOrder(t, order) && i < |order|
  {
    var k := KeyOf(t[order[i]]);
    && (order[i] in merged <==> Group(t, order, k, i) == [])
    && (order[i] in merged ==>
          TallyOf(merged[order[i]], path) == TallyIn(t, Group(t, order, k, |order|), path))
  }

  lemma MergedRowTally(t: Table, ids: seq<nat>, row: Row, path: string)
    requires ids != [] && (forall id <- ids :: id in t) && IsMergedRow(t, ids, row)
    ensures TallyOf(row, path) == TallyIn(t, ids, path)
  {
    if |ids| == 1 {
      TallySnoc(t, [], ids[0], path);
      assert ids == [] + [ids[0]];
    }
  }

  /** A row is left exactly if its group begins with it, and then carries the group's tally. */
  lemma MergedTally(t: Table, order: seq<nat>, merged: Table, path: string, i: nat)
    requires IsOrder(t, order) && IsMerge(t, order, merged) && i < |order|
    ensures SurvivorTally(t, order, merged, path, i)
  {
    var id := order[i];
    var g := Group(t, order, KeyOf(t[id]), |order|);
    assert MergedAt(t, order, merged, id);
    BeginsGroup(t, order, i);
    if id in merged {
      MergedRowTally(t, g, merged[id], path);
    }
  }

  lemma GroupTotalsStep(t: Table, order: seq<nat>, merged: Table, path: string, m: nat)
    requires IsOrder(t, order) && 0 < m <= |order| && SurvivorTally(t, order, merged, path, m - 1)
    ensures GroupTotals(t, order, path, m, |order|)
            == Add(GroupTotals(t, order, path, m - 1, |order|),
                   if order[m - 1] in merged then TallyOf(merged[order[m - 1]], path) else NOTHING)
  {
    AddSwap(GroupTotals(t, order, path, m - 1, |order|), NOTHING, NOTHING);
  }

  /** The tally of the survivors among the first `m` ids is that of the groups that begin there. */
  lemma {:induction false} MergedTotal(t: Table, order: seq<nat>, merged: Table, path: string, m: nat)
    requires IsOrder(t, order) && m <= |order|
    requires forall i :: 0 <= i < |order| ==> SurvivorTally(t, order, merged, path, i)
    ensures Total(merged, order, path, m) == GroupTotals(t, order, path, m, |order|)
  {
    if m == 0 {
    } else {
      MergedTotal(t, order, merged, path, m - 1);
      GroupTotalsStep(t, order, merged, path, m);
    }
  }

  /** No count is lost or invented: all seven grand totals, and the views of every path, stay the same. */
  lemma TotalsAreConserved(t: Table, order: seq<nat>, merged: Table, path: string)
    requires IsOrder(t, order) && IsMerge(t, order, merged)
    ensures Total(merged, order, path, |order|) == Total(t, order, path, |order|)
  {
    forall i | 0 <= i < |order| ensures SurvivorTally(t, order, merged, path, i) {
      MergedTally(t, order, merged, path, i);
    }
    MergedTotal(t, order, merged, path, |order|);
    TotalByGroups(t, order, path, |order|);
  }

  // ----- The same in plain sums ---------------------------------------------

  /** The seven counters, in the order in which they are declared. */
  function Seven(c: Counters): (r: seq<nat>)
    ensures |r| == 7
  {
    [c.totalViews, c.uniqueIps, c.uniqueUsers, c.apiCalls, c.totalSessions, c.bounces, c.botViews]
  }

  /** Counter `f` summed over the rows of one site and date among the first `n` ids. */
  function SumWhere(t: Table, order: seq<nat>, site: Option<nat>, date: int, f: nat, n: nat): (sum: nat)
    requires n <= |order| && f < 7
  {
    if n == 0 then 0
    else
      SumWhere(t, order, site, date, f, n - 1)
      + if order[n - 1] in t && t[order[n - 1]].site == site && t[order[n - 1]].date == date
        then Seven(t[order[n - 1]].counters)[f] else 0
  }

  /** The views that the rows of one site and date list for a path; a row with a JSON null lists none. */
  function ViewsWhere(t: Table, order: seq<nat>, site: Option<nat>, date: int, path: string, n: nat): (sum: int)
    requires n <= |order|
  {
    if n == 0 then 0
    else
      ViewsWhere(t, order, site, date, path, n - 1)
      + if order[n - 1] in t && t[order[n - 1]].site == site && t[order[n - 1]].date == date then
          match t[order[n - 1]].topPages
          case None => 0
          case Some(pages) => if path in pages then pages[path] else 0
        else 0
  }

  function SumAll(t: Table, order: seq<nat>, f: nat, n: nat): (sum: nat)
    requires n <= |order| && f < 7
  {
    if n == 0 then 0
    else SumAll(t, order, f, n - 1) + if order[n - 1] in t then Seven(t[order[n - 1]].counters)[f] else 0
  }

  lemma PlusField(a: Counters, b: Counters, f: nat)
    requires f < 7
    ensures Seven(Plus(a, b))[f] == Seven(a)[f] + Seven(b)[f]
    ensures Seven(ZERO)[f] == 0
  {
  }

  lemma {:induction false} GroupSums(t: Table, order: seq<nat>, site: Option<nat>, date: int, f: nat, n: nat)
    requires f < 7 && n <= |order| && forall i :: 0 <= i < |order| ==> order[i] in t
    ensures Seven(SumOf(t, Group(t, order, Key(site, date), n)))[f] == SumWhere(t, order, site, date, f, n)
  {
    if n == 0 {
      PlusField(ZERO, ZERO, f);
    } else {
      GroupSums(t, order, site, date, f, n - 1);
      var g := Group(t, order, Key(site, date), n - 1);
      assert (g + [order[n - 1]])[..|g|] == g;
      PlusField(SumOf(t, g), t[order[n - 1]].counters, f);
    }
  }

  lemma {:induction false} GroupViews(t: Table, order: seq<nat>, site: Option<nat>, date: int, path: string, n: nat)
    requires n <= |order| && forall i :: 0 <= i < |order| ==> order[i] in t
    ensures ViewsIn(t, Group(t, order, Key(site, date), n), path) == ViewsWhere(t, order, site, date, path, n)
  {
    if n == 0 {
    } else {
      GroupViews(t, order, site, date, path, n - 1);
      var g := Group(t, order, Key(site, date), n - 1);
      assert (g + [order[n - 1]])[..|g|] == g;
    }
  }

  lemma {:induction false} TotalSums(t: Table, order: seq<nat>, path: string, f: nat, n: nat)
    requires f < 7 && n <= |order|
    ensures Seven(Total(t, order, path, n).counters)[f] == SumAll(t, order, f, n)
  {
    if n == 0 {
      PlusField(ZERO, ZERO, f);
    } else {
      TotalSums(t, order, path, f, n - 1);
      PlusField(Total(t, order, path, n - 1).counters,
                if order[n - 1] in t then t[order[n - 1]].counters else ZERO, f);
    }
  }

  /**
   What the repair does, in the fields of the rows. A row that is left has the lowest id of its site
   and date and keeps everything but its counts; each count is the sum over all rows of that site and date.
   */
  ghost predicate IsRepaired(t: Table, order: seq<nat>, merged: Table, s: nat)
    requires s in merged
  {
    && s in t
    && merged[s] == t[s].(counters := merged[s].counters, topPages := merged[s].topPages)
    && (forall id :: id in t && t[id].site == t[s].site && t[id].date == t[s].date ==> s <= id)
    && (forall f :: 0 <= f < 7 ==>
          Seven(merged[s].counters)[f] == SumWhere(t, order, t[s].site, t[s].date, f, |order|))
    && (forall path :: ViewsAt(merged[s], path) == ViewsWhere(t, order, t[s].site, t[s].date, path, |order|))
  }

  function ViewsAt(row: Row, path: string): (n: int) {
    match row.topPages
    case None => 0
    case Some(pages) => if path in pages then pages[path] else 0
  }

  lemma RepairedRow(t: Table, order: seq<nat>, merged: Table, s: nat)
    requires IsOrder(t, order) && IsMerge(t, order, merged) && s in merged
    ensures IsRepaired(t, order, merged, s)
  {
    var row := t[s];
    var g := Group(t, order, KeyOf(row), |order|);
    assert MergedAt(t, order, merged, s);
    forall id | id in t && t[id].site == row.site && t[id].date == row.date ensures s <= id {
      FirstIsLowest(t, order, id);
    }
    forall f | 0 <= f < 7
      ensures Seven(merged[s].counters)[f] == SumWhere(t, order, row.site, row.date, f, |order|)
    {
      GroupSums(t, order, row.site, row.date, f, |order|);
      MergedRowTally(t, g, merged[s], "");
    }
    forall path ensures ViewsAt(merged[s], path) == ViewsWhere(t, order, row.site, row.date, path, |order|) {
      GroupViews(t, order, row.site, row.date, path, |order|);
      MergedRowTally(t, g, merged[s], path);
    }
  }

  /** The row `id` is that of the site and date. */
  ghost predicate HasDay(t: Table, id: nat, site: Option<nat>, date: int) {
    id in t && t[id].site == site && t[id].date == date
  }

  /** Every site and date keeps a row, and only one. */
  lemma OneRowIsLeft(t: Table, order: seq<nat>, merged: Table, id: nat) returns (s: nat)
    requires IsOrder(t, order) && IsMerge(t, order, merged) && id in t
    ensures HasDay(merged, s, t[id].site, t[id].date)
    ensures forall other :: HasDay(merged, other, t[id].site, t[id].date) ==> other == s
  {
    FirstIsLowest(t, order, id);
    s := Group(t, order, KeyOf(t[id]), |order|)[0];
    assert MergedAt(t, order, merged, s);
    SurvivorIsFirst(t, order, merged, s);
    forall other | HasDay(merged, other, t[id].site, t[id].date) ensures other == s {
      SurvivorIsFirst(t, order, merged, other);
    }
  }

  /** The grand total of each counter, by plain addition, is the same before and after. */
  lemma GrandTotalsStay(t: Table, order: seq<nat>, merged: Table, f: nat)
    requires IsOrder(t, order) && IsMerge(t, order, merged) && f < 7
    ensures SumAll(merged, order, f, |order|) == SumAll(t, order, f, |order|)
  {
    TotalsAreConserved(t, order, merged, "");
    TotalSums(merged, order, "", f, |order|);
    TotalSums(t, order, "", f, |order|);
  }

  // ----- The repair ---------------------------------------------------------

  /** `merged_top_pages[path] = merged_top_pages.get(path, 0) + count` for every entry of `more`. */
  method AddPages(base: Pages, more: Pages) returns (sum: Pages)
    ensures forall path :: ViewsOf(sum, path) == ViewsOf(base, path) + ViewsOf(more, path)
  {
    sum := base;
    var rest := more.Keys;
    while rest != {}
      invariant rest <= more.Keys
      invariant forall path :: ViewsOf(sum, path) ==
                               ViewsOf(base, path) + if path in rest then 0 else ViewsOf(more, path)
      decreases |rest|
    {
      var path :| path in rest;
      sum := sum[path := ViewsOf(sum, path) + more[path]];
      rest := rest - {path};
    }
  }

  /** Folds a group of at least two rows into its first. */
  method FoldGroup(t: Table, ids: seq<nat>) returns (row: Row)
    requires |ids| > 1 && forall i :: 0 <= i < |ids| ==> ids[i] in t
    ensures IsMergedRow(t, ids, row)
  {
    var primary := t[ids[0]];
    var counters := primary.counters;
    var pages := PagesOf(primary);
    SumOne(t, ids[0]);
    assert ids[..1] == [ids[0]] && [ids[0]][..0] == [];
    for j := 1 to |ids|
      invariant counters == SumOf(t, ids[..j])
      invariant forall path :: ViewsOf(pages, path) == ViewsIn(t, ids[..j], path)
    {
      var duplicate := t[ids[j]];
      assert ids[..j + 1][..j] == ids[..j];
      counters := Plus(counters, duplicate.counters);
      pages := AddPages(pages, PagesOf(duplicate));
    }
    assert ids[..|ids|] == ids;
    row := primary.(counters := counters, topPages := Some(pages));
  }

  /** The state of the table once the groups with keys in `done` were folded. */
  ghost predicate Folded(t: Table, order: seq<nat>, rows: Table, done: set<Key>)
    requires IsOrder(t, order)
  {
    forall id :: id in t || id in rows ==> FoldedAt(t, order, rows, done, id)
  }

  ghost predicate FoldedAt(t: Table, order: seq<nat>, rows: Table, done: set<Key>, id: nat)
    requires IsOrder(t, order)
  {
    && id in t
    && if KeyOf(t[id]) in done then MergedAt(t, order, rows, id) else id in rows && rows[id] == t[id]
  }

  /** Folding one more group. */
  lemma FoldedNext(t: Table, order: seq<nat>, rows: Table, done: set<Key>, k: Key, rows': Table)
    requires IsOrder(t, order) && Folded(t, order, rows, done) && k !in done
    requires var g := Group(t, order, k, |order|);
             && g != []
             && (if |g| == 1 then rows' == rows
                 else g[0] in rows' && IsMergedRow(t, g, rows'[g[0]])
                      && rows' == rows[g[0] := rows'[g[0]]] - (set id | id in g[1..]))
    ensures Folded(t, order, rows', done + {k})
  {
    var g := Group(t, order, k, |order|);
    GroupMeaning(t, order, k, |order|);
    forall id | id in t || id in rows' ensures FoldedAt(t, order, rows', done + {k}, id) {
      assert FoldedAt(t, order, rows, done, id);
      InGroup(t, order, k, id);
    }
  }

  lemma InGroup(t: Table, order: seq<nat>, k: Key, id: nat)
    requires IsOrder(t, order) && id in t
    ensures var g := Group(t, order, k, |order|);
            && (id in g <==> KeyOf(t[id]) == k)
            && (id in g <==> (g != [] && id == g[0]) || (g != [] && id in g[1..]))
            && (g != [] && id == g[0] ==> id !in g[1..])
  {
    GroupMeaning(t, order, k, |order|);
    assert id in order;
    var g := Group(t, order, k, |order|);
    if g != [] {
      assert g == [g[0]] + g[1..];
      assert forall j :: 0 <= j < |g| - 1 ==> g[1..][j] == g[j + 1] && g[0] < g[j + 1];
    }
  }

  datatype Kind = Bot | Api | View

  datatype Fault = NoFault | Locked | OtherError

  datatype Increment = Counted | RaisedLocked | RaisedError | RaisedMultiple

  /** Counts one request of the given kind. */
  function Bump(c: Counters, kind: Kind): (r: Counters)
    ensures r.botViews + r.apiCalls + r.totalViews == c.botViews + c.apiCalls + c.totalViews + 1
    ensures r.botViews >= c.botViews && r.apiCalls >= c.apiCalls && r.totalViews >= c.totalViews
  {
    match kind
    case Bot => c.(botViews := c.botViews + 1)
    case Api => c.(apiCalls := c.apiCalls + 1)
    case View => c.(totalViews := c.totalViews + 1)
  }

  /** One request more of that kind in the row `id`, and nothing else. */
  ghost predicate GrewByOne(before: Table, after: Table, id: nat, kind: Kind) {
    && id in before && after.Keys == before.Keys
    && (forall other :: other in before && other != id ==> after[other] == before[other])
    && var c, d := before[id].counters, after[id].counters;
       && d.botViews == c.botViews + (if kind == Bot then 1 else 0)
       && d.apiCalls == c.apiCalls + (if kind == Api then 1 else 0)
       && d.totalViews == c.totalViews + (if kind == View then 1 else 0)
       && d.uniqueIps == c.uniqueIps && d.uniqueUsers == c.uniqueUsers
       && d.totalSessions == c.totalSessions && d.bounces == c.bounces
       && after[id].site == before[id].site && after[id].date == before[id].date
       && after[id].topPages == before[id].topPages && after[id].importedFrom == before[id].importedFrom
  }

  /** A new row for the day, with one request of that kind, and nothing else. */
  ghost predicate StartedWithOne(before: Table, after: Table, id: nat, site: Option<nat>, date: int, kind: Kind) {
    && id !in before && after.Keys == before.Keys + {id}
    && (forall other :: other in before ==> after[other] == before[other])
    && after[id].site == site && after[id].date == date
    && Seven(after[id].counters) ==
       [if kind == View then 1 else 0, 0, 0, if kind == Api then 1 else 0, 0, 0, if kind == Bot then 1 else 0]
    && after[id].topPages == Some(map[])
  }

  lemma AttemptMeaning(t: Table, site: Option<nat>, date: int, fault: Fault)
    ensures var r := Attempt(t, Key(site, date), fault);
            && (r == RaisedLocked <==> fault == Locked)
            && (r == RaisedError <==> fault == OtherError)
            && (r == RaisedMultiple <==>
                  fault == NoFault && exists a, b :: HasDay(t, a, site, date) && HasDay(t, b, site, date) && a != b)
  {
    var found := Matching(t, Key(site, date));
    assert forall id :: id in found <==> HasDay(t, id, site, date);
    if |found| > 1 {
      var a :| a in found;
      assert |found - {a}| > 0;
      var b :| b in found - {a};
      assert HasDay(t, a, site, date) && HasDay(t, b, site, date);
    } else if a: nat, b: nat :| HasDay(t, a, site, date) && HasDay(t, b, site, date) && a != b {
      SubsetSize({a, b}, found);
    }
  }

  lemma StartMeaning(t: Table, id: nat, site: Option<nat>, date: int, kind: Kind)
    requires id !in t && Matching(t, Key(site, date)) == {}
    ensures forall other :: !HasDay(t, other, site, date)
    ensures StartedWithOne(t, t[id := NewRow(site, date, Bump(ZERO, kind))], id, site, date, kind)
  {
    assert forall other :: HasDay(t, other, site, date) ==> other in Matching(t, Key(site, date));
  }

  lemma GrowMeaning(t: Table, id: nat, site: Option<nat>, date: int, kind: Kind)
    requires Matching(t, Key(site, date)) == {id}
    ensures HasDay(t, id, site, date) && GrewByOne(t, t[id := Bumped(t[id], kind)], id, kind)
  {
    assert id in Matching(t, Key(site, date));
  }

  class StatsTable {
    var rows: Table
    var nextId: nat

    ghost predicate Valid()
      reads this
    {
      forall id :: id in rows ==> id < nextId
    }

    constructor (rows: Table, nextId: nat)
      requires forall id :: id in rows ==> id < nextId
      ensures Valid() && this.rows == rows && this.nextId == nextId
    {
      this.rows := rows;
      this.nextId := nextId;
    }

    /** `order` is the database's list of ids, ascending. */
    method MergeDuplicateDailyStats(order: seq<nat>)
      requires Valid() && IsOrder(rows, order)
      modifies this`rows
      ensures Valid() && IsMerge(old(rows), order, rows)
      ensures forall s :: s in rows ==> IsRepaired(old(rows), order, rows, s)
    {
      ghost var before := rows;
      FoldGroups(order);
      forall s | s in rows ensures IsRepaired(before, order, rows, s) {
        RepairedRow(before, order, rows, s);
      }
    }

    /** The loop over the groups. */
    method FoldGroups(order: seq<nat>)
      requires Valid() && IsOrder(rows, order)
      modifies this`rows
      ensures Valid() && IsMerge(old(rows), order, rows)
    {
      var loaded := rows;
      var groups, keys := CollectGroups(loaded, order);
      ghost var done: set<Key> := {};
      for i := 0 to |keys|
        invariant Folded(loaded, order, rows, done)
        invariant forall j :: 0 <= j < |keys| ==> (keys[j] in done <==> j < i)
      {
        var k := keys[i];
        var ids := groups[k];
        ghost var before := rows;
        if |ids| > 1 {
          var row := FoldGroup(loaded, ids);
          rows := rows[ids[0] := row] - (set id | id in ids[1..]);
          InGroup(loaded, order, k, ids[0]);
        }
        FoldedNext(loaded, order, before, done, k, rows);
        done := done + {k};
      }
      AllFolded(loaded, order, rows, done, keys);
    }

    /** Counts one request, trying up to three times while the database reports a lock. */
    method IncrementDailyStats(site: Option<nat>, today: int, kind: Kind, faults: (Fault, Fault, Fault))
      returns (result: Increment)
      requires Valid()
      modifies this
      ensures Valid()
      // Counted: exactly one counter of exactly one row grew, by one; the row is created if there was none.
      ensures result == Counted && (exists id :: HasDay(old(rows), id, site, today)) ==>
                exists id :: HasDay(old(rows), id, site, today) && GrewByOne(old(rows), rows, id, kind)
      ensures result == Counted && !(exists id :: HasDay(old(rows), id, site, today)) ==>
                StartedWithOne(old(rows), rows, old(nextId), site, today, kind)
      // Raised: nothing changed.
      ensures result != Counted ==> rows == old(rows) && nextId == old(nextId)
      // Lock errors are retried twice, every other error is final, and so are several rows for one day.
      ensures var last := if faults.0 != Locked then faults.0 else if faults.1 != Locked then faults.1 else faults.2;
              && (result == RaisedLocked <==> last == Locked)
              && (result == RaisedError <==> last == OtherError)
              && (result == RaisedMultiple <==>
                    last == NoFault
                    && exists a, b :: HasDay(old(rows), a, site, today) && HasDay(old(rows), b, site, today) && a != b)
      // The repaired table stays without duplicates, and then an increment never fails by itself.
      ensures old(UniqueKeys(rows)) ==> UniqueKeys(rows) && result != RaisedMultiple
    {
      var attempt := 0;
      while attempt < 3
        invariant 0 <= attempt <= 3 && rows == old(rows) && nextId == old(nextId) && Valid()
        invariant attempt >= 1 ==> faults.0 == Locked
        invariant attempt >= 2 ==> faults.1 == Locked
        invariant attempt < 3
      {
        var fault := if attempt == 0 then faults.0 else if attempt == 1 then faults.1 else faults.2;
        result := TryOnce(site, today, kind, fault);
        AttemptMeaning(old(rows), site, today, fault);
        if result != RaisedLocked || attempt >= 2 {
          return;
        }
        attempt := attempt + 1;
      }
    }

    /** One transaction: a fault rolls it back. */
    method TryOnce(site: Option<nat>, today: int, kind: Kind, fault: Fault) returns (result: Increment)
      requires Valid()
      modifies this
      ensures Valid()
      ensures result == Attempt(old(rows), Key(site, today), fault)
      ensures result != Counted ==> rows == old(rows) && nextId == old(nextId)
      ensures result == Counted && (exists id :: HasDay(old(rows), id, site, today)) ==>
                exists id :: HasDay(old(rows), id, site, today) && GrewByOne(old(rows), rows, id, kind)
      ensures result == Counted && !(exists id :: HasDay(old(rows), id, site, today)) ==>
                StartedWithOne(old(rows), rows, old(nextId), site, today, kind)
      ensures old(UniqueKeys(rows)) ==> UniqueKeys(rows) && result != RaisedMultiple
    {
      var found := Matching(rows, Key(site, today));
      AtMostOne(rows, Key(site, today));
      if fault == Locked {
        return RaisedLocked;
      }
      if fault == OtherError {
        return RaisedError;
      }
      if |found| > 1 {
        return RaisedMultiple;
      }
      if found == {} {
        StartMeaning(rows, nextId, site, today, kind);
        UniqueInsert(rows, nextId, NewRow(site, today, Bump(ZERO, kind)));
        rows := rows[nextId := NewRow(site, today, Bump(ZERO, kind))];
        nextId := nextId + 1;
      } else {
        var id :| id in found;
        assert |found - {id}| == 0;
        assert found == {id};
        GrowMeaning(rows, id, site, today, kind);
        UniqueBump(rows, id, kind);
        rows := rows[id := Bumped(rows[id], kind)];
      }
      return Counted;
    }
  }

  /** The rows that a lookup by (site, date) finds. */
  function Matching(t: Table, k: Key): (ids: set<nat>) {
    set id | id in t && KeyOf(t[id]) == k
  }

  /** How one attempt ends. */
  function Attempt(t: Table, k: Key, fault: Fault): (r: Increment) {
    match fault
    case Locked => RaisedLocked
    case OtherError => RaisedError
    case NoFault => if |Matching(t, k)| > 1 then RaisedMultiple else Counted
  }

  function NewRow(site: Option<nat>, date: int, counters: Counters): (r: Row) {
    Row(site, date, counters, Some(map[]), "")
  }

  function Bumped(row: Row, kind: Kind): (r: Row) {
    row.(counters := Bump(row.counters, kind))
  }

  lemma AtMostOne(t: Table, k: Key)
    ensures UniqueKeys(t) ==> |Matching(t, k)| <= 1
  {
    var found := Matching(t, k);
    if UniqueKeys(t) && found != {} {
      var id :| id in found;
      assert found == {id};
    }
  }

  /** A first row for `k` cannot repeat a key. */
  lemma UniqueInsert(t: Table, id: nat, row: Row)
    requires id !in t && Matching(t, KeyOf(row)) == {}
    ensures UniqueKeys(t) ==> UniqueKeys(t[id := row])
  {
    assert forall a :: a in t ==> a !in Matching(t, KeyOf(row));
  }

  lemma UniqueBump(t: Table, id: nat, kind: Kind)
    requires id in t
    ensures UniqueKeys(t) ==> UniqueKeys(t[id := Bumped(t[id], kind)])
  {
  }

  /** The ids of each (site, date), collected in ascending order, with the keys in order of appearance. */
  method CollectGroups(t: Table, order: seq<nat>) returns (groups: map<Key, seq<nat>>, keys: seq<Key>)
    requires IsOrder(t, order)
    ensures Distinct(keys)
    ensures forall k :: k in keys <==> k in groups
    ensures forall k :: (k in groups <==> Group(t, order, k, |order|) != [])
                        && (k in groups ==> groups[k] == Group(t, order, k, |order|))
  {
    groups, keys := map[], [];
    for i := 0 to |order|
      invariant Distinct(keys)
      invariant forall k :: k in keys <==> k in groups
      invariant forall k :: (k in groups <==> Group(t, order, k, i) != [])
                            && (k in groups ==> groups[k] == Group(t, order, k, i))
    {
      var k := KeyOf(t[order[i]]);
      if k !in groups {
        keys := keys + [k];
        groups := groups[k := []];
      }
      groups := groups[k := groups[k] + [order[i]]];
    }
  }

  lemma AllFolded(t: Table, order: seq<nat>, rows: Table, done: set<Key>, keys: seq<Key>)
    requires IsOrder(t, order) && Folded(t, order, rows, done)
    requires forall k <- keys :: k in done
    requires forall k :: Group(t, order, k, |order|) != [] ==> k in keys
    ensures IsMerge(t, order, rows)
  {
    forall id | id in t || id in rows ensures MergedAt(t, order, rows, id) {
      assert FoldedAt(t, order, rows, done, id);
      FirstIsLowest(t, order, id);
    }
  }
}
