// The search for the policy of a resource (the first half of GetPolicy in
// DBoperate.c): at the resource itself, then at its groups, then up the
// hierarchy of groups. The tables stand for what the queries return, row by row.
module PolicySearch {
  import opened Options

  /** A row of pr_prolicyroleitem. */
  datatype RoleItem = RoleItem(id: string, roleId: string, relationId: string, kind: string)

  /** A row of pr_resprolicygroupitem. */
  datatype GroupItem = GroupItem(resId: string, groupId: string)

  datatype Tables = Tables(roleItems: seq<RoleItem>, groupItems: seq<GroupItem>, parents: map<string, string>)

  const ROOT := "1000000000"
  const NOWHERE := "0000000000"

  // ---- The queries ----

  /** The item that is set for the resource itself. */
  function DirectItem(items: seq<RoleItem>, role: string, res: string): (r: Option<string>)
    ensures r.Some? ==> exists i :: 0 <= i < |items| && items[i].id == r.value && items[i].roleId == role &&
                                    items[i].relationId == res && items[i].kind == "2"
    ensures r.None? ==> forall i :: 0 <= i < |items| ==> !(items[i].roleId == role && items[i].relationId == res &&
                                                           items[i].kind == "2")
  {
    if items == [] then None
    else if items[0].roleId == role && items[0].relationId == res && items[0].kind == "2" then Some(items[0].id)
    else
      var r := DirectItem(items[1..], role, res);
      assert r.Some? ==> forall i :: 0 <= i < |items[1..]| ==> items[1..][i] == items[i + 1];
      r
  }

  /** The item that is set for a group. */
  function ItemOf(items: seq<RoleItem>, role: string, group: string): (r: Option<string>)
    ensures r.Some? ==> exists i :: 0 <= i < |items| && items[i].id == r.value && items[i].roleId == role &&
                                    items[i].relationId == group
    ensures r.None? ==> forall i :: 0 <= i < |items| ==> !(items[i].roleId == role && items[i].relationId == group)
  {
    if items == [] then None
    else if items[0].roleId == role && items[0].relationId == group then Some(items[0].id)
    else
      var r := ItemOf(items[1..], role, group);
      assert r.Some? ==> forall i :: 0 <= i < |items[1..]| ==> items[1..][i] == items[i + 1];
      r
  }

  /** The item of one of the groups that the resource is in. */
  function GroupsItem(t: Tables, memberships: seq<GroupItem>, role: string, res: string): (r: Option<string>)
    ensures r.Some? <==> exists k :: 0 <= k < |memberships| && memberships[k].resId == res &&
                                     ItemOf(t.roleItems, role, memberships[k].groupId).Some?
    ensures r.Some? ==> exists k :: 0 <= k < |memberships| && memberships[k].resId == res &&
                                    ItemOf(t.roleItems, role, memberships[k].groupId) == r
  {
    if memberships == [] then None
    else if memberships[0].resId == res && ItemOf(t.roleItems, role, memberships[0].groupId).Some? then
      ItemOf(t.roleItems, role, memberships[0].groupId)
    else
      var r := GroupsItem(t, memberships[1..], role, res);
      assert forall k :: 0 <= k < |memberships[1..]| ==> memberships[1..][k] == memberships[k + 1];
      r
  }

  /** The first group of the resource. */
  function FirstGroup(memberships: seq<GroupItem>, res: string): (r: Option<string>)
    ensures r.Some? <==> exists k :: 0 <= k < |memberships| && memberships[k].resId == res
  {
    if memberships == [] then None
    else if memberships[0].resId == res then Some(memberships[0].groupId)
    else
      assert forall k :: 0 <= k < |memberships[1..]| ==> memberships[1..][k] == memberships[k + 1];
      FirstGroup(memberships[1..], res)
  }

  /** At the root of the hierarchy the item is the one of role '0'. */
  function LevelItem(t: Tables, role: string, group: string): Option<string> {
    ItemOf(t.roleItems, if group == ROOT then "0" else role, group)
  }

  // ---- The hierarchy ----

  /** The group `k` levels above. */
  function Up(parents: map<string, string>, group: string, k: nat): Option<string>
    decreases k
  {
    if k == 0 then Some(group)
    else if group !in parents then None
    else Up(parents, parents[group], k - 1)
  }

  predicate Top(group: string) {
    group == ROOT || group == NOWHERE
  }

  /** The item set for the group `k` levels above, if there are both. */
  function ItemAbove(t: Tables, role: string, group: string, k: nat): Option<string> {
    var g := Up(t.parents, group, k);
    if g.None? then None else LevelItem(t, role, g.value)
  }

  /** Level `k` exists, has no item, and does not end the search. */
  predicate Passed(t: Tables, role: string, group: string, k: nat) {
    && Up(t.parents, group, k).Some? && !Top(Up(t.parents, group, k).value)
    && ItemAbove(t, role, group, k).None?
  }

  /** Level `k` is looked at: it exists, and all levels below it are passed. */
  ghost predicate Reached(t: Tables, role: string, group: string, k: nat) {
    && k > 0 && Up(t.parents, group, k).Some?
    && forall j :: 0 < j < k ==> Passed(t, role, group, j)
  }

  /** Some level that is looked at has an item. */
  ghost predicate SomeLevel(t: Tables, role: string, group: string) {
    exists k: nat :: Reached(t, role, group, k) && ItemAbove(t, role, group, k).Some?
  }

  ghost predicate EndsAtTop(t: Tables, role: string, group: string) {
    exists k: nat :: Reached(t, role, group, k) && Top(Up(t.parents, group, k).value)
  }

  /** The climb comes to an end: some level above is missing, is a top, or has an item. */
  ghost predicate Ends(t: Tables, role: string, group: string) {
    exists k: nat :: k > 0 && !Passed(t, role, group, k)
  }

  /** Following the parents of groups below a top comes to an end. */
  ghost predicate Acyclic(parents: map<string, string>, rank: map<string, nat>) {
    && parents.Keys <= rank.Keys
    && forall g :: g in parents && !Top(parents[g]) && parents[g] in rank ==> rank[parents[g]] < rank[g]
  }

  lemma PassedFrom(t: Tables, role: string, group: string, k: nat)
    requires group in t.parents
    ensures Passed(t, role, group, k + 1) == Passed(t, role, t.parents[group], k)
  {
    hide LevelItem, Top;
  }

  /** Without cycles below the tops, every climb comes to an end. */
  lemma {:induction false} AcyclicEnds(t: Tables, role: string, group: string, rank: map<string, nat>)
    requires Acyclic(t.parents, rank)
    ensures Ends(t, role, group)
    decreases if group in rank then rank[group] + 1 else 0
  {
    hide LevelItem, Top, ItemAbove;
    UpStep(t.parents, group, 0);
    if group in t.parents && !Top(t.parents[group]) {
      var g := t.parents[group];
      AcyclicEnds(t, role, g, rank);
      var k: nat :| k > 0 && !Passed(t, role, g, k);
      PassedFrom(t, role, group, k);
      hide Passed;
      assert !Passed(t, role, group, k + 1);
    } else {
      assert !Passed(t, role, group, 1);
    }
  }

  datatype Climb = Found(item: string, level: nat) | NoParent | NoItemAtTop

  /** The loop of GetPolicy up the hierarchy. */
  method ClimbGroups(t: Tables, role: string, first: string) returns (r: Climb)
    requires Ends(t, role, first)
    ensures r.Found? ==> Reached(t, role, first, r.level) && ItemAbove(t, role, first, r.level) == Some(r.item)
    ensures r.Found? <==> SomeLevel(t, role, first)
    ensures r.NoItemAtTop? <==> !r.Found? && EndsAtTop(t, role, first)
    ensures r.NoParent? ==> StopsBelow(t, role, first)
  {
    hide ItemOf, StopsBelow;
    var groupid, level := first, 0;
    ghost var last: nat :| last > 0 && !Passed(t, role, first, last);
    while true
      invariant Up(t.parents, first, level) == Some(groupid)
      invariant forall j :: 0 < j <= level ==> Passed(t, role, first, j)
      decreases last - level
    {
      assert level > 0 ==> Passed(t, role, first, level);
      UpStep(t.parents, first, level);
      if groupid !in t.parents {
        EndsHere(t, role, first, level);
        ReachedEnd(t, role, first, level);
        return NoParent;
      }
      groupid := t.parents[groupid];
      level := level + 1;
      var item := LevelItem(t, role, groupid);
      if item.Some? {
        return Found(item.value, level);
      }
      if groupid == ROOT || groupid == NOWHERE {
        TopHere(t, role, first, level);
        return NoItemAtTop;
      }
    }
  }

  lemma {:induction false} UpStep(parents: map<string, string>, group: string, k: nat)
    requires Up(parents, group, k).Some?
    ensures var g := Up(parents, group, k).value;
            Up(parents, group, k + 1) == if g in parents then Some(parents[g]) else None
    decreases k
  {
    if k > 0 {
      UpStep(parents, parents[group], k - 1);
    }
  }

  lemma {:induction false} NoneAbove(parents: map<string, string>, group: string, k: nat, n: nat)
    requires Up(parents, group, k).None? && k <= n
    ensures Up(parents, group, n).None?
    decreases k
  {
    if k > 0 && group in parents {
      NoneAbove(parents, parents[group], k - 1, n - 1);
    }
  }

  lemma EndsHere(t: Tables, role: string, first: string, level: nat)
    requires Up(t.parents, first, level + 1).None?
    requires forall j :: 0 < j <= level ==> Passed(t, role, first, j)
    ensures forall k: nat :: Reached(t, role, first, k) ==> Passed(t, role, first, k)
    ensures !SomeLevel(t, role, first)
  {
    hide Up, LevelItem, Top, ItemAbove;
    forall k: nat | Reached(t, role, first, k)
      ensures Passed(t, role, first, k)
    {
      if k > level {
        NoneAbove(t.parents, first, level + 1, k);
      }
    }
  }

  lemma TopHere(t: Tables, role: string, first: string, level: nat)
    requires level > 0 && Up(t.parents, first, level).Some? && Top(Up(t.parents, first, level).value)
    requires ItemAbove(t, role, first, level).None?
    requires forall j :: 0 < j < level ==> Passed(t, role, first, j)
    ensures Reached(t, role, first, level) && !SomeLevel(t, role, first)
  {
    hide Up, LevelItem, Top;
    forall k: nat | Reached(t, role, first, k)
      ensures ItemAbove(t, role, first, k).None?
    {
      assert k > level ==> Passed(t, role, first, level);
      assert k < level ==> Passed(t, role, first, k);
    }
  }

  /** The level that the search stops at is the nearest one with an item: there is only one such level. */
  lemma NearestIsUnique(t: Tables, role: string, first: string, k: nat, n: nat)
    requires Reached(t, role, first, k) && ItemAbove(t, role, first, k).Some?
    requires Reached(t, role, first, n) && ItemAbove(t, role, first, n).Some?
    ensures k == n
  {
    hide LevelItem, Top, Up;
    assert k < n ==> Passed(t, role, first, k);
    assert n < k ==> Passed(t, role, first, n);
  }

  // ---- GetPolicy ----

  /** Where the search finds the item. */
  datatype Source = OfResource | OfGroup | OfLevel(k: nat) | Nothing

  // ---- The same, row by row ----

  /** The first row that sets an item for the role and the place. */
  ghost predicate FirstRow(items: seq<RoleItem>, role: string, place: string, item: string) {
    exists i :: 0 <= i < |items| && items[i].roleId == role && items[i].relationId == place && items[i].id == item &&
                forall j :: 0 <= j < i ==> !(items[j].roleId == role && items[j].relationId == place)
  }

  ghost predicate NoRow(items: seq<RoleItem>, role: string, place: string) {
    forall i :: 0 <= i < |items| ==> !(items[i].roleId == role && items[i].relationId == place)
  }

  /** The first row of kind "2" that sets an item for the role and the resource. */
  ghost predicate FirstDirect(items: seq<RoleItem>, role: string, res: string, item: string) {
    exists i :: 0 <= i < |items| && items[i] == RoleItem(item, role, res, "2") &&
                forall j :: 0 <= j < i ==>
                  !(items[j].roleId == role && items[j].relationId == res && items[j].kind == "2")
  }

  ghost predicate NoDirect(items: seq<RoleItem>, role: string, res: string) {
    forall i :: 0 <= i < |items| ==> !(items[i].roleId == role && items[i].relationId == res && items[i].kind == "2")
  }

  /** The role that counts at a group of the hierarchy: at the root it is the role "0". */
  function RoleAt(role: string, group: string): string {
    if group == "1000000000" then "0" else role
  }

  /** The `i`-th row is the first one that puts the resource into a group. */
  ghost predicate FirstMembership(t: Tables, res: string, i: nat) {
    && i < |t.groupItems| && t.groupItems[i].resId == res
    && forall j :: 0 <= j < i ==> t.groupItems[j].resId != res
  }

  /** From a group to its parent, and on. */
  ghost predicate Chain(t: Tables, first: string, chain: seq<string>) {
    && chain != [] && chain[0] == first
    && forall n :: 0 <= n < |chain| - 1 ==> chain[n] in t.parents && t.parents[chain[n]] == chain[n + 1]
  }

  /** The groups of the chain above the first one, up to the `k`-th, are no tops and have no item. */
  ghost predicate Barren(t: Tables, role: string, chain: seq<string>, k: nat) {
    forall n :: 0 < n < |chain| && n < k ==>
      chain[n] != "1000000000" && chain[n] != "0000000000" && NoRow(t.roleItems, RoleAt(role, chain[n]), chain[n])
  }

  /** The climb from a group finds the item `k` levels above. */
  ghost predicate FoundAbove(t: Tables, role: string, first: string, k: nat, item: string) {
    exists chain :: Chain(t, first, chain) && |chain| == k + 1 && k > 0 && Barren(t, role, chain, k) &&
                    FirstRow(t.roleItems, RoleAt(role, chain[k]), chain[k], item)
  }

  /** The climb ends at a top that has no item. */
  ghost predicate StopsAtTop(t: Tables, role: string, first: string) {
    exists chain :: Chain(t, first, chain) && |chain| > 1 && Barren(t, role, chain, |chain| - 1) &&
                    NoRow(t.roleItems, RoleAt(role, chain[|chain| - 1]), chain[|chain| - 1]) &&
                    chain[|chain| - 1] in {"1000000000", "0000000000"}
  }

  /** The climb ends at a group that has no parent. */
  ghost predicate StopsBelow(t: Tables, role: string, first: string) {
    exists chain :: Chain(t, first, chain) && Barren(t, role, chain, |chain|) && chain[|chain| - 1] !in t.parents
  }

  lemma RowBehind(items: seq<RoleItem>, role: string, place: string, item: string)
    requires items != [] && !(items[0].roleId == role && items[0].relationId == place)
    requires FirstRow(items[1..], role, place, item)
    ensures FirstRow(items, role, place, item)
  {
    var rest := items[1..];
    var i :| 0 <= i < |rest| && rest[i].roleId == role && rest[i].relationId == place && rest[i].id == item &&
             forall j :: 0 <= j < i ==> !(rest[j].roleId == role && rest[j].relationId == place);
    assert forall j :: 0 < j < i + 1 ==> items[j] == rest[j - 1];
    assert items[i + 1] == rest[i];
  }

  lemma {:induction false} ItemOfRows(items: seq<RoleItem>, role: string, group: string)
    ensures var r := ItemOf(items, role, group);
            if r.Some? then FirstRow(items, role, group, r.value) else NoRow(items, role, group)
  {
    if items != [] && !(items[0].roleId == role && items[0].relationId == group) {
      ItemOfRows(items[1..], role, group);
      var r := ItemOf(items[1..], role, group);
      assert ItemOf(items, role, group) == r;
      hide ItemOf, FirstRow;
      if r.Some? {
        RowBehind(items, role, group, r.value);
      }
    }
  }

  lemma DirectBehind(items: seq<RoleItem>, role: string, res: string, item: string)
    requires items != [] && !(items[0].roleId == role && items[0].relationId == res && items[0].kind == "2")
    requires FirstDirect(items[1..], role, res, item)
    ensures FirstDirect(items, role, res, item)
  {
    var rest := items[1..];
    var i :| 0 <= i < |rest| && rest[i] == RoleItem(item, role, res, "2") &&
             forall j :: 0 <= j < i ==> !(rest[j].roleId == role && rest[j].relationId == res && rest[j].kind == "2");
    assert forall j :: 0 < j < i + 1 ==> items[j] == rest[j - 1];
    assert items[i + 1] == rest[i];
  }

  lemma {:induction false} DirectItemRows(items: seq<RoleItem>, role: string, res: string)
    ensures var r := DirectItem(items, role, res);
            if r.Some? then FirstDirect(items, role, res, r.value) else NoDirect(items, role, res)
  {
    if items != [] && !(items[0].roleId == role && items[0].relationId == res && items[0].kind == "2") {
      DirectItemRows(items[1..], role, res);
      var r := DirectItem(items[1..], role, res);
      assert DirectItem(items, role, res) == r;
      hide DirectItem, FirstDirect;
      if r.Some? {
        DirectBehind(items, role, res, r.value);
      }
    }
  }

  /** The item of a group that the resource is in, and no earlier group of the resource has one. */
  ghost predicate FirstOfGroups(t: Tables, rows: seq<GroupItem>, role: string, res: string, item: string) {
    exists k :: 0 <= k < |rows| && rows[k].resId == res && FirstRow(t.roleItems, role, rows[k].groupId, item) &&
                forall j :: 0 <= j < k && rows[j].resId == res ==> NoRow(t.roleItems, role, rows[j].groupId)
  }

  ghost predicate NoneOfGroups(t: Tables, rows: seq<GroupItem>, role: string, res: string) {
    forall k :: 0 <= k < |rows| && rows[k].resId == res ==> NoRow(t.roleItems, role, rows[k].groupId)
  }

  lemma GroupBehind(t: Tables, rows: seq<GroupItem>, role: string, res: string, item: string)
    requires rows != [] && (rows[0].resId == res ==> NoRow(t.roleItems, role, rows[0].groupId))
    requires FirstOfGroups(t, rows[1..], role, res, item)
    ensures FirstOfGroups(t, rows, role, res, item)
  {
    hide FirstRow, NoRow;
    var rest := rows[1..];
    var k :| 0 <= k < |rest| && rest[k].resId == res && FirstRow(t.roleItems, role, rest[k].groupId, item) &&
             forall j :: 0 <= j < k && rest[j].resId == res ==> NoRow(t.roleItems, role, rest[j].groupId);
    assert forall j :: 0 < j < k + 1 ==> rows[j] == rest[j - 1];
    assert rows[k + 1] == rest[k];
  }

  lemma {:induction false} GroupsItemRows(t: Tables, rows: seq<GroupItem>, role: string, res: string)
    ensures var r := GroupsItem(t, rows, role, res);
            if r.Some? then FirstOfGroups(t, rows, role, res, r.value) else NoneOfGroups(t, rows, role, res)
  {
    hide ItemOf, FirstRow, NoRow;
    if rows != [] {
      ItemOfRows(t.roleItems, role, rows[0].groupId);
      if !(rows[0].resId == res && ItemOf(t.roleItems, role, rows[0].groupId).Some?) {
        GroupsItemRows(t, rows[1..], role, res);
        var r := GroupsItem(t, rows[1..], role, res);
        assert GroupsItem(t, rows, role, res) == r;
        assert forall j :: 0 < j < |rows| ==> rows[j] == rows[1..][j - 1];
        hide GroupsItem, FirstOfGroups;
        if r.Some? {
          GroupBehind(t, rows, role, res, r.value);
        }
      }
    }
  }

  lemma {:induction false} FirstGroupRow(t: Tables, rows: seq<GroupItem>, res: string) returns (i: nat)
    ensures var r := FirstGroup(rows, res);
            if r.Some? then
              && i < |rows| && rows[i].resId == res && r == Some(rows[i].groupId)
              && forall j :: 0 <= j < i ==> rows[j].resId != res
            else forall j :: 0 <= j < |rows| ==> rows[j].resId != res
  {
    i := 0;
    if rows != [] && rows[0].resId != res {
      var k := FirstGroupRow(t, rows[1..], res);
      assert forall j :: 0 < j < |rows| ==> rows[j] == rows[1..][j - 1];
      i := k + 1;
    }
  }

  lemma LevelRows(t: Tables, role: string, group: string)
    ensures var r := LevelItem(t, role, group);
            if r.Some? then FirstRow(t.roleItems, RoleAt(role, group), group, r.value)
            else NoRow(t.roleItems, RoleAt(role, group), group)
    ensures Top(group) <==> group in {"1000000000", "0000000000"}
  {
    hide ItemOf, FirstRow, NoRow;
    ItemOfRows(t.roleItems, RoleAt(role, group), group);
  }

  /** The levels up to the `k`-th, as a chain. */
  lemma Levels(t: Tables, first: string, k: nat) returns (chain: seq<string>)
    requires Up(t.parents, first, k).Some?
    ensures Chain(t, first, chain) && |chain| == k + 1
    ensures forall n :: 0 <= n <= k ==> Up(t.parents, first, n) == Some(chain[n])
  {
    forall n | 0 <= n <= k
      ensures Up(t.parents, first, n).Some?
    {
      if Up(t.parents, first, n).None? {
        NoneAbove(t.parents, first, n, k);
      }
    }
    chain := seq(k + 1, n requires 0 <= n <= k => Up(t.parents, first, n).value);
    forall n | 0 <= n < k
      ensures chain[n] in t.parents && t.parents[chain[n]] == chain[n + 1]
    {
      UpStep(t.parents, first, n);
    }
  }

  lemma PassedIsBarren(t: Tables, role: string, first: string, chain: seq<string>, k: nat)
    requires k <= |chain|
    requires forall n :: 0 <= n < |chain| ==> Up(t.parents, first, n) == Some(chain[n])
    requires forall n :: 0 < n < k ==> Passed(t, role, first, n)
    ensures Barren(t, role, chain, k)
  {
    hide Up, LevelItem, Top, NoRow, RoleAt;
    forall n | 0 < n < |chain| && n < k
      ensures chain[n] != "1000000000" && chain[n] != "0000000000"
      ensures NoRow(t.roleItems, RoleAt(role, chain[n]), chain[n])
    {
      LevelRows(t, role, chain[n]);
      assert Passed(t, role, first, n);
    }
  }

  lemma ReachedItem(t: Tables, role: string, first: string, k: nat, item: string)
    requires Reached(t, role, first, k) && ItemAbove(t, role, first, k) == Some(item)
    ensures FoundAbove(t, role, first, k, item)
  {
    hide Up, LevelItem, Top, FirstRow, NoRow, RoleAt, Barren, Chain, Passed;
    var chain := Levels(t, first, k);
    PassedIsBarren(t, role, first, chain, k);
    LevelRows(t, role, chain[k]);
  }

  lemma ReachedTop(t: Tables, role: string, first: string)
    requires EndsAtTop(t, role, first) && !SomeLevel(t, role, first)
    ensures StopsAtTop(t, role, first)
  {
    hide Up, LevelItem, Top, FirstRow, NoRow, RoleAt, Barren, Chain, Passed;
    var k: nat :| Reached(t, role, first, k) && Top(Up(t.parents, first, k).value);
    var chain := Levels(t, first, k);
    PassedIsBarren(t, role, first, chain, k);
    LevelRows(t, role, chain[k]);
    assert ItemAbove(t, role, first, k).None?;
  }

  lemma ReachedEnd(t: Tables, role: string, first: string, level: nat)
    requires Up(t.parents, first, level).Some? && Up(t.parents, first, level).value !in t.parents
    requires forall j :: 0 < j <= level ==> Passed(t, role, first, j)
    ensures StopsBelow(t, role, first)
  {
    hide Up, LevelItem, Top, NoRow, RoleAt, Barren, Chain, Passed;
    var chain := Levels(t, first, level);
    PassedIsBarren(t, role, first, chain, level + 1);
  }

  /** The item is the one set for the nearest place that has one. */
  ghost predicate IsNearest(t: Tables, role: string, res: string, item: string, from: Source) {
    var direct, group := DirectItem(t.roleItems, role, res), GroupsItem(t, t.groupItems, role, res);
    var first := FirstGroup(t.groupItems, res);
    match from
    case OfResource => direct == Some(item)
    case OfGroup => direct.None? && group == Some(item)
    case OfLevel(k) =>
      && direct.None? && group.None? && first.Some?
      && Reached(t, role, first.value, k) && ItemAbove(t, role, first.value, k) == Some(item)
    case Nothing => direct.None? && group.None? && (first.Some? ==> !SomeLevel(t, role, first.value))
  }

  /** Neither the resource nor its groups have an item, and there is a group to start from. */
  predicate MustClimb(t: Tables, role: string, res: string, wasResource: int) {
    && DirectItem(t.roleItems, role, res).None? && wasResource == 0 && GroupsItem(t, t.groupItems, role, res).None?
    && FirstGroup(t.groupItems, res).Some?
  }

  /** The search of GetPolicy: the code it returns, the item it chose, and the flag that
      says whether the item is set for the resource itself. A flag that is set from the
      start confines the search to the resource. */
  method FindItem(t: Tables, role: string, res: string, wasResource: int)
    returns (code: int, item: string, isResource: int, ghost from: Source)
    requires MustClimb(t, role, res, wasResource) ==> Ends(t, role, FirstGroup(t.groupItems, res).value)
    ensures code in {0, 4, 5, 6}
    ensures code == 4 <==> DirectItem(t.roleItems, role, res).None? && wasResource != 0
    ensures code != 4 ==> IsNearest(t, role, res, item, from) && (code == 0 <==> !from.Nothing?)
    ensures isResource == if code == 0 && from.OfResource? then 1 else wasResource
    ensures code != 0 && code != 4 ==>
              (code == 6 <==>
               FirstGroup(t.groupItems, res).Some? && EndsAtTop(t, role, FirstGroup(t.groupItems, res).value))
    ensures code == 0 && from.OfResource? ==> FirstDirect(t.roleItems, role, res, item)
    ensures code != 0 || !from.OfResource? ==> NoDirect(t.roleItems, role, res)
    ensures code == 0 && from.OfGroup? ==> FirstOfGroups(t, t.groupItems, role, res, item)
    ensures code in {5, 6} || (code == 0 && from.OfLevel?) ==> NoneOfGroups(t, t.groupItems, role, res)
    ensures code == 0 && from.OfLevel? ==>
              exists i: nat :: FirstMembership(t, res, i) && FoundAbove(t, role, t.groupItems[i].groupId, from.k, item)
    ensures code == 5 ==>
              || (forall i :: 0 <= i < |t.groupItems| ==> t.groupItems[i].resId != res)
              || exists i: nat :: FirstMembership(t, res, i) && StopsBelow(t, role, t.groupItems[i].groupId)
    ensures code == 6 ==> exists i: nat :: FirstMembership(t, res, i) && StopsAtTop(t, role, t.groupItems[i].groupId)
  {
    hide DirectItem, GroupsItem, FirstGroup, LevelItem, Up, Top, ItemAbove, SomeLevel, EndsAtTop, Ends, FirstDirect,
         NoDirect, FirstOfGroups, NoneOfGroups, FoundAbove, StopsBelow, StopsAtTop, Reached;
    DirectItemRows(t.roleItems, role, res);
    GroupsItemRows(t, t.groupItems, role, res);
    ghost var first := FirstGroupRow(t, t.groupItems, res);
    code, item, isResource, from := 0, "", wasResource, Nothing;
    var row := DirectItem(t.roleItems, role, res);
    if row.Some? {
      return 0, row.value, 1, OfResource;
    }
    if isResource != 0 {
      return 4, "", isResource, Nothing;
    }
    row := GroupsItem(t, t.groupItems, role, res);
    if row.Some? {
      return 0, row.value, isResource, OfGroup;
    }
    row := FirstGroup(t.groupItems, res);
    if row.None? {
      return 5, "", isResource, Nothing;
    }
    var climb := ClimbGroups(t, role, row.value);
    match climb
    case Found(found, level) =>
      item, from := found, OfLevel(level);
      ReachedItem(t, role, row.value, level, found);
    case NoParent =>
      code := 5;
    case NoItemAtTop =>
      code := 6;
      ReachedTop(t, role, row.value);
  }
}
