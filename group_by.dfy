/**
 * The grouping kernel of group_by_analysis: rows are gathered into a dict
 * keyed by the tuple of their grouping-column values, the dict's entries are
 * stably sorted by group size (largest first), and the first five reported.
 *
 * The function checks no column names itself: a row without a grouping
 * column contributes "NA" for it.
 */
module GroupBy {
  import opened Table
  import opened Frequencies
  import opened StableSort

  /** What `row.get(col, 'NA')` yields for a column the row does not have. */
  const Absent: string := "NA"

  /** How many of the largest groups are reported. */
  const TopGroupCount: nat := 5

  /** The tuple of grouping-column values. */
  type Key = seq<string>

  /** One entry of the groups dict: a key and its rows. */
  datatype Group = Group(key: Key, rows: seq<Row>)

  /** `tuple(row.get(col, 'NA') for col in columns)`. */
  function KeyOf(row: Row, columns: seq<string>): (key: Key)
    ensures |key| == |columns|
    ensures forall i :: 0 <= i < |columns| ==>
      key[i] == (if columns[i] in row then row[columns[i]] else Absent)
  {
    if columns == [] then []
    else [if columns[0] in row then row[columns[0]] else Absent] + KeyOf(row, columns[1..])
  }

  /** The key of every row, in row order. */
  function Keys(data: seq<Row>, columns: seq<string>): (keys: seq<Key>)
    ensures |keys| == |data|
    ensures forall i {:trigger keys[i]} :: 0 <= i < |data| ==> keys[i] == KeyOf(data[i], columns)
  {
    seq(|data|, i requires 0 <= i < |data| => KeyOf(data[i], columns))
  }

  /** The rows whose key is `key`, in table order. */
  function RowsWithKey(data: seq<Row>, columns: seq<string>, key: Key): (rows: seq<Row>)
    ensures |rows| <= |data|
    ensures forall i :: 0 <= i < |rows| ==> KeyOf(rows[i], columns) == key
  {
    if data == [] then []
    else
      var init := data[..|data| - 1];
      var last := data[|data| - 1];
      var rows := RowsWithKey(init, columns, key);
      if KeyOf(last, columns) == key then rows + [last] else rows
  }

  /** A group holds only rows of the table that carry its key. */
  lemma {:induction false} RowsWithKeyMembers(data: seq<Row>, columns: seq<string>, key: Key)
    ensures forall i :: 0 <= i < |RowsWithKey(data, columns, key)| ==>
      RowsWithKey(data, columns, key)[i] in data && KeyOf(RowsWithKey(data, columns, key)[i], columns) == key
  {
    if data != [] {
      var init := data[..|data| - 1];
      RowsWithKeyMembers(init, columns, key);
      assert forall r :: r in init ==> r in data;
    }
  }

  /** Scanning one more row adds it to the group of its key only. */
  lemma RowsWithKeySnoc(front: seq<Row>, row: Row, columns: seq<string>, key: Key)
    ensures RowsWithKey(front + [row], columns, key) ==
      RowsWithKey(front, columns, key) + (if KeyOf(row, columns) == key then [row] else [])
  {
    assert (front + [row])[..|front|] == front;
  }

  /** A group has as many rows as its key has occurrences. */
  lemma {:induction false} RowsWithKeyCount(data: seq<Row>, columns: seq<string>, key: Key)
    ensures |RowsWithKey(data, columns, key)| == Count(Keys(data, columns), key)
  {
    if data != [] {
      var init := data[..|data| - 1];
      RowsWithKeyCount(init, columns, key);
      assert Keys(data, columns)[..|data| - 1] == Keys(init, columns);
    }
  }

  /** The groups dict after scanning `data`: every key seen maps to its rows. */
  function Grouped(data: seq<Row>, columns: seq<string>): (groups: map<Key, seq<Row>>)
    ensures forall k :: k in groups <==> k in Keys(data, columns)
  {
    map k | k in Keys(data, columns) :: RowsWithKey(data, columns, k)
  }

  /** Appending row `i` to its key's list (creating the list on first sight)
      turns the dict for `data[..i]` into the dict for `data[..i + 1]`. */
  lemma GroupedSnoc(front: seq<Row>, row: Row, columns: seq<string>)
    ensures var key := KeyOf(row, columns);
      var g := Grouped(front, columns);
      Grouped(front + [row], columns) ==
        if key in g then g[key := g[key] + [row]] else g[key := [row]]
  {
    var key := KeyOf(row, columns);
    var g := Grouped(front, columns);
    var g' := if key in g then g[key := g[key] + [row]] else g[key := [row]];
    var next := Grouped(front + [row], columns);
    KeysSnoc(front, row, columns);
    assert forall k :: k in next <==> k in g';
    forall k | k in g'
      ensures next[k] == g'[k]
    {
      RowsWithKeySnoc(front, row, columns, k);
      if k == key && key !in g {
        RowsWithKeyCount(front, columns, k);
      }
    }
  }

  /** The keys of one more row. */
  lemma KeysSnoc(front: seq<Row>, row: Row, columns: seq<string>)
    ensures Keys(front + [row], columns) == Keys(front, columns) + [KeyOf(row, columns)]
  {
  }

  /** The size of a group, the sort key of `sorted(groups.items(), ...)`. */
  function Size(group: Group): nat
  {
    |group.rows|
  }

  /** The groups whose keys are `order`, each with its rows. */
  function GroupsOf(order: seq<Key>, data: seq<Row>, columns: seq<string>): seq<Group>
  {
    seq(|order|, i requires 0 <= i < |order| => Group(order[i], RowsWithKey(data, columns, order[i])))
  }

  /** `groups.items()`: one group per distinct key, each holding all the rows
      of its key, no key twice. */
  function Items(data: seq<Row>, columns: seq<string>): (items: seq<Group>)
    ensures |items| == |Distinct(Keys(data, columns))|
    ensures forall i :: 0 <= i < |items| ==>
      items[i].key in Keys(data, columns) && items[i].rows == RowsWithKey(data, columns, items[i].key)
    ensures forall i, j :: 0 <= i < j < |items| ==> items[i].key != items[j].key
  {
    GroupsOf(Distinct(Keys(data, columns)), data, columns)
  }

  /** Total number of rows over a list of groups. */
  function TotalSize(groups: seq<Group>): nat
  {
    if groups == [] then 0
    else TotalSize(groups[..|groups| - 1]) + Size(groups[|groups| - 1])
  }

  /** Every row lands in the group of its own key. */
  lemma {:induction false} RowInOwnGroup(data: seq<Row>, columns: seq<string>, i: nat)
    requires i < |data|
    ensures data[i] in RowsWithKey(data, columns, KeyOf(data[i], columns))
  {
    if i < |data| - 1 {
      RowInOwnGroup(data[..|data| - 1], columns, i);
    }
  }

  /** Groups keep table order: the rows of an earlier stretch of the table
      come before those of a later one in every group. */
  lemma {:induction false} RowsWithKeyAppend(front: seq<Row>, back: seq<Row>, columns: seq<string>, key: Key)
    ensures RowsWithKey(front + back, columns, key) ==
      RowsWithKey(front, columns, key) + RowsWithKey(back, columns, key)
  {
    if back == [] {
      assert front + back == front;
    } else {
      var rest := back[..|back| - 1];
      var all := front + back;
      assert all[..|all| - 1] == front + rest;
      assert all[|all| - 1] == back[|back| - 1];
      RowsWithKeyAppend(front, rest, columns, key);
    }
  }

  /** The sizes of the groups of `order` add up to the occurrences of their keys. */
  lemma {:induction false} TotalSizeIsSumCounts(order: seq<Key>, data: seq<Row>, columns: seq<string>)
    ensures TotalSize(GroupsOf(order, data, columns)) == SumCounts(order, Keys(data, columns))
  {
    if order != [] {
      var init := order[..|order| - 1];
      TotalSizeIsSumCounts(init, data, columns);
      assert GroupsOf(order, data, columns)[..|order| - 1] == GroupsOf(init, data, columns);
      RowsWithKeyCount(data, columns, order[|order| - 1]);
    }
  }

  /** The groups partition the table: their sizes add up to the row count. */
  lemma GroupsPartitionRows(data: seq<Row>, columns: seq<string>)
    ensures TotalSize(Items(data, columns)) == |data|
  {
    TotalSizeIsSumCounts(Distinct(Keys(data, columns)), data, columns);
    CountsOfDistinctSumToLength(Keys(data, columns));
  }

  /** The dict holds every row under its own key, and only rows with that key. */
  lemma GroupedHoldsEveryRow(data: seq<Row>, columns: seq<string>)
    ensures forall i :: 0 <= i < |data| ==>
      KeyOf(data[i], columns) in Grouped(data, columns) &&
      data[i] in Grouped(data, columns)[KeyOf(data[i], columns)]
    ensures forall k, j :: k in Grouped(data, columns) && 0 <= j < |Grouped(data, columns)[k]| ==>
      Grouped(data, columns)[k][j] in data && KeyOf(Grouped(data, columns)[k][j], columns) == k
  {
    var keys := Keys(data, columns);
    forall i | 0 <= i < |data|
      ensures KeyOf(data[i], columns) in Grouped(data, columns) &&
        data[i] in Grouped(data, columns)[KeyOf(data[i], columns)]
    {
      RowInOwnGroup(data, columns, i);
      assert keys[i] == KeyOf(data[i], columns);
    }
    forall k | k in Grouped(data, columns)
      ensures forall j :: 0 <= j < |Grouped(data, columns)[k]| ==>
        Grouped(data, columns)[k][j] in data && KeyOf(Grouped(data, columns)[k][j], columns) == k
    {
      RowsWithKeyMembers(data, columns, k);
    }
  }

  /** `len(groups)` is the number of distinct keys. */
  lemma GroupCount(data: seq<Row>, columns: seq<string>)
    ensures |Grouped(data, columns)| == |set k | k in Keys(data, columns)|
  {
    assert Grouped(data, columns).Keys == set k | k in Keys(data, columns);
  }

  /** The dict's items come in order of each key's first row. */
  lemma ItemsInFirstAppearanceOrder(data: seq<Row>, columns: seq<string>)
    ensures forall i, j :: 0 <= i < j < |Items(data, columns)| ==>
      FirstIndex(Keys(data, columns), Items(data, columns)[i].key) <
      FirstIndex(Keys(data, columns), Items(data, columns)[j].key)
  {
    DistinctInFirstOccurrenceOrder(Keys(data, columns));
  }

  /** One row extends the dict's key order by its key exactly when the dict
      has no entry for that key yet. */
  lemma OrderSnoc(front: seq<Row>, row: Row, columns: seq<string>)
    ensures var key := KeyOf(row, columns);
      Distinct(Keys(front + [row], columns)) ==
        if key in Grouped(front, columns) then Distinct(Keys(front, columns))
        else Distinct(Keys(front, columns)) + [key]
  {
    KeysSnoc(front, row, columns);
    DistinctSnoc(Keys(front, columns), KeyOf(row, columns));
  }

  /** The loop of group_by_analysis that fills the `groups` dict. `order` is
      the dict's key order (insertion order). */
  method GroupRows(data: seq<Row>, columns: seq<string>)
    returns (order: seq<Key>, groups: map<Key, seq<Row>>)
    ensures order == Distinct(Keys(data, columns))
    ensures groups == Grouped(data, columns)
  {
    order, groups := [], map[];
    assert Keys(data[..0], columns) == [];
    for i := 0 to |data|
      invariant order == Distinct(Keys(data[..i], columns))
      invariant groups == Grouped(data[..i], columns)
    {
      var key := KeyOf(data[i], columns);
      assert data[..i + 1] == data[..i] + [data[i]];
      OrderSnoc(data[..i], data[i], columns);
      GroupedSnoc(data[..i], data[i], columns);
      if key !in groups {
        groups := groups[key := [data[i]]];
        order := order + [key];
      } else {
        groups := groups[key := groups[key] + [data[i]]];
      }
    }
    assert data[..|data|] == data;
  }

  /** The report: `sorted(groups.items(), key=size, reverse=True)[:5]`, at
      most five of the dict's items. */
  function TopGroups(data: seq<Row>, columns: seq<string>): (top: seq<Group>)
    ensures |top| <= TopGroupCount
    ensures forall i :: 0 <= i < |top| ==> top[i] in Items(data, columns)
  {
    var sorted := SortDesc(Items(data, columns), Size);
    SortDescMembers(Items(data, columns), Size);
    Take(sorted, TopGroupCount)
  }

  /** Position of a group in the dict: the index of its key's first row. */
  function FirstRow(data: seq<Row>, columns: seq<string>): Group -> int
  {
    (g: Group) => FirstIndex(Keys(data, columns), g.key)
  }

  /** The report is a stable ranking of the dict's items. */
  lemma TopGroupsRanksItems(data: seq<Row>, columns: seq<string>)
    ensures |TopGroups(data, columns)| ==
      if TopGroupCount < |Items(data, columns)| then TopGroupCount else |Items(data, columns)|
    ensures Ranked(TopGroups(data, columns), Size, FirstRow(data, columns))
    ensures forall g :: g in TopGroups(data, columns) ==> g in Items(data, columns)
    ensures forall g :: g in Items(data, columns) && g !in TopGroups(data, columns) ==>
      forall i :: 0 <= i < |TopGroups(data, columns)| ==>
        Outranks(TopGroups(data, columns)[i], g, Size, FirstRow(data, columns))
  {
    var items := Items(data, columns);
    ItemsInFirstAppearanceOrder(data, columns);
    assert forall i, j :: 0 <= i < j < |items| ==> FirstRow(data, columns)(items[i]) < FirstRow(data, columns)(items[j]);
    TopOfRanking(items, Size, FirstRow(data, columns), TopGroupCount);
  }

  /** At most five groups are reported: min(5, number of groups). */
  lemma TopGroupsLength(data: seq<Row>, columns: seq<string>)
    ensures |TopGroups(data, columns)| ==
      if TopGroupCount < |set k | k in Keys(data, columns)| then TopGroupCount
      else |set k | k in Keys(data, columns)|
  {
    DistinctCardinality(Keys(data, columns));
    TopGroupsRanksItems(data, columns);
  }

  /** Each reported group is a real group with all of its rows, and no group
      is reported twice. */
  lemma TopGroupsContents(data: seq<Row>, columns: seq<string>)
    ensures forall i :: 0 <= i < |TopGroups(data, columns)| ==>
      TopGroups(data, columns)[i].key in Keys(data, columns) &&
      TopGroups(data, columns)[i].rows == RowsWithKey(data, columns, TopGroups(data, columns)[i].key)
    ensures forall i, j :: 0 <= i < j < |TopGroups(data, columns)| ==>
      TopGroups(data, columns)[i].key != TopGroups(data, columns)[j].key
  {
    var top := TopGroups(data, columns);
    var items := Items(data, columns);
    TopGroupsRanksItems(data, columns);
    forall i | 0 <= i < |top|
      ensures top[i].key in Keys(data, columns) && top[i].rows == RowsWithKey(data, columns, top[i].key)
    {
      assert top[i] in items;
    }
    forall i, j | 0 <= i < j < |top|
      ensures top[i].key != top[j].key
    {
      assert FirstRow(data, columns)(top[i]) != FirstRow(data, columns)(top[j]);
    }
  }

  /** Largest first, and groups of equal size in the order their keys first
      appeared (Python's sort is stable). */
  lemma TopGroupsOrder(data: seq<Row>, columns: seq<string>)
    ensures forall i, j :: 0 <= i < j < |TopGroups(data, columns)| ==>
      Size(TopGroups(data, columns)[i]) >= Size(TopGroups(data, columns)[j])
    ensures forall i, j :: (0 <= i < j < |TopGroups(data, columns)| &&
      Size(TopGroups(data, columns)[i]) == Size(TopGroups(data, columns)[j])) ==>
      FirstIndex(Keys(data, columns), TopGroups(data, columns)[i].key) <
      FirstIndex(Keys(data, columns), TopGroups(data, columns)[j].key)
  {
    var top := TopGroups(data, columns);
    TopGroupsRanksItems(data, columns);
    forall i, j | 0 <= i < j < |top|
      ensures Size(top[i]) >= Size(top[j])
      ensures Size(top[i]) == Size(top[j]) ==>
        FirstIndex(Keys(data, columns), top[i].key) < FirstIndex(Keys(data, columns), top[j].key)
    {
      assert Size(top[i]) > Size(top[j]) ||
        (Size(top[i]) == Size(top[j]) && FirstRow(data, columns)(top[i]) < FirstRow(data, columns)(top[j]));
    }
  }

  /** Every key seen has its group among the dict's items. */
  lemma ItemOfKey(data: seq<Row>, columns: seq<string>, k: Key)
    requires k in Keys(data, columns)
    ensures Group(k, RowsWithKey(data, columns, k)) in Items(data, columns)
  {
    var keys := Keys(data, columns);
    var d := Distinct(keys);
    var m :| 0 <= m < |keys| && keys[m] == k;
    assert k in d;
    var t :| 0 <= t < |d| && d[t] == k;
    assert Items(data, columns)[t] == Group(k, RowsWithKey(data, columns, k));
  }

  /** A key left out of the report is outranked by the reported group at `i`. */
  lemma UnreportedKeyOutranked(data: seq<Row>, columns: seq<string>, k: Key, i: nat)
    requires k in Keys(data, columns)
    requires forall j :: 0 <= j < |TopGroups(data, columns)| ==> TopGroups(data, columns)[j].key != k
    requires i < |TopGroups(data, columns)|
    ensures |RowsWithKey(data, columns, k)| < Size(TopGroups(data, columns)[i]) ||
      (|RowsWithKey(data, columns, k)| == Size(TopGroups(data, columns)[i]) &&
       FirstIndex(Keys(data, columns), TopGroups(data, columns)[i].key) < FirstIndex(Keys(data, columns), k))
  {
    var g := Group(k, RowsWithKey(data, columns, k));
    ItemOfKey(data, columns, k);
    TopGroupsRanksItems(data, columns);
    assert g !in TopGroups(data, columns);
    assert Outranks(TopGroups(data, columns)[i], g, Size, FirstRow(data, columns));
  }

  /** Every key left out of the report has fewer rows than each reported
      group, or as many rows and a later first row. */
  lemma TopGroupsComplete(data: seq<Row>, columns: seq<string>)
    ensures forall k :: (k in Keys(data, columns) &&
      forall i :: 0 <= i < |TopGroups(data, columns)| ==> TopGroups(data, columns)[i].key != k) ==>
      forall i :: 0 <= i < |TopGroups(data, columns)| ==>
        |RowsWithKey(data, columns, k)| < Size(TopGroups(data, columns)[i]) ||
        (|RowsWithKey(data, columns, k)| == Size(TopGroups(data, columns)[i]) &&
         FirstIndex(Keys(data, columns), TopGroups(data, columns)[i].key) < FirstIndex(Keys(data, columns), k))
  {
    forall k, i | k in Keys(data, columns) &&
      (forall j :: 0 <= j < |TopGroups(data, columns)| ==> TopGroups(data, columns)[j].key != k) &&
      0 <= i < |TopGroups(data, columns)|
      ensures |RowsWithKey(data, columns, k)| < Size(TopGroups(data, columns)[i]) ||
        (|RowsWithKey(data, columns, k)| == Size(TopGroups(data, columns)[i]) &&
         FirstIndex(Keys(data, columns), TopGroups(data, columns)[i].key) < FirstIndex(Keys(data, columns), k))
    {
      UnreportedKeyOutranked(data, columns, k, i);
    }
  }

  /** group_by_analysis without its printing: the number of groups and the
      five largest groups, in report order. */
  method GroupByAnalysis(data: seq<Row>, columns: seq<string>) returns (groupCount: nat, top: seq<Group>)
    ensures groupCount == |set k | k in Keys(data, columns)|
    ensures top == TopGroups(data, columns)
  {
    var order, groups := GroupRows(data, columns);
    GroupCount(data, columns);
    groupCount := |groups|;
    var items := seq(|order|, i requires 0 <= i < |order| => Group(order[i], groups[order[i]]));
    assert items == Items(data, columns);
    top := Take(SortDesc(items, Size), TopGroupCount);
  }
}
