/** WHERE clauses, their evaluation on a row, and row-id lists. */
module Predicates {
  import opened Basics
  import opened BPlusTreeNodes
  import opened BPlusTreeScan

  /** A field is null or holds a value of its column's ordered type. */
  datatype Value = Null | Val(v: Key)

  type Row = seq<Value>

  datatype LogicType = And | Or

  datatype Expr =
    | Compare(col: nat, op: CompareOp, constant: Value)
    | Logic(kind: LogicType, left: Expr, right: Expr)

  datatype Table = Table(width: nat, rows: map<RowId, Row>)
  {
    predicate Ok() {
      forall rid :: rid in rows ==> |rows[rid]| == width
    }
  }

  // kFalse, kTrue and kNull of the enumeration CmpBool.
  const FALSE := 0
  const TRUE := 1
  const UNKNOWN := 2

  predicate Fits(e: Expr, width: nat) {
    match e
    case Compare(col, _, _) => col < width
    case Logic(_, l, r) => Fits(l, width) && Fits(r, width)
  }

  function Comparison(op: CompareOp, stored: Value, constant: Value): int {
    if stored.Null? || constant.Null? then UNKNOWN
    else if Satisfies(op, stored.v, constant.v) then TRUE
    else FALSE
  }

  /** Every result is wrapped in an integer field that is never null, so a logic node sees an unknown comparison as
      one that is not true. */
  function Evaluate(e: Expr, row: Row): int
    requires Fits(e, |row|)
  {
    match e
    case Compare(col, op, constant) => Comparison(op, row[col], constant)
    case Logic(kind, l, r) =>
      var left, right := Evaluate(l, row) == TRUE, Evaluate(r, row) == TRUE;
      if (if kind == And then left && right else left || right) then TRUE else FALSE
  }

  predicate Matches(e: Expr, table: Table, rid: RowId)
    requires table.Ok() && Fits(e, table.width)
  {
    rid in table.rows && Evaluate(e, table.rows[rid]) == TRUE
  }

  /** What a condition says of a row: a comparison holds between values only, as the operator says. */
  lemma ConditionMeaning(e: Expr, table: Table, rid: RowId)
    requires table.Ok() && Fits(e, table.width) && rid in table.rows
    ensures e.Compare? ==>
      var stored, constant := table.rows[rid][e.col], e.constant;
      Matches(e, table, rid) <==> stored.Val? && constant.Val? && Related(e.op, stored.v, constant.v)
    ensures e.Logic? && e.kind == And ==>
      (Matches(e, table, rid) <==> Matches(e.left, table, rid) && Matches(e.right, table, rid))
    ensures e.Logic? && e.kind == Or ==>
      (Matches(e, table, rid) <==> Matches(e.left, table, rid) || Matches(e.right, table, rid))
  {
  }

  predicate AndOnly(e: Expr) {
    match e
    case Compare(_, _, constant) => constant.Val?
    case Logic(kind, l, r) => kind == And && AndOnly(l) && AndOnly(r)
  }

  /** No constant is null. */
  predicate ValuesOnly(e: Expr) {
    match e
    case Compare(_, _, constant) => constant.Val?
    case Logic(_, l, r) => ValuesOnly(l) && ValuesOnly(r)
  }

  lemma {:induction false} AndOnlyValues(e: Expr)
    requires AndOnly(e)
    ensures ValuesOnly(e)
  {
    if e.Logic? {
      AndOnlyValues(e.left);
      AndOnlyValues(e.right);
    }
  }

  // ------------------------------------------------------------ Row-id lists

  predicate Ascending(s: seq<RowId>) {
    forall i, j :: 0 <= i < j < |s| ==> s[i] < s[j]
  }

  /** Two lists without duplicates and with the same members are permutations of each other. */
  lemma {:induction false} SameRowsSameMultiset(a: seq<RowId>, b: seq<RowId>)
    requires Distinct(a) && Distinct(b)
    requires forall r :: r in a <==> r in b
    ensures multiset(a) == multiset(b)
  {
    forall r ensures multiset(a)[r] == multiset(b)[r] {
      Multiplicity(a, r);
      Multiplicity(b, r);
    }
  }

  lemma {:induction false} Multiplicity(s: seq<RowId>, r: RowId)
    requires Distinct(s)
    ensures multiset(s)[r] == if r in s then 1 else 0
  {
    if s != [] {
      Multiplicity(s[1..], r);
      assert s == [s[0]] + s[1..];
    }
  }

  function Inserted(x: RowId, s: seq<RowId>): seq<RowId> {
    if s == [] || x <= s[0] then [x] + s else [s[0]] + Inserted(x, s[1..])
  }

  /** The list in ascending order. */
  function Sorted(s: seq<RowId>): seq<RowId> {
    if s == [] then [] else Inserted(s[0], Sorted(s[1..]))
  }

  lemma AscendingCons(x: RowId, s: seq<RowId>)
    requires Ascending(s) && forall r :: r in s ==> x < r
    ensures Ascending([x] + s)
  {
    var t := [x] + s;
    forall i, j | 0 <= i < j < |t| ensures t[i] < t[j] {
      assert t[j] == s[j - 1] && s[j - 1] in s;
    }
  }

  lemma AscendingHead(s: seq<RowId>)
    requires Ascending(s) && s != []
    ensures Ascending(s[1..]) && forall r :: r in s[1..] ==> s[0] < r
  {
  }

  lemma {:induction false} InsertedIn(x: RowId, s: seq<RowId>)
    requires Ascending(s) && x !in s
    ensures Ascending(Inserted(x, s))
    ensures forall r :: r in Inserted(x, s) <==> r == x || r in s
  {
    if s != [] && x > s[0] {
      AscendingHead(s);
      assert s == [s[0]] + s[1..];
      InsertedIn(x, s[1..]);
      AscendingCons(s[0], Inserted(x, s[1..]));
    }
  }

  lemma {:induction false} SortedKeeps(s: seq<RowId>)
    requires Distinct(s)
    ensures Ascending(Sorted(s))
    ensures forall r :: r in Sorted(s) <==> r in s
  {
    if s != [] {
      SortedKeeps(s[1..]);
      InsertedIn(s[0], Sorted(s[1..]));
      assert s == [s[0]] + s[1..];
    }
  }

  /** Whatever the list, sorting it adds no member. */
  lemma {:induction false} InsertedMembers(x: RowId, s: seq<RowId>, r: RowId)
    requires r in Inserted(x, s)
    ensures r == x || r in s
  {
    if s != [] && x > s[0] && r != s[0] {
      InsertedMembers(x, s[1..], r);
    }
  }

  lemma {:induction false} SortedMembers(s: seq<RowId>, r: RowId)
    requires r in Sorted(s)
    ensures r in s
  {
    if s != [] {
      InsertedMembers(s[0], Sorted(s[1..]), r);
      if r != s[0] {
        SortedMembers(s[1..], r);
      }
    }
  }

  /** The merge of std::set_intersection. */
  function Intersection(a: seq<RowId>, b: seq<RowId>): seq<RowId>
    decreases |a| + |b|
  {
    if a == [] || b == [] then []
    else if a[0] < b[0] then Intersection(a[1..], b)
    else if b[0] < a[0] then Intersection(a, b[1..])
    else [a[0]] + Intersection(a[1..], b[1..])
  }

  lemma {:induction false} IntersectionIsBoth(a: seq<RowId>, b: seq<RowId>)
    requires Ascending(a) && Ascending(b)
    ensures Ascending(Intersection(a, b))
    ensures forall r :: r in Intersection(a, b) <==> r in a && r in b
    decreases |a| + |b|
  {
    if a != [] && b != [] {
      assert a == [a[0]] + a[1..] && b == [b[0]] + b[1..];
      AscendingHead(a);
      AscendingHead(b);
      if a[0] < b[0] {
        IntersectionIsBoth(a[1..], b);
      } else if b[0] < a[0] {
        IntersectionIsBoth(a, b[1..]);
      } else {
        IntersectionIsBoth(a[1..], b[1..]);
        AscendingCons(a[0], Intersection(a[1..], b[1..]));
      }
    }
  }

  lemma {:induction false} IntersectionMembers(a: seq<RowId>, b: seq<RowId>, r: RowId)
    requires r in Intersection(a, b)
    ensures r in a
    decreases |a| + |b|
  {
    if a[0] < b[0] {
      IntersectionMembers(a[1..], b, r);
    } else if b[0] < a[0] {
      IntersectionMembers(a, b[1..], r);
    } else if r != a[0] {
      IntersectionMembers(a[1..], b[1..], r);
    }
  }

  /** The rows of a list that the predicate keeps, in order. */
  function Filtered(e: Expr, table: Table, s: seq<RowId>): (kept: seq<RowId>)
    requires table.Ok() && Fits(e, table.width)
  {
    if s == [] then []
    else (if Matches(e, table, s[0]) then [s[0]] else []) + Filtered(e, table, s[1..])
  }

  lemma FilteredNone(e: Expr, table: Table, s: seq<RowId>)
    requires table.Ok() && Fits(e, table.width) && |s| == 0
    ensures Filtered(e, table, s) == []
  {
  }

  /** `kept` are the rows at the positions `at`, in order, and these are the positions from `from` on of all rows that
      match. */
  ghost predicate KeptAt(s: seq<RowId>, from: nat, kept: seq<RowId>, at: seq<nat>, e: Expr, table: Table)
    requires table.Ok() && Fits(e, table.width)
  {
    && |at| == |kept|
    && (forall k, m | 0 <= k < m < |at| :: at[k] < at[m])
    && (forall k | 0 <= k < |at| :: from <= at[k] < |s| && kept[k] == s[at[k]])
    && (forall i: nat | from <= i < |s| :: i in at <==> Matches(e, table, s[i]))
  }

  lemma {:induction false} FilteredInOrder(e: Expr, table: Table, s: seq<RowId>, from: nat) returns (at: seq<nat>)
    requires table.Ok() && Fits(e, table.width) && from <= |s|
    ensures KeptAt(s, from, Filtered(e, table, s[from..]), at, e, table)
    decreases |s| - from
  {
    hide Matches, KeptAt;
    at := [];
    if from < |s| {
      var rest := FilteredInOrder(e, table, s, from + 1);
      assert s[from..][0] == s[from] && s[from..][1..] == s[from + 1..];
      at := OneMoreKept(s, from, Filtered(e, table, s[from + 1..]), rest, e, table);
    } else {
      NoneKept(s, e, table);
    }
  }

  lemma NoneKept(s: seq<RowId>, e: Expr, table: Table)
    requires table.Ok() && Fits(e, table.width)
    ensures KeptAt(s, |s|, [], [], e, table)
  {
  }

  lemma OneMoreKept(s: seq<RowId>, from: nat, kept: seq<RowId>, rest: seq<nat>, e: Expr, table: Table)
    returns (at: seq<nat>)
    requires table.Ok() && Fits(e, table.width) && from < |s| && KeptAt(s, from + 1, kept, rest, e, table)
    ensures KeptAt(s, from, (if Matches(e, table, s[from]) then [s[from]] else []) + kept, at, e, table)
  {
    hide Matches;
    if Matches(e, table, s[from]) {
      at := [from] + rest;
      assert forall i: nat :: i in at <==> i == from || i in rest;
    } else {
      at := rest;
    }
  }

  lemma {:induction false} FilteredKeeps(e: Expr, table: Table, s: seq<RowId>)
    requires table.Ok() && Fits(e, table.width) && Distinct(s)
    ensures Distinct(Filtered(e, table, s))
    ensures forall r :: r in Filtered(e, table, s) <==> r in s && Matches(e, table, r)
  {
    if s != [] {
      FilteredKeeps(e, table, s[1..]);
      assert s == [s[0]] + s[1..];
    }
  }
}

/** The choice of plan (planner.cpp) and the index scan (index_scan_executor.cpp). */
module IndexScans {
  import opened Basics
  import opened BPlusTreeNodes
  import opened BPlusTreeScan
  import opened Predicates

  /** An index: the table columns of its key, and the answers of its ScanKey. */
  datatype IndexInfo = IndexInfo(columns: seq<nat>, scanKey: (CompareOp, Value) -> seq<RowId>)

  datatype Plan =
    | SeqScanPlan
    | IndexScanPlan(indexes: seq<IndexInfo>, needFilter: bool)

  /** The columns of a condition in the order of their first appearance. */
  function ColumnsInCondition(e: Expr, before: seq<nat>): seq<nat> {
    match e
    case Compare(col, _, _) => if col in before then before else before + [col]
    case Logic(_, l, r) => ColumnsInCondition(r, ColumnsInCondition(l, before))
  }

  predicate Mentions(e: Expr, col: nat) {
    match e
    case Compare(c, _, _) => c == col
    case Logic(_, l, r) => Mentions(l, col) || Mentions(r, col)
  }

  /** MakePredicate does not hand its `has_or` on to its recursive calls, so only an "or" at the top is noticed. */
  predicate HasOr(e: Expr) {
    e.Logic? && e.kind == Or
  }

  lemma {:induction false} ColumnsAreMentioned(e: Expr, before: seq<nat>)
    ensures before <= ColumnsInCondition(e, before)
    ensures forall col :: col in ColumnsInCondition(e, before) <==> col in before || Mentions(e, col)
    ensures (forall i, j :: 0 <= i < j < |before| ==> before[i] != before[j]) ==>
      forall i, j :: 0 <= i < j < |ColumnsInCondition(e, before)| ==>
        ColumnsInCondition(e, before)[i] != ColumnsInCondition(e, before)[j]
  {
    if e.Logic? {
      ColumnsAreMentioned(e.left, before);
      ColumnsAreMentioned(e.right, ColumnsInCondition(e.left, before));
    }
  }

  predicate IsOn(index: IndexInfo, columns: seq<nat>) {
    |index.columns| == 1 && index.columns[0] in columns
  }

  /** The single-column indexes on a column of the condition, in catalog order. */
  function Available(indexes: seq<IndexInfo>, columns: seq<nat>): seq<IndexInfo> {
    if indexes == [] then []
    else var rest := Available(indexes[..|indexes| - 1], columns);
         var last := indexes[|indexes| - 1];
         if IsOn(last, columns) then rest + [last] else rest
  }

  /** No "or" at the top and an index that applies make an index scan; it filters unless as many indexes apply as there
      are columns in the condition. */
  function Planned(indexes: seq<IndexInfo>, where: Expr): Plan {
    var columns := ColumnsInCondition(where, []);
    var available := Available(indexes, columns);
    if available == [] || HasOr(where) then SeqScanPlan else IndexScanPlan(available, |available| != |columns|)
  }

  /** The list of row ids that the scan of a predicate gathers. */
  function Scan(indexes: seq<IndexInfo>, e: Expr): seq<RowId> {
    match e
    case Compare(col, op, constant) =>
      var i := FirstOn(indexes, col);
      if i < |indexes| then indexes[i].scanKey(op, constant) else []
    case Logic(_, l, r) =>
      var lhs, rhs := Scan(indexes, l), Scan(indexes, r);
      if lhs == [] then rhs
      else if rhs == [] then lhs
      else Intersection(Sorted(lhs), Sorted(rhs))
  }

  /** The position of the first index on a column. */
  function FirstOn(indexes: seq<IndexInfo>, col: nat): (i: nat)
    ensures i <= |indexes|
    ensures i < |indexes| ==> IsOn(indexes[i], [col])
    ensures forall j :: 0 <= j < i ==> !IsOn(indexes[j], [col])
  {
    if indexes == [] then 0
    else if IsOn(indexes[0], [col]) then 0
    else 1 + FirstOn(indexes[1..], col)
  }

  // ------------------------------------------------------------ Exact look-ups

  /** A look-up by a value answers with each row that meets the comparison, once. */
  ghost predicate ExactAt(index: IndexInfo, table: Table, op: CompareOp, v: Key)
    requires table.Ok() && |index.columns| == 1 && index.columns[0] < table.width
  {
    var answer := index.scanKey(op, Val(v));
    && Distinct(answer)
    && forall rid :: rid in answer <==> Matches(Compare(index.columns[0], op, Val(v)), table, rid)
  }

  /** The look-ups that a scan for the condition makes are exact: each by the first index on the column. */
  ghost predicate LookupsExact(e: Expr, indexes: seq<IndexInfo>, table: Table)
    requires table.Ok() && Fits(e, table.width)
  {
    match e
    case Compare(col, op, constant) =>
      var i := FirstOn(indexes, col);
      i < |indexes| && constant.Val? ==> ExactAt(indexes[i], table, op, constant.v)
    case Logic(_, l, r) => LookupsExact(l, indexes, table) && LookupsExact(r, indexes, table)
  }

  predicate Indexed(indexes: seq<IndexInfo>, col: nat) {
    FirstOn(indexes, col) < |indexes|
  }

  predicate NoneIndexed(indexes: seq<IndexInfo>, e: Expr) {
    match e
    case Compare(col, _, _) => !Indexed(indexes, col)
    case Logic(_, l, r) => NoneIndexed(indexes, l) && NoneIndexed(indexes, r)
  }

  predicate AllIndexed(indexes: seq<IndexInfo>, e: Expr) {
    match e
    case Compare(col, _, _) => Indexed(indexes, col)
    case Logic(_, l, r) => AllIndexed(indexes, l) && AllIndexed(indexes, r)
  }

  /** The row meets every comparison of the and-only condition that an index applies to. */
  predicate MeetsIndexed(e: Expr, indexes: seq<IndexInfo>, table: Table, rid: RowId)
    requires table.Ok() && Fits(e, table.width)
  {
    match e
    case Compare(col, _, _) => Indexed(indexes, col) ==> Matches(e, table, rid)
    case Logic(_, l, r) => MeetsIndexed(l, indexes, table, rid) && MeetsIndexed(r, indexes, table, rid)
  }

  ghost predicate NoneMeets(e: Expr, indexes: seq<IndexInfo>, table: Table)
    requires table.Ok() && Fits(e, table.width)
  {
    forall rid :: !MeetsIndexed(e, indexes, table, rid)
  }

  /** What a scan of an and-only predicate guarantees: a list that is not empty has every row in it that meets the
      indexed comparisons, and an empty one means that no index applied or that no row meets them. */
  ghost predicate Covers(e: Expr, indexes: seq<IndexInfo>, table: Table, s: seq<RowId>)
    requires table.Ok() && Fits(e, table.width)
  {
    && Distinct(s) && (forall rid :: rid in s ==> rid in table.rows)
    && (s != [] ==> forall rid :: MeetsIndexed(e, indexes, table, rid) ==> rid in s)
    && (s == [] ==> NoneIndexed(indexes, e) || NoneMeets(e, indexes, table))
  }

  /** A row that matches meets the indexed comparisons, and conversely when all are indexed. */
  lemma {:induction false} MatchMeets(e: Expr, indexes: seq<IndexInfo>, table: Table, rid: RowId)
    requires table.Ok() && Fits(e, table.width) && AndOnly(e)
    ensures Matches(e, table, rid) ==> MeetsIndexed(e, indexes, table, rid)
    ensures AllIndexed(indexes, e) ==> (Matches(e, table, rid) <==> MeetsIndexed(e, indexes, table, rid))
  {
    if e.Logic? {
      MatchMeets(e.left, indexes, table, rid);
      MatchMeets(e.right, indexes, table, rid);
    }
  }

  lemma {:induction false} NoneIndexedFinds(e: Expr, indexes: seq<IndexInfo>, table: Table)
    requires table.Ok() && Fits(e, table.width) && NoneIndexed(indexes, e)
    ensures Scan(indexes, e) == [] && forall rid :: MeetsIndexed(e, indexes, table, rid)
  {
    if e.Logic? {
      NoneIndexedFinds(e.left, indexes, table);
      NoneIndexedFinds(e.right, indexes, table);
    }
  }

  lemma {:induction false} AscendingDistinct(s: seq<RowId>)
    requires Ascending(s)
    ensures Distinct(s)
  {
    forall i, j | 0 <= i < j < |s| ensures s[i] != s[j] {
      assert s[i] < s[j];
    }
  }

  lemma {:induction false} ScanCovers(e: Expr, indexes: seq<IndexInfo>, table: Table)
    requires table.Ok() && Fits(e, table.width) && AndOnly(e) && LookupsExact(e, indexes, table)
    ensures Covers(e, indexes, table, Scan(indexes, e))
  {
    match e
    case Compare(col, op, constant) =>
      var i := FirstOn(indexes, col);
      if i < |indexes| {
        assert ExactAt(indexes[i], table, op, constant.v);
      }
    case Logic(_, l, r) =>
      ScanCovers(l, indexes, table);
      ScanCovers(r, indexes, table);
      assert forall rid :: MeetsIndexed(e, indexes, table, rid) <==>
        MeetsIndexed(l, indexes, table, rid) && MeetsIndexed(r, indexes, table, rid);
      var lhs, rhs := Scan(indexes, l), Scan(indexes, r);
      if lhs != [] && rhs != [] {
        SortedKeeps(lhs);
        SortedKeeps(rhs);
        IntersectionIsBoth(Sorted(lhs), Sorted(rhs));
        AscendingDistinct(Scan(indexes, e));
      }
  }

  // ------------------------------------------------- With the filter of Next

  /** A heap listing: every row of the table once, in the order a sequential scan meets them. */
  ghost predicate Lists(heap: seq<RowId>, table: Table) {
    Distinct(heap) && forall rid :: rid in heap <==> rid in table.rows
  }

  /** With the filter, an index scan of an and-only predicate with an index that applies yields the rows that a
      sequential scan yields. */
  lemma FilteredIndexScanIsSeqScan(e: Expr, indexes: seq<IndexInfo>, table: Table, heap: seq<RowId>)
    requires table.Ok() && Fits(e, table.width) && AndOnly(e) && LookupsExact(e, indexes, table)
    requires !NoneIndexed(indexes, e) && Lists(heap, table)
    ensures multiset(Filtered(e, table, Scan(indexes, e))) == multiset(Filtered(e, table, heap))
  {
    var s := Scan(indexes, e);
    ScanCovers(e, indexes, table);
    FilteredKeeps(e, table, s);
    FilteredKeeps(e, table, heap);
    forall rid ensures rid in Filtered(e, table, s) <==> rid in Filtered(e, table, heap) {
      MatchMeets(e, indexes, table, rid);
    }
    SameRowsSameMultiset(Filtered(e, table, s), Filtered(e, table, heap));
  }

  lemma {:induction false} AvailableAreOn(indexes: seq<IndexInfo>, columns: seq<nat>)
    ensures forall i :: 0 <= i < |Available(indexes, columns)| ==> IsOn(Available(indexes, columns)[i], columns)
    ensures forall i :: 0 <= i < |Available(indexes, columns)| ==> Available(indexes, columns)[i] in indexes
    ensures forall i :: 0 <= i < |indexes| && IsOn(indexes[i], columns) ==> indexes[i] in Available(indexes, columns)
  {
    if indexes != [] {
      AvailableAreOn(indexes[..|indexes| - 1], columns);
    }
  }

  lemma {:induction false} IndexedWhenOn(indexes: seq<IndexInfo>, col: nat, i: nat)
    requires i < |indexes| && IsOn(indexes[i], [col])
    ensures Indexed(indexes, col)
  {
  }

  lemma {:induction false} MentionedIsIndexed(indexes: seq<IndexInfo>, e: Expr, col: nat)
    requires Mentions(e, col) && Indexed(indexes, col)
    ensures !NoneIndexed(indexes, e)
  {
    if e.Logic? {
      if Mentions(e.left, col) {
        MentionedIsIndexed(indexes, e.left, col);
      } else {
        MentionedIsIndexed(indexes, e.right, col);
      }
    }
  }

  /** The planner picks an index scan only if some index applies. */
  lemma AvailableApplies(indexes: seq<IndexInfo>, e: Expr)
    requires Available(indexes, ColumnsInCondition(e, [])) != []
    ensures !NoneIndexed(Available(indexes, ColumnsInCondition(e, [])), e)
  {
    var columns := ColumnsInCondition(e, []);
    var available := Available(indexes, columns);
    AvailableAreOn(indexes, columns);
    ColumnsAreMentioned(e, []);
    var col := available[0].columns[0];
    assert IsOn(available[0], columns);
    IndexedWhenOn(available, col, 0);
    MentionedIsIndexed(available, e, col);
  }

  /** The first available index on a column of the condition is the first in the catalog. */
  lemma {:induction false} FirstAvailable(indexes: seq<IndexInfo>, columns: seq<nat>, col: nat)
    requires col in columns
    ensures var available := Available(indexes, columns);
      var i, j := FirstOn(indexes, col), FirstOn(available, col);
      && (j < |available| <==> i < |indexes|)
      && (j < |available| ==> available[j] == indexes[i])
    decreases |indexes|
  {
    hide FirstOn;
    if indexes != [] {
      var before, last := indexes[..|indexes| - 1], indexes[|indexes| - 1];
      FirstAvailable(before, columns, col);
      assert indexes == before + [last];
      FirstOnNext(before, last, col);
      FirstOnNext(Available(before, columns), last, col);
    }
  }

  /** The look-ups that a scan for the condition makes answer with rows of the table, right or wrong. */
  ghost predicate LookupsListRows(e: Expr, indexes: seq<IndexInfo>, table: Table) {
    match e
    case Compare(col, op, constant) =>
      var i := FirstOn(indexes, col);
      i < |indexes| ==> forall rid :: rid in indexes[i].scanKey(op, constant) ==> rid in table.rows
    case Logic(_, l, r) => LookupsListRows(l, indexes, table) && LookupsListRows(r, indexes, table)
  }

  lemma {:induction false} AvailableListRows(e: Expr, indexes: seq<IndexInfo>, columns: seq<nat>, table: Table)
    requires LookupsListRows(e, indexes, table) && forall col :: Mentions(e, col) ==> col in columns
    ensures LookupsListRows(e, Available(indexes, columns), table)
  {
    match e
    case Compare(col, _, _) =>
      assert Mentions(e, col);
      FirstAvailable(indexes, columns, col);
    case Logic(_, l, r) =>
      assert forall col :: Mentions(l, col) || Mentions(r, col) ==> Mentions(e, col);
      AvailableListRows(l, indexes, columns, table);
      AvailableListRows(r, indexes, columns, table);
  }

  /** So does the scan. */
  lemma {:induction false} ScanListsRows(e: Expr, indexes: seq<IndexInfo>, table: Table, rid: RowId)
    requires LookupsListRows(e, indexes, table) && rid in Scan(indexes, e)
    ensures rid in table.rows
  {
    if e.Logic? {
      var lhs, rhs := Scan(indexes, e.left), Scan(indexes, e.right);
      if rid in lhs {
        ScanListsRows(e.left, indexes, table, rid);
      } else if rid in rhs {
        ScanListsRows(e.right, indexes, table, rid);
      } else {
        IntersectionMembers(Sorted(lhs), Sorted(rhs), rid);
        SortedMembers(lhs, rid);
      }
    }
  }

  lemma PlannedListRows(e: Expr, indexes: seq<IndexInfo>, table: Table)
    requires LookupsListRows(e, indexes, table)
    ensures var plan := Planned(indexes, e);
      plan.IndexScanPlan? ==> forall rid :: rid in Scan(plan.indexes, e) ==> rid in table.rows
  {
    var columns := ColumnsInCondition(e, []);
    ColumnsAreMentioned(e, []);
    AvailableListRows(e, indexes, columns, table);
    forall rid | rid in Scan(Available(indexes, columns), e) ensures rid in table.rows {
      ScanListsRows(e, Available(indexes, columns), table, rid);
    }
  }

  lemma FirstOnNext(before: seq<IndexInfo>, last: IndexInfo, col: nat)
    ensures FirstOn(before + [last], col) ==
      if FirstOn(before, col) < |before| then FirstOn(before, col)
      else if IsOn(last, [col]) then |before| else |before| + 1
  {
    var all, i := before + [last], FirstOn(before, col);
    if i < |before| {
      assert forall j :: 0 <= j <= i ==> all[j] == before[j];
      FirstOnIs(all, col, i);
    } else {
      assert forall j :: 0 <= j < |before| ==> all[j] == before[j];
      if IsOn(last, [col]) {
        FirstOnIs(all, col, |before|);
      } else {
        NotIndexed(all, col);
      }
    }
  }

  lemma FirstOnIs(indexes: seq<IndexInfo>, col: nat, i: nat)
    requires i < |indexes| && IsOn(indexes[i], [col])
    requires forall j :: 0 <= j < i ==> !IsOn(indexes[j], [col])
    ensures FirstOn(indexes, col) == i
  {
  }

  lemma NotIndexed(indexes: seq<IndexInfo>, col: nat)
    requires forall j :: 0 <= j < |indexes| ==> !IsOn(indexes[j], [col])
    ensures FirstOn(indexes, col) == |indexes|
  {
  }

  lemma {:induction false} AvailableExact(e: Expr, indexes: seq<IndexInfo>, columns: seq<nat>, table: Table)
    requires table.Ok() && Fits(e, table.width) && LookupsExact(e, indexes, table)
    requires forall col :: Mentions(e, col) ==> col in columns
    ensures LookupsExact(e, Available(indexes, columns), table)
  {
    match e
    case Compare(col, _, _) =>
      assert Mentions(e, col);
      FirstAvailable(indexes, columns, col);
    case Logic(_, l, r) =>
      assert forall col :: Mentions(l, col) || Mentions(r, col) ==> Mentions(e, col);
      AvailableExact(l, indexes, columns, table);
      AvailableExact(r, indexes, columns, table);
  }

  /** The planner hands on exact look-ups. */
  lemma PlannedExact(indexes: seq<IndexInfo>, e: Expr, table: Table)
    requires table.Ok() && Fits(e, table.width) && LookupsExact(e, indexes, table)
    ensures LookupsExact(e, Available(indexes, ColumnsInCondition(e, [])), table)
  {
    ColumnsAreMentioned(e, []);
    AvailableExact(e, indexes, ColumnsInCondition(e, []), table);
  }

  /** The query, from the catalog's indexes to its rows: for an and-only condition, whichever plan is chosen, as long
      as an index scan filters. */
  lemma PlannedScanIsSeqScan(e: Expr, indexes: seq<IndexInfo>, table: Table, heap: seq<RowId>)
    requires table.Ok() && Fits(e, table.width) && AndOnly(e) && Lists(heap, table)
    requires LookupsExact(e, indexes, table) && Available(indexes, ColumnsInCondition(e, [])) != []
    ensures multiset(Filtered(e, table, Scan(Available(indexes, ColumnsInCondition(e, [])), e)))
         == multiset(Filtered(e, table, heap))
  {
    PlannedExact(indexes, e, table);
    AvailableApplies(indexes, e);
    FilteredIndexScanIsSeqScan(e, Available(indexes, ColumnsInCondition(e, [])), table, heap);
  }

  // --------------------------------------------------------- Without it

  /** Of two sides of an "and" that indexes apply to, one came back empty and the other did not, here or below a node
      whose own scan found something. */
  predicate Misled(indexes: seq<IndexInfo>, e: Expr) {
    match e
    case Compare(_, _, _) => false
    case Logic(_, l, r) =>
      || (!NoneIndexed(indexes, l) && !NoneIndexed(indexes, r) && (Scan(indexes, l) == []) != (Scan(indexes, r) == []))
      || (Scan(indexes, e) != [] && (Misled(indexes, l) || Misled(indexes, r)))
  }

  /** The rows that meet the indexed comparisons all meet the others. */
  ghost predicate IndexedSuffice(e: Expr, indexes: seq<IndexInfo>, table: Table)
    requires table.Ok() && Fits(e, table.width)
  {
    forall rid :: MeetsIndexed(e, indexes, table, rid) ==> Matches(e, table, rid)
  }

  ghost predicate ScanIsAnswer(e: Expr, indexes: seq<IndexInfo>, table: Table)
    requires table.Ok() && Fits(e, table.width)
  {
    forall rid {:trigger Matches(e, table, rid)} :: rid in Scan(indexes, e) <==> Matches(e, table, rid)
  }

  lemma {:induction false} AllIsNotNone(indexes: seq<IndexInfo>, e: Expr)
    requires AllIndexed(indexes, e)
    ensures !NoneIndexed(indexes, e)
  {
    if e.Logic? {
      AllIsNotNone(indexes, e.left);
    }
  }

  lemma AllIndexedSuffice(e: Expr, indexes: seq<IndexInfo>, table: Table)
    requires table.Ok() && Fits(e, table.width) && AndOnly(e) && AllIndexed(indexes, e)
    ensures IndexedSuffice(e, indexes, table) && !NoneIndexed(indexes, e)
  {
    AllIsNotNone(indexes, e);
    forall rid ensures MeetsIndexed(e, indexes, table, rid) ==> Matches(e, table, rid) {
      MatchMeets(e, indexes, table, rid);
    }
  }

  lemma {:induction false} MisledFindsNothingTrue(e: Expr, indexes: seq<IndexInfo>, table: Table)
    requires table.Ok() && Fits(e, table.width) && AndOnly(e) && LookupsExact(e, indexes, table) && Misled(indexes, e)
    ensures Scan(indexes, e) != [] && NoneMeets(e, indexes, table)
  {
    var l, r := e.left, e.right;
    ScanCovers(l, indexes, table);
    ScanCovers(r, indexes, table);
    if Scan(indexes, e) != [] && Misled(indexes, l) {
      MisledFindsNothingTrue(l, indexes, table);
    } else if Scan(indexes, e) != [] && Misled(indexes, r) {
      MisledFindsNothingTrue(r, indexes, table);
    }
  }

  /** A scan that is not misled finds the rows that meet the indexed comparisons. */
  lemma {:induction false} ScanIsIndexed(e: Expr, indexes: seq<IndexInfo>, table: Table)
    requires table.Ok() && Fits(e, table.width) && AndOnly(e) && LookupsExact(e, indexes, table)
    requires !NoneIndexed(indexes, e) && !Misled(indexes, e)
    ensures forall rid :: rid in Scan(indexes, e) <==> MeetsIndexed(e, indexes, table, rid)
    decreases e, 1
  {
    ScanCovers(e, indexes, table);
    if e.Compare? {
      assert ExactAt(indexes[FirstOn(indexes, e.col)], table, e.op, e.constant.v);
    } else if Scan(indexes, e) != [] {
      var l, r := e.left, e.right;
      if NoneIndexed(indexes, l) {
        NoneIndexedFinds(l, indexes, table);
        ScanIsIndexed(r, indexes, table);
      } else if NoneIndexed(indexes, r) {
        NoneIndexedFinds(r, indexes, table);
        ScanIsIndexed(l, indexes, table);
      } else {
        BothSidesIndexed(e, indexes, table);
      }
    }
  }

  lemma {:induction false} BothSidesIndexed(e: Expr, indexes: seq<IndexInfo>, table: Table)
    requires table.Ok() && Fits(e, table.width) && AndOnly(e) && LookupsExact(e, indexes, table) && e.Logic?
    requires !NoneIndexed(indexes, e.left) && !NoneIndexed(indexes, e.right)
    requires !Misled(indexes, e) && Scan(indexes, e) != []
    ensures forall rid :: rid in Scan(indexes, e) <==> MeetsIndexed(e, indexes, table, rid)
    decreases e, 0
  {
    var l, r := e.left, e.right;
    ScanIsIndexed(l, indexes, table);
    ScanIsIndexed(r, indexes, table);
    AndOnlyValues(l);
    AndOnlyValues(r);
    LogicScan(And, l, r, indexes, table);
  }

  /** With an index that applies, the unfiltered list is the answer exactly when the scan is not misled by an empty side
      and the comparisons without an index follow from the others. */
  lemma UnfilteredIff(e: Expr, indexes: seq<IndexInfo>, table: Table)
    requires table.Ok() && Fits(e, table.width) && AndOnly(e) && LookupsExact(e, indexes, table)
    requires !NoneIndexed(indexes, e)
    ensures ScanIsAnswer(e, indexes, table) <==> !Misled(indexes, e) && IndexedSuffice(e, indexes, table)
    ensures NoFalseRow(e, indexes, table) <==> ScanIsAnswer(e, indexes, table)
  {
    ScanCovers(e, indexes, table);
    forall rid ensures Matches(e, table, rid) ==> MeetsIndexed(e, indexes, table, rid) {
      MatchMeets(e, indexes, table, rid);
    }
    if Misled(indexes, e) {
      MisledFindsNothingTrue(e, indexes, table);
      var wrong := Scan(indexes, e)[0];
      assert wrong in Scan(indexes, e) && !Matches(e, table, wrong);
    } else {
      ScanIsIndexed(e, indexes, table);
    }
  }

  /** No row of the list fails the condition. */
  ghost predicate NoFalseRow(e: Expr, indexes: seq<IndexInfo>, table: Table)
    requires table.Ok() && Fits(e, table.width)
  {
    forall rid :: rid in Scan(indexes, e) ==> Matches(e, table, rid)
  }

  /** Two comparisons on indexed columns: right, unfiltered, exactly when both look-ups find something or neither
      does. */
  lemma TwoComparisonsIff(l: Expr, r: Expr, indexes: seq<IndexInfo>, table: Table)
    requires table.Ok() && l.Compare? && r.Compare? && var e := Logic(And, l, r);
      Fits(e, table.width) && AndOnly(e) && LookupsExact(e, indexes, table) && AllIndexed(indexes, e)
    ensures ScanIsAnswer(Logic(And, l, r), indexes, table) <==> (Scan(indexes, l) == [] <==> Scan(indexes, r) == [])
  {
    AllIndexedSuffice(Logic(And, l, r), indexes, table);
    UnfilteredIff(Logic(And, l, r), indexes, table);
  }

  // ------------------------------------------------- When the filter is left out

  lemma DistinctCons(x: nat, rest: seq<nat>)
    ensures Distinct([x] + rest) <==> x !in rest && Distinct(rest)
  {
    var s := [x] + rest;
    assert forall i :: 0 <= i < |rest| ==> rest[i] == s[i + 1];
    if x in rest {
      var j :| 0 <= j < |rest| && rest[j] == x;
      assert s[0] == s[j + 1];
    }
    if Distinct(s) {
      forall i, j | 0 <= i < j < |rest| ensures rest[i] != rest[j] {
        assert s[i + 1] != s[j + 1];
      }
    }
  }

  lemma {:induction false} ColumnCount(s: seq<nat>)
    ensures |ColumnSet(s)| <= |s|
    ensures |ColumnSet(s)| == |s| <==> Distinct(s)
  {
    if s != [] {
      var x, rest := s[0], s[1..];
      ColumnCount(rest);
      DistinctCons(x, rest);
      assert s == [x] + rest;
      assert ColumnSet(s) == ColumnSet(rest) + {x};
      assert x in rest ==> ColumnSet(s) == ColumnSet(rest);
    }
  }

  function ColumnSet(s: seq<nat>): set<nat> {
    set x | x in s
  }

  function KeysOf(indexes: seq<IndexInfo>): (keys: seq<nat>)
    requires forall i :: 0 <= i < |indexes| ==> |indexes[i].columns| == 1
    ensures |keys| == |indexes| && forall i :: 0 <= i < |keys| ==> keys[i] == indexes[i].columns[0]
  {
    seq(|indexes|, i requires 0 <= i < |indexes| => indexes[i].columns[0])
  }

  lemma {:induction false} AllColumnsIndexed(indexes: seq<IndexInfo>, e: Expr)
    requires forall col :: Mentions(e, col) ==> Indexed(indexes, col)
    ensures AllIndexed(indexes, e)
  {
    if e.Logic? {
      forall col | Mentions(e.left, col) || Mentions(e.right, col) ensures Indexed(indexes, col) {
        assert Mentions(e, col);
      }
      AllColumnsIndexed(indexes, e.left);
      AllColumnsIndexed(indexes, e.right);
    } else {
      assert Mentions(e, e.col);
    }
  }

  lemma {:induction false} IndexedColumn(indexes: seq<IndexInfo>, e: Expr, col: nat)
    requires AllIndexed(indexes, e) && Mentions(e, col)
    ensures Indexed(indexes, col)
  {
    if e.Logic? {
      if Mentions(e.left, col) {
        IndexedColumn(indexes, e.left, col);
      } else {
        IndexedColumn(indexes, e.right, col);
      }
    }
  }

  /** No two indexes are on the same column. */
  predicate OnDistinctColumns(indexes: seq<IndexInfo>)
    requires forall i :: 0 <= i < |indexes| ==> |indexes[i].columns| == 1
  {
    Distinct(KeysOf(indexes))
  }

  lemma AvailableKeys(indexes: seq<IndexInfo>, e: Expr)
    ensures var columns := ColumnsInCondition(e, []);
      var available := Available(indexes, columns);
      && (forall i :: 0 <= i < |available| ==> |available[i].columns| == 1)
      && ColumnSet(KeysOf(available)) <= ColumnSet(columns) && Distinct(columns)
  {
    var columns := ColumnsInCondition(e, []);
    var available := Available(indexes, columns);
    AvailableAreOn(indexes, columns);
    ColumnsAreMentioned(e, []);
    forall i | 0 <= i < |available| ensures |available[i].columns| == 1 && available[i].columns[0] in columns {
      assert IsOn(available[i], columns);
    }
  }

  /** When the numbers agree, so that the filter is left out, every column has an index if and only if no two of the
      available indexes are on the same column. */
  lemma NoFilterIff(indexes: seq<IndexInfo>, e: Expr)
    requires |Available(indexes, ColumnsInCondition(e, []))| == |ColumnsInCondition(e, [])|
    ensures var available := Available(indexes, ColumnsInCondition(e, []));
      && (forall i :: 0 <= i < |available| ==> |available[i].columns| == 1)
      && (AllIndexed(available, e) <==> OnDistinctColumns(available))
  {
    var columns := ColumnsInCondition(e, []);
    var available := Available(indexes, columns);
    AvailableKeys(indexes, e);
    var keys := KeysOf(available);
    ColumnsAreMentioned(e, []);
    ColumnCount(columns);
    ColumnCount(keys);
    if OnDistinctColumns(available) {
      SubsetSize(ColumnSet(keys), ColumnSet(columns));
      forall col | Mentions(e, col) ensures Indexed(available, col) {
        assert col in ColumnSet(keys);
        var i :| 0 <= i < |keys| && keys[i] == col;
        IndexedWhenOn(available, col, i);
      }
      AllColumnsIndexed(available, e);
    }
    if AllIndexed(available, e) {
      forall col | col in ColumnSet(columns) ensures col in ColumnSet(keys) {
        IndexedColumn(available, e, col);
        assert keys[FirstOn(available, col)] == col;
      }
      SubsetSize(ColumnSet(columns), ColumnSet(keys));
    }
  }

  /** A single-column index on a column of the condition. */
  predicate AppliesTo(index: IndexInfo, e: Expr) {
    |index.columns| == 1 && Mentions(e, index.columns[0])
  }

  /** `some` are the indexes at the positions `at`, in catalog order, and these are the positions of all that apply. */
  ghost predicate PickedAt(all: seq<IndexInfo>, some: seq<IndexInfo>, at: seq<nat>, e: Expr) {
    && |at| == |some|
    && (forall k, m | 0 <= k < m < |at| :: at[k] < at[m])
    && (forall k | 0 <= k < |at| :: at[k] < |all| && some[k] == all[at[k]])
    && (forall i | 0 <= i < |all| :: AppliesTo(all[i], e) <==> i in at)
  }

  lemma {:induction false} AvailableArePicked(indexes: seq<IndexInfo>, e: Expr) returns (at: seq<nat>)
    ensures PickedAt(indexes, Available(indexes, ColumnsInCondition(e, [])), at, e)
  {
    at := [];
    if indexes != [] {
      var n, columns := |indexes| - 1, ColumnsInCondition(e, []);
      at := AvailableArePicked(indexes[..n], e);
      ColumnsAreMentioned(e, []);
      assert IsOn(indexes[n], columns) <==> AppliesTo(indexes[n], e);
      forall i | 0 <= i < n ensures AppliesTo(indexes[i], e) <==> i in at {
        assert indexes[..n][i] == indexes[i];
      }
      if IsOn(indexes[n], columns) {
        at := at + [n];
      }
    }
  }

  lemma MentionedCount(e: Expr, cols: set<nat>)
    requires forall col :: col in cols <==> Mentions(e, col)
    ensures |cols| == |ColumnsInCondition(e, [])|
  {
    var columns := ColumnsInCondition(e, []);
    ColumnsAreMentioned(e, []);
    ColumnCount(columns);
    assert ColumnSet(columns) == cols;
  }

  lemma NoneApplies(indexes: seq<IndexInfo>, e: Expr)
    ensures Available(indexes, ColumnsInCondition(e, [])) == [] <==>
      forall i | 0 <= i < |indexes| :: !AppliesTo(indexes[i], e)
  {
    hide AppliesTo, Available;
    var at := AvailableArePicked(indexes, e);
    if |at| > 0 {
      assert at[0] in at;
    }
  }

  /** What the plan says, without the functions that make it. */
  lemma PlannedIs(indexes: seq<IndexInfo>, e: Expr)
    ensures var plan := Planned(indexes, e);
      && (plan.SeqScanPlan? <==>
            (e.Logic? && e.kind == Or) || forall i | 0 <= i < |indexes| :: !AppliesTo(indexes[i], e))
      && (plan.IndexScanPlan? ==> exists at :: PickedAt(indexes, plan.indexes, at, e))
      && (plan.IndexScanPlan? ==>
            forall cols: set<nat> | (forall col :: col in cols <==> Mentions(e, col)) ::
              plan.needFilter <==> |plan.indexes| != |cols|)
  {
    hide PickedAt, AppliesTo, Mentions, Available, ColumnsInCondition;
    NoneApplies(indexes, e);
    var at := AvailableArePicked(indexes, e);
    forall cols: set<nat> | (forall col :: col in cols <==> Mentions(e, col))
      ensures |cols| == |ColumnsInCondition(e, [])|
    {
      MentionedCount(e, cols);
    }
  }

  // ------------------------------------------------- The rows of a plan

  /** The rows that come out: a sequential scan filters the whole table. */
  function PlanRows(plan: Plan, e: Expr, table: Table, heap: seq<RowId>): seq<RowId>
    requires table.Ok() && Fits(e, table.width)
  {
    match plan
    case SeqScanPlan => Filtered(e, table, heap)
    case IndexScanPlan(indexes, needFilter) =>
      if needFilter then Filtered(e, table, Scan(indexes, e)) else Scan(indexes, e)
  }

  /** Up to their order, they are the rows of the table that meet the condition, each once. */
  ghost predicate RightRows(rows: seq<RowId>, e: Expr, table: Table, heap: seq<RowId>)
    requires table.Ok() && Fits(e, table.width)
  {
    multiset(rows) == multiset(Filtered(e, table, heap))
  }

  /** Every list that a scan gathers holds rows of the table, each once. */
  lemma {:induction false} ScanInTable(e: Expr, indexes: seq<IndexInfo>, table: Table)
    requires table.Ok() && Fits(e, table.width) && ValuesOnly(e) && LookupsExact(e, indexes, table)
    ensures Distinct(Scan(indexes, e)) && forall rid :: rid in Scan(indexes, e) ==> rid in table.rows
  {
    match e
    case Compare(col, op, constant) =>
      var i := FirstOn(indexes, col);
      if i < |indexes| {
        assert ExactAt(indexes[i], table, op, constant.v);
      }
    case Logic(_, l, r) =>
      ScanInTable(l, indexes, table);
      ScanInTable(r, indexes, table);
      var lhs, rhs := Scan(indexes, l), Scan(indexes, r);
      if lhs != [] && rhs != [] {
        SortedKeeps(lhs);
        SortedKeeps(rhs);
        IntersectionIsBoth(Sorted(lhs), Sorted(rhs));
        AscendingDistinct(Scan(indexes, e));
      }
  }

  /** A list without duplicates is right exactly when its members are. */
  lemma RightIff(rows: seq<RowId>, e: Expr, table: Table, heap: seq<RowId>)
    requires table.Ok() && Fits(e, table.width) && Distinct(rows) && Lists(heap, table)
    ensures RightRows(rows, e, table, heap) <==> forall rid :: rid in rows <==> Matches(e, table, rid)
  {
    FilteredKeeps(e, table, heap);
    var right := Filtered(e, table, heap);
    assert forall rid :: rid in right <==> Matches(e, table, rid);
    if RightRows(rows, e, table, heap) {
      forall rid ensures rid in rows <==> Matches(e, table, rid) {
        assert rid in rows <==> rid in multiset(rows);
        assert rid in right <==> rid in multiset(right);
      }
    }
    if forall rid :: rid in rows <==> Matches(e, table, rid) {
      SameRowsSameMultiset(rows, right);
    }
  }

  /**
   The query, from the catalog's indexes to its rows, for an and-only condition: the plan yields the right rows if and
   only if it is a sequential scan, or it filters, or no empty side misleads the scan and the rows that meet the indexed
   comparisons all meet the others. With indexes on distinct columns there are no others.
   */
  lemma PlannedRowsIff(e: Expr, indexes: seq<IndexInfo>, table: Table, heap: seq<RowId>)
    requires table.Ok() && Fits(e, table.width) && AndOnly(e) && Lists(heap, table) && LookupsExact(e, indexes, table)
    ensures var plan := Planned(indexes, e);
      RightRows(PlanRows(plan, e, table, heap), e, table, heap) <==>
        || plan.SeqScanPlan? || plan.needFilter
        || (!Misled(plan.indexes, e) && IndexedSuffice(e, plan.indexes, table))
    ensures var plan := Planned(indexes, e);
      plan.IndexScanPlan? && !plan.needFilter ==>
        && (forall i :: 0 <= i < |plan.indexes| ==> |plan.indexes[i].columns| == 1)
        && (OnDistinctColumns(plan.indexes) ==> IndexedSuffice(e, plan.indexes, table))
  {
    var plan := Planned(indexes, e);
    if plan.IndexScanPlan? {
      PlannedExact(indexes, e, table);
      AvailableApplies(indexes, e);
      if plan.needFilter {
        FilteredIndexScanIsSeqScan(e, plan.indexes, table, heap);
      } else {
        AndOnlyValues(e);
        ScanInTable(e, plan.indexes, table);
        RightIff(Scan(plan.indexes, e), e, table, heap);
        UnfilteredIff(e, plan.indexes, table);
        NoFilterIff(indexes, e);
        if OnDistinctColumns(plan.indexes) {
          AllIndexedSuffice(e, plan.indexes, table);
        }
      }
    }
  }

  // ------------------------------------------------- An "or" that goes unnoticed

  /** The sides of an "or" are intersected all the same: right exactly when one look-up is empty or both find the same
      rows. */
  lemma OrIff(l: Expr, r: Expr, indexes: seq<IndexInfo>, table: Table)
    requires table.Ok() && Fits(l, table.width) && Fits(r, table.width) && ValuesOnly(l) && ValuesOnly(r)
    requires LookupsExact(Logic(Or, l, r), indexes, table)
    requires ScanIsAnswer(l, indexes, table) && ScanIsAnswer(r, indexes, table)
    ensures var lhs, rhs := Scan(indexes, l), Scan(indexes, r);
      ScanIsAnswer(Logic(Or, l, r), indexes, table) <==>
        lhs == [] || rhs == [] || forall rid :: rid in lhs <==> rid in rhs
  {
    var e, lhs, rhs := Logic(Or, l, r), Scan(indexes, l), Scan(indexes, r);
    LogicScan(Or, l, r, indexes, table);
    forall rid ensures Matches(e, table, rid) <==> rid in lhs || rid in rhs {
      assert Matches(e, table, rid) <==> Matches(l, table, rid) || Matches(r, table, rid);
    }
    if ScanIsAnswer(e, indexes, table) && lhs != [] && rhs != [] {
      forall rid ensures rid in lhs <==> rid in rhs {
        assert rid in Scan(indexes, e) <==> Matches(e, table, rid);
      }
    }
  }

  /** What a scan makes of the lists of two sides. */
  ghost predicate Gathered(all: seq<RowId>, lhs: seq<RowId>, rhs: seq<RowId>) {
    forall rid :: rid in all <==>
      if lhs == [] then rid in rhs else if rhs == [] then rid in lhs else rid in lhs && rid in rhs
  }

  lemma LogicScan(kind: LogicType, l: Expr, r: Expr, indexes: seq<IndexInfo>, table: Table)
    requires table.Ok() && Fits(l, table.width) && Fits(r, table.width) && ValuesOnly(l) && ValuesOnly(r)
    requires LookupsExact(Logic(kind, l, r), indexes, table)
    ensures Gathered(Scan(indexes, Logic(kind, l, r)), Scan(indexes, l), Scan(indexes, r))
  {
    var lhs, rhs := Scan(indexes, l), Scan(indexes, r);
    ScanInTable(l, indexes, table);
    ScanInTable(r, indexes, table);
    SortedKeeps(lhs);
    SortedKeeps(rhs);
    IntersectionIsBoth(Sorted(lhs), Sorted(rhs));
  }

  /** The row is in the list, told from the table and the indexed columns alone: an "or" gathers like an "and". */
  ghost predicate Gathers(e: Expr, indexes: seq<IndexInfo>, table: Table, rid: RowId)
    requires table.Ok() && Fits(e, table.width)
    decreases e, 0
  {
    match e
    case Compare(col, _, _) => Indexed(indexes, col) && Matches(e, table, rid)
    case Logic(_, l, r) =>
      if GathersNone(l, indexes, table) then Gathers(r, indexes, table, rid)
      else if GathersNone(r, indexes, table) then Gathers(l, indexes, table, rid)
      else Gathers(l, indexes, table, rid) && Gathers(r, indexes, table, rid)
  }

  ghost predicate GathersNone(e: Expr, indexes: seq<IndexInfo>, table: Table)
    requires table.Ok() && Fits(e, table.width)
    decreases e, 1
  {
    forall rid :: !Gathers(e, indexes, table, rid)
  }

  lemma {:induction false} ScanGathers(e: Expr, indexes: seq<IndexInfo>, table: Table)
    requires table.Ok() && Fits(e, table.width) && ValuesOnly(e) && LookupsExact(e, indexes, table)
    ensures forall rid :: rid in Scan(indexes, e) <==> Gathers(e, indexes, table, rid)
  {
    match e
    case Compare(col, op, constant) =>
      var i := FirstOn(indexes, col);
      if i < |indexes| {
        assert ExactAt(indexes[i], table, op, constant.v);
      }
    case Logic(kind, l, r) =>
      ScanGathers(l, indexes, table);
      ScanGathers(r, indexes, table);
      LogicScan(kind, l, r, indexes, table);
      EmptyIff(l, indexes, table);
      EmptyIff(r, indexes, table);
  }

  lemma EmptyIff(e: Expr, indexes: seq<IndexInfo>, table: Table)
    requires table.Ok() && Fits(e, table.width)
    requires forall rid :: rid in Scan(indexes, e) <==> Gathers(e, indexes, table, rid)
    ensures Scan(indexes, e) == [] <==> GathersNone(e, indexes, table)
  {
    if Scan(indexes, e) == [] {
      forall rid ensures !Gathers(e, indexes, table, rid) {
        assert rid !in Scan(indexes, e);
      }
    } else {
      assert Gathers(e, indexes, table, Scan(indexes, e)[0]);
    }
  }

  /** For a condition with "or" anywhere: an index scan that filters is right if and only if it gathers every row that
      matches, and one that does not filter if and only if it gathers these alone. */
  lemma AnyConditionIff(e: Expr, indexes: seq<IndexInfo>, table: Table, heap: seq<RowId>, needFilter: bool)
    requires table.Ok() && Fits(e, table.width) && ValuesOnly(e) && LookupsExact(e, indexes, table)
    requires Lists(heap, table)
    ensures RightRows(PlanRows(IndexScanPlan(indexes, needFilter), e, table, heap), e, table, heap) <==>
      forall rid :: if needFilter then Matches(e, table, rid) ==> Gathers(e, indexes, table, rid)
                    else Matches(e, table, rid) <==> Gathers(e, indexes, table, rid)
  {
    var s := Scan(indexes, e);
    ScanGathers(e, indexes, table);
    ScanInTable(e, indexes, table);
    FilteredKeeps(e, table, s);
    RightIff(if needFilter then Filtered(e, table, s) else s, e, table, heap);
  }

  // ------------------------------------------- What the columns of the indexes decide

  /** Misled, told from the table and the indexed columns alone. */
  ghost predicate MisledAt(e: Expr, indexes: seq<IndexInfo>, table: Table)
    requires table.Ok() && Fits(e, table.width)
  {
    match e
    case Compare(_, _, _) => false
    case Logic(_, l, r) =>
      || (!NoneIndexed(indexes, l) && !NoneIndexed(indexes, r)
          && GathersNone(l, indexes, table) != GathersNone(r, indexes, table))
      || (!GathersNone(e, indexes, table) && (MisledAt(l, indexes, table) || MisledAt(r, indexes, table)))
  }

  lemma {:induction false} MisledIs(e: Expr, indexes: seq<IndexInfo>, table: Table)
    requires table.Ok() && Fits(e, table.width) && ValuesOnly(e) && LookupsExact(e, indexes, table)
    ensures Misled(indexes, e) <==> MisledAt(e, indexes, table)
  {
    if e.Logic? {
      MisledIs(e.left, indexes, table);
      MisledIs(e.right, indexes, table);
      ScanGathers(e, indexes, table);
      EmptyIff(e, indexes, table);
      ScanGathers(e.left, indexes, table);
      EmptyIff(e.left, indexes, table);
      ScanGathers(e.right, indexes, table);
      EmptyIff(e.right, indexes, table);
    }
  }

  predicate SameColumns(a: seq<IndexInfo>, b: seq<IndexInfo>) {
    |a| == |b| && forall i :: 0 <= i < |a| ==> a[i].columns == b[i].columns
  }

  lemma {:induction false} SameFirst(a: seq<IndexInfo>, b: seq<IndexInfo>, col: nat)
    requires SameColumns(a, b)
    ensures FirstOn(a, col) == FirstOn(b, col)
  {
    if a != [] {
      assert a[0].columns == b[0].columns;
      SameFirst(a[1..], b[1..], col);
    }
  }

  lemma {:induction false} SameAvailable(a: seq<IndexInfo>, b: seq<IndexInfo>, columns: seq<nat>)
    requires SameColumns(a, b)
    ensures SameColumns(Available(a, columns), Available(b, columns))
    decreases |a|
  {
    if a != [] {
      assert a[|a| - 1].columns == b[|b| - 1].columns;
      SameAvailable(a[..|a| - 1], b[..|b| - 1], columns);
    }
  }

  lemma {:induction false} SameGathers(e: Expr, a: seq<IndexInfo>, b: seq<IndexInfo>, table: Table)
    requires table.Ok() && Fits(e, table.width) && SameColumns(a, b)
    ensures NoneIndexed(a, e) <==> NoneIndexed(b, e)
    ensures forall rid :: Gathers(e, a, table, rid) <==> Gathers(e, b, table, rid)
    ensures GathersNone(e, a, table) <==> GathersNone(e, b, table)
  {
    if e.Compare? {
      SameFirst(a, b, e.col);
    } else {
      SameGathers(e.left, a, b, table);
      SameGathers(e.right, a, b, table);
    }
    SameNone(e, a, b, table);
  }

  lemma SameNone(e: Expr, a: seq<IndexInfo>, b: seq<IndexInfo>, table: Table)
    requires table.Ok() && Fits(e, table.width)
    requires forall rid :: Gathers(e, a, table, rid) <==> Gathers(e, b, table, rid)
    ensures GathersNone(e, a, table) <==> GathersNone(e, b, table)
  {
    forall rid ensures Gathers(e, a, table, rid) <==> Gathers(e, b, table, rid) {
    }
  }

  lemma {:induction false} SameMisled(e: Expr, a: seq<IndexInfo>, b: seq<IndexInfo>, table: Table)
    requires table.Ok() && Fits(e, table.width) && SameColumns(a, b)
    ensures MisledAt(e, a, table) <==> MisledAt(e, b, table)
    ensures forall rid :: MeetsIndexed(e, a, table, rid) <==> MeetsIndexed(e, b, table, rid)
  {
    if e.Compare? {
      SameFirst(a, b, e.col);
    } else {
      SameMisled(e.left, a, b, table);
      SameMisled(e.right, a, b, table);
      SameGathers(e, a, b, table);
      SameGathers(e.left, a, b, table);
      SameGathers(e.right, a, b, table);
    }
  }

  /** An index scan that does not filter is right for an and-only condition if no empty side misleads it and the rows
      that meet the indexed comparisons meet the others; any other plan is right. */
  ghost predicate PlanIsRight(plan: Plan, e: Expr, table: Table)
    requires table.Ok() && Fits(e, table.width)
  {
    || plan.SeqScanPlan? || plan.needFilter
    || (!MisledAt(e, plan.indexes, table) && IndexedSuffice(e, plan.indexes, table))
  }

  /** Whether a plan is right depends on the columns of the indexes and not on what they answer. */
  lemma SamePlan(e: Expr, a: seq<IndexInfo>, b: seq<IndexInfo>, table: Table)
    requires table.Ok() && Fits(e, table.width) && SameColumns(a, b)
    ensures PlanIsRight(Planned(a, e), e, table) <==> PlanIsRight(Planned(b, e), e, table)
  {
    var columns := ColumnsInCondition(e, []);
    SameAvailable(a, b, columns);
    SameMisled(e, Available(a, columns), Available(b, columns), table);
  }

  lemma PlanIsRightIff(e: Expr, indexes: seq<IndexInfo>, table: Table, heap: seq<RowId>)
    requires table.Ok() && Fits(e, table.width) && AndOnly(e) && Lists(heap, table) && LookupsExact(e, indexes, table)
    ensures var plan := Planned(indexes, e);
      RightRows(PlanRows(plan, e, table, heap), e, table, heap) <==> PlanIsRight(plan, e, table)
  {
    var plan := Planned(indexes, e);
    PlannedRowsIff(e, indexes, table, heap);
    if plan.IndexScanPlan? {
      AndOnlyValues(e);
      PlannedExact(indexes, e, table);
      MisledIs(e, plan.indexes, table);
    }
  }

  /** No row that is in `x` is in exactly one of the other two lists. */
  ghost predicate NoneSplit(x: seq<RowId>, lhs: seq<RowId>, rhs: seq<RowId>) {
    forall rid :: rid in x ==> (rid in lhs <==> rid in rhs)
  }

  ghost predicate Apart(lhs: seq<RowId>, rhs: seq<RowId>) {
    forall rid :: rid in lhs ==> rid !in rhs
  }

  /** Below an "and" the filter takes the false rows out again, and rows are lost exactly when both sides of the "or"
      find some row in common and the "and" needs one that only one of them finds. */
  lemma NestedOrIff(x: Expr, l: Expr, r: Expr, indexes: seq<IndexInfo>, table: Table, heap: seq<RowId>)
    requires table.Ok() && Fits(x, table.width) && Fits(l, table.width) && Fits(r, table.width)
    requires ValuesOnly(x) && ValuesOnly(l) && ValuesOnly(r) && Lists(heap, table)
    requires LookupsExact(Logic(And, x, Logic(Or, l, r)), indexes, table)
    requires ScanIsAnswer(x, indexes, table) && ScanIsAnswer(l, indexes, table) && ScanIsAnswer(r, indexes, table)
    ensures var e := Logic(And, x, Logic(Or, l, r));
      var found, lhs, rhs := Scan(indexes, x), Scan(indexes, l), Scan(indexes, r);
      RightRows(Filtered(e, table, Scan(indexes, e)), e, table, heap) <==>
        found == [] || lhs == [] || rhs == [] || Apart(lhs, rhs) || NoneSplit(found, lhs, rhs)
  {
    hide Scan, Filtered, Matches, ScanIsAnswer, RightRows;
    var either := Logic(Or, l, r);
    var e := Logic(And, x, either);
    var all := Scan(indexes, e);
    LogicScan(Or, l, r, indexes, table);
    LogicScan(And, x, either, indexes, table);
    ScanInTable(e, indexes, table);
    FilteredKeeps(e, table, all);
    RightIff(Filtered(e, table, all), e, table, heap);
    NestedOrRows(x, l, r, indexes, table);
    assert forall rid :: rid in Filtered(e, table, all) <==> rid in all && Matches(e, table, rid);
    NestedOrLists(Scan(indexes, x), Scan(indexes, l), Scan(indexes, r), Scan(indexes, either), all);
  }

  lemma LogicMatches(kind: LogicType, l: Expr, r: Expr, table: Table, rid: RowId)
    requires table.Ok() && Fits(l, table.width) && Fits(r, table.width)
    ensures Matches(Logic(kind, l, r), table, rid) <==>
      if kind == And then Matches(l, table, rid) && Matches(r, table, rid)
      else Matches(l, table, rid) || Matches(r, table, rid)
  {
  }

  lemma NestedOrRows(x: Expr, l: Expr, r: Expr, indexes: seq<IndexInfo>, table: Table)
    requires table.Ok() && Fits(x, table.width) && Fits(l, table.width) && Fits(r, table.width)
    requires ScanIsAnswer(x, indexes, table) && ScanIsAnswer(l, indexes, table) && ScanIsAnswer(r, indexes, table)
    ensures forall rid :: Matches(Logic(And, x, Logic(Or, l, r)), table, rid) <==>
      rid in Scan(indexes, x) && (rid in Scan(indexes, l) || rid in Scan(indexes, r))
  {
    forall rid ensures Matches(Logic(And, x, Logic(Or, l, r)), table, rid) <==>
        rid in Scan(indexes, x) && (rid in Scan(indexes, l) || rid in Scan(indexes, r))
    {
      assert rid in Scan(indexes, x) <==> Matches(x, table, rid);
      assert rid in Scan(indexes, l) <==> Matches(l, table, rid);
      assert rid in Scan(indexes, r) <==> Matches(r, table, rid);
      LogicMatches(And, x, Logic(Or, l, r), table, rid);
      LogicMatches(Or, l, r, table, rid);
    }
  }

  /** The same on lists: all that is wanted is gathered exactly in these cases. */
  lemma NestedOrLists(x: seq<RowId>, lhs: seq<RowId>, rhs: seq<RowId>, either: seq<RowId>, all: seq<RowId>)
    requires Gathered(either, lhs, rhs) && Gathered(all, x, either)
    ensures (forall rid :: rid in x && (rid in lhs || rid in rhs) ==> rid in all) <==>
      x == [] || lhs == [] || rhs == [] || Apart(lhs, rhs) || NoneSplit(x, lhs, rhs)
  {
    if x != [] && lhs != [] && rhs != [] {
      if either == [] {
        forall rid | rid in lhs ensures rid !in rhs {
          assert rid !in either;
        }
      } else {
        var both := either[0];
        assert both in either && both in lhs && both in rhs;
        forall rid ensures rid in all <==> rid in x && rid in lhs && rid in rhs {
          assert rid in either <==> rid in lhs && rid in rhs;
        }
        if forall rid :: rid in x && (rid in lhs || rid in rhs) ==> rid in all {
          assert NoneSplit(x, lhs, rhs);
        }
      }
    }
  }

  // ---------------------------------------------------- Where the plan is wrong

  /** An index kept over the rows of a listing. */
  function IndexOver(col: nat, table: Table, heap: seq<RowId>): IndexInfo
    requires table.Ok() && col < table.width
  {
    IndexInfo([col], (op, constant) => Filtered(Compare(col, op, constant), table, heap))
  }

  lemma IndexOverIsExact(col: nat, table: Table, heap: seq<RowId>, op: CompareOp, v: Key)
    requires table.Ok() && col < table.width && Lists(heap, table)
    ensures ExactAt(IndexOver(col, table, heap), table, op, v)
  {
    FilteredKeeps(Compare(col, op, Val(v)), table, heap);
  }

  function Kept(e: Expr, table: Table, r: RowId): seq<RowId>
    requires table.Ok() && Fits(e, table.width)
  {
    if Matches(e, table, r) then [r] else []
  }

  lemma FilteredThree(e: Expr, table: Table, a: RowId, b: RowId, c: RowId)
    requires table.Ok() && Fits(e, table.width)
    ensures Filtered(e, table, [a, b, c]) == Kept(e, table, a) + Kept(e, table, b) + Kept(e, table, c)
  {
    assert [c][1..] == [];
    assert Filtered(e, table, [c]) == Kept(e, table, c);
    assert [b, c][1..] == [c];
    assert Filtered(e, table, [b, c]) == Kept(e, table, b) + Kept(e, table, c);
    assert [a, b, c][1..] == [b, c];
  }

  lemma SortedPair(a: RowId, b: RowId)
    requires a < b
    ensures Sorted([a, b]) == [a, b]
  {
    assert [b][1..] == [] && [a, b][1..] == [b];
    assert Sorted([b]) == [b];
  }

  function ThreeRows(): Table {
    Table(3, map[1 := [Val(1), Val(2), Val(0)], 2 := [Val(1), Val(0), Val(3)], 3 := [Val(0), Val(2), Val(3)]])
  }

  function ThreeIndexes(): seq<IndexInfo> {
    [IndexOver(0, ThreeRows(), [1, 2, 3]), IndexOver(1, ThreeRows(), [1, 2, 3]), IndexOver(2, ThreeRows(), [1, 2, 3])]
  }

  lemma ThreeScan(col: nat, v: Key)
    requires col < 3
    ensures var e := Compare(col, Eq, Val(v));
      && Scan(ThreeIndexes(), e) == Filtered(e, ThreeRows(), [1, 2, 3])
      && Indexed(ThreeIndexes(), col)
  {
    var e, indexes := Compare(col, Eq, Val(v)), ThreeIndexes();
    assert indexes[col].columns == [col];
    FirstOnIs(indexes, col, col);
  }

  lemma ThreeAnswers()
    ensures Scan(ThreeIndexes(), Compare(0, Eq, Val(1))) == [1, 2]
    ensures Scan(ThreeIndexes(), Compare(1, Eq, Val(2))) == [1, 3]
    ensures Scan(ThreeIndexes(), Compare(2, Eq, Val(3))) == [2, 3]
    ensures AllIndexed(ThreeIndexes(), Compare(0, Eq, Val(1)))
    ensures AllIndexed(ThreeIndexes(), Compare(1, Eq, Val(2)))
    ensures AllIndexed(ThreeIndexes(), Compare(2, Eq, Val(3)))
  {
    hide Scan, Filtered, ThreeIndexes;
    ThreeScan(0, 1);
    ThreeScan(1, 2);
    ThreeScan(2, 3);
    ThreeFiltered(0, 1, [1, 2]);
    ThreeFiltered(1, 2, [1, 3]);
    ThreeFiltered(2, 3, [2, 3]);
  }

  lemma ThreeFiltered(col: nat, v: Key, rows: seq<RowId>)
    requires (col, v, rows) in {(0, 1, [1, 2]), (1, 2, [1, 3]), (2, 3, [2, 3])}
    ensures Filtered(Compare(col, Eq, Val(v)), ThreeRows(), [1, 2, 3]) == rows
  {
    FilteredThree(Compare(col, Eq, Val(v)), ThreeRows(), 1, 2, 3);
  }

  function NestedOr(): Expr {
    Logic(And, Compare(0, Eq, Val(1)), Logic(Or, Compare(1, Eq, Val(2)), Compare(2, Eq, Val(3))))
  }

  lemma NestedOrScan()
    ensures ThreeRows().Ok() && Fits(NestedOr(), ThreeRows().width) && !HasOr(NestedOr())
    ensures Scan(ThreeIndexes(), NestedOr()) == [] && AllIndexed(ThreeIndexes(), NestedOr())
  {
    hide ThreeIndexes, Intersection, Sorted;
    ThreeAnswers();
    Pairs();
    assert Scan(ThreeIndexes(), NestedOr().right) == [3];
  }

  lemma NestedOrAnswer()
    ensures Filtered(NestedOr(), ThreeRows(), [1, 2, 3]) == [1, 2]
  {
    FilteredThree(NestedOr(), ThreeRows(), 1, 2, 3);
  }

  /** An "or" below an "and" goes unnoticed: the plan is an index scan, which intersects the sides of the "or", and
      loses rows that the filter cannot bring back. */
  lemma NestedOrLosesRows() returns (e: Expr, indexes: seq<IndexInfo>, table: Table, heap: seq<RowId>)
    ensures table.Ok() && Fits(e, table.width) && LookupsExact(e, indexes, table) && AllIndexed(indexes, e)
        && Lists(heap, table)
    ensures !HasOr(e)
    ensures Filtered(e, table, Scan(indexes, e)) == [] && Filtered(e, table, heap) == [1, 2]
  {
    hide *;
    e, indexes, table, heap := NestedOr(), ThreeIndexes(), ThreeRows(), [1, 2, 3];
    ThreeExact();
    NestedOrScan();
    NestedOrAnswer();
    FilteredNone(e, table, Scan(indexes, e));
  }

  lemma ThreeLookup(col: nat, v: Key)
    requires col < 3
    ensures ThreeRows().Ok() && LookupsExact(Compare(col, Eq, Val(v)), ThreeIndexes(), ThreeRows())
  {
    hide Filtered;
    assert ThreeIndexes()[col].columns == [col];
    FirstOnIs(ThreeIndexes(), col, col);
    IndexOverIsExact(col, ThreeRows(), [1, 2, 3], Eq, v);
  }

  lemma ThreeExact()
    ensures ThreeRows().Ok() && Fits(NestedOr(), ThreeRows().width) && Lists([1, 2, 3], ThreeRows())
    ensures LookupsExact(NestedOr(), ThreeIndexes(), ThreeRows())
  {
    hide ThreeIndexes, FirstOn;
    ThreeLookup(0, 1);
    ThreeLookup(1, 2);
    ThreeLookup(2, 3);
  }

  lemma Pairs()
    ensures Intersection(Sorted([1, 3]), Sorted([2, 3])) == [3]
    ensures Intersection(Sorted([1, 2]), Sorted([3])) == []
  {
    SortedPair(1, 2);
    SortedPair(1, 3);
    SortedPair(2, 3);
    assert [3][1..] == [] && [1, 3][1..] == [3] && [2, 3][1..] == [3] && [1, 2][1..] == [2] && [2][1..] == [];
    assert Sorted([3]) == [3];
    assert Intersection([3], [3]) == [3];
    assert Intersection([3], [2, 3]) == [3];
    assert Intersection([2], [3]) == [];
  }

  function OneRow(): Table {
    Table(2, map[1 := [Val(1), Val(0)]])
  }

  function OneThenTwo(): Expr {
    Logic(And, Compare(0, Eq, Val(1)), Compare(1, Eq, Val(2)))
  }

  function IndexesOn(col: nat, other: nat): seq<IndexInfo>
    requires col < 2 && other < 2
  {
    [IndexOver(col, OneRow(), [1]), IndexOver(other, OneRow(), [1])]
  }

  lemma OneRowExact(other: nat)
    requires other < 2
    ensures OneRow().Ok() && Fits(OneThenTwo(), OneRow().width) && Lists([1], OneRow())
    ensures LookupsExact(OneThenTwo(), IndexesOn(0, other), OneRow())
  {
    var indexes := IndexesOn(0, other);
    FirstOnIs(indexes, 0, 0);
    IndexOverIsExact(0, OneRow(), [1], Eq, 1);
    if other == 1 {
      FirstOnIs(indexes, 1, 1);
      IndexOverIsExact(1, OneRow(), [1], Eq, 2);
    } else {
      NotIndexed(indexes, 1);
    }
  }

  /** Two indexes for two columns: no filter. */
  lemma OneRowPlan(other: nat)
    requires other < 2
    ensures Planned(IndexesOn(0, other), OneThenTwo()) == IndexScanPlan(IndexesOn(0, other), false)
  {
    var indexes, columns := IndexesOn(0, other), [0, 1];
    assert ColumnsInCondition(OneThenTwo(), []) == columns;
    assert indexes[..1] == [indexes[0]] && indexes[..1][..0] == [];
    assert Available(indexes[..1], columns) == [indexes[0]];
    assert Available(indexes, columns) == indexes;
  }

  lemma OneRowFirst(other: nat)
    requires other < 2
    ensures Scan(IndexesOn(0, other), Compare(0, Eq, Val(1))) == [1]
  {
    var indexes := IndexesOn(0, other);
    FirstOnIs(indexes, 0, 0);
    assert [1][1..] == [];
    assert Filtered(Compare(0, Eq, Val(1)), OneRow(), [1]) == [1];
  }

  lemma OneRowSecond(other: nat)
    requires other < 2
    ensures Scan(IndexesOn(0, other), Compare(1, Eq, Val(2))) == []
  {
    var e, indexes := Compare(1, Eq, Val(2)), IndexesOn(0, other);
    if other == 1 {
      FirstOnIs(indexes, 1, 1);
      assert [1][1..] == [];
      assert Filtered(e, OneRow(), [1]) == [];
    } else {
      NotIndexed(indexes, 1);
    }
  }

  /** The one row comes out of the scan, although it does not meet the condition. */
  lemma OneRowWrong(other: nat)
    requires other < 2
    ensures Scan(IndexesOn(0, other), OneThenTwo()) == [1]
    ensures !RightRows([1], OneThenTwo(), OneRow(), [1])
  {
    OneRowFirst(other);
    OneRowSecond(other);
    assert !Matches(OneThenTwo(), OneRow(), 1);
    assert [1][1..] == [];
    assert Filtered(OneThenTwo(), OneRow(), [1]) == [];
    assert 1 in multiset([1]);
  }

  lemma OneRowRows(other: nat)
    requires other < 2
    ensures OneRow().Ok() && Fits(OneThenTwo(), OneRow().width) && AndOnly(OneThenTwo())
    ensures var plan := Planned(IndexesOn(0, other), OneThenTwo());
      && plan == IndexScanPlan(IndexesOn(0, other), false)
      && !RightRows(PlanRows(plan, OneThenTwo(), OneRow(), [1]), OneThenTwo(), OneRow(), [1])
  {
    hide Planned, Scan, RightRows, IndexesOn, Filtered;
    OneRowPlan(other);
    OneRowWrong(other);
  }

  lemma OneRowIndexed(other: nat)
    requires other < 2
    ensures AllIndexed(IndexesOn(0, other), OneThenTwo()) <==> other == 1
  {
    var indexes := IndexesOn(0, other);
    FirstOnIs(indexes, 0, 0);
    if other == 1 {
      FirstOnIs(indexes, 1, 1);
    } else {
      NotIndexed(indexes, 1);
    }
  }

  /** Two indexes on one column make up for a column without any: the filter is left out, and the rows are wrong. */
  lemma TwoIndexesHideAColumn() returns (e: Expr, indexes: seq<IndexInfo>, table: Table, heap: seq<RowId>)
    ensures table.Ok() && Fits(e, table.width) && AndOnly(e) && LookupsExact(e, indexes, table)
        && Lists(heap, table)
    ensures Planned(indexes, e) == IndexScanPlan(indexes, false) && !AllIndexed(indexes, e)
    ensures !RightRows(PlanRows(Planned(indexes, e), e, table, heap), e, table, heap)
  {
    hide *;
    e, indexes, table, heap := OneThenTwo(), IndexesOn(0, 0), OneRow(), [1];
    OneRowExact(0);
    OneRowRows(0);
    OneRowIndexed(0);
  }

  /** With an index on each of two columns the filter is left out too, and a look-up that finds nothing misleads the
      scan. */
  lemma EmptyLookupMisleads() returns (e: Expr, indexes: seq<IndexInfo>, table: Table, heap: seq<RowId>)
    ensures table.Ok() && Fits(e, table.width) && AndOnly(e) && LookupsExact(e, indexes, table)
        && Lists(heap, table)
    ensures Planned(indexes, e) == IndexScanPlan(indexes, false) && AllIndexed(indexes, e) && Misled(indexes, e)
    ensures !RightRows(PlanRows(Planned(indexes, e), e, table, heap), e, table, heap)
  {
    hide *;
    e, indexes, table, heap := OneThenTwo(), IndexesOn(0, 1), OneRow(), [1];
    OneRowExact(1);
    OneRowRows(1);
    OneRowIndexed(1);
    OneRowMisled();
  }

  lemma OneRowMisled()
    ensures Misled(IndexesOn(0, 1), OneThenTwo())
  {
    hide Scan, IndexesOn, Indexed;
    OneRowIndexed(1);
    OneRowFirst(1);
    OneRowSecond(1);
  }

  // ----------------------------------------------- The tree's answers are exact

  /** The entries of an index tree are the rows of the table, by the value of one column. */
  ghost predicate Indexes(contents: map<Key, RowId>, table: Table, col: nat)
    requires table.Ok() && col < table.width
  {
    forall rid, v :: Held(contents, Entry(v, rid)) <==> rid in table.rows && table.rows[rid][col] == Val(v)
  }

  lemma SelectedRids(es: seq<Entry>, contents: map<Key, RowId>, table: Table, col: nat, op: CompareOp, v: Key,
        rid: RowId)
    requires table.Ok() && col < table.width && Indexes(contents, table, col) && Selects(es, contents, op, v)
    ensures rid in Rids(es) <==> Matches(Compare(col, op, Val(v)), table, rid)
  {
    RidMembers(es, rid);
    if Matches(Compare(col, op, Val(v)), table, rid) {
      var e := Entry(table.rows[rid][col].v, rid);
      assert Held(contents, e);
      assert e in es;
    }
    if e: Entry :| e in es && e.rid == rid {
      assert Held(contents, Entry(e.key, rid));
    }
  }

  lemma TwiceInMultiset(s: seq<RowId>, i: nat, j: nat)
    requires i < j < |s| && s[i] == s[j]
    ensures multiset(s)[s[i]] >= 2
  {
    assert s == s[..j] + s[j..];
    assert s[..j][i] == s[i] && s[j..][0] == s[i];
    assert s[i] in multiset(s[..j]) && s[i] in multiset(s[j..]);
  }

  lemma SelectedOnce(es: seq<Entry>, contents: map<Key, RowId>, table: Table, col: nat, op: CompareOp, v: Key)
    requires table.Ok() && col < table.width && Indexes(contents, table, col) && Selects(es, contents, op, v)
    ensures Distinct(Rids(es))
  {
    forall i, j | 0 <= i < j < |es| ensures es[i].rid != es[j].rid {
      assert es[i] in es && es[j] in es;
      assert Held(contents, Entry(es[i].key, es[i].rid)) && Held(contents, Entry(es[j].key, es[j].rid));
    }
  }

  /** A right answer of ScanKey, for a tree that indexes a column, is an exact look-up. */
  lemma AnswersAreExact(result: seq<RowId>, contents: map<Key, RowId>, table: Table, col: nat, op: CompareOp, v: Key)
    requires table.Ok() && col < table.width && Indexes(contents, table, col) && Answers(result, contents, op, v)
    ensures Distinct(result)
    ensures forall rid :: rid in result <==> Matches(Compare(col, op, Val(v)), table, rid)
  {
    var es :| Selects(es, contents, op, v)
      && if op == Ne then multiset(result) == multiset(Rids(es)) else result == Rids(es);
    SelectedOnce(es, contents, table, col, op, v);
    forall i, j | 0 <= i < j < |result| ensures result[i] != result[j] {
      if result[i] == result[j] {
        TwiceInMultiset(result, i, j);
        Multiplicity(Rids(es), result[i]);
        assert false;
      }
    }
    forall rid ensures rid in result <==> Matches(Compare(col, op, Val(v)), table, rid) {
      assert rid in result <==> rid in multiset(result);
      assert rid in Rids(es) <==> rid in multiset(Rids(es));
      SelectedRids(es, contents, table, col, op, v, rid);
    }
  }
}

/** The planner's choice and the executor's loop. */
module IndexScanExecutors {
  import opened BPlusTreeNodes
  import opened BPlusTreeScan
  import opened Predicates
  import opened IndexScans

  /** A sequential scan for an "or" at the top, and when no index applies; otherwise an index scan over those that do.
      It filters unless as many indexes apply as there are columns in the condition. */
  method PlanSelect(indexes: seq<IndexInfo>, where: Expr) returns (plan: Plan)
    ensures plan.SeqScanPlan? <==>
      (where.Logic? && where.kind == Or) || forall i | 0 <= i < |indexes| :: !AppliesTo(indexes[i], where)
    ensures plan.IndexScanPlan? ==> exists at :: PickedAt(indexes, plan.indexes, at, where)
    ensures plan.IndexScanPlan? ==>
      forall cols: set<nat> | (forall col :: col in cols <==> Mentions(where, col)) ::
        plan.needFilter <==> |plan.indexes| != |cols|
    ensures plan == Planned(indexes, where)
    ensures plan.IndexScanPlan? ==> !NoneIndexed(plan.indexes, where)
  {
    hide PickedAt, AppliesTo, Mentions, ColumnsInCondition, NoneIndexed;
    var columns := ColumnsInCondition(where, []);
    var available := [];
    for i := 0 to |indexes|
      invariant available == Available(indexes[..i], columns)
    {
      assert indexes[..i + 1][..i] == indexes[..i];
      if |indexes[i].columns| == 1 {
        if indexes[i].columns[0] in columns {
          available := available + [indexes[i]];
        }
      }
    }
    assert indexes[..|indexes|] == indexes;
    PlannedIs(indexes, where);
    if |available| == 0 || HasOr(where) {
      return SeqScanPlan;
    }
    AvailableApplies(indexes, where);
    plan := IndexScanPlan(available, |available| != |columns|);
  }

  /** The recursion over the predicate. */
  method IndexScan(indexes: seq<IndexInfo>, e: Expr) returns (rids: seq<RowId>)
    ensures rids == Scan(indexes, e)
  {
    match e
    case Compare(col, op, constant) =>
      rids := [];
      var i := 0;
      while i < |indexes|
        invariant i <= |indexes| && rids == []
        invariant forall j :: 0 <= j < i ==> !IsOn(indexes[j], [col])
      {
        if |indexes[i].columns| == 1 && indexes[i].columns[0] == col {
          FirstOnIs(indexes, col, i);
          return indexes[i].scanKey(op, constant);
        }
        i := i + 1;
      }
    case Logic(_, l, r) =>
      var lhs := IndexScan(indexes, l);
      var rhs := IndexScan(indexes, r);
      if lhs == [] {
        return rhs;
      }
      if rhs == [] {
        return lhs;
      }
      rids := Intersection(Sorted(lhs), Sorted(rhs));
  }

  class IndexScanExecutor {
    const indexes: seq<IndexInfo>
    const needFilter: bool
    const filter: Expr
    const table: Table
    var result: seq<RowId>
    var cursor: nat

    /** Init: the list is gathered at once. */
    constructor (indexes: seq<IndexInfo>, needFilter: bool, e: Expr, table: Table)
      requires table.Ok() && Fits(e, table.width) && forall rid :: rid in Scan(indexes, e) ==> rid in table.rows
      ensures Valid() && filter == e && this.table == table
      ensures Left() == if needFilter then Filtered(e, table, Scan(indexes, e)) else Scan(indexes, e)
    {
      this.indexes := indexes;
      this.needFilter := needFilter;
      filter := e;
      this.table := table;
      var rids := IndexScan(indexes, e);
      result := rids;
      cursor := 0;
      new;
      assert result[0..] == result;
    }

    ghost predicate Valid()
      reads this
    {
      && table.Ok() && Fits(filter, table.width) && cursor <= |result|
      && forall rid :: rid in result ==> rid in table.rows
    }

    /** The row ids still to come. */
    ghost function Left(): seq<RowId>
      requires Valid()
      reads this
    {
      if needFilter then Filtered(filter, table, result[cursor..]) else result[cursor..]
    }

    /** Yields the rows of the list one by one, leaving out those that the filter rejects. */
    method Next() returns (ok: bool, rid: RowId)
      requires Valid()
      modifies this`cursor
      ensures Valid()
      ensures ok <==> old(Left()) != []
      ensures ok ==> rid == old(Left())[0] && Left() == old(Left())[1..]
      ensures !ok ==> Left() == []
    {
      ghost var left := Left();
      while cursor < |result|
        invariant Valid() && Left() == left
        decreases |result| - cursor
      {
        assert result[cursor..][0] == result[cursor] && result[cursor..][1..] == result[cursor + 1..];
        if needFilter && Evaluate(filter, table.rows[result[cursor]]) != TRUE {
          cursor := cursor + 1;
          continue;
        }
        rid := result[cursor];
        cursor := cursor + 1;
        return true, rid;
      }
      return false, 0;
    }
  }

  // ------------------------------------------------- From the condition to its rows

  /** The engine asks for rows until there is none left. */
  method ExecutePlan(executor: IndexScanExecutor) returns (rows: seq<RowId>)
    requires executor.Valid()
    modifies executor`cursor
    ensures executor.Valid() && rows == old(executor.Left())
  {
    hide IndexScanExecutor.Left;
    rows := [];
    ghost var all := executor.Left();
    while true
      invariant executor.Valid() && |rows| <= |all| && rows == all[..|rows|] && executor.Left() == all[|rows|..]
      decreases |executor.Left()|
    {
      var ok, rid := executor.Next();
      if !ok {
        return;
      }
      rows := rows + [rid];
    }
  }

  lemma FilteredFrom(e: Expr, table: Table, s: seq<RowId>, i: nat)
    requires table.Ok() && Fits(e, table.width) && i < |s|
    ensures Filtered(e, table, s[i..])
         == (if Matches(e, table, s[i]) then [s[i]] else []) + Filtered(e, table, s[i + 1..])
  {
    assert s[i..][0] == s[i] && s[i..][1..] == s[i + 1..];
  }

  /** The same for a sequential scan, which filters as it goes. */
  method SeqScan(where: Expr, table: Table, heap: seq<RowId>) returns (rows: seq<RowId>)
    requires table.Ok() && Fits(where, table.width) && forall rid :: rid in heap ==> rid in table.rows
    ensures rows == Filtered(where, table, heap)
    ensures exists at :: KeptAt(heap, 0, rows, at, where, table)
  {
    hide Filtered, Evaluate, KeptAt;
    ghost var at := FilteredInOrder(where, table, heap, 0);
    rows := [];
    var i := 0;
    assert heap[0..] == heap;
    while i < |heap|
      invariant i <= |heap| && Filtered(where, table, heap) == rows + Filtered(where, table, heap[i..])
    {
      FilteredFrom(where, table, heap, i);
      if Evaluate(where, table.rows[heap[i]]) == TRUE {
        rows := rows + [heap[i]];
      }
      i := i + 1;
    }
    FilteredNone(where, table, heap[i..]);
  }

  /**
   A select, from the catalog's indexes to its rows. With exact look-ups the rows for an and-only condition are those
   of the table that meet it if and only if the plan is a sequential scan, or filters, or no empty side misleads the
   scan and the indexed comparisons suffice. With an "or" at the top, and where no index applies, they are right
   whatever the indexes answer.
   */
  method Select(indexes: seq<IndexInfo>, where: Expr, table: Table, heap: seq<RowId>) returns (rows: seq<RowId>)
    requires table.Ok() && Fits(where, table.width) && Lists(heap, table) && LookupsListRows(where, indexes, table)
    ensures rows == PlanRows(Planned(indexes, where), where, table, heap)
    ensures AndOnly(where) && LookupsExact(where, indexes, table) ==>
      (RightRows(rows, where, table, heap) <==> PlanIsRight(Planned(indexes, where), where, table))
    ensures where.Logic? && where.kind == Or ==> RightRows(rows, where, table, heap)
    ensures (forall i | 0 <= i < |indexes| :: !AppliesTo(indexes[i], where)) ==> RightRows(rows, where, table, heap)
  {
    var plan := PlanSelect(indexes, where);
    if AndOnly(where) && LookupsExact(where, indexes, table) {
      PlanIsRightIff(where, indexes, table, heap);
    }
    match plan {
      case SeqScanPlan =>
        rows := SeqScan(where, table, heap);
      case IndexScanPlan(available, needFilter) =>
        PlannedListRows(where, indexes, table);
        var executor := new IndexScanExecutor(available, needFilter, where, table);
        rows := ExecutePlan(executor);
    }
  }
}

/** A select with B+ trees as indexes. */
module TreeSelects {
  import opened Basics
  import opened BPlusTreeNodes
  import opened BPlusTreeScan
  import opened Predicates
  import opened IndexScans
  import opened IndexScanExecutors

  /** An index of the catalog: the table columns of its key, and its tree. */
  datatype TreeIndex = TreeIndex(columns: seq<nat>, tree: BPlusTreeIndex)

  /** The tree of a single-column index holds the rows of the table by the value of the column. */
  ghost predicate Keeps(t: TreeIndex, table: Table)
    requires table.Ok()
    reads t.tree, t.tree.container
  {
    && t.tree.Valid()
    && (|t.columns| == 1 ==>
          t.columns[0] < table.width && Indexes(t.tree.container.contents, table, t.columns[0]))
  }

  /** The condition compares the column with the value. */
  predicate Asks(e: Expr, col: nat, op: CompareOp, v: Key) {
    match e
    case Compare(c, o, constant) => c == col && o == op && constant == Val(v)
    case Logic(_, l, r) => Asks(l, col, op, v) || Asks(r, col, op, v)
  }

  /** What `ScanKey` says of an answer. */
  ghost predicate AnsweredBy(t: TreeIndex, op: CompareOp, v: Key, rids: seq<RowId>)
    reads t.tree, t.tree.container
  {
    && (Answers(rids, t.tree.container.contents, op, v) <==> op in {Eq, Ne} || !t.tree.InGap(v))
    && forall rid | rid in rids :: Stored(t.tree.container.contents, rid)
  }

  type Told = map<(CompareOp, Key), seq<RowId>>

  /** Asks the tree for every comparison of the column in the condition. */
  method LookUp(t: TreeIndex, e: Expr, before: Told) returns (told: Told)
    requires t.tree.Valid() && |t.columns| == 1
    requires forall q | q in before :: AnsweredBy(t, q.0, q.1, before[q])
    ensures forall q | q in told :: AnsweredBy(t, q.0, q.1, told[q])
    ensures forall q | q in before :: q in told
    ensures forall op, v | Asks(e, t.columns[0], op, v) :: (op, v) in told
  {
    told := before;
    match e
    case Compare(col, op, constant) =>
      if col == t.columns[0] && constant.Val? {
        var rids := t.tree.ScanKey(constant.v, op);
        told := before[(op, constant.v) := rids];
      }
    case Logic(_, l, r) =>
      told := LookUp(t, l, before);
      told := LookUp(t, r, told);
  }

  /** The index answers the comparisons of the condition as its tree does. */
  ghost predicate Speaks(index: IndexInfo, t: TreeIndex, e: Expr)
    reads t.tree, t.tree.container
  {
    && index.columns == t.columns
    && (|t.columns| == 1 ==>
          forall op, v | Asks(e, t.columns[0], op, v) :: AnsweredBy(t, op, v, index.scanKey(op, Val(v))))
  }

  method AskTree(t: TreeIndex, e: Expr) returns (index: IndexInfo)
    requires t.tree.Valid()
    ensures Speaks(index, t, e)
  {
    var told: Told := map[];
    if |t.columns| == 1 {
      told := LookUp(t, e, told);
    }
    index := IndexInfo(t.columns, (op, c: Value) => if c.Val? && (op, c.v) in told then told[(op, c.v)] else []);
  }

  ghost predicate Catalogued(catalog: seq<TreeIndex>, table: Table)
    requires table.Ok()
    reads set t | t in catalog :: t.tree, set t | t in catalog :: t.tree.container
  {
    forall i :: 0 <= i < |catalog| ==> Keeps(catalog[i], table)
  }

  /** The first single-column index on the column. */
  predicate FirstFor(catalog: seq<TreeIndex>, col: nat, i: nat) {
    i < |catalog| && catalog[i].columns == [col] && forall j :: 0 <= j < i ==> catalog[j].columns != [col]
  }

  /** No comparison of the condition but "=" and "<>" probes a gap of the tree that is asked. */
  ghost predicate ProbesNoGap(e: Expr, catalog: seq<TreeIndex>)
    reads set t | t in catalog :: t.tree, set t | t in catalog :: t.tree.container
  {
    match e
    case Compare(col, op, constant) =>
      forall i: nat | FirstFor(catalog, col, i) && constant.Val? ::
        op in {Eq, Ne} || !catalog[i].tree.InGap(constant.v)
    case Logic(_, l, r) => ProbesNoGap(l, catalog) && ProbesNoGap(r, catalog)
  }

  ghost predicate SpeakFor(indexes: seq<IndexInfo>, catalog: seq<TreeIndex>, e: Expr)
    reads set t | t in catalog :: t.tree, set t | t in catalog :: t.tree.container
  {
    |indexes| == |catalog| && forall i :: 0 <= i < |catalog| ==> Speaks(indexes[i], catalog[i], e)
  }

  lemma StoredInTable(contents: map<Key, RowId>, table: Table, col: nat, rid: RowId)
    requires table.Ok() && col < table.width && Indexes(contents, table, col) && Stored(contents, rid)
    ensures rid in table.rows
  {
    var e :| Held(contents, e) && e.rid == rid;
    assert Held(contents, Entry(e.key, rid));
  }

  lemma TreeAnswers(t: TreeIndex, index: IndexInfo, table: Table, op: CompareOp, v: Key)
    requires table.Ok() && Keeps(t, table) && |t.columns| == 1 && index.columns == t.columns
    requires AnsweredBy(t, op, v, index.scanKey(op, Val(v)))
    ensures forall rid :: rid in index.scanKey(op, Val(v)) ==> rid in table.rows
    ensures op in {Eq, Ne} || !t.tree.InGap(v) ==> ExactAt(index, table, op, v)
  {
    var answer, contents, col := index.scanKey(op, Val(v)), t.tree.container.contents, t.columns[0];
    forall rid | rid in answer ensures rid in table.rows {
      StoredInTable(contents, table, col, rid);
    }
    if op in {Eq, Ne} || !t.tree.InGap(v) {
      AnswersAreExact(answer, contents, table, col, op, v);
    }
  }

  /** Look-ups in trees are exact where they probe no gap. */
  lemma {:induction false} TreeLookups(e: Expr, whole: Expr, catalog: seq<TreeIndex>, indexes: seq<IndexInfo>,
        table: Table)
    requires table.Ok() && Fits(e, table.width) && ValuesOnly(e) && Catalogued(catalog, table)
    requires SpeakFor(indexes, catalog, whole)
    requires forall col, op, v :: Asks(e, col, op, v) ==> Asks(whole, col, op, v)
    ensures LookupsListRows(e, indexes, table)
    ensures ProbesNoGap(e, catalog) ==> LookupsExact(e, indexes, table)
  {
    match e
    case Compare(col, op, constant) =>
      var i := FirstOn(indexes, col);
      if i < |indexes| {
        assert Speaks(indexes[i], catalog[i], whole) && Keeps(catalog[i], table);
        assert Asks(e, col, op, constant.v);
        assert indexes[i].columns == [col];
        forall j | 0 <= j < i ensures catalog[j].columns != [col] {
          assert Speaks(indexes[j], catalog[j], whole) && !IsOn(indexes[j], [col]);
        }
        assert FirstFor(catalog, col, i);
        TreeAnswers(catalog[i], indexes[i], table, op, constant.v);
      }
    case Logic(_, l, r) =>
      assert forall col, op, v :: Asks(l, col, op, v) || Asks(r, col, op, v) ==> Asks(e, col, op, v);
      TreeLookups(l, whole, catalog, indexes, table);
      TreeLookups(r, whole, catalog, indexes, table);
  }

  method AskTrees(catalog: seq<TreeIndex>, e: Expr) returns (indexes: seq<IndexInfo>)
    requires forall i :: 0 <= i < |catalog| ==> catalog[i].tree.Valid()
    ensures SpeakFor(indexes, catalog, e)
  {
    indexes := [];
    for i := 0 to |catalog|
      invariant |indexes| == i && forall j :: 0 <= j < i ==> Speaks(indexes[j], catalog[j], e)
    {
      var index := AskTree(catalog[i], e);
      indexes := indexes + [index];
    }
  }

  lemma SpokenColumns(indexes: seq<IndexInfo>, catalog: seq<TreeIndex>, table: Table, e: Expr)
    requires table.Ok() && Catalogued(catalog, table)
    ensures forall i :: 0 <= i < |catalog| ==> catalog[i].tree.Valid()
    ensures SpeakFor(indexes, catalog, e) ==>
      |indexes| == |catalog| && forall i :: 0 <= i < |catalog| ==> indexes[i].columns == catalog[i].columns
  {
    forall i | 0 <= i < |catalog| ensures catalog[i].tree.Valid() {
      assert Keeps(catalog[i], table);
    }
    if SpeakFor(indexes, catalog, e) {
      assert forall i :: 0 <= i < |catalog| ==> Speaks(indexes[i], catalog[i], e);
    }
  }

  /** The indexes of the catalog, none of which has been asked anything. */
  function Unasked(catalog: seq<TreeIndex>): (indexes: seq<IndexInfo>)
    ensures |indexes| == |catalog| && forall i :: 0 <= i < |catalog| ==> indexes[i].columns == catalog[i].columns
  {
    seq(|catalog|, i requires 0 <= i < |catalog| => IndexInfo(catalog[i].columns, (op, c) => []))
  }

  /**
   A select over a table whose indexes are trees. When the condition probes no gap, the rows for an and-only condition
   are those of the table that meet it if and only if the plan is right, which the columns of the indexes, the condition
   and the table decide. With an "or" at the top they are right whatever it probes.
   */
  method SelectOnTrees(catalog: seq<TreeIndex>, where: Expr, table: Table, heap: seq<RowId>)
    returns (rows: seq<RowId>, ghost indexes: seq<IndexInfo>)
    requires table.Ok() && Fits(where, table.width) && ValuesOnly(where) && Lists(heap, table)
    requires Catalogued(catalog, table)
    ensures SpeakFor(indexes, catalog, where) && rows == PlanRows(Planned(indexes, where), where, table, heap)
    ensures AndOnly(where) && ProbesNoGap(where, catalog) ==>
      (RightRows(rows, where, table, heap) <==> PlanIsRight(Planned(Unasked(catalog), where), where, table))
    ensures where.Logic? && where.kind == Or ==> RightRows(rows, where, table, heap)
  {
    hide LookupsExact, LookupsListRows, PlanIsRight, RightRows, PlanRows, Planned, AndOnly, ValuesOnly, Speaks, Keeps;
    SpokenColumns([], catalog, table, where);
    var asked := AskTrees(catalog, where);
    indexes := asked;
    SpokenColumns(indexes, catalog, table, where);
    TreeLookups(where, where, catalog, indexes, table);
    SamePlan(where, indexes, Unasked(catalog), table);
    rows := Select(asked, where, table, heap);
  }
}
