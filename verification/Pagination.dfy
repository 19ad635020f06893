/**
  Pagination: the rows that a query with cursors, skip, first and last fetches,
  and what is left of them once the answer has been trimmed.
 */
module Pagination {
  import opened Wrappers

  /** The id of a row, and its value in the column that a query may order by. */
  datatype Row = Row(id: int, value: int)

  datatype Column = IdColumn | ValueColumn

  datatype SortOrder = Ascending | Descending

  datatype OrderBy = OrderBy(field: Column, sortOrder: SortOrder)

  datatype Arguments = Arguments(
    skip: Option<nat>, after: Option<int>, first: Option<nat>, before: Option<int>, last: Option<nat>, orderBy: Option<OrderBy>)

  function Cell(r: Row, c: Column): int {
    if c.IdColumn? then r.id else r.value
  }

  // ----- the order of rows -----

  datatype OrderTerm = OrderTerm(column: Column, descending: bool)

  function SortOrderOf(orderBy: Option<OrderBy>): SortOrder {
    if orderBy.Some? then orderBy.value.sortOrder else Ascending
  }

  function ByFields(first: Option<Column>, second: Column, orderBy: Option<OrderBy>, reverse: bool): seq<OrderTerm> {
    var order := SortOrderOf(orderBy);
    if first.Some? && first.value != second then
      match (order, reverse)
      case (Ascending, true) => [OrderTerm(first.value, true), OrderTerm(second, true)]
      case (Descending, true) => [OrderTerm(first.value, false), OrderTerm(second, true)]
      case (Ascending, false) => [OrderTerm(first.value, false), OrderTerm(second, false)]
      case (Descending, false) => [OrderTerm(first.value, true), OrderTerm(second, false)]
    else
      match (order, reverse)
      case (Ascending, true) => [OrderTerm(second, true)]
      case (Descending, true) => [OrderTerm(second, false)]
      case (Ascending, false) => [OrderTerm(second, false)]
      case (Descending, false) => [OrderTerm(second, true)]
  }

  function ForModel(orderBy: Option<OrderBy>, reverse: bool): seq<OrderTerm> {
    ByFields(if orderBy.Some? then Some(orderBy.value.field) else None, IdColumn, orderBy, reverse)
  }

  /** Whether a row must come before another one in a result that is ordered by these terms. */
  predicate Less(terms: seq<OrderTerm>, a: Row, b: Row) {
    && terms != []
    && var x, y := Cell(a, terms[0].column), Cell(b, terms[0].column);
       (if terms[0].descending then y < x else x < y) || (x == y && Less(terms[1..], a, b))
  }

  /** The natural order of rows: by the chosen column, and by id where that is the same. */
  predicate RanksBefore(orderBy: Option<OrderBy>, a: Row, b: Row) {
    var c := if orderBy.Some? then orderBy.value.field else IdColumn;
    if Cell(a, c) == Cell(b, c) then a.id < b.id
    else if SortOrderOf(orderBy).Ascending? then Cell(a, c) < Cell(b, c)
    else Cell(b, c) < Cell(a, c)
  }

  predicate Precedes(orderBy: Option<OrderBy>, reverse: bool, a: Row, b: Row) {
    if reverse then RanksBefore(orderBy, b, a) else RanksBefore(orderBy, a, b)
  }

  /** The terms give the natural order, or its reverse. */
  lemma {:induction false} OrderingMeans(orderBy: Option<OrderBy>, reverse: bool, a: Row, b: Row)
    ensures Less(ForModel(orderBy, reverse), a, b) <==> Precedes(orderBy, reverse, a, b)
  {
    var terms := ForModel(orderBy, reverse);
    LessByOne(terms[|terms| - 1], a, b);
    if |terms| == 2 {
      LessByTwo(terms[0], terms[1], a, b);
      assert terms == [terms[0], terms[1]];
    } else {
      assert terms == [terms[0]];
    }
    hide Less;
  }

  /** What one term says. */
  predicate TermLess(term: OrderTerm, a: Row, b: Row) {
    if term.descending then Cell(b, term.column) < Cell(a, term.column) else Cell(a, term.column) < Cell(b, term.column)
  }

  lemma {:induction false} LessByOne(term: OrderTerm, a: Row, b: Row)
    ensures Less([term], a, b) <==> TermLess(term, a, b)
  {
    assert [term][1..] == [];
  }

  lemma {:induction false} LessByTwo(first: OrderTerm, second: OrderTerm, a: Row, b: Row)
    ensures Less([first, second], a, b)
            <==> TermLess(first, a, b) || (Cell(a, first.column) == Cell(b, first.column) && TermLess(second, a, b))
  {
    LessByOne(second, a, b);
    assert [first, second][1..] == [second];
  }

  lemma {:induction false} RanksAreTotal(orderBy: Option<OrderBy>, reverse: bool, a: Row, b: Row, c: Row)
    ensures Precedes(orderBy, reverse, a, b) && Precedes(orderBy, reverse, b, c) ==> Precedes(orderBy, reverse, a, c)
    ensures !(Precedes(orderBy, reverse, a, b) && Precedes(orderBy, reverse, b, a))
    ensures a.id != b.id ==> Precedes(orderBy, reverse, a, b) || Precedes(orderBy, reverse, b, a)
  {
  }

  // ----- the cursors -----

  /** A value in a condition: a constant, or a cell of the row with a given id, if there is one. */
  datatype Operand = Constant(value: int) | CellOf(column: Column, id: int)

  datatype Condition =
    | NoCondition
    | Equals(column: Column, operand: Operand)
    | LessThan(column: Column, operand: Operand)
    | GreaterThan(column: Column, operand: Operand)
    | And(left: Condition, right: Condition)
    | Or(left: Condition, right: Condition)

  function FindRow(table: seq<Row>, id: int): (r: Option<Row>)
    ensures r.Some? ==> r.value in table && r.value.id == id
    ensures r.None? ==> forall x :: x in table ==> x.id != id
  {
    if table == [] then None else if table[0].id == id then Some(table[0]) else FindRow(table[1..], id)
  }

  /** The value of an operand; none stands for the null that an empty sub-select yields. */
  function Evaluate(table: seq<Row>, operand: Operand): Option<int> {
    match operand
    case Constant(v) => Some(v)
    case CellOf(c, id) =>
      var r :- FindRow(table, id);
      Some(Cell(r, c))
  }

  /** Whether a row is selected; no comparison with null selects one. */
  predicate Holds(table: seq<Row>, c: Condition, r: Row) {
    match c
    case NoCondition => true
    case Equals(column, operand) => Evaluate(table, operand) == Some(Cell(r, column))
    case LessThan(column, operand) => var v := Evaluate(table, operand); v.Some? && Cell(r, column) < v.value
    case GreaterThan(column, operand) => var v := Evaluate(table, operand); v.Some? && Cell(r, column) > v.value
    case And(left, right) => Holds(table, left, r) && Holds(table, right, r)
    case Or(left, right) => Holds(table, left, r) || Holds(table, right, r)
  }

  datatype CursorType = Before | After

  function CursorFor(field: Column, order: SortOrder, cursor: CursorType, id: int): Condition {
    var select := CellOf(field, id);
    match (cursor, order)
    case (Before, Ascending) => Or(And(Equals(field, select), LessThan(IdColumn, Constant(id))), LessThan(field, select))
    case (Before, Descending) => Or(And(Equals(field, select), LessThan(IdColumn, Constant(id))), GreaterThan(field, select))
    case (After, Ascending) => Or(And(Equals(field, select), GreaterThan(IdColumn, Constant(id))), GreaterThan(field, select))
    case (After, Descending) => Or(And(Equals(field, select), GreaterThan(IdColumn, Constant(id))), LessThan(field, select))
  }

  function CursorCondition(args: Arguments): Condition {
    if args.before.None? && args.after.None? then NoCondition
    else
      var field := if args.orderBy.Some? then args.orderBy.value.field else IdColumn;
      var order := SortOrderOf(args.orderBy);
      And(if args.after.Some? then CursorFor(field, order, After, args.after.value) else NoCondition,
          if args.before.Some? then CursorFor(field, order, Before, args.before.value) else NoCondition)
  }

  /** A row lies strictly between the cursors of a query, each of which is a row. */
  predicate BetweenCursors(table: seq<Row>, args: Arguments, r: Row) {
    && (args.after.Some? ==> var c := FindRow(table, args.after.value); c.Some? && RanksBefore(args.orderBy, c.value, r))
    && (args.before.Some? ==> var c := FindRow(table, args.before.value); c.Some? && RanksBefore(args.orderBy, r, c.value))
  }

  /** The cursor condition selects the rows strictly between the cursors, and none if a cursor is not a row. */
  lemma {:induction false} CursorsMean(table: seq<Row>, args: Arguments, r: Row)
    ensures Holds(table, CursorCondition(args), r) <==> BetweenCursors(table, args, r)
  {
    if args.after.Some? {
      CursorMeans(table, args.orderBy, After, args.after.value, r);
    }
    if args.before.Some? {
      CursorMeans(table, args.orderBy, Before, args.before.value, r);
    }
  }

  lemma {:induction false} CursorMeans(table: seq<Row>, orderBy: Option<OrderBy>, cursor: CursorType, id: int, r: Row)
    ensures var field := if orderBy.Some? then orderBy.value.field else IdColumn;
            var c := FindRow(table, id);
            Holds(table, CursorFor(field, SortOrderOf(orderBy), cursor, id), r)
            <==> c.Some? && if cursor.After? then RanksBefore(orderBy, c.value, r) else RanksBefore(orderBy, r, c.value)
  {
    var field := if orderBy.Some? then orderBy.value.field else IdColumn;
    var select := CellOf(field, id);
    var condition := CursorFor(field, SortOrderOf(orderBy), cursor, id);
    assert Holds(table, condition, r) <==> Holds(table, condition.left, r) || Holds(table, condition.right, r);
    assert Holds(table, condition.left, r) <==> Holds(table, condition.left.left, r) && Holds(table, condition.left.right, r);
    assert Evaluate(table, Constant(id)) == Some(id);
  }

  // ----- what is fetched -----

  function Filter(p: Row -> bool, rows: seq<Row>): seq<Row> {
    if rows == [] then [] else (if p(rows[0]) then [rows[0]] else []) + Filter(p, rows[1..])
  }

  function Insert(terms: seq<OrderTerm>, r: Row, rows: seq<Row>): seq<Row> {
    if rows == [] then [r]
    else if Less(terms, rows[0], r) then [rows[0]] + Insert(terms, r, rows[1..])
    else [r] + rows
  }

  /** The rows of a result in the order that the terms ask for. */
  function Ordered(terms: seq<OrderTerm>, rows: seq<Row>): seq<Row> {
    if rows == [] then [] else Insert(terms, rows[0], Ordered(terms, rows[1..]))
  }

  datatype SkipLimit = SkipLimit(skip: nat, limit: Option<nat>)

  function Count(args: Arguments): Option<nat> {
    if args.last.Some? then args.last else args.first
  }

  function Skipped(args: Arguments): nat {
    if args.skip.Some? then args.skip.value else 0
  }

  function SkipAndLimit(args: Arguments): SkipLimit {
    SkipLimit(Skipped(args), if Count(args).Some? then Some(Count(args).value + 1) else None)
  }

  function Min(a: int, b: int): int {
    if a < b then a else b
  }

  function Limited(rows: seq<Row>, limits: SkipLimit): seq<Row> {
    var skip := Min(limits.skip, |rows|);
    var rest := rows[skip..];
    if limits.limit.Some? then rest[..Min(limits.limit.value, |rest|)] else rest
  }

  /** The rows that the database returns, of those a filter admits. */
  function Fetched(table: seq<Row>, admits: Row -> bool, args: Arguments): seq<Row> {
    var cursor := CursorCondition(args);
    var rows := Filter(r => admits(r) && Holds(table, cursor, r), table);
    Limited(Ordered(ForModel(args.orderBy, args.last.Some?), rows), SkipAndLimit(args))
  }

  function Reversed(rows: seq<Row>): (r: seq<Row>)
    ensures |r| == |rows|
    ensures forall i :: 0 <= i < |rows| ==> r[i] == rows[|rows| - 1 - i]
  {
    if rows == [] then [] else Reversed(rows[1..]) + [rows[0]]
  }

  /** What is left once the row that only tells whether there are more is dropped. */
  function Trimmed(rows: seq<Row>, args: Arguments): seq<Row> {
    var data := if args.last.Some? then Reversed(rows) else rows;
    if args.first.Some? && |data| > args.first.value then data[..|data| - 1]
    else if args.last.Some? && |data| > args.last.value then data[1..]
    else data
  }

  function Answer(table: seq<Row>, admits: Row -> bool, args: Arguments): seq<Row> {
    Trimmed(Fetched(table, admits, args), args)
  }

  // ----- what is asked for -----

  ghost predicate UniqueIds(rows: seq<Row>) {
    forall i, j :: 0 <= i < j < |rows| ==> rows[i].id != rows[j].id
  }

  /** A listing of a set of rows in the natural order, or the reverse of it. */
  ghost predicate Listing(orderBy: Option<OrderBy>, reverse: bool, list: seq<Row>, rows: iset<Row>) {
    && (forall i, j :: 0 <= i < j < |list| ==> Precedes(orderBy, reverse, list[i], list[j]))
    && (forall r :: r in list <==> r in rows)
  }

  /** The rows that a query is about: those the filter admits strictly between the cursors. */
  ghost function Window(table: seq<Row>, admits: Row -> bool, args: Arguments): iset<Row> {
    iset r | r in table && admits(r) && BetweenCursors(table, args, r)
  }

  /** The part of a listing that is asked for; `last` counts, and skips, from the end. */
  function Requested(list: seq<Row>, args: Arguments): seq<Row> {
    var skip := Min(Skipped(args), |list|);
    if args.last.Some? then
      var rest := list[..|list| - skip];
      rest[|rest| - Min(args.last.value, |rest|)..]
    else
      var rest := list[skip..];
      rest[..if args.first.Some? then Min(args.first.value, |rest|) else |rest|]
  }

  // ----- listings -----

  ghost function RowsOf(rows: seq<Row>): iset<Row> {
    iset r | r in rows
  }

  /** A set of rows has one listing. */
  lemma {:induction false} ListingIsUnique(orderBy: Option<OrderBy>, reverse: bool, s: seq<Row>, t: seq<Row>, rows: iset<Row>)
    requires Listing(orderBy, reverse, s, rows) && Listing(orderBy, reverse, t, rows)
    ensures s == t
  {
    hide Precedes;
    if s == [] && t != [] {
      FirstsAgree(orderBy, reverse, t, s, rows);
    } else if s != [] {
      FirstsAgree(orderBy, reverse, s, t, rows);
      ListingTail(orderBy, reverse, s, rows);
      ListingTail(orderBy, reverse, t, rows);
      ListingIsUnique(orderBy, reverse, s[1..], t[1..], rows - iset{s[0]});
      assert s == [s[0]] + s[1..] && t == [t[0]] + t[1..];
    }
  }

  lemma {:induction false} FirstsAgree(orderBy: Option<OrderBy>, reverse: bool, s: seq<Row>, t: seq<Row>, rows: iset<Row>)
    requires Listing(orderBy, reverse, s, rows) && Listing(orderBy, reverse, t, rows) && s != []
    ensures t != [] && s[0] == t[0]
  {
    hide Precedes;
    assert s[0] in rows;
    assert t[0] in rows;
    var k :| 0 <= k < |t| && t[k] == s[0];
    var j :| 0 <= j < |s| && s[j] == t[0];
    RanksAreTotal(orderBy, reverse, s[0], t[0], s[0]);
  }

  lemma {:induction false} ListingTail(orderBy: Option<OrderBy>, reverse: bool, s: seq<Row>, rows: iset<Row>)
    requires Listing(orderBy, reverse, s, rows) && s != []
    ensures Listing(orderBy, reverse, s[1..], rows - iset{s[0]})
  {
    hide Precedes;
    assert s == [s[0]] + s[1..];
    RanksAreTotal(orderBy, reverse, s[0], s[0], s[0]);
    forall r
      ensures r in s[1..] <==> r in rows - iset{s[0]}
    {
      if r in s[1..] {
        var i :| 0 <= i < |s[1..]| && s[1..][i] == r;
        assert s[i + 1] == r && Precedes(orderBy, reverse, s[0], s[i + 1]);
      }
    }
  }

  /** A listing is extended by a row that precedes all of it. */
  lemma {:induction false} ListingHead(orderBy: Option<OrderBy>, reverse: bool, r: Row, s: seq<Row>)
    requires Listing(orderBy, reverse, s, RowsOf(s)) && forall x :: x in s ==> Precedes(orderBy, reverse, r, x)
    ensures Listing(orderBy, reverse, [r] + s, RowsOf([r] + s))
  {
    hide Precedes;
  }

  lemma {:induction false} InsertedIsListing(orderBy: Option<OrderBy>, reverse: bool, r: Row, s: seq<Row>)
    requires Listing(orderBy, reverse, s, RowsOf(s)) && forall x :: x in s ==> x.id != r.id
    ensures var t := Insert(ForModel(orderBy, reverse), r, s);
            Listing(orderBy, reverse, t, RowsOf(t)) && RowsOf(t) == RowsOf([r] + s)
  {
    hide Precedes, Less, ForModel;
    var terms := ForModel(orderBy, reverse);
    if s != [] {
      assert s == [s[0]] + s[1..];
      OrderingMeans(orderBy, reverse, s[0], r);
      ListingTail(orderBy, reverse, s, RowsOf(s));
      assert RowsOf(s[1..]) == RowsOf(s) - iset{s[0]};
      if Less(terms, s[0], r) {
        InsertedIsListing(orderBy, reverse, r, s[1..]);
        var t := Insert(terms, r, s[1..]);
        forall x | x in t
          ensures Precedes(orderBy, reverse, s[0], x)
        {
          assert x in RowsOf([r] + s[1..]);
        }
        ListingHead(orderBy, reverse, s[0], t);
        SwapHeads(s[0], r, s[1..], t);
      } else {
        RanksAreTotal(orderBy, reverse, s[0], r, r);
        forall x | x in s
          ensures Precedes(orderBy, reverse, r, x)
        {
          RanksAreTotal(orderBy, reverse, r, s[0], x);
        }
        ListingHead(orderBy, reverse, r, s);
      }
    }
  }

  lemma {:induction false} SwapHeads(a: Row, b: Row, s: seq<Row>, t: seq<Row>)
    requires RowsOf(t) == RowsOf([b] + s)
    ensures RowsOf([a] + t) == RowsOf([b] + ([a] + s))
  {
    forall x
      ensures x in [a] + t <==> x in [b] + ([a] + s)
    {
      assert x in t <==> x in RowsOf(t);
      assert x in [b] + s <==> x in RowsOf([b] + s);
    }
  }

  /** An ordered result is a listing of its rows. */
  lemma {:induction false} OrderedIsListing(orderBy: Option<OrderBy>, reverse: bool, rows: seq<Row>)
    requires UniqueIds(rows)
    ensures Listing(orderBy, reverse, Ordered(ForModel(orderBy, reverse), rows), RowsOf(rows))
  {
    hide Precedes, Less, ForModel;
    var terms := ForModel(orderBy, reverse);
    if rows != [] {
      OrderedIsListing(orderBy, reverse, rows[1..]);
      var t := Ordered(terms, rows[1..]);
      assert RowsOf(t) == RowsOf(rows[1..]);
      InsertedIsListing(orderBy, reverse, rows[0], t);
      assert rows == [rows[0]] + rows[1..];
      assert RowsOf([rows[0]] + t) == RowsOf(rows) by {
        forall x
          ensures x in [rows[0]] + t <==> x in rows
        {
          assert x in t <==> x in RowsOf(t);
          assert x in rows[1..] <==> x in RowsOf(rows[1..]);
        }
      }
    }
  }

  lemma {:induction false} ReversedIsListing(orderBy: Option<OrderBy>, s: seq<Row>, rows: iset<Row>)
    requires Listing(orderBy, true, s, rows)
    ensures Listing(orderBy, false, Reversed(s), rows)
  {
    hide RanksBefore;
    var t := Reversed(s);
    forall r
      ensures r in t <==> r in s
    {
      if r in s {
        var i :| 0 <= i < |s| && s[i] == r;
        assert t[|s| - 1 - i] == r;
      }
    }
  }

  lemma {:induction false} Filtered(p: Row -> bool, rows: seq<Row>)
    ensures forall r :: r in Filter(p, rows) <==> r in rows && p(r)
    ensures UniqueIds(rows) ==> UniqueIds(Filter(p, rows))
  {
    if rows != [] {
      Filtered(p, rows[1..]);
      assert rows == [rows[0]] + rows[1..];
      var rest := Filter(p, rows[1..]);
      if UniqueIds(rows) && p(rows[0]) {
        forall x | x in rest
          ensures x.id != rows[0].id
        {
          assert x in rows[1..];
        }
        assert Filter(p, rows) == [rows[0]] + rest;
      }
    }
  }

  // ----- slices -----

  /** Whether the count that is asked for is the one that is trimmed to. */
  predicate TrimsRight(n: nat, args: Arguments) {
    || args.first.None? || args.last.None? || args.last.value == 0
    || args.last.value < args.first.value || n <= args.first.value + Skipped(args)
  }

  lemma {:induction false} FirstIsSlice(list: seq<Row>, args: Arguments)
    requires args.last.None?
    ensures Trimmed(Limited(list, SkipAndLimit(args)), args) == Requested(list, args)
  {
  }

  /** What a limited reversed listing is, read in the natural order. */
  lemma {:induction false} ReversedLimited(list: seq<Row>, limits: SkipLimit)
    requires limits.limit.Some?
    ensures var end := |list| - Min(limits.skip, |list|);
            Reversed(Limited(Reversed(list), limits)) == list[end - Min(limits.limit.value, end)..end]
  {
  }

  /** Where a `last` cuts a listing of n rows. */
  function LastStart(n: nat, args: Arguments, count: nat): nat {
    LastEnd(n, args) - Min(count, LastEnd(n, args))
  }

  function LastEnd(n: nat, args: Arguments): nat {
    n - Min(Skipped(args), n)
  }

  lemma {:induction false} LastIsTrimmed(list: seq<Row>, args: Arguments)
    requires args.last.Some?
    ensures Trimmed(Limited(Reversed(list), SkipAndLimit(args)), args)
            == TrimmedFromEnd(list[LastStart(|list|, args, args.last.value + 1)..LastEnd(|list|, args)], args.first, args.last.value)
  {
    ReversedLimited(list, SkipAndLimit(args));
    hide Limited, Min;
  }

  lemma {:induction false} LastIsRequested(list: seq<Row>, args: Arguments)
    requires args.last.Some?
    ensures Requested(list, args) == list[LastStart(|list|, args, args.last.value)..LastEnd(|list|, args)]
  {
  }

  lemma {:induction false} LastIsSliceIff(list: seq<Row>, args: Arguments)
    requires args.last.Some? && forall i, j :: 0 <= i < j < |list| ==> list[i] != list[j]
    ensures Trimmed(Limited(Reversed(list), SkipAndLimit(args)), args) == Requested(list, args) <==> TrimsRight(|list|, args)
  {
    hide Trimmed, Limited, Reversed, Requested, TrimmedFromEnd;
    LastIsTrimmed(list, args);
    LastIsRequested(list, args);
    var end := LastEnd(|list|, args);
    TrimmedFromEndIff(list, LastStart(|list|, args, args.last.value + 1), end, args.first, args.last.value);
  }

  /** Trimming for `last`, of rows in the natural order. */
  function TrimmedFromEnd(data: seq<Row>, first: Option<nat>, last: nat): seq<Row> {
    if first.Some? && |data| > first.value then data[..|data| - 1]
    else if |data| > last then data[1..]
    else data
  }

  lemma {:induction false} TrimmedFromEndIff(list: seq<Row>, start: nat, end: nat, first: Option<nat>, last: nat)
    requires end <= |list| && start == end - Min(last + 1, end)
    requires forall i, j :: 0 <= i < j < |list| ==> list[i] != list[j]
    ensures TrimmedFromEnd(list[start..end], first, last) == list[end - Min(last, end)..end]
            <==> first.None? || last == 0 || last < first.value || end <= first.value
  {
    var data, wanted := list[start..end], list[end - Min(last, end)..end];
    if first.Some? && |data| > first.value {
      assert TrimmedFromEnd(data, first, last) == data[..|data| - 1];
      if |data| == last + 1 && last > 0 {
        assert data[0] == list[start] && wanted[0] == list[start + 1];
        assert data[..|data| - 1] != wanted;
      } else if |data| <= last {
        assert |wanted| == |data|;
      }
    } else if |data| > last {
      assert data[1..] == wanted;
    }
  }

  /** The rows that a query is about, listed. */
  function Natural(table: seq<Row>, admits: Row -> bool, args: Arguments): seq<Row> {
    Ordered(ForModel(args.orderBy, false), Filter(r => admits(r) && BetweenCursors(table, args, r), table))
  }

  lemma {:induction false} NaturalIsListing(table: seq<Row>, admits: Row -> bool, args: Arguments)
    requires UniqueIds(table)
    ensures Listing(args.orderBy, false, Natural(table, admits, args), Window(table, admits, args))
  {
    hide Ordered, ForModel, BetweenCursors, Precedes;
    var p := r => admits(r) && BetweenCursors(table, args, r);
    Filtered(p, table);
    OrderedIsListing(args.orderBy, false, Filter(p, table));
    assert RowsOf(Filter(p, table)) == Window(table, admits, args);
  }

  /** Before skip and limit, the database has the rows that a query is about, in order or reversed. */
  lemma {:induction false} SelectedIsListing(table: seq<Row>, admits: Row -> bool, args: Arguments)
    requires UniqueIds(table)
    ensures var rows := Filter(r => admits(r) && Holds(table, CursorCondition(args), r), table);
            Listing(args.orderBy, args.last.Some?, Ordered(ForModel(args.orderBy, args.last.Some?), rows), Window(table, admits, args))
  {
    hide Ordered, ForModel, BetweenCursors, Precedes, Holds, CursorCondition;
    var p := r => admits(r) && Holds(table, CursorCondition(args), r);
    Filtered(p, table);
    OrderedIsListing(args.orderBy, args.last.Some?, Filter(p, table));
    forall r
      ensures r in Filter(p, table) <==> r in Window(table, admits, args)
    {
      CursorsMean(table, args, r);
    }
    assert RowsOf(Filter(p, table)) == Window(table, admits, args);
  }

  lemma {:induction false} ReversedTwice(s: seq<Row>)
    ensures Reversed(Reversed(s)) == s
  {
    assert forall i :: 0 <= i < |s| ==> Reversed(Reversed(s))[i] == s[i];
  }

  /**
    The answer is the requested slice of any natural listing of the rows strictly between the
    cursors, if and only if it is not cut by a `first` beside `last`.
   */
  lemma {:induction false} AnswerIsRequestedIff(table: seq<Row>, admits: Row -> bool, args: Arguments, list: seq<Row>)
    requires UniqueIds(table) && Listing(args.orderBy, false, list, Window(table, admits, args))
    ensures Answer(table, admits, args) == Requested(list, args) <==> TrimsRight(|list|, args)
  {
    hide Ordered, ForModel, Precedes, Holds, CursorCondition, Window, Requested, Trimmed, Limited, SkipAndLimit, Filter;
    var rows := Filter(r => admits(r) && Holds(table, CursorCondition(args), r), table);
    var sorted := Ordered(ForModel(args.orderBy, args.last.Some?), rows);
    SelectedIsListing(table, admits, args);
    assert Fetched(table, admits, args) == Limited(sorted, SkipAndLimit(args));
    if args.last.Some? {
      ReversedIsListing(args.orderBy, sorted, Window(table, admits, args));
      ListingIsUnique(args.orderBy, false, list, Reversed(sorted), Window(table, admits, args));
      ReversedTwice(sorted);
      ListedOnce(args.orderBy, list, Window(table, admits, args));
      LastIsSliceIff(list, args);
    } else {
      ListingIsUnique(args.orderBy, false, list, sorted, Window(table, admits, args));
      FirstIsSlice(list, args);
    }
  }

  lemma {:induction false} ListedOnce(orderBy: Option<OrderBy>, list: seq<Row>, rows: iset<Row>)
    requires Listing(orderBy, false, list, rows)
    ensures forall i, j :: 0 <= i < j < |list| ==> list[i] != list[j]
  {
    forall i, j | 0 <= i < j < |list|
      ensures list[i] != list[j]
    {
      assert Precedes(orderBy, false, list[i], list[j]);
    }
  }

  // ----- row numbers instead of offsets -----

  const WINDOW_END := 100_000_000

  /** The first and the last row number, counted from one, that a query asks for. */
  function WindowLimits(args: Arguments): (nat, nat) {
    var skip := Skipped(args) + 1;
    (skip, if Count(args).Some? then Count(args).value + skip else WINDOW_END)
  }

  function Numbered(rows: seq<Row>, limits: (nat, nat)): seq<Row> {
    var end := Min(limits.1, |rows|);
    if limits.0 <= end && limits.0 > 0 then rows[limits.0 - 1..end] else []
  }

  /** Both ways to cut a result fetch the same rows, unless it is cut at the last row number only. */
  lemma {:induction false} WindowFetchesAlikeIff(rows: seq<Row>, args: Arguments)
    ensures Numbered(rows, WindowLimits(args)) == Limited(rows, SkipAndLimit(args))
            <==> Count(args).Some? || |rows| <= WINDOW_END || |rows| <= Skipped(args)
  {
    var numbered, limited := Numbered(rows, WindowLimits(args)), Limited(rows, SkipAndLimit(args));
    if Count(args).None? && |rows| > WINDOW_END && |rows| > Skipped(args) {
      assert |limited| == |rows| - Skipped(args);
    }
  }

  /** A query without a limit for one row more than the window has numbers. */
  lemma {:induction false} WindowEndCutsRows()
    ensures var rows := seq(WINDOW_END + 1, i => Row(i, 0));
            var args := Arguments(None, None, None, None, None, None);
            Limited(rows, SkipAndLimit(args)) == rows && Numbered(rows, WindowLimits(args)) == rows[..WINDOW_END]
  {
    var rows := seq(WINDOW_END + 1, i => Row(i, 0));
    assert rows[0..] == rows;
  }

  // ----- page after page -----

  function PageArguments(orderBy: Option<OrderBy>, n: nat, cursor: Option<int>): Arguments {
    Arguments(None, cursor, Some(n), None, None, orderBy)
  }

  /** The rows that follow a cursor. */
  function Remaining(table: seq<Row>, admits: Row -> bool, orderBy: Option<OrderBy>, cursor: Option<int>): seq<Row> {
    Natural(table, admits, PageArguments(orderBy, 0, cursor))
  }

  /** A page is the start of the remaining rows, and its last row is the cursor to the rest. */
  lemma {:induction false} PageSplitsRemaining(table: seq<Row>, admits: Row -> bool, orderBy: Option<OrderBy>, n: nat, cursor: Option<int>)
    requires UniqueIds(table)
    ensures var rest := Remaining(table, admits, orderBy, cursor);
            var page := Answer(table, admits, PageArguments(orderBy, n, cursor));
            && page == rest[..Min(n, |rest|)]
            && (page != [] ==> Remaining(table, admits, orderBy, Some(page[|page| - 1].id)) == rest[|page|..])
  {
    hide Ordered, ForModel, Holds, CursorCondition, Filter, Trimmed, Limited, Fetched, BetweenCursors, Precedes, Natural;
    var args := PageArguments(orderBy, n, cursor);
    var rest := Remaining(table, admits, orderBy, cursor);
    assert Natural(table, admits, args) == rest by {
      SameWindow(table, admits, orderBy, n, cursor);
    }
    NaturalIsListing(table, admits, args);
    AnswerIsRequestedIff(table, admits, args, rest);
    var page := Answer(table, admits, args);
    assert page == rest[..Min(n, |rest|)];
    if page != [] {
      RestFollows(table, admits, orderBy, cursor, |page|);
    }
  }

  lemma {:induction false} SameWindow(table: seq<Row>, admits: Row -> bool, orderBy: Option<OrderBy>, n: nat, cursor: Option<int>)
    requires UniqueIds(table)
    ensures Natural(table, admits, PageArguments(orderBy, n, cursor)) == Remaining(table, admits, orderBy, cursor)
  {
    hide Ordered, ForModel, Filter, Natural, Precedes;
    var args, none := PageArguments(orderBy, n, cursor), PageArguments(orderBy, 0, cursor);
    NaturalIsListing(table, admits, args);
    NaturalIsListing(table, admits, none);
    assert Window(table, admits, args) == Window(table, admits, none);
    ListingIsUnique(orderBy, false, Natural(table, admits, args), Natural(table, admits, none), Window(table, admits, none));
  }

  /** The rows after the k-th remaining row are the remaining rows from there on. */
  lemma {:induction false} RestFollows(table: seq<Row>, admits: Row -> bool, orderBy: Option<OrderBy>, cursor: Option<int>, k: nat)
    requires UniqueIds(table)
    requires 0 < k <= |Remaining(table, admits, orderBy, cursor)|
    ensures var rest := Remaining(table, admits, orderBy, cursor);
            Remaining(table, admits, orderBy, Some(rest[k - 1].id)) == rest[k..]
  {
    hide Ordered, ForModel, Filter, Natural, Precedes, RanksBefore;
    var args := PageArguments(orderBy, 0, cursor);
    var rest := Remaining(table, admits, orderBy, cursor);
    NaturalIsListing(table, admits, args);
    var c := rest[k - 1];
    assert c in rest;
    RowFound(table, c);
    var next := PageArguments(orderBy, 0, Some(c.id));
    NaturalIsListing(table, admits, next);
    forall r
      ensures r in rest[k..] <==> r in Window(table, admits, next)
    {
      AfterIsLater(table, admits, orderBy, cursor, k, r);
    }
    assert Listing(orderBy, false, rest[k..], Window(table, admits, next));
    ListingIsUnique(orderBy, false, Natural(table, admits, next), rest[k..], Window(table, admits, next));
  }

  lemma {:induction false} RowFound(table: seq<Row>, r: Row)
    requires UniqueIds(table) && r in table
    ensures FindRow(table, r.id) == Some(r)
  {
    var i :| 0 <= i < |table| && table[i] == r;
    var f := FindRow(table, r.id);
    var j :| 0 <= j < |table| && table[j] == f.value;
  }

  lemma {:induction false} AfterIsLater(table: seq<Row>, admits: Row -> bool, orderBy: Option<OrderBy>, cursor: Option<int>, k: nat, r: Row)
    requires UniqueIds(table)
    requires 0 < k <= |Remaining(table, admits, orderBy, cursor)|
    ensures var rest := Remaining(table, admits, orderBy, cursor);
            r in rest[k..] <==> r in Window(table, admits, PageArguments(orderBy, 0, Some(rest[k - 1].id)))
  {
    hide Ordered, ForModel, Filter, Natural, RanksBefore;
    var args := PageArguments(orderBy, 0, cursor);
    var rest := Remaining(table, admits, orderBy, cursor);
    NaturalIsListing(table, admits, args);
    var c := rest[k - 1];
    assert c in rest;
    RowFound(table, c);
    if r in rest[k..] {
      var i :| k <= i < |rest| && rest[i] == r;
      assert Precedes(orderBy, false, rest[k - 1], rest[i]);
      assert r in rest;
    } else if r in Window(table, admits, PageArguments(orderBy, 0, Some(c.id))) {
      assert RanksBefore(orderBy, c, r);
      if cursor.Some? {
        RanksAreTotal(orderBy, false, FindRow(table, cursor.value).value, c, r);
      }
      assert r in Window(table, admits, args);
      var i :| 0 <= i < |rest| && rest[i] == r;
      assert i < k;
      RanksAreTotal(orderBy, false, c, r, c);
    }
  }

  /** All pages of n rows, each asked for after the last row of the one before. */
  function Pages(table: seq<Row>, admits: Row -> bool, orderBy: Option<OrderBy>, n: nat, cursor: Option<int>): seq<seq<Row>>
    requires UniqueIds(table) && n > 0
    decreases |Remaining(table, admits, orderBy, cursor)|
  {
    var page := Answer(table, admits, PageArguments(orderBy, n, cursor));
    if page == [] then []
    else
      PageSplitsRemaining(table, admits, orderBy, n, cursor);
      [page] + Pages(table, admits, orderBy, n, Some(page[|page| - 1].id))
  }

  function Concat(pages: seq<seq<Row>>): seq<Row> {
    if pages == [] then [] else pages[0] + Concat(pages[1..])
  }

  /** The pages are the remaining rows, cut into pieces of n. */
  lemma {:induction false} PagesAreRemaining(table: seq<Row>, admits: Row -> bool, orderBy: Option<OrderBy>, n: nat, cursor: Option<int>)
    requires UniqueIds(table) && n > 0
    ensures var pages := Pages(table, admits, orderBy, n, cursor);
            Concat(pages) == Remaining(table, admits, orderBy, cursor)
    decreases |Remaining(table, admits, orderBy, cursor)|
  {
    hide Remaining, Answer;
    PageSplitsRemaining(table, admits, orderBy, n, cursor);
    var rest := Remaining(table, admits, orderBy, cursor);
    var page := Answer(table, admits, PageArguments(orderBy, n, cursor));
    if page != [] {
      var next := Some(page[|page| - 1].id);
      PagesAreRemaining(table, admits, orderBy, n, next);
      var more := Pages(table, admits, orderBy, n, next);
      assert ([page] + more)[1..] == more;
      assert rest == page + rest[|page|..];
    }
  }

  /** Every page has n rows, but for the last one, which has some. */
  lemma {:induction false} PagesAreFull(table: seq<Row>, admits: Row -> bool, orderBy: Option<OrderBy>, n: nat, cursor: Option<int>, i: nat)
    requires UniqueIds(table) && n > 0 && i < |Pages(table, admits, orderBy, n, cursor)|
    ensures var pages := Pages(table, admits, orderBy, n, cursor);
            0 < |pages[i]| <= n && (i < |pages| - 1 ==> |pages[i]| == n)
    decreases |Remaining(table, admits, orderBy, cursor)|
  {
    hide Remaining, Answer;
    PageSplitsRemaining(table, admits, orderBy, n, cursor);
    var page := Answer(table, admits, PageArguments(orderBy, n, cursor));
    if page != [] {
      var next := Some(page[|page| - 1].id);
      if i > 0 {
        PagesAreFull(table, admits, orderBy, n, next, i - 1);
      } else if Pages(table, admits, orderBy, n, next) != [] {
        PageSplitsRemaining(table, admits, orderBy, n, next);
      }
    }
  }

  /** Paging through a table yields every row that the filter admits exactly once, in order. */
  lemma {:induction false} PagingEnumerates(table: seq<Row>, admits: Row -> bool, orderBy: Option<OrderBy>, n: nat)
    requires UniqueIds(table) && n > 0
    ensures Listing(orderBy, false, Concat(Pages(table, admits, orderBy, n, None)), iset r | r in table && admits(r))
    ensures var all := Concat(Pages(table, admits, orderBy, n, None)); forall i, j :: 0 <= i < j < |all| ==> all[i] != all[j]
  {
    hide Pages, Natural, Precedes, Ordered, Concat;
    PagesAreRemaining(table, admits, orderBy, n, None);
    var args := PageArguments(orderBy, 0, None);
    NaturalIsListing(table, admits, args);
    assert Window(table, admits, args) == iset r | r in table && admits(r);
    ListedOnce(orderBy, Concat(Pages(table, admits, orderBy, n, None)), iset r | r in table && admits(r));
  }

  /** A result that the database orders by the terms of a query, whichever way it sorts. */
  lemma {:induction false} AnySortIsOrdered(orderBy: Option<OrderBy>, reverse: bool, rows: seq<Row>, sorted: seq<Row>)
    requires UniqueIds(rows) && multiset(sorted) == multiset(rows)
    requires forall i, j :: 0 <= i < j < |sorted| ==> !Less(ForModel(orderBy, reverse), sorted[j], sorted[i])
    ensures sorted == Ordered(ForModel(orderBy, reverse), rows)
  {
    hide Precedes, Less, ForModel, Ordered;
    forall i, j | 0 <= i < j < |sorted|
      ensures Precedes(orderBy, reverse, sorted[i], sorted[j])
    {
      StillUnique(rows, sorted, i, j);
      OrderingMeans(orderBy, reverse, sorted[j], sorted[i]);
      RanksAreTotal(orderBy, reverse, sorted[i], sorted[j], sorted[i]);
    }
    forall r
      ensures r in sorted <==> r in rows
    {
      assert r in multiset(sorted) <==> r in multiset(rows);
    }
    OrderedIsListing(orderBy, reverse, rows);
    ListingIsUnique(orderBy, reverse, sorted, Ordered(ForModel(orderBy, reverse), rows), RowsOf(rows));
  }

  lemma {:induction false} StillUnique(rows: seq<Row>, sorted: seq<Row>, i: nat, j: nat)
    requires UniqueIds(rows) && multiset(sorted) == multiset(rows) && i < j < |sorted|
    ensures sorted[i].id != sorted[j].id
  {
    assert sorted[i] in multiset(rows) && sorted[j] in multiset(rows);
    var k :| 0 <= k < |rows| && rows[k] == sorted[i];
    var l :| 0 <= l < |rows| && rows[l] == sorted[j];
    if k == l {
      CountedTwice(sorted, i, j);
      CountedOnce(rows, k);
    }
  }

  lemma {:induction false} CountedTwice(s: seq<Row>, i: nat, j: nat)
    requires i < j < |s| && s[i] == s[j]
    ensures multiset(s)[s[i]] >= 2
  {
    assert s == s[..j] + s[j..] && s[i] in s[..j] && s[j] in s[j..];
    assert multiset(s) == multiset(s[..j]) + multiset(s[j..]);
  }

  lemma {:induction false} CountedOnce(rows: seq<Row>, k: nat)
    requires UniqueIds(rows) && k < |rows|
    ensures multiset(rows)[rows[k]] == 1
  {
    assert rows == rows[..k] + ([rows[k]] + rows[k + 1..]);
    assert multiset(rows) == multiset(rows[..k]) + (multiset{rows[k]} + multiset(rows[k + 1..]));
    assert rows[k] !in rows[..k] && rows[k] !in rows[k + 1..];
    assert rows[k] !in multiset(rows[..k]) && rows[k] !in multiset(rows[k + 1..]);
  }

  /** A `first` beside `last` can drop the row at the wrong end. */
  lemma {:induction false} FirstBesideLastIsWrong()
    ensures var table := [Row(1, 0), Row(2, 0), Row(3, 0)];
            var args := Arguments(None, None, Some(1), None, Some(2), None);
            Answer(table, r => true, args) != Requested(Natural(table, r => true, args), args)
  {
    var table := [Row(1, 0), Row(2, 0), Row(3, 0)];
    var args := Arguments(None, None, Some(1), None, Some(2), None);
    var admits := (r: Row) => true;
    NaturalIsListing(table, admits, args);
    var list := Natural(table, admits, args);
    var listed := Window(table, admits, args);
    assert table[0] in listed && table[1] in listed && table[2] in listed;
    hide Natural, Window, Answer, Requested;
    assert |list| >= 2 by {
      assert table[0] in list && table[1] in list;
    }
    AnswerIsRequestedIff(table, admits, args, list);
  }
}
