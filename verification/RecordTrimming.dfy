/** The fetched records of a list, trimmed in place. */
module RecordTrimming {
  import opened Pagination

  class Records {
    var data: seq<Row>

    constructor (rows: seq<Row>)
      ensures data == rows
    {
      data := rows;
    }

    method Reverse()
      modifies this
      ensures data == Reversed(old(data))
    {
      data := Reversed(data);
    }

    method DropRight(x: nat)
      requires x <= |data|
      modifies this
      ensures data == old(data)[..|old(data)| - x]
    {
      data := data[..|data| - x];
    }

    method DropLeft(x: nat)
      requires x <= |data|
      modifies this
      ensures data == old(data)[x..]
    {
      Reverse();
      DropRight(x);
      Reverse();
      assert forall i :: 0 <= i < |data| ==> data[i] == old(data)[x..][i];
    }

    method TrimRecords(args: Arguments)
      modifies this
      ensures data == Trimmed(old(data), args)
    {
      if args.last.Some? {
        Reverse();
      }
      if args.first.Some? && |data| > args.first.value {
        DropRight(1);
      } else if args.last.Some? && |data| > args.last.value {
        DropLeft(1);
      }
    }
  }

  /** Fetching and then trimming leaves the requested slice, under the exact condition for it. */
  method Paginate(table: seq<Row>, admits: Row -> bool, args: Arguments) returns (answer: seq<Row>)
    requires UniqueIds(table)
    ensures answer == Requested(Natural(table, admits, args), args) <==> TrimsRight(|Natural(table, admits, args)|, args)
  {
    hide Trimmed, Fetched, Natural, Requested, TrimsRight;
    var records := new Records(Fetched(table, admits, args));
    records.TrimRecords(args);
    answer := records.data;
    NaturalIsListing(table, admits, args);
    AnswerIsRequestedIff(table, admits, args, Natural(table, admits, args));
  }
}
