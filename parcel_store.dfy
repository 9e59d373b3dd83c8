/**
 `ParcelStore`, the data-access object over the `parcel` table. The database
 handle it wraps is replaced by the table it reaches, held in the field
 `table`; each method performs its one statement on that field in place and
 promises the new table the statement's meaning in module `Table` gives.
 */
module Store {
  import opened Table

  class ParcelStore {
    /** The rows of the `parcel` table, by number. */
    var table: Rows

    ghost predicate Valid()
      reads this
    {
      WellFormed(table)
    }

    /** `NewParcelStore(db)`: a store over a table that already holds `rows`. */
    constructor (rows: Rows)
      requires WellFormed(rows)
      ensures Valid()
      ensures table == rows
    {
      table := rows;
    }

    /** Inserts `p`'s client, status, address and creation time as a new row
        and returns the number the engine assigned to it: nonzero and not used
        by any earlier row. Which fresh number is chosen is left open. */
    method Add(p: Parcel) returns (id: int)
      requires Valid()
      modifies this
      ensures Valid()
      ensures id != 0 && id !in old(table)
      ensures table == Inserted(old(table), p, id)
    {
      FreshNumberExists(table);
      id :| id != 0 && id !in table;
      table := Inserted(table, p, id);
    }

    /** Reads the row with the given number, or reports "no rows". */
    method Get(number: int) returns (r: Result<Parcel>)
      requires Valid()
      ensures r == Lookup(table, number)
      ensures r.Ok? <==> number in table
      ensures r.Ok? ==> r.value == table[number] && r.value.number == number
      ensures r.Err? ==> r.error == NoRows
    {
      if number in table {
        r := Ok(table[number]);
      } else {
        r := Err(NoRows);
      }
    }

    /** Reads every row of the given client, each once, in an order the
        engine chooses; no matching row gives the empty sequence. */
    method GetByClient(client: int) returns (res: seq<Parcel>)
      requires Valid()
      ensures forall p :: p in res <==> p in ClientRows(table, client)
      ensures forall p :: p in res <==> p.number in table && table[p.number] == p && p.client == client
      ensures forall i, j :: 0 <= i < j < |res| ==> res[i].number != res[j].number
      ensures |res| == |ClientRows(table, client)|
    {
      // the rows the query selects, not yet scanned
      var pending := ClientNumbers(table, client);
      res := [];
      while pending != {}
        invariant pending <= ClientNumbers(table, client)
        invariant Numbers(res) !! pending
        invariant Numbers(res) + pending == ClientNumbers(table, client)
        invariant forall p :: p in res ==> p.number in table && table[p.number] == p
        invariant forall i, j :: 0 <= i < j < |res| ==> res[i].number != res[j].number
        invariant |res| + |pending| == |ClientNumbers(table, client)|
        decreases |pending|
      {
        Inhabited(pending);
        var n :| n in pending;
        res := res + [table[n]];
        pending := pending - {n};
      }
      ClientRowsExact(table, client);
      forall p: Parcel | p.number in table && table[p.number] == p && p.client == client
        ensures p in res
      {
        assert p.number in Numbers(res);
        var q :| q in res && q.number == p.number;
      }
      forall p | p in res
        ensures p.client == client
      {
        assert p.number in Numbers(res);
      }
    }

    /** Overwrites the status of the row with that number, whatever its
        current status; nothing else changes, and a missing row is no error. */
    method SetStatus(number: int, status: string)
      requires Valid()
      modifies this
      ensures Valid()
      ensures table == StatusSet(old(table), number, status)
    {
      if number in table {
        table := table[number := table[number].(status := status)];
      }
    }

    /** Overwrites the address of the row with that number only while it is
        registered; otherwise the call changes nothing and is still no error. */
    method SetAddress(number: int, address: string)
      requires Valid()
      modifies this
      ensures Valid()
      ensures table == AddressSet(old(table), number, address)
    {
      if number in table && table[number].status == Registered {
        table := table[number := table[number].(address := address)];
      }
    }

    /** Removes the row with that number only while it is registered;
        otherwise the call changes nothing and is still no error. */
    method Delete(number: int)
      requires Valid()
      modifies this
      ensures Valid()
      ensures table == Deleted(old(table), number)
    {
      if number in table && table[number].status == Registered {
        table := table - {number};
      }
    }
  }
}
