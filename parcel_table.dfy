/**
 The `parcel` table behind `ParcelStore`, as a value: a finite map from a
 parcel's `number` (the primary key) to the row stored under it.

 Each SQL statement issued by the store is given here a meaning of its own,
 written the way the statement reads: an `UPDATE ... SET f = v WHERE cond`
 rewrites the field `f` of every row satisfying `cond` and keeps every other
 row, a `DELETE ... WHERE cond` keeps exactly the rows not satisfying `cond`,
 and a `SELECT ... WHERE cond` yields the rows satisfying it. The lemmas of
 this module state what these statements promise the store's callers.
 */
module Table {

  /** One row of the `parcel` table. */
  datatype Parcel = Parcel(
    number: int,
    client: int,
    status: string,
    address: string,
    createdAt: string)

  /** The status a parcel is registered with; the only status under which its
      address may change and it may be deleted. */
  const Registered: string := "registered"

  /** The status of a parcel that has been dispatched. */
  const Sent: string := "sent"

  /** The error a point lookup reports when no row has the requested number. */
  datatype StoreError = NoRows

  datatype Result<T> = Ok(value: T) | Err(error: StoreError)

  type Rows = map<int, Parcel>

  /** Every row is stored under its own number. */
  ghost predicate WellFormed(t: Rows)
  {
    forall n :: n in t ==> t[n].number == n
  }

  /** The guard `status = 'registered'` of the address update and the delete. */
  predicate Editable(p: Parcel)
  {
    p.status == Registered
  }

  // ---------------------------------------------------------------------------
  // Meaning of the statements
  // ---------------------------------------------------------------------------

  /** `INSERT INTO parcel (client, status, address, created_at) VALUES ...`
      under the number `id` the engine assigned: the caller's `number` is not
      among the inserted columns. */
  function Inserted(t: Rows, p: Parcel, id: int): Rows
  {
    t[id := Parcel(id, p.client, p.status, p.address, p.createdAt)]
  }

  /** `SELECT ... WHERE number = :number` followed by one `Scan`: the row, or
      the "no rows" error when nothing matched. */
  function Lookup(t: Rows, number: int): Result<Parcel>
  {
    if number in t then Ok(t[number]) else Err(NoRows)
  }

  /** The numbers of the rows `SELECT ... WHERE client = :client` yields. */
  function ClientNumbers(t: Rows, client: int): set<int>
  {
    set n | n in t && t[n].client == client
  }

  /** The rows `SELECT ... WHERE client = :client` yields. */
  function ClientRows(t: Rows, client: int): set<Parcel>
  {
    set n | n in t && t[n].client == client :: t[n]
  }

  /** `UPDATE parcel SET status = :status WHERE number = :number`. */
  function StatusSet(t: Rows, number: int, status: string): Rows
  {
    map n | n in t :: if n == number then t[n].(status := status) else t[n]
  }

  /** `UPDATE parcel SET address = :address WHERE number = :number AND status = 'registered'`. */
  function AddressSet(t: Rows, number: int, address: string): Rows
  {
    map n | n in t :: if n == number && Editable(t[n]) then t[n].(address := address) else t[n]
  }

  /** `DELETE FROM parcel WHERE number = :number AND status = 'registered'`. */
  function Deleted(t: Rows, number: int): Rows
  {
    map n | n in t && !(n == number && Editable(t[n])) :: t[n]
  }

  /** The numbers of a sequence of rows. */
  ghost function Numbers(s: seq<Parcel>): set<int>
  {
    set p | p in s :: p.number
  }

  // ---------------------------------------------------------------------------
  // Key allocation
  // ---------------------------------------------------------------------------

  /** A non-empty set has a member. */
  lemma Inhabited(s: set<int>)
    requires s != {}
    ensures exists x :: x in s
  {
    if forall x :: x !in s {
      assert false;
    }
  }

  /** A non-negative number no smaller than any key in `keys`. */
  ghost function UpperBound(keys: set<int>): (m: int)
    ensures m >= 0
    ensures forall k :: k in keys ==> k <= m
    decreases keys
  {
    if keys == {} then 0
    else
      Inhabited(keys);
      var k :| k in keys;
      var rest := UpperBound(keys - {k});
      assert forall j :: j in keys ==> j == k || j in keys - {k};
      if k > rest then k else rest
  }

  /** There is always a nonzero number that no row uses yet, so an insert can
      always be given a fresh key. */
  lemma FreshNumberExists(t: Rows)
    ensures exists id :: id != 0 && id !in t
  {
    var id := UpperBound(t.Keys) + 1;
    assert id != 0 && id !in t;
  }

  // ---------------------------------------------------------------------------
  // Add
  // ---------------------------------------------------------------------------

  /** An insert under a fresh number adds exactly one row, carrying the
      caller's client, status, address and creation time, and leaves every
      existing row as it was. */
  lemma InsertAddsOneRow(t: Rows, p: Parcel, id: int)
    requires id !in t
    ensures Inserted(t, p, id).Keys == t.Keys + {id}
    ensures |Inserted(t, p, id)| == |t| + 1
    ensures Inserted(t, p, id)[id] == p.(number := id)
    ensures forall n :: n in t ==> Inserted(t, p, id)[n] == t[n]
  {
  }

  /** After an insert under `id`, looking `id` up finds the inserted parcel
      with its number set to `id`. */
  lemma AddGetRoundTrip(t: Rows, p: Parcel, id: int)
    ensures Lookup(Inserted(t, p, id), id) == Ok(p.(number := id))
  {
  }

  // ---------------------------------------------------------------------------
  // Get
  // ---------------------------------------------------------------------------

  /** A lookup succeeds exactly when a row has the number, and then yields
      that row, whose number is the one asked for; otherwise it reports
      "no rows". */
  lemma LookupExact(t: Rows, number: int)
    requires WellFormed(t)
    ensures Lookup(t, number).Ok? <==> number in t
    ensures Lookup(t, number).Ok? ==> Lookup(t, number).value == t[number]
                                      && Lookup(t, number).value.number == number
    ensures number !in t ==> Lookup(t, number) == Err(NoRows)
  {
  }

  // ---------------------------------------------------------------------------
  // GetByClient
  // ---------------------------------------------------------------------------

  /** The rows selected for a client are exactly the stored rows with that
      client, and there are as many of them as there are matching numbers. */
  lemma ClientRowsExact(t: Rows, client: int)
    requires WellFormed(t)
    ensures forall p :: p in ClientRows(t, client) <==>
                        p.number in t && t[p.number] == p && p.client == client
    ensures |ClientRows(t, client)| == |ClientNumbers(t, client)|
  {
    var numbers := ClientNumbers(t, client);
    var rows := ClientRows(t, client);
    assert rows == set n | n in numbers :: t[n];
    ImageCardinality(t, numbers);
  }

  /** On a well-formed table, the rows of a set of numbers are as many as the
      numbers: distinct keys carry distinct rows. */
  lemma {:induction false} ImageCardinality(t: Rows, numbers: set<int>)
    requires WellFormed(t)
    requires numbers <= t.Keys
    ensures |set n | n in numbers :: t[n]| == |numbers|
    decreases numbers
  {
    if numbers != {} {
      Inhabited(numbers);
      var k :| k in numbers;
      var rest := numbers - {k};
      ImageCardinality(t, rest);
      var restRows := set n | n in rest :: t[n];
      assert (set n | n in numbers :: t[n]) == restRows + {t[k]};
      assert t[k] !in restRows;
    }
  }

  /** Adding a parcel adds it to its own client's selection and to no other. */
  lemma InsertGroupsByClient(t: Rows, p: Parcel, id: int, client: int)
    requires id !in t
    ensures ClientRows(Inserted(t, p, id), client) ==
            ClientRows(t, client) + (if p.client == client then {p.(number := id)} else {})
  {
    var t' := Inserted(t, p, id);
    forall q | q in ClientRows(t', client)
      ensures q in ClientRows(t, client) + (if p.client == client then {p.(number := id)} else {})
    {
      var n :| n in t' && t'[n].client == client && t'[n] == q;
      if n != id {
        assert n in t && t[n].client == client;
      }
    }
    forall q | q in ClientRows(t, client)
      ensures q in ClientRows(t', client)
    {
      var n :| n in t && t[n].client == client && t[n] == q;
      assert n != id && t'[n] == q;
    }
    if p.client == client {
      assert t'[id] == p.(number := id);
    }
  }

  // ---------------------------------------------------------------------------
  // SetStatus
  // ---------------------------------------------------------------------------

  /** A status update rewrites the status of the row with that number,
      whatever its current status, and nothing else; it changes nothing when
      no row has the number. */
  lemma StatusSetNarrow(t: Rows, number: int, status: string)
    ensures StatusSet(t, number, status).Keys == t.Keys
    ensures number in t ==> StatusSet(t, number, status)[number] == t[number].(status := status)
    ensures forall n :: n in t && n != number ==> StatusSet(t, number, status)[n] == t[n]
    ensures number !in t ==> StatusSet(t, number, status) == t
  {
  }

  /** After a status update, looking the row up shows the new status and its
      other fields unchanged. */
  lemma StatusSetThenGet(t: Rows, number: int, status: string)
    requires number in t
    ensures Lookup(StatusSet(t, number, status), number) == Ok(t[number].(status := status))
  {
  }

  // ---------------------------------------------------------------------------
  // SetAddress
  // ---------------------------------------------------------------------------

  /** An address update rewrites the address of the row with that number
      when, and only when, that row is registered; in every other case the
      table is unchanged. */
  lemma AddressSetGuarded(t: Rows, number: int, address: string)
    ensures AddressSet(t, number, address).Keys == t.Keys
    ensures number in t && Editable(t[number]) ==>
              AddressSet(t, number, address)[number] == t[number].(address := address)
    ensures !(number in t && Editable(t[number])) ==> AddressSet(t, number, address) == t
    ensures forall n :: n in t && n != number ==> AddressSet(t, number, address)[n] == t[n]
  {
  }

  /** The address update changes the table if and only if the row exists, is
      registered and had a different address. */
  lemma AddressSetChangesIff(t: Rows, number: int, address: string)
    ensures AddressSet(t, number, address) != t <==>
              number in t && Editable(t[number]) && t[number].address != address
  {
  }

  // ---------------------------------------------------------------------------
  // Delete
  // ---------------------------------------------------------------------------

  /** A delete removes the row with that number when, and only when, it is
      registered; no other row is ever removed or changed. */
  lemma DeleteGuarded(t: Rows, number: int)
    ensures number in t && Editable(t[number]) ==> Deleted(t, number).Keys == t.Keys - {number}
    ensures !(number in t && Editable(t[number])) ==> Deleted(t, number) == t
    ensures forall n :: n in t && n != number ==> n in Deleted(t, number) && Deleted(t, number)[n] == t[n]
  {
  }

  /** Once a registered parcel is deleted, it can no longer be looked up. */
  lemma DeleteThenGetFails(t: Rows, number: int)
    requires number in t && Editable(t[number])
    ensures Lookup(Deleted(t, number), number) == Err(NoRows)
  {
  }

  // ---------------------------------------------------------------------------
  // The status guard
  // ---------------------------------------------------------------------------

  /** A parcel that is no longer registered keeps its address and cannot be
      deleted. */
  lemma UnregisteredIsFrozen(t: Rows, number: int, address: string)
    requires number in t && !Editable(t[number])
    ensures AddressSet(t, number, address) == t
    ensures Deleted(t, number) == t
  {
  }

  /** Once a parcel is marked sent, neither an address update nor a delete on
      it has any effect. */
  lemma SentBlocksAddressAndDelete(t: Rows, number: int, address: string)
    ensures AddressSet(StatusSet(t, number, Sent), number, address) == StatusSet(t, number, Sent)
    ensures Deleted(StatusSet(t, number, Sent), number) == StatusSet(t, number, Sent)
  {
  }

  // ---------------------------------------------------------------------------
  // Invariants every statement keeps
  // ---------------------------------------------------------------------------

  /** The fields no statement writes: for a row present before and after,
      its number, client and creation time are the same. */
  ghost predicate FixedFieldsKept(t: Rows, t': Rows)
  {
    forall n :: n in t && n in t' ==>
      t'[n].number == t[n].number && t'[n].client == t[n].client && t'[n].createdAt == t[n].createdAt
  }

  /** The updates keep the set of keys, the delete only shrinks it, the
      insert only grows it; none changes a stored row's number, client or
      creation time, and all keep every row under its own number. */
  lemma StatementsKeepFixedFields(t: Rows, number: int, s: string, p: Parcel, id: int)
    requires WellFormed(t)
    ensures StatusSet(t, number, s).Keys == t.Keys && FixedFieldsKept(t, StatusSet(t, number, s))
    ensures AddressSet(t, number, s).Keys == t.Keys && FixedFieldsKept(t, AddressSet(t, number, s))
    ensures Deleted(t, number).Keys <= t.Keys && FixedFieldsKept(t, Deleted(t, number))
    ensures id !in t ==> t.Keys <= Inserted(t, p, id).Keys && FixedFieldsKept(t, Inserted(t, p, id))
    ensures WellFormed(StatusSet(t, number, s)) && WellFormed(AddressSet(t, number, s))
    ensures WellFormed(Deleted(t, number)) && WellFormed(Inserted(t, p, id))
  {
  }
}
