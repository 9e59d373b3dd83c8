# Parcel store

A model of `ParcelStore`, the data-access object of a parcel tracker. The store
keeps parcel records in a relational table `parcel(number, client, status,
address, created_at)`, `number` being the primary key the database assigns on
insert. It offers six operations, one SQL statement each: `Add` (insert),
`Get` (point lookup by number), `GetByClient` (all parcels of a client),
`SetStatus` (unconditional status update), `SetAddress` (address update, only
while the parcel is `registered`) and `Delete` (delete, only while the parcel
is `registered`).

The project has two modules:

- `Table` (`parcel_table.dfy`) — the table as a value, `map<int, Parcel>` from
  number to row, and the meaning of each statement written as its SQL reads: an
  `UPDATE ... WHERE` as a map comprehension that rewrites the rows meeting the
  `WHERE` clause, a `DELETE ... WHERE` as one that keeps the rows not meeting
  it, a `SELECT ... WHERE` as a set comprehension. The lemmas state what the
  statements promise: one new row per insert under a fresh nonzero number, the
  insert/lookup round trip, exact filtering by client, the `registered` guard
  on address changes and deletion, and that no statement changes a row's
  number, client or creation time.
- `Store` (`parcel_store.dfy`) — class `ParcelStore`, whose field `table` is
  the table behind the database handle. Each method changes that field in
  place, as the statement does to the table, and its `ensures` ties the new
  table to the statement's meaning in `Table`. `Get` and `GetByClient` change
  nothing; `GetByClient` builds its result with a loop that appends one
  selected row at a time, as the source does while iterating over the query's
  rows.

The database engine's choice of the new number is a nondeterministic choice in
`Add` (any nonzero number not in use); the lemma `FreshNumberExists` shows such
a number always exists. The order in which `GetByClient` returns rows is the
engine's too; the model picks the next row arbitrarily and promises no order.

`Add` stores whatever status its argument carries (parcel.go:17-21), and so
does the model: nothing in the store makes a new parcel start as
`registered`, although the tests build their parcels that way
(parcel_test.go:28).

## Model

| member | source | states |
|---|---|---|
| `Table.Editable` | parcel.go:97-112 | the guard `status = 'registered'` shared by the address update and the delete, with the literal bound at parcel.go:100 and parcel.go:112 |
| `Table.Inserted` | parcel.go:17-21 | the meaning of the `INSERT`: a row under the engine's number holding the caller's client, status, address and creation time; the caller's number is not an inserted column |
| `Table.Lookup` | parcel.go:40-48 | the meaning of `SELECT ... WHERE number = :number` with one `Scan`: the row with that number, or "no rows" |
| `Table.ClientNumbers` | parcel.go:56 | the numbers of the rows `SELECT ... WHERE client = :client` yields |
| `Table.ClientRows` | parcel.go:56 | the rows `SELECT ... WHERE client = :client` yields |
| `Table.StatusSet` | parcel.go:84-86 | the meaning of `UPDATE parcel SET status = :status WHERE number = :number`: every row meeting the `WHERE` gets the status, every other row is kept |
| `Table.AddressSet` | parcel.go:97-100 | the meaning of `UPDATE parcel SET address = :address WHERE number = :number AND status = 'registered'` |
| `Table.Deleted` | parcel.go:110-112 | the meaning of `DELETE FROM parcel WHERE number = :number AND status = 'registered'`: exactly the rows not meeting the `WHERE` are kept |
| `Table.FreshNumberExists` | parcel.go:26-32 | some nonzero number is not yet used by any row, so an insert can always be given a fresh number |
| `Table.InsertAddsOneRow` | parcel.go:17-21 | an insert under a fresh number adds exactly one row, holding the caller's client, status, address and creation time under that number; every existing row is unchanged |
| `Table.AddGetRoundTrip` | parcel.go:15-50 | looking up the number an insert used yields the inserted parcel with its number set to that number |
| `Table.LookupExact` | parcel.go:40-50 | a lookup succeeds if and only if a row has the number, and then returns that row, whose number is the one asked for; otherwise it reports "no rows" |
| `Table.ClientRowsExact` | parcel.go:56-79 | the rows selected for a client are exactly the stored rows with that client, and there are as many as there are matching numbers |
| `Table.InsertGroupsByClient` | parcel_test.go:159-189 | after an insert, a client's selection is the old one plus the new parcel when it belongs to that client, and unchanged otherwise |
| `Table.StatusSetNarrow` | parcel.go:84-91 | a status update keeps the set of numbers, rewrites only the status of the row with that number whatever its current status, leaves every other row alone, and changes nothing when the number is absent |
| `Table.StatusSetThenGet` | parcel_test.go:125-133 | after a status update, a lookup of that row shows the new status with every other field unchanged |
| `Table.AddressSetGuarded` | parcel.go:97-104 | an address update rewrites only the address of the row with that number, and only when that row is registered; otherwise the table is unchanged |
| `Table.AddressSetChangesIff` | parcel.go:97-100 | the address update changes the table if and only if the row exists, is registered and had a different address |
| `Table.DeleteGuarded` | parcel.go:110-116 | a delete removes exactly the row with that number when it is registered, and otherwise nothing; no other row is removed or changed |
| `Table.DeleteThenGetFails` | parcel_test.go:61-66 | once a registered parcel is deleted, looking it up reports "no rows" |
| `Table.UnregisteredIsFrozen` | parcel.go:94-117 | a parcel not in status `registered` keeps its address under an address update and survives a delete |
| `Table.SentBlocksAddressAndDelete` | parcel.go:82-117 | after a parcel is marked `sent`, an address update or a delete on it has no effect |
| `Table.StatementsKeepFixedFields` | parcel.go:17-112 | the two updates keep the set of numbers, the delete only shrinks it, the insert only grows it; none changes a stored row's number, client or creation time, and each keeps every row under its own number |
| `Store.ParcelStore.constructor` | parcel.go:11-13 | a new store works on the table it is given |
| `Store.ParcelStore.Add` | parcel.go:15-34 | the returned number is nonzero and was unused; the new table is the old one with the parcel inserted under that number |
| `Store.ParcelStore.Get` | parcel.go:36-51 | returns the row with that number if and only if one exists, otherwise "no rows"; the table is unchanged |
| `Store.ParcelStore.GetByClient` | parcel.go:53-80 | returns exactly the rows whose client is the argument, each once, in no promised order; an empty result when none match; the table is unchanged |
| `Store.ParcelStore.SetStatus` | parcel.go:82-92 | the new table is the status update's meaning applied to the old one; a missing number is no error |
| `Store.ParcelStore.SetAddress` | parcel.go:94-105 | the new table is the guarded address update's meaning applied to the old one; an ineligible or missing row is no error |
| `Store.ParcelStore.Delete` | parcel.go:107-117 | the new table is the guarded delete's meaning applied to the old one; an ineligible or missing row is no error |

## Left out

- The database handle, the sqlite driver, named-parameter binding, SQL parsing and `rows.Close`: foreign library code, replaced by the table value.
- Errors from the database engine (a failing `Exec`, `LastInsertId`, `Query` or `Scan`, parcel.go:22-29, 46-48 apart from "no rows", 57-58, 71-74): they depend on the engine. In the model `Add` always returns a number, `GetByClient` always returns rows, and `SetStatus`, `SetAddress` and `Delete` have no error result, since without engine errors the source's error result is always nil.
- Store.ParcelStore.Get: on "no rows" the source also returns a zero-valued parcel beside the error; the model's error result carries no parcel.
- Store.ParcelStore.Add: the engine's numbering scheme (auto-increment) is not modelled; only a nonzero number not in use is promised.
- Integer width: `number` and `client` are unbounded integers. Go's `int` is 32 or 64 bits depending on the platform, so on a 32-bit target `int(id)` (parcel.go:32) can truncate the engine's 64-bit id; this is not modelled.
- Timestamps: `createdAt` is an opaque string; its RFC 3339 formatting is done by callers.
- Store.ParcelStore.GetByClient: the source never checks `rows.Err()`, so a failure during iteration ends the loop early and returns a truncated result with no error; and when nothing matches it returns a nil slice rather than an empty one. Both are engine or Go-runtime behaviour; the model returns the complete selection, as an empty sequence when nothing matches.
- Store.ParcelStore.constructor: in the source, two stores made from one database handle share one table and see each other's writes; each model store holds its own table, so sharing a handle between stores is not modelled.
- Concurrent callers sharing one database handle: the store neither coordinates nor guarantees anything for them.
- The test file's random client generator and its use of a real sqlite file; the tests only supply the properties stated above.
