/** The `blueprints` table and what each SQL statement of the service does to it.
    The table is a map from primary key to row; the statements are functions from
    the table (and parameters) to the rows they return and the table they leave. */
module Queries {
  import opened Common
  import opened Models

  /** `blueprints`: each row stored under its `id`. */
  type Table = map<Guid, BlueprintEntity>

  /** `id UUID PRIMARY KEY`: a row is found under its own id, so ids are unique. */
  ghost predicate PrimaryKey(t: Table) {
    forall id :: id in t ==> t[id].id == id
  }

  /** The collation behind `ORDER BY name`: total and transitive, but two distinct
      names may compare equal. */
  ghost predicate TotalPreorder(le: (string, string) -> bool) {
    && (forall a, b :: le(a, b) || le(b, a))
    && (forall a, b, c :: le(a, b) && le(b, c) ==> le(a, c))
  }

  ghost predicate SortedByName(rows: seq<BlueprintEntity>, le: (string, string) -> bool) {
    forall i, j :: 0 <= i < j < |rows| ==> le(rows[i].name, rows[j].name)
  }

  /** `SELECT ... FROM blueprints ORDER BY name ASC` before paging: every row
      once, names ascending; the index on `name` is not unique, so rows with
      equal names may come in any order. */
  ghost predicate IsNameOrdering(t: Table, listing: seq<BlueprintEntity>, le: (string, string) -> bool) {
    multiset(listing) == multiset(t.Values) && SortedByName(listing, le)
  }

  /** A row no greater than any row of a sorted listing can go in front of it. */
  lemma PrependSorted(row: BlueprintEntity, sorted: seq<BlueprintEntity>, le: (string, string) -> bool)
    requires SortedByName(sorted, le)
    requires forall x :: x in sorted ==> le(row.name, x.name)
    ensures SortedByName([row] + sorted, le)
  {
    var r := [row] + sorted;
    forall i, j | 0 <= i < j < |r| ensures le(r[i].name, r[j].name) {
      if i == 0 {
        assert r[j] in sorted;
      } else {
        assert r[i] == sorted[i - 1] && r[j] == sorted[j - 1];
      }
    }
  }

  /** Places a row into a listing in front of the first row it does not follow. */
  function InsertByName(row: BlueprintEntity, sorted: seq<BlueprintEntity>, le: (string, string) -> bool): (r: seq<BlueprintEntity>)
    ensures multiset(r) == multiset(sorted) + multiset{row}
  {
    if sorted == [] then [row]
    else if le(row.name, sorted[0].name) then [row] + sorted
    else
      assert sorted == [sorted[0]] + sorted[1..];
      [sorted[0]] + InsertByName(row, sorted[1..], le)
  }

  /** Inserting into a listing in name order keeps it in name order. */
  lemma {:induction false} InsertByNameKeepsOrder(row: BlueprintEntity, sorted: seq<BlueprintEntity>, le: (string, string) -> bool)
    requires TotalPreorder(le) && SortedByName(sorted, le)
    ensures SortedByName(InsertByName(row, sorted, le), le)
  {
    if sorted == [] {
    } else if le(row.name, sorted[0].name) {
      forall x | x in sorted ensures le(row.name, x.name) {
        var k :| 0 <= k < |sorted| && sorted[k] == x;
        if k > 0 {
          assert le(sorted[0].name, sorted[k].name);
        }
      }
      PrependSorted(row, sorted, le);
    } else {
      var head, tail := sorted[0], sorted[1..];
      assert SortedByName(tail, le) by {
        forall i, j | 0 <= i < j < |tail| ensures le(tail[i].name, tail[j].name) {
          assert tail[i] == sorted[i + 1] && tail[j] == sorted[j + 1];
        }
      }
      InsertByNameKeepsOrder(row, tail, le);
      var rest := InsertByName(row, tail, le);
      forall x | x in rest ensures le(head.name, x.name) {
        assert x in multiset(rest);
        if x != row {
          assert x in multiset(tail);
          var k :| 0 <= k < |tail| && tail[k] == x;
          assert sorted[k + 1] == x;
        }
      }
      PrependSorted(head, rest, le);
    }
  }

  /** `LIMIT limit OFFSET offset`: skip `offset` entries, keep at most `limit`. */
  function Page<T>(listing: seq<T>, limit: nat, offset: nat): (page: seq<T>)
    ensures |page| == if offset >= |listing| then 0 else Min(limit, |listing| - offset)
    ensures forall i :: 0 <= i < |page| ==> page[i] == listing[offset + i]
  {
    if offset >= |listing| then [] else listing[offset .. offset + Min(limit, |listing| - offset)]
  }

  /** Two consecutive pages of the same listing neither overlap nor leave a gap. */
  lemma {:induction false} AdjacentPages<T>(listing: seq<T>, size: nat, offset: nat)
    ensures Page(listing, size, offset) + Page(listing, size, offset + size) == Page(listing, 2 * size, offset)
  {
    var a, b, c := Page(listing, size, offset), Page(listing, size, offset + size), Page(listing, 2 * size, offset);
    assert |a + b| == |c|;
    forall i | 0 <= i < |c| ensures (a + b)[i] == c[i] {
      if i >= |a| {
        assert (a + b)[i] == b[i - |a|];
      }
    }
  }

  /** A collation that never ranks two different names as equal. */
  ghost predicate Antisymmetric(le: (string, string) -> bool) {
    forall a, b :: le(a, b) && le(b, a) ==> a == b
  }

  /** No two rows of the table share a name. */
  ghost predicate DistinctNames(t: Table) {
    forall a, b :: a in t.Values && b in t.Values && a.name == b.name ==> a == b
  }

  /** Dropping the first row keeps a listing name-sorted. */
  lemma SortedTail(l: seq<BlueprintEntity>, le: (string, string) -> bool)
    requires |l| > 0 && SortedByName(l, le)
    ensures SortedByName(l[1..], le)
  {
    forall i, j | 0 <= i < j < |l[1..]| ensures le(l[1..][i].name, l[1..][j].name) {
      assert l[1..][i] == l[i + 1] && l[1..][j] == l[j + 1];
    }
  }

  /** Two name-sorted arrangements of the same rows start with the same row
      when the collation is strict and no two rows share a name. */
  lemma SortedHeadsAgree(l1: seq<BlueprintEntity>, l2: seq<BlueprintEntity>,
                         le: (string, string) -> bool, t: Table)
    requires TotalPreorder(le) && Antisymmetric(le) && DistinctNames(t)
    requires SortedByName(l1, le) && SortedByName(l2, le) && multiset(l1) == multiset(l2)
    requires forall x :: x in l1 ==> x in t.Values
    requires |l1| > 0
    ensures |l2| > 0 && l1[0] == l2[0]
  {
    var x := l1[0];
    assert x in multiset(l2);
    var y := l2[0];
    assert y in multiset(l1);
    var k :| 0 <= k < |l2| && l2[k] == x;
    var m :| 0 <= m < |l1| && l1[m] == y;
    assert le(y.name, x.name) by { if k == 0 { assert le(x.name, x.name) || le(x.name, x.name); } }
    assert le(x.name, y.name) by { if m == 0 { assert le(y.name, y.name) || le(y.name, y.name); } }
  }

  /** Two name-sorted arrangements of the same rows are one and the same when
      the collation is strict and no two rows share a name. */
  lemma {:induction false} SortedListingUnique(l1: seq<BlueprintEntity>, l2: seq<BlueprintEntity>,
                                                le: (string, string) -> bool, t: Table)
    requires TotalPreorder(le) && Antisymmetric(le) && DistinctNames(t)
    requires SortedByName(l1, le) && SortedByName(l2, le) && multiset(l1) == multiset(l2)
    requires forall x :: x in l1 ==> x in t.Values
    ensures l1 == l2
    decreases |l1|
  {
    assert |l1| == |multiset(l1)| == |multiset(l2)| == |l2|;
    if |l1| > 0 {
      SortedHeadsAgree(l1, l2, le, t);
      var x := l1[0];
      assert l1 == [x] + l1[1..] && l2 == [x] + l2[1..];
      assert multiset(l1[1..]) == multiset(l2[1..]) by {
        assert multiset(l1) == multiset([x] + l1[1..]) == multiset([x]) + multiset(l1[1..]);
        assert multiset(l2) == multiset([x] + l2[1..]) == multiset([x]) + multiset(l2[1..]);
        assert multiset(l1[1..]) == multiset(l1) - multiset([x]);
        assert multiset(l2[1..]) == multiset(l2) - multiset([x]);
      }
      SortedTail(l1, le);
      SortedTail(l2, le);
      assert forall z :: z in l1[1..] ==> z in l1;
      SortedListingUnique(l1[1..], l2[1..], le, t);
    }
  }

  /** With a strict collation and distinct names, `ORDER BY name` has exactly
      one answer. */
  lemma NameOrderingUnique(t: Table, l1: seq<BlueprintEntity>, l2: seq<BlueprintEntity>, le: (string, string) -> bool)
    requires TotalPreorder(le) && Antisymmetric(le) && DistinctNames(t)
    requires IsNameOrdering(t, l1, le) && IsNameOrdering(t, l2, le)
    ensures l1 == l2
  {
    forall x | x in l1 ensures x in t.Values {
      assert x in multiset(l1);
    }
    SortedListingUnique(l1, l2, le, t);
  }

  /** A four-row listing read two rows at a time: the first and second halves. */
  lemma FourRowsInTwoPages<T>(listing: seq<T>)
    requires |listing| == 4
    ensures Page(listing, 2, 0) == listing[..2] && Page(listing, 2, 2) == listing[2..]
    ensures Page(listing, 2, 0) + Page(listing, 2, 2) == listing
  {
    AdjacentPages(listing, 2, 0);
  }

  /** `SELECT ... WHERE id = @Id`: the one row with that id, if any. */
  function SelectById(t: Table, id: Guid): (r: Option<BlueprintEntity>)
    requires PrimaryKey(t)
    ensures r.Some? ==> r.value in t.Values && r.value.id == id
    ensures r.None? ==> forall row :: row in t.Values ==> row.id != id
  {
    if id in t then Some(t[id]) else None
  }

  datatype InsertResult = Inserted(table: Table, returned: BlueprintEntity) | DuplicateKey

  /** `INSERT ... RETURNING`: stores all six columns and returns the stored row;
      fails when the id is already present. */
  function InsertRow(t: Table, row: BlueprintEntity): (r: InsertResult)
    requires PrimaryKey(t)
    ensures r.DuplicateKey? <==> row.id in t
    ensures r.Inserted? ==> r.returned == row && r.table.Keys == t.Keys + {row.id} && r.table[row.id] == row
    ensures r.Inserted? ==> |r.table| == |t| + 1 && PrimaryKey(r.table)
    ensures r.Inserted? ==> forall id :: id in t ==> r.table[id] == t[id]
  {
    if row.id in t then DuplicateKey else Inserted(t[row.id := row], row)
  }

  datatype UpdateResult = UpdateResult(table: Table, returned: Option<BlueprintEntity>)

  /** The row after `SET name, description, updated_at, metadata`: id and
      created_at are left as they were. */
  function SetColumns(current: BlueprintEntity, values: BlueprintEntity): (row: BlueprintEntity)
    ensures row.id == current.id && row.createdAt == current.createdAt
    ensures row.name == values.name && row.description == values.description
    ensures row.updatedAt == values.updatedAt && row.metadata == values.metadata
  {
    current.(name := values.name, description := values.description,
             updatedAt := values.updatedAt, metadata := values.metadata)
  }

  /** `UPDATE ... WHERE id = @Id RETURNING`: a row comes back iff one had the id. */
  function UpdateRow(t: Table, values: BlueprintEntity): (r: UpdateResult)
    requires PrimaryKey(t)
    ensures r.returned.Some? <==> values.id in t
    ensures r.returned.None? ==> r.table == t
    ensures r.returned.Some? ==>
              var row := r.returned.value;
              && row.id == values.id && row.createdAt == t[values.id].createdAt
              && row.name == values.name && row.description == values.description
              && row.updatedAt == values.updatedAt && row.metadata == values.metadata
              && r.table == t[values.id := row]
    ensures PrimaryKey(r.table) && r.table.Keys == t.Keys
  {
    if values.id in t then
      var row := SetColumns(t[values.id], values);
      UpdateResult(t[values.id := row], Some(row))
    else
      UpdateResult(t, None)
  }

  datatype DeleteResult = DeleteResult(table: Table, rowsAffected: nat)

  /** `DELETE ... WHERE id = @Id`: removes exactly that row and reports how many went. */
  function DeleteRow(t: Table, id: Guid): (r: DeleteResult)
    requires PrimaryKey(t)
    ensures r.rowsAffected <= 1 && (r.rowsAffected > 0 <==> id in t)
    ensures r.table.Keys == t.Keys - {id} && |r.table| == |t| - r.rowsAffected
    ensures forall k :: k in r.table ==> r.table[k] == t[k]
    ensures PrimaryKey(r.table)
  {
    var rest := t - {id};
    assert id in t ==> t.Keys == rest.Keys + {id};
    DeleteResult(rest, if id in t then 1 else 0)
  }

  /** `SELECT COUNT(*)`. */
  function CountRows(t: Table): (n: nat)
    ensures n == 0 <==> t == map[]
  {
    |t|
  }

  /** The count follows the statements that change the table: an insert adds
      one, a delete takes away the rows it reports, an update changes nothing. */
  lemma CountTracksChanges(t: Table, row: BlueprintEntity, values: BlueprintEntity, id: Guid)
    requires PrimaryKey(t)
    ensures InsertRow(t, row).Inserted? ==> CountRows(InsertRow(t, row).table) == CountRows(t) + 1
    ensures CountRows(DeleteRow(t, id).table) == CountRows(t) - DeleteRow(t, id).rowsAffected
    ensures CountRows(UpdateRow(t, values).table) == CountRows(t)
  {
    assert |UpdateRow(t, values).table.Keys| == |t.Keys|;
  }

  /** `SELECT 1`. */
  const HealthCheckScalar: int := 1

  /** The rows whose ids are not in `pending`: what a scan has visited so far. */
  ghost function Visited(t: Table, pending: set<Guid>): set<BlueprintEntity> {
    set id | id in t && id !in pending :: t[id]
  }

  /** One more step of a scan: visiting `id` adds exactly its row, which was not
      visited before. */
  lemma VisitStep(t: Table, pending: set<Guid>, id: Guid)
    requires PrimaryKey(t) && id in pending && id in t
    ensures multiset(Visited(t, pending - {id})) == multiset(Visited(t, pending)) + multiset{t[id]}
  {
    var before, after := Visited(t, pending), Visited(t, pending - {id});
    assert after == before + {t[id]};
    assert t[id] !in before;
  }

  lemma VisitedAll(t: Table)
    ensures Visited(t, {}) == t.Values
  {
  }
}
