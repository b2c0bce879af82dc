/** BlueprintRepository over an in-memory `blueprints` table. Each method runs one
    statement of Queries against the table. A store that cannot be reached makes
    every method but HealthCheckAsync fail with a store error, which is passed
    on to the caller, never swallowed. */
module Repository {
  import opened Common
  import opened Models
  import opened Mapper
  import opened Queries

  /** A call made on the repository, recorded in call order. */
  datatype RepositoryCall =
    | GetById(id: Guid)
    | GetAll(limit: int, offset: int)
    | Create(id: Guid)
    | Update(id: Guid)
    | Delete(id: Guid)
    | Count
    | HealthCheck

  /** The table and result a state-changing statement leaves behind. */
  datatype Transition<T> = Transition(rows: Table, result: Result<T>)

  // What each repository operation yields over a table in a given state.

  function GetByIdOutcome(rows: Table, reachable: bool, codec: JsonCodec, id: Guid): (r: Result<Option<Blueprint>>)
    requires PrimaryKey(rows)
    ensures r.Ok? <==> reachable
    ensures r.Ok? ==> (r.value.Some? <==> id in rows)
    ensures r.Ok? && r.value.Some? ==> r.value.value == MapToDomainModel(codec, rows[id]) && r.value.value.id == id
  {
    if !reachable then Err(StoreError(Unreachable))
    else match SelectById(rows, id)
      case Some(entity) => Ok(Some(MapToDomainModel(codec, entity)))
      case None => Ok(None)
  }

  /** GetAllAsync is not a function of the table: rows with equal names may come
      back in any order. This says which results are possible. */
  ghost predicate IsGetAllOutcome(rows: Table, reachable: bool, codec: JsonCodec, le: (string, string) -> bool,
                                  limit: int, offset: int, r: Result<seq<Blueprint>>)
  {
    if !reachable then r == Err(StoreError(Unreachable))
    else if limit < 0 || offset < 0 then r == Err(StoreError(NegativePaging))
    else r.Ok? && exists listing :: IsNameOrdering(rows, listing, le)
                                  && r.value == MapToDomainModels(codec, Page(listing, limit, offset))
  }

  /** Two GetAllAsync calls for consecutive pages of one size, over the same
      table, give together what one call for the double-size page gives, once
      the order is fixed: a strict collation and no two rows with one name. */
  lemma ConsecutiveCallsGiveAdjacentPages(rows: Table, codec: JsonCodec, le: (string, string) -> bool,
                                          size: nat, offset: nat,
                                          first: Result<seq<Blueprint>>, second: Result<seq<Blueprint>>,
                                          both: Result<seq<Blueprint>>)
    requires TotalPreorder(le) && Antisymmetric(le) && DistinctNames(rows)
    requires IsGetAllOutcome(rows, true, codec, le, size, offset, first)
    requires IsGetAllOutcome(rows, true, codec, le, size, offset + size, second)
    requires IsGetAllOutcome(rows, true, codec, le, 2 * size, offset, both)
    ensures first.Ok? && second.Ok? && both.Ok?
    ensures first.value + second.value == both.value
  {
    var l1 :| IsNameOrdering(rows, l1, le) && first.value == MapToDomainModels(codec, Page(l1, size, offset));
    var l2 :| IsNameOrdering(rows, l2, le) && second.value == MapToDomainModels(codec, Page(l2, size, offset + size));
    var l3 :| IsNameOrdering(rows, l3, le) && both.value == MapToDomainModels(codec, Page(l3, 2 * size, offset));
    NameOrderingUnique(rows, l1, l2, le);
    NameOrderingUnique(rows, l1, l3, le);
    AdjacentPages(l1, size, offset);
    MapToDomainModelsAppend(codec, Page(l1, size, offset), Page(l1, size, offset + size));
  }

  /** Mapping rows commutes with joining listings. */
  lemma MapToDomainModelsAppend(codec: JsonCodec, a: seq<BlueprintEntity>, b: seq<BlueprintEntity>)
    ensures MapToDomainModels(codec, a) + MapToDomainModels(codec, b) == MapToDomainModels(codec, a + b)
  {
    var ma, mb, mab := MapToDomainModels(codec, a), MapToDomainModels(codec, b), MapToDomainModels(codec, a + b);
    forall i | 0 <= i < |a + b| ensures (ma + mb)[i] == mab[i] {
      if i >= |a| {
        assert (a + b)[i] == b[i - |a|];
      }
    }
  }

  function CreateOutcome(rows: Table, reachable: bool, codec: JsonCodec, b: Blueprint): (t: Transition<Blueprint>)
    requires PrimaryKey(rows)
    ensures PrimaryKey(t.rows)
    ensures t.result.Ok? <==> reachable && b.id !in rows
    ensures t.result.Ok? ==> t.rows == rows[b.id := MapToEntity(codec, b)]
                             && t.result.value == MapToDomainModel(codec, t.rows[b.id])
    ensures t.result.Err? ==> t.rows == rows
  {
    if !reachable then Transition(rows, Err(StoreError(Unreachable)))
    else match InsertRow(rows, MapToEntity(codec, b))
      case Inserted(table, row) => Transition(table, Ok(MapToDomainModel(codec, row)))
      case DuplicateKey => Transition(rows, Err(StoreError(UniqueViolation)))
  }

  function UpdateOutcome(rows: Table, reachable: bool, codec: JsonCodec, b: Blueprint): (t: Transition<Option<Blueprint>>)
    requires PrimaryKey(rows)
    ensures PrimaryKey(t.rows) && t.rows.Keys == rows.Keys
    ensures t.result.Ok? <==> reachable
    ensures t.result.Ok? ==> (t.result.value.Some? <==> b.id in rows)
    ensures !(t.result.Ok? && t.result.value.Some?) ==> t.rows == rows
    ensures t.result.Ok? && t.result.value.Some? ==>
              && t.result.value.value == MapToDomainModel(codec, t.rows[b.id])
              && t.rows[b.id] == SetColumns(rows[b.id], MapToEntity(codec, b))
              && t.rows == rows[b.id := t.rows[b.id]]
  {
    if !reachable then Transition(rows, Err(StoreError(Unreachable)))
    else
      var u := UpdateRow(rows, MapToEntity(codec, b));
      match u.returned
      case Some(row) => Transition(u.table, Ok(Some(MapToDomainModel(codec, row))))
      case None => Transition(u.table, Ok(None))
  }

  function DeleteOutcome(rows: Table, reachable: bool, id: Guid): (t: Transition<bool>)
    requires PrimaryKey(rows)
    ensures PrimaryKey(t.rows)
    ensures t.result.Ok? <==> reachable
    ensures t.result.Ok? ==> (t.result.value <==> id in rows) && t.rows == rows - {id}
    ensures t.result.Err? ==> t.rows == rows
  {
    if !reachable then Transition(rows, Err(StoreError(Unreachable)))
    else
      var d := DeleteRow(rows, id);
      Transition(d.table, Ok(d.rowsAffected > 0))
  }

  /** `COUNT(*)` is a bigint, read back through `ExecuteScalarAsync<int>`: the
      conversion to a 32-bit int throws once the table outgrows Int32.MaxValue. */
  function CountOutcome(rows: Table, reachable: bool): (r: Result<Int32>)
    ensures r.Ok? <==> reachable && |rows| <= Int32Max
    ensures r.Ok? ==> r.value == |rows|
    ensures reachable && |rows| > Int32Max ==> r == Err(StoreError(ScalarOverflow))
  {
    if !reachable then Err(StoreError(Unreachable))
    else if CountRows(rows) > Int32Max then Err(StoreError(ScalarOverflow))
    else Ok(CountRows(rows))
  }

  class BlueprintRepository {
    /** The contents of the `blueprints` table. */
    var rows: Table
    /** Whether the store answers; when false every statement fails. */
    var reachable: bool
    /** Every call made on this repository, oldest first. */
    ghost var calls: seq<RepositoryCall>
    /** The JSON serializer the mapper uses. */
    const codec: JsonCodec
    /** The collation of `ORDER BY name`. */
    const nameOrder: (string, string) -> bool

    ghost predicate Valid()
      reads this
    {
      PrimaryKey(rows) && TotalPreorder(nameOrder)
    }

    constructor (codec: JsonCodec, nameOrder: (string, string) -> bool)
      requires TotalPreorder(nameOrder)
      ensures Valid()
      ensures rows == map[] && reachable && calls == []
      ensures this.codec == codec && this.nameOrder == nameOrder
    {
      rows := map[];
      reachable := true;
      calls := [];
      this.codec := codec;
      this.nameOrder := nameOrder;
    }

    method GetByIdAsync(id: Guid) returns (r: Result<Option<Blueprint>>)
      requires Valid()
      modifies this`calls
      ensures calls == old(calls) + [GetById(id)]
      ensures r == GetByIdOutcome(rows, reachable, codec, id)
    {
      calls := calls + [GetById(id)];
      if !reachable {
        return Err(StoreError(Unreachable));
      }
      var entity := SelectById(rows, id);
      r := if entity.Some? then Ok(Some(MapToDomainModel(codec, entity.value))) else Ok(None);
    }

    /** The table in `ORDER BY name` order, as the store produces it. */
    method ScanOrderedByName() returns (listing: seq<BlueprintEntity>)
      requires Valid()
      ensures IsNameOrdering(rows, listing, nameOrder)
    {
      listing := [];
      var pending := rows.Keys;
      while pending != {}
        invariant pending <= rows.Keys
        invariant SortedByName(listing, nameOrder)
        invariant multiset(listing) == multiset(Visited(rows, pending))
        decreases pending
      {
        var id :| id in pending;
        VisitStep(rows, pending, id);
        InsertByNameKeepsOrder(rows[id], listing, nameOrder);
        listing := InsertByName(rows[id], listing, nameOrder);
        pending := pending - {id};
      }
      VisitedAll(rows);
    }

    method GetAllAsync(limit: int, offset: int) returns (r: Result<seq<Blueprint>>)
      requires Valid()
      modifies this`calls
      ensures calls == old(calls) + [GetAll(limit, offset)]
      ensures IsGetAllOutcome(rows, reachable, codec, nameOrder, limit, offset, r)
    {
      calls := calls + [GetAll(limit, offset)];
      if !reachable {
        return Err(StoreError(Unreachable));
      }
      if limit < 0 || offset < 0 {
        return Err(StoreError(NegativePaging));
      }
      var listing := ScanOrderedByName();
      r := Ok(MapToDomainModels(codec, Page(listing, limit, offset)));
    }

    method CreateAsync(blueprint: Blueprint) returns (r: Result<Blueprint>)
      requires Valid()
      modifies this`rows, this`calls
      ensures Valid()
      ensures calls == old(calls) + [Create(blueprint.id)]
      ensures var t := CreateOutcome(old(rows), reachable, codec, blueprint);
              rows == t.rows && r == t.result
    {
      calls := calls + [Create(blueprint.id)];
      if !reachable {
        return Err(StoreError(Unreachable));
      }
      var entity := MapToEntity(codec, blueprint);
      match InsertRow(rows, entity)
      case DuplicateKey =>
        r := Err(StoreError(UniqueViolation));
      case Inserted(table, createdEntity) =>
        rows := table;
        r := Ok(MapToDomainModel(codec, createdEntity));
    }

    method UpdateAsync(blueprint: Blueprint) returns (r: Result<Option<Blueprint>>)
      requires Valid()
      modifies this`rows, this`calls
      ensures Valid()
      ensures calls == old(calls) + [Update(blueprint.id)]
      ensures var t := UpdateOutcome(old(rows), reachable, codec, blueprint);
              rows == t.rows && r == t.result
    {
      calls := calls + [Update(blueprint.id)];
      if !reachable {
        return Err(StoreError(Unreachable));
      }
      var entity := MapToEntity(codec, blueprint);
      var u := UpdateRow(rows, entity);
      rows := u.table;
      r := if u.returned.Some? then Ok(Some(MapToDomainModel(codec, u.returned.value))) else Ok(None);
    }

    method DeleteAsync(id: Guid) returns (r: Result<bool>)
      requires Valid()
      modifies this`rows, this`calls
      ensures Valid()
      ensures calls == old(calls) + [Delete(id)]
      ensures var t := DeleteOutcome(old(rows), reachable, id);
              rows == t.rows && r == t.result
    {
      calls := calls + [Delete(id)];
      if !reachable {
        return Err(StoreError(Unreachable));
      }
      var d := DeleteRow(rows, id);
      rows := d.table;
      r := Ok(d.rowsAffected > 0);
    }

    method CountAsync() returns (r: Result<Int32>)
      requires Valid()
      modifies this`calls
      ensures calls == old(calls) + [Count]
      ensures r == CountOutcome(rows, reachable)
    {
      calls := calls + [Count];
      if !reachable {
        return Err(StoreError(Unreachable));
      }
      var count := CountRows(rows);
      if count > Int32Max {
        return Err(StoreError(ScalarOverflow));
      }
      r := Ok(count);
    }

    /** A `DELETE ... WHERE id = @Id` issued by another client of the same
        database. It changes the table this repository reads, but it is not a
        call on this repository. */
    method DeleteByAnotherClient(id: Guid)
      requires Valid()
      modifies this`rows
      ensures Valid()
      ensures rows == old(rows) - {id}
    {
      rows := DeleteRow(rows, id).table;
    }

    /** Never fails: any store failure reads as unhealthy. */
    method HealthCheckAsync() returns (healthy: bool)
      modifies this`calls
      ensures calls == old(calls) + [HealthCheck]
      ensures healthy <==> reachable
    {
      calls := calls + [HealthCheck];
      if !reachable {
        return false;
      }
      var result := HealthCheckScalar;
      healthy := result == 1;
    }
  }
}
