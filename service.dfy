/** BlueprintService: validates names, sequences the repository calls (update is a
    read then a write) and maps domain objects to responses. Store failures pass
    through unchanged. */
module Service {
  import opened Common
  import opened Models
  import opened Mapper
  import opened Queries
  import opened Repository

  const EmptyNameMessage: string := "Name cannot be empty"

  /** `string.IsNullOrEmpty(name)`: a name of spaces is not missing. */
  predicate NameMissing(name: string) {
    name == ""
  }

  // What each service operation yields over a repository in a given state.

  function GetByIdResponse(rows: Table, reachable: bool, codec: JsonCodec, id: Guid): (r: Result<Option<BlueprintResponse>>)
    requires PrimaryKey(rows)
    ensures r.Ok? <==> reachable
    ensures r.Ok? ==> (r.value.Some? <==> id in rows)
    ensures r.Ok? && r.value.Some? ==> r.value.value == MapToResponse(MapToDomainModel(codec, rows[id]))
  {
    match GetByIdOutcome(rows, reachable, codec, id)
    case Err(f) => Err(f)
    case Ok(None) => Ok(None)
    case Ok(Some(b)) => Ok(Some(MapToResponse(b)))
  }

  /** The possible results of GetAllAsync: one response per row the repository
      returned, in the same order. */
  ghost predicate IsGetAllResponse(rows: Table, reachable: bool, codec: JsonCodec, le: (string, string) -> bool,
                                   limit: int, offset: int, r: Result<seq<BlueprintResponse>>)
  {
    if !reachable then r == Err(StoreError(Unreachable))
    else if limit < 0 || offset < 0 then r == Err(StoreError(NegativePaging))
    else r.Ok? && exists listing :: IsNameOrdering(rows, listing, le)
                                  && r.value == MapToResponses(MapToDomainModels(codec, Page(listing, limit, offset)))
  }

  function CreateResponse(rows: Table, reachable: bool, codec: JsonCodec, request: CreateBlueprintRequest,
                          newId: Guid, createdAt: Timestamp, updatedAt: Timestamp): (t: Transition<BlueprintResponse>)
    requires PrimaryKey(rows)
    ensures PrimaryKey(t.rows)
    ensures NameMissing(request.name) ==> t == Transition(rows, Err(ArgumentError(EmptyNameMessage)))
    ensures !NameMissing(request.name) ==> (t.result.Ok? <==> reachable && newId !in rows)
    ensures t.result.Err? ==> t.rows == rows
    ensures t.result.Ok? ==>
              var resp := t.result.value;
              && newId in t.rows && t.rows == rows[newId := t.rows[newId]]
              && resp == MapToResponse(MapToDomainModel(codec, t.rows[newId]))
              && resp.id == newId && resp.name == request.name && resp.description == request.description
              && resp.createdAt == createdAt && resp.updatedAt == updatedAt
  {
    if NameMissing(request.name) then Transition(rows, Err(ArgumentError(EmptyNameMessage)))
    else
      var t := CreateOutcome(rows, reachable, codec, MapFromCreateRequest(request, newId, createdAt, updatedAt));
      match t.result
      case Ok(created) => Transition(t.rows, Ok(MapToResponse(created)))
      case Err(f) => Transition(t.rows, Err(f))
  }

  /** The repository calls CreateAsync makes. */
  function CreateCalls(request: CreateBlueprintRequest, newId: Guid): (calls: seq<RepositoryCall>)
    ensures calls == [] <==> NameMissing(request.name)
    ensures calls != [] ==> calls == [Create(newId)]
  {
    if NameMissing(request.name) then [] else [Create(newId)]
  }

  /** Whether the row an update is about to write goes away after the read
      found it: `vanished` says that another client deletes it in between. */
  predicate DeletedInBetween(rows: Table, reachable: bool, request: UpdateBlueprintRequest, vanished: bool) {
    vanished && reachable && !NameMissing(request.name) && request.id in rows
  }

  /** `vanished` says whether another client deletes the row between the read
      and the write; the write then finds nothing and the update is absent. */
  function UpdateResponse(rows: Table, reachable: bool, codec: JsonCodec, request: UpdateBlueprintRequest,
                          now: Timestamp, vanished: bool): (t: Transition<Option<BlueprintResponse>>)
    requires PrimaryKey(rows)
    ensures PrimaryKey(t.rows)
    ensures NameMissing(request.name) ==> t == Transition(rows, Err(ArgumentError(EmptyNameMessage)))
    ensures !NameMissing(request.name) ==> (t.result.Ok? <==> reachable)
    ensures t.result.Ok? ==> (t.result.value.Some? <==> request.id in rows && !vanished)
    ensures DeletedInBetween(rows, reachable, request, vanished) ==> t == Transition(rows - {request.id}, Ok(None))
    ensures !DeletedInBetween(rows, reachable, request, vanished) ==> t.rows.Keys == rows.Keys
    ensures !(t.result.Ok? && t.result.value.Some?) && !DeletedInBetween(rows, reachable, request, vanished) ==> t.rows == rows
    ensures t.result.Ok? && t.result.value.Some? ==>
              var resp := t.result.value.value;
              && t.rows == rows[request.id := t.rows[request.id]]
              && resp == MapToResponse(MapToDomainModel(codec, t.rows[request.id]))
              && resp.id == request.id && resp.createdAt == rows[request.id].createdAt
              && resp.name == request.name && resp.description == request.description
              && resp.updatedAt == now
  {
    if NameMissing(request.name) then Transition(rows, Err(ArgumentError(EmptyNameMessage)))
    else match GetByIdOutcome(rows, reachable, codec, request.id)
      case Err(f) => Transition(rows, Err(f))
      case Ok(None) => Transition(rows, Ok(None))
      case Ok(Some(existing)) =>
        var atWrite := if vanished then rows - {request.id} else rows;
        var t := UpdateOutcome(atWrite, reachable, codec, MapFromUpdateRequest(request, existing, now));
        match t.result
        case Err(f) => Transition(t.rows, Err(f))
        case Ok(None) => Transition(t.rows, Ok(None))
        case Ok(Some(updated)) => Transition(t.rows, Ok(Some(MapToResponse(updated))))
  }

  /** The repository calls UpdateAsync makes: none for a missing name, and no
      write when the read finds nothing. */
  function UpdateCalls(rows: Table, reachable: bool, request: UpdateBlueprintRequest): (calls: seq<RepositoryCall>)
    ensures calls == [] <==> NameMissing(request.name)
    ensures calls != [] ==> calls[0] == GetById(request.id) && |calls| <= 2
    ensures Update(request.id) in calls <==> !NameMissing(request.name) && reachable && request.id in rows
  {
    if NameMissing(request.name) then []
    else if reachable && request.id in rows then [GetById(request.id), Update(request.id)]
    else [GetById(request.id)]
  }

  class BlueprintService {
    const repository: BlueprintRepository

    constructor (repository: BlueprintRepository)
      ensures this.repository == repository
    {
      this.repository := repository;
    }

    method GetByIdAsync(id: Guid) returns (r: Result<Option<BlueprintResponse>>)
      requires repository.Valid()
      modifies repository`calls
      ensures repository.calls == old(repository.calls) + [GetById(id)]
      ensures r == GetByIdResponse(repository.rows, repository.reachable, repository.codec, id)
    {
      var blueprint := repository.GetByIdAsync(id);
      r := match blueprint
        case Err(f) => Err(f)
        case Ok(None) => Ok(None)
        case Ok(Some(b)) => Ok(Some(MapToResponse(b)));
    }

    method GetAllAsync(limit: int, offset: int) returns (r: Result<seq<BlueprintResponse>>)
      requires repository.Valid()
      modifies repository`calls
      ensures repository.calls == old(repository.calls) + [GetAll(limit, offset)]
      ensures IsGetAllResponse(repository.rows, repository.reachable, repository.codec, repository.nameOrder, limit, offset, r)
    {
      var blueprints := repository.GetAllAsync(limit, offset);
      if blueprints.Err? {
        return Err(blueprints.failure);
      }
      var models := blueprints.value;
      var responses: seq<BlueprintResponse> := [];
      for i := 0 to |models|
        invariant |responses| == i
        invariant forall k :: 0 <= k < i ==> responses[k] == MapToResponse(models[k])
      {
        responses := responses + [MapToResponse(models[i])];
      }
      r := Ok(responses);
      ghost var listing :| IsNameOrdering(repository.rows, listing, repository.nameOrder)
                           && models == MapToDomainModels(repository.codec, Page(listing, limit, offset));
      assert responses == MapToResponses(models);
    }

    /** `newId` is the generated identifier; `createdAt` and `updatedAt` are the
        two clock readings taken while building the blueprint. */
    method CreateAsync(request: CreateBlueprintRequest, newId: Guid, createdAt: Timestamp, updatedAt: Timestamp)
      returns (r: Result<BlueprintResponse>)
      requires repository.Valid()
      modifies repository`rows, repository`calls
      ensures repository.Valid()
      ensures repository.calls == old(repository.calls) + CreateCalls(request, newId)
      ensures var t := CreateResponse(old(repository.rows), repository.reachable, repository.codec,
                                      request, newId, createdAt, updatedAt);
              repository.rows == t.rows && r == t.result
    {
      if NameMissing(request.name) {
        return Err(ArgumentError(EmptyNameMessage));
      }
      var blueprint := MapFromCreateRequest(request, newId, createdAt, updatedAt);
      var created := repository.CreateAsync(blueprint);
      r := match created
        case Ok(b) => Ok(MapToResponse(b))
        case Err(f) => Err(f);
    }

    /** `now` is the clock reading taken while building the updated blueprint;
        `vanished` says whether another client deletes the row between the
        read and the write. */
    method UpdateAsync(request: UpdateBlueprintRequest, now: Timestamp, vanished: bool)
      returns (r: Result<Option<BlueprintResponse>>)
      requires repository.Valid()
      modifies repository`rows, repository`calls
      ensures repository.Valid()
      ensures repository.calls == old(repository.calls) + UpdateCalls(old(repository.rows), repository.reachable, request)
      ensures var t := UpdateResponse(old(repository.rows), repository.reachable, repository.codec, request, now, vanished);
              repository.rows == t.rows && r == t.result
    {
      if NameMissing(request.name) {
        return Err(ArgumentError(EmptyNameMessage));
      }
      var existing := repository.GetByIdAsync(request.id);
      if existing.Err? {
        return Err(existing.failure);
      }
      if existing.value.None? {
        return Ok(None);
      }
      if vanished {
        repository.DeleteByAnotherClient(request.id);
      }
      var updated := MapFromUpdateRequest(request, existing.value.value, now);
      var result := repository.UpdateAsync(updated);
      r := match result
        case Err(f) => Err(f)
        case Ok(None) => Ok(None)
        case Ok(Some(b)) => Ok(Some(MapToResponse(b)));
    }

    method DeleteAsync(id: Guid) returns (r: Result<bool>)
      requires repository.Valid()
      modifies repository`rows, repository`calls
      ensures repository.Valid()
      ensures repository.calls == old(repository.calls) + [Delete(id)]
      ensures var t := DeleteOutcome(old(repository.rows), repository.reachable, id);
              repository.rows == t.rows && r == t.result
    {
      r := repository.DeleteAsync(id);
    }

    method CountAsync() returns (r: Result<Int32>)
      requires repository.Valid()
      modifies repository`calls
      ensures repository.calls == old(repository.calls) + [Count]
      ensures r == CountOutcome(repository.rows, repository.reachable)
    {
      r := repository.CountAsync();
    }
  }

  /** A missing name is refused before any repository call, on create and update alike. */
  lemma EmptyNameRejectedBeforeStorage(rows: Table, reachable: bool, codec: JsonCodec,
                                       create: CreateBlueprintRequest, update: UpdateBlueprintRequest,
                                       newId: Guid, createdAt: Timestamp, updatedAt: Timestamp, now: Timestamp,
                                       vanished: bool)
    requires PrimaryKey(rows) && create.name == "" && update.name == ""
    ensures CreateResponse(rows, reachable, codec, create, newId, createdAt, updatedAt)
            == Transition(rows, Err(ArgumentError("Name cannot be empty")))
    ensures UpdateResponse(rows, reachable, codec, update, now, vanished)
            == Transition(rows, Err(ArgumentError("Name cannot be empty")))
    ensures CreateCalls(create, newId) == [] && UpdateCalls(rows, reachable, update) == []
  {
  }

  /** Only the empty name is refused: a name made of spaces is stored. */
  lemma BlankNameAccepted(rows: Table, codec: JsonCodec, request: CreateBlueprintRequest,
                          newId: Guid, createdAt: Timestamp, updatedAt: Timestamp)
    requires PrimaryKey(rows) && newId !in rows && request.name == " "
    ensures CreateResponse(rows, true, codec, request, newId, createdAt, updatedAt).result.Ok?
  {
  }

  /** With a serializer that round-trips, a created blueprint comes back with the
      generated id, the request's contents and the two clock readings. */
  lemma CreatedResponseContents(rows: Table, codec: JsonCodec, request: CreateBlueprintRequest,
                                newId: Guid, createdAt: Timestamp, updatedAt: Timestamp)
    requires PrimaryKey(rows) && RoundTrips(codec) && !NameMissing(request.name) && newId !in rows
    ensures CreateResponse(rows, true, codec, request, newId, createdAt, updatedAt).result
            == Ok(BlueprintResponse(newId, request.name, request.description, createdAt, updatedAt, request.metadata))
  {
    EntityRoundTrip(codec, MapFromCreateRequest(request, newId, createdAt, updatedAt));
  }

  /** Reading a blueprint right after creating it gives the response create returned. */
  lemma CreateThenGetById(rows: Table, codec: JsonCodec, request: CreateBlueprintRequest,
                          newId: Guid, createdAt: Timestamp, updatedAt: Timestamp)
    requires PrimaryKey(rows) && !NameMissing(request.name) && newId !in rows
    ensures var t := CreateResponse(rows, true, codec, request, newId, createdAt, updatedAt);
            t.result.Ok? && GetByIdResponse(t.rows, true, codec, newId) == Ok(Some(t.result.value))
            && (|rows| < Int32Max ==> CountOutcome(t.rows, true) == Ok(|rows| + 1))
  {
    var t := CreateResponse(rows, true, codec, request, newId, createdAt, updatedAt);
    assert t.rows.Keys == rows.Keys + {newId};
  }

  /** Update of an existing record that nobody deletes meanwhile replaces name,
      description and metadata, keeps id and creation time, stamps the update
      time, and makes both calls. */
  lemma UpdateReplacesWholeRecord(rows: Table, codec: JsonCodec, request: UpdateBlueprintRequest, now: Timestamp)
    requires PrimaryKey(rows) && RoundTrips(codec) && !NameMissing(request.name) && request.id in rows
    ensures UpdateResponse(rows, true, codec, request, now, false).result
            == Ok(Some(BlueprintResponse(request.id, request.name, request.description,
                                         rows[request.id].createdAt, now, request.metadata)))
    ensures UpdateCalls(rows, true, request) == [GetById(request.id), Update(request.id)]
  {
    var existing := MapToDomainModel(codec, rows[request.id]);
    var updated := MapFromUpdateRequest(request, existing, now);
    EntityRoundTrip(codec, updated);
    var t := UpdateOutcome(rows, true, codec, updated);
    assert t.rows[request.id] == SetColumns(rows[request.id], MapToEntity(codec, updated));
  }

  /** Update of an id that is not stored yields "absent", leaves the table alone
      and never issues the write. */
  lemma UpdateOfMissingIsAbsent(rows: Table, codec: JsonCodec, request: UpdateBlueprintRequest, now: Timestamp,
                                vanished: bool)
    requires PrimaryKey(rows) && !NameMissing(request.name) && request.id !in rows
    ensures UpdateResponse(rows, true, codec, request, now, vanished) == Transition(rows, Ok(None))
    ensures Update(request.id) !in UpdateCalls(rows, true, request)
  {
  }

  /** The second "absent": the read finds the record, another client deletes it,
      and the write then finds nothing. Both calls are made, and the table is
      what the deletion left, which the write does not change. */
  lemma UpdateOfVanishedRowIsAbsent(rows: Table, codec: JsonCodec, request: UpdateBlueprintRequest, now: Timestamp)
    requires PrimaryKey(rows) && !NameMissing(request.name) && request.id in rows
    ensures UpdateResponse(rows, true, codec, request, now, true) == Transition(rows - {request.id}, Ok(None))
    ensures UpdateCalls(rows, true, request) == [GetById(request.id), Update(request.id)]
    ensures GetByIdResponse(rows - {request.id}, true, codec, request.id) == Ok(None)
  {
  }

  /** Repeating an update with the same request at the same instant changes nothing more. */
  lemma UpdateIsIdempotent(rows: Table, reachable: bool, codec: JsonCodec, request: UpdateBlueprintRequest, now: Timestamp,
                           vanished: bool)
    requires PrimaryKey(rows)
    ensures var once := UpdateResponse(rows, reachable, codec, request, now, vanished);
            UpdateResponse(once.rows, reachable, codec, request, now, vanished) == once
  {
    var once := UpdateResponse(rows, reachable, codec, request, now, vanished);
    if !NameMissing(request.name) && reachable && request.id in rows && !vanished {
      var row := once.rows[request.id];
      var again := MapFromUpdateRequest(request, MapToDomainModel(codec, row), now);
      assert SetColumns(row, MapToEntity(codec, again)) == row;
      assert once.rows[request.id := row] == once.rows;
    }
  }

  /** Delete reports whether the id was stored; afterwards the id is absent. */
  lemma DeleteThenGetByIdIsAbsent(rows: Table, codec: JsonCodec, id: Guid)
    requires PrimaryKey(rows)
    ensures var t := DeleteOutcome(rows, true, id);
            t.result == Ok(id in rows) && GetByIdResponse(t.rows, true, codec, id) == Ok(None)
  {
  }

  /** Create "alpha" with default metadata, read it back, delete it, read again. */
  lemma CreateReadDeleteScenario(rows: Table, codec: JsonCodec, newId: Guid, createdAt: Timestamp, updatedAt: Timestamp)
    requires PrimaryKey(rows) && RoundTrips(codec) && newId !in rows
    ensures var request := CreateBlueprintRequest("alpha", "", DefaultMetadata());
            var created := CreateResponse(rows, true, codec, request, newId, createdAt, updatedAt);
            var deleted := DeleteOutcome(created.rows, true, newId);
            && created.result.Ok?
            && created.result.value.id == newId
            && created.result.value.metadata.version == "1.0.0" && created.result.value.metadata.tags == []
            && GetByIdResponse(created.rows, true, codec, newId) == Ok(Some(created.result.value))
            && deleted.result == Ok(true)
            && GetByIdResponse(deleted.rows, true, codec, newId) == Ok(None)
  {
    var request := CreateBlueprintRequest("alpha", "", DefaultMetadata());
    CreatedResponseContents(rows, codec, request, newId, createdAt, updatedAt);
    CreateThenGetById(rows, codec, request, newId, createdAt, updatedAt);
    var created := CreateResponse(rows, true, codec, request, newId, createdAt, updatedAt);
    DeleteThenGetByIdIsAbsent(created.rows, codec, newId);
  }
}
