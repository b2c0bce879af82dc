/** The gRPC façade: parses identifiers, converts wire messages to service
    requests, and turns each service outcome into a reply or an RpcException
    status. Guid text parsing and formatting are a parameter (`GuidFormat`). */
module GrpcService {
  import opened Common
  import opened Models
  import opened Mapper
  import opened Queries
  import opened Repository
  import opened Service
  import BlueprintProto

  datatype StatusCode = NotFound | InvalidArgument | Internal

  datatype Status = Status(code: StatusCode, detail: string)

  /** What a handler ends with: a response message, or a thrown RpcException. */
  datatype Reply<T> = Reply(message: T) | RpcException(status: Status)

  /** `Guid.Parse` (None where it throws FormatException) and `Guid.ToString()`. */
  datatype GuidFormat = GuidFormat(parse: string -> Option<Guid>, format: Guid -> string)

  /** The text of an identifier parses back to that identifier. */
  ghost predicate ParsesOwnFormat(guids: GuidFormat) {
    forall id: Guid :: guids.parse(guids.format(id)) == Some(id)
  }

  const InternalStatus: Status := Status(Internal, "An internal error occurred")

  function InvalidIdStatus(text: string): Status {
    Status(InvalidArgument, "Invalid blueprint ID format: " + text)
  }

  function NotFoundStatus(text: string): Status {
    Status(NotFound, "Blueprint with ID " + text + " not found")
  }

  // ---- Page offset: `(PageNumber - 1) * PageSize` in unchecked 32-bit arithmetic.

  lemma MultipleOfTwoTo32(q: int, b: int)
    ensures (q * b * TwoTo32) % TwoTo32 == 0
  {
  }

  lemma CongruentProduct(x: int, y: int, b: int)
    requires (x - y) % TwoTo32 == 0
    ensures (x * b - y * b) % TwoTo32 == 0
  {
    var q := (x - y) / TwoTo32;
    assert x - y == q * TwoTo32;
    assert x * b - y * b == q * b * TwoTo32;
    MultipleOfTwoTo32(q, b);
  }

  lemma CongruentSum(x: int, y: int, z: int)
    requires (x - y) % TwoTo32 == 0 && (y - z) % TwoTo32 == 0
    ensures (x - z) % TwoTo32 == 0
  {
    var p, q := (x - y) / TwoTo32, (y - z) / TwoTo32;
    assert x - z == (p + q) * TwoTo32;
  }

  lemma CongruentInt32sAreEqual(a: int, b: int)
    requires InInt32Range(a) && InInt32Range(b) && (a - b) % TwoTo32 == 0
    ensures a == b
  {
    var q := (a - b) / TwoTo32;
    assert a - b == q * TwoTo32;
  }

  /** The offset ListBlueprints passes on: the exact product when it fits in an
      Int32, and otherwise the product wrapped modulo 2^32. */
  function PageOffset(pageNumber: Int32, pageSize: Int32): (offset: Int32)
    ensures (offset - (pageNumber - 1) * pageSize) % TwoTo32 == 0
    ensures InInt32Range((pageNumber - 1) * pageSize) ==> offset == (pageNumber - 1) * pageSize
  {
    var previous := Wrap32(pageNumber - 1);
    var offset := Wrap32(previous * pageSize);
    CongruentProduct(previous, pageNumber - 1, pageSize);
    CongruentSum(offset, previous * pageSize, (pageNumber - 1) * pageSize);
    if InInt32Range((pageNumber - 1) * pageSize) then
      CongruentInt32sAreEqual(offset, (pageNumber - 1) * pageSize);
      offset
    else offset
  }

  /** Page n + 1 starts where page n of the same size ends. */
  lemma ConsecutivePageOffsets(pageNumber: Int32, pageSize: Int32)
    requires 1 <= pageNumber < Int32Max && 0 <= pageSize
    requires pageNumber * pageSize <= Int32Max
    ensures 0 <= PageOffset(pageNumber, pageSize)
    ensures PageOffset(pageNumber + 1, pageSize) == PageOffset(pageNumber, pageSize) + pageSize
  {
    assert 0 <= (pageNumber - 1) * pageSize <= pageNumber * pageSize;
  }

  /** Page 65537 of size 65536 wraps round to offset 0, the first page; page 0
      asks for a negative offset. */
  lemma PageOffsetEdges()
    ensures PageOffset(65537, 65536) == 0
    ensures PageOffset(0, 10) == -10
    ensures PageOffset(Int32Min, 1) == Int32Max
  {
    assert (65537 - 1) * 65536 == TwoTo32;
  }

  // ---- Wire conversion.

  /** `request.Metadata?.X ?? default`: an unset metadata field is the default
      metadata; a set one is taken field by field. */
  function ToModelMetadata(wire: Option<BlueprintProto.BlueprintMetadata>): (m: BlueprintMetadata)
    ensures wire.None? ==> m == DefaultMetadata()
    ensures wire.Some? ==> m.owner == wire.value.owner && m.version == wire.value.version && m.tags == wire.value.tags
  {
    match wire
    case None => DefaultMetadata()
    case Some(m) => BlueprintMetadata(m.owner, m.version, m.tags)
  }

  function ToCreateRequest(request: BlueprintProto.CreateBlueprintRequest): (r: CreateBlueprintRequest)
    ensures r.name == request.name && r.description == request.description
    ensures r.metadata == ToModelMetadata(request.metadata)
  {
    CreateBlueprintRequest(request.name, request.description, ToModelMetadata(request.metadata))
  }

  /** `id` is the parsed identifier. */
  function ToUpdateRequest(request: BlueprintProto.UpdateBlueprintRequest, id: Guid): (r: UpdateBlueprintRequest)
    ensures r.id == id && r.name == request.name && r.description == request.description
    ensures r.metadata == ToModelMetadata(request.metadata)
  {
    UpdateBlueprintRequest(id, request.name, request.description, ToModelMetadata(request.metadata))
  }

  /** The object initializer of a wire Blueprint: owner and version, no tags yet. */
  function WireBlueprintWithoutTags(b: BlueprintResponse, guids: GuidFormat): (w: BlueprintProto.Blueprint)
    ensures w.id == guids.format(b.id) && w.name == b.name && w.description == b.description
    ensures w.createdAt == b.createdAt && w.updatedAt == b.updatedAt
    ensures w.metadata.owner == b.metadata.owner && w.metadata.version == b.metadata.version
    ensures w.metadata.tags == []
  {
    BlueprintProto.Blueprint(guids.format(b.id), b.name, b.description, b.createdAt, b.updatedAt,
                             BlueprintProto.BlueprintMetadata(b.metadata.owner, b.metadata.version, []))
  }

  /** The wire Blueprint with the tags added after the initializer. */
  function WireBlueprint(b: BlueprintResponse, guids: GuidFormat): (w: BlueprintProto.Blueprint)
    ensures w == WireBlueprintWithoutTags(b, guids).(metadata := w.metadata)
    ensures w.metadata.owner == b.metadata.owner && w.metadata.version == b.metadata.version
    ensures w.metadata.tags == b.metadata.tags
  {
    var w := WireBlueprintWithoutTags(b, guids);
    w.(metadata := w.metadata.(tags := b.metadata.tags))
  }

  /** Wire metadata read back as a request gives the response's metadata: with
      tags for a full wire Blueprint, without them for the initializer alone. */
  lemma WireMetadataRoundTrip(b: BlueprintResponse, guids: GuidFormat)
    ensures ToModelMetadata(Some(WireBlueprint(b, guids).metadata)) == b.metadata
    ensures ToModelMetadata(Some(WireBlueprintWithoutTags(b, guids).metadata)) == b.metadata.(tags := [])
  {
  }

  /** Distinct responses give distinct wire Blueprints when identifiers format
      injectively. */
  lemma WireBlueprintInjective(a: BlueprintResponse, b: BlueprintResponse, guids: GuidFormat)
    requires ParsesOwnFormat(guids)
    requires WireBlueprint(a, guids) == WireBlueprint(b, guids)
    ensures a == b
  {
    assert guids.parse(guids.format(a.id)) == Some(a.id);
    assert guids.parse(guids.format(b.id)) == Some(b.id);
  }

  /** Builds the wire Blueprint, adding the tags one at a time. */
  method BuildWireBlueprint(b: BlueprintResponse, guids: GuidFormat) returns (wire: BlueprintProto.Blueprint)
    ensures wire == WireBlueprint(b, guids)
  {
    wire := WireBlueprintWithoutTags(b, guids);
    var tags := wire.metadata.tags;
    for i := 0 to |b.metadata.tags|
      invariant tags == b.metadata.tags[..i]
    {
      tags := tags + [b.metadata.tags[i]];
    }
    assert b.metadata.tags[..|b.metadata.tags|] == b.metadata.tags;
    wire := wire.(metadata := wire.metadata.(tags := tags));
  }

  /** Builds the list response, one wire Blueprint per response, in order. */
  method BuildListResponse(responses: seq<BlueprintResponse>, guids: GuidFormat)
    returns (list: BlueprintProto.ListBlueprintsResponse)
    ensures |list.blueprints| == |responses|
    ensures forall i :: 0 <= i < |responses| ==> list.blueprints[i] == WireBlueprint(responses[i], guids)
  {
    list := BlueprintProto.ListBlueprintsResponse([]);
    for i := 0 to |responses|
      invariant |list.blueprints| == i
      invariant forall k :: 0 <= k < i ==> list.blueprints[k] == WireBlueprint(responses[k], guids)
    {
      var wire := BuildWireBlueprint(responses[i], guids);
      list := list.(blueprints := list.blueprints + [wire]);
    }
  }

  // ---- From service outcome to reply.

  function GetReply(text: string, outcome: Result<Option<BlueprintResponse>>, guids: GuidFormat)
    : (r: Reply<BlueprintProto.GetBlueprintResponse>)
    ensures r.Reply? <==> outcome.Ok? && outcome.value.Some?
    ensures r.Reply? ==> r.message.blueprint == WireBlueprint(outcome.value.value, guids)
    ensures outcome == Ok(None) ==> r.status == NotFoundStatus(text)
    ensures outcome.Err? ==> r.status == InternalStatus
  {
    match outcome
    case Err(_) => RpcException(InternalStatus)
    case Ok(None) => RpcException(NotFoundStatus(text))
    case Ok(Some(b)) => Reply(BlueprintProto.GetBlueprintResponse(WireBlueprint(b, guids)))
  }

  function ListReply(outcome: Result<seq<BlueprintResponse>>, guids: GuidFormat)
    : (r: Reply<BlueprintProto.ListBlueprintsResponse>)
    ensures r.Reply? <==> outcome.Ok?
    ensures r.RpcException? ==> r.status == InternalStatus
    ensures r.Reply? ==> |r.message.blueprints| == |outcome.value|
                         && forall i :: 0 <= i < |outcome.value| ==>
                              r.message.blueprints[i] == WireBlueprint(outcome.value[i], guids)
  {
    match outcome
    case Err(_) => RpcException(InternalStatus)
    case Ok(responses) =>
      Reply(BlueprintProto.ListBlueprintsResponse(seq(|responses|, i requires 0 <= i < |responses| => WireBlueprint(responses[i], guids))))
  }

  /** An ArgumentException keeps its message as an InvalidArgument status;
      anything else becomes Internal. */
  function CreateReply(outcome: Result<BlueprintResponse>, guids: GuidFormat)
    : (r: Reply<BlueprintProto.CreateBlueprintResponse>)
    ensures r.Reply? <==> outcome.Ok?
    ensures r.Reply? ==> r.message.blueprint == WireBlueprintWithoutTags(outcome.value, guids)
    ensures outcome.Err? && outcome.failure.ArgumentError? ==>
              r.status == Status(InvalidArgument, outcome.failure.message)
    ensures outcome.Err? && outcome.failure.StoreError? ==> r.status == InternalStatus
  {
    match outcome
    case Err(ArgumentError(message)) => RpcException(Status(InvalidArgument, message))
    case Err(_) => RpcException(InternalStatus)
    case Ok(b) => Reply(BlueprintProto.CreateBlueprintResponse(WireBlueprintWithoutTags(b, guids)))
  }

  function UpdateReply(text: string, outcome: Result<Option<BlueprintResponse>>, guids: GuidFormat)
    : (r: Reply<BlueprintProto.UpdateBlueprintResponse>)
    ensures r.Reply? <==> outcome.Ok? && outcome.value.Some?
    ensures r.Reply? ==> r.message.blueprint == WireBlueprint(outcome.value.value, guids)
    ensures outcome == Ok(None) ==> r.status == NotFoundStatus(text)
    ensures outcome.Err? && outcome.failure.ArgumentError? ==>
              r.status == Status(InvalidArgument, outcome.failure.message)
    ensures outcome.Err? && outcome.failure.StoreError? ==> r.status == InternalStatus
  {
    match outcome
    case Err(ArgumentError(message)) => RpcException(Status(InvalidArgument, message))
    case Err(_) => RpcException(InternalStatus)
    case Ok(None) => RpcException(NotFoundStatus(text))
    case Ok(Some(b)) => Reply(BlueprintProto.UpdateBlueprintResponse(WireBlueprint(b, guids)))
  }

  /** Delete has no ArgumentException handler: every failure is Internal. */
  function DeleteReply(text: string, outcome: Result<bool>): (r: Reply<BlueprintProto.DeleteBlueprintResponse>)
    ensures r.Reply? <==> outcome == Ok(true)
    ensures outcome == Ok(false) ==> r.status == NotFoundStatus(text)
    ensures outcome.Err? ==> r.status == InternalStatus
  {
    match outcome
    case Err(_) => RpcException(InternalStatus)
    case Ok(false) => RpcException(NotFoundStatus(text))
    case Ok(true) => Reply(BlueprintProto.DeleteBlueprintResponse)
  }

  /** The replies ListBlueprints can give for a request over a repository state. */
  ghost predicate IsListReply(rows: Table, reachable: bool, codec: JsonCodec, le: (string, string) -> bool,
                              request: BlueprintProto.ListBlueprintsRequest, guids: GuidFormat,
                              r: Reply<BlueprintProto.ListBlueprintsResponse>)
  {
    exists outcome :: IsGetAllResponse(rows, reachable, codec, le, request.pageSize,
                                        PageOffset(request.pageNumber, request.pageSize), outcome)
                      && r == ListReply(outcome, guids)
  }

  class BlueprintGrpcService {
    const service: BlueprintService
    const guids: GuidFormat

    constructor (service: BlueprintService, guids: GuidFormat)
      ensures this.service == service && this.guids == guids
    {
      this.service := service;
      this.guids := guids;
    }

    method GetBlueprint(request: BlueprintProto.GetBlueprintRequest) returns (r: Reply<BlueprintProto.GetBlueprintResponse>)
      requires service.repository.Valid()
      modifies service.repository`calls
      ensures var repository := service.repository;
              match guids.parse(request.id)
              case None => r == RpcException(InvalidIdStatus(request.id)) && repository.calls == old(repository.calls)
              case Some(id) =>
                && r == GetReply(request.id, GetByIdResponse(repository.rows, repository.reachable, repository.codec, id), guids)
                && repository.calls == old(repository.calls) + [GetById(id)]
    {
      var parsed := guids.parse(request.id);
      if parsed.None? {
        return RpcException(InvalidIdStatus(request.id));
      }
      var blueprint := service.GetByIdAsync(parsed.value);
      if blueprint.Err? {
        return RpcException(InternalStatus);
      }
      if blueprint.value.None? {
        return RpcException(NotFoundStatus(request.id));
      }
      var wire := BuildWireBlueprint(blueprint.value.value, guids);
      r := Reply(BlueprintProto.GetBlueprintResponse(wire));
    }

    method ListBlueprints(request: BlueprintProto.ListBlueprintsRequest) returns (r: Reply<BlueprintProto.ListBlueprintsResponse>)
      requires service.repository.Valid()
      modifies service.repository`calls
      ensures var repository := service.repository;
              && repository.calls == old(repository.calls)
                   + [GetAll(request.pageSize, PageOffset(request.pageNumber, request.pageSize))]
              && IsListReply(repository.rows, repository.reachable, repository.codec, repository.nameOrder,
                             request, guids, r)
    {
      var offset := PageOffset(request.pageNumber, request.pageSize);
      var blueprints := service.GetAllAsync(request.pageSize, offset);
      if blueprints.Err? {
        r := RpcException(InternalStatus);
        assert r == ListReply(blueprints, guids);
        return;
      }
      var list := BuildListResponse(blueprints.value, guids);
      r := Reply(list);
      assert list.blueprints == ListReply(blueprints, guids).message.blueprints;
    }

    /** `newId`, `createdAt` and `updatedAt` are what the service draws from the
        identifier generator and the clock. */
    method CreateBlueprint(request: BlueprintProto.CreateBlueprintRequest, newId: Guid, createdAt: Timestamp, updatedAt: Timestamp)
      returns (r: Reply<BlueprintProto.CreateBlueprintResponse>)
      requires service.repository.Valid()
      modifies service.repository`rows, service.repository`calls
      ensures service.repository.Valid()
      ensures var repository := service.repository;
              var model := ToCreateRequest(request);
              var t := CreateResponse(old(repository.rows), repository.reachable, repository.codec, model, newId, createdAt, updatedAt);
              && repository.rows == t.rows && r == CreateReply(t.result, guids)
              && repository.calls == old(repository.calls) + CreateCalls(model, newId)
    {
      var createRequest := ToCreateRequest(request);
      var blueprint := service.CreateAsync(createRequest, newId, createdAt, updatedAt);
      r := match blueprint
        case Err(ArgumentError(message)) => RpcException(Status(InvalidArgument, message))
        case Err(_) => RpcException(InternalStatus)
        case Ok(b) => Reply(BlueprintProto.CreateBlueprintResponse(WireBlueprintWithoutTags(b, guids)));
    }

    /** `now` is what the service reads from the clock; `vanished` says whether
        another client deletes the row between the service's read and write. */
    method UpdateBlueprint(request: BlueprintProto.UpdateBlueprintRequest, now: Timestamp, vanished: bool)
      returns (r: Reply<BlueprintProto.UpdateBlueprintResponse>)
      requires service.repository.Valid()
      modifies service.repository`rows, service.repository`calls
      ensures service.repository.Valid()
      ensures var repository := service.repository;
              match guids.parse(request.id)
              case None =>
                && r == RpcException(InvalidIdStatus(request.id))
                && repository.rows == old(repository.rows) && repository.calls == old(repository.calls)
              case Some(id) =>
                var model := ToUpdateRequest(request, id);
                var t := UpdateResponse(old(repository.rows), repository.reachable, repository.codec, model, now, vanished);
                && repository.rows == t.rows && r == UpdateReply(request.id, t.result, guids)
                && repository.calls == old(repository.calls) + UpdateCalls(old(repository.rows), repository.reachable, model)
    {
      var parsed := guids.parse(request.id);
      if parsed.None? {
        return RpcException(InvalidIdStatus(request.id));
      }
      var updateRequest := ToUpdateRequest(request, parsed.value);
      var blueprint := service.UpdateAsync(updateRequest, now, vanished);
      match blueprint {
        case Err(ArgumentError(message)) =>
          r := RpcException(Status(InvalidArgument, message));
        case Err(_) =>
          r := RpcException(InternalStatus);
        case Ok(None) =>
          r := RpcException(NotFoundStatus(request.id));
        case Ok(Some(b)) =>
          var wire := BuildWireBlueprint(b, guids);
          r := Reply(BlueprintProto.UpdateBlueprintResponse(wire));
      }
    }

    method DeleteBlueprint(request: BlueprintProto.DeleteBlueprintRequest) returns (r: Reply<BlueprintProto.DeleteBlueprintResponse>)
      requires service.repository.Valid()
      modifies service.repository`rows, service.repository`calls
      ensures service.repository.Valid()
      ensures var repository := service.repository;
              match guids.parse(request.id)
              case None =>
                && r == RpcException(InvalidIdStatus(request.id))
                && repository.rows == old(repository.rows) && repository.calls == old(repository.calls)
              case Some(id) =>
                var t := DeleteOutcome(old(repository.rows), repository.reachable, id);
                && repository.rows == t.rows && r == DeleteReply(request.id, t.result)
                && repository.calls == old(repository.calls) + [Delete(id)]
    {
      var parsed := guids.parse(request.id);
      if parsed.None? {
        return RpcException(InvalidIdStatus(request.id));
      }
      var success := service.DeleteAsync(parsed.value);
      r := match success
        case Err(_) => RpcException(InternalStatus)
        case Ok(false) => RpcException(NotFoundStatus(request.id))
        case Ok(true) => Reply(BlueprintProto.DeleteBlueprintResponse);
    }
  }

  /** Whatever the outcome, an Internal status from any of the five handlers
      carries only the fixed text: no failure detail reaches the caller. */
  lemma InternalDetailIsFixed(text: string, outcome: Result<Option<BlueprintResponse>>,
                              listed: Result<seq<BlueprintResponse>>, created: Result<BlueprintResponse>,
                              deleted: Result<bool>, guids: GuidFormat)
    ensures var r := GetReply(text, outcome, guids);
            r.RpcException? && r.status.code == Internal ==> r.status == InternalStatus
    ensures var r := ListReply(listed, guids);
            r.RpcException? && r.status.code == Internal ==> r.status == InternalStatus
    ensures var r := CreateReply(created, guids);
            r.RpcException? && r.status.code == Internal ==> r.status == InternalStatus
    ensures var r := UpdateReply(text, outcome, guids);
            r.RpcException? && r.status.code == Internal ==> r.status == InternalStatus
    ensures var r := DeleteReply(text, deleted);
            r.RpcException? && r.status.code == Internal ==> r.status == InternalStatus
  {
  }

  /** A page request the store refuses, and an unreachable store, both read as Internal. */
  lemma ListFailuresAreInternal(rows: Table, codec: JsonCodec, le: (string, string) -> bool,
                                request: BlueprintProto.ListBlueprintsRequest, guids: GuidFormat,
                                reachable: bool, r: Reply<BlueprintProto.ListBlueprintsResponse>)
    requires IsListReply(rows, reachable, codec, le, request, guids, r)
    requires !reachable || request.pageSize < 0 || PageOffset(request.pageNumber, request.pageSize) < 0
    ensures r == RpcException(InternalStatus)
  {
  }

  /** Page 0 of a non-empty page size asks for a negative offset, which the store refuses. */
  lemma PageZeroIsInternal(rows: Table, codec: JsonCodec, le: (string, string) -> bool, pageSize: Int32,
                           guids: GuidFormat, r: Reply<BlueprintProto.ListBlueprintsResponse>)
    requires 0 < pageSize
    requires IsListReply(rows, true, codec, le, BlueprintProto.ListBlueprintsRequest(0, pageSize), guids, r)
    ensures r == RpcException(InternalStatus)
  {
    assert PageOffset(0, pageSize) == -pageSize;
  }

  /** A blueprint created over the wire and read back: the create reply has no
      tags, while the get reply carries the request's tags in order. */
  lemma CreateReplyOmitsTags(rows: Table, codec: JsonCodec, guids: GuidFormat,
                             request: BlueprintProto.CreateBlueprintRequest,
                             newId: Guid, createdAt: Timestamp, updatedAt: Timestamp)
    requires PrimaryKey(rows) && RoundTrips(codec) && ParsesOwnFormat(guids)
    requires request.name != "" && newId !in rows
    ensures var t := CreateResponse(rows, true, codec, ToCreateRequest(request), newId, createdAt, updatedAt);
            var created := CreateReply(t.result, guids);
            var text := guids.format(newId);
            var fetched := GetReply(text, GetByIdResponse(t.rows, true, codec, guids.parse(text).value), guids);
            && created.Reply? && fetched.Reply?
            && created.message.blueprint.metadata.tags == []
            && fetched.message.blueprint.metadata.tags == ToModelMetadata(request.metadata).tags
            && fetched.message.blueprint == created.message.blueprint.(metadata := fetched.message.blueprint.metadata)
  {
    var model := ToCreateRequest(request);
    CreatedResponseContents(rows, codec, model, newId, createdAt, updatedAt);
    CreateThenGetById(rows, codec, model, newId, createdAt, updatedAt);
    assert guids.parse(guids.format(newId)) == Some(newId);
  }

  /** Without metadata on the wire, the stored blueprint gets the default metadata. */
  lemma UnsetMetadataIsDefault(request: BlueprintProto.CreateBlueprintRequest, update: BlueprintProto.UpdateBlueprintRequest, id: Guid)
    requires request.metadata.None? && update.metadata.None?
    ensures ToCreateRequest(request).metadata == DefaultMetadata()
    ensures ToUpdateRequest(update, id).metadata == DefaultMetadata()
    ensures ToCreateRequest(request).metadata.version == "1.0.0"
  {
  }
}
