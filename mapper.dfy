/** Conversions between storage rows, domain objects, responses and requests.
    JSON encoding of the metadata column is a parameter (`JsonCodec`); the
    clock and the identifier generator are parameters of the create and
    update conversions. */
module Mapper {
  import opened Common
  import opened Models

  /** What deserializing a JSON text as BlueprintMetadata gives: a thrown
      JsonException, a null (the text `null`), or a value. */
  datatype Deserialized = Malformed | NullDocument | Parsed(metadata: BlueprintMetadata)

  /** The JSON serializer as seen by the mapper; `serialize` gives None when it throws. */
  datatype JsonCodec = JsonCodec(
    serialize: BlueprintMetadata -> Option<string>,
    deserialize: string -> Deserialized)

  /** The serializer's promise: serialization succeeds with a non-empty text that
      deserializes back to the same value. */
  ghost predicate RoundTrips(codec: JsonCodec) {
    forall m ::
      codec.serialize(m).Some? && codec.serialize(m).value != ""
      && codec.deserialize(codec.serialize(m).value) == Parsed(m)
  }

  /** The `metadata` column text used when serialization throws. */
  const EmptyJsonObject: string := "{}"

  /** The try block of MapToDomainModel: empty text, a JsonException and a null
      document all fall back to the default metadata. */
  function DecodeMetadata(codec: JsonCodec, text: string): (m: BlueprintMetadata)
    ensures text != "" && codec.deserialize(text).Parsed? ==> m == codec.deserialize(text).metadata
    ensures text == "" || !codec.deserialize(text).Parsed? ==> m == DefaultMetadata()
  {
    if text == "" then DefaultMetadata()
    else match codec.deserialize(text)
      case Parsed(m) => m
      case NullDocument => DefaultMetadata()
      case Malformed => DefaultMetadata()
  }

  /** Storage row to domain object; never fails. */
  function MapToDomainModel(codec: JsonCodec, entity: BlueprintEntity): (b: Blueprint)
    ensures b.id == entity.id && b.name == entity.name && b.description == entity.description
    ensures b.createdAt == entity.createdAt && b.updatedAt == entity.updatedAt
    ensures entity.metadata != "" && codec.deserialize(entity.metadata).Parsed? ==>
              b.metadata == codec.deserialize(entity.metadata).metadata
    ensures entity.metadata == "" || !codec.deserialize(entity.metadata).Parsed? ==> b.metadata == DefaultMetadata()
  {
    Blueprint(entity.id, entity.name, entity.description, entity.createdAt, entity.updatedAt,
              DecodeMetadata(codec, entity.metadata))
  }

  /** Domain object to storage row; never fails. */
  function MapToEntity(codec: JsonCodec, model: Blueprint): (e: BlueprintEntity)
    ensures e.id == model.id && e.name == model.name && e.description == model.description
    ensures e.createdAt == model.createdAt && e.updatedAt == model.updatedAt
    ensures codec.serialize(model.metadata).Some? ==> e.metadata == codec.serialize(model.metadata).value
    ensures codec.serialize(model.metadata).None? ==> e.metadata == EmptyJsonObject
  {
    var serialized := match codec.serialize(model.metadata)
      case Some(text) => text
      case None => EmptyJsonObject;
    BlueprintEntity(model.id, model.name, model.description, model.createdAt, model.updatedAt, serialized)
  }

  /** A field-for-field copy into the response shape. */
  function MapToResponse(model: Blueprint): (r: BlueprintResponse)
    ensures r.id == model.id && r.name == model.name && r.description == model.description
    ensures r.createdAt == model.createdAt && r.updatedAt == model.updatedAt && r.metadata == model.metadata
  {
    BlueprintResponse(model.id, model.name, model.description, model.createdAt, model.updatedAt, model.metadata)
  }

  /** `newId` is the value of Guid.NewGuid(); `createdAt` and `updatedAt` are two
      separate readings of the clock, which need not be equal. */
  function MapFromCreateRequest(request: CreateBlueprintRequest, newId: Guid, createdAt: Timestamp, updatedAt: Timestamp): (b: Blueprint)
    ensures b.id == newId
    ensures b.name == request.name && b.description == request.description && b.metadata == request.metadata
    ensures b.createdAt == createdAt && b.updatedAt == updatedAt
  {
    Blueprint(newId, request.name, request.description, createdAt, updatedAt, request.metadata)
  }

  /** `existing with { ... }`: `request.id` is not read. */
  function MapFromUpdateRequest(request: UpdateBlueprintRequest, existing: Blueprint, now: Timestamp): (b: Blueprint)
    ensures b.id == existing.id && b.createdAt == existing.createdAt
    ensures b.name == request.name && b.description == request.description && b.metadata == request.metadata
    ensures b.updatedAt == now
  {
    existing.(name := request.name, description := request.description, updatedAt := now, metadata := request.metadata)
  }

  /** `entities.Select(MapToDomainModel)`. */
  function MapToDomainModels(codec: JsonCodec, entities: seq<BlueprintEntity>): (models: seq<Blueprint>)
    ensures |models| == |entities|
    ensures forall i :: 0 <= i < |entities| ==> models[i] == MapToDomainModel(codec, entities[i])
  {
    seq(|entities|, i requires 0 <= i < |entities| => MapToDomainModel(codec, entities[i]))
  }

  function MapToResponses(models: seq<Blueprint>): (responses: seq<BlueprintResponse>)
    ensures |responses| == |models|
    ensures forall i :: 0 <= i < |models| ==> responses[i] == MapToResponse(models[i])
  {
    seq(|models|, i requires 0 <= i < |models| => MapToResponse(models[i]))
  }

  /** Stored metadata that is empty, malformed, or the JSON `null` decodes to the
      default metadata; decoding never fails. */
  lemma MetadataFallback(codec: JsonCodec, entity: BlueprintEntity)
    requires entity.metadata == "" || !codec.deserialize(entity.metadata).Parsed?
    ensures MapToDomainModel(codec, entity).metadata == DefaultMetadata()
    ensures MapToDomainModel(codec, entity) == MapToDomainModel(codec, entity.(metadata := ""))
  {
  }

  /** Storing a domain object and reading it back gives the same object,
      provided the serializer round-trips. */
  lemma EntityRoundTrip(codec: JsonCodec, b: Blueprint)
    requires RoundTrips(codec)
    ensures MapToDomainModel(codec, MapToEntity(codec, b)) == b
  {
    assert codec.deserialize(codec.serialize(b.metadata).value) == Parsed(b.metadata);
  }

  /** When serialization throws, the row holds "{}" and the metadata read back
      is whatever "{}" deserializes to: the object's own metadata is lost. */
  lemma SerializeFailureLosesMetadata(codec: JsonCodec, b: Blueprint)
    requires codec.serialize(b.metadata).None?
    requires codec.deserialize(EmptyJsonObject) == Parsed(DefaultMetadata())
    ensures MapToEntity(codec, b).metadata == EmptyJsonObject
    ensures MapToDomainModel(codec, MapToEntity(codec, b)) == b.(metadata := DefaultMetadata())
  {
  }

  /** The response carries exactly the fields of the domain object: the mapping
      is one-to-one and every response is the image of some domain object. */
  lemma ResponseMirrorsBlueprint(a: Blueprint, b: Blueprint, r: BlueprintResponse)
    ensures MapToResponse(a) == MapToResponse(b) ==> a == b
    ensures exists m :: MapToResponse(m) == r
  {
    var m := Blueprint(r.id, r.name, r.description, r.createdAt, r.updatedAt, r.metadata);
    assert MapToResponse(m) == r;
  }

  /** The defaults of the three shapes agree: a default row decodes to the
      default domain object, whose response is the default response, and a
      default create request yields the default metadata. */
  lemma DefaultsCorrespond(codec: JsonCodec, newId: Guid, createdAt: Timestamp, updatedAt: Timestamp)
    ensures MapToDomainModel(codec, NewBlueprintEntity()) == NewBlueprint()
    ensures MapToResponse(NewBlueprint()) == NewBlueprintResponse()
    ensures MapFromCreateRequest(NewCreateBlueprintRequest(), newId, createdAt, updatedAt).metadata == DefaultMetadata()
  {
  }

  /** The two timestamps of a new blueprint are equal only when the two clock
      readings are. */
  lemma CreateTimestampsFollowClock(request: CreateBlueprintRequest, newId: Guid, createdAt: Timestamp, updatedAt: Timestamp)
    ensures var b := MapFromCreateRequest(request, newId, createdAt, updatedAt);
            b.createdAt == b.updatedAt <==> createdAt == updatedAt
  {
  }

  /** Update is whole-record replacement keyed on the existing object: the
      request's own id is irrelevant, and applying the same request again at the
      same instant changes nothing. */
  lemma UpdateIgnoresRequestIdAndIsIdempotent(request: UpdateBlueprintRequest, other: Guid, existing: Blueprint, now: Timestamp)
    ensures MapFromUpdateRequest(request.(id := other), existing, now) == MapFromUpdateRequest(request, existing, now)
    ensures var once := MapFromUpdateRequest(request, existing, now);
            MapFromUpdateRequest(request, once, now) == once
  {
  }
}
