/** The records of the blueprint service: the storage row, the domain object,
    the metadata sub-document, the two request shapes and the response. Each
    record is an immutable value; `NewX()` is the value of `new X()` in the
    source, with every property at its declared default. */
module Models {
  import opened Common

  /** Owner, version and ordered tags, stored as a JSON document. */
  datatype BlueprintMetadata = BlueprintMetadata(owner: string, version: string, tags: seq<string>)

  /** The storage row; `metadata` is the JSON text of the `metadata` column. */
  datatype BlueprintEntity = BlueprintEntity(
    id: Guid,
    name: string,
    description: string,
    createdAt: Timestamp,
    updatedAt: Timestamp,
    metadata: string)

  /** The domain object; its metadata is always a structured value. */
  datatype Blueprint = Blueprint(
    id: Guid,
    name: string,
    description: string,
    createdAt: Timestamp,
    updatedAt: Timestamp,
    metadata: BlueprintMetadata)

  /** A create request: no identifier and no timestamps. */
  datatype CreateBlueprintRequest = CreateBlueprintRequest(
    name: string,
    description: string,
    metadata: BlueprintMetadata)

  /** An update request: a create request plus the target identifier. */
  datatype UpdateBlueprintRequest = UpdateBlueprintRequest(
    id: Guid,
    name: string,
    description: string,
    metadata: BlueprintMetadata)

  /** The externally visible shape: the fields of Blueprint, as a distinct type. */
  datatype BlueprintResponse = BlueprintResponse(
    id: Guid,
    name: string,
    description: string,
    createdAt: Timestamp,
    updatedAt: Timestamp,
    metadata: BlueprintMetadata)

  const DefaultVersion: string := "1.0.0"

  /** `new BlueprintMetadata()`: no owner, version 1.0.0, no tags. */
  function DefaultMetadata(): (m: BlueprintMetadata)
    ensures m.owner == "" && m.version == DefaultVersion && m.tags == []
  {
    BlueprintMetadata("", DefaultVersion, [])
  }

  /** `new BlueprintEntity()`: the metadata text is empty, not "{}". */
  function NewBlueprintEntity(): BlueprintEntity {
    BlueprintEntity(EmptyGuid, "", "", MinDateTime, MinDateTime, "")
  }

  function NewBlueprint(): Blueprint {
    Blueprint(EmptyGuid, "", "", MinDateTime, MinDateTime, DefaultMetadata())
  }

  function NewCreateBlueprintRequest(): CreateBlueprintRequest {
    CreateBlueprintRequest("", "", DefaultMetadata())
  }

  function NewUpdateBlueprintRequest(): UpdateBlueprintRequest {
    UpdateBlueprintRequest(EmptyGuid, "", "", DefaultMetadata())
  }

  function NewBlueprintResponse(): BlueprintResponse {
    BlueprintResponse(EmptyGuid, "", "", MinDateTime, MinDateTime, DefaultMetadata())
  }

  /** Every record starts with empty name and description, and every record
      with structured metadata starts with the default metadata. */
  lemma RecordDefaults()
    ensures NewBlueprintEntity().name == "" && NewBlueprintEntity().description == ""
    ensures NewBlueprintEntity().metadata == ""
    ensures NewBlueprint().name == "" && NewBlueprint().description == ""
    ensures NewBlueprint().metadata == DefaultMetadata()
    ensures NewCreateBlueprintRequest().name == "" && NewCreateBlueprintRequest().description == ""
    ensures NewCreateBlueprintRequest().metadata == DefaultMetadata()
    ensures NewUpdateBlueprintRequest().name == "" && NewUpdateBlueprintRequest().description == ""
    ensures NewUpdateBlueprintRequest().metadata == DefaultMetadata()
    ensures NewBlueprintResponse().name == "" && NewBlueprintResponse().description == ""
    ensures NewBlueprintResponse().metadata == DefaultMetadata()
  {
  }
}
