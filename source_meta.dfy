/**
 * `SourceMeta`, the record the REST gateway and the content ingestion
 * service keep for each uploaded source, and its `SourceType`, parsed from
 * a file extension. Both services define the same entity; it is modelled
 * once.
 */
module SourceMeta {
  import opened Wrappers

  /** An identifier (`uuid::Uuid`); how it is drawn is not part of this model. */
  datatype Uuid = Uuid(value: nat)

  /** A point in time (`DateTime<Utc>`), in milliseconds. */
  datatype Timestamp = Timestamp(millis: int)

  datatype SourceType = Epub

  /** The job message's copy of the type (`SourceTypeDto`). */
  datatype SourceTypeDto = EpubDto

  /** The database name of a type (`rename_all = "lowercase"`). */
  function Name(t: SourceType): (s: string)
    ensures s == "epub" <==> t == Epub
  {
    match t
    case Epub => "epub"
  }

  const INVALID_SOURCE_TYPE: string := "Invalid SourceType: "

  /** `SourceType::from_str`: exactly "epub" is accepted; the error names the input. */
  function FromStr(s: string): (r: Result<SourceType, string>)
    ensures r.Ok? <==> s == "epub"
    ensures r.Err? ==> r.error == INVALID_SOURCE_TYPE + s
  {
    if s == "epub" then Ok(Epub) else Err(INVALID_SOURCE_TYPE + s)
  }

  /** Every type parses back from its name, and a name parses only to its type. */
  lemma FromStrName(t: SourceType, s: string)
    ensures FromStr(Name(t)) == Ok(t)
    ensures FromStr(s).Ok? ==> Name(FromStr(s).value) == s
  {
  }

  /** Parsing is case-sensitive: "EPUB" is refused. */
  lemma FromStrCaseSensitive()
    ensures FromStr("EPUB") == Err("Invalid SourceType: EPUB")
  {
    assert "EPUB" != "epub";
    assert INVALID_SOURCE_TYPE + "EPUB" == "Invalid SourceType: EPUB";
  }

  /** `From<SourceType> for SourceTypeDto`. */
  function ToDto(t: SourceType): (d: SourceTypeDto)
    ensures t == Epub ==> d == EpubDto
  {
    match t
    case Epub => EpubDto
  }

  datatype SourceMeta = SourceMeta(
    id: Uuid,
    userId: Uuid,
    initialName: string,
    objectStoreName: string,
    sourceType: SourceType,
    addedAt: Timestamp,
    extractedAt: Option<Timestamp>)

  /**
   * `SourceMeta::builder()...build()` with the defaults left in place: the
   * id is a fresh one (`freshId`), `added_at` is the current time (`now`),
   * and nothing has been extracted yet.
   */
  function Build(userId: Uuid, initialName: string, objectStoreName: string, sourceType: SourceType,
                 freshId: Uuid, now: Timestamp): (m: SourceMeta)
    ensures m.id == freshId && m.addedAt == now && m.extractedAt == None
    ensures m.userId == userId && m.initialName == initialName
    ensures m.objectStoreName == objectStoreName && m.sourceType == sourceType
  {
    SourceMeta(freshId, userId, initialName, objectStoreName, sourceType, now, None)
  }
}
