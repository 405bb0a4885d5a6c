/** The stand-in backend selected when `storage.type` is "mock". It keeps no
    state at all: every operation succeeds and every query answers the same
    constant, whatever was uploaded or deleted before. Its console logging is
    not modelled. */
module MockStorage {
  import opened StorageModel

  /** The tag this backend reports; it is also the `storage.type` value that
      activates it. */
  const StorageType: string := "mock"

  /** The listing never shows an object, not even one just uploaded. */
  function ListObjects(): (items: seq<StorageItem>)
    ensures |items| == 0
  {
    []
  }

  /** An upload is accepted and stored nowhere. */
  function UploadObject(file: MultipartFile): (r: Outcome<StorageError>)
    ensures r.Pass?
  {
    Pass
  }

  /** Every key reads back as a stream of no bytes; no key is ever missing. */
  function GetObject(key: string): (r: Result<seq<byte>, StorageError>)
    ensures r.Success? && |r.value| == 0
  {
    Success([])
  }

  /** A delete succeeds for every key, present or not. */
  function DeleteObject(key: string): (r: Outcome<StorageError>)
    ensures r.Pass?
  {
    Pass
  }

  function GetStorageType(): (t: string)
    ensures t == StorageType
  {
    "mock"
  }

  /** Unlike the Azure service, the mock does not give back what was
      uploaded: a non-empty file is accepted and then reads back empty under
      every key, and the listing stays empty. */
  lemma UploadIsNotReadBack(file: MultipartFile, key: string)
    requires file.Size() > 0
    ensures UploadObject(file).Pass?
    ensures GetObject(key) != Success(file.content)
    ensures ListObjects() == []
  {
  }
}
