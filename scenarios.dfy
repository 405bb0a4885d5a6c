/** What a caller of the Azure service can conclude from its contracts alone
    when it combines operations: an uploaded object is listed and read back
    even when its metadata could not be saved, and a deleted object is
    neither listed nor readable. */
module Scenarios {
  import opened StorageModel
  import opened Collaborators
  import opened AwsS3

  /** Some item of `items` shows the object `key` with this size. */
  predicate Lists(items: seq<StorageItem>, key: string, size: nat)
  {
    exists i :: 0 <= i < |items| && items[i].key == key && items[i].size == size
  }

  /** Some item of `items` shows the object `key` with this size and upload time. */
  predicate ListsAt(items: seq<StorageItem>, key: string, size: nat, uploadedAt: int)
  {
    exists i :: 0 <= i < |items| && items[i].key == key && items[i].size == size && items[i].uploadedAt == uploadedAt
  }

  /** A stored blob that the enumeration names is listed with its length
      and with the upload time its first metadata row gives it. */
  lemma ListedBlob(names: seq<string>, blobs: map<string, Blob>, records: seq<ImageMetadata>, key: string)
    requires forall n :: n in names ==> n in blobs
    requires key in names
    ensures ListsAt(ListItems(names, blobs, records), key, blobs[key].ContentLength(),
                    UploadedAt(records, key, blobs[key].lastModified))
  {
    var i :| 0 <= i < |names| && names[i] == key;
    assert ListItems(names, blobs, records)[i] == ItemFor(key, blobs[key], records);
  }

  /** Upload, then list and read. Once the blob write succeeded the object is
      listed and reads back as the uploaded bytes, whatever happened to the
      message and to the metadata row. When no earlier row refers to the
      key, its upload time is the new row's when the row was saved and the
      blob's last-modified time otherwise. */
  method UploadThenListAndRead(svc: AwsS3Service, file: MultipartFile, keyUuid: string, idUuid: string,
                               writtenAt: int, savedAt: int, faults: UploadFaults)
    returns (r: Outcome<StorageError>)
    requires svc.Valid()
    modifies svc.container, svc.repository, svc.serviceBus
    ensures svc.Valid()
    ensures r.Fail? && r.error == BlobWriteFailed <==> faults.write
    ensures !faults.write ==>
              var key := GenerateKey(keyUuid, file.originalFilename);
              && svc.GetObject(key) == Success(file.content)
              && Lists(svc.ListObjects(), key, file.Size())
    ensures var key := GenerateKey(keyUuid, file.originalFilename);
            && !faults.write
            && (forall j :: 0 <= j < |old(svc.repository.records)| ==> old(svc.repository.records)[j].s3Key != key)
            ==> ListsAt(svc.ListObjects(), key, file.Size(), if r.Pass? then savedAt else writtenAt)
  {
    var key := GenerateKey(keyUuid, file.originalFilename);
    ghost var records := svc.repository.records;
    r := svc.UploadObject(file, keyUuid, idUuid, writtenAt, savedAt, faults);
    if !faults.write {
      assert svc.container.blobs[key] == Blob(file.content, file.contentType, writtenAt);
      assert svc.ListObjects() == ListItems(svc.container.names, svc.container.blobs, svc.repository.records);
      ListedBlob(svc.container.names, svc.container.blobs, svc.repository.records, key);
      ghost var shown := UploadedAt(svc.repository.records, key, writtenAt);
      if forall j :: 0 <= j < |records| ==> records[j].s3Key != key {
        if r.Pass? {
          var row := ImageMetadata(idUuid, file.originalFilename, file.contentType, file.Size(), key, GenerateUrl(key), savedAt);
          assert svc.repository.records == records + [row];
          UploadedAtOfAppendedRow(records, row, writtenAt);
        } else {
          assert svc.repository.records == records;
          UploadedAtFromFirstRow(records, key, writtenAt);
        }
        assert shown == if r.Pass? then savedAt else writtenAt;
      }
    }
  }

  /** Delete, then list and read. Once the primary delete succeeded the
      object is neither listed nor readable, whether or not the thumbnail or
      the metadata row could be removed; a delete of a missing object fails
      and leaves the metadata as it was. */
  method DeleteThenListAndRead(svc: AwsS3Service, key: string, faults: DeleteFaults)
    returns (r: Outcome<StorageError>)
    requires svc.Valid()
    modifies svc.container, svc.repository
    ensures svc.Valid()
    ensures key !in old(svc.container.blobs) ==>
              r == Fail(BlobNotFound) && svc.repository.records == old(svc.repository.records)
    ensures key in old(svc.container.blobs) && !faults.primary ==>
              && svc.GetObject(key) == Failure(BlobNotFound)
              && forall i :: 0 <= i < |svc.ListObjects()| ==> svc.ListObjects()[i].key != key
  {
    r := svc.DeleteObject(key, faults);
  }
}
