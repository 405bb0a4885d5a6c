/** The three collaborators the Azure storage service drives, reduced to the
    state they keep: the blob container (a map from blob name to blob, with
    the order in which a listing enumerates the names), the metadata
    repository (a sequence of records in `findAll` order) and the Service Bus
    template (the log of messages it has sent). Whether a remote call fails
    for a reason other than a missing key (network, permission, quota, a
    database error) is not something the model can decide: each call takes
    that as a `fault` parameter. */
module Collaborators {
  import opened StorageModel

  /** The blob container of the configured storage account. */
  class BlobContainer {
    var blobs: map<string, Blob>
    /** The order in which a listing enumerates the blob names. */
    var names: seq<string>

    /** Every stored blob is enumerated exactly once. */
    ghost predicate Valid()
      reads this
    {
      && NoDuplicates(names)
      && (forall k :: k in blobs <==> k in names)
    }

    constructor ()
      ensures Valid()
      ensures blobs == map[] && names == []
    {
      blobs := map[];
      names := [];
    }

    /** Uploads `content` under `key` with `contentType` as its content-type
        header, overwriting any blob of that name; `now` is the time the
        backend records as the blob's last-modified time. A new name joins
        the enumeration at a position the model leaves open (Azure lists in
        name order); the names already there keep their order. */
    method Upload(key: string, content: seq<byte>, contentType: string, now: int, fault: bool)
      returns (r: Outcome<StorageError>)
      requires Valid()
      modifies this
      ensures Valid()
      ensures r == (if fault then Fail(BlobWriteFailed) else Pass)
      ensures fault ==> blobs == old(blobs) && names == old(names)
      ensures !fault ==> blobs == old(blobs)[key := Blob(content, contentType, now)]
      ensures !fault && key in old(blobs) ==> names == old(names)
      ensures !fault && key !in old(blobs) ==> Inserted(old(names), key, names)
    {
      if fault {
        return Fail(BlobWriteFailed);
      }
      if key !in blobs {
        assert NoDuplicates(names + [key]) by {
          forall i, j | 0 <= i < j < |names| + 1 ensures (names + [key])[i] != (names + [key])[j] {
            if j == |names| {
              assert (names + [key])[i] == names[i];
            }
          }
        }
        InsertedAtEnd(names, key);
        names := names + [key];
      }
      blobs := blobs[key := Blob(content, contentType, now)];
      r := Pass;
    }

    /** Deletes the blob `key`; the delete fails when there is no such blob. */
    method Delete(key: string, fault: bool) returns (r: Outcome<StorageError>)
      requires Valid()
      modifies this
      ensures Valid()
      ensures r == (if key !in old(blobs) then Fail(BlobNotFound)
                    else if fault then Fail(BlobDeleteFailed)
                    else Pass)
      ensures r.Fail? ==> blobs == old(blobs) && names == old(names)
      ensures r.Pass? ==> blobs == old(blobs) - {key} && names == Without(old(names), key)
    {
      if key !in blobs {
        return Fail(BlobNotFound);
      }
      if fault {
        return Fail(BlobDeleteFailed);
      }
      blobs := blobs - {key};
      names := Without(names, key);
      r := Pass;
    }

    /** Opens the blob `key` for reading; there is no stream for a missing blob. */
    function Read(key: string): (r: Result<seq<byte>, StorageError>)
      reads this
      ensures r.Success? <==> key in blobs
      ensures r.Success? ==> r.value == blobs[key].content
      ensures r.Failure? ==> r.error == BlobNotFound
    {
      if key in blobs then Success(blobs[key].content) else Failure(BlobNotFound)
    }
  }

  /** The JPA repository of image metadata. With fresh UUIDs as ids a save
      appends a row and a delete of a found row removes that row. */
  class ImageMetadataRepository {
    /** The rows in the order `findAll` returns them. */
    var records: seq<ImageMetadata>

    constructor ()
      ensures records == []
    {
      records := [];
    }

    method Save(metadata: ImageMetadata, fault: bool) returns (r: Outcome<StorageError>)
      modifies this
      ensures r == (if fault then Fail(MetadataSaveFailed) else Pass)
      ensures records == if fault then old(records) else old(records) + [metadata]
    {
      if fault {
        return Fail(MetadataSaveFailed);
      }
      records := records + [metadata];
      r := Pass;
    }

    /** Deletes the row found at position `i` of `findAll`. */
    method Delete(i: nat, fault: bool) returns (r: Outcome<StorageError>)
      requires i < |records|
      modifies this
      ensures r == (if fault then Fail(MetadataDeleteFailed) else Pass)
      ensures records == if fault then old(records) else old(records[..i] + records[i + 1..])
    {
      if fault {
        return Fail(MetadataDeleteFailed);
      }
      records := records[..i] + records[i + 1..];
      r := Pass;
    }
  }

  /** The Service Bus template, reduced to the log of the messages it sent to
      the image processing queue. */
  class ServiceBusTemplate {
    var sent: seq<ImageProcessingMessage>

    constructor ()
      ensures sent == []
    {
      sent := [];
    }

    method Send(message: ImageProcessingMessage, fault: bool) returns (r: Outcome<StorageError>)
      modifies this
      ensures r == (if fault then Fail(MessageSendFailed) else Pass)
      ensures sent == if fault then old(sent) else old(sent) + [message]
    {
      if fault {
        return Fail(MessageSendFailed);
      }
      sent := sent + [message];
      r := Pass;
    }
  }
}
