/** The Azure-backed storage service (the class is still called AwsS3Service
    after the migration from S3). It composes the blob container, the
    metadata repository and the optional Service Bus template: a listing
    joins every blob with its metadata row, an upload writes the blob, sends a
    processing message and saves a row, a delete removes the blob, tries its
    thumbnail and prunes the row. */
module AwsS3 {
  import opened StorageModel
  import opened Collaborators

  /** The tag this backend reports; it is also the `storage.type` value that
      activates it. */
  const StorageType: string := "azure"

  /** The application path under which a stored object is served. */
  const UrlPrefix: string := "/s3/view/"

  // ---------------------------------------------------------------------
  // Keys, names and URLs

  /** The position of the last `c` in `s`, or -1 when `s` has none
      (Java's `String.lastIndexOf`). */
  function LastIndexOf(s: string, c: char): (r: int)
    ensures -1 <= r < |s|
    ensures r >= 0 ==> s[r] == c
    ensures forall j :: r < j < |s| ==> s[j] != c
  {
    if s == [] then -1
    else if s[|s| - 1] == c then |s| - 1
    else LastIndexOf(s[..|s| - 1], c)
  }

  /** The display name of an object: what follows the last '/' of its key,
      or the whole key when there is no '/'. */
  function ExtractFilename(key: string): (name: string)
    ensures '/' !in name
    ensures |name| <= |key| && name == key[|key| - |name|..]
    ensures |name| < |key| ==> key[|key| - |name| - 1] == '/'
    ensures '/' !in key ==> name == key
  {
    var lastSlashIndex := LastIndexOf(key, '/');
    if lastSlashIndex >= 0 then key[lastSlashIndex + 1..] else key
  }

  /** The URL through which the application serves the object `key`. */
  function GenerateUrl(key: string): (url: string)
    ensures |url| == |UrlPrefix| + |key|
    ensures url[..|UrlPrefix|] == UrlPrefix
    ensures url[|UrlPrefix|..] == key
  {
    UrlPrefix + key
  }

  /** The storage key of an upload: a random UUID, a dash and the original
      file name. */
  function GenerateKey(uuid: string, filename: string): (key: string)
    ensures |key| == |uuid| + 1 + |filename|
    ensures key[..|uuid|] == uuid
    ensures key[|uuid|] == '-'
    ensures key[|uuid| + 1..] == filename
  {
    uuid + "-" + filename
  }

  predicate IsHexDigit(c: char)
  {
    '0' <= c <= '9' || 'a' <= c <= 'f'
  }

  /** The text `UUID.toString()` produces: 36 characters, lower-case hex
      digits in groups of 8-4-4-4-12 separated by dashes. */
  predicate IsUuidText(u: string)
  {
    && |u| == 36
    && forall i :: 0 <= i < 36 ==>
         if i == 8 || i == 13 || i == 18 || i == 23 then u[i] == '-' else IsHexDigit(u[i])
  }

  /** Two suffixes of `key` that contain no '/' and each reach back to a '/'
      or to the start of `key` are the same suffix: the display name is
      determined by the key. */
  lemma ExtractFilenameUnique(key: string, name: string)
    requires '/' !in name
    requires |name| <= |key| && name == key[|key| - |name|..]
    requires |name| < |key| ==> key[|key| - |name| - 1] == '/'
    ensures ExtractFilename(key) == name
  {
  }

  /** The display name of a generated key: the whole key, unless the
      original file name holds a '/', in which case it is the display name
      of the file name. The UUID never reaches the display name stripped. */
  lemma ExtractFilenameOfGeneratedKey(uuid: string, filename: string)
    requires IsUuidText(uuid)
    ensures ExtractFilename(GenerateKey(uuid, filename))
         == if '/' in filename then ExtractFilename(filename) else GenerateKey(uuid, filename)
  {
    var key := GenerateKey(uuid, filename);
    if '/' in filename {
      var name := ExtractFilename(filename);
      assert key[|key| - |name|..] == filename[|filename| - |name|..];
      assert key[|key| - |name| - 1] == filename[|filename| - |name| - 1];
      ExtractFilenameUnique(key, name);
    } else {
      assert '/' !in key by {
        forall i | 0 <= i < |key| ensures key[i] != '/' {
          if i < |uuid| {
            assert key[i] == uuid[i];
          } else if i > |uuid| {
            assert key[i] == filename[i - |uuid| - 1];
          }
        }
      }
    }
  }

  /** A generated key determines the UUID and the file name it was made
      from, so distinct UUIDs give distinct keys. */
  lemma GenerateKeyInjective(uuid1: string, filename1: string, uuid2: string, filename2: string)
    requires |uuid1| == |uuid2|
    requires GenerateKey(uuid1, filename1) == GenerateKey(uuid2, filename2)
    ensures uuid1 == uuid2 && filename1 == filename2
  {
  }

  /** The served URL determines the object key. */
  lemma GenerateUrlInjective(key1: string, key2: string)
    requires GenerateUrl(key1) == GenerateUrl(key2)
    ensures key1 == key2
  {
  }

  // ---------------------------------------------------------------------
  // The listing

  /** The position of the first metadata row whose key is `key`, in
      `findAll` order. */
  function FirstMatch(records: seq<ImageMetadata>, key: string): (r: Option<nat>)
    ensures r.Some? ==> r.value < |records| && records[r.value].s3Key == key
    ensures r.Some? ==> forall j :: 0 <= j < r.value ==> records[j].s3Key != key
    ensures r.None? ==> forall j :: 0 <= j < |records| ==> records[j].s3Key != key
  {
    if records == [] then None
    else if records[0].s3Key == key then Some(0)
    else match FirstMatch(records[1..], key)
      case None => None
      case Some(i) => Some(i + 1)
  }

  /** Appending a row leaves the first match of every key that already had
      one where it was, and makes the new row the first match of its key
      when that key had none. */
  lemma {:induction false} FirstMatchAppend(records: seq<ImageMetadata>, row: ImageMetadata, key: string)
    ensures FirstMatch(records, key).Some? ==> FirstMatch(records + [row], key) == FirstMatch(records, key)
    ensures FirstMatch(records, key).None? && row.s3Key == key ==> FirstMatch(records + [row], key) == Some(|records|)
    ensures FirstMatch(records, key).None? && row.s3Key != key ==> FirstMatch(records + [row], key).None?
  {
    if records != [] {
      assert (records + [row])[1..] == records[1..] + [row];
      FirstMatchAppend(records[1..], row, key);
    }
  }

  /** The upload time shown for blob `key`: that of the first metadata row
      for the key, or the blob's last-modified time when no row has it. */
  function UploadedAt(records: seq<ImageMetadata>, key: string, lastModified: int): (t: int)
  {
    match FirstMatch(records, key)
    case Some(i) => records[i].uploadedAt
    case None => lastModified
  }

  /** The upload time shown is that of the first row for the key; a key no
      row refers to shows the blob's last-modified time instead, so a
      missing row never fails or drops an item. */
  lemma UploadedAtFromFirstRow(records: seq<ImageMetadata>, key: string, lastModified: int)
    ensures (forall j :: 0 <= j < |records| ==> records[j].s3Key != key) ==> UploadedAt(records, key, lastModified) == lastModified
    ensures forall i :: 0 <= i < |records| && records[i].s3Key == key
                          && (forall j :: 0 <= j < i ==> records[j].s3Key != key)
                        ==> UploadedAt(records, key, lastModified) == records[i].uploadedAt
  {
  }

  /** A blob whose key no row refers to shows its own last-modified time
      until a row for it is appended, and that row's upload time after. */
  lemma UploadedAtOfAppendedRow(records: seq<ImageMetadata>, row: ImageMetadata, lastModified: int)
    requires forall j :: 0 <= j < |records| ==> records[j].s3Key != row.s3Key
    ensures UploadedAt(records, row.s3Key, lastModified) == lastModified
    ensures UploadedAt(records + [row], row.s3Key, lastModified) == row.uploadedAt
  {
    FirstMatchAppend(records, row, row.s3Key);
  }

  /** The listing entry for the blob `name`. */
  function ItemFor(name: string, blob: Blob, records: seq<ImageMetadata>): (item: StorageItem)
  {
    StorageItem(
      name,
      ExtractFilename(name),
      blob.ContentLength(),
      blob.lastModified,
      UploadedAt(records, name, blob.lastModified),
      GenerateUrl(name))
  }

  /** One entry per enumerated blob name, in enumeration order. */
  function ListItems(names: seq<string>, blobs: map<string, Blob>, records: seq<ImageMetadata>): (items: seq<StorageItem>)
    requires forall n :: n in names ==> n in blobs
    ensures |items| == |names|
    ensures forall i :: 0 <= i < |items| ==> items[i].key == names[i]
    ensures forall i :: 0 <= i < |items| ==> items[i] == ItemFor(names[i], blobs[names[i]], records)
  {
    seq(|names|, i requires 0 <= i < |names| => ItemFor(names[i], blobs[names[i]], records))
  }

  /** Listing a duplicate-free enumeration of all blob names gives exactly
      one item per blob, in enumeration order, each carrying its blob's
      name, length and last-modified time. */
  lemma ListItemsCoverBlobs(names: seq<string>, blobs: map<string, Blob>, records: seq<ImageMetadata>)
    requires NoDuplicates(names)
    requires forall k :: k in blobs <==> k in names
    ensures var items := ListItems(names, blobs, records);
            && |items| == |names| == |blobs|
            && (forall k :: k in blobs <==> exists i :: 0 <= i < |items| && items[i].key == k)
            && (forall i, j :: 0 <= i < j < |items| ==> items[i].key != items[j].key)
  {
    EnumerationLength(names, blobs);
    var items := ListItems(names, blobs, records);
    forall k | k in blobs ensures exists i :: 0 <= i < |items| && items[i].key == k {
      var i :| 0 <= i < |names| && names[i] == k;
      assert items[i].key == k;
    }
  }

  // ---------------------------------------------------------------------
  // The service

  /** Which of the remote calls of an upload fail. */
  datatype UploadFaults = UploadFaults(write: bool, send: bool, save: bool)

  /** Which of the remote calls of a delete fail. */
  datatype DeleteFaults = DeleteFaults(primary: bool, thumbnail: bool, find: bool, prune: bool)

  class AwsS3Service {
    const container: BlobContainer
    const repository: ImageMetadataRepository
    /** Absent when no Service Bus is configured. */
    const serviceBus: ServiceBusTemplate?
    /** The key of the thumbnail derived from an object's key. */
    const thumbnailKey: string -> string

    ghost predicate Valid()
      reads container
    {
      container.Valid()
    }

    constructor (container: BlobContainer, repository: ImageMetadataRepository,
                 serviceBus: ServiceBusTemplate?, thumbnailKey: string -> string)
      requires container.Valid()
      ensures Valid()
      ensures this.container == container && this.repository == repository
      ensures this.serviceBus == serviceBus && this.thumbnailKey == thumbnailKey
    {
      this.container := container;
      this.repository := repository;
      this.serviceBus := serviceBus;
      this.thumbnailKey := thumbnailKey;
    }

    /** One item per blob, in the container's enumeration order, each
        enriched from its first metadata row or falling back to the blob's
        own last-modified time. */
    function ListObjects(): (items: seq<StorageItem>)
      reads container, repository
      requires Valid()
      ensures |items| == |container.names| == |container.blobs|
      ensures forall i :: 0 <= i < |items| ==> items[i].key == container.names[i]
      ensures forall k :: k in container.blobs <==> exists i :: 0 <= i < |items| && items[i].key == k
      ensures forall i, j :: 0 <= i < j < |items| ==> items[i].key != items[j].key
      ensures forall i :: 0 <= i < |items| ==>
                var key := items[i].key;
                && key in container.blobs
                && items[i].size == |container.blobs[key].content|
                && items[i].lastModified == container.blobs[key].lastModified
                && items[i].uploadedAt == UploadedAt(repository.records, key, container.blobs[key].lastModified)
                && items[i].name == ExtractFilename(key)
                && items[i].url == UrlPrefix + key
    {
      ListItemsCoverBlobs(container.names, container.blobs, repository.records);
      ListItems(container.names, container.blobs, repository.records)
    }

    /** Stores the file under a fresh key, asks for a thumbnail when a
        Service Bus is configured and records the metadata, stopping at the
        first call that throws. `keyUuid` and `idUuid` are the two random
        UUIDs, `writtenAt` the blob's last-modified time and `savedAt` the
        upload time of the metadata row. */
    method UploadObject(file: MultipartFile, keyUuid: string, idUuid: string,
                        writtenAt: int, savedAt: int, faults: UploadFaults)
      returns (r: Outcome<StorageError>)
      requires Valid()
      modifies container, repository, serviceBus
      ensures Valid()
      ensures r == if faults.write then Fail(BlobWriteFailed)
                   else if serviceBus != null && faults.send then Fail(MessageSendFailed)
                   else if faults.save then Fail(MetadataSaveFailed)
                   else Pass
      ensures var key := GenerateKey(keyUuid, file.originalFilename);
              && container.blobs == (if faults.write then old(container.blobs)
                                     else old(container.blobs)[key := Blob(file.content, file.contentType, writtenAt)])
              && (faults.write || key in old(container.blobs) ==> container.names == old(container.names))
              && (!faults.write && key !in old(container.blobs) ==> Inserted(old(container.names), key, container.names))
      ensures serviceBus != null ==>
                var key := GenerateKey(keyUuid, file.originalFilename);
                serviceBus.sent == if faults.write || faults.send then old(serviceBus.sent)
                                   else old(serviceBus.sent) + [ImageProcessingMessage(key, file.contentType, StorageType, file.Size())]
      ensures var key := GenerateKey(keyUuid, file.originalFilename);
              repository.records
                == if r.Pass?
                   then old(repository.records)
                        + [ImageMetadata(idUuid, file.originalFilename, file.contentType, file.Size(), key, GenerateUrl(key), savedAt)]
                   else old(repository.records)
    {
      var key := GenerateKey(keyUuid, file.originalFilename);
      r := container.Upload(key, file.content, file.contentType, writtenAt, faults.write);
      if r.Fail? {
        return;
      }
      if serviceBus != null {
        var message := ImageProcessingMessage(key, file.contentType, GetStorageType(), file.Size());
        r := serviceBus.Send(message, faults.send);
        if r.Fail? {
          return;
        }
      }
      var metadata := ImageMetadata(idUuid, file.originalFilename, file.contentType, file.Size(), key, GenerateUrl(key), savedAt);
      r := repository.Save(metadata, faults.save);
    }

    /** The bytes stored under `key`; reading a missing blob fails. */
    function GetObject(key: string): (r: Result<seq<byte>, StorageError>)
      reads container
      ensures r.Success? <==> key in container.blobs
      ensures r.Success? ==> r.value == container.blobs[key].content
      ensures r.Failure? ==> r.error == BlobNotFound
    {
      container.Read(key)
    }

    /** Deletes the blob `key` (a failure here propagates and touches
        nothing else), then tries its thumbnail (any failure is ignored),
        then reads the metadata rows (a failure here propagates, after both
        blob deletes) and removes the first row for `key`, if there is one. */
    method DeleteObject(key: string, faults: DeleteFaults) returns (r: Outcome<StorageError>)
      requires Valid()
      modifies container, repository
      ensures Valid()
      ensures key !in old(container.blobs) ==> r == Fail(BlobNotFound)
      ensures key in old(container.blobs) && faults.primary ==> r == Fail(BlobDeleteFailed)
      ensures key !in old(container.blobs) || faults.primary ==>
                && container.blobs == old(container.blobs) && container.names == old(container.names)
                && repository.records == old(repository.records)
      ensures key in old(container.blobs) && !faults.primary ==>
                && key !in container.blobs
                && container.blobs == (if faults.thumbnail then old(container.blobs) - {key}
                                       else old(container.blobs) - {key} - {thumbnailKey(key)})
                && container.names == (if faults.thumbnail then Without(old(container.names), key)
                                       else Without(Without(old(container.names), key), thumbnailKey(key)))
                && (faults.find ==> r == Fail(MetadataReadFailed) && repository.records == old(repository.records))
                && (!faults.find ==>
                   match FirstMatch(old(repository.records), key)
                   case None =>
                     r == Pass && repository.records == old(repository.records)
                   case Some(i) =>
                     && r == (if faults.prune then Fail(MetadataDeleteFailed) else Pass)
                     && repository.records == if faults.prune then old(repository.records)
                                              else old(repository.records[..i] + repository.records[i + 1..]))
    {
      r := container.Delete(key, faults.primary);
      if r.Fail? {
        return;
      }
      ghost var blobs, names := container.blobs, container.names;
      var thumbnail := thumbnailKey(key);
      var ignored := container.Delete(thumbnail, faults.thumbnail);
      if faults.thumbnail {
        assert container.blobs == blobs && container.names == names;
      } else if thumbnail in blobs {
        assert container.blobs == blobs - {thumbnail} && container.names == Without(names, thumbnail);
      } else {
        assert container.blobs == blobs == blobs - {thumbnail};
        assert container.names == names == Without(names, thumbnail);
      }
      if faults.find {
        return Fail(MetadataReadFailed);
      }
      ghost var records := repository.records;
      match FirstMatch(repository.records, key)
      case Some(i) =>
        r := repository.Delete(i, faults.prune);
        assert repository.records == if faults.prune then records else records[..i] + records[i + 1..];
      case None =>
    }

    /** The backend tag, which is the `storage.type` value that selects
        this service. */
    function GetStorageType(): (t: string)
      ensures t == StorageType
    {
      "azure"
    }
  }
}
