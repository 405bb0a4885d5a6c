# Asset manager storage core, modelled in Dafny

The asset manager stores uploaded images through a `StorageService` with two
implementations. `AwsS3Service` is the Azure-backed service; it kept its name
from the S3 version. `MockStorageService` is a stand-in that keeps nothing.
The Azure service drives three collaborators:

- the blob container, the source of truth for which objects exist;
- the metadata repository, a best-effort index of upload records;
- an optional Service Bus template, which asks a worker to make a thumbnail.

The model reduces each collaborator to its state:

- `Collaborators.BlobContainer`: a map from blob name to blob (bytes, content
  type, last-modified time), plus the order in which a listing enumerates the
  names. Its invariant `Valid()` says that every stored blob is enumerated
  exactly once.
- `Collaborators.ImageMetadataRepository`: the sequence of metadata rows, in
  `findAll` order.
- `Collaborators.ServiceBusTemplate`: the log of messages sent.

`AwsS3.AwsS3Service` is a class that holds the three collaborators. The
Service Bus template is nullable, as it is in the source. Its operations are:

- `ListObjects` is a function. It gives one item per blob, in enumeration
  order. Each item takes its upload time from the first metadata row for the
  blob's key. When no row exists, the item falls back to the blob's
  last-modified time.
- `UploadObject` and `DeleteObject` are methods. They make the collaborator
  calls in the source's order and stop at the first call that throws, except
  that a failed thumbnail delete is ignored.
- `GetObject` reads a blob back.

The pure helpers `ExtractFilename`, `GenerateUrl` and `GenerateKey` are stated
exactly. One consequence is proved in `AwsS3.ExtractFilenameOfGeneratedKey`.
A generated key has the form `uuid-filename`. Its display name is the whole
key unless the file name contains '/', in which case it is the file name's
own display name. The UUID is not stripped, because only '/' separates a
display name.

`MockStorage` holds the mock as pure functions. They take no state, so their
answers cannot depend on earlier uploads or deletes. `Scenarios` holds client
methods. They show what a caller can conclude from the contracts alone when it
combines operations.

The model represents the environment as parameters:

- Each blob write, blob delete, message send, metadata save and metadata
  delete takes a `fault` flag. The flag says whether the call fails for a
  reason other than a missing key, such as the network, a permission, a quota
  or a database error. The `findAll` lookup of the delete takes a `find`
  flag in the same way. The reads of the listing and of `GetObject` take no
  flag (see "Left out").
- The two random UUIDs are parameters.
- Two clock readings are parameters: the blob's last-modified time and the
  upload time of the metadata row.
- The thumbnail naming convention `getThumbnailKey` is a function given to
  the constructor.

`AwsS3Service.java` does not catch a failure of the Service Bus send
(line 86), of the metadata save (line 98), of the metadata lookup (line 125)
or of the metadata delete (line 128). Each such failure propagates as the
operation's error. The served URL prefix is `/s3/view/` (line 144).

## Model

| member | source | states |
|---|---|---|
| `Collaborators.BlobContainer.Upload` | web/src/main/java/com/microsoft/migration/assets/service/AwsS3Service.java:73-76 | A blob write either fails and changes nothing, or stores the bytes and the content type under the key, overwriting any older blob. An existing name keeps its place. A new name is inserted once, at a position left open, and the other names keep their order. The container stays valid. |
| `Collaborators.BlobContainer.Delete` | web/src/main/java/com/microsoft/migration/assets/service/AwsS3Service.java:111-113 | Deleting a missing blob fails with not-found, and a rejected delete fails too; either failure changes nothing. A successful delete removes exactly that blob and its name. |
| `Collaborators.BlobContainer.Read` | web/src/main/java/com/microsoft/migration/assets/service/AwsS3Service.java:103-105 | Opening a blob succeeds exactly when it exists, and yields its stored bytes. A missing blob gives not-found. |
| `Collaborators.ImageMetadataRepository.Save` | web/src/main/java/com/microsoft/migration/assets/service/AwsS3Service.java:98 | A save either throws and leaves the rows unchanged, or appends the row. |
| `Collaborators.ImageMetadataRepository.Delete` | web/src/main/java/com/microsoft/migration/assets/service/AwsS3Service.java:128 | Deleting the found row removes that row and keeps all others in order, unless the delete throws. |
| `Collaborators.ServiceBusTemplate.Send` | web/src/main/java/com/microsoft/migration/assets/service/AwsS3Service.java:86 | A send either throws and logs nothing, or logs the message. |
| `AwsS3.LastIndexOf` | web/src/main/java/com/microsoft/migration/assets/service/AwsS3Service.java:138 | The result is -1 or a position holding the character, and no later position holds it. |
| `AwsS3.ExtractFilename` | web/src/main/java/com/microsoft/migration/assets/service/AwsS3Service.java:136-140 | The display name is a suffix of the key with no '/'. It is the whole key or starts just after a '/', so it is what follows the last '/'. A key without '/' is its own display name. |
| `AwsS3.ExtractFilenameUnique` | web/src/main/java/com/microsoft/migration/assets/service/AwsS3Service.java:136-140 | Any suffix of the key that has no '/' and starts at the key's start or just after a '/' is the display name. So the display name is determined by the key. |
| `AwsS3.ExtractFilenameOfGeneratedKey` | web/src/main/java/com/microsoft/migration/assets/service/AwsS3Service.java:136-149 | For a UUID in textual form, the display name of `uuid-filename` is the whole key. The exception is a filename holding '/', whose display name is the filename's own. |
| `AwsS3.GenerateUrl` | web/src/main/java/com/microsoft/migration/assets/service/AwsS3Service.java:142-145 | The URL is `/s3/view/` followed by the key. |
| `AwsS3.GenerateUrlInjective` | web/src/main/java/com/microsoft/migration/assets/service/AwsS3Service.java:142-145 | Two keys with the same URL are the same key, so the served URL identifies the object. |
| `AwsS3.GenerateKey` | web/src/main/java/com/microsoft/migration/assets/service/AwsS3Service.java:147-149 | The key starts with the UUID, then has a '-', then ends with the original filename. |
| `AwsS3.GenerateKeyInjective` | web/src/main/java/com/microsoft/migration/assets/service/AwsS3Service.java:147-149 | For UUIDs of equal length, equal keys come from equal UUIDs and equal filenames. Distinct UUIDs therefore never collide. |
| `AwsS3.FirstMatch` | web/src/main/java/com/microsoft/migration/assets/service/AwsS3Service.java:51-54 | The result is the position of a row with the key, and no earlier row has that key. None means no row has the key. |
| `AwsS3.FirstMatchAppend` | web/src/main/java/com/microsoft/migration/assets/service/AwsS3Service.java:51-54 | Appending a row, as the save at line 98 does, keeps every existing first match of the listing's lookup where it was. It makes the new row the first match of its key when that key had no match. |
| `AwsS3.UploadedAtFromFirstRow` | web/src/main/java/com/microsoft/migration/assets/service/AwsS3Service.java:51-55 | The upload time shown is that of the first row for the key. With no such row it is the blob's last-modified time. |
| `AwsS3.UploadedAtOfAppendedRow` | web/src/main/java/com/microsoft/migration/assets/service/AwsS3Service.java:51-55 | A key with no row shows the last-modified time. Once a row for it is appended, the key shows that row's upload time. |
| `StorageModel.InsertedAtEnd` | web/src/main/java/com/microsoft/migration/assets/service/AwsS3Service.java:73-76 | Appending a name that is not yet enumerated is one way of inserting it: removing the name again gives back the old enumeration. |
| `Scenarios.ListedBlob` | web/src/main/java/com/microsoft/migration/assets/service/AwsS3Service.java:47-66 | Every enumerated blob is listed with its content length and the upload time that its first metadata row gives it. |
| `AwsS3.ListItemsCoverBlobs` | web/src/main/java/com/microsoft/migration/assets/service/AwsS3Service.java:48-66 | Listing a duplicate-free enumeration of all blobs gives exactly one item per blob, with pairwise distinct keys. |
| `AwsS3.AwsS3Service.constructor` | web/src/main/java/com/microsoft/migration/assets/service/AwsS3Service.java:35-41 | The service holds the container, the repository and the possibly absent Service Bus template it was given. Given a valid container, the service starts valid. |
| `AwsS3.AwsS3Service.ListObjects` | web/src/main/java/com/microsoft/migration/assets/service/AwsS3Service.java:47-67 | There is one item per blob, in enumeration order, and the keys are distinct. Each item's size and last-modified time are its blob's, and its upload time comes from the first metadata row or falls back to last-modified. Its name is the display name, and its URL is `/s3/view/` plus the key. |
| `AwsS3.AwsS3Service.UploadObject` | web/src/main/java/com/microsoft/migration/assets/service/AwsS3Service.java:70-99 | The error is the first failing step, in the order write, send (only with a template), save. A failed write changes nothing. A new key is inserted into the enumeration, and the other names keep their order. A message `(key, contentType, "azure", size)` is sent exactly when a template is present and the write and send succeed. Exactly one row (id, filename, content type, size, key, `/s3/view/`+key) is appended exactly when the operation succeeds. |
| `AwsS3.AwsS3Service.GetObject` | web/src/main/java/com/microsoft/migration/assets/service/AwsS3Service.java:102-106 | A read succeeds exactly when the blob exists, and yields its bytes. Otherwise it fails with not-found. |
| `AwsS3.AwsS3Service.DeleteObject` | web/src/main/java/com/microsoft/migration/assets/service/AwsS3Service.java:109-129 | A missing key gives not-found, and a failed primary delete touches nothing. Otherwise the key is gone, and the thumbnail is also gone unless its delete failed, which is ignored. A throwing metadata lookup is then the error and leaves the rows unchanged. Otherwise only the first row for the key is removed, all other rows are kept in order, and a throwing metadata delete is the error. |
| `AwsS3.AwsS3Service.GetStorageType` | web/src/main/java/com/microsoft/migration/assets/service/AwsS3Service.java:132-134 | The tag is "azure", the `storage.type` value that activates this service. |
| `MockStorage.ListObjects` | web/src/main/java/com/microsoft/migration/assets/service/MockStorageService.java:22-25 | The listing is empty. |
| `MockStorage.UploadObject` | web/src/main/java/com/microsoft/migration/assets/service/MockStorageService.java:28-31 | Every upload succeeds. |
| `MockStorage.GetObject` | web/src/main/java/com/microsoft/migration/assets/service/MockStorageService.java:34-37 | Every key reads back successfully as zero bytes. |
| `MockStorage.DeleteObject` | web/src/main/java/com/microsoft/migration/assets/service/MockStorageService.java:40-43 | Every delete succeeds, whether or not the key exists. |
| `MockStorage.GetStorageType` | web/src/main/java/com/microsoft/migration/assets/service/MockStorageService.java:46-48 | The tag is "mock", the `storage.type` value that activates the mock. |
| `MockStorage.UploadIsNotReadBack` | web/src/main/java/com/microsoft/migration/assets/service/MockStorageService.java:19-48 | A non-empty upload is accepted, but it reads back empty under every key and is never listed. |
| `Scenarios.UploadThenListAndRead` | web/src/main/java/com/microsoft/migration/assets/service/AwsS3Service.java:47-106 | After a successful blob write, the object reads back as the uploaded bytes. It is listed with its size, even if the message or the metadata save failed. These hold for any key. If no row referred to the key before the upload, its upload time is the new row's time when the row was saved, and the blob's last-modified time otherwise. |
| `Scenarios.DeleteThenListAndRead` | web/src/main/java/com/microsoft/migration/assets/service/AwsS3Service.java:47-129 | After a successful primary delete, the object is neither readable nor listed. Deleting a missing object fails and leaves the metadata as it was. |

## Left out

- The Azure listing returns names in lexicographic order. The model does not define that order. It promises only that a name uploaded for the first time is inserted somewhere into the enumeration, and that the names already there keep their relative order (`StorageModel.Inserted`). So no statement about an item's position after an upload follows from the model. The container's own method happens to append, but no contract says so.
- The time-zone conversion of the upload time (`AwsS3Service.java` line 53) is not modelled. Times are plain integers.
- The upload time of a metadata row is set by the `ImageMetadata` entity, which is not part of this model. The model takes it as the parameter `savedAt`.
- `StorageService.getThumbnailKey` is not part of this model. The thumbnail naming convention is a function parameter of the service.
- The queue name `IMAGE_PROCESSING_QUEUE` comes from `RabbitConfig`, which is not part of this model. The message log records only the messages.
- JPA `save` of an entity whose id already exists updates that row. The model always appends, which is the same behaviour when the id is a fresh UUID. JPA `delete` removes by id. The model removes the row at the position it was found.
- `findAll` has no ordering clause, so the database may return rows in any order. The model returns them in insertion order. This order decides which row is the "first" one when two rows share a key, both for the listing's upload time and for the row the delete removes.
- `AwsS3.AwsS3Service.ListObjects` never fails: a failure of `listBlobs` (`AwsS3Service.java` line 48) or of `findAll` (line 51) is not modelled.
- `AwsS3.AwsS3Service.GetObject` fails only for a missing blob: other failures of `openInputStream` (`AwsS3Service.java` line 105) are not modelled.
- Java strings can be null. A null original filename, content type or metadata key is not modelled.
- The model gives `MultipartFile.getSize()` as the length of the file's bytes. Java `long` sizes are unbounded naturals here.
- The model treats streams as the sequence of bytes stored. Lazy reading, retries and upload options (`BlobParallelUploadOptions`, `BlobHttpHeaders`) are not modelled beyond the stored content type.
- The mock's console logging is left out.
- Building the Azure client and its credentials (`AwsS3Config.java`) is configuration and I/O, so it is left out.
- The HTTP controller (`HomeController.java`) is routing only, so it is left out.
- Spring's conditional bean selection and optional injection are left out. The absent template is a null reference.
- Concurrent requests are not modelled. The service itself keeps no mutable state, and every operation is sequential.
