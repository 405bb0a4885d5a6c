/** Values exchanged between the storage service, its three collaborators
    (blob container, metadata repository, message queue) and its callers. */
module StorageModel {

  newtype byte = x: int | 0 <= x < 256

  datatype Option<T> = None | Some(value: T)

  /** Success or failure of an operation that returns nothing (a Java `void`
      method that may throw). */
  datatype Outcome<E> = Pass | Fail(error: E)

  /** Success or failure of an operation that returns a value. */
  datatype Result<T, E> = Success(value: T) | Failure(error: E)

  /** The exceptions the core lets escape, one per failing collaborator call. */
  datatype StorageError =
    | BlobWriteFailed        // the blob upload was rejected (network, permission, quota)
    | BlobNotFound           // the blob addressed by a read or a delete does not exist
    | BlobDeleteFailed       // a delete of an existing blob was rejected
    | MessageSendFailed      // the Service Bus send threw
    | MetadataSaveFailed     // the repository save threw
    | MetadataReadFailed     // the repository findAll threw
    | MetadataDeleteFailed   // the repository delete threw

  /** The uploaded file as the web layer hands it over (a multipart file). */
  datatype MultipartFile = MultipartFile(originalFilename: string, contentType: string, content: seq<byte>)
  {
    /** The number of bytes of the file. */
    function Size(): nat { |content| }
  }

  /** A blob as the container stores it: its bytes, the content type set as a
      header on upload, and the last-modified time the backend set. */
  datatype Blob = Blob(content: seq<byte>, contentType: string, lastModified: int)
  {
    function ContentLength(): nat { |content| }
  }

  /** A row of the metadata index. */
  datatype ImageMetadata = ImageMetadata(
    id: string,
    filename: string,
    contentType: string,
    size: nat,
    s3Key: string,
    s3Url: string,
    uploadedAt: int)

  /** The request for thumbnail generation put on the queue. */
  datatype ImageProcessingMessage = ImageProcessingMessage(
    key: string,
    contentType: string,
    storageType: string,
    size: nat)

  /** One entry of a listing, computed at list time and never stored. */
  datatype StorageItem = StorageItem(
    key: string,
    name: string,
    size: nat,
    lastModified: int,
    uploadedAt: int,
    url: string)

  /** True when no element of `s` occurs twice. */
  predicate NoDuplicates<T(==)>(s: seq<T>)
  {
    forall i, j :: 0 <= i < j < |s| ==> s[i] != s[j]
  }

  /** The elements of `s` as a set. */
  function Elements<T>(s: seq<T>): (elements: set<T>)
  {
    set x | x in s
  }

  /** A sequence without repeated elements has as many distinct elements as it is long. */
  lemma {:induction false} DistinctElementsCount<T>(s: seq<T>)
    requires NoDuplicates(s)
    ensures |Elements(s)| == |s|
  {
    if s != [] {
      var tail := s[1..];
      assert NoDuplicates(tail) by {
        forall i, j | 0 <= i < j < |tail| ensures tail[i] != tail[j] {
          assert tail[i] == s[i + 1] && tail[j] == s[j + 1];
        }
      }
      DistinctElementsCount(tail);
      assert s[0] !in tail by {
        forall i | 0 <= i < |tail| ensures tail[i] != s[0] {
          assert tail[i] == s[i + 1];
        }
      }
      assert Elements(s) == Elements(tail) + {s[0]} by {
        assert s == [s[0]] + tail;
      }
    }
  }

  /** A duplicate-free enumeration of the keys of a map is as long as the map is large. */
  lemma EnumerationLength<V>(names: seq<string>, m: map<string, V>)
    requires NoDuplicates(names)
    requires forall k :: k in m <==> k in names
    ensures |names| == |m|
  {
    DistinctElementsCount(names);
    assert Elements(names) == m.Keys by {
      forall k ensures k in Elements(names) <==> k in m.Keys {
      }
    }
  }

  /** `s` with every occurrence of `x` removed. */
  function Without(s: seq<string>, x: string): (r: seq<string>)
    ensures forall y :: y in r <==> y in s && y != x
    ensures |r| <= |s|
    ensures NoDuplicates(s) ==> NoDuplicates(r)
    ensures x !in s ==> r == s
  {
    if s == [] then []
    else
      var rest := Without(s[1..], x);
      if s[0] == x then rest
      else
        assert NoDuplicates(s) ==> s[0] !in s[1..] && NoDuplicates(s[1..]) by {
          if NoDuplicates(s) {
            forall i | 0 <= i < |s| - 1 ensures s[1..][i] != s[0] { assert s[1..][i] == s[i + 1]; }
            forall i, j | 0 <= i < j < |s| - 1 ensures s[1..][i] != s[1..][j] {
              assert s[1..][i] == s[i + 1] && s[1..][j] == s[j + 1];
            }
          }
        }
        [s[0]] + rest
  }

  /** `r` holds `x` and is `s` once `x` is removed again: for a `r` without
      duplicates, `x` was inserted into `s` at some position and the
      elements of `s` kept their relative order. */
  predicate Inserted(s: seq<string>, x: string, r: seq<string>)
  {
    x in r && Without(r, x) == s
  }

  /** Appending a new element is one way of inserting it. */
  lemma {:induction false} InsertedAtEnd(s: seq<string>, x: string)
    requires x !in s
    ensures Inserted(s, x, s + [x])
  {
    if s != [] {
      assert (s + [x])[1..] == s[1..] + [x];
      InsertedAtEnd(s[1..], x);
    }
  }
}
