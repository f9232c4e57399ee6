/**
 * The persistent state the request handlers work on: the `files` table, the
 * content-addressed blob directory, and the keys of the vote and favourite
 * tables (Markis/models.py).
 */
module Catalog {
  import opened Wrappers

  type Byte = bv8
  type Hash = string
  type Username = string
  type FileId = int

  /** The blob directory: file name (the hex SHA-1 of the content) to content. */
  type BlobStore = map<Hash, seq<Byte>>

  /** Votes are keyed by (user_username, file_id); the value is the stored vote. */
  type Votes = map<(Username, FileId), int>

  /** A favourite is a (user_username, file_id) row. */
  type Favorites = set<(Username, FileId)>

  /** One row of the `files` table (upload_date left out). */
  datatype FileRecord = FileRecord(
    id: FileId,
    hash: Hash,
    name: string,
    displayPath: string,
    subjectId: string,
    mimeType: string,
    uploader: Username)

  /** `file_id` is the primary key. */
  predicate UniqueIds(files: seq<FileRecord>)
  {
    forall i, j :: 0 <= i < j < |files| ==> files[i].id != files[j].id
  }

  /** `file_hash` is declared unique. */
  predicate UniqueHashes(files: seq<FileRecord>)
  {
    forall i, j :: 0 <= i < j < |files| ==> files[i].hash != files[j].hash
  }

  /** `File.query.filter(File.file_id == id).first()`. */
  function FindById(files: seq<FileRecord>, id: FileId): (r: Option<FileRecord>)
    ensures r.Some? ==> r.value in files && r.value.id == id
    ensures r.None? <==> forall i :: 0 <= i < |files| ==> files[i].id != id
  {
    if files == [] then None
    else if files[0].id == id then Some(files[0])
    else FindById(files[1..], id)
  }

  /** `File.query.filter(File.file_hash == h).all()` is non-empty. */
  predicate HashTaken(files: seq<FileRecord>, h: Hash)
  {
    exists i :: 0 <= i < |files| && files[i].hash == h
  }

  /** The largest id in the table, or 0 for an empty table. */
  function MaxId(files: seq<FileRecord>): (m: int)
    ensures m >= 0
    ensures forall i :: 0 <= i < |files| ==> files[i].id <= m
  {
    if files == [] then 0
    else
      var rest := MaxId(files[1..]);
      if files[0].id > rest then files[0].id else rest
  }

  /**
   * The id SQLite gives an inserted row whose integer primary key is left
   * unset: one more than the largest id in the table.
   */
  function NewId(files: seq<FileRecord>): (id: FileId)
    ensures id >= 1
    ensures forall i :: 0 <= i < |files| ==> files[i].id < id
  {
    MaxId(files) + 1
  }

  /** Appending a row with a fresh id and an unused hash keeps ids and hashes distinct. */
  lemma AppendKeepsKeys(files: seq<FileRecord>, rec: FileRecord)
    requires UniqueIds(files) && UniqueHashes(files)
    requires rec.id == NewId(files) && !HashTaken(files, rec.hash)
    ensures UniqueIds(files + [rec]) && UniqueHashes(files + [rec])
  {
    var r := files + [rec];
    forall i, j | 0 <= i < j < |r| ensures r[i].id != r[j].id && r[i].hash != r[j].hash {
      if j == |files| {
        assert r[i] == files[i];
      } else {
        assert r[i] == files[i] && r[j] == files[j];
      }
    }
  }

  /** `File.query.filter(File.file_id == id).delete()`: the table without that row. */
  function WithoutId(files: seq<FileRecord>, id: FileId): (r: seq<FileRecord>)
    ensures forall x :: x in r <==> x in files && x.id != id
    ensures |r| <= |files|
  {
    if files == [] then []
    else
      var rest := WithoutId(files[1..], id);
      if files[0].id == id then rest else [files[0]] + rest
  }

  /** Deleting rows keeps the surviving ids and hashes distinct. */
  lemma {:induction false} WithoutIdKeepsKeys(files: seq<FileRecord>, id: FileId)
    requires UniqueIds(files) && UniqueHashes(files)
    ensures UniqueIds(WithoutId(files, id)) && UniqueHashes(WithoutId(files, id))
  {
    if files != [] {
      var head, tail := files[0], files[1..];
      assert files == [head] + tail;
      TailKeepsKeys(head, tail);
      WithoutIdKeepsKeys(tail, id);
      if head.id != id {
        var rest := WithoutId(tail, id);
        forall y | y in rest ensures y.id != head.id && y.hash != head.hash {
          assert y in tail;
        }
        ConsKeepsKeys(head, rest);
      }
    }
  }

  /** The rows after the first of a table with distinct keys have distinct keys, all unlike the first's. */
  lemma TailKeepsKeys(head: FileRecord, tail: seq<FileRecord>)
    requires UniqueIds([head] + tail) && UniqueHashes([head] + tail)
    ensures UniqueIds(tail) && UniqueHashes(tail)
    ensures forall y :: y in tail ==> y.id != head.id && y.hash != head.hash
  {
    var files := [head] + tail;
    forall i, j | 0 <= i < j < |tail| ensures tail[i].id != tail[j].id && tail[i].hash != tail[j].hash {
      assert files[i + 1] == tail[i] && files[j + 1] == tail[j];
    }
    forall y | y in tail ensures y.id != head.id && y.hash != head.hash {
      var j :| 0 <= j < |tail| && tail[j] == y;
      assert files[0] == head && files[j + 1] == y;
    }
  }

  /** A row whose keys differ from all of a table with distinct keys can go in front. */
  lemma ConsKeepsKeys(head: FileRecord, rest: seq<FileRecord>)
    requires UniqueIds(rest) && UniqueHashes(rest)
    requires forall y :: y in rest ==> y.id != head.id && y.hash != head.hash
    ensures UniqueIds([head] + rest) && UniqueHashes([head] + rest)
  {
    var r := [head] + rest;
    forall i, j | 0 <= i < j < |r| ensures r[i].id != r[j].id && r[i].hash != r[j].hash {
      assert r[j] == rest[j - 1];
      if i > 0 {
        assert r[i] == rest[i - 1];
      }
    }
  }
}
