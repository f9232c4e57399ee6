/**
 * The folder and listing resolver (Markis/util/util.py): which virtual folders
 * a subject shows, which of them hold live files, and how query rows become
 * the file listings a page renders. A record is live when its content hash
 * names a blob in the file store; only live records make a folder non-empty
 * or reach a listing. Every function here only reads the state, which is
 * passed in as the table contents and the blob store.
 */
module Util {
  import opened Wrappers
  import opened Text
  import opened Config
  import opened Catalog

  /** One folder entry of a page: `{'name': ..., 'hasContent': ...}`. */
  datatype Folder = Folder(name: string, hasContent: bool)

  /** The two categories whose folders go down to year periods and question/answer subtypes. */
  const YearCategories: set<string> := {"exams", "homework"}

  /** `util.file_exists`: a blob with that name is in the file store. */
  predicate FileExists(blobs: BlobStore, h: Hash)
  {
    h in blobs
  }

  // ---------------------------------------------------------------------------
  // folder_has_contents

  /** The rows of subject `s` whose display path contains `p` (`display_path.contains(p)`), in table order. */
  function PathMatches(files: seq<FileRecord>, s: string, p: string): (r: seq<FileRecord>)
    ensures forall x :: x in r <==> x in files && x.subjectId == s && IsSubstring(p, x.displayPath)
  {
    if files == [] then []
    else
      var init := PathMatches(files[..|files| - 1], s, p);
      var last := files[|files| - 1];
      assert files == files[..|files| - 1] + [last];
      if last.subjectId == s && IsSubstring(p, last.displayPath) then init + [last] else init
  }

  /** A live record of subject `s` has a display path containing `p`. */
  predicate HasContent(files: seq<FileRecord>, blobs: BlobStore, s: string, p: string)
  {
    exists i :: 0 <= i < |files| && files[i].subjectId == s && IsSubstring(p, files[i].displayPath)
                && FileExists(blobs, files[i].hash)
  }

  /** `folder_has_contents(s, p)`: scan the matching rows and stop at the first live one. */
  method FolderHasContents(files: seq<FileRecord>, blobs: BlobStore, s: string, p: string)
    returns (found: bool)
    ensures found == HasContent(files, blobs, s, p)
  {
    var matches := PathMatches(files, s, p);
    if |matches| <= 0 {
      return false;
    }
    var i := 0;
    while i < |matches|
      invariant 0 <= i <= |matches|
      invariant forall k :: 0 <= k < i ==> !FileExists(blobs, matches[k].hash)
    {
      if FileExists(blobs, matches[i].hash) {
        assert matches[i] in matches;
        return true;
      }
      i := i + 1;
    }
    forall j | 0 <= j < |files| && files[j].subjectId == s && IsSubstring(p, files[j].displayPath)
      ensures !FileExists(blobs, files[j].hash)
    {
      assert files[j] in matches;
    }
    return false;
  }

  /**
   * A live record of subject `s` makes every folder whose name its path
   * contains non-empty; once its blob is deleted it counts for nothing, and
   * the folder stays non-empty only through other live records.
   */
  lemma LiveRecordFillsFolders(files: seq<FileRecord>, blobs: BlobStore, k: nat, p: string)
    requires k < |files| && IsSubstring(p, files[k].displayPath)
    ensures FileExists(blobs, files[k].hash) ==> HasContent(files, blobs, files[k].subjectId, p)
    ensures HasContent(files, blobs - {files[k].hash}, files[k].subjectId, p) <==>
            (exists i :: 0 <= i < |files| && files[i].subjectId == files[k].subjectId
                         && IsSubstring(p, files[i].displayPath)
                         && files[i].hash != files[k].hash && FileExists(blobs, files[i].hash))
  {
  }

  // ---------------------------------------------------------------------------
  // get_subject_folders

  /** `get_subject_folders(s)`: every configured top-level folder, in order, flagged by `folder_has_contents`. */
  method GetSubjectFolders(files: seq<FileRecord>, blobs: BlobStore, s: string)
    returns (folders: seq<Folder>)
    ensures |folders| == |SubjectSubfolders|
    ensures forall i :: 0 <= i < |folders| ==>
              folders[i] == Folder(SubjectSubfolders[i], HasContent(files, blobs, s, SubjectSubfolders[i]))
  {
    folders := [];
    for i := 0 to |SubjectSubfolders|
      invariant |folders| == i
      invariant forall k :: 0 <= k < i ==>
                  folders[k] == Folder(SubjectSubfolders[k], HasContent(files, blobs, s, SubjectSubfolders[k]))
    {
      var has := FolderHasContents(files, blobs, s, SubjectSubfolders[i]);
      folders := folders + [Folder(SubjectSubfolders[i], has)];
    }
  }

  // ---------------------------------------------------------------------------
  // get_folders_to_show

  /** The rows of subject `s` whose display path starts with `prefix` (`display_path.like(prefix + '%')`). */
  function PrefixMatches(files: seq<FileRecord>, s: string, prefix: string): (r: seq<FileRecord>)
    ensures forall x :: x in r <==> x in files && x.subjectId == s && IsPrefix(prefix, x.displayPath)
    ensures |r| <= |files|
  {
    if files == [] then []
    else
      var init := PrefixMatches(files[..|files| - 1], s, prefix);
      var last := files[|files| - 1];
      assert files == files[..|files| - 1] + [last];
      if last.subjectId == s && IsPrefix(prefix, last.displayPath) then init + [last] else init
  }

  /**
   * The year-period folders of a category page: one entry per matching row,
   * named by the second segment of its path and always flagged as having
   * content. `None` is the `IndexError` raised by a row whose path has no
   * second segment.
   */
  function PeriodFolders(rows: seq<FileRecord>): Option<seq<Folder>>
  {
    if rows == [] then Some([])
    else
      var init := rows[..|rows| - 1];
      var parts := Split(rows[|rows| - 1].displayPath, '/');
      match PeriodFolders(init)
      case None => None
      case Some(fs) => if |parts| < 2 then None else Some(fs + [Folder(parts[1], true)])
  }

  /**
   * The period list fails exactly when some row has no second segment, and
   * otherwise holds, row by row, the second segment flagged as having content.
   */
  lemma {:induction false} PeriodFoldersMeaning(rows: seq<FileRecord>)
    ensures PeriodFolders(rows).None? <==> exists i :: 0 <= i < |rows| && |Split(rows[i].displayPath, '/')| < 2
    ensures PeriodFolders(rows).Some? ==> |PeriodFolders(rows).value| == |rows|
    ensures PeriodFolders(rows).Some? ==>
              forall i :: 0 <= i < |rows| ==>
                PeriodFolders(rows).value[i] == Folder(Split(rows[i].displayPath, '/')[1], true)
  {
    if rows != [] {
      var init := rows[..|rows| - 1];
      PeriodFoldersMeaning(init);
      forall i | 0 <= i < |init| ensures init[i] == rows[i] {
      }
    }
  }

  /** A single row with a second path segment lists that segment. */
  lemma PeriodFoldersOfOne(rec: FileRecord)
    requires |Split(rec.displayPath, '/')| >= 2
    ensures PeriodFolders([rec]) == Some([Folder(Split(rec.displayPath, '/')[1], true)])
  {
    assert [rec][..0] == [];
    assert [rec][0] == rec;
    assert PeriodFolders([]) == Some([]);
    assert [] + [Folder(Split(rec.displayPath, '/')[1], true)] == [Folder(Split(rec.displayPath, '/')[1], true)];
  }

  /** The question/answer folders of a year-period page, each flagged by its own content check. */
  function SubtypeFolders(files: seq<FileRecord>, blobs: BlobStore, s: string, subfolder: string): seq<Folder>
  {
    [Folder("questions", HasContent(files, blobs, s, subfolder + "/questions")),
     Folder("answers", HasContent(files, blobs, s, subfolder + "/answers"))]
  }

  /** The loop of `get_folders_to_show` over the matching rows of a category. */
  method ListPeriods(rows: seq<FileRecord>) returns (r: Option<seq<Folder>>)
    ensures r == PeriodFolders(rows)
  {
    var shown: seq<Folder> := [];
    var i := 0;
    while i < |rows|
      invariant 0 <= i <= |rows|
      invariant PeriodFolders(rows[..i]) == Some(shown)
    {
      assert rows[..i + 1][..i] == rows[..i];
      var segments := Split(rows[i].displayPath, '/');
      if |segments| < 2 {
        PeriodFoldersMeaning(rows);
        return None;
      }
      shown := shown + [Folder(segments[1], true)];
      i := i + 1;
    }
    assert rows[..i] == rows;
    r := Some(shown);
  }

  /**
   * `get_folders_to_show(s, subfolder)`: nothing outside exams and homework or
   * below depth 2; the year periods at depth 1; the two subtypes at depth 2.
   */
  method GetFoldersToShow(files: seq<FileRecord>, blobs: BlobStore, s: string, subfolder: string)
    returns (r: Option<seq<Folder>>)
    ensures var parts := Split(subfolder, '/');
            parts[0] !in YearCategories || |parts| >= 3 ==> r == Some([])
    ensures var parts := Split(subfolder, '/');
            parts[0] in YearCategories && |parts| == 1 ==> r == PeriodFolders(PrefixMatches(files, s, parts[0]))
    ensures var parts := Split(subfolder, '/');
            parts[0] in YearCategories && |parts| == 2 ==> r == Some(SubtypeFolders(files, blobs, s, subfolder))
  {
    var parts := Split(subfolder, '/');
    var first := parts[0];
    if first !in YearCategories {
      return Some([]);
    }
    r := Some([]);
    if |parts| == 1 {
      r := ListPeriods(PrefixMatches(files, s, first));
    }
    if |parts| == 2 {
      var questions := FolderHasContents(files, blobs, s, subfolder + "/" + "questions");
      var answers := FolderHasContents(files, blobs, s, subfolder + "/" + "answers");
      assert subfolder + "/" + "questions" == subfolder + "/questions";
      assert subfolder + "/" + "answers" == subfolder + "/answers";
      r := Some([Folder("questions", questions), Folder("answers", answers)]);
    }
  }

  // ---------------------------------------------------------------------------
  // get_user_file_vote, get_user_file_favorite

  /** `get_user_file_vote`: the stored vote, or 0 when the user has no vote row for the file. */
  function UserFileVote(votes: Votes, fileId: FileId, username: Username): int
  {
    if (username, fileId) in votes then votes[(username, fileId)] else 0
  }

  /** `get_user_file_favorite`: the user has a favourite row for the file. */
  predicate UserFileFavorite(favorites: Favorites, fileId: FileId, username: Username)
  {
    (username, fileId) in favorites
  }

  /**
   * While every vote row holds -1 or +1, a user's vote on a file is +1, -1 or
   * 0, and it is 0 exactly when the user has no row for the file.
   */
  lemma UserFileVoteRange(votes: Votes, fileId: FileId, username: Username)
    requires forall k :: k in votes ==> votes[k] == -1 || votes[k] == 1
    ensures var v := UserFileVote(votes, fileId, username);
            && (v == -1 || v == 0 || v == 1)
            && (v == 0 <==> (username, fileId) !in votes)
  {
  }

  // ---------------------------------------------------------------------------
  // get_file_size

  datatype SizeUnit = Bytes | Kilobytes | Megabytes | Gigabytes

  /** A blob's size and the unit its text is printed in (" b", " Kb", " MB", " GB"). */
  datatype FileSize = FileSize(bytes: nat, unit: SizeUnit)

  function Scale(u: SizeUnit): nat
  {
    match u
    case Bytes => 1
    case Kilobytes => 1024
    case Megabytes => 1048576
    case Gigabytes => 1073741824
  }

  /** `n` bytes are at least one of unit `u` (bytes excepted) and fewer than 1024 of it (gigabytes excepted). */
  predicate InUnitRange(n: nat, u: SizeUnit)
  {
    (u == Bytes || Scale(u) <= n) && (u == Gigabytes || n < 1024 * Scale(u))
  }

  /** The unit chosen by the thresholds 1024^3, 1024^2 and 1024: the only one whose range holds `n`. */
  function UnitFor(n: nat): (u: SizeUnit)
    ensures forall v :: InUnitRange(n, v) <==> v == u
  {
    if n >= 1073741824 then Gigabytes
    else if n >= 1048576 then Megabytes
    else if n >= 1024 then Kilobytes
    else Bytes
  }

  /** `get_file_size(h)`: `None` for a missing blob, else its size in the unit its magnitude calls for. */
  function GetFileSize(blobs: BlobStore, h: Hash): (r: Option<FileSize>)
    ensures r.None? <==> !FileExists(blobs, h)
    ensures r.Some? ==> r.value.bytes == |blobs[h]| && InUnitRange(r.value.bytes, r.value.unit)
  {
    if h !in blobs then None else Some(FileSize(|blobs[h]|, UnitFor(|blobs[h]|)))
  }

  /** `FILESTORE_PATH + "/" + hash`. */
  function DownloadPath(h: Hash): string
  {
    FilestorePath + "/" + h
  }

  // ---------------------------------------------------------------------------
  // get_files_to_show

  /**
   * One result row of the listing query. `fileId` is `None` for the all-NULL
   * row the ungrouped `SUM` yields over an empty folder.
   */
  datatype Row = Row(
    fileId: Option<FileId>,
    name: string,
    hash: Hash,
    mimeType: string,
    uploadDate: string,
    votes: int,
    uploader: Username)

  /** A row as the listing page shows it. */
  datatype Listing = Listing(
    row: Row,
    uploaderDisplayName: string,
    userVote: int,
    userFavorite: bool,
    size: Option<FileSize>,
    downloadPath: string)

  /** The rows with a file id whose blob exists, in query order. */
  function LiveRows(rows: seq<Row>, blobs: BlobStore): (r: seq<Row>)
    ensures forall x :: x in r <==> x in rows && x.fileId.Some? && FileExists(blobs, x.hash)
    ensures |r| <= |rows|
  {
    if rows == [] then []
    else
      var init := LiveRows(rows[..|rows| - 1], blobs);
      var last := rows[|rows| - 1];
      assert rows == rows[..|rows| - 1] + [last];
      if last.fileId.Some? && FileExists(blobs, last.hash) then init + [last] else init
  }

  /** The uploader's display name, or the raw username when the user lookup fails. */
  function DisplayNameOr(displayName: Username -> Option<string>, u: Username): string
  {
    match displayName(u)
    case Some(n) => n
    case None => u
  }

  /** What a live row becomes on the page. */
  predicate ListsRow(l: Listing, row: Row, blobs: BlobStore, votes: Votes, favorites: Favorites,
                     username: Username, displayName: Username -> Option<string>)
    requires row.fileId.Some?
  {
    && l.row == row
    && l.uploaderDisplayName == DisplayNameOr(displayName, row.uploader)
    && l.userVote == UserFileVote(votes, row.fileId.value, username)
    && l.userFavorite == UserFileFavorite(favorites, row.fileId.value, username)
    && l.size == GetFileSize(blobs, row.hash) && l.size.Some?
    && l.downloadPath == DownloadPath(row.hash)
  }

  /**
   * `get_files_to_show`: the query rows, in order, minus those without a file
   * id or a blob, each annotated for the requesting user. `displayName` is the
   * user-directory lookup (`User(name).displayname`); `None` is its `ValueError`.
   */
  method GetFilesToShow(rows: seq<Row>, blobs: BlobStore, votes: Votes, favorites: Favorites,
                        username: Username, displayName: Username -> Option<string>)
    returns (listing: seq<Listing>)
    ensures |listing| == |LiveRows(rows, blobs)|
    ensures forall i :: 0 <= i < |listing| ==>
              ListsRow(listing[i], LiveRows(rows, blobs)[i], blobs, votes, favorites, username, displayName)
  {
    listing := [];
    var i := 0;
    while i < |rows|
      invariant 0 <= i <= |rows|
      invariant |listing| == |LiveRows(rows[..i], blobs)|
      invariant forall k :: 0 <= k < |listing| ==>
                  ListsRow(listing[k], LiveRows(rows[..i], blobs)[k], blobs, votes, favorites, username, displayName)
    {
      assert rows[..i + 1][..i] == rows[..i];
      var row := rows[i];
      if row.fileId.Some? {
        if FileExists(blobs, row.hash) {
          var shownName := DisplayNameOr(displayName, row.uploader);
          var entry := Listing(row, shownName, UserFileVote(votes, row.fileId.value, username),
                               UserFileFavorite(favorites, row.fileId.value, username),
                               GetFileSize(blobs, row.hash), DownloadPath(row.hash));
          listing := listing + [entry];
        }
      }
      i := i + 1;
    }
    assert rows[..i] == rows;
  }

  // ---------------------------------------------------------------------------
  // get_years_list

  /** The first calendar year of the academic year containing (year, month); the code switches in August. */
  function AcademicYear(year: int, month: int): int
  {
    if month < 8 then year - 1 else year
  }

  /** `str(y) + " - " + str(y + 1)`. */
  function PeriodLabel(y: int): string
  {
    IntToString(y) + " - " + IntToString(y + 1)
  }

  /** The years list from `first` up to academic year `last`: `first` marked "(and earlier)", then one entry per later year. */
  function YearsUpTo(first: int, last: int): seq<(int, string)>
    decreases last - first
  {
    if last <= first then [(first, PeriodLabel(first) + " (and earlier)")]
    else YearsUpTo(first, last - 1) + [(last, PeriodLabel(last))]
  }

  /**
   * The list holds `first` marked "(and earlier)", then each later year in
   * turn, labelled, and ends at `last` (or at `first`).
   */
  lemma {:induction false} YearsUpToShape(first: int, last: int)
    decreases last - first
    ensures |YearsUpTo(first, last)| == (if last > first then last - first + 1 else 1)
    ensures YearsUpTo(first, last)[0] == (first, PeriodLabel(first) + " (and earlier)")
    ensures forall i :: 1 <= i < |YearsUpTo(first, last)| ==>
              YearsUpTo(first, last)[i] == (first + i, PeriodLabel(first + i))
    ensures YearsUpTo(first, last)[|YearsUpTo(first, last)| - 1].0 == (if last > first then last else first)
  {
    if last > first {
      YearsUpToShape(first, last - 1);
      var init := YearsUpTo(first, last - 1);
      var r := YearsUpTo(first, last);
      assert r == init + [(last, PeriodLabel(last))];
      assert r[0] == init[0];
      forall i | 1 <= i < |r| ensures r[i] == (first + i, PeriodLabel(first + i)) {
        if i < |init| {
          assert r[i] == init[i];
        } else {
          assert i == last - first;
        }
      }
    }
  }

  /**
   * `get_years_list()` on the date (year, month): the years list up to the
   * current academic year.
   */
  method GetYearsList(year: int, month: int) returns (years: seq<(int, string)>)
    ensures years == YearsUpTo(InitialYear, AcademicYear(year, month))
  {
    var initialPeriod := IntToString(InitialYear) + " - " + IntToString(InitialYear + 1) + " (and earlier)";
    assert initialPeriod == PeriodLabel(InitialYear) + " (and earlier)";
    years := [(InitialYear, initialPeriod)];
    assert years == YearsUpTo(InitialYear, InitialYear);
    var currentYear := year;
    if month < 8 {
      currentYear := currentYear - 1;
    }
    var y := InitialYear + 1;
    while y < currentYear + 1
      invariant InitialYear + 1 <= y
      invariant y <= currentYear + 1 || y == InitialYear + 1
      invariant years == YearsUpTo(InitialYear, y - 1)
    {
      years := years + [(y, IntToString(y) + " - " + IntToString(y + 1))];
      y := y + 1;
    }
    assert currentYear == AcademicYear(year, month);
    if currentYear <= InitialYear {
      assert y - 1 == InitialYear;
      assert YearsUpTo(InitialYear, currentYear) == YearsUpTo(InitialYear, InitialYear);
    } else {
      assert y - 1 == currentYear;
    }
  }


  // ---------------------------------------------------------------------------
  // get_favorite_files

  /** A favourite as the favourites page shows it. */
  datatype FavoriteEntry = FavoriteEntry(record: FileRecord, size: Option<FileSize>, downloadPath: string)

  /** The join of the user's favourite rows with `files`, in table order. */
  function FavoriteRows(files: seq<FileRecord>, favorites: Favorites, username: Username): seq<FileRecord>
  {
    if files == [] then []
    else
      var init := FavoriteRows(files[..|files| - 1], favorites, username);
      var last := files[|files| - 1];
      if UserFileFavorite(favorites, last.id, username) then init + [last] else init
  }

  /** The join yields exactly the records the user has favourited. */
  lemma {:induction false} FavoriteRowsMembers(files: seq<FileRecord>, favorites: Favorites, username: Username,
                                               x: FileRecord)
    ensures x in FavoriteRows(files, favorites, username) <==> x in files && UserFileFavorite(favorites, x.id, username)
  {
    if files != [] {
      var init := files[..|files| - 1];
      FavoriteRowsMembers(init, favorites, username, x);
      assert files == init + [files[|files| - 1]];
    }
  }

  /** The records whose blob exists, in order. */
  function LiveRecords(records: seq<FileRecord>, blobs: BlobStore): seq<FileRecord>
  {
    if records == [] then []
    else
      var init := LiveRecords(records[..|records| - 1], blobs);
      var last := records[|records| - 1];
      if FileExists(blobs, last.hash) then init + [last] else init
  }

  /** Exactly the records whose blob exists are kept. */
  lemma {:induction false} LiveRecordsMembers(records: seq<FileRecord>, blobs: BlobStore, x: FileRecord)
    ensures x in LiveRecords(records, blobs) <==> x in records && FileExists(blobs, x.hash)
  {
    if records != [] {
      var init := records[..|records| - 1];
      LiveRecordsMembers(init, blobs, x);
      assert records == init + [records[|records| - 1]];
    }
  }

  /**
   * The favourites page and the per-file flag agree: a record with a blob is
   * on the user's favourites page exactly when `get_user_file_favorite` says
   * the user favourited it.
   */
  lemma FavoritePageMatchesFlag(files: seq<FileRecord>, blobs: BlobStore, favorites: Favorites,
                                username: Username, x: FileRecord)
    requires x in files && FileExists(blobs, x.hash)
    ensures x in LiveRecords(FavoriteRows(files, favorites, username), blobs) <==>
              UserFileFavorite(favorites, x.id, username)
  {
    LiveRecordsMembers(FavoriteRows(files, favorites, username), blobs, x);
    FavoriteRowsMembers(files, favorites, username, x);
  }

  /**
   * `get_favorite_files(username)`: the user's favourited records whose blob
   * exists, each with its size and download path.
   */
  method GetFavoriteFiles(files: seq<FileRecord>, blobs: BlobStore, favorites: Favorites, username: Username)
    returns (entries: seq<FavoriteEntry>)
    ensures |entries| == |LiveRecords(FavoriteRows(files, favorites, username), blobs)|
    ensures forall i :: 0 <= i < |entries| ==>
              var rec := LiveRecords(FavoriteRows(files, favorites, username), blobs)[i];
              entries[i] == FavoriteEntry(rec, GetFileSize(blobs, rec.hash), DownloadPath(rec.hash))
  {
    var rows := FavoriteRows(files, favorites, username);
    if |rows| == 0 {
      return [];
    }
    entries := [];
    var i := 0;
    while i < |rows|
      invariant 0 <= i <= |rows|
      invariant |entries| == |LiveRecords(rows[..i], blobs)|
      invariant forall k :: 0 <= k < |entries| ==>
                  var rec := LiveRecords(rows[..i], blobs)[k];
                  entries[k] == FavoriteEntry(rec, GetFileSize(blobs, rec.hash), DownloadPath(rec.hash))
    {
      var live := LiveRecords(rows[..i], blobs);
      assert rows[..i + 1][..i] == rows[..i];
      if FileExists(blobs, rows[i].hash) {
        var entry := FavoriteEntry(rows[i], GetFileSize(blobs, rows[i].hash), DownloadPath(rows[i].hash));
        var next := entries + [entry];
        var nextLive := live + [rows[i]];
        assert LiveRecords(rows[..i + 1], blobs) == nextLive;
        forall k | 0 <= k < |next|
          ensures next[k] == FavoriteEntry(nextLive[k], GetFileSize(blobs, nextLive[k].hash), DownloadPath(nextLive[k].hash))
        {
          if k < |entries| {
            assert next[k] == entries[k] && nextLive[k] == live[k];
          }
        }
        entries := next;
      }
      i := i + 1;
    }
    assert rows[..i] == rows;
  }
}
