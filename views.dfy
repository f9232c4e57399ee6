/**
 * The request handlers of Markis/views.py that change or gate the state: the
 * vote state machine, the favourite toggle, upload validation, file removal,
 * and the depth dispatch of subject pages. Each request runs as one atomic
 * update of a `Server`, which holds the tables and the blob store.
 */
module Views {
  import opened Wrappers
  import opened Text
  import opened Config
  import opened Catalog
  import opened Util

  /** Who sends the request: `current_user` is anonymous or a logged-in directory user. */
  datatype Session = Anonymous | LoggedIn(username: Username, admin: bool)

  /** What a handler answers. `ServerError` also stands for an uncaught exception. */
  datatype Response =
    | Success
    | BadRequest(reason: string)
    | Forbidden
    | ServerError(reason: string)
    | LoginRedirect

  function Status(r: Response): int
  {
    match r
    case Success => 200
    case BadRequest(_) => 400
    case Forbidden => 403
    case ServerError(_) => 500
    case LoginRedirect => 302
  }

  /**
   * A field of a JSON request body, as far as `type(x) == int` can tell;
   * `JMissing` is a key the body lacks, whose lookup raises `KeyError`.
   */
  datatype Json = JInt(i: int) | JOther | JMissing

  // ---------------------------------------------------------------------------
  // The vote state machine of vote_file

  /** What `vote_file` does to the user's vote row. */
  datatype VoteStep = Insert(value: int) | Update(value: int) | Remove | Reject | Fail

  /**
   * The stored vote of `key`, if there is a row. `vote_file` tells a missing
   * row from a stored value (a stored 0 reaches its error branch), so it reads
   * the row itself rather than `Util.UserFileVote`, which shows no row as 0.
   */
  function CurrentVote(votes: Votes, key: (Username, FileId)): Option<int>
  {
    if key in votes then Some(votes[key]) else None
  }

  /**
   * The transition for a requested vote: without a row any nonzero value is
   * inserted; a stored -1 or +1 flips to the other sign or is deleted by 0;
   * every other request is refused, and a stored value other than -1 and +1
   * is an internal error.
   */
  function ApplyVote(current: Option<int>, requested: int): VoteStep
  {
    match current
    case None => if requested != 0 then Insert(requested) else Reject
    case Some(v) =>
      if v == -1 then
        if requested == 1 then Update(requested) else if requested == 0 then Remove else Reject
      else if v == 1 then
        if requested == -1 then Update(requested) else if requested == 0 then Remove else Reject
      else Fail
  }

  /** The vote table after a step. */
  function Commit(votes: Votes, key: (Username, FileId), step: VoteStep): Votes
  {
    match step
    case Insert(v) => votes[key := v]
    case Update(v) => votes[key := v]
    case Remove => votes - {key}
    case Reject => votes
    case Fail => votes
  }

  function StepResponse(step: VoteStep): Response
  {
    match step
    case Reject => BadRequest("Vote is same as current vote")
    case Fail => ServerError("Current vote cannot be found")
    case _ => Success
  }

  /** No vote row holds 0: a zero vote and no row are the same state. */
  ghost predicate NoZeroVotes(votes: Votes)
  {
    forall k :: k in votes ==> votes[k] != 0
  }

  /** The row of `key` is absent or holds -1 or +1. */
  predicate TriState(votes: Votes, key: (Username, FileId))
  {
    key !in votes || votes[key] == -1 || votes[key] == 1
  }

  /**
   * Whatever the request and the stored row, a successful vote leaves exactly
   * the requested value visible to `get_user_file_vote`, and never stores 0;
   * a refused one changes nothing.
   */
  lemma SuccessfulVoteRecordsRequest(votes: Votes, username: Username, fileId: FileId, requested: int)
    requires NoZeroVotes(votes)
    ensures var key := (username, fileId);
            var step := ApplyVote(CurrentVote(votes, key), requested);
            && NoZeroVotes(Commit(votes, key, step))
            && (StepResponse(step) == Success ==> UserFileVote(Commit(votes, key, step), fileId, username) == requested)
            && (StepResponse(step) != Success ==> Commit(votes, key, step) == votes)
  {
  }

  /**
   * The table of the three-valued vote: from none, +1 or -1, a request of
   * -1, 0 or +1 is refused exactly when it equals the current vote, and
   * otherwise becomes the current vote; the row stays three-valued.
   */
  lemma VoteTable(votes: Votes, username: Username, fileId: FileId, requested: int)
    requires TriState(votes, (username, fileId))
    requires requested == -1 || requested == 0 || requested == 1
    ensures var key := (username, fileId);
            var step := ApplyVote(CurrentVote(votes, key), requested);
            && (step == Reject <==> requested == UserFileVote(votes, fileId, username))
            && step != Fail
            && UserFileVote(Commit(votes, key, step), fileId, username) == requested
            && TriState(Commit(votes, key, step), key)
  {
  }

  /**
   * Any integer request, in range or not: without a row only 0 is refused;
   * on a stored -1 or +1 every request other than 0 and the opposite sign is
   * refused with 400 and leaves the table unchanged.
   */
  lemma VoteRejections(votes: Votes, username: Username, fileId: FileId, requested: int)
    requires TriState(votes, (username, fileId))
    ensures var key := (username, fileId);
            var step := ApplyVote(CurrentVote(votes, key), requested);
            && step != Fail
            && (key !in votes ==> (step == Reject <==> requested == 0))
            && (key in votes ==> (step == Reject <==> requested != 0 && requested != -votes[key]))
            && (step == Reject ==> Commit(votes, key, step) == votes && Status(StepResponse(step)) == 400)
  {
  }

  /** The vote table after a user sends `requests`, in order, for one file. */
  function Replay(votes: Votes, key: (Username, FileId), requests: seq<int>): Votes
  {
    if requests == [] then votes
    else
      var before := Replay(votes, key, requests[..|requests| - 1]);
      Commit(before, key, ApplyVote(CurrentVote(before, key), requests[|requests| - 1]))
  }

  /**
   * However a user's -1/0/+1 votes on a file interleave, refused no-ops
   * included, the recorded vote afterwards is the last one sent.
   */
  lemma {:induction false} ReplayEndsOnLastRequest(votes: Votes, username: Username, fileId: FileId,
                                                   requests: seq<int>)
    requires TriState(votes, (username, fileId))
    requires forall i :: 0 <= i < |requests| ==> requests[i] == -1 || requests[i] == 0 || requests[i] == 1
    ensures TriState(Replay(votes, (username, fileId), requests), (username, fileId))
    ensures |requests| > 0 ==>
              UserFileVote(Replay(votes, (username, fileId), requests), fileId, username) == requests[|requests| - 1]
  {
    if requests != [] {
      var init := requests[..|requests| - 1];
      ReplayEndsOnLastRequest(votes, username, fileId, init);
      VoteTable(Replay(votes, (username, fileId), init), username, fileId, requests[|requests| - 1]);
    }
  }

  /**
   * With no range check, a first vote of any nonzero value is stored, and
   * from then on every request on that row fails with 500 and changes nothing.
   */
  lemma OutOfRangeVoteSticks(votes: Votes, username: Username, fileId: FileId, first: int, later: int)
    requires (username, fileId) !in votes && first != 0 && first != 1 && first != -1
    ensures var key := (username, fileId);
            var stored := Commit(votes, key, ApplyVote(None, first));
            && StepResponse(ApplyVote(None, first)) == Success
            && UserFileVote(stored, fileId, username) == first
            && ApplyVote(CurrentVote(stored, key), later) == Fail
            && Status(StepResponse(Fail)) == 500
  {
  }

  // ---------------------------------------------------------------------------
  // The favourite toggle of set_favorite

  datatype FavoriteMethod = Post | Delete

  /** POST /setfavorite: delete an existing row, insert a missing one. */
  function ToggleFavorite(favorites: Favorites, key: (Username, FileId)): Favorites
  {
    if key in favorites then favorites - {key} else favorites + {key}
  }

  /** The toggle flips the favourite state of its key and only that one, so two toggles restore the table. */
  lemma ToggleFavoriteFlips(favorites: Favorites, username: Username, fileId: FileId)
    ensures var key := (username, fileId);
            && (UserFileFavorite(ToggleFavorite(favorites, key), fileId, username) <==>
                !UserFileFavorite(favorites, fileId, username))
            && (forall k :: k != key ==> (k in ToggleFavorite(favorites, key) <==> k in favorites))
            && ToggleFavorite(ToggleFavorite(favorites, key), key) == favorites
  {
  }

  // ---------------------------------------------------------------------------
  // Upload validation of upload_file_form

  /**
   * The fields of the upload form; `None` is the data of a select field the
   * request does not send, as WTForms 3 gives it.
   */
  datatype UploadForm = UploadForm(subjectId: Option<string>, category: Option<string>,
                                   opt1: Option<string>, opt2: Option<string>)

  /** Python truth of a field's data: sent, and not the empty string. */
  predicate Filled(field: Option<string>)
  {
    field.Some? && field.value != ""
  }

  /** `get_subject_data_set(subject_id)` finds a row: the field was sent and names a subject. */
  predicate KnownSubject(subjects: set<string>, subjectId: Option<string>)
  {
    subjectId.Some? && subjectId.value in subjects
  }

  /** The attached file. */
  datatype Attachment = Attachment(filename: string, contentType: string, content: seq<Byte>)

  /** The display path chosen for an upload, or why there is none. */
  datatype PathChoice = PathOk(path: string) | MissingOptions | BadYear | NoneInPath

  /**
   * The display path of an upload: the category itself, or for exams and
   * homework `category/Y-(Y+1)/opt2` with Y the year `opt1`. Those two need a
   * year and a type (`opt2` is not the placeholder "type"); a year `int()`
   * cannot read raises, and so does appending an `opt2` that was not sent.
   */
  function DisplayPath(category: string, opt1: Option<string>, opt2: Option<string>): PathChoice
  {
    if category == "exams" || category == "homework" then
      if Filled(opt1) && opt2 != Some("type") then
        match ParseInt(opt1.value)
        case None => BadYear
        case Some(year) =>
          if opt2.None? then NoneInPath
          else PathOk(category + "/" + opt1.value + "-" + IntToString(year + 1) + "/" + opt2.value)
      else MissingOptions
    else PathOk(category)
  }

  /**
   * Outside exams and homework the path is the category; inside, it needs
   * both options, a readable year and a sent type, and then starts with
   * "category/year-".
   */
  lemma DisplayPathCases(category: string, opt1: Option<string>, opt2: Option<string>)
    ensures var r := DisplayPath(category, opt1, opt2);
            category !in YearCategories ==> r == PathOk(category)
    ensures var r := DisplayPath(category, opt1, opt2);
            category in YearCategories ==> (r == MissingOptions <==> !Filled(opt1) || opt2 == Some("type"))
    ensures var r := DisplayPath(category, opt1, opt2);
            category in YearCategories ==>
              (r == BadYear <==> Filled(opt1) && opt2 != Some("type") && ParseInt(opt1.value).None?)
    ensures var r := DisplayPath(category, opt1, opt2);
            category in YearCategories ==>
              (r == NoneInPath <==> Filled(opt1) && ParseInt(opt1.value).Some? && opt2.None?)
    ensures var r := DisplayPath(category, opt1, opt2);
            category in YearCategories && r.PathOk? ==>
              Filled(opt1) && opt2.Some? && IsPrefix(category + "/" + opt1.value + "-", r.path)
  {
    var r := DisplayPath(category, opt1, opt2);
    if category in YearCategories && r.PathOk? {
      var year := ParseInt(opt1.value).value;
      assert r.path == (category + "/" + opt1.value + "-") + (IntToString(year + 1) + "/" + opt2.value);
    }
  }

  /**
   * For a year picked from the form's list (`str(y)`) and a type without '/',
   * the display path splits into exactly the category, the period "y-(y+1)"
   * and the type.
   */
  lemma DisplayPathSegments(category: string, y: int, opt2: string)
    requires category in YearCategories && opt2 != "type" && '/' !in opt2
    ensures DisplayPath(category, Some(IntToString(y)), Some(opt2)).PathOk?
    ensures var period := IntToString(y) + "-" + IntToString(y + 1);
            Split(DisplayPath(category, Some(IntToString(y)), Some(opt2)).path, '/') == [category, period, opt2]
  {
    var opt1 := IntToString(y);
    var period := opt1 + "-" + IntToString(y + 1);
    var path := category + "/" + opt1 + "-" + IntToString(y + 1) + "/" + opt2;
    assert path == category + "/" + period + "/" + opt2;
    assert DisplayPath(category, Some(opt1), Some(opt2)) == PathOk(path) by {
      assert category == "exams" || category == "homework";
      assert Filled(Some(opt1));
      ParseIntToString(y);
    }
    IntToStringChars(y, '/');
    IntToStringChars(y + 1, '/');
    YearCategory(category);
    SplitThree(category, period, opt2, '/');
  }

  /**
   * The answer to an upload by a logged-in user of a named file to a known
   * subject, once the blob `h` is written: both fields must be chosen, the
   * display path must be formed, and no record may hold the hash yet.
   */
  function UploadVerdict(files: seq<FileRecord>, form: UploadForm, h: Hash): Response
  {
    if !Filled(form.subjectId) || !Filled(form.category) then BadRequest("No subject or category selected")
    else match DisplayPath(form.category.value, form.opt1, form.opt2)
      case MissingOptions => BadRequest("Second set of options not selected")
      case BadYear => ServerError("invalid literal for int()")
      case NoneInPath => ServerError("can only concatenate str (not \"NoneType\") to str")
      case PathOk(p) => if HashTaken(files, h) then BadRequest("That file is already uploaded") else Success
  }

  // ---------------------------------------------------------------------------
  // Path dispatch of subjectfiles

  /**
   * How `subjectfiles` answers: the folder page, a 404, the exception `.one()`
   * raises for an unknown subject, or the `IndexError` (a 500) that listing the
   * periods of a category raises when a matching path has no second segment.
   */
  datatype Dispatch = RenderFolder | NoSuchPath | NoSuchSubject | ListingError

  const Subtypes: set<string> := {"questions", "answers"}

  /**
   * A path a subject page can show: its first segment is a configured folder,
   * it has at most three segments, from two segments on some live record's
   * path contains it, and a third segment is a subtype.
   */
  predicate PathResolves(files: seq<FileRecord>, blobs: BlobStore, s: string, subfolder: string)
  {
    var parts := Split(subfolder, '/');
    && parts[0] in SubjectSubfolders
    && |parts| <= 3
    && (|parts| >= 2 ==> HasContent(files, blobs, s, subfolder))
    && (|parts| == 3 ==> parts[2] in Subtypes)
  }

  /** A lone exam or homework folder whose period listing raises: some record of the subject under it has no second segment. */
  predicate ListingFails(files: seq<FileRecord>, s: string, subfolder: string)
  {
    var parts := Split(subfolder, '/');
    |parts| == 1 && parts[0] in YearCategories && PeriodFolders(PrefixMatches(files, s, parts[0])).None?
  }

  /** `subjectfiles(s, subfolder)`: which page the request gets. */
  function SubjectFiles(subjects: set<string>, files: seq<FileRecord>, blobs: BlobStore, s: string,
                        subfolder: string): (d: Dispatch)
    ensures d == NoSuchSubject <==> s !in subjects
    ensures d == ListingError <==> s in subjects && ListingFails(files, s, subfolder)
    ensures d == RenderFolder <==>
              s in subjects && PathResolves(files, blobs, s, subfolder) && !ListingFails(files, s, subfolder)
  {
    if s !in subjects then NoSuchSubject
    else
      var parts := Split(subfolder, '/');
      var first := parts[0];
      if first !in SubjectSubfolders then NoSuchPath
      else if |parts| == 1 then
        if first in YearCategories && PeriodFolders(PrefixMatches(files, s, first)).None? then ListingError
        else RenderFolder
      else if |parts| == 2 then
        if HasContent(files, blobs, s, subfolder) then RenderFolder else NoSuchPath
      else if |parts| == 3 then
        if HasContent(files, blobs, s, subfolder) && parts[2] in Subtypes then RenderFolder else NoSuchPath
      else NoSuchPath
  }

  /** The year categories are folders of their own, and their names hold no '/'. */
  lemma YearCategory(c: string)
    requires c in YearCategories
    ensures '/' !in c && c in SubjectSubfolders && c !in Subtypes
  {
  }

  /**
   * A live exam or homework file filed as `category/period/subtype` makes the
   * category page, its period page and its subtype page all render.
   */
  lemma LiveFileIsReachable(subjects: set<string>, files: seq<FileRecord>, blobs: BlobStore,
                             k: nat, category: string, period: string, subtype: string)
    requires k < |files| && files[k].subjectId in subjects && FileExists(blobs, files[k].hash)
    requires category in YearCategories && subtype in Subtypes && '/' !in period
    requires files[k].displayPath == category + "/" + period + "/" + subtype
    requires PeriodsFiled(files, files[k].subjectId, category)
    ensures SubjectFiles(subjects, files, blobs, files[k].subjectId, category) == RenderFolder
    ensures SubjectFiles(subjects, files, blobs, files[k].subjectId, category + "/" + period) == RenderFolder
    ensures SubjectFiles(subjects, files, blobs, files[k].subjectId, files[k].displayPath) == RenderFolder
  {
    YearCategory(category);
    assert '/' !in subtype;
    assert files[k].displayPath == (category + "/" + period) + ("/" + subtype);
    CategoryResolves(files, blobs, files[k].subjectId, category);
    CategoryListingSucceeds(files, files[k].subjectId, category);
    LivePrefixResolves(files, k, blobs, category, period);
    LivePathResolves(files, k, blobs, category, period, subtype);
  }

  /** A configured folder alone always resolves. */
  lemma CategoryResolves(files: seq<FileRecord>, blobs: BlobStore, s: string, c: string)
    requires c in SubjectSubfolders && '/' !in c
    ensures PathResolves(files, blobs, s, c)
  {
    SplitWithoutSep(c, '/');
  }

  /** Every record of subject `s` whose path starts with `c` has a second segment to list. */
  predicate PeriodsFiled(files: seq<FileRecord>, s: string, c: string)
  {
    forall j :: 0 <= j < |files| && files[j].subjectId == s && IsPrefix(c, files[j].displayPath) ==>
      |Split(files[j].displayPath, '/')| >= 2
  }

  /** The periods of a category list without error when every record of the subject under it has a second segment. */
  lemma CategoryListingSucceeds(files: seq<FileRecord>, s: string, c: string)
    requires c in YearCategories
    requires PeriodsFiled(files, s, c)
    ensures !ListingFails(files, s, c)
  {
    YearCategory(c);
    SplitWithoutSep(c, '/');
    var rows := PrefixMatches(files, s, c);
    PeriodFoldersMeaning(rows);
  }

  /**
   * A record of the subject filed as `category` followed by more characters
   * but no '/' (the upload form accepts any category) makes the category page
   * raise instead of rendering.
   */
  lemma UnsegmentedRecordBreaksCategory(subjects: set<string>, files: seq<FileRecord>, blobs: BlobStore,
                                        k: nat, category: string, rest: string)
    requires k < |files| && files[k].subjectId in subjects
    requires category in YearCategories && '/' !in rest
    requires files[k].displayPath == category + rest
    ensures SubjectFiles(subjects, files, blobs, files[k].subjectId, category) == ListingError
  {
    YearCategory(category);
    SplitWithoutSep(category, '/');
    SplitWithoutSep(files[k].displayPath, '/');
    var rows := PrefixMatches(files, files[k].subjectId, category);
    assert IsPrefix(category, files[k].displayPath);
    assert files[k] in rows;
    var i :| 0 <= i < |rows| && rows[i] == files[k];
    PeriodFoldersMeaning(rows);
  }

  /** A two-segment path that starts a live record's path resolves. */
  lemma LivePrefixResolves(files: seq<FileRecord>, k: nat, blobs: BlobStore, a: string, b: string)
    requires k < |files| && FileExists(blobs, files[k].hash)
    requires a in SubjectSubfolders && '/' !in a && '/' !in b
    requires IsPrefix(a + "/" + b, files[k].displayPath)
    ensures PathResolves(files, blobs, files[k].subjectId, a + "/" + b)
    ensures !ListingFails(files, files[k].subjectId, a + "/" + b)
  {
    SplitTwo(a, b, '/');
    assert IsSubstring(a + "/" + b, files[k].displayPath);
  }

  /** The full three-segment path of a live record resolves when its last segment is a subtype. */
  lemma LivePathResolves(files: seq<FileRecord>, k: nat, blobs: BlobStore, a: string, b: string, c: string)
    requires k < |files| && FileExists(blobs, files[k].hash)
    requires a in SubjectSubfolders && '/' !in a && '/' !in b && '/' !in c && c in Subtypes
    requires files[k].displayPath == a + "/" + b + "/" + c
    ensures PathResolves(files, blobs, files[k].subjectId, files[k].displayPath)
    ensures !ListingFails(files, files[k].subjectId, files[k].displayPath)
  {
    var path := files[k].displayPath;
    assert IsPrefix(path, path) && IsSubstring(path, path);
    SplitThree(a, b, c, '/');
  }

  /** A lone exam or homework record filed under a period lists that period on the category page. */
  lemma LonePeriodListed(rec: FileRecord, category: string, period: string, subtype: string)
    requires category in YearCategories && '/' !in period && '/' !in subtype
    requires rec.displayPath == category + "/" + period + "/" + subtype
    ensures PeriodFolders(PrefixMatches([rec], rec.subjectId, category)) == Some([Folder(period, true)])
  {
    YearCategory(category);
    assert rec.displayPath == category + ("/" + period + "/" + subtype);
    assert IsPrefix(category, rec.displayPath);
    assert PrefixMatches([rec], rec.subjectId, category) == [rec];
    SplitThree(category, period, subtype, '/');
    PeriodFoldersOfOne(rec);
  }

  /**
   * A period folder is listed without a liveness check, so when the only
   * file of a period has lost its blob the category page still lists the
   * period, and following the link gives 404.
   */
  lemma DeadPeriodIsListedButNotFound(subjects: set<string>, rec: FileRecord, blobs: BlobStore,
                                      category: string, period: string, subtype: string)
    requires rec.subjectId in subjects && !FileExists(blobs, rec.hash)
    requires category in YearCategories && '/' !in period && '/' !in subtype
    requires rec.displayPath == category + "/" + period + "/" + subtype
    ensures PeriodFolders(PrefixMatches([rec], rec.subjectId, category)) == Some([Folder(period, true)])
    ensures SubjectFiles(subjects, [rec], blobs, rec.subjectId, category + "/" + period) == NoSuchPath
  {
    YearCategory(category);
    SplitTwo(category, period, '/');
    assert [rec][0] == rec;
    assert !HasContent([rec], blobs, rec.subjectId, category + "/" + period);
    LonePeriodListed(rec, category, period, subtype);
  }

  /**
   * Folder content is a substring test, so a period-level URL naming only the
   * start of a real period (such as "exams/2020" beside "exams/2020-2021")
   * renders a page although the category page lists no such period.
   */
  lemma PartialPeriodRenders(subjects: set<string>, rec: FileRecord, blobs: BlobStore,
                             category: string, start: string, rest: string, subtype: string)
    requires rec.subjectId in subjects && FileExists(blobs, rec.hash)
    requires category in YearCategories && '/' !in start + rest && '/' !in subtype && rest != ""
    requires rec.displayPath == category + "/" + (start + rest) + "/" + subtype
    ensures PeriodFolders(PrefixMatches([rec], rec.subjectId, category)) == Some([Folder(start + rest, true)])
    ensures start + rest != start
    ensures SubjectFiles(subjects, [rec], blobs, rec.subjectId, category + "/" + start) == RenderFolder
  {
    assert '/' !in start by {
      assert start <= start + rest;
    }
    YearCategory(category);
    assert rec.displayPath == (category + "/" + start) + (rest + "/" + subtype);
    assert [rec][0] == rec;
    LivePrefixResolves([rec], 0, blobs, category, start);
    LonePeriodListed(rec, category, start + rest, subtype);
  }

  // ---------------------------------------------------------------------------
  // The server state and the handlers that change it

  class Server {
    /** Subject ids of the `subjects` table (reference data). */
    var subjects: set<string>
    /** The `files` table, in insertion order. */
    var files: seq<FileRecord>
    /** The blob directory. */
    var blobs: BlobStore
    /** The `user_file_vote` table. */
    var votes: Votes
    /** The `user_file_favorite` table. */
    var favorites: Favorites

    /** The table keys hold and no vote row stores 0. */
    ghost predicate Valid()
      reads this
    {
      UniqueIds(files) && UniqueHashes(files) && NoZeroVotes(votes)
    }

    constructor (subjects: set<string>)
      ensures Valid()
      ensures this.subjects == subjects && files == [] && blobs == map[] && votes == map[] && favorites == {}
    {
      this.subjects := subjects;
      files := [];
      blobs := map[];
      votes := map[];
      favorites := {};
    }

    /** POST /votefile. */
    method VoteFile(session: Session, fileId: Json, vote: Json) returns (resp: Response)
      requires Valid()
      modifies this
      ensures Valid()
      ensures subjects == old(subjects) && files == old(files) && blobs == old(blobs) && favorites == old(favorites)
      ensures session.Anonymous? ==> resp == Forbidden && votes == old(votes)
      ensures session.LoggedIn? && (fileId.JMissing? || vote.JMissing?) ==>
                resp == ServerError("KeyError") && votes == old(votes)
      ensures session.LoggedIn? && !fileId.JMissing? && !vote.JMissing? && !(fileId.JInt? && vote.JInt?) ==>
                resp == BadRequest("Data types incorrect") && votes == old(votes)
      ensures session.LoggedIn? && fileId.JInt? && vote.JInt? ==>
                match FindById(files, fileId.i)
                case None => resp == BadRequest("Invalid FileID") && votes == old(votes)
                case Some(rec) =>
                  if !FileExists(blobs, rec.hash) then resp == BadRequest("Invalid FileID") && votes == old(votes)
                  else
                    var key := (session.username, fileId.i);
                    var step := ApplyVote(CurrentVote(old(votes), key), vote.i);
                    votes == Commit(old(votes), key, step) && resp == StepResponse(step)
    {
      if session.Anonymous? {
        return Forbidden;
      }
      if fileId.JMissing? || vote.JMissing? {
        return ServerError("KeyError");
      }
      if !(fileId.JInt? && vote.JInt?) {
        return BadRequest("Data types incorrect");
      }
      var username, id, newVote := session.username, fileId.i, vote.i;
      var fileForVote := FindById(files, id);
      if fileForVote.None? {
        return BadRequest("Invalid FileID");
      }
      if !FileExists(blobs, fileForVote.value.hash) {
        return BadRequest("Invalid FileID");
      }
      var key := (username, id);
      if key !in votes {
        if newVote != 0 {
          votes := votes[key := newVote];
          resp := Success;
        } else {
          resp := BadRequest("Vote is same as current vote");
        }
      } else if votes[key] == -1 {
        if newVote == 1 {
          votes := votes[key := newVote];
          resp := Success;
        } else if newVote == 0 {
          votes := votes - {key};
          resp := Success;
        } else {
          resp := BadRequest("Vote is same as current vote");
        }
      } else if votes[key] == 1 {
        if newVote == -1 {
          votes := votes[key := newVote];
          resp := Success;
        } else if newVote == 0 {
          votes := votes - {key};
          resp := Success;
        } else {
          resp := BadRequest("Vote is same as current vote");
        }
      } else {
        resp := ServerError("Current vote cannot be found");
      }
    }

    /** POST and DELETE /setfavorite. */
    method SetFavorite(session: Session, verb: FavoriteMethod, fileId: FileId) returns (resp: Response)
      requires Valid()
      modifies this
      ensures Valid()
      ensures subjects == old(subjects) && files == old(files) && blobs == old(blobs) && votes == old(votes)
      ensures session.Anonymous? ==> resp == Forbidden && favorites == old(favorites)
      ensures session.LoggedIn? ==>
                match FindById(files, fileId)
                case None => resp == BadRequest("Invalid FileID") && favorites == old(favorites)
                case Some(rec) =>
                  if !FileExists(blobs, rec.hash) then
                    resp == BadRequest("File does not exist") && favorites == old(favorites)
                  else
                    var key := (session.username, fileId);
                    && resp == Success
                    && favorites == (if verb == Post then ToggleFavorite(old(favorites), key)
                                     else old(favorites) - {key})
    {
      if session.Anonymous? {
        return Forbidden;
      }
      var username := session.username;
      var fileToFavorite := FindById(files, fileId);
      if fileToFavorite.None? {
        return BadRequest("Invalid FileID");
      }
      if !FileExists(blobs, fileToFavorite.value.hash) {
        return BadRequest("File does not exist");
      }
      var key := (username, fileId);
      if verb == Post {
        if key in favorites {
          favorites := favorites - {key};
        } else {
          favorites := favorites + {key};
        }
      } else {
        favorites := favorites - {key};
      }
      resp := Success;
    }

    /**
     * POST /form/getuploadform. `digest` is the SHA-1 hex digest of the
     * content. The blob is written before the form is checked, so a refused
     * upload of a known subject still leaves its blob behind.
     */
    method UploadFile(session: Session, form: UploadForm, file: Attachment, digest: seq<Byte> -> Hash)
      returns (resp: Response)
      requires Valid()
      modifies this
      ensures Valid()
      ensures subjects == old(subjects) && votes == old(votes) && favorites == old(favorites)
      ensures session.Anonymous? ==> resp == LoginRedirect && files == old(files) && blobs == old(blobs)
      ensures session.LoggedIn? && file.filename == "" ==>
                resp == BadRequest("No File attached") && files == old(files) && blobs == old(blobs)
      ensures session.LoggedIn? && file.filename != "" && !KnownSubject(subjects, form.subjectId) ==>
                resp == ServerError("No row was found for one()") && files == old(files) && blobs == old(blobs)
      ensures session.LoggedIn? && file.filename != "" && KnownSubject(subjects, form.subjectId) ==>
                var h := digest(file.content);
                && blobs == old(blobs)[h := file.content]
                && resp == UploadVerdict(old(files), form, h)
      ensures resp == Success ==>
                && Filled(form.subjectId) && Filled(form.category)
                && files == old(files) + [FileRecord(NewId(old(files)), digest(file.content), file.filename,
                                                     DisplayPath(form.category.value, form.opt1, form.opt2).path,
                                                     form.subjectId.value, file.contentType, session.username)]
      ensures resp != Success ==> files == old(files)
    {
      if session.Anonymous? {
        return LoginRedirect;
      }
      if file.filename == "" {
        return BadRequest("No File attached");
      }
      if !KnownSubject(subjects, form.subjectId) {
        return ServerError("No row was found for one()");
      }
      var fileHash := digest(file.content);
      assert files == old(files);
      blobs := blobs[fileHash := file.content];
      if Filled(form.subjectId) && Filled(form.category) {
        var choice := DisplayPath(form.category.value, form.opt1, form.opt2);
        if choice.BadYear? {
          return ServerError("invalid literal for int()");
        } else if choice.NoneInPath? {
          return ServerError("can only concatenate str (not \"NoneType\") to str");
        } else if choice.MissingOptions? {
          return BadRequest("Second set of options not selected");
        }
        if HashTaken(files, fileHash) {
          return BadRequest("That file is already uploaded");
        }
        var record := FileRecord(NewId(files), fileHash, file.filename, choice.path, form.subjectId.value,
                                 file.contentType, session.username);
        AppendKeepsKeys(files, record);
        files := files + [record];
        resp := Success;
      } else {
        resp := BadRequest("No subject or category selected");
      }
    }

    /**
     * POST /removefile. Only a logged-in user is required: the admin test
     * reads `get_admin` without calling it, so it always passes. The vote and
     * favourite rows of the file are kept.
     */
    method RemoveFile(session: Session, fileId: FileId) returns (resp: Response)
      requires Valid()
      modifies this
      ensures Valid()
      ensures subjects == old(subjects) && votes == old(votes) && favorites == old(favorites)
      ensures session.Anonymous? ==> resp == Forbidden && files == old(files) && blobs == old(blobs)
      ensures session.LoggedIn? ==>
                match FindById(old(files), fileId)
                case None => resp == BadRequest("File does not exist") && files == old(files) && blobs == old(blobs)
                case Some(rec) =>
                  if !FileExists(old(blobs), rec.hash) then
                    resp == ServerError("No such file or directory") && files == old(files) && blobs == old(blobs)
                  else
                    && resp == Success
                    && blobs == old(blobs) - {rec.hash}
                    && files == WithoutId(old(files), fileId)
    {
      if session.Anonymous? {
        return Forbidden;
      }
      var file := FindById(files, fileId);
      if file.None? {
        return BadRequest("File does not exist");
      }
      if !FileExists(blobs, file.value.hash) {
        return ServerError("No such file or directory");
      }
      blobs := blobs - {file.value.hash};
      WithoutIdKeepsKeys(files, fileId);
      files := WithoutId(files, fileId);
      resp := Success;
    }
  }

  // ---------------------------------------------------------------------------
  // What a sequence of requests does

  /** Two favourite POSTs on a live file leave the favourite table as it was. */
  method FavoriteTwiceRestores(server: Server, session: Session, fileId: FileId)
    returns (first: Response, second: Response)
    requires server.Valid()
    modifies server
    ensures server.Valid()
    ensures first == second
    ensures server.favorites == old(server.favorites)
  {
    first := server.SetFavorite(session, Post, fileId);
    second := server.SetFavorite(session, Post, fileId);
    if first == Success {
      var key := (session.username, fileId);
      ToggleFavoriteFlips(old(server.favorites), key.0, key.1);
    }
  }

  /**
   * The same bytes are never accepted twice, whatever subject or folder the
   * second upload names, and the second attempt adds no record.
   */
  method DuplicateUploadRejected(server: Server, session: Session, form1: UploadForm, form2: UploadForm,
                                 file1: Attachment, file2: Attachment, digest: seq<Byte> -> Hash)
    returns (first: Response, second: Response)
    requires server.Valid()
    requires file1.content == file2.content
    modifies server
    ensures server.Valid()
    ensures first == Success ==> second != Success
    ensures first == Success && second != Success ==> |server.files| == |old(server.files)| + 1
  {
    first := server.UploadFile(session, form1, file1, digest);
    ghost var afterFirst := server.files;
    second := server.UploadFile(session, form2, file2, digest);
    if first == Success {
      assert afterFirst[|afterFirst| - 1].hash == digest(file2.content);
      assert HashTaken(afterFirst, digest(file2.content));
    }
  }
}
