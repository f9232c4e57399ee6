# Markis: a verified model of the file catalogue and its request handlers

Markis is a Flask site where students share course files (exams, homework,
literature, summaries). Each file record carries a `display_path` such as
`exams/2019-2020/questions`, and the folders a subject page shows are derived
from those paths. A record is *live* when its SHA-1 content hash names a blob in
the file store. Only live records fill folders and reach listings.

This project models, in Dafny:

- the folder and listing resolver of `Markis/util/util.py` (module `Util`);
- the request handlers of `Markis/views.py` that read or change the state (module `Views`):
  - the three-valued vote state machine of `vote_file`;
  - the favourite toggle of `set_favorite`;
  - upload validation and insertion;
  - file removal;
  - the path-depth dispatch of `subjectfiles`;
- the two template filters `breadcrumb` and `file_icon` (module `TemplateFilters`).

The state a request works on is a `Views.Server`. It holds:

- the subject ids;
- the `files` table, as a sequence of `Catalog.FileRecord` in insertion order;
- the blob store, a map from hash to content;
- the vote table, a map from (user, file id) to the stored vote;
- the favourite table, a set of (user, file id).

Each handler is a method on the server that performs one atomic update. Its
contract states the response and the whole new state for every branch. The
invariant `Valid()` says three things: file ids are distinct, hashes are
distinct, and no vote row holds 0. Every handler keeps it.

The read-only loops of `util.py` are methods with loop invariants. Each is
proved against a specification: `Util.FolderHasContents` and
`Util.GetSubjectFolders` against the predicate `Util.HasContent` ("some live
matching record exists"), the others against recursive specification
functions. The state they read is passed to them as the table contents and the
blob store.

Supporting modules:

- `Text`: Python's `str.split`, `'/'.join`, substring and prefix tests, `str(int)` and `int(str)`. It includes the round trips split/join and `int(str(i)) == i`.
- `Config`: the constants of `config.py`.
- `Catalog`: the file table, the blob store and the keys of the vote and favourite tables.
- `Wrappers`: `Option`.

Known quirks of the source are modelled as written, not corrected:

- Folder content is a substring test, so `exams/2020` "has content" when a file sits in `exams/2020-2021`. See `Views.PartialPeriodRenders`.
- The depth-1 period list does no liveness check. See `Views.DeadPeriodIsListedButNotFound`.
- `vote_file` has no range check. See `Views.OutOfRangeVoteSticks`.
- An unknown subject makes `.one()` raise, so the request gets a server error.
- `removeFile` tests `get_admin` without calling it, so any logged-in user may remove a file.
- `removeFile` keeps the file's vote and favourite rows.
- An upload writes its blob before the form is checked.
- The upload form does not validate the category, so a record filed as `examsX` can exist; it then makes the exams page raise. See `Views.UnsegmentedRecordBreaksCategory`.

## Model

Specification functions that carry no contract of their own are stated by the
lemmas that name them: `Util.FileExists` by `Util.GetFileSize`, `Util.LiveRows`
and `Util.LiveRecordsMembers`; `Util.UserFileVote` by `Util.UserFileVoteRange`;
`Util.UserFileFavorite` by `Util.FavoritePageMatchesFlag`; `Views.ApplyVote` by
`Views.VoteTable` and `Views.SuccessfulVoteRecordsRequest`; `Views.DisplayPath`
by `Views.DisplayPathCases`; `TemplateFilters.Breadcrumb` by the
`TemplateFilters.Breadcrumb…` lemmas; `TemplateFilters.IconFmt` by the icon
lemmas.

| member | source | states |
|---|---|---|
| Text.JoinSplit | Markis/util/util.py:96-97 | joining the parts of `s.split('/')` with '/' gives back `s` |
| Text.SplitJoin | Markis/util/util.py:96-97 | splitting a '/'-join of parts without '/' gives back the parts |
| Text.SubstringIffOccurs | Markis/util/util.py:43 | the `contains` test holds iff the pattern occurs at some position of the path |
| Text.ParseIntToString | Markis/views.py:336 | `int(str(y)) == y`, so a year offered by the form always parses |
| Catalog.FindById | Markis/views.py:239-240 | the lookup by id finds a record with that id, and finds none iff no record has it |
| Catalog.NewId | Markis/views.py:343-346 | an inserted record's id is positive and larger than every existing id |
| Catalog.AppendKeepsKeys | Markis/views.py:340-346 | appending a record with a fresh id and an unused hash keeps ids and hashes unique |
| Catalog.WithoutId | Markis/views.py:363 | deleting by id keeps exactly the records with another id |
| Catalog.WithoutIdKeepsKeys | Markis/views.py:363 | deleting by id keeps ids and hashes unique |
| Util.PathMatches | Markis/util/util.py:43 | the query returns exactly the records of the subject whose path contains the pattern |
| Util.FolderHasContents | Markis/util/util.py:43-50 | true iff some live record of the subject has a path containing the folder name; false when nothing matches |
| Util.LiveRecordFillsFolders | Markis/util/util.py:43-50 | a live record fills every folder its path contains; without its blob, the folder is filled only through other live records |
| Util.GetSubjectFolders | Markis/util/util.py:62-67 | one entry per configured subfolder, in configured order, each flagged by the folder-content test |
| Util.PrefixMatches | Markis/util/util.py:105-106 | the query returns exactly the records of the subject whose path starts with the category |
| Util.PeriodFoldersMeaning | Markis/util/util.py:107-110 | one entry per matching row, named by its second path segment, flagged as having content; an error iff some row has no second segment |
| Util.ListPeriods | Markis/util/util.py:106-110 | the loop computes the period list, stopping with the error at the first row without a second segment |
| Util.PeriodFoldersOfOne | Markis/util/util.py:107-110 | a single row with a second segment lists exactly that segment |
| Util.GetFoldersToShow | Markis/util/util.py:96-116 | nothing outside exams/homework or at depth 3 and beyond; the period list at depth 1; `[questions, answers]`, each flagged by the content test, at depth 2 |
| Util.UserFileVoteRange | Markis/util/util.py:119-132 | while every vote row holds -1 or +1, a user's vote on a file is +1, -1 or 0, and 0 exactly when the user has no row |
| Util.FavoritePageMatchesFlag | Markis/util/util.py:135-148 | a record with a blob is on the user's favourites page exactly when `get_user_file_favorite` reports it favourited |
| Util.UnitFor | Markis/util/util.py:173-180 | the chosen unit is the only one whose range holds the size (GB from 1024^3, MB from 1024^2, Kb from 1024, else b) |
| Util.GetFileSize | Markis/util/util.py:168-181 | `None` iff the blob is missing; otherwise the blob's size, in a unit whose range holds it |
| Util.LiveRows | Markis/util/util.py:204-207 | keeps exactly the rows with a file id and a live blob |
| Util.GetFilesToShow | Markis/util/util.py:204-218 | the live rows in query order, each with the uploader's display name or, failing the lookup, the username, the user's vote, favourite flag, size and download path |
| Util.GetYearsList | Markis/util/util.py:227-237 | the loop builds the years list up to the academic year of the date, which switches in August |
| Util.YearsUpToShape | Markis/util/util.py:227-237 | the list is the initial year marked "(and earlier)", then every later year with its "Y - Y+1" label, ending at the current academic year |
| Util.FavoriteRowsMembers | Markis/util/util.py:247-250 | the join yields exactly the records the user has favourited |
| Util.LiveRecordsMembers | Markis/util/util.py:255 | keeps exactly the records whose blob exists |
| Util.GetFavoriteFiles | Markis/util/util.py:246-259 | one entry per favourited live record (as `FavoriteRows` and `LiveRecords` select them), in order, each with its size and download path |
| Views.SuccessfulVoteRecordsRequest | Markis/views.py:244-280 | an accepted vote leaves exactly the requested value as the user's vote and never stores 0; a refused one changes nothing |
| Views.VoteTable | Markis/views.py:244-278 | from none, -1 or +1, a request of -1, 0 or +1 is refused iff it equals the current vote, and otherwise becomes the current vote |
| Views.VoteRejections | Markis/views.py:244-280 | for any integer request: without a row only 0 is refused; on a stored -1 or +1, every request other than 0 and the opposite sign is refused with 400 and changes nothing |
| Views.ReplayEndsOnLastRequest | Markis/views.py:244-278 | after any sequence of -1/0/+1 votes on a file, the recorded vote is the last one sent |
| Views.OutOfRangeVoteSticks | Markis/views.py:238-280 | with no range check, a first vote such as 5 is stored, and afterwards every vote on that row fails with 500 |
| Views.ToggleFavoriteFlips | Markis/views.py:191-199 | a POST flips the user's favourite on the file, touches no other row, and two POSTs restore the table |
| Views.DisplayPathCases | Markis/views.py:332-339 | the category itself outside exams/homework; there, rejected iff the year is empty or unsent or the type is "type", an error iff the year is not an integer, an error iff the year parses but no type was sent, else `category/Y-…` |
| Views.DisplayPathSegments | Markis/views.py:336-337 | for an offered year Y and a type, the path splits into category, "Y-(Y+1)" and type |
| Views.SubjectFiles | Markis/views.py:113-148 | an unknown subject raises; a lone exams/homework segment raises iff some record of the subject under it has no second path segment; otherwise a page renders iff the first segment is configured, depth ≤ 3, from depth 2 a live record's path contains the path, and a third segment is questions or answers |
| Views.LiveFileIsReachable | Markis/views.py:116-146 | a live file under `category/period/subtype` makes the category, period and subtype pages all render, provided every record of the subject under the category has a second path segment |
| Views.CategoryListingSucceeds | Markis/util/util.py:105-110 | the period list of a category raises no error when every record of the subject under it has a second path segment |
| Views.UnsegmentedRecordBreaksCategory | Markis/views.py:120-125 | one record filed as the category followed by text without '/' makes the category page raise |
| Views.LonePeriodListed | Markis/util/util.py:105-110 | a lone exam record under a period lists that period on the category page |
| Views.DeadPeriodIsListedButNotFound | Markis/views.py:128-136 | a period whose only file lost its blob is still listed, but its page is not found |
| Views.PartialPeriodRenders | Markis/views.py:128-134 | a URL naming only the start of a real period renders although no such period is listed |
| Views.LivePrefixResolves | Markis/views.py:128-134 | a two-segment path that begins a live record's path resolves |
| Views.Server.constructor | Markis/models.py:19-51 | empty tables satisfy the key and vote invariants |
| Views.Server.VoteFile | Markis/views.py:232-288 | 403 when anonymous; 500 for a missing `fileid` or `vote` key; 400 for non-integers, an unknown id or a missing blob, with the tables unchanged; otherwise the transition of the state machine and its answer |
| Views.Server.SetFavorite | Markis/views.py:180-228 | 403 when anonymous; 400 for an unknown id or a missing blob, with the tables unchanged; POST toggles the row, DELETE removes it |
| Views.Server.UploadFile | Markis/views.py:293-349 | login redirect; 400 without a file; 500 for an unknown or unsent subject; otherwise the blob is written, then the form is checked (400 for an empty subject or an empty or unsent category or a missing option, 500 for an unreadable year or an unsent type); success appends exactly one record with a fresh id and changes nothing else |
| Views.Server.RemoveFile | Markis/views.py:355-371 | 403 when anonymous; 400 for an unknown id; 500 when the blob is missing; otherwise the blob and the record are deleted, and votes and favourites are kept |
| Views.FavoriteTwiceRestores | Markis/views.py:191-199 | two favourite POSTs answer alike and leave the favourite table as it was |
| Views.DuplicateUploadRejected | Markis/views.py:340-342 | once some content is uploaded, uploading the same bytes again is refused in any subject or folder |
| TemplateFilters.PutLookup | Markis/views.py:412 | `r[section] = currpath` keeps keys distinct, maps the key to the new path and leaves every other key |
| TemplateFilters.LookupNone | Markis/views.py:412-413 | a dictionary lookup misses exactly when the key is absent, and otherwise gives a value stored under that key |
| TemplateFilters.PutKeys | Markis/views.py:412 | assigning to an existing key leaves the key order unchanged; a new key is appended last |
| TemplateFilters.RemoveKeys | Markis/views.py:413 | removing a key leaves exactly the other keys |
| TemplateFilters.PopLookup | Markis/views.py:413 | `pop` removes that key alone |
| TemplateFilters.NonEmptyMembers | Markis/views.py:409 | the filter keeps exactly the non-empty segments |
| TemplateFilters.CumulativePathIsJoin | Markis/views.py:410-411 | the path built segment by segment is "/" followed by the '/'-join of the segments |
| TemplateFilters.CrumbsUnique | Markis/views.py:406-412 | the built dictionary has distinct keys |
| TemplateFilters.CrumbsLookupSegment | Markis/views.py:410-412 | each segment maps to the path up to its last occurrence |
| TemplateFilters.CrumbsLookupOther | Markis/views.py:406-412 | a key that is no segment is absent, except "home", which maps to "/" |
| TemplateFilters.PopSubjectSucceeds | Markis/views.py:413 | the pop succeeds iff some segment is "subject" |
| TemplateFilters.PoppedCrumbsLookup | Markis/views.py:406-413 | after the pop, "subject" is gone and every other key is as built |
| TemplateFilters.BreadcrumbExists | Markis/views.py:405-415 | for a URL, a result exists iff some non-empty segment is "subject" (otherwise the pop raises `KeyError`) |
| TemplateFilters.BreadcrumbSegment | Markis/views.py:405-415 | every non-empty segment other than "subject" links to the cumulative path up to its last occurrence |
| TemplateFilters.BreadcrumbOther | Markis/views.py:405-415 | a key that is no segment is absent, except "home", which links to "/" |
| TemplateFilters.SubjectPageBreadcrumb | Markis/views.py:405-415 | `/subject/<s>/<f>` gives exactly home, s and f in that order, each linked to its own path |
| TemplateFilters.GetBreadcrumbPath | Markis/views.py:405-415 | the loop over the segments computes the breadcrumb |
| TemplateFilters.IconIsConfigured | Markis/views.py:418-432 | the icon is always one of the configured icons |
| TemplateFilters.DefaultIconIffMiss | Markis/views.py:429-432 | the default icon is given iff the lookup key is not configured |
| TemplateFilters.IconByMajorType | Markis/views.py:421-428 | outside application types, the icon depends on the major type alone |
| TemplateFilters.ApplicationIconByFullType | Markis/views.py:424-432 | an application type is looked up by the whole type string: a listed one gets its own icon, any other the default icon |
| TemplateFilters.ImageIcon | Markis/views.py:426-432 | every image type gets the image icon |

## Left out

- The user directory (`Markis/util/crowd.py` and the `User` class of `Markis/models.py`) is a network client. The display-name lookup is the function parameter `displayName` of `Util.GetFilesToShow`, where `None` stands for its `ValueError`.
- Login, logout, registration, the profile page, the static routes and the error pages are framework plumbing. So are `get_file`'s `send_file`, `@login_required` on the read-only pages and `is_safe_url`, which is URL-library parsing.
- Rendering: pages are represented by the data handed to the template or by a `Views.Dispatch` value.
- SHA-1 is not modelled. The digest is a function parameter of `Views.Server.UploadFile`.
- Views.Server.UploadFile: saving under the upload's own file name and then renaming to the hash are folded into one write of the blob under the hash.
- Util.GetFileSize: the number text `str(round(size / 1024**k, 1))` is floating point and is not modelled. The contract gives the exact byte count and the unit.
- The raw SQL of `get_files_to_show` (a `LEFT JOIN` with an ungrouped `SUM`) is not modelled. Its result rows are the input of `Util.GetFilesToShow`.
- Util.GetFavoriteFiles: the join is taken in table order. The database does not promise any order.
- SQL `LIKE` wildcards (`%`, `_` inside a name) and SQLite's case-insensitive `LIKE` are not modelled. The filters are exact, case-sensitive prefix and substring tests.
- Python `int()` also accepts surrounding whitespace and digit underscores. `Text.ParseInt` accepts only an optional sign followed by ASCII digits.
- Views.Server.SetFavorite and Views.Server.RemoveFile take the file id as an integer. The `int()` conversion of the JSON value, and the exception it raises on bad input, are not modelled.
- The clock: `Util.GetYearsList` takes the current year and month as parameters.
- The GET branch of the upload form and the form's choice lists are not modelled.
- The upload form is modelled with WTForms 3 semantics: a select field the request does not send reads as `None`. A request without a `file` part at all (`request.files["file"]` raising, answered 400 by the framework) is not modelled.
- Views.Server.UploadFile: under WTForms 2, `SelectField` coerces the unsent default with `str`, so an unsent field reads as the truthy string "None". That behaviour is not modelled. With it, an unsent category stores a record filed as "None" (the model answers 400), an unsent year for exams or homework raises in `int("None")` (the model answers 400 for missing options), and an unsent type stores a path ending in "/None" (the model answers 500).
- Views.Server.VoteFile: a body that is not JSON at all (`request.json` is `None`) is not modelled. A missing key is.
- `upload_date` is left out of the records. It is only displayed.
- Transactions and concurrent requests are not modelled. Each request is one atomic update.
- The routes' `request.method` checks are not modelled. Only the methods that the route table admits reach a handler.
- Markis/__init__.py and Markis/forms.py are not part of this model: they only wire the app and declare form fields.
