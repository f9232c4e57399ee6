/** The application's configuration constants (config.py). */
module Config {

  /** Top-level folders of every subject, in display order (SUBJECT_SUBFOLDERS). */
  const SubjectSubfolders: seq<string> := ["exams", "homework", "literature", "misc", "summaries"]

  /** First academic year offered on the upload form (INITIAL_YEAR). */
  const InitialYear: int := 2010

  /** URL prefix under which blobs are served (FILESTORE_PATH). */
  const FilestorePath: string := "/file"

  /** Icon names keyed by MIME major type + "/" or by a full application type (FILE_ICONS). */
  const FileIcons: map<string, string> := map[
    "audio/" := "file-audio",
    "video/" := "file-video",
    "image/" := "file-image",
    "text/" := "file-alt",
    "application/pdf" := "file-pdf",
    "application/msword" := "file-word",
    "application/mspowerpoint" := "file-powerpoint",
    "application/excel" := "file-excel",
    "application/zip" := "file-archive",
    "default" := "file"
  ]
}
