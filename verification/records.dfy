/**
 The shapes of the JSON export the engagement analysis reads.

 A record is a dictionary in the source; every key may be missing, and the
 readers either look a key up with a default or test whether it is present. Here each key is an
 explicit optional field. `apiScore` has three states because the source
 distinguishes a missing key from a key whose value is `null`.
 */
module Records {

  /** A key that may be absent from a record. */
  datatype Option<+T> = None | Some(value: T) {

    /** The value when present, else the default. */
    function GetOr(default: T): T {
      match this
      case Some(v) => v
      case None => default
    }
  }

  /** A key that may be absent, present with `null`, or present with a value. */
  datatype Nullable<+T> = Missing | Null | Value(value: T)

  /** One calibration entry or one session impression. */
  datatype Record = Record(
    subreddit: Option<string>,
    postId: Option<string>,
    heuristicScore: Option<int>,
    apiScore: Nullable<int>,
    bucket: Option<string>
  )

  /** One session of the export; only its `posts` are read. */
  datatype Session = Session(posts: Option<seq<Record>>)

  /** The export document as loaded from JSON. */
  datatype Export = Export(
    exportDate: Option<string>,
    sessions: Option<seq<Session>>,
    calibration: Option<seq<Record>>
  )

  /** The session's posts, none when the key is missing (scripts/analyze-engagement.py:184). */
  function PostsOf(s: Session): seq<Record> {
    s.posts.GetOr([])
  }

  /** The export's calibration entries, none when the key is missing (scripts/analyze-engagement.py:163). */
  function CalibrationOf(d: Export): seq<Record> {
    d.calibration.GetOr([])
  }

  /** The export's sessions, none when the key is missing (scripts/analyze-engagement.py:181). */
  function SessionsOf(d: Export): seq<Session> {
    d.sessions.GetOr([])
  }
}
