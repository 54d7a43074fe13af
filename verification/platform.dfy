/**
 The platform heuristic `is_twitter_post`: a record comes from Twitter when
 its subreddit is an `@handle`, or when its post id is a long all-digit
 string; every other record is treated as Reddit.
 */
module Platform {
  import opened Records

  /** A subreddit starting with this character is a Twitter handle. */
  const HandleMarker: char := '@'

  /** A digit-only post id longer than this is a Twitter status id. */
  const MaxRedditIdLength: nat := 15

  /** The post's subreddit, empty when the key is missing (scripts/analyze-engagement.py:18). */
  function SubredditOf(r: Record): string {
    r.subreddit.GetOr("")
  }

  /** The post's id, empty when the key is missing (scripts/analyze-engagement.py:19). */
  function PostIdOf(r: Record): string {
    r.postId.GetOr("")
  }

  predicate IsDigit(c: char) {
    '0' <= c <= '9'
  }

  /** Python's digit test on a string: at least one character, and every character a digit. */
  function IsDigitString(s: string): (digits: bool)
    ensures digits <==> s != [] && forall c :: c in s ==> '0' <= c <= '9'
    ensures s == [] ==> !digits
  {
    DigitsByMembership(s);
    |s| > 0 && forall i :: 0 <= i < |s| ==> IsDigit(s[i])
  }

  lemma DigitsByMembership(s: string)
    ensures (forall i :: 0 <= i < |s| ==> IsDigit(s[i])) <==> (forall c :: c in s ==> '0' <= c <= '9')
  {
    if forall i :: 0 <= i < |s| ==> IsDigit(s[i]) {
      forall c | c in s ensures '0' <= c <= '9' {
        var i :| 0 <= i < |s| && s[i] == c;
        assert IsDigit(s[i]);
      }
    }
    if forall c :: c in s ==> '0' <= c <= '9' {
      forall i | 0 <= i < |s| ensures IsDigit(s[i]) {
        assert s[i] in s;
      }
    }
  }

  /** Whether `s` begins with `prefix`. */
  predicate StartsWith(s: string, prefix: string) {
    |prefix| <= |s| && s[..|prefix|] == prefix
  }

  /** The platform classifier (scripts/analyze-engagement.py:16-27). */
  function IsTwitterPost(r: Record): (twitter: bool)
    // An @handle subreddit decides, whatever the post id.
    ensures |SubredditOf(r)| > 0 && SubredditOf(r)[0] == HandleMarker ==> twitter
    // Otherwise an empty id, an id with a non-digit, or a short id means Reddit.
    ensures !(|SubredditOf(r)| > 0 && SubredditOf(r)[0] == HandleMarker) ==>
      (twitter <==> |PostIdOf(r)| > MaxRedditIdLength
                    && forall i :: 0 <= i < |PostIdOf(r)| ==> IsDigit(PostIdOf(r)[i]))
    ensures PostIdOf(r) == [] ==> (twitter <==> StartsWith(SubredditOf(r), [HandleMarker]))
  {
    var subreddit := SubredditOf(r);
    var postId := PostIdOf(r);
    if StartsWith(subreddit, [HandleMarker]) then true
    else if IsDigitString(postId) && |postId| > MaxRedditIdLength then true
    else false
  }

  /** A record without a subreddit key and with a 16-digit id is Twitter. */
  lemma LongNumericIdIsTwitter()
    ensures IsTwitterPost(Record(None, Some("1234567890123456"), None, Missing, None))
  {
  }

  /** A 15-digit id is not long enough. */
  lemma FifteenDigitIdIsReddit()
    ensures !IsTwitterPost(Record(Some("funny"), Some("123456789012345"), None, Missing, None))
  {
  }

  /** An ordinary subreddit and an alphanumeric id are Reddit. */
  lemma AlphanumericIdIsReddit()
    ensures !IsTwitterPost(Record(Some("funny"), Some("abc123"), None, Missing, None))
  {
    assert !IsDigit("abc123"[0]);
  }
}
