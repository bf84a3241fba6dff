/** `check_weibo_live`: given the feed response, pick the first post that
    was made today and carries a live stream address, and rewrite the
    address from HLS (`.m3u8`) to FLV (`.flv`). The HTTP request itself is
    not modelled: the response arrives as a status code and a decoded body. */
module Feed {
  import opened Wrappers
  import opened Text
  import opened Timestamp

  const HLS_SUFFIX := ".m3u8"
  const FLV_SUFFIX := ".flv"

  /** The parts of a decoded post that the selection reads. For
      `created_at` and `live_ld` an absent key and a JSON `null` are both
      `None`, since the code treats them alike; for `page_info` and
      `media_info`, `None` is an absent key only. */
  datatype MediaInfo = MediaInfo(liveLd: Option<string>)
  datatype PageInfo = PageInfo(mediaInfo: Option<MediaInfo>)
  datatype Post = Post(createdAt: Option<string>, pageInfo: Option<PageInfo>)

  /** The decoded body: not JSON at all, or an object whose `data` member
      may hold a `list` of posts. */
  datatype Payload = Payload(list: Option<seq<Post>>)
  datatype Body = NotJson | Json(data: Option<Payload>)
  datatype Response = Response(status: int, body: Body)

  /** The exceptions that escape `check_weibo_live`. */
  datatype Failure = InvalidJson | InvalidDate(createdAt: string)

  /** `live_ld.replace('.m3u8', '.flv')`. */
  function ToFlv(url: string): (r: string)
    ensures !Contains(url, HLS_SUFFIX) ==> r == url
    ensures r != "" <==> url != ""
  {
    ReplaceAll(url, HLS_SUFFIX, FLV_SUFFIX)
  }

  /** One iteration of the loop over posts: an error if `created_at` is a
      non-empty string that does not parse (the date test runs before any
      other test), `Some` of the rewritten address if the post was made
      today and has a non-empty `live_ld`, and `None` to move on. */
  function Examine(post: Post, clock: Clock): (r: Result<Option<string>, Failure>)
    ensures post.createdAt.None? || post.createdAt == Some("") ==> r == Ok(None)
    ensures r.Err? <==> && post.createdAt.Some? && post.createdAt.value != ""
                        && Parse(post.createdAt.value).None?
    ensures r.Err? ==> r.error == InvalidDate(post.createdAt.value)
  {
    var createdAt := post.createdAt.GetOr("");
    match IsToday(createdAt, clock)
    case Err(_) => Err(InvalidDate(createdAt))
    case Ok(today) =>
      if today && post.pageInfo.Some? && post.pageInfo.value.mediaInfo.Some? then
        match post.pageInfo.value.mediaInfo.value.liveLd
        case Some(url) => if url != "" then Ok(Some(ToFlv(url))) else Ok(None)
        case None => Ok(None)
      else Ok(None)
  }

  type Outcome = Result<Option<string>, Failure>

  /** What examining each post would give, in list order. */
  function Outcomes(posts: seq<Post>, clock: Clock): seq<Outcome> {
    seq(|posts|, i requires 0 <= i < |posts| => Examine(posts[i], clock))
  }

  /** The first outcome that is not a skip, or a skip if all are: the loop
      returns at the first post that yields an address or raises. */
  function FirstOutcome(outcomes: seq<Outcome>): Outcome {
    if outcomes == [] then Ok(None)
    else if outcomes[0] != Ok(None) then outcomes[0]
    else FirstOutcome(outcomes[1..])
  }

  function FirstMatch(posts: seq<Post>, clock: Clock): Outcome {
    FirstOutcome(Outcomes(posts, clock))
  }

  /** What `check_weibo_live` returns (`Ok`) or raises (`Err`). Without a
      200 status, or without `data.list`, there is no address and nothing
      raises; a body that is not JSON raises exactly when the status is
      200, the only case in which it is decoded. */
  function Select(response: Response, clock: Clock): (r: Result<Option<string>, Failure>)
    ensures || response.status != 200
            || response.body == Json(None)
            || response.body == Json(Some(Payload(None)))
            ==> r == Ok(None)
    ensures response.body == NotJson ==> (r.Err? <==> response.status == 200)
  {
    if response.status != 200 then Ok(None)
    else match response.body
      case NotJson => Err(InvalidJson)
      case Json(Some(Payload(Some(posts)))) => FirstMatch(posts, clock)
      case Json(_) => Ok(None)
  }

  /** `check_weibo_live` with its `for` loop and early return. */
  method CheckWeiboLive(response: Response, clock: Clock) returns (r: Result<Option<string>, Failure>)
    ensures r == Select(response, clock)
  {
    if response.status != 200 {
      return Ok(None);
    }
    if response.body.NotJson? {
      return Err(InvalidJson);
    }
    if response.body.data.None? || response.body.data.value.list.None? {
      return Ok(None);
    }
    var posts := response.body.data.value.list.value;
    ghost var outcomes := Outcomes(posts, clock);
    for i := 0 to |posts|
      invariant FirstOutcome(outcomes) == FirstOutcome(outcomes[i..])
    {
      var outcome := Examine(posts[i], clock);
      if outcome != Ok(None) {
        return outcome;
      }
      assert outcomes[i..][1..] == outcomes[i + 1..];
    }
    return Ok(None);
  }

  // ---------------------------------------------------------------------
  // The rewrite

  /** Removing a character that is not '.' from the front keeps a string
      free of `.m3u8`. */
  lemma NoHlsAfterNonDot(c: char, t: string)
    requires c != '.' && !Contains(t, HLS_SUFFIX)
    ensures !Contains([c] + t, HLS_SUFFIX)
  {
    var s := [c] + t;
    assert s[1..] == t;
    assert !StartsWith(s, HLS_SUFFIX) by {
      if |s| >= |HLS_SUFFIX| {
        assert s[..|HLS_SUFFIX|][0] == c != HLS_SUFFIX[0];
      }
    }
  }

  lemma {:induction false} NoHlsAfterFlv(t: string)
    requires !Contains(t, HLS_SUFFIX)
    ensures !Contains(FLV_SUFFIX + t, HLS_SUFFIX)
  {
    NoHlsAfterNonDot('v', t);
    NoHlsAfterNonDot('l', "v" + t);
    assert "lv" + t == ['l'] + ("v" + t);
    NoHlsAfterNonDot('f', "lv" + t);
    assert "flv" + t == ['f'] + ("lv" + t);
    var s := FLV_SUFFIX + t;
    assert s[1..] == "flv" + t;
    assert s[1] != HLS_SUFFIX[1];
  }

  /** A prefix without '.' at the front of a rewritten string was already at
      the front before the rewrite: every '.flv' the rewrite writes starts
      with '.'. */
  lemma {:induction false} PrefixBeforeRewrite(t: string, q: string)
    requires '.' !in q
    ensures StartsWith(ToFlv(t), q) ==> StartsWith(t, q)
    decreases |t|
  {
    if q != "" && t != "" && !StartsWith(t, HLS_SUFFIX) {
      var r := ToFlv(t);
      assert r == [t[0]] + ToFlv(t[1..]);
      PrefixBeforeRewrite(t[1..], q[1..]);
      if StartsWith(r, q) {
        assert StartsWith(ToFlv(t[1..]), q[1..]) by {
          assert ToFlv(t[1..])[..|q| - 1] == r[1..|q|] == q[1..];
        }
        assert t[..|q|] == [t[0]] + t[1..][..|q| - 1];
      }
    } else if q != "" && t != "" {
      assert ToFlv(t) == FLV_SUFFIX + ToFlv(t[|HLS_SUFFIX|..]);
      assert ToFlv(t)[0] == '.' != q[0];
    }
  }

  /** Every `.m3u8` is rewritten: none is left, and none is formed anew
      where a replacement meets its neighbours. */
  lemma {:induction false} NoHlsLeft(url: string)
    ensures !Contains(ToFlv(url), HLS_SUFFIX)
    decreases |url|
  {
    if url != "" {
      if StartsWith(url, HLS_SUFFIX) {
        NoHlsLeft(url[|HLS_SUFFIX|..]);
        NoHlsAfterFlv(ToFlv(url[|HLS_SUFFIX|..]));
      } else {
        var rest := ToFlv(url[1..]);
        NoHlsLeft(url[1..]);
        assert ToFlv(url) == [url[0]] + rest;
        if StartsWith([url[0]] + rest, HLS_SUFFIX) {
          assert StartsWith(rest, "m3u8") by {
            assert rest[..4] == ([url[0]] + rest)[1..5];
          }
          PrefixBeforeRewrite(url[1..], "m3u8");
          assert false;
        }
        assert ([url[0]] + rest)[1..] == rest;
      }
    }
  }

  /** The first `.m3u8` becomes `.flv`, the text before it is kept as it
      is, and the text after it is rewritten in turn. With the unchanged
      case in the contract of `ToFlv`, this fixes the rewrite of every
      address: nothing around the suffix, such as a query string, is lost. */
  lemma {:induction false} ToFlvSplit(a: string, b: string)
    requires !Contains(a, HLS_SUFFIX)
    ensures ToFlv(a + HLS_SUFFIX + b) == a + FLV_SUFFIX + ToFlv(b)
  {
    var s := a + HLS_SUFFIX + b;
    ContainsIffOccurs(a, HLS_SUFFIX);
    assert s[|a|..|a| + |HLS_SUFFIX|] == HLS_SUFFIX;
    forall i: nat | i < |a| ensures !OccursAt(s, HLS_SUFFIX, i) {
      if i + |HLS_SUFFIX| <= |a| {
        assert s[i..i + |HLS_SUFFIX|] == a[i..i + |HLS_SUFFIX|];
        assert !OccursAt(a, HLS_SUFFIX, i);
      } else {
        assert s[i + 4] == HLS_SUFFIX[i + 4 - |a|] != '8';
        assert s[i..i + |HLS_SUFFIX|][4] != HLS_SUFFIX[4];
      }
    }
    ReplaceAt(s, HLS_SUFFIX, FLV_SUFFIX, |a|);
    assert s[..|a|] == a && s[|a| + |HLS_SUFFIX|..] == b;
  }

  // ---------------------------------------------------------------------
  // One post

  /** A post with a parseable date yields an address exactly when it was
      made today and has a non-empty `page_info.media_info.live_ld`; the
      address is that `live_ld` rewritten, it is never empty, and it holds
      no `.m3u8`. Otherwise the post is skipped. */
  lemma {:induction false} ExamineDatedPost(post: Post, clock: Clock)
    requires post.createdAt.Some? && Parse(post.createdAt.value).Some?
    ensures Examine(post, clock).Ok?
    ensures Examine(post, clock).value.Some? <==>
              && IsToday(post.createdAt.value, clock) == Ok(true)
              && post.pageInfo.Some? && post.pageInfo.value.mediaInfo.Some?
              && post.pageInfo.value.mediaInfo.value.liveLd.Some?
              && post.pageInfo.value.mediaInfo.value.liveLd.value != ""
    ensures Examine(post, clock).value.Some? ==>
              var url := Examine(post, clock).value.value;
              && url == ToFlv(post.pageInfo.value.mediaInfo.value.liveLd.value)
              && url != "" && !Contains(url, HLS_SUFFIX)
  {
    var r := Examine(post, clock);
    if r.value.Some? {
      NoHlsLeft(post.pageInfo.value.mediaInfo.value.liveLd.value);
    }
  }

  // ---------------------------------------------------------------------
  // The scan

  /** If every post before position `i` is skipped and post `i` yields an
      address or raises, that is the outcome of the scan. */
  lemma {:induction false} FirstOutcomeAt(outcomes: seq<Outcome>, i: nat)
    requires i < |outcomes| && outcomes[i] != Ok(None)
    requires forall j :: 0 <= j < i ==> outcomes[j] == Ok(None)
    ensures FirstOutcome(outcomes) == outcomes[i]
  {
    if i > 0 {
      assert outcomes[0] == Ok(None);
      FirstOutcomeAt(outcomes[1..], i - 1);
    }
  }

  /** Conversely, a scan that ends with an address or an exception ended at
      some post that yields it, and every post before that one is skipped. */
  lemma {:induction false} FirstOutcomeIndex(outcomes: seq<Outcome>) returns (i: nat)
    requires FirstOutcome(outcomes) != Ok(None)
    ensures i < |outcomes| && outcomes[i] == FirstOutcome(outcomes)
    ensures forall j :: 0 <= j < i ==> outcomes[j] == Ok(None)
  {
    if outcomes[0] == Ok(None) {
      var k := FirstOutcomeIndex(outcomes[1..]);
      i := k + 1;
      assert forall j :: 1 <= j < i ==> outcomes[j] == outcomes[1..][j - 1];
    } else {
      i := 0;
    }
  }

  /** Nothing is found, and nothing raises, exactly when every post is
      skipped. */
  lemma {:induction false} NoMatchIffAllSkipped(outcomes: seq<Outcome>)
    ensures FirstOutcome(outcomes) == Ok(None) <==>
              forall j :: 0 <= j < |outcomes| ==> outcomes[j] == Ok(None)
  {
    if outcomes != [] {
      NoMatchIffAllSkipped(outcomes[1..]);
      assert forall j :: 1 <= j < |outcomes| ==> outcomes[j] == outcomes[1..][j - 1];
    }
  }

  lemma {:induction false} FirstOutcomeOfAppend(outcomes: seq<Outcome>, later: seq<Outcome>)
    requires FirstOutcome(outcomes) != Ok(None)
    ensures FirstOutcome(outcomes + later) == FirstOutcome(outcomes)
  {
    assert (outcomes + later)[0] == outcomes[0];
    if outcomes[0] == Ok(None) {
      assert (outcomes + later)[1..] == outcomes[1..] + later;
      FirstOutcomeOfAppend(outcomes[1..], later);
    }
  }

  /** Posts after the one that ends the scan are never looked at: whatever
      follows it, even a post whose date would raise, the outcome is the
      same. */
  lemma {:induction false} LaterPostsIgnored(posts: seq<Post>, later: seq<Post>, clock: Clock)
    requires FirstMatch(posts, clock) != Ok(None)
    ensures FirstMatch(posts + later, clock) == FirstMatch(posts, clock)
  {
    var all, first, rest := Outcomes(posts + later, clock), Outcomes(posts, clock), Outcomes(later, clock);
    assert all == first + rest by {
      forall i | 0 <= i < |all| ensures all[i] == (first + rest)[i] {
        if i < |posts| {
          assert (posts + later)[i] == posts[i];
        } else {
          assert (posts + later)[i] == later[i - |posts|];
        }
      }
    }
    FirstOutcomeOfAppend(first, rest);
  }

  // ---------------------------------------------------------------------
  // The response

  /** An address returned is non-empty (the caller's truthiness test treats
      it as found), holds no `.m3u8`, and is the rewritten `live_ld` of a
      post in the list that was made today. */
  lemma {:induction false} SelectedAddress(response: Response, clock: Clock)
    requires Select(response, clock).Ok? && Select(response, clock).value.Some?
    ensures var url := Select(response, clock).value.value;
            && url != "" && !Contains(url, HLS_SUFFIX)
            && response.status == 200
            && response.body.Json? && response.body.data.Some?
            && response.body.data.value.list.Some?
            && exists i :: 0 <= i < |response.body.data.value.list.value| &&
                 var post := response.body.data.value.list.value[i];
                 && post.createdAt.Some?
                 && IsToday(post.createdAt.value, clock) == Ok(true)
                 && post.pageInfo.Some? && post.pageInfo.value.mediaInfo.Some?
                 && post.pageInfo.value.mediaInfo.value.liveLd.Some?
                 && url == ToFlv(post.pageInfo.value.mediaInfo.value.liveLd.value)
  {
    var url := Select(response, clock).value.value;
    var posts := response.body.data.value.list.value;
    var i := FirstOutcomeIndex(Outcomes(posts, clock));
    var post := posts[i];
    if post.createdAt.Some? && Parse(post.createdAt.value).Some? {
      ExamineDatedPost(post, clock);
    }
  }
}
