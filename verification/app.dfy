/** App.tsx: the run loop and its bookkeeping of replied, skipped and
    retried tweets. */
module App {
  import opened Wrappers
  import opened Strings
  import opened Json
  import opened Dom
  import opened Utils
  import opened Getters
  import opened Actions

  /** The `CONFIG` values the loop reads. */
  datatype Config = Config(maxAttemptsPerTweet: nat, minMatchScore: real)

  /** The agent's `state` object. `observer` says whether `state.observer`
      is non-null; `engagedMarks` and `skippedMarks` are the article nodes
      whose `dataset.engaged` / `dataset.skipped` is "1"; `stored` is the
      replied-id list kept in `localStorage`. */
  datatype State = State(
    stopped: bool,
    running: bool,
    repliedIds: set<string>,
    skippedIds: set<string>,
    attemptsById: map<string, nat>,
    anySuccessThisRun: bool,
    observer: bool,
    semiAuto: bool,
    engagedMarks: set<Node>,
    skippedMarks: set<Node>,
    stored: set<string>)

  /** The state the content script starts with. */
  const Initial: State := State(false, false, {}, {}, map[], false, false, true, {}, {}, {})

  // ---------------------------------------------------------------------------
  // getTweetId

  const StatusMarker: string := "/status/"

  predicate IsDigit(c: char) { '0' <= c <= '9' }

  predicate AllDigits(s: string) {
    forall i :: 0 <= i < |s| ==> IsDigit(s[i])
  }

  /** The longest all-digit prefix of `s` (the greedy `\d+`). */
  function DigitRun(s: string): (r: string)
    ensures StartsWith(s, r) && AllDigits(r)
    ensures |r| == |s| || !IsDigit(s[|r|])
  {
    if s != [] && IsDigit(s[0]) then [s[0]] + DigitRun(s[1..]) else []
  }

  /** `/\/status\/(\d+)/` matches at position `k`. */
  predicate MatchAt(href: string, k: nat) {
    k + 9 <= |href| && href[k..k + 8] == StatusMarker && IsDigit(href[k + 8])
  }

  function StatusIdFrom(href: string, k: nat): (r: Option<string>)
    ensures r.None? <==> forall j :: k <= j < |href| ==> !MatchAt(href, j)
    ensures r.Some? ==> exists j :: k <= j < |href| && MatchAt(href, j) && r.value == DigitRun(href[j + 8..])
                                     && forall i :: k <= i < j ==> !MatchAt(href, i)
    decreases |href| - k
  {
    if k + 9 > |href| then None
    else if MatchAt(href, k) then Some(DigitRun(href[k + 8..]))
    else
      var r := StatusIdFrom(href, k + 1);
      NoMatchHere(href, k, r);
      r
  }

  /** Skipping a position where the pattern does not match keeps the
      search's answer. */
  lemma NoMatchHere(href: string, k: nat, r: Option<string>)
    requires !MatchAt(href, k)
    requires r.None? <==> forall j :: k + 1 <= j < |href| ==> !MatchAt(href, j)
    requires r.Some? ==> exists j :: k + 1 <= j < |href| && MatchAt(href, j) && r.value == DigitRun(href[j + 8..])
                                     && forall i :: k + 1 <= i < j ==> !MatchAt(href, i)
    ensures r.None? <==> forall j :: k <= j < |href| ==> !MatchAt(href, j)
    ensures r.Some? ==> exists j :: k <= j < |href| && MatchAt(href, j) && r.value == DigitRun(href[j + 8..])
                                     && forall i :: k <= i < j ==> !MatchAt(href, i)
  {
    if r.Some? {
      var j :| k + 1 <= j < |href| && MatchAt(href, j) && r.value == DigitRun(href[j + 8..])
               && forall i :: k + 1 <= i < j ==> !MatchAt(href, i);
      assert forall i :: k <= i < j ==> !MatchAt(href, i);
    }
  }

  /** `href.match(/\/status\/(\d+)/)?.[1]`: the digit run after the first
      "/status/" that a digit follows. */
  function StatusId(href: string): (r: Option<string>)
    ensures r.None? <==> forall j :: 0 <= j < |href| ==> !MatchAt(href, j)
    ensures r.Some? ==> r.value != [] && AllDigits(r.value)
  {
    StatusIdFrom(href, 0)
  }

  /** `${user}|${time}|${text.slice(0, 30)}` */
  function CompositeKey(user: string, time: string, text: string): string {
    user + "|" + time + "|" + Take(text, 30)
  }

  /** `getTweetId`: the status id of the article's permalink, else a key
      built from author, timestamp and the start of the text. */
  function TweetId(a: Article): (r: string)
    ensures a.statusHref.Some? && StatusId(a.statusHref.value).Some? ==>
      r == StatusId(a.statusHref.value).value && r != [] && AllDigits(r)
    ensures !(a.statusHref.Some? && StatusId(a.statusHref.value).Some?) ==>
      r == CompositeKey(OrEmpty(a.userName), OrEmpty(a.time), OrEmpty(a.tweetText))
  {
    if a.statusHref.Some? && StatusId(a.statusHref.value).Some? then StatusId(a.statusHref.value).value
    else CompositeKey(OrEmpty(a.userName), OrEmpty(a.time), OrEmpty(a.tweetText))
  }

  /** A permalink `/<user>/status/<digits><rest>` yields exactly `<digits>`. */
  lemma StatusIdOfPermalink(user: string, digits: string, rest: string)
    requires '/' !in user
    requires digits != [] && AllDigits(digits)
    requires rest == [] || !IsDigit(rest[0])
    ensures StatusId("/" + user + StatusMarker + digits + rest) == Some(digits)
  {
    var href := "/" + user + StatusMarker + digits + rest;
    var m := |user| + 1;
    assert href[m + 8..] == digits + rest;
    assert MatchAt(href, m) by {
      assert href[m..m + 8] == StatusMarker;
      assert href[m + 8] == digits[0];
    }
    NoMatchInUser(user, digits + rest);
    assert href == "/" + user + StatusMarker + (digits + rest);
    DigitRunOf(digits, rest);
    FirstMatchFound(href, 0, m);
  }

  /** The search from `k` stops at the first match at or after `k`. */
  lemma {:induction false} FirstMatchFound(href: string, k: nat, m: nat)
    requires k <= m && MatchAt(href, m)
    requires forall j :: k <= j < m ==> !MatchAt(href, j)
    ensures StatusIdFrom(href, k) == Some(DigitRun(href[m + 8..]))
    decreases m - k
  {
    if k < m {
      assert !MatchAt(href, k);
      FirstMatchFound(href, k + 1, m);
    }
  }

  /** The pattern cannot start inside the "/user" part of a permalink. */
  lemma NoMatchInUser(user: string, tail: string)
    requires '/' !in user
    ensures forall j :: 0 <= j < |user| + 1 ==> !MatchAt("/" + user + StatusMarker + tail, j)
  {
    var href := "/" + user + StatusMarker + tail;
    forall j | 0 <= j < |user| + 1
      ensures !MatchAt(href, j)
    {
      if j > 0 {
        assert href[j] == user[j - 1];
        assert href[j] != StatusMarker[0];
      } else if |user| == 6 {
        assert href[8] == 's';
      } else {
        assert href[7] != StatusMarker[7];
      }
    }
  }

  lemma {:induction false} DigitRunOf(digits: string, rest: string)
    requires AllDigits(digits)
    requires rest == [] || !IsDigit(rest[0])
    ensures DigitRun(digits + rest) == digits
  {
    if digits != [] {
      assert (digits + rest)[1..] == digits[1..] + rest;
      DigitRunOf(digits[1..], rest);
    }
  }

  /** The author and timestamp can be read back from a composite key when
      neither contains the separator. */
  lemma CompositeKeyFields(user: string, time: string, text: string)
    requires '|' !in user && '|' !in time
    ensures var parts := Split(CompositeKey(user, time, text), '|');
      |parts| >= 3 && parts[0] == user && parts[1] == time
  {
    var t := Take(text, 30);
    assert CompositeKey(user, time, text) == user + ['|'] + (time + ['|'] + t);
    SplitAtFirst(user, time + ['|'] + t, '|');
    SplitAtFirst(time, t, '|');
  }

  /** A status id never collides with a composite key. */
  lemma StatusIdIsNotCompositeKey(a: Article)
    ensures var id := TweetId(a);
      (a.statusHref.Some? && StatusId(a.statusHref.value).Some?) <==> '|' !in id
  {
    var id := TweetId(a);
    if !(a.statusHref.Some? && StatusId(a.statusHref.value).Some?) {
      var user := OrEmpty(a.userName);
      assert id[|user|] == '|';
    }
  }

  // ---------------------------------------------------------------------------
  // bumpAttempt

  /** `state.attemptsById.get(id) || 0` */
  function Attempts(st: State, id: string): nat {
    if id in st.attemptsById then st.attemptsById[id] else 0
  }

  /** Every id tried `maxAttemptsPerTweet` times has been skipped. */
  predicate Inv(cfg: Config, st: State) {
    forall id :: id in st.attemptsById && st.attemptsById[id] >= cfg.maxAttemptsPerTweet ==> id in st.skippedIds
  }

  /** `bumpAttempt(id, article)`: counts one more failed attempt on `id` and
      gives up on it at the threshold, marking the article skipped. */
  function BumpAttempt(cfg: Config, st: State, id: string, article: Option<Node>): (r: State)
    ensures Attempts(r, id) == Attempts(st, id) + 1
    ensures forall x :: x != id ==> Attempts(r, x) == Attempts(st, x)
    ensures r.attemptsById.Keys == st.attemptsById.Keys + {id}
    ensures id in r.skippedIds <==> id in st.skippedIds || Attempts(r, id) >= cfg.maxAttemptsPerTweet
    ensures forall x :: x != id ==> (x in r.skippedIds <==> x in st.skippedIds)
    ensures st.skippedIds <= r.skippedIds
    ensures r.repliedIds == st.repliedIds && r.stored == st.stored
    ensures r.stopped == st.stopped && r.running == st.running && r.semiAuto == st.semiAuto
    ensures r.anySuccessThisRun == st.anySuccessThisRun && r.engagedMarks == st.engagedMarks
    ensures r.skippedMarks ==
      if article.Some? && Attempts(r, id) >= cfg.maxAttemptsPerTweet then st.skippedMarks + {article.value}
      else st.skippedMarks
    ensures r.observer == st.observer
    ensures Inv(cfg, st) ==> Inv(cfg, r)
  {
    var n := Attempts(st, id) + 1;
    var st1 := st.(attemptsById := st.attemptsById[id := n]);
    if n >= cfg.maxAttemptsPerTweet then
      st1.(skippedIds := st.skippedIds + {id},
           skippedMarks := if article.Some? then st.skippedMarks + {article.value} else st.skippedMarks)
    else st1
  }

  /** `n` failed attempts in a row. */
  function BumpTimes(cfg: Config, st: State, id: string, n: nat): State
    decreases n
  {
    if n == 0 then st else BumpTimes(cfg, BumpAttempt(cfg, st, id, None), id, n - 1)
  }

  /** After `n` further failures the count has grown by `n`, and the id is
      skipped as soon as the count reaches `maxAttemptsPerTweet`. */
  lemma {:induction false} BumpTimesSpec(cfg: Config, st: State, id: string, n: nat)
    ensures Attempts(BumpTimes(cfg, st, id, n), id) == Attempts(st, id) + n
    ensures id in BumpTimes(cfg, st, id, n).skippedIds <==>
      id in st.skippedIds || (n >= 1 && Attempts(st, id) + n >= cfg.maxAttemptsPerTweet)
    ensures BumpTimes(cfg, st, id, n).repliedIds == st.repliedIds
    decreases n
  {
    if n > 0 {
      BumpTimesSpec(cfg, BumpAttempt(cfg, st, id, None), id, n - 1);
    }
  }

  // ---------------------------------------------------------------------------
  // nextCandidateBelowViewport

  /** An article the loop may pick next. */
  predicate Eligible(st: State, vp: Viewport, a: Article) {
    && a.isTweet
    && IsVisible(a.rect, vp)
    && a.rect.top > 0.0
    && TweetId(a) !in st.repliedIds
    && TweetId(a) !in st.skippedIds
    && a.node !in st.engagedMarks
    && a.node !in st.skippedMarks
  }

  /** `nextCandidateBelowViewport`: the first eligible tweet in document order. */
  function NextCandidateBelowViewport(st: State, page: Page, vp: Viewport): (r: Option<nat>)
    ensures r.Some? ==> r.value < |page| && Eligible(st, vp, page[r.value])
    ensures r.Some? ==> forall j :: 0 <= j < r.value ==> !Eligible(st, vp, page[j])
    ensures r.None? <==> forall j :: 0 <= j < |page| ==> !Eligible(st, vp, page[j])
  {
    Seqs.FindFirst(page, a => Eligible(st, vp, a))
  }

  // ---------------------------------------------------------------------------
  // engagement and outcome dispatch

  datatype Outcome = Posted | Skipped | Failed | Stopped

  /** The result of `engageTweetSemiAuto`, with the clicks it made and
      whether it set `state.stopped`. */
  datatype SemiAuto = SemiAuto(outcome: Outcome, stops: bool, likeClicked: bool, submitClicked: bool)

  /** The reply dialog is open with the comment pasted, awaiting the user. */
  predicate AwaitsApproval(a: Article, comment: Json, ix: Interaction) {
    GetTweetActionButtons(a).reply.Some? && ix.dialogOpens && ReplyText(comment).Some?
  }

  /** `engageTweetSemiAuto`: like, open the dialog, paste the reply and let
      the user approve, skip or stop; only approval submits. */
  function EngageTweetSemiAuto(a: Article, comment: Json, ix: Interaction): (r: SemiAuto)
    ensures r.stops <==> r.outcome == Stopped
    ensures r.outcome == Stopped <==> AwaitsApproval(a, comment, ix) && ix.choice == Stop
    ensures r.outcome == Skipped <==> AwaitsApproval(a, comment, ix) && ix.choice == Skip
    ensures r.outcome == Posted <==>
      AwaitsApproval(a, comment, ix) && ix.choice == Approve && ix.submitFound && ix.dialogCloses
    ensures r.submitClicked <==> AwaitsApproval(a, comment, ix) && ix.choice == Approve && ix.submitFound
    ensures r.likeClicked <==> ShouldLike(GetTweetActionButtons(a))
  {
    var b := GetTweetActionButtons(a);
    var liked := ShouldLike(b);
    if b.reply.None? || !ix.dialogOpens || ReplyText(comment).None? then
      SemiAuto(Failed, false, liked, false)
    else
      match ix.choice
      case Stop => SemiAuto(Stopped, true, liked, false)
      case Skip => SemiAuto(Skipped, false, liked, false)
      case Approve =>
        if !ix.submitFound then SemiAuto(Failed, false, liked, false)
        else SemiAuto(if ix.dialogCloses then Posted else Failed, false, liked, true)
  }

  /** Unlike full-auto mode, semi-auto mode has no blank-comment guard: an
      approved reply is submitted and can be posted whatever its text. */
  lemma SemiAutoPostsBlank(a: Article, comment: Json, ix: Interaction)
    requires ReplyText(comment).Some? && Ink(ReplyText(comment).value) == []
    requires GetTweetActionButtons(a).reply.Some? && ix.dialogOpens
    requires ix.choice == Approve && ix.submitFound && ix.dialogCloses
    ensures EngageTweetSemiAuto(a, comment, ix).submitClicked
    ensures EngageTweetSemiAuto(a, comment, ix).outcome == Posted
  {
  }

  /** `modeResult`: semi-auto engagement, or full-auto mapped to posted/failed. */
  function ModeResult(semiAuto: bool, a: Article, comment: Json, ix: Interaction): (r: Outcome)
    ensures !semiAuto ==> (r == Posted <==> EngageTweet(a, comment, ix).ok)
    ensures !semiAuto ==> r == Posted || r == Failed
    ensures semiAuto ==> r == EngageTweetSemiAuto(a, comment, ix).outcome
  {
    if semiAuto then EngageTweetSemiAuto(a, comment, ix).outcome
    else if EngageTweet(a, comment, ix).ok then Posted else Failed
  }

  /** The outcome dispatch of `run`: a post records the id (and persists the
      list), a skip skips it, a stop ends the loop, anything else counts as a
      failed attempt. */
  function Dispatch(cfg: Config, st: State, targetId: string, node: Node, outcome: Outcome): (r: State)
    ensures outcome == Posted ==>
      && r.repliedIds == st.repliedIds + {targetId} && r.anySuccessThisRun
      && r.stored == r.repliedIds
      && r.engagedMarks == st.engagedMarks + {node} && r.skippedMarks == st.skippedMarks
      && r.skippedIds == st.skippedIds && r.attemptsById == st.attemptsById
    ensures outcome == Skipped ==>
      && r.skippedIds == st.skippedIds + {targetId} && r.skippedMarks == st.skippedMarks + {node}
      && r.engagedMarks == st.engagedMarks && r.anySuccessThisRun == st.anySuccessThisRun
      && r.repliedIds == st.repliedIds && r.attemptsById == st.attemptsById
    ensures outcome != Stopped ==> r.stopped == st.stopped
    ensures r.semiAuto == st.semiAuto && r.observer == st.observer
    ensures outcome == Stopped ==> r == st.(stopped := true)
    ensures outcome == Failed ==> r == BumpAttempt(cfg, st, targetId, Some(node))
    ensures outcome != Posted ==> r.repliedIds == st.repliedIds && r.stored == st.stored
    ensures st.skippedIds <= r.skippedIds
    ensures r.running == st.running
    ensures Inv(cfg, st) ==> Inv(cfg, r)
  {
    match outcome
    case Posted =>
      var replied := st.repliedIds + {targetId};
      st.(repliedIds := replied, anySuccessThisRun := true,
          engagedMarks := st.engagedMarks + {node}, stored := replied)
    case Skipped =>
      st.(skippedIds := st.skippedIds + {targetId}, skippedMarks := st.skippedMarks + {node})
    case Stopped => st.(stopped := true)
    case Failed => BumpAttempt(cfg, st, targetId, Some(node))
  }

  // ---------------------------------------------------------------------------
  // run

  /** What the world does during one pass of the loop: whether Stop was
      clicked before the loop condition is checked, the page (articles and
      viewport) as first seen, after scrolling for more and after aligning the
      candidate, the backend's `result` for the screenshot, and the page's and
      user's behaviour during engagement. */
  datatype Observation = Observation(
    stopClicked: bool,
    page: Page,
    viewport: Viewport,
    pageAfterLoad: Page,
    viewportAfterLoad: Viewport,
    pageAfterAlign: Page,
    viewportAfterAlign: Viewport,
    result: Json,
    interaction: Interaction)

  /** One pass of the loop: the new state, the id posted to (if any) and the
      id engagement was attempted on (if any). */
  datatype Step = Step(state: State, posted: Option<string>, engaged: Option<string>)

  /** Whether this pass reloads the feed: nothing eligible is on screen and
      something was already posted in this run. */
  predicate Reloads(st: State, o: Observation) {
    NextCandidateBelowViewport(st, o.page, o.viewport).None? && st.anySuccessThisRun
  }

  /** The page the article is picked from: the reloaded one if the pass reloads. */
  function PickPage(st: State, o: Observation): Page {
    if Reloads(st, o) then o.pageAfterLoad else o.page
  }

  function PickViewport(st: State, o: Observation): Viewport {
    if Reloads(st, o) then o.viewportAfterLoad else o.viewport
  }

  /** The state once the reload (if any) has re-armed the feed observer. */
  function AfterReload(st: State, o: Observation): (r: State)
    ensures r == st.(observer := r.observer)
  {
    if Reloads(st, o) then st.(observer := true) else st
  }

  /** `a` is the first article of `page` that `Eligible` admits. */
  predicate FirstEligible(st: State, vp: Viewport, page: Page, a: Article)
  {
    exists k :: 0 <= k < |page| && page[k] == a && Eligible(st, vp, a)
      && forall j :: 0 <= j < k ==> !Eligible(st, vp, page[j])
  }

  /** The article picked for the screenshot: the first eligible tweet of the
      page it looks at, after the reload if there was one. */
  function Picked(st: State, o: Observation): (r: Option<Article>)
    ensures r.Some? ==> FirstEligible(st, PickViewport(st, o), PickPage(st, o), r.value)
    ensures r.None? <==> forall j :: 0 <= j < |PickPage(st, o)| ==> !Eligible(st, PickViewport(st, o), PickPage(st, o)[j])
  {
    var from := PickPage(st, o);
    var pick := NextCandidateBelowViewport(st, from, PickViewport(st, o));
    if pick.None? then None else Some(from[pick.value])
  }

  /** The backend's `tweet_text` can be matched: an article was picked and
      the field is a non-empty string. */
  predicate Usable(st: State, o: Observation) {
    Picked(st, o).Some? && Truthy(Get(o.result, "tweet_text")) && Get(o.result, "tweet_text").Str?
  }

  /** The in-viewport search, then the whole-page one when it finds nothing. */
  function ViewportFirst(u: Unicode, snippet: string, minScore: real, page: Page, vp: Viewport): (hit: Option<FoundTweet>)
    ensures var inView := FindTweetByText(u, snippet, Options(minScore, true), page, vp);
      inView.Some? ==> hit == inView && hit.value.index < |page| && IsVisible(page[hit.value.index].rect, vp)
    ensures hit.None? <==> FindTweetByText(u, snippet, Options(minScore, false), page, vp).None?
    ensures hit.Some? ==> hit.value.index < |page|
    ensures hit.None? ==> var needles := TokenSet(u, snippet);
      needles == {} || NoneReaches(Candidates(Query(u, needles, Options(minScore, false), vp), page), minScore, |page|)
  {
    var inView := FindTweetByText(u, snippet, Options(minScore, true), page, vp);
    var anywhere := FindTweetByText(u, snippet, Options(minScore, false), page, vp);
    OnlyViewportHitIsVisible(u, snippet, Options(minScore, true), page, vp);
    FindTweetByTextSpec(u, snippet, Options(minScore, false), page, vp);
    if inView.Some? then
      WiderSearchFinds(u, snippet, minScore, page, vp);
      inView
    else anywhere
  }

  /** What the in-viewport search finds, the whole-page search finds too. */
  lemma WiderSearchFinds(u: Unicode, snippet: string, minScore: real, page: Page, vp: Viewport)
    requires FindTweetByText(u, snippet, Options(minScore, true), page, vp).Some?
    ensures FindTweetByText(u, snippet, Options(minScore, false), page, vp).Some?
  {
    var needles := TokenSet(u, snippet);
    FindTweetByTextSpec(u, snippet, Options(minScore, true), page, vp);
    FindTweetByTextSpec(u, snippet, Options(minScore, false), page, vp);
    var narrow := Candidates(Query(u, needles, Options(minScore, true), vp), page);
    var wide := Candidates(Query(u, needles, Options(minScore, false), vp), page);
    var j :| 0 <= j < |page| && narrow[j].considered && narrow[j].score >= minScore;
    assert wide[j].considered && wide[j].score >= minScore;
  }

  /** The article the backend's `tweet_text` was matched to, in the viewport
      first and then anywhere on the page; none when there is no usable text
      or no match. */
  function Located(cfg: Config, u: Unicode, st: State, o: Observation): (r: Option<Article>)
    ensures r.Some? ==> Usable(st, o) && r.value in o.pageAfterAlign
    ensures Usable(st, o) ==> var s := Get(o.result, "tweet_text").s;
      && (FindTweetByText(u, s, Options(cfg.minMatchScore, true), o.pageAfterAlign, o.viewportAfterAlign).Some? ==>
            r.Some? && IsVisible(r.value.rect, o.viewportAfterAlign))
      && (r.None? <==> FindTweetByText(u, s, Options(cfg.minMatchScore, false), o.pageAfterAlign, o.viewportAfterAlign).None?)
      && (r.None? ==> var needles := TokenSet(u, s);
            || needles == {}
            || NoneReaches(Candidates(Query(u, needles, Options(cfg.minMatchScore, false), o.viewportAfterAlign), o.pageAfterAlign),
                           cfg.minMatchScore, |o.pageAfterAlign|))
  {
    var content := Get(o.result, "tweet_text");
    if !Usable(st, o) then None
    else
      var page := o.pageAfterAlign;
      var hit := ViewportFirst(u, content.s, cfg.minMatchScore, page, o.viewportAfterAlign);
      if hit.None? then None else Some(page[hit.value.index])
  }

  /** The body of `while (!state.stopped)` in `run`. A matched tweet that
      was already replied to is only marked engaged, which keeps it out of
      later candidate lists. */
  function Iteration(cfg: Config, u: Unicode, st: State, o: Observation): (r: Step)
    ensures r.engaged.Some? ==> r.engaged.value !in st.repliedIds
    ensures r.posted.Some? ==> r.engaged == r.posted
    ensures r.posted.Some? ==> r.state.repliedIds == st.repliedIds + {r.posted.value} && r.state.stored == r.state.repliedIds
    ensures r.posted.None? ==> r.state.repliedIds == st.repliedIds && r.state.stored == st.stored
    ensures st.skippedIds <= r.state.skippedIds
    ensures r.state.running == st.running
    ensures Inv(cfg, st) ==> Inv(cfg, r.state)
  {
    var st0 := AfterReload(st, o);
    match Picked(st, o)
    case None => Step(st0, None, None)
    case Some(article) =>
      var id := TweetId(article);
      var content := Get(o.result, "tweet_text");
      var reply := Get(Get(o.result, "suggested_reply"), "short");
      if !Truthy(content) then Step(BumpAttempt(cfg, st0, id, Some(article.node)), None, None)
      else if !content.Str? then Step(st0, None, None)
      else
        match Located(cfg, u, st, o)
        case None => Step(BumpAttempt(cfg, st0, id, Some(article.node)), None, None)
        case Some(target) => Engage(cfg, st0, target, reply, o.interaction)
  }

  /** The end of one pass, once the matched tweet `target` is known: a tweet
      already replied to is only marked engaged, any other is engaged in the
      current mode and the outcome dispatched. */
  function Engage(cfg: Config, st: State, target: Article, reply: Json, ix: Interaction): (r: Step)
    ensures r.engaged.Some? ==> r.engaged.value == TweetId(target) && r.engaged.value !in st.repliedIds
    ensures TweetId(target) in st.repliedIds ==>
      r == Step(st.(engagedMarks := st.engagedMarks + {target.node}), None, None)
    ensures r.posted.Some? ==> r.engaged == r.posted
    ensures r.posted.Some? ==> r.state.repliedIds == st.repliedIds + {r.posted.value} && r.state.stored == r.state.repliedIds
    ensures r.posted.None? ==> r.state.repliedIds == st.repliedIds && r.state.stored == st.stored
    ensures st.skippedIds <= r.state.skippedIds
    ensures r.state.running == st.running
    ensures Inv(cfg, st) ==> Inv(cfg, r.state)
  {
    var targetId := TweetId(target);
    if targetId in st.repliedIds then
      Step(st.(engagedMarks := st.engagedMarks + {target.node}), None, None)
    else
      var outcome := ModeResult(st.semiAuto, target, reply, ix);
      Step(Dispatch(cfg, st, targetId, target.node, outcome),
           if outcome == Posted then Some(targetId) else None,
           Some(targetId))
  }

  /** Engagement is attempted only on the matched tweet, and a match that
      was already replied to is marked engaged and left alone. */
  lemma IterationMarksReplied(cfg: Config, u: Unicode, st: State, o: Observation)
    ensures var r := Iteration(cfg, u, st, o); var hit := Located(cfg, u, st, o);
      && (r.engaged.Some? ==> hit.Some? && r.engaged.value == TweetId(hit.value))
      && (hit.Some? && TweetId(hit.value) in st.repliedIds ==>
            && r.engaged.None? && r.posted.None?
            && r.state.engagedMarks == st.engagedMarks + {hit.value.node}
            && r.state.skippedIds == st.skippedIds && r.state.attemptsById == st.attemptsById)
  {
    var hit := Located(cfg, u, st, o);
    var st0 := AfterReload(st, o);
    if hit.Some? {
      var article := Picked(st, o).value;
      var target := hit.value;
      var targetId := TweetId(target);
      if targetId in st.repliedIds {
        assert Iteration(cfg, u, st, o) == Step(st0.(engagedMarks := st0.engagedMarks + {target.node}), None, None);
      }
    }
  }

  /** A picked article whose `tweet_text` is missing, or matches no tweet,
      costs exactly one attempt on its id and engages nothing. */
  lemma IterationCountsMiss(cfg: Config, u: Unicode, st: State, o: Observation)
    ensures var content := Get(o.result, "tweet_text"); var r := Iteration(cfg, u, st, o);
      Picked(st, o).Some? && (!Truthy(content) || (content.Str? && Located(cfg, u, st, o).None?)) ==>
        var id := TweetId(Picked(st, o).value);
        && Attempts(r.state, id) == Attempts(st, id) + 1
        && (forall x :: x != id ==> Attempts(r.state, x) == Attempts(st, x))
        && r.engaged.None? && r.posted.None?
  {
    var content := Get(o.result, "tweet_text");
    if Picked(st, o).Some? && (!Truthy(content) || (content.Str? && Located(cfg, u, st, o).None?)) {
      var article := Picked(st, o).value;
      var st0 := AfterReload(st, o);
      MissIsBump(cfg, u, st, o);
      OneMoreAttempt(cfg, st, st0, TweetId(article), Some(article.node));
    }
  }

  lemma OneMoreAttempt(cfg: Config, st: State, st0: State, id: string, article: Option<Node>)
    requires st0.attemptsById == st.attemptsById
    ensures var r := BumpAttempt(cfg, st0, id, article);
      && Attempts(r, id) == Attempts(st, id) + 1
      && (forall x :: x != id ==> Attempts(r, x) == Attempts(st, x))
  {
    assert Attempts(st0, id) == Attempts(st, id);
  }

  lemma MissIsBump(cfg: Config, u: Unicode, st: State, o: Observation)
    requires Picked(st, o).Some?
    requires !Truthy(Get(o.result, "tweet_text")) || (Get(o.result, "tweet_text").Str? && Located(cfg, u, st, o).None?)
    ensures var a := Picked(st, o).value;
      Iteration(cfg, u, st, o) == Step(BumpAttempt(cfg, AfterReload(st, o), TweetId(a), Some(a.node)), None, None)
  {
    if Truthy(Get(o.result, "tweet_text")) {
      assert Located(cfg, u, st, o).None?;
    }
  }

  function Elems(s: seq<string>): set<string> {
    set x | x in s
  }

  lemma ElemsAppend(a: seq<string>, b: seq<string>)
    ensures Elems(a + b) == Elems(a) + Elems(b)
  {
  }

  /** Ids posted in one pass, followed by those of later passes, stay
      distinct and new. */
  lemma PrependFresh(before: set<string>, after: set<string>, mine: seq<string>, later: seq<string>)
    requires |mine| <= 1
    requires after == before + Elems(mine)
    requires forall i :: 0 <= i < |mine| ==> mine[i] !in before
    requires forall i :: 0 <= i < |later| ==> later[i] !in after
    requires forall i, j :: 0 <= i < j < |later| ==> later[i] != later[j]
    ensures var all := mine + later;
      && Elems(all) == Elems(mine) + Elems(later)
      && (forall i :: 0 <= i < |all| ==> all[i] !in before)
      && (forall i, j :: 0 <= i < j < |all| ==> all[i] != all[j])
  {
    var all := mine + later;
    ElemsAppend(mine, later);
    assert forall i :: 0 <= i < |later| ==> all[|mine| + i] == later[i];
  }

  /** Passes of the loop over the observations, until `state.stopped`. The
      result's sequence lists the ids posted to, in order. */
  function Loop(cfg: Config, u: Unicode, st: State, obs: seq<Observation>): (r: (State, seq<string>))
    ensures r.0.repliedIds == st.repliedIds + Elems(r.1)
    ensures forall i :: 0 <= i < |r.1| ==> r.1[i] !in st.repliedIds
    ensures forall i, j :: 0 <= i < j < |r.1| ==> r.1[i] != r.1[j]
    ensures r.1 != [] ==> r.0.stored == r.0.repliedIds
    ensures r.1 == [] ==> r.0.stored == st.stored
    ensures st.skippedIds <= r.0.skippedIds
    ensures r.0.running == st.running
    ensures Inv(cfg, st) ==> Inv(cfg, r.0)
    decreases |obs|
  {
    if |obs| == 0 then (st, [])
    else
      var st1 := if obs[0].stopClicked then st.(stopped := true) else st;
      if st1.stopped then (st1, [])
      else
        var step := Iteration(cfg, u, st1, obs[0]);
        var rest := Loop(cfg, u, step.state, obs[1..]);
        ChainPass(cfg, st, step, rest);
        (rest.0, PostedIds(step) + rest.1)
  }

  /** The id a pass posted to, if any, as a sequence. */
  function PostedIds(step: Step): seq<string> {
    if step.posted.Some? then [step.posted.value] else []
  }

  /** One pass that keeps the contract of `Iteration`, followed by passes
      that keep the contract of `Loop`, keeps the contract of `Loop`. */
  lemma ChainPass(cfg: Config, st: State, step: Step, rest: (State, seq<string>))
    requires step.posted.Some? ==>
      && step.posted.value !in st.repliedIds
      && step.state.repliedIds == st.repliedIds + {step.posted.value} && step.state.stored == step.state.repliedIds
    requires step.posted.None? ==> step.state.repliedIds == st.repliedIds && step.state.stored == st.stored
    requires st.skippedIds <= step.state.skippedIds && step.state.running == st.running
    requires Inv(cfg, st) ==> Inv(cfg, step.state)
    requires rest.0.repliedIds == step.state.repliedIds + Elems(rest.1)
    requires forall i :: 0 <= i < |rest.1| ==> rest.1[i] !in step.state.repliedIds
    requires forall i, j :: 0 <= i < j < |rest.1| ==> rest.1[i] != rest.1[j]
    requires rest.1 != [] ==> rest.0.stored == rest.0.repliedIds
    requires rest.1 == [] ==> rest.0.stored == step.state.stored
    requires step.state.skippedIds <= rest.0.skippedIds && rest.0.running == step.state.running
    requires Inv(cfg, step.state) ==> Inv(cfg, rest.0)
    ensures var all := PostedIds(step) + rest.1;
      && rest.0.repliedIds == st.repliedIds + Elems(all)
      && (forall i :: 0 <= i < |all| ==> all[i] !in st.repliedIds)
      && (forall i, j :: 0 <= i < j < |all| ==> all[i] != all[j])
      && (all != [] ==> rest.0.stored == rest.0.repliedIds)
      && (all == [] ==> rest.0.stored == st.stored)
      && st.skippedIds <= rest.0.skippedIds && rest.0.running == st.running
      && (Inv(cfg, st) ==> Inv(cfg, rest.0))
  {
    var mine := PostedIds(step);
    PrependFresh(st.repliedIds, step.state.repliedIds, mine, rest.1);
  }

  /** `run()`: refuses to start twice; otherwise loads the persisted ids,
      loops, and on exit clears the observer and the running flag. The
      result's sequence lists the ids posted to, in order. */
  function Run(cfg: Config, u: Unicode, st: State, obs: seq<Observation>): (r: (State, seq<string>))
    ensures st.running ==> r == (st, [])
    ensures !st.running ==> (r.0.running <==> !r.0.stopped)
    ensures !st.running && r.0.stopped ==> !r.0.observer
    ensures !st.running ==> r.0.repliedIds == st.repliedIds + st.stored + Elems(r.1)
    ensures forall i :: 0 <= i < |r.1| ==> r.1[i] !in st.repliedIds && r.1[i] !in st.stored
    ensures forall i, j :: 0 <= i < j < |r.1| ==> r.1[i] != r.1[j]
    ensures Inv(cfg, st) ==> Inv(cfg, r.0)
  {
    if st.running then (st, [])
    else
      var s0 := st.(running := true, stopped := false, anySuccessThisRun := false,
                    repliedIds := st.repliedIds + st.stored);
      var (s1, posted) := Loop(cfg, u, s0, obs);
      if s1.stopped then (s1.(observer := false, running := false), posted)
      else (s1, posted)
  }
}
