/** actions.ts: matching an AI-returned snippet to an on-screen tweet, and
    the full-auto reply submission. */
module Actions {
  import opened Wrappers
  import opened Strings
  import opened Json
  import opened Dom
  import opened Utils
  import opened Getters

  /** `{ minScore, onlyViewport }` of `findTweetByText`. */
  datatype Options = Options(minScore: real, onlyViewport: bool)

  /** `{ article, score }`: the article as its position on the page. */
  datatype FoundTweet = FoundTweet(index: nat, score: real)

  /** What one call of `findTweetByText` compares against. */
  datatype Query = Query(u: Unicode, needles: set<string>, opts: Options, vp: Viewport)

  /** `art.innerText || art.textContent || ""` */
  function ArticleText(a: Article): string {
    if a.innerText != "" then a.innerText else a.textContent
  }

  /** Articles outside the viewport are skipped when `onlyViewport` is set. */
  predicate Considered(q: Query, a: Article) {
    !q.opts.onlyViewport || IsVisible(a.rect, q.vp)
  }

  function ScoreOf(q: Query, a: Article): real {
    Overlap(q.needles, TokenSet(q.u, ArticleText(a)))
  }

  /** An article as the selection loop sees it. */
  datatype Scored = Scored(considered: bool, score: real)

  /** Each article as the loop sees it: considered exactly when the viewport
      filter is off or the article is visible, and scored by the share of the
      snippet's tokens found in the article's text. */
  function Candidates(q: Query, page: Page): (r: seq<Scored>)
    ensures |r| == |page|
    ensures forall j :: 0 <= j < |page| ==>
      && (r[j].considered <==> !q.opts.onlyViewport || IsVisible(page[j].rect, q.vp))
      && r[j].score == Overlap(q.needles, TokenSet(q.u, ArticleText(page[j])))
  {
    seq(|page|, j requires 0 <= j < |page| => Scored(Considered(q, page[j]), ScoreOf(q, page[j])))
  }

  /** The loop of `findTweetByText` over `c[k..]`: a considered article
      replaces the best so far when it reaches `minScore` and scores strictly
      higher. */
  function Scan(c: seq<Scored>, minScore: real, k: nat, best: Option<FoundTweet>): (r: Option<FoundTweet>)
    requires k <= |c|
    ensures (best.None? || best.value.index < |c|) ==> (r.None? || r.value.index < |c|)
    decreases |c| - k
  {
    if k == |c| then best
    else
      var best' := if c[k].considered && c[k].score >= minScore && (best.None? || c[k].score > best.value.score)
                   then Some(FoundTweet(k, c[k].score)) else best;
      Scan(c, minScore, k + 1, best')
  }

  /** `findTweetByText(snippet, opts)` on the articles `page`. */
  function FindTweetByText(u: Unicode, snippet: string, opts: Options, page: Page, vp: Viewport): (r: Option<FoundTweet>)
    ensures TokenSet(u, snippet) == {} ==> r.None?
    ensures r.Some? ==> r.value.index < |page|
  {
    var needles := TokenSet(u, snippet);
    if |needles| == 0 then None
    else
      var c := Candidates(Query(u, needles, opts, vp), page);
      ScanWhole(c, opts.minScore);
      Scan(c, opts.minScore, 0, None)
  }

  /** The best hit among the first `k` articles: a considered article that
      reaches `minScore`, scores at least as much as every considered
      article and strictly more than every considered one before it. */
  predicate BestAmong(c: seq<Scored>, minScore: real, k: nat, hit: FoundTweet)
    requires k <= |c|
  {
    && hit.index < k
    && c[hit.index].considered
    && hit.score == c[hit.index].score
    && hit.score >= minScore
    && (forall j :: 0 <= j < k && c[j].considered ==> c[j].score <= hit.score)
    && (forall j :: 0 <= j < hit.index && c[j].considered ==> c[j].score < hit.score)
  }

  /** No considered article among the first `k` reaches `minScore`. */
  predicate NoneReaches(c: seq<Scored>, minScore: real, k: nat)
    requires k <= |c|
  {
    forall j :: 0 <= j < k && c[j].considered ==> c[j].score < minScore
  }

  lemma {:induction false} ScanSpec(c: seq<Scored>, minScore: real, k: nat, best: Option<FoundTweet>)
    requires k <= |c|
    requires best.None? ==> NoneReaches(c, minScore, k)
    requires best.Some? ==> BestAmong(c, minScore, k, best.value)
    ensures var r := Scan(c, minScore, k, best);
      && (r.None? ==> NoneReaches(c, minScore, |c|))
      && (r.Some? ==> BestAmong(c, minScore, |c|, r.value))
    decreases |c| - k
  {
    if k < |c| {
      var best' := if c[k].considered && c[k].score >= minScore && (best.None? || c[k].score > best.value.score)
                   then Some(FoundTweet(k, c[k].score)) else best;
      ScanSpec(c, minScore, k + 1, best');
    }
  }

  /** `findTweetByText` returns the first best-scoring considered article
      that reaches `minScore`, and null exactly when the snippet has no
      tokens or no considered article reaches `minScore`. */
  lemma FindTweetByTextSpec(u: Unicode, snippet: string, opts: Options, page: Page, vp: Viewport)
    ensures var c := Candidates(Query(u, TokenSet(u, snippet), opts, vp), page);
      var r := FindTweetByText(u, snippet, opts, page, vp);
      && (r.None? <==> (TokenSet(u, snippet) == {} || NoneReaches(c, opts.minScore, |page|)))
      && (r.Some? ==> BestAmong(c, opts.minScore, |page|, r.value))
  {
    var needles := TokenSet(u, snippet);
    var c := Candidates(Query(u, needles, opts, vp), page);
    if needles != {} {
      ScanWhole(c, opts.minScore);
      ScansWhenTokens(u, snippet, opts, page, vp);
    }
  }

  /** The whole scan, started with no best: nothing exactly when no
      considered article reaches `minScore`, otherwise the best hit. */
  lemma ScanWhole(c: seq<Scored>, minScore: real)
    ensures var r := Scan(c, minScore, 0, None);
      && (r.None? <==> NoneReaches(c, minScore, |c|))
      && (r.Some? ==> r.value.index < |c| && BestAmong(c, minScore, |c|, r.value))
  {
    ScanSpec(c, minScore, 0, None);
  }

  lemma ScansWhenTokens(u: Unicode, snippet: string, opts: Options, page: Page, vp: Viewport)
    requires TokenSet(u, snippet) != {}
    ensures FindTweetByText(u, snippet, opts, page, vp)
         == Scan(Candidates(Query(u, TokenSet(u, snippet), opts, vp), page), opts.minScore, 0, None)
  {
    assert |TokenSet(u, snippet)| != 0;
  }

  /** With `onlyViewport`, an article outside the viewport is never returned. */
  lemma OnlyViewportHitIsVisible(u: Unicode, snippet: string, opts: Options, page: Page, vp: Viewport)
    requires opts.onlyViewport
    ensures var r := FindTweetByText(u, snippet, opts, page, vp);
      r.Some? ==> r.value.index < |page| && IsVisible(page[r.value.index].rect, vp)
  {
    FindTweetByTextSpec(u, snippet, opts, page, vp);
    var r := FindTweetByText(u, snippet, opts, page, vp);
    if r.Some? {
      var q := Query(u, TokenSet(u, snippet), opts, vp);
      assert Candidates(q, page)[r.value.index].considered;
    }
  }

  /** `commentText || ""` followed by `.trim()`: falsy values read as "",
      a truthy non-string makes `trim` throw (`None`). */
  function ReplyText(comment: Json): Option<string> {
    if !Truthy(comment) then Some("")
    else if comment.Str? then Some(comment.s)
    else None
  }

  const EditorTimeout: string := "waitFor timeout"
  const EmptyComment: string := "Empty commentText"
  const NotAString: string := "commentText.trim is not a function"

  /** `pasteAndSubmitReply`: the text typed into the editor, or the error it
      throws. A comment that is blank after trimming is refused. */
  function PasteAndSubmitReply(editorFound: bool, comment: Json): (r: Result<string, string>)
    ensures r.Success? <==> editorFound && ReplyText(comment).Some? && Ink(ReplyText(comment).value) != []
    ensures r.Success? ==> comment.Str? && r.value == Trim(comment.s) && r.value != ""
    ensures r == Failure(EmptyComment) <==>
      editorFound && ReplyText(comment).Some? && Ink(ReplyText(comment).value) == []
  {
    if !editorFound then Failure(EditorTimeout)
    else
      match ReplyText(comment)
      case None => Failure(NotAString)
      case Some(c) =>
        var t := Trim(c);
        TrimEmpty(c);
        if t == "" then Failure(EmptyComment) else Success(t)
  }

  /** The choice made in the approval overlay. */
  datatype Approval = Approve | Skip | Stop

  /** What the page and the user do while a reply is attempted: whether the
      reply dialog opens, the editor and submit button are found, what the
      user chooses in semi-auto mode, and whether the dialog closes in time. */
  datatype Interaction = Interaction(
    dialogOpens: bool,
    editorFound: bool,
    choice: Approval,
    submitFound: bool,
    dialogCloses: bool)

  /** The clicks an engagement makes and the `engageTweet` result. */
  datatype Engagement = Engagement(ok: bool, likeClicked: bool, replyClicked: bool, submitClicked: bool)

  /** The like button is clicked unless it is already an "unlike" button. */
  predicate ShouldLike(b: ActionButtons) {
    b.like.Some? && b.like.value.testId != "unlike"
  }

  /** `engageTweet`: like, open the reply dialog, paste and submit, wait
      for the dialog to close; any thrown error reads as `false`. */
  function EngageTweet(a: Article, comment: Json, ix: Interaction): (r: Engagement)
    ensures r.ok <==>
      && GetTweetActionButtons(a).reply.Some?
      && ix.dialogOpens
      && PasteAndSubmitReply(ix.editorFound, comment).Success?
      && ix.dialogCloses
    ensures r.ok ==> r.replyClicked && r.submitClicked == ix.submitFound
    ensures r.likeClicked <==> ShouldLike(GetTweetActionButtons(a))
    ensures r.submitClicked ==> PasteAndSubmitReply(ix.editorFound, comment).Success?
  {
    var b := GetTweetActionButtons(a);
    var liked := ShouldLike(b);
    if b.reply.None? then Engagement(false, liked, false, false)
    else if !ix.dialogOpens then Engagement(false, liked, true, false)
    else
      match PasteAndSubmitReply(ix.editorFound, comment)
      case Failure(_) => Engagement(false, liked, true, false)
      case Success(_) => Engagement(ix.dialogCloses, liked, true, ix.submitFound)
  }

  /** A blank or missing reply text never gets posted in full-auto mode. */
  lemma BlankCommentNeverPosts(a: Article, comment: Json, ix: Interaction)
    requires ReplyText(comment).Some? && Ink(ReplyText(comment).value) == []
    ensures !EngageTweet(a, comment, ix).ok
    ensures !EngageTweet(a, comment, ix).submitClicked
  {
  }
}
