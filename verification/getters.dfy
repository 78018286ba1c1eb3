/** getters.ts: finding a tweet's reply and like buttons. */
module Getters {
  import opened Wrappers
  import opened Dom
  import opened Seqs
  import opened Strings

  /** Start of the speech-bubble icon's path (`PATH.reply`). */
  const ReplyPathPrefix: string := "M1.751 10c0-4.42 3.584-8 8.005-8"
  /** Start of the heart icon's path (`PATH.like`). */
  const LikePathPrefix: string := "M16.697 5.5c-1.222-"

  /** An action bar: at least three buttons and an icon somewhere inside. */
  predicate IsActionGroup(g: Group) {
    |g.buttons| >= 3 && g.hasSvgPath
  }

  predicate HasIcon(b: Button) { b.hasSvgPath }
  predicate IsReplyTestId(b: Button) { b.testId == "reply" }
  predicate IsLikeTestId(b: Button) { b.testId == "like" || b.testId == "unlike" }
  predicate HasReplyPath(b: Button) { StartsWithIgnoringCase(b.pathD, ReplyPathPrefix) }
  predicate HasLikePath(b: Button) { StartsWithIgnoringCase(b.pathD, LikePathPrefix) }
  function Left(b: Button): real { b.left }

  /** The icon buttons of the article's first action bar, if it has one,
      in document order. */
  function IconButtons(a: Article): (r: Option<seq<Button>>)
    ensures r.None? <==> forall i :: 0 <= i < |a.groups| ==> !IsActionGroup(a.groups[i])
    ensures r.Some? ==> exists i ::
              && 0 <= i < |a.groups| && IsActionGroup(a.groups[i])
              && (forall j :: 0 <= j < i ==> !IsActionGroup(a.groups[j]))
              && r.value == Filter(a.groups[i].buttons, HasIcon)
    ensures r.Some? ==> forall i :: 0 <= i < |r.value| ==> r.value[i].hasSvgPath
  {
    match Find(a.groups, IsActionGroup)
    case None => None
    case Some(g) => Some(Filter(g.buttons, HasIcon))
  }

  /** `b` is the first element of `bs` satisfying `p`. */
  predicate FirstWith(bs: seq<Button>, b: Button, p: Button -> bool) {
    exists i :: 0 <= i < |bs| && bs[i] == b && p(b) && forall j :: 0 <= j < i ==> !p(bs[j])
  }

  predicate NoneWith(bs: seq<Button>, p: Button -> bool) {
    forall i :: 0 <= i < |bs| ==> !p(bs[i])
  }

  /** `x || y || z` over optional buttons. */
  function FirstPresent(x: Option<Button>, y: Option<Button>, z: Option<Button>): Option<Button> {
    if x.Some? then x else if y.Some? then y else z
  }

  /** `sorted[k] || null` */
  function At(s: seq<Button>, k: nat): Option<Button> {
    if k < |s| then Some(s[k]) else None
  }

  /** One button by the three-rule priority: `byTestId`, else `byPath`, else
      position `k` of the left-to-right order `sorted`. */
  function Choose(bs: seq<Button>, byTestId: Button -> bool, byPath: Button -> bool,
                  sorted: seq<Button>, k: nat): (r: Option<Button>)
    requires multiset(sorted) == multiset(bs)
    ensures r.Some? ==> r.value in bs
    ensures !NoneWith(bs, byTestId) ==> r.Some? && FirstWith(bs, r.value, byTestId)
    ensures NoneWith(bs, byTestId) && !NoneWith(bs, byPath) ==> r.Some? && FirstWith(bs, r.value, byPath)
    ensures NoneWith(bs, byTestId) && NoneWith(bs, byPath) ==> r == At(sorted, k)
  {
    assert k < |sorted| ==> sorted[k] in multiset(bs);
    FirstPresent(Find(bs, byTestId), Find(bs, byPath), At(sorted, k))
  }

  datatype ActionButtons = ActionButtons(reply: Option<Button>, like: Option<Button>)

  /** `getTweetActionButtons`: each button is taken from the test id first,
      then from the icon path, then from its place in left-to-right order
      (reply leftmost, like third). */
  function GetTweetActionButtons(a: Article): (r: ActionButtons)
    ensures IconButtons(a).None? ==> r.reply.None? && r.like.None?
    ensures IconButtons(a).Some? ==>
      var bs := IconButtons(a).value;
      && (r.reply.Some? ==> r.reply.value in bs)
      && (r.like.Some? ==> r.like.value in bs)
      && (!NoneWith(bs, IsReplyTestId) ==> r.reply.Some? && FirstWith(bs, r.reply.value, IsReplyTestId))
      && (NoneWith(bs, IsReplyTestId) && !NoneWith(bs, HasReplyPath) ==>
            r.reply.Some? && FirstWith(bs, r.reply.value, HasReplyPath))
      && (NoneWith(bs, IsReplyTestId) && NoneWith(bs, HasReplyPath) ==>
            r.reply == At(SortBy(bs, Left), 0))
      && (!NoneWith(bs, IsLikeTestId) ==> r.like.Some? && FirstWith(bs, r.like.value, IsLikeTestId))
      && (NoneWith(bs, IsLikeTestId) && !NoneWith(bs, HasLikePath) ==>
            r.like.Some? && FirstWith(bs, r.like.value, HasLikePath))
      && (NoneWith(bs, IsLikeTestId) && NoneWith(bs, HasLikePath) ==>
            r.like == At(SortBy(bs, Left), 2))
  {
    match IconButtons(a)
    case None => ActionButtons(None, None)
    case Some(bs) =>
      var sorted := SortBy(bs, Left);
      ActionButtons(Choose(bs, IsReplyTestId, HasReplyPath, sorted, 0),
                    Choose(bs, IsLikeTestId, HasLikePath, sorted, 2))
  }

  /** With no test id or icon path to go by, the reply button is a leftmost one. */
  lemma PositionalReplyIsLeftmost(a: Article)
    requires IconButtons(a).Some?
    requires NoneWith(IconButtons(a).value, IsReplyTestId) && NoneWith(IconButtons(a).value, HasReplyPath)
    ensures var bs := IconButtons(a).value; var r := GetTweetActionButtons(a);
      && (r.reply.None? <==> |bs| == 0)
      && (r.reply.Some? ==> forall i :: 0 <= i < |bs| ==> r.reply.value.left <= bs[i].left)
  {
    ReplyByPosition(a);
    Leftmost(IconButtons(a).value);
  }

  lemma ReplyByPosition(a: Article)
    requires IconButtons(a).Some?
    requires NoneWith(IconButtons(a).value, IsReplyTestId) && NoneWith(IconButtons(a).value, HasReplyPath)
    ensures GetTweetActionButtons(a).reply == At(SortBy(IconButtons(a).value, Left), 0)
  {
  }

  /** Position 0 of the left-to-right order is a leftmost button. */
  lemma Leftmost(bs: seq<Button>)
    ensures var first := At(SortBy(bs, Left), 0);
      && (first.None? <==> |bs| == 0)
      && (first.Some? ==> forall i :: 0 <= i < |bs| ==> first.value.left <= bs[i].left)
  {
    forall i | 0 <= i < |bs|
      ensures SortBy(bs, Left)[0].left <= bs[i].left
    {
      SortedHeadIsLeast(bs, Left, bs[i]);
    }
  }
}
