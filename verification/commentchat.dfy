/** components/CommentChat.tsx: turning the backend's analysis of the current
    post into the `AnalyzedPost` the panel shows, and the chat box's send step. */
module CommentChat {
  import opened Wrappers
  import opened Strings
  import opened Json
  import opened UiHelpers
  import opened Seqs

  /** The component's own `inferTruncated`: the same heuristic, looking for
      the real ellipsis `…` (U+2026). */
  function InferTruncated(t: string): (r: bool)
    ensures r ==> t != ""
    ensures EndsWith(t, "…") ==> r
    ensures |t| > TruncatedLength ==> r
    ensures ContainsIgnoringCase(t, ShowMore) ==> r
    ensures r ==> |t| > TruncatedLength || EndsWith(t, "…") || ContainsIgnoringCase(t, ShowMore)
  {
    TruncatedWith(t, "…")
  }

  const PostKinds: seq<string> := ["original", "reply", "retweet", "quote", "ad"]
  const Confidences: seq<string> := ["low", "medium", "high"]
  const TakeawayPrefix: string := "✅ In short"
  /** Longest suggested short reply kept. */
  const ShortReplyLength: nat := 120
  /** Most key ideas or conversation hooks kept. */
  const MaxListItems: nat := 3

  datatype SuggestedReply = SuggestedReply(short: string, question: string, valueAdd: string)

  /** `AnalyzedPost` (types.ts). */
  datatype AnalyzedPost = AnalyzedPost(
    postKind: string,
    isTruncated: bool,
    language: Option<string>,
    authorName: string,
    authorHandle: string,
    tweetText: string,
    mediaDescription: string,
    imageText: string,
    relationships: string,
    hiddenOrSubtext: string,
    authorIntent: string,
    authorTone: string,
    audience: string,
    contextOrBackground: string,
    whyNow: string,
    risksToAvoid: string,
    takeaway: string,
    keyIdeas: seq<string>,
    conversationHooks: seq<string>,
    suggestedReply: SuggestedReply,
    confidence: string)

  /** A non-empty field in normal form. */
  predicate Filled(s: string) {
    s != "" && Squashed(s)
  }

  predicate ListOk(xs: seq<string>) {
    |xs| <= MaxListItems && forall k :: 0 <= k < |xs| ==> Filled(xs[k])
  }

  /** The two enumerated fields hold one of their allowed values. */
  predicate EnumsOk(p: AnalyzedPost) {
    p.postKind in PostKinds && p.confidence in Confidences
  }

  /** The author and post fields are in normal form, and the handle carries
      its `@` whenever the author's name is known. */
  predicate PostTextOk(p: AnalyzedPost) {
    && p.isTruncated == InferTruncated(p.tweetText)
    && (p.language.Some? ==> Filled(p.language.value))
    && Squashed(p.authorName) && Squashed(p.authorHandle)
    && (p.authorName != "" ==> StartsWith(p.authorHandle, "@"))
    && Squashed(p.tweetText) && Squashed(p.mediaDescription)
  }

  /** The reading of the post: the fields with a placeholder are never empty. */
  predicate ReadingOk(p: AnalyzedPost) {
    && Filled(p.imageText) && Filled(p.relationships) && Filled(p.hiddenOrSubtext)
    && Squashed(p.authorIntent) && Squashed(p.authorTone)
    && Filled(p.audience) && Filled(p.contextOrBackground)
    && Filled(p.whyNow) && Filled(p.risksToAvoid)
    && Squashed(p.takeaway) && StartsWith(p.takeaway, TakeawayPrefix)
    && ListOk(p.keyIdeas) && ListOk(p.conversationHooks)
  }

  /** The suggested reply: a short line of at most 120 characters. */
  predicate ReplyOk(r: SuggestedReply) {
    && |r.short| <= ShortReplyLength
    && OnlyPlainSpaces(r.short) && NoDoubleSpace(r.short)
    && Squashed(r.question) && Squashed(r.valueAdd)
  }

  /** What every analysis the panel shows satisfies, whatever the backend sent. */
  predicate WellFormed(p: AnalyzedPost) {
    EnumsOk(p) && PostTextOk(p) && ReadingOk(p) && ReplyOk(p.suggestedReply)
  }

  /** The handle: kept when it already starts with `@`, otherwise prefixed
      with `@` when the author's name is known. */
  function AuthorHandle(name: string, handle: string): (r: string)
    ensures StartsWith(handle, "@") ==> r == handle
    ensures name == "" ==> r == handle
    ensures !StartsWith(handle, "@") && name != "" ==> r == "@" + handle
    ensures StartsWith(r, "@") <==> StartsWith(handle, "@") || name != ""
    ensures Squashed(handle) ==> Squashed(r)
  {
    if StartsWith(handle, "@") then handle
    else if name != "" then
      assert StartsWith("@" + handle, "@");
      PrependKeepsSquashed('@', handle);
      "@" + handle
    else handle
  }

  /** Prefixing the handle a second time changes nothing. */
  lemma AuthorHandleIdempotent(name: string, handle: string)
    ensures AuthorHandle(name, AuthorHandle(name, handle)) == AuthorHandle(name, handle)
  {
  }

  /** `text(a) || text(b) || ""`: the first of two fields that has content. */
  function FirstText(a: Json, b: Json): (r: string)
    ensures Squashed(r)
    ensures Text(a) != "" ==> r == Text(a)
    ensures Text(a) == "" ==> r == Text(b)
  {
    var t := Text(a);
    if t != "" then t else Text(b)
  }

  lemma PlaceholdersFilled()
    ensures Filled("none") && Filled("unclear")
  {
  }

  /** `text(v) || fallback` */
  function TextOr(v: Json, fallback: string): (r: string)
    ensures Filled(fallback) ==> Filled(r)
    ensures Text(v) != "" ==> r == Text(v)
    ensures Text(v) == "" ==> r == fallback
  {
    var t := Text(v);
    if t != "" then t else fallback
  }

  lemma TakeawayPrefixSquashed()
    ensures TakeawayPrefix != [] && Squashed(TakeawayPrefix)
  {
  }

  /** The takeaway always opens with `✅ In short`, added in front (with one
      space) when the backend left it out. */
  function Takeaway(v: Json): (r: string)
    ensures Squashed(r) && StartsWith(r, TakeawayPrefix)
    ensures StartsWith(Text(v), TakeawayPrefix) ==> r == Text(v)
    ensures !StartsWith(Text(v), TakeawayPrefix) && Text(v) != "" ==> r == TakeawayPrefix + " " + Text(v)
    ensures Text(v) == "" ==> r == TakeawayPrefix
  {
    var t := Text(v);
    if StartsWith(t, TakeawayPrefix) then t
    else
      PrefixedTakeaway(t);
      Squash(TakeawayPrefix + " " + t)
  }

  /** Putting the prefix in front of a text in normal form. */
  lemma PrefixedTakeaway(t: string)
    requires Squashed(t)
    ensures var r := Squash(TakeawayPrefix + " " + t);
      && Squashed(r) && StartsWith(r, TakeawayPrefix)
      && (t != "" ==> r == TakeawayPrefix + " " + t)
      && (t == "" ==> r == TakeawayPrefix)
  {
    TakeawayPrefixSquashed();
    SquashJoin(TakeawayPrefix, t);
    StartsWithAppend(TakeawayPrefix, " " + t);
  }

  /** `items.map(text)` */
  function TextsOf(items: seq<Json>): (r: seq<string>)
    ensures |r| == |items| && forall i :: 0 <= i < |items| ==> r[i] == Text(items[i])
  {
    seq(|items|, i requires 0 <= i < |items| => Text(items[i]))
  }

  predicate NonEmpty(s: string) { s != "" }

  /** `items.map(text).filter(Boolean)` */
  function Texts(items: seq<Json>): (r: seq<string>)
    ensures forall k :: 0 <= k < |r| ==> Filled(r[k])
    ensures forall i :: 0 <= i < |items| && Text(items[i]) != "" ==> Text(items[i]) in r
    ensures forall k :: 0 <= k < |r| ==> r[k] in TextsOf(items)
  {
    var m := TextsOf(items);
    var r := Filter(m, NonEmpty);
    forall k | 0 <= k < |r|
      ensures Filled(r[k])
    {
      assert r[k] in m && NonEmpty(r[k]);
      var i :| 0 <= i < |m| && m[i] == r[k];
      assert Squashed(Text(items[i]));
    }
    r
  }

  /** The texts of a list are those of its parts, in order ... */
  lemma TextsAppend(a: seq<Json>, b: seq<Json>)
    ensures Texts(a + b) == Texts(a) + Texts(b)
  {
    var m := TextsOf(a + b);
    assert m == TextsOf(a) + TextsOf(b) by {
      forall i | 0 <= i < |m|
        ensures m[i] == (TextsOf(a) + TextsOf(b))[i]
      {
        if i < |a| {
          assert (a + b)[i] == a[i];
        } else {
          assert (a + b)[i] == b[i - |a|];
        }
      }
    }
    FilterAppend(TextsOf(a), TextsOf(b), NonEmpty);
  }

  /** ... and an item contributes its text exactly when that text is not blank. */
  lemma TextsOne(x: Json)
    ensures Texts([x]) == if Text(x) == "" then [] else [Text(x)]
  {
    assert TextsOf([x]) == [Text(x)] + [];
    FilterCons(Text(x), [], NonEmpty);
  }

  function StrItems(xs: seq<string>): (r: seq<Json>)
    ensures |r| == |xs| && forall k :: 0 <= k < |xs| ==> r[k] == Str(xs[k])
  {
    seq(|xs|, k requires 0 <= k < |xs| => Str(xs[k]))
  }

  /** A list of strings already in normal form passes through unchanged. */
  lemma TextsOfFilled(xs: seq<string>)
    requires forall k :: 0 <= k < |xs| ==> Filled(xs[k])
    ensures Texts(StrItems(xs)) == xs
  {
    var m := TextsOf(StrItems(xs));
    forall k | 0 <= k < |xs|
      ensures m[k] == xs[k]
    {
      TextOfSquashed(xs[k]);
    }
    assert m == xs;
    FilterKeepsAll(xs, NonEmpty);
  }

  /** `Array.isArray(v) ? v.map(text).filter(Boolean).slice(0, 3) : []` */
  function TextList(v: Json): (r: seq<string>)
    ensures ListOk(r)
    ensures !v.Arr? ==> r == []
    ensures v.Arr? ==> |r| <= |Texts(v.items)| && r == Texts(v.items)[..|r|]
    ensures v.Arr? ==> |r| == if |Texts(v.items)| < MaxListItems then |Texts(v.items)| else MaxListItems
  {
    if v.Arr? then
      var t := Texts(v.items);
      FirstFew(t);
      if |t| <= MaxListItems then t else t[..MaxListItems]
    else []
  }

  /** Keeping the first `MaxListItems` of a list of filled strings. */
  lemma FirstFew(t: seq<string>)
    requires forall k :: 0 <= k < |t| ==> Filled(t[k])
    ensures var r := if |t| <= MaxListItems then t else t[..MaxListItems];
      && ListOk(r) && |r| <= |t| && r == t[..|r|]
      && |r| == if |t| < MaxListItems then |t| else MaxListItems
  {
    if |t| <= MaxListItems {
      assert t[..|t|] == t;
    } else {
      var r := t[..MaxListItems];
      forall k | 0 <= k < |r|
        ensures Filled(r[k])
      {
        assert r[k] == t[k];
      }
    }
  }

  /** `text(v).slice(0, 120)` */
  function Short(v: Json): (r: string)
    ensures |r| == if |Text(v)| <= ShortReplyLength then |Text(v)| else ShortReplyLength
    ensures StartsWith(Text(v), r)
    ensures OnlyPlainSpaces(r) && NoDoubleSpace(r)
    ensures |Text(v)| <= ShortReplyLength ==> r == Text(v)
  {
    var t := Text(v);
    SubstringKeepsSpacing(t, 0, if |t| <= ShortReplyLength then |t| else ShortReplyLength);
    assert t[..|t|] == t;
    Take(t, ShortReplyLength)
  }

  /** The object `analyzeCurrentPost` stores, built from the backend's `result`. */
  function Structured(result: Json): AnalyzedPost {
    var name := Text(Get(result, "author_name"));
    var tweet := FirstText(Get(result, "tweet_text"), Get(result, "content"));
    var reply := Get(result, "suggested_reply");
    var p := AnalyzedPost(
      EnumOr(Get(result, "post_kind"), PostKinds, "original"),
      InferTruncated(tweet),
      OrNull(Get(result, "language")),
      name,
      AuthorHandle(name, Text(Get(result, "author_handle"))),
      tweet,
      FirstText(Get(result, "media_description"), Get(result, "media_summary")),
      TextOr(Get(result, "image_text"), "none"),
      OrNone(Get(result, "relationships")),
      OrNone(Get(result, "hidden_or_subtext")),
      Text(Get(result, "author_intent")),
      Text(Get(result, "author_tone")),
      OrNone(Get(result, "audience")),
      OrNone(Get(result, "context_or_background")),
      TextOr(Get(result, "why_now"), "unclear"),
      OrNone(Get(result, "risks_to_avoid")),
      Takeaway(Get(result, "takeaway")),
      TextList(Get(result, "key_ideas")),
      TextList(Get(result, "conversation_hooks")),
      SuggestedReply(Short(Get(reply, "short")), Text(Get(reply, "question")), Text(Get(reply, "value_add"))),
      EnumOr(Get(result, "confidence"), Confidences, "medium"));
    p
  }

  /** Whatever the backend sends, the stored analysis is well formed. */
  lemma StructuredWellFormed(result: Json)
    ensures WellFormed(Structured(result))
  {
    var p := Structured(result);
    assert EnumsOk(p) by {
      assert "original" in PostKinds;
      assert "medium" in Confidences;
    }
    assert PostTextOk(p);
    assert ReadingOk(p) by {
      PlaceholdersFilled();
    }
    assert ReplyOk(p.suggestedReply);
  }

  /** The analysis of a response without a usable `result` object. */
  const Blank: AnalyzedPost := AnalyzedPost(
    "original", false, None, "", "", "", "", "none", "none", "none", "", "",
    "none", "none", "unclear", "none", TakeawayPrefix, [], [], SuggestedReply("", "", ""), "medium")

  /** Every field falls back to its placeholder when the backend sends no object. */
  lemma StructuredOfNothing(result: Json)
    requires !result.Obj?
    ensures Structured(result) == Blank
  {
    assert Text(Undefined) == "";
  }

  /** The stored object as JSON, with the backend's field names. */
  function ToJson(p: AnalyzedPost): (j: Json)
    ensures j.Obj?
  {
    Obj(map[
      "post_kind" := Str(p.postKind),
      "is_truncated" := Bool(p.isTruncated),
      "language" := (match p.language case Some(l) => Str(l) case None => Null),
      "author_name" := Str(p.authorName),
      "author_handle" := Str(p.authorHandle),
      "tweet_text" := Str(p.tweetText),
      "media_description" := Str(p.mediaDescription),
      "image_text" := Str(p.imageText),
      "relationships" := Str(p.relationships),
      "hidden_or_subtext" := Str(p.hiddenOrSubtext),
      "author_intent" := Str(p.authorIntent),
      "author_tone" := Str(p.authorTone),
      "audience" := Str(p.audience),
      "context_or_background" := Str(p.contextOrBackground),
      "why_now" := Str(p.whyNow),
      "risks_to_avoid" := Str(p.risksToAvoid),
      "takeaway" := Str(p.takeaway),
      "key_ideas" := Arr(StrItems(p.keyIdeas)),
      "conversation_hooks" := Arr(StrItems(p.conversationHooks)),
      "suggested_reply" := Obj(map[
        "short" := Str(p.suggestedReply.short),
        "question" := Str(p.suggestedReply.question),
        "value_add" := Str(p.suggestedReply.valueAdd)]),
      "confidence" := Str(p.confidence)])
  }

  /** A well-formed analysis whose short reply has no trailing space. */
  predicate Canonical(p: AnalyzedPost) {
    WellFormed(p) && Squashed(p.suggestedReply.short)
  }

  /** The enumerated fields read back unchanged. */
  lemma ReadsBackEnums(p: AnalyzedPost)
    requires EnumsOk(p)
    ensures EnumOr(Get(ToJson(p), "post_kind"), PostKinds, "original") == p.postKind
    ensures EnumOr(Get(ToJson(p), "confidence"), Confidences, "medium") == p.confidence
  {
    assert Get(ToJson(p), "post_kind") == Str(p.postKind);
    assert Get(ToJson(p), "confidence") == Str(p.confidence);
  }

  lemma ReadsBackLanguage(p: AnalyzedPost)
    requires p.language.Some? ==> Filled(p.language.value)
    ensures OrNull(Get(ToJson(p), "language")) == p.language
  {
    assert Get(ToJson(p), "language") == match p.language case Some(l) => Str(l) case None => Null;
    if p.language.Some? {
      TextOfSquashed(p.language.value);
    }
  }

  lemma ReadsBackAuthor(p: AnalyzedPost)
    requires Squashed(p.authorName) && Squashed(p.authorHandle) && (p.authorName != "" ==> StartsWith(p.authorHandle, "@"))
    ensures Text(Get(ToJson(p), "author_name")) == p.authorName
    ensures AuthorHandle(p.authorName, Text(Get(ToJson(p), "author_handle"))) == p.authorHandle
  {
    assert Get(ToJson(p), "author_name") == Str(p.authorName);
    assert Get(ToJson(p), "author_handle") == Str(p.authorHandle);
    TextOfSquashed(p.authorName);
    HandleReadsBack(p.authorName, p.authorHandle);
  }

  /** A stored handle that already carries its `@` is read back as is. */
  lemma HandleReadsBack(name: string, handle: string)
    requires Squashed(handle) && (name != "" ==> StartsWith(handle, "@"))
    ensures AuthorHandle(name, Text(Str(handle))) == handle
  {
    TextOfSquashed(handle);
  }

  lemma ReadsBackTweet(p: AnalyzedPost)
    requires Squashed(p.tweetText)
    ensures FirstText(Get(ToJson(p), "tweet_text"), Get(ToJson(p), "content")) == p.tweetText
  {
    assert Get(ToJson(p), "tweet_text") == Str(p.tweetText) && Get(ToJson(p), "content") == Undefined;
    TextOfSquashed(p.tweetText);
  }

  lemma ReadsBackMedia(p: AnalyzedPost)
    requires Squashed(p.mediaDescription)
    ensures FirstText(Get(ToJson(p), "media_description"), Get(ToJson(p), "media_summary")) == p.mediaDescription
  {
    assert Get(ToJson(p), "media_description") == Str(p.mediaDescription);
    assert Get(ToJson(p), "media_summary") == Undefined;
    TextOfSquashed(p.mediaDescription);
  }

  /** Where `ToJson` puts the fields that have a placeholder. */
  lemma PlaceholderFieldsInJson(p: AnalyzedPost)
    ensures var j := ToJson(p);
      && Get(j, "image_text") == Str(p.imageText)
      && Get(j, "relationships") == Str(p.relationships)
      && Get(j, "hidden_or_subtext") == Str(p.hiddenOrSubtext)
      && Get(j, "audience") == Str(p.audience)
      && Get(j, "context_or_background") == Str(p.contextOrBackground)
      && Get(j, "why_now") == Str(p.whyNow)
      && Get(j, "risks_to_avoid") == Str(p.risksToAvoid)
  {
  }

  /** The fields with a placeholder read back unchanged. */
  lemma ReadsBackPlaceholders(p: AnalyzedPost)
    requires Filled(p.imageText) && Filled(p.relationships) && Filled(p.hiddenOrSubtext)
    requires Filled(p.audience) && Filled(p.contextOrBackground) && Filled(p.whyNow)
    requires Filled(p.risksToAvoid)
    ensures var j := ToJson(p);
      && TextOr(Get(j, "image_text"), "none") == p.imageText
      && OrNone(Get(j, "relationships")) == p.relationships
      && OrNone(Get(j, "hidden_or_subtext")) == p.hiddenOrSubtext
      && OrNone(Get(j, "audience")) == p.audience
      && OrNone(Get(j, "context_or_background")) == p.contextOrBackground
      && TextOr(Get(j, "why_now"), "unclear") == p.whyNow
      && OrNone(Get(j, "risks_to_avoid")) == p.risksToAvoid
  {
    PlaceholderFieldsInJson(p);
    TextOfSquashed(p.imageText);
    TextOfSquashed(p.relationships);
    TextOfSquashed(p.hiddenOrSubtext);
    TextOfSquashed(p.audience);
    TextOfSquashed(p.contextOrBackground);
    TextOfSquashed(p.whyNow);
    TextOfSquashed(p.risksToAvoid);
  }

  /** The free-text fields and the takeaway read back unchanged. */
  lemma ReadsBackIntent(p: AnalyzedPost)
    requires Squashed(p.authorIntent) && Squashed(p.authorTone) && Squashed(p.takeaway) && StartsWith(p.takeaway, TakeawayPrefix)
    ensures var j := ToJson(p);
      && Text(Get(j, "author_intent")) == p.authorIntent
      && Text(Get(j, "author_tone")) == p.authorTone
      && Takeaway(Get(j, "takeaway")) == p.takeaway
  {
    var j := ToJson(p);
    assert Get(j, "author_intent") == Str(p.authorIntent) && Get(j, "author_tone") == Str(p.authorTone);
    assert Get(j, "takeaway") == Str(p.takeaway);
    TextOfSquashed(p.authorIntent);
    TextOfSquashed(p.authorTone);
    TextOfSquashed(p.takeaway);
  }

  /** A short list of normal-form strings reads back unchanged. */
  lemma TextListOfFilled(xs: seq<string>)
    requires ListOk(xs)
    ensures TextList(Arr(StrItems(xs))) == xs
  {
    TextsOfFilled(xs);
    var r := TextList(Arr(StrItems(xs)));
    assert |r| == |xs|;
    assert r == xs[..|r|];
    assert xs[..|xs|] == xs;
  }

  /** The lists and the suggested reply read back unchanged. */
  lemma ReadsBackLists(p: AnalyzedPost)
    requires ListOk(p.keyIdeas) && ListOk(p.conversationHooks) && ReplyOk(p.suggestedReply) && Squashed(p.suggestedReply.short)
    ensures var j := ToJson(p); var reply := Get(j, "suggested_reply");
      && TextList(Get(j, "key_ideas")) == p.keyIdeas
      && TextList(Get(j, "conversation_hooks")) == p.conversationHooks
      && Short(Get(reply, "short")) == p.suggestedReply.short
      && Text(Get(reply, "question")) == p.suggestedReply.question
      && Text(Get(reply, "value_add")) == p.suggestedReply.valueAdd
  {
    var j := ToJson(p);
    var r := p.suggestedReply;
    assert Get(j, "key_ideas") == Arr(StrItems(p.keyIdeas));
    assert Get(j, "conversation_hooks") == Arr(StrItems(p.conversationHooks));
    var reply := Get(j, "suggested_reply");
    assert Get(reply, "short") == Str(r.short) && Get(reply, "question") == Str(r.question);
    assert Get(reply, "value_add") == Str(r.valueAdd);
    TextListOfFilled(p.keyIdeas);
    TextListOfFilled(p.conversationHooks);
    TextOfSquashed(r.short);
    TextOfSquashed(r.question);
    TextOfSquashed(r.valueAdd);
  }

  /** Normalising a canonical analysis again gives it back unchanged. */
  lemma StructuredOfJson(p: AnalyzedPost)
    requires Canonical(p)
    ensures Structured(ToJson(p)) == p
  {
    ReadsBackEnums(p);
    ReadsBackLanguage(p);
    ReadsBackAuthor(p);
    ReadsBackTweet(p);
    ReadsBackMedia(p);
    ReadsBackPlaceholders(p);
    ReadsBackIntent(p);
    ReadsBackLists(p);
    assert InferTruncated(p.tweetText) == p.isTruncated;
  }

  /** Who wrote a chat message. */
  datatype Role = User | Assistant

  datatype Message = Message(role: Role, content: string)

  /** The chat box: the input field, the in-flight flag, the transcript. */
  datatype Chat = Chat(input: string, loading: bool, messages: seq<Message>)

  /** The synchronous part of `sendMessage(text)`: blank input, or a send
      while a reply is pending, is ignored; otherwise the trimmed text joins
      the transcript as the user's message, the input clears and the chat
      waits for the reply. */
  function SendMessage(chat: Chat, text: string): (r: Chat)
    ensures r.messages == chat.messages <==> Ink(text) == "" || chat.loading
    ensures r.messages != chat.messages ==>
      && r.messages == chat.messages + [Message(User, Trim(text))]
      && Trim(text) != "" && r.input == "" && r.loading
    ensures r.messages == chat.messages ==> r == chat
  {
    var trimmed := Trim(text);
    TrimEmpty(text);
    if trimmed == "" || chat.loading then chat
    else
      assert |chat.messages + [Message(User, trimmed)]| == |chat.messages| + 1;
      Chat("", true, chat.messages + [Message(User, trimmed)])
  }

  /** A second send before the reply arrives changes nothing. */
  lemma SendWhileLoadingIgnored(chat: Chat, first: string, second: string)
    requires Ink(first) != "" && !chat.loading
    ensures SendMessage(SendMessage(chat, first), second) == SendMessage(chat, first)
  {
  }
}
