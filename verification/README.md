# Twitter AI agent content script, modelled in Dafny

The content script of the twitter-ai-agent-v2 browser extension walks down an
X/Twitter timeline. For each visible tweet it asks a backend for an analysis and a
suggested reply. It finds the analysed tweet on the page again by token overlap,
then replies to it: automatically, or after the user approves in an overlay
("semi-auto" mode). It remembers which tweets it has replied to, skipped or given
up on. A manual navigator steps through the tweets and aligns the current one
below the page header. A chat panel normalises the backend's analysis of the
current post for display.

This project models that core as pure functions over immutable snapshots of the
page, and proves properties of them:

- `Strings`: the JavaScript string primitives the agent uses. These are the
  `\s` class, `replace(/\s+/g, " ").trim()` (here `Squash`), `trim`, `split`/`join`,
  `slice` and case-insensitive matching.
- `Seqs`: `find`, `findIndex`, `filter` and the stable `sort`.
- `Json`: the untrusted backend response, with `?.` property access and truthiness.
- `Dom`: the page as records of articles, bounding boxes, action bars and the viewport.
- `Utils`: `norm`, `toTokenSet`, `overlapScore` and `isVisible`.
- `Getters`: the priority chain that picks the reply and like buttons.
- `Actions`: `findTweetByText`, the blank-comment guard of `pasteAndSubmitReply`,
  and the full-auto `engageTweet`.
- `App`: `getTweetId`, `bumpAttempt`, `nextCandidateBelowViewport`,
  `engageTweetSemiAuto`, the outcome dispatch and the `run` loop.
- `Navigation`: `scrollToAlignTop`, the `waitUntilAligned` test, `candidatesSorted`,
  `setCurrentArticle`, `currentIndex` and `gotoNext`.
- `UiHelpers`: `text`, `orNone`, `orNull`, `enumOr` and `inferTruncated`.
- `CommentChat`: the `structured` normaliser of `analyzeCurrentPost`, and the
  synchronous part of `sendMessage`.

The world outside the script is passed in as parameters:

- the page the script sees at each moment;
- the backend's JSON;
- the user's choice in the approval overlay;
- whether the dialog opens and closes;
- the `CONFIG` values (`maxAttemptsPerTweet`, `minMatchScore`).

Scores and pixels are exact rationals (`real`). Strings are sequences of code points.

The panel's own copies of `text`, `orNone`, `orNull` and `enumOr`
(components/CommentChat.tsx:210-219) are identical to the ones in
helpers/uiHelpers.ts. The model defines each once, in `UiHelpers`.

A normalised analysis is a fixed point of the normaliser: `StructuredOfJson`
proves that running it again on its own output changes nothing. The exception is
a suggested short reply that the 120-character cut leaves ending in a space.
`Structured` keeps that space (`WellFormed` only asks for single plain spaces there).
A second pass would trim it, so the round trip is stated for `Canonical` posts.

## Model

| member | source | states |
|---|---|---|
| Strings.Collapse | content-script/src/utils.ts:65 | only plain single spaces remain; the result is empty only for "" and starts with a space exactly when the input starts with whitespace |
| Strings.CollapseLast | content-script/src/utils.ts:65 | the result ends with a space exactly when the input ends with whitespace |
| Strings.CollapseKeepsWords | content-script/src/utils.ts:65 | the collapsed string has exactly the words of the input, so each whitespace run turns into a separator and none is dropped |
| Strings.Trim | content-script/src/actions.ts:109 | the result is the slice of the input left after removing the whitespace at both ends: everything outside the slice is whitespace and the slice neither starts nor ends with it |
| Strings.TrimEmpty | content-script/src/actions.ts:109-110 | `trim()` gives the empty string exactly when the input is blank |
| Strings.Squash | content-script/src/helpers/uiHelpers.ts:17 | the result has only single plain spaces and none at either end, and the same non-space characters in order |
| Strings.WordsTrim | content-script/src/actions.ts:109 | trimming keeps every word |
| Strings.SquashedIsJoinedWords | content-script/src/helpers/uiHelpers.ts:17 | a string in normal form is its words joined by single spaces |
| Strings.SquashIsJoinedWords | content-script/src/helpers/uiHelpers.ts:17 | `replace(/\s+/g, " ").trim()` is exactly the input's words (maximal runs of non-whitespace) joined by single spaces |
| Strings.SplitSquash | content-script/src/utils.ts:80 | splitting a squashed non-blank string at the spaces gives the input's words |
| Strings.SquashFixpoint | content-script/src/helpers/uiHelpers.ts:17 | squashing leaves a string unchanged exactly when it is already in that normal form |
| Strings.SquashIdempotent | content-script/src/helpers/uiHelpers.ts:17 | squashing twice equals squashing once |
| Strings.SquashMembers | content-script/src/utils.ts:65-68 | a non-space character occurs in the squashed string exactly when it occurs in the input |
| Strings.SquashEmpty | content-script/src/utils.ts:65-68 | squashing yields "" exactly for blank input |
| Strings.SquashJoin | content-script/src/components/CommentChat.tsx:319 | squashing `prefix + " " + text` (both already normal) gives back `prefix + " " + text`, or just `prefix` when the text is empty |
| Strings.Take | content-script/src/App.tsx:265 | `slice(0, n)` is the prefix of exactly min(n, length) characters |
| Strings.Split | content-script/src/utils.ts:80 | `split` returns at least one piece; no piece contains the separator; every piece's characters come from the input |
| Strings.JoinSplit | content-script/src/utils.ts:80 | joining the pieces of a split with the separator rebuilds the input |
| Strings.SplitJoin | content-script/src/App.tsx:265 | splitting a join of separator-free pieces gives the pieces back |
| Seqs.FindFirst | content-script/src/App.tsx:270-279 | returns the first index satisfying the predicate; returns none exactly when no element does |
| Seqs.Find | content-script/src/getters.ts:9-11 | returns the first element satisfying the predicate; returns none exactly when no element does |
| Seqs.Filter | content-script/src/helpers/manualNavigationHelpers.ts:44 | every kept element satisfies the predicate, every satisfying element is kept, and nothing is added |
| Seqs.FilterCons | content-script/src/helpers/manualNavigationHelpers.ts:44 | the first element is kept in front exactly when it satisfies the predicate |
| Seqs.FilterAppend | content-script/src/helpers/manualNavigationHelpers.ts:44 | filtering a concatenation is the concatenation of the filtered parts, so order and multiplicity are kept |
| Seqs.SortBy | content-script/src/helpers/manualNavigationHelpers.ts:45 | the result is ascending by the key and is a permutation of the input |
| Seqs.SortByStable | content-script/src/helpers/manualNavigationHelpers.ts:45 | the sort is stable: the elements of any one key come out in their input order |
| Seqs.SortedHeadIsLeast | content-script/src/getters.ts:36-43 | the first element after sorting has the least key of the input |
| Utils.DropMarks | content-script/src/utils.ts:57 | no combining diacritical mark (U+0300 to U+036F) is left |
| Utils.DropMarksAppend | content-script/src/utils.ts:57 | marks are dropped character by character: the result for a concatenation is the concatenation of the results |
| Utils.DropMarksOne | content-script/src/utils.ts:57 | a combining mark is removed and any other character is kept |
| Utils.Norm | content-script/src/utils.ts:45-70 | `norm` gives words separated by single spaces, with no space at either end; every other character is a letter or number and not a combining mark |
| Utils.TokenSet | content-script/src/utils.ts:77-83 | the tokens are exactly the pieces of `norm(s).split(" ")` of three or more characters, and hold no whitespace |
| Utils.TokenSetIsLongWords | content-script/src/utils.ts:77-83 | the tokens are exactly the words of `norm(s)` of three or more characters |
| Utils.Overlap | content-script/src/utils.ts:111-123 | the score lies in [0, 1] and is 0 for an empty needle set |
| Utils.OverlapScore | content-script/src/utils.ts:111-123 | the counting loop computes exactly `|needles ∩ haystack| / max(1, |needles|)` |
| Utils.OverlapIsOneIff | content-script/src/utils.ts:111-123 | the score is 1 exactly when the needle set is non-empty and wholly contained in the haystack |
| Utils.OverlapMonotone | content-script/src/utils.ts:111-123 | a larger haystack never lowers the score |
| Utils.IsVisibleIff | content-script/src/utils.ts:90-100 | for a non-empty viewport, `isVisible` holds exactly when the box has an area and overlaps the viewport |
| Getters.IconButtons | content-script/src/getters.ts:9-22 | null exactly when no group has three buttons and an icon; otherwise the icon-carrying buttons, in document order, of the first group that does |
| Getters.Choose | content-script/src/getters.ts:25-45 | the first test-id match wins; else the first icon-path match; else the k-th button from the left |
| Getters.GetTweetActionButtons | content-script/src/getters.ts:3-51 | with no action bar both buttons are null; otherwise reply and like each follow the test id, icon path, position priority (positions 0 and 2 from the left) |
| Getters.PositionalReplyIsLeftmost | content-script/src/getters.ts:35-43 | without a test id or icon to go by, the reply button chosen is a leftmost icon button |
| Actions.Scan | content-script/src/actions.ts:157-171 | the loop only ever reports a position on the page |
| Actions.Candidates | content-script/src/actions.ts:157-169 | an article is considered exactly when the viewport filter is off or it is visible, and scores the share of the snippet's tokens found in its text |
| Actions.FindTweetByText | content-script/src/actions.ts:147-173 | an empty token set gives null; a hit is a position on the page |
| Actions.ScanSpec | content-script/src/actions.ts:157-171 | the loop ends with the first considered article of highest score reaching `minScore`, or null when none reaches it |
| Actions.ScanWhole | content-script/src/actions.ts:157-171 | the loop started with no best ends with null exactly when no considered article reaches `minScore`, and otherwise with the first best-scoring one, a position on the page |
| Actions.FindTweetByTextSpec | content-script/src/actions.ts:147-173 | null exactly when the snippet has no tokens or no considered article reaches `minScore`; a hit is the first best-scoring one |
| Actions.OnlyViewportHitIsVisible | content-script/src/actions.ts:158 | with `onlyViewport`, a hit is always visible in the viewport |
| Actions.PasteAndSubmitReply | content-script/src/actions.ts:92-112 | text is typed exactly when the editor appears and the trimmed comment is non-blank; the typed text is `trim()` of the comment string; a blank comment fails with "Empty commentText" |
| Actions.EngageTweet | content-script/src/actions.ts:175-203 | succeeds exactly when a reply button exists, the dialog opens, the paste succeeds and the dialog closes; the like button is clicked unless it already reads "unlike" |
| Actions.BlankCommentNeverPosts | content-script/src/actions.ts:109-112 | in full-auto mode (`engageTweet`), a blank or missing comment is never submitted and never reported as posted |
| App.DigitRun | content-script/src/App.tsx:257 | the greedy `\d+`: the longest all-digit prefix |
| App.StatusIdFrom | content-script/src/App.tsx:257 | no match exactly when no "/status/" followed by a digit occurs; otherwise the digits after the first such occurrence |
| App.StatusId | content-script/src/App.tsx:257-258 | no match exactly when no "/status/" followed by a digit occurs; a match is a non-empty run of digits |
| App.TweetId | content-script/src/App.tsx:255-266 | the permalink's status id when there is one, otherwise `user|time|first 30 characters of the text` |
| App.FirstMatchFound | content-script/src/App.tsx:257 | when the first match at or after position k is at m, the search from k yields the digits after m |
| App.StatusIdOfPermalink | content-script/src/App.tsx:257-258 | the href `/<user>/status/<digits>…` yields exactly `<digits>` |
| App.CompositeKeyFields | content-script/src/App.tsx:259-265 | the author and the timestamp can be read back from a composite key |
| App.StatusIdIsNotCompositeKey | content-script/src/App.tsx:255-266 | an id contains no "|" exactly when it came from a permalink, so the two kinds never collide |
| App.BumpAttempt | content-script/src/App.tsx:345-353 | adds exactly one attempt for this id and no other; skips the id once the count reaches the maximum, and marks the article skipped then and only then; the observer and the other marks are unchanged; preserves "every maxed-out id is skipped" |
| App.BumpTimesSpec | content-script/src/App.tsx:345-353 | after n failures the count has grown by n, and the id is skipped exactly when the count reached the maximum |
| App.NextCandidateBelowViewport | content-script/src/App.tsx:268-280 | the first visible tweet below the viewport top that is neither replied, skipped nor marked; null exactly when there is none |
| App.EngageTweetSemiAuto | content-script/src/App.tsx:156-207 | "stopped" (and the stop flag) exactly on Stop; "skipped" exactly on Skip; "posted" exactly on Approve with submit found and dialog closed; submit is clicked only after approval |
| App.SemiAutoPostsBlank | content-script/src/App.tsx:174-201 | semi-auto mode (the default) has no blank-comment guard: it pastes the trimmed text, even an empty one, and an approved reply is submitted and reported as posted |
| App.ModeResult | content-script/src/App.tsx:455-457 | full-auto mode maps engageTweet to posted or failed; semi-auto mode returns the overlay's outcome |
| App.Dispatch | content-script/src/App.tsx:459-481 | a post records and persists the id and adds exactly its node to the engaged marks; a skip adds exactly its node to the skipped marks and leaves the engaged marks and the success flag alone; only a stop changes `stopped`; a failure is one bumped attempt; only a post changes the replied set; the mode and the observer never change |
| App.Picked | content-script/src/App.tsx:364-386 | the picked article is the first eligible article of the page it looks at (the reloaded page exactly when the feed was reloaded); nothing is picked exactly when that page has no eligible article |
| App.Located | content-script/src/App.tsx:400-428 | a match is an article of the aligned page, found only for a picked article and a non-empty string `tweet_text`; a match inside the viewport wins and is visible; nothing is found exactly when the whole-page search finds nothing, i.e. no candidate reaches the minimum score |
| App.ViewportFirst | content-script/src/App.tsx:412-428 | the viewport-only search is tried first and its hit, a visible article of the page, is kept; otherwise the whole-page search decides, and no hit means no candidate reached the minimum score |
| App.WiderSearchFinds | content-script/src/App.tsx:412-428 | whatever the viewport-only search finds, the whole-page search also finds something |
| App.IterationCountsMiss | content-script/src/App.tsx:406-428 | a picked article whose `tweet_text` is falsy, or matches nothing, costs exactly one attempt on its id and no other, and nothing is engaged or posted |
| App.Iteration | content-script/src/App.tsx:364-486 | one pass never engages an already-replied id; a post adds that id to the replied set and persists it; "every maxed-out id is skipped" is preserved |
| App.Engage | content-script/src/App.tsx:431-481 | a matched tweet already replied to is only marked engaged and nothing else changes; otherwise only that tweet's id can be engaged, a post adds it to the replied set and persists it, and "every maxed-out id is skipped" is preserved |
| App.IterationMarksReplied | content-script/src/App.tsx:430-434 | engagement is attempted only on the matched tweet; a match already replied to is marked engaged, nothing is posted, and no skip or attempt changes |
| App.PrependFresh | content-script/src/App.tsx:459-463 | ids posted in one pass, followed by those of later passes, stay distinct and new |
| App.Loop | content-script/src/App.tsx:364-486 | the replied set grows by exactly the ids posted, each posted at most once and never one replied before; the invariant is preserved |
| App.Run | content-script/src/App.tsx:355-496 | a second start does nothing; otherwise `running` ends as the negation of `stopped`, a stop clears the observer, stored ids are loaded first and never posted to again |
| Navigation.ScrollTarget | content-script/src/helpers/manualNavigationHelpers.ts:5-9 | the scroll position is `scrollY + top - 65`, clamped at 0 |
| Navigation.ScrollThenAligned | content-script/src/helpers/manualNavigationHelpers.ts:5-9 | when the page can scroll that far, the article lands exactly at the offset, inside any tolerance |
| Navigation.WaitUntilAligned | content-script/src/helpers/manualNavigationHelpers.ts:11-25 | true exactly when some poll is aligned before any poll sees `stopped`; a stop at the first poll gives false |
| Navigation.CandidatesSorted | content-script/src/helpers/manualNavigationHelpers.ts:42-47 | exactly the tweets with a non-empty box, each as often as on the page, ordered by their top edge |
| Navigation.CandidatesDistinct | content-script/src/helpers/manualNavigationHelpers.ts:42-47 | distinct DOM nodes on the page stay distinct in the sorted candidate list |
| Navigation.SetCurrentArticle | content-script/src/helpers/manualNavigationHelpers.ts:49-59 | the new article becomes current and outlined; the old one loses its outline if still on the page; no other outline changes |
| Navigation.IndexOfNode | content-script/src/helpers/manualNavigationHelpers.ts:75 | the first position holding the node, or -1 exactly when it is absent |
| Navigation.CurrentIndex | content-script/src/helpers/manualNavigationHelpers.ts:73-76 | -1 without a current article, otherwise its position in the list |
| Navigation.ClampInRange | content-script/src/helpers/manualNavigationHelpers.ts:92 | the clamped index is always a valid position and sticks at either end |
| Navigation.JumpTo | content-script/src/helpers/manualNavigationHelpers.ts:61-71 | makes the article current and scrolls to its alignment target |
| Navigation.Step | content-script/src/helpers/manualNavigationHelpers.ts:78-94 | nothing on an empty list; without a current article the first one below the top (else the first); otherwise the clamped neighbour |
| Navigation.StepForwardBack | content-script/src/helpers/manualNavigationHelpers.ts:78-94 | on an unchanged list of distinct articles, Next then Prev returns to the same article |
| Navigation.NextThenPrev | content-script/src/helpers/manualNavigationHelpers.ts:78-94 | on an unchanged page of distinct nodes, `gotoNext(+1)` then `gotoNext(-1)` returns to the same article |
| Navigation.StepPastEndsStays | content-script/src/helpers/manualNavigationHelpers.ts:92 | stepping past either end of the list stays on that end |
| UiHelpers.Text | content-script/src/helpers/uiHelpers.ts:17 | a string comes out in normal form with the same non-space characters; anything else gives "" |
| UiHelpers.TextIsJoinedWords | content-script/src/helpers/uiHelpers.ts:17 | the text of a string is its words joined by single spaces |
| UiHelpers.TextIdempotent | content-script/src/helpers/uiHelpers.ts:17 | normalising a normalised field changes nothing |
| UiHelpers.TextOfSquashed | content-script/src/helpers/uiHelpers.ts:17 | a string passes through unchanged exactly when it is already in normal form |
| UiHelpers.TextEmpty | content-script/src/helpers/uiHelpers.ts:17 | the text is empty exactly for a non-string or a blank string |
| UiHelpers.OrNone | content-script/src/helpers/uiHelpers.ts:18 | never empty: the text, or "none" when there is none |
| UiHelpers.OrNull | content-script/src/helpers/uiHelpers.ts:19 | null exactly when the text is empty, otherwise the non-empty text |
| UiHelpers.EnumOr | content-script/src/helpers/uiHelpers.ts:22-23 | the value when it is one of the allowed strings, the fallback otherwise, so the result is always allowed when the fallback is |
| UiHelpers.InferTruncated | content-script/src/helpers/uiHelpers.ts:20-21 | as written: never for "", always above 275 characters or with "show more" in any ASCII case |
| UiHelpers.InferTruncatedMissesEllipsis | content-script/src/helpers/uiHelpers.ts:20-21 | as written, a short post ending in "…" without "show more" is not flagged |
| UiHelpers.InferTruncatedMissesEllipsisExample | content-script/src/helpers/uiHelpers.ts:20-21 | "Read this…" is not flagged as truncated |
| CommentChat.InferTruncated | content-script/src/components/CommentChat.tsx:215-216 | flagged exactly when non-empty and longer than 275, ending in "…", or containing "show more" in any ASCII case |
| CommentChat.AuthorHandle | content-script/src/components/CommentChat.tsx:274-278 | a handle already starting with "@" is kept; with no author name the handle is kept; otherwise "@" is put in front; the result starts with "@" exactly when the handle did or the name is known |
| CommentChat.AuthorHandleIdempotent | content-script/src/components/CommentChat.tsx:274-278 | fixing the handle twice equals fixing it once |
| CommentChat.FirstText | content-script/src/components/CommentChat.tsx:280-288 | the first field that has text, in normal form |
| CommentChat.TextOr | content-script/src/components/CommentChat.tsx:290-292 | the text, or the non-empty placeholder in its place |
| CommentChat.Takeaway | content-script/src/components/CommentChat.tsx:317-319 | always starts with "✅ In short" and is in normal form; a takeaway that already starts so is kept; otherwise it is prefixed with one space between |
| CommentChat.Texts | content-script/src/components/CommentChat.tsx:322 | exactly the non-empty normalised entries, each in normal form |
| CommentChat.TextsAppend | content-script/src/components/CommentChat.tsx:322 | the texts of a concatenation are the texts of the parts, in order |
| CommentChat.TextsOne | content-script/src/components/CommentChat.tsx:322 | an item contributes its normalised text exactly when that text is not blank |
| CommentChat.TextList | content-script/src/components/CommentChat.tsx:321-327 | a non-array gives []; otherwise the first three non-empty normalised entries |
| CommentChat.Short | content-script/src/components/CommentChat.tsx:330 | the first min(120, length) characters of the normalised text, with single plain spaces |
| CommentChat.StructuredWellFormed | content-script/src/components/CommentChat.tsx:267-336 | whatever the backend sends, the analysis is well formed: allowed kind and confidence, truncation recomputed from the text, normalised fields, placeholders never empty, takeaway prefixed, at most three ideas and hooks, short reply at most 120 characters |
| CommentChat.StructuredOfNothing | content-script/src/components/CommentChat.tsx:267-336 | without a result object every field falls back to its default |
| CommentChat.StructuredOfJson | content-script/src/components/CommentChat.tsx:267-336 | normalising a canonical analysis again gives it back unchanged |
| CommentChat.SendMessage | content-script/src/components/CommentChat.tsx:474-481 | blank input or a send while loading changes nothing; otherwise exactly one user message with the trimmed text is appended, the input clears and loading is set |
| CommentChat.SendWhileLoadingIgnored | content-script/src/components/CommentChat.tsx:474-476 | a second send before the reply arrives is ignored |

## Left out

- Styling, the React components' rendering, the approval overlay's DOM, the
  background worker and the screenshot capture are left out. They are presentation
  or I/O; the overlay's result is the `choice` parameter.
- Time: `sleep`, the `waitFor` polling, timeouts, smooth scrolling and `setTimeout`
  are not modelled. Their outcomes are booleans in `Interaction` and page snapshots
  in `Observation`. `waitUntilAligned` is modelled over the polls taken before its
  time limit.
- Clicks and DOM mutation are modelled as booleans and mark sets: the `data-engaged`
  and `data-skipped` flags and the `ta-current` outline.
- `el.isConnected` is true for every article of the snapshot; `Connected` looks the
  node up in the current page.
- `localStorage` is modelled as a set of ids. A corrupt stored value, which the
  source silently ignores, is not modelled.
- The Unicode tables behind `toLowerCase`, `normalize("NFKD")` and `\p{L}\p{N}` are
  parameters (`Utils.Unicode`): a reference table is out of scope.
- Utils.Norm: lengths are counted in code points, not UTF-16 units. This matters for
  `t.length > 275`, `slice(0, 30)`, `slice(0, 120)` and the token test `t.length >= 3`
  on text outside the Basic Multilingual Plane. For example, a word of two CJK
  Extension B characters is 4 UTF-16 units: the source keeps it as a token and the
  model (Utils.TokenSet) drops it.
- Utils.OverlapScore: scores are exact rationals rather than IEEE doubles.
- Navigation.WaitUntilAligned: a `NaN` top and the clock are not modelled.
- App.Run: the loop is followed only as far as the given observations reach. It
  never ends on its own unless stopped, so a finite list cuts it off.
- App.Iteration: errors thrown inside the loop body are modelled only for a non-string
  `tweet_text`. `findTweetByText` would throw on it; the loop catches the error and
  retries.
- App.EngageTweetSemiAuto: the `!dialog` check is subsumed by `dialogOpens`. The
  editor lookup of `pasteReplyOnly` is ignored because the source ignores its result.
- Actions.PasteAndSubmitReply: the `!editor` branch cannot be reached after a
  successful `waitFor`; a timeout is modelled as `EditorTimeout`.
- The second `engageTweet` in App.tsx is not modelled separately; the model follows
  actions.ts.
- content-script/src/App copy.tsx is an older copy of App.tsx and is not part of
  this model.
- `sendMessage`'s network request, the assistant's reply and its error message are
  not modelled; only the synchronous guard and append step are.
- `analyzeCurrentPost`'s choice of article, capture and `setAnalyzedPostData` are not
  modelled. The article choice is the same rule as `gotoNext` without a current
  article.
- `circleCurrentArticle` (which injects a style element) and `badge` (styling) are
  not modelled.

## Findings

| source | as written | input that shows it | evidently intended | confidence | as-written member | corrected member |
|---|---|---|---|---|---|---|
| content-script/src/helpers/uiHelpers.ts:20-21 | the truncation heuristic looks for the three characters "â€¦" at the end: the UTF-8 bytes of "…" misread as Windows-1252 | "Read this…" (10 characters, no "show more") is reported as not truncated | look for "…" at the end, as the panel's own copy in components/CommentChat.tsx:215-216 does | not executed | UiHelpers.InferTruncatedMissesEllipsisExample | CommentChat.InferTruncated |
