/** The parts of the host page's DOM the agent reads, as immutable records.
    A page is the list of `article[role="article"]` elements in document
    order; each element carries a node identity so that marks set on it
    (`dataset.engaged`, the `ta-current` class) can be tracked across
    snapshots. */
module Dom {
  import opened Wrappers

  type Node = nat

  /** `getBoundingClientRect()`, in CSS pixels relative to the viewport. */
  datatype Rect = Rect(top: real, left: real, width: real, height: real) {
    function Bottom(): real { top + height }
    function Right(): real { left + width }
  }

  /** `window.innerWidth/innerHeight` and the document element's client size. */
  datatype Viewport = Viewport(innerWidth: real, innerHeight: real, clientWidth: real, clientHeight: real) {
    /** `window.innerWidth || document.documentElement.clientWidth` */
    function Width(): real { if innerWidth != 0.0 then innerWidth else clientWidth }
    /** `window.innerHeight || document.documentElement.clientHeight` */
    function Height(): real { if innerHeight != 0.0 then innerHeight else clientHeight }
  }

  /** A `button` or `a[role="button"]` of a tweet's action bar: its
      `data-testid` ("" when absent), whether it holds an `svg path`, that
      path's `d` attribute ("" when absent) and its left edge. */
  datatype Button = Button(testId: string, hasSvgPath: bool, pathD: string, left: real)

  /** A `[role="group"]` element: its buttons in document order and whether
      any `svg path` lies inside it. */
  datatype Group = Group(buttons: seq<Button>, hasSvgPath: bool)

  /** An `article[role="article"]` element.
      - `isTweet`: also matches `[data-testid="tweet"]` (the agent's SELECTOR);
      - `innerText`, `textContent`: the article's full text;
      - `statusHref`: `href` of the first `a[href*="/status/"]`, if any;
      - `userName`, `time`, `tweetText`: the `User-Name` link's text, the
        `time` element's `datetime`, the `tweetText` element's text, if present;
      - `groups`: its `[role="group"]` descendants in document order. */
  datatype Article = Article(
    node: Node,
    isTweet: bool,
    rect: Rect,
    innerText: string,
    textContent: string,
    statusHref: Option<string>,
    userName: Option<string>,
    time: Option<string>,
    tweetText: Option<string>,
    groups: seq<Group>)

  type Page = seq<Article>

  /** `el.isConnected` for a node known from an earlier snapshot. */
  predicate Connected(page: Page, n: Node) {
    exists i :: 0 <= i < |page| && page[i].node == n
  }

  /** `x || ""` for an optional string. */
  function OrEmpty(o: Option<string>): string {
    o.GetOr("")
  }
}
