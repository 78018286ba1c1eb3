/** helpers/manualNavigationHelpers.ts: stepping through the visible tweets
    and aligning the chosen one below the page header. */
module Navigation {
  import opened Wrappers
  import opened Dom
  import opened Seqs

  /** `OFFSET_TOP_PX`: an aligned article's top edge sits 65px below the viewport top. */
  const OffsetTopPx: real := 65.0

  /** The window scroll position `scrollToAlignTop` asks for. */
  function ScrollTarget(scrollY: real, top: real): (y: real)
    ensures y >= 0.0
    ensures y >= scrollY + top - OffsetTopPx
    ensures y == scrollY + top - OffsetTopPx || y == 0.0
  {
    var y := scrollY + top - OffsetTopPx;
    if y > 0.0 then y else 0.0
  }

  /** The alignment test of `waitUntilAligned`. */
  predicate Aligned(top: real, tol: real) {
    OffsetTopPx - tol <= top <= OffsetTopPx + tol
  }

  /** When the page can scroll that far, the article ends up exactly at the
      offset, so any non-negative tolerance accepts it. */
  lemma ScrollThenAligned(scrollY: real, top: real, tol: real)
    requires tol >= 0.0
    requires scrollY + top >= OffsetTopPx
    ensures Aligned(top - (ScrollTarget(scrollY, top) - scrollY), tol)
  {
  }

  /** One poll of `waitUntilAligned`: the `stopped` flag and the article's top. */
  datatype Sample = Sample(stopped: bool, top: real)

  predicate Decides(tol: real, x: Sample) {
    x.stopped || Aligned(x.top, tol)
  }

  /** `waitUntilAligned` over the polls taken before the time limit: true at
      the first aligned poll, false at the first poll that sees `stopped`
      first, false when time runs out. */
  function WaitUntilAligned(samples: seq<Sample>, tol: real): (r: bool)
    ensures r <==> exists i :: 0 <= i < |samples| && !samples[i].stopped && Aligned(samples[i].top, tol)
                              && forall j :: 0 <= j < i ==> !Decides(tol, samples[j])
    ensures |samples| > 0 && samples[0].stopped ==> !r
  {
    match FindFirst(samples, (x: Sample) => Decides(tol, x))
    case None => false
    case Some(i) => !samples[i].stopped
  }

  /** The local `isVisible`: a non-empty box, wherever it is. */
  predicate HasSize(a: Article) {
    a.rect.width > 0.0 && a.rect.height > 0.0
  }

  predicate IsCandidate(a: Article) {
    a.isTweet && HasSize(a)
  }

  function Top(a: Article): real { a.rect.top }

  /** `candidatesSorted`: the tweets with a non-empty box, top to bottom. */
  function CandidatesSorted(page: Page): (r: Page)
    ensures forall i :: 0 <= i < |r| ==> IsCandidate(r[i]) && r[i] in page
    ensures SortedBy(r, Top)
    ensures forall i :: 0 <= i < |page| && IsCandidate(page[i]) ==> page[i] in r
    ensures multiset(r) == multiset(Filter(page, IsCandidate))
  {
    var f := Filter(page, IsCandidate);
    var r := SortBy(f, Top);
    Reordered(page, f, r);
    r
  }

  /** Reordering the candidates keeps exactly the candidates. */
  lemma Reordered(page: Page, f: Page, r: Page)
    requires forall i :: 0 <= i < |f| ==> f[i] in page && IsCandidate(f[i])
    requires forall i :: 0 <= i < |page| && IsCandidate(page[i]) ==> page[i] in f
    requires multiset(r) == multiset(f)
    ensures forall i :: 0 <= i < |r| ==> IsCandidate(r[i]) && r[i] in page
    ensures forall i :: 0 <= i < |page| && IsCandidate(page[i]) ==> page[i] in r
  {
    forall i | 0 <= i < |r|
      ensures IsCandidate(r[i]) && r[i] in page
    {
      assert r[i] in multiset(f);
      var j :| 0 <= j < |f| && f[j] == r[i];
    }
    forall i | 0 <= i < |page| && IsCandidate(page[i])
      ensures page[i] in r
    {
      assert page[i] in multiset(r);
    }
  }

  /** The article the manual navigator points at (`state.currentArticle`)
      and the nodes carrying the `ta-current` outline. */
  datatype Cursor = Cursor(current: Option<Node>, marked: set<Node>)

  /** `setCurrentArticle(a)`: the old current article, if still on the page,
      loses its outline; `a` becomes current and gains it. */
  function SetCurrentArticle(c: Cursor, a: Option<Node>, page: Page): (r: Cursor)
    ensures r.current == a
    ensures a.Some? ==> a.value in r.marked
    ensures c.current.Some? && c.current != a && Connected(page, c.current.value) ==> c.current.value !in r.marked
    ensures forall n :: n in r.marked && Some(n) != a ==> n in c.marked
    ensures forall n :: n in c.marked && Some(n) != c.current ==> n in r.marked
  {
    var kept := if c.current.Some? && Connected(page, c.current.value) then c.marked - {c.current.value} else c.marked;
    Cursor(a, if a.Some? then kept + {a.value} else kept)
  }

  /** `arr.indexOf(el)` by node identity. */
  function IndexOfNode(arr: Page, n: Node): (r: int)
    ensures -1 <= r < |arr|
    ensures r == -1 <==> forall i :: 0 <= i < |arr| ==> arr[i].node != n
    ensures r >= 0 ==> arr[r].node == n && forall j :: 0 <= j < r ==> arr[j].node != n
  {
    match FindFirst(arr, (a: Article) => a.node == n)
    case None => -1
    case Some(i) => i
  }

  /** `currentIndex`: -1 without a current article, else its position. */
  function CurrentIndex(arr: Page, c: Cursor): (r: int)
    ensures -1 <= r < |arr|
    ensures c.current.None? ==> r == -1
    ensures c.current.Some? ==> r == IndexOfNode(arr, c.current.value)
  {
    if c.current.None? then -1 else IndexOfNode(arr, c.current.value)
  }

  /** `Math.min(Math.max(x, lo), hi)` */
  function Clamp(x: int, lo: int, hi: int): int {
    if x < lo then lo else if x > hi then hi else x
  }

  lemma ClampInRange(x: int, n: nat)
    requires n >= 1
    ensures 0 <= Clamp(x, 0, n - 1) < n
    ensures x >= n - 1 ==> Clamp(x, 0, n - 1) == n - 1
    ensures x <= 0 ==> Clamp(x, 0, n - 1) == 0
    ensures 0 <= x < n ==> Clamp(x, 0, n - 1) == x
  {
  }

  /** The result of a navigation step: the cursor, the position chosen in
      `candidatesSorted()`, and the scroll position requested. */
  datatype Jump = Jump(cursor: Cursor, target: Option<nat>, scrollTo: Option<real>)

  /** `jumpToArticle(arr[k])` without the wait. */
  function JumpTo(c: Cursor, arr: Page, k: nat, page: Page, scrollY: real): (r: Jump)
    requires k < |arr|
    ensures r.cursor.current == Some(arr[k].node) && r.target == Some(k)
    ensures r.scrollTo == Some(ScrollTarget(scrollY, arr[k].rect.top))
  {
    Jump(SetCurrentArticle(c, Some(arr[k].node), page), Some(k), Some(ScrollTarget(scrollY, arr[k].rect.top)))
  }

  predicate BelowTop(a: Article) { a.rect.top > 0.0 }

  /** `gotoNext(delta)` over the list `arr` it computes: nothing on an empty
      list; without a current article the first candidate below the viewport
      top (else the first one); otherwise the neighbour `delta` steps away,
      clamped to the list. */
  function Step(delta: int, c: Cursor, arr: Page, page: Page, scrollY: real): (r: Jump)
    ensures |arr| == 0 ==> r == Jump(c, None, None)
    ensures |arr| > 0 ==> r.target.Some? && r.target.value < |arr| && r.cursor.current == Some(arr[r.target.value].node)
    ensures |arr| > 0 && CurrentIndex(arr, c) == -1 ==>
              r.target.value == (match FindFirst(arr, BelowTop) case Some(k) => k case None => 0)
    ensures |arr| > 0 && CurrentIndex(arr, c) >= 0 ==>
              r.target.value == Clamp(CurrentIndex(arr, c) + delta, 0, |arr| - 1)
  {
    if |arr| == 0 then Jump(c, None, None)
    else
      var idx := CurrentIndex(arr, c);
      if idx == -1 then
        var k := match FindFirst(arr, BelowTop) case Some(k) => k case None => 0;
        JumpTo(c, arr, k, page, scrollY)
      else
        var k := Clamp(idx + delta, 0, |arr| - 1);
        ClampInRange(idx + delta, |arr|);
        JumpTo(c, arr, k, page, scrollY)
  }

  /** `gotoNext(delta)` on the current page. */
  function GotoNext(delta: int, c: Cursor, page: Page, scrollY: real): Jump {
    Step(delta, c, CandidatesSorted(page), page, scrollY)
  }

  predicate DistinctNodes(arr: Page) {
    forall i, j :: 0 <= i < j < |arr| ==> arr[i].node != arr[j].node
  }

  /** Over an unchanged list, Next then Prev returns to the same article. */
  lemma StepForwardBack(c: Cursor, arr: Page, page: Page, scrollY: real, scrollY': real)
    requires DistinctNodes(arr)
    requires 0 <= CurrentIndex(arr, c) < |arr| - 1
    ensures Step(-1, Step(1, c, arr, page, scrollY).cursor, arr, page, scrollY').cursor.current == c.current
  {
    var idx := CurrentIndex(arr, c);
    ClampInRange(idx + 1, |arr|);
    var next := Step(1, c, arr, page, scrollY);
    assert next.cursor.current == Some(arr[idx + 1].node);
    var back := CurrentIndex(arr, next.cursor);
    assert back == idx + 1 by {
      assert forall j :: 0 <= j < idx + 1 ==> arr[j].node != arr[idx + 1].node;
    }
    ClampInRange(back - 1, |arr|);
  }

  lemma NextThenPrev(c: Cursor, page: Page, scrollY: real, scrollY': real)
    requires DistinctNodes(page)
    requires 0 <= CurrentIndex(CandidatesSorted(page), c) < |CandidatesSorted(page)| - 1
    ensures GotoNext(-1, GotoNext(1, c, page, scrollY).cursor, page, scrollY').cursor.current == c.current
  {
    CandidatesDistinct(page);
    StepForwardBack(c, CandidatesSorted(page), page, scrollY, scrollY');
  }

  /** Distinct DOM nodes stay distinct in the sorted candidate list. */
  lemma CandidatesDistinct(page: Page)
    requires DistinctNodes(page)
    ensures DistinctNodes(CandidatesSorted(page))
  {
    var f := Filter(page, IsCandidate);
    var r := CandidatesSorted(page);
    assert multiset(r) <= multiset(page);
    DistinctNodesOfSubMultiset(page, r);
  }

  /** On a list of distinct nodes every article occurs at most once. */
  lemma {:induction false} AtMostOnce(a: Page, x: Article)
    requires DistinctNodes(a)
    ensures multiset(a)[x] <= 1
    decreases |a|
  {
    if a != [] {
      var rest := a[1..];
      assert a == [a[0]] + rest;
      assert DistinctNodes(rest) by {
        forall i, j | 0 <= i < j < |rest|
          ensures rest[i].node != rest[j].node
        {
          assert rest[i] == a[i + 1] && rest[j] == a[j + 1];
        }
      }
      AtMostOnce(rest, x);
      if a[0] == x {
        assert x !in rest by {
          forall k | 0 <= k < |rest|
            ensures rest[k] != x
          {
            assert rest[k] == a[k + 1];
          }
        }
      }
    }
  }

  /** An article at two positions occurs at least twice. */
  lemma Twice(b: Page, i: nat, j: nat)
    requires i < j < |b| && b[i] == b[j]
    ensures multiset(b)[b[i]] >= 2
  {
    assert b == b[..j] + b[j..];
    assert b[i] in b[..j];
    assert b[j] in b[j..];
    assert multiset(b) == multiset(b[..j]) + multiset(b[j..]);
  }

  /** Taking some of the articles of a list of distinct nodes, in any order
      and at most as often, keeps the nodes distinct. */
  lemma DistinctNodesOfSubMultiset(a: Page, b: Page)
    requires DistinctNodes(a) && multiset(b) <= multiset(a)
    ensures DistinctNodes(b)
  {
    forall i, j | 0 <= i < j < |b|
      ensures b[i].node != b[j].node
    {
      assert b[i] in multiset(a) && b[j] in multiset(a);
      var k :| 0 <= k < |a| && a[k] == b[i];
      var l :| 0 <= l < |a| && a[l] == b[j];
      if b[i] == b[j] {
        Twice(b, i, j);
        AtMostOnce(a, b[i]);
        assert false;
      } else {
        assert k != l;
        assert a[k].node != a[l].node by {
          if k > l {
            assert a[l].node != a[k].node;
          }
        }
      }
    }
  }

  /** Stepping past either end stays on that end. */
  lemma StepPastEndsStays(delta: int, c: Cursor, arr: Page, page: Page, scrollY: real)
    requires CurrentIndex(arr, c) >= 0
    ensures var idx := CurrentIndex(arr, c); var r := Step(delta, c, arr, page, scrollY);
      && (idx + delta >= |arr| - 1 ==> r.target == Some(|arr| - 1))
      && (idx + delta <= 0 ==> r.target == Some(0))
  {
    ClampInRange(CurrentIndex(arr, c) + delta, |arr|);
  }
}
