/** JavaScript string primitives the agent relies on: the `\s` character class,
    `s.replace(/\s+/g, " ")`, `trim()`, `split(sep)` and `startsWith`. */
module Strings {

  /** ECMAScript WhiteSpace and LineTerminator code points: exactly what `\s`
      matches and what `String.prototype.trim` removes. */
  predicate IsSpace(c: char) {
    || c == ' ' || c == '\t' || c == '\n' || c == '\r' || c == '\U{000B}' || c == '\U{000C}'
    || c == '\U{00A0}' || c == '\U{1680}' || ('\U{2000}' <= c <= '\U{200A}')
    || c == '\U{2028}' || c == '\U{2029}' || c == '\U{202F}' || c == '\U{205F}'
    || c == '\U{3000}' || c == '\U{FEFF}'
  }

  /** No whitespace character other than the plain space. */
  predicate OnlyPlainSpaces(s: string) {
    forall i :: 0 <= i < |s| ==> IsSpace(s[i]) ==> s[i] == ' '
  }

  /** No two consecutive spaces. */
  predicate NoDoubleSpace(s: string) {
    forall i :: 0 <= i < |s| - 1 ==> !(s[i] == ' ' && s[i + 1] == ' ')
  }

  /** Neither starts nor ends with whitespace. */
  predicate Trimmed(s: string) {
    s == [] || (!IsSpace(s[0]) && !IsSpace(s[|s| - 1]))
  }

  /** The shape of `s.replace(/\s+/g, " ").trim()`: words separated by single spaces. */
  predicate Squashed(s: string) {
    OnlyPlainSpaces(s) && NoDoubleSpace(s) && Trimmed(s)
  }

  /** No whitespace at all. */
  predicate NoSpace(s: string) {
    forall i :: 0 <= i < |s| ==> !IsSpace(s[i])
  }

  /** The non-whitespace characters of `s`, in order. */
  function Ink(s: string): (r: string)
    ensures NoSpace(r)
  {
    if s == [] then []
    else if IsSpace(s[0]) then Ink(s[1..])
    else [s[0]] + Ink(s[1..])
  }

  lemma {:induction false} InkAppend(a: string, b: string)
    ensures Ink(a + b) == Ink(a) + Ink(b)
  {
    if a == [] {
      assert a + b == b;
    } else {
      assert (a + b)[1..] == a[1..] + b;
      InkAppend(a[1..], b);
    }
  }

  lemma {:induction false} InkMembers(s: string, c: char)
    ensures c in Ink(s) <==> c in s && !IsSpace(c)
  {
    if s != [] {
      InkMembers(s[1..], c);
      assert s == [s[0]] + s[1..];
    }
  }

  /** `trimStart`: drops the leading whitespace run; what is left is a suffix. */
  function TrimStart(s: string): (r: string)
    ensures |r| <= |s| && r == s[|s| - |r|..]
    ensures r == [] || !IsSpace(r[0])
    ensures forall i :: 0 <= i < |s| - |r| ==> IsSpace(s[i])
  {
    if s != [] && IsSpace(s[0]) then TrimStart(s[1..]) else s
  }

  /** `trimEnd`: drops the trailing whitespace run; what is left is a prefix. */
  function TrimEnd(s: string): (r: string)
    ensures |r| <= |s| && r == s[..|r|]
    ensures r == [] || !IsSpace(r[|r| - 1])
    ensures forall i :: |r| <= i < |s| ==> IsSpace(s[i])
  {
    if s != [] && IsSpace(s[|s| - 1]) then TrimEnd(s[..|s| - 1]) else s
  }

  /** `String.prototype.trim`: the slice of `s` left after removing the
      whitespace at both ends, and nothing else. */
  function Trim(s: string): (r: string)
    ensures Trimmed(r)
    ensures Ink(r) == Ink(s)
    ensures exists i, j :: 0 <= i <= j <= |s| && r == s[i..j] && SpaceOutside(s, i, j)
  {
    var t := TrimStart(s);
    InkOfTrimStart(s);
    InkOfTrimEnd(t);
    var r := TrimEnd(t);
    SliceBetweenSpaces(s, t, r);
    r
  }

  /** Every character of `s` outside `s[i..j]` is whitespace. */
  predicate SpaceOutside(s: string, i: nat, j: nat) {
    forall k :: 0 <= k < |s| && !(i <= k < j) ==> IsSpace(s[k])
  }

  lemma SliceOfSuffix(s: string, i: nat, n: nat)
    requires i + n <= |s|
    ensures s[i..][..n] == s[i..i + n]
  {
  }

  /** A prefix `r` of a suffix `t` of `s`, with whitespace before `t` and
      after `r`, is a slice of `s` with only whitespace outside it. */
  lemma SliceBetweenSpaces(s: string, t: string, r: string)
    requires |t| <= |s| && t == s[|s| - |t|..] && forall k :: 0 <= k < |s| - |t| ==> IsSpace(s[k])
    requires |r| <= |t| && r == t[..|r|] && forall k :: |r| <= k < |t| ==> IsSpace(t[k])
    ensures exists i, j :: 0 <= i <= j <= |s| && r == s[i..j] && SpaceOutside(s, i, j)
  {
    var i := |s| - |t|;
    var j := i + |r|;
    SliceOfSuffix(s, i, |r|);
    SpacesAround(s, t, |r|);
    IsTrimSlice(s, r, i, j);
  }

  lemma IsTrimSlice(s: string, r: string, i: nat, j: nat)
    requires i <= j <= |s| && r == s[i..j] && SpaceOutside(s, i, j)
    ensures exists i, j :: 0 <= i <= j <= |s| && r == s[i..j] && SpaceOutside(s, i, j)
  {
  }

  /** Whitespace before the suffix `t` of `s` and after `t[..n]` surrounds
      the slice `t[..n]` of `s`. */
  lemma SpacesAround(s: string, t: string, n: nat)
    requires |t| <= |s| && t == s[|s| - |t|..]
    requires forall k :: 0 <= k < |s| - |t| ==> IsSpace(s[k])
    requires n <= |t| && forall k :: n <= k < |t| ==> IsSpace(t[k])
    ensures SpaceOutside(s, |s| - |t|, |s| - |t| + n)
  {
    var i := |s| - |t|;
    forall k | 0 <= k < |s| && !(i <= k < i + n)
      ensures IsSpace(s[k])
    {
      if k >= i + n {
        assert s[k] == t[k - i];
      }
    }
  }

  lemma {:induction false} InkOfTrimStart(s: string)
    ensures Ink(TrimStart(s)) == Ink(s)
  {
    if s != [] && IsSpace(s[0]) {
      InkOfTrimStart(s[1..]);
    }
  }

  lemma {:induction false} InkOfTrimEnd(s: string)
    ensures Ink(TrimEnd(s)) == Ink(s)
  {
    if s != [] && IsSpace(s[|s| - 1]) {
      var p := s[..|s| - 1];
      InkOfTrimEnd(p);
      assert s == p + [s[|s| - 1]];
      InkAppend(p, [s[|s| - 1]]);
    }
  }

  /** `trim()` leaves nothing exactly for blank input. */
  lemma TrimEmpty(s: string)
    ensures Trim(s) == "" <==> Ink(s) == []
  {
    var t := Trim(s);
    if t != "" {
      InkMembers(t, t[0]);
    }
  }

  /** `s.replace(/\s+/g, " ")`: every maximal whitespace run becomes one
      space: the result starts with a space exactly when `s` starts with
      whitespace, ends likewise (`CollapseLast`) and holds the same words
      (`CollapseKeepsWords`). */
  function Collapse(s: string): (r: string)
    ensures OnlyPlainSpaces(r) && NoDoubleSpace(r)
    ensures (r != [] && r[0] == ' ') <==> (s != [] && IsSpace(s[0]))
    ensures Ink(r) == Ink(s)
    decreases |s|
  {
    if s == [] then []
    else if IsSpace(s[0]) then
      var t := TrimStart(s[1..]);
      InkOfTrimStart(s[1..]);
      InkOfTail(s);
      var y := Collapse(t);
      ConsSpacing(' ', y);
      InkCons(' ', y);
      [' '] + y
    else
      var y := Collapse(s[1..]);
      InkOfTail(s);
      ConsSpacing(s[0], y);
      InkCons(s[0], y);
      [s[0]] + y
  }

  lemma InkOfTail(s: string)
    requires s != []
    ensures Ink(s) == if IsSpace(s[0]) then Ink(s[1..]) else [s[0]] + Ink(s[1..])
  {
  }

  lemma InkCons(c: char, y: string)
    ensures Ink([c] + y) == if IsSpace(c) then Ink(y) else [c] + Ink(y)
  {
    assert ([c] + y)[1..] == y;
  }

  /** Putting a character in front keeps single plain spacing, unless a
      space lands before a space. */
  lemma ConsSpacing(c: char, y: string)
    requires OnlyPlainSpaces(y) && NoDoubleSpace(y)
    requires IsSpace(c) ==> c == ' '
    requires c == ' ' ==> y == [] || y[0] != ' '
    ensures OnlyPlainSpaces([c] + y) && NoDoubleSpace([c] + y)
  {
    var r := [c] + y;
    forall i | 1 <= i < |r|
      ensures r[i] == y[i - 1]
    {
    }
  }

  /** The collapsed string is empty only for the empty string, and ends with
      a space exactly when `s` ends with whitespace. */
  lemma {:induction false} CollapseLast(s: string)
    ensures var r := Collapse(s);
      && (r == [] <==> s == [])
      && ((r != [] && r[|r| - 1] == ' ') <==> (s != [] && IsSpace(s[|s| - 1])))
    decreases |s|
  {
    if s != [] {
      var last := s[|s| - 1];
      if IsSpace(s[0]) {
        var t := TrimStart(s[1..]);
        var y := Collapse(t);
        assert Collapse(s) == [' '] + y;
        CollapseLast(t);
        if t == [] {
          assert IsSpace(last) by {
            if |s| > 1 {
              assert last == s[1..][|s| - 2];
            }
          }
        } else {
          assert t[|t| - 1] == last by {
            assert t[|t| - 1] == s[1..][|s| - 2];
          }
          LastOfCons(' ', y);
        }
      } else {
        var x := s[1..];
        var y := Collapse(x);
        assert Collapse(s) == [s[0]] + y;
        CollapseLast(x);
        LastOfCons(s[0], y);
        assert x != [] ==> x[|x| - 1] == last;
      }
    }
  }

  lemma LastOfCons(c: char, y: string)
    ensures ([c] + y)[|y|] == if y == [] then c else y[|y| - 1]
  {
  }

  // ---------------------------------------------------------------------------
  // Words: the maximal runs of non-whitespace characters

  /** The run of non-whitespace characters `s` starts with. */
  function LeadingWord(s: string): (w: string)
    ensures |w| <= |s| && w == s[..|w|]
    ensures NoSpace(w)
    ensures |w| == |s| || IsSpace(s[|w|])
  {
    if s == [] || IsSpace(s[0]) then []
    else
      var w := LeadingWord(s[1..]);
      assert s[..|w| + 1] == [s[0]] + s[1..][..|w|];
      [s[0]] + w
  }

  /** The words of `s`: its maximal non-empty runs of non-whitespace
      characters, in order. */
  function Words(s: string): (ws: seq<string>)
    ensures forall k :: 0 <= k < |ws| ==> ws[k] != [] && NoSpace(ws[k])
    decreases |s|
  {
    if s == [] then []
    else if IsSpace(s[0]) then Words(s[1..])
    else
      var w := LeadingWord(s);
      [w] + Words(s[|w|..])
  }

  lemma {:induction false} WordsOfSpaces(b: string)
    requires forall k :: 0 <= k < |b| ==> IsSpace(b[k])
    ensures Words(b) == []
  {
    if b != [] {
      WordsOfSpaces(b[1..]);
    }
  }

  lemma {:induction false} WordsTrimStart(s: string)
    ensures Words(TrimStart(s)) == Words(s)
  {
    if s != [] && IsSpace(s[0]) {
      WordsTrimStart(s[1..]);
    }
  }

  lemma {:induction false} LeadingWordAppendSpaces(a: string, b: string)
    requires b == [] || IsSpace(b[0])
    ensures LeadingWord(a + b) == LeadingWord(a)
  {
    if a == [] {
      assert a + b == b;
    } else if !IsSpace(a[0]) {
      assert (a + b)[1..] == a[1..] + b;
      LeadingWordAppendSpaces(a[1..], b);
    }
  }

  /** Trailing whitespace adds no word. */
  lemma {:induction false} WordsAppendSpaces(a: string, b: string)
    requires forall k :: 0 <= k < |b| ==> IsSpace(b[k])
    ensures Words(a + b) == Words(a)
    decreases |a|
  {
    if a == [] {
      assert a + b == b;
      WordsOfSpaces(b);
    } else if IsSpace(a[0]) {
      assert (a + b)[1..] == a[1..] + b;
      WordsAppendSpaces(a[1..], b);
    } else {
      var w := LeadingWord(a);
      LeadingWordAppendSpaces(a, b);
      assert (a + b)[|w|..] == a[|w|..] + b;
      WordsAppendSpaces(a[|w|..], b);
    }
  }

  lemma WordsTrimEnd(s: string)
    ensures Words(TrimEnd(s)) == Words(s)
  {
    var t := TrimEnd(s);
    assert s == t + s[|t|..];
    WordsAppendSpaces(t, s[|t|..]);
  }

  /** Trimming keeps every word. */
  lemma WordsTrim(s: string)
    ensures Words(Trim(s)) == Words(s)
  {
    WordsTrimStart(s);
    WordsTrimEnd(TrimStart(s));
  }

  /** A character followed by whitespace (or nothing) is a word on its own. */
  lemma WordsConsSpaced(c: char, x: string)
    requires !IsSpace(c) && (x == [] || IsSpace(x[0]))
    ensures Words([c] + x) == [[c]] + Words(x)
  {
    var s := [c] + x;
    assert s[1..] == x;
    assert LeadingWord(s) == [c];
  }

  /** A character followed by a word is the start of that word. */
  lemma WordsConsJoined(c: char, x: string)
    requires !IsSpace(c) && x != [] && !IsSpace(x[0])
    ensures |Words(x)| >= 1 && Words([c] + x) == [[c] + Words(x)[0]] + Words(x)[1..]
  {
    var s := [c] + x;
    assert s[1..] == x;
    var w := LeadingWord(x);
    assert LeadingWord(s) == [c] + w;
    assert s[|w| + 1..] == x[|w|..];
  }

  /** Collapsing whitespace runs keeps every word, so no run is deleted:
      words on either side of a run stay apart. */
  lemma {:induction false} CollapseKeepsWords(s: string)
    ensures Words(Collapse(s)) == Words(s)
    decreases |s|
  {
    if s != [] {
      if IsSpace(s[0]) {
        var t := TrimStart(s[1..]);
        var y := Collapse(t);
        assert Words(Collapse(s)) == Words(y) by {
          assert Collapse(s) == [' '] + y;
          assert ([' '] + y)[1..] == y;
        }
        CollapseKeepsWords(t);
        assert Words(t) == Words(s) by {
          WordsTrimStart(s[1..]);
        }
      } else {
        var x := s[1..];
        var y := Collapse(x);
        assert Collapse(s) == [s[0]] + y;
        CollapseKeepsWords(x);
        assert x == [] <==> y == [] by {
          CollapseLast(x);
        }
        assert x != [] ==> (IsSpace(x[0]) <==> IsSpace(y[0])) by {
          if x != [] {
            assert y != [] by { CollapseLast(x); }
            assert IsSpace(y[0]) ==> y[0] == ' ';
          }
        }
        ConsKeepsWords(s[0], x, y);
        assert s == [s[0]] + x;
      }
    }
  }

  /** Two strings with the same words, both starting with whitespace or both
      with a word (or both empty), keep the same words behind a character. */
  lemma ConsKeepsWords(c: char, x: string, y: string)
    requires !IsSpace(c) && Words(x) == Words(y)
    requires x == [] <==> y == []
    requires x != [] ==> (IsSpace(x[0]) <==> IsSpace(y[0]))
    ensures Words([c] + x) == Words([c] + y)
  {
    if x == [] || IsSpace(x[0]) {
      WordsConsSpaced(c, x);
      WordsConsSpaced(c, y);
    } else {
      WordsConsJoined(c, x);
      WordsConsJoined(c, y);
    }
  }

  /** A normal-form string is its words joined by single spaces. */
  lemma {:induction false} SquashedIsJoinedWords(t: string)
    requires Squashed(t)
    ensures Join(Words(t), ' ') == t
    decreases |t|
  {
    if t != [] {
      var n := |LeadingWord(t)|;
      if n == |t| {
        OneWord(t);
      } else {
        SquashedAfterSpace(t, n);
        SquashedIsJoinedWords(t[n + 1..]);
        WordThenSpace(t, n);
      }
    }
  }

  lemma OneWord(t: string)
    requires t != [] && !IsSpace(t[0]) && |LeadingWord(t)| == |t|
    ensures Join(Words(t), ' ') == t
  {
    WordsAtWord(t);
    assert t[|t|..] == [];
  }

  /** A word, one space and a joined rest form the join of all the words. */
  lemma WordThenSpace(t: string, n: nat)
    requires t != [] && !IsSpace(t[0]) && n == |LeadingWord(t)| && n + 1 < |t|
    requires t[n] == ' ' && !IsSpace(t[n + 1]) && Join(Words(t[n + 1..]), ' ') == t[n + 1..]
    ensures Join(Words(t), ' ') == t
  {
    var w := LeadingWord(t);
    var u := t[n + 1..];
    assert Words(t) == [w] + Words(t[n..]) by {
      WordsAtWord(t);
    }
    assert Words(t[n..]) == Words(u) by {
      assert t[n..][0] == ' ' && t[n..][1..] == u;
    }
    assert |Words(u)| >= 1 by {
      WordsAtWord(u);
    }
    assert Join([w] + Words(u), ' ') == w + [' '] + u by {
      JoinCons(w, Words(u), ' ');
    }
    assert t == w + [' '] + u by {
      assert w == t[..n];
      assert t == t[..n] + [t[n]] + u;
    }
  }

  /** A string that starts with a word lists that word first. */
  lemma WordsAtWord(s: string)
    requires s != [] && !IsSpace(s[0])
    ensures Words(s) == [LeadingWord(s)] + Words(s[|LeadingWord(s)|..])
  {
  }

  /** What follows a whitespace character inside a normal-form string is
      again in normal form and starts with a word. */
  lemma SquashedAfterSpace(t: string, n: nat)
    requires Squashed(t) && n < |t| && IsSpace(t[n])
    ensures t[n] == ' ' && n + 1 < |t| && !IsSpace(t[n + 1]) && Squashed(t[n + 1..])
  {
    assert n + 1 < |t|;
    SubstringKeepsSpacing(t, n + 1, |t|);
    assert t[n + 1..] == t[n + 1..|t|];
    assert t[n + 1..][|t| - n - 2] == t[|t| - 1];
  }

  lemma JoinCons(w: string, ws: seq<string>, sep: char)
    requires |ws| >= 1
    ensures Join([w] + ws, sep) == w + [sep] + Join(ws, sep)
  {
    assert ([w] + ws)[1..] == ws;
  }

  /** `s.replace(/\s+/g, " ").trim()` is exactly the words of `s` joined
      by single spaces. */
  lemma SquashIsJoinedWords(s: string)
    ensures Squash(s) == Join(Words(s), ' ')
  {
    CollapseKeepsWords(s);
    WordsTrim(Collapse(s));
    SquashedIsJoinedWords(Squash(s));
  }

  /** Splitting a squashed non-blank string at the spaces gives its words. */
  lemma SplitSquash(s: string)
    requires Ink(s) != []
    ensures Split(Squash(s), ' ') == Words(s)
  {
    SquashIsJoinedWords(s);
    SquashEmpty(s);
    SplitJoinedWords(Words(s));
  }

  lemma SplitJoinedWords(ws: seq<string>)
    requires Join(ws, ' ') != []
    requires forall k :: 0 <= k < |ws| ==> NoSpace(ws[k])
    ensures Split(Join(ws, ' '), ' ') == ws
  {
    forall k | 0 <= k < |ws|
      ensures ' ' !in ws[k]
    {
      NoSpaceHasNoBlank(ws[k]);
    }
    SplitJoin(ws, ' ');
  }

  lemma NoSpaceHasNoBlank(w: string)
    requires NoSpace(w)
    ensures ' ' !in w
  {
  }

  /** `s.replace(/\s+/g, " ").trim()`, the normal form shared by `norm` and `text`. */
  function Squash(s: string): (r: string)
    ensures Squashed(r)
    ensures Ink(r) == Ink(s)
  {
    var c := Collapse(s);
    var r := Trim(c);
    SubstringKeepsSpacing(c, |c| - |TrimStart(c)|, |c| - |TrimStart(c)| + |r|);
    r
  }

  lemma SubstringKeepsSpacing(s: string, i: nat, j: nat)
    requires i <= j <= |s|
    requires OnlyPlainSpaces(s) && NoDoubleSpace(s)
    ensures OnlyPlainSpaces(s[i..j]) && NoDoubleSpace(s[i..j])
  {
    var t := s[i..j];
    forall k | 0 <= k < |t| - 1
      ensures !(t[k] == ' ' && t[k + 1] == ' ')
    {
      assert t[k] == s[i + k] && t[k + 1] == s[i + k + 1];
    }
  }

  lemma {:induction false} CollapseFixpoint(s: string)
    requires OnlyPlainSpaces(s) && NoDoubleSpace(s)
    ensures Collapse(s) == s
  {
    if s != [] {
      SubstringKeepsSpacing(s, 1, |s|);
      if IsSpace(s[0]) {
        assert TrimStart(s[1..]) == s[1..] by {
          if |s| > 1 {
            assert s[0] == ' ' && s[1] != ' ';
          }
        }
      }
      CollapseFixpoint(s[1..]);
    }
  }

  /** Squashing a string already in normal form changes nothing, and only
      such strings are left unchanged. */
  lemma SquashFixpoint(s: string)
    ensures Squash(s) == s <==> Squashed(s)
  {
    if Squashed(s) {
      CollapseFixpoint(s);
    }
  }

  /** `text(text(v)) == text(v)` at the string level. */
  lemma SquashIdempotent(s: string)
    ensures Squash(Squash(s)) == Squash(s)
  {
    SquashFixpoint(Squash(s));
  }

  /** Squashing keeps every non-whitespace character and only those. */
  lemma SquashMembers(s: string, c: char)
    ensures c in Squash(s) <==> (c == ' ' && c in Squash(s)) || (c in s && !IsSpace(c))
  {
    InkMembers(s, c);
    InkMembers(Squash(s), c);
  }

  /** Squashing is empty exactly for blank input. */
  lemma SquashEmpty(s: string)
    ensures Squash(s) == [] <==> Ink(s) == []
  {
    var r := Squash(s);
    if r != [] {
      assert !IsSpace(r[0]);
      InkMembers(r, r[0]);
    }
  }

  /** Squashing a word, a space and a normal-form text: the space goes when
      the text is empty and stays otherwise. */
  lemma SquashJoin(p: string, t: string)
    requires p != [] && Squashed(p) && Squashed(t)
    ensures Squash(p + " " + t) == if t == [] then p else p + " " + t
  {
    var s := p + " " + t;
    assert OnlyPlainSpaces(s) && NoDoubleSpace(s) by {
      forall i | 0 <= i < |s|
        ensures IsSpace(s[i]) ==> s[i] == ' '
        ensures i < |s| - 1 ==> !(s[i] == ' ' && s[i + 1] == ' ')
      {
        if i < |p| {
          assert s[i] == p[i];
          if i + 1 < |p| { assert s[i + 1] == p[i + 1]; }
        } else if i > |p| {
          assert s[i] == t[i - |p| - 1];
          if i + 1 < |s| { assert s[i + 1] == t[i - |p|]; }
        } else if i + 1 < |s| {
          assert s[i + 1] == t[0];
        }
      }
    }
    if t == [] {
      assert s == p + [' '];
      CollapseFixpoint(s);
      assert TrimStart(s) == s;
      assert s[..|s| - 1] == p;
      assert TrimEnd(s) == TrimEnd(p);
    } else {
      assert s[0] == p[0] && s[|s| - 1] == t[|t| - 1];
      SquashFixpoint(s);
    }
  }

  /** A non-space character in front of a normal-form text keeps it in normal form. */
  lemma PrependKeepsSquashed(c: char, t: string)
    requires !IsSpace(c)
    ensures Squashed(t) ==> Squashed([c] + t)
  {
    var s := [c] + t;
    forall i | 1 <= i < |s|
      ensures s[i] == t[i - 1]
    {
    }
  }

  predicate StartsWith(s: string, prefix: string) {
    |prefix| <= |s| && s[..|prefix|] == prefix
  }

  predicate EndsWith(s: string, suffix: string) {
    |suffix| <= |s| && s[|s| - |suffix|..] == suffix
  }

  /** Case folding of a non-unicode `/i` regular expression for the ASCII
      letters, the only ones the agent's patterns contain. */
  function FoldAscii(c: char): char {
    if 'A' <= c <= 'Z' then (c as int + 32) as char else c
  }

  /** `/^prefix/i.test(s)` */
  predicate StartsWithIgnoringCase(s: string, prefix: string) {
    |prefix| <= |s| && forall i :: 0 <= i < |prefix| ==> FoldAscii(s[i]) == FoldAscii(prefix[i])
  }

  /** `/pattern/i.test(s)` for a pattern without metacharacters. */
  predicate ContainsIgnoringCase(s: string, pattern: string) {
    exists i :: 0 <= i <= |s| - |pattern| && StartsWithIgnoringCase(s[i..], pattern)
  }

  lemma StartsWithAppend(p: string, x: string)
    ensures StartsWith(p + x, p)
  {
    assert (p + x)[..|p|] == p;
  }

  /** `s.slice(0, n)`. */
  function Take(s: string, n: nat): (r: string)
    ensures |r| == if |s| <= n then |s| else n
    ensures StartsWith(s, r)
    ensures |s| <= n ==> r == s
  {
    if |s| <= n then s else s[..n]
  }

  /** Index of the first occurrence of `c`. */
  function FirstIndex(s: string, c: char): (i: nat)
    requires c in s
    ensures i < |s| && s[i] == c && c !in s[..i]
  {
    if s[0] == c then 0
    else
      var j := FirstIndex(s[1..], c);
      assert s[..j + 1] == [s[0]] + s[1..][..j];
      j + 1
  }

  lemma SliceMembers(s: string, i: nat, j: nat)
    requires i <= j <= |s|
    ensures forall c :: c in s[i..j] ==> c in s
  {
    forall c | c in s[i..j]
      ensures c in s
    {
      var k :| 0 <= k < j - i && s[i..j][k] == c;
      assert s[i + k] == c;
    }
  }

  /** `s.split(sep)` for a one-character separator. */
  function Split(s: string, sep: char): (r: seq<string>)
    ensures |r| >= 1
    ensures forall k :: 0 <= k < |r| ==> sep !in r[k]
    ensures forall k, c :: 0 <= k < |r| && c in r[k] ==> c in s
    decreases |s|
  {
    if sep in s then
      var i := FirstIndex(s, sep);
      SliceMembers(s, 0, i);
      SliceMembers(s, i + 1, |s|);
      assert s[..i] == s[0..i];
      assert s[i + 1..] == s[i + 1..|s|];
      var tail := Split(s[i + 1..], sep);
      var r := [s[..i]] + tail;
      assert forall k :: 1 <= k < |r| ==> r[k] == tail[k - 1];
      r
    else
      [s]
  }

  /** `parts.join(sep)`. */
  function Join(parts: seq<string>, sep: char): string
  {
    if |parts| == 0 then ""
    else if |parts| == 1 then parts[0]
    else parts[0] + [sep] + Join(parts[1..], sep)
  }

  lemma {:induction false} JoinSplit(s: string, sep: char)
    ensures Join(Split(s, sep), sep) == s
    decreases |s|
  {
    if sep in s {
      var i := FirstIndex(s, sep);
      var rest := s[i + 1..];
      JoinSplit(rest, sep);
      assert Split(s, sep)[1..] == Split(rest, sep);
      assert s == s[..i] + [sep] + rest;
    }
  }

  lemma {:induction false} SplitJoin(parts: seq<string>, sep: char)
    requires |parts| >= 1
    requires forall k :: 0 <= k < |parts| ==> sep !in parts[k]
    ensures Split(Join(parts, sep), sep) == parts
  {
    if |parts| > 1 {
      var rest := Join(parts[1..], sep);
      assert Join(parts, sep) == parts[0] + [sep] + rest;
      SplitJoin(parts[1..], sep);
      SplitAtFirst(parts[0], rest, sep);
      assert parts == [parts[0]] + parts[1..];
    } else {
      assert Join(parts, sep) == parts[0];
    }
  }

  /** Splitting `a + sep + b` with `sep` absent from `a` yields `a` first. */
  lemma SplitAtFirst(a: string, b: string, sep: char)
    requires sep !in a
    ensures Split(a + [sep] + b, sep) == [a] + Split(b, sep)
  {
    var s := a + [sep] + b;
    assert s[|a|] == sep;
    var i := FirstIndex(s, sep);
    assert s[..|a|] == a;
    assert i == |a|;
    assert s[i + 1..] == b;
  }
}
