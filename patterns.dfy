/**
 The three fixed regular expressions of the policy engine, written out as
 hand-made matchers, together with the two `regexp` operations applied to them:
 `Split(s, 2)` for the section dividers and `ReplaceAllString(s, "")` for the
 markdown comments.

 Each divider matcher is checked against a reference description of the words
 its regular expression accepts (`IsDividerText`). Neither regular expression
 contains `^`, so the `(?m)` flag changes nothing: a divider is found anywhere
 in the text, not only at the start of a line.
 */
module Patterns {

  datatype Option<T> = None | Some(value: T)

  /** The two section dividers of the pull-request body. */
  datatype Divider =
    | TestPlanDivider   // (#+ Test [pP]lan)|(Test [pP]lan:)
    | NoReviewDivider   // [nN]o [rR]eview [rR]equired:

  /** A match of a divider: the half-open index range [start, end) of the text. */
  datatype Match = Match(start: nat, end: nat)

  /**
   A run of fixed length described one character class per position, as in
   `[nN]o`: each class lists the characters its position accepts.
   */
  predicate Fits(t: string, classes: seq<set<char>>) {
    |t| == |classes| && forall k :: 0 <= k < |t| ==> t[k] in classes[k]
  }

  /** `Test [pP]lan:`, the inline spelling of the test-plan divider. */
  const TestPlanLabel: seq<set<char>> :=
    [{'T'}, {'e'}, {'s'}, {'t'}, {' '}, {'p', 'P'}, {'l'}, {'a'}, {'n'}, {':'}]

  /** ` Test [pP]lan`, what follows the `#` run in the heading spelling. */
  const TestPlanHeadingTail: seq<set<char>> :=
    [{' '}, {'T'}, {'e'}, {'s'}, {'t'}, {' '}, {'p', 'P'}, {'l'}, {'a'}, {'n'}]

  /** `[nN]o [rR]eview [rR]equired:`. */
  const NoReviewRequired: seq<set<char>> :=
    [{'n', 'N'}, {'o'}, {' '}, {'r', 'R'}, {'e'}, {'v'}, {'i'}, {'e'}, {'w'}, {' '},
     {'r', 'R'}, {'e'}, {'q'}, {'u'}, {'i'}, {'r'}, {'e'}, {'d'}, {':'}]

  predicate AllHashes(t: string) {
    forall k :: 0 <= k < |t| ==> t[k] == '#'
  }

  /** The words a divider's regular expression accepts. */
  predicate IsDividerText(d: Divider, t: string) {
    match d
    case TestPlanDivider =>
      || Fits(t, TestPlanLabel)
      || (|t| > 10 && AllHashes(t[..|t| - 10]) && Fits(t[|t| - 10..], TestPlanHeadingTail))
    case NoReviewDivider =>
      Fits(t, NoReviewRequired)
  }

  /**
   End of the longest run of `c` that starts at `i`: the greedy `#+` of the
   heading divider and the greedy `(\n)*` after a comment.
   */
  function RunEnd(s: string, i: nat, c: char): (e: nat)
    requires i <= |s|
    ensures i <= e <= |s|
    ensures forall k :: i <= k < e ==> s[k] == c
    ensures e == |s| || s[e] != c
    decreases |s| - i
  {
    if i < |s| && s[i] == c then RunEnd(s, i + 1, c) else i
  }

  /**
   Matches `(#+ Test [pP]lan)|(Test [pP]lan:)` at position `i`, giving the end
   of the match. A `#` can only start the first alternative and a `T` only the
   second; the `#+` takes the whole run of `#`, as the next character must be a
   space.
   */
  function MatchTestPlanAt(s: string, i: nat): (r: Option<nat>)
    requires i <= |s|
    ensures r.Some? ==> i < r.value <= |s| && IsDividerText(TestPlanDivider, s[i..r.value])
  {
    if i < |s| && s[i] == '#' then
      var k := RunEnd(s, i, '#');
      if k + 10 <= |s| && Fits(s[k..k + 10], TestPlanHeadingTail) then
        var t := s[i..k + 10];
        assert t[..|t| - 10] == s[i..k];
        assert t[|t| - 10..] == s[k..k + 10];
        Some(k + 10)
      else None
    else if i + 10 <= |s| && Fits(s[i..i + 10], TestPlanLabel) then
      Some(i + 10)
    else None
  }

  /** Matches `[nN]o [rR]eview [rR]equired:` at position `i`, giving the end of the match. */
  function MatchNoReviewAt(s: string, i: nat): (r: Option<nat>)
    requires i <= |s|
    ensures r.Some? ==> i < r.value <= |s| && IsDividerText(NoReviewDivider, s[i..r.value])
  {
    if i + 19 <= |s| && Fits(s[i..i + 19], NoReviewRequired) then Some(i + 19) else None
  }

  function MatchAt(d: Divider, s: string, i: nat): (r: Option<nat>)
    requires i <= |s|
    ensures r.Some? ==> i < r.value <= |s| && IsDividerText(d, s[i..r.value])
  {
    match d
    case TestPlanDivider => MatchTestPlanAt(s, i)
    case NoReviewDivider => MatchNoReviewAt(s, i)
  }

  /**
   The matchers find every word their regular expression accepts, and the word
   found at a position is the only one that starts there.
   */
  lemma {:induction false} MatchAtComplete(d: Divider, s: string, i: nat, e: nat)
    requires i < e <= |s| && IsDividerText(d, s[i..e])
    ensures MatchAt(d, s, i) == Some(e)
  {
    var t := s[i..e];
    match d
    case TestPlanDivider =>
      if Fits(t, TestPlanLabel) {
        assert s[i] == t[0] == 'T';
      } else {
        var n := |t| - 10;
        assert s[i] == t[0] == '#';
        assert forall k :: i <= k < i + n ==> s[k] == t[..n][k - i];
        assert s[i + n] == t[|t| - 10..][0] == ' ';
        assert RunEnd(s, i, '#') == i + n;
        assert s[i + n..i + n + 10] == t[|t| - 10..];
      }
    case NoReviewDivider =>
  }

  /**
   The leftmost match of `d` that starts at or after `from`, as the regexp
   engine reports it.
   */
  function FindFrom(d: Divider, s: string, from: nat): (m: Option<Match>)
    requires from <= |s|
    ensures m.Some? ==> from <= m.value.start < m.value.end <= |s|
                        && MatchAt(d, s, m.value.start) == Some(m.value.end)
    ensures m.Some? ==> forall k :: from <= k < m.value.start ==> MatchAt(d, s, k).None?
    ensures m.None? ==> forall k :: from <= k <= |s| ==> MatchAt(d, s, k).None?
    decreases |s| - from
  {
    match MatchAt(d, s, from)
    case Some(e) => Some(Match(from, e))
    case None => if from == |s| then None else FindFrom(d, s, from + 1)
  }

  /**
   `Regexp.Split(s, 2)` for a divider: the text before and the text after the
   leftmost divider, or the whole text when there is none. The two pieces with
   the divider between them give back `s`, the first piece holds no divider, and
   a single piece means `s` holds no divider at all.
   */
  function SplitOnce(d: Divider, s: string): (parts: seq<string>)
    ensures 1 <= |parts| <= 2
    ensures |parts| == 1 ==> parts[0] == s
    ensures |parts| == 2 ==>
      && |parts[0]| + |parts[1]| < |s|
      && s == parts[0] + s[|parts[0]|..|s| - |parts[1]|] + parts[1]
  {
    match FindFrom(d, s, 0)
    case None => [s]
    case Some(m) =>
      ThreePieces(s, m.start, m.end);
      [s[..m.start], s[m.end..]]
  }

  /**
   What the split finds: one piece exactly when `s` holds no divider, and
   otherwise the pieces around the leftmost divider.
   */
  lemma {:induction false} SplitOnceSpec(d: Divider, s: string)
    ensures var parts := SplitOnce(d, s);
            && (|parts| == 1 <==> NoDivider(d, s))
            && (|parts| == 2 ==> FirstDividerAt(d, s, |parts[0]|, |s| - |parts[1]|))
  {
    match FindFrom(d, s, 0)
    case None =>
      NotFoundNoDivider(d, s);
    case Some(m) =>
      FoundSplits(d, s, m);
      assert !NoDivider(d, s) by {
        assert IsDividerText(d, s[m.start..m.end]);
      }
  }

  lemma {:induction false} NotFoundNoDivider(d: Divider, s: string)
    requires FindFrom(d, s, 0).None?
    ensures forall k, e :: 0 <= k < e <= |s| ==> !IsDividerText(d, s[k..e])
  {
    FindFromLeftmost(d, s);
  }

  lemma {:induction false} FoundSplits(d: Divider, s: string, m: Match)
    requires FindFrom(d, s, 0) == Some(m)
    ensures m.start < m.end <= |s|
    ensures s == s[..m.start] + s[m.start..m.end] + s[m.end..]
    ensures IsDividerText(d, s[m.start..m.end])
    ensures forall k, e :: 0 <= k < m.start && k < e <= |s| ==> !IsDividerText(d, s[k..e])
  {
    NoDividerBeforeFound(d, s, m);
    ThreePieces(s, m.start, m.end);
  }

  lemma {:induction false} NoDividerBeforeFound(d: Divider, s: string, m: Match)
    requires FindFrom(d, s, 0) == Some(m)
    ensures forall k, e :: 0 <= k < m.start && k < e <= |s| ==> !IsDividerText(d, s[k..e])
  {
    FindFromLeftmost(d, s);
  }

  lemma {:induction false} ThreePieces(s: string, i: nat, j: nat)
    requires i <= j <= |s|
    ensures s == s[..i] + s[i..j] + s[j..]
  {
  }

  /** The search from the start finds a divider at or before every divider of `s`. */
  lemma {:induction false} FindFromLeftmost(d: Divider, s: string)
    ensures forall k, e :: 0 <= k < e <= |s| && IsDividerText(d, s[k..e]) ==>
              FindFrom(d, s, 0).Some? && FindFrom(d, s, 0).value.start <= k
  {
    var found := FindFrom(d, s, 0);
    forall k, e | 0 <= k < e <= |s| && IsDividerText(d, s[k..e])
      ensures found.Some? && found.value.start <= k
    {
      MatchAtComplete(d, s, k, e);
    }
  }

  /** `s` holds no divider of kind `d` anywhere. */
  predicate NoDivider(d: Divider, s: string) {
    forall k, e :: 0 <= k < e <= |s| ==> !IsDividerText(d, s[k..e])
  }

  /** The divider `s[k..e]` is the leftmost one in `s`. */
  predicate FirstDividerAt(d: Divider, s: string, k: nat, e: nat) {
    && k < e <= |s|
    && IsDividerText(d, s[k..e])
    && forall k', e' :: 0 <= k' < k && k' < e' <= |s| ==> !IsDividerText(d, s[k'..e'])
  }

  /** At most one divider starts at a given position. */
  lemma {:induction false} DividerEndUnique(d: Divider, s: string, k: nat, e1: nat, e2: nat)
    requires k < e1 <= |s| && IsDividerText(d, s[k..e1])
    requires k < e2 <= |s| && IsDividerText(d, s[k..e2])
    ensures e1 == e2
  {
    MatchAtComplete(d, s, k, e1);
    MatchAtComplete(d, s, k, e2);
  }

  /** A text with a divider splits around its leftmost one. */
  lemma {:induction false} SplitOnceAtFirst(d: Divider, s: string, k: nat, e: nat)
    requires FirstDividerAt(d, s, k, e)
    ensures SplitOnce(d, s) == [s[..k], s[e..]]
  {
    var parts := SplitOnce(d, s);
    SplitOnceSpec(d, s);
    assert |parts| == 2 by {
      assert !NoDivider(d, s) by {
        assert IsDividerText(d, s[k..e]);
      }
    }
    var k0, e0 := |parts[0]|, |s| - |parts[1]|;
    assert IsDividerText(d, s[k0..e0]);
    assert k0 == k;
    DividerEndUnique(d, s, k, e, e0);
    assert parts[0] == s[..k];
    assert parts[1] == s[e..];
  }

  /** A text without a divider is not split. */
  lemma {:induction false} SplitOnceWithout(d: Divider, s: string)
    requires NoDivider(d, s)
    ensures SplitOnce(d, s) == [s]
  {
    SplitOnceSpec(d, s);
  }

  /**
   Every no-review divider ends with a colon 18 characters after its start, so
   a text with no colon from its 19th character on holds none.
   */
  lemma {:induction false} NoLateColonNoReviewDivider(s: string)
    requires forall j :: 18 <= j < |s| ==> s[j] != ':'
    ensures NoDivider(NoReviewDivider, s)
  {
    forall k, e | 0 <= k < e <= |s| ensures !IsDividerText(NoReviewDivider, s[k..e]) {
      if e - k == 19 {
        assert s[k..e][18] == s[k + 18];
      }
    }
  }

  /** A text without a colon holds no no-review divider. */
  lemma {:induction false} NoColonNoReviewDivider(s: string)
    requires ':' !in s
    ensures NoDivider(NoReviewDivider, s)
  {
    ColonFree(s);
    NoLateColonNoReviewDivider(s);
  }

  /** A text without a colon has none from its 19th character on. */
  lemma {:induction false} ColonFree(a: string)
    requires ':' !in a
    ensures forall j :: 18 <= j < |a| ==> a[j] != ':'
  {
    forall j | 18 <= j < |a| ensures a[j] != ':' {
      assert a[j] in a;
    }
  }

  /** A test-plan divider starts with `#` or `T`. */
  lemma {:induction false} TestPlanDividerStart(t: string)
    requires IsDividerText(TestPlanDivider, t)
    ensures |t| >= 10 && (t[0] == '#' || t[0] == 'T')
  {
    if !Fits(t, TestPlanLabel) {
      assert t[..|t| - 10][0] == '#';
    }
  }

  /**
   A test-plan divider placed after a text without `#` and `T` is the leftmost
   one.
   */
  lemma {:induction false} TestPlanDividerAfter(a: string, h: string, b: string)
    requires '#' !in a && 'T' !in a
    requires IsDividerText(TestPlanDivider, h)
    ensures FirstDividerAt(TestPlanDivider, a + h + b, |a|, |a| + |h|)
  {
    var s := a + h + b;
    TestPlanDividerStart(h);
    assert s[|a|..|a| + |h|] == h;
    forall k, e | 0 <= k < |a| && k < e <= |s| ensures !IsDividerText(TestPlanDivider, s[k..e]) {
      assert s[k..e][0] == a[k];
      assert a[k] in a;
      if IsDividerText(TestPlanDivider, s[k..e]) {
        TestPlanDividerStart(s[k..e]);
      }
    }
  }

  /** Both spellings of the test-plan divider hold a capital `T`. */
  lemma {:induction false} NoCapitalTNoTestPlanDivider(s: string)
    requires 'T' !in s
    ensures NoDivider(TestPlanDivider, s)
  {
    forall k, e | 0 <= k < e <= |s| ensures !IsDividerText(TestPlanDivider, s[k..e]) {
      var t := s[k..e];
      if |t| == 10 {
        assert s[k] in s;
        assert t[0] == s[k];
      }
      if |t| > 10 {
        assert s[e - 9] in s;
        assert t[|t| - 10..][1] == s[e - 9];
      }
    }
  }

  /**
   A no-review divider placed after `a` is the leftmost one when `a` holds no
   colon from its 19th character on: the colon that closes a divider stands 18
   characters after its start, and the divider's own first 18 characters hold
   none.
   */
  lemma {:induction false} NoReviewDividerAfter(a: string, d: string, b: string)
    requires forall j :: 18 <= j < |a| ==> a[j] != ':'
    requires IsDividerText(NoReviewDivider, d)
    ensures FirstDividerAt(NoReviewDivider, a + d + b, |a|, |a| + |d|)
  {
    var s := a + d + b;
    assert s[|a|..|a| + |d|] == d;
    forall k, e | 0 <= k < |a| && k < e <= |s| ensures !IsDividerText(NoReviewDivider, s[k..e]) {
      if e - k == 19 {
        var j := k + 18;
        assert s[k..e][18] == s[j];
        if j < |a| {
          assert s[j] == a[j];
        } else {
          NoColonInsideNoReviewDivider(d, j - |a|);
          assert s[j] == d[j - |a|];
        }
      }
    }
  }

  lemma {:induction false} NoColonInsideNoReviewDivider(d: string, i: nat)
    requires IsDividerText(NoReviewDivider, d) && i < 18
    ensures d[i] != ':'
  {
    assert d[i] in NoReviewRequired[i];
  }

  /** An HTML comment opener `<!--` starts at `k`. */
  predicate OpenerAt(s: string, k: nat) {
    k + 4 <= |s| && s[k] == '<' && s[k + 1] == '!' && s[k + 2] == '-' && s[k + 3] == '-'
  }

  /** An HTML comment closer `-->` starts at `k`. */
  predicate CloserAt(s: string, k: nat) {
    k + 3 <= |s| && s[k] == '-' && s[k + 1] == '-' && s[k + 2] == '>'
  }

  predicate HasOpener(s: string) {
    exists k :: 0 <= k < |s| && OpenerAt(s, k)
  }

  predicate HasCloser(s: string) {
    exists k :: 0 <= k < |s| && CloserAt(s, k)
  }

  /** Every opener starts with `<`. */
  lemma {:induction false} NoAngleNoOpener(s: string)
    requires '<' !in s
    ensures !HasOpener(s)
  {
    forall k | 0 <= k < |s| ensures !OpenerAt(s, k) {
      assert s[k] in s;
    }
  }

  /** The leftmost closer starting at or after `from`: the non-greedy `(.|\n)*?-->`. */
  function FindCloser(s: string, from: nat): (r: Option<nat>)
    requires from <= |s|
    ensures r.Some? ==> from <= r.value && CloserAt(s, r.value)
    ensures r.Some? ==> forall k :: from <= k < r.value ==> !CloserAt(s, k)
    ensures r.None? ==> forall k :: from <= k <= |s| ==> !CloserAt(s, k)
    decreases |s| - from
  {
    if CloserAt(s, from) then Some(from)
    else if from == |s| then None
    else FindCloser(s, from + 1)
  }

  /**
   `ReplaceAllString(s, "")` with the comment expression `<!--((.|\n)*?)-->(\n)*`:
   scanning left to right, each opener that has a closer after it is deleted
   together with everything up to the first such closer and the newlines right
   after it, and the scan goes on after the deleted text. An opener with no
   closer after it ends the scan, since no later opener can have one either.
   Only deletes, and leaves a text without openers untouched.
   */
  function RemoveComments(s: string): (r: string)
    ensures |r| <= |s|
    decreases |s|
  {
    if s == [] then []
    else if OpenerAt(s, 0) then
      match FindCloser(s, 4)
      case None => s
      case Some(j) => RemoveComments(s[RunEnd(s, j + 3, '\n')..])
    else [s[0]] + RemoveComments(s[1..])
  }

  /** A text without any opener is left untouched. */
  lemma {:induction false} RemoveCommentsNoOpener(s: string)
    requires !HasOpener(s)
    ensures RemoveComments(s) == s
  {
    assert s + [] == s;
    RemoveCommentsPrefix(s, []);
  }


  /**
   Text in which no opener starts is copied through unchanged, and removal goes
   on in what follows it.
   */
  lemma {:induction false} RemoveCommentsPrefix(a: string, b: string)
    requires forall k :: 0 <= k < |a| ==> !OpenerAt(a + b, k)
    ensures RemoveComments(a + b) == a + RemoveComments(b)
    decreases |a|
  {
    if a == [] {
      assert a + b == b;
    } else {
      var s := a + b;
      assert !OpenerAt(s, 0);
      NoOpenerInTail(a, b);
      RemoveCommentsPrefix(a[1..], b);
      RemoveCommentsStep(s);
      var rb := RemoveComments(b);
      assert RemoveComments(s) == [a[0]] + (a[1..] + rb);
      assert [a[0]] + (a[1..] + rb) == a + rb;
    }
  }

  lemma {:induction false} NoOpenerInTail(a: string, b: string)
    requires a != []
    requires forall k :: 0 <= k < |a| ==> !OpenerAt(a + b, k)
    ensures (a + b)[1..] == a[1..] + b
    ensures forall k :: 0 <= k < |a[1..]| ==> !OpenerAt(a[1..] + b, k)
  {
    var s := a + b;
    assert s[1..] == a[1..] + b;
    forall k | 0 <= k < |a[1..]| ensures !OpenerAt(s[1..], k) {
      assert !OpenerAt(s, k + 1);
      OpenerShift(s, k);
    }
  }

  /** A character that does not start an opener is copied through. */
  lemma {:induction false} RemoveCommentsStep(s: string)
    requires s != [] && !OpenerAt(s, 0)
    ensures RemoveComments(s) == [s[0]] + RemoveComments(s[1..])
  {
  }

  lemma {:induction false} OpenerShift(s: string, k: nat)
    requires s != []
    ensures OpenerAt(s[1..], k) <==> OpenerAt(s, k + 1)
  {
  }

  /** Without any closer, nothing is removed, whatever openers the text holds. */
  lemma {:induction false} RemoveCommentsUnclosed(s: string)
    requires !HasCloser(s)
    ensures RemoveComments(s) == s
    decreases |s|
  {
    if s != [] && !OpenerAt(s, 0) {
      assert !HasCloser(s[1..]) by {
        forall k | 0 <= k < |s[1..]| ensures !CloserAt(s[1..], k) {
          assert !CloserAt(s, k + 1);
          if k + 3 <= |s[1..]| {
            assert s[1..][k..k + 3] == s[k + 1..k + 4];
          }
        }
      }
      RemoveCommentsUnclosed(s[1..]);
      RemoveCommentsStep(s);
    }
  }

  /**
   An opener counts only with a closer that starts at least four characters
   after it (`<!-->` and `<!--->` do not close themselves): when no opener has
   such a closer, nothing is removed.
   */
  lemma {:induction false} RemoveCommentsNoClosedComment(s: string)
    requires forall k, j :: 0 <= k && k + 4 <= j && OpenerAt(s, k) ==> !CloserAt(s, j)
    ensures RemoveComments(s) == s
    decreases |s|
  {
    if s != [] {
      if OpenerAt(s, 0) {
        assert FindCloser(s, 4).None?;
      } else {
        var t := s[1..];
        forall k, j | 0 <= k && k + 4 <= j && OpenerAt(t, k) ensures !CloserAt(t, j) {
          OpenerShift(s, k);
          assert !CloserAt(s, j + 1);
          if j + 3 <= |t| {
            assert t[j..j + 3] == s[j + 1..j + 4];
          }
        }
        RemoveCommentsNoClosedComment(t);
        RemoveCommentsStep(s);
      }
    }
  }

  /**
   One comment: the text before it is kept, the comment from `<!--` through the
   first `-->` and the newlines right after it are deleted, and removal goes on
   in the rest. `c` holds no closer, not even one that runs into the final `-->`.
   */
  lemma {:induction false} RemoveCommentsOne(a: string, c: string, nl: string, b: string)
    requires !HasOpener(a)
    requires !HasCloser(c + "--")
    requires forall k :: 0 <= k < |nl| ==> nl[k] == '\n'
    requires b == [] || b[0] != '\n'
    ensures RemoveComments(a + "<!--" + c + "-->" + nl + b) == a + RemoveComments(b)
  {
    var rest := "<!--" + c + "-->" + nl + b;
    assert a + rest == a + "<!--" + c + "-->" + nl + b;
    NoOpenerBeforeOpener(a, rest);
    RemoveCommentsPrefix(a, rest);
    RemoveCommentAtStart(c, nl, b);
  }

  /** An opener cannot straddle into text that itself starts with `<!--`. */
  lemma {:induction false} NoOpenerBeforeOpener(a: string, rest: string)
    requires !HasOpener(a)
    requires OpenerAt(rest, 0)
    ensures forall k :: 0 <= k < |a| ==> !OpenerAt(a + rest, k)
  {
    var s := a + rest;
    forall k | 0 <= k < |a| ensures !OpenerAt(s, k) {
      if k + 4 <= |a| {
        assert !OpenerAt(a, k);
        assert s[k..k + 4] == a[k..k + 4];
      } else {
        assert s[|a|] == rest[0] == '<';
        assert s[k..k + 4][|a| - k] == s[|a|];
      }
    }
  }

  lemma {:induction false} RemoveCommentAtStart(c: string, nl: string, b: string)
    requires !HasCloser(c + "--")
    requires forall k :: 0 <= k < |nl| ==> nl[k] == '\n'
    requires b == [] || b[0] != '\n'
    ensures RemoveComments("<!--" + c + "-->" + nl + b) == RemoveComments(b)
  {
    var head := "<!--" + c + "-->";
    var tail := nl + b;
    var s := head + tail;
    assert s == "<!--" + c + "-->" + nl + b;
    var j := 4 + |c|;
    var e := j + 3 + |nl|;
    assert OpenerAt(s, 0) by {
      assert s[0] == head[0] && s[1] == head[1] && s[2] == head[2] && s[3] == head[3];
    }
    assert CloserAt(s, j) by {
      assert s[j] == head[j] && s[j + 1] == head[j + 1] && s[j + 2] == head[j + 2];
    }
    forall k | 4 <= k < j ensures !CloserAt(s, k) {
      var w := c + "--";
      assert !CloserAt(w, k - 4);
      assert s[k] == w[k - 4] && s[k + 1] == w[k - 3] && s[k + 2] == w[k - 2];
    }
    forall k | j + 3 <= k < e ensures s[k] == '\n' {
      assert s[k] == tail[k - j - 3] == nl[k - j - 3];
    }
    assert s[|head|..] == tail;
    assert s[e..] == tail[|nl|..] == b;
    RemoveLeadingComment(s, j, e);
  }

  /**
   The comment that starts a text: `s` opens with `<!--`, its first closer
   after the opener starts at `j`, and newlines run from the closer's end to `e`.
   */
  lemma {:induction false} RemoveLeadingComment(s: string, j: nat, e: nat)
    requires OpenerAt(s, 0) && 4 <= j && CloserAt(s, j)
    requires forall k :: 4 <= k < j ==> !CloserAt(s, k)
    requires j + 3 <= e <= |s|
    requires forall k :: j + 3 <= k < e ==> s[k] == '\n'
    requires e == |s| || s[e] != '\n'
    ensures RemoveComments(s) == RemoveComments(s[e..])
  {
    var f := FindCloser(s, 4);
    assert f == Some(j);
    var n := RunEnd(s, j + 3, '\n');
    assert n == e;
  }
}
