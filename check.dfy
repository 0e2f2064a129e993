/**
 The pull-request policy engine: from a pull-request payload and the audit
 options it decides whether the test plan is documented, whether the change was
 reviewed (or needs no review), and whether it targets the protected branch, and
 combines the three into one merge verdict.

 The approval lookup that the engine falls back on is an injected capability,
 modelled as a function value from the payload to a boolean.
 */
module Check {
  import opened GoStrings
  import opened Patterns

  /** The fields of the webhook payload that the engine reads. */
  datatype UserPayload = UserPayload(login: string)
  datatype RefPayload = RefPayload(ref: string)
  datatype Label = Label(name: string)
  datatype PullRequestPayload = PullRequestPayload(
    body: string,
    user: UserPayload,
    reviewComments: int,
    labels: seq<Label>,
    base: RefPayload)
  datatype EventPayload = EventPayload(pullRequest: PullRequestPayload)

  /**
   `ApprovalChecker.IsApproved`: whether an approving review exists, as an
   outside system reports it.
   */
  type ApprovalChecker = EventPayload -> bool

  datatype CheckOpts = CheckOpts(
    skipReviews: bool,
    skipReviewForUsers: string,   // comma-separated logins
    skipTestPlan: bool,
    protectedBranch: string)      // "" when no branch is protected

  datatype CheckResult = CheckResult(
    reviewSatisfied: bool,
    canSkipTestPlan: bool,
    testPlan: string,
    protectedBranch: bool)
  {
    /** Mergeable: test plan satisfied, review satisfied, not a protected-branch merge. */
    predicate IsSatisfied() {
      IsTestPlanSatisfied() && reviewSatisfied && !protectedBranch
    }

    predicate IsTestPlanSatisfied() {
      canSkipTestPlan || testPlan != ""
    }
  }

  /** Labels that exempt a pull request from review. */
  const NoReviewNeededLabels: seq<string> := ["no-review-required", "automerge"]

  /**
   `cleanMarkdown`: removes the HTML comments, then the surrounding white space.
   The result never starts or ends with white space.
   */
  function CleanMarkdown(s: string): (r: string)
    ensures |r| <= |s|
    ensures r == [] || (!IsSpace(r[0]) && !IsSpace(r[|r| - 1]))
  {
    TrimSpace(RemoveComments(s))
  }

  /** On text without a comment opener, cleaning is just trimming. */
  lemma {:induction false} CleanMarkdownWithoutComments(s: string)
    requires !HasOpener(s)
    ensures CleanMarkdown(s) == TrimSpace(s)
  {
    RemoveCommentsNoOpener(s);
  }

  /** Once the cleaned text holds no opener, cleaning it again changes nothing. */
  lemma {:induction false} CleanMarkdownStable(s: string)
    requires !HasOpener(CleanMarkdown(s))
    ensures CleanMarkdown(CleanMarkdown(s)) == CleanMarkdown(s)
  {
    var t := CleanMarkdown(s);
    RemoveCommentsNoOpener(t);
    TrimSpaceOfTrimmed(t);
  }

  /**
   Cleaning is not idempotent: deleting a comment can join the pieces around
   it into a new comment, which only a second pass removes.
   */
  lemma {:induction false} CleanMarkdownNotIdempotent(x: string)
    requires x == "<!<!--a-->-- b -->"
    ensures CleanMarkdown(x) == "<!-- b -->"
    ensures CleanMarkdown(CleanMarkdown(x)) == ""
  {
    var y := "<!" + "-- b -->";
    assert y == "<!-- b -->";
    RemoveFirstComment();
    RemoveCommentsNoOpenerTail();
    assert RemoveComments(x) == y;
    TrimSpaceOfTrimmed(y);
    CleanMarkdownOfComment(y);
  }

  lemma {:induction false} RemoveFirstComment()
    ensures RemoveComments("<!<!--a-->-- b -->") == "<!" + RemoveComments("-- b -->")
  {
    var a, c, b := "<!", "a", "-- b -->";
    assert a + "<!--" + c + "-->" + [] + b == "<!<!--a-->-- b -->";
    assert !HasOpener(a) by {
      assert !OpenerAt(a, 0) && !OpenerAt(a, 1);
    }
    assert !HasCloser(c + "--") by {
      var w := c + "--";
      assert !CloserAt(w, 0) && !CloserAt(w, 1) && !CloserAt(w, 2);
    }
    RemoveCommentsOne(a, c, [], b);
  }

  lemma {:induction false} RemoveCommentsNoOpenerTail()
    ensures RemoveComments("-- b -->") == "-- b -->"
  {
    var b := "-- b -->";
    assert !HasOpener(b) by {
      forall k | 0 <= k < |b| ensures !OpenerAt(b, k) {
        assert b[k] != '<';
      }
    }
    RemoveCommentsNoOpener(b);
  }

  lemma {:induction false} CleanMarkdownOfComment(y: string)
    requires y == "<!-- b -->"
    ensures CleanMarkdown(y) == ""
  {
    var c := " b ";
    assert !HasCloser(c + "--") by {
      var w := c + "--";
      forall k | 0 <= k < |w| ensures !CloserAt(w, k) {
        assert w[k] != '>';
      }
    }
    assert [] + "<!--" + c + "-->" + [] + [] == y;
    RemoveCommentsOne([], c, [], []);
    TrimSpaceOfTrimmed([]);
  }

  /**
   Text without `<` loses only its surrounding white space: cleaning keeps
   exactly the part between the leading and the trailing white space.
   */
  lemma {:induction false} CleanMarkdownPlain(front: string, t: string, back: string)
    requires '<' !in front + t + back
    requires forall k :: 0 <= k < |front| ==> IsSpace(front[k])
    requires forall k :: 0 <= k < |back| ==> IsSpace(back[k])
    requires t == [] || (!IsSpace(t[0]) && !IsSpace(t[|t| - 1]))
    ensures CleanMarkdown(front + t + back) == t
  {
    NoAngleNoOpener(front + t + back);
    RemoveCommentsNoOpener(front + t + back);
    TrimSpaceBetween(front, t, back);
  }

  /** `isProtectedBranch`: only a non-empty protected branch can match the base branch. */
  function IsProtectedBranch(payload: EventPayload, protectedBranch: string): (b: bool)
    ensures protectedBranch == "" ==> !b
    ensures protectedBranch != "" ==> (b <==> payload.pullRequest.base.ref == protectedBranch)
  {
    protectedBranch != "" && payload.pullRequest.base.ref == protectedBranch
  }

  /** The author is one of the comma-separated logins of a non-empty exemption list. */
  predicate AuthorSkipsReview(opts: CheckOpts, login: string) {
    opts.skipReviewForUsers != "" && login in Split(opts.skipReviewForUsers, ',')
  }

  /**
   The body holds a no-review divider, and what follows the first one is not
   empty once cleaned.
   */
  predicate HasNoReviewExplanation(body: string) {
    var sections := SplitOnce(NoReviewDivider, body);
    |sections| > 1 && |CleanMarkdown(sections[1])| > 0
  }

  /** The label loop: some label is one of the exempting labels. */
  function HasNoReviewLabel(labels: seq<Label>): (b: bool)
    ensures b <==> exists i :: 0 <= i < |labels| && labels[i].name in NoReviewNeededLabels
  {
    if labels == [] then false
    else if labels[0].name in NoReviewNeededLabels then true
    else
      var b := HasNoReviewLabel(labels[1..]);
      assert forall i :: 1 <= i < |labels| ==> labels[i] == labels[1..][i - 1];
      b
  }

  /** A label outside the exempting ones changes nothing. */
  lemma {:induction false} OtherLabelIgnored(labels: seq<Label>, l: Label)
    requires l.name !in NoReviewNeededLabels
    ensures HasNoReviewLabel(labels + [l]) == HasNoReviewLabel(labels)
  {
    var ls := labels + [l];
    if HasNoReviewLabel(ls) {
      var i :| 0 <= i < |ls| && ls[i].name in NoReviewNeededLabels;
      assert i != |labels|;
      assert labels[i] == ls[i];
    }
    if HasNoReviewLabel(labels) {
      var i :| 0 <= i < |labels| && labels[i].name in NoReviewNeededLabels;
      assert ls[i] == labels[i];
    }
  }

  /** The five ways review is satisfied without asking the approval checker. */
  predicate ReviewExempt(payload: EventPayload, opts: CheckOpts) {
    var pr := payload.pullRequest;
    || opts.skipReviews
    || AuthorSkipsReview(opts, pr.user.login)
    || pr.reviewComments > 0
    || HasNoReviewExplanation(pr.body)
    || HasNoReviewLabel(pr.labels)
  }

  /**
   `isReviewSatisfied`: the first of six checks that holds decides, and the
   approval checker is asked only when none of the other five holds.
   */
  function IsReviewSatisfied(payload: EventPayload, opts: CheckOpts, checker: ApprovalChecker): (r: bool)
    ensures ReviewExempt(payload, opts) ==> r
    ensures !ReviewExempt(payload, opts) ==> r == checker(payload)
  {
    var pr := payload.pullRequest;
    if opts.skipReviews then true
    else if AuthorSkipsReview(opts, pr.user.login) then true
    else if pr.reviewComments > 0 then true
    else if HasNoReviewExplanation(pr.body) then true
    else if HasNoReviewLabel(pr.labels) then true
    else checker(payload)
  }

  /** When an exemption holds, the verdict is the same whatever the checker answers. */
  lemma {:induction false} VerdictIgnoresChecker(payload: EventPayload, opts: CheckOpts, c1: ApprovalChecker, c2: ApprovalChecker)
    requires ReviewExempt(payload, opts)
    ensures IsReviewSatisfied(payload, opts, c1) && IsReviewSatisfied(payload, opts, c2)
  {
  }

  /**
   An author listed in the exemption list needs no review: the list is the
   comma-joined logins, and the author equals one of them exactly.
   */
  lemma {:induction false} ListedAuthorSkipsReview(payload: EventPayload, opts: CheckOpts, checker: ApprovalChecker, logins: seq<string>)
    requires |logins| >= 1 && forall l :: l in logins ==> ',' !in l
    requires opts.skipReviewForUsers == Join(logins, ',') != ""
    requires payload.pullRequest.user.login in logins
    ensures IsReviewSatisfied(payload, opts, checker)
  {
    SplitJoin(logins, ',');
  }

  /**
   An explanation after the first no-review divider, non-empty once cleaned,
   exempts from review, wherever in the body the divider stands.
   */
  lemma {:induction false} ExplanationSkipsReview(payload: EventPayload, opts: CheckOpts, checker: ApprovalChecker, k: nat, e: nat)
    requires FirstDividerAt(NoReviewDivider, payload.pullRequest.body, k, e)
    requires CleanMarkdown(payload.pullRequest.body[e..]) != ""
    ensures IsReviewSatisfied(payload, opts, checker)
  {
    SplitOnceAtFirst(NoReviewDivider, payload.pullRequest.body, k, e);
  }

  /** An explanation that cleans to nothing does not count. */
  lemma {:induction false} EmptyExplanationFallsThrough(body: string, k: nat, e: nat)
    requires FirstDividerAt(NoReviewDivider, body, k, e)
    requires CleanMarkdown(body[e..]) == ""
    ensures !HasNoReviewExplanation(body)
  {
    SplitOnceAtFirst(NoReviewDivider, body, k, e);
  }

  /**
   An author not in the exemption list falls through to the later checks: the
   verdict is the one given without any exemption list.
   */
  lemma {:induction false} UnlistedAuthorFallsThrough(payload: EventPayload, opts: CheckOpts, checker: ApprovalChecker)
    requires opts.skipReviewForUsers == "" || payload.pullRequest.user.login !in Split(opts.skipReviewForUsers, ',')
    ensures IsReviewSatisfied(payload, opts, checker) == IsReviewSatisfied(payload, opts.(skipReviewForUsers := ""), checker)
  {
  }

  /**
   Adding a label outside the exempting ones never creates or removes an
   exemption (the approval checker still sees the new payload).
   */
  lemma {:induction false} OtherLabelNoEffect(payload: EventPayload, opts: CheckOpts, l: Label)
    requires l.name !in NoReviewNeededLabels
    ensures var pr := payload.pullRequest;
            ReviewExempt(EventPayload(pr.(labels := pr.labels + [l])), opts) == ReviewExempt(payload, opts)
  {
    OtherLabelIgnored(payload.pullRequest.labels, l);
  }

  /**
   With no exemption at all, the verdict is the checker's: no options, an author
   not in the list, no review comments, no non-empty explanation after a
   no-review divider (there may be a divider whose explanation cleans to
   nothing) and no exempting label.
   */
  lemma {:induction false} CheckerDecidesOtherwise(payload: EventPayload, opts: CheckOpts, checker: ApprovalChecker)
    requires !opts.skipReviews
    requires opts.skipReviewForUsers == "" || payload.pullRequest.user.login !in Split(opts.skipReviewForUsers, ',')
    requires payload.pullRequest.reviewComments <= 0
    requires !HasNoReviewExplanation(payload.pullRequest.body)
    requires !HasNoReviewLabel(payload.pullRequest.labels)
    ensures IsReviewSatisfied(payload, opts, checker) == checker(payload)
  {
  }

  /** A body without a no-review divider holds no explanation. */
  lemma {:induction false} NoDividerNoExplanation(body: string)
    requires NoDivider(NoReviewDivider, body)
    ensures !HasNoReviewExplanation(body)
  {
    SplitOnceWithout(NoReviewDivider, body);
  }

  /**
   `checkPR`: review is evaluated first; the test plan is what follows the
   leftmost test-plan divider, cleaned; the protected branch is looked at only
   when there is such a divider.
   */
  function CheckPR(payload: EventPayload, opts: CheckOpts, checker: ApprovalChecker): (r: CheckResult)
    ensures r.reviewSatisfied == IsReviewSatisfied(payload, opts, checker)
    ensures r.canSkipTestPlan == opts.skipTestPlan
    ensures r.testPlan == [] || (!IsSpace(r.testPlan[0]) && !IsSpace(r.testPlan[|r.testPlan| - 1]))
    ensures |r.testPlan| <= |payload.pullRequest.body|
    ensures r.protectedBranch ==> payload.pullRequest.base.ref == opts.protectedBranch != ""
  {
    var pr := payload.pullRequest;
    var reviewed := IsReviewSatisfied(payload, opts, checker);
    var sections := SplitOnce(TestPlanDivider, pr.body);
    if |sections| < 2 then
      CheckResult(reviewed, opts.skipTestPlan, "", false)
    else
      var mergeAgainstProtected := IsProtectedBranch(payload, opts.protectedBranch);
      CheckResult(reviewed, opts.skipTestPlan, CleanMarkdown(sections[1]), mergeAgainstProtected)
  }

  /**
   Without a test-plan divider there is no test plan, and the protected branch
   is not looked at, even when the base branch is the protected one.
   */
  lemma {:induction false} NoTestPlanWithoutDivider(payload: EventPayload, opts: CheckOpts, checker: ApprovalChecker)
    requires NoDivider(TestPlanDivider, payload.pullRequest.body)
    ensures CheckPR(payload, opts, checker).testPlan == ""
    ensures !CheckPR(payload, opts, checker).protectedBranch
  {
    SplitOnceWithout(TestPlanDivider, payload.pullRequest.body);
  }

  /**
   With a test-plan divider, the test plan is everything after the leftmost
   one, cleaned (text before it is dropped), and the protected-branch flag is
   the base-branch comparison.
   */
  lemma {:induction false} TestPlanAfterFirstDivider(payload: EventPayload, opts: CheckOpts, checker: ApprovalChecker, k: nat, e: nat)
    requires FirstDividerAt(TestPlanDivider, payload.pullRequest.body, k, e)
    ensures CheckPR(payload, opts, checker).testPlan == CleanMarkdown(payload.pullRequest.body[e..])
    ensures CheckPR(payload, opts, checker).protectedBranch == IsProtectedBranch(payload, opts.protectedBranch)
  {
    SplitOnceAtFirst(TestPlanDivider, payload.pullRequest.body, k, e);
  }

  /** A body that opens with a test-plan divider has everything after it, cleaned, as its test plan. */
  lemma {:induction false} LeadingDividerPlan(payload: EventPayload, opts: CheckOpts, checker: ApprovalChecker, divider: string, rest: string)
    requires payload.pullRequest.body == divider + rest
    requires IsDividerText(TestPlanDivider, divider)
    ensures CheckPR(payload, opts, checker).testPlan == CleanMarkdown(rest)
    ensures CheckPR(payload, opts, checker).protectedBranch == IsProtectedBranch(payload, opts.protectedBranch)
  {
    var body := payload.pullRequest.body;
    assert body[0..|divider|] == divider;
    assert body[|divider|..] == rest;
    TestPlanAfterFirstDivider(payload, opts, checker, 0, |divider|);
  }

  /**
   A merge into the protected branch is never satisfied once the body has a
   test-plan divider, whatever the review and the test plan.
   */
  lemma {:induction false} ProtectedBranchBlocksMerge(payload: EventPayload, opts: CheckOpts, checker: ApprovalChecker, k: nat, e: nat)
    requires k < e <= |payload.pullRequest.body|
    requires IsDividerText(TestPlanDivider, payload.pullRequest.body[k..e])
    requires opts.protectedBranch != "" && payload.pullRequest.base.ref == opts.protectedBranch
    ensures CheckPR(payload, opts, checker).protectedBranch
    ensures !CheckPR(payload, opts, checker).IsSatisfied()
  {
    var body := payload.pullRequest.body;
    SplitOnceSpec(TestPlanDivider, body);
    assert !NoDivider(TestPlanDivider, body);
  }

  /**
   The merge verdict: mergeable exactly when the test plan is present or may be
   skipped, review is satisfied, and the body does not both hold a test-plan
   divider and target the protected branch.
   */
  lemma {:induction false} MergeVerdict(payload: EventPayload, opts: CheckOpts, checker: ApprovalChecker)
    ensures var r := CheckPR(payload, opts, checker);
            r.IsSatisfied() <==>
              && (opts.skipTestPlan || r.testPlan != "")
              && IsReviewSatisfied(payload, opts, checker)
              && (NoDivider(TestPlanDivider, payload.pullRequest.body) || !IsProtectedBranch(payload, opts.protectedBranch))
  {
    SplitOnceSpec(TestPlanDivider, payload.pullRequest.body);
  }

  /**
   Without a test-plan divider the pull request is mergeable exactly when the
   test plan may be skipped and review is satisfied; the protected branch plays
   no part.
   */
  lemma {:induction false} NoDividerVerdict(payload: EventPayload, opts: CheckOpts, checker: ApprovalChecker)
    requires NoDivider(TestPlanDivider, payload.pullRequest.body)
    ensures CheckPR(payload, opts, checker).IsSatisfied()
            <==> opts.skipTestPlan && IsReviewSatisfied(payload, opts, checker)
  {
    NoTestPlanWithoutDivider(payload, opts, checker);
  }
}
