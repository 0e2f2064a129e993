/**
 The table-driven cases of the policy engine's tests, each stated as a lemma
 about `CheckPR` on a concrete pull request. Every case is a pull request by
 `user`, and the approval checker never finds an approving review, as in the
 tests. The bodies are written out here in the shape of the test bodies.
 */
module Scenarios {
  import opened GoStrings
  import opened Patterns
  import opened Check

  /** The approval checker of the tests: no approving review is ever found. */
  const NeverApproved: ApprovalChecker := (p: EventPayload) => false

  /** A pull request by `user` with the given body, labels, review comments and base branch. */
  function TestPayload(body: string, labels: seq<Label>, reviews: int, baseRef: string): EventPayload {
    EventPayload(PullRequestPayload(body, UserPayload("user"), reviews, labels, RefPayload(baseRef)))
  }

  /** The options of the tests: review is never skipped wholesale. */
  function TestOpts(skipReviewForUsers: string, skipTestPlan: bool, protectedBranch: string): CheckOpts {
    CheckOpts(false, skipReviewForUsers, skipTestPlan, protectedBranch)
  }

  const PlanHeading: string := "### Test plan"
  const PlanText: string := "I have a plan!"

  /** A body with a heading-style divider and a one-line plan. */
  const HasPlanBody: string := PlanHeading + "\n\n" + PlanText + "\n"

  /** A body without any divider: no capital T and no colon. */
  const NoPlanBody: string := "just a small fix\n"

  lemma {:induction false} PlanHeadingIsDivider()
    ensures IsDividerText(TestPlanDivider, PlanHeading)
  {
    var t := PlanHeading;
    assert t[..3] == "###";
    assert t[3..] == " Test plan";
  }

  /** What the plan body yields whatever the options: the plan, and no no-review divider. */
  lemma {:induction false} HasPlanBodyOutcome(payload: EventPayload, opts: CheckOpts, checker: ApprovalChecker)
    requires payload.pullRequest.body == HasPlanBody
    ensures CheckPR(payload, opts, checker).testPlan == PlanText
    ensures CheckPR(payload, opts, checker).protectedBranch == IsProtectedBranch(payload, opts.protectedBranch)
    ensures !HasNoReviewExplanation(payload.pullRequest.body)
  {
    var rest := "\n\n" + PlanText + "\n";
    PlanHeadingIsDivider();
    HasPlanBodySplits(rest);
    LeadingDividerPlan(payload, opts, checker, PlanHeading, rest);
    PlanCleans(rest);
    HasPlanBodyNoColon();
    NoDividerNoExplanation(payload.pullRequest.body);
  }

  lemma {:induction false} HasPlanBodySplits(rest: string)
    requires rest == "\n\n" + PlanText + "\n"
    ensures HasPlanBody == PlanHeading + rest
  {
  }

  lemma {:induction false} PlanCleans(rest: string)
    requires rest == "\n\n" + PlanText + "\n"
    ensures CleanMarkdown(rest) == PlanText
  {
    assert '<' !in rest;
    CleanMarkdownPlain("\n\n", PlanText, "\n");
  }

  lemma {:induction false} HasPlanBodyNoColon()
    ensures NoDivider(NoReviewDivider, HasPlanBody)
  {
    var b := HasPlanBody;
    assert ':' !in b;
    NoColonNoReviewDivider(b);
  }

  /** What the plan-less body yields whatever the options: no plan, and no no-review divider. */
  lemma {:induction false} NoPlanBodyOutcome(payload: EventPayload, opts: CheckOpts, checker: ApprovalChecker)
    requires payload.pullRequest.body == NoPlanBody
    ensures CheckPR(payload, opts, checker).testPlan == ""
    ensures !CheckPR(payload, opts, checker).protectedBranch
    ensures !HasNoReviewExplanation(payload.pullRequest.body)
  {
    NoPlanBodyNoDivider();
    NoTestPlanWithoutDivider(payload, opts, checker);
    NoDividerNoExplanation(payload.pullRequest.body);
  }

  lemma {:induction false} NoPlanBodyNoDivider()
    ensures NoDivider(TestPlanDivider, NoPlanBody)
    ensures NoDivider(NoReviewDivider, NoPlanBody)
  {
    var b := NoPlanBody;
    assert 'T' !in b && ':' !in b;
    NoCapitalTNoTestPlanDivider(b);
    NoColonNoReviewDivider(b);
  }

  /** "has test plan": the plan is found, and review is not satisfied. */
  lemma {:induction false} HasTestPlan(payload: EventPayload, opts: CheckOpts)
    requires payload == TestPayload(HasPlanBody, [], 0, "")
    requires opts == TestOpts("", false, "")
    ensures CheckPR(payload, opts, NeverApproved) == CheckResult(false, false, PlanText, false)
    ensures !CheckPR(payload, opts, NeverApproved).IsSatisfied()
  {
    HasPlanBodyOutcome(payload, opts, NeverApproved);
    CheckerDecidesOtherwise(payload, opts, NeverApproved);
  }

  /** "protected branch": a merge into the protected branch is flagged. */
  lemma {:induction false} ProtectedBranch(payload: EventPayload, opts: CheckOpts)
    requires payload == TestPayload(HasPlanBody, [], 0, "release")
    requires opts == TestOpts("", false, "release")
    ensures CheckPR(payload, opts, NeverApproved) == CheckResult(false, false, PlanText, true)
  {
    HasPlanBodyOutcome(payload, opts, NeverApproved);
    CheckerDecidesOtherwise(payload, opts, NeverApproved);
  }

  /** "non protected branch": a merge into another branch is not flagged. */
  lemma {:induction false} NonProtectedBranch(payload: EventPayload, opts: CheckOpts)
    requires payload == TestPayload(HasPlanBody, [], 0, "preprod")
    requires opts == TestOpts("", false, "release")
    ensures CheckPR(payload, opts, NeverApproved) == CheckResult(false, false, PlanText, false)
  {
    HasPlanBodyOutcome(payload, opts, NeverApproved);
    CheckerDecidesOtherwise(payload, opts, NeverApproved);
  }

  /** "no test plan": nothing is found, and the test plan is not satisfied. */
  lemma {:induction false} NoTestPlan(payload: EventPayload, opts: CheckOpts)
    requires payload == TestPayload(NoPlanBody, [], 0, "")
    requires opts == TestOpts("", false, "")
    ensures CheckPR(payload, opts, NeverApproved) == CheckResult(false, false, "", false)
    ensures !CheckPR(payload, opts, NeverApproved).IsTestPlanSatisfied()
  {
    NoPlanBodyOutcome(payload, opts, NeverApproved);
    CheckerDecidesOtherwise(payload, opts, NeverApproved);
  }

  /** "no test plan but skip-test-plans enabled": the missing plan is allowed. */
  lemma {:induction false} SkipTestPlan(payload: EventPayload, opts: CheckOpts)
    requires payload == TestPayload(NoPlanBody, [], 0, "")
    requires opts == TestOpts("", true, "")
    ensures CheckPR(payload, opts, NeverApproved) == CheckResult(false, true, "", false)
    ensures CheckPR(payload, opts, NeverApproved).IsTestPlanSatisfied()
  {
    NoPlanBodyOutcome(payload, opts, NeverApproved);
    CheckerDecidesOtherwise(payload, opts, NeverApproved);
  }

  /** "has test plan and is actually reviewed": review comments satisfy review. */
  lemma {:induction false} ActuallyReviewed(payload: EventPayload, opts: CheckOpts)
    requires payload == TestPayload(HasPlanBody, [], 1, "")
    requires opts == TestOpts("", false, "")
    ensures CheckPR(payload, opts, NeverApproved) == CheckResult(true, false, PlanText, false)
    ensures CheckPR(payload, opts, NeverApproved).IsSatisfied()
  {
    HasPlanBodyOutcome(payload, opts, NeverApproved);
  }

  /** "no review required via automerge label". */
  lemma {:induction false} AutomergeLabel(payload: EventPayload, opts: CheckOpts)
    requires payload == TestPayload(HasPlanBody, [Label("automerge")], 0, "")
    requires opts == TestOpts("", false, "")
    ensures CheckPR(payload, opts, NeverApproved) == CheckResult(true, false, PlanText, false)
  {
    HasPlanBodyOutcome(payload, opts, NeverApproved);
    assert HasNoReviewLabel(payload.pullRequest.labels);
  }

  /** "no review required via no-review-required label". */
  lemma {:induction false} NoReviewRequiredLabel(payload: EventPayload, opts: CheckOpts)
    requires payload == TestPayload(HasPlanBody, [Label("no-review-required")], 0, "")
    requires opts == TestOpts("", false, "")
    ensures CheckPR(payload, opts, NeverApproved) == CheckResult(true, false, PlanText, false)
  {
    HasPlanBodyOutcome(payload, opts, NeverApproved);
    assert HasNoReviewLabel(payload.pullRequest.labels);
  }

  /** "no review required but with the wrong label": other labels do not count. */
  lemma {:induction false} WrongLabel(payload: EventPayload, opts: CheckOpts)
    requires payload == TestPayload(HasPlanBody, [Label("random-label")], 0, "")
    requires opts == TestOpts("", false, "")
    ensures CheckPR(payload, opts, NeverApproved) == CheckResult(false, false, PlanText, false)
  {
    HasPlanBodyOutcome(payload, opts, NeverApproved);
    RandomLabelExemptsNothing(payload.pullRequest.labels);
    CheckerDecidesOtherwise(payload, opts, NeverApproved);
  }

  lemma {:induction false} RandomLabelExemptsNothing(labels: seq<Label>)
    requires labels == [Label("random-label")]
    ensures !HasNoReviewLabel(labels)
  {
    var name := "random-label";
    assert |name| == 12;
    assert name != NoReviewNeededLabels[0] && name != NoReviewNeededLabels[1];
  }

  /** "no review required via user-specific skip": the author is in the list. */
  lemma {:induction false} UserSkip(payload: EventPayload, opts: CheckOpts)
    requires payload == TestPayload(NoPlanBody, [], 0, "")
    requires opts == TestOpts("foo,user,bar", false, "")
    ensures CheckPR(payload, opts, NeverApproved) == CheckResult(true, false, "", false)
  {
    NoPlanBodyOutcome(payload, opts, NeverApproved);
    var logins := ["foo", "user", "bar"];
    JoinLogins(logins, "foo,user,bar");
    assert logins[1] == "user";
    ListedAuthorSkipsReview(payload, opts, NeverApproved, logins);
  }

  /** "no review required but user not matched in skip": the author is not in the list. */
  lemma {:induction false} UserNotMatched(payload: EventPayload, opts: CheckOpts)
    requires payload == TestPayload(NoPlanBody, [], 0, "")
    requires opts == TestOpts("foo,bar", false, "")
    ensures CheckPR(payload, opts, NeverApproved) == CheckResult(false, false, "", false)
  {
    NoPlanBodyOutcome(payload, opts, NeverApproved);
    UserNotListed(opts.skipReviewForUsers);
    CheckerDecidesOtherwise(payload, opts, NeverApproved);
  }

  lemma {:induction false} UserNotListed(list: string)
    requires list == "foo,bar"
    ensures "user" !in Split(list, ',')
  {
    var logins := ["foo", "bar"];
    JoinLogins(logins, list);
    SplitJoin(logins, ',');
    assert "user" != logins[0] && "user" != logins[1];
  }

  /** The comma-joined login lists of the two cases above. */
  lemma {:induction false} JoinLogins(logins: seq<string>, list: string)
    requires || (logins == ["foo", "user", "bar"] && list == "foo,user,bar")
             || (logins == ["foo", "bar"] && list == "foo,bar")
    ensures Join(logins, ',') == list
    ensures forall l :: l in logins ==> ',' !in l
  {
    if |logins| == 3 {
      assert Join(logins[2..], ',') == "bar";
      assert Join(logins[1..], ',') == "user,bar";
    } else {
      assert Join(logins[1..], ',') == "bar";
    }
  }

  /**
   A body `a + d + x` whose no-review divider `d` is the leftmost one, and whose
   explanation `x` is not empty once cleaned, satisfies review.
   */
  lemma {:induction false} ExplainedBody(payload: EventPayload, opts: CheckOpts, checker: ApprovalChecker, a: string, d: string, x: string)
    requires payload.pullRequest.body == a + d + x
    requires forall j :: 18 <= j < |a| ==> a[j] != ':'
    requires IsDividerText(NoReviewDivider, d)
    requires CleanMarkdown(x) != ""
    ensures CheckPR(payload, opts, checker).reviewSatisfied
  {
    NoReviewDividerAfter(a, d, x);
    assert (a + d + x)[|a| + |d|..] == x;
    ExplanationSkipsReview(payload, opts, checker, |a|, |a| + |d|);
  }

  /** The plain text `lead + d + reason` between white space cleans to itself. */
  lemma {:induction false} PlainPlanCleans(gap: string, lead: string, d: string, reason: string, tail: string)
    requires forall k :: 0 <= k < |gap| ==> IsSpace(gap[k])
    requires forall k :: 0 <= k < |tail| ==> IsSpace(tail[k])
    requires '<' !in gap && '<' !in lead && '<' !in d && '<' !in reason && '<' !in tail
    requires lead != [] && !IsSpace(lead[0])
    requires reason != [] && !IsSpace(reason[|reason| - 1])
    ensures CleanMarkdown(gap + lead + d + reason + tail) == lead + d + reason
  {
    var t := lead + d + reason;
    assert gap + lead + d + reason + tail == gap + t + tail;
    assert t[0] == lead[0];
    assert t[|t| - 1] == reason[|reason| - 1];
    CleanMarkdownPlain(gap, t, tail);
  }

  /** A reason made of a space and a word, followed by white space, is not empty once cleaned. */
  lemma {:induction false} ReasonCleans(word: string, tail: string)
    requires word != [] && !IsSpace(word[0]) && !IsSpace(word[|word| - 1])
    requires forall k :: 0 <= k < |tail| ==> IsSpace(tail[k])
    requires '<' !in word && '<' !in tail
    ensures CleanMarkdown(" " + word + tail) == word
  {
    CleanMarkdownPlain(" ", word, tail);
  }

  /** The two groupings of a body that the test-plan split and the no-review split see. */
  lemma {:induction false} Regroup(heading: string, gap: string, lead: string, d: string, reason: string, tail: string)
    ensures heading + (gap + lead + d + reason + tail) == (heading + gap + lead) + d + (reason + tail)
  {
  }

  const NoReviewText: string := "No review required:"

  lemma {:induction false} NoReviewTextIsDivider(d: string)
    requires d == NoReviewText
    ensures IsDividerText(NoReviewDivider, d)
  {
  }

  const BotLead: string := "I have a plan! "
  const BotWords: string := "this is a bot PR"
  const BotReason: string := " " + BotWords
  const BotPlan: string := BotLead + NoReviewText + BotReason

  /** The body of "no review required": the explanation sits at the end of the plan. */
  const BotBody: string := PlanHeading + ("\n\n" + BotLead + NoReviewText + BotReason + "\n")

  /**
   "no review required": the explanation after the divider satisfies review, and
   the divider and its explanation stay part of the test plan.
   */
  lemma {:induction false} NoReviewRequired(payload: EventPayload, opts: CheckOpts)
    requires payload == TestPayload(BotBody, [], 0, "")
    requires opts == TestOpts("", false, "")
    ensures CheckPR(payload, opts, NeverApproved) == CheckResult(true, false, BotPlan, false)
  {
    var heading, gap, lead, d, reason, tail := PlanHeading, "\n\n", BotLead, NoReviewText, BotReason, "\n";
    var a, rest := heading + gap + lead, gap + lead + d + reason + tail;
    BotParts(heading, gap, lead, d, reason, tail);
    PlanHeadingIsDivider();
    LeadingDividerPlan(payload, opts, NeverApproved, heading, rest);
    BotPlainPieces(gap, lead, d, reason, tail);
    PlainPlanCleans(gap, lead, d, reason, tail);
    ColonFree(a);
    NoReviewTextIsDivider(d);
    ReasonCleans(BotWords, tail);
    ExplainedBody(payload, opts, NeverApproved, a, d, reason + tail);
  }

  lemma {:induction false} BotParts(heading: string, gap: string, lead: string, d: string, reason: string, tail: string)
    requires heading == PlanHeading && gap == "\n\n" && lead == BotLead && d == NoReviewText
    requires reason == BotReason && tail == "\n"
    ensures BotBody == heading + (gap + lead + d + reason + tail)
    ensures BotBody == (heading + gap + lead) + d + (reason + tail)
    ensures BotPlan == lead + d + reason
    ensures ':' !in heading + gap + lead
  {
    Regroup(heading, gap, lead, d, reason, tail);
    assert ':' !in heading && ':' !in gap && ':' !in lead;
  }

  lemma {:induction false} BotPlainPieces(gap: string, lead: string, d: string, reason: string, tail: string)
    requires gap == "\n\n" && lead == BotLead && d == NoReviewText
    requires reason == BotReason && tail == "\n"
    ensures forall k :: 0 <= k < |gap| ==> IsSpace(gap[k])
    ensures forall k :: 0 <= k < |tail| ==> IsSpace(tail[k])
    ensures '<' !in gap && '<' !in lead && '<' !in d && '<' !in reason && '<' !in tail
    ensures lead != [] && !IsSpace(lead[0])
    ensures reason != [] && !IsSpace(reason[|reason| - 1])
    ensures reason == " " + BotWords
    ensures '<' !in BotWords && !IsSpace(BotWords[0]) && !IsSpace(BotWords[|BotWords| - 1])
  {
  }

  /** An inline divider, with the no-review explanation on the next line. */
  const InlineWords: string := "trust me"
  const InlineReason: string := " " + InlineWords
  const InlineBody: string := "Test plan:" + (" " + "done\n" + NoReviewText + InlineReason + "\n")
  const InlinePlan: string := "done\n" + NoReviewText + InlineReason

  /**
   The inline spelling of the divider: review is satisfied by the explanation,
   and the test plan runs to the end of the body, explanation included.
   */
  lemma {:induction false} InlinePlanKeepsExplanation(payload: EventPayload, opts: CheckOpts)
    requires payload == TestPayload(InlineBody, [], 0, "")
    requires opts == TestOpts("", false, "")
    ensures CheckPR(payload, opts, NeverApproved) == CheckResult(true, false, InlinePlan, false)
  {
    var heading, gap, lead, d, reason, tail := "Test plan:", " ", "done\n", NoReviewText, InlineReason, "\n";
    var a, rest := heading + gap + lead, gap + lead + d + reason + tail;
    InlineParts(heading, gap, lead, d, reason, tail);
    InlineHeadingIsDivider(heading);
    LeadingDividerPlan(payload, opts, NeverApproved, heading, rest);
    InlinePlainPieces(gap, lead, d, reason, tail);
    PlainPlanCleans(gap, lead, d, reason, tail);
    NoReviewTextIsDivider(d);
    ReasonCleans(InlineWords, tail);
    ExplainedBody(payload, opts, NeverApproved, a, d, reason + tail);
  }

  lemma {:induction false} InlineHeadingIsDivider(heading: string)
    requires heading == "Test plan:"
    ensures IsDividerText(TestPlanDivider, heading)
  {
  }

  lemma {:induction false} InlineParts(heading: string, gap: string, lead: string, d: string, reason: string, tail: string)
    requires heading == "Test plan:" && gap == " " && lead == "done\n" && d == NoReviewText
    requires reason == InlineReason && tail == "\n"
    ensures InlineBody == heading + (gap + lead + d + reason + tail)
    ensures InlineBody == (heading + gap + lead) + d + (reason + tail)
    ensures InlinePlan == lead + d + reason
    ensures forall j :: 18 <= j < |heading + gap + lead| ==> (heading + gap + lead)[j] != ':'
  {
    Regroup(heading, gap, lead, d, reason, tail);
    assert |heading + gap + lead| == 16;
  }

  lemma {:induction false} InlinePlainPieces(gap: string, lead: string, d: string, reason: string, tail: string)
    requires gap == " " && lead == "done\n" && d == NoReviewText
    requires reason == InlineReason && tail == "\n"
    ensures forall k :: 0 <= k < |gap| ==> IsSpace(gap[k])
    ensures forall k :: 0 <= k < |tail| ==> IsSpace(tail[k])
    ensures '<' !in gap && '<' !in lead && '<' !in d && '<' !in reason && '<' !in tail
    ensures lead != [] && !IsSpace(lead[0])
    ensures reason != [] && !IsSpace(reason[|reason| - 1])
    ensures reason == " " + InlineWords
    ensures '<' !in InlineWords && !IsSpace(InlineWords[0]) && !IsSpace(InlineWords[|InlineWords| - 1])
  {
  }

  /** A plan under a comment left from the pull-request template. */
  const TemplateNote: string := " describe how you tested "
  const StillLead: string := "This is still a plan! "
  const StillWords: string := "just trust me"
  const StillReason: string := " " + StillWords
  const StillPlan: string := StillLead + NoReviewText + StillReason
  /** The template comment on a line of its own. */
  const TemplateGap: string := "\n" + "<!--" + TemplateNote + "-->" + "\n"
  const CommentedBody: string := PlanHeading + (TemplateGap + StillLead + NoReviewText + StillReason + "\n")

  /**
   A template comment inside the test plan is removed from it, together with
   the newline after it; the explanation after the divider satisfies review.
   */
  lemma {:induction false} CommentedPlan(payload: EventPayload, opts: CheckOpts)
    requires payload == TestPayload(CommentedBody, [], 0, "")
    requires opts == TestOpts("", false, "")
    ensures CheckPR(payload, opts, NeverApproved) == CheckResult(true, false, StillPlan, false)
  {
    var heading, gap, lead, d, reason, tail :=
      PlanHeading, TemplateGap, StillLead, NoReviewText, StillReason, "\n";
    var a, rest := heading + gap + lead, gap + lead + d + reason + tail;
    CommentedParts(heading, gap, lead, d, reason, tail);
    PlanHeadingIsDivider();
    LeadingDividerPlan(payload, opts, NeverApproved, heading, rest);
    CommentedPlanCleans(gap, lead, d, reason, tail);
    ColonFree(a);
    NoReviewTextIsDivider(d);
    CommentedReasonCleans(reason, tail);
    ExplainedBody(payload, opts, NeverApproved, a, d, reason + tail);
  }

  lemma {:induction false} CommentedParts(heading: string, gap: string, lead: string, d: string, reason: string, tail: string)
    requires heading == PlanHeading && gap == TemplateGap && lead == StillLead
    requires d == NoReviewText && reason == StillReason && tail == "\n"
    ensures CommentedBody == heading + (gap + lead + d + reason + tail)
    ensures CommentedBody == (heading + gap + lead) + d + (reason + tail)
    ensures StillPlan == lead + d + reason
    ensures ':' !in heading + gap + lead
  {
    Regroup(heading, gap, lead, d, reason, tail);
    assert ':' !in TemplateNote;
    assert ':' !in heading && ':' !in gap && ':' !in lead;
  }

  lemma {:induction false} CommentedPlanCleans(gap: string, lead: string, d: string, reason: string, tail: string)
    requires gap == TemplateGap && lead == StillLead
    requires d == NoReviewText && reason == StillReason && tail == "\n"
    ensures CleanMarkdown(gap + lead + d + reason + tail) == lead + d + reason
  {
    var t := lead + d + reason;
    StillPlanPlain(lead, d, reason);
    TemplateNoteUnclosed(TemplateNote + "--");
    CommentThenPlain(TemplateNote, gap, t, tail);
    assert gap + lead + d + reason + tail == gap + t + tail;
  }

  lemma {:induction false} StillPlanPlain(lead: string, d: string, reason: string)
    requires lead == StillLead && d == NoReviewText && reason == StillReason
    ensures '<' !in lead + d + reason
    ensures var t := lead + d + reason; t != [] && !IsSpace(t[0]) && !IsSpace(t[|t| - 1])
  {
    assert '<' !in lead && '<' !in d && '<' !in reason;
    var t := lead + d + reason;
    assert t[0] == lead[0];
    assert t[|t| - 1] == reason[|reason| - 1];
  }

  lemma {:induction false} CommentedReasonCleans(reason: string, tail: string)
    requires reason == StillReason && tail == "\n"
    ensures CleanMarkdown(reason + tail) != ""
  {
    assert '<' !in StillWords && '<' !in tail;
    ReasonCleans(StillWords, tail);
  }

  lemma {:induction false} TemplateNoteUnclosed(w: string)
    requires w == TemplateNote + "--"
    ensures !HasCloser(w)
  {
    assert '>' !in w;
    forall k | 0 <= k < |w| ensures !CloserAt(w, k) {
      assert w[k] in w;
    }
  }

  /**
   A comment on a line of its own above a plain text is removed with the
   newline after it, and cleaning leaves the text.
   */
  lemma {:induction false} CommentThenPlain(c: string, gap: string, t: string, nl: string)
    requires !HasCloser(c + "--")
    requires '<' !in t
    requires t != [] && !IsSpace(t[0]) && !IsSpace(t[|t| - 1])
    requires nl == "\n" && gap == nl + "<!--" + c + "-->" + nl
    ensures CleanMarkdown(gap + t + nl) == t
  {
    var b := t + nl;
    assert gap + t + nl == nl + "<!--" + c + "-->" + nl + b;
    assert !HasOpener(nl);
    RemoveCommentsOne(nl, c, nl, b);
    NoAngleNoOpener(b);
    RemoveCommentsNoOpener(b);
    assert nl + b == nl + t + nl;
    TrimSpaceBetween(nl, t, nl);
  }

  /** A heading divider followed by a colon. */
  const ColonHeadingBody: string := "## Test plan" + ": x"

  /**
   `## Test plan: x`: at a `#` only the heading spelling can match, so the
   colon is not part of the divider and stays at the start of the plan.
   */
  lemma {:induction false} HeadingLeavesColon(payload: EventPayload, opts: CheckOpts)
    requires payload == TestPayload(ColonHeadingBody, [], 0, "")
    requires opts == TestOpts("", false, "")
    ensures CheckPR(payload, opts, NeverApproved) == CheckResult(false, false, ": x", false)
  {
    var heading, rest := "## Test plan", ": x";
    ColonHeadingFacts(heading, rest);
    LeadingDividerPlan(payload, opts, NeverApproved, heading, rest);
    NoDividerNoExplanation(payload.pullRequest.body);
    CheckerDecidesOtherwise(payload, opts, NeverApproved);
  }

  lemma {:induction false} ColonHeadingFacts(heading: string, rest: string)
    requires heading == "## Test plan" && rest == ": x"
    ensures ColonHeadingBody == heading + rest
    ensures IsDividerText(TestPlanDivider, heading)
    ensures CleanMarkdown(rest) == rest
    ensures NoDivider(NoReviewDivider, heading + rest)
  {
    assert heading[..2] == "##";
    assert heading[2..] == " Test plan";
    assert '<' !in rest;
    NoAngleNoOpener(rest);
    CleanMarkdownWithoutComments(rest);
    TrimSpaceOfTrimmed(rest);
    assert |heading + rest| < 19;
  }

  /** A divider left inside a comment of the pull-request template. */
  const CommentOpen: string := "<!-- "
  const CommentClose: string := " -->"
  const CommentedDividerBody: string := CommentOpen + "Test plan:" + CommentClose

  /**
   Dividers are searched for in the raw body, before comments are removed: a
   divider inside a comment still splits the body, and the rest of the comment
   becomes the test plan, which satisfies the test-plan check.
   */
  lemma {:induction false} CommentedDividerCounts(payload: EventPayload, opts: CheckOpts)
    requires payload == TestPayload(CommentedDividerBody, [], 0, "")
    requires opts == TestOpts("", false, "")
    ensures CheckPR(payload, opts, NeverApproved) == CheckResult(false, false, "-->", false)
    ensures CheckPR(payload, opts, NeverApproved).IsTestPlanSatisfied()
  {
    var a, h, b := CommentOpen, "Test plan:", CommentClose;
    var body := payload.pullRequest.body;
    CommentedDividerParts(a, h, b);
    InlineHeadingIsDivider(h);
    TestPlanDividerAfter(a, h, b);
    TestPlanAfterFirstDivider(payload, opts, NeverApproved, |a|, |a| + |h|);
    SuffixAfter(a, h, b);
    CommentTailCleans(b, "-->");
    CommentedDividerNoExplanation(body);
    NoDividerNoExplanation(body);
    CheckerDecidesOtherwise(payload, opts, NeverApproved);
  }

  lemma {:induction false} CommentedDividerParts(a: string, h: string, b: string)
    requires a == CommentOpen && h == "Test plan:" && b == CommentClose
    ensures CommentedDividerBody == a + h + b
    ensures '#' !in a && 'T' !in a
  {
  }

  /** What follows the middle piece of `a + h + b` is `b`. */
  lemma {:induction false} SuffixAfter(a: string, h: string, b: string)
    ensures (a + h + b)[|a| + |h|..] == b
  {
  }

  lemma {:induction false} CommentTailCleans(b: string, t: string)
    requires b == CommentClose && t == "-->"
    ensures CleanMarkdown(b) == t
  {
    var front, back := b[..1], b[4..];
    assert b == front + t + back;
    assert '<' !in b;
    CleanMarkdownPlain(front, t, back);
  }

  lemma {:induction false} CommentedDividerNoExplanation(body: string)
    requires body == CommentedDividerBody
    ensures NoDivider(NoReviewDivider, body)
  {
    assert |body| == 19 && body[18] == '>';
    NoLateColonNoReviewDivider(body);
  }

  /**
   A no-review divider with nothing after it: the explanation cleans to
   nothing, so review falls through to the approval checker, whatever it says.
   */
  lemma {:induction false} EmptyExplanationAsksChecker(payload: EventPayload, opts: CheckOpts, checker: ApprovalChecker)
    requires payload == TestPayload(NoReviewText, [], 0, "")
    requires opts == TestOpts("", false, "")
    ensures CheckPR(payload, opts, checker).reviewSatisfied == checker(payload)
  {
    var d := NoReviewText;
    NoReviewTextIsDivider(d);
    NoReviewDividerAfter([], d, []);
    assert [] + d + [] == d;
    assert d[|d|..] == [];
    CleanMarkdownPlain([], [], []);
    EmptyExplanationFallsThrough(d, 0, |d|);
    CheckerDecidesOtherwise(payload, opts, checker);
  }
}
