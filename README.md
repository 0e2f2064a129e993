# pr-auditor policy engine, in Dafny

A model of the pull-request policy engine of sourcegraph/pr-auditor
(`check.go`). From a pull-request webhook payload and the audit options, the
engine works out four things:

- **Test plan.** Is it documented? The test plan is the text after the first
  test-plan divider (`### Test plan`, `Test plan:`, …). HTML comments and
  surrounding white space are removed from it.
- **Review.** Was the change reviewed, or does it need no review? This is a
  fixed chain of six checks. The first one that holds decides. The last check
  asks an injected approval checker.
- **Protected branch.** Does the pull request merge into the protected
  branch?
- **Merge verdict.** The three answers above are combined into one verdict:
  `IsSatisfied`.

Everything in the engine is a stateless computation over strings, so the
model is written as functions and lemmas. The approval checker is the only
outside effect. It is modelled as a function value `EventPayload -> bool`,
which the engine receives as a parameter.

The model has four modules:

- `GoStrings` (`go_strings.dfy`) covers the parts of Go's standard library
  that the engine uses:
  - `unicode.IsSpace`;
  - `strings.TrimSpace`;
  - `strings.Split` on a one-character separator, together with
    `strings.Join`, its inverse.
- `Patterns` (`patterns.dfy`) covers the engine's three fixed regular
  expressions, each written out as a hand-made matcher. It also models the
  two `regexp` operations that the engine applies to them:
  - `Split(s, 2)`, which cuts a body at the leftmost divider;
  - `ReplaceAllString(s, "")`, which deletes markdown comments.

  Each matcher is checked against `IsDividerText`, a reference description of
  the words its regular expression accepts.
- `Check` (`check.dfy`) holds the engine itself:
  - the result predicates;
  - `isProtectedBranch`, `isReviewSatisfied`, `checkPR` and `cleanMarkdown`;
  - the properties they promise.
- `Scenarios` (`scenarios.dfy`) restates the table-driven test cases as
  lemmas. Each lemma gives the exact `CheckPR` result on a concrete pull
  request. A few further cases show behaviour that is easy to get wrong.

Three points of the code's behaviour are easy to miss:

- **Anchoring.** A divider is found anywhere in the body, not only at the
  start of a line. The expressions use `(?m)` but contain no `^`. For example,
  `No review required:` counts in the middle of a line.
- **Cleaning twice.** Cleaning is not idempotent: deleting one comment can join
  the text around it into a new comment (`Check.CleanMarkdownNotIdempotent`).
- **The test plan's extent.** The test plan keeps a later no-review explanation:
  it runs from the first test-plan divider to the end of the body
  (`Scenarios.InlinePlanKeepsExplanation`).

## Model

| member | source | states |
|---|---|---|
| GoStrings.IsSpace | check.go:125 | `unicode.IsSpace`, the white space that `strings.TrimSpace` removes: tab, newline, vertical tab, form feed, carriage return, space, U+0085, U+00A0, U+1680, U+2000 to U+200A, U+2028, U+2029, U+202F, U+205F and U+3000 |
| GoStrings.LeadingSpaces | check.go:125 | the leading white-space run: every character in it is white space, and the character after it is not |
| GoStrings.TrailingSpaces | check.go:125 | the trailing white-space run: every character in it is white space, and the character before it is not |
| GoStrings.TrimSpace | check.go:125 | `strings.TrimSpace` keeps the infix of `s` that starts after the leading white space; everything dropped behind it is white space; the result neither starts nor ends with white space |
| GoStrings.TrimSpaceOfTrimmed | check.go:125 | a string that neither starts nor ends with white space is its own trim |
| GoStrings.TrimSpaceIdempotent | check.go:125 | trimming twice is the same as trimming once |
| GoStrings.TrimSpaceAllSpace | check.go:125 | a string of white space only trims to the empty string |
| GoStrings.TrimSpaceBetween | check.go:125 | trimming `front + t + back`, with white-space `front` and `back` and a trimmed `t`, gives exactly `t` |
| GoStrings.TrimSpaceKeeps | check.go:125 | with white space exactly up to `i` and from `i + n` on, trimming keeps `s[i..i + n]` |
| GoStrings.LeadingSpacesBefore | check.go:125 | the leading white space of `front + rest` is `front` when `rest` starts with something else |
| GoStrings.Split | check.go:63 | `strings.Split` on a separator gives one more piece than there are separators; no piece contains the separator; joining the pieces gives the input back; `Split("", sep)` is `[""]` |
| GoStrings.SplitWithoutSep | check.go:63 | a string without the separator splits into itself alone |
| GoStrings.SplitAtFirstSep | check.go:63 | splitting at the first separator peels off the first piece |
| GoStrings.SplitJoin | check.go:63 | split is the inverse of join: joining separator-free logins with commas and splitting again gives the same logins |
| Patterns.RunEnd | check.go:36-39 | the greedy runs `#+` and `(\n)*`: every character the run passes is the run's character, and it stops at a different character or at the end |
| Patterns.MatchTestPlanAt | check.go:36 | a match of the test-plan expression (a `#` run then ` Test plan`, or `Test plan:`, either `p` case) at a position is a test-plan divider word |
| Patterns.MatchNoReviewAt | check.go:37 | a match of `[nN]o [rR]eview [rR]equired:` at a position is a no-review divider word |
| Patterns.MatchAt | check.go:36-37 | whatever a divider matcher finds is a divider word |
| Patterns.MatchAtComplete | check.go:36-37 | the matchers are complete and deterministic: for every divider word at a position, the matcher returns exactly that word's end, and no other word starts there |
| Patterns.FindFrom | check.go:36-37 | the regexp search is leftmost: a match is reported at the first position where a matcher succeeds, and none is reported only when no position matches |
| Patterns.FindFromLeftmost | check.go:36-37 | the search from the start finds a divider that starts at or before every divider in the text |
| Patterns.NotFoundNoDivider | check.go:36-37 | a failed search means no divider word occurs anywhere in the text |
| Patterns.FoundSplits | check.go:102 | a successful search cuts the text into before, divider and after, and no divider starts before the one found |
| Patterns.NoDividerBeforeFound | check.go:102 | no divider starts before the one the search finds |
| Patterns.SplitOnce | check.go:102 | `Regexp.Split(s, 2)` gives one or two pieces; a single piece is the whole text; two pieces put back together around the cut divider give the text |
| Patterns.SplitOnceSpec | check.go:102 | the split gives one piece exactly when the text holds no divider, and otherwise cuts around the leftmost divider |
| Patterns.DividerEndUnique | check.go:36-37 | at most one divider word starts at a position, so the leftmost match is unambiguous |
| Patterns.SplitOnceAtFirst | check.go:102 | when `s[k..e]` is the leftmost divider, the split is `[s[..k], s[e..]]` |
| Patterns.SplitOnceWithout | check.go:102 | a text without a divider is not split |
| Patterns.NoLateColonNoReviewDivider | check.go:37 | a no-review divider ends in a colon 18 characters after its start, so a text with no colon from index 18 on holds none |
| Patterns.NoColonNoReviewDivider | check.go:37 | a text without a colon holds no no-review divider |
| Patterns.TestPlanDividerStart | check.go:36 | every test-plan divider is at least ten characters long and starts with `#` or `T` |
| Patterns.TestPlanDividerAfter | check.go:36 | a test-plan divider placed after text with neither `#` nor `T` is the leftmost one |
| Patterns.NoCapitalTNoTestPlanDivider | check.go:36 | both spellings of the test-plan divider contain a capital `T`, so a text without one holds no divider |
| Patterns.NoReviewDividerAfter | check.go:37 | a no-review divider placed after text with no colon from index 18 on is the leftmost one |
| Patterns.NoColonInsideNoReviewDivider | check.go:37 | the first 18 characters of a no-review divider hold no colon |
| Patterns.NoAngleNoOpener | check.go:39 | text without `<` holds no comment opener |
| Patterns.FindCloser | check.go:39 | the lazy body of the comment expression: the first `-->` at or after a position, or none when there is no later closer |
| Patterns.RemoveComments | check.go:123 | `ReplaceAllString` with the comment expression never lengthens the text; what it deletes is described by the lemmas below |
| Patterns.RemoveCommentsNoOpener | check.go:123 | text without an opener is left untouched |
| Patterns.RemoveCommentsPrefix | check.go:123 | text in which no opener starts is copied through, and removal goes on in what follows |
| Patterns.RemoveCommentsNoClosedComment | check.go:39 | a closer counts only when it starts at least four characters after the opener (so `<!-->x` and `<!--->x` stay as they are): when no opener has such a closer, nothing is removed |
| Patterns.RemoveCommentsUnclosed | check.go:123 | without any closer nothing is removed, whatever openers the text holds |
| Patterns.RemoveCommentsOne | check.go:123 | one comment is deleted from `<!--` through the first `-->` together with the newlines right after it, and the text before it is kept |
| Patterns.NoOpenerBeforeOpener | check.go:39 | text with no opener of its own gains none from a following `<!--`, except the one at the join |
| Patterns.RemoveCommentAtStart | check.go:123 | a comment at the start is deleted with its trailing newlines, and removal goes on after it |
| Patterns.RemoveLeadingComment | check.go:123 | a leading opener whose first closer starts at `j` (at least four characters on) is deleted through the newline run that ends at `e` |
| Check.CheckResult.IsSatisfied | check.go:27-29 | mergeable: the test plan is satisfied, review is satisfied and the merge is not into the protected branch (its consequences for `checkPR` are in `Check.MergeVerdict`) |
| Check.CheckResult.IsTestPlanSatisfied | check.go:31-33 | the test plan may be skipped or is not empty |
| Check.CleanMarkdown | check.go:120-128 | `cleanMarkdown` never lengthens its input, and its result neither starts nor ends with white space |
| Check.CleanMarkdownWithoutComments | check.go:120-128 | on text without a comment opener, cleaning is just trimming |
| Check.CleanMarkdownStable | check.go:120-128 | once the cleaned text holds no opener, cleaning it again changes nothing |
| Check.CleanMarkdownNotIdempotent | check.go:120-128 | cleaning is not idempotent: `<!<!--a-->-- b -->` cleans to `<!-- b -->`, which cleans to the empty string |
| Check.CleanMarkdownPlain | check.go:120-128 | text without `<` keeps exactly what lies between its leading and its trailing white space |
| Check.IsProtectedBranch | check.go:51-53 | with no protected branch set the answer is false; otherwise it is true exactly when the base branch equals the protected one |
| Check.HasNoReviewLabel | check.go:84-88 | the label loop finds an exempting label exactly when some label is named `no-review-required` or `automerge` |
| Check.OtherLabelIgnored | check.go:84-88 | appending a label with another name does not change the outcome of the label loop |
| Check.OtherLabelNoEffect | check.go:84-88 | appending a label with another name neither creates nor removes a review exemption |
| Check.IsReviewSatisfied | check.go:55-92 | review is satisfied whenever any of the five exemptions holds: skip reviews, listed author, review comments, explanation, exempting label; otherwise the verdict is the approval checker's answer |
| Check.AuthorSkipsReview | check.go:62-68 | a non-empty exemption list whose comma-separated pieces include the author exactly (partners: `Check.ListedAuthorSkipsReview`, `Check.UnlistedAuthorFallsThrough`) |
| Check.HasNoReviewExplanation | check.go:76-81 | the body splits at its leftmost no-review divider and what follows is non-empty once cleaned (partners: `Check.ExplanationSkipsReview`, `Check.EmptyExplanationFallsThrough`) |
| Check.VerdictIgnoresChecker | check.go:55-92 | when an exemption holds, the verdict is the same for any two approval checkers |
| Check.ListedAuthorSkipsReview | check.go:62-68 | an author who equals one of the comma-separated logins of the exemption list needs no review |
| Check.UnlistedAuthorFallsThrough | check.go:62-68 | an author not in the list gets the same verdict as with no exemption list at all |
| Check.ExplanationSkipsReview | check.go:76-81 | a non-empty cleaned explanation after the leftmost no-review divider satisfies review, wherever in the body the divider stands |
| Check.EmptyExplanationFallsThrough | check.go:76-81 | an explanation that cleans to nothing does not exempt |
| Check.CheckerDecidesOtherwise | check.go:58-91 | when none of the five exemptions holds (no skip option, an author not in the list, no review comments, no non-empty explanation, even with a divider whose explanation cleans to nothing, and no exempting label), the verdict is exactly the approval checker's answer |
| Check.NoDividerNoExplanation | check.go:76-81 | a body without a no-review divider holds no explanation |
| Check.CheckPR | check.go:94-118 | `checkPR`: the review flag is `isReviewSatisfied`; the skip flag is the option; the test plan is never longer than the body and is trimmed; the protected-branch flag implies the base branch is the set protected branch |
| Check.NoTestPlanWithoutDivider | check.go:99-108 | without a test-plan divider the test plan is empty and the protected-branch flag is false, even when the base branch is the protected one |
| Check.TestPlanAfterFirstDivider | check.go:102-117 | with a leftmost divider at `[k, e)`, the test plan is the cleaned text after `e`; text before the divider is dropped; the protected-branch flag is `isProtectedBranch` |
| Check.LeadingDividerPlan | check.go:102-117 | a body that opens with a divider has the cleaned remainder as its test plan |
| Check.ProtectedBranchBlocksMerge | check.go:110-116 | a body with a test-plan divider that targets the protected branch is flagged and never satisfied |
| Check.MergeVerdict | check.go:94-118 | the result is satisfied exactly when three conditions all hold: the test plan is present or may be skipped; review is satisfied; the body does not both hold a test-plan divider and target the protected branch |
| Check.NoDividerVerdict | check.go:103-108 | without a test-plan divider the result is satisfied exactly when the test plan may be skipped and review is satisfied |
| Scenarios.HasTestPlan | check_test.go:25-32 | "has test plan": the plan `I have a plan!` is found, review is not satisfied, the result is not satisfied |
| Scenarios.ProtectedBranch | check_test.go:33-43 | "protected branch": base `release` with `release` protected is flagged |
| Scenarios.NonProtectedBranch | check_test.go:44-54 | "non protected branch": base `preprod` with `release` protected is not flagged |
| Scenarios.NoTestPlan | check_test.go:55-61 | "no test plan": no plan, and the test plan is not satisfied |
| Scenarios.SkipTestPlan | check_test.go:151-159 | "no test plan but skip-test-plans enabled": no plan, but the test plan is satisfied |
| Scenarios.ActuallyReviewed | check_test.go:160-168 | "has test plan and is actually reviewed": a review comment satisfies review, and the result is satisfied |
| Scenarios.AutomergeLabel | check_test.go:108-116 | the `automerge` label satisfies review |
| Scenarios.NoReviewRequiredLabel | check_test.go:117-125 | the `no-review-required` label satisfies review |
| Scenarios.WrongLabel | check_test.go:142-150 | the label `random-label` does not satisfy review |
| Scenarios.UserSkip | check_test.go:126-133 | author `user` in `foo,user,bar` needs no review |
| Scenarios.UserNotMatched | check_test.go:134-141 | author `user` is not in `foo,bar`, so review is not satisfied |
| Scenarios.UserNotListed | check_test.go:134-141 | `user` is not among the pieces of `foo,bar` |
| Scenarios.NoReviewRequired | check_test.go:92-99 | "no review required": a mid-line `No review required:` with an explanation satisfies review, and the test plan keeps the divider and the explanation |
| Scenarios.CommentedPlan | check_test.go:100-107 | "bad markdown still passes": a template comment in the plan is removed with its newline, and the explanation satisfies review |
| Scenarios.EmptyExplanationAsksChecker | check.go:76-91 | a body that is only `No review required:` has an empty explanation, so the review verdict is whatever the approval checker answers |
| Scenarios.InlinePlanKeepsExplanation | check.go:102-115 | with `Test plan:` inline, the plan runs to the end of the body, no-review explanation included, and review is satisfied |
| Scenarios.HeadingLeavesColon | check.go:36 | `## Test plan: x` is cut after the heading spelling, so the plan is `: x` |
| Scenarios.CommentedDividerCounts | check.go:102-123 | the divider is looked for before comments are removed, so `<!-- Test plan: -->` yields the plan `-->`, which satisfies the test-plan check |

## Left out

- `GithubApprovalChecker.IsApproved` (check.go:134-145) is left out. It asks the GitHub API for the pull request's reviews over the network and discards the error. The model keeps only the boolean answer, as the function value `ApprovalChecker`.
- The `Error` field of the check result is left out, because no code in the engine sets it.
- `Repository` and `Number` are left out. They are payload fields that only the network checker reads.
- Go strings are UTF-8 byte strings, and the model works on `seq<char>`. All three regular expressions are ASCII, so the two views agree on them. Invalid UTF-8 is not modelled.
- The general `regexp` engine is not part of this model. Only the three fixed expressions are written out, each as its own matcher.
- The test harness is left out, including its file reading, testify and go-cmp. The test cases read their bodies from files under `testdata/`, which is not part of this model. The scenario bodies here are written to match the expected results.
  - The "complicated test plan" and "inline test plan" cases (check_test.go:62-91) are not restated, because their bodies are not available.
  - The tests compare test plans with `strings.Contains`. The scenario lemmas state the exact plan.
- `Check.OtherLabelNoEffect` states that an extra label leaves the review exemptions unchanged. It does not claim the whole review verdict is unchanged, because the approval checker receives the payload with the extra label and may answer differently.
