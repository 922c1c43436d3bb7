# Pull-request labelling policy of the paperless-ngx secretary bot

The secretary bot is a GitHub webhook handler for the paperless-ngx
repository. When a pull request is opened, `opened_pr` in `api/pr.py` does
four things. It builds a `PatchSet` from the pull request's `patch_url` (see
Findings) and measures a *change size*: the number of hunks in the Python and
TypeScript files. It picks the
*responsible teams* from a table of path prefixes. It then posts a label list,
a size label followed by the teams. Finally it posts a welcome comment that
greets the submitter, states how many reviews are needed, and pages the
responsible teams.

This project models that policy as pure Dafny functions over plain data and
proves what it promises:

- `Changes`: a diff is a sequence of `FileChange(path, hunks)` records.
  `hunks` stands for `len` of the parsed file, which is the file's hunk count.
- `Strings`: Python's `split` on a one-character separator, `sep.join`, and
  substring containment.
- `Size`: `get_change_size`. The extension is `path.split(".")[-1]`, checked
  against the inclusion list `["py", "ts"]`. It is modelled both as a function
  and as the source's loop.
- `Teams`: `get_responsible_teams`. The prefix table is data
  (`Responsibilities`). The source's nested loop is proved to compute the
  recursive definition.
- `Template`: `str.format` with keyword arguments over a template cut into
  text and `{name}` fields. A missing binding gives `None`, where Python
  raises `KeyError`.
- `Policy`: the part of `opened_pr` that decides the posts. This covers the
  size label (threshold 5), the label list, the review-conditions sentence,
  the reviewer-mention sentence and the formatted comment. `OpenedPr` runs
  these steps in the source's order and returns what would be posted.

Python sets have no defined iteration order. The model therefore takes the
team set's iteration as an arbitrary enumeration `order`, meaning
`multiset(order) == multiset(teams)`. The same enumeration is used for the
labels and for the mentions, because the source iterates the same unmodified
set twice. Label properties are stated by membership and multiset, not by
position.

The constants and measures are the code's:

- a change is small when its size is below 5 (api/pr.py:68);
- `["py", "ts"]` is an inclusion list: only files of those types count
  (api/pr.py:38-40);
- a file adds `len(change)` to the size, its hunk count (api/pr.py:41).

## Model

| member | source | states |
|---|---|---|
| Strings.Split | api/pr.py:40 | `split` always yields at least one piece, and no piece contains the separator |
| Strings.JoinSplit | api/pr.py:40 | joining the pieces of a split with the separator gives back the original path |
| Strings.SplitJoin | api/pr.py:40 | splitting a join of at least one separator-free piece gives back exactly those pieces, so a split is determined by its pieces |
| Strings.Join | api/pr.py:84 | `", ".join(...)` of at least one part starts with the first part, so a non-empty listing never joins to the empty string |
| Strings.JoinKeepsParts | api/pr.py:84 | every part of `", ".join(...)` appears as a contiguous block of the result |
| Size.Extension | api/pr.py:40 | the extension `path.split(".")[-1]` never contains a dot |
| Size.ExtensionWithoutDot | api/pr.py:40 | a path without a dot is its own extension |
| Size.ExtensionAfterLastDot | api/pr.py:40 | for `stem + "." + ext` with `ext` dot-free, the extension is `ext`, whatever dots `stem` contains |
| Size.ExtensionIsTextAfterLastDot | api/pr.py:40 | the extension is the suffix after the last dot, or the whole path when there is no dot |
| Size.IsSized | api/pr.py:38-40 | a file counts when its extension is in `["py", "ts"]`; Size.SizedPaths states exactly which paths these are |
| Size.Contribution | api/pr.py:40-41 | one file adds its `len` (hunk count) when sized and nothing otherwise; Size.AppendFile states this for a file added to any diff |
| Size.SizedPaths | api/pr.py:38-40 | a file counts iff its path is exactly `py` or `ts`, or ends in `.py` or `.ts` |
| Size.ChangeSize | api/pr.py:36-42 | the change size never exceeds the total hunk count of all files |
| Size.GetChangeSize | api/pr.py:36-42 | the source's accumulation loop returns exactly the change size, bounded by all hunks |
| Size.ChangeSizeAppend | api/pr.py:39-41 | change size is additive: size(d1 + d2) = size(d1) + size(d2) |
| Size.AppendFile | api/pr.py:40-41 | adding a file of another type leaves the size unchanged; adding a `py`/`ts` file adds exactly its hunk count |
| Size.ChangeSizeExtremes | api/pr.py:37-42 | the size is 0 when no file is `py`/`ts` (including the empty diff), and equals all hunks when every file is |
| Size.SizedFileWeight | api/pr.py:40-41 | a one-file diff named `stem.py` or `stem.ts` weighs exactly its hunks |
| Teams.FileTeams | api/pr.py:31-33 | every team matched for one path comes from some rule of the table |
| Teams.TeamsFor | api/pr.py:29-34 | every collected team comes from some rule of the table |
| Teams.ResponsibleTeams | api/pr.py:21-34 | the result is always a subset of {backend, frontend, documentation, ci-cd} |
| Teams.CollectTeams | api/pr.py:29-34 | the nested file-by-rule loop computes exactly the set of teams of matching rules |
| Teams.GetResponsibleTeams | api/pr.py:21-34 | `get_responsible_teams` returns the responsible-team set, within the four known teams |
| Teams.FileTeamsAppend | api/pr.py:31-33 | checking one more rule adds its team exactly when its prefix starts the path |
| Teams.FileTeamsIff | api/pr.py:31-33 | a team is matched for a path iff one of its rules' prefixes starts the path |
| Teams.TeamsForAppend | api/pr.py:29-34 | team collection distributes over concatenation of diffs, for any rule table |
| Teams.TeamsAppend | api/pr.py:29-34 | teams(d1 + d2) = teams(d1) ∪ teams(d2) |
| Teams.TeamsForIff | api/pr.py:29-33 | a team is collected iff some file path starts with a prefix of one of its rules |
| Teams.TeamsIff | api/pr.py:22-33 | a team is responsible iff some changed path starts with one of the table's prefixes for that team |
| Teams.TeamNeedsItsPrefix | api/pr.py:22-33 | a team can only be responsible through a path that starts with one of that team's own prefixes |
| Teams.RuleApplies | api/pr.py:31-33 | a rule whose prefix starts a changed path always puts its team in the result |
| Teams.TeamsByPrefix | api/pr.py:22-33 | backend iff a path starts with `src/` or `requirements.txt`; frontend iff `src-ui/`; documentation iff `docs/`; ci-cd iff `.github/`; no other team |
| Teams.NoTeamsIffNoMatch | api/pr.py:22-34 | there is no responsible team iff no changed path starts with any prefix, so the empty diff has none |
| Teams.TeamsIgnoreOrderAndRepeats | api/pr.py:29-34 | two diffs with the same files, in any order and with any repeats, have the same teams |
| Teams.BackendFileTeams | api/pr.py:23-33 | a file under `src/` brings in the backend team and no other |
| Teams.FrontendFileTeams | api/pr.py:23-33 | a file under `src-ui/` brings in frontend and not backend, because `src-ui/` does not start with `src/` |
| Template.Format | api/pr.py:88 | formatting succeeds iff every replacement field of the template has a value; a missing one is the `KeyError` |
| Template.FormatCons | api/pr.py:88 | formatting a piece in front of a template puts the piece's text in front of the rest, and fails if either part fails |
| Template.FormatAppend | api/pr.py:88 | formatting a concatenation of templates concatenates the results, and fails iff a part fails |
| Policy.EnumerationFacts | api/pr.py:76 | iterating the team set lists every team exactly once: same members, same count, no repeats |
| Policy.RepeatCounts | api/pr.py:76 | a value listed at two positions occurs at least twice in the listing's multiset |
| Policy.Enumerate | api/pr.py:76 | iteration over a set yields a listing whose multiset equals the set's |
| Policy.SizeLabel | api/pr.py:72-75 | the size label is `small-change` iff the change is small and `non-trivial` iff it is not |
| Policy.ReviewConditions | api/pr.py:79-82 | the review-conditions sentence is the single-contributor text iff the change is small, the two-reviews text iff not |
| Policy.Mentions | api/pr.py:84 | each team becomes `@team`, in the listing's order; Policy.PageReviewersMentionAll proves every one reaches the reviewer sentence |
| Policy.PageReviewers | api/pr.py:84-86 | the reviewer sentence is empty iff there is no team to mention |
| Policy.PageReviewersMentionAll | api/pr.py:84-86 | every listed team appears as `@team` in the reviewer sentence |
| Policy.MentionsReachComment | api/pr.py:84-88 | any text carrying the reviewer sentence mentions `@team` for every listed team |
| Policy.Labels | api/pr.py:67-76 | labels are the size label followed by exactly the responsible teams: length 1 + number of teams, same multiset; `small-change` first iff size < 5, `non-trivial` first iff size >= 5 |
| Policy.SizeLabelsAreNotTeams | api/pr.py:22-28 | neither size label is the name of a team |
| Policy.ExactlyOneSizeLabel | api/pr.py:68-75 | the labels contain exactly one of `small-change` and `non-trivial`, once |
| Policy.Decide | api/pr.py:67-88 | the labels are 1 + number of teams long, `small-change` first iff size < 5, then the teams in the same order the reviewer sentence lists them; the comment greets `@login` and carries the review rule and the reviewer sentence |
| Policy.NewPrLayout | api/pr.py:44-59 | formatting the welcome template with its three fields bound gives the template text with each value in its field's place |
| Policy.Comment | api/pr.py:88 | the formatted comment greets `@login` and contains both the review-conditions sentence and the reviewer sentence |
| Policy.CommentLayout | api/pr.py:88 | `new_pr_template.format(user=..., review_conditions=..., page_reviewers=...)` never raises, and gives the template text with the login, the review rule and the reviewer sentence in their places |
| Policy.GreetingMentions | api/pr.py:45 | the greeting line followed by the login contains `@login` |
| Policy.CommentContents | api/pr.py:79-89 | the posted comment greets `@login` and states the review rule for the size, which is the single-contributor one iff size < 5; it mentions `@team` for every responsible team; the reviewer sentence is empty iff there is no team |
| Policy.ThresholdBoundary | api/pr.py:68-76 | one `src/….py` file with 4 hunks is labelled `small-change, backend`; with 5 hunks it is labelled `non-trivial, backend`; the stem may contain dots |
| Policy.ReadmeOnlyScenario | api/pr.py:21-42 | a top-level `README.<ext>` of an unsized type has size 0 and no team, so it is labelled `small-change` alone and pages no one |
| Policy.BackendAndFrontendScenario | api/pr.py:36-76 | a `src/….py` file with 15 hunks plus a `src-ui/….ts` file with 3 has size 18; its labels are `non-trivial`, backend and frontend in some order |
| Policy.EmptyPatchDecision | api/pr.py:65-88 | a patch with no files gets labels `[small-change]` and the single-contributor comment with an empty reviewer sentence |
| Policy.OpenedPr | api/pr.py:62-88 | the handler's computation, with its loops and its set iteration, posts exactly the decision of the policy for some enumeration of the responsible teams |

## Left out

- `main` (api/pr.py:92-120) is left out. It covers the installation-token exchange, webhook signature verification, the HTTP session, the one-second pause, rate-limit logging and the mapping of exceptions to status 500. All of it is I/O or calls into libraries.
- The `LRUCache` of 500 entries (api/pr.py:19) is left out. It is a shared third-party cache of HTTP responses and has no effect on the policy's output.
- `PatchSet(...)` diff parsing (api/pr.py:65) is left out because it is the unidiff library's job. The model's `diff` is the file list of the fetched patch, each file abstracted to its path and hunk count. That is not what line 65 builds: it hands the URL string itself to `PatchSet` (see Findings).
- The two `gh.post` calls (api/pr.py:77, 89) are network writes. Only the data passed to them is modelled (`Decision.labels`, `Decision.comment`).
- The router registration and application wiring (api/pr.py:18, 61, 123-124) are left out.
- Python's set iteration order is not modelled. It is an arbitrary enumeration, supplied as `order` in `Policy.Labels` and chosen with `:|` in `Policy.Enumerate`.
- The template text is cut into text and fields by hand. `str.format`'s own parsing of `{…}` and `{{` escapes is not modelled, and the template contains no escapes.
- Policy.CommentContents: states that the comment contains the sentence chosen for the size. It does not state that the comment lacks the other sentence, because that needs a search of the whole template text for absence. The sentence choice itself is stated both ways (Policy.ReviewConditions).
- Policy.Comment: states only that `@login` and the two sentences appear in the comment, not where. Their places are stated by Policy.CommentLayout.

## Findings

| source | as written | input that shows it | evidently intended | confidence | as-written member | corrected member |
|---|---|---|---|---|---|---|
| api/pr.py:65 | `PatchSet(pull_request["patch_url"])` passes the URL string itself. unidiff reads a string argument as diff text, and a URL line is no file header, so the patch has no files. | Any opened pull request, for example one changing `src/app.py` by 15 hunks and `src-ui/main.ts` by 3. Its `patch_url` is a `https://…/pull/N.patch` string, so the decision is `[small-change]` with no team and no reviewer sentence. | Fetch the patch at `patch_url`, then parse it. The size and the teams then follow the changed files: `non-trivial`, backend and frontend for that example, as Policy.BackendAndFrontendScenario proves. | medium, not executed; depends on unidiff's handling of a string argument, which is not part of this model | Policy.EmptyPatchDecision | Policy.OpenedPr |
