/** The decision `opened_pr` takes for a newly opened pull request: the
    labels it posts and the welcome comment it posts, computed from the diff
    and the submitter's login. The two posts themselves are not modelled. */
module Policy {
  import opened Strings
  import opened Changes
  import opened Size
  import opened Teams
  import opened Template

  /** Below this change size a pull request is a small change. */
  const SmallChangeLimit: nat := 5

  const SmallChangeLabel := "small-change"
  const NonTrivialLabel := "non-trivial"

  const SingleReviewText :=
    "Since this seems to be only a small change, only a single contributor will have to review your changes."
  const TwoReviewsText :=
    "Since this is a non-trivial change, a review from at least two contributors is required."

  /** The size label: `small-change` exactly for a small change, `non-trivial` otherwise. */
  function SizeLabel(small: bool): (name: string)
    ensures name == SmallChangeLabel <==> small
    ensures name == NonTrivialLabel <==> !small
  {
    assert |SmallChangeLabel| == 12 && |NonTrivialLabel| == 11;
    if small then SmallChangeLabel else NonTrivialLabel
  }

  /** The review rule: the single-contributor sentence exactly for a small change. */
  function ReviewConditions(small: bool): (sentence: string)
    ensures sentence == SingleReviewText <==> small
    ensures sentence == TwoReviewsText <==> !small
  {
    assert |SingleReviewText| == 103 && |TwoReviewsText| == 88;
    if small then SingleReviewText else TwoReviewsText
  }

  /** `order` lists the set `s`, each member once, in some order: how Python
      iterates a set, whose order the model leaves open. */
  predicate IsEnumeration(order: seq<string>, s: set<string>)
  {
    multiset(order) == multiset(s)
  }

  lemma EnumerationFacts(order: seq<string>, s: set<string>)
    requires IsEnumeration(order, s)
    ensures |order| == |s|
    ensures forall x :: x in order <==> x in s
    ensures forall i, j :: 0 <= i < j < |order| ==> order[i] != order[j]
  {
    assert |multiset(order)| == |order|;
    assert |multiset(s)| == |s|;
    forall x ensures x in order <==> x in s {
      assert x in order <==> x in multiset(order);
      assert x in s <==> x in multiset(s);
    }
    forall i, j | 0 <= i < j < |order|
      ensures order[i] != order[j]
    {
      RepeatCounts(order, i, j);
    }
  }

  lemma RepeatCounts(order: seq<string>, i: int, j: int)
    requires 0 <= i < j < |order|
    ensures order[i] == order[j] ==> multiset(order)[order[i]] >= 2
  {
    assert order == order[..i] + [order[i]] + order[i + 1..j] + [order[j]] + order[j + 1..];
  }

  /** Python's iteration over a set, as an arbitrary but complete listing. */
  method Enumerate(s: set<string>) returns (order: seq<string>)
    ensures IsEnumeration(order, s)
  {
    order := [];
    var rest := s;
    while rest != {}
      invariant rest <= s
      invariant multiset(order) + multiset(rest) == multiset(s)
      decreases |rest|
    {
      var t :| t in rest;
      assert multiset(rest) == multiset(rest - {t}) + multiset{t};
      order := order + [t];
      rest := rest - {t};
    }
  }

  /** `map(lambda x: f"@{x}", responsible)` */
  function Mentions(order: seq<string>): seq<string>
  {
    seq(|order|, i requires 0 <= i < |order| => "@" + order[i])
  }

  /** The reviewer sentence: the comma-joined mentions, wrapped in a sentence
      when that join is not empty. */
  function PageReviewers(order: seq<string>): (sentence: string)
    ensures sentence == "" <==> order == []
  {
    var joined := Join(Mentions(order), ", ");
    assert order != [] ==> Mentions(order)[0] == "@" + order[0];
    if joined != "" then "Someone from " + joined + " should look at your PR." else joined
  }

  /** Every listed team is mentioned as `@team` in the reviewer sentence. */
  lemma PageReviewersMentionAll(order: seq<string>)
    ensures forall t :: t in order ==> IsInfix("@" + t, PageReviewers(order))
  {
    var ms := Mentions(order);
    var joined := Join(ms, ", ");
    JoinKeepsParts(ms, ", ");
    forall t | t in order
      ensures IsInfix("@" + t, PageReviewers(order))
    {
      var i :| 0 <= i < |order| && order[i] == t;
      assert ms[i] == "@" + t;
      InfixOfConcat("Someone from ", joined, " should look at your PR.");
      InfixTransitive("@" + t, joined, PageReviewers(order));
    }
  }

  /** The welcome comment template, cut at its three replacement fields. */
  const NewPrTemplate: seq<Piece> := [
    Text(Greeting), Field("user"), Text(NextSteps), Field("review_conditions"),
    Text(" "), Field("page_reviewers"), Text(Closing)
  ]

  const Greeting := "\nHello @"

  const NextSteps :=
    ",\n\nthank you very much for submitting this PR to us!\n\n"
    + "This is what will happen next:\n\n"
    + "1. My robotic colleagues are currently checking your changes to see if they break anything. "
    + "You can see the progress below.\n"
    + "2. Once that is finished, human contributors from paperless-ngx review your changes. "

  const Closing :=
    "\n3. Please improve anything that comes up during the review until your pull request gets approved.\n"
    + "4. Your pull request will be merged into the `dev` branch. Changes there will be tested further.\n"
    + "5. Eventually, changes from you and other contributors will be merged into `master` "
    + "and a new release will be made.\n\n"
    + "Please allow up to 7 days for an initial review. "
    + "We're all very excited about new pull requests but we only do this as a hobby.\n"
    + "If any action is required by you, please reply within a month.\n"

  function CommentBindings(login: string, small: bool, order: seq<string>): map<string, string>
  {
    map["user" := login, "review_conditions" := ReviewConditions(small),
        "page_reviewers" := PageReviewers(order)]
  }

  /** The template formatted with its three fields bound: its text with each
      value in its field's place. */
  lemma NewPrLayout(b: map<string, string>)
    requires "user" in b && "review_conditions" in b && "page_reviewers" in b
    ensures Format(NewPrTemplate, b) == Some(Greeting + (b["user"] + (NextSteps
      + (b["review_conditions"] + (" " + (b["page_reviewers"] + Closing))))))
  {
    var t6 := [Text(Closing)];
    var t5 := [Field("page_reviewers")] + t6;
    var t4 := [Text(" ")] + t5;
    var t3 := [Field("review_conditions")] + t4;
    var t2 := [Text(NextSteps)] + t3;
    var t1 := [Field("user")] + t2;
    var t0 := [Text(Greeting)] + t1;
    assert t0 == NewPrTemplate;
    FormatCons(Text(Closing), [], b);
    FormatCons(Field("page_reviewers"), t6, b);
    FormatCons(Text(" "), t5, b);
    FormatCons(Field("review_conditions"), t4, b);
    FormatCons(Text(NextSteps), t3, b);
    FormatCons(Field("user"), t2, b);
    FormatCons(Text(Greeting), t1, b);
    assert [Text(Closing)] + [] == t6;
    assert Format(t6, b) == Some(Closing + "");
    assert Closing + "" == Closing;
  }

  /** The welcome comment, `new_pr_template.format(...)`. Every field is
      bound, so it never fails. It greets `@login` and carries the review
      rule and the reviewer sentence. */
  function Comment(login: string, small: bool, order: seq<string>): (comment: string)
    ensures IsInfix("@" + login, comment)
    ensures IsInfix(ReviewConditions(small), comment)
    ensures IsInfix(PageReviewers(order), comment)
  {
    var b := CommentBindings(login, small, order);
    LayoutInfixes(login, small, order);
    Format(NewPrTemplate, b).value
  }

  lemma LayoutInfixes(login: string, small: bool, order: seq<string>)
    ensures var f := Format(NewPrTemplate, CommentBindings(login, small, order));
      && f.Some?
      && IsInfix("@" + login, f.value)
      && IsInfix(ReviewConditions(small), f.value)
      && IsInfix(PageReviewers(order), f.value)
  {
    var rest := NextSteps + (ReviewConditions(small) + (" " + (PageReviewers(order) + Closing)));
    CommentLayout(login, small, order);
    GreetingMentions(login, rest);
    FieldsInfix(Greeting, login, NextSteps, ReviewConditions(small), " ", PageReviewers(order), Closing);
  }

  /** `new_pr_template.format(user=..., review_conditions=..., page_reviewers=...)`
      never raises, and gives the template's text with the login, the review
      rule and the reviewer sentence in their places. */
  lemma CommentLayout(login: string, small: bool, order: seq<string>)
    ensures Format(NewPrTemplate, CommentBindings(login, small, order)) == Some(Greeting + (login
      + (NextSteps + (ReviewConditions(small) + (" " + (PageReviewers(order) + Closing))))))
  {
    var b := CommentBindings(login, small, order);
    assert |"user"| == 4 && |"review_conditions"| == 17 && |"page_reviewers"| == 14;
    assert b["user"] == login && b["review_conditions"] == ReviewConditions(small)
      && b["page_reviewers"] == PageReviewers(order);
    NewPrLayout(b);
  }

  lemma FieldsInfix(g: string, u: string, n: string, rc: string, sp: string, pr: string, cl: string)
    ensures IsInfix(rc, g + (u + (n + (rc + (sp + (pr + cl))))))
    ensures IsInfix(pr, g + (u + (n + (rc + (sp + (pr + cl))))))
  {
    assert g + (u + (n + (rc + (sp + (pr + cl))))) == (g + u + n) + rc + (sp + pr + cl);
    assert g + (u + (n + (rc + (sp + (pr + cl))))) == (g + u + n + rc + sp) + pr + cl;
    InfixOfConcat(g + u + n, rc, sp + pr + cl);
    InfixOfConcat(g + u + n + rc + sp, pr, cl);
  }

  /** The label list of `opened_pr`: the size label, then the team set in
      its iteration order `order`. */
  function Labels(diff: Diff, order: seq<string>): (labels: seq<string>)
    requires IsEnumeration(order, ResponsibleTeams(diff))
    ensures |labels| == 1 + |ResponsibleTeams(diff)|
    ensures labels[0] == SmallChangeLabel <==> ChangeSize(diff) < SmallChangeLimit
    ensures labels[0] == NonTrivialLabel <==> ChangeSize(diff) >= SmallChangeLimit
    ensures labels[1..] == order
    ensures multiset(labels[1..]) == multiset(ResponsibleTeams(diff))
    ensures forall l :: l in labels <==> l == labels[0] || l in ResponsibleTeams(diff)
    ensures multiset(labels) == multiset{labels[0]} + multiset(ResponsibleTeams(diff))
  {
    EnumerationFacts(order, ResponsibleTeams(diff));
    var labels := [SizeLabel(ChangeSize(diff) < SmallChangeLimit)] + order;
    assert labels[1..] == order;
    assert labels == [labels[0]] + order;
    labels
  }

  /** Exactly one size label is posted, never both and never neither. */
  lemma ExactlyOneSizeLabel(diff: Diff, order: seq<string>)
    requires IsEnumeration(order, ResponsibleTeams(diff))
    ensures var m := multiset(Labels(diff, order));
      m[SmallChangeLabel] + m[NonTrivialLabel] == 1
  {
    SizeLabelsAreNotTeams();
  }

  lemma SizeLabelsAreNotTeams()
    ensures SmallChangeLabel !in AllTeams && NonTrivialLabel !in AllTeams
  {
    assert |SmallChangeLabel| == 12 && |NonTrivialLabel| == 11;
  }

  /** What `opened_pr` posts: the label list and the comment body. */
  datatype Decision = Decision(labels: seq<string>, comment: string)

  /** The policy of `opened_pr`, with `order` the iteration order of the team
      set: both posts follow from the same size and the same listing of teams. */
  function Decide(diff: Diff, login: string, order: seq<string>): (dec: Decision)
    requires IsEnumeration(order, ResponsibleTeams(diff))
    ensures |dec.labels| == 1 + |ResponsibleTeams(diff)|
    ensures dec.labels[0] == SmallChangeLabel <==> ChangeSize(diff) < SmallChangeLimit
    ensures dec.labels[1..] == order
    ensures IsInfix("@" + login, dec.comment)
    ensures IsInfix(ReviewConditions(ChangeSize(diff) < SmallChangeLimit), dec.comment)
    ensures IsInfix(PageReviewers(order), dec.comment)
  {
    var small := ChangeSize(diff) < SmallChangeLimit;
    Decision(Labels(diff, order), Comment(login, small, order))
  }

  lemma GreetingMentions(login: string, rest: string)
    ensures IsInfix("@" + login, Greeting + (login + rest))
  {
    var hello := "\nHello ";
    assert Greeting == hello + "@";
    assert Greeting + (login + rest) == hello + ("@" + login) + rest;
    InfixOfConcat(hello, "@" + login, rest);
  }

  /** The comment of `opened_pr` greets the submitter, states the review rule
      for the change's size, and mentions every responsible team; the reviewer
      sentence is empty exactly when no team is responsible. */
  lemma CommentContents(diff: Diff, login: string, order: seq<string>)
    requires IsEnumeration(order, ResponsibleTeams(diff))
    ensures var c := Decide(diff, login, order).comment;
      && IsInfix("@" + login, c)
      && IsInfix(ReviewConditions(ChangeSize(diff) < SmallChangeLimit), c)
      && (forall t :: t in ResponsibleTeams(diff) ==> IsInfix("@" + t, c))
    ensures (ReviewConditions(ChangeSize(diff) < SmallChangeLimit) == SingleReviewText)
      <==> ChangeSize(diff) < SmallChangeLimit
    ensures PageReviewers(order) == "" <==> ResponsibleTeams(diff) == {}
  {
    EnumerationFacts(order, ResponsibleTeams(diff));
    MentionsReachComment(order, Decide(diff, login, order).comment);
  }

  /** A text carrying the reviewer sentence mentions every listed team. */
  lemma MentionsReachComment(order: seq<string>, c: string)
    requires IsInfix(PageReviewers(order), c)
    ensures forall t :: t in order ==> IsInfix("@" + t, c)
  {
    PageReviewersMentionAll(order);
    forall t | t in order
      ensures IsInfix("@" + t, c)
    {
      InfixTransitive("@" + t, PageReviewers(order), c);
    }
  }

  /** The threshold on one backend Python file: 4 hunks is a small change, 5 is not. */
  lemma ThresholdBoundary(stem: string, hunks: nat)
    ensures var d := [FileChange("src/" + stem + ".py", hunks)];
      && ChangeSize(d) == hunks
      && ResponsibleTeams(d) == {"backend"}
      && IsEnumeration(["backend"], ResponsibleTeams(d))
      && Labels(d, ["backend"]) == [SizeLabel(hunks < 5), "backend"]
      && (hunks == 4 ==> Labels(d, ["backend"])[0] == SmallChangeLabel)
      && (hunks == 5 ==> Labels(d, ["backend"])[0] == NonTrivialLabel)
  {
    var path := "src/" + stem + ".py";
    var d := [FileChange(path, hunks)];
    SizedFileWeight("src/" + stem, "py", hunks);
    assert "src/" + stem + "." + "py" == path;
    BackendFileTeams(path, hunks);
  }

  /** A top-level `README` file of an unsized type (such as `README.md`):
      size 0 and under no prefix, so a small change with no team. */
  lemma ReadmeOnlyScenario(ext: string, hunks: nat)
    requires '.' !in ext && ext != "py" && ext != "ts"
    ensures var d := [FileChange("README." + ext, hunks)];
      && ChangeSize(d) == 0
      && ResponsibleTeams(d) == {}
      && IsEnumeration([], ResponsibleTeams(d))
      && Labels(d, []) == [SmallChangeLabel]
      && PageReviewers([]) == ""
  {
    var p := "README." + ext;
    var d := [FileChange(p, hunks)];
    ExtensionAfterLastDot("README", ext);
    assert "README" + "." + ext == p;
    assert d[1..] == [];
    TeamsByPrefix(d);
    assert forall f :: f in d ==> f == d[0];
    assert p[0] == 'R';
    assert !("src/" <= p) && !("requirements.txt" <= p) && !("src-ui/" <= p);
    assert !("docs/" <= p) && !(".github/" <= p);
  }

  /** A backend Python file with 15 hunks and a frontend TypeScript file with
      3: both count, and both teams are labelled after `non-trivial`. */
  lemma BackendAndFrontendScenario(stem1: string, stem2: string, order: seq<string>)
    requires IsEnumeration(order, {"backend", "frontend"})
    ensures var d := [FileChange("src/" + stem1 + ".py", 15), FileChange("src-ui/" + stem2 + ".ts", 3)];
      && ChangeSize(d) == 18
      && ResponsibleTeams(d) == {"backend", "frontend"}
      && Labels(d, order)[0] == NonTrivialLabel
      && multiset(Labels(d, order)) == multiset{NonTrivialLabel, "backend", "frontend"}
  {
    var d := [FileChange("src/" + stem1 + ".py", 15), FileChange("src-ui/" + stem2 + ".ts", 3)];
    BackendAndFrontendDiff(stem1, stem2);
    NonTrivialBackendAndFrontend(d, order);
  }

  lemma BackendAndFrontendDiff(stem1: string, stem2: string)
    ensures var d := [FileChange("src/" + stem1 + ".py", 15), FileChange("src-ui/" + stem2 + ".ts", 3)];
      ChangeSize(d) == 18 && ResponsibleTeams(d) == {"backend", "frontend"}
  {
    var f1 := FileChange("src/" + stem1 + ".py", 15);
    var f2 := FileChange("src-ui/" + stem2 + ".ts", 3);
    SizedFileWeight("src/" + stem1, "py", 15);
    assert "src/" + stem1 + "." + "py" == f1.path;
    SizedFileWeight("src-ui/" + stem2, "ts", 3);
    assert "src-ui/" + stem2 + "." + "ts" == f2.path;
    assert [f1, f2] == [f1] + [f2];
    ChangeSizeAppend([f1], [f2]);
    TeamsAppend([f1], [f2]);
    BackendFileTeams(f1.path, 15);
    FrontendFileTeams(f2.path, 3);
  }

  lemma NonTrivialBackendAndFrontend(d: Diff, order: seq<string>)
    requires ChangeSize(d) >= SmallChangeLimit
    requires ResponsibleTeams(d) == {"backend", "frontend"}
    requires IsEnumeration(order, ResponsibleTeams(d))
    ensures Labels(d, order)[0] == NonTrivialLabel
    ensures multiset(Labels(d, order)) == multiset{NonTrivialLabel, "backend", "frontend"}
  {
    var labels := Labels(d, order);
    assert |"backend"| == 7 && |"frontend"| == 8;
    PairMultiset("backend", "frontend");
    assert multiset(labels) == multiset{labels[0]} + multiset{"backend", "frontend"};
  }

  lemma PairMultiset(a: string, b: string)
    requires a != b
    ensures multiset({a, b}) == multiset{a, b}
  {
    assert {a, b} == {a} + {b};
  }

  /** The decision for a patch with no files, which is what `opened_pr` gets
      when the patch it builds is read from the patch URL's text rather than
      from the fetched patch: a small change, no team, no reviewer sentence,
      whatever the pull request changes. */
  lemma EmptyPatchDecision(login: string)
    ensures ChangeSize([]) == 0 && ResponsibleTeams([]) == {}
    ensures IsEnumeration([], ResponsibleTeams([]))
    ensures Decide([], login, []).labels == [SmallChangeLabel]
    ensures Decide([], login, []).comment == Comment(login, true, [])
    ensures ReviewConditions(true) == SingleReviewText && PageReviewers([]) == ""
  {
    var dec := Decide([], login, []);
    assert dec.labels[1..] == [];
  }

  /** The running of `opened_pr` up to the two posts: size loop, team loops,
      one iteration of the team set for both the labels and the mentions. */
  method OpenedPr(diff: Diff, login: string) returns (dec: Decision)
    ensures |dec.labels| >= 1
    ensures IsEnumeration(dec.labels[1..], ResponsibleTeams(diff))
    ensures dec == Decide(diff, login, dec.labels[1..])
  {
    var size := GetChangeSize(diff);
    var small := size < SmallChangeLimit;
    var responsible := GetResponsibleTeams(diff);
    var order := Enumerate(responsible);
    var labels: seq<string> := [];
    if small {
      labels := labels + [SmallChangeLabel];
    } else {
      labels := labels + [NonTrivialLabel];
    }
    labels := labels + order;
    assert labels[1..] == order;
    assert labels == Labels(diff, order);
    dec := Decision(labels, Comment(login, small, order));
  }
}
