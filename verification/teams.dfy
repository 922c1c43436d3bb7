/** `get_responsible_teams`: review teams chosen by path prefix. */
module Teams {
  import opened Changes

  /** A path prefix and the team that reviews files under it. */
  datatype Rule = Rule(prefix: string, team: string)

  /** The responsibility table, in the order the source lists it. */
  const Responsibilities: seq<Rule> := [
    Rule("src/", "backend"),
    Rule("requirements.txt", "backend"),
    Rule("src-ui/", "frontend"),
    Rule("docs/", "documentation"),
    Rule(".github/", "ci-cd")
  ]

  const AllTeams: set<string> := {"backend", "frontend", "documentation", "ci-cd"}

  /** Teams of the rules whose prefix starts `path`. */
  function FileTeams(rules: seq<Rule>, path: string): (teams: set<string>)
    ensures forall t :: t in teams ==> exists j :: 0 <= j < |rules| && rules[j].team == t
  {
    if |rules| == 0 then {}
    else (if rules[0].prefix <= path then {rules[0].team} else {}) + FileTeams(rules[1..], path)
  }

  /** Teams of every rule matching some file of the diff, for any rule table. */
  function TeamsFor(rules: seq<Rule>, d: Diff): (teams: set<string>)
    ensures forall t :: t in teams ==> exists j :: 0 <= j < |rules| && rules[j].team == t
  {
    if |d| == 0 then {} else FileTeams(rules, d[0].path) + TeamsFor(rules, d[1..])
  }

  /** The set built by `get_responsible_teams`. */
  function ResponsibleTeams(d: Diff): (teams: set<string>)
    ensures teams <= AllTeams
  {
    TeamsFor(Responsibilities, d)
  }

  /** The nested loops of `get_responsible_teams`: every file against every rule. */
  method GetResponsibleTeams(diff: Diff) returns (teams: set<string>)
    ensures teams == ResponsibleTeams(diff)
    ensures teams <= AllTeams
  {
    teams := CollectTeams(Responsibilities, diff);
  }

  method CollectTeams(rules: seq<Rule>, diff: Diff) returns (teams: set<string>)
    ensures teams == TeamsFor(rules, diff)
  {
    teams := {};
    for i := 0 to |diff|
      invariant teams == TeamsFor(rules, diff[..i])
    {
      for j := 0 to |rules|
        invariant teams == TeamsFor(rules, diff[..i]) + FileTeams(rules[..j], diff[i].path)
      {
        if rules[j].prefix <= diff[i].path {
          teams := teams + {rules[j].team};
        }
        FileTeamsAppend(rules[..j], rules[j], diff[i].path);
        assert rules[..j + 1] == rules[..j] + [rules[j]];
      }
      assert rules[..|rules|] == rules;
      assert diff[..i + 1] == diff[..i] + [diff[i]];
      TeamsForAppend(rules, diff[..i], [diff[i]]);
    }
    assert diff[..|diff|] == diff;
  }

  lemma {:induction false} FileTeamsAppend(rules: seq<Rule>, r: Rule, path: string)
    ensures FileTeams(rules + [r], path)
         == FileTeams(rules, path) + (if r.prefix <= path then {r.team} else {})
    decreases |rules|
  {
    if |rules| > 0 {
      assert (rules + [r])[1..] == rules[1..] + [r];
      FileTeamsAppend(rules[1..], r, path);
    }
  }

  /** A team is assigned to a path exactly when one of its rules' prefixes starts the path. */
  lemma {:induction false} FileTeamsIff(rules: seq<Rule>, path: string, t: string)
    ensures t in FileTeams(rules, path) <==>
      exists j :: 0 <= j < |rules| && rules[j].team == t && rules[j].prefix <= path
    decreases |rules|
  {
    if |rules| > 0 {
      FileTeamsIff(rules[1..], path, t);
      if exists j :: 1 <= j < |rules| && rules[j].team == t && rules[j].prefix <= path {
        var j :| 1 <= j < |rules| && rules[j].team == t && rules[j].prefix <= path;
        assert rules[1..][j - 1] == rules[j];
      }
      if exists j :: 0 <= j < |rules[1..]| && rules[1..][j].team == t && rules[1..][j].prefix <= path {
        var j :| 0 <= j < |rules[1..]| && rules[1..][j].team == t && rules[1..][j].prefix <= path;
        assert rules[1..][j] == rules[j + 1];
      }
    }
  }

  lemma {:induction false} TeamsForAppend(rules: seq<Rule>, d1: Diff, d2: Diff)
    ensures TeamsFor(rules, d1 + d2) == TeamsFor(rules, d1) + TeamsFor(rules, d2)
    decreases |d1|
  {
    if |d1| == 0 {
      assert d1 + d2 == d2;
    } else {
      assert (d1 + d2)[1..] == d1[1..] + d2;
      TeamsForAppend(rules, d1[1..], d2);
    }
  }

  /** Teams distribute over concatenation of diffs. */
  lemma TeamsAppend(d1: Diff, d2: Diff)
    ensures ResponsibleTeams(d1 + d2) == ResponsibleTeams(d1) + ResponsibleTeams(d2)
  {
    TeamsForAppend(Responsibilities, d1, d2);
  }

  lemma {:induction false} TeamsForIff(rules: seq<Rule>, d: Diff, t: string)
    ensures t in TeamsFor(rules, d) <==>
      exists f, j :: f in d && 0 <= j < |rules| && rules[j].team == t && rules[j].prefix <= f.path
    decreases |d|
  {
    if |d| > 0 {
      TeamsForIff(rules, d[1..], t);
      FileTeamsIff(rules, d[0].path, t);
      assert forall f :: f in d <==> f == d[0] || f in d[1..];
    }
  }

  /** A team is responsible exactly when some changed path starts with one of its prefixes. */
  lemma TeamsIff(d: Diff, t: string)
    ensures t in ResponsibleTeams(d) <==>
      exists f, j :: f in d && 0 <= j < |Responsibilities|
        && Responsibilities[j].team == t && Responsibilities[j].prefix <= f.path
  {
    TeamsForIff(Responsibilities, d, t);
  }

  /** A team can only come from its own rules. */
  lemma TeamNeedsItsPrefix(d: Diff, t: string, ps: seq<string>)
    requires forall j :: 0 <= j < |Responsibilities| && Responsibilities[j].team == t ==>
      Responsibilities[j].prefix in ps
    ensures t in ResponsibleTeams(d) ==> exists f, p :: f in d && p in ps && p <= f.path
  {
    TeamsIff(d, t);
  }

  /** A rule matching a changed file puts its team in. */
  lemma RuleApplies(d: Diff, f: FileChange, j: int)
    requires f in d && 0 <= j < |Responsibilities| && Responsibilities[j].prefix <= f.path
    ensures Responsibilities[j].team in ResponsibleTeams(d)
  {
    TeamsIff(d, Responsibilities[j].team);
  }

  /** The table spelled out team by team; no other team ever appears. */
  lemma TeamsByPrefix(d: Diff)
    ensures "backend" in ResponsibleTeams(d) <==>
      exists f :: f in d && ("src/" <= f.path || "requirements.txt" <= f.path)
    ensures "frontend" in ResponsibleTeams(d) <==> exists f :: f in d && "src-ui/" <= f.path
    ensures "documentation" in ResponsibleTeams(d) <==> exists f :: f in d && "docs/" <= f.path
    ensures "ci-cd" in ResponsibleTeams(d) <==> exists f :: f in d && ".github/" <= f.path
    ensures ResponsibleTeams(d) <= {"backend", "frontend", "documentation", "ci-cd"}
  {
    TeamNeedsItsPrefix(d, "backend", ["src/", "requirements.txt"]);
    TeamNeedsItsPrefix(d, "frontend", ["src-ui/"]);
    TeamNeedsItsPrefix(d, "documentation", ["docs/"]);
    TeamNeedsItsPrefix(d, "ci-cd", [".github/"]);
    forall f | f in d
      ensures "src/" <= f.path ==> "backend" in ResponsibleTeams(d)
      ensures "requirements.txt" <= f.path ==> "backend" in ResponsibleTeams(d)
      ensures "src-ui/" <= f.path ==> "frontend" in ResponsibleTeams(d)
      ensures "docs/" <= f.path ==> "documentation" in ResponsibleTeams(d)
      ensures ".github/" <= f.path ==> "ci-cd" in ResponsibleTeams(d)
    {
      var R := Responsibilities;
      if R[0].prefix <= f.path { RuleApplies(d, f, 0); }
      if R[1].prefix <= f.path { RuleApplies(d, f, 1); }
      if R[2].prefix <= f.path { RuleApplies(d, f, 2); }
      if R[3].prefix <= f.path { RuleApplies(d, f, 3); }
      if R[4].prefix <= f.path { RuleApplies(d, f, 4); }
    }
  }

  /** No teams exactly when no changed path starts with any prefix of the table (so none for an empty diff). */
  lemma NoTeamsIffNoMatch(d: Diff)
    ensures ResponsibleTeams(d) == {} <==>
      forall f, j :: f in d && 0 <= j < |Responsibilities| ==> !(Responsibilities[j].prefix <= f.path)
  {
    if ResponsibleTeams(d) != {} {
      var t :| t in ResponsibleTeams(d);
      TeamsIff(d, t);
    } else {
      forall f, j | f in d && 0 <= j < |Responsibilities|
        ensures !(Responsibilities[j].prefix <= f.path)
      {
        TeamsIff(d, Responsibilities[j].team);
      }
    }
  }

  /** Only which files appear matters: file order and repeated files do not change the teams. */
  lemma TeamsIgnoreOrderAndRepeats(d1: Diff, d2: Diff)
    requires forall f :: f in d1 <==> f in d2
    ensures ResponsibleTeams(d1) == ResponsibleTeams(d2)
  {
    forall t | t in ResponsibleTeams(d1) ensures t in ResponsibleTeams(d2) {
      TeamsIff(d1, t);
      TeamsIff(d2, t);
    }
    forall t | t in ResponsibleTeams(d2) ensures t in ResponsibleTeams(d1) {
      TeamsIff(d1, t);
      TeamsIff(d2, t);
    }
  }

  /** A file under `src/` (and under no other prefix) brings in the backend team only. */
  lemma BackendFileTeams(path: string, hunks: nat)
    requires |path| >= 4 && path[..4] == "src/"
    ensures ResponsibleTeams([FileChange(path, hunks)]) == {"backend"}
  {
    var d := [FileChange(path, hunks)];
    TeamsByPrefix(d);
    assert forall f :: f in d ==> f == d[0];
    assert path[0] == 's' && path[3] == '/';
    assert "src/" <= path;
    assert !("requirements.txt" <= path) && !("src-ui/" <= path);
    assert !("docs/" <= path) && !(".github/" <= path);
  }

  /** A file under `src-ui/` brings in the frontend team only: `src-ui/` is not under `src/`. */
  lemma FrontendFileTeams(path: string, hunks: nat)
    requires |path| >= 7 && path[..7] == "src-ui/"
    ensures ResponsibleTeams([FileChange(path, hunks)]) == {"frontend"}
  {
    var d := [FileChange(path, hunks)];
    TeamsByPrefix(d);
    assert forall f :: f in d ==> f == d[0];
    assert path[0] == 's' && path[3] == '-';
    assert "src-ui/" <= path;
    assert !("src/" <= path) && !("requirements.txt" <= path);
    assert !("docs/" <= path) && !(".github/" <= path);
  }
}
