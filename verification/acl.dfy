/** The access-control evaluator of the request handler: a whitelist gate,
    then the blacklist, then the pass-list, all three applying the same
    rule predicate against the capture groups of the classifier.

    A rule is the parsed form of one configuration line: `user` blocks or
    admits every repository of `user`, `user/repo` one repository, and the
    wildcard rule `('*', repo)` every repository called `repo`. */
module Acl {

  /** One rule as a tuple of one or two segments. */
  type Rule = seq<string>

  /** A rule with one or two segments, whose wildcard form has both. The
      handler indexes the second segment of a wildcard rule whenever the
      groups have two elements, so `('*',)` would raise there. */
  predicate WellFormedRule(rule: Rule) {
    1 <= |rule| <= 2 && (rule[0] == "*" ==> |rule| == 2)
  }

  predicate WellFormedList(rules: seq<Rule>) {
    forall k :: 0 <= k < |rules| ==> WellFormedRule(rules[k])
  }

  /** The three rule lists, fixed for the life of the process. */
  datatype Lists = Lists(white: seq<Rule>, black: seq<Rule>, pass: seq<Rule>)

  predicate WellFormed(lists: Lists) {
    WellFormedList(lists.white) && WellFormedList(lists.black) && WellFormedList(lists.pass)
  }

  /** The outcome of the three scans. */
  datatype Verdict = Allowed | DeniedByWhitelist | DeniedByBlacklist | PassThrough

  /** `m[:len(i)] == i or i[0] == '*' and len(m) == 2 and m[1] == i[1]`. */
  predicate RuleHits(rule: Rule, groups: seq<string>)
    requires WellFormedRule(rule)
  {
    || (|rule| <= |groups| && groups[..|rule|] == rule)
    || (rule[0] == "*" && |groups| == 2 && groups[1] == rule[1])
  }

  /** Some rule of the list hits the groups. */
  predicate Hits(rules: seq<Rule>, groups: seq<string>)
    requires WellFormedList(rules)
  {
    exists k :: 0 <= k < |rules| && RuleHits(rules[k], groups)
  }

  /** The order of the three gates, stated on whole lists. */
  function Evaluate(lists: Lists, groups: seq<string>): Verdict
    requires WellFormed(lists)
  {
    if |lists.white| > 0 && !Hits(lists.white, groups) then DeniedByWhitelist
    else if Hits(lists.black, groups) then DeniedByBlacklist
    else if Hits(lists.pass, groups) then PassThrough
    else Allowed
  }

  /** One `for i in rules: if <rule hits>: ...` loop, stopping at the first hit. */
  method Scan(rules: seq<Rule>, groups: seq<string>) returns (hit: bool)
    requires WellFormedList(rules)
    ensures hit <==> Hits(rules, groups)
  {
    var k := 0;
    while k < |rules|
      invariant 0 <= k <= |rules|
      invariant forall j :: 0 <= j < k ==> !RuleHits(rules[j], groups)
    {
      if RuleHits(rules[k], groups) {
        return true;
      }
      k := k + 1;
    }
    return false;
  }

  /** The three loops of the handler in their order: the whitelist loop
      whose `else` denies, the blacklist loop that denies on a hit, and the
      pass-list loop that sets `pass_by`. */
  method Decide(lists: Lists, groups: seq<string>) returns (v: Verdict)
    requires WellFormed(lists)
    ensures v == Evaluate(lists, groups)
  {
    if |lists.white| > 0 {
      var admitted := Scan(lists.white, groups);
      if !admitted {
        return DeniedByWhitelist;
      }
    }
    var blocked := Scan(lists.black, groups);
    if blocked {
      return DeniedByBlacklist;
    }
    var passBy := Scan(lists.pass, groups);
    v := if passBy then PassThrough else Allowed;
  }

  /** The wildcard rule `('*', repo)` hits exactly the two-group matches
      whose repo is `repo`: never another repo, never the one-group gist
      match (the classifier yields one or two groups). */
  lemma WildcardHits(repo: string, groups: seq<string>)
    requires |groups| <= 2
    ensures RuleHits(["*", repo], groups) <==> |groups| == 2 && groups[1] == repo
  {
    if |groups| >= 2 && groups[..2] == ["*", repo] {
      assert groups[1] == groups[..2][1];
    }
  }

  /** A one-segment rule `user` hits every match whose author is `user`. */
  lemma AuthorRuleHits(user: string, groups: seq<string>)
    requires user != "*"
    ensures RuleHits([user], groups) <==> |groups| >= 1 && groups[0] == user
  {
    if |groups| >= 1 && groups[0] == user {
      assert groups[..1] == [user];
    }
  }

  /** A two-segment rule `user/repo` without wildcard hits a two-group match
      exactly when both groups agree. */
  lemma RepoRuleHits(user: string, repo: string, groups: seq<string>)
    requires user != "*" && |groups| == 2
    ensures RuleHits([user, repo], groups) <==> groups == [user, repo]
  {
    assert groups[..2] == groups;
  }

  /** The pass-list cannot resurrect a blacklisted match: a match hit by both
      lists is denied, by the whitelist gate or by the blacklist. */
  lemma BlacklistBeatsPassList(lists: Lists, groups: seq<string>)
    requires WellFormed(lists)
    requires Hits(lists.black, groups)
    ensures Evaluate(lists, groups) != PassThrough && Evaluate(lists, groups) != Allowed
    ensures |lists.white| == 0 || Hits(lists.white, groups) ==> Evaluate(lists, groups) == DeniedByBlacklist
  {
  }

  /** A non-empty whitelist that no rule of which hits denies, whatever the
      other two lists hold. */
  lemma WhitelistGate(lists: Lists, groups: seq<string>)
    requires WellFormed(lists)
    requires |lists.white| > 0 && forall k :: 0 <= k < |lists.white| ==> !RuleHits(lists.white[k], groups)
    ensures Evaluate(lists, groups) == DeniedByWhitelist
  {
  }

  /** With all three lists empty every match is allowed. */
  lemma EmptyListsAllow(groups: seq<string>)
    ensures WellFormed(Lists([], [], []))
    ensures Evaluate(Lists([], [], []), groups) == Allowed
  {
  }
}
