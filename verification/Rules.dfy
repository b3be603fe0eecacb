// Block rules over reversed label lists: what a rule means, what the search
// makes of one rule, and the search over a whole trie given by its paths.

module Rules {
  import opened Types
  import opened Glob

  datatype Token = Multi | Pattern(raw: string) | Exact(name: string)

  type Rule = seq<Token>

  function TokenOf(s: string): Token {
    if s == "**" then Multi else if STAR in s then Pattern(s) else Exact(Lower(s))
  }

  function TokensOf(labels: seq<string>): (r: Rule)
    ensures |r| == |labels|
    ensures forall i | 0 <= i < |labels| :: r[i] == TokenOf(labels[i])
  {
    if labels == [] then [] else [TokenOf(labels[0])] + TokensOf(labels[1..])
  }

  predicate Fits(t: Token, l: string) {
    match t
    case Multi => false
    case Pattern(raw) => LabelMatches(raw, l)
    case Exact(name) => name == l
  }

  // ---------- the meaning of a rule ----------

  // `**` takes any number of labels, every other token exactly one.
  predicate Matches(rule: Rule, ls: seq<string>)
    decreases |rule|, |ls|
  {
    if rule == [] then ls == []
    else if rule[0].Multi? then Matches(rule[1..], ls) || (ls != [] && Matches(rule, ls[1..]))
    else ls != [] && Fits(rule[0], ls[0]) && Matches(rule[1..], ls[1..])
  }

  predicate MatchesFrom(rule: Rule, ls: seq<string>, k: nat) {
    k <= |ls| && Matches(rule, ls[k..])
  }

  // The defining clause of `**`, by the number of labels it takes.
  lemma {:induction false} MultiTakesSome(rule: Rule, ls: seq<string>)
    requires rule != [] && rule[0].Multi?
    ensures Matches(rule, ls) <==> exists k :: 0 <= k <= |ls| && MatchesFrom(rule[1..], ls, k)
    decreases |ls|
  {
    assert ls[0..] == ls;
    if ls != [] {
      MultiTakesSome(rule, ls[1..]);
      forall k | 1 <= k <= |ls| ensures MatchesFrom(rule[1..], ls, k) == MatchesFrom(rule[1..], ls[1..], k - 1) {
        assert ls[k..] == ls[1..][k - 1..];
      }
      if k :| 0 <= k <= |ls| && MatchesFrom(rule[1..], ls, k) {
        if k > 0 {
          assert MatchesFrom(rule[1..], ls[1..], k - 1);
        }
      }
      if Matches(rule, ls[1..]) {
        var k :| 0 <= k <= |ls[1..]| && MatchesFrom(rule[1..], ls[1..], k);
        assert MatchesFrom(rule[1..], ls, k + 1);
      }
    }
    if Matches(rule[1..], ls) {
      assert MatchesFrom(rule[1..], ls, 0);
    }
  }

  // A rule that is `**` alone takes everything.
  lemma {:induction false} MultiTakesAll(ls: seq<string>)
    ensures Matches([Multi], ls)
    decreases |ls|
  {
    assert [Multi][1..] == [];
    if ls != [] {
      MultiTakesAll(ls[1..]);
    }
  }

  // ---------- the search over one rule ----------

  predicate EndsInMulti(path: Rule) {
    path != [] && path[|path| - 1].Multi?
  }

  // The search at a chain of nodes with the remaining tokens `toks` below a node
  // created by `**` (`multi`) or not: terminal test, zero-label step, child
  // step with its early accept, self-loop, and the skip of a `**` child.
  predicate Search(toks: Rule, multi: bool, ls: seq<string>)
    decreases |ls|, |toks|
  {
    if toks == [] then ls == [] || multi
    else if toks[0].Multi? then
      || Search(toks[1..], true, ls)
      || (ls != [] && multi && Search(toks, multi, ls[1..]))
      || (ls != [] && Search(toks[1..], true, ls[1..]))
    else
      ls != [] &&
      (|| (Fits(toks[0], ls[0]) && ((multi && |toks| == 1) || Search(toks[1..], false, ls[1..])))
       || (multi && Search(toks, multi, ls[1..])))
  }

  // The same search without the final skip branch.
  predicate SearchNoSkip(toks: Rule, multi: bool, ls: seq<string>)
    decreases |ls|, |toks|
  {
    if toks == [] then ls == [] || multi
    else if toks[0].Multi? then
      SearchNoSkip(toks[1..], true, ls) || (ls != [] && multi && SearchNoSkip(toks, multi, ls[1..]))
    else
      ls != [] &&
      (|| (Fits(toks[0], ls[0]) && ((multi && |toks| == 1) || SearchNoSkip(toks[1..], false, ls[1..])))
       || (multi && SearchNoSkip(toks, multi, ls[1..])))
  }

  lemma MultiNodeSkips(toks: Rule, ls: seq<string>)
    requires ls != [] && Search(toks, true, ls[1..])
    ensures Search(toks, true, ls)
  {
  }

  // The final skip branch never changes the answer.
  lemma {:induction false} SkipIsRedundant(toks: Rule, multi: bool, ls: seq<string>)
    ensures Search(toks, multi, ls) == SearchNoSkip(toks, multi, ls)
    decreases |ls|, |toks|
  {
    if toks != [] {
      if toks[0].Multi? {
        SkipIsRedundant(toks[1..], true, ls);
        if ls != [] {
          SkipIsRedundant(toks, multi, ls[1..]);
          if Search(toks[1..], true, ls[1..]) {
            MultiNodeSkips(toks[1..], ls);
          }
        }
      } else if ls != [] {
        SkipIsRedundant(toks[1..], false, ls[1..]);
        SkipIsRedundant(toks, multi, ls[1..]);
      }
    }
  }

  predicate EndsAfterMulti(rule: Rule) {
    |rule| >= 2 && !rule[|rule| - 1].Multi? && rule[|rule| - 2].Multi?
  }

  // The rule the search in fact applies: a last token that is not `**` but
  // directly follows one is matched anywhere, as if another `**` came after it.
  function Effective(rule: Rule): Rule {
    if EndsAfterMulti(rule) then rule + [Multi] else rule
  }

  function Below(multi: bool, toks: Rule): Rule {
    if multi then [Multi] + toks else toks
  }

  lemma EffectiveDropsFirst(t: Token, rest: Rule)
    requires |rest| >= 2 || (|rest| == 1 && !t.Multi?)
    ensures Effective([t] + rest) == [t] + Effective(rest)
  {
    var r := [t] + rest;
    assert r[|r| - 1] == rest[|rest| - 1];
    if |rest| >= 2 {
      assert r[|r| - 2] == rest[|rest| - 2];
      assert r + [Multi] == [t] + (rest + [Multi]);
    }
  }

  // The search over one rule is plain matching of the effective rule.
  lemma {:induction false} SearchIsMatching(toks: Rule, multi: bool, ls: seq<string>)
    ensures Search(toks, multi, ls) <==> Matches(Effective(Below(multi, toks)), ls)
    decreases |ls|, |toks|
  {
    SkipIsRedundant(toks, multi, ls);
    if toks == [] {
      assert Below(true, []) == [Multi];
      MultiTakesAll(ls);
    } else if multi {
      SearchBelowMulti(toks, ls);
    } else {
      SearchBelowPlain(toks, ls);
    }
  }

  lemma {:induction false} SearchBelowPlain(toks: Rule, ls: seq<string>)
    requires toks != []
    ensures Search(toks, false, ls) <==> Matches(Effective(toks), ls)
    decreases |ls|, |toks|, 0
  {
    var t, rest := toks[0], toks[1..];
    assert toks == [t] + rest;
    SkipIsRedundant(toks, false, ls);
    if t.Multi? {
      SkipIsRedundant(rest, true, ls);
      if rest == [] {
        assert toks == [Multi];
        MultiTakesAll(ls);
      } else {
        SearchBelowMulti(rest, ls);
      }
    } else if rest == [] {
      assert Effective(toks)[1..] == [];
    } else if ls != [] {
      EffectiveDropsFirst(t, rest);
      assert ([t] + Effective(rest))[1..] == Effective(rest);
      SkipIsRedundant(rest, false, ls[1..]);
      SearchBelowPlain(rest, ls[1..]);
    } else {
      EffectiveDropsFirst(t, rest);
    }
  }

  lemma {:induction false} SearchBelowMulti(toks: Rule, ls: seq<string>)
    requires toks != []
    ensures Search(toks, true, ls) <==> Matches(Effective([Multi] + toks), ls)
    decreases |ls|, |toks|, 1
  {
    var t, rest := toks[0], toks[1..];
    assert toks == [t] + rest;
    SkipIsRedundant(toks, true, ls);
    var eff := Effective([Multi] + toks);
    assert eff[0] == Multi;
    if ls != [] {
      SkipIsRedundant(toks, true, ls[1..]);
      SearchBelowMulti(toks, ls[1..]);
    }
    if t.Multi? {
      SkipIsRedundant(rest, true, ls);
      DoubleMulti(rest, ls);
      if rest != [] {
        SearchBelowMulti(rest, ls);
      }
    } else if rest == [] {
      assert eff == [Multi, t, Multi];
      assert eff[1..] == [t, Multi] && [t, Multi][1..] == [Multi];
      if ls != [] {
        MultiTakesAll(ls[1..]);
      }
    } else {
      EffectiveDropsFirst(Multi, toks);
      EffectiveDropsFirst(t, rest);
      assert eff[1..] == [t] + Effective(rest) && ([t] + Effective(rest))[1..] == Effective(rest);
      if ls != [] {
        SkipIsRedundant(rest, false, ls[1..]);
        SearchBelowPlain(rest, ls[1..]);
      }
    }
  }

  // Two `**` in a row take what one takes.
  lemma DoubleMulti(rest: Rule, ls: seq<string>)
    ensures Matches(Effective([Multi] + ([Multi] + rest)), ls) <==> Matches(Effective([Multi] + rest), ls)
  {
    var one := [Multi] + rest;
    if rest == [] {
      MultiTakesAll(ls);
      assert one == [Multi] && [Multi] + one == [Multi, Multi];
      assert [Multi, Multi][1..] == [Multi];
    } else {
      EffectiveDropsFirst(Multi, one);
      LeadingMultiTwice(Effective(one), ls);
    }
  }

  lemma {:induction false} LeadingMultiTwice(rule: Rule, ls: seq<string>)
    requires rule != [] && rule[0].Multi?
    ensures Matches([Multi] + rule, ls) <==> Matches(rule, ls)
    decreases |ls|
  {
    assert ([Multi] + rule)[1..] == rule;
    if ls != [] {
      LeadingMultiTwice(rule, ls[1..]);
    }
  }

  // ---------- when the early accept matters ----------

  predicate LastFits(t: Token, ls: seq<string>) {
    ls != [] && Fits(t, ls[|ls| - 1])
  }

  // A rule whose last token is not `**` accepts only lists whose last label fits it.
  lemma {:induction false} LastLabelFits(rule: Rule, ls: seq<string>)
    requires rule != [] && !rule[|rule| - 1].Multi? && Matches(rule, ls)
    ensures LastFits(rule[|rule| - 1], ls)
    decreases |rule|, |ls|
  {
    var t, rest := rule[0], rule[1..];
    if t.Multi? {
      if Matches(rest, ls) {
        LastLabelFits(rest, ls);
      } else {
        LastLabelFits(rule, ls[1..]);
      }
    } else if rest == [] {
      assert |ls| == 1;
    } else {
      LastLabelFits(rest, ls[1..]);
    }
  }

  // Putting `**` behind a rule loses nothing.
  lemma {:induction false} MatchesThenMulti(rule: Rule, ls: seq<string>)
    requires Matches(rule, ls)
    ensures Matches(rule + [Multi], ls)
    decreases |rule|, |ls|
  {
    if rule == [] {
      assert rule + [Multi] == [Multi];
      MultiTakesAll(ls);
    } else {
      assert (rule + [Multi])[0] == rule[0] && (rule + [Multi])[1..] == rule[1..] + [Multi];
      if rule[0].Multi? {
        if Matches(rule[1..], ls) {
          MatchesThenMulti(rule[1..], ls);
        } else {
          MatchesThenMulti(rule, ls[1..]);
        }
      } else {
        MatchesThenMulti(rule[1..], ls[1..]);
      }
    }
  }

  // `**`, a token, and anything: the token may as well take the last label.
  lemma {:induction false} LastLabelWillDo(t: Token, ls: seq<string>)
    requires !t.Multi? && LastFits(t, ls)
    ensures Matches([Multi, t], ls)
    decreases |ls|
  {
    assert [Multi, t][1..] == [t] && [t][1..] == [];
    if |ls| == 1 {
      assert ls[1..] == [];
      assert Matches([t], ls);
    } else {
      LastLabelWillDo(t, ls[1..]);
    }
  }

  // With the last label fitting the last token, the `**` put behind adds nothing.
  lemma {:induction false} MultiBehindAddsNothing(rule: Rule, ls: seq<string>)
    requires EndsAfterMulti(rule) && LastFits(rule[|rule| - 1], ls) && Matches(rule + [Multi], ls)
    ensures Matches(rule, ls)
    decreases |rule|, |ls|
  {
    var more := rule + [Multi];
    var last := rule[|rule| - 1];
    assert more[0] == rule[0] && more[1..] == rule[1..] + [Multi];
    if |rule| == 2 {
      assert rule == [Multi, last];
      LastLabelWillDo(last, ls);
    } else if rule[0].Multi? {
      if Matches(rule[1..] + [Multi], ls) {
        MultiBehindAddsNothing(rule[1..], ls);
      } else {
        NotNothing(rule, ls[1..]);
        MultiBehindAddsNothing(rule, ls[1..]);
      }
    } else {
      NotNothing(rule[1..], ls[1..]);
      MultiBehindAddsNothing(rule[1..], ls[1..]);
    }
  }

  // Some token that takes a label is left, so some label is.
  lemma {:induction false} NotNothing(rule: Rule, ls: seq<string>)
    requires EndsAfterMulti(rule) && Matches(rule + [Multi], ls)
    ensures ls != []
    decreases |rule|, |ls|
  {
    var more := rule + [Multi];
    assert more[0] == rule[0] && more[1..] == rule[1..] + [Multi] && more[1..][0] == rule[1];
    if rule[0].Multi? && ls == [] && |rule| > 2 {
      NotNothing(rule[1..], ls);
    }
  }

  // A rule that ends in a token right after `**`: its search accepts what its
  // tokens match exactly where the last label fits the last token.
  lemma EarlyAcceptIff(rule: Rule, ls: seq<string>)
    requires EndsAfterMulti(rule)
    ensures Matches(rule, ls) <==> Search(rule, false, ls) && LastFits(rule[|rule| - 1], ls)
  {
    hide Search, Matches;
    SearchIsMatching(rule, false, ls);
    if Matches(rule, ls) {
      MatchesThenMulti(rule, ls);
      LastLabelFits(rule, ls);
    }
    if Search(rule, false, ls) && LastFits(rule[|rule| - 1], ls) {
      MultiBehindAddsNothing(rule, ls);
    }
  }

  // For every other rule the search is plain matching.
  lemma OtherRulesAsWritten(rule: Rule, ls: seq<string>)
    requires !EndsAfterMulti(rule)
    ensures Matches(rule, ls) <==> Search(rule, false, ls)
  {
    hide Search, Matches;
    SearchIsMatching(rule, false, ls);
  }

  // The search on a label list goes beyond the tokens of this rule.
  predicate Overmatches(rule: Rule, ls: seq<string>) {
    EndsAfterMulti(rule) && !LastFits(rule[|rule| - 1], ls)
  }

  ghost predicate BlockedAsWritten(rules: set<Rule>, labels: seq<string>) {
    exists r :: r in rules && Matches(r, labels)
  }

  // Some rule's tokens match a blocked domain exactly when not all the rules that
  // block it end in a token right after `**` that does not fit the last label.
  lemma BlockedAsWrittenIff(rules: set<Rule>, labels: seq<string>)
    ensures BlockedAsWritten(rules, labels) <==>
            exists r :: r in rules && Matches(Effective(r), labels) && !Overmatches(r, labels)
  {
    hide Matches;
    forall r | r in rules
      ensures Matches(r, labels) <==> Matches(Effective(r), labels) && !Overmatches(r, labels)
    {
      hide Search;
      SearchIsMatching(r, false, labels);
      if EndsAfterMulti(r) {
        EarlyAcceptIff(r, labels);
      } else {
        OtherRulesAsWritten(r, labels);
      }
    }
  }

  // ---------- the search over a trie ----------

  // A trie as the set of its nodes' token paths and the set of those that end a
  // rule; every prefix of a path is a path.
  predicate WfPaths(paths: set<Rule>, rules: set<Rule>) {
    && [] in paths && rules <= paths
    && forall p | p in paths && p != [] :: p[..|p| - 1] in paths
  }

  ghost function Deeper(paths: set<Rule>, p: Rule): set<Rule> {
    set q | q in paths && |q| > |p|
  }

  lemma ChildIsDeeper(paths: set<Rule>, p: Rule, q: Rule)
    requires q in paths && |q| > |p|
    ensures Deeper(paths, q) < Deeper(paths, p)
  {
    assert q in Deeper(paths, p) && q !in Deeper(paths, q);
  }

  predicate IsChild(p: Rule, q: Rule) {
    |q| == |p| + 1 && q[..|p|] == p
  }

  // The memo-free search from the node at path `p` and label `i`.
  ghost predicate TrieSearch(paths: set<Rule>, rules: set<Rule>, p: Rule, labels: seq<string>, i: nat)
    requires i <= |labels|
    decreases |labels| - i, Deeper(paths, p)
  {
    var multi := EndsInMulti(p);
    || (p in rules && (i == |labels| || multi))
    || (p + [Multi] in paths &&
        (ChildIsDeeper(paths, p, p + [Multi]); TrieSearch(paths, rules, p + [Multi], labels, i)))
    || (i < |labels| &&
        (|| (exists q | q in paths && StepsTo(p, q, labels[i]) ::
               (multi && q in rules) || TrieSearch(paths, rules, q, labels, i + 1))
         || (multi && TrieSearch(paths, rules, p, labels, i + 1))
         || (p + [Multi] in paths && TrieSearch(paths, rules, p + [Multi], labels, i + 1))))
  }

  predicate StepsTo(p: Rule, q: Rule, l: string) {
    IsChild(p, q) && Fits(q[|p|], l)
  }

  predicate RuleFrom(r: Rule, p: Rule, labels: seq<string>, i: nat)
    requires i <= |labels|
  {
    p <= r && Search(r[|p|..], EndsInMulti(p), labels[i..])
  }

  // The trie search finds something exactly when the search over one of its
  // rules through this node does.
  lemma {:induction false} TrieSearchFindsRule(paths: set<Rule>, rules: set<Rule>, p: Rule, labels: seq<string>, i: nat)
    returns (r: Rule)
    requires WfPaths(paths, rules) && p in paths && i <= |labels|
    requires TrieSearch(paths, rules, p, labels, i)
    ensures r in rules && RuleFrom(r, p, labels, i)
    decreases |labels| - i, Deeper(paths, p)
  {
    var multi, ls := EndsInMulti(p), labels[i..];
    var m := p + [Multi];
    if p in rules && (i == |labels| || multi) {
      r := p;
      assert r[|p|..] == [];
    } else if m in paths && (ChildIsDeeper(paths, p, m); TrieSearch(paths, rules, m, labels, i)) {
      ChildIsDeeper(paths, p, m);
      r := TrieSearchFindsRule(paths, rules, m, labels, i);
      BelowMultiChild(r, p);
    } else {
      DropOne(labels, i);
      if q :| q in paths && StepsTo(p, q, labels[i])
              && ((multi && q in rules) || TrieSearch(paths, rules, q, labels, i + 1)) {
        if multi && q in rules {
          r := q;
          assert r[|p|..] == [q[|p|]];
        } else {
          r := TrieSearchFindsRule(paths, rules, q, labels, i + 1);
          BelowChild(r, p, q);
        }
      } else if multi && TrieSearch(paths, rules, p, labels, i + 1) {
        r := TrieSearchFindsRule(paths, rules, p, labels, i + 1);
        MultiNodeSkips(r[|p|..], ls);
      } else {
        // Skipping to the `**` child is staying there, which was tried.
        assert false;
      }
    }
  }

  lemma BelowChild(r: Rule, p: Rule, q: Rule)
    requires IsChild(p, q) && q <= r
    ensures p <= r && r[|p|..] != [] && r[|p|..][0] == q[|p|] && r[|p|..][1..] == r[|q|..]
    ensures EndsInMulti(q) == q[|p|].Multi?
  {
    assert r[..|q|] == q;
    assert r[..|p|] == q[..|p|];
  }

  lemma BelowMultiChild(r: Rule, p: Rule)
    requires p + [Multi] <= r
    ensures p <= r && r[|p|..] != [] && r[|p|..][0] == Multi && r[|p|..][1..] == r[|p| + 1..]
  {
    BelowChild(r, p, p + [Multi]);
  }

  lemma {:induction false} PrefixIsPath(paths: set<Rule>, rules: set<Rule>, r: Rule, k: nat)
    requires WfPaths(paths, rules) && r in paths && k <= |r|
    ensures r[..k] in paths
    decreases |r| - k
  {
    if k < |r| {
      PrefixIsPath(paths, rules, r, k + 1);
      assert r[..k + 1][..k] == r[..k];
    } else {
      assert r[..k] == r;
    }
  }

  lemma {:induction false} RuleIsFound(
    paths: set<Rule>, rules: set<Rule>, p: Rule, labels: seq<string>, i: nat, r: Rule)
    requires WfPaths(paths, rules) && p in paths && i <= |labels|
    requires r in rules && RuleFrom(r, p, labels, i)
    ensures TrieSearch(paths, rules, p, labels, i)
    decreases |labels| - i, Deeper(paths, p)
  {
    var multi, ls, toks := EndsInMulti(p), labels[i..], r[|p|..];
    assert r[..|p|] == p;
    if toks == [] {
      assert r == p;
    } else {
      var q := p + [toks[0]];
      assert q == r[..|p| + 1];
      PrefixIsPath(paths, rules, r, |p| + 1);
      BelowChild(r, p, q);
      ChildIsDeeper(paths, p, q);
      if toks[0].Multi? && Search(toks[1..], true, ls) {
        RuleIsFound(paths, rules, q, labels, i, r);
      } else {
        DropOne(labels, i);
        if multi && Search(toks, true, ls[1..]) {
          RuleIsFound(paths, rules, p, labels, i + 1, r);
        } else if toks[0].Multi? {
          assert false;
        } else {
          assert StepsTo(p, q, labels[i]);
          if multi && |toks| == 1 {
            assert q == r;
          } else {
            RuleIsFound(paths, rules, q, labels, i + 1, r);
          }
        }
      }
    }
  }

  ghost predicate Blocked(rules: set<Rule>, labels: seq<string>) {
    exists r :: r in rules && Matches(Effective(r), labels)
  }

  // The search from the root accepts a label list exactly when some rule,
  // taken on its own, matches it.
  lemma TrieIsItsRules(paths: set<Rule>, rules: set<Rule>, labels: seq<string>)
    requires WfPaths(paths, rules)
    ensures TrieSearch(paths, rules, [], labels, 0) <==> Blocked(rules, labels)
  {
    assert labels[0..] == labels;
    if TrieSearch(paths, rules, [], labels, 0) {
      var r := TrieSearchFindsRule(paths, rules, [], labels, 0);
      assert r[0..] == r;
      SearchIsMatching(r, false, labels);
    }
    if r :| r in rules && Matches(Effective(r), labels) {
      SearchIsMatching(r, false, labels);
      assert r[0..] == r;
      RuleIsFound(paths, rules, [], labels, 0, r);
    }
  }

  // "a.**.com" has the reversed tokens com, **, a: it also blocks "x.a.com",
  // which plain matching of the tokens does not.
  lemma EffectiveDiffers()
    ensures var rule := [Exact("com"), Multi, Exact("a")];
            var labels := ["com", "a", "x"];
            Search(rule, false, labels) && !Matches(rule, labels)
  {
    var rule := [Exact("com"), Multi, Exact("a")];
    var labels := ["com", "a", "x"];
    var l1, l2 := ["a", "x"], ["x"];
    assert labels[1..] == l1 && l1[1..] == l2;
    assert rule[1..] == [Multi, Exact("a")] && [Multi, Exact("a")][1..] == [Exact("a")] && [Exact("a")][1..] == [];
    assert Search([Exact("a")], true, l1);
    assert Search([Multi, Exact("a")], false, l1);
    assert "x" != "a" by { assert "x"[0] != "a"[0]; }
    assert !Matches([Exact("a")], l1) && !Matches([Exact("a")], l2);
    assert l2[1..] == [];
    assert !Matches([Multi, Exact("a")], []);
    assert !Matches([Multi, Exact("a")], l2);
    assert !Matches([Multi, Exact("a")], l1);
  }
}
