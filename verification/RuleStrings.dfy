// The strings rules and domains are given as, the tokens and labels they stand
// for, and the pattern language in their terms: which domain each kind of rule
// blocks.

module RuleStrings {
  import opened Types
  import opened Glob
  import opened Rules

  // ---------- from strings to tokens and labels ----------

  const DOT: char := '.'

  function StripDot(s: string): string {
    if s != [] && s[|s| - 1] == DOT then s[..|s| - 1] else s
  }

  // The characters of the Unicode White_Space property.
  predicate IsSpace(c: char) {
    var x := c as int;
    || 0x9 <= x <= 0xD || x == 0x20 || x == 0x85 || x == 0xA0 || x == 0x1680 || 0x2000 <= x <= 0x200A
    || x == 0x2028 || x == 0x2029 || x == 0x202F || x == 0x205F || x == 0x3000
  }

  function TrimStart(s: string): string {
    if s != [] && IsSpace(s[0]) then TrimStart(s[1..]) else s
  }

  function TrimEnd(s: string): string {
    if s != [] && IsSpace(s[|s| - 1]) then TrimEnd(s[..|s| - 1]) else s
  }

  // One trailing dot goes, then white space at both ends; a wildcard without any
  // dot gets ".**" appended.
  function NormalizeRule(rule: string): string {
    var s := Lower(TrimEnd(TrimStart(StripDot(rule))));
    if s == [] then []
    else if STAR in s && DOT !in s then s + ".**"
    else s
  }

  // The reversed labels of a domain, in lower case.
  function DomainLabels(domain: string): seq<string> {
    SplitLabelsReversed(Lower(StripDot(domain)))
  }

  lemma LowerEnds(s: string)
    requires s != []
    ensures Lower(s) != [] && Lower(s)[1..] == Lower(s[1..]) && Lower(s)[..|s| - 1] == Lower(s[..|s| - 1])
    ensures IsSpace(Lower(s)[0]) == IsSpace(s[0]) && IsSpace(Lower(s)[|s| - 1]) == IsSpace(s[|s| - 1])
  {
  }

  lemma {:induction false} LowerTrims(s: string)
    ensures TrimStart(Lower(s)) == Lower(TrimStart(s))
    ensures TrimEnd(Lower(s)) == Lower(TrimEnd(s))
    decreases |s|
  {
    hide IsSpace;
    if s != [] {
      LowerEnds(s);
      LowerTrims(s[1..]);
      LowerTrims(s[..|s| - 1]);
    }
  }

  lemma LowerStripsDot(s: string)
    ensures StripDot(Lower(s)) == Lower(StripDot(s))
  {
    if s != [] {
      assert Lower(s)[..|s| - 1] == Lower(s[..|s| - 1]);
    }
  }

  // The case of a rule or a domain makes no difference.
  lemma CaseDoesNotMatter(a: string, b: string)
    requires Lower(a) == Lower(b)
    ensures NormalizeRule(a) == NormalizeRule(b) && RuleOf(a) == RuleOf(b)
    ensures DomainLabels(a) == DomainLabels(b) && (StripDot(a) == [] <==> StripDot(b) == [])
  {
    hide Lower, TrimStart, TrimEnd, StripDot, SplitLabelsReversed, TokensOf;
    LowerStripsDot(a);
    LowerStripsDot(b);
    assert Lower(StripDot(a)) == Lower(StripDot(b));
    LowerNormal(StripDot(a));
    LowerNormal(StripDot(b));
  }

  lemma LowerNormal(s: string)
    ensures Lower(TrimEnd(TrimStart(s))) == TrimEnd(TrimStart(Lower(s)))
    ensures |Lower(s)| == |s|
  {
    hide Lower, TrimStart, TrimEnd;
    LowerTrims(s);
    LowerTrims(TrimStart(s));
  }

  function SplitDots(s: string, cur: string): seq<string>
    decreases |s|
  {
    if s == [] then [cur]
    else if s[0] == DOT then [cur] + SplitDots(s[1..], [])
    else SplitDots(s[1..], cur + [s[0]])
  }

  function NonEmptyReversed(parts: seq<string>): seq<string> {
    if parts == [] then []
    else NonEmptyReversed(parts[1..]) + (if parts[0] == [] then [] else [parts[0]])
  }

  function SplitLabelsReversed(s: string): seq<string> {
    NonEmptyReversed(SplitDots(s, []))
  }

  function RuleOf(rule: string): Rule {
    TokensOf(SplitLabelsReversed(NormalizeRule(rule)))
  }

  // The token sequences a list of rule strings stands for.
  function RulesOf(rules: seq<string>): set<Rule> {
    set s | s in rules && NormalizeRule(s) != [] :: RuleOf(s)
  }

  lemma RulesOfOne(rule: string)
    ensures RulesOf([rule]) == if NormalizeRule(rule) == [] then {} else {RuleOf(rule)}
  {
    hide NormalizeRule, RuleOf;
    assert rule in [rule];
  }

  lemma RulesOfNone()
    ensures RulesOf([]) == {}
  {
  }

  lemma RulesOfSnoc(rules: seq<string>, rule: string)
    ensures RulesOf(rules + [rule]) == RulesOf(rules) + RulesOf([rule])
  {
    hide NormalizeRule, RuleOf;
  }

  // ---------- joined labels ----------

  function JoinDots(ls: seq<string>): string {
    if ls == [] then [] else if |ls| == 1 then ls[0] else ls[0] + ([DOT] + JoinDots(ls[1..]))
  }

  predicate DotFree(ls: seq<string>) {
    forall i | 0 <= i < |ls| :: '.' !in ls[i]
  }

  // Every string is the join of its parts between dots,
  lemma {:induction false} SplitThenJoin(s: string, cur: string)
    requires '.' !in cur
    ensures SplitDots(s, cur) != [] && DotFree(SplitDots(s, cur)) && JoinDots(SplitDots(s, cur)) == cur + s
    decreases |s|
  {
    if s == [] {
      assert cur + s == cur;
    } else if s[0] == '.' {
      SplitThenJoin(s[1..], []);
      var rest := SplitDots(s[1..], []);
      assert ([cur] + rest)[1..] == rest;
      assert cur + ([DOT] + ([] + s[1..])) == cur + s;
    } else {
      SplitThenJoin(s[1..], cur + [s[0]]);
      assert cur + [s[0]] + s[1..] == cur + s;
    }
  }

  lemma {:induction false} SplitWord(w: string, rest: string, cur: string)
    requires '.' !in w
    ensures SplitDots(w + rest, cur) == SplitDots(rest, cur + w)
    decreases |w|
  {
    if w == [] {
      assert w + rest == rest && cur + w == cur;
    } else {
      assert (w + rest)[0] == w[0] && (w + rest)[1..] == w[1..] + rest;
      SplitWord(w[1..], rest, cur + [w[0]]);
      assert cur + [w[0]] + w[1..] == cur + w;
    }
  }

  // and the join of dot-free parts splits into them.
  lemma {:induction false} JoinThenSplit(ls: seq<string>)
    requires ls != [] && DotFree(ls)
    ensures SplitDots(JoinDots(ls), []) == ls
    decreases |ls|
  {
    assert [] + ls[0] == ls[0];
    if |ls| == 1 {
      SplitWord(ls[0], [], []);
      assert ls[0] + [] == ls[0];
    } else {
      var rest := [DOT] + JoinDots(ls[1..]);
      SplitWord(ls[0], rest, []);
      assert rest[1..] == JoinDots(ls[1..]);
      JoinThenSplit(ls[1..]);
    }
  }

  function Reverse(ls: seq<string>): (r: seq<string>)
    ensures |r| == |ls|
    ensures forall i | 0 <= i < |ls| :: r[i] == ls[|ls| - 1 - i]
  {
    seq(|ls|, i requires 0 <= i < |ls| => ls[|ls| - 1 - i])
  }

  function NonEmpty(ls: seq<string>): seq<string> {
    if ls == [] then []
    else if ls[0] == [] then NonEmpty(ls[1..])
    else [ls[0]] + NonEmpty(ls[1..])
  }

  lemma ReverseCons(l: string, ls: seq<string>)
    ensures Reverse([l] + ls) == Reverse(ls) + [l]
  {
  }

  lemma {:induction false} NonEmptyBackwards(ls: seq<string>)
    ensures NonEmptyReversed(ls) == Reverse(NonEmpty(ls))
  {
    hide Reverse;
    if ls != [] {
      NonEmptyBackwards(ls[1..]);
      ReverseCons(ls[0], NonEmpty(ls[1..]));
    }
  }

  // The labels of any string, from its parts: the last comes first, empty parts go.
  lemma LabelsOfParts(parts: seq<string>)
    requires parts != [] && DotFree(parts)
    ensures SplitLabelsReversed(JoinDots(parts)) == Reverse(NonEmpty(parts))
  {
    JoinThenSplit(parts);
    NonEmptyBackwards(parts);
  }

  // Labels a host name or a rule can be written with: not empty, without dots.
  predicate Labels(ls: seq<string>) {
    ls != [] && forall i | 0 <= i < |ls| :: ls[i] != [] && '.' !in ls[i]
  }

  lemma {:induction false} AllNonEmpty(ls: seq<string>)
    requires forall i | 0 <= i < |ls| :: ls[i] != []
    ensures NonEmpty(ls) == ls
  {
    if ls != [] {
      AllNonEmpty(ls[1..]);
    }
  }

  lemma LabelsAreReversed(ls: seq<string>)
    requires Labels(ls)
    ensures SplitLabelsReversed(JoinDots(ls)) == Reverse(ls)
  {
    LabelsOfParts(ls);
    AllNonEmpty(ls);
  }

  // ---------- case, trailing dots and white space ----------

  function LowerAll(ls: seq<string>): (r: seq<string>)
    ensures |r| == |ls|
    ensures forall i | 0 <= i < |ls| :: r[i] == Lower(ls[i])
  {
    seq(|ls|, i requires 0 <= i < |ls| => Lower(ls[i]))
  }

  lemma LowerConcat(a: string, b: string)
    ensures Lower(a + b) == Lower(a) + Lower(b)
  {
  }

  lemma {:induction false} LowerJoins(ls: seq<string>)
    ensures Lower(JoinDots(ls)) == JoinDots(LowerAll(ls))
    decreases |ls|
  {
    hide Lower;
    if ls == [] {
      assert |Lower([])| == 0;
    } else if |ls| > 1 {
      var rest := JoinDots(ls[1..]);
      LowerConcat(ls[0], [DOT] + rest);
      LowerConcat([DOT], rest);
      assert Lower([DOT]) == [DOT];
      LowerJoins(ls[1..]);
      assert LowerAll(ls)[1..] == LowerAll(ls[1..]);
    }
  }

  lemma LowerLabels(ls: seq<string>)
    requires Labels(ls)
    ensures Labels(LowerAll(ls)) && LowerAll(LowerAll(ls)) == LowerAll(ls)
  {
    forall i | 0 <= i < |ls| ensures LowerAll(ls)[i] != [] && '.' !in LowerAll(ls)[i] {
      LowerKeeps(ls[i], '.');
    }
    forall i | 0 <= i < |ls| ensures Lower(Lower(ls[i])) == Lower(ls[i]) {
      LowerTwice(ls[i]);
    }
  }

  lemma LowerTwice(s: string)
    ensures Lower(Lower(s)) == Lower(s)
  {
  }

  // A join starts with the first label's first character and ends with the last one's last.
  lemma {:induction false} JoinEnds(ls: seq<string>)
    requires Labels(ls)
    ensures var j, last := JoinDots(ls), ls[|ls| - 1];
            j != [] && j[0] == ls[0][0] && j[|j| - 1] == last[|last| - 1]
    decreases |ls|
  {
    if |ls| > 1 {
      assert Labels(ls[1..]);
      JoinEnds(ls[1..]);
    }
  }

  // A domain given by its labels, with or without a trailing dot.
  lemma DomainOfLabels(ls: seq<string>, domain: string)
    requires Labels(ls) && (domain == JoinDots(ls) || domain == JoinDots(ls) + ".")
    ensures StripDot(domain) != [] && DomainLabels(domain) == Reverse(LowerAll(ls))
  {
    hide Lower, SplitLabelsReversed, JoinDots;
    JoinEnds(ls);
    assert StripDot(domain) == JoinDots(ls);
    LowerJoins(ls);
    LowerLabels(ls);
    LabelsAreReversed(LowerAll(ls));
  }

  // Labels that do not start or end in white space when written out.
  predicate RuleLabels(ls: seq<string>) {
    && Labels(ls) && !IsSpace(ls[0][0])
    && !IsSpace(ls[|ls| - 1][|ls[|ls| - 1]| - 1])
  }

  lemma NothingToTrim(s: string)
    requires s != [] && !IsSpace(s[0]) && !IsSpace(s[|s| - 1])
    ensures TrimEnd(TrimStart(s)) == s
  {
  }

  lemma {:induction false} DotInJoin(ls: seq<string>)
    requires Labels(ls)
    ensures DOT in JoinDots(ls) <==> |ls| >= 2
  {
  }

  lemma NormalOfLabels(ls: seq<string>)
    requires RuleLabels(ls) && (|ls| >= 2 || STAR !in ls[0])
    ensures NormalizeRule(JoinDots(ls)) == JoinDots(LowerAll(ls)) != []
  {
    hide Lower, JoinDots, IsSpace, TrimStart, TrimEnd;
    JoinEnds(ls);
    NothingToTrim(JoinDots(ls));
    LowerJoins(ls);
    LowerLabels(ls);
    JoinEnds(LowerAll(ls));
    NoBareWildcard(LowerAll(ls));
    if |ls| == 1 {
      LowerKeeps(ls[0], STAR);
    }
  }

  lemma NoBareWildcard(ls: seq<string>)
    requires Labels(ls) && (|ls| >= 2 || STAR !in ls[0])
    ensures !(STAR in JoinDots(ls) && DOT !in JoinDots(ls))
  {
    DotInJoin(ls);
  }

  // ---------- which domains a rule blocks ----------

  // What the matcher answers with one rule, or with several, alone in it.
  ghost predicate BlocksAny(rules: seq<string>, domain: string) {
    StripDot(domain) != [] && Blocked(RulesOf(rules), DomainLabels(domain))
  }

  ghost predicate Blocks(rule: string, domain: string) {
    BlocksAny([rule], domain)
  }

  // Several rules block what one of them blocks.
  lemma EachRuleBlocks(rules: seq<string>, domain: string)
    ensures BlocksAny(rules, domain) <==> exists i :: 0 <= i < |rules| && Blocks(rules[i], domain)
  {
    hide NormalizeRule, RuleOf, Matches, Effective, StripDot, DomainLabels;
    var labels := DomainLabels(domain);
    if BlocksAny(rules, domain) {
      var r :| r in RulesOf(rules) && Matches(Effective(r), labels);
      var s :| s in rules && NormalizeRule(s) != [] && RuleOf(s) == r;
      var i :| 0 <= i < |rules| && rules[i] == s;
      RulesOfOne(s);
      assert Blocks(rules[i], domain);
    }
    if i :| 0 <= i < |rules| && Blocks(rules[i], domain) {
      RulesOfOne(rules[i]);
      assert RuleOf(rules[i]) in RulesOf(rules);
    }
  }

  // A domain written with these labels, with or without a trailing dot.
  predicate Written(domain: string, hs: seq<string>) {
    Labels(hs) && (domain == JoinDots(hs) || domain == JoinDots(hs) + ".")
  }

  // The tokens of a rule's labels, from the last one on.
  function TokensFor(ps: seq<string>): (r: Rule)
    ensures |r| == |ps|
    ensures forall i | 0 <= i < |ps| :: r[i] == TokenOf(Lower(ps[|ps| - 1 - i]))
  {
    TokensOf(Reverse(LowerAll(ps)))
  }

  lemma BlocksIff(ps: seq<string>, domain: string, hs: seq<string>)
    requires RuleLabels(ps) && (|ps| >= 2 || STAR !in ps[0]) && Written(domain, hs)
    ensures Blocks(JoinDots(ps), domain) <==> Matches(Effective(TokensFor(ps)), Reverse(LowerAll(hs)))
  {
    hide JoinDots, Lower, LowerAll, Reverse, NormalizeRule, StripDot, DomainLabels, Labels, Matches, Effective;
    hide TokensOf, SplitLabelsReversed, RulesOf;
    DomainOfLabels(hs, domain);
    NormalOfLabels(ps);
    LowerLabels(ps);
    LabelsAreReversed(LowerAll(ps));
    assert RuleOf(JoinDots(ps)) == TokensFor(ps);
    RulesOfOne(JoinDots(ps));
  }

  // Every label from `k` on fits its part of the rule.
  predicate RunAt(ps: seq<string>, hs: seq<string>, k: int) {
    0 <= k <= k + |ps| <= |hs| && forall i | 0 <= i < |ps| :: LabelMatches(ps[i], hs[k + i])
  }

  predicate FitsAt(toks: Rule, ls: seq<string>, k: int) {
    0 <= k <= k + |toks| <= |ls| && forall i | 0 <= i < |toks| :: Fits(toks[i], ls[k + i])
  }

  predicate Plain(ps: seq<string>) {
    forall i | 0 <= i < |ps| :: ps[i] != "**"
  }

  predicate PlainTokens(toks: Rule) {
    forall i | 0 <= i < |toks| :: !toks[i].Multi?
  }

  lemma TokenFits(p: string, h: string)
    requires p != "**"
    ensures !TokenOf(Lower(p)).Multi?
    ensures Fits(TokenOf(Lower(p)), Lower(h)) <==> LabelMatches(p, h)
  {
    hide Lower;
    LowerTwice(p);
    LowerTwice(h);
    LowerKeeps(p, STAR);
    StaysStars(p);
  }

  lemma StaysStars(p: string)
    ensures Lower(p) == "**" ==> p == "**"
  {
    if Lower(p) == "**" {
      assert Lower(p)[0] == STAR && Lower(p)[1] == STAR;
      assert p[0] == STAR && p[1] == STAR;
    }
  }

  lemma TokenAt(ps: seq<string>, j: nat)
    requires Plain(ps) && j < |ps|
    ensures !TokensFor(ps)[j].Multi?
  {
    hide Lower, TokenOf, TokensOf, TokensFor;
    TokenFits(ps[|ps| - 1 - j], []);
  }

  lemma FitsBackwards(ps: seq<string>, hs: seq<string>, k: nat, j: nat)
    requires Plain(ps) && k + |ps| <= |hs| && j < |ps|
    ensures Fits(TokensFor(ps)[j], Reverse(LowerAll(hs))[k + j])
            <==> LabelMatches(ps[|ps| - 1 - j], hs[|hs| - 1 - k - j])
  {
    hide Lower, LabelMatches, TokenOf, Fits, TokensOf, TokensFor, LowerAll, Reverse;
    TokenFits(ps[|ps| - 1 - j], hs[|hs| - 1 - k - j]);
  }

  lemma RunReversed(ps: seq<string>, hs: seq<string>, k: int)
    requires Plain(ps)
    ensures PlainTokens(TokensFor(ps))
    ensures FitsAt(TokensFor(ps), Reverse(LowerAll(hs)), k) <==> RunAt(ps, hs, |hs| - |ps| - k)
  {
    hide Lower, LabelMatches, TokenOf, Fits, TokensOf, TokensFor, LowerAll, Reverse;
    var toks, ls := TokensFor(ps), Reverse(LowerAll(hs));
    forall j | 0 <= j < |ps| ensures !toks[j].Multi? {
      TokenAt(ps, j);
    }
    if FitsAt(toks, ls, k) {
      forall i | 0 <= i < |ps| ensures LabelMatches(ps[i], hs[|hs| - |ps| - k + i]) {
        FitsBackwards(ps, hs, k, |ps| - 1 - i);
      }
    }
    if RunAt(ps, hs, |hs| - |ps| - k) {
      forall j | 0 <= j < |ps| ensures Fits(toks[j], ls[k + j]) {
        FitsBackwards(ps, hs, k, j);
        assert hs[|hs| - |ps| - k + (|ps| - 1 - j)] == hs[|hs| - 1 - k - j];
      }
    }
  }

  // Tokens other than `**` take one label each.
  lemma {:induction false} PlainRun(toks: Rule, rest: Rule, ls: seq<string>)
    requires PlainTokens(toks)
    ensures Matches(toks + rest, ls) <==> FitsAt(toks, ls, 0) && Matches(rest, ls[|toks|..])
    decreases |toks|
  {
    hide Fits;
    if toks == [] {
      assert toks + rest == rest && ls[0..] == ls;
    } else {
      assert (toks + rest)[0] == toks[0] && (toks + rest)[1..] == toks[1..] + rest;
      if ls != [] {
        PlainRun(toks[1..], rest, ls[1..]);
        FitsFirst(toks, ls);
        if |toks| <= |ls| {
          assert ls[1..][|toks| - 1..] == ls[|toks|..];
        }
      }
    }
  }

  lemma FitsFirst(toks: Rule, ls: seq<string>)
    requires toks != [] && ls != []
    ensures FitsAt(toks, ls, 0) <==> Fits(toks[0], ls[0]) && FitsAt(toks[1..], ls[1..], 0)
  {
    hide Fits;
    if FitsAt(toks[1..], ls[1..], 0) && Fits(toks[0], ls[0]) {
      forall i | 0 <= i < |toks| ensures Fits(toks[i], ls[i]) {
        if i > 0 {
          assert Fits(toks[1..][i - 1], ls[1..][0 + (i - 1)]);
        }
      }
    }
    if FitsAt(toks, ls, 0) {
      forall i | 0 <= i < |toks| - 1 ensures Fits(toks[1..][i], ls[1..][0 + i]) {
        assert Fits(toks[i + 1], ls[0 + (i + 1)]);
      }
    }
  }

  lemma PlainTokensMatch(toks: Rule, ls: seq<string>)
    requires PlainTokens(toks)
    ensures Matches(toks, ls) <==> |ls| == |toks| && FitsAt(toks, ls, 0)
    ensures Matches(toks + [Multi], ls) <==> FitsAt(toks, ls, 0)
  {
    PlainRun(toks, [], ls);
    PlainRun(toks, [Multi], ls);
    assert toks + [] == toks;
    if |toks| <= |ls| {
      MultiTakesAll(ls[|toks|..]);
    }
  }

  lemma FitsLater(toks: Rule, ls: seq<string>, k: nat)
    requires k <= |ls|
    ensures FitsAt(toks, ls[k..], 0) <==> FitsAt(toks, ls, k)
  {
    hide Fits;
    if FitsAt(toks, ls[k..], 0) {
      forall i | 0 <= i < |toks| ensures Fits(toks[i], ls[k + i]) {
        assert Fits(toks[i], ls[k..][0 + i]);
      }
    }
    if FitsAt(toks, ls, k) {
      forall i | 0 <= i < |toks| ensures Fits(toks[i], ls[k..][0 + i]) {
        assert Fits(toks[i], ls[k + i]);
      }
    }
  }

  lemma MultiThenTokens(toks: Rule, ls: seq<string>)
    requires PlainTokens(toks)
    ensures Matches([Multi] + toks, ls) <==> FitsAt(toks, ls, |ls| - |toks|)
    ensures Matches([Multi] + toks + [Multi], ls) <==> exists k :: FitsAt(toks, ls, k)
  {
    hide Matches, FitsAt;
    MultiTakesSome([Multi] + toks, ls);
    MultiTakesSome([Multi] + toks + [Multi], ls);
    assert ([Multi] + toks)[1..] == toks && ([Multi] + toks + [Multi])[1..] == toks + [Multi];
    forall k: nat | k <= |ls|
      ensures MatchesFrom(toks, ls, k) <==> k == |ls| - |toks| && FitsAt(toks, ls, k)
      ensures MatchesFrom(toks + [Multi], ls, k) <==> FitsAt(toks, ls, k)
    {
      PlainTokensMatch(toks, ls[k..]);
      FitsLater(toks, ls, k);
    }
    FitsInside(toks, ls);
    if FitsAt(toks, ls, |ls| - |toks|) {
      assert MatchesFrom(toks, ls, |ls| - |toks|);
    }
    if k :| FitsAt(toks, ls, k) {
      assert MatchesFrom(toks + [Multi], ls, k);
    }
  }

  lemma FitsInside(toks: Rule, ls: seq<string>)
    ensures forall k | FitsAt(toks, ls, k) :: 0 <= k <= |ls|
  {
  }

  lemma {:induction false} JoinAround(ps: seq<string>)
    requires ps != []
    ensures JoinDots(["**"] + ps) == "**." + JoinDots(ps)
    ensures JoinDots(ps + ["**"]) == JoinDots(ps) + ".**"
    decreases |ps|
  {
    assert (["**"] + ps)[1..] == ps && "**" + ([DOT] + JoinDots(ps)) == "**." + JoinDots(ps);
    assert (ps + ["**"])[1..] == ps[1..] + ["**"];
    if |ps| == 1 {
      assert ps[1..] + ["**"] == ["**"] && ps[0] + ([DOT] + "**") == ps[0] + ".**";
    } else {
      JoinAround(ps[1..]);
      assert ps[0] + ([DOT] + (JoinDots(ps[1..]) + ".**")) == ps[0] + ([DOT] + JoinDots(ps[1..])) + ".**";
    }
  }

  lemma MultiTokens(ps: seq<string>)
    ensures TokensFor(["**"] + ps) == TokensFor(ps) + [Multi]
    ensures TokensFor(ps + ["**"]) == [Multi] + TokensFor(ps)
  {
    hide TokensFor, TokenOf, Lower;
    StarsStay();
  }

  lemma StarsStay()
    ensures TokenOf(Lower("**")) == Multi
  {
    assert Lower("**") == "**";
  }

  lemma StillLabels(ps: seq<string>)
    requires RuleLabels(ps)
    ensures ps != [] && RuleLabels(["**"] + ps) && RuleLabels(ps + ["**"])
  {
  }

  // A rule of labels, such as "example.com" or "*.jddebug.com": every label of
  // the domain fits its label of the rule.
  lemma PlainRule(ps: seq<string>, domain: string, hs: seq<string>)
    requires RuleLabels(ps) && Plain(ps) && (|ps| >= 2 || STAR !in ps[0]) && Written(domain, hs)
    ensures Blocks(JoinDots(ps), domain) <==> |hs| == |ps| && RunAt(ps, hs, 0)
  {
    hide Blocks, Matches, RunAt, FitsAt, TokensFor, Reverse, LowerAll, JoinDots, RuleLabels, Plain, Written;
    BlocksIff(ps, domain, hs);
    RunReversed(ps, hs, 0);
    PlainTokensMatch(TokensFor(ps), Reverse(LowerAll(hs)));
  }

  // "**." before labels, such as "**.doubleclick.net": the domain ends with labels that fit.
  lemma SuffixRule(ps: seq<string>, domain: string, hs: seq<string>)
    requires RuleLabels(ps) && Plain(ps) && Written(domain, hs)
    ensures Blocks("**." + JoinDots(ps), domain) <==> RunAt(ps, hs, |hs| - |ps|)
  {
    hide Blocks, Matches, RunAt, FitsAt, TokensFor, Reverse, LowerAll, JoinDots, RuleLabels, Plain, Written;
    StillLabels(ps);
    JoinAround(ps);
    BlocksIff(["**"] + ps, domain, hs);
    MultiTokens(ps);
    RunReversed(ps, hs, 0);
    PlainTokensMatch(TokensFor(ps), Reverse(LowerAll(hs)));
  }

  // "**" on both sides, such as "**.umeng.**": labels that fit stand somewhere in the domain.
  lemma AnywhereRule(ps: seq<string>, domain: string, hs: seq<string>)
    requires RuleLabels(ps) && Plain(ps) && Written(domain, hs)
    ensures Blocks("**." + JoinDots(ps) + ".**", domain) <==> exists k :: RunAt(ps, hs, k)
  {
    hide Blocks, Matches, RunAt, FitsAt, TokensFor, Reverse, LowerAll, JoinDots, RuleLabels, Plain, Written;
    StillLabels(ps);
    StillLabels(["**"] + ps);
    JoinAround(ps);
    JoinAround(["**"] + ps);
    BlocksIff(["**"] + ps + ["**"], domain, hs);
    MultiTokens(ps);
    MultiTokens(["**"] + ps);
    var toks := TokensFor(ps);
    assert [Multi] + (toks + [Multi]) == [Multi] + toks + [Multi];
    RunSomewhere(ps, hs);
  }

  lemma RunSomewhere(ps: seq<string>, hs: seq<string>)
    requires Plain(ps)
    ensures Matches([Multi] + TokensFor(ps) + [Multi], Reverse(LowerAll(hs))) <==> exists k :: RunAt(ps, hs, k)
  {
    hide Matches, RunAt, FitsAt, TokensFor, Reverse, LowerAll, Plain;
    var toks, ls := TokensFor(ps), Reverse(LowerAll(hs));
    RunReversed(ps, hs, 0);
    MultiThenTokens(toks, ls);
    if k :| FitsAt(toks, ls, k) {
      RunReversed(ps, hs, k);
    }
    if k :| RunAt(ps, hs, k) {
      RunReversed(ps, hs, |hs| - |ps| - k);
      assert FitsAt(toks, ls, |hs| - |ps| - k);
    }
  }

  // ".**" after labels: the domain starts with labels that fit, but a single
  // label before it, as in "clientlog*.**", may fit any label of the domain.
  lemma PrefixRule(ps: seq<string>, domain: string, hs: seq<string>)
    requires RuleLabels(ps) && Plain(ps) && Written(domain, hs)
    ensures |ps| >= 2 ==> (Blocks(JoinDots(ps) + ".**", domain) <==> RunAt(ps, hs, 0))
    ensures |ps| == 1 ==> (Blocks(JoinDots(ps) + ".**", domain) <==> exists k :: RunAt(ps, hs, k))
  {
    hide Blocks, Matches, RunAt, FitsAt, TokensFor, Reverse, LowerAll, JoinDots, RuleLabels, Plain, Written;
    StillLabels(ps);
    JoinAround(ps);
    BlocksIff(ps + ["**"], domain, hs);
    MultiTokens(ps);
    RunReversed(ps, hs, |hs| - |ps|);
    MultiThenTokens(TokensFor(ps), Reverse(LowerAll(hs)));
    if |ps| == 1 {
      RunSomewhere(ps, hs);
    }
  }

  // A wildcard without a dot, such as "ads*", blocks what it blocks with ".**" behind it.
  lemma BareWildcardRule(p: string, domain: string, hs: seq<string>)
    requires RuleLabels([p]) && STAR in p && p != "**" && Written(domain, hs)
    ensures Blocks(p, domain) <==> exists i :: 0 <= i < |hs| && LabelMatches(p, hs[i])
  {
    hide Blocks, LabelMatches, JoinDots, Written, RuleLabels, RunAt, NormalizeRule;
    BareWildcardIsPadded(p);
    SameRule(p, p + ".**", domain);
    OneLabel(p);
    PrefixRule([p], domain, hs);
    forall k ensures RunAt([p], hs, k) <==> 0 <= k < |hs| && LabelMatches(p, hs[k]) {
      RunOfOne(p, hs, k);
    }
  }

  lemma RunOfOne(p: string, hs: seq<string>, k: int)
    ensures RunAt([p], hs, k) <==> 0 <= k < |hs| && LabelMatches(p, hs[k])
  {
    hide LabelMatches;
    if RunAt([p], hs, k) {
      assert LabelMatches([p][0], hs[k + 0]);
    }
  }

  lemma OneLabel(l: string)
    ensures JoinDots([l]) == l
  {
  }

  lemma SameRule(r: string, s: string, domain: string)
    requires NormalizeRule(r) == NormalizeRule(s)
    ensures Blocks(r, domain) == Blocks(s, domain)
  {
    hide NormalizeRule, TokensOf, SplitLabelsReversed, Blocked, RulesOf;
    RulesOfOne(r);
    RulesOfOne(s);
  }

  lemma BareWildcardIsPadded(p: string)
    requires RuleLabels([p]) && STAR in p
    ensures NormalizeRule(p) == Lower(p) + ".**" == NormalizeRule(p + ".**")
  {
    hide Lower, TrimStart, TrimEnd;
    assert !IsSpace([p][0][0]) && !IsSpace([p][0][|p| - 1]);
    NothingToTrim(p);
    NothingToTrim(p + ".**");
    LowerConcat(p, ".**");
    assert Lower(".**") == ".**" by {
      LowerStars();
    }
    LowerKeeps(p, STAR);
    LowerKeeps(p, DOT);
  }

  lemma LowerStars()
    ensures Lower(".**") == ".**"
  {
  }

  predicate NoStars(ps: seq<string>) {
    forall i | 0 <= i < |ps| :: '*' !in ps[i]
  }

  // A rule without wildcards blocks its own name, in any case, and no other.
  lemma ExactRule(ps: seq<string>, domain: string, hs: seq<string>)
    requires RuleLabels(ps) && NoStars(ps) && Written(domain, hs)
    ensures Blocks(JoinDots(ps), domain) <==> LowerAll(hs) == LowerAll(ps)
  {
    hide Blocks, JoinDots, RuleLabels, Written, LowerAll, Lower, RunAt;
    NoStarsIsPlain(ps);
    assert RuleLabels(ps) ==> ps != [] by {
      NotNone(ps);
    }
    PlainRule(ps, domain, hs);
    if |hs| == |ps| {
      SameLabels(ps, hs);
    }
  }

  lemma NotNone(ps: seq<string>)
    ensures RuleLabels(ps) ==> ps != []
  {
  }

  lemma NoStarsIsPlain(ps: seq<string>)
    requires NoStars(ps)
    ensures Plain(ps)
  {
    forall i | 0 <= i < |ps| ensures ps[i] != "**" {
      assert "**"[0] == '*';
      assert '*' !in ps[i];
    }
  }

  lemma SameLabels(ps: seq<string>, hs: seq<string>)
    requires NoStars(ps) && |hs| == |ps|
    ensures RunAt(ps, hs, 0) <==> LowerAll(hs) == LowerAll(ps)
  {
    hide Lower, LowerAll;
    forall i | 0 <= i < |ps| ensures LabelMatches(ps[i], hs[0 + i]) <==> LowerAll(hs)[i] == LowerAll(ps)[i] {
      assert '*' !in ps[i];
    }
    if LowerAll(hs) == LowerAll(ps) {
      assert forall i | 0 <= i < |ps| :: LabelMatches(ps[i], hs[0 + i]);
    }
    if RunAt(ps, hs, 0) {
      assert forall i | 0 <= i < |ps| :: LabelMatches(ps[i], hs[0 + i]);
    }
  }

  // ---------- where the pattern language is not as documented ----------

  // A label pattern before ".**" is documented to fit the first label. The domains
  // blocked are those exactly when the first label fits or no label does.
  lemma FirstLabelIff(p: string, domain: string, hs: seq<string>)
    requires RuleLabels([p]) && p != "**" && Written(domain, hs)
    ensures (Blocks(p + ".**", domain) <==> LabelMatches(p, hs[0])) <==>
            LabelMatches(p, hs[0]) || forall i | 0 <= i < |hs| :: !LabelMatches(p, hs[i])
  {
    hide Blocks, LabelMatches, JoinDots, RuleLabels, RunAt;
    OneLabel(p);
    PrefixRule([p], domain, hs);
    forall k ensures RunAt([p], hs, k) <==> 0 <= k < |hs| && LabelMatches(p, hs[k]) {
      RunOfOne(p, hs, k);
    }
  }

  // "clientlog*.**" blocks "a.clientlog.com".
  lemma LaterLabelIsBlocked()
    ensures Blocks("clientlog*.**", "a.clientlog.com") && !LabelMatches("clientlog*", "a")
  {
    hide Blocks, Lower, LabelMatches, EndsWith, JoinDots;
    var p, hs := "clientlog*", ["a", "clientlog", "com"];
    ThreeLabels(hs);
    ClientlogLabels(p, "clientlog");
    assert LabelMatches(p, hs[1]) && !LabelMatches(p, hs[0]);
    FirstLabelIff(p, "a.clientlog.com", hs);
    assert p + ".**" == "clientlog*.**";
  }

  lemma ThreeLabels(hs: seq<string>)
    requires hs == ["a", "clientlog", "com"]
    ensures JoinDots(hs) == "a.clientlog.com"
  {
    assert hs[1..] == ["clientlog", "com"] && hs[1..][1..] == ["com"];
    OneLabel("com");
  }

  lemma ClientlogLabels(p: string, w: string)
    requires w == "clientlog" && p == "clientlog*"
    ensures LabelMatches(p, w) && !LabelMatches(p, "a")
  {
    hide LabelMatches;
    OneStarGlob(w, [], w);
    OneStarGlob(w, [], "a");
    assert w + "*" + [] == p;
  }

  // ---------- white space ----------

  predicate AllSpace(s: string) {
    forall i | 0 <= i < |s| :: IsSpace(s[i])
  }

  lemma AsciiSpaces(c: char)
    requires c as int < 128
    ensures IsSpace(c) <==> c in "\t\n\U{0B}\U{0C}\r "
  {
  }

  lemma {:induction false} SpaceBefore(a: string, s: string)
    requires AllSpace(a)
    ensures TrimStart(a + s) == TrimStart(s)
  {
    hide IsSpace;
    if a == [] {
      assert a + s == s;
    } else {
      assert (a + s)[0] == a[0] && (a + s)[1..] == a[1..] + s;
      SpaceBefore(a[1..], s);
    }
  }

  lemma {:induction false} SpaceBehind(s: string, b: string)
    requires AllSpace(b)
    ensures TrimEnd(s + b) == TrimEnd(s)
    decreases |b|
  {
    hide IsSpace;
    var n := |b| - 1;
    if b == [] {
      assert s + b == s;
    } else {
      assert (s + b)[|s + b| - 1] == b[n] && (s + b)[..|s + b| - 1] == s + b[..n];
      SpaceBehind(s, b[..n]);
    }
  }

  lemma {:induction false} TrimmedInFront(s: string, b: string)
    requires AllSpace(b)
    ensures TrimStart(s + b) == if TrimStart(s) == [] then [] else TrimStart(s) + b
  {
    hide IsSpace;
    if s == [] {
      assert s + b == b && b + [] == b;
      SpaceBefore(b, []);
    } else {
      assert (s + b)[0] == s[0] && (s + b)[1..] == s[1..] + b;
      TrimmedInFront(s[1..], b);
    }
  }

  // White space around a rule makes no difference. A dot before the white space
  // does not count as a trailing dot.
  lemma SpaceAround(a: string, rule: string, b: string)
    requires AllSpace(a) && AllSpace(b) && (rule != [] ==> rule[|rule| - 1] != '.')
    ensures NormalizeRule(a + rule + b) == NormalizeRule(rule)
  {
    hide TrimStart, TrimEnd, Lower;
    var all := a + rule + b;
    assert StripDot(all) == all && StripDot(rule) == rule;
    assert all == a + (rule + b);
    SpaceBefore(a, rule + b);
    TrimmedInFront(rule, b);
    SpaceBehind(TrimStart(rule), b);
  }

  // One trailing dot of a rule makes no difference.
  lemma RuleDotIgnored(rule: string)
    requires rule != [] ==> rule[|rule| - 1] != '.'
    ensures NormalizeRule(rule + ".") == NormalizeRule(rule)
  {
    hide TrimStart, TrimEnd, Lower;
    assert (rule + ".")[..|rule|] == rule;
  }
}
