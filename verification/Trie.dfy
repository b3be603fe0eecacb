// The reversed-label trie: nodes changed in place by insertion, and the
// memoised search over them.

module Trie {
  import opened Types
  import opened Glob
  import opened Rules
  import opened RuleStrings

  datatype PatternEdge = PatternEdge(raw: string, node: TrieNode)

  class TrieNode {
    var exactChildren: map<string, TrieNode>
    var patternChildren: seq<PatternEdge>
    var multiChild: TrieNode?
    var terminal: bool
    const isMulti: bool
    // The tokens from the root to this node.
    ghost const path: Rule

    constructor (isMulti: bool, ghost path: Rule)
      ensures this.isMulti == isMulti && this.path == path && !terminal
      ensures exactChildren == map[] && patternChildren == [] && multiChild == null
    {
      this.isMulti := isMulti;
      this.path := path;
      exactChildren, patternChildren, multiChild, terminal := map[], [], null, false;
    }

    // The child an edge leads to.
    ghost function Child(t: Token): (c: TrieNode?)
      reads this
    {
      match t
      case Multi => multiChild
      case Exact(name) => if name in exactChildren then exactChildren[name] else null
      case Pattern(raw) => FindEdge(patternChildren, raw)
    }

    method GetOrCreate(token: string) returns (child: TrieNode)
      modifies this
      ensures var t := TokenOf(token);
              if old(Child(t)) != null then child == old(Child(t)) && unchanged(this)
              else
                && fresh(child) && child.path == path + [t] && child.isMulti == t.Multi?
                && !child.terminal && child.exactChildren == map[]
                && child.patternChildren == [] && child.multiChild == null
                && Child(t) == child && terminal == old(terminal)
                && (forall u | u != t :: Child(u) == old(Child(u)))
      ensures old(DistinctRaws(patternChildren)) ==> DistinctRaws(patternChildren)
    {
      ghost var edges := patternChildren;
      if token == "**" {
        child := GetOrCreateMulti();
      } else if STAR in token {
        child := GetOrCreatePattern(token);
        if FindEdge(edges, token) == null {
          NoEdge(edges, token);
          forall raw ensures FindEdge(patternChildren, raw) ==
                             if FindEdge(edges, raw) != null then FindEdge(edges, raw)
                             else if raw == token then child else null
          {
            FindEdgeAppend(edges, PatternEdge(token, child), raw);
          }
        }
      } else {
        child := GetOrCreateExact(token);
      }
    }

    method GetOrCreateExact(text: string) returns (child: TrieNode)
      modifies this`exactChildren
      ensures var name := Lower(text);
              if name in old(exactChildren) then child == old(exactChildren)[name] && unchanged(this)
              else fresh(child) && exactChildren == old(exactChildren)[name := child]
                   && child.path == path + [Exact(name)]
                   && !child.isMulti && !child.terminal && child.exactChildren == map[]
                   && child.patternChildren == [] && child.multiChild == null
    {
      var name := Lower(text);
      if name in exactChildren {
        child := exactChildren[name];
      } else {
        child := new TrieNode(false, path + [Exact(name)]);
        exactChildren := exactChildren[name := child];
      }
    }

    method GetOrCreatePattern(raw: string) returns (child: TrieNode)
      modifies this`patternChildren
      ensures if FindEdge(old(patternChildren), raw) != null
              then child == FindEdge(old(patternChildren), raw) && unchanged(this)
              else fresh(child) && patternChildren == old(patternChildren) + [PatternEdge(raw, child)]
                   && child.path == path + [Pattern(raw)]
                   && !child.isMulti && !child.terminal && child.exactChildren == map[]
                   && child.patternChildren == [] && child.multiChild == null
    {
      for i := 0 to |patternChildren|
        invariant FindEdge(patternChildren, raw) == FindEdge(patternChildren[i..], raw)
        invariant unchanged(this)
      {
        if patternChildren[i].raw == raw {
          return patternChildren[i].node;
        }
      }
      child := new TrieNode(false, path + [Pattern(raw)]);
      patternChildren := patternChildren + [PatternEdge(raw, child)];
    }

    method GetOrCreateMulti() returns (child: TrieNode)
      modifies this`multiChild
      ensures if old(multiChild) != null then child == old(multiChild) && unchanged(this)
              else fresh(child) && multiChild == child && child.path == path + [Multi]
                   && child.isMulti && !child.terminal && child.exactChildren == map[]
                   && child.patternChildren == [] && child.multiChild == null
    {
      if multiChild != null {
        child := multiChild;
      } else {
        child := new TrieNode(true, path + [Multi]);
        multiChild := child;
      }
    }
  }

  // The first edge with a raw pattern.
  ghost function FindEdge(edges: seq<PatternEdge>, raw: string): TrieNode? {
    if edges == [] then null
    else if edges[0].raw == raw then edges[0].node
    else FindEdge(edges[1..], raw)
  }

  ghost predicate DistinctRaws(edges: seq<PatternEdge>) {
    forall i, j | 0 <= i < j < |edges| :: edges[i].raw != edges[j].raw
  }

  lemma {:induction false} FindEdgeAppend(edges: seq<PatternEdge>, e: PatternEdge, raw: string)
    ensures FindEdge(edges + [e], raw) ==
            if FindEdge(edges, raw) != null then FindEdge(edges, raw) else if e.raw == raw then e.node else null
  {
    if edges == [] {
      assert edges + [e] == [e];
    } else {
      FindEdgeAppend(edges[1..], e, raw);
      assert (edges + [e])[1..] == edges[1..] + [e];
    }
  }

  lemma {:induction false} NoEdge(edges: seq<PatternEdge>, raw: string)
    requires FindEdge(edges, raw) == null
    ensures forall i | 0 <= i < |edges| :: edges[i].raw != raw
  {
    if edges != [] && edges[0].raw != raw {
      NoEdge(edges[1..], raw);
      assert forall i | 1 <= i < |edges| :: edges[i] == edges[1..][i - 1];
    }
  }

  lemma EdgeOrNone(edges: seq<PatternEdge>, raw: string)
    ensures FindEdge(edges, raw) == null || exists i :: 0 <= i < |edges| && edges[i].raw == raw
  {
    if FindEdge(edges, raw) != null {
      EdgeOfFound(edges, raw);
    }
  }

  lemma {:induction false} EdgeOfFound(edges: seq<PatternEdge>, raw: string)
    requires FindEdge(edges, raw) != null
    ensures exists i :: 0 <= i < |edges| && edges[i].raw == raw
  {
    if edges[0].raw != raw {
      EdgeOfFound(edges[1..], raw);
      var i :| 0 <= i < |edges[1..]| && edges[1..][i].raw == raw;
      assert edges[i + 1].raw == raw;
    }
  }

  lemma {:induction false} EdgeIsFound(edges: seq<PatternEdge>, i: nat)
    requires DistinctRaws(edges) && i < |edges|
    ensures FindEdge(edges, edges[i].raw) == edges[i].node
  {
    if i > 0 {
      assert edges[0].raw != edges[i].raw;
      assert forall a | 0 <= a < |edges[1..]| :: edges[1..][a] == edges[a + 1];
      EdgeIsFound(edges[1..], i - 1);
    }
  }

  // ---------- the memo table ----------

  type Memo = map<(TrieNode, nat), bool>

  // A key whose evaluation starts after that of (node, index) in the search's
  // measure: more labels consumed, or a longer path at the same label.
  ghost predicate Later(k: (TrieNode, nat), node: TrieNode, index: nat) {
    k.1 > index || (k.1 == index && |k.0.path| > |node.path|)
  }

  // The table the search fills, with a count of the uncached evaluations begun
  // and of those whose answer is not recorded yet.
  class MemoTable {
    var table: Memo
    ghost var evaluations: nat
    ghost var open: nat

    constructor ()
      ensures table == map[] && Counted() && evaluations == 0 && open == 0
    {
      table, evaluations, open := map[], 0, 0;
    }

    ghost predicate Counted()
      reads this
    {
      evaluations == |table| + open
    }

    // An uncached evaluation begins.
    ghost method Begin()
      requires Counted()
      modifies this`evaluations, this`open
      ensures Counted() && evaluations == old(evaluations) + 1 && open == old(open) + 1
    {
      evaluations, open := evaluations + 1, open + 1;
    }

    // And ends by recording its answer under a new key.
    method Record(node: TrieNode, index: nat, r: bool)
      requires Counted() && (node, index) !in table && open > 0
      modifies this`table, this`open
      ensures table == old(table)[(node, index) := r] && Counted() && open == old(open) - 1
    {
      assert table[(node, index) := r].Keys == table.Keys + {(node, index)};
      assert |table[(node, index) := r].Keys| == |table.Keys| + 1;
      table := table[(node, index) := r];
      open := open - 1;
    }
  }

  // The table only grew, by entries all later than (node, index).
  ghost predicate Grew(before: Memo, after: Memo, node: TrieNode, index: nat) {
    && (forall k | k in before :: k in after && after[k] == before[k])
    && (forall k | k in after && k !in before :: Later(k, node, index))
  }

  // The same once the result for (node, index) itself is recorded.
  ghost predicate Recorded(before: Memo, after: Memo, node: TrieNode, index: nat) {
    && (forall k | k in before :: k in after && after[k] == before[k])
    && (forall k | k in after && k !in before :: k == (node, index) || Later(k, node, index))
  }

  lemma GrewThenRecorded(a: Memo, b: Memo, c: Memo, node: TrieNode, index: nat, child: TrieNode, next: nat)
    requires Grew(a, b, node, index) && Recorded(b, c, child, next)
    requires Later((child, next), node, index)
    ensures Grew(a, c, node, index)
  {
  }

  lemma NextIsLater(child: TrieNode, node: TrieNode, index: nat)
    ensures Later((child, index + 1), node, index)
  {
  }

  lemma StillLater(child: TrieNode, node: TrieNode, index: nat)
    requires |child.path| > |node.path|
    ensures Later((child, index), node, index)
  {
  }

  lemma GrewTwice(a: Memo, b: Memo, c: Memo, node: TrieNode, index: nat)
    requires Grew(a, b, node, index) && Grew(b, c, node, index)
    ensures Grew(a, c, node, index)
  {
  }

  lemma NothingGrew(a: Memo, node: TrieNode, index: nat)
    ensures Grew(a, a, node, index) && Recorded(a, a, node, index)
  {
  }

  // The key of an evaluation in progress is new when it is recorded.
  lemma RecordKey(a: Memo, b: Memo, node: TrieNode, index: nat, r: bool)
    requires Grew(a, b, node, index) && (node, index) !in a
    ensures (node, index) !in b && Recorded(a, b[(node, index) := r], node, index)
  {
  }

  lemma {:induction false} PathsBoundKeys(keys: set<(TrieNode, nat)>, paths: set<Rule>)
    requires forall k | k in keys :: k.0.path in paths
    requires forall k, l | k in keys && l in keys && k.0.path == l.0.path :: k == l
    ensures |keys| <= |paths|
    decreases |keys|
  {
    if keys != {} {
      var k :| k in keys;
      PathsBoundKeys(keys - {k}, paths - {k.0.path});
    }
  }

  lemma {:induction false} KeysBound(keys: set<(TrieNode, nat)>, paths: set<Rule>, n: nat)
    requires forall k | k in keys :: k.0.path in paths && k.1 < n
    requires forall k, l | k in keys && l in keys && k.0.path == l.0.path :: k.0 == l.0
    ensures |keys| <= |paths| * n
    decreases n
  {
    if n == 0 {
      assert keys == {};
    } else {
      var top := set k | k in keys && k.1 == n - 1;
      PathsBoundKeys(top, paths);
      KeysBound(keys - top, paths, n - 1);
      assert |keys| == |keys - top| + |top|;
      assert |paths| * n == |paths| * (n - 1) + |paths|;
    }
  }

  // The child of the node at `p` along `t` takes the label at `i` and leads on
  // to a rule.
  ghost predicate ChildTakes(paths: set<Rule>, rules: set<Rule>, p: Rule, t: Token, labels: seq<string>, i: nat)
    requires i < |labels|
  {
    && p + [t] in paths && Fits(t, labels[i])
    && ((EndsInMulti(p) && p + [t] in rules) || TrieSearch(paths, rules, p + [t], labels, i + 1))
  }

  lemma PatternFits(raw: string, l: string)
    ensures Fits(Pattern(raw), l) == LabelMatches(raw, l)
  {
  }

  lemma PatternTakes(paths: set<Rule>, rules: set<Rule>, p: Rule, raw: string, labels: seq<string>, i: nat)
    requires i < |labels| && ChildTakes(paths, rules, p, Pattern(raw), labels, i)
    ensures SomePatternTakes(paths, rules, p, labels, i)
  {
    hide ChildTakes;
  }

  ghost predicate NoneTakes(
    paths: set<Rule>, rules: set<Rule>, p: Rule, edges: seq<PatternEdge>, labels: seq<string>, i: nat)
    requires i < |labels|
  {
    forall j | 0 <= j < |edges| :: !ChildTakes(paths, rules, p, Pattern(edges[j].raw), labels, i)
  }

  lemma NoEdgeTakes(paths: set<Rule>, rules: set<Rule>, p: Rule, labels: seq<string>, i: nat)
    requires i < |labels|
    ensures NoneTakes(paths, rules, p, [], labels, i)
  {
  }

  lemma NeitherTakes(
    paths: set<Rule>, rules: set<Rule>, p: Rule, edges: seq<PatternEdge>, n: nat, labels: seq<string>, i: nat)
    requires i < |labels| && n < |edges|
    requires NoneTakes(paths, rules, p, edges[..n], labels, i)
    requires !ChildTakes(paths, rules, p, Pattern(edges[n].raw), labels, i)
    ensures NoneTakes(paths, rules, p, edges[..n + 1], labels, i)
  {
    hide ChildTakes;
    forall j | 0 <= j < n ensures !ChildTakes(paths, rules, p, Pattern(edges[j].raw), labels, i) {
      assert edges[..n][j] == edges[j];
    }
  }

  lemma NotTaken(paths: set<Rule>, rules: set<Rule>, p: Rule, t: Token, labels: seq<string>, i: nat)
    requires i < |labels| && (p + [t] !in paths || !Fits(t, labels[i]))
    ensures !ChildTakes(paths, rules, p, t, labels, i)
  {
  }

  lemma ChildrenTake(paths: set<Rule>, rules: set<Rule>, p: Rule, labels: seq<string>, i: nat)
    requires i < |labels|
    ensures (exists q :: q in paths && StepsTo(p, q, labels[i]) &&
                         ((EndsInMulti(p) && q in rules) || TrieSearch(paths, rules, q, labels, i + 1)))
            <==> (exists t :: ChildTakes(paths, rules, p, t, labels, i))
  {
    hide TrieSearch, Fits, EndsInMulti;
    if q :| q in paths && StepsTo(p, q, labels[i]) &&
            ((EndsInMulti(p) && q in rules) || TrieSearch(paths, rules, q, labels, i + 1)) {
      assert q == p + [q[|p|]];
      assert ChildTakes(paths, rules, p, q[|p|], labels, i);
    }
    if t :| ChildTakes(paths, rules, p, t, labels, i) {
      var q := p + [t];
      assert q[..|p|] == p && q[|p|] == t;
      assert StepsTo(p, q, labels[i]);
    }
  }

  // How many nodes lie deeper than this path.
  ghost function Room(paths: set<Rule>, p: Rule): nat {
    |Deeper(paths, p)|
  }

  lemma SmallerSubset<T>(a: set<T>, b: set<T>)
    requires a < b
    ensures |a| < |b|
  {
    assert b == a + (b - a) && b - a != {};
  }

  lemma LessRoom(paths: set<Rule>, p: Rule, q: Rule)
    requires q in paths && |q| > |p|
    ensures Room(paths, q) < Room(paths, p)
  {
    ChildIsDeeper(paths, p, q);
    SmallerSubset(Deeper(paths, q), Deeper(paths, p));
  }

  ghost predicate SomePatternTakes(paths: set<Rule>, rules: set<Rule>, p: Rule, labels: seq<string>, i: nat)
    requires i < |labels|
  {
    exists raw :: ChildTakes(paths, rules, p, Pattern(raw), labels, i)
  }

  // What the search tries with the label at `i`.
  ghost predicate LabelStep(paths: set<Rule>, rules: set<Rule>, p: Rule, labels: seq<string>, i: nat)
    requires i < |labels|
  {
    || ChildTakes(paths, rules, p, Exact(labels[i]), labels, i)
    || SomePatternTakes(paths, rules, p, labels, i)
    || SkipStep(paths, rules, p, labels, i)
  }

  ghost predicate SkipStep(paths: set<Rule>, rules: set<Rule>, p: Rule, labels: seq<string>, i: nat)
    requires i < |labels|
  {
    || (EndsInMulti(p) && TrieSearch(paths, rules, p, labels, i + 1))
    || (p + [Multi] in paths && TrieSearch(paths, rules, p + [Multi], labels, i + 1))
  }

  // One step of the search, edge by edge.
  lemma SearchStep(paths: set<Rule>, rules: set<Rule>, p: Rule, labels: seq<string>, i: nat)
    requires i <= |labels|
    ensures TrieSearch(paths, rules, p, labels, i) <==>
              || (p in rules && (i == |labels| || EndsInMulti(p)))
              || (p + [Multi] in paths && TrieSearch(paths, rules, p + [Multi], labels, i))
              || (i < |labels| && LabelStep(paths, rules, p, labels, i))
  {
    if i < |labels| {
      ChildrenTake(paths, rules, p, labels, i);
      if t :| ChildTakes(paths, rules, p, t, labels, i) {
        assert t == Exact(labels[i]) || t == Pattern(t.raw);
      }
    }
  }

  lemma PathsExtend(paths: set<Rule>, rules: set<Rule>, p: Rule, t: Token)
    requires WfPaths(paths, rules) && p in paths
    ensures WfPaths(paths + {p + [t]}, rules)
  {
    assert (p + [t])[..|p + [t]| - 1] == p;
  }

  lemma OneTokenLonger(p: Rule, t: Token, q: Rule, u: Token)
    ensures p + [t] == q + [u] ==> p == q && t == u
    ensures p + [t] != p && |p + [t]| == |p| + 1
  {
    if p + [t] == q + [u] {
      assert p == (p + [t])[..|p|] && q == (q + [u])[..|q|];
      assert t == (p + [t])[|p|];
    }
  }

  // ---------- the matcher ----------

  class BlockMatcher {
    var root: TrieNode
    var ruleCount: nat
    // All nodes by path, and the token sequences inserted.
    ghost var nodes: map<Rule, TrieNode>
    ghost var rules: set<Rule>

    ghost predicate Valid()
      reads this, nodes.Values
    {
      && [] in nodes && nodes[[]] == root
      && (forall p | p in nodes :: NodeOk(p))
      && (forall p, t | p in nodes :: Linked(p, t))
      && (forall p | p in nodes :: p in rules <==> nodes[p].terminal)
      && WfPaths(nodes.Keys, rules)
      && ruleCount == |rules|
    }

    ghost predicate NodeOk(p: Rule)
      requires p in nodes
      reads this, nodes.Values
    {
      nodes[p].path == p && nodes[p].isMulti == EndsInMulti(p) && DistinctRaws(nodes[p].patternChildren)
    }

    // The edges of a node are its one-token extensions.
    ghost predicate Linked(p: Rule, t: Token)
      requires p in nodes
      reads this, nodes.Values
    {
      nodes[p].Child(t) == if p + [t] in nodes then nodes[p + [t]] else null
    }

    ghost predicate Has(n: TrieNode)
      reads this
    {
      n.path in nodes && nodes[n.path] == n
    }

    constructor ()
      ensures Valid() && rules == {} && fresh(root) && nodes == map[[] := root]
    {
      root := new TrieNode(false, []);
      ruleCount := 0;
      new;
      nodes := map[[] := root];
      rules := {};
    }

    // One step down, creating the child if it is missing.
    method Descend(node: TrieNode, token: string) returns (child: TrieNode)
      requires Valid() && Has(node)
      modifies this`nodes, node
      ensures Valid() && Has(child) && child.path == node.path + [TokenOf(token)]
      ensures rules == old(rules) && ruleCount == old(ruleCount) && root == old(root)
      ensures nodes == old(nodes)[child.path := child]
      ensures child in old(nodes.Values) || fresh(child)
    {
      hide WfPaths, TokenOf, NodeOk, Linked, DistinctRaws;
      ghost var t, q := TokenOf(token), node.path + [TokenOf(token)];
      EdgeLeads(node, t);
      child := node.GetOrCreate(token);
      if q !in nodes {
        OthersUnchanged(node);
        EdgesKept(node);
        CreateChild(node, t, child, q);
      }
    }

    // The edge along a token is the one-token extension, if there is one.
    lemma EdgeLeads(node: TrieNode, t: Token)
      requires Valid() && Has(node)
      ensures var q := node.path + [t];
              && DistinctRaws(node.patternChildren)
              && node.Child(t) == (if q in nodes then nodes[q] else null)
              && (q in nodes ==>
                    && Has(nodes[q]) && nodes[q].path == q && nodes[q] in nodes.Values
                    && nodes == nodes[q := nodes[q]])
    {
      hide WfPaths, DistinctRaws;
      assert Linked(node.path, t) && NodeOk(node.path);
      if node.path + [t] in nodes {
        assert NodeOk(node.path + [t]);
      }
    }

    // A node keeps its links along every edge that did not change.
    twostate lemma EdgesKept(node: TrieNode)
      requires old(Valid()) && old(Has(node)) && nodes == old(nodes)
      requires DistinctRaws(node.patternChildren)
      ensures NodeOk(node.path)
      ensures forall u | node.Child(u) == old(node.Child(u)) :: Linked(node.path, u)
    {
      hide FindEdge, DistinctRaws, EndsInMulti, WfPaths;
      assert old(NodeOk(node.path));
      forall u | node.Child(u) == old(node.Child(u)) ensures Linked(node.path, u) {
        assert old(Linked(node.path, u));
      }
    }

    // A step that touched at most `node` keeps what holds of the other nodes.
    twostate lemma OthersUnchanged(node: TrieNode)
      requires old(Valid()) && old(Has(node)) && nodes == old(nodes) && root == old(root)
      requires forall n | n in nodes.Values && n != node :: unchanged(n)
      ensures forall p | p in nodes && p != node.path :: NodeOk(p) && nodes[p].terminal == old(nodes[p].terminal)
      ensures forall p, u | p in nodes && p != node.path :: Linked(p, u)
    {
      forall p | p in nodes && p != node.path
        ensures NodeOk(p) && nodes[p] != node && nodes[p].terminal == old(nodes[p].terminal)
      {
        assert old(NodeOk(p));
        assert nodes[p] in nodes.Values;
      }
      forall p, u | p in nodes && p != node.path ensures Linked(p, u) {
        assert old(Linked(p, u));
        assert nodes[p] in nodes.Values;
      }
    }

    // Registers a child just created.
    ghost method CreateChild(node: TrieNode, t: Token, child: TrieNode, q: Rule)
      requires Has(node) && q == node.path + [t] && q !in nodes && child !in nodes.Values
      requires [] in nodes && nodes[[]] == root && WfPaths(nodes.Keys, rules) && ruleCount == |rules|
      requires forall p | p in nodes :: NodeOk(p)
      requires forall p | p in nodes :: p in rules <==> nodes[p].terminal
      requires forall p, u | p in nodes && !(p == node.path && u == t) :: Linked(p, u)
      requires node.Child(t) == child && child.path == q && child.isMulti == t.Multi? && !child.terminal
      requires child.exactChildren == map[] && child.patternChildren == [] && child.multiChild == null
      modifies this`nodes
      ensures Valid() && nodes == old(nodes)[q := child]
    {
      ghost var before := nodes;
      PathsExtend(nodes.Keys, rules, node.path, t);
      nodes := nodes[q := child];
      assert nodes.Keys == before.Keys + {q};
      assert EndsInMulti(q) == t.Multi?;
      forall p | p in nodes ensures NodeOk(p) && (p in rules <==> nodes[p].terminal) {
        if p != q {
          assert old(NodeOk(p));
        }
      }
      forall p, u | p in nodes ensures Linked(p, u) {
        OneTokenLonger(p, u, node.path, t);
        if p == q {
          assert (p + [u])[..|p + [u]| - 1] == p;
          assert p + [u] !in before.Keys;
        } else if p == node.path && u == t {
        } else {
          assert old(Linked(p, u));
        }
      }
    }

    // Inserts a rule string; a rule already present is not counted again.
    method AddPattern(rule: string)
      requires Valid()
      modifies this, nodes.Values
      ensures Valid() && fresh(nodes.Values - old(nodes.Values))
      ensures rules == old(rules) + RulesOf([rule])
      ensures ruleCount == |rules|
    {
      hide NormalizeRule, SplitLabelsReversed, WfPaths, NodeOk, Linked, TokensOf;
      var normalized := NormalizeRule(rule);
      RulesOfOne(rule);
      if |normalized| == 0 {
        return;
      }
      var labels := SplitLabelsReversed(normalized);
      var node := InsertPath(labels);
      if !node.terminal {
        MarkTerminal(node);
      }
    }

    // Walks down from the root along the labels, creating what is missing.
    method InsertPath(labels: seq<string>) returns (node: TrieNode)
      requires Valid()
      modifies this`nodes, nodes.Values
      ensures Valid() && Has(node) && node.path == TokensOf(labels)
      ensures rules == old(rules) && ruleCount == old(ruleCount)
      ensures fresh(nodes.Values - old(nodes.Values))
    {
      hide WfPaths, NodeOk, Linked;
      RootAtEmptyPath();
      node := root;
      ghost var tokens := TokensOf(labels);
      for i := 0 to |labels|
        invariant Valid() && Has(node) && node.path == tokens[..i]
        invariant rules == old(rules) && ruleCount == old(ruleCount)
        invariant fresh(nodes.Values - old(nodes.Values))
      {
        ghost var before := nodes;
        node := Descend(node, labels[i]);
        TakeOneMore(tokens, i);
        assert nodes.Values <= before.Values + {node};
      }
      assert tokens[..|tokens|] == tokens;
    }

    lemma RootAtEmptyPath()
      requires Valid()
      ensures Has(root) && root.path == []
    {
      hide WfPaths, Linked;
      assert NodeOk([]);
    }

    method MarkTerminal(node: TrieNode)
      requires Valid() && Has(node) && !node.terminal
      modifies this`ruleCount, this`rules, node`terminal
      ensures Valid() && rules == old(rules) + {node.path} && nodes == old(nodes)
    {
      hide Valid;
      NotYetARule(node);
      node.terminal := true;
      ruleCount := ruleCount + 1;
      rules := rules + {node.path};
      OneMoreRule(node);
    }

    lemma NotYetARule(node: TrieNode)
      requires Valid() && Has(node) && !node.terminal
      ensures node.path !in rules
    {
    }

    twostate lemma OneMoreRule(node: TrieNode)
      requires old(Valid()) && old(Has(node)) && nodes == old(nodes) && root == old(root)
      requires node.path !in old(rules) && rules == old(rules) + {node.path} && ruleCount == old(ruleCount) + 1
      requires node.terminal && node.exactChildren == old(node.exactChildren)
      requires node.multiChild == old(node.multiChild) && node.patternChildren == old(node.patternChildren)
      requires forall n | n in nodes.Values && n != node :: unchanged(n)
      ensures Valid()
    {
      hide NodeOk, Linked, FindEdge, DistinctRaws;
      OthersUnchanged(node);
      SameEdges(node);
      EdgesKept(node);
      assert forall p | p in nodes :: p in rules <==> nodes[p].terminal;
    }

    twostate lemma SameEdges(node: TrieNode)
      requires old(Valid()) && old(Has(node)) && nodes == old(nodes)
      requires node.exactChildren == old(node.exactChildren) && node.multiChild == old(node.multiChild)
      requires node.patternChildren == old(node.patternChildren)
      ensures DistinctRaws(node.patternChildren)
      ensures forall u :: node.Child(u) == old(node.Child(u))
    {
      hide FindEdge, DistinctRaws, WfPaths, Linked;
      assert old(NodeOk(node.path));
    }

    // Inserts many rules; the order and repetitions make no difference.
    method BatchAdd(patterns: seq<string>)
      requires Valid()
      modifies this, nodes.Values
      ensures Valid() && fresh(nodes.Values - old(nodes.Values))
      ensures rules == old(rules) + RulesOf(patterns)
      ensures ruleCount == |rules|
    {
      hide RulesOf, WfPaths, NodeOk, Linked;
      assert patterns[..0] == [];
      RulesOfNone();
      for i := 0 to |patterns|
        invariant Valid() && fresh(nodes.Values - old(nodes.Values))
        invariant rules == old(rules) + RulesOf(patterns[..i])
      {
        AddPattern(patterns[i]);
        TakeOneMore(patterns, i);
        RulesOfSnoc(patterns[..i], patterns[i]);
      }
      assert patterns[..|patterns|] == patterns;
    }

    static method FromPatterns(patterns: seq<string>) returns (m: BlockMatcher)
      ensures fresh(m) && fresh(m.nodes.Values) && m.Valid()
      ensures m.rules == RulesOf(patterns) && m.ruleCount == |m.rules|
    {
      hide RulesOf;
      m := new BlockMatcher();
      m.BatchAdd(patterns);
    }

    // Every recorded answer is the memo-free one.
    ghost predicate MemoOk(table: Memo, labels: seq<string>)
      reads this
    {
      forall k | k in table :: Has(k.0) && k.1 <= |labels|
        && table[k] == TrieSearch(nodes.Keys, rules, k.0.path, labels, k.1)
    }

    // The search at a node, answered from the table when it can be.
    method MatchNode(node: TrieNode, labels: seq<string>, index: nat, memo: MemoTable) returns (r: bool)
      requires Valid() && Has(node) && index <= |labels| && MemoOk(memo.table, labels) && memo.Counted()
      modifies memo
      ensures r <==> TrieSearch(nodes.Keys, rules, node.path, labels, index)
      ensures MemoOk(memo.table, labels) && memo.Counted() && Recorded(old(memo.table), memo.table, node, index)
      ensures (node, index) in memo.table && memo.open == old(memo.open)
      decreases |labels| - index, Room(nodes.Keys, node.path), 4
    {
      hide TrieSearch, Valid, Grew, Recorded, Room;
      if (node, index) in memo.table {
        NothingGrew(memo.table, node, index);
        return memo.table[(node, index)];
      }
      r := Evaluate(node, labels, index, memo);
      RecordKey(old(memo.table), memo.table, node, index, r);
      MemoKeeps(memo.table, node, labels, index, r);
      memo.Record(node, index, r);
    }

    lemma MemoKeeps(table: Memo, node: TrieNode, labels: seq<string>, index: nat, r: bool)
      requires MemoOk(table, labels) && Has(node) && index <= |labels|
      requires r == TrieSearch(nodes.Keys, rules, node.path, labels, index)
      ensures MemoOk(table[(node, index) := r], labels)
    {
      hide TrieSearch;
    }

    // The search at a node whose answer is not in the table.
    method Evaluate(node: TrieNode, labels: seq<string>, index: nat, memo: MemoTable) returns (r: bool)
      requires Valid() && Has(node) && index <= |labels| && MemoOk(memo.table, labels) && memo.Counted()
      modifies memo
      ensures r <==> TrieSearch(nodes.Keys, rules, node.path, labels, index)
      ensures MemoOk(memo.table, labels) && memo.Counted() && Grew(old(memo.table), memo.table, node, index)
      ensures memo.open == old(memo.open) + 1
      decreases |labels| - index, Room(nodes.Keys, node.path), 3
    {
      hide TrieSearch, ChildTakes, SomePatternTakes, Fits, EndsInMulti, Valid, MemoOk, Room, Grew, Recorded, Later, Has;
      memo.Begin();
      MultiEdge(node);
      SearchStep(nodes.Keys, rules, node.path, labels, index);
      ghost var start := memo.table;
      NothingGrew(start, node, index);
      if node.terminal && (index == |labels| || node.isMulti) {
        return true;
      }
      if node.multiChild != null {
        r := MatchNode(node.multiChild, labels, index, memo);
        StillLater(node.multiChild, node, index);
        GrewThenRecorded(start, start, memo.table, node, index, node.multiChild, index);
        if r {
          return;
        }
      }
      if index >= |labels| {
        return false;
      }
      ghost var before := memo.table;
      r := EvaluateLabel(node, labels, index, memo);
      GrewTwice(start, before, memo.table, node, index);
    }

    // The steps that consume a label: along an edge, exact before glob, then
    // staying at a `**` node, then skipping to a `**` child.
    method EvaluateLabel(node: TrieNode, labels: seq<string>, index: nat, memo: MemoTable) returns (r: bool)
      requires Valid() && Has(node) && index < |labels| && MemoOk(memo.table, labels) && memo.Counted()
      modifies memo
      ensures r <==> LabelStep(nodes.Keys, rules, node.path, labels, index)
      ensures MemoOk(memo.table, labels) && memo.Counted() && Grew(old(memo.table), memo.table, node, index)
      ensures memo.open == old(memo.open)
      decreases |labels| - index, Room(nodes.Keys, node.path), 2
    {
      hide TrieSearch, ChildTakes, SomePatternTakes, Fits, EndsInMulti, Valid, MemoOk, Room, Grew, Recorded, Later;
      hide SkipStep, Has;
      ghost var start := memo.table;
      r := TryExact(node, labels, index, memo);
      if r {
        return;
      }
      ghost var before := memo.table;
      r := TryPatterns(node, labels, index, memo);
      GrewTwice(start, before, memo.table, node, index);
      if r {
        return;
      }
      before := memo.table;
      r := EvaluateSkips(node, labels, index, memo);
      GrewTwice(start, before, memo.table, node, index);
    }

    // Skipping the label: staying at a `**` node, then moving to a `**` child.
    method EvaluateSkips(node: TrieNode, labels: seq<string>, index: nat, memo: MemoTable) returns (r: bool)
      requires Valid() && Has(node) && index < |labels| && MemoOk(memo.table, labels) && memo.Counted()
      modifies memo
      ensures r <==> SkipStep(nodes.Keys, rules, node.path, labels, index)
      ensures MemoOk(memo.table, labels) && memo.Counted() && Grew(old(memo.table), memo.table, node, index)
      ensures memo.open == old(memo.open)
      decreases |labels| - index, Room(nodes.Keys, node.path), 1
    {
      hide TrieSearch, EndsInMulti, Valid, MemoOk, Room, Grew, Recorded, Later, Has;
      MultiEdge(node);
      ghost var start := memo.table;
      NothingGrew(start, node, index);
      if node.isMulti {
        r := MatchNode(node, labels, index + 1, memo);
        NextIsLater(node, node, index);
        GrewThenRecorded(start, start, memo.table, node, index, node, index + 1);
        if r {
          return;
        }
      }
      ghost var before := memo.table;
      if node.multiChild != null {
        r := MatchNode(node.multiChild, labels, index + 1, memo);
        NextIsLater(node.multiChild, node, index);
        GrewThenRecorded(start, before, memo.table, node, index, node.multiChild, index + 1);
      } else {
        r := false;
      }
    }

    // The `**` child is the one-`**` extension.
    lemma MultiEdge(node: TrieNode)
      requires Valid() && Has(node)
      ensures node.isMulti == EndsInMulti(node.path) && (node.terminal <==> node.path in rules)
      ensures node.multiChild == null <==> node.path + [Multi] !in nodes
      ensures node.multiChild != null ==>
                && Has(node.multiChild) && node.multiChild.path == node.path + [Multi]
                && Room(nodes.Keys, node.path + [Multi]) < Room(nodes.Keys, node.path)
    {
      var m := node.path + [Multi];
      assert NodeOk(node.path) && Linked(node.path, Multi);
      if m in nodes {
        assert NodeOk(m);
        LessRoom(nodes.Keys, node.path, m);
      }
    }

    // The step to a child: accepted at once when it ends a rule below a `**`.
    method TryChild(node: TrieNode, child: TrieNode, ghost t: Token, labels: seq<string>, index: nat, memo: MemoTable)
      returns (r: bool)
      requires Valid() && Has(node) && index < |labels| && MemoOk(memo.table, labels) && memo.Counted()
      requires Has(child) && child.path == node.path + [t] && Fits(t, labels[index])
      modifies memo
      ensures r <==> ChildTakes(nodes.Keys, rules, node.path, t, labels, index)
      ensures MemoOk(memo.table, labels) && memo.Counted() && Grew(old(memo.table), memo.table, node, index)
      ensures memo.open == old(memo.open)
      decreases |labels| - index, Room(nodes.Keys, node.path), 0
    {
      hide TrieSearch, Fits, EndsInMulti, Valid, Grew, Recorded, MemoOk, Later, Room;
      MultiEdge(node);
      MultiEdge(child);
      NothingGrew(memo.table, node, index);
      if node.isMulti && child.terminal {
        return true;
      }
      r := MatchNode(child, labels, index + 1, memo);
      NextIsLater(child, node, index);
      GrewThenRecorded(old(memo.table), old(memo.table), memo.table, node, index, child, index + 1);
    }

    method TryExact(node: TrieNode, labels: seq<string>, index: nat, memo: MemoTable) returns (r: bool)
      requires Valid() && Has(node) && index < |labels| && MemoOk(memo.table, labels) && memo.Counted()
      modifies memo
      ensures r <==> ChildTakes(nodes.Keys, rules, node.path, Exact(labels[index]), labels, index)
      ensures MemoOk(memo.table, labels) && memo.Counted() && Grew(old(memo.table), memo.table, node, index)
      ensures memo.open == old(memo.open)
      decreases |labels| - index, Room(nodes.Keys, node.path), 1
    {
      hide TrieSearch, EndsInMulti, Valid, Grew, Recorded, MemoOk, Room;
      ghost var t := Exact(labels[index]);
      EdgeLeads(node, t);
      if labels[index] in node.exactChildren {
        r := TryChild(node, node.exactChildren[labels[index]], t, labels, index, memo);
      } else {
        NothingGrew(memo.table, node, index);
        return false;
      }
    }

    method TryPatterns(node: TrieNode, labels: seq<string>, index: nat, memo: MemoTable) returns (r: bool)
      requires Valid() && Has(node) && index < |labels| && MemoOk(memo.table, labels) && memo.Counted()
      modifies memo
      ensures r <==> SomePatternTakes(nodes.Keys, rules, node.path, labels, index)
      ensures MemoOk(memo.table, labels) && memo.Counted() && Grew(old(memo.table), memo.table, node, index)
      ensures memo.open == old(memo.open)
      decreases |labels| - index, Room(nodes.Keys, node.path), 1
    {
      hide TrieSearch, ChildTakes, SomePatternTakes, NoneTakes, Valid, Fits, LabelMatches, MemoOk, Grew, Recorded, Room;
      ghost var p := node.path;
      ghost var start := memo.table;
      NothingGrew(start, node, index);
      NoEdgeTakes(nodes.Keys, rules, p, labels, index);
      assert node.patternChildren[..0] == [];
      for i := 0 to |node.patternChildren|
        invariant MemoOk(memo.table, labels) && memo.Counted() && memo.open == old(memo.open)
        invariant Grew(start, memo.table, node, index)
        invariant NoneTakes(nodes.Keys, rules, p, node.patternChildren[..i], labels, index)
      {
        var edge := node.patternChildren[i];
        var fits := LabelMatchesGlob(edge.raw, labels[index]);
        PatternFits(edge.raw, labels[index]);
        if fits {
          ghost var before := memo.table;
          PatternEdgeLeads(node, i);
          r := TryChild(node, edge.node, Pattern(edge.raw), labels, index, memo);
          GrewTwice(start, before, memo.table, node, index);
          if r {
            PatternTakes(nodes.Keys, rules, p, edge.raw, labels, index);
            return;
          }
        } else {
          NotTaken(nodes.Keys, rules, p, Pattern(edge.raw), labels, index);
        }
        NeitherTakes(nodes.Keys, rules, p, node.patternChildren, i, labels, index);
      }
      r := false;
      assert node.patternChildren[..|node.patternChildren|] == node.patternChildren;
      NoPatternTakes(node, labels, index);
    }

    // The glob edges of a node are its one-pattern extensions.
    lemma PatternEdgeLeads(node: TrieNode, i: nat)
      requires Valid() && Has(node) && i < |node.patternChildren|
      ensures var edge := node.patternChildren[i];
              Has(edge.node) && edge.node.path == node.path + [Pattern(edge.raw)]
    {
      hide WfPaths;
      var p, edges := node.path, node.patternChildren;
      assert NodeOk(p);
      assert Linked(p, Pattern(edges[i].raw));
      EdgeIsFound(edges, i);
      assert NodeOk(p + [Pattern(edges[i].raw)]);
    }

    // A pattern no edge carries leads nowhere.
    lemma NoPatternTakes(node: TrieNode, labels: seq<string>, index: nat)
      requires Valid() && Has(node) && index < |labels|
      requires NoneTakes(nodes.Keys, rules, node.path, node.patternChildren, labels, index)
      ensures !SomePatternTakes(nodes.Keys, rules, node.path, labels, index)
    {
      hide WfPaths, TrieSearch, Fits;
      var p := node.path;
      forall raw ensures !ChildTakes(nodes.Keys, rules, p, Pattern(raw), labels, index) {
        if p + [Pattern(raw)] in nodes {
          assert Linked(p, Pattern(raw));
          EdgeOrNone(node.patternChildren, raw);
        }
      }
    }

    lemma NothingRecorded(labels: seq<string>)
      ensures MemoOk(map[], labels)
    {
    }

    lemma SearchIsBlocked(labels: seq<string>)
      requires Valid()
      ensures TrieSearch(nodes.Keys, rules, [], labels, 0) <==> Blocked(rules, labels)
    {
      hide TrieSearch, Blocked;
      TrieIsItsRules(nodes.Keys, rules, labels);
    }

    // At most one entry per node and label position.
    lemma MemoIsBounded(table: Memo, labels: seq<string>)
      requires MemoOk(table, labels)
      ensures |table| <= |nodes| * (|labels| + 1)
    {
      hide TrieSearch;
      KeysBound(table.Keys, nodes.Keys, |labels| + 1);
      assert |table.Keys| == |table| && |nodes.Keys| == |nodes|;
    }

    // Whether a domain is blocked, by at most one evaluation per node and label
    // position. One rule without wildcards blocks exactly its own name, in any case,
    // with or without a trailing dot.
    method IsBlocked(domain: string) returns (r: bool, ghost evaluations: nat)
      requires Valid()
      ensures r <==> StripDot(domain) != [] && Blocked(rules, DomainLabels(domain))
      ensures forall patterns | rules == RulesOf(patterns) :: r <==> BlocksAny(patterns, domain)
      ensures forall name, host |
                rules == RulesOf([JoinDots(name)]) && RuleLabels(name) && NoStars(name) && Written(domain, host) ::
                r <==> LowerAll(host) == LowerAll(name)
      ensures evaluations <= |nodes| * (|DomainLabels(domain)| + 1)
    {
      hide Lower, SplitLabelsReversed, Blocked, TrieSearch, StripDot, Valid, MemoOk, RuleLabels, NoStars, Written;
      hide LowerAll, RulesOf, JoinDots;
      ExactRulesBlock(domain);
      var name := Lower(StripDot(domain));
      if |name| == 0 {
        return false, 0;
      }
      var labels := SplitLabelsReversed(name);
      RootAtEmptyPath();
      var memo := new MemoTable();
      NothingRecorded(labels);
      r := MatchNode(root, labels, 0, memo);
      SearchIsBlocked(labels);
      MemoIsBounded(memo.table, labels);
      evaluations := memo.evaluations;
    }

    lemma ExactRulesBlock(domain: string)
      ensures forall name, host |
                rules == RulesOf([JoinDots(name)]) && RuleLabels(name) && NoStars(name) && Written(domain, host) ::
                StripDot(domain) != [] && Blocked(rules, DomainLabels(domain)) <==> LowerAll(host) == LowerAll(name)
    {
      hide StripDot, Blocked, DomainLabels, RuleLabels, NoStars, Written, LowerAll, RulesOf, JoinDots;
      forall name, host |
        rules == RulesOf([JoinDots(name)]) && RuleLabels(name) && NoStars(name) && Written(domain, host)
        ensures StripDot(domain) != [] && Blocked(rules, DomainLabels(domain)) <==> LowerAll(host) == LowerAll(name)
      {
        ExactRule(name, domain, host);
      }
    }
  }
}
