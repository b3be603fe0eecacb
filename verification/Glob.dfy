// Matching one label against a glob: the greedy check the program makes, what
// it accepts, and how far that is from ordinary '*' matching.

module Glob {
  import opened Types

  const STAR: char := '*'

  // ---------- case ----------

  // ASCII letters are folded.
  function LowerChar(c: char): char {
    if 'A' <= c <= 'Z' then (c as int + 32) as char else c
  }

  function Lower(s: string): (r: string)
    ensures |r| == |s|
    ensures forall i | 0 <= i < |s| :: r[i] == LowerChar(s[i])
  {
    seq(|s|, i requires 0 <= i < |s| => LowerChar(s[i]))
  }

  lemma LowerKeeps(s: string, c: char)
    requires c == LowerChar(c) && !('a' <= c <= 'z')
    ensures c in Lower(s) <==> c in s
  {
    if c in s {
      var i :| 0 <= i < |s| && s[i] == c;
      assert Lower(s)[i] == c;
    }
    if c in Lower(s) {
      var i :| 0 <= i < |s| && Lower(s)[i] == c;
      assert s[i] == c;
    }
  }

  // ---------- the check ----------

  function SplitStar(p: string, cur: string): (parts: seq<string>)
    ensures parts != []
    ensures STAR in p ==> |parts| >= 2
    decreases |p|
  {
    if p == [] then [cur]
    else if p[0] == STAR then [cur] + SplitStar(p[1..], [])
    else SplitStar(p[1..], cur + [p[0]])
  }

  predicate OccursAt(t: string, w: string, k: nat) {
    k + |w| <= |t| && t[k..k + |w|] == w
  }

  lemma NothingOccurs(t: string, k: nat)
    requires k <= |t|
    ensures OccursAt(t, [], k)
  {
  }

  lemma OccursWithin(t: string, w: string, k: nat)
    requires OccursAt(t, w, k)
    ensures k + |w| <= |t|
  {
  }

  predicate EndsWith(t: string, w: string) {
    |w| <= |t| && t[|t| - |w|..] == w
  }

  // The first occurrence at or after a position.
  function Find(t: string, w: string, from: nat): (k: Option<nat>)
    ensures k.Some? ==> from <= k.value && OccursAt(t, w, k.value)
    decreases |t| - from
  {
    if from + |w| > |t| then None
    else if OccursAt(t, w, from) then Some(from)
    else if from == |t| then None
    else Find(t, w, from + 1)
  }

  lemma {:induction false} FindIsFirst(t: string, w: string, from: nat, k: nat)
    requires from <= k && OccursAt(t, w, k)
    ensures Find(t, w, from).Some? && Find(t, w, from).value <= k
    decreases k - from
  {
    if !OccursAt(t, w, from) {
      FindIsFirst(t, w, from + 1, k);
    }
  }

  // The loop over the parts, from part `i` on with the search position `pos`.
  function CheckFrom(parts: seq<string>, i: nat, t: string, pos: nat): bool
    requires i <= |parts|
    decreases |parts| - i
  {
    if i == |parts| then true
    else if parts[i] == [] then CheckFrom(parts, i + 1, t, pos)
    else if i == 0 then parts[0] <= t && CheckFrom(parts, 1, t, |parts[0]|)
    else if i == |parts| - 1 then EndsWith(t, parts[i]) && CheckFrom(parts, i + 1, t, pos)
    else
      var found := Find(t, parts[i], pos);
      found.Some? && CheckFrom(parts, i + 1, t, found.value + |parts[i]|)
  }

  // Case does not matter to a label.
  predicate LabelMatches(pattern: string, target: string) {
    if STAR !in pattern then Lower(pattern) == Lower(target)
    else CheckFrom(SplitStar(Lower(pattern), []), 0, Lower(target), 0)
  }

  method LabelMatchesGlob(pattern: string, target: string) returns (r: bool)
    ensures r == LabelMatches(pattern, target)
  {
    hide Lower;
    if STAR !in pattern {
      return Lower(pattern) == Lower(target);
    }
    var patternLower, targetLower := Lower(pattern), Lower(target);
    var parts := SplitStar(patternLower, []);
    var pos: nat := 0;
    for i := 0 to |parts|
      invariant CheckFrom(parts, 0, targetLower, 0) == CheckFrom(parts, i, targetLower, pos)
    {
      var part := parts[i];
      if |part| == 0 {
        continue;
      }
      if i == 0 {
        if !(part <= targetLower) {
          return false;
        }
        pos := |part|;
      } else if i == |parts| - 1 {
        if !EndsWith(targetLower, part) {
          return false;
        }
      } else {
        var found := Find(targetLower, part, pos);
        if found.None? {
          return false;
        }
        pos := found.value + |part|;
      }
    }
    return true;
  }

  // ---------- what the check accepts ----------

  // The middle parts occur in order, without overlap, from a position on.
  predicate Placed(ms: seq<string>, t: string, pos: nat, at: seq<nat>) {
    |at| == |ms| &&
    (ms == [] || (pos <= at[0] && OccursAt(t, ms[0], at[0]) && Placed(ms[1..], t, at[0] + |ms[0]|, at[1..])))
  }

  // Where placing each part as early as possible ends.
  function GreedyEnd(ms: seq<string>, t: string, pos: nat): (e: Option<nat>)
    ensures e.Some? ==> pos <= e.value
    decreases |ms|
  {
    if ms == [] then Some(pos)
    else
      var found := Find(t, ms[0], pos);
      if found.None? then None else GreedyEnd(ms[1..], t, found.value + |ms[0]|)
  }

  function PlacedEnd(ms: seq<string>, pos: nat, at: seq<nat>): nat
    requires |at| == |ms|
  {
    if ms == [] then pos else at[|at| - 1] + |ms[|ms| - 1]|
  }

  // Early placement exists whenever some placement does, and ends no later.
  lemma {:induction false} GreedyIsEarliest(ms: seq<string>, t: string, early: nat, pos: nat, at: seq<nat>)
    requires Placed(ms, t, pos, at) && early <= pos
    ensures GreedyEnd(ms, t, early).Some? && GreedyEnd(ms, t, early).value <= PlacedEnd(ms, pos, at)
    decreases |ms|
  {
    if ms != [] {
      FindIsFirst(t, ms[0], early, at[0]);
      GreedyIsEarliest(ms[1..], t, Find(t, ms[0], early).value + |ms[0]|, at[0] + |ms[0]|, at[1..]);
    }
  }

  lemma {:induction false} GreedyPlaces(ms: seq<string>, t: string, pos: nat) returns (at: seq<nat>)
    requires GreedyEnd(ms, t, pos).Some?
    ensures Placed(ms, t, pos, at)
    decreases |ms|
  {
    if ms == [] {
      at := [];
    } else {
      var k := Find(t, ms[0], pos).value;
      var rest := GreedyPlaces(ms[1..], t, k + |ms[0]|);
      at := [k] + rest;
      assert at[1..] == rest;
    }
  }

  ghost predicate Placeable(ms: seq<string>, t: string, pos: nat) {
    exists at: seq<nat> :: Placed(ms, t, pos, at)
  }

  lemma PlaceableIff(ms: seq<string>, t: string, pos: nat)
    ensures Placeable(ms, t, pos) <==> GreedyEnd(ms, t, pos).Some?
  {
    if GreedyEnd(ms, t, pos).Some? {
      var at := GreedyPlaces(ms, t, pos);
    }
    if Placeable(ms, t, pos) {
      var at: seq<nat> :| Placed(ms, t, pos, at);
      GreedyIsEarliest(ms, t, pos, pos, at);
    }
  }

  function Middle(parts: seq<string>): seq<string>
    requires |parts| >= 2
  {
    parts[1..|parts| - 1]
  }

  lemma {:induction false} CheckMiddle(parts: seq<string>, i: nat, t: string, pos: nat)
    requires 1 <= i <= |parts| - 1 && pos <= |t|
    ensures CheckFrom(parts, i, t, pos) <==>
            GreedyEnd(parts[i..|parts| - 1], t, pos).Some? && EndsWith(t, parts[|parts| - 1])
    decreases |parts| - i
  {
    hide OccursAt;
    var last := |parts| - 1;
    if i == last {
      assert parts[i..last] == [];
      assert CheckFrom(parts, i + 1, t, pos);
      assert parts[last] == [] ==> EndsWith(t, parts[last]);
    } else {
      assert parts[i..last][0] == parts[i] && parts[i..last][1..] == parts[i + 1..last];
      if parts[i] == [] {
        NothingOccurs(t, pos);
        CheckMiddle(parts, i + 1, t, pos);
      } else if Find(t, parts[i], pos).Some? {
        OccursWithin(t, parts[i], Find(t, parts[i], pos).value);
        CheckMiddle(parts, i + 1, t, Find(t, parts[i], pos).value + |parts[i]|);
      }
    }
  }

  lemma CheckAll(parts: seq<string>, t: string)
    requires |parts| >= 2
    ensures CheckFrom(parts, 0, t, 0) <==>
            parts[0] <= t && GreedyEnd(Middle(parts), t, |parts[0]|).Some? && EndsWith(t, parts[|parts| - 1])
  {
    if parts[0] <= t {
      CheckMiddle(parts, 1, t, |parts[0]|);
    }
    assert parts[0] == [] ==> parts[0] <= t;
  }

  // The check accepts exactly the labels that start with the first part, end
  // with the last, and hold the middle parts in order after the first, case
  // aside; the last part may overlap the others.
  lemma GlobAcceptsIff(pattern: string, target: string)
    requires STAR in pattern
    ensures var parts, t := SplitStar(Lower(pattern), []), Lower(target);
            |parts| >= 2 &&
            (LabelMatches(pattern, target) <==>
               && parts[0] <= t
               && EndsWith(t, parts[|parts| - 1])
               && Placeable(Middle(parts), t, |parts[0]|))
  {
    LowerKeeps(pattern, STAR);
    var parts, t := SplitStar(Lower(pattern), []), Lower(target);
    CheckAll(parts, t);
    PlaceableIff(Middle(parts), t, |parts[0]|);
  }

  // ---------- the forms rules are written in ----------

  lemma {:induction false} SplitStarWord(w: string, rest: string, cur: string)
    requires STAR !in w
    ensures SplitStar(w + rest, cur) == SplitStar(rest, cur + w)
    decreases |w|
  {
    if w == [] {
      assert w + rest == rest && cur + w == cur;
    } else {
      assert (w + rest)[0] == w[0] && (w + rest)[1..] == w[1..] + rest;
      SplitStarWord(w[1..], rest, cur + [w[0]]);
      assert cur + [w[0]] + w[1..] == cur + w;
    }
  }

  lemma WordThenStar(w: string, rest: string)
    requires STAR !in w
    ensures SplitStar(w + ("*" + rest), []) == [w] + SplitStar(rest, [])
  {
    SplitStarWord(w, "*" + rest, []);
    assert [] + w == w && ("*" + rest)[1..] == rest;
  }

  lemma WordAlone(w: string)
    requires STAR !in w
    ensures SplitStar(w, []) == [w]
  {
    SplitStarWord(w, [], []);
    assert w + [] == w && [] + w == w;
  }

  lemma LowerParts(a: string, b: string, c: string)
    ensures Lower(a + b + c) == Lower(a) + Lower(b) + Lower(c)
    ensures Lower("*") == "*"
  {
  }

  // One star: the label starts with what is before it and ends with what is
  // behind it, case aside. Either may be empty, and the two may overlap.
  lemma OneStarGlob(v: string, w: string, t: string)
    requires '*' !in v && '*' !in w
    ensures LabelMatches(v + "*" + w, t) <==> Lower(v) <= Lower(t) && EndsWith(Lower(t), Lower(w))
  {
    hide Lower, LabelMatches, EndsWith;
    var p := v + "*" + w;
    assert p[|v|] == '*';
    LowerKeeps(v, '*');
    LowerKeeps(w, '*');
    LowerParts(v, "*", w);
    assert Lower(v) + "*" + Lower(w) == Lower(v) + ("*" + Lower(w));
    WordThenStar(Lower(v), Lower(w));
    WordAlone(Lower(w));
    var parts := [Lower(v)] + [Lower(w)];
    assert SplitStar(Lower(p), []) == parts;
    GlobAcceptsIff(p, t);
    assert Middle(parts) == [] && parts[0] == Lower(v) && parts[1] == Lower(w);
    NothingToPlace(Lower(t), |Lower(v)|);
  }

  lemma NothingToPlace(t: string, pos: nat)
    ensures Placeable([], t, pos)
  {
    assert Placed([], t, pos, []);
  }

  // Stars on both sides: the label holds what is between them.
  lemma InsideGlob(w: string, t: string)
    requires '*' !in w
    ensures LabelMatches("*" + w + "*", t) <==> exists k: nat :: OccursAt(Lower(t), Lower(w), k)
  {
    hide Lower, LabelMatches, OccursAt;
    var p := "*" + w + "*";
    assert p[0] == '*';
    LowerKeeps(w, '*');
    LowerParts("*", w, "*");
    var lw, lt := Lower(w), Lower(t);
    assert "*" + lw + "*" == [] + ("*" + (lw + ("*" + [])));
    WordThenStar([], lw + ("*" + []));
    WordThenStar(lw, []);
    WordAlone([]);
    var parts := [[]] + ([lw] + [[]]);
    assert SplitStar(Lower(p), []) == parts;
    GlobAcceptsIff(p, t);
    assert Middle(parts) == [lw] && parts[0] == [] && parts[2] == [];
    OneToPlace(lw, lt);
    assert EndsWith(lt, []);
  }

  lemma OneToPlace(w: string, t: string)
    ensures Placeable([w], t, 0) <==> exists k: nat :: OccursAt(t, w, k)
  {
    hide OccursAt;
    if at: seq<nat> :| Placed([w], t, 0, at) {
      assert OccursAt(t, w, at[0]);
    }
    if k: nat :| OccursAt(t, w, k) {
      assert Placed([w], t, 0, [k]);
    }
  }

  // The 26 letters fold, nothing else does.
  lemma LettersFold(c: char)
    ensures Lower("ABCDEFGHIJKLMNOPQRSTUVWXYZ") == "abcdefghijklmnopqrstuvwxyz"
    ensures LowerChar(c) == c <==> c !in "ABCDEFGHIJKLMNOPQRSTUVWXYZ"
  {
    var upper := "ABCDEFGHIJKLMNOPQRSTUVWXYZ";
    forall i | 0 <= i < 26 ensures upper[i] as int == 65 + i {
    }
    if 'A' <= c <= 'Z' {
      assert upper[c as int - 65] == c;
    }
  }

  // ---------- ordinary '*' matching ----------

  predicate Star(p: string, t: string)
    decreases |p| + |t|
  {
    if p == [] then t == []
    else if p[0] == STAR then Star(p[1..], t) || (t != [] && Star(p, t[1..]))
    else t != [] && p[0] == t[0] && Star(p[1..], t[1..])
  }

  // The parts float: each occurs somewhere after the one before, the last one at the end.
  predicate Floats(ms: seq<string>, last: string, t: string, pos: nat)
    decreases |ms|, 1
  {
    if ms == [] then pos + |last| <= |t| && EndsWith(t, last)
    else exists k | pos <= k <= |t| :: FloatsFrom(ms, last, t, k)
  }

  predicate FloatsFrom(ms: seq<string>, last: string, t: string, k: nat)
    requires ms != []
    decreases |ms|, 0
  {
    OccursAt(t, ms[0], k) && Floats(ms[1..], last, t, k + |ms[0]|)
  }

  lemma {:induction false} StarLiteral(w: string, p: string, t: string)
    requires STAR !in w
    ensures Star(w + p, t) <==> w <= t && Star(p, t[|w|..])
    decreases |w|
  {
    if w == [] {
      assert w + p == p && t[0..] == t;
    } else {
      assert (w + p)[1..] == w[1..] + p;
      if t != [] && w[0] == t[0] {
        assert w[0] != STAR && STAR !in w[1..];
        StarLiteral(w[1..], p, t[1..]);
        assert w <= t <==> w[1..] <= t[1..];
        if w <= t {
          assert t[1..][|w| - 1..] == t[|w|..];
        }
      } else {
        assert w[0] != STAR;
      }
    }
  }

  predicate StarsAt(p: string, t: string, k: nat) {
    k <= |t| && Star(p, t[k..])
  }

  lemma {:induction false} StarSkips(p: string, t: string, pos: nat)
    requires pos <= |t|
    ensures Star([STAR] + p, t[pos..]) <==> exists k | pos <= k <= |t| :: StarsAt(p, t, k)
    decreases |t| - pos
  {
    assert ([STAR] + p)[1..] == p;
    if pos < |t| {
      assert t[pos..][1..] == t[pos + 1..];
      StarSkips(p, t, pos + 1);
      if k :| pos <= k <= |t| && StarsAt(p, t, k) {
        assert k == pos || pos + 1 <= k;
      }
      if Star(p, t[pos..]) {
        assert StarsAt(p, t, pos);
      }
    } else {
      assert StarsAt(p, t, pos) == Star(p, t[pos..]);
    }
  }

  function JoinStar(parts: seq<string>): string
    requires parts != []
  {
    if |parts| == 1 then parts[0] else parts[0] + ([STAR] + JoinStar(parts[1..]))
  }

  lemma {:induction false} SplitJoins(p: string, cur: string)
    requires STAR !in cur
    ensures JoinStar(SplitStar(p, cur)) == cur + p
    ensures forall i | 0 <= i < |SplitStar(p, cur)| :: STAR !in SplitStar(p, cur)[i]
    decreases |p|
  {
    if p == [] {
      assert cur + p == cur;
    } else if p[0] == STAR {
      SplitJoins(p[1..], []);
      assert [] + p[1..] == p[1..] && [STAR] + p[1..] == p;
      assert SplitStar(p, cur)[1..] == SplitStar(p[1..], []);
    } else {
      SplitJoins(p[1..], cur + [p[0]]);
      assert cur + [p[0]] + p[1..] == cur + p;
    }
  }

  lemma WholeWord(w: string, t: string)
    requires STAR !in w
    ensures Star(w, t) <==> t == w
  {
    StarLiteral(w, [], t);
    assert w + [] == w;
    if w <= t {
      assert t == w + t[|w|..];
    }
  }

  lemma LastFloats(w: string, t: string, pos: nat)
    requires STAR !in w && pos <= |t|
    ensures (exists k | pos <= k <= |t| :: StarsAt(w, t, k)) <==> Floats([], w, t, pos)
  {
    if k :| pos <= k <= |t| && StarsAt(w, t, k) {
      WholeWord(w, t[k..]);
      assert k == |t| - |w|;
    }
    if Floats([], w, t, pos) {
      WholeWord(w, t[|t| - |w|..]);
      assert StarsAt(w, t, |t| - |w|);
    }
  }

  // A star followed by joined parts matches a suffix exactly when the parts float in it.
  lemma {:induction false} StarIsFloat(parts: seq<string>, t: string, pos: nat)
    requires parts != [] && pos <= |t| && forall i | 0 <= i < |parts| :: STAR !in parts[i]
    ensures Star([STAR] + JoinStar(parts), t[pos..]) <==>
            Floats(parts[..|parts| - 1], parts[|parts| - 1], t, pos)
    decreases |parts|
  {
    StarSkips(JoinStar(parts), t, pos);
    var ms, last := parts[..|parts| - 1], parts[|parts| - 1];
    if |parts| == 1 {
      LastFloats(parts[0], t, pos);
    } else {
      assert ms[0] == parts[0] && ms[1..] == parts[1..][..|parts| - 2];
      forall k: nat | pos <= k <= |t|
        ensures StarsAt(JoinStar(parts), t, k) <==> FloatsFrom(ms, last, t, k)
      {
        StarLiteral(parts[0], [STAR] + JoinStar(parts[1..]), t[k..]);
        if OccursAt(t, parts[0], k) {
          assert t[k..][|parts[0]|..] == t[k + |parts[0]|..];
          StarIsFloat(parts[1..], t, k + |parts[0]|);
        }
        assert parts[0] <= t[k..] <==> OccursAt(t, parts[0], k);
      }
    }
  }

  lemma {:induction false} FloatsEarlier(ms: seq<string>, last: string, t: string, early: nat, pos: nat)
    requires Floats(ms, last, t, pos) && early <= pos
    ensures Floats(ms, last, t, early)
  {
    if ms != [] {
      var k :| pos <= k <= |t| && FloatsFrom(ms, last, t, k);
      assert early <= k;
    }
  }

  // Floating is decided by the earliest placement: the last part must fit after it.
  lemma {:induction false} FloatIsGreedy(ms: seq<string>, last: string, t: string, pos: nat)
    requires pos <= |t|
    ensures Floats(ms, last, t, pos) <==>
            GreedyEnd(ms, t, pos).Some? && GreedyEnd(ms, t, pos).value + |last| <= |t| && EndsWith(t, last)
    decreases |ms|
  {
    hide OccursAt, EndsWith;
    if ms != [] {
      var found := Find(t, ms[0], pos);
      if found.Some? {
        var j := found.value;
        OccursWithin(t, ms[0], j);
        FloatIsGreedy(ms[1..], last, t, j + |ms[0]|);
        if k :| pos <= k <= |t| && FloatsFrom(ms, last, t, k) {
          FindIsFirst(t, ms[0], pos, k);
          FloatsEarlier(ms[1..], last, t, j + |ms[0]|, k + |ms[0]|);
        }
        if Floats(ms[1..], last, t, j + |ms[0]|) {
          assert FloatsFrom(ms, last, t, j);
        }
      } else if k :| pos <= k <= |t| && FloatsFrom(ms, last, t, k) {
        FindIsFirst(t, ms[0], pos, k);
      }
    }
  }

  // Ordinary matching, case aside, is the check plus room for the last part
  // after the earliest placement of the others.
  lemma StarIffCheckedWithRoom(pattern: string, target: string)
    requires STAR in pattern
    ensures var parts, t := SplitStar(Lower(pattern), []), Lower(target);
            |parts| >= 2 &&
            (Star(Lower(pattern), t) <==>
               && LabelMatches(pattern, target)
               && GreedyEnd(Middle(parts), t, |parts[0]|).Some?
               && GreedyEnd(Middle(parts), t, |parts[0]|).value + |parts[|parts| - 1]| <= |t|)
  {
    hide Star;
    LowerKeeps(pattern, STAR);
    StarIsGreedy(Lower(pattern), Lower(target));
    CheckAll(SplitStar(Lower(pattern), []), Lower(target));
  }

  lemma StarIsGreedy(p: string, t: string)
    requires STAR in p
    ensures var parts := SplitStar(p, []);
            Star(p, t) <==>
            && parts[0] <= t
            && GreedyEnd(Middle(parts), t, |parts[0]|).Some?
            && GreedyEnd(Middle(parts), t, |parts[0]|).value + |parts[|parts| - 1]| <= |t|
            && EndsWith(t, parts[|parts| - 1])
  {
    var parts := SplitStar(p, []);
    SplitJoins(p, []);
    assert [] + p == p;
    var rest := parts[1..];
    StarLiteral(parts[0], [STAR] + JoinStar(rest), t);
    if parts[0] <= t {
      StarIsFloat(rest, t, |parts[0]|);
      assert rest[..|rest| - 1] == Middle(parts) && rest[|rest| - 1] == parts[|parts| - 1];
      FloatIsGreedy(Middle(parts), parts[|parts| - 1], t, |parts[0]|);
    }
  }

  // So nothing that ordinary matching accepts is refused, but "ab*b" also takes "ab".
  lemma OverlapAccepted()
    ensures LabelMatches("ab*b", "ab") && !Star("ab*b", "ab")
  {
    hide Lower, Star, Find;
    var p := "ab*b";
    OverlapParts();
    CheckAll(["ab", "b"], "ab");
    assert EndsWith("ab", "b");
    StarIffCheckedWithRoom(p, "ab");
  }

  lemma OverlapParts()
    ensures Lower("ab*b") == "ab*b" && Lower("ab") == "ab"
    ensures SplitStar("ab*b", []) == ["ab", "b"]
  {
    var p := "ab*b";
    assert p[1..] == "b*b" && p[1..][1..] == "*b" && p[1..][1..][1..] == "b" && p[1..][1..][1..][1..] == "";
    assert [] + ['a'] == "a" && "a" + ['b'] == "ab" && [] + ['b'] == "b";
    assert SplitStar("", "b") == ["b"];
    assert SplitStar("b", []) == SplitStar("", "b");
    assert SplitStar("*b", "ab") == ["ab"] + SplitStar("b", []);
    assert SplitStar("b*b", "a") == SplitStar("*b", "ab");
    assert SplitStar(p, []) == SplitStar("b*b", "a");
  }
}
