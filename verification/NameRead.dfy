// Reading names with compression pointers, and what such bytes mean
// (section 4.1.4 of RFC 1035).

module NameRead {
  import opened Types
  import opened Wire
  import opened Names

  const MAX_JUMPS: nat := 63

  // ---------- the meaning of the bytes ----------

  // A derivation is a walk over the message that ends at a root byte.
  datatype Derivation =
    | Root(pos: nat)
    | Labelled(pos: nat, rest: Derivation)
    | Pointed(pos: nat, rest: Derivation)

  function PointerTarget(hi: byte, lo: byte): nat
    requires hi >= 0xC0
  {
    (hi - 0xC0) as int * 0x100 + lo as int
  }

  predicate IsLabelAt(msg: bytes, pos: nat) {
    pos < |msg| && 1 <= msg[pos] <= 0x3F && pos + 1 + msg[pos] <= |msg|
  }

  predicate IsPointerAt(msg: bytes, pos: nat) {
    pos + 1 < |msg| && msg[pos] >= 0xC0
  }

  // The code's two-byte target is the 16-bit number less its two leading one bits.
  lemma TargetByNumber(hi: byte, lo: byte)
    requires hi >= 0xC0
    ensures PointerTarget(hi, lo) == U16Of(hi, lo) as int - 0xC000 == hi as int * 256 + lo as int - 0xC000
  {
  }

  predicate Derives(msg: bytes, d: Derivation) {
    match d
    case Root(pos) => pos < |msg| && msg[pos] == 0
    case Labelled(pos, rest) => IsLabelAt(msg, pos) && rest.pos == pos + 1 + msg[pos] && Derives(msg, rest)
    case Pointed(pos, rest) =>
      // The 16-bit number at the position, less its two leading one bits.
      && IsPointerAt(msg, pos) && rest.pos == msg[pos] as int * 256 + msg[pos + 1] as int - 0xC000
      && Derives(msg, rest)
  }

  function Meaning(msg: bytes, d: Derivation): (ls: seq<Label>)
    requires Derives(msg, d)
  {
    match d
    case Root(_) => []
    case Labelled(pos, rest) => [msg[pos + 1..pos + 1 + msg[pos]]] + Meaning(msg, rest)
    case Pointed(_, rest) => Meaning(msg, rest)
  }

  function Jumps(d: Derivation): nat {
    match d
    case Root(_) => 0
    case Labelled(_, rest) => Jumps(rest)
    case Pointed(_, rest) => 1 + Jumps(rest)
  }

  // Where reading continues: right after the first pointer or root byte.
  function EndOf(d: Derivation): nat {
    match d
    case Root(pos) => pos + 1
    case Labelled(_, rest) => EndOf(rest)
    case Pointed(pos, _) => pos + 2
  }

  // ---------- the reader, as a function of the message ----------

  // What one turn of the reading loop finds, when `used` label bytes in `count`
  // labels have been read at this level.
  datatype Turn =
    | Fail(error: ProtocolError)
    | Done(next: nat)
    | Jump(target: nat, next: nat)
    | Take(l: Label, next: nat)

  function TurnAt(msg: bytes, pos: nat, used: nat, count: nat): (t: Turn)
    ensures t.Take? ==> pos < t.next <= |msg| && 1 <= |t.l| <= MAX_LABEL_LENGTH && used + |t.l| <= MAX_NAME_BYTES
    ensures t.Jump? ==> pos + 2 == t.next <= |msg| && t.target < |msg|
    ensures t.Done? ==> pos < t.next <= |msg|
  {
    if pos >= |msg| then Fail(BufferUnderflow(1, 0))
    else if msg[pos] >= 0xC0 then
      if pos + 1 >= |msg| then Fail(BufferUnderflow(1, 0))
      else
        var target := PointerTarget(msg[pos], msg[pos + 1]);
        if target >= |msg| then Fail(PointerOutOfBounds(target, |msg|)) else Jump(target, pos + 2)
    else if msg[pos] == 0 then Done(pos + 1)
    else if msg[pos] <= 0x3F then
      var len := msg[pos] as int;
      if pos + 1 + len > |msg| then Fail(BufferUnderflow(len, |msg| - pos - 1))
      else if used + len > MAX_NAME_BYTES then Fail(TooManyLabels(count))
      else Take(msg[pos + 1..pos + 1 + len], pos + 1 + len)
    else Fail(InvalidPointerMarker(pos, msg[pos]))
  }

  function LabelsFrom(msg: bytes, pos: nat, depth: nat, acc: seq<Label>): (r: Result<(seq<Label>, nat)>)
    requires depth <= MAX_JUMPS
    decreases MAX_JUMPS - depth, if pos <= |msg| then |msg| - pos else 0
  {
    match TurnAt(msg, pos, |Flatten(acc)|, |acc|)
    case Fail(error) => Err(error)
    case Done(next) => Ok((acc, next))
    case Jump(target, next) =>
      if depth == MAX_JUMPS then Err(PointerLoop(target, depth + 1))
      else
        var (suffix, _) :- LabelsFrom(msg, target, depth + 1, []);
        var ls :- PushAll(acc, suffix);
        Ok((ls, next))
    case Take(l, next) => LabelsFrom(msg, next, depth, acc + [l])
  }

  function NameAt(msg: bytes, pos: nat, depth: nat): (r: Result<(seq<Label>, nat)>) {
    if depth > MAX_JUMPS then Err(PointerLoop(pos, depth)) else LabelsFrom(msg, pos, depth, [])
  }

  // How many turns of the reading loop that takes, over all levels.
  function TurnsFrom(msg: bytes, pos: nat, depth: nat, acc: seq<Label>): (turns: nat)
    requires depth <= MAX_JUMPS
    decreases MAX_JUMPS - depth, if pos <= |msg| then |msg| - pos else 0
  {
    match TurnAt(msg, pos, |Flatten(acc)|, |acc|)
    case Fail(_) => 1
    case Done(_) => 1
    case Jump(target, _) => 1 + if depth == MAX_JUMPS then 0 else TurnsFrom(msg, target, depth + 1, [])
    case Take(l, next) => 1 + TurnsFrom(msg, next, depth, acc + [l])
  }

  function TurnsAt(msg: bytes, pos: nat, depth: nat): (turns: nat) {
    if depth > MAX_JUMPS then 0 else TurnsFrom(msg, pos, depth, [])
  }

  // On any message of any length: at most 256 turns for this level, one for
  // each label byte and one more, and for each of the levels below.
  lemma {:induction false} TurnsBounded(msg: bytes, pos: nat, depth: nat, acc: seq<Label>)
    requires depth <= MAX_JUMPS && |Flatten(acc)| <= MAX_NAME_BYTES
    ensures TurnsFrom(msg, pos, depth, acc) <= 256 - |Flatten(acc)| + 256 * (MAX_JUMPS - depth)
    decreases MAX_JUMPS - depth, if pos <= |msg| then |msg| - pos else 0
  {
    var turn := TurnAt(msg, pos, |Flatten(acc)|, |acc|);
    match turn
    case Take(l, next) =>
      FlattenSnoc(acc, l);
      TurnsBounded(msg, next, depth, acc + [l]);
    case Jump(target, _) =>
      if depth < MAX_JUMPS {
        TurnsBounded(msg, target, depth + 1, []);
      }
    case _ =>
  }

  // Labels read so far, joined with those a pointer leads to.
  function Merged(msg: bytes, target: nat, depth: nat, acc: seq<Label>): (r: Result<seq<Label>>)
    requires depth <= MAX_JUMPS
  {
    var (suffix, _) :- NameAt(msg, target, depth + 1);
    PushAll(acc, suffix)
  }

  // Whatever is accepted is a well-formed name, and the cursor moved forward.
  lemma {:induction false} ReadWellFormed(msg: bytes, pos: nat, depth: nat, acc: seq<Label>)
    requires depth <= MAX_JUMPS && WfLabels(acc) && LabelsFrom(msg, pos, depth, acc).Ok?
    ensures WfLabels(LabelsFrom(msg, pos, depth, acc).value.0)
    ensures pos < LabelsFrom(msg, pos, depth, acc).value.1 <= |msg|
    decreases MAX_JUMPS + 1 - depth, if pos <= |msg| then |msg| - pos else 0
  {
    if msg[pos] >= 0xC0 {
      var target := PointerTarget(msg[pos], msg[pos + 1]);
      ReadWellFormed(msg, target, depth + 1, []);
      var suffix := LabelsFrom(msg, target, depth + 1, []).value.0;
      PushAllResult(acc, suffix);
      FlattenConcat(acc, suffix);
    } else if msg[pos] != 0 {
      var l := msg[pos + 1..pos + 1 + msg[pos]];
      FlattenSnoc(acc, l);
      ReadWellFormed(msg, pos + 1 + msg[pos], depth, acc + [l]);
    }
  }

  lemma NameAtWellFormed(msg: bytes, pos: nat, depth: nat)
    requires NameAt(msg, pos, depth).Ok?
    ensures WfLabels(NameAt(msg, pos, depth).value.0)
    ensures var ls := NameAt(msg, pos, depth).value.0;
            |Flatten(ls)| <= 255 && forall i | 0 <= i < |ls| :: 1 <= |ls[i]| <= 63
    ensures pos < NameAt(msg, pos, depth).value.1 <= |msg|
  {
    ReadWellFormed(msg, pos, depth, []);
  }

  // What the first byte alone refuses, and with which numbers.
  lemma FirstByteErrors(msg: bytes, pos: nat)
    ensures pos >= |msg| ==> NameAt(msg, pos, 0) == Err(BufferUnderflow(1, 0))
    ensures pos < |msg| && 0x40 <= msg[pos] <= 0xBF ==> NameAt(msg, pos, 0) == Err(InvalidPointerMarker(pos, msg[pos]))
    ensures pos < |msg| && 1 <= msg[pos] <= 0x3F && pos + 1 + msg[pos] as int > |msg| ==>
              NameAt(msg, pos, 0) == Err(BufferUnderflow(msg[pos] as int, |msg| - pos - 1))
    ensures pos + 1 < |msg| && msg[pos] >= 0xC0 ==>
              var target := msg[pos] as int * 256 + msg[pos + 1] as int - 0xC000;
              target >= |msg| ==> NameAt(msg, pos, 0) == Err(PointerOutOfBounds(target, |msg|))
  {
  }

  // ---------- soundness ----------

  lemma PointerUnfolds(msg: bytes, pos: nat, depth: nat, acc: seq<Label>)
    requires depth <= MAX_JUMPS && LabelsFrom(msg, pos, depth, acc).Ok? && msg[pos] >= 0xC0
    requires |Flatten(acc)| <= MAX_NAME_BYTES
    ensures IsPointerAt(msg, pos) && depth < MAX_JUMPS
    ensures var below := LabelsFrom(msg, PointerTarget(msg[pos], msg[pos + 1]), depth + 1, []);
            below.Ok? && LabelsFrom(msg, pos, depth, acc).value == (acc + below.value.0, pos + 2)
  {
    var below := LabelsFrom(msg, PointerTarget(msg[pos], msg[pos + 1]), depth + 1, []);
    PushAllResult(acc, below.value.0);
  }

  lemma ReadUnfolds(msg: bytes, pos: nat, depth: nat, acc: seq<Label>)
    requires depth <= MAX_JUMPS && LabelsFrom(msg, pos, depth, acc).Ok?
    ensures pos < |msg| && (msg[pos] >= 0xC0 || msg[pos] <= 0x3F) && Flatten([]) == []
    ensures msg[pos] == 0 ==> LabelsFrom(msg, pos, depth, acc).value == (acc, pos + 1)
    ensures 1 <= msg[pos] <= 0x3F ==> IsLabelAt(msg, pos) && |Flatten(acc)| + msg[pos] as int <= MAX_NAME_BYTES
  {
    hide PushAll;
  }

  lemma LabelFits(msg: bytes, pos: nat)
    requires IsLabelAt(msg, pos)
    ensures pos < |msg| && 1 <= msg[pos] <= 0x3F && pos + 1 + msg[pos] <= |msg|
  {
  }

  lemma LabelStep(msg: bytes, pos: nat, depth: nat, acc: seq<Label>)
    requires depth <= MAX_JUMPS && IsLabelAt(msg, pos)
    requires |Flatten(acc)| + msg[pos] as int <= MAX_NAME_BYTES
    ensures var l := msg[pos + 1..pos + 1 + msg[pos]];
            |Flatten(acc + [l])| == |Flatten(acc)| + |l|
            && LabelsFrom(msg, pos, depth, acc) == LabelsFrom(msg, pos + 1 + msg[pos], depth, acc + [l])
  {
    FlattenSnoc(acc, msg[pos + 1..pos + 1 + msg[pos]]);
  }

  lemma {:induction false} ReadIsDerived(msg: bytes, pos: nat, depth: nat, acc: seq<Label>) returns (d: Derivation)
    requires depth <= MAX_JUMPS && |Flatten(acc)| <= MAX_NAME_BYTES
    requires LabelsFrom(msg, pos, depth, acc).Ok?
    ensures d.pos == pos && Derives(msg, d) && Jumps(d) + depth <= MAX_JUMPS
    ensures LabelsFrom(msg, pos, depth, acc).value == (acc + Meaning(msg, d), EndOf(d))
    decreases MAX_JUMPS + 1 - depth, if pos <= |msg| then |msg| - pos else 0
  {
    hide LabelsFrom, TurnAt, Flatten, PushAll, IsLabelAt;
    ReadUnfolds(msg, pos, depth, acc);
    if msg[pos] >= 0xC0 {
      PointerUnfolds(msg, pos, depth, acc);
      var rest := ReadIsDerived(msg, PointerTarget(msg[pos], msg[pos + 1]), depth + 1, []);
      d := Pointed(pos, rest);
      assert [] + Meaning(msg, rest) == Meaning(msg, rest);
    } else if msg[pos] == 0 {
      d := Root(pos);
      assert acc + [] == acc;
    } else {
      LabelStep(msg, pos, depth, acc);
      LabelFits(msg, pos);
      var l := msg[pos + 1..pos + 1 + msg[pos]];
      var rest := ReadIsDerived(msg, pos + 1 + msg[pos], depth, acc + [l]);
      d := Labelled(pos, rest);
      Assoc(acc, [l], Meaning(msg, rest));
    }
  }

  // ---------- completeness ----------

  lemma PushedSuffix(msg: bytes, rest: Derivation, acc: seq<Label>)
    requires Derives(msg, rest) && |Flatten(acc)| + |Flatten(Meaning(msg, rest))| <= MAX_NAME_BYTES
    ensures [] + Meaning(msg, rest) == Meaning(msg, rest)
    ensures PushAll(acc, Meaning(msg, rest)) == Ok(acc + Meaning(msg, rest))
  {
    PushAllResult(acc, Meaning(msg, rest));
  }

  lemma LabelledMeaning(msg: bytes, d: Derivation)
    requires Derives(msg, d) && d.Labelled?
    ensures var l := msg[d.pos + 1..d.pos + 1 + msg[d.pos]];
            |Flatten(Meaning(msg, d))| == |l| + |Flatten(Meaning(msg, d.rest))|
  {
    assert Meaning(msg, d)[1..] == Meaning(msg, d.rest);
  }

  lemma PointedIsRead(msg: bytes, d: Derivation, depth: nat, acc: seq<Label>)
    requires Derives(msg, d) && d.Pointed? && depth < MAX_JUMPS
    requires |Flatten(acc)| + |Flatten(Meaning(msg, d))| <= MAX_NAME_BYTES
    requires LabelsFrom(msg, d.rest.pos, depth + 1, []) == Ok(([] + Meaning(msg, d.rest), EndOf(d.rest)))
    ensures LabelsFrom(msg, d.pos, depth, acc) == Ok((acc + Meaning(msg, d), EndOf(d)))
  {
    hide PushAll, Flatten;
    PushedSuffix(msg, d.rest, acc);
    assert TurnAt(msg, d.pos, |Flatten(acc)|, |acc|) == Jump(d.rest.pos, d.pos + 2);
  }

  lemma LabelledIsRead(msg: bytes, d: Derivation, depth: nat, acc: seq<Label>)
    requires Derives(msg, d) && d.Labelled? && depth <= MAX_JUMPS
    requires |Flatten(acc)| + |Flatten(Meaning(msg, d))| <= MAX_NAME_BYTES
    requires var next := acc + [msg[d.pos + 1..d.pos + 1 + msg[d.pos]]];
             LabelsFrom(msg, d.rest.pos, depth, next) == Ok((next + Meaning(msg, d.rest), EndOf(d.rest)))
    ensures LabelsFrom(msg, d.pos, depth, acc) == Ok((acc + Meaning(msg, d), EndOf(d)))
  {
    LabelledMeaning(msg, d);
    LabelStep(msg, d.pos, depth, acc);
    Assoc(acc, [msg[d.pos + 1..d.pos + 1 + msg[d.pos]]], Meaning(msg, d.rest));
  }

  lemma {:induction false} DerivedIsRead(msg: bytes, d: Derivation, depth: nat, acc: seq<Label>)
    requires Derives(msg, d) && Jumps(d) + depth <= MAX_JUMPS
    requires |Flatten(acc)| + |Flatten(Meaning(msg, d))| <= MAX_NAME_BYTES
    ensures LabelsFrom(msg, d.pos, depth, acc) == Ok((acc + Meaning(msg, d), EndOf(d)))
    decreases d
  {
    if d.Root? {
      assert acc + [] == acc;
    } else if d.Pointed? {
      DerivedIsRead(msg, d.rest, depth + 1, []);
      PointedIsRead(msg, d, depth, acc);
    } else {
      var l := msg[d.pos + 1..d.pos + 1 + msg[d.pos]];
      LabelledMeaning(msg, d);
      FlattenSnoc(acc, l);
      DerivedIsRead(msg, d.rest, depth, acc + [l]);
      LabelledIsRead(msg, d, depth, acc);
    }
  }

  ghost predicate DerivedAs(msg: bytes, pos: nat, ls: seq<Label>, next: nat, d: Derivation) {
    && d.pos == pos && Derives(msg, d)
    && Jumps(d) <= 63
    && Meaning(msg, d) == ls && |Flatten(ls)| <= 255
    && EndOf(d) == next
  }

  // Reading a name gives labels `ls` and stops at `next` exactly when some
  // derivation with at most 63 jumps and 255 label bytes says so.
  lemma ReadIffDerived(msg: bytes, pos: nat, ls: seq<Label>, next: nat)
    ensures NameAt(msg, pos, 0) == Ok((ls, next)) <==> exists d :: DerivedAs(msg, pos, ls, next, d)
  {
    if NameAt(msg, pos, 0) == Ok((ls, next)) {
      NameAtWellFormed(msg, pos, 0);
      var d := ReadIsDerived(msg, pos, 0, []);
      assert [] + Meaning(msg, d) == Meaning(msg, d);
      assert DerivedAs(msg, pos, ls, next, d);
    }
    if d :| DerivedAs(msg, pos, ls, next, d) {
      DerivedIsRead(msg, d, 0, []);
      assert [] + Meaning(msg, d) == Meaning(msg, d);
    }
  }

  lemma {:induction false} DerivationUnique(msg: bytes, d: Derivation, e: Derivation)
    requires Derives(msg, d) && Derives(msg, e) && d.pos == e.pos
    ensures d == e
    decreases d
  {
    match d
    case Root(_) =>
    case Labelled(_, rest) =>
      DerivationUnique(msg, rest, e.rest);
    case Pointed(_, rest) =>
      DerivationUnique(msg, rest, e.rest);
  }

  // ---------- cyclic chains ----------

  // One step of the walk: past a label, or to a pointer's target.
  function Step(msg: bytes, pos: nat): Option<nat> {
    if IsLabelAt(msg, pos) then Some(pos + 1 + msg[pos])
    else if IsPointerAt(msg, pos) then Some(PointerTarget(msg[pos], msg[pos + 1]))
    else None
  }

  function Walk(msg: bytes, pos: nat, steps: nat): Option<nat>
    decreases steps
  {
    if steps == 0 then Some(pos)
    else if Step(msg, pos).None? then None
    else Walk(msg, Step(msg, pos).value, steps - 1)
  }

  function Length(d: Derivation): nat {
    match d
    case Root(_) => 0
    case Labelled(_, rest) => 1 + Length(rest)
    case Pointed(_, rest) => 1 + Length(rest)
  }

  lemma {:induction false} WalkInDerivation(msg: bytes, d: Derivation, steps: nat) returns (e: Derivation)
    requires Derives(msg, d) && Walk(msg, d.pos, steps).Some?
    ensures Derives(msg, e) && e.pos == Walk(msg, d.pos, steps).value
    ensures Length(e) + steps == Length(d)
    decreases steps
  {
    if steps == 0 {
      e := d;
    } else {
      e := WalkInDerivation(msg, d.rest, steps - 1);
    }
  }

  // A walk that reaches a position it will come back to never gives a name,
  // whatever stands on the cycle.
  lemma CyclicChainFails(msg: bytes, pos: nat, lead: nat, period: nat, depth: nat)
    requires Walk(msg, pos, lead).Some? && period > 0
    requires Walk(msg, Walk(msg, pos, lead).value, period) == Walk(msg, pos, lead)
    ensures NameAt(msg, pos, depth).Err?
  {
    if NameAt(msg, pos, depth).Ok? {
      var d := ReadIsDerived(msg, pos, depth, []);
      var e := WalkInDerivation(msg, d, lead);
      var f := WalkInDerivation(msg, e, period);
      DerivationUnique(msg, e, f);
    }
  }

  // ---------- labels in a row, then anything ----------

  lemma PrefixedFront(msg: bytes, pos: nat, ls: seq<Label>)
    requires WfLabels(ls) && ls != [] && At(msg, pos, Prefixed(ls))
    ensures IsLabelAt(msg, pos) && msg[pos] as int == |ls[0]| && msg[pos + 1..pos + 1 + |ls[0]|] == ls[0]
    ensures WfLabels(ls[1..]) && At(msg, pos + 1 + |ls[0]|, Prefixed(ls[1..]))
    ensures |Prefixed(ls)| == 1 + |ls[0]| + |Prefixed(ls[1..])|
  {
    hide At, IsLabelAt;
    WfDrop(ls, 1);
    AtSplit(msg, pos, [|ls[0]| as byte] + ls[0], Prefixed(ls[1..]));
    LabelStands(msg, pos, ls[0]);
  }

  lemma LabelStands(msg: bytes, pos: nat, l: Label)
    requires 1 <= |l| <= MAX_LABEL_LENGTH && At(msg, pos, [|l| as byte] + l)
    ensures IsLabelAt(msg, pos) && msg[pos] as int == |l| && msg[pos + 1..pos + 1 + |l|] == l
  {
    AtSplit(msg, pos, [|l| as byte], l);
    AtIndex(msg, pos, [|l| as byte], 0);
  }

  lemma OneLabel(msg: bytes, pos: nat, l: Label, rest: Derivation)
    requires IsLabelAt(msg, pos) && msg[pos] as int == |l| && msg[pos + 1..pos + 1 + |l|] == l
    requires rest.pos == pos + 1 + |l| && Derives(msg, rest)
    ensures var d := Labelled(pos, rest);
            Derives(msg, d) && Meaning(msg, d) == [l] + Meaning(msg, rest)
            && Jumps(d) == Jumps(rest) && EndOf(d) == EndOf(rest)
  {
  }

  lemma {:induction false} PrependLabels(msg: bytes, pos: nat, ls: seq<Label>, tail: Derivation) returns (d: Derivation)
    requires WfLabels(ls) && At(msg, pos, Prefixed(ls))
    requires Derives(msg, tail) && tail.pos == pos + |Prefixed(ls)|
    ensures d.pos == pos && Derives(msg, d) && Meaning(msg, d) == ls + Meaning(msg, tail)
    ensures Jumps(d) == Jumps(tail) && EndOf(d) == EndOf(tail)
    decreases |ls|
  {
    hide At, IsLabelAt, WfLabels, Derives, Jumps, EndOf;
    if ls == [] {
      d := tail;
      assert ls + Meaning(msg, tail) == Meaning(msg, tail);
    } else {
      PrefixedFront(msg, pos, ls);
      var l, more := ls[0], ls[1..];
      var rest := PrependLabels(msg, pos + 1 + |l|, more, tail);
      OneLabel(msg, pos, l, rest);
      d := Labelled(pos, rest);
      assert ls == [l] + more;
      Assoc([l], more, Meaning(msg, tail));
    }
  }

  lemma FirstIsLabel(msg: bytes, l: Label, d: Derivation)
    requires Derives(msg, d) && IsLabelAt(msg, d.pos)
    requires msg[d.pos] as int == |l| && msg[d.pos + 1..d.pos + 1 + |l|] == l
    ensures d.Labelled? && d.rest.pos == d.pos + 1 + |l| && Derives(msg, d.rest)
    ensures Meaning(msg, d) == [l] + Meaning(msg, d.rest) && Jumps(d) == Jumps(d.rest) && EndOf(d) == EndOf(d.rest)
  {
  }

  lemma {:induction false} DropLabels(msg: bytes, pos: nat, ls: seq<Label>, d: Derivation) returns (tail: Derivation)
    requires WfLabels(ls) && At(msg, pos, Prefixed(ls))
    requires Derives(msg, d) && d.pos == pos
    ensures Derives(msg, tail) && tail.pos == pos + |Prefixed(ls)|
    ensures Meaning(msg, d) == ls + Meaning(msg, tail)
    ensures Jumps(d) == Jumps(tail) && EndOf(d) == EndOf(tail)
    decreases |ls|
  {
    hide At, IsLabelAt, WfLabels, Derives, Jumps, EndOf;
    if ls == [] {
      tail := d;
      assert ls + Meaning(msg, tail) == Meaning(msg, tail);
    } else {
      PrefixedFront(msg, pos, ls);
      var l, more := ls[0], ls[1..];
      FirstIsLabel(msg, l, d);
      tail := DropLabels(msg, pos + 1 + |l|, more, d.rest);
      assert ls == [l] + more;
      Assoc([l], more, Meaning(msg, tail));
    }
  }

  // Bytes written without compression derive their labels with no jump.
  lemma UncompressedDerives(msg: bytes, pos: nat, ls: seq<Label>) returns (d: Derivation)
    requires WfLabels(ls) && At(msg, pos, WireOf(ls))
    ensures d.pos == pos && Derives(msg, d) && Meaning(msg, d) == ls
    ensures Jumps(d) == 0 && EndOf(d) == pos + |WireOf(ls)|
  {
    AtSplit(msg, pos, Prefixed(ls), [0]);
    AtIndex(msg, pos + |Prefixed(ls)|, [0], 0);
    d := PrependLabels(msg, pos, ls, Root(pos + |Prefixed(ls)|));
    assert ls + [] == ls;
  }

  // ---------- the reader itself ----------

  // The labels read at a position, in the stored representation.
  function PackedNameAt(msg: bytes, pos: nat, depth: nat): (r: Result<(Name, nat)>)
    ensures r.Ok? ==> pos < r.value.1 <= |msg|
  {
    match NameAt(msg, pos, depth)
    case Ok(v) =>
      NameAtWellFormed(msg, pos, depth);
      PackLabels(v.0);
      Ok((Pack(v.0), v.1))
    case Err(e) => Err(e)
  }

  // What reading a name at a position gives.
  function ReadNameAt(msg: bytes, pos: nat): (r: Result<(Name, nat)>)
    ensures r.Ok? ==> pos < r.value.1 <= |msg|
  {
    PackedNameAt(msg, pos, 0)
  }

  lemma DerivedNameIsRead(msg: bytes, d: Derivation, n: Name)
    requires Derives(msg, d) && Jumps(d) <= MAX_JUMPS && Meaning(msg, d) == n.Labels()
    ensures ReadNameAt(msg, d.pos) == Ok((n, EndOf(d)))
  {
    LabelsPack(n);
    assert DerivedAs(msg, d.pos, n.Labels(), EndOf(d), d);
    ReadIffDerived(msg, d.pos, n.Labels(), EndOf(d));
  }

  lemma ReadNameIsDerived(msg: bytes, pos: nat, n: Name, next: nat) returns (d: Derivation)
    requires ReadNameAt(msg, pos) == Ok((n, next))
    ensures d.pos == pos && Derives(msg, d) && Jumps(d) <= MAX_JUMPS
    ensures Meaning(msg, d) == n.Labels() && EndOf(d) == next
  {
    var r := NameAt(msg, pos, 0).value;
    NameAtWellFormed(msg, pos, 0);
    PackLabels(r.0);
    ReadIffDerived(msg, pos, r.0, r.1);
    d :| DerivedAs(msg, pos, r.0, r.1, d);
  }

  // A name written without compression reads back as itself, whatever surrounds it.
  lemma NameRoundTrip(msg: bytes, pos: nat, n: Name)
    requires At(msg, pos, NameBytes(n))
    ensures ReadNameAt(msg, pos) == Ok((n, pos + |NameBytes(n)|))
  {
    hide ReadNameAt, Derives, Meaning, Jumps, EndOf, Flatten, Prefixed;
    LabelsPack(n);
    var d := UncompressedDerives(msg, pos, n.Labels());
    DerivedNameIsRead(msg, d, n);
  }

  lemma MergedWellFormed(acc: seq<Label>, ls: seq<Label>)
    requires WfLabels(acc) && WfLabels(ls)
    ensures Flatten(acc + ls) == Flatten(acc) + Flatten(ls)
    ensures PushAll(acc, ls).Ok? ==> PushAll(acc, ls).value == acc + ls && WfLabels(acc + ls)
  {
    PushAllResult(acc, ls);
    FlattenConcat(acc, ls);
  }

  // `r` is the stored form of the labels `spec` gives, or the same error.
  ghost predicate Stores(r: Result<DomainName>, spec: Result<seq<Label>>) {
    match spec
    case Ok(ls) => WfLabels(ls) && r == Ok(Pack(ls))
    case Err(e) => r == Err(e)
  }

  // One more label of `suffix` behind the bytes `buf`.
  lemma SuffixGrows(buf: bytes, suffix: Name, i: nat)
    requires i < |suffix.ends|
    ensures suffix.Start(i) < suffix.Start(i + 1) <= |suffix.buf|
    ensures |suffix.Labels()[i]| == suffix.Start(i + 1) - suffix.Start(i)
    ensures buf + suffix.buf[..suffix.Start(i)] + suffix.Labels()[i] == buf + suffix.buf[..suffix.Start(i + 1)]
  {
    LabelIndex(suffix, i);
    assert suffix.buf[..suffix.Start(i + 1)] == suffix.buf[..suffix.Start(i)] + suffix.Slice(i);
    Assoc(buf, suffix.buf[..suffix.Start(i)], suffix.Slice(i));
  }

  lemma WfBytes(ls: seq<Label>)
    requires WfLabels(ls)
    ensures |Flatten(ls)| <= MAX_NAME_BYTES
  {
  }

  // Pushes a suffix's ends one at a time, shifted past the labels already read.
  method MergeSuffix(buf: bytes, ends: seq<byte>, suffix: Name, ghost acc: seq<Label>) returns (r: Result<DomainName>)
    requires WfLabels(acc) && Pack(acc) == DomainName(buf, ends)
    ensures Stores(r, PushAll(acc, suffix.Labels()))
  {
    hide Pack, Flatten, WfLabels, DomainName.Labels, DomainName.Valid;
    ghost var ls := suffix.Labels();
    LabelsPack(suffix);
    WfBytes(acc);
    MergedWellFormed(acc, ls);
    assert buf + suffix.buf[..0] == buf && ls[0..] == ls;
    var allEnds: seq<byte> := ends;
    ghost var pushed := acc;
    for i := 0 to |suffix.ends|
      invariant suffix.Start(i) <= |suffix.buf| && |Flatten(pushed)| <= MAX_NAME_BYTES
      invariant Pack(pushed) == DomainName(buf + suffix.buf[..suffix.Start(i)], allEnds)
      invariant PushAll(acc, ls) == PushAll(pushed, ls[i..])
    {
      SuffixGrows(buf, suffix, i);
      DropOne(ls, i);
      if |buf| + suffix.ends[i] as int > 0xFF {
        return Err(TooManyLabels(|allEnds|));
      }
      PackPush(pushed, ls[i]);
      allEnds := allEnds + [|buf| + suffix.ends[i] as int];
      pushed := pushed + [ls[i]];
    }
    assert suffix.buf[..|suffix.buf|] == suffix.buf;
    assert suffix.Start(|suffix.ends|) == |suffix.buf|;
    return Ok(DomainName(buf + suffix.buf, allEnds));
  }

  function LabelsOnly(r: Result<(seq<Label>, nat)>): Result<seq<Label>> {
    match r
    case Ok(v) => Ok(v.0)
    case Err(e) => Err(e)
  }

  method FollowPointer(message: bytes, offset: nat, depth: nat, buf: bytes, ends: seq<byte>, ghost acc: seq<Label>)
    returns (r: Result<DomainName>, ghost turns: nat)
    requires depth <= MAX_JUMPS && offset < |message|
    requires WfLabels(acc) && Pack(acc) == DomainName(buf, ends)
    ensures Stores(r, Merged(message, offset, depth, acc))
    ensures turns == TurnsAt(message, offset, depth + 1)
    decreases MAX_JUMPS + 1 - depth, 0
  {
    var reader := new WireReader(message);
    var _ := reader.SetPos(offset);
    var suffix;
    suffix, turns := ReadNameWithDepth(reader, depth + 1);
    if suffix.Err? {
      return Err(suffix.error), turns;
    }
    ghost var below := NameAt(message, offset, depth + 1).value.0;
    NameAtWellFormed(message, offset, depth + 1);
    PackLabels(below);
    r := MergeSuffix(buf, ends, suffix.value, acc);
  }

  method ReadNameWithDepth(reader: WireReader, depth: nat) returns (r: Result<DomainName>, ghost turns: nat)
    requires reader.Valid()
    modifies reader`pos
    ensures reader.Valid()
    ensures Stores(r, LabelsOnly(NameAt(reader.buf, old(reader.pos), depth)))
    ensures r.Ok? ==> reader.pos == NameAt(reader.buf, old(reader.pos), depth).value.1
    ensures r.Ok? ==> r.value.Valid()
    ensures turns == TurnsAt(reader.buf, old(reader.pos), depth)
    ensures turns <= 256 * (if depth <= MAX_JUMPS then MAX_JUMPS + 1 - depth else 0)
    decreases if depth <= MAX_JUMPS then MAX_JUMPS + 1 - depth else 0, 2
  {
    if depth > MAX_JUMPS {
      return Err(PointerLoop(reader.pos, depth)), 0;
    }
    r, turns := ReadLabels(reader, depth);
    TurnsBounded(reader.buf, old(reader.pos), depth, []);
    if r.Ok? {
      PackLabels(NameAt(reader.buf, old(reader.pos), depth).value.0);
    }
  }

  method ReadTurn(reader: WireReader, used: nat, count: nat) returns (t: Turn)
    requires reader.Valid()
    modifies reader`pos
    ensures reader.Valid()
    ensures t == TurnAt(reader.buf, old(reader.pos), used, count)
    ensures !t.Fail? ==> reader.pos == t.next
  {
    if reader.pos == |reader.buf| {
      return Fail(BufferUnderflow(1, 0));
    }
    var peeked := reader.PeekU8();
    var marker := peeked.value;
    if marker >= 0xC0 {
      var _ := reader.ReadU8();
      var second := reader.ReadU8();
      if second.Err? {
        return Fail(second.error);
      }
      var offset := PointerTarget(marker, second.value);
      if offset >= |reader.buf| {
        return Fail(PointerOutOfBounds(offset, |reader.buf|));
      }
      return Jump(offset, reader.pos);
    } else if marker == 0 {
      var _ := reader.ReadU8();
      return Done(reader.pos);
    } else if marker <= 0x3F {
      var _ := reader.ReadU8();
      var data := reader.ReadBytes(marker);
      if data.Err? {
        return Fail(data.error);
      }
      if used + |data.value| > 0xFF {
        return Fail(TooManyLabels(count));
      }
      return Take(data.value, reader.pos);
    } else {
      return Fail(InvalidPointerMarker(reader.pos, marker));
    }
  }

  // The loop of the reader at one level of recursion.
  method ReadLabels(reader: WireReader, depth: nat) returns (r: Result<DomainName>, ghost turns: nat)
    requires reader.Valid() && depth <= MAX_JUMPS
    modifies reader`pos
    ensures reader.Valid()
    ensures Stores(r, LabelsOnly(LabelsFrom(reader.buf, old(reader.pos), depth, [])))
    ensures r.Ok? ==> reader.pos == LabelsFrom(reader.buf, old(reader.pos), depth, []).value.1
    ensures turns == TurnsFrom(reader.buf, old(reader.pos), depth, [])
    decreases MAX_JUMPS + 1 - depth, 1
  {
    turns := 0;
    var buf: bytes, ends: seq<byte> := [], [];
    ghost var acc: seq<Label> := [];
    ghost var spec := LabelsFrom(reader.buf, reader.pos, depth, []);
    while true
      invariant reader.Valid()
      invariant WfLabels(acc) && Pack(acc) == DomainName(buf, ends)
      invariant spec == LabelsFrom(reader.buf, reader.pos, depth, acc)
      invariant turns + TurnsFrom(reader.buf, reader.pos, depth, acc)
                == TurnsFrom(reader.buf, old(reader.pos), depth, [])
      decreases |reader.buf| - reader.pos
    {
      turns := turns + 1;
      var turn := ReadTurn(reader, |buf|, |ends|);
      match turn
      case Fail(error) =>
        return Err(error), turns;
      case Done(_) =>
        return Ok(DomainName(buf, ends)), turns;
      case Jump(target, _) =>
        ghost var below;
        r, below := FollowPointer(reader.buf, target, depth, buf, ends, acc);
        turns := turns + below;
        return;
      case Take(l, _) =>
        PackPush(acc, l);
        buf := buf + l;
        ends := ends + [|buf|];
        acc := acc + [l];
    }
  }

  method ReadName(reader: WireReader) returns (r: Result<Name>)
    requires reader.Valid()
    modifies reader`pos
    ensures reader.Valid()
    ensures Reads(r, ReadNameAt(reader.buf, old(reader.pos)), reader.pos)
  {
    var n;
    ghost var turns;
    n, turns := ReadNameWithDepth(reader, 0);
    if n.Err? {
      return Err(n.error);
    }
    PackLabels(NameAt(reader.buf, old(reader.pos), 0).value.0);
    return Ok(n.value);
  }

  method ReadNameAtOffset(message: bytes, offset: nat) returns (r: Result<(Name, nat)>)
    ensures offset <= |message| ==> r == ReadNameAt(message, offset)
    ensures offset > |message| ==> r == Err(BufferUnderflow(0, |message|))
  {
    var reader := new WireReader(message);
    var moved := reader.SetPos(offset);
    if moved.Err? {
      return Err(moved.error);
    }
    var n := ReadName(reader);
    if n.Err? {
      return Err(n.error);
    }
    return Ok((n.value, reader.pos));
  }
}
