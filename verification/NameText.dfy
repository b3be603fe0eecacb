// The presentation format of names: printing with escapes, and parsing.

module NameText {
  import opened Types
  import opened Names

  const DOT: byte := 0x2E
  const BACKSLASH: byte := 0x5C

  // ---------- printing ----------

  // Printed as itself: a visible ASCII character other than '.' and '\'.
  predicate Plain(b: byte) {
    0x21 <= b <= 0x7E && b != DOT && b != BACKSLASH
  }

  // Any other byte is a backslash and three decimal digits.
  function PrintByte(b: byte): (s: bytes)
    ensures |s| == if Plain(b) then 1 else 4
    ensures DOT !in s
  {
    if Plain(b) then [b] else [BACKSLASH, 0x30 + b / 100, 0x30 + b / 10 % 10, 0x30 + b % 10]
  }

  function PrintLabel(l: Label): (s: bytes)
    ensures |s| >= |l|
    ensures DOT !in s
  {
    if l == [] then [] else PrintByte(l[0]) + PrintLabel(l[1..])
  }

  // Every label is followed by a dot; the root alone is a dot.
  function PrintLabels(ls: seq<Label>): bytes {
    if ls == [] then [] else PrintLabel(ls[0]) + [DOT] + PrintLabels(ls[1..])
  }

  function Print(ls: seq<Label>): bytes {
    if ls == [] then [DOT] else PrintLabels(ls)
  }

  // A visible character other than '.' (46) and '\\' (92) prints as itself; any other
  // byte as '\\' and its value in three decimal digits.
  lemma PrintedByte(b: byte)
    ensures 33 <= b <= 126 && b != 46 && b != 92 ==> PrintByte(b) == [b]
    ensures !(33 <= b <= 126 && b != 46 && b != 92) ==>
              && |PrintByte(b)| == 4 && PrintByte(b)[0] == 92
              && (forall k | 1 <= k < 4 :: 48 <= PrintByte(b)[k] <= 57)
              && 100 * (PrintByte(b)[1] - 48) + 10 * (PrintByte(b)[2] - 48) + (PrintByte(b)[3] - 48) == b as int
  {
    assert 100 * (b as int / 100) + 10 * (b as int / 10 % 10) + b as int % 10 == b as int;
  }

  lemma {:induction false} PrintLabelConcat(a: Label, b: Label)
    ensures PrintLabel(a + b) == PrintLabel(a) + PrintLabel(b)
  {
    if a == [] {
      assert a + b == b;
    } else {
      PrintLabelConcat(a[1..], b);
      assert (a + b)[1..] == a[1..] + b;
      Assoc(PrintByte(a[0]), PrintLabel(a[1..]), PrintLabel(b));
    }
  }

  lemma {:induction false} PrintLabelsConcat(a: seq<Label>, b: seq<Label>)
    ensures PrintLabels(a + b) == PrintLabels(a) + PrintLabels(b)
  {
    if a == [] {
      assert a + b == b;
    } else {
      PrintLabelsConcat(a[1..], b);
      assert (a + b)[1..] == a[1..] + b;
      Assoc(PrintLabel(a[0]) + [DOT], PrintLabels(a[1..]), PrintLabels(b));
    }
  }

  method PrintOneLabel(l: Label) returns (s: bytes)
    ensures s == PrintLabel(l)
  {
    hide PrintLabel;
    PrintNoBytes();
    assert l[..0] == [];
    s := [];
    for k := 0 to |l|
      invariant s == PrintLabel(l[..k])
    {
      var b := l[k];
      PrintOneByte(b);
      if 0x21 <= b <= 0x7E && b != DOT && b != BACKSLASH {
        s := s + [b];
      } else {
        s := s + [BACKSLASH, 0x30 + b / 100, 0x30 + b / 10 % 10, 0x30 + b % 10];
      }
      TakeOneMore(l, k);
      PrintLabelConcat(l[..k], [b]);
    }
    assert l[..|l|] == l;
  }

  lemma PrintNoBytes()
    ensures PrintLabel([]) == []
  {
  }

  lemma PrintOneByte(b: byte)
    ensures PrintLabel([b]) == PrintByte(b)
  {
    assert PrintByte(b) + [] == PrintByte(b);
  }

  lemma PrintOneMore(ls: seq<Label>, i: nat)
    requires i < |ls|
    ensures PrintLabels(ls[..i + 1]) == PrintLabels(ls[..i]) + PrintLabel(ls[i]) + [DOT]
  {
    TakeOneMore(ls, i);
    PrintLabelsConcat(ls[..i], [ls[i]]);
    Assoc(PrintLabels(ls[..i]), PrintLabel(ls[i]), [DOT]);
  }

  method Display(n: Name) returns (s: bytes)
    ensures s == Print(n.Labels())
  {
    hide PrintLabel, PrintLabels, DomainName.Labels, DomainName.FirstLabels, DomainName.Valid;
    PrintNothing();
    if n.ends == [] {
      return [DOT];
    }
    ghost var ls := n.Labels();
    s := [];
    var first := true;
    // What has been printed, with the dot that the next turn or the end writes.
    ghost var out: bytes := [];
    assert ls[..0] == [];
    for i := 0 to |n.ends|
      invariant first == (i == 0)
      invariant out == (if first then s else s + [DOT]) && out == PrintLabels(ls[..i])
    {
      if !first {
        s := s + [DOT];
      }
      first := false;
      var l := n.LabelAt(i).value;
      var printed := PrintOneLabel(l);
      PrintOneMore(ls, i);
      s := s + printed;
      out := s + [DOT];
    }
    assert ls[..|ls|] == ls;
    s := s + [DOT];
  }

  lemma PrintNothing()
    ensures PrintLabels([]) == []
  {
  }

  // ---------- printing is injective ----------

  // Reads printed text back, byte by byte; `cur` is the label being read.
  function Unprint(s: bytes, cur: Label): seq<Label>
    decreases |s|
  {
    if s == [] then []
    else if s[0] == DOT then [cur] + Unprint(s[1..], [])
    else if s[0] == BACKSLASH && |s| >= 4 then
      Unprint(s[4..], cur + [(100 * s[1] as int + 10 * s[2] as int + s[3] as int - 5328) % 0x100])
    else Unprint(s[1..], cur + [s[0]])
  }

  lemma UnprintByte(b: byte, rest: bytes, cur: Label)
    ensures Unprint(PrintByte(b) + rest, cur) == Unprint(rest, cur + [b])
  {
    var s := PrintByte(b) + rest;
    if Plain(b) {
      assert s[1..] == rest;
    } else {
      assert s[4..] == rest;
      var v := b as int;
      assert 100 * (v / 100) + 10 * (v / 10 % 10) + v % 10 == v;
    }
  }

  lemma {:induction false} UnprintLabel(l: Label, rest: bytes, cur: Label)
    ensures Unprint(PrintLabel(l) + rest, cur) == Unprint(rest, cur + l)
    decreases |l|
  {
    if l == [] {
      assert PrintLabel(l) + rest == rest && cur + l == cur;
    } else {
      Assoc(PrintByte(l[0]), PrintLabel(l[1..]), rest);
      UnprintByte(l[0], PrintLabel(l[1..]) + rest, cur);
      UnprintLabel(l[1..], rest, cur + [l[0]]);
      assert cur + [l[0]] + l[1..] == cur + l;
    }
  }

  lemma {:induction false} UnprintLabels(ls: seq<Label>)
    ensures Unprint(PrintLabels(ls), []) == ls
  {
    hide PrintLabel;
    if ls != [] {
      var rest := PrintLabels(ls[1..]);
      Assoc(PrintLabel(ls[0]), [DOT], rest);
      UnprintLabel(ls[0], [DOT] + rest, []);
      assert ([DOT] + rest)[1..] == rest && [] + ls[0] == ls[0];
      UnprintLabels(ls[1..]);
    }
  }

  // What is printed determines the labels; the root prints as one empty label.
  lemma UnprintPrint(ls: seq<Label>)
    ensures Unprint(Print(ls), []) == if ls == [] then [[]] else ls
  {
    UnprintLabels(ls);
    assert Unprint([DOT], []) == [[]];
  }

  // Different names print differently, whatever bytes their labels hold.
  lemma PrintInjective(a: Name, b: Name)
    requires Print(a.Labels()) == Print(b.Labels())
    ensures a == b
  {
    hide Print, Unprint, Pack, DomainName.Labels, DomainName.Valid;
    LabelsPack(a);
    LabelsPack(b);
    UnprintPrint(a.Labels());
    UnprintPrint(b.Labels());
    assert a.Labels() == b.Labels();
    SameLabelsSameName(a, b);
  }

  // ---------- parsing ----------

  function TrimDots(s: bytes): (t: bytes) {
    if s != [] && s[|s| - 1] == DOT then TrimDots(s[..|s| - 1]) else s
  }

  function Split(s: bytes, cur: bytes): (parts: seq<bytes>)
    decreases |s|
  {
    if s == [] then [cur]
    else if s[0] == DOT then [cur] + Split(s[1..], [])
    else Split(s[1..], cur + [s[0]])
  }

  function FromStrSpec(s: bytes): (r: Result<seq<Label>>) {
    if s == [DOT] then Ok([])
    else if TrimDots(s) == [] then Ok([])
    else FromLabelsSpec(Split(TrimDots(s), []))
  }

  method FromStr(s: bytes) returns (r: Result<DomainName>)
    ensures FromStrSpec(s).Ok? ==> WfLabels(FromStrSpec(s).value)
    ensures r == PackResult(FromStrSpec(s))
    ensures r.Ok? ==> r.value.Valid() && r.value.Labels() == FromStrSpec(s).value
  {
    if s == [DOT] {
      return Ok(DomainName([], []));
    }
    var end := |s|;
    assert s[..|s|] == s;
    while end > 0 && s[end - 1] == DOT
      invariant 0 <= end <= |s| && TrimDots(s) == TrimDots(s[..end])
    {
      assert s[..end][..end - 1] == s[..end - 1];
      end := end - 1;
    }
    if end == 0 {
      return Ok(DomainName([], []));
    }
    var parts: seq<bytes>, cur: bytes := [], [];
    assert s[..end][0..] == s[..end];
    for k := 0 to end
      invariant Split(s[..end], []) == parts + Split(s[..end][k..], cur)
    {
      DropOne(s[..end], k);
      if s[k] == DOT {
        Assoc(parts, [cur], Split(s[..end][k + 1..], []));
        parts, cur := parts + [cur], [];
      } else {
        cur := cur + [s[k]];
      }
    }
    assert s[..end][end..] == [];
    r := FromLabels(parts + [cur]);
    if r.Ok? {
      FromLabelsAccepts(parts + [cur], FromLabelsSpec(parts + [cur]).value);
    }
  }

  // One trailing dot makes no difference.
  lemma TrailingDotIgnored(s: bytes)
    ensures FromStrSpec(s + [DOT]) == FromStrSpec(s)
  {
    assert (s + [DOT])[..|s|] == s;
    if s == [DOT] {
      assert TrimDots(s) == TrimDots([]);
    }
  }

  function Join(parts: seq<bytes>): bytes
    requires parts != []
  {
    if |parts| == 1 then parts[0] else parts[0] + [DOT] + Join(parts[1..])
  }

  lemma {:induction false} SplitWord(w: bytes, rest: bytes, cur: bytes)
    requires DOT !in w
    ensures Split(w + rest, cur) == Split(rest, cur + w)
    decreases |w|
  {
    if w == [] {
      assert w + rest == rest && cur + w == cur;
    } else {
      assert (w + rest)[1..] == w[1..] + rest;
      SplitWord(w[1..], rest, cur + [w[0]]);
      assert cur + [w[0]] + w[1..] == cur + w;
    }
  }

  lemma {:induction false} SplitJoin(parts: seq<bytes>)
    requires parts != [] && forall i | 0 <= i < |parts| :: DOT !in parts[i]
    ensures Split(Join(parts), []) == parts
  {
    var w := parts[0];
    assert [] + w == w;
    if |parts| == 1 {
      assert w + [] == w;
      SplitWord(w, [], []);
    } else {
      var rest := Join(parts[1..]);
      Assoc(w, [DOT], rest);
      SplitWord(w, [DOT] + rest, []);
      assert ([DOT] + rest)[1..] == rest;
      SplitJoin(parts[1..]);
    }
  }

  // Every text is the join of its parts, none of which has a dot.
  lemma {:induction false} SplitThenJoin(s: bytes, cur: bytes)
    requires 46 !in cur
    ensures Split(s, cur) != [] && Join(Split(s, cur)) == cur + s
    ensures forall i | 0 <= i < |Split(s, cur)| :: 46 !in Split(s, cur)[i]
    decreases |s|
  {
    if s == [] {
      assert cur + s == cur;
    } else if s[0] == DOT {
      SplitThenJoin(s[1..], []);
      var rest := Split(s[1..], []);
      assert ([cur] + rest)[1..] == rest;
      assert cur + [DOT] + ([] + s[1..]) == cur + s;
    } else {
      SplitThenJoin(s[1..], cur + [s[0]]);
      assert cur + [s[0]] + s[1..] == cur + s;
    }
  }

  lemma {:induction false} CollectSkipsLast(acc: seq<Label>, parts: seq<bytes>)
    ensures Collect(acc, parts + [[]]) == Collect(acc, parts)
    decreases |parts|
  {
    var empty: seq<bytes> := [[]];
    if parts == [] {
      assert parts + empty == empty && empty[1..] == [];
    } else {
      assert (parts + empty)[0] == parts[0] && (parts + empty)[1..] == parts[1..] + empty;
      if |parts[0]| <= MAX_LABEL_LENGTH {
        if parts[0] == [] {
          CollectSkipsLast(acc, parts[1..]);
        } else if |Flatten(acc)| + |parts[0]| <= MAX_NAME_BYTES {
          CollectSkipsLast(acc + [parts[0]], parts[1..]);
        }
      }
    }
  }

  lemma {:induction false} SplitSnocDot(s: bytes, cur: bytes)
    ensures Split(s + [DOT], cur) == Split(s, cur) + [[]]
    decreases |s|
  {
    var empty: seq<bytes> := [[]];
    if s == [] {
      var dot: bytes := [DOT];
      assert s + dot == dot && dot[1..] == [];
      assert Split([], []) == empty;
    } else {
      assert (s + [DOT])[0] == s[0] && (s + [DOT])[1..] == s[1..] + [DOT];
      if s[0] == DOT {
        SplitSnocDot(s[1..], []);
        Assoc([cur], Split(s[1..], []), empty);
      } else {
        SplitSnocDot(s[1..], cur + [s[0]]);
      }
    }
  }

  lemma {:induction false} TrimmedSplits(s: bytes)
    ensures FromLabelsSpec(Split(TrimDots(s), [])) == FromLabelsSpec(Split(s, []))
    decreases |s|
  {
    if s != [] && s[|s| - 1] == DOT {
      var init := s[..|s| - 1];
      assert s == init + [DOT];
      SplitSnocDot(init, []);
      CollectSkipsLast([], Split(init, []));
      TrimmedSplits(init);
    }
  }

  // Parsing joined parts makes a name of them, or the error they give; every text
  // is such a join.
  lemma ParseJoined(parts: seq<bytes>)
    requires parts != [] && forall i | 0 <= i < |parts| :: 46 !in parts[i]
    ensures FromStrSpec(Join(parts)) == FromLabelsSpec(parts)
  {
    hide Collect;
    SplitJoin(parts);
    TrimmedSplits(Join(parts));
    NothingParsed();
  }

  lemma NothingParsed()
    ensures FromLabelsSpec(Split([], [])) == Ok([]) && TrimDots([DOT]) == []
  {
    var empty: seq<bytes> := [[]];
    assert empty[1..] == [];
    assert Split([], []) == empty;
  }

  function Printed(ls: seq<Label>): (ps: seq<bytes>)
    ensures |ps| == |ls|
    ensures forall i | 0 <= i < |ls| :: ps[i] == PrintLabel(ls[i])
  {
    if ls == [] then [] else [PrintLabel(ls[0])] + Printed(ls[1..])
  }

  lemma PrintedParts(ls: seq<Label>)
    requires forall i | 0 <= i < |ls| :: ls[i] != []
    ensures |Printed(ls)| == |ls|
    ensures forall i | 0 <= i < |ls| :: DOT !in Printed(ls)[i] && Printed(ls)[i] != []
  {
    hide Printed, PrintLabel;
  }

  lemma {:induction false} PrintIsJoin(ls: seq<Label>)
    requires ls != [] && forall i | 0 <= i < |ls| :: ls[i] != []
    ensures PrintLabels(ls) == Join(Printed(ls)) + [DOT]
    ensures var j := Join(Printed(ls)); j != [] && j[|j| - 1] != DOT
  {
    var p := PrintLabel(ls[0]);
    assert p[|p| - 1] in p;
    if |ls| > 1 {
      PrintIsJoin(ls[1..]);
      Assoc(p + [DOT], Join(Printed(ls[1..])), [DOT]);
    }
  }

  predicate AllPlain(ls: seq<Label>) {
    forall i | 0 <= i < |ls| :: PlainLabel(ls[i])
  }

  predicate PlainLabel(l: Label) {
    forall k | 0 <= k < |l| :: Plain(l[k])
  }

  lemma {:induction false} PrintsAsItself(l: Label)
    ensures PrintLabel(l) == l <==> PlainLabel(l)
  {
    if l != [] {
      PrintsAsItself(l[1..]);
      assert l == [l[0]] + l[1..];
      if PlainLabel(l) {
        assert PlainLabel(l[1..]);
      }
      if PrintLabel(l) == l {
        assert |PrintLabel(l[1..])| >= |l[1..]|;
        assert PrintLabel(l[1..]) == PrintLabel(l)[1..];
        assert forall k | 0 < k < |l| :: l[k] == l[1..][k - 1];
      }
    }
  }

  lemma ParseDotted(s: bytes)
    requires s != [] && s[|s| - 1] != DOT
    ensures FromStrSpec(s + [DOT]) == FromLabelsSpec(Split(s, []))
  {
    assert (s + [DOT])[..|s|] == s;
    assert TrimDots(s) == s;
  }

  lemma ParsePrinted(ls: seq<Label>)
    requires ls != [] && forall i | 0 <= i < |ls| :: ls[i] != []
    ensures FromStrSpec(Print(ls)) == FromLabelsSpec(Printed(ls))
    ensures NonEmpty(Printed(ls)) == Printed(ls)
  {
    hide FromStrSpec, Split, TrimDots, Join, PrintLabel, PrintLabels, Printed, NonEmpty, FromLabelsSpec;
    PrintIsJoin(ls);
    ParseDotted(Join(Printed(ls)));
    PrintedParts(ls);
    SplitJoin(Printed(ls));
    AllNonEmpty(Printed(ls));
  }

  lemma PrintedUnchanged(ls: seq<Label>)
    ensures Printed(ls) == ls <==> AllPlain(ls)
  {
    forall i | 0 <= i < |ls| ensures Printed(ls)[i] == ls[i] <==> PlainLabel(ls[i]) {
      PrintsAsItself(ls[i]);
    }
  }

  // Parsing inverts printing exactly on the names made of plain bytes with at
  // most 128 labels.
  lemma ParseInvertsPrint(n: Name)
    ensures FromStrSpec(Print(n.Labels())) == Ok(n.Labels()) <==>
            AllPlain(n.Labels()) && |n.Labels()| <= 128
  {
    LabelsPack(n);
    var ls := n.Labels();
    if ls != [] {
      ParsePrinted(ls);
      PrintedUnchanged(ls);
      FromLabelsAccepts(Printed(ls), ls);
    }
  }

  // A name of plain bytes prints as its labels joined by dots, and a dot.
  lemma PlainNamePrints(n: Name)
    requires AllPlain(n.Labels())
    ensures Print(n.Labels()) == if n.Labels() == [] then [46] else Join(n.Labels()) + [46]
  {
    LabelsPack(n);
    if n.Labels() != [] {
      PrintedUnchanged(n.Labels());
      PrintIsJoin(n.Labels());
    }
  }

  lemma {:induction false} AllNonEmpty(ls: seq<bytes>)
    requires forall i | 0 <= i < |ls| :: ls[i] != []
    ensures NonEmpty(ls) == ls
  {
    if ls != [] {
      AllNonEmpty(ls[1..]);
    }
  }
}
