// Domain names: a flat byte buffer with the cumulative end offset of each
// label, and its relation to the sequence of labels it stands for.

module Names {
  import opened Types
  import opened Wire

  const MAX_LABEL_LENGTH: nat := 63
  const MAX_LABEL_COUNT: nat := 128
  const MAX_NAME_BYTES: nat := 255

  type Label = bytes

  // ---------- label sequences ----------

  function Flatten(ls: seq<Label>): (b: bytes) {
    if ls == [] then [] else ls[0] + Flatten(ls[1..])
  }

  lemma {:induction false} FlattenConcat(xs: seq<Label>, ys: seq<Label>)
    ensures Flatten(xs + ys) == Flatten(xs) + Flatten(ys)
  {
    if xs == [] {
      assert xs + ys == ys;
    } else {
      FlattenConcat(xs[1..], ys);
      assert (xs + ys)[1..] == xs[1..] + ys;
      Assoc(xs[0], Flatten(xs[1..]), Flatten(ys));
    }
  }

  lemma FlattenSnoc(xs: seq<Label>, l: Label)
    ensures Flatten(xs + [l]) == Flatten(xs) + l
  {
    FlattenConcat(xs, [l]);
    assert [l][1..] == [];
  }

  predicate WfLabels(ls: seq<Label>) {
    && (forall i | 0 <= i < |ls| :: 1 <= |ls[i]| <= MAX_LABEL_LENGTH)
    && |Flatten(ls)| <= MAX_NAME_BYTES
  }

  lemma WfDrop(ls: seq<Label>, i: nat)
    requires WfLabels(ls) && i <= |ls|
    ensures WfLabels(ls[i..])
  {
    assert ls == ls[..i] + ls[i..];
    FlattenConcat(ls[..i], ls[i..]);
  }

  // The uncompressed wire form: length-prefixed labels, then the root byte.
  function Prefixed(ls: seq<Label>): (b: bytes)
    requires forall i | 0 <= i < |ls| :: |ls[i]| < 0x100
  {
    if ls == [] then [] else [|ls[0]|] + ls[0] + Prefixed(ls[1..])
  }

  function WireOf(ls: seq<Label>): (b: bytes)
    requires forall i | 0 <= i < |ls| :: |ls[i]| < 0x100
  {
    Prefixed(ls) + [0]
  }

  lemma {:induction false} PrefixedConcat(xs: seq<Label>, ys: seq<Label>)
    requires forall i | 0 <= i < |xs| :: |xs[i]| < 0x100
    requires forall i | 0 <= i < |ys| :: |ys[i]| < 0x100
    ensures Prefixed(xs + ys) == Prefixed(xs) + Prefixed(ys)
  {
    if xs == [] {
      assert xs + ys == ys;
    } else {
      PrefixedConcat(xs[1..], ys);
      assert (xs + ys)[1..] == xs[1..] + ys && (xs + ys)[0] == xs[0];
      Assoc([|xs[0]| as byte] + xs[0], Prefixed(xs[1..]), Prefixed(ys));
    }
  }

  lemma PrefixedTake(ls: seq<Label>, i: nat)
    requires forall k | 0 <= k < |ls| :: |ls[k]| < 0x100
    requires i < |ls|
    ensures Prefixed(ls[..i + 1]) == Prefixed(ls[..i]) + [|ls[i]|] + ls[i]
  {
    var one: seq<Label> := [ls[i]];
    assert ls[..i + 1] == ls[..i] + one;
    PrefixedConcat(ls[..i], one);
    assert one[1..] == [];
  }

  lemma {:induction false} PrefixedLength(ls: seq<Label>)
    requires forall i | 0 <= i < |ls| :: |ls[i]| < 0x100
    ensures |Prefixed(ls)| == |Flatten(ls)| + |ls|
  {
    if ls != [] {
      PrefixedLength(ls[1..]);
    }
  }

  // ---------- the stored representation ----------

  datatype DomainName = DomainName(buf: bytes, ends: seq<byte>) {
    function Start(i: nat): nat
      requires i <= |ends|
    {
      if i == 0 then 0 else ends[i - 1]
    }

    // Ends strictly increase by 1 to 63 and the last one is the buffer's length.
    predicate Valid() {
      && Start(|ends|) == |buf|
      && forall i {:trigger Start(i)} | 0 <= i < |ends| ::
           Start(i) < ends[i] <= Start(i) + MAX_LABEL_LENGTH && ends[i] <= |buf|
    }

    function Slice(i: nat): (l: Label)
      requires Valid() && i < |ends|
      ensures |l| == ends[i] - Start(i)
    {
      buf[Start(i)..ends[i]]
    }

    function FirstLabels(k: nat): (ls: seq<Label>)
      requires Valid() && k <= |ends|
      ensures |ls| == k
    {
      if k == 0 then [] else FirstLabels(k - 1) + [Slice(k - 1)]
    }

    function Labels(): (ls: seq<Label>)
      requires Valid()
      ensures |ls| == |ends|
    {
      FirstLabels(|ends|)
    }

    // The label at an index, none past the last one.
    function LabelAt(i: nat): (l: Option<Label>)
      requires Valid()
      ensures l == if i < |ends| then Some(Labels()[i]) else None
    {
      if i >= |ends| then None else LabelIndex(this, i); Some(buf[Start(i)..ends[i]])
    }

    function LabelLen(i: nat): (n: nat)
      requires Valid() && i < |ends|
      ensures n == |Labels()[i]|
    {
      LabelIndex(this, i);
      ends[i] - Start(i)
    }

    predicate IsRoot() {
      ends == []
    }

    function WireLen(): nat {
      if ends == [] then 1 else |buf| + |ends| + 1
    }

    // Drops the first label; every remaining end moves down by its length.
    function Parent(): (p: DomainName)
      requires Valid()
    {
      if ends == [] then DomainName([], [])
      else
        EndsAboveFirst(this);
        DomainName(buf[ends[0]..], seq(|ends| - 1, i requires 0 <= i < |ends| - 1 => ends[i + 1] - ends[0]))
    }

    // The raw-byte test of the program: no label boundary is compared.
    predicate IsSuffixOf(other: DomainName) {
      || ends == []
      || (|ends| <= |other.ends| && |buf| <= |other.buf| && buf == other.buf[|other.buf| - |buf|..])
    }
  }

  lemma {:induction false} FirstLabelsIndex(n: DomainName, k: nat, i: nat)
    requires n.Valid() && i < k <= |n.ends|
    ensures n.FirstLabels(k)[i] == n.Slice(i)
    ensures n.FirstLabels(k)[..i] == n.FirstLabels(i)
    decreases k
  {
    if i < k - 1 {
      FirstLabelsIndex(n, k - 1, i);
    }
  }

  lemma LabelIndex(n: DomainName, i: nat)
    requires n.Valid() && i < |n.ends|
    ensures n.Labels()[i] == n.Slice(i)
    ensures n.Labels()[..i] == n.FirstLabels(i)
  {
    FirstLabelsIndex(n, |n.ends|, i);
  }

  lemma {:induction false} EndsAboveFirstUpTo(n: DomainName, k: nat)
    requires n.Valid() && k < |n.ends|
    ensures n.ends[0] <= n.ends[k] <= |n.buf|
  {
    assert n.Start(0) < n.ends[0] <= |n.buf|;
    if k > 0 {
      EndsAboveFirstUpTo(n, k - 1);
      assert n.Start(k) == n.ends[k - 1] < n.ends[k] <= |n.buf|;
    }
  }

  lemma EndsAboveFirst(n: DomainName)
    requires n.Valid()
    ensures forall k | 0 <= k < |n.ends| :: n.ends[0] <= n.ends[k] <= |n.buf|
  {
    forall k | 0 <= k < |n.ends| ensures n.ends[0] <= n.ends[k] <= |n.buf| {
      EndsAboveFirstUpTo(n, k);
    }
  }

  type Name = n: DomainName | n.Valid() witness DomainName([], [])

  // ---------- representation and label sequence determine each other ----------

  // Labels are pushed one after the other: the bytes are appended and the new
  // length becomes an end.
  function Pack(ls: seq<Label>): (n: DomainName)
    requires |Flatten(ls)| <= MAX_NAME_BYTES
    ensures n.buf == Flatten(ls) && |n.ends| == |ls|
    ensures ls != [] ==> n.ends[|ls| - 1] as int == |Flatten(ls)|
  {
    if ls == [] then DomainName([], [])
    else
      var init, last := ls[..|ls| - 1], ls[|ls| - 1];
      FlattenSnoc(init, last);
      assert init + [last] == ls;
      DomainName(Pack(init).buf + last, Pack(init).ends + [|Flatten(ls)|])
  }

  // A representation grows by pushing a label's bytes and the new length.
  lemma PackPush(ls: seq<Label>, l: Label)
    requires |Flatten(ls)| + |l| <= MAX_NAME_BYTES
    ensures |Flatten(ls + [l])| == |Flatten(ls)| + |l|
    ensures Pack(ls + [l]) == DomainName(Pack(ls).buf + l, Pack(ls).ends + [|Flatten(ls)| + |l|])
  {
    FlattenSnoc(ls, l);
    assert (ls + [l])[..|ls|] == ls;
  }

  lemma PushKeepsLabels(n: Name, m: DomainName, l: Label)
    requires 1 <= |l| <= MAX_LABEL_LENGTH && |n.buf| + |l| <= MAX_NAME_BYTES
    requires m == DomainName(n.buf + l, n.ends + [|n.buf| + |l|])
    ensures m.Valid() && m.Labels() == n.Labels() + [l]
  {
    assert n.Start(|n.ends|) == |n.buf|;
    forall i {:trigger m.Start(i)} | 0 <= i < |m.ends|
      ensures m.Start(i) < m.ends[i] <= m.Start(i) + MAX_LABEL_LENGTH && m.ends[i] <= |m.buf|
    {
      assert m.Start(i) == n.Start(i);
      if i < |n.ends| {
        assert n.Start(i) < n.ends[i] <= n.Start(i) + MAX_LABEL_LENGTH && n.ends[i] <= |n.buf|;
      }
    }
    assert m.Start(|m.ends|) == |m.buf|;
    assert m.Valid();
    PushKeepsFirst(n, m, l, |n.ends|);
    assert m.Slice(|n.ends|) == l;
  }

  lemma {:induction false} PushKeepsFirst(n: Name, m: Name, l: Label, k: nat)
    requires m.buf == n.buf + l && |m.ends| == |n.ends| + 1 && m.ends[..|n.ends|] == n.ends && k <= |n.ends|
    ensures m.FirstLabels(k) == n.FirstLabels(k)
  {
    if k > 0 {
      PushKeepsFirst(n, m, l, k - 1);
      var i := k - 1;
      assert m.ends[i] == n.ends[i] && m.Start(i) == n.Start(i);
      assert n.Start(i) < n.ends[i] <= |n.buf|;
      assert m.buf[n.Start(i)..n.ends[i]] == n.buf[n.Start(i)..n.ends[i]];
    }
  }

  // Packing well-formed labels meets the representation invariant, and reading
  // the labels back gives them unchanged.
  lemma {:induction false} PackLabels(ls: seq<Label>)
    requires WfLabels(ls)
    ensures Pack(ls).Valid() && Pack(ls).Labels() == ls
  {
    if ls != [] {
      var init, last := ls[..|ls| - 1], ls[|ls| - 1];
      assert ls == init + [last];
      FlattenSnoc(init, last);
      PackLabels(init);
      PushKeepsLabels(Pack(init), Pack(ls), last);
    }
  }

  lemma StartBound(n: Name, k: nat)
    requires k <= |n.ends|
    ensures n.Start(k) <= |n.buf| <= MAX_NAME_BYTES
  {
    if k > 0 {
      assert n.Start(k - 1) < n.ends[k - 1];
    }
  }

  lemma {:induction false} FlattenFirst(n: Name, k: nat)
    requires k <= |n.ends|
    ensures n.Start(k) <= |n.buf| && Flatten(n.FirstLabels(k)) == n.buf[..n.Start(k)]
  {
    StartBound(n, k);
    if k > 0 {
      FlattenFirst(n, k - 1);
      FlattenSnoc(n.FirstLabels(k - 1), n.Slice(k - 1));
      assert n.Start(k - 1) < n.ends[k - 1];
      assert n.buf[..n.ends[k - 1]] == n.buf[..n.Start(k - 1)] + n.Slice(k - 1);
    }
  }

  lemma {:induction false} PackFirst(n: Name, k: nat)
    requires k <= |n.ends|
    ensures |Flatten(n.FirstLabels(k))| == n.Start(k) <= |n.buf| <= MAX_NAME_BYTES
    ensures Pack(n.FirstLabels(k)).ends == n.ends[..k]
  {
    StartBound(n, k);
    FlattenFirst(n, k);
    if k > 0 {
      PackFirst(n, k - 1);
      var ls, l := n.FirstLabels(k - 1), n.Slice(k - 1);
      assert n.FirstLabels(k) == ls + [l];
      assert |Flatten(ls)| + |l| == n.ends[k - 1] as int;
      PackPush(ls, l);
      TakeOneMore(n.ends, k - 1);
    }
  }

  lemma LabelSizes(n: Name)
    ensures forall i | 0 <= i < |n.ends| :: 1 <= |n.Labels()[i]| <= MAX_LABEL_LENGTH
  {
    forall i | 0 <= i < |n.ends| ensures 1 <= |n.Labels()[i]| <= MAX_LABEL_LENGTH {
      LabelIndex(n, i);
      assert n.Start(i) < n.ends[i];
    }
  }

  // Every valid representation is the packing of its own labels, so equal
  // labels mean equal names.
  lemma LabelsPack(n: Name)
    ensures WfLabels(n.Labels()) && Pack(n.Labels()) == n
  {
    PackFirst(n, |n.ends|);
    FlattenFirst(n, |n.ends|);
    LabelSizes(n);
    assert n.Start(|n.ends|) == |n.buf|;
    assert n.buf[..|n.buf|] == n.buf && n.ends[..|n.ends|] == n.ends;
  }

  lemma SameLabelsSameName(a: Name, b: Name)
    requires a.Labels() == b.Labels()
    ensures a == b
  {
    LabelsPack(a);
    LabelsPack(b);
  }

  lemma WireLenIsWireSize(n: Name)
    ensures (LabelsPack(n); n.WireLen() == |WireOf(n.Labels())|)
  {
    LabelsPack(n);
    PrefixedLength(n.Labels());
  }

  lemma ParentStart(n: Name, i: nat)
    requires !n.IsRoot() && i <= |n.ends| - 1
    ensures n.Parent().Start(i) == n.Start(i + 1) - n.ends[0]
  {
    EndsAboveFirst(n);
  }

  lemma ParentValid(n: Name)
    requires !n.IsRoot()
    ensures n.Parent().Valid()
  {
    var p := n.Parent();
    EndsAboveFirst(n);
    forall i | 0 <= i < |p.ends|
      ensures p.Start(i) < p.ends[i] <= p.Start(i) + MAX_LABEL_LENGTH && p.ends[i] <= |p.buf|
    {
      ParentStart(n, i);
      assert n.Start(i + 1) < n.ends[i + 1] <= n.Start(i + 1) + MAX_LABEL_LENGTH;
    }
    assert n.Start(|n.ends|) == |n.buf|;
    ParentStart(n, |p.ends|);
  }

  lemma ParentSlice(n: Name, i: nat)
    requires !n.IsRoot() && n.Parent().Valid() && i < |n.ends| - 1
    ensures n.Parent().Slice(i) == n.Slice(i + 1)
  {
    hide DomainName.FirstLabels, DomainName.Labels;
    EndsAboveFirst(n);
    ParentStart(n, i);
    assert n.Start(i + 1) < n.ends[i + 1] <= |n.buf|;
  }

  lemma {:induction false} ParentFirst(n: Name, k: nat)
    requires !n.IsRoot() && n.Parent().Valid() && k <= |n.ends| - 1
    ensures n.Parent().FirstLabels(k) == n.FirstLabels(k + 1)[1..]
  {
    if k > 0 {
      ParentFirst(n, k - 1);
      ParentSlice(n, k - 1);
    }
  }

  lemma ParentDropsFirst(n: Name)
    ensures n.Parent().Valid()
    ensures n.Parent().Labels() == if n.IsRoot() then [] else n.Labels()[1..]
  {
    if !n.IsRoot() {
      ParentValid(n);
      ParentFirst(n, |n.ends| - 1);
    }
  }

  // ---------- the raw-byte suffix test ----------

  predicate LabelSuffix(a: seq<Label>, b: seq<Label>) {
    |a| <= |b| && b[|b| - |a|..] == a
  }

  // The boundaries of `a` line up with the last boundaries of `b`.
  predicate Aligned(a: Name, b: Name) {
    |a.ends| <= |b.ends| &&
    forall i | 0 <= i < |a.ends| :: a.LabelLen(i) == b.LabelLen(|b.ends| - |a.ends| + i)
  }

  lemma {:induction false} AlignedStarts(a: Name, b: Name, k: nat)
    requires Aligned(a, b) && k <= |a.ends|
    ensures |a.buf| - a.Start(|a.ends| - k) == |b.buf| - b.Start(|b.ends| - k)
  {
    if k > 0 {
      AlignedStarts(a, b, k - 1);
      var i := |a.ends| - k;
      assert a.LabelLen(i) == b.LabelLen(|b.ends| - |a.ends| + i);
    }
  }

  lemma LabelSuffixAligned(a: Name, b: Name)
    requires LabelSuffix(a.Labels(), b.Labels())
    ensures Aligned(a, b)
  {
    var d := |b.ends| - |a.ends|;
    forall i | 0 <= i < |a.ends| ensures a.LabelLen(i) == b.LabelLen(d + i) {
      assert b.Labels()[d..][i] == a.Labels()[i];
    }
  }

  lemma LabelSuffixPasses(a: Name, b: Name)
    requires LabelSuffix(a.Labels(), b.Labels())
    ensures a.IsSuffixOf(b)
  {
    var before, la := b.Labels()[..|b.ends| - |a.ends|], a.Labels();
    assert Flatten(la) == a.buf by { LabelsPack(a); }
    assert Flatten(before + la) == b.buf by {
      LabelsPack(b);
      assert b.Labels() == before + la;
    }
    FlattenConcat(before, la);
  }

  lemma AlignedLabel(a: Name, b: Name, i: nat)
    requires a.IsSuffixOf(b) && Aligned(a, b) && i < |a.ends|
    ensures b.Labels()[|b.ends| - |a.ends| + i] == a.Labels()[i]
  {
    var d := |b.ends| - |a.ends|;
    var shift := |b.buf| - |a.buf|;
    LabelIndex(a, i);
    LabelIndex(b, d + i);
    AlignedStarts(a, b, |a.ends| - i);
    assert a.LabelLen(i) == b.LabelLen(d + i);
    assert b.Start(d + i) == shift + a.Start(i) && b.ends[d + i] == shift + a.ends[i];
    PackFirst(a, i);
    assert b.buf[shift..][a.Start(i)..a.ends[i]] == b.buf[b.Start(d + i)..b.ends[d + i]];
  }

  // The test is complete for label suffixes, and it is exact once the label
  // boundaries agree.
  lemma SuffixTestExact(a: Name, b: Name)
    ensures LabelSuffix(a.Labels(), b.Labels()) <==> a.IsSuffixOf(b) && Aligned(a, b)
  {
    if LabelSuffix(a.Labels(), b.Labels()) {
      LabelSuffixAligned(a, b);
      LabelSuffixPasses(a, b);
    }
    if a.IsSuffixOf(b) && Aligned(a, b) {
      forall i | 0 <= i < |a.ends| ensures b.Labels()[|b.ends| - |a.ends|..][i] == a.Labels()[i] {
        AlignedLabel(a, b, i);
      }
    }
  }

  // "om" passes the test against "com" without being one of its label suffixes.
  lemma SuffixTestCanOverlapLabels()
    ensures var om := DomainName([111, 109], [2]);
            var com := DomainName([99, 111, 109], [3]);
            om.Valid() && com.Valid() && om.IsSuffixOf(com) && !LabelSuffix(om.Labels(), com.Labels())
  {
    var om := DomainName([111, 109], [2]);
    var com := DomainName([99, 111, 109], [3]);
    assert com.buf[1..] == om.buf;
    assert om.Valid() && com.Valid();
    assert om.Labels()[0] == [111, 109] && com.Labels()[0] == [99, 111, 109];
  }

  // ---------- building names ----------

  // Pushing labels one at a time, failing where the running length leaves a byte.
  function PushAll(acc: seq<Label>, ls: seq<Label>): (r: Result<seq<Label>>)
    decreases |ls|
  {
    if ls == [] then Ok(acc)
    else if |Flatten(acc)| + |ls[0]| > MAX_NAME_BYTES then Err(TooManyLabels(|acc|))
    else PushAll(acc + [ls[0]], ls[1..])
  }

  lemma {:induction false} PushAllResult(acc: seq<Label>, ls: seq<Label>)
    requires |Flatten(acc)| <= MAX_NAME_BYTES
    ensures PushAll(acc, ls).Ok? <==> |Flatten(acc)| + |Flatten(ls)| <= MAX_NAME_BYTES
    ensures PushAll(acc, ls).Ok? ==> PushAll(acc, ls).value == acc + ls
    decreases |ls|
  {
    if ls != [] && |Flatten(acc)| + |ls[0]| <= MAX_NAME_BYTES {
      FlattenSnoc(acc, ls[0]);
      PushAllResult(acc + [ls[0]], ls[1..]);
      assert acc + [ls[0]] + ls[1..] == acc + ls;
    } else if ls == [] {
      assert acc + ls == acc;
    }
  }

  // What the constructors collect: each label is checked, empty ones are skipped.
  function Collect(acc: seq<Label>, ls: seq<bytes>): (r: Result<seq<Label>>)
    decreases |ls|
  {
    if ls == [] then Ok(acc)
    else if |ls[0]| > MAX_LABEL_LENGTH then Err(LabelTooLong(|ls[0]|))
    else if ls[0] == [] then Collect(acc, ls[1..])
    else if |Flatten(acc)| + |ls[0]| > MAX_NAME_BYTES then Err(TooManyLabels(|acc|))
    else Collect(acc + [ls[0]], ls[1..])
  }

  function NonEmpty(ls: seq<bytes>): (r: seq<Label>)
    ensures forall i | 0 <= i < |r| :: r[i] != []
  {
    if ls == [] then [] else if ls[0] == [] then NonEmpty(ls[1..]) else [ls[0]] + NonEmpty(ls[1..])
  }

  lemma {:induction false} CollectResult(acc: seq<Label>, ls: seq<bytes>)
    requires WfLabels(acc)
    ensures Collect(acc, ls).Ok? <==>
            (forall i | 0 <= i < |ls| :: |ls[i]| <= MAX_LABEL_LENGTH)
            && |Flatten(acc)| + |Flatten(NonEmpty(ls))| <= MAX_NAME_BYTES
    ensures Collect(acc, ls).Ok? ==> Collect(acc, ls).value == acc + NonEmpty(ls) && WfLabels(acc + NonEmpty(ls))
    decreases |ls|
  {
    if ls == [] {
      assert acc + NonEmpty(ls) == acc;
    } else if |ls[0]| <= MAX_LABEL_LENGTH {
      assert forall i | 0 <= i < |ls[1..]| :: ls[1..][i] == ls[i + 1];
      if ls[0] == [] {
        CollectResult(acc, ls[1..]);
      } else if |Flatten(acc)| + |ls[0]| <= MAX_NAME_BYTES {
        FlattenSnoc(acc, ls[0]);
        CollectResult(acc + [ls[0]], ls[1..]);
        assert acc + [ls[0]] + NonEmpty(ls[1..]) == acc + NonEmpty(ls);
      }
    }
  }

  function FromLabelsSpec(ls: seq<bytes>): (r: Result<seq<Label>>) {
    var collected :- Collect([], ls);
    if |collected| > MAX_LABEL_COUNT then Err(TooManyLabels(|collected|)) else Ok(collected)
  }

  // Exactly which label lists make a name, and which name they make.
  lemma FromLabelsAccepts(ls: seq<bytes>, out: seq<Label>)
    ensures FromLabelsSpec(ls) == Ok(out) <==>
            && out == NonEmpty(ls)
            && WfLabels(out) && |Flatten(out)| <= 255
            && |out| <= 128
            && (forall i | 0 <= i < |ls| :: |ls[i]| <= 63)
  {
    CollectResult([], ls);
    assert [] + NonEmpty(ls) == NonEmpty(ls);
  }

  lemma {:induction false} CollectFrom(acc: seq<Label>, ls: seq<bytes>, i: nat)
    requires i <= |ls| && forall j | 0 <= j < i :: |ls[j]| <= 63
    requires |Flatten(acc)| + |Flatten(NonEmpty(ls[..i]))| <= 255
    ensures Collect(acc, ls) == Collect(acc + NonEmpty(ls[..i]), ls[i..])
    decreases i
  {
    if i == 0 {
      assert acc + NonEmpty(ls[..0]) == acc;
    } else {
      assert ls[..i][0] == ls[0] && ls[..i][1..] == ls[1..][..i - 1] && ls[1..][i - 1..] == ls[i..];
      if ls[0] == [] {
        CollectFrom(acc, ls[1..], i - 1);
      } else {
        FlattenSnoc(acc, ls[0]);
        CollectFrom(acc + [ls[0]], ls[1..], i - 1);
        assert acc + [ls[0]] + NonEmpty(ls[1..][..i - 1]) == acc + NonEmpty(ls[..i]);
      }
    }
  }

  // The error is about the first label that is too long or takes the name past 255
  // bytes, told with its length or with the number of labels before it;
  lemma FirstBadLabel(ls: seq<bytes>, i: nat)
    requires i < |ls| && (forall j | 0 <= j < i :: |ls[j]| <= 63) && |Flatten(NonEmpty(ls[..i]))| <= 255
    ensures |ls[i]| > 63 ==> FromLabelsSpec(ls) == Err(LabelTooLong(|ls[i]|))
    ensures |ls[i]| <= 63 && |Flatten(NonEmpty(ls[..i]))| + |ls[i]| > 255 ==>
              FromLabelsSpec(ls) == Err(TooManyLabels(|NonEmpty(ls[..i])|))
  {
    CollectFrom([], ls, i);
    assert [] + NonEmpty(ls[..i]) == NonEmpty(ls[..i]);
    assert |Flatten([])| == 0;
  }

  // otherwise it tells the number of labels, when there are more than 128.
  lemma TooManyLabelsError(ls: seq<bytes>)
    requires (forall i | 0 <= i < |ls| :: |ls[i]| <= 63) && |Flatten(NonEmpty(ls))| <= 255
    ensures |NonEmpty(ls)| > 128 ==> FromLabelsSpec(ls) == Err(TooManyLabels(|NonEmpty(ls)|))
  {
    CollectResult([], ls);
    assert [] + NonEmpty(ls) == NonEmpty(ls);
  }

  function PackResult(r: Result<seq<Label>>): (n: Result<DomainName>)
    requires r.Ok? ==> |Flatten(r.value)| <= MAX_NAME_BYTES
  {
    match r
    case Ok(ls) => Ok(Pack(ls))
    case Err(e) => Err(e)
  }

  method FromLabels(labels: seq<bytes>) returns (r: Result<DomainName>)
    ensures FromLabelsSpec(labels).Ok? ==> WfLabels(FromLabelsSpec(labels).value)
    ensures r == PackResult(FromLabelsSpec(labels))
    ensures r.Ok? ==> r.value.Valid() && r.value.Labels() == NonEmpty(labels)
  {
    var buf: bytes, ends: seq<byte> := [], [];
    ghost var acc: seq<Label> := [];
    assert Pack([]) == DomainName([], []);
    FromLabelsAccepts(labels, NonEmpty(labels));
    assert FromLabelsSpec(labels).Ok? ==> FromLabelsSpec(labels) == Ok(NonEmpty(labels)) by {
      CollectResult([], labels);
      assert [] + NonEmpty(labels) == NonEmpty(labels);
    }
    assert labels[0..] == labels;
    for i := 0 to |labels|
      invariant |Flatten(acc)| <= MAX_NAME_BYTES && Pack(acc) == DomainName(buf, ends)
      invariant Collect([], labels) == Collect(acc, labels[i..])
    {
      var l := labels[i];
      assert labels[i..][0] == l && labels[i..][1..] == labels[i + 1..];
      if |l| > MAX_LABEL_LENGTH {
        return Err(LabelTooLong(|l|));
      }
      if |l| == 0 {
        continue;
      }
      if |buf| + |l| > 0xFF {
        return Err(TooManyLabels(|ends|));
      }
      PackPush(acc, l);
      buf := buf + l;
      ends := ends + [|buf|];
      acc := acc + [l];
    }
    if |ends| > MAX_LABEL_COUNT {
      return Err(TooManyLabels(|ends|));
    }
    PackLabels(NonEmpty(labels));
    return Ok(DomainName(buf, ends));
  }

  method AppendLabel(n: Name, l: bytes) returns (r: Result<DomainName>)
    ensures r.Ok? <==> |l| <= 63 && |n.buf| + |l| <= 255 && |n.ends| < 128
    ensures r.Err? ==>
              r.error == if |l| > 63 then LabelTooLong(|l|)
                         else if |n.buf| + |l| > 255 then TooManyLabels(|n.ends|)
                         else TooManyLabels(|n.ends| + 1)
    ensures r.Ok? ==> (r.value.Valid() <==> l != [])
    ensures r.Ok? && l != [] ==> r.value.Labels() == n.Labels() + [l]
  {
    if |l| > MAX_LABEL_LENGTH {
      return Err(LabelTooLong(|l|));
    }
    var buf := n.buf + l;
    if |buf| > 0xFF {
      return Err(TooManyLabels(|n.ends|));
    }
    var ends := n.ends + [|buf|];
    if |ends| > MAX_LABEL_COUNT {
      return Err(TooManyLabels(|ends|));
    }
    var m := DomainName(buf, ends);
    if l != [] {
      PushKeepsLabels(n, m, l);
    } else {
      assert n.Start(|n.ends|) == |n.buf|;
      assert m.Start(|n.ends|) == m.ends[|n.ends|];
    }
    return Ok(m);
  }

  // ---------- writing without compression ----------

  function NameBytes(n: Name): (b: bytes) {
    LabelsPack(n);
    WireOf(n.Labels())
  }

  method WriteNameUncompressed(n: Name, writer: WireWriter)
    modifies writer
    ensures writer.buf == old(writer.buf) + NameBytes(n)
  {
    LabelsPack(n);
    ghost var ls := n.Labels();
    var prevEnd := 0;
    for i := 0 to |n.ends|
      invariant prevEnd == n.Start(i)
      invariant writer.buf == old(writer.buf) + Prefixed(ls[..i])
    {
      var end := n.ends[i];
      PrefixedTake(ls, i);
      LabelIndex(n, i);
      writer.WriteU8(n.LabelLen(i));
      writer.WriteBytes(n.buf[prevEnd..end]);
      Assoc(old(writer.buf), Prefixed(ls[..i]), [|ls[i]| as byte]);
      Assoc(old(writer.buf), Prefixed(ls[..i]) + [|ls[i]| as byte], ls[i]);
      prevEnd := end;
    }
    assert ls[..|ls|] == ls;
    writer.WriteU8(0);
    Assoc(old(writer.buf), Prefixed(ls), [0]);
  }
}
