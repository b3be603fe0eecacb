// Writing names with compression: a map from suffix hashes to the offsets where
// those suffixes were first written in full.

module NameWrite {
  import opened Types
  import opened Wire
  import opened Names
  import opened NameRead

  const POINTER_LIMIT: nat := 0x4000

  // ---------- the suffix hash (64-bit FNV-1a over the suffix's wire form) ----------

  type u64 = x: int | 0 <= x < 0x1_0000_0000_0000_0000

  const FNV_OFFSET_BASIS: u64 := 0xcbf2_9ce4_8422_2325
  const FNV_PRIME: u64 := 0x100_0000_01b3

  // Bitwise exclusive or, bit by bit from the lowest.
  function Xor(a: nat, b: nat): nat
    decreases a + b
  {
    if b == 0 then a
    else (if a % 2 == b % 2 then 0 else 1) + 2 * Xor(a / 2, b / 2)
  }

  // Exclusive or with the byte, then a wrapping multiplication.
  function FnvStep(h: u64, b: byte): u64 {
    (Xor(h, b) as int * FNV_PRIME as int) % 0x1_0000_0000_0000_0000
  }

  function Fnv(h: u64, data: bytes): u64
    decreases |data|
  {
    if data == [] then h else Fnv(FnvStep(h, data[0]), data[1..])
  }

  lemma {:induction false} FnvConcat(h: u64, a: bytes, b: bytes)
    ensures Fnv(h, a + b) == Fnv(Fnv(h, a), b)
    decreases |a|
  {
    if a == [] {
      assert a + b == b;
    } else {
      FnvConcat(FnvStep(h, a[0]), a[1..], b);
      assert (a + b)[1..] == a[1..] + b;
    }
  }

  lemma FnvByte(h: u64, a: bytes, b: byte)
    ensures Fnv(h, a + [b]) == FnvStep(Fnv(h, a), b)
  {
    FnvConcat(h, a, [b]);
  }

  function SuffixHash(ls: seq<Label>): u64
    requires WfLabels(ls)
  {
    Fnv(FNV_OFFSET_BASIS, WireOf(ls))
  }

  method HashLabel(h0: u64, l: Label) returns (h: u64)
    requires |l| < 0x100
    ensures h == Fnv(h0, [|l| as byte] + l)
  {
    ghost var head := [|l| as byte];
    h := FnvStep(h0, |l|);
    for k := 0 to |l|
      invariant h == Fnv(h0, head + l[..k])
    {
      h := FnvStep(h, l[k]);
      FnvByte(h0, head + l[..k], l[k]);
      assert l[..k + 1] == l[..k] + [l[k]];
      Assoc(head, l[..k], [l[k]]);
    }
    assert l[..|l|] == l;
  }

  lemma HashOneMore(ls: seq<Label>, k: nat)
    requires WfLabels(ls) && k < |ls|
    ensures Fnv(FNV_OFFSET_BASIS, Prefixed(ls[..k + 1]))
         == Fnv(Fnv(FNV_OFFSET_BASIS, Prefixed(ls[..k])), [|ls[k]| as byte] + ls[k])
  {
    var l := ls[k];
    PrefixedTake(ls, k);
    Assoc(Prefixed(ls[..k]), [|l| as byte], l);
    FnvConcat(FNV_OFFSET_BASIS, Prefixed(ls[..k]), [|l| as byte] + l);
  }

  lemma HashStarts(ls: seq<Label>)
    requires WfLabels(ls)
    ensures Fnv(FNV_OFFSET_BASIS, Prefixed(ls[..0])) == FNV_OFFSET_BASIS
  {
    assert ls[..0] == [];
  }

  // The running hash of the program, from label `start` to the root terminator.
  method SuffixHashFrom(n: Name, start: nat) returns (h: u64)
    requires start <= |n.ends|
    ensures WfLabels(n.Labels()[start..]) && h == SuffixHash(n.Labels()[start..])
  {
    hide Fnv, FnvStep, Prefixed, Flatten, Pack, SuffixHash, DomainName.Labels, DomainName.FirstLabels;
    LabelsPack(n);
    WfDrop(n.Labels(), start);
    ghost var ls := n.Labels()[start..];
    HashStarts(ls);
    h := FNV_OFFSET_BASIS;
    var prevEnd := n.Start(start);
    for i := start to |n.ends|
      invariant prevEnd == n.Start(i)
      invariant h == Fnv(FNV_OFFSET_BASIS, Prefixed(ls[..i - start]))
    {
      LabelIndex(n, i);
      HashOneMore(ls, i - start);
      h := HashLabel(h, n.buf[prevEnd..n.ends[i]]);
      prevEnd := n.ends[i];
    }
    HashEnds(ls);
    h := FnvStep(h, 0);
  }

  lemma HashEnds(ls: seq<Label>)
    requires WfLabels(ls)
    ensures SuffixHash(ls) == FnvStep(Fnv(FNV_OFFSET_BASIS, Prefixed(ls[..|ls|])), 0)
  {
    assert ls[..|ls|] == ls;
    FnvByte(FNV_OFFSET_BASIS, Prefixed(ls), 0);
  }

  // ---------- what one write does ----------

  type Offsets = map<u64, nat>

  predicate Known(ls: seq<Label>, i: nat, m: Offsets)
    requires WfLabels(ls) && i <= |ls|
  {
    WfDrop(ls, i);
    SuffixHash(ls[i..]) in m
  }

  // The first label whose suffix is in the map, the label count if there is none.
  function FirstHit(ls: seq<Label>, m: Offsets, from: nat): (i: nat)
    requires WfLabels(ls) && from <= |ls|
    ensures from <= i <= |ls|
    ensures i < |ls| ==> Known(ls, i, m)
    ensures forall k | from <= k < i :: !Known(ls, k, m)
    decreases |ls| - from
  {
    if from == |ls| then |ls| else if Known(ls, from, m) then from else FirstHit(ls, m, from + 1)
  }

  function Hit(ls: seq<Label>, m: Offsets): (i: nat)
    requires WfLabels(ls)
    ensures i <= |ls|
  {
    FirstHit(ls, m, 0)
  }

  function HitOffset(ls: seq<Label>, m: Offsets): nat
    requires WfLabels(ls) && Hit(ls, m) < |ls|
  {
    WfDrop(ls, Hit(ls, m));
    m[SuffixHash(ls[Hit(ls, m)..])]
  }

  // The offset is cut to 16 bits and then to the 14 bits a pointer holds.
  function PointerBytes(offset: nat): (b: bytes)
    ensures |b| == 2
  {
    var v := offset % 0x1_0000;
    [0xC0 + v / 0x100 % 0x40, v % 0x100]
  }

  lemma PointerBytesTarget(offset: nat)
    ensures var b := PointerBytes(offset);
            b[0] >= 0xC0 && PointerTarget(b[0], b[1]) == offset % POINTER_LIMIT
  {
    var v := offset % 0x1_0000;
    var a, b := v / 0x100, v % 0x100;
    LowBits(offset / 0x1_0000 * 4 + a / 0x40, a % 0x40 * 0x100 + b);
    assert v == (a / 0x40 * 0x40 + a % 0x40) * 0x100 + b;
    assert offset == offset / 0x1_0000 * 0x1_0000 + v;
  }

  lemma LowBits(q: nat, r: nat)
    requires r < POINTER_LIMIT
    ensures (q * 0x4000 + r) % 0x4000 == r
  {
  }

  function CompressedBytes(ls: seq<Label>, m: Offsets): (b: bytes)
    requires WfLabels(ls)
  {
    var i := Hit(ls, m);
    if i < |ls| then Prefixed(ls[..i]) + PointerBytes(HitOffset(ls, m)) else WireOf(ls)
  }

  // Records where each suffix from label `i` on starts.
  function Register(ls: seq<Label>, i: nat, offset: nat, m: Offsets): Offsets
    requires WfLabels(ls) && i <= |ls|
    decreases |ls| - i
  {
    if i == |ls| then m
    else
      WfDrop(ls, i);
      Register(ls, i + 1, offset + 1 + |ls[i]|, m[SuffixHash(ls[i..]) := offset])
  }

  function OffsetsAfter(ls: seq<Label>, base: nat, m: Offsets): Offsets
    requires WfLabels(ls)
  {
    if Hit(ls, m) < |ls| then m else Register(ls, 0, base, m)
  }

  class CompressionMap {
    var offsets: Offsets

    constructor ()
      ensures offsets == map[]
    {
      offsets := map[];
    }
  }

  // The labels before the compressible suffix.
  method WriteLabelsBefore(n: Name, count: nat, writer: WireWriter)
    requires count <= |n.ends|
    modifies writer
    ensures WfLabels(n.Labels())
    ensures writer.buf == old(writer.buf) + Prefixed(n.Labels()[..count])
  {
    LabelsPack(n);
    ghost var ls := n.Labels();
    for j := 0 to count
      invariant writer.buf == old(writer.buf) + Prefixed(ls[..j])
    {
      var l := n.LabelAt(j).value;
      assert |l| == n.LabelLen(j);
      writer.WriteU8(|l|);
      writer.WriteBytes(l);
      PrefixedTake(ls, j);
      Assoc(old(writer.buf), Prefixed(ls[..j]), [|l| as byte]);
      Assoc(old(writer.buf), Prefixed(ls[..j]) + [|l| as byte], l);
    }
  }

  method WritePointer(offset: nat, writer: WireWriter)
    modifies writer
    ensures writer.buf == old(writer.buf) + PointerBytes(offset)
  {
    var pointerVal := offset % 0x1_0000;
    writer.WriteU8(0xC0 + pointerVal / 0x100 % 0x40);
    writer.WriteU8(pointerVal % 0x100);
  }

  method RegisterSuffixes(n: Name, baseOffset: nat, cmap: CompressionMap)
    modifies cmap
    ensures WfLabels(n.Labels())
    ensures cmap.offsets == Register(n.Labels(), 0, baseOffset, old(cmap.offsets))
  {
    hide SuffixHash, Flatten, WfLabels, Pack, DomainName.Labels, DomainName.Valid;
    LabelsPack(n);
    ghost var ls := n.Labels();
    var labelOffset: nat := baseOffset;
    for i := 0 to |n.ends|
      invariant Register(ls, 0, baseOffset, old(cmap.offsets)) == Register(ls, i, labelOffset, cmap.offsets)
    {
      var hash := SuffixHashFrom(n, i);
      cmap.offsets := cmap.offsets[hash := labelOffset];
      labelOffset := labelOffset + 1 + n.LabelLen(i);
    }
  }

  method WriteNameCompressed(n: Name, writer: WireWriter, cmap: CompressionMap) returns (written: nat)
    modifies writer, cmap
    ensures WfLabels(n.Labels())
    ensures writer.buf == old(writer.buf) + CompressedBytes(n.Labels(), old(cmap.offsets))
    ensures cmap.offsets == OffsetsAfter(n.Labels(), |old(writer.buf)|, old(cmap.offsets))
    ensures written == |writer.buf| - |old(writer.buf)|
  {
    LabelsPack(n);
    ghost var ls := n.Labels();
    var baseOffset := |writer.buf|;
    for i := 0 to |n.ends|
      invariant FirstHit(ls, cmap.offsets, 0) == FirstHit(ls, cmap.offsets, i)
      invariant writer.buf == old(writer.buf) && cmap.offsets == old(cmap.offsets)
    {
      var hash := SuffixHashFrom(n, i);
      if hash in cmap.offsets {
        var offset := cmap.offsets[hash];
        WriteLabelsBefore(n, i, writer);
        WritePointer(offset, writer);
        Assoc(old(writer.buf), Prefixed(ls[..i]), PointerBytes(offset));
        return |writer.buf| - baseOffset;
      }
    }
    WriteNameUncompressed(n, writer);
    RegisterSuffixes(n, baseOffset, cmap);
    return |writer.buf| - baseOffset;
  }

  // A pointer always pays: the output is never longer than the plain form and
  // strictly shorter as soon as a pointer is used.
  lemma CompressionShortens(ls: seq<Label>, m: Offsets)
    requires WfLabels(ls)
    ensures |CompressedBytes(ls, m)| <= |WireOf(ls)|
    ensures Hit(ls, m) < |ls| <==> |CompressedBytes(ls, m)| < |WireOf(ls)|
  {
    var i := Hit(ls, m);
    assert ls == ls[..i] + ls[i..];
    PrefixedConcat(ls[..i], ls[i..]);
    if i < |ls| {
      PrefixedLength(ls[i..]);
      assert Flatten(ls[i..]) == ls[i..][0] + Flatten(ls[i..][1..]);
    }
  }

  // ---------- a whole message: names and other bytes in any order ----------

  datatype Item = NameItem(name: Name) | RawItem(data: bytes)

  datatype State = State(buf: bytes, offsets: Offsets)

  const FRESH: State := State([], map[])

  function Write(item: Item, st: State): State {
    match item
    case RawItem(data) => State(st.buf + data, st.offsets)
    case NameItem(n) =>
      LabelsPack(n);
      State(st.buf + CompressedBytes(n.Labels(), st.offsets), OffsetsAfter(n.Labels(), |st.buf|, st.offsets))
  }

  function WriteAll(items: seq<Item>, st: State): State
    decreases |items|
  {
    if items == [] then st else WriteAll(items[1..], Write(items[0], st))
  }

  // No two of the given suffixes share a hash.
  predicate CollisionFree(suffixes: set<seq<Label>>) {
    forall a, b | a in suffixes && b in suffixes ::
      WfLabels(a) && WfLabels(b) && SuffixHash(a) == SuffixHash(b) ==> a == b
  }

  predicate SuffixesIn(item: Item, suffixes: set<seq<Label>>) {
    item.NameItem? ==> forall i | 0 <= i < |item.name.ends| :: item.name.Labels()[i..] in suffixes
  }

  // Every pointer written has its target in the 14 bits a pointer holds.
  predicate PointersFit(items: seq<Item>, st: State)
    decreases |items|
  {
    items != [] ==>
      && PointerFits(items[0], st)
      && PointersFit(items[1..], Write(items[0], st))
  }

  predicate PointerFits(item: Item, st: State) {
    item.NameItem? ==>
      (LabelsPack(item.name);
       var ls := item.name.Labels();
       Hit(ls, st.offsets) < |ls| ==> HitOffset(ls, st.offsets) < POINTER_LIMIT)
  }

  // `who` names the suffix behind each hash in the map, and that suffix stands
  // in full at the recorded offset.
  ghost predicate Indexed(st: State, who: map<u64, seq<Label>>, suffixes: set<seq<Label>>) {
    forall h | h in st.offsets ::
      h in who && StandsAt(st.buf, st.offsets[h], who[h]) && who[h] in suffixes && SuffixHash(who[h]) == h
  }

  ghost predicate StandsAt(buf: bytes, offset: nat, ls: seq<Label>) {
    WfLabels(ls) && At(buf, offset, WireOf(ls))
  }

  lemma AtAppended(buf: bytes, part: bytes)
    ensures At(buf + part, |buf|, part)
  {
  }

  lemma AtExtends(buf: bytes, more: bytes, pos: nat, part: bytes)
    requires At(buf, pos, part)
    ensures At(buf + more, pos, part)
  {
    assert (buf + more)[pos..pos + |part|] == buf[pos..pos + |part|];
  }

  lemma IndexedExtends(st: State, more: bytes, who: map<u64, seq<Label>>, suffixes: set<seq<Label>>)
    requires Indexed(st, who, suffixes)
    ensures Indexed(State(st.buf + more, st.offsets), who, suffixes)
  {
    forall h | h in st.offsets ensures StandsAt(st.buf + more, st.offsets[h], who[h]) {
      AtExtends(st.buf, more, st.offsets[h], WireOf(who[h]));
    }
  }

  lemma {:induction false} RegisterIndexes(
    ls: seq<Label>, i: nat, offset: nat, st: State, who: map<u64, seq<Label>>, suffixes: set<seq<Label>>)
    returns (after: map<u64, seq<Label>>)
    requires WfLabels(ls) && i <= |ls| && Indexed(st, who, suffixes)
    requires forall k | i <= k < |ls| :: ls[k..] in suffixes
    requires At(st.buf, offset, WireOf(ls[i..]))
    ensures Indexed(State(st.buf, Register(ls, i, offset, st.offsets)), after, suffixes)
    decreases |ls| - i
  {
    if i == |ls| {
      after := who;
    } else {
      WfDrop(ls, i);
      var h := SuffixHash(ls[i..]);
      var l := ls[i];
      DropOne(ls, i);
      assert WireOf(ls[i..]) == ([|l| as byte] + l) + WireOf(ls[i + 1..]) by {
        Assoc([|l| as byte] + l, Prefixed(ls[i + 1..]), [0]);
      }
      AtSplit(st.buf, offset, [|l| as byte] + l, WireOf(ls[i + 1..]));
      after := RegisterIndexes(ls, i + 1, offset + 1 + |l|, State(st.buf, st.offsets[h := offset]),
                               who[h := ls[i..]], suffixes);
    }
  }

  lemma WriteKeepsIndex(item: Item, st: State, who: map<u64, seq<Label>>, suffixes: set<seq<Label>>)
    returns (after: map<u64, seq<Label>>)
    requires Indexed(st, who, suffixes) && SuffixesIn(item, suffixes)
    ensures Indexed(Write(item, st), after, suffixes)
  {
    hide WireOf, Prefixed, Flatten, Pack, SuffixHash, WfLabels, Indexed, Hit, HitOffset, Register, At;
    hide DomainName.Labels, DomainName.Valid;
    after := who;
    match item
    case RawItem(data) =>
      IndexedExtends(st, data, who, suffixes);
    case NameItem(n) =>
      LabelsPack(n);
      var ls := n.Labels();
      IndexedExtends(st, CompressedBytes(ls, st.offsets), who, suffixes);
      if Hit(ls, st.offsets) == |ls| {
        var buf := st.buf + WireOf(ls);
        assert ls[0..] == ls;
        AtAppended(st.buf, WireOf(ls));
        after := RegisterIndexes(ls, 0, |st.buf|, State(buf, st.offsets), who, suffixes);
      }
  }

  ghost predicate ReadsAs(msg: bytes, pos: nat, ls: seq<Label>, next: nat, jumps: nat, d: Derivation) {
    d.pos == pos && Derives(msg, d) && Meaning(msg, d) == ls && Jumps(d) <= jumps && EndOf(d) == next
  }

  // The labels before a pointer stand where they were written, the pointer after them.
  lemma HitLayout(n: Name, st: State, more: bytes)
    requires WfLabels(n.Labels()) && Hit(n.Labels(), st.offsets) < |n.ends|
    ensures var ls, msg := n.Labels(), Write(NameItem(n), st).buf + more;
            var i := Hit(ls, st.offsets);
            && WfLabels(ls[..i])
            && At(msg, |st.buf|, Prefixed(ls[..i]))
            && IsPointerAt(msg, |st.buf| + |Prefixed(ls[..i])|)
            && PointerTarget(msg[|st.buf| + |Prefixed(ls[..i])|], msg[|st.buf| + |Prefixed(ls[..i])| + 1])
               == HitOffset(ls, st.offsets) % POINTER_LIMIT
            && |st.buf| + |Prefixed(ls[..i])| + 2 == |Write(NameItem(n), st).buf|
  {
    hide Flatten, Pack, SuffixHash, Hit, HitOffset, PointerBytes, Prefixed, WireOf, Register, At, IsPointerAt;
    hide DomainName.Labels, DomainName.Valid;
    var ls := n.Labels();
    var i := Hit(ls, st.offsets);
    var pre, ptr := Prefixed(ls[..i]), PointerBytes(HitOffset(ls, st.offsets));
    assert ls == ls[..i] + ls[i..];
    FlattenConcat(ls[..i], ls[i..]);
    var buf := Write(NameItem(n), st).buf;
    assert buf == st.buf + (pre + ptr);
    AtAppended(st.buf, pre + ptr);
    AtExtends(buf, more, |st.buf|, pre + ptr);
    AtSplit(buf + more, |st.buf|, pre, ptr);
    PointerStands(buf + more, |st.buf| + |pre|, HitOffset(ls, st.offsets));
  }

  lemma PointerStands(msg: bytes, pos: nat, offset: nat)
    requires At(msg, pos, PointerBytes(offset))
    ensures IsPointerAt(msg, pos) && PointerTarget(msg[pos], msg[pos + 1]) == offset % POINTER_LIMIT
  {
    hide PointerTarget;
    PointerBytesTarget(offset);
    AtIndex(msg, pos, PointerBytes(offset), 0);
    AtIndex(msg, pos, PointerBytes(offset), 1);
  }

  // The suffix found in the map stands in full at its offset.
  lemma HitStands(n: Name, st: State, who: map<u64, seq<Label>>, suffixes: set<seq<Label>>)
    requires WfLabels(n.Labels()) && Hit(n.Labels(), st.offsets) < |n.ends|
    requires Indexed(st, who, suffixes) && CollisionFree(suffixes) && SuffixesIn(NameItem(n), suffixes)
    ensures StandsAt(st.buf, HitOffset(n.Labels(), st.offsets), n.Labels()[Hit(n.Labels(), st.offsets)..])
  {
    var i := Hit(n.Labels(), st.offsets);
    WfDrop(n.Labels(), i);
    assert who[SuffixHash(n.Labels()[i..])] == n.Labels()[i..];
  }

  // One write read back, whatever is written after it: at most one jump.
  lemma WriteReadsBack(n: Name, st: State, who: map<u64, seq<Label>>, suffixes: set<seq<Label>>, more: bytes)
    returns (d: Derivation)
    requires Indexed(st, who, suffixes) && CollisionFree(suffixes)
    requires SuffixesIn(NameItem(n), suffixes) && PointerFits(NameItem(n), st)
    ensures ReadsAs(Write(NameItem(n), st).buf + more, |st.buf|, n.Labels(), |Write(NameItem(n), st).buf|, 1, d)
  {
    LabelsPack(n);
    if Hit(n.Labels(), st.offsets) == |n.ends| {
      var buf := Write(NameItem(n), st).buf;
      assert At(buf, |st.buf|, WireOf(n.Labels()));
      AtExtends(buf, more, |st.buf|, WireOf(n.Labels()));
      d := UncompressedDerives(buf + more, |st.buf|, n.Labels());
    } else {
      HitStands(n, st, who, suffixes);
      d := PointerReadsBack(n, st, more);
    }
  }

  // From the pointer's target on, the walk goes as the target does.
  lemma ThroughPointer(n: Name, st: State, more: bytes, target: Derivation) returns (d: Derivation)
    requires WfLabels(n.Labels()) && Hit(n.Labels(), st.offsets) < |n.ends|
    requires Derives(Write(NameItem(n), st).buf + more, target)
    requires target.pos == HitOffset(n.Labels(), st.offsets) % POINTER_LIMIT
    requires Meaning(Write(NameItem(n), st).buf + more, target) == n.Labels()[Hit(n.Labels(), st.offsets)..]
    ensures ReadsAs(Write(NameItem(n), st).buf + more, |st.buf|, n.Labels(),
                    |Write(NameItem(n), st).buf|, Jumps(target) + 1, d)
  {
    hide Flatten, Pack, SuffixHash, Hit, HitOffset, Register, CompressedBytes, Prefixed, WireOf, At;
    hide DomainName.Labels, DomainName.Valid;
    HitLayout(n, st, more);
    var msg := Write(NameItem(n), st).buf + more;
    d := LabelsThenPointer(msg, |st.buf|, n.Labels(), Hit(n.Labels(), st.offsets), target);
  }

  lemma LabelsThenPointer(msg: bytes, pos: nat, ls: seq<Label>, i: nat, target: Derivation) returns (d: Derivation)
    requires i <= |ls| && WfLabels(ls[..i]) && At(msg, pos, Prefixed(ls[..i]))
    requires var at := pos + |Prefixed(ls[..i])|;
             IsPointerAt(msg, at) && PointerTarget(msg[at], msg[at + 1]) == target.pos
    requires Derives(msg, target) && Meaning(msg, target) == ls[i..]
    ensures ReadsAs(msg, pos, ls, pos + |Prefixed(ls[..i])| + 2, Jumps(target) + 1, d)
  {
    hide Prefixed, Flatten, At, IsLabelAt;
    d := PrependLabels(msg, pos, ls[..i], Pointed(pos + |Prefixed(ls[..i])|, target));
    assert ls[..i] + ls[i..] == ls;
  }

  lemma SmallTarget(n: Name, st: State)
    requires WfLabels(n.Labels()) && Hit(n.Labels(), st.offsets) < |n.ends| && PointerFits(NameItem(n), st)
    ensures HitOffset(n.Labels(), st.offsets) % POINTER_LIMIT == HitOffset(n.Labels(), st.offsets)
  {
  }

  lemma PointerReadsBack(n: Name, st: State, more: bytes) returns (d: Derivation)
    requires WfLabels(n.Labels()) && Hit(n.Labels(), st.offsets) < |n.ends| && PointerFits(NameItem(n), st)
    requires StandsAt(st.buf, HitOffset(n.Labels(), st.offsets), n.Labels()[Hit(n.Labels(), st.offsets)..])
    ensures ReadsAs(Write(NameItem(n), st).buf + more, |st.buf|, n.Labels(), |Write(NameItem(n), st).buf|, 1, d)
  {
    hide WireOf, Flatten, Pack, SuffixHash, Hit, HitOffset, Register, At, DomainName.Labels, DomainName.Valid;
    SmallTarget(n, st);
    var buf, suffix := Write(NameItem(n), st).buf, n.Labels()[Hit(n.Labels(), st.offsets)..];
    var off := HitOffset(n.Labels(), st.offsets);
    AtExtends(st.buf, CompressedBytes(n.Labels(), st.offsets), off, WireOf(suffix));
    AtExtends(buf, more, off, WireOf(suffix));
    var target := UncompressedDerives(buf + more, off, suffix);
    d := ThroughPointer(n, st, more, target);
  }

  lemma {:induction false} WriteAllExtends(items: seq<Item>, st: State) returns (more: bytes)
    ensures WriteAll(items, st).buf == st.buf + more
    decreases |items|
  {
    if items == [] {
      more := [];
      assert st.buf + [] == st.buf;
    } else {
      var st' := Write(items[0], st);
      var rest := WriteAllExtends(items[1..], st');
      var added := st'.buf[|st.buf|..];
      assert st'.buf == st.buf + added;
      more := added + rest;
      Assoc(st.buf, added, rest);
    }
  }

  lemma {:induction false} RunFrom(
    items: seq<Item>, st: State, who: map<u64, seq<Label>>, suffixes: set<seq<Label>>, k: nat)
    returns (d: Derivation)
    requires Indexed(st, who, suffixes) && CollisionFree(suffixes)
    requires forall j | 0 <= j < |items| :: SuffixesIn(items[j], suffixes)
    requires PointersFit(items, st)
    requires k < |items| && items[k].NameItem?
    ensures ReadsAs(WriteAll(items, st).buf, |WriteAll(items[..k], st).buf|, items[k].name.Labels(),
                    |WriteAll(items[..k + 1], st).buf|, 1, d)
    decreases |items|
  {
    var st' := Write(items[0], st);
    assert items[..k + 1][1..] == items[1..][..k];
    if k == 0 {
      var more := WriteAllExtends(items[1..], st');
      d := WriteReadsBack(items[0].name, st, who, suffixes, more);
    } else {
      var after := WriteKeepsIndex(items[0], st, who, suffixes);
      assert items[..k][1..] == items[1..][..k - 1];
      d := RunFrom(items[1..], st', after, suffixes, k - 1);
    }
  }

  // Every name of a message written from an empty map reads back at its start,
  // ends right after the bytes its write produced, and takes at most one jump.
  lemma CompressedMessageReadsBack(items: seq<Item>, suffixes: set<seq<Label>>, k: nat)
    requires forall j | 0 <= j < |items| :: SuffixesIn(items[j], suffixes)
    requires CollisionFree(suffixes) && PointersFit(items, FRESH)
    requires k < |items| && items[k].NameItem?
    ensures var msg := WriteAll(items, FRESH).buf;
            var before, after := WriteAll(items[..k], FRESH), WriteAll(items[..k + 1], FRESH);
            && ReadNameAt(msg, |before.buf|) == Ok((items[k].name, |after.buf|))
            && exists d :: ReadsAs(msg, |before.buf|, items[k].name.Labels(), |after.buf|, 1, d)
  {
    var d := RunFrom(items, FRESH, map[], suffixes, k);
    DerivedNameIsRead(WriteAll(items, FRESH).buf, d, items[k].name);
  }

  // When a pointer is written, whatever the recorded offset: the name reads back
  // exactly when the suffix can be read at the offset's low 14 bits.
  lemma PointerReadsBackIff(n: Name, st: State, more: bytes)
    requires WfLabels(n.Labels()) && Hit(n.Labels(), st.offsets) < |n.ends|
    ensures var msg, i := Write(NameItem(n), st).buf + more, Hit(n.Labels(), st.offsets);
            ReadNameAt(msg, |st.buf|) == Ok((n, |Write(NameItem(n), st).buf|)) <==>
            exists d :: TargetReads(msg, HitOffset(n.Labels(), st.offsets) % POINTER_LIMIT, n.Labels()[i..], d)
  {
    hide Write, WfLabels, SuffixHash, Hit, HitOffset, Flatten, Pack, ReadNameAt, Derives, Meaning;
    hide DomainName.Labels, DomainName.Valid;
    var st' := Write(NameItem(n), st);
    var msg, i := st'.buf + more, Hit(n.Labels(), st.offsets);
    var at := HitOffset(n.Labels(), st.offsets) % POINTER_LIMIT;
    if ReadNameAt(msg, |st.buf|) == Ok((n, |st'.buf|)) {
      var d := TargetOfRead(n, st, more);
      assert TargetReads(msg, at, n.Labels()[i..], d);
    }
    if target :| TargetReads(msg, at, n.Labels()[i..], target) {
      var d := ThroughPointer(n, st, more, target);
      DerivedNameIsRead(msg, d, n);
    }
  }

  // What a name read back through its pointer says of the target.
  lemma TargetOfRead(n: Name, st: State, more: bytes) returns (d: Derivation)
    requires WfLabels(n.Labels()) && Hit(n.Labels(), st.offsets) < |n.ends|
    requires var st' := Write(NameItem(n), st); ReadNameAt(st'.buf + more, |st.buf|) == Ok((n, |st'.buf|))
    ensures TargetReads(Write(NameItem(n), st).buf + more, HitOffset(n.Labels(), st.offsets) % POINTER_LIMIT,
                        n.Labels()[Hit(n.Labels(), st.offsets)..], d)
  {
    hide Write, SuffixHash, Hit, HitOffset, Flatten, Pack, ReadNameAt, Prefixed, At;
    hide DomainName.Labels, DomainName.Valid;
    var ls, i := n.Labels(), Hit(n.Labels(), st.offsets);
    var st' := Write(NameItem(n), st);
    HitLayout(n, st, more);
    var whole := ReadNameIsDerived(st'.buf + more, |st.buf|, n, |st'.buf|);
    var tail := DropLabels(st'.buf + more, |st.buf|, ls[..i], whole);
    assert tail.Pointed?;
    d := tail.rest;
    assert ls == ls[..i] + ls[i..];
    SamePrefix(ls[..i], Meaning(st'.buf + more, tail), ls[i..]);
  }

  lemma SamePrefix(a: seq<Label>, b: seq<Label>, c: seq<Label>)
    requires a + b == a + c
    ensures b == c
  {
    assert b == (a + b)[|a|..] && c == (a + c)[|a|..];
  }

  ghost predicate TargetReads(msg: bytes, pos: nat, ls: seq<Label>, d: Derivation) {
    d.pos == pos && Derives(msg, d) && Jumps(d) < MAX_JUMPS && Meaning(msg, d) == ls
  }

  // What the map holds after the first name of one label, and what a second
  // write of it then finds.
  lemma OneLabelHit(n: Name, offset: nat)
    requires WfLabels(n.Labels()) && |n.Labels()| == 1
    ensures Hit(n.Labels(), map[]) == 1
    ensures var m := OffsetsAfter(n.Labels(), offset, map[]);
            Hit(n.Labels(), m) == 0 && HitOffset(n.Labels(), m) == offset
  {
    var ls := n.Labels();
    assert ls[0..] == ls;
    assert FirstHit(ls, map[], 0) == 1;
    assert Register(ls, 0, offset, map[]) == map[SuffixHash(ls) := offset];
  }

  // 0x4000 bytes that start with a root byte, then a name of one label written
  // twice: the second write's pointer holds only the low 14 bits of the offset,
  // leads to the root byte, and the name reads back as the root.
  lemma FarPointerReadsAsRoot(raw: bytes, n: Name)
    requires |raw| == POINTER_LIMIT && raw[0] == 0 && |n.ends| == 1
    ensures var once := WriteAll([RawItem(raw), NameItem(n)], FRESH);
            var twice := WriteAll([RawItem(raw), NameItem(n), NameItem(n)], FRESH);
            ReadNameAt(twice.buf, |once.buf|) == Ok((DomainName([], []), |twice.buf|))
  {
    hide SuffixHash, Flatten, Prefixed, WireOf, Pack, WfLabels, Hit, HitOffset, OffsetsAfter, CompressedBytes;
    hide IsPointerAt, DomainName.Labels, DomainName.Valid;
    LabelsPack(n);
    OneLabelHit(n, |raw|);
    var st1 := Write(RawItem(raw), FRESH);
    assert st1.buf == raw;
    var st2 := Write(NameItem(n), st1);
    var st3 := Write(NameItem(n), st2);
    WriteThree(raw, n);
    HitLayout(n, st2, []);
    assert st3.buf + [] == st3.buf;
    NoLabels(n.Labels());
    RootByteKept(raw, st3.buf);
    RootIsRead(st3.buf, |st2.buf|);
  }

  lemma NoLabels(ls: seq<Label>)
    ensures ls[..0] == [] && Prefixed([]) == []
  {
  }

  lemma WriteThree(raw: bytes, n: Name)
    ensures var st1 := Write(RawItem(raw), FRESH);
            && WriteAll([RawItem(raw), NameItem(n)], FRESH) == Write(NameItem(n), st1)
            && WriteAll([RawItem(raw), NameItem(n), NameItem(n)], FRESH) == Write(NameItem(n), Write(NameItem(n), st1))
            && raw <= Write(NameItem(n), Write(NameItem(n), st1)).buf
  {
    hide Write;
    WriteExtends(RawItem(raw), FRESH);
    var st1 := Write(RawItem(raw), FRESH);
    WriteExtends(NameItem(n), st1);
    WriteExtends(NameItem(n), Write(NameItem(n), st1));
    RawIsWritten(raw);
    var one: seq<Item> := [NameItem(n)];
    var two: seq<Item> := [NameItem(n), NameItem(n)];
    assert one[1..] == [] && two[1..] == one;
    assert [RawItem(raw), NameItem(n)][1..] == one && [RawItem(raw), NameItem(n), NameItem(n)][1..] == two;
    assert WriteAll(one, st1) == Write(NameItem(n), st1);
    assert WriteAll(two, st1) == WriteAll(one, Write(NameItem(n), st1));
  }

  lemma RawIsWritten(raw: bytes)
    ensures Write(RawItem(raw), FRESH).buf == raw
  {
    assert [] + raw == raw;
  }

  lemma WriteExtends(item: Item, st: State)
    ensures st.buf <= Write(item, st).buf
  {
  }

  lemma RootByteKept(raw: bytes, msg: bytes)
    requires raw != [] && raw[0] == 0 && raw <= msg
    ensures Derives(msg, Root(0)) && Meaning(msg, Root(0)) == []
  {
  }

  lemma RootIsRead(msg: bytes, pos: nat)
    requires IsPointerAt(msg, pos) && PointerTarget(msg[pos], msg[pos + 1]) == 0 && Derives(msg, Root(0))
    ensures ReadNameAt(msg, pos) == Ok((DomainName([], []), pos + 2))
  {
    var d := Pointed(pos, Root(0));
    assert Derives(msg, d) && Meaning(msg, d) == [] && Jumps(d) == 1;
    DerivedNameIsRead(msg, d, DomainName([], []));
  }
}
