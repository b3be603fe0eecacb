// What the compression index holds in the course of a message: exactly the
// suffixes of the names written in full, each at the offset it was written at.

module NameIndex {
  import opened Types
  import opened Wire
  import opened Names
  import opened NameRead
  import opened NameWrite

  // ---------- pointer bytes by number ----------

  // Below 0x4000, a pointer is the 16-bit number 0xC000 plus the offset.
  lemma PointerIsItsNumber(offset: nat)
    requires offset < 0x4000
    ensures PointerBytes(offset) == U16Bytes(0xC000 + offset) == [0xC0 + offset / 256, offset % 256]
  {
  }

  // ---------- registering one name ----------

  lemma SuffixOf(ls: seq<Label>, i: nat)
    requires WfLabels(ls) && i <= |ls|
    ensures WfLabels(ls[i..])
  {
    WfDrop(ls, i);
  }

  // Registration keeps what is there and adds every suffix from label `i` on.
  lemma {:induction false} RegisterKnows(ls: seq<Label>, i: nat, offset: nat, m: Offsets)
    requires WfLabels(ls) && i <= |ls|
    ensures m.Keys <= Register(ls, i, offset, m).Keys
    ensures forall k | i <= k < |ls| :: Known(ls, k, Register(ls, i, offset, m))
    decreases |ls| - i
  {
    hide SuffixHash, WfLabels;
    if i < |ls| {
      WfDrop(ls, i);
      RegisterKnows(ls, i + 1, offset + 1 + |ls[i]|, m[SuffixHash(ls[i..]) := offset]);
    }
  }

  // And nothing else.
  lemma {:induction false} RegisterOnly(ls: seq<Label>, i: nat, offset: nat, m: Offsets, h: u64)
    requires WfLabels(ls) && i <= |ls|
    requires forall k | i <= k < |ls| :: WfLabels(ls[k..]) && SuffixHash(ls[k..]) != h
    ensures h in Register(ls, i, offset, m) <==> h in m
    ensures h in m ==> Register(ls, i, offset, m)[h] == m[h]
    decreases |ls| - i
  {
    hide SuffixHash;
    if i < |ls| {
      WfDrop(ls, i);
      RegisterOnly(ls, i + 1, offset + 1 + |ls[i]|, m[SuffixHash(ls[i..]) := offset], h);
    }
  }

  lemma LabelsBefore(ls: seq<Label>, i: nat, k: nat)
    requires WfLabels(ls) && i < k <= |ls|
    ensures WfLabels(ls[i..k]) && WfLabels(ls[i + 1..k])
    ensures |Prefixed(ls[i..k])| == 1 + |ls[i]| + |Prefixed(ls[i + 1..k])|
  {
    WfDrop(ls, i);
    assert ls == ls[..i] + ls[i..] && ls[i..] == ls[i..k] + ls[k..];
    FlattenConcat(ls[i..k], ls[k..]);
    assert ls[i..k][1..] == ls[i + 1..k];
    WfDrop(ls[i..k], 1);
  }

  // Each suffix is registered where it stands.
  lemma {:induction false} RegisterWhere(ls: seq<Label>, i: nat, offset: nat, m: Offsets, k: nat,
                                         suffixes: set<seq<Label>>)
    requires WfLabels(ls) && i <= k < |ls| && CollisionFree(suffixes)
    requires forall j | i <= j < |ls| :: ls[j..] in suffixes
    ensures WfLabels(ls[k..]) && WfLabels(ls[i..k])
    ensures SuffixHash(ls[k..]) in Register(ls, i, offset, m)
    ensures Register(ls, i, offset, m)[SuffixHash(ls[k..])] == offset + |Prefixed(ls[i..k])|
    decreases |ls| - i
  {
    hide SuffixHash, Prefixed, Flatten;
    WfDrop(ls, i);
    WfDrop(ls, k);
    var h := SuffixHash(ls[i..]);
    var next := m[h := offset];
    if i == k {
      forall j | i + 1 <= j < |ls| ensures WfLabels(ls[j..]) && SuffixHash(ls[j..]) != h {
        WfDrop(ls, j);
        assert |ls[j..]| != |ls[i..]|;
      }
      RegisterOnly(ls, i + 1, offset + 1 + |ls[i]|, next, h);
      NothingBefore(ls, i);
    } else {
      RegisterWhere(ls, i + 1, offset + 1 + |ls[i]|, next, k, suffixes);
      LabelsBefore(ls, i, k);
    }
  }

  lemma NothingBefore(ls: seq<Label>, i: nat)
    requires i <= |ls|
    ensures ls[i..i] == [] && WfLabels(ls[i..i]) && Prefixed(ls[i..i]) == []
  {
  }

  // ---------- the index in the course of a message ----------

  lemma {:induction false} WriteAllSnoc(items: seq<Item>, item: Item, st: State)
    ensures WriteAll(items + [item], st) == Write(item, WriteAll(items, st))
    decreases |items|
  {
    hide Write;
    if items == [] {
      assert items + [item] == [item] && [item][1..] == [];
    } else {
      assert (items + [item])[0] == items[0] && (items + [item])[1..] == items[1..] + [item];
      WriteAllSnoc(items[1..], item, Write(items[0], st));
    }
  }

  // Item `j` is a name that was written without a pointer.
  ghost predicate InFull(items: seq<Item>, j: nat) {
    j < |items| && items[j].NameItem? && WfLabels(items[j].name.Labels())
    && Hit(items[j].name.Labels(), WriteAll(items[..j], FRESH).offsets) == |items[j].name.ends|
  }

  // And this suffix of it starts with its label `i`.
  ghost predicate Source(items: seq<Item>, j: nat, i: nat, suffix: seq<Label>) {
    InFull(items, j) && i < |items[j].name.ends| && items[j].name.Labels()[i..] == suffix
  }

  // Where that suffix stands in the message.
  function StandsIn(items: seq<Item>, j: nat, i: nat): nat
    requires j < |items| && items[j].NameItem? && i <= |items[j].name.ends|
  {
    var ls := items[j].name.Labels();
    LabelsPack(items[j].name);
    FlattenConcat(ls[..i], ls[i..]);
    assert ls == ls[..i] + ls[i..];
    |WriteAll(items[..j], FRESH).buf| + |Prefixed(ls[..i])|
  }

  lemma SourceKept(items: seq<Item>, more: seq<Item>, j: nat, i: nat, suffix: seq<Label>)
    requires j < |items|
    ensures Source(items + more, j, i, suffix) <==> Source(items, j, i, suffix)
    ensures items[j].NameItem? && i <= |items[j].name.ends| ==>
              StandsIn(items + more, j, i) == StandsIn(items, j, i)
  {
    hide WriteAll, Hit, WfLabels, DomainName.Labels, DomainName.Valid, Prefixed, Flatten;
    assert (items + more)[..j] == items[..j] && (items + more)[j] == items[j];
  }

  // In a message written from an empty index, a suffix is in the index exactly
  // when some name was written in full that ends in it, and then at the offset
  // where it stands in that name.
  lemma {:induction false} IndexIsSources(items: seq<Item>, suffixes: set<seq<Label>>, suffix: seq<Label>)
    requires CollisionFree(suffixes) && suffix in suffixes && WfLabels(suffix)
    requires forall j | 0 <= j < |items| :: SuffixesIn(items[j], suffixes)
    ensures SuffixHash(suffix) in WriteAll(items, FRESH).offsets <==> exists j, i :: Source(items, j, i, suffix)
    ensures forall j, i | Source(items, j, i, suffix) ::
              SuffixHash(suffix) in WriteAll(items, FRESH).offsets
              && WriteAll(items, FRESH).offsets[SuffixHash(suffix)] == StandsIn(items, j, i)
    decreases |items|
  {
    hide SuffixHash, WriteAll, Write, Hit, StandsIn, CollisionFree, WfLabels, DomainName.Labels, DomainName.Valid;
    if items == [] {
      NothingWritten();
    } else {
      var init, last := items[..|items| - 1], items[|items| - 1];
      assert items == init + [last];
      WriteAllSnoc(init, last, FRESH);
      IndexIsSources(init, suffixes, suffix);
      forall j, i | 0 <= j < |init| ensures Source(items, j, i, suffix) <==> Source(init, j, i, suffix) {
        SourceKept(init, [last], j, i, suffix);
      }
      forall j, i | Source(init, j, i, suffix) ensures StandsIn(items, j, i) == StandsIn(init, j, i) {
        SourceKept(init, [last], j, i, suffix);
      }
      LastItemIndexes(init, last, suffixes, suffix);
    }
  }

  lemma NothingWritten()
    ensures WriteAll([], FRESH).offsets == map[]
  {
  }

  // What the last item does to the index: raw bytes and a name written with a
  // pointer leave it, a name written in full adds its own suffixes.
  lemma LastItemIndexes(init: seq<Item>, last: Item, suffixes: set<seq<Label>>, suffix: seq<Label>)
    requires CollisionFree(suffixes) && suffix in suffixes && WfLabels(suffix) && SuffixesIn(last, suffixes)
    ensures var st, h, items := WriteAll(init, FRESH), SuffixHash(suffix), init + [last];
            var after := Write(last, st).offsets;
            && (h in after <==> h in st.offsets || exists i :: Source(items, |init|, i, suffix))
            && (h in st.offsets ==> h in after && after[h] == st.offsets[h])
            && (h in st.offsets ==> !exists i :: Source(items, |init|, i, suffix))
            && forall i | Source(items, |init|, i, suffix) :: h in after && after[h] == StandsIn(items, |init|, i)
  {
    hide SuffixHash, WriteAll, Register, Prefixed, Hit, CompressedBytes, CollisionFree, WfLabels, Source, StandsIn;
    hide DomainName.Labels, DomainName.Valid;
    var st := WriteAll(init, FRESH);
    LastSources(init, last, suffix);
    if last.NameItem? {
      LabelsPack(last.name);
      var ls := last.name.Labels();
      if Hit(ls, st.offsets) == |ls| {
        FullNameIndexes(ls, st, suffixes, suffix);
        if i: nat :| i < |ls| && ls[i..] == suffix {
          assert Source(init + [last], |init|, i, suffix);
        }
      }
    }
  }

  // The last item is a source when it is a name written in full.
  lemma LastSources(init: seq<Item>, last: Item, suffix: seq<Label>)
    ensures var items, st := init + [last], WriteAll(init, FRESH);
            if last.NameItem? then
              var ls := last.name.Labels();
              && WfLabels(ls)
              && forall i: nat ::
                   && (Source(items, |init|, i, suffix) <==>
                       Hit(ls, st.offsets) == |ls| && i < |ls| && ls[i..] == suffix)
                   && (i <= |ls| ==> WfLabels(ls[..i]) && StandsIn(items, |init|, i) == |st.buf| + |Prefixed(ls[..i])|)
            else forall i: nat :: !Source(items, |init|, i, suffix)
  {
    hide WriteAll, Hit, Prefixed, Flatten, DomainName.Labels, DomainName.Valid;
    var items := init + [last];
    assert items[|init|] == last && items[..|init|] == init;
    if last.NameItem? {
      LabelsPack(last.name);
      var ls := last.name.Labels();
      forall i: nat | i <= |ls| ensures WfLabels(ls[..i]) {
        FrontsGrow(ls, i, |ls|);
      }
    }
  }

  lemma FullNameIndexes(ls: seq<Label>, st: State, suffixes: set<seq<Label>>, suffix: seq<Label>)
    requires WfLabels(ls) && Hit(ls, st.offsets) == |ls|
    requires CollisionFree(suffixes) && suffix in suffixes && WfLabels(suffix)
    requires forall i | 0 <= i < |ls| :: ls[i..] in suffixes
    ensures var after := Register(ls, 0, |st.buf|, st.offsets);
            if exists i :: 0 <= i < |ls| && ls[i..] == suffix
            then
              && SuffixHash(suffix) !in st.offsets && SuffixHash(suffix) in after
              && forall i | 0 <= i < |ls| && ls[i..] == suffix ::
                   WfLabels(ls[..i]) && after[SuffixHash(suffix)] == |st.buf| + |Prefixed(ls[..i])|
            else
              && (SuffixHash(suffix) in after <==> SuffixHash(suffix) in st.offsets)
              && (SuffixHash(suffix) in after ==> after[SuffixHash(suffix)] == st.offsets[SuffixHash(suffix)])
  {
    hide SuffixHash, Register, Prefixed, FirstHit, Flatten;
    if exists i :: 0 <= i < |ls| && ls[i..] == suffix {
      forall i | 0 <= i < |ls| && ls[i..] == suffix
        ensures SuffixHash(suffix) !in st.offsets && SuffixHash(suffix) in Register(ls, 0, |st.buf|, st.offsets)
        ensures WfLabels(ls[..i])
        ensures Register(ls, 0, |st.buf|, st.offsets)[SuffixHash(suffix)] == |st.buf| + |Prefixed(ls[..i])|
      {
        assert ls[0..i] == ls[..i];
        RegisterWhere(ls, 0, |st.buf|, st.offsets, i, suffixes);
        assert !Known(ls, i, st.offsets);
      }
    } else {
      forall k | 0 <= k < |ls| ensures WfLabels(ls[k..]) && SuffixHash(ls[k..]) != SuffixHash(suffix) {
        WfDrop(ls, k);
      }
      RegisterOnly(ls, 0, |st.buf|, st.offsets, SuffixHash(suffix));
    }
  }

  // ---------- when a name is written with a pointer ----------

  // A name that shares a suffix with one written in full is written with a
  // pointer there or before; if no longer suffix of it was written in full, the
  // bytes are the labels before the suffix and a pointer to where it stands.
  lemma SharedSuffixIsPointed(items: seq<Item>, n: Name, suffixes: set<seq<Label>>, k: nat, j: nat, i: nat)
    requires CollisionFree(suffixes) && SuffixesIn(NameItem(n), suffixes) && k < |n.ends|
    requires forall j | 0 <= j < |items| :: SuffixesIn(items[j], suffixes)
    requires Source(items, j, i, n.Labels()[k..])
    ensures var st, ls := WriteAll(items, FRESH), n.Labels();
            && WfLabels(ls) && WfLabels(ls[..k])
            && Hit(ls, st.offsets) <= k
            && |Write(NameItem(n), st).buf| <= |st.buf| + |Prefixed(ls[..k])| + 2
            && (NoneBefore(items, ls, k) && StandsIn(items, j, i) < 0x4000 ==>
                  Write(NameItem(n), st).buf
                  == st.buf + Prefixed(ls[..k]) + [0xC0 + StandsIn(items, j, i) / 256, StandsIn(items, j, i) % 256])
  {
    hide SuffixHash, WriteAll, Register, StandsIn, CollisionFree, DomainName.Labels, DomainName.Valid, NoneBefore;
    LabelsPack(n);
    var st, ls := WriteAll(items, FRESH), n.Labels();
    SuffixOf(ls, k);
    IndexIsSources(items, suffixes, ls[k..]);
    assert Known(ls, k, st.offsets);
    var h := Hit(ls, st.offsets);
    FrontsGrow(ls, h, k);
    if NoneBefore(items, ls, k) && StandsIn(items, j, i) < 0x4000 {
      HitIsWritten(items, n, suffixes, k);
      PointerIsItsNumber(StandsIn(items, j, i));
      Assoc(st.buf, Prefixed(ls[..k]), PointerBytes(StandsIn(items, j, i)));
    }
  }

  // None of the longer suffixes was written in full.
  ghost predicate NoneBefore(items: seq<Item>, ls: seq<Label>, k: nat)
    requires k <= |ls|
  {
    forall k', j, i | 0 <= k' < k :: !Source(items, j, i, ls[k'..])
  }

  lemma HitIsWritten(items: seq<Item>, n: Name, suffixes: set<seq<Label>>, k: nat)
    requires CollisionFree(suffixes) && SuffixesIn(NameItem(n), suffixes) && k <= |n.Labels()|
    requires forall j | 0 <= j < |items| :: SuffixesIn(items[j], suffixes)
    requires WfLabels(n.Labels()) && NoneBefore(items, n.Labels(), k)
    ensures Hit(n.Labels(), WriteAll(items, FRESH).offsets) >= k
  {
    hide SuffixHash, WriteAll, Register, CollisionFree, DomainName.Labels, DomainName.Valid;
    LabelsPack(n);
    var ls := n.Labels();
    var h := Hit(ls, WriteAll(items, FRESH).offsets);
    if h < k {
      SuffixOf(ls, h);
      IndexIsSources(items, suffixes, ls[h..]);
      assert false;
    }
  }

  lemma FrontsGrow(ls: seq<Label>, h: nat, k: nat)
    requires WfLabels(ls) && h <= k <= |ls|
    ensures WfLabels(ls[..h]) && WfLabels(ls[..k]) && |Prefixed(ls[..h])| <= |Prefixed(ls[..k])|
  {
    assert ls == ls[..k] + ls[k..];
    FlattenConcat(ls[..k], ls[k..]);
    assert ls[..k] == ls[..h] + ls[h..k];
    PrefixedConcat(ls[..h], ls[h..k]);
    FlattenConcat(ls[..h], ls[h..k]);
  }

  // And only then: a name none of whose suffixes was written in full is written
  // in full itself.
  lemma NoSharedSuffixNoPointer(items: seq<Item>, n: Name, suffixes: set<seq<Label>>)
    requires CollisionFree(suffixes) && SuffixesIn(NameItem(n), suffixes)
    requires forall j | 0 <= j < |items| :: SuffixesIn(items[j], suffixes)
    requires NoneBefore(items, n.Labels(), |n.Labels()|)
    ensures var st := WriteAll(items, FRESH); Write(NameItem(n), st).buf == st.buf + NameBytes(n)
  {
    hide SuffixHash, WriteAll, Register, CollisionFree, DomainName.Labels, DomainName.Valid;
    LabelsPack(n);
    HitIsWritten(items, n, suffixes, |n.Labels()|);
  }

  lemma HashOneByte(h: u64, b: byte)
    ensures Fnv(h, [b]) == FnvStep(h, b)
  {
    var one: bytes := [b];
    assert one[1..] == [];
    assert Fnv(FnvStep(h, b), one[1..]) == FnvStep(h, b);
  }

  // The hash of the name "a": 64-bit FNV-1a over the bytes 1, 97, 0.
  lemma HashOfA()
    ensures SuffixHash([[0x61]]) == 0xd113bd1867867955
  {
    hide Fnv, FnvStep;
    WireOfA();
    var whole: bytes := [1, 0x61, 0];
    assert whole == [1] + [0x61] + [0];
    FnvConcat(FNV_OFFSET_BASIS, [1] + [0x61], [0]);
    FnvConcat(FNV_OFFSET_BASIS, [1], [0x61]);
    HashOneByte(FNV_OFFSET_BASIS, 1);
    HashOneByte(0xaf63bc4c8601b62c, 0x61);
    HashOneByte(0x82f4307b4e8c4d7, 0);
    StepsOfA();
  }

  lemma StepsOfA()
    ensures FnvStep(FNV_OFFSET_BASIS, 1) == 0xaf63bc4c8601b62c
    ensures FnvStep(0xaf63bc4c8601b62c, 0x61) == 0x82f4307b4e8c4d7
    ensures FnvStep(0x82f4307b4e8c4d7, 0) == 0xd113bd1867867955
  {
    hide Xor;
    XorValues();
  }

  lemma WireOfA()
    ensures WfLabels([[0x61]]) && WireOf([[0x61]]) == [1, 0x61, 0]
  {
    var ls: seq<Label> := [[0x61]];
    assert ls[1..] == [];
    assert Flatten(ls) == [0x61];
    assert Prefixed(ls) == [1, 0x61];
  }

  lemma XorValues()
    ensures Xor(0xcbf2_9ce4_8422_2325, 1) == 0xcbf2_9ce4_8422_2324
    ensures Xor(0xaf63bc4c8601b62c, 0x61) == 0xaf63bc4c8601b64d
    ensures Xor(0x82f4307b4e8c4d7, 0) == 0x82f4307b4e8c4d7
  {
    assert Xor(0x65f94e7242111192, 0) == 0x65f94e7242111192;
    assert Xor(0x15ec778990c036c, 0) == 0x15ec778990c036c;
    assert Xor(0x2bd8ef1321806d8, 1) == 0x2bd8ef1321806d9;
    assert Xor(0x57b1de264300db1, 3) == 0x57b1de264300db2;
    assert Xor(0xaf63bc4c8601b62, 6) == 0xaf63bc4c8601b64;
    assert Xor(0x15ec778990c036c5, 12) == 0x15ec778990c036c9;
    assert Xor(0x2bd8ef1321806d8b, 24) == 0x2bd8ef1321806d93;
    assert Xor(0x57b1de264300db16, 48) == 0x57b1de264300db26;
    assert Xor(0xaf63bc4c8601b62c, 97) == 0xaf63bc4c8601b64d;
  }
}
