/**
 * The whole assembler run of assem.py:386-601 on values: the title check,
 * the header, the loop over parsed lines, the two placement phases over
 * the finished fragments, label resolution and the final image.  The
 * theorems say where every fragment ends up and what the image holds.
 */
module Driver {
  import opened Common
  import opened Operands
  import opened Layout
  import opened Linker
  import opened Sections

  // ---------------------------------------------------------------------
  // The fragments as the two phases see them

  /** The fixed-offset fragments from index `i` on, in order (assem.py:453). */
  function FixedPieces(frags: seq<Fragment>, i: nat): (r: seq<Piece>)
    ensures forall j :: 0 <= j < |r| ==>
      i <= r[j].index < |frags| && frags[r[j].index].offset != -1 &&
      r[j].offset == frags[r[j].index].offset && r[j].size == |frags[r[j].index].data|
    ensures forall j, j' :: 0 <= j < j' < |r| ==> r[j].index < r[j'].index
    decreases |frags| - i
  {
    if i >= |frags| then []
    else (if frags[i].offset != -1 then [Piece(i, frags[i].offset, |frags[i].data|)] else []) + FixedPieces(frags, i + 1)
  }

  /** The floating fragments from index `i` on, in order (assem.py:522). */
  function FloatingItems(frags: seq<Fragment>, i: nat): (r: seq<Floating>)
    ensures forall j :: 0 <= j < |r| ==>
      i <= r[j].index < |frags| && frags[r[j].index].offset == -1 && r[j].size == |frags[r[j].index].data|
    ensures forall j, j' :: 0 <= j < j' < |r| ==> r[j].index < r[j'].index
    decreases |frags| - i
  {
    if i >= |frags| then []
    else (if frags[i].offset == -1 then [Floating(i, |frags[i].data|)] else []) + FloatingItems(frags, i + 1)
  }

  /** Every fixed fragment is among the pieces of phase 1. */
  lemma {:induction false} FixedPiecesAll(frags: seq<Fragment>, i: nat, k: nat) returns (j: nat)
    requires i <= k < |frags| && frags[k].offset != -1
    ensures j < |FixedPieces(frags, i)| && FixedPieces(frags, i)[j].index == k
    decreases |frags| - i
  {
    var head: seq<Piece> := if frags[i].offset != -1 then [Piece(i, frags[i].offset, |frags[i].data|)] else [];
    assert FixedPieces(frags, i) == head + FixedPieces(frags, i + 1);
    if k == i {
      j := 0;
    } else {
      var j' := FixedPiecesAll(frags, i + 1, k);
      j := |head| + j';
    }
  }

  /** Every floating fragment is among the items of phase 2. */
  lemma {:induction false} FloatingItemsAll(frags: seq<Fragment>, i: nat, k: nat) returns (j: nat)
    requires i <= k < |frags| && frags[k].offset == -1
    ensures j < |FloatingItems(frags, i)| && FloatingItems(frags, i)[j].index == k
    decreases |frags| - i
  {
    var head: seq<Floating> := if frags[i].offset == -1 then [Floating(i, |frags[i].data|)] else [];
    assert FloatingItems(frags, i) == head + FloatingItems(frags, i + 1);
    if k == i {
      j := 0;
    } else {
      var j' := FloatingItemsAll(frags, i + 1, k);
      j := |head| + j';
    }
  }

  /** `frag['offset'] = byte_offset` for each floating fragment in turn. */
  function SetOffsets(frags: seq<Fragment>, items: seq<Floating>, at: seq<nat>): (r: seq<Fragment>)
    requires |at| == |items|
    requires forall j :: 0 <= j < |items| ==> items[j].index < |frags|
    ensures |r| == |frags|
    ensures forall k :: 0 <= k < |frags| ==> r[k].data == frags[k].data
    decreases |items|
  {
    if items == [] then frags
    else
      var k := items[0].index;
      SetOffsets(frags[k := frags[k].(offset := at[0])], items[1..], at[1..])
  }

  /**
   * After phase 2 a floating fragment has the offset it was given, and a
   * fragment phase 2 did not touch keeps its own.
   */
  lemma {:induction false} SetOffsetsAt(frags: seq<Fragment>, items: seq<Floating>, at: seq<nat>, k: nat)
    requires |at| == |items|
    requires forall j :: 0 <= j < |items| ==> items[j].index < |frags|
    requires forall j, j' :: 0 <= j < j' < |items| ==> items[j].index < items[j'].index
    requires k < |frags|
    ensures forall j :: 0 <= j < |items| && items[j].index == k ==> SetOffsets(frags, items, at)[k].offset == at[j]
    ensures (forall j :: 0 <= j < |items| ==> items[j].index != k) ==> SetOffsets(frags, items, at)[k].offset == frags[k].offset
    decreases |items|
  {
    if items != [] {
      var i0 := items[0].index;
      var frags' := frags[i0 := frags[i0].(offset := at[0])];
      assert forall j :: 0 <= j < |items[1..]| ==> items[1..][j] == items[j + 1];
      SetOffsetsAt(frags', items[1..], at[1..], k);
      if i0 == k {
        assert forall j :: 0 < j < |items| ==> items[j].index != k;
      }
    }
  }

  function Datas(frags: seq<Fragment>): (r: seq<seq<byte>>)
    ensures |r| == |frags| && forall k :: 0 <= k < |frags| ==> r[k] == frags[k].data
  {
    seq(|frags|, k requires 0 <= k < |frags| => frags[k].data)
  }

  function Offsets(frags: seq<Fragment>): (r: seq<int>)
    ensures |r| == |frags| && forall k :: 0 <= k < |frags| ==> r[k] == frags[k].offset
  {
    seq(|frags|, k requires 0 <= k < |frags| => frags[k].offset)
  }

  // ---------------------------------------------------------------------
  // Placement

  /** The layout after both phases, the count of phase 1 errors, and the fragments with their final offsets. */
  datatype Arrangement = Arrangement(layout: seq<Slot>, errors: nat, crashed: bool, placed: seq<Fragment>)

  /**
   * Phase 1 from the layout `[1]` of assem.py:448, then, if it reported
   * nothing, phase 2 and the offsets it hands out.
   */
  function Arrange(frags: seq<Fragment>): Arrangement {
    var p1 := FixedPass([Free(1)], FixedPieces(frags, 0));
    if p1.crashed || p1.errors > 0 then Arrangement(p1.layout, p1.errors, p1.crashed, frags)
    else
      var items := FloatingItems(frags, 0);
      var p2 := FloatPass(p1.layout, items);
      Arrangement(p2.layout, 0, false, SetOffsets(frags, items, p2.at))
  }

  /**
   * What phase 1 needs: every fixed fragment after the header at an even
   * offset past the header, and no two fixed fragments sharing a byte.
   */
  ghost predicate FixedFit(frags: seq<Fragment>)
    requires frags != []
  {
    (forall k :: 1 <= k < |frags| && frags[k].offset != -1 ==>
       frags[k].offset >= |frags[0].data| && frags[k].offset % 2 == 0) &&
    (forall k, k' :: 1 <= k < k' < |frags| && frags[k].offset != -1 && frags[k'].offset != -1 ==>
       frags[k].offset + |frags[k].data| <= frags[k'].offset || frags[k'].offset + |frags[k'].data| <= frags[k].offset)
  }

  /** Fragments as the driver produces them: the header first at offset 0, none empty. */
  ghost predicate Produced(frags: seq<Fragment>) {
    frags != [] && frags[0].offset == 0 && forall k :: 0 <= k < |frags| ==> |frags[k].data| > 0
  }

  /** Placing the header turns the layout `[1]` into the header alone. */
  lemma HeaderPlaced(n0: nat, rest: seq<Piece>)
    requires n0 > 0
    ensures FixedPass([Free(1)], [Piece(0, 0, n0)] + rest) == FixedPass([Frag(0, n0)], rest)
  {
    assert ScanFixed([Free(1)], 0, n0, 0) == Placed(Pad(0) + [Frag(0, n0)] + Pad(1 - n0) + []);
    assert Pad(0) + [Frag(0, n0)] + Pad(1 - n0) + [] == [Frag(0, n0)];
    assert ([Piece(0, 0, n0)] + rest)[1..] == rest;
  }

  /** The header is the first piece of phase 1 and leaves the header alone in the layout. */
  lemma HeaderFirst(frags: seq<Fragment>)
    requires Produced(frags)
    ensures FixedPass([Free(1)], FixedPieces(frags, 0)) == FixedPass([Frag(0, |frags[0].data|)], FixedPieces(frags, 1))
  {
    assert FixedPieces(frags, 0) == [Piece(0, 0, |frags[0].data|)] + FixedPieces(frags, 1);
    HeaderPlaced(|frags[0].data|, FixedPieces(frags, 1));
  }

  /** With only the header placed, a range is free exactly when it starts past the header. */
  lemma HeaderRangeFree(n0: nat, o: int, n: nat)
    requires o >= 0 && n > 0
    ensures RangeFree([Frag(0, n0)], o, n) <==> o >= n0
  {
    if o < n0 {
      assert Cell([Frag(0, n0)], o).Some?;
    } else {
      forall x | o <= x < o + n ensures Cell([Frag(0, n0)], x).None? {
        CellBeyond([Frag(0, n0)], x);
      }
    }
  }

  /** Fixed fragments that fit pass phase 1. */
  lemma FitsPass(frags: seq<Fragment>)
    requires Produced(frags) && FixedFit(frags)
    ensures Arrange(frags).errors == 0 && !Arrange(frags).crashed
  {
    HeaderFirst(frags);
    HeaderAllFit(frags);
    FixedPassSound([Frag(0, |frags[0].data|)], FixedPieces(frags, 1));
  }

  /** Fixed fragments that fit all fit beside the header. */
  lemma HeaderAllFit(frags: seq<Fragment>)
    requires Produced(frags) && FixedFit(frags)
    ensures Sane(FixedPieces(frags, 1)) && AllFit([Frag(0, |frags[0].data|)], FixedPieces(frags, 1))
  {
    var n0 := |frags[0].data|;
    var l0 := [Frag(0, n0)];
    var rest := FixedPieces(frags, 1);
    assert Sane(rest);
    forall j | 0 <= j < |rest| ensures rest[j].offset % 2 == 0 && RangeFree(l0, rest[j].offset, rest[j].size) {
      HeaderRangeFree(n0, rest[j].offset, rest[j].size);
    }
    forall j, j' | 0 <= j < j' < |rest| ensures !Intersect(rest[j], rest[j']) {
      var k, k' := rest[j].index, rest[j'].index;
      assert frags[k].offset + |frags[k].data| <= frags[k'].offset || frags[k'].offset + |frags[k'].data| <= frags[k].offset;
    }
  }

  /** Phase 1 without errors is phase 1 from the header alone without errors. */
  lemma PassClean(frags: seq<Fragment>)
    requires Produced(frags)
    requires Arrange(frags).errors == 0 && !Arrange(frags).crashed
    ensures FixedPass([Frag(0, |frags[0].data|)], FixedPieces(frags, 1)).errors == 0
    ensures !FixedPass([Frag(0, |frags[0].data|)], FixedPieces(frags, 1)).crashed
  {
    HeaderFirst(frags);
  }

  /** Phase 1 without errors saw every fixed fragment after the header fit beside the header. */
  lemma PassAllFit(l0: seq<Slot>, rest: seq<Piece>)
    requires |l0| == 1 && l0[0].Frag? && l0[0].size > 0
    requires forall j :: 0 <= j < |rest| ==> rest[j].size > 0
    requires FixedPass(l0, rest).errors == 0 && !FixedPass(l0, rest).crashed
    ensures Sane(rest) && AllFit(l0, rest)
  {
    FixedPassSane(l0, rest);
    FixedPassSound(l0, rest);
  }

  /** Fixed fragments that all fit beside the header fit. */
  lemma AllFitFits(frags: seq<Fragment>)
    requires Produced(frags)
    requires Sane(FixedPieces(frags, 1)) && AllFit([Frag(0, |frags[0].data|)], FixedPieces(frags, 1))
    ensures FixedFit(frags)
  {
    var n0 := |frags[0].data|;
    var rest := FixedPieces(frags, 1);
    forall k | 1 <= k < |frags| && frags[k].offset != -1
      ensures frags[k].offset >= n0 && frags[k].offset % 2 == 0
    {
      var j := FixedPiecesAll(frags, 1, k);
      HeaderRangeFree(n0, rest[j].offset, rest[j].size);
    }
    forall k, k' | 1 <= k < k' < |frags| && frags[k].offset != -1 && frags[k'].offset != -1
      ensures frags[k].offset + |frags[k].data| <= frags[k'].offset || frags[k'].offset + |frags[k'].data| <= frags[k].offset
    {
      var j := FixedPiecesAll(frags, 1, k);
      var j' := FixedPiecesAll(frags, 1, k');
      assert !Intersect(rest[j], rest[j']);
    }
  }

  /** Fixed fragments that pass phase 1 fit. */
  lemma PassFits(frags: seq<Fragment>)
    requires Produced(frags)
    requires Arrange(frags).errors == 0 && !Arrange(frags).crashed
    ensures FixedFit(frags)
  {
    PassClean(frags);
    PassAllFit([Frag(0, |frags[0].data|)], FixedPieces(frags, 1));
    AllFitFits(frags);
  }

  /** Phase 1 reports nothing exactly when the fixed fragments fit. */
  lemma ArrangeFixed(frags: seq<Fragment>)
    requires Produced(frags)
    ensures (Arrange(frags).errors == 0 && !Arrange(frags).crashed) <==> FixedFit(frags)
  {
    if FixedFit(frags) {
      FitsPass(frags);
    }
    if Arrange(frags).errors == 0 && !Arrange(frags).crashed {
      PassFits(frags);
    }
  }

  /** Phase 1 never raises on the fragments a run produces. */
  lemma ArrangeNoCrash(frags: seq<Fragment>)
    requires Produced(frags)
    ensures !Arrange(frags).crashed
  {
    HeaderFirst(frags);
    var l0, rest := [Frag(0, |frags[0].data|)], FixedPieces(frags, 1);
    assert Wellformed(l0);
    assert forall j :: 0 <= j < |rest| ==> rest[j].size > 0;
    FixedPassNoCrash(l0, rest);
    assert !FixedPass([Free(1)], FixedPieces(frags, 0)).crashed;
  }

  /** The layout phase 1 leaves. */
  function PhaseOne(frags: seq<Fragment>): seq<Slot> {
    FixedPass([Free(1)], FixedPieces(frags, 0)).layout
  }

  /** When the fixed fragments fit, phase 1 keeps the layout well-formed and puts each at its offset. */
  lemma PhaseOneSound(frags: seq<Fragment>)
    requires Produced(frags) && FixedFit(frags)
    ensures Wellformed(PhaseOne(frags))
    ensures forall k :: 0 <= k < |frags| && frags[k].offset != -1 ==>
      Holds(PhaseOne(frags), k, frags[k].offset, |frags[k].data|)
  {
    PhaseOnePass(frags);
    forall k | 0 <= k < |frags| && frags[k].offset != -1
      ensures Holds(PhaseOne(frags), k, frags[k].offset, |frags[k].data|)
    {
      PhaseOneAt(frags, k);
    }
  }

  /** Phase 1 from the header alone places every fixed piece after it and keeps the header. */
  lemma PhaseOnePass(frags: seq<Fragment>)
    requires Produced(frags) && FixedFit(frags)
    ensures PhaseOne(frags) == FixedPass([Frag(0, |frags[0].data|)], FixedPieces(frags, 1)).layout
    ensures Wellformed(PhaseOne(frags)) && Keeps([Frag(0, |frags[0].data|)], PhaseOne(frags))
    ensures forall j :: 0 <= j < |FixedPieces(frags, 1)| ==>
      Holds(PhaseOne(frags), FixedPieces(frags, 1)[j].index, FixedPieces(frags, 1)[j].offset, FixedPieces(frags, 1)[j].size)
  {
    var l0, rest := [Frag(0, |frags[0].data|)], FixedPieces(frags, 1);
    HeaderFirst(frags);
    HeaderAllFit(frags);
    assert Wellformed(l0);
    FixedPassSound(l0, rest);
  }

  /** Phase 1 puts fixed fragment `k` at its offset. */
  lemma PhaseOneAt(frags: seq<Fragment>, k: nat)
    requires Produced(frags) && FixedFit(frags) && k < |frags| && frags[k].offset != -1
    ensures Holds(PhaseOne(frags), k, frags[k].offset, |frags[k].data|)
  {
    PhaseOnePass(frags);
    var n0 := |frags[0].data|;
    var l0 := [Frag(0, n0)];
    if k == 0 {
      assert Holds(l0, 0, 0, n0) by {
        forall d | 0 <= d < n0 ensures Cell(l0, d) == Some(Pos(0, d)) {
          CellCons(Frag(0, n0), [], d);
        }
      }
      KeepsHolds(l0, PhaseOne(frags), 0, 0, n0);
    } else {
      var rest := FixedPieces(frags, 1);
      var j := FixedPiecesAll(frags, 1, k);
      assert Holds(PhaseOne(frags), rest[j].index, rest[j].offset, rest[j].size);
    }
  }

  /**
   * When the fixed fragments fit, both phases leave a well-formed layout
   * that names the fragments at their lengths, and the fragments keep
   * their bytes.
   */
  lemma ArrangeShape(frags: seq<Fragment>)
    requires Produced(frags) && FixedFit(frags)
    ensures Arrange(frags).errors == 0 && !Arrange(frags).crashed
    ensures Wellformed(Arrange(frags).layout)
    ensures Consistent(Arrange(frags).layout, Datas(frags))
    ensures |Arrange(frags).placed| == |frags|
    ensures forall k :: 0 <= k < |frags| ==> Arrange(frags).placed[k].data == frags[k].data
  {
    ArrangeSplit(frags);
    FixedPassConsistent([Free(1)], FixedPieces(frags, 0), Datas(frags));
    FloatPassConsistent(PhaseOne(frags), FloatingItems(frags, 0), Datas(frags));
  }

  /**
   * Where fragment `k` ends up: at a non-negative offset, the one it asked
   * for if it asked, and byte for byte in the layout.
   */
  lemma ArrangeAt(frags: seq<Fragment>, k: nat)
    requires Produced(frags) && FixedFit(frags) && k < |frags|
    ensures |Arrange(frags).placed| == |frags|
    ensures Arrange(frags).placed[k].offset >= 0
    ensures frags[k].offset != -1 ==> Arrange(frags).placed[k].offset == frags[k].offset
    ensures Holds(Arrange(frags).layout, k, Arrange(frags).placed[k].offset, |frags[k].data|)
  {
    if frags[k].offset == -1 {
      ArrangeFloating(frags, k);
    } else {
      ArrangeFixedAt(frags, k);
    }
  }

  /** Phase 2 from the layout phase 1 leaves. */
  function PhaseTwo(frags: seq<Fragment>): FloatResult {
    FloatPass(PhaseOne(frags), FloatingItems(frags, 0))
  }

  /** When the fixed fragments fit, placement is phase 2 after phase 1. */
  lemma ArrangeSplit(frags: seq<Fragment>)
    requires Produced(frags) && FixedFit(frags)
    ensures Wellformed(PhaseOne(frags))
    ensures Wellformed(PhaseTwo(frags).layout) && Keeps(PhaseOne(frags), PhaseTwo(frags).layout)
    ensures |PhaseTwo(frags).at| == |FloatingItems(frags, 0)|
    ensures Arrange(frags) ==
      Arrangement(PhaseTwo(frags).layout, 0, false, SetOffsets(frags, FloatingItems(frags, 0), PhaseTwo(frags).at))
  {
    FitsPass(frags);
    PhaseOnePass(frags);
    FloatPassSound(PhaseOne(frags), FloatingItems(frags, 0));
  }

  /** A floating fragment sits where phase 2 put it. */
  lemma ArrangeFloating(frags: seq<Fragment>, k: nat)
    requires Produced(frags) && FixedFit(frags) && k < |frags| && frags[k].offset == -1
    ensures |Arrange(frags).placed| == |frags|
    ensures Arrange(frags).placed[k].offset >= 0
    ensures Holds(Arrange(frags).layout, k, Arrange(frags).placed[k].offset, |frags[k].data|)
  {
    ArrangeSplit(frags);
    var items := FloatingItems(frags, 0);
    var p2 := PhaseTwo(frags);
    FloatPassSound(PhaseOne(frags), items);
    var j := FloatingItemsAll(frags, 0, k);
    SetOffsetsAt(frags, items, p2.at, k);
    assert Arrange(frags).placed[k].offset == p2.at[j];
    assert Holds(p2.layout, items[j].index, p2.at[j], items[j].size);
  }

  /** A fixed fragment stays at its own offset. */
  lemma ArrangeFixedAt(frags: seq<Fragment>, k: nat)
    requires Produced(frags) && FixedFit(frags) && k < |frags| && frags[k].offset != -1
    ensures |Arrange(frags).placed| == |frags|
    ensures Arrange(frags).placed[k].offset == frags[k].offset >= 0
    ensures Holds(Arrange(frags).layout, k, frags[k].offset, |frags[k].data|)
  {
    ArrangeSplit(frags);
    PhaseOneAt(frags, k);
    var items := FloatingItems(frags, 0);
    SetOffsetsAt(frags, items, PhaseTwo(frags).at, k);
    assert forall j :: 0 <= j < |items| ==> items[j].index != k;
    KeepsHolds(PhaseOne(frags), PhaseTwo(frags).layout, k, frags[k].offset, |frags[k].data|);
    if k > 0 {
      assert frags[k].offset >= |frags[0].data|;
    }
  }

  // ---------------------------------------------------------------------
  // Resolution, the image, the whole run

  /** How a run ends. */
  datatype Outcome =
    | TitleTooLong               // assem.py:393-395, exit status 0, nothing written
    | EncodingErrors(count: nat) // lines rejected, exit status 1
    | Misplaced(count: nat)      // phase 1 errors, exit status 1
    | Unresolved(count: nat)     // relocations naming no label, exit status 1
    | Crashed(reason: string)    // an exception nothing catches
    | Written(image: seq<byte>)  // the bytes of the output file

  /** The fragments, labels and relocations a run of the line loop hands to the linker. */
  ghost predicate Linkable(frags: seq<Fragment>, relocs: seq<Reloc>) {
    Produced(frags) && InRange(Datas(frags), relocs)
  }

  /** The image is well defined: the layout names the resolved fragments at their lengths. */
  lemma LinkConsistent(frags: seq<Fragment>, labels: map<string, LabelLoc>, relocs: seq<Reloc>)
    requires Linkable(frags, relocs)
    requires Arrange(frags).errors == 0 && !Arrange(frags).crashed
    requires Resolve(Datas(Arrange(frags).placed), Offsets(Arrange(frags).placed), labels, relocs).Resolved?
    ensures Consistent(Arrange(frags).layout,
                       Resolve(Datas(Arrange(frags).placed), Offsets(Arrange(frags).placed), labels, relocs).datas)
  {
    PassFits(frags);
    ArrangeShape(frags);
    var a := Arrange(frags);
    assert Datas(a.placed) == Datas(frags);
    ResolveLengths(Datas(a.placed), Offsets(a.placed), labels, relocs);
  }

  /** Phases 1 and 2, label resolution and the image (assem.py:440-599). */
  function Link(frags: seq<Fragment>, labels: map<string, LabelLoc>, relocs: seq<Reloc>): Outcome
    requires Linkable(frags, relocs)
  {
    var a := Arrange(frags);
    if a.crashed then Crashed("'int' object is not subscriptable")
    else if a.errors > 0 then Misplaced(a.errors)
    else
      match Resolve(Datas(a.placed), Offsets(a.placed), labels, relocs)
      case ResolveCrash(reason) => Crashed(reason)
      case Resolved(datas, missing) =>
        if missing > 0 then Unresolved(missing)
        else
          LinkConsistent(frags, labels, relocs);
          Written(Image(a.layout, datas))
  }

  /** The relocation pass as the linker runs it, on the fragments at their final offsets. */
  function Resolution(frags: seq<Fragment>, labels: map<string, LabelLoc>, relocs: seq<Reloc>): Linker.Resolution {
    Resolve(Datas(Arrange(frags).placed), Offsets(Arrange(frags).placed), labels, relocs)
  }

  /** A written image is the image of the final layout over the resolved fragments. */
  lemma LinkWritten(frags: seq<Fragment>, labels: map<string, LabelLoc>, relocs: seq<Reloc>)
    requires Linkable(frags, relocs)
    requires Link(frags, labels, relocs).Written?
    ensures Arrange(frags).errors == 0 && !Arrange(frags).crashed
    ensures Resolution(frags, labels, relocs).Resolved? && Resolution(frags, labels, relocs).missing == 0
    ensures Consistent(Arrange(frags).layout, Resolution(frags, labels, relocs).datas)
    ensures Link(frags, labels, relocs).image == Image(Arrange(frags).layout, Resolution(frags, labels, relocs).datas)
  {
    LinkConsistent(frags, labels, relocs);
  }

  /**
   * When the ROM is written, fragment `k` sits at a non-negative offset,
   * its own if it asked for one, and the layout holds its bytes there.
   */
  lemma LinkPlaced(frags: seq<Fragment>, labels: map<string, LabelLoc>, relocs: seq<Reloc>, k: nat)
    requires Linkable(frags, relocs)
    requires Link(frags, labels, relocs).Written?
    requires k < |frags|
    ensures |Arrange(frags).placed| == |frags|
    ensures Arrange(frags).placed[k].offset >= 0
    ensures frags[k].offset != -1 ==> Arrange(frags).placed[k].offset == frags[k].offset
    ensures Holds(Arrange(frags).layout, k, Arrange(frags).placed[k].offset, |frags[k].data|)
  {
    LinkWritten(frags, labels, relocs);
    PassFits(frags);
    ArrangeAt(frags, k);
  }

  /** Resolution works on the fragments' own data and keeps every length. */
  lemma ResolutionShape(frags: seq<Fragment>, labels: map<string, LabelLoc>, relocs: seq<Reloc>)
    requires Linkable(frags, relocs)
    requires Arrange(frags).errors == 0 && !Arrange(frags).crashed
    requires Resolution(frags, labels, relocs).Resolved?
    ensures Datas(Arrange(frags).placed) == Datas(frags)
    ensures |Resolution(frags, labels, relocs).datas| == |frags|
    ensures forall k :: 0 <= k < |frags| ==> |Resolution(frags, labels, relocs).datas[k]| == |frags[k].data|
  {
    PassFits(frags);
    ArrangeShape(frags);
    var a := Arrange(frags);
    assert Datas(a.placed) == Datas(frags);
    ResolveLengths(Datas(a.placed), Offsets(a.placed), labels, relocs);
  }

  /** Byte `d` of fragment `k` after resolution is the image byte at the fragment's offset plus `d`. */
  lemma ImageHolds(frags: seq<Fragment>, labels: map<string, LabelLoc>, relocs: seq<Reloc>, k: nat, d: nat)
    requires Linkable(frags, relocs)
    requires Link(frags, labels, relocs).Written?
    requires k < |frags| && d < |frags[k].data|
    ensures |Arrange(frags).placed| == |frags|
    ensures Resolution(frags, labels, relocs).Resolved?
    ensures k < |Resolution(frags, labels, relocs).datas| && d < |Resolution(frags, labels, relocs).datas[k]|
    ensures 0 <= Arrange(frags).placed[k].offset + d < |Link(frags, labels, relocs).image|
    ensures Link(frags, labels, relocs).image[Arrange(frags).placed[k].offset + d] ==
      Resolution(frags, labels, relocs).datas[k][d]
  {
    LinkWritten(frags, labels, relocs);
    LinkPlaced(frags, labels, relocs, k);
    ResolutionShape(frags, labels, relocs);
    var a := Arrange(frags);
    ImageHeld(a.layout, Resolution(frags, labels, relocs).datas, k, a.placed[k].offset, |frags[k].data|, d);
  }

  /** A byte no relocation covers comes out of resolution as assembled. */
  lemma ResolutionKeeps(frags: seq<Fragment>, labels: map<string, LabelLoc>, relocs: seq<Reloc>, k: nat, d: nat)
    requires Linkable(frags, relocs)
    requires Arrange(frags).errors == 0 && !Arrange(frags).crashed
    requires Resolution(frags, labels, relocs).Resolved?
    requires k < |frags| && d < |frags[k].data|
    requires forall i :: 0 <= i < |relocs| ==> !Covers(relocs[i], k, d)
    ensures k < |Resolution(frags, labels, relocs).datas| && d < |Resolution(frags, labels, relocs).datas[k]|
    ensures Resolution(frags, labels, relocs).datas[k][d] == frags[k].data[d]
  {
    ResolutionShape(frags, labels, relocs);
    var a := Arrange(frags);
    ResolveKeepsAt(Datas(a.placed), Offsets(a.placed), labels, relocs, k, d);
  }

  /**
   * When every label is defined, the two bytes of relocation `i` come out
   * of resolution as the big-endian address of its label.
   */
  lemma ResolutionPatches(frags: seq<Fragment>, labels: map<string, LabelLoc>, relocs: seq<Reloc>, i: nat)
    requires Linkable(frags, relocs) && Apart(relocs)
    requires Arrange(frags).errors == 0 && !Arrange(frags).crashed
    requires Resolution(frags, labels, relocs).Resolved? && Resolution(frags, labels, relocs).missing == 0
    requires i < |relocs|
    ensures |Arrange(frags).placed| == |frags|
    ensures Lookup(labels, relocs[i].target).Some? && Lookup(labels, relocs[i].target).value.frag < |frags|
    ensures relocs[i].frag < |Resolution(frags, labels, relocs).datas|
    ensures relocs[i].pos + 2 <= |Resolution(frags, labels, relocs).datas[relocs[i].frag]|
    ensures Resolution(frags, labels, relocs).datas[relocs[i].frag][relocs[i].pos..relocs[i].pos + 2] ==
      Word(Arrange(frags).placed[Lookup(labels, relocs[i].target).value.frag].offset +
           Lookup(labels, relocs[i].target).value.pos)
  {
    ResolutionShape(frags, labels, relocs);
    var a := Arrange(frags);
    ResolvePatched(Datas(a.placed), Offsets(a.placed), labels, relocs, i);
    var loc := Lookup(labels, relocs[i].target).value;
    assert Target(Offsets(a.placed), loc) == a.placed[loc.frag].offset + loc.pos;
  }

  /** In a written image a byte no relocation covers is the assembled byte, at the fragment's final offset. */
  lemma LinkKeeps(frags: seq<Fragment>, labels: map<string, LabelLoc>, relocs: seq<Reloc>, k: nat, d: nat)
    requires Linkable(frags, relocs)
    requires Link(frags, labels, relocs).Written?
    requires k < |frags| && d < |frags[k].data|
    requires forall i :: 0 <= i < |relocs| ==> !Covers(relocs[i], k, d)
    ensures |Arrange(frags).placed| == |frags|
    ensures 0 <= Arrange(frags).placed[k].offset + d < |Link(frags, labels, relocs).image|
    ensures Link(frags, labels, relocs).image[Arrange(frags).placed[k].offset + d] == frags[k].data[d]
  {
    LinkWritten(frags, labels, relocs);
    ImageHolds(frags, labels, relocs, k, d);
    ResolutionKeeps(frags, labels, relocs, k, d);
  }

  /** `LinkPlaced` and `LinkKeeps` together, for one byte of one fragment. */
  lemma LinkImage(frags: seq<Fragment>, labels: map<string, LabelLoc>, relocs: seq<Reloc>, k: nat, d: nat)
    requires Linkable(frags, relocs)
    requires Link(frags, labels, relocs).Written?
    requires k < |frags| && d < |frags[k].data|
    requires forall i :: 0 <= i < |relocs| ==> !Covers(relocs[i], k, d)
    ensures var placed := Arrange(frags).placed;
      |placed| == |frags| && 0 <= placed[k].offset + d < |Link(frags, labels, relocs).image| &&
      (frags[k].offset != -1 ==> placed[k].offset == frags[k].offset) &&
      Link(frags, labels, relocs).image[placed[k].offset + d] == frags[k].data[d]
  {
    LinkPlaced(frags, labels, relocs, k);
    LinkKeeps(frags, labels, relocs, k, d);
  }

  /** In a written image the two bytes of relocation `i` hold the big-endian address of its label. */
  lemma LinkPatched(frags: seq<Fragment>, labels: map<string, LabelLoc>, relocs: seq<Reloc>, i: nat, d: nat)
    requires Linkable(frags, relocs) && Apart(relocs)
    requires Link(frags, labels, relocs).Written?
    requires i < |relocs| && d < 2
    ensures var placed := Arrange(frags).placed;
      var r := relocs[i];
      |placed| == |frags| && r.frag < |placed| &&
      Lookup(labels, r.target).Some? && Lookup(labels, r.target).value.frag < |placed| &&
      0 <= placed[r.frag].offset + (r.pos + d) < |Link(frags, labels, relocs).image| &&
      Link(frags, labels, relocs).image[placed[r.frag].offset + (r.pos + d)] ==
        Word(placed[Lookup(labels, r.target).value.frag].offset + Lookup(labels, r.target).value.pos)[d]
  {
    LinkWritten(frags, labels, relocs);
    ResolutionPatchesByte(frags, labels, relocs, i, d);
    ImageByte(frags, labels, relocs, relocs[i].frag, relocs[i].pos + d);
  }

  /** The image of the final layout holds byte `d` of resolved fragment `k` at the fragment's offset plus `d`. */
  lemma ImageByte(frags: seq<Fragment>, labels: map<string, LabelLoc>, relocs: seq<Reloc>, k: nat, d: nat)
    requires Linkable(frags, relocs)
    requires Arrange(frags).errors == 0 && !Arrange(frags).crashed
    requires Resolution(frags, labels, relocs).Resolved?
    requires Consistent(Arrange(frags).layout, Resolution(frags, labels, relocs).datas)
    requires k < |frags| && d < |frags[k].data|
    ensures |Arrange(frags).placed| == |frags| && Arrange(frags).placed[k].offset >= 0
    ensures Arrange(frags).placed[k].offset + d < |Image(Arrange(frags).layout, Resolution(frags, labels, relocs).datas)|
    ensures k < |Resolution(frags, labels, relocs).datas| && d < |Resolution(frags, labels, relocs).datas[k]|
    ensures Image(Arrange(frags).layout, Resolution(frags, labels, relocs).datas)[Arrange(frags).placed[k].offset + d] ==
      Resolution(frags, labels, relocs).datas[k][d]
  {
    PassFits(frags);
    ArrangedByte(frags, Resolution(frags, labels, relocs).datas, k, d);
  }

  /** Over any data the final layout is consistent with, byte `d` of fragment `k` sits at its offset plus `d`. */
  lemma ArrangedByte(frags: seq<Fragment>, datas: seq<seq<byte>>, k: nat, d: nat)
    requires Produced(frags) && FixedFit(frags) && k < |frags| && d < |frags[k].data|
    requires Consistent(Arrange(frags).layout, datas)
    ensures |Arrange(frags).placed| == |frags| && Arrange(frags).placed[k].offset >= 0
    ensures Arrange(frags).placed[k].offset + d < |Image(Arrange(frags).layout, datas)|
    ensures k < |datas| && d < |datas[k]|
    ensures Image(Arrange(frags).layout, datas)[Arrange(frags).placed[k].offset + d] == datas[k][d]
  {
    var a := Arrange(frags);
    ArrangeAt(frags, k);
    ImageHeld(a.layout, datas, k, a.placed[k].offset, |frags[k].data|, d);
  }

  /** Byte `d` of the two that resolution writes for relocation `i`. */
  lemma ResolutionPatchesByte(frags: seq<Fragment>, labels: map<string, LabelLoc>, relocs: seq<Reloc>, i: nat, d: nat)
    requires Linkable(frags, relocs) && Apart(relocs)
    requires Arrange(frags).errors == 0 && !Arrange(frags).crashed
    requires Resolution(frags, labels, relocs).Resolved? && Resolution(frags, labels, relocs).missing == 0
    requires i < |relocs| && d < 2
    ensures |Arrange(frags).placed| == |frags| && relocs[i].frag < |frags| && relocs[i].pos + d < |frags[relocs[i].frag].data|
    ensures Lookup(labels, relocs[i].target).Some? && Lookup(labels, relocs[i].target).value.frag < |frags|
    ensures relocs[i].frag < |Resolution(frags, labels, relocs).datas|
    ensures relocs[i].pos + d < |Resolution(frags, labels, relocs).datas[relocs[i].frag]|
    ensures Resolution(frags, labels, relocs).datas[relocs[i].frag][relocs[i].pos + d] ==
      Word(Arrange(frags).placed[Lookup(labels, relocs[i].target).value.frag].offset + Lookup(labels, relocs[i].target).value.pos)[d]
  {
    ResolutionPatches(frags, labels, relocs, i);
    var r := relocs[i];
    var s := Resolution(frags, labels, relocs).datas[r.frag];
    assert s[r.pos + d] == s[r.pos..r.pos + 2][d];
  }

  /** With the header first and no relocation inside it, the image starts with the header's bytes. */
  lemma LinkHeader(frags: seq<Fragment>, labels: map<string, LabelLoc>, relocs: seq<Reloc>)
    requires Linkable(frags, relocs)
    requires Link(frags, labels, relocs).Written?
    requires forall i :: 0 <= i < |relocs| ==> relocs[i].frag >= 1
    ensures |frags[0].data| <= |Link(frags, labels, relocs).image|
    ensures Link(frags, labels, relocs).image[..|frags[0].data|] == frags[0].data
  {
    var img, h := Link(frags, labels, relocs).image, frags[0].data;
    LinkHeaderByte(frags, labels, relocs, |h| - 1);
    forall d | 0 <= d < |h| ensures img[d] == h[d] {
      LinkHeaderByte(frags, labels, relocs, d);
    }
    assert img[..|h|] == h;
  }

  /** Byte `d` of the header is byte `d` of a written image. */
  lemma LinkHeaderByte(frags: seq<Fragment>, labels: map<string, LabelLoc>, relocs: seq<Reloc>, d: nat)
    requires Linkable(frags, relocs)
    requires Link(frags, labels, relocs).Written?
    requires forall i :: 0 <= i < |relocs| ==> relocs[i].frag >= 1
    requires d < |frags[0].data|
    ensures d < |Link(frags, labels, relocs).image| && Link(frags, labels, relocs).image[d] == frags[0].data[d]
  {
    LinkPlaced(frags, labels, relocs, 0);
    LinkKeeps(frags, labels, relocs, 0, d);
  }

  // ---------------------------------------------------------------------
  // The whole run

  /** The title used when none is given on the command line (assem.py:390-391). */
  const DefaultTitle: seq<byte> := [0x3F, 0x3F, 0x3F, 0x3F]

  function Title(title: Option<seq<byte>>): seq<byte> {
    if title.Some? then title.value else DefaultTitle
  }

  /** The header followed by the loop over the parsed lines (assem.py:399-434). */
  function LineLoop(t: seq<byte>, recs: seq<Record>, files: map<string, seq<byte>>): Run {
    Records(Header(Start, t), recs, files)
  }

  /**
   * What the line loop leaves behind: the driver's invariant, the header
   * as the first fragment, and no relocation inside the header.
   */
  ghost predicate Loaded(t: seq<byte>, s: State) {
    Inv(s) && s.fragments != [] && s.fragments[0] == Fragment("header", 0, HeaderBytes(t)) &&
    forall i :: 0 <= i < |s.relocs| ==> s.relocs[i].frag >= 1
  }

  lemma LoopLoaded(t: seq<byte>, recs: seq<Record>, files: map<string, seq<byte>>)
    requires |t| <= 126
    ensures Loaded(t, LineLoop(t, recs, files).state)
  {
    HeaderState(t);
    var s0 := Header(Start, t);
    var s := LineLoop(t, recs, files).state;
    RecordsInv(s0, recs, files);
    RecordsGrows(s0, recs, files);
    assert s.fragments[0] == s0.fragments[0];
  }

  /**
   * Closing the last section of what the line loop left gives the linker
   * what it needs: the header first at offset 0, no empty fragment, every
   * relocation inside a fragment after the header, and no two relocations
   * sharing a byte.
   */
  lemma ClosedLinkable(t: seq<byte>, s: State)
    requires Loaded(t, s)
    ensures var e := EndSection(s);
      Linkable(e.fragments, e.relocs) && Apart(e.relocs) &&
      e.fragments[0] == Fragment("header", 0, HeaderBytes(t)) &&
      forall i :: 0 <= i < |e.relocs| ==> e.relocs[i].frag >= 1
  {
    Finish(s);
    var e := EndSection(s);
    assert s.fragments <= e.fragments;
  }

  /** What follows the line loop (assem.py:436-599): stop on a crash or on rejected lines, else link. */
  function Conclude(t: seq<byte>, run: Run): Outcome
    requires Loaded(t, run.state)
  {
    if run.crash.Some? then Crashed(run.crash.value)
    else if run.errors > 0 then EncodingErrors(run.errors)
    else
      var e := EndSection(run.state);
      ClosedLinkable(t, run.state);
      Link(e.fragments, e.labels, e.relocs)
  }

  /**
   * One run of the assembler (assem.py:386-601): the title check, the
   * line loop, and, when no line was rejected, placement, resolution and
   * the image.
   */
  function Build(title: Option<seq<byte>>, recs: seq<Record>, files: map<string, seq<byte>>): Outcome {
    var t := Title(title);
    if |t| > 30 then TitleTooLong
    else
      LoopLoaded(t, recs, files);
      Conclude(t, LineLoop(t, recs, files))
  }

  /** A run with a title of at most 30 bytes is what follows the line loop, on what the loop left. */
  lemma BuildConcludes(title: Option<seq<byte>>, recs: seq<Record>, files: map<string, seq<byte>>)
    requires |Title(title)| <= 30
    ensures Loaded(Title(title), LineLoop(Title(title), recs, files).state)
    ensures Build(title, recs, files) == Conclude(Title(title), LineLoop(Title(title), recs, files))
  {
    LoopLoaded(Title(title), recs, files);
  }

  /** A written ROM needs a title of at most 30 bytes. */
  lemma BuildTitle(title: Option<seq<byte>>, recs: seq<Record>, files: map<string, seq<byte>>)
    ensures Build(title, recs, files) == TitleTooLong <==> |Title(title)| > 30
  {
    if |Title(title)| <= 30 {
      BuildConcludes(title, recs, files);
    }
  }

  /** A written ROM is the linker's image of the fragments the loop left, with its last section closed. */
  lemma ConcludeWritten(t: seq<byte>, run: Run)
    requires Loaded(t, run.state)
    requires Conclude(t, run).Written?
    ensures run.crash.None? && run.errors == 0
    ensures var e := EndSection(run.state);
      Linkable(e.fragments, e.relocs) && Apart(e.relocs) &&
      e.fragments[0] == Fragment("header", 0, HeaderBytes(t)) &&
      (forall i :: 0 <= i < |e.relocs| ==> e.relocs[i].frag >= 1) &&
      Link(e.fragments, e.labels, e.relocs) == Conclude(t, run)
  {
    ClosedLinkable(t, run.state);
  }

  /**
   * A written ROM starts with the 128-byte header: the signature
   * `CA 55`, the title and zero padding.
   */
  lemma ConcludeHeader(t: seq<byte>, run: Run)
    requires |t| <= 126
    requires Loaded(t, run.state)
    requires Conclude(t, run).Written?
    ensures |Conclude(t, run).image| >= 128
    ensures Conclude(t, run).image[..128] == HeaderBytes(t)
  {
    ConcludeWritten(t, run);
    HeaderState(t);
    var e := EndSection(run.state);
    LinkHeader(e.fragments, e.labels, e.relocs);
  }

  /**
   * Where the bytes of a written ROM come from: byte `d` of fragment `k`
   * sits at the fragment's final offset, which is its own offset if it
   * was fixed, and holds the assembled byte when no relocation covers it.
   */
  lemma ConcludeImage(t: seq<byte>, run: Run, k: nat, d: nat)
    requires Loaded(t, run.state)
    requires Conclude(t, run).Written?
    requires var e := EndSection(run.state);
      k < |e.fragments| && d < |e.fragments[k].data| &&
      forall i :: 0 <= i < |e.relocs| ==> !Covers(e.relocs[i], k, d)
    ensures var e := EndSection(run.state);
      var placed := Arrange(e.fragments).placed;
      |placed| == |e.fragments| && 0 <= placed[k].offset + d < |Conclude(t, run).image| &&
      (e.fragments[k].offset != -1 ==> placed[k].offset == e.fragments[k].offset) &&
      Conclude(t, run).image[placed[k].offset + d] == e.fragments[k].data[d]
  {
    ConcludeWritten(t, run);
    var e := EndSection(run.state);
    LinkImage(e.fragments, e.labels, e.relocs, k, d);
    assert Conclude(t, run).image == Link(e.fragments, e.labels, e.relocs).image;
  }
}
