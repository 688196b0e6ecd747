/**
 * The linking half of the assembler (assem.py:448-597) stated on values:
 * phase 1 over all fixed-offset fragments, phase 2 over all floating
 * fragments, and the relocation pass that writes label addresses into the
 * fragments' bytes.  The session class runs the same loops on its state and
 * is proved to agree with these functions.
 */
module Linker {
  import opened Common
  import opened Operands
  import opened Layout

  /** A fragment as phase 1 sees it: its index, requested offset and length. */
  datatype Piece = Piece(index: nat, offset: int, size: nat)

  datatype FixedResult = FixedResult(layout: seq<Slot>, errors: nat, crashed: bool)

  function AddError(r: FixedResult): FixedResult {
    r.(errors := r.errors + 1)
  }

  /**
   * Phase 1 with a misaligned offset counted as an error and the loop
   * carried on, the way the other errors of the phase are treated.  The
   * rest of the model uses this pass.
   */
  function FixedPass(l: seq<Slot>, pieces: seq<Piece>): FixedResult
    decreases |pieces|
  {
    if pieces == [] then FixedResult(l, 0, false)
    else
      var p := pieces[0];
      if p.offset % 2 == 1 then AddError(FixedPass(l, pieces[1..]))
      else
        match ScanFixed(l, p.offset, p.size, p.index)
        case NotAFragment => FixedResult(l, 0, true)
        case Overlap(_) => AddError(FixedPass(l, pieces[1..]))
        case Placed(l') => FixedPass(l', pieces[1..])
  }

  /**
   * Phase 1 as written (assem.py:458-462): a misaligned offset prints a
   * message and `break`s out of the loop without counting an error, so the
   * fragments after it are never placed and the run goes on.
   */
  function FixedPassAsWritten(l: seq<Slot>, pieces: seq<Piece>): FixedResult
    decreases |pieces|
  {
    if pieces == [] then FixedResult(l, 0, false)
    else
      var p := pieces[0];
      if p.offset % 2 == 1 then FixedResult(l, 0, false)
      else
        match ScanFixed(l, p.offset, p.size, p.index)
        case NotAFragment => FixedResult(l, 0, true)
        case Overlap(_) => AddError(FixedPassAsWritten(l, pieces[1..]))
        case Placed(l') => FixedPassAsWritten(l', pieces[1..])
  }

  predicate Intersect(p: Piece, q: Piece) {
    p.offset < q.offset + q.size && q.offset < p.offset + p.size
  }

  /**
   * Every piece is aligned, asks only for free bytes, and no two pieces
   * ask for the same byte.
   */
  ghost predicate AllFit(l: seq<Slot>, pieces: seq<Piece>) {
    (forall i :: 0 <= i < |pieces| ==>
       pieces[i].offset % 2 == 0 && RangeFree(l, pieces[i].offset, pieces[i].size)) &&
    (forall i, j :: 0 <= i < j < |pieces| ==> !Intersect(pieces[i], pieces[j]))
  }

  ghost predicate Sane(pieces: seq<Piece>) {
    forall i :: 0 <= i < |pieces| ==> pieces[i].offset >= 0 && pieces[i].size > 0
  }

  /** Every byte that was taken is still taken by the same thing. */
  ghost predicate Keeps(l: seq<Slot>, l': seq<Slot>) {
    forall x :: Cell(l, x).Some? ==> Cell(l', x) == Cell(l, x)
  }

  /** After placing `p`, a range is free iff it was free and misses `p`. */
  lemma RangeFreeAfter(l: seq<Slot>, l': seq<Slot>, p: Piece, q: Piece)
    requires p.size > 0 && q.size > 0
    requires forall x :: Cell(l', x) == (if p.offset <= x < p.offset + p.size then Some(Pos(p.index, x - p.offset)) else Cell(l, x))
    ensures RangeFree(l', q.offset, q.size) <==> RangeFree(l, q.offset, q.size) && !Intersect(p, q)
  {
    if Intersect(p, q) {
      var x := if p.offset < q.offset then q.offset else p.offset;
      assert q.offset <= x < q.offset + q.size;
      assert Cell(l', x).Some?;
    } else {
      forall x | q.offset <= x < q.offset + q.size ensures Cell(l', x) == Cell(l, x) {
        assert !(p.offset <= x < p.offset + p.size);
      }
    }
  }

  /**
   * The corrected phase 1, on a well-formed layout, never crashes, keeps
   * the layout well-formed, and reports no error exactly when all pieces
   * fit; then each piece sits at its offset and nothing taken before moves.
   */
  lemma {:induction false} FixedPassSound(l: seq<Slot>, pieces: seq<Piece>)
    requires Wellformed(l) && Sane(pieces)
    ensures !FixedPass(l, pieces).crashed
    ensures Wellformed(FixedPass(l, pieces).layout)
    ensures FixedPass(l, pieces).errors == 0 <==> AllFit(l, pieces)
    ensures FixedPass(l, pieces).errors == 0 ==>
      Keeps(l, FixedPass(l, pieces).layout) &&
      forall i :: 0 <= i < |pieces| ==>
        Holds(FixedPass(l, pieces).layout, pieces[i].index, pieces[i].offset, pieces[i].size)
    decreases |pieces|, 1
  {
    if pieces != [] {
      var p := pieces[0];
      var rest := pieces[1..];
      assert Sane(rest);
      FixedPassSound(l, rest);
      if p.offset % 2 != 1 {
        FixedPlacedIff(l, p.offset, p.size, p.index);
        if ScanFixed(l, p.offset, p.size, p.index).Placed? {
          FixedPassPlaced(l, pieces);
        } else if AllFit(l, pieces) {
          AllFitHead(l, pieces);
        }
      } else if AllFit(l, pieces) {
        AllFitHead(l, pieces);
      }
    }
  }

  /** The step of `FixedPassSound` where the first piece is placed. */
  lemma {:induction false} FixedPassPlaced(l: seq<Slot>, pieces: seq<Piece>)
    requires Wellformed(l) && Sane(pieces) && pieces != [] && pieces[0].offset % 2 == 0
    requires ScanFixed(l, pieces[0].offset, pieces[0].size, pieces[0].index).Placed?
    ensures !FixedPass(l, pieces).crashed
    ensures Wellformed(FixedPass(l, pieces).layout)
    ensures FixedPass(l, pieces).errors == 0 <==> AllFit(l, pieces)
    ensures FixedPass(l, pieces).errors == 0 ==>
      Keeps(l, FixedPass(l, pieces).layout) &&
      forall i :: 0 <= i < |pieces| ==>
        Holds(FixedPass(l, pieces).layout, pieces[i].index, pieces[i].offset, pieces[i].size)
    decreases |pieces|, 0
  {
    var p := pieces[0];
    var rest := pieces[1..];
    assert Sane(rest);
    FixedPlacedIff(l, p.offset, p.size, p.index);
    var l' := ScanFixed(l, p.offset, p.size, p.index).layout;
    ScanFixedPlaced(l, p.offset, p.size, p.index);
    ScanFixedWellformed(l, p.offset, p.size, p.index);
    FixedPassSound(l', rest);
    var r := FixedPass(l', rest);
    assert FixedPass(l, pieces) == r;
    forall q | q in rest
      ensures RangeFree(l', q.offset, q.size) <==> RangeFree(l, q.offset, q.size) && !Intersect(p, q)
    {
      RangeFreeAfter(l, l', p, q);
    }
    AllFitStep(l, l', pieces);
    if r.errors == 0 {
      assert Keeps(l, l') by {
        forall x | Cell(l, x).Some? ensures Cell(l', x) == Cell(l, x) {
          assert !(p.offset <= x < p.offset + p.size);
        }
      }
      assert Holds(l', p.index, p.offset, p.size) by {
        forall d | 0 <= d < p.size ensures Cell(l', p.offset + d) == Some(Pos(p.index, d)) { }
      }
      KeepsHolds(l', r.layout, p.index, p.offset, p.size);
      forall i | 0 <= i < |pieces|
        ensures Holds(r.layout, pieces[i].index, pieces[i].offset, pieces[i].size)
      {
        if i > 0 {
          assert pieces[i] == rest[i - 1];
        }
      }
    }
  }

  /** A fragment's bytes stay where they are in any layout that keeps its taken bytes. */
  lemma KeepsHolds(l: seq<Slot>, l': seq<Slot>, k: nat, o: int, n: nat)
    requires Keeps(l, l') && Holds(l, k, o, n)
    ensures Holds(l', k, o, n)
  {
    forall d | 0 <= d < n ensures Cell(l', o + d) == Some(Pos(k, d)) {
      assert Cell(l, o + d) == Some(Pos(k, d));
    }
  }


  /** Each piece names a fragment and gives that fragment's length. */
  ghost predicate Named(pieces: seq<Piece>, datas: seq<seq<byte>>) {
    forall i :: 0 <= i < |pieces| ==> pieces[i].index < |datas| && pieces[i].size == |datas[pieces[i].index]|
  }

  /** Phase 1 only ever puts the fragments it is given, at their lengths. */
  lemma {:induction false} FixedPassConsistent(l: seq<Slot>, pieces: seq<Piece>, datas: seq<seq<byte>>)
    requires Consistent(l, datas) && Named(pieces, datas)
    ensures Consistent(FixedPass(l, pieces).layout, datas)
    decreases |pieces|
  {
    if pieces != [] {
      var p := pieces[0];
      assert Named(pieces[1..], datas) by {
        forall i | 0 <= i < |pieces[1..]| ensures pieces[1..][i] == pieces[i + 1] { }
      }
      var out := ScanFixed(l, p.offset, p.size, p.index);
      if p.offset % 2 != 1 && out.Placed? {
        ScanFixedConsistent(l, p.offset, p.size, p.index, datas);
        FixedPassConsistent(out.layout, pieces[1..], datas);
      } else {
        FixedPassConsistent(l, pieces[1..], datas);
      }
    }
  }

  /**
   * On a well-formed layout phase 1 never reads a free run as a fragment
   * (the TypeError of assem.py:479), whatever the offsets.
   */
  lemma {:induction false} FixedPassNoCrash(l: seq<Slot>, pieces: seq<Piece>)
    requires Wellformed(l)
    requires forall i :: 0 <= i < |pieces| ==> pieces[i].size > 0
    ensures !FixedPass(l, pieces).crashed
    decreases |pieces|
  {
    if pieces != [] {
      var p := pieces[0];
      assert forall i :: 0 <= i < |pieces[1..]| ==> pieces[1..][i] == pieces[i + 1];
      ScanFixedNoCrash(l, p.offset, p.size, p.index);
      var out := ScanFixed(l, p.offset, p.size, p.index);
      if p.offset % 2 != 1 && out.Placed? {
        ScanFixedWellformed(l, p.offset, p.size, p.index);
        FixedPassNoCrash(out.layout, pieces[1..]);
      } else {
        FixedPassNoCrash(l, pieces[1..]);
      }
    }
  }

  /**
   * Once a fragment sits at address 0, a piece asking for a negative
   * offset runs into it, so a phase 1 without errors was given only
   * non-negative offsets.
   */
  lemma {:induction false} FixedPassSane(l: seq<Slot>, pieces: seq<Piece>)
    requires Wellformed(l) && l != [] && l[0].Frag?
    requires forall i :: 0 <= i < |pieces| ==> pieces[i].size > 0
    ensures FixedPass(l, pieces).errors == 0 && !FixedPass(l, pieces).crashed ==> Sane(pieces)
    decreases |pieces|
  {
    if pieces != [] {
      var p := pieces[0];
      var rest := pieces[1..];
      assert forall i :: 0 <= i < |rest| ==> rest[i] == pieces[i + 1];
      var out := ScanFixed(l, p.offset, p.size, p.index);
      if p.offset % 2 != 1 && out.Placed? {
        ScanFixedWellformed(l, p.offset, p.size, p.index);
        FixedPassSane(out.layout, rest);
      } else {
        FixedPassSane(l, rest);
      }
    }
  }

  lemma AllFitHead(l: seq<Slot>, pieces: seq<Piece>)
    requires pieces != [] && AllFit(l, pieces)
    ensures pieces[0].offset % 2 == 0 && RangeFree(l, pieces[0].offset, pieces[0].size)
  {
  }

  lemma AllFitStep(l: seq<Slot>, l': seq<Slot>, pieces: seq<Piece>)
    requires pieces != [] && pieces[0].offset % 2 == 0 && RangeFree(l, pieces[0].offset, pieces[0].size)
    requires forall q :: q in pieces[1..] ==>
      (RangeFree(l', q.offset, q.size) <==> RangeFree(l, q.offset, q.size) && !Intersect(pieces[0], q))
    ensures AllFit(l, pieces) <==> AllFit(l', pieces[1..])
  {
    var rest := pieces[1..];
    if AllFit(l', rest) {
      forall i, j | 0 <= i < j < |pieces| ensures !Intersect(pieces[i], pieces[j]) {
        if i == 0 {
          assert pieces[j] == rest[j - 1];
          assert pieces[j] in rest;
        } else {
          assert pieces[i] == rest[i - 1] && pieces[j] == rest[j - 1];
        }
      }
      forall i | 0 <= i < |pieces|
        ensures pieces[i].offset % 2 == 0 && RangeFree(l, pieces[i].offset, pieces[i].size)
      {
        if i > 0 {
          assert pieces[i] == rest[i - 1];
          assert pieces[i] in rest;
        }
      }
    }
    if AllFit(l, pieces) {
      forall i | 0 <= i < |rest|
        ensures rest[i].offset % 2 == 0 && RangeFree(l', rest[i].offset, rest[i].size)
      {
        assert rest[i] == pieces[i + 1];
        assert rest[i] in rest;
      }
      forall i, j | 0 <= i < j < |rest| ensures !Intersect(rest[i], rest[j]) {
        assert rest[i] == pieces[i + 1] && rest[j] == pieces[j + 1];
      }
    }
  }

  /**
   * As written, a fragment at an odd offset stops phase 1 without an error:
   * after the 128-byte header at 0, a 2-byte fragment asking for offset
   * 129 and one asking for 200 leave the layout with the header alone and
   * an error count of zero, so neither is ever placed.  The corrected pass
   * counts the misaligned fragment.
   */
  lemma MisalignedCounterexample()
    ensures FixedPassAsWritten([Frag(0, 128)], [Piece(1, 129, 2), Piece(2, 200, 2)]) ==
      FixedResult([Frag(0, 128)], 0, false)
    ensures FixedPass([Frag(0, 128)], [Piece(1, 129, 2), Piece(2, 200, 2)]).errors == 1
    ensures !AllFit([Frag(0, 128)], [Piece(1, 129, 2), Piece(2, 200, 2)])
  {
    assert ScanFixed([Frag(0, 128)], 200, 2, 2) == Prepend(Frag(0, 128), ScanFixed([], 72, 2, 2));
    assert [Frag(0, 128)][1..] == [];
  }

  // ---------------------------------------------------------------------
  // Phase 2

  /** A floating fragment: its index and length. */
  datatype Floating = Floating(index: nat, size: nat)

  /** The layout after phase 2 and the offset given to each floating fragment, in order. */
  datatype FloatResult = FloatResult(layout: seq<Slot>, at: seq<nat>)

  function FloatPass(l: seq<Slot>, items: seq<Floating>): (r: FloatResult)
    ensures |r.at| == |items|
    decreases |items|
  {
    if items == [] then FloatResult(l, [])
    else
      var f := Fit(l, items[0].size, items[0].index);
      var r := FloatPass(f.layout, items[1..]);
      FloatResult(r.layout, [f.at] + r.at)
  }

  /**
   * Phase 2 puts every floating fragment at the offset it records for it,
   * keeps everything placed before, and keeps the layout well-formed.
   */
  lemma {:induction false} FloatPassSound(l: seq<Slot>, items: seq<Floating>)
    requires Wellformed(l)
    requires forall i :: 0 <= i < |items| ==> items[i].size > 0
    ensures Wellformed(FloatPass(l, items).layout)
    ensures Keeps(l, FloatPass(l, items).layout)
    ensures forall i :: 0 <= i < |items| ==>
      Holds(FloatPass(l, items).layout, items[i].index, FloatPass(l, items).at[i], items[i].size)
    decreases |items|
  {
    if items != [] {
      var it := items[0];
      var f := Fit(l, it.size, it.index);
      FitPlaced(l, it.size, it.index);
      FitWellformed(l, it.size, it.index);
      FloatPassSound(f.layout, items[1..]);
      var r := FloatPass(f.layout, items[1..]);
      assert FloatPass(l, items).at == [f.at] + r.at;
      forall i | 0 <= i < |items|
        ensures Holds(r.layout, items[i].index, FloatPass(l, items).at[i], items[i].size)
      {
        if i > 0 {
          assert items[i] == items[1..][i - 1];
        } else {
          forall d | 0 <= d < it.size ensures Cell(r.layout, f.at + d) == Some(Pos(it.index, d)) {
            assert Cell(f.layout, f.at + d) == Some(Pos(it.index, d));
          }
        }
      }
      forall x | Cell(l, x).Some? ensures Cell(r.layout, x) == Cell(l, x) {
        assert Cell(f.layout, x) == Cell(l, x);
      }
    }
  }

  lemma {:induction false} FloatPassConsistent(l: seq<Slot>, items: seq<Floating>, datas: seq<seq<byte>>)
    requires Consistent(l, datas)
    requires forall i :: 0 <= i < |items| ==> items[i].index < |datas| && items[i].size == |datas[items[i].index]|
    ensures Consistent(FloatPass(l, items).layout, datas)
    decreases |items|
  {
    if items != [] {
      FitConsistent(l, items[0].size, items[0].index, datas);
      assert forall i :: 0 <= i < |items[1..]| ==> items[1..][i] == items[i + 1];
      FloatPassConsistent(Fit(l, items[0].size, items[0].index).layout, items[1..], datas);
    }
  }

  // ---------------------------------------------------------------------
  // Relocations

  /** A pending relocation: source line, fragment, byte position, label operand. */
  datatype Reloc = Reloc(line: nat, frag: nat, pos: nat, target: Operand)

  /** Where a label was defined: fragment index and position in it. */
  datatype LabelLoc = LabelLoc(frag: nat, pos: nat)

  datatype Resolution = Resolved(datas: seq<seq<byte>>, missing: nat) | ResolveCrash(reason: string)

  /** The label a relocation names, if it names a defined one. */
  function Lookup(labels: map<string, LabelLoc>, target: Operand): Option<LabelLoc> {
    if target.Name? && target.ident in labels then Some(labels[target.ident]) else None
  }

  /** Python's `data[pos:pos+2] = w` on a bytearray. */
  function Splice(d: seq<byte>, pos: nat, w: seq<byte>): seq<byte> {
    if pos >= |d| then d + w
    else d[..pos] + w + d[if pos + 2 <= |d| then pos + 2 else |d|..]
  }

  function Patch(datas: seq<seq<byte>>, f: nat, pos: nat, w: seq<byte>): seq<seq<byte>>
    requires f < |datas|
  {
    datas[f := Splice(datas[f], pos, w)]
  }

  function AddMissing(r: Resolution): Resolution {
    if r.Resolved? then r.(missing := r.missing + 1) else r
  }

  /**
   * The loop of assem.py:557-586: a relocation whose label is missing is
   * counted and skipped; otherwise the label's fragment offset plus its
   * position is written big-endian over two bytes.  An address that does
   * not fit in 16 bits makes `bytes()` raise.
   */
  function Resolve(datas: seq<seq<byte>>, offsets: seq<int>, labels: map<string, LabelLoc>,
                   relocs: seq<Reloc>): Resolution
    decreases |relocs|
  {
    if relocs == [] then Resolved(datas, 0)
    else
      var r := relocs[0];
      match Lookup(labels, r.target)
      case None => AddMissing(Resolve(datas, offsets, labels, relocs[1..]))
      case Some(loc) =>
        if loc.frag >= |offsets| then ResolveCrash("list index out of range")
        else
          var to := offsets[loc.frag] + loc.pos;
          if to < 0 || to >= 65536 then ResolveCrash("bytes must be in range(0, 256)")
          else if r.frag >= |datas| then ResolveCrash("list index out of range")
          else Resolve(Patch(datas, r.frag, r.pos, Word(to)), offsets, labels, relocs[1..])
  }

  /** The address a found label stands for. */
  function Target(offsets: seq<int>, loc: LabelLoc): int
    requires loc.frag < |offsets|
  {
    offsets[loc.frag] + loc.pos
  }

  /** Each relocation's two bytes lie inside its fragment. */
  ghost predicate InRange(datas: seq<seq<byte>>, relocs: seq<Reloc>) {
    forall i :: 0 <= i < |relocs| ==> relocs[i].frag < |datas| && relocs[i].pos + 2 <= |datas[relocs[i].frag]|
  }

  /** No two relocations write the same byte. */
  ghost predicate Apart(relocs: seq<Reloc>) {
    forall i, j :: 0 <= i < j < |relocs| ==>
      relocs[i].frag != relocs[j].frag || relocs[i].pos + 2 <= relocs[j].pos || relocs[j].pos + 2 <= relocs[i].pos
  }

  /** Byte `b` of fragment `f` is one that relocation `r` writes. */
  predicate Covers(r: Reloc, f: nat, b: int) {
    r.frag == f && r.pos <= b < r.pos + 2
  }

  lemma SpliceAt(d: seq<byte>, pos: nat, w: seq<byte>)
    requires pos + 2 <= |d| && |w| == 2
    ensures |Splice(d, pos, w)| == |d|
    ensures forall b :: 0 <= b < |d| ==> Splice(d, pos, w)[b] == if pos <= b < pos + 2 then w[b - pos] else d[b]
  {
  }

  /** Without a crash, resolution keeps the number and the lengths of the fragments. */
  lemma {:induction false} ResolveLengths(datas: seq<seq<byte>>, offsets: seq<int>,
                                          labels: map<string, LabelLoc>, relocs: seq<Reloc>)
    requires InRange(datas, relocs)
    requires Resolve(datas, offsets, labels, relocs).Resolved?
    ensures |Resolve(datas, offsets, labels, relocs).datas| == |datas|
    ensures forall f :: 0 <= f < |datas| ==> |Resolve(datas, offsets, labels, relocs).datas[f]| == |datas[f]|
    decreases |relocs|
  {
    if relocs != [] {
      var dd := Step(datas, offsets, labels, relocs[0]);
      StepFacts(datas, offsets, labels, relocs);
      ResolveLengths(dd, offsets, labels, relocs[1..]);
    }
  }

  /** The fragments after the first relocation of a non-crashing run is applied. */
  function Step(datas: seq<seq<byte>>, offsets: seq<int>, labels: map<string, LabelLoc>, r: Reloc): seq<seq<byte>> {
    match Lookup(labels, r.target)
    case None => datas
    case Some(loc) =>
      if loc.frag < |offsets| && r.frag < |datas| then Patch(datas, r.frag, r.pos, Word(Target(offsets, loc)))
      else datas
  }

  lemma StepFacts(datas: seq<seq<byte>>, offsets: seq<int>, labels: map<string, LabelLoc>, relocs: seq<Reloc>)
    requires relocs != [] && InRange(datas, relocs)
    requires Resolve(datas, offsets, labels, relocs).Resolved?
    ensures var dd := Step(datas, offsets, labels, relocs[0]);
      Resolve(dd, offsets, labels, relocs[1..]).Resolved? &&
      Resolve(datas, offsets, labels, relocs).datas == Resolve(dd, offsets, labels, relocs[1..]).datas &&
      Resolve(datas, offsets, labels, relocs).missing ==
        Resolve(dd, offsets, labels, relocs[1..]).missing + (if Lookup(labels, relocs[0].target).None? then 1 else 0) &&
      InRange(dd, relocs[1..]) && |dd| == |datas| &&
      (forall f, b :: 0 <= f < |datas| && 0 <= b < |datas[f]| ==>
         |dd[f]| == |datas[f]| &&
         dd[f][b] == if Lookup(labels, relocs[0].target).Some? && Covers(relocs[0], f, b)
                     then Word(Target(offsets, Lookup(labels, relocs[0].target).value))[b - relocs[0].pos]
                     else datas[f][b]) &&
      (Lookup(labels, relocs[0].target).Some? ==> Lookup(labels, relocs[0].target).value.frag < |offsets|)
  {
    var r := relocs[0];
    assert r.frag < |datas| && r.pos + 2 <= |datas[r.frag]|;
    var dd := Step(datas, offsets, labels, r);
    if Lookup(labels, r.target).Some? {
      SpliceAt(datas[r.frag], r.pos, Word(Target(offsets, Lookup(labels, r.target).value)));
    }
    forall i | 0 <= i < |relocs[1..]|
      ensures relocs[1..][i].frag < |dd| && relocs[1..][i].pos + 2 <= |dd[relocs[1..][i].frag]|
    {
      assert relocs[1..][i] == relocs[i + 1];
    }
  }

  /** A byte no relocation covers comes out as it went in. */
  lemma {:induction false} ResolveKeepsAt(datas: seq<seq<byte>>, offsets: seq<int>,
                                          labels: map<string, LabelLoc>, relocs: seq<Reloc>, f: nat, b: int)
    requires InRange(datas, relocs)
    requires Resolve(datas, offsets, labels, relocs).Resolved?
    requires f < |datas| && 0 <= b < |datas[f]|
    requires forall i :: 0 <= i < |relocs| ==> !Covers(relocs[i], f, b)
    ensures |Resolve(datas, offsets, labels, relocs).datas| == |datas|
    ensures |Resolve(datas, offsets, labels, relocs).datas[f]| == |datas[f]|
    ensures Resolve(datas, offsets, labels, relocs).datas[f][b] == datas[f][b]
    decreases |relocs|
  {
    ResolveLengths(datas, offsets, labels, relocs);
    if relocs != [] {
      var dd := Step(datas, offsets, labels, relocs[0]);
      StepFacts(datas, offsets, labels, relocs);
      assert !Covers(relocs[0], f, b);
      forall i | 0 <= i < |relocs[1..]| ensures !Covers(relocs[1..][i], f, b) {
        assert relocs[1..][i] == relocs[i + 1];
      }
      ResolveKeepsAt(dd, offsets, labels, relocs[1..], f, b);
    }
  }

  /** A relocation whose label is defined ends up holding that label's address. */
  lemma {:induction false} ResolveWritesAt(datas: seq<seq<byte>>, offsets: seq<int>,
                                           labels: map<string, LabelLoc>, relocs: seq<Reloc>, i: nat)
    requires InRange(datas, relocs) && Apart(relocs)
    requires Resolve(datas, offsets, labels, relocs).Resolved?
    requires i < |relocs| && Lookup(labels, relocs[i].target).Some?
    ensures Lookup(labels, relocs[i].target).value.frag < |offsets|
    ensures relocs[i].frag < |Resolve(datas, offsets, labels, relocs).datas|
    ensures relocs[i].pos + 2 <= |Resolve(datas, offsets, labels, relocs).datas[relocs[i].frag]|
    ensures Resolve(datas, offsets, labels, relocs).datas[relocs[i].frag][relocs[i].pos..relocs[i].pos + 2] ==
      Word(Target(offsets, Lookup(labels, relocs[i].target).value))
    decreases |relocs|
  {
    var r := relocs[i];
    ResolveLengths(datas, offsets, labels, relocs);
    var dd := Step(datas, offsets, labels, relocs[0]);
    StepFacts(datas, offsets, labels, relocs);
    var rest := relocs[1..];
    var out := Resolve(datas, offsets, labels, relocs).datas;
    if i == 0 {
      var w := Word(Target(offsets, Lookup(labels, r.target).value));
      forall b | r.pos <= b < r.pos + 2 ensures out[r.frag][b] == w[b - r.pos] {
        forall j | 0 <= j < |rest| ensures !Covers(rest[j], r.frag, b) {
          assert rest[j] == relocs[j + 1];
        }
        ResolveKeepsAt(dd, offsets, labels, rest, r.frag, b);
      }
      assert out[r.frag][r.pos..r.pos + 2] == w;
    } else {
      assert Apart(rest) by {
        forall a, c | 0 <= a < c < |rest|
          ensures rest[a].frag != rest[c].frag || rest[a].pos + 2 <= rest[c].pos || rest[c].pos + 2 <= rest[a].pos
        {
          assert rest[a] == relocs[a + 1] && rest[c] == relocs[c + 1];
        }
      }
      assert rest[i - 1] == r;
      ResolveWritesAt(dd, offsets, labels, rest, i - 1);
    }
  }

  /** The count of unresolved relocations is the number whose label is not defined. */
  lemma {:induction false} ResolveMissing(datas: seq<seq<byte>>, offsets: seq<int>,
                                          labels: map<string, LabelLoc>, relocs: seq<Reloc>)
    requires InRange(datas, relocs)
    requires Resolve(datas, offsets, labels, relocs).Resolved?
    ensures Resolve(datas, offsets, labels, relocs).missing == |MissingOnes(labels, relocs)|
    ensures Resolve(datas, offsets, labels, relocs).missing == 0 <==>
      forall i :: 0 <= i < |relocs| ==> Lookup(labels, relocs[i].target).Some?
    decreases |relocs|
  {
    if relocs != [] {
      var dd := Step(datas, offsets, labels, relocs[0]);
      StepFacts(datas, offsets, labels, relocs);
      ResolveMissing(dd, offsets, labels, relocs[1..]);
      assert forall i :: 1 <= i < |relocs| ==> relocs[i] == relocs[1..][i - 1];
    }
  }

  /** The relocations whose label is not defined, in order. */
  function MissingOnes(labels: map<string, LabelLoc>, relocs: seq<Reloc>): seq<Reloc> {
    if relocs == [] then []
    else (if Lookup(labels, relocs[0].target).None? then [relocs[0]] else []) + MissingOnes(labels, relocs[1..])
  }

  /**
   * When every label is defined, the two bytes of relocation `i` come out
   * of resolution as the big-endian address of its label.
   */
  lemma ResolvePatched(datas: seq<seq<byte>>, offsets: seq<int>,
                       labels: map<string, LabelLoc>, relocs: seq<Reloc>, i: nat)
    requires InRange(datas, relocs) && Apart(relocs)
    requires Resolve(datas, offsets, labels, relocs).Resolved? && Resolve(datas, offsets, labels, relocs).missing == 0
    requires i < |relocs|
    ensures Lookup(labels, relocs[i].target).Some? && Lookup(labels, relocs[i].target).value.frag < |offsets|
    ensures relocs[i].frag < |Resolve(datas, offsets, labels, relocs).datas|
    ensures relocs[i].pos + 2 <= |Resolve(datas, offsets, labels, relocs).datas[relocs[i].frag]|
    ensures Resolve(datas, offsets, labels, relocs).datas[relocs[i].frag][relocs[i].pos..relocs[i].pos + 2] ==
      Word(Target(offsets, Lookup(labels, relocs[i].target).value))
  {
    ResolveMissing(datas, offsets, labels, relocs);
    ResolveWritesAt(datas, offsets, labels, relocs, i);
  }
}
