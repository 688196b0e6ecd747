/**
 * The assembler's module-level variables as one object (assem.py:290-354
 * and the `__main__` block at assem.py:370-601), each step of the driver a
 * method that updates them in place: closing and opening sections, the
 * directives, the loop over parsed lines, the two placement phases over
 * the `layout` list, the relocation pass and the emission of the image.
 * Every method is proved to do what the value-level functions of the
 * Sections, Layout, Linker and Driver modules say, and the whole run to
 * produce exactly `Driver.Build`.
 */
module Session {
  import opened Common
  import opened Operands
  import opened Encoder
  import opened Layout
  import opened Linker
  import opened Sections
  import opened Driver

  /** A scan outcome with `pre` put in front of a placed layout. */
  function PrependAll(pre: seq<Slot>, out: FixedOutcome): FixedOutcome {
    if out.Placed? then Placed(pre + out.layout) else out
  }

  /** A fit with `pre` put in front and the address moved past it. */
  function Shift(pre: seq<Slot>, f: Fitted): Fitted {
    Fitted(pre + f.layout, Total(pre) + f.at)
  }

  /** A resolution with `n` more missing labels. */
  function AddMissingN(r: Linker.Resolution, n: nat): Linker.Resolution {
    if r.Resolved? then r.(missing := r.missing + n) else r
  }

  /** A phase 1 result with `n` more errors. */
  function AddErrorsN(r: FixedResult, n: nat): FixedResult {
    r.(errors := r.errors + n)
  }

  lemma TotalSnoc(pre: seq<Slot>, s: Slot)
    ensures Total(pre + [s]) == Total(pre) + s.size
  {
    TotalConcat(pre, [s]);
    assert [s][1..] == [];
  }

  /** The slots `layout[..i+1]` are the slots `layout[..i]` and `layout[i]`. */
  lemma PrefixStep(l: seq<Slot>, i: nat)
    requires i < |l|
    ensures l[..i + 1] == l[..i] + [l[i]]
    ensures l[i..][1..] == l[i + 1..] && l[i..][0] == l[i]
    ensures Total(l[..i + 1]) == Total(l[..i]) + l[i].size
  {
    TotalSnoc(l[..i], l[i]);
  }

  /** Walking over a slot that ends at or before the offset is the scan's first case. */
  lemma ScanStep(l: seq<Slot>, i: nat, o: int, b: int, next: int, n: nat, k: nat)
    requires i < |l| && b == Total(l[..i]) && next == b + l[i].size && next <= o
    ensures next == Total(l[..i + 1])
    ensures PrependAll(l[..i], ScanFixed(l[i..], o - b, n, k)) ==
      PrependAll(l[..i + 1], ScanFixed(l[i + 1..], o - next, n, k))
  {
    PrefixStep(l, i);
    var x := ScanFixed(l[i + 1..], o - next, n, k);
    assert ScanFixed(l[i..], o - b, n, k) == Prepend(l[i], x);
    if x.Placed? {
      assert l[..i] + ([l[i]] + x.layout) == l[..i + 1] + x.layout;
    }
  }

  /** Slots that end at or before the offset are walked over and kept in front. */
  lemma {:induction false} ScanSkip(l: seq<Slot>, i: nat, o: int, n: nat, k: nat)
    requires i <= |l| && (i == 0 || Total(l[..i]) <= o)
    ensures ScanFixed(l, o, n, k) == PrependAll(l[..i], ScanFixed(l[i..], o - Total(l[..i]), n, k))
    decreases i
  {
    if i == 0 {
      assert l[..0] == [] && l[0..] == l;
      var x := ScanFixed(l, o, n, k);
      if x.Placed? {
        assert [] + x.layout == x.layout;
      }
    } else {
      PrefixStep(l, i - 1);
      ScanSkip(l, i - 1, o, n, k);
      var b := Total(l[..i - 1]);
      ScanStep(l, i - 1, o, b, b + l[i - 1].size, n, k);
    }
  }

  /** The scan at the first slot that reaches past the offset. */
  lemma ScanHere(l: seq<Slot>, i: nat, o: int, n: nat, k: nat)
    requires i < |l| && l[i].size > o
    ensures ScanFixed(l[i..], o, n, k) ==
      if l[i].Frag? then Overlap(l[i].index)
      else if l[i].size - (o + n) < 0 && i < |l| - 1 then
        (if l[i + 1].Frag? then Overlap(l[i + 1].index) else NotAFragment)
      else Placed(Pad(o) + [Frag(k, n)] + Pad(l[i].size - (o + n)) + l[i + 1..])
  {
    assert l[i..][0] == l[i] && l[i..][1..] == l[i + 1..];
    if i < |l| - 1 {
      assert l[i..][1] == l[i + 1];
    }
  }

  lemma FixedPiecesStep(frags: seq<Fragment>, k: nat)
    requires k < |frags|
    ensures FixedPieces(frags, k) ==
      (if frags[k].offset != -1 then [Piece(k, frags[k].offset, |frags[k].data|)] else []) + FixedPieces(frags, k + 1)
  {
  }

  lemma FloatingItemsStep(frags: seq<Fragment>, k: nat)
    requires k < |frags|
    ensures FloatingItems(frags, k) ==
      (if frags[k].offset == -1 then [Floating(k, |frags[k].data|)] else []) + FloatingItems(frags, k + 1)
  {
  }

  lemma DatasPatch(frags: seq<Fragment>, f: nat, w: seq<byte>, pos: nat)
    requires f < |frags|
    ensures Datas(frags[f := frags[f].(data := Splice(frags[f].data, pos, w))]) == Patch(Datas(frags), f, pos, w)
    ensures Offsets(frags[f := frags[f].(data := Splice(frags[f].data, pos, w))]) == Offsets(frags)
  {
  }

  /** Phase 1 on one more piece in front. */
  lemma FixedPassCons(l: seq<Slot>, p: Piece, rest: seq<Piece>)
    ensures FixedPass(l, [p] + rest) ==
      if p.offset % 2 == 1 then AddError(FixedPass(l, rest))
      else
        var out := ScanFixed(l, p.offset, p.size, p.index);
        if out.NotAFragment? then FixedResult(l, 0, true)
        else if out.Overlap? then AddError(FixedPass(l, rest))
        else FixedPass(out.layout, rest)
  {
    assert ([p] + rest)[0] == p && ([p] + rest)[1..] == rest;
  }

  /** Slots that cannot take the fragment are walked over and kept in front. */
  lemma {:induction false} FitSkip(l: seq<Slot>, i: nat, n: nat, k: nat)
    requires i <= |l|
    requires forall j :: 0 <= j < i ==> !(l[j].Free? && n <= l[j].size)
    ensures Fit(l, n, k) == Shift(l[..i], Fit(l[i..], n, k))
    decreases i
  {
    if i == 0 {
      assert l[..0] == [] && l[0..] == l;
      assert [] + Fit(l, n, k).layout == Fit(l, n, k).layout;
    } else {
      FitSkip(l, i - 1, n, k);
      PrefixStep(l, i - 1);
      var f := Fit(l[i..], n, k);
      assert Fit(l[i - 1..], n, k) == Fitted([l[i - 1]] + f.layout, l[i - 1].size + f.at);
      assert l[..i - 1] + ([l[i - 1]] + f.layout) == l[..i] + f.layout;
    }
  }

  /** Phase 2 on one more item in front. */
  lemma FloatPassCons(l: seq<Slot>, it: Floating, rest: seq<Floating>)
    ensures var f := Fit(l, it.size, it.index);
      FloatPass(l, [it] + rest) == FloatResult(FloatPass(f.layout, rest).layout, [f.at] + FloatPass(f.layout, rest).at)
  {
    assert ([it] + rest)[0] == it && ([it] + rest)[1..] == rest;
  }

  /**
   * What is left of the loop of phase 2 from fragment `k` on, starting
   * from the layout `l` and the fragments `frags`: the final layout and
   * the fragments with their offsets set.
   */
  ghost function FloatFrom(f0: seq<Fragment>, k: nat, l: seq<Slot>, frags: seq<Fragment>): (seq<Slot>, seq<Fragment>)
    requires |frags| == |f0|
    decreases |f0| - k
  {
    if k >= |f0| then (l, frags)
    else if f0[k].offset == -1 then
      var f := Fit(l, |f0[k].data|, k);
      FloatFrom(f0, k + 1, f.layout, frags[k := frags[k].(offset := f.at)])
    else FloatFrom(f0, k + 1, l, frags)
  }

  /** Setting the first offset, then the others. */
  lemma SetOffsetsCons(frags: seq<Fragment>, it: Floating, rest: seq<Floating>, a: nat, at: seq<nat>)
    requires |at| == |rest| && it.index < |frags|
    requires forall j :: 0 <= j < |rest| ==> rest[j].index < |frags|
    ensures SetOffsets(frags, [it] + rest, [a] + at) == SetOffsets(frags[it.index := frags[it.index].(offset := a)], rest, at)
  {
    assert ([it] + rest)[0] == it && ([it] + rest)[1..] == rest;
    assert ([a] + at)[0] == a && ([a] + at)[1..] == at;
  }

  /** The loop of phase 2 is the pass over the floating items, with their offsets set. */
  lemma {:induction false} FloatFromPass(f0: seq<Fragment>, k: nat, l: seq<Slot>, frags: seq<Fragment>)
    requires |frags| == |f0| && k <= |f0|
    ensures var items := FloatingItems(f0, k); var r := FloatPass(l, items);
      FloatFrom(f0, k, l, frags) == (r.layout, SetOffsets(frags, items, r.at))
    decreases |f0| - k
  {
    if k == |f0| {
      assert FloatingItems(f0, k) == [];
    } else if f0[k].offset == -1 {
      var f := Fit(l, |f0[k].data|, k);
      FloatFromPass(f0, k + 1, f.layout, frags[k := frags[k].(offset := f.at)]);
      FloatFromFloating(f0, k, l, frags);
    } else {
      FloatFromPass(f0, k + 1, l, frags);
      FloatingItemsStep(f0, k);
      assert FloatingItems(f0, k) == FloatingItems(f0, k + 1);
    }
  }

  /** The step of FloatFromPass at a floating fragment. */
  lemma FloatFromFloating(f0: seq<Fragment>, k: nat, l: seq<Slot>, frags: seq<Fragment>)
    requires |frags| == |f0| && k < |f0| && f0[k].offset == -1
    requires var f := Fit(l, |f0[k].data|, k); var frags' := frags[k := frags[k].(offset := f.at)];
      var items := FloatingItems(f0, k + 1); var r := FloatPass(f.layout, items);
      FloatFrom(f0, k + 1, f.layout, frags') == (r.layout, SetOffsets(frags', items, r.at))
    ensures var items := FloatingItems(f0, k); var r := FloatPass(l, items);
      FloatFrom(f0, k, l, frags) == (r.layout, SetOffsets(frags, items, r.at))
  {
    FloatingItemsStep(f0, k);
    var rest := FloatingItems(f0, k + 1);
    var it := Floating(k, |f0[k].data|);
    var f := Fit(l, it.size, k);
    var frags' := frags[k := frags[k].(offset := f.at)];
    var r := FloatPass(f.layout, rest);
    assert FloatingItems(f0, k) == [it] + rest;
    assert FloatFrom(f0, k, l, frags) == FloatFrom(f0, k + 1, f.layout, frags');
    FloatPassCons(l, it, rest);
    assert FloatPass(l, [it] + rest) == FloatResult(r.layout, [f.at] + r.at);
    SetOffsetsCons(frags, it, rest, f.at, r.at);
  }

  /** One relocation in front of the others. */
  lemma ResolveCons(datas: seq<seq<byte>>, offsets: seq<int>, labels: map<string, LabelLoc>, r: Reloc, rest: seq<Reloc>)
    ensures Resolve(datas, offsets, labels, [r] + rest) ==
      var loc := Lookup(labels, r.target);
      if loc.None? then AddMissing(Resolve(datas, offsets, labels, rest))
      else if loc.value.frag >= |offsets| then ResolveCrash("list index out of range")
      else if offsets[loc.value.frag] + loc.value.pos < 0 || offsets[loc.value.frag] + loc.value.pos >= 65536 then
        ResolveCrash("bytes must be in range(0, 256)")
      else if r.frag >= |datas| then ResolveCrash("list index out of range")
      else Resolve(Patch(datas, r.frag, r.pos, Word(offsets[loc.value.frag] + loc.value.pos)), offsets, labels, rest)
  {
    assert ([r] + rest)[0] == r && ([r] + rest)[1..] == rest;
  }

  /** The image of the slots from `i` on is slot `i`'s bytes and then the image of the rest. */
  lemma ImageStep(l: seq<Slot>, i: nat, datas: seq<seq<byte>>)
    requires i < |l| && Consistent(l, datas)
    ensures Consistent(l[i..], datas) && Consistent(l[i + 1..], datas)
    ensures l[i].Frag? ==> l[i].index < |datas|
    ensures Image(l[i..], datas) ==
      (if l[i].Free? then Zeros(l[i].size) else datas[l[i].index]) + Image(l[i + 1..], datas)
  {
    ConsistentFrom(l, i, datas);
    ConsistentFrom(l, i + 1, datas);
    assert l[i..][0] == l[i] && l[i..][1..] == l[i + 1..];
  }

  lemma ConsistentFrom(l: seq<Slot>, i: nat, datas: seq<seq<byte>>)
    requires i <= |l| && Consistent(l, datas)
    ensures Consistent(l[i..], datas)
  {
    forall j | 0 <= j < |l[i..]| && l[i..][j].Frag?
      ensures l[i..][j].index < |datas| && l[i..][j].size == |datas[l[i..][j].index]|
    {
      assert l[i..][j] == l[i + j];
    }
  }

  class Assembler {
    var ba: seq<byte>                   // bytes of the open section
    var fragments: seq<Fragment>
    var fragmentId: nat
    var currentPosition: nat
    var sectionOffset: int
    var sectionId: string
    var labels: map<string, LabelLoc>   // `label_table`
    var relocs: seq<Reloc>              // `jump_list`
    var lineno: nat
    var layout: seq<Slot>               // free runs and placed fragments

    /** The variables the line loop works on, as a value. */
    function Snapshot(): State
      reads this
    {
      State(ba, fragments, fragmentId, currentPosition, sectionOffset, sectionId, labels, relocs, lineno)
    }

    /** The variables as the module defines them, and the layout `[1]` of assem.py:448. */
    constructor ()
      ensures Snapshot() == Start && layout == [Free(1)]
    {
      ba := [];
      fragments := [];
      fragmentId := 0;
      currentPosition := 0;
      sectionOffset := -1;
      sectionId := "?";
      labels := map[];
      relocs := [];
      lineno := 0;
      layout := [Free(1)];
    }

    /** `end_section` (assem.py:297-309). */
    method EndSection()
      modifies this
      ensures Snapshot() == Sections.EndSection(old(Snapshot()))
      ensures layout == old(layout)
    {
      if |ba| > 0 {
        fragments := fragments + [Fragment(sectionId, sectionOffset, ba)];
        fragmentId := fragmentId + 1;
      }
    }

    /** `new_section` (assem.py:311-317). */
    method NewSection(sid: string, offset: int)
      modifies this
      ensures Snapshot() == Sections.NewSection(old(Snapshot()), sid, offset)
      ensures layout == old(layout)
    {
      EndSection();
      sectionOffset := offset;
      sectionId := sid;
      ba := [];
      currentPosition := 0;
    }

    /** The header of assem.py:400-410: magic, title, zero padding, then a fresh floating section. */
    method WriteHeader(title: seq<byte>)
      modifies this
      ensures Snapshot() == Header(old(Snapshot()), title)
      ensures layout == old(layout)
    {
      NewSection("header", 0);
      ghost var h := Snapshot();
      ba := ba + [0xCA, 0x55];
      ba := ba + title;
      ba := ba + Zeros(if |title| <= 126 then 126 - |title| else 0);
      assert ba == h.ba + HeaderBytes(title);
      NewSection("?", -1);
    }

    /**
     * `handle_directive` (assem.py:319-354); the bytes of each file that
     * `#include_bin` may name are given in `files`.
     */
    method HandleDirective(dct: string, args: seq<Operand>, files: map<string, seq<byte>>) returns (fault: Option<Fault>)
      modifies this
      ensures Step(Snapshot(), fault) == Directive(old(Snapshot()), dct, args, files)
      ensures layout == old(layout)
    {
      fault := None;
      if dct == AtDirective {
        if |args| != 2 {
          fault := Some(Reject(AtArity));
        } else if !args[0].Num? {
          fault := Some(Reject(AtOffset));
        } else if !args[1].Str? {
          fault := Some(Reject(AtName));
        } else {
          NewSection(args[1].text, args[0].value);
        }
      } else if dct == SectionDirective {
        if |args| != 1 {
          fault := Some(Reject(SectionArity));
        } else if !args[0].Str? {
          fault := Some(Reject(SectionName));
        } else {
          NewSection(args[0].text, -1);
        }
      } else if dct == IncludeDirective {
        if |args| != 1 {
          fault := Some(Reject(IncludeArity));
        } else if !args[0].Str? {
          fault := Some(Reject(IncludeName));
        } else if args[0].text !in files {
          fault := Some(Crash(NoFile));
        } else {
          var bin := files[args[0].text];
          ba := ba + bin;
          currentPosition := currentPosition + |bin|;
        }
      } else {
        fault := Some(Reject("unknown directive '" + dct + "'"));
      }
    }

    /**
     * One pass of the loop body of assem.py:416-436: a directive, an
     * instruction whose bytes (and relocation) are appended, or a label
     * bound to the current fragment and position.
     */
    method AssembleLine(rec: Record, files: map<string, seq<byte>>) returns (fault: Option<Fault>)
      modifies this
      ensures Step(Snapshot(), fault) == Dispatch(old(Snapshot()), rec, files)
      ensures layout == old(layout)
    {
      fault := None;
      match rec
      case LabelLine(line, name) =>
        lineno := line;
        labels := labels[name := LabelLoc(fragmentId, currentPosition)];
      case Line(line, instr, args) =>
        lineno := line;
        if |instr| > 0 && instr[0] == '#' {
          fault := HandleDirective(instr, args, files);
        } else if instr == LabelMarker {
          fault := Some(Crash(Unhashable));
        } else {
          match EncodeInstruction(instr, args)
          case Err(f) =>
            fault := Some(f);
          case Ok(e) =>
            AddInstruction(e);
        }
    }

    /**
     * `ba += opcode` and the position update of assem.py:428-431, with the
     * relocation the encoder appends to `jump_list` for a label operand.
     */
    method AddInstruction(e: Encoded)
      modifies this
      ensures Snapshot() == Emit(old(Snapshot()), e)
      ensures layout == old(layout)
    {
      if e.reloc.Some? {
        relocs := relocs + [Reloc(lineno, fragmentId, currentPosition + 2, e.reloc.value)];
      }
      ba := ba + e.bytes;
      currentPosition := currentPosition + |e.bytes|;
    }

    /**
     * The loop over all parsed lines: a rejected line is counted and the
     * loop goes on; any other exception ends the run with its reason.
     */
    method AssembleAll(recs: seq<Record>, files: map<string, seq<byte>>) returns (errors: nat, crash: Option<string>)
      modifies this
      ensures Run(Snapshot(), errors, crash) == Records(old(Snapshot()), recs, files)
      ensures layout == old(layout)
    {
      errors, crash := 0, None;
      var i := 0;
      while i < |recs|
        invariant 0 <= i <= |recs|
        invariant Records(old(Snapshot()), recs, files) == AddErrors(Records(Snapshot(), recs[i..], files), errors)
        invariant layout == old(layout)
      {
        ghost var s := Snapshot();
        assert recs[i..][0] == recs[i] && recs[i..][1..] == recs[i + 1..];
        var fault := AssembleLine(recs[i], files);
        match fault {
          case None =>
          case Some(Reject(_)) =>
            errors := errors + 1;
          case Some(Crash(reason)) =>
            crash := Some(reason);
            return;
        }
        i := i + 1;
      }
    }

    /**
     * The walk of assem.py:465-472: add up the slots' extents until one
     * reaches past the requested offset, or the slots run out.
     */
    method FindRun(p: Piece) returns (i: nat, byteIndex: int)
      ensures i <= |layout| && byteIndex == Total(layout[..i])
      ensures i < |layout| ==> byteIndex + layout[i].size > p.offset
      ensures ScanFixed(layout, p.offset, p.size, p.index) ==
        PrependAll(layout[..i], ScanFixed(layout[i..], p.offset - byteIndex, p.size, p.index))
    {
      byteIndex := 0;
      i := 0;
      while i < |layout|
        invariant 0 <= i <= |layout|
        invariant byteIndex == Total(layout[..i])
        invariant i == 0 || byteIndex <= p.offset
      {
        var next := byteIndex + layout[i].size;
        if next > p.offset {
          break;
        }
        PrefixStep(layout, i);
        byteIndex := next;
        i := i + 1;
      }
      ScanSkip(layout, i, p.offset, p.size, p.index);
    }

    /**
     * The scan of assem.py:465-505 for one fixed fragment: split the free
     * run the offset falls in around the fragment, report the slot it
     * collides with, or, past the last slot, append a gap and the fragment.
     */
    method PlaceFixed(p: Piece) returns (out: FixedOutcome)
      modifies this
      ensures out == ScanFixed(old(layout), p.offset, p.size, p.index)
      ensures layout == (if out.Placed? then out.layout else old(layout))
      ensures Snapshot() == old(Snapshot())
    {
      ghost var l := layout;
      var i, byteIndex := FindRun(p);
      var freeBefore := p.offset - byteIndex;
      ghost var rest := ScanFixed(l[i..], freeBefore, p.size, p.index);
      assert ScanFixed(l, p.offset, p.size, p.index) == PrependAll(l[..i], rest);
      if i == |layout| {
        assert l[i..] == [] && l[..i] == l;
        AppendFixed(freeBefore, p);
        return Placed(layout);
      }
      ScanHere(l, i, freeBefore, p.size, p.index);
      if layout[i].Frag? {
        return Overlap(layout[i].index);
      }
      var freeAfter := byteIndex + layout[i].size - (p.offset + p.size);
      if freeAfter < 0 && i < |layout| - 1 {
        if layout[i + 1].Free? {
          return NotAFragment;
        }
        return Overlap(layout[i + 1].index);
      }
      SplitFree(i, freeBefore, freeAfter, p);
      assert rest.Placed? && layout == l[..i] + rest.layout;
      out := Placed(layout);
    }

    /** Past the last slot: a free gap up to the offset, then the fragment (assem.py:499-505). */
    method AppendFixed(gap: int, p: Piece)
      modifies this
      ensures layout == old(layout) + Pad(gap) + [Frag(p.index, p.size)]
      ensures Snapshot() == old(Snapshot())
    {
      if gap > 0 {
        layout := layout + [Free(gap)];
      }
      layout := layout + [Frag(p.index, p.size)];
    }

    /**
     * Slot `i` is replaced by the free bytes before the fragment, the
     * fragment and the free bytes after it (assem.py:481-495).
     */
    method SplitFree(i: nat, freeBefore: int, freeAfter: int, p: Piece)
      requires i < |layout|
      modifies this
      ensures layout == old(layout)[..i] +
        (Pad(freeBefore) + [Frag(p.index, p.size)] + Pad(freeAfter) + old(layout)[i + 1..])
      ensures Snapshot() == old(Snapshot())
    {
      var newList: seq<Slot> := [];
      if freeBefore > 0 {
        newList := newList + [Free(freeBefore)];
      }
      newList := newList + [Frag(p.index, p.size)];
      if freeAfter > 0 {
        newList := newList + [Free(freeAfter)];
      }
      assert newList == Pad(freeBefore) + [Frag(p.index, p.size)] + Pad(freeAfter);
      layout := layout[..i] + (newList + layout[i + 1..]);
    }
  
    /**
     * Phase 1 (assem.py:448-515): every fixed-offset fragment in turn,
     * starting from the layout `[1]`.  A misaligned offset is counted as
     * an error and the loop goes on; an overlap is counted; looking for a
     * fragment in a free run is the `TypeError` that ends the run.
     */
    method PlaceFixedFragments() returns (errors: nat, crashed: bool)
      modifies this
      ensures FixedPass(old(layout), FixedPieces(fragments, 0)) == FixedResult(layout, errors, crashed)
      ensures Snapshot() == old(Snapshot())
    {
      ghost var l0, frags := layout, fragments;
      errors, crashed := 0, false;
      var k := 0;
      while k < |fragments|
        invariant 0 <= k <= |fragments| && Snapshot() == old(Snapshot()) && fragments == frags
        invariant FixedPass(l0, FixedPieces(frags, 0)) == AddErrorsN(FixedPass(layout, FixedPieces(frags, k)), errors)
      {
        var e, c := PlaceOne(k);
        if c {
          crashed := true;
          return;
        }
        errors := errors + e;
        k := k + 1;
      }
      assert FixedPieces(frags, k) == [];
    }

    /** One round of the loop of phase 1: fragment `k`, if its offset is fixed. */
    method PlaceOne(k: nat) returns (errors: nat, crashed: bool)
      requires k < |fragments|
      modifies this
      ensures errors <= 1
      ensures crashed ==> FixedPass(old(layout), FixedPieces(fragments, k)) == FixedResult(layout, 0, true)
      ensures !crashed ==>
        FixedPass(old(layout), FixedPieces(fragments, k)) == AddErrorsN(FixedPass(layout, FixedPieces(fragments, k + 1)), errors)
      ensures Snapshot() == old(Snapshot())
    {
      ghost var l := layout;
      ghost var rest := FixedPieces(fragments, k + 1);
      errors, crashed := 0, false;
      FixedPiecesStep(fragments, k);
      if fragments[k].offset == -1 {
        assert FixedPieces(fragments, k) == rest;
        assert FixedPass(l, rest) == AddErrorsN(FixedPass(l, rest), 0);
        return;
      }
      var p := Piece(k, fragments[k].offset, |fragments[k].data|);
      assert FixedPieces(fragments, k) == [p] + rest;
      FixedPassCons(l, p, rest);
      if p.offset % 2 == 1 {
        errors := 1;
        assert FixedPass(l, [p] + rest) == AddErrorsN(FixedPass(l, rest), 1);
        return;
      }
      var out := PlaceFixed(p);
      match out {
        case NotAFragment =>
          crashed := true;
        case Overlap(_) =>
          errors := 1;
          assert FixedPass(l, [p] + rest) == AddErrorsN(FixedPass(layout, rest), 1);
        case Placed(l') =>
          assert FixedPass(l, [p] + rest) == AddErrorsN(FixedPass(layout, rest), 0);
      }
    }

    /**
     * The walk of assem.py:522-533 for a floating fragment of `n` bytes:
     * add up the slots' extents until a free run is at least `n` long, or
     * the slots run out.
     */
    method FindSpace(n: nat, k: nat) returns (i: nat, byteOffset: nat)
      ensures i <= |layout| && byteOffset == Total(layout[..i])
      ensures i < |layout| ==> layout[i].Free? && n <= layout[i].size
      ensures Fit(layout, n, k) == Shift(layout[..i], Fit(layout[i..], n, k))
    {
      byteOffset := 0;
      i := 0;
      while i < |layout|
        invariant 0 <= i <= |layout| && byteOffset == Total(layout[..i])
        invariant forall j :: 0 <= j < i ==> !(layout[j].Free? && n <= layout[j].size)
      {
        if layout[i].Free? && n <= layout[i].size {
          break;
        }
        PrefixStep(layout, i);
        byteOffset := byteOffset + layout[i].size;
        i := i + 1;
      }
      FitSkip(layout, i, n, k);
    }

    /**
     * One floating fragment (assem.py:520-545): the first free run that
     * is long enough takes it at its start, what is left of the run stays
     * free, and past the last slot it is appended; its offset is recorded.
     */
    method PlaceFloating(k: nat) returns (at: nat)
      requires k < |fragments|
      modifies this
      ensures var f := Fit(old(layout), |old(fragments)[k].data|, k); layout == f.layout && at == f.at
      ensures fragments == old(fragments)[k := old(fragments)[k].(offset := at)]
      ensures Snapshot() == old(Snapshot()).(fragments := fragments)
    {
      ghost var l := layout;
      var size := |fragments[k].data|;
      var i, byteOffset := FindSpace(size, k);
      if i == |layout| {
        assert l[i..] == [] && l[..i] == l;
        layout := layout + [Frag(k, size)];
      } else {
        var space := layout[i].size;
        var newList := [Frag(k, size)];
        if size != space {
          newList := newList + [Free(space - size)];
        }
        assert l[i..][0] == l[i] && l[i..][1..] == l[i + 1..];
        assert Fit(l[i..], size, k) == Fitted(newList + l[i + 1..], 0);
        layout := layout[..i] + (newList + layout[i + 1..]);
      }
      fragments := fragments[k := fragments[k].(offset := byteOffset)];
      at := byteOffset;
    }

    /** Phase 2 (assem.py:517-545): every floating fragment in turn. */
    method PlaceFloatingFragments()
      modifies this
      ensures var items := FloatingItems(old(fragments), 0); var r := FloatPass(old(layout), items);
        layout == r.layout && fragments == SetOffsets(old(fragments), items, r.at)
      ensures Snapshot() == old(Snapshot()).(fragments := fragments)
    {
      ghost var l0, f0 := layout, fragments;
      var k := 0;
      while k < |fragments|
        invariant k <= |fragments| == |f0| && Snapshot() == old(Snapshot()).(fragments := fragments)
        invariant forall j :: k <= j < |f0| ==> fragments[j] == f0[j]
        invariant FloatFrom(f0, 0, l0, f0) == FloatFrom(f0, k, layout, fragments)
      {
        if fragments[k].offset == -1 {
          var at := PlaceFloating(k);
        }
        k := k + 1;
      }
      FloatFromPass(f0, 0, l0, f0);
    }

    /**
     * The relocation pass (assem.py:551-589): each relocation's label is
     * looked up; a missing one is counted, otherwise the label's fragment
     * offset plus its position is written big-endian over the two bytes
     * of the jump.  An index past the fragments or an address outside
     * 16 bits is the exception that ends the run.
     */
    method ResolveLabels() returns (missing: nat, crash: Option<string>)
      modifies this
      ensures var r := Resolve(Datas(old(fragments)), Offsets(old(fragments)), labels, relocs);
        (crash.Some? <==> r.ResolveCrash?) &&
        (r.ResolveCrash? ==> crash.value == r.reason) &&
        (r.Resolved? ==> missing == r.missing && Datas(fragments) == r.datas)
      ensures Offsets(fragments) == Offsets(old(fragments))
      ensures Snapshot() == old(Snapshot()).(fragments := fragments) && layout == old(layout)
    {
      ghost var d0, o0 := Datas(fragments), Offsets(fragments);
      missing, crash := 0, None;
      var i := 0;
      while i < |relocs|
        invariant i <= |relocs| && Snapshot() == old(Snapshot()).(fragments := fragments) && layout == old(layout)
        invariant Offsets(fragments) == o0 && crash.None?
        invariant Resolve(d0, o0, labels, relocs) == AddMissingN(Resolve(Datas(fragments), o0, labels, relocs[i..]), missing)
      {
        var miss;
        miss, crash := ResolveOne(relocs[i], relocs[i + 1..]);
        assert relocs[i..] == [relocs[i]] + relocs[i + 1..];
        if crash.Some? {
          assert Resolve(d0, o0, labels, relocs) == ResolveCrash(crash.value);
          return;
        }
        missing := missing + miss;
        i := i + 1;
      }
      assert relocs[i..] == [];
      assert Resolve(d0, o0, labels, relocs) == Resolved(Datas(fragments), missing);
    }

    /** One relocation of the pass, with `rest` the ones after it. */
    method ResolveOne(r: Reloc, ghost rest: seq<Reloc>) returns (miss: nat, crash: Option<string>)
      modifies this
      ensures crash.Some? ==>
        Resolve(Datas(old(fragments)), Offsets(old(fragments)), labels, [r] + rest) == ResolveCrash(crash.value)
      ensures crash.None? ==>
        Resolve(Datas(old(fragments)), Offsets(old(fragments)), labels, [r] + rest) ==
        AddMissingN(Resolve(Datas(fragments), Offsets(fragments), labels, rest), miss)
      ensures Offsets(fragments) == Offsets(old(fragments))
      ensures Snapshot() == old(Snapshot()).(fragments := fragments) && layout == old(layout)
    {
      ghost var d, o := Datas(fragments), Offsets(fragments);
      miss, crash := 0, None;
      ResolveCons(d, o, labels, r, rest);
      if !r.target.Name? || r.target.ident !in labels {
        miss := 1;
        assert Resolve(d, o, labels, [r] + rest) == AddMissingN(Resolve(d, o, labels, rest), 1);
        return;
      }
      var loc := labels[r.target.ident];
      if loc.frag >= |fragments| {
        return 0, Some("list index out of range");
      }
      var jumpTo := fragments[loc.frag].offset + loc.pos;
      if jumpTo < 0 || jumpTo >= 65536 {
        return 0, Some("bytes must be in range(0, 256)");
      }
      if r.frag >= |fragments| {
        return 0, Some("list index out of range");
      }
      PatchFragment(r.frag, r.pos, Word(jumpTo));
      ghost var x := Resolve(Datas(fragments), o, labels, rest);
      assert Resolve(d, o, labels, [r] + rest) == x == AddMissingN(x, 0);
    }

    /** `fragments[f]['data'][pos:pos+2] = w` */
    method PatchFragment(f: nat, pos: nat, w: seq<byte>)
      requires f < |fragments|
      modifies this
      ensures Datas(fragments) == Patch(Datas(old(fragments)), f, pos, w)
      ensures Offsets(fragments) == Offsets(old(fragments))
      ensures Snapshot() == old(Snapshot()).(fragments := fragments) && layout == old(layout)
    {
      DatasPatch(fragments, f, w, pos);
      fragments := fragments[f := fragments[f].(data := Splice(fragments[f].data, pos, w))];
    }

    /** The bytes of the output file (assem.py:594-599): zeros for a free run, a fragment's data for a fragment. */
    method EmitImage() returns (image: seq<byte>)
      requires Consistent(layout, Datas(fragments))
      ensures image == Image(layout, Datas(fragments))
    {
      ghost var datas := Datas(fragments);
      image := [];
      var i := 0;
      while i < |layout|
        invariant i <= |layout|
        invariant Consistent(layout[i..], datas)
        invariant image + Image(layout[i..], datas) == Image(layout, datas)
      {
        ImageStep(layout, i, datas);
        var piece := if layout[i].Free? then Zeros(layout[i].size) else fragments[layout[i].index].data;
        assert image + Image(layout[i..], datas) == (image + piece) + Image(layout[i + 1..], datas);
        image := image + piece;
        i := i + 1;
      }
      assert layout[i..] == [];
    }

    /**
     * Everything after the line loop once the last section is closed
     * (assem.py:440-599): phase 1, phase 2, the relocation pass and the
     * image, stopping at the first stage that reports errors.
     */
    method Link() returns (outcome: Outcome)
      requires Linkable(fragments, relocs) && layout == [Free(1)]
      modifies this
      ensures outcome == Driver.Link(old(fragments), old(labels), old(relocs))
    {
      ghost var f0 := fragments;
      var errors, crashed := PlaceFixedFragments();
      if crashed {
        return Crashed("'int' object is not subscriptable");
      }
      if errors > 0 {
        return Misplaced(errors);
      }
      PlaceFloatingFragments();
      assert Arrange(f0) == Arrangement(layout, 0, false, fragments);
      var missing, crash := ResolveLabels();
      if crash.Some? {
        return Crashed(crash.value);
      }
      if missing > 0 {
        return Unresolved(missing);
      }
      LinkConsistent(f0, labels, relocs);
      var image := EmitImage();
      outcome := Written(image);
    }

    /**
     * One run of the assembler (assem.py:386-601) on the parsed lines, the
     * title argument and the files `#include_bin` may open: exactly
     * `Driver.Build`.
     */
    static method Assemble(title: Option<seq<byte>>, recs: seq<Record>, files: map<string, seq<byte>>)
      returns (outcome: Outcome)
      ensures outcome == Build(title, recs, files)
    {
      var t := if title.Some? then title.value else DefaultTitle;
      if |t| > 30 {
        return TitleTooLong;
      }
      BuildConcludes(title, recs, files);
      var a := new Assembler();
      a.WriteHeader(t);
      var errors, crash := a.AssembleAll(recs, files);
      ghost var run := Run(a.Snapshot(), errors, crash);
      assert run == LineLoop(t, recs, files);
      if crash.Some? {
        return Crashed(crash.value);
      }
      if errors > 0 {
        return EncodingErrors(errors);
      }
      a.EndSection();
      ClosedLinkable(t, run.state);
      outcome := a.Link();
    }
}
}
