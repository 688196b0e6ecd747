/**
 * The first half of the assembler's driver (assem.py:290-354, 400-438) on
 * values: the globals that collect sections into fragments, the header
 * record, the three directives, and the loop over parsed lines that
 * encodes instructions, records labels and counts errors.  The session
 * class runs the same steps on its fields and is proved to agree with
 * these functions.
 */
module Sections {
  import opened Common
  import opened Operands
  import opened Encoder
  import opened Linker

  /** A finished section: its name, requested offset (-1 for anywhere) and bytes. */
  datatype Fragment = Fragment(name: string, offset: int, data: seq<byte>)

  /**
   * One parsed line: an instruction, a directive or hex data with its
   * operands, or a label definition.
   */
  datatype Record =
    | Line(lineno: nat, instr: string, args: seq<Operand>)
    | LabelLine(lineno: nat, name: string)

  /** The module-level variables of the assembler. */
  datatype State = State(
    ba: seq<byte>,                 // bytes of the open section
    fragments: seq<Fragment>,
    fragmentId: nat,               // index the open section will get
    currentPosition: nat,
    sectionOffset: int,
    sectionId: string,
    labels: map<string, LabelLoc>,
    relocs: seq<Reloc>,            // `jump_list`
    lineno: nat)

  /** The variables as the module defines them before `__main__` runs. */
  const Start: State := State([], [], 0, 0, -1, "?", map[], [], 0)

  /** A step of the driver: the new variables and, if it raised, what. */
  datatype Step = Step(state: State, fault: Option<Fault>)

  // ---------------------------------------------------------------------
  // Sections

  /** `end_section`: the open section becomes a fragment unless it is empty. */
  function EndSection(s: State): State {
    if |s.ba| > 0 then
      s.(fragments := s.fragments + [Fragment(s.sectionId, s.sectionOffset, s.ba)],
         fragmentId := s.fragmentId + 1)
    else s
  }

  /** `new_section`: close the open section and open an empty one. */
  function NewSection(s: State, sid: string, offset: int): State {
    EndSection(s).(sectionOffset := offset, sectionId := sid, ba := [], currentPosition := 0)
  }

  /** The 128 header bytes: magic, the title's bytes, zero padding. */
  function HeaderBytes(title: seq<byte>): seq<byte> {
    [0xCA, 0x55] + title + Zeros(if |title| <= 126 then 126 - |title| else 0)
  }

  /**
   * The header of assem.py:400-410: a section "header" at offset 0 holding
   * the header bytes, then a fresh floating section "?".  The position is
   * not advanced while the header bytes are written.
   */
  function Header(s: State, title: seq<byte>): State {
    var h := NewSection(s, "header", 0);
    NewSection(h.(ba := h.ba + HeaderBytes(title)), "?", -1)
  }

  // ---------------------------------------------------------------------
  // Lines

  // The directives, the marker a misparsed label leaves, and what it raises.
  const Unhashable := "unhashable type: 'list'"
  const LabelMarker := "(label)"
  const AtDirective := "#at"
  const SectionDirective := "#section"
  const IncludeDirective := "#include_bin"

  // The messages `handle_directive` raises.
  const AtArity := "#at needs two arguments: offset and section name"
  const AtOffset := "first argument to #at must be integer offset"
  const AtName := "second argument to #at must be string"
  const SectionArity := "#section needs one argument: section name"
  const SectionName := "argument to #section must be string"
  const IncludeArity := "#include_bin needs one argument: file name to include"
  const IncludeName := "argument to #include_bin must be string"
  const NoFile := "No such file or directory"

  /** `handle_directive`; a file the map lacks is the `open` that raises. */
  function Directive(s: State, dct: string, args: seq<Operand>, files: map<string, seq<byte>>): Step {
    if dct == AtDirective then
      if |args| != 2 then Step(s, Some(Reject(AtArity)))
      else if !args[0].Num? then Step(s, Some(Reject(AtOffset)))
      else if !args[1].Str? then Step(s, Some(Reject(AtName)))
      else Step(NewSection(s, args[1].text, args[0].value), None)
    else if dct == SectionDirective then
      if |args| != 1 then Step(s, Some(Reject(SectionArity)))
      else if !args[0].Str? then Step(s, Some(Reject(SectionName)))
      else Step(NewSection(s, args[0].text, -1), None)
    else if dct == IncludeDirective then
      if |args| != 1 then Step(s, Some(Reject(IncludeArity)))
      else if !args[0].Str? then Step(s, Some(Reject(IncludeName)))
      else if args[0].text !in files then Step(s, Some(Crash(NoFile)))
      else
        var bin := files[args[0].text];
        Step(s.(ba := s.ba + bin, currentPosition := s.currentPosition + |bin|), None)
    else Step(s, Some(Reject("unknown directive '" + dct + "'")))
  }

  /**
   * Append an encoded instruction to the open section; an instruction
   * that names a label leaves a relocation for the two bytes after its
   * first two.
   */
  function Emit(s: State, e: Encoded): State {
    s.(relocs := if e.reloc.Some? then s.relocs + [Reloc(s.lineno, s.fragmentId, s.currentPosition + 2, e.reloc.value)]
                 else s.relocs,
       ba := s.ba + e.bytes,
       currentPosition := s.currentPosition + |e.bytes|)
  }

  /** The body of the loop of assem.py:416-436 for one line. */
  function Dispatch(s: State, rec: Record, files: map<string, seq<byte>>): Step {
    match rec
    case LabelLine(line, name) =>
      Step(s.(lineno := line, labels := s.labels[name := LabelLoc(s.fragmentId, s.currentPosition)]), None)
    case Line(line, instr, args) =>
      var s1 := s.(lineno := line);
      if |instr| > 0 && instr[0] == '#' then Directive(s1, instr, args, files)
      else if instr == LabelMarker then Step(s1, Some(Crash(Unhashable)))
      else
        match EncodeInstruction(instr, args)
        case Err(f) => Step(s1, Some(f))
        case Ok(e) => Step(Emit(s1, e), None)
  }

  /**
   * The whole loop: rejected lines are counted, any other exception stops
   * the run with its reason.
   */
  datatype Run = Run(state: State, errors: nat, crash: Option<string>)

  function AddErrors(r: Run, n: nat): Run {
    r.(errors := r.errors + n)
  }

  function Records(s: State, recs: seq<Record>, files: map<string, seq<byte>>): Run
    decreases |recs|
  {
    if recs == [] then Run(s, 0, None)
    else
      var st := Dispatch(s, recs[0], files);
      match st.fault
      case None => Records(st.state, recs[1..], files)
      case Some(Reject(_)) => AddErrors(Records(st.state, recs[1..], files), 1)
      case Some(Crash(reason)) => Run(st.state, 0, Some(reason))
  }

  // ---------------------------------------------------------------------
  // The invariant of the driver

  /** How many bytes fragment `f` has, the open section standing for index `fragmentId`. */
  function Room(s: State, f: nat): nat {
    if f < |s.fragments| then |s.fragments[f].data| else |s.ba|
  }

  /**
   * Relocations are in the order the bytes were written: by fragment,
   * and within one fragment each starts after the previous one's two bytes.
   */
  ghost predicate Ordered(relocs: seq<Reloc>) {
    forall i, j :: 0 <= i < j < |relocs| ==>
      relocs[i].frag < relocs[j].frag || (relocs[i].frag == relocs[j].frag && relocs[i].pos + 2 <= relocs[j].pos)
  }

  /**
   * What the driver keeps true between lines: `fragment_id` counts the
   * fragments, no fragment is empty, the position is the open section's
   * length, every relocation's two bytes lie inside the fragment (or the
   * open section) it names, and every label points into or just past the
   * bytes of its fragment.
   */
  ghost predicate Inv(s: State) {
    s.fragmentId == |s.fragments| &&
    s.currentPosition == |s.ba| &&
    (forall i :: 0 <= i < |s.fragments| ==> |s.fragments[i].data| > 0) &&
    (forall i :: 0 <= i < |s.relocs| ==>
       s.relocs[i].frag <= s.fragmentId && s.relocs[i].pos + 2 <= Room(s, s.relocs[i].frag)) &&
    Ordered(s.relocs) &&
    (forall name :: name in s.labels ==>
       s.labels[name].frag <= s.fragmentId && s.labels[name].pos <= Room(s, s.labels[name].frag))
  }

  lemma EndSectionInv(s: State)
    requires Inv(s)
    ensures Inv(EndSection(s))
    ensures forall f: nat :: f <= s.fragmentId ==> Room(EndSection(s), f) == Room(s, f)
  {
  }

  lemma NewSectionInv(s: State, sid: string, offset: int)
    requires Inv(s)
    ensures Inv(NewSection(s, sid, offset))
  {
    var e := EndSection(s);
    EndSectionInv(s);
    var t := NewSection(s, sid, offset);
    forall i | 0 <= i < |t.relocs|
      ensures t.relocs[i].frag <= t.fragmentId && t.relocs[i].pos + 2 <= Room(t, t.relocs[i].frag)
    {
      assert Room(t, s.relocs[i].frag) == Room(s, s.relocs[i].frag);
    }
    forall name | name in t.labels
      ensures t.labels[name].frag <= t.fragmentId && t.labels[name].pos <= Room(t, t.labels[name].frag)
    {
      if |s.ba| == 0 {
        assert t.labels[name].frag < t.fragmentId || t.labels[name].pos == 0;
      }
    }
  }

  lemma DirectiveInv(s: State, dct: string, args: seq<Operand>, files: map<string, seq<byte>>)
    requires Inv(s)
    ensures Inv(Directive(s, dct, args, files).state)
  {
    if dct == AtDirective && |args| == 2 && args[0].Num? && args[1].Str? {
      NewSectionInv(s, args[1].text, args[0].value);
    } else if dct == SectionDirective && |args| == 1 && args[0].Str? {
      NewSectionInv(s, args[0].text, -1);
    }
  }

  lemma EmitInv(s: State, e: Encoded)
    requires Inv(s)
    requires e.reloc.Some? ==> |e.bytes| == 4
    ensures Inv(Emit(s, e))
  {
    var t := Emit(s, e);
    assert forall f: nat :: f < s.fragmentId ==> Room(t, f) == Room(s, f);
    assert Room(t, s.fragmentId) == |s.ba| + |e.bytes|;
    forall i | 0 <= i < |t.relocs|
      ensures t.relocs[i].frag <= t.fragmentId && t.relocs[i].pos + 2 <= Room(t, t.relocs[i].frag)
    {
      if i < |s.relocs| {
        assert t.relocs[i] == s.relocs[i];
      }
    }
    forall i, j | 0 <= i < j < |t.relocs|
      ensures t.relocs[i].frag < t.relocs[j].frag ||
              (t.relocs[i].frag == t.relocs[j].frag && t.relocs[i].pos + 2 <= t.relocs[j].pos)
    {
      if j < |s.relocs| {
        assert t.relocs[i] == s.relocs[i] && t.relocs[j] == s.relocs[j];
      } else {
        assert t.relocs[i] == s.relocs[i];
      }
    }
  }

  /** Every line keeps the invariant, whatever it does. */
  lemma DispatchInv(s: State, rec: Record, files: map<string, seq<byte>>)
    requires Inv(s)
    ensures Inv(Dispatch(s, rec, files).state)
  {
    match rec
    case LabelLine(line, name) =>
      LabelInv(s, line, name);
    case Line(line, instr, args) =>
      var s1 := s.(lineno := line);
      LinenoInv(s, line);
      if |instr| > 0 && instr[0] == '#' {
        assert Dispatch(s, rec, files).state == Directive(s1, instr, args, files).state;
        DirectiveInv(s1, instr, args, files);
      } else if instr != LabelMarker {
        var r := EncodeInstruction(instr, args);
        if r.Ok? {
          assert Dispatch(s, rec, files).state == Emit(s1, r.value);
          EmitInv(s1, r.value);
        } else {
          assert Dispatch(s, rec, files).state == s1;
        }
      } else {
        assert Dispatch(s, rec, files).state == s1;
      }
  }

  lemma LinenoInv(s: State, line: nat)
    requires Inv(s)
    ensures Inv(s.(lineno := line))
  {
    var t := s.(lineno := line);
    assert forall f: nat :: Room(t, f) == Room(s, f);
  }

  lemma LabelInv(s: State, line: nat, name: string)
    requires Inv(s)
    ensures Inv(s.(lineno := line, labels := s.labels[name := LabelLoc(s.fragmentId, s.currentPosition)]))
  {
  }

  lemma {:induction false} RecordsInv(s: State, recs: seq<Record>, files: map<string, seq<byte>>)
    requires Inv(s)
    ensures Inv(Records(s, recs, files).state)
    decreases |recs|
  {
    if recs != [] {
      DispatchInv(s, recs[0], files);
      RecordsInv(Dispatch(s, recs[0], files).state, recs[1..], files);
    }
  }

  /**
   * After the header the variables hold one fragment, the 128 header
   * bytes at offset 0, and an empty floating section is open.
   */
  lemma HeaderState(title: seq<byte>)
    requires |title| <= 126
    ensures |HeaderBytes(title)| == 128
    ensures var s := Header(Start, title);
      Inv(s) && s.fragments == [Fragment("header", 0, HeaderBytes(title))] &&
      s.ba == [] && s.sectionId == "?" && s.sectionOffset == -1 && s.relocs == [] && s.labels == map[]
  {
    var h := NewSection(Start, "header", 0);
    assert h.fragments == [] && h.sectionId == "header" && h.sectionOffset == 0 && h.ba == [];
    assert h.(ba := h.ba + HeaderBytes(title)).ba == HeaderBytes(title);
  }

  /**
   * What a line can do to what came before: finished fragments and
   * recorded relocations are kept, and new relocations belong to the open
   * section or to a later one.
   */
  ghost predicate Grows(s: State, t: State) {
    s.fragments <= t.fragments && s.fragmentId <= t.fragmentId && s.relocs <= t.relocs &&
    forall i :: |s.relocs| <= i < |t.relocs| ==> t.relocs[i].frag >= s.fragmentId
  }

  lemma DispatchGrows(s: State, rec: Record, files: map<string, seq<byte>>)
    ensures Grows(s, Dispatch(s, rec, files).state)
  {
    match rec
    case LabelLine(line, name) =>
    case Line(line, instr, args) =>
      var s1 := s.(lineno := line);
      if |instr| > 0 && instr[0] == '#' {
        DirectiveGrows(s1, instr, args, files);
      } else if instr != LabelMarker {
        var r := EncodeInstruction(instr, args);
        if r.Ok? {
          assert Dispatch(s, rec, files).state == Emit(s1, r.value);
          EmitGrows(s1, r.value);
        }
      }
  }

  lemma DirectiveGrows(s: State, dct: string, args: seq<Operand>, files: map<string, seq<byte>>)
    ensures Grows(s, Directive(s, dct, args, files).state)
  {
    var t := Directive(s, dct, args, files).state;
    if dct == AtDirective && |args| == 2 && args[0].Num? && args[1].Str? {
      NewSectionGrows(s, args[1].text, args[0].value);
    } else if dct == SectionDirective && |args| == 1 && args[0].Str? {
      NewSectionGrows(s, args[0].text, -1);
    } else {
      assert t.fragments == s.fragments && t.fragmentId == s.fragmentId && t.relocs == s.relocs;
      GrowsKeep(s, t);
    }
  }

  lemma GrowsKeep(s: State, t: State)
    requires t.fragments == s.fragments && t.fragmentId == s.fragmentId && t.relocs == s.relocs
    ensures Grows(s, t)
  {
  }

  lemma NewSectionGrows(s: State, sid: string, offset: int)
    ensures Grows(s, NewSection(s, sid, offset))
  {
  }

  lemma EmitGrows(s: State, e: Encoded)
    ensures Grows(s, Emit(s, e))
  {
  }

  lemma {:induction false} RecordsGrows(s: State, recs: seq<Record>, files: map<string, seq<byte>>)
    ensures Grows(s, Records(s, recs, files).state)
    decreases |recs|
  {
    if recs != [] {
      var t := Dispatch(s, recs[0], files).state;
      DispatchGrows(s, recs[0], files);
      RecordsGrows(t, recs[1..], files);
      var u := Records(s, recs, files).state;
      forall i | |s.relocs| <= i < |u.relocs| ensures u.relocs[i].frag >= s.fragmentId {
        if i < |t.relocs| {
          assert u.relocs[i] == t.relocs[i];
        }
      }
    }
  }

  /**
   * A label names the address of the instruction that follows it: the
   * instruction's bytes start at the label's position in the label's
   * fragment.
   */
  lemma LabelMarksNext(s: State, line1: nat, name: string, line2: nat, instr: string, args: seq<Operand>,
                       files: map<string, seq<byte>>)
    requires Inv(s)
    requires !(|instr| > 0 && instr[0] == '#') && instr != LabelMarker && EncodeInstruction(instr, args).Ok?
    ensures var t := Dispatch(Dispatch(s, LabelLine(line1, name), files).state, Line(line2, instr, args), files).state;
      var e := EncodeInstruction(instr, args).value;
      name in t.labels && t.labels[name].frag == t.fragmentId &&
      t.labels[name].pos + |e.bytes| == |t.ba| && t.ba[t.labels[name].pos..] == e.bytes
  {
  }

  /**
   * Closing the last section leaves every fragment non-empty, every
   * relocation inside a fragment, and every label at most one past the
   * last fragment.
   */
  lemma Finish(s: State)
    requires Inv(s)
    ensures var e := EndSection(s);
      (forall i :: 0 <= i < |e.fragments| ==> |e.fragments[i].data| > 0) &&
      (forall i :: 0 <= i < |s.relocs| ==>
         s.relocs[i].frag < |e.fragments| && s.relocs[i].pos + 2 <= |e.fragments[s.relocs[i].frag].data|) &&
      Ordered(s.relocs) &&
      (forall name :: name in s.labels ==> s.labels[name].frag <= |e.fragments|)
  {
    var e := EndSection(s);
    forall i | 0 <= i < |s.relocs|
      ensures s.relocs[i].frag < |e.fragments| && s.relocs[i].pos + 2 <= |e.fragments[s.relocs[i].frag].data|
    {
      assert s.relocs[i].pos + 2 <= Room(s, s.relocs[i].frag);
    }
  }
}
