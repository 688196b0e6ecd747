/**
 * The layout engine of the assembler (assem.py:448-551): a list of slots,
 * each a run of free bytes or a fragment, read left to right from address 0.
 * Phase 1 splits free runs to put fixed-offset fragments at their offsets;
 * phase 2 puts floating fragments into the first free run they fit.
 *
 * The meaning of a layout is `Cell`: which fragment, and which byte of it,
 * sits at an address.  Every placement is specified as an update of `Cell`.
 */
module Layout {
  import opened Common

  /** A slot; a fragment slot names the fragment by its index and carries its length. */
  datatype Slot = Free(size: nat) | Frag(index: nat, size: nat)

  /** Byte `within` of fragment `index`. */
  datatype Pos = Pos(index: nat, within: nat)

  function Total(l: seq<Slot>): nat {
    if l == [] then 0 else l[0].size + Total(l[1..])
  }

  /** What the layout holds at address `x`. */
  function Cell(l: seq<Slot>, x: int): Option<Pos> {
    if l == [] || x < 0 then None
    else if x < l[0].size then (if l[0].Frag? then Some(Pos(l[0].index, x)) else None)
    else Cell(l[1..], x - l[0].size)
  }

  /**
   * The shape both phases keep: no empty slot, and every free run is
   * followed by a fragment (so free runs are maximal and the last slot is
   * a fragment).
   */
  predicate Wellformed(l: seq<Slot>) {
    l == [] || (l[0].size > 0 && (l[0].Free? ==> |l| > 1 && l[1].Frag?) && Wellformed(l[1..]))
  }

  /** A free run of `n` bytes if `n` is positive, nothing otherwise. */
  function Pad(n: int): (r: seq<Slot>)
    ensures Total(r) == if n > 0 then n else 0
  {
    if n > 0 then [Free(n)] else []
  }

  lemma {:induction false} TotalConcat(a: seq<Slot>, b: seq<Slot>)
    ensures Total(a + b) == Total(a) + Total(b)
  {
    if a == [] {
      assert a + b == b;
    } else {
      assert (a + b)[0] == a[0];
      assert (a + b)[1..] == a[1..] + b;
      TotalConcat(a[1..], b);
    }
  }

  lemma {:induction false} CellConcat(a: seq<Slot>, b: seq<Slot>, x: int)
    ensures Cell(a + b, x) == if x < Total(a) then Cell(a, x) else Cell(b, x - Total(a))
  {
    if a != [] && x >= 0 && x >= a[0].size {
      assert (a + b)[1..] == a[1..] + b;
      CellConcat(a[1..], b, x - a[0].size);
    } else if a == [] {
      assert a + b == b;
    }
  }

  lemma {:induction false} CellBeyond(l: seq<Slot>, x: int)
    requires x >= Total(l)
    ensures Cell(l, x) == None
  {
    if l != [] && x >= 0 {
      CellBeyond(l[1..], x - l[0].size);
    }
  }

  lemma CellPad(n: int, x: int)
    ensures Cell(Pad(n), x) == None
  {
  }

  /** A fragment slot in front of the rest holds the fragment's bytes, then the rest. */
  lemma CellCons(s: Slot, rest: seq<Slot>, x: int)
    ensures Cell([s] + rest, x) ==
      if x < 0 then None
      else if x < s.size then (if s.Frag? then Some(Pos(s.index, x)) else None)
      else Cell(rest, x - s.size)
  {
    assert ([s] + rest)[1..] == rest;
  }

  /** No address in `[o, o + n)` is taken. */
  ghost predicate RangeFree(l: seq<Slot>, o: int, n: nat) {
    forall x :: o <= x < o + n ==> Cell(l, x).None?
  }

  /** Fragment `k` of length `n` occupies `[o, o + n)`, byte for byte. */
  ghost predicate Holds(l: seq<Slot>, k: nat, o: int, n: nat) {
    forall d :: 0 <= d < n ==> Cell(l, o + d) == Some(Pos(k, d))
  }

  // ---------------------------------------------------------------------
  // Phase 1: one fixed-offset fragment

  /** What the scan of phase 1 does with one fragment. */
  datatype FixedOutcome =
    | Placed(layout: seq<Slot>)
    | Overlap(other: nat)   // the fragment it collides with
    | NotAFragment          // `layout[i+1]['offset']` on a free run: a TypeError

  function Prepend(s: Slot, out: FixedOutcome): FixedOutcome {
    if out.Placed? then Placed([s] + out.layout) else out
  }

  /**
   * The loop of assem.py:465-505 on the slots from some index on, with the
   * requested offset `o` taken relative to the first of them.  A fragment
   * slot reaching past `o` is an overlap; a free run reaching past `o` is
   * split around the fragment unless the fragment runs out of it into a
   * following slot; running off the end appends a gap and the fragment.
   */
  function ScanFixed(rest: seq<Slot>, o: int, n: nat, k: nat): FixedOutcome
    decreases |rest|
  {
    if rest == [] then Placed(Pad(o) + [Frag(k, n)])
    else if rest[0].size <= o then Prepend(rest[0], ScanFixed(rest[1..], o - rest[0].size, n, k))
    else if rest[0].Frag? then Overlap(rest[0].index)
    else if rest[0].size - (o + n) < 0 && |rest| > 1 then
      (if rest[1].Frag? then Overlap(rest[1].index) else NotAFragment)
    else Placed(Pad(o) + [Frag(k, n)] + Pad(rest[0].size - (o + n)) + rest[1..])
  }

  /** On a well-formed layout the scan never looks for a fragment in a free run. */
  lemma {:induction false} ScanFixedNoCrash(rest: seq<Slot>, o: int, n: nat, k: nat)
    requires Wellformed(rest)
    ensures !ScanFixed(rest, o, n, k).NotAFragment?
    decreases |rest|
  {
    if rest != [] && rest[0].size <= o {
      ScanFixedNoCrash(rest[1..], o - rest[0].size, n, k);
    }
  }

  /**
   * A placed fragment starts exactly at its offset, the bytes it takes
   * were free, and every other address keeps what it held.
   */
  lemma ScanFixedPlaced(rest: seq<Slot>, o: int, n: nat, k: nat)
    requires o >= 0
    requires ScanFixed(rest, o, n, k).Placed?
    ensures RangeFree(rest, o, n)
    ensures forall x ::
              Cell(ScanFixed(rest, o, n, k).layout, x) == (if o <= x < o + n then Some(Pos(k, x - o)) else Cell(rest, x))
  {
    forall x ensures Cell(ScanFixed(rest, o, n, k).layout, x) ==
      (if o <= x < o + n then Some(Pos(k, x - o)) else Cell(rest, x))
    {
      ScanFixedCell(rest, o, n, k, x);
    }
    forall x | o <= x < o + n ensures Cell(rest, x).None? {
      ScanFixedCell(rest, o, n, k, x);
    }
  }

  lemma {:induction false} ScanFixedCell(rest: seq<Slot>, o: int, n: nat, k: nat, x: int)
    requires o >= 0
    requires ScanFixed(rest, o, n, k).Placed?
    ensures Cell(ScanFixed(rest, o, n, k).layout, x) ==
      (if o <= x < o + n then Some(Pos(k, x - o)) else Cell(rest, x))
    ensures o <= x < o + n ==> Cell(rest, x).None?
    decreases |rest|
  {
    var r := ScanFixed(rest, o, n, k).layout;
    if rest == [] {
      CellConcat(Pad(o), [Frag(k, n)], x);
      CellPad(o, x);
      CellCons(Frag(k, n), [], x - o);
    } else {
      var s := rest[0];
      assert rest == [s] + rest[1..];
      CellCons(s, rest[1..], x);
      if s.size <= o {
        var r' := ScanFixed(rest[1..], o - s.size, n, k).layout;
        assert r == [s] + r';
        CellCons(s, r', x);
        ScanFixedCell(rest[1..], o - s.size, n, k, x - s.size);
      } else {
        assert r == Pad(o) + [Frag(k, n)] + Pad(s.size - (o + n)) + rest[1..];
        SplitCell(s.size, rest[1..], o, n, k, x);
      }
    }
  }

  /** The cells of a free run of `size` bytes split around a fragment of `n` bytes at `o`. */
  lemma SplitCell(size: nat, after: seq<Slot>, o: int, n: nat, k: nat, x: int)
    requires 0 <= o < size && (size - (o + n) < 0 ==> after == [])
    ensures Cell(Pad(o) + [Frag(k, n)] + Pad(size - (o + n)) + after, x) ==
      (if o <= x < o + n then Some(Pos(k, x - o)) else Cell([Free(size)] + after, x))
  {
    var m := size - (o + n);
    var tail := Pad(m) + after;
    assert Pad(o) + [Frag(k, n)] + Pad(m) + after == Pad(o) + ([Frag(k, n)] + tail);
    CellConcat(Pad(o), [Frag(k, n)] + tail, x);
    CellCons(Free(size), after, x);
    if x < o {
      CellPad(o, x);
    } else {
      CellCons(Frag(k, n), tail, x - o);
      if x >= o + n {
        CellConcat(Pad(m), after, x - o - n);
        CellPad(m, x - o - n);
        if m < 0 {
          assert after == [];
        }
      }
    }
  }

  /** Placing a fragment stretches the layout to its end if it ends beyond it. */
  lemma {:induction false} ScanFixedTotal(rest: seq<Slot>, o: int, n: nat, k: nat)
    requires o >= 0
    requires ScanFixed(rest, o, n, k).Placed?
    ensures Total(ScanFixed(rest, o, n, k).layout) == if Total(rest) > o + n then Total(rest) else o + n
    decreases |rest|
  {
    var r := ScanFixed(rest, o, n, k).layout;
    if rest == [] {
      TotalConcat(Pad(o), [Frag(k, n)]);
    } else {
      var s := rest[0];
      assert rest == [s] + rest[1..];
      TotalConcat([s], rest[1..]);
      if s.size <= o {
        var r' := ScanFixed(rest[1..], o - s.size, n, k).layout;
        assert r == [s] + r';
        TotalConcat([s], r');
        ScanFixedTotal(rest[1..], o - s.size, n, k);
      } else {
        var after := s.size - (o + n);
        var tail := Pad(after) + rest[1..];
        assert after < 0 ==> rest[1..] == [];
        assert r == Pad(o) + ([Frag(k, n)] + tail);
        TotalConcat(Pad(o), [Frag(k, n)] + tail);
        TotalConcat([Frag(k, n)], tail);
        TotalConcat(Pad(after), rest[1..]);
      }
    }
  }

  /** An overlap names a fragment that already holds a byte the new one asks for. */
  lemma {:induction false} ScanFixedOverlap(rest: seq<Slot>, o: int, n: nat, k: nat) returns (x: int)
    requires o >= 0 && n > 0 && Wellformed(rest)
    requires ScanFixed(rest, o, n, k).Overlap?
    ensures o <= x < o + n
    ensures Cell(rest, x).Some? && Cell(rest, x).value.index == ScanFixed(rest, o, n, k).other
    decreases |rest|
  {
    var s := rest[0];
    assert rest == [s] + rest[1..];
    if s.size <= o {
      var y := ScanFixedOverlap(rest[1..], o - s.size, n, k);
      x := y + s.size;
      CellCons(s, rest[1..], x);
    } else if s.Frag? {
      x := o;
      CellCons(s, rest[1..], x);
    } else {
      x := s.size;
      CellCons(s, rest[1..], x);
      CellCons(rest[1], rest[2..], 0);
      assert rest[1..] == [rest[1]] + rest[2..];
    }
  }

  /**
   * The scan places the fragment exactly when every byte it asks for is
   * free; otherwise it reports an overlap.
   */
  lemma FixedPlacedIff(l: seq<Slot>, o: int, n: nat, k: nat)
    requires o >= 0 && n > 0 && Wellformed(l)
    ensures ScanFixed(l, o, n, k).Placed? <==> RangeFree(l, o, n)
    ensures ScanFixed(l, o, n, k).Placed? || ScanFixed(l, o, n, k).Overlap?
  {
    ScanFixedNoCrash(l, o, n, k);
    if ScanFixed(l, o, n, k).Placed? {
      ScanFixedPlaced(l, o, n, k);
    } else {
      var x := ScanFixedOverlap(l, o, n, k);
    }
  }

  /** Phase 1 keeps the layout well-formed; a new leading free run only replaces one. */
  lemma {:induction false} ScanFixedWellformed(rest: seq<Slot>, o: int, n: nat, k: nat)
    requires n > 0 && Wellformed(rest)
    requires ScanFixed(rest, o, n, k).Placed?
    ensures Wellformed(ScanFixed(rest, o, n, k).layout)
    ensures ScanFixed(rest, o, n, k).layout != []
    ensures ScanFixed(rest, o, n, k).layout[0].Free? ==> rest == [] || rest[0].Free?
    decreases |rest|
  {
    var r := ScanFixed(rest, o, n, k).layout;
    if rest == [] {
      WellformedFrag(k, n, []);
      WellformedPad(o, [Frag(k, n)]);
    } else if rest[0].size <= o {
      ScanFixedWellformed(rest[1..], o - rest[0].size, n, k);
      var r' := ScanFixed(rest[1..], o - rest[0].size, n, k).layout;
      assert r == [rest[0]] + r';
      assert r[1..] == r';
    } else {
      var after := rest[0].size - (o + n);
      var tail := Pad(after) + rest[1..];
      WellformedPad(after, rest[1..]);
      WellformedFrag(k, n, tail);
      WellformedPad(o, [Frag(k, n)] + tail);
      assert r == Pad(o) + ([Frag(k, n)] + tail);
    }
  }

  lemma WellformedFrag(k: nat, n: nat, t: seq<Slot>)
    requires n > 0 && Wellformed(t)
    ensures Wellformed([Frag(k, n)] + t)
  {
    assert ([Frag(k, n)] + t)[1..] == t;
  }

  /** A free run may go in front of anything that starts with a fragment. */
  lemma WellformedPad(m: int, t: seq<Slot>)
    requires Wellformed(t) && (m > 0 ==> t != [] && t[0].Frag?)
    ensures Wellformed(Pad(m) + t)
  {
    if m > 0 {
      assert (Pad(m) + t)[1..] == t;
    } else {
      assert Pad(m) + t == t;
    }
  }

  // ---------------------------------------------------------------------
  // Phase 2: one floating fragment

  /** The new layout and the address the fragment was given. */
  datatype Fitted = Fitted(layout: seq<Slot>, at: nat)

  /**
   * The loop of assem.py:526-546: the first free run at least as long as
   * the fragment is replaced by the fragment and what remains of the run;
   * with no such run the fragment goes at the end.
   */
  function Fit(rest: seq<Slot>, n: nat, k: nat): Fitted
    decreases |rest|
  {
    if rest == [] then Fitted([Frag(k, n)], 0)
    else if rest[0].Free? && n <= rest[0].size then
      Fitted([Frag(k, n)] + (if rest[0].size != n then [Free(rest[0].size - n)] else []) + rest[1..], 0)
    else
      var f := Fit(rest[1..], n, k);
      Fitted([rest[0]] + f.layout, rest[0].size + f.at)
  }

  /**
   * The fragment goes to bytes that were free, within the old layout or
   * right after it, and every other address keeps what it held.
   */
  lemma FitPlaced(rest: seq<Slot>, n: nat, k: nat)
    ensures Fit(rest, n, k).at <= Total(rest)
    ensures RangeFree(rest, Fit(rest, n, k).at, n)
    ensures forall x ::
              Cell(Fit(rest, n, k).layout, x) ==
              (if Fit(rest, n, k).at <= x < Fit(rest, n, k).at + n then Some(Pos(k, x - Fit(rest, n, k).at))
               else Cell(rest, x))
  {
    var f := Fit(rest, n, k);
    FitCell(rest, n, k, 0);
    forall x ensures Cell(f.layout, x) == (if f.at <= x < f.at + n then Some(Pos(k, x - f.at)) else Cell(rest, x)) {
      FitCell(rest, n, k, x);
    }
    forall x | f.at <= x < f.at + n ensures Cell(rest, x).None? {
      FitCell(rest, n, k, x);
    }
  }

  lemma {:induction false} FitCell(rest: seq<Slot>, n: nat, k: nat, x: int)
    ensures Fit(rest, n, k).at <= Total(rest)
    ensures Cell(Fit(rest, n, k).layout, x) ==
      (if Fit(rest, n, k).at <= x < Fit(rest, n, k).at + n then Some(Pos(k, x - Fit(rest, n, k).at))
       else Cell(rest, x))
    ensures Fit(rest, n, k).at <= x < Fit(rest, n, k).at + n ==> Cell(rest, x).None?
    decreases |rest|
  {
    var f := Fit(rest, n, k);
    if rest == [] {
      CellCons(Frag(k, n), [], x);
    } else {
      var s := rest[0];
      assert rest == [s] + rest[1..];
      CellCons(s, rest[1..], x);
      if s.Free? && n <= s.size {
        var tail := (if s.size != n then [Free(s.size - n)] else []) + rest[1..];
        assert f.layout == [Frag(k, n)] + tail;
        CellCons(Frag(k, n), tail, x);
        if s.size != n {
          CellCons(Free(s.size - n), rest[1..], x - n);
        } else {
          assert tail == rest[1..];
        }
      } else {
        var g := Fit(rest[1..], n, k);
        assert f.layout == [s] + g.layout;
        CellCons(s, g.layout, x);
        FitCell(rest[1..], n, k, x - s.size);
      }
    }
  }

  /**
   * First fit: at every address below the one chosen, a fragment of this
   * length would run into a byte already taken.
   */
  lemma {:induction false} FitFirst(rest: seq<Slot>, n: nat, k: nat, y: int)
    requires n > 0 && Wellformed(rest)
    requires 0 <= y < Fit(rest, n, k).at
    ensures exists x :: y <= x < y + n && Cell(rest, x).Some?
    decreases |rest|
  {
    var s := rest[0];
    assert rest == [s] + rest[1..];
    if y >= s.size {
      FitFirst(rest[1..], n, k, y - s.size);
      var x' :| y - s.size <= x' < y - s.size + n && Cell(rest[1..], x').Some?;
      CellCons(s, rest[1..], x' + s.size);
      assert Cell(rest, x' + s.size).Some?;
    } else if s.Frag? {
      CellCons(s, rest[1..], y);
      assert Cell(rest, y).Some?;
    } else {
      CellCons(s, rest[1..], s.size);
      CellCons(rest[1], rest[2..], 0);
      assert rest[1..] == [rest[1]] + rest[2..];
      assert Cell(rest, s.size).Some?;
    }
  }

  lemma {:induction false} FitWellformed(rest: seq<Slot>, n: nat, k: nat)
    requires n > 0 && Wellformed(rest)
    ensures Wellformed(Fit(rest, n, k).layout)
    ensures Fit(rest, n, k).layout[0] == (if rest == [] || (rest[0].Free? && n <= rest[0].size) then Frag(k, n) else rest[0])
    decreases |rest|
  {
    var f := Fit(rest, n, k);
    if rest == [] {
    } else if rest[0].Free? && n <= rest[0].size {
      var s := rest[0].size;
      var tail := (if s != n then [Free(s - n)] else []) + rest[1..];
      assert f.layout == [Frag(k, n)] + tail;
      assert f.layout[1..] == tail;
      if s != n {
        assert tail[1..] == rest[1..];
      } else {
        assert tail == rest[1..];
      }
    } else {
      FitWellformed(rest[1..], n, k);
      assert f.layout[1..] == Fit(rest[1..], n, k).layout;
    }
  }

  lemma ConsistentConcat(a: seq<Slot>, b: seq<Slot>, datas: seq<seq<byte>>)
    requires Consistent(a, datas) && Consistent(b, datas)
    ensures Consistent(a + b, datas)
  {
    forall i | 0 <= i < |a + b| && (a + b)[i].Frag?
      ensures (a + b)[i].index < |datas| && (a + b)[i].size == |datas[(a + b)[i].index]|
    {
      if i >= |a| {
        assert (a + b)[i] == b[i - |a|];
      }
    }
  }

  /** Phase 1 adds only free runs and the fragment it places. */
  lemma {:induction false} ScanFixedConsistent(rest: seq<Slot>, o: int, n: nat, k: nat, datas: seq<seq<byte>>)
    requires Consistent(rest, datas) && k < |datas| && n == |datas[k]|
    requires ScanFixed(rest, o, n, k).Placed?
    ensures Consistent(ScanFixed(rest, o, n, k).layout, datas)
    decreases |rest|
  {
    var mid: seq<Slot> := [Frag(k, n)];
    ConsistentConcat(Pad(o), mid, datas);
    if rest == [] {
    } else {
      ConsistentTail(rest, datas);
      if rest[0].size <= o {
        ScanFixedConsistent(rest[1..], o - rest[0].size, n, k, datas);
        ConsistentConcat([rest[0]], ScanFixed(rest[1..], o - rest[0].size, n, k).layout, datas);
      } else {
        ConsistentConcat(Pad(o) + mid, Pad(rest[0].size - (o + n)), datas);
        ConsistentConcat(Pad(o) + mid + Pad(rest[0].size - (o + n)), rest[1..], datas);
      }
    }
  }

  /** Phase 2 adds only the fragment it places and what is left of a free run. */
  lemma {:induction false} FitConsistent(rest: seq<Slot>, n: nat, k: nat, datas: seq<seq<byte>>)
    requires Consistent(rest, datas) && k < |datas| && n == |datas[k]|
    ensures Consistent(Fit(rest, n, k).layout, datas)
    decreases |rest|
  {
    var mid: seq<Slot> := [Frag(k, n)];
    if rest == [] {
    } else {
      ConsistentTail(rest, datas);
      if rest[0].Free? && n <= rest[0].size {
        var left: seq<Slot> := if rest[0].size != n then [Free(rest[0].size - n)] else [];
        ConsistentConcat(mid, left, datas);
        ConsistentConcat(mid + left, rest[1..], datas);
      } else {
        FitConsistent(rest[1..], n, k, datas);
        ConsistentConcat([rest[0]], Fit(rest[1..], n, k).layout, datas);
      }
    }
  }

  // ---------------------------------------------------------------------
  // Emission

  /** The bytes of the image: zeros for a free run, the fragment's bytes for a fragment. */
  function Image(l: seq<Slot>, datas: seq<seq<byte>>): seq<byte>
    requires Consistent(l, datas)
  {
    if l == [] then []
    else (if l[0].Free? then Zeros(l[0].size) else datas[l[0].index]) + Image(l[1..], datas)
  }

  /** Each fragment slot names a fragment and has that fragment's length. */
  predicate Consistent(l: seq<Slot>, datas: seq<seq<byte>>) {
    forall i :: 0 <= i < |l| && l[i].Frag? ==> l[i].index < |datas| && l[i].size == |datas[l[i].index]|
  }

  /** The image byte at `x` is the one the layout puts there, zero where nothing is. */
  ghost predicate ImageByte(l: seq<Slot>, datas: seq<seq<byte>>, x: int)
    requires Consistent(l, datas)
    requires 0 <= x < |Image(l, datas)|
  {
    match Cell(l, x)
    case None => Image(l, datas)[x] == 0
    case Some(p) => p.index < |datas| && p.within < |datas[p.index]| && Image(l, datas)[x] == datas[p.index][p.within]
  }

  lemma ConsistentTail(l: seq<Slot>, datas: seq<seq<byte>>)
    requires l != [] && Consistent(l, datas)
    ensures Consistent(l[1..], datas)
    ensures l[0].Frag? ==> l[0].index < |datas| && l[0].size == |datas[l[0].index]|
  {
    forall i | 0 <= i < |l[1..]| && l[1..][i].Frag?
      ensures l[1..][i].index < |datas| && l[1..][i].size == |datas[l[1..][i].index]|
    {
      assert l[1..][i] == l[i + 1];
    }
  }

  lemma {:induction false} ImageLength(l: seq<Slot>, datas: seq<seq<byte>>)
    requires Consistent(l, datas)
    ensures |Image(l, datas)| == Total(l)
  {
    if l != [] {
      ConsistentTail(l, datas);
      ImageLength(l[1..], datas);
    }
  }

  /**
   * The image is as long as the layout, holds zero at a free address and
   * byte `d` of fragment `k` wherever the layout puts it.
   */
  lemma ImageAt(l: seq<Slot>, datas: seq<seq<byte>>)
    requires Consistent(l, datas)
    ensures |Image(l, datas)| == Total(l)
    ensures forall x :: 0 <= x < Total(l) ==> ImageByte(l, datas, x)
  {
    ImageLength(l, datas);
    forall x | 0 <= x < Total(l) ensures ImageByte(l, datas, x) {
      ImageByteAt(l, datas, x);
    }
  }

  lemma {:induction false} ImageByteAt(l: seq<Slot>, datas: seq<seq<byte>>, x: int)
    requires Consistent(l, datas)
    requires 0 <= x < Total(l)
    ensures |Image(l, datas)| == Total(l)
    ensures ImageByte(l, datas, x)
  {
    ImageLength(l, datas);
    ConsistentTail(l, datas);
    ImageLength(l[1..], datas);
    var head := if l[0].Free? then Zeros(l[0].size) else datas[l[0].index];
    assert Image(l, datas) == head + Image(l[1..], datas);
    if x >= l[0].size {
      ImageByteAt(l[1..], datas, x - l[0].size);
      assert Image(l, datas)[x] == Image(l[1..], datas)[x - l[0].size];
    } else {
      assert Image(l, datas)[x] == head[x];
    }
  }

  /** Where the layout holds a fragment's bytes, the image holds that fragment's data. */
  lemma ImageHeld(l: seq<Slot>, datas: seq<seq<byte>>, k: nat, o: int, n: nat, d: nat)
    requires Consistent(l, datas) && Holds(l, k, o, n) && d < n
    ensures 0 <= o + d < |Image(l, datas)|
    ensures k < |datas| && d < |datas[k]| && Image(l, datas)[o + d] == datas[k][d]
  {
    assert Cell(l, o + d) == Some(Pos(k, d));
    if o + d >= Total(l) {
      CellBeyond(l, o + d);
    }
    ImageByteAt(l, datas, o + d);
  }
}
