/** Selects of a parameter with constant indices: part selects and indexed part selects pick the bits that bit
    selects pick. */
module ParamSelects {
  import opened Logic4
  import opened Verinums
  import opened SelectAddress

  // ----- the bits of a parameter -----

  /** The bit at a position: an unsized parameter goes on forever by its sign, everything else outside is x. */
  function BitAt(par: Verinum, pos: int): V
  {
    if pos < 0 then Vx
    else if pos < |par.bits| then par.bits[pos]
    else if par.hasLen then Vx
    else if par.hasSign then SignBit(par.bits)
    else V0
  }

  /** The bit a bit select of declared index `i` picks. */
  function BitOf(par: Verinum, range: Range, i: int): V { BitAt(par, range.Offset(i)) }

  /** The declared indices of a select `wid` wide, least significant first, starting from index `i`. */
  function Walk(range: Range, i: int, j: nat): int { if range.Ascending() then i - j else i + j }

  /** elaborate_expr_param_bit_; an index that is not fully defined picks x. */
  method BitSelect(par: Verinum, parMsv: int, parLsv: int, sel: Option<int>) returns (rtn: V)
    ensures rtn == if sel.None? then Vx else BitOf(par, Range(parMsv, parLsv), sel.value)
  {
    if sel.None? { return Vx; }
    var selV := sel.value;
    if parMsv >= parLsv { selV := selV - parLsv; } else { selV := parLsv - selV; }
    rtn := Vx;
    if selV >= 0 && selV < |par.bits| {
      rtn := par.bits[selV];
    } else if selV >= 0 && !par.hasLen {
      if par.hasSign { rtn := SignBit(par.bits); } else { rtn := V0; }
    }
  }

  /** param_part_select_bits, for a parameter that is not a string. */
  method PartSelectBits(par: Verinum, wid: nat, lsv: int) returns (result: Vec)
    ensures |result| == wid && forall j :: 0 <= j < wid ==> result[j] == BitAt(par, lsv + j)
  {
    result := Fill(Vx, wid);
    var idx := 0;
    while idx < wid
      invariant 0 <= idx <= wid == |result|
      invariant forall j :: 0 <= j < idx ==> result[j] == BitAt(par, lsv + j)
      invariant forall j :: idx <= j < wid ==> result[j] == Vx
    {
      var off := idx + lsv;
      idx := idx + 1;
      if off < 0 {
        continue;
      } else if off < |par.bits| {
        result := result[idx - 1 := par.bits[off]];
      } else if par.hasLen {
        continue;
      } else {
        result := result[idx - 1 := if par.hasSign then SignBit(par.bits) else V0];
      }
    }
  }

  /** elaborate_expr_param_part_. Bounds that are not fully defined give x, in the width of the expression. Main
      result: for defined bounds, an error exactly when the select runs against the range, and else bit `j` is
      the bit select of the `j`-th index from the right bound. */
  method PartSelect(par: Verinum, parMsv: int, parLsv: int, bounds: Option<Range>, exprWid: nat)
    returns (result: Option<Vec>)
    ensures bounds.None? ==> result == Some(Fill(Vx, exprWid))
    ensures bounds.Some? ==>
      (result.None? <==> if parMsv >= parLsv then bounds.value.Ascending() else bounds.value.msb > bounds.value.lsb)
    ensures bounds.Some? && result.Some? ==>
      && |result.value| == bounds.value.Width()
      && forall j :: 0 <= j < |result.value| ==>
           result.value[j] == BitOf(par, Range(parMsv, parLsv), Walk(Range(parMsv, parLsv), bounds.value.lsb, j))
  {
    if bounds.None? { return Some(Fill(Vx, exprWid)); }
    var msv, lsv := bounds.value.msb, bounds.value.lsb;
    if (msv > lsv && parMsv < parLsv) || (msv < lsv && parMsv >= parLsv) { return None; }
    var wid := 1 + if msv - lsv >= 0 then msv - lsv else lsv - msv;
    var base;
    if parMsv < parLsv { base := parLsv - lsv; } else { base := lsv - parLsv; }
    var bits := PartSelectBits(par, wid, base);
    result := Some(bits);
  }

  /** The index `j` places from the least significant end of `[base +: wid]` or `[base -: wid]`. */
  function Nth(range: Range, up: bool, base: int, wid: nat, j: nat): int
  {
    var low := if up then base else base - wid + 1;
    if range.Ascending() then low + wid - 1 - j else low + j
  }

  /** These are exactly the indices the select names, from the lowest position up. */
  lemma NthIsNamed(range: Range, up: bool, base: int, wid: nat)
    ensures forall j: nat :: j < wid ==> Names(up, base, wid, Nth(range, up, base, wid, j))
    ensures forall i :: Names(up, base, wid, i) ==> exists j: nat :: j < wid && Nth(range, up, base, wid, j) == i
    ensures forall j: nat ::
      range.Offset(Nth(range, up, base, wid, j)) == range.Offset(Nth(range, up, base, wid, 0)) + j
  {
    forall i | Names(up, base, wid, i) ensures exists j: nat :: j < wid && Nth(range, up, base, wid, j) == i {
      var low := if up then base else base - wid + 1;
      var j: nat := if range.Ascending() then low + wid - 1 - i else i - low;
      assert Nth(range, up, base, wid, j) == i;
    }
  }

  /** elaborate_expr_param_idx_up_ with a constant base; a base that is not fully defined gives x. Main result:
      bit `j` is the bit select of the `j`-th named index. */
  method IndexedUp(par: Verinum, parMsv: int, parLsv: int, base: Option<int>, wid: nat) returns (result: Vec)
    ensures |result| == wid
    ensures base.None? ==> forall j :: 0 <= j < wid ==> result[j] == Vx
    ensures base.Some? ==> forall j :: 0 <= j < wid ==>
      result[j] == BitOf(par, Range(parMsv, parLsv), Nth(Range(parMsv, parLsv), true, base.value, wid, j))
  {
    if base.None? { return Fill(Vx, wid); }
    var lsv := base.value;
    var parBase := parLsv;
    if parMsv < parLsv {
      parBase := lsv;
      lsv := parLsv - wid + 1;
    }
    result := PartSelectBits(par, wid, lsv - parBase);
  }

  /** elaborate_expr_param_idx_do_, likewise. */
  method IndexedDown(par: Verinum, parMsv: int, parLsv: int, base: Option<int>, wid: nat) returns (result: Vec)
    ensures |result| == wid
    ensures base.None? ==> forall j :: 0 <= j < wid ==> result[j] == Vx
    ensures base.Some? ==> forall j :: 0 <= j < wid ==>
      result[j] == BitOf(par, Range(parMsv, parLsv), Nth(Range(parMsv, parLsv), false, base.value, wid, j))
  {
    if base.None? { return Fill(Vx, wid); }
    var lsv := base.value;
    var parBase := parLsv + wid - 1;
    if parMsv < parLsv {
      parBase := lsv;
      lsv := parLsv;
    }
    result := PartSelectBits(par, wid, lsv - parBase);
  }

  // ----- what the selected bits mean -----

  /** The bits from position `pos` on. */
  function Window(par: Verinum, pos: int, wid: nat): (r: Vec)
    ensures |r| == wid
  { seq(wid, j requires 0 <= j < wid => BitAt(par, pos + j)) }

  /** Main result: the low bits of an unsized parameter are its value, at any width. */
  lemma UnsizedWindowIsValue(par: Verinum, wid: nat)
    requires !par.hasLen && Defined(par.bits) && |par.bits| > 0
    ensures Window(par, 0, wid) == FromInt(par.Value(), wid)
  {
    var n, w := par.Value(), |par.bits|;
    FromIntToInt(par.bits, par.hasSign);
    ToIntFits(par.bits, par.hasSign);
    if wid > w {
      PadFromInt(n, w, wid, par.hasSign);
      assert Window(par, 0, wid) == Pad(par.bits, wid, par.hasSign);
    } else {
      FromIntTake(n, w, wid);
      assert Window(par, 0, wid) == par.bits[..wid];
    }
  }

  /** A sized parameter read over its whole declared range is itself, whatever the direction. */
  lemma WholeRangeIsValue(par: Verinum, range: Range)
    requires |par.bits| == range.Width()
    ensures forall j: nat :: j < range.Width() ==> BitOf(par, range, Walk(range, range.lsb, j)) == par.bits[j]
  {
  }
}
