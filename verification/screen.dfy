/** The integer helpers of the viewer's screen code in `src/main.rs`:
    wrapping a line into screen rows, placing the cursor for a character
    position, cycling the display mode, finding search matches along a
    line, and clamping the cursor column. Terminal widths are `u16`, the
    cursor column an `i16`. */
module Screen {
  import opened Wrappers
  import opened Arith
  import Lines

  type U16 = x: int | 0 <= x < 0x1_0000

  predicate InI16(x: int) {
    -0x8000 <= x < 0x8000
  }

  /** The `as i16` cast of a `u16`: values from 0x8000 up wrap to
      negatives. */
  function AsI16(x: U16): (r: int)
    ensures InI16(r)
    ensures x < 0x8000 ==> r == x
    ensures x >= 0x8000 ==> r < 0
  {
    if x < 0x8000 then x else x - 0x1_0000
  }

  /** The `as u16` cast of a row count: it keeps the low 16 bits. */
  function AsU16(x: nat): (r: U16)
    ensures x < 0x1_0000 ==> r == x
  {
    x % 0x1_0000
  }

  /** `line_parts`: how many screen rows a line of `len` characters takes
      when the first row holds `width` characters and every further row
      `width - indent` after the indent. `None` is the `u16` underflow or
      the division by zero of a width not above the indent. */
  function LineParts(len: nat, width: U16, indent: U16): (r: Option<nat>)
    ensures r.None? <==> len > width && width <= indent
    ensures r.Some? ==> r.value >= 1 && (r.value == 1 <==> len <= width)
    ensures r.Some? && len > width ==>
      width + (r.value - 2) * (width - indent) < len <= width + (r.value - 1) * (width - indent)
  {
    if len <= width then Some(1)
    else if width <= indent then None
    else
      var q := (len - width - 1) / (width - indent);
      assert q * (width - indent) <= len - width - 1 < (q + 1) * (width - indent);
      Some(q + 2)
  }

  /** Characters held by the first `rows` rows of a wrapped line: `width`
      in the first row, `width - indent` in each later one. */
  function RowsHold(rows: nat, width: U16, indent: U16): int
    decreases rows
  {
    if rows == 0 then 0
    else RowsHold(rows - 1, width, indent) + (if rows == 1 then width else width - indent)
  }

  /** The rows' capacity in closed form. */
  lemma {:induction false} RowsHoldClosed(rows: nat, width: U16, indent: U16)
    ensures rows > 0 ==> RowsHold(rows, width, indent) == width + (rows - 1) * (width - indent)
    decreases rows
  {
    if rows > 1 {
      RowsHoldClosed(rows - 1, width, indent);
      assert (rows - 2) * (width - indent) + (width - indent) == (rows - 1) * (width - indent);
    }
  }

  /** The render loop's cut of a line into rows: the first row takes up to
      `width` characters, every later row up to `width - indent`. `None`
      means the row count of the whole line is undefined: the `u16`
      underflow of a width below the indent, or a row width of 0 that makes
      no progress. The source's loop still stops in that case once the
      screen is full (`break 'a` at the screen height); that break belongs
      to rendering and is not modelled. */
  method RenderRows(len: nat, width: U16, indent: U16) returns (rows: Option<nat>)
    ensures rows.None? <==> len > 0 && (width == 0 || (len > width && width <= indent))
    ensures rows.Some? && len > 0 ==> LineParts(len, width, indent) == rows
    ensures len == 0 ==> rows == Some(0)
  {
    if len > 0 && (width == 0 || (len > width && width <= indent)) {
      return None;
    }
    var ix := 0;
    var brokenInto := 0;
    while ix < len
      invariant ix == Min(len, RowsHold(brokenInto, width, indent))
      invariant (ix == 0) == (brokenInto == 0)
      invariant brokenInto > 0 ==> RowsHold(brokenInto - 1, width, indent) < len
      invariant brokenInto > 1 ==> width > indent
      decreases len - ix
    {
      var maxLen := if ix == 0 then width else width - indent;
      var l := if maxLen < len - ix then maxLen else len - ix;
      brokenInto := brokenInto + 1;
      ix := ix + l;
    }
    if len > 0 {
      RowsFit(len, width, indent, brokenInto);
    }
    return Some(brokenInto);
  }

  /** A row count whose rows hold the line, one row fewer not, is the one
      `line_parts` computes. */
  lemma RowsFit(len: nat, width: U16, indent: U16, rows: nat)
    requires len > 0 && width > 0 && (len > width ==> width > indent)
    requires rows >= 1 && RowsHold(rows - 1, width, indent) < len <= RowsHold(rows, width, indent)
    requires rows > 1 ==> width > indent
    ensures LineParts(len, width, indent) == Some(rows)
  {
    if rows == 1 {
      assert RowsHold(1, width, indent) == width;
    } else {
      RowsHoldClosed(rows, width, indent);
      RowsHoldClosed(rows - 1, width, indent);
      MulMono(0, rows - 2, width - indent);
    }
    RowsMatchParts(len, width, indent, rows);
  }

  /** A row count whose rows just fit the line is the one `line_parts`
      computes. */
  lemma RowsMatchParts(len: nat, width: U16, indent: U16, rows: nat)
    requires len > 0 && width > 0 && (len > width ==> width > indent)
    requires rows >= 1
    requires rows == 1 ==> len <= width
    requires rows > 1 ==> (len > width
      && width + (rows - 2) * (width - indent) < len <= width + (rows - 1) * (width - indent))
    ensures LineParts(len, width, indent) == Some(rows)
  {
    if rows > 1 {
      var d := width - indent;
      var p := LineParts(len, width, indent).value;
      assert width + (p - 2) * d < len <= width + (p - 1) * d;
      MulMono(p - 1, rows - 2, d);
      MulMono(rows - 1, p - 2, d);
    }
  }

  /** `cursor_from_pos_len`: the screen column and row of character `pos`
      of a wrapped line. The row is cast to `u16`. */
  function CursorFromPosLen(pos: nat, width: U16, indent: U16): (r: Option<(nat, nat)>)
    ensures r.None? <==> pos >= width && width <= indent
    ensures r.Some? ==> r.value.0 < width
    ensures r.Some? && r.value.1 > 0 ==> r.value.0 >= indent
    ensures r.Some? && pos < width ==> r.value == (pos, 0)
  {
    if pos < width then Some((pos, 0))
    else if width <= indent then None
    else
      var y := (pos - width) / (width - indent);
      var x := (pos - width) % (width - indent);
      Some((x + indent, AsU16(y + 1)))
  }

  /** The character position a cursor cell stands for: the inverse of
      `cursor_from_pos_len`. */
  function PosFromCursor(x: nat, y: nat, width: U16, indent: U16): nat
    requires y > 0 ==> indent <= x && indent < width
  {
    if y == 0 then x else width + (y - 1) * (width - indent) + (x - indent)
  }

  /** Placing the cursor for a position and reading the position back from
      the cell gives the position, as long as the row fits in a `u16`; the
      row is one of the line's rows. */
  lemma CursorRoundTrip(pos: nat, len: nat, width: U16, indent: U16)
    requires width > indent && pos < len
    requires pos < width + 0xFFFF * (width - indent)
    ensures var (x, y) := CursorFromPosLen(pos, width, indent).value;
      && PosFromCursor(x, y, width, indent) == pos
      && y < LineParts(len, width, indent).value
  {
    var d := width - indent;
    if pos >= width {
      var y := (pos - width) / d;
      var x := (pos - width) % d;
      assert pos - width == y * d + x;
      MulMono(0xFFFF, y, d);
      assert y < 0xFFFF;
      var parts := LineParts(len, width, indent).value;
      assert len <= width + (parts - 1) * d;
      MulMono(parts - 1, y, d);
    }
  }

  /** Rows taken by the lines above line `ix`, the first line less the
      `line_offset` rows scrolled off the top. `None` is a failed
      `line_parts` or a `usize` underflow of the first line's count. */
  function RowsAbove(lens: seq<nat>, lineOffset: nat, ix: nat, width: U16, indent: U16): (r: Option<nat>)
    requires ix <= |lens|
    ensures ix == 0 ==> r == Some(0)
    decreases ix
  {
    if ix == 0 then Some(0)
    else
      match RowsAbove(lens, lineOffset, ix - 1, width, indent)
      case None => None
      case Some(above) =>
        match LineParts(lens[ix - 1], width, indent)
        case None => None
        case Some(parts) =>
          if ix - 1 == 0 && parts < lineOffset then None
          else Some(above + (if ix - 1 == 0 then parts - lineOffset else parts))
  }

  /** `cursor_from_pos_ix`: the cursor cell of character `pos` of line `ix`
      of the screen. The column is the one `cursor_from_pos_len` gives and
      the row is that row below the rows of the lines above, cast to
      `u16`. `None` is a panic, or the endless loop of a row width of 0. */
  method CursorFromPosIx(lens: seq<nat>, lineOffset: nat, pos: nat, ix: nat, width: U16, indent: U16)
      returns (r: Option<(nat, nat)>)
    requires ix <= |lens|
    ensures RowsAbove(lens, lineOffset, ix, width, indent).None? ==> r.None?
    ensures RowsAbove(lens, lineOffset, ix, width, indent).Some? ==>
      (r.None? <==> CursorFromPosLen(pos, width, indent).None?)
    ensures r.Some? ==> (
      && RowsAbove(lens, lineOffset, ix, width, indent).Some?
      && r.value.0 == CursorFromPosLen(pos, width, indent).value.0
      && r.value.1 == AsU16(RowsAbove(lens, lineOffset, ix, width, indent).value + PosFromCursorRow(pos, width, indent)))
  {
    var y := 0;
    var i := 0;
    while i < ix
      invariant i <= ix
      invariant RowsAbove(lens, lineOffset, i, width, indent) == Some(y)
    {
      var parts := LineParts(lens[i], width, indent);
      if parts.None? || (i == 0 && parts.value < lineOffset) {
        AboveStaysNone(lens, lineOffset, i + 1, ix, width, indent);
        return None;
      }
      var p := parts.value;
      if i == 0 {
        p := p - lineOffset;
      }
      y := y + p;
      i := i + 1;
    }
    if pos >= width && width <= indent {
      return None;
    }
    var x, k := WrapPosition(pos, width, indent);
    return Some((x, AsU16(y + k)));
  }

  /** The wrapping loop of `cursor_from_pos_ix`: peel whole rows off the
      position, `width` characters the first, `width - indent` each later
      one. The column and unwrapped row are those of
      `cursor_from_pos_len`. */
  method WrapPosition(pos: nat, width: U16, indent: U16) returns (x: nat, k: nat)
    requires pos < width || width > indent
    ensures x == CursorFromPosLen(pos, width, indent).value.0
    ensures k == PosFromCursorRow(pos, width, indent)
  {
    var rest: nat := pos;
    var charsPerLine: nat := width;
    var xOff := 0;
    k := 0;
    while rest >= charsPerLine
      invariant k == 0 ==> rest == pos && charsPerLine == width && xOff == 0
      invariant k > 0 ==> width > indent && charsPerLine == width - indent
      invariant k > 0 ==> xOff == indent && pos == width + (k - 1) * charsPerLine + rest
      decreases rest
    {
      rest := rest - charsPerLine;
      k := k + 1;
      charsPerLine := width - indent;
      xOff := indent;
    }
    if k > 0 {
      DivModUnique(pos - width, width - indent, k - 1, rest);
    }
    x := rest + xOff;
  }

  /** The unwrapped row `cursor_from_pos_len` places character `pos` on. */
  function PosFromCursorRow(pos: nat, width: U16, indent: U16): nat {
    if pos < width || width <= indent then 0 else (pos - width) / (width - indent) + 1
  }

  /** Once the rows above some line fail, they fail for every later line. */
  lemma AboveStaysNone(lens: seq<nat>, lineOffset: nat, i: nat, ix: nat, width: U16, indent: U16)
    requires 0 < i <= ix <= |lens|
    requires RowsAbove(lens, lineOffset, i, width, indent).None?
    ensures RowsAbove(lens, lineOffset, ix, width, indent).None?
    decreases ix - i
  {
    if i < ix {
      AboveStaysNone(lens, lineOffset, i + 1, ix, width, indent);
    }
  }

  /** Quotient and remainder are the only split of `a` by `d`. */
  lemma DivModUnique(a: int, d: int, q: int, r: int)
    requires d > 0 && 0 <= r < d && a == q * d + r
    ensures q == a / d && r == a % d
  {
    var q0, r0 := a / d, a % d;
    assert (q - q0) * d == r0 - r;
    MulSign(q - q0, d);
  }

  /** A non-zero multiple of a positive number is at least that number in
      size. */
  lemma MulSign(k: int, d: int)
    requires d > 0
    ensures k >= 1 ==> k * d >= d
    ensures k <= -1 ==> k * d <= -d
  {
    MulMono(1, k, d);
    MulMono(k, -1, d);
  }

  /** `display`, forward: All, Normal, Tagged, Manual in turn; `None` is the
      refusal to step past Manual. */
  function DisplayForward(m: Lines.DisplayMode): (r: Option<Lines.DisplayMode>)
    ensures r.None? <==> m == Lines.Manual
    ensures r.Some? ==> Rank(r.value) == Rank(m) + 1
  {
    match m
    case All => Some(Lines.Normal)
    case Normal => Some(Lines.Tagged)
    case Tagged => Some(Lines.Manual)
    case Manual => None
  }

  /** `display`, backward: the reverse order, refusing to step past All. */
  function DisplayBackward(m: Lines.DisplayMode): (r: Option<Lines.DisplayMode>)
    ensures r.None? <==> m == Lines.All
    ensures r.Some? ==> Rank(r.value) + 1 == Rank(m)
  {
    match m
    case Manual => Some(Lines.Tagged)
    case Tagged => Some(Lines.Normal)
    case Normal => Some(Lines.All)
    case All => None
  }

  /** Position of a mode in the forward order. */
  function Rank(m: Lines.DisplayMode): nat {
    match m
    case All => 0
    case Normal => 1
    case Tagged => 2
    case Manual => 3
  }

  /** Stepping backward undoes stepping forward, and the other way
      round. */
  lemma DisplayStepsInverse(m: Lines.DisplayMode, m': Lines.DisplayMode)
    ensures DisplayForward(m) == Some(m') <==> DisplayBackward(m') == Some(m)
  {
  }

  /** The first search-match character at or after `from`. */
  function FirstMatch(marks: seq<bool>, from: nat): (r: Option<nat>)
    ensures r.Some? ==> from <= r.value < |marks| && marks[r.value]
    ensures forall j | from <= j < |marks| && (r.None? || j < r.value) :: !marks[j]
    decreases |marks| - from
  {
    if from >= |marks| then None
    else if marks[from] then Some(from)
    else FirstMatch(marks, from + 1)
  }

  /** The end of the run of search-match characters starting at `from`: the
      first character at or after it that is not part of a match. */
  function RunEnd(marks: seq<bool>, from: nat): (r: nat)
    ensures from <= r && (r > from ==> r <= |marks|)
    ensures forall j | from <= j < r :: marks[j]
    ensures r < |marks| ==> !marks[r]
    decreases |marks| - from
  {
    if from >= |marks| || !marks[from] then from
    else RunEnd(marks, from + 1)
  }

  /** `get_search_match_forward` over the per-character search-match flags
      of a line: the first match at or after `pos`, or, skipping the
      current match, the first match after the run holding `pos`. */
  method SearchMatchForward(marks: seq<bool>, pos: nat, skipCurrent: bool) returns (r: Option<nat>)
    ensures r == FirstMatch(marks, if skipCurrent then RunEnd(marks, pos) else pos)
  {
    var p := pos;
    var skip := skipCurrent;
    while p < |marks|
      invariant pos <= p
      invariant FirstMatch(marks, if skip then RunEnd(marks, p) else p)
        == FirstMatch(marks, if skipCurrent then RunEnd(marks, pos) else pos)
      decreases |marks| - p
    {
      if marks[p] {
        if !skip {
          return Some(p);
        }
      } else {
        skip := false;
      }
      p := p + 1;
    }
    return None;
  }

  /** The last search-match character at or before `upto`. */
  function LastMatch(marks: seq<bool>, upto: int): (r: Option<nat>)
    requires upto < |marks|
    ensures r.Some? ==> r.value <= upto && marks[r.value]
    ensures forall j | 0 <= j <= upto && (r.None? || r.value < j) :: !marks[j]
    decreases upto + 1
  {
    if upto < 0 then None
    else if marks[upto] then Some(upto)
    else LastMatch(marks, upto - 1)
  }

  /** The start of the run of search-match characters that ends at `i`. */
  function RunStart(marks: seq<bool>, i: nat): (r: nat)
    requires i < |marks|
    ensures r <= i && (r == 0 || !marks[r - 1])
    ensures forall j | r <= j < i :: marks[j]
    decreases i
  {
    if i > 0 && marks[i - 1] then RunStart(marks, i - 1) else i
  }

  /** Where the backward search looks from: `pos`, or, skipping the current
      match, the character before the run holding `pos`. */
  function BackFrom(marks: seq<bool>, pos: int, skip: bool): (r: int)
    requires pos < |marks|
    ensures r <= pos
  {
    if skip && pos >= 0 && marks[pos] then RunStart(marks, pos) - 1 else pos
  }

  /** What the backward search gives: a match start, none, or the panic of
      indexing a character past the end of the line. */
  datatype Seek = Found(at: nat) | NotFound | OutOfLine

  /** `get_search_match_backward`: the start of the last match at or before
      `pos`, or, skipping the current match, of the last match before the
      run holding `pos`; a position past the line panics on its first
      look. */
  method SearchMatchBackward(marks: seq<bool>, pos: nat, skipCurrent: bool) returns (r: Seek)
    ensures r == OutOfLine <==> pos >= |marks|
    ensures pos < |marks| ==> var last := LastMatch(marks, BackFrom(marks, pos, skipCurrent));
      r == if last.None? then NotFound else Found(RunStart(marks, last.value))
  {
    if pos >= |marks| {
      return OutOfLine;
    }
    var p: int := pos;
    var skip := skipCurrent;
    ghost var target := LastMatch(marks, BackFrom(marks, pos, skipCurrent));
    while p >= 0
      invariant -1 <= p <= pos
      invariant LastMatch(marks, BackFrom(marks, p, skip)) == target
      decreases p + 1
    {
      if marks[p] {
        if !skip {
          var q := p;
          while q > 0 && marks[q - 1]
            invariant 0 <= q <= p && marks[q]
            invariant RunStart(marks, q) == RunStart(marks, p)
          {
            q := q - 1;
          }
          return Found(q);
        }
      } else {
        skip := false;
      }
      p := p - 1;
    }
    return NotFound;
  }

  /** A backward match is the start of a match: a search-match character at
      or before `pos` with no search match just before it. */
  lemma BackwardIsMatchStart(marks: seq<bool>, pos: nat, skipCurrent: bool)
    requires pos < |marks|
    ensures var last := LastMatch(marks, BackFrom(marks, pos, skipCurrent));
      last.Some? ==> var s := RunStart(marks, last.value);
        s <= pos && marks[s] && (s == 0 || !marks[s - 1])
  {
    var last := LastMatch(marks, BackFrom(marks, pos, skipCurrent));
    if last.Some? {
      var s := RunStart(marks, last.value);
      if s < last.value {
        assert marks[s];
      }
    }
  }

  /** The column clamp of `move_cursor`: the moved column kept within
      `[0, area_width - 1]`, with the `i16` arithmetic and the `as i16` cast
      of the width written out; `None` is an `i16` overflow. */
  function ClampX(x: int, dx: int, areaWidth: U16): (r: Option<int>)
    requires InI16(x) && InI16(dx)
    ensures r.None? <==> !InI16(x + dx) || areaWidth == 0x8000
    ensures r.Some? && 1 <= areaWidth < 0x8000 ==> 0 <= r.value < areaWidth
    ensures r.Some? && 0 <= x + dx < areaWidth && areaWidth < 0x8000 ==> r.value == x + dx
    ensures r.Some? && areaWidth == 0 ==> r.value == -1
  {
    var moved := x + dx;
    if !InI16(moved) then None
    else
      var lo := if moved < 0 then 0 else moved;
      var hi := AsI16(areaWidth) - 1;
      if !InI16(hi) then None
      else Some(if lo < hi then lo else hi)
  }

  /** Clamping an already clamped column without moving keeps it. */
  lemma ClampIdempotent(x: int, dx: int, areaWidth: U16)
    requires InI16(x) && InI16(dx) && 1 <= areaWidth < 0x8000
    requires ClampX(x, dx, areaWidth).Some?
    ensures ClampX(ClampX(x, dx, areaWidth).value, 0, areaWidth) == ClampX(x, dx, areaWidth)
  {
  }
}
