/**
 * The in-brace alignment engine: one entry of an initializer list is scanned
 * against an index-addressed alignment table of (token type, column, width)
 * slots that persists across the entries of the list.
 *
 * uncrustify keeps the table in the global `cpd.al` / `cpd.al_cnt`; here the
 * table is a `seq<Slot>` passed in and returned, and the process exit on table
 * overflow is a `Failure`.
 */
module AlignTools {
  import opened Wrappers
  import opened Tokens

  /** One alignment slot: the token type it was created for, its committed column and width. */
  datatype Slot = Slot(kind: Kind, col: nat, len: nat)

  type Table = seq<Slot>

  /** The report uncrustify prints before exiting: where it happened and the table capacity. */
  datatype Overflow = Overflow(line: nat, col: nat, limit: nat)

  /** The state `scan_ib_line` carries from token to token within one entry. */
  datatype ScanState = ScanState(idx: nat, prevMatch: Option<nat>, table: Table)

  /** What a successful scan of one entry produces. */
  datatype ScanResult = ScanResult(end: Ref, toks: Tokens, table: Table, c99: bool)

  /** The token types that take part in in-brace alignment. */
  predicate Alignable(k: Kind) {
    k == Assign || k == BraceOpen || k == BraceClose || k == Comma
  }

  /** Every index strictly between `lo` and `hi` holds a comment. */
  predicate OnlyCommentsBetween(toks: Tokens, lo: int, hi: int)
    requires hi <= |toks|
  {
    forall k :: lo < k < hi && 0 <= k ==> IsComment(toks[k])
  }

  /**
   * `sq` is a `[` whose matching `]` is followed, after comments only, by an
   * assignment at index `a`.
   */
  predicate DesignatorAt(toks: Tokens, sq: Ref, a: nat)
    requires Valid(toks, sq)
  {
    && sq.At? && toks[sq.i].kind == SquareOpen
    && toks[sq.i].partner.Some? && toks[sq.i].partner.value < a < |toks|
    && OnlyCommentsBetween(toks, toks[sq.i].partner.value, a)
    && toks[a].kind == Assign
  }

  /**
   * `skip_c99_array`: on a C99 designator `[x] =`, the chunk after the
   * assignment (possibly the null chunk); `None` (uncrustify's `nullptr`) on
   * anything else.
   */
  function SkipC99Array(toks: Tokens, sqOpen: Ref): (r: Option<Ref>)
    requires Valid(toks, sqOpen)
    ensures r.Some? ==> Valid(toks, r.value)
    ensures r.Some? <==> exists a: nat :: DesignatorAt(toks, sqOpen, a)
    ensures forall a: nat :: DesignatorAt(toks, sqOpen, a) ==>
              match r.value
              case At(v) => a < v && OnlyCommentsBetween(toks, a, v) && !IsComment(toks[v])
              case Null => OnlyCommentsBetween(toks, a, |toks|)
  {
    if IsKind(toks, sqOpen, SquareOpen) then
      var close := SkipToMatch(toks, sqOpen);
      var tmp := NextNc(toks, close);
      if IsKind(toks, tmp, Assign) then
        assert DesignatorAt(toks, sqOpen, tmp.i);
        Some(NextNc(toks, tmp))
      else
        None
    else
      None
  }

  /** `after` is `before` with every slot from `idx` on moved right by `d`, and nothing else changed. */
  predicate ShiftedBy(before: Table, after: Table, idx: nat, d: nat) {
    && |after| == |before|
    && (forall k :: 0 <= k < |before| ==>
          after[k] == (if k >= idx then before[k].(col := before[k].col + d) else before[k]))
  }

  /**
   * `ib_shift_out(idx, num)`: add `num` to the column of every slot from
   * `idx` to the end of the table.
   */
  function IbShiftOut(table: Table, idx: nat, num: nat): (r: Table)
    ensures ShiftedBy(table, r, idx, num)
    decreases |table| - idx
  {
    if idx < |table| then
      var shifted := table[idx := table[idx].(col := table[idx].col + num)];
      var r := IbShiftOut(shifted, idx + 1, num);
      assert forall k :: 0 <= k < |table| ==> r[k].kind == table[k].kind && r[k].len == table[k].len;
      r
    else
      table
  }

  /**
   * The table only grows; the slots it had keep their type and width, and
   * their columns never move left.
   */
  predicate Extends(before: Table, after: Table) {
    && |before| <= |after|
    && (forall k :: 0 <= k < |before| ==>
          after[k].kind == before[k].kind && after[k].len == before[k].len && after[k].col >= before[k].col)
  }

  /** The loop state is consistent: `idx` never passes the table end, the table stays below capacity. */
  predicate GoodState(toks: Tokens, st: ScanState, cap: nat) {
    && st.idx <= |st.table| < cap
    && (st.prevMatch.Some? ==> st.prevMatch.value < |toks|)
  }

  /** The raw next chunk of `pc` is missing or a comment: `pc` is not aligned at all. */
  predicate Deferred(toks: Tokens, pc: nat)
    requires pc < |toks|
  {
    pc + 1 == |toks| || IsComment(toks[pc + 1])
  }

  /**
   * The table after chunk `pc` matched the existing slot `idx`: the tail from
   * `idx` moves right so that the slot reaches the chunk's column (first match
   * in the entry) or keeps at least the chunk's natural gap to the previous
   * matched chunk (later match).
   */
  function Realign(toks: Tokens, pc: nat, table: Table, idx: nat, prevMatch: Option<nat>): (adjusted: Table)
    requires pc < |toks| && idx < |table|
    requires prevMatch.Some? ==> prevMatch.value < |toks|
    ensures exists d: nat :: ShiftedBy(table, adjusted, idx, d)
    ensures Extends(table, adjusted)
    ensures prevMatch.None? ==>
              adjusted[idx].col == (if toks[pc].column > table[idx].col then toks[pc].column else table[idx].col)
    ensures prevMatch.None? ==>
              ShiftedBy(table, adjusted, idx, if toks[pc].column > table[idx].col then toks[pc].column - table[idx].col else 0)
    ensures prevMatch.Some? && idx > 0 ==>
              && adjusted[idx].col - adjusted[idx - 1].col >= toks[pc].column - toks[prevMatch.value].column
              && adjusted[idx].col - adjusted[idx - 1].col >= table[idx].col - table[idx - 1].col
    ensures prevMatch.Some? && idx > 0 ==>
              var shortfall := (toks[pc].column - toks[prevMatch.value].column) - (table[idx].col - table[idx - 1].col);
              ShiftedBy(table, adjusted, idx, if shortfall > 0 then shortfall else 0)
    ensures prevMatch.Some? && idx == 0 ==> adjusted == table
  {
    var tok := toks[pc];
    if prevMatch.None? then
      if tok.column > table[idx].col then
        var shifted := IbShiftOut(table, idx, tok.column - table[idx].col);
        var r := shifted[idx := shifted[idx].(col := tok.column)];
        assert ShiftedBy(table, r, idx, tok.column - table[idx].col);
        r
      else
        assert ShiftedBy(table, table, idx, 0);
        table
    else if idx > 0 then
      var minColDiff := tok.column - toks[prevMatch.value].column;
      var curColDiff := table[idx].col - table[idx - 1].col;
      if curColDiff < minColDiff then
        var r := IbShiftOut(table, idx, minColDiff - curColDiff);
        assert r[idx].col == table[idx].col + (minColDiff - curColDiff);
        assert r[idx - 1] == table[idx - 1];
        r
      else
        assert ShiftedBy(table, table, idx, 0);
        table
    else
      assert ShiftedBy(table, table, idx, 0);
      table
  }

  /**
   * One iteration of the loop body of `scan_ib_line` on chunk `pc`.
   */
  function ScanStep(toks: Tokens, pc: nat, st: ScanState, cap: nat, width: (Token, Token) -> nat)
    : (r: Result<ScanState, Overflow>)
    requires pc < |toks| && GoodState(toks, st, cap)
    ensures r.Success? ==> GoodState(toks, r.value, cap) && Extends(st.table, r.value.table)
    // Nothing happens unless the chunk is an alignable one followed by a real, non-comment chunk.
    ensures Deferred(toks, pc) || !Alignable(toks[pc].kind) ==> r == Success(st)
    ensures !Deferred(toks, pc) && Alignable(toks[pc].kind) ==> r.Success? ==> r.value.prevMatch == Some(pc)
    // A new position: exactly one slot is appended; reaching the capacity aborts.
    ensures !Deferred(toks, pc) && Alignable(toks[pc].kind) && st.idx == |st.table| ==>
              if |st.table| + 1 == cap then
                r == Failure(Overflow(toks[pc].origLine, toks[pc].origCol, cap))
              else
                r.Success? && r.value.idx == st.idx + 1
                && r.value.table == st.table + [Slot(toks[pc].kind, toks[pc].column, width(toks[pc], toks[pc + 1]))]
    // An existing slot of another type: the chunk is skipped, the table and idx stay.
    ensures !Deferred(toks, pc) && Alignable(toks[pc].kind) && st.idx < |st.table|
              && st.table[st.idx].kind != toks[pc].kind ==>
              r.Success? && r.value.idx == st.idx && r.value.table == st.table
    // An existing slot of the same type: idx advances and the table is realigned at idx.
    ensures !Deferred(toks, pc) && Alignable(toks[pc].kind) && st.idx < |st.table|
              && st.table[st.idx].kind == toks[pc].kind ==>
              r == Success(ScanState(st.idx + 1, Some(pc), Realign(toks, pc, st.table, st.idx, st.prevMatch)))
  {
    var tok := toks[pc];
    var next := Next(toks, At(pc));
    if next.Null? || IsComment(toks[next.i]) then
      Success(st)
    else if !Alignable(tok.kind) then
      Success(st)
    else
      var idx := st.idx;
      var table := st.table;
      if idx >= |table| then
        var grown := table + [Slot(tok.kind, tok.column, width(tok, toks[next.i]))];
        if |grown| == cap then
          Failure(Overflow(tok.origLine, tok.origCol, cap))
        else
          Success(ScanState(idx + 1, Some(pc), grown))
      else if table[idx].kind == tok.kind then
        var adjusted := Realign(toks, pc, table, idx, st.prevMatch);
        Success(ScanState(idx + 1, Some(pc), adjusted))
      else
        Success(ScanState(idx, Some(pc), table))
  }

  /** The loop of `scan_ib_line` goes on at `pc`: a real chunk, not a newline, not below the start level. */
  predicate Continues(toks: Tokens, pc: nat, level: nat)
    requires pc < |toks|
  {
    !IsNewline(toks[pc]) && toks[pc].level >= level
  }

  /**
   * `end` is where a scan from `from` stops: the first chunk examined (the
   * start itself, then every non-comment chunk after it) that is a newline or
   * below `level`, or the null chunk when there is none.
   */
  predicate FirstBreak(toks: Tokens, from: nat, level: nat, end: Ref)
    requires from < |toks| && Valid(toks, end)
  {
    match end
    case Null =>
      forall k :: from <= k < |toks| && (k == from || !IsComment(toks[k])) ==> Continues(toks, k, level)
    case At(e) =>
      && from <= e && !Continues(toks, e, level)
      && forall k :: from <= k < e && (k == from || !IsComment(toks[k])) ==> Continues(toks, k, level)
  }

  /**
   * The loop of `scan_ib_line` from chunk `pc` on: it stops at the first chunk
   * that is null, a newline or below `level`, stepping over comments.
   */
  function ScanFrom(toks: Tokens, pc: Ref, level: nat, st: ScanState, cap: nat, width: (Token, Token) -> nat)
    : (r: Result<(Ref, ScanState), Overflow>)
    requires Valid(toks, pc) && GoodState(toks, st, cap)
    ensures r.Success? ==> Valid(toks, r.value.0) && GoodState(toks, r.value.1, cap)
    ensures r.Success? ==> Extends(st.table, r.value.1.table)
    ensures r.Success? && pc.At? ==> FirstBreak(toks, pc.i, level, r.value.0)
    ensures r.Success? && pc.Null? ==> r.value == (Null, st)
    decreases if pc.At? then |toks| - pc.i else 0
  {
    match pc
    case Null => Success((pc, st))
    case At(i) =>
      if !Continues(toks, i, level) then
        Success((pc, st))
      else
        match ScanStep(toks, i, st, cap, width)
        case Failure(e) => Failure(e)
        case Success(st') => ScanFrom(toks, NextNc(toks, pc), level, st', cap, width)
  }

  /** The chunks a scan from `pc` examines, in order: `pc`, then each non-comment chunk, up to the first break. */
  function Visited(toks: Tokens, pc: Ref, level: nat): (vs: seq<nat>)
    requires Valid(toks, pc)
    ensures forall k :: 0 <= k < |vs| ==> vs[k] < |toks| && Continues(toks, vs[k], level)
    ensures forall k :: 0 < k < |vs| ==> vs[k - 1] < vs[k] && !IsComment(toks[vs[k]])
    ensures |vs| > 0 ==> pc.At? && vs[0] == pc.i
    decreases if pc.At? then |toks| - pc.i else 0
  {
    match pc
    case Null => []
    case At(i) => if !Continues(toks, i, level) then [] else [i] + Visited(toks, NextNc(toks, pc), level)
  }

  /** A chunk claims a table position when it is alignable and followed by a real, non-comment chunk. */
  predicate Claims(toks: Tokens, i: nat)
    requires i < |toks|
  {
    !Deferred(toks, i) && Alignable(toks[i].kind)
  }

  /** The examined chunks that claim a table position, in order. */
  function Appending(toks: Tokens, vs: seq<nat>): (ap: seq<nat>)
    requires forall k :: 0 <= k < |vs| ==> vs[k] < |toks|
    ensures |ap| <= |vs|
    ensures forall k :: 0 <= k < |ap| ==> ap[k] + 1 < |toks| && Claims(toks, ap[k])
    ensures forall k :: 0 <= k < |ap| ==> ap[k] in vs
    ensures forall k :: 0 <= k < |vs| && Claims(toks, vs[k]) ==> vs[k] in ap
  {
    if |vs| == 0 then []
    else (if Claims(toks, vs[0]) then [vs[0]] else []) + Appending(toks, vs[1..])
  }

  /** Unfolding `Visited` and `Appending` at an examined chunk `i`. */
  lemma AppendingVisitedStep(toks: Tokens, i: nat, level: nat)
    requires i < |toks| && Continues(toks, i, level)
    ensures Visited(toks, At(i), level) == [i] + Visited(toks, NextNc(toks, At(i)), level)
    ensures Appending(toks, Visited(toks, At(i), level)) ==
              (if Claims(toks, i) then [i] else []) + Appending(toks, Visited(toks, NextNc(toks, At(i)), level))
  {
    var rest := Visited(toks, NextNc(toks, At(i)), level);
    assert ([i] + rest)[1..] == rest;
  }

  /** The slot a chunk gets at a new table position: its type, its column and its width to the next chunk. */
  function NewSlot(toks: Tokens, i: nat, width: (Token, Token) -> nat): Slot
    requires i + 1 < |toks|
  {
    Slot(toks[i].kind, toks[i].column, width(toks[i], toks[i + 1]))
  }

  function SlotsOf(toks: Tokens, ap: seq<nat>, width: (Token, Token) -> nat): (slots: seq<Slot>)
    requires forall k :: 0 <= k < |ap| ==> ap[k] + 1 < |toks|
    ensures |slots| == |ap| && forall k :: 0 <= k < |ap| ==> slots[k] == NewSlot(toks, ap[k], width)
  {
    if |ap| == 0 then [] else [NewSlot(toks, ap[0], width)] + SlotsOf(toks, ap[1..], width)
  }

  /** The overflow report for chunk `i`. */
  function OverflowAt(toks: Tokens, i: nat, cap: nat): Overflow
    requires i < |toks|
  {
    Overflow(toks[i].origLine, toks[i].origCol, cap)
  }

  /** One step grows the table by at most the one slot a claiming chunk takes, and fails only there, at the capacity. */
  lemma StepGrowth(toks: Tokens, i: nat, st: ScanState, cap: nat, width: (Token, Token) -> nat)
    requires i < |toks| && GoodState(toks, st, cap)
    ensures var r := ScanStep(toks, i, st, cap, width);
            && (r.Success? ==> |r.value.table| <= |st.table| + (if Claims(toks, i) then 1 else 0))
            && (r.Failure? ==> Claims(toks, i) && |st.table| + 1 == cap)
  {
    var r := ScanStep(toks, i, st, cap, width);
    if Claims(toks, i) && st.idx < |st.table| && st.table[st.idx].kind == toks[i].kind {
      var d: nat :| ShiftedBy(st.table, r.value.table, st.idx, d);
    }
  }

  /**
   * A scan claims at most one new slot per claiming chunk it examines, and
   * fails only when those claims would fill the table to its capacity.
   */
  lemma {:induction false} ScanFromBound(toks: Tokens, pc: Ref, level: nat, st: ScanState, cap: nat, width: (Token, Token) -> nat)
    requires Valid(toks, pc) && GoodState(toks, st, cap)
    ensures var ap := Appending(toks, Visited(toks, pc, level));
            var r := ScanFrom(toks, pc, level, st, cap, width);
            && (r.Success? ==> |r.value.1.table| <= |st.table| + |ap|)
            && (r.Failure? ==> |st.table| + |ap| >= cap)
    decreases if pc.At? then |toks| - pc.i else 0
  {
    if pc.At? && Continues(toks, pc.i, level) {
      var i := pc.i;
      AppendingVisitedStep(toks, i, level);
      StepGrowth(toks, i, st, cap, width);
      var step := ScanStep(toks, i, st, cap, width);
      if step.Success? {
        ScanFromBound(toks, NextNc(toks, pc), level, step.value, cap, width);
      }
    }
  }

  /**
   * A scan with every table position still to be created (as for the first
   * entry of a list, or once all existing slots are used) appends one slot
   * per claiming chunk, in order, while they fit below the capacity; otherwise
   * it fails, reporting the claiming chunk that reaches the capacity.
   */
  lemma ScanFromFresh(toks: Tokens, pc: Ref, level: nat, st: ScanState, cap: nat, width: (Token, Token) -> nat)
    requires Valid(toks, pc) && GoodState(toks, st, cap) && st.idx == |st.table|
    ensures var ap := Appending(toks, Visited(toks, pc, level));
            var r := ScanFrom(toks, pc, level, st, cap, width);
            if |st.table| + |ap| < cap then r.Success? && r.value.1.table == st.table + SlotsOf(toks, ap, width)
            else r == Failure(OverflowAt(toks, ap[cap - |st.table| - 1], cap))
  {
    if |st.table| + |Appending(toks, Visited(toks, pc, level))| < cap {
      FreshFits(toks, pc, level, st, cap, width);
    } else {
      FreshOverflows(toks, pc, level, st, cap, width);
    }
  }

  lemma {:induction false} FreshFits(toks: Tokens, pc: Ref, level: nat, st: ScanState, cap: nat, width: (Token, Token) -> nat)
    requires Valid(toks, pc) && GoodState(toks, st, cap) && st.idx == |st.table|
    requires |st.table| + |Appending(toks, Visited(toks, pc, level))| < cap
    ensures var r := ScanFrom(toks, pc, level, st, cap, width);
            r.Success? && r.value.1.table == st.table + SlotsOf(toks, Appending(toks, Visited(toks, pc, level)), width)
    decreases if pc.At? then |toks| - pc.i else 0
  {
    if pc.Null? || !Continues(toks, pc.i, level) {
      assert Visited(toks, pc, level) == [];
      assert SlotsOf(toks, [], width) == [];
      assert st.table + [] == st.table;
    } else {
      var i := pc.i;
      var next := NextNc(toks, pc);
      AppendingVisitedStep(toks, i, level);
      var apRest := Appending(toks, Visited(toks, next, level));
      if !Claims(toks, i) {
        assert ScanStep(toks, i, st, cap, width) == Success(st);
        assert ScanFrom(toks, pc, level, st, cap, width) == ScanFrom(toks, next, level, st, cap, width);
        assert Appending(toks, Visited(toks, pc, level)) == apRest;
        FreshFits(toks, next, level, st, cap, width);
      } else {
        assert Appending(toks, Visited(toks, pc, level)) == [i] + apRest;
        var st' := FreshStep(toks, i, st, cap, width);
        assert ScanFrom(toks, pc, level, st, cap, width) == ScanFrom(toks, next, level, st', cap, width);
        FreshFits(toks, next, level, st', cap, width);
        SlotsOfCons(toks, i, apRest, st.table, width);
      }
    }
  }

  lemma {:induction false} FreshOverflows(toks: Tokens, pc: Ref, level: nat, st: ScanState, cap: nat, width: (Token, Token) -> nat)
    requires Valid(toks, pc) && GoodState(toks, st, cap) && st.idx == |st.table|
    requires |st.table| + |Appending(toks, Visited(toks, pc, level))| >= cap
    ensures var ap := Appending(toks, Visited(toks, pc, level));
            ScanFrom(toks, pc, level, st, cap, width) == Failure(OverflowAt(toks, ap[cap - |st.table| - 1], cap))
    decreases if pc.At? then |toks| - pc.i else 0
  {
    if pc.Null? || !Continues(toks, pc.i, level) {
      assert false;
    } else {
      var i := pc.i;
      var next := NextNc(toks, pc);
      AppendingVisitedStep(toks, i, level);
      var apRest := Appending(toks, Visited(toks, next, level));
      if !Claims(toks, i) {
        assert ScanStep(toks, i, st, cap, width) == Success(st);
        assert ScanFrom(toks, pc, level, st, cap, width) == ScanFrom(toks, next, level, st, cap, width);
        assert Appending(toks, Visited(toks, pc, level)) == apRest;
        FreshOverflows(toks, next, level, st, cap, width);
      } else if |st.table| + 1 < cap {
        assert Appending(toks, Visited(toks, pc, level)) == [i] + apRest;
        var st' := FreshStep(toks, i, st, cap, width);
        assert ScanFrom(toks, pc, level, st, cap, width) == ScanFrom(toks, next, level, st', cap, width);
        FreshOverflows(toks, next, level, st', cap, width);
        ConsIndex(i, apRest, cap - |st.table| - 1);
      } else {
        assert Appending(toks, Visited(toks, pc, level)) == [i] + apRest;
        assert ([i] + apRest)[0] == i;
        assert ScanStep(toks, i, st, cap, width) == Failure(OverflowAt(toks, i, cap));
      }
    }
  }

  /** At a new position, a claiming chunk that still fits below the capacity appends its slot. */
  lemma FreshStep(toks: Tokens, i: nat, st: ScanState, cap: nat, width: (Token, Token) -> nat) returns (st': ScanState)
    requires i < |toks| && GoodState(toks, st, cap) && st.idx == |st.table|
    requires Claims(toks, i) && |st.table| + 1 < cap
    ensures i + 1 < |toks| && st' == ScanState(st.idx + 1, Some(i), st.table + [NewSlot(toks, i, width)])
    ensures GoodState(toks, st', cap) && |st'.table| == |st.table| + 1
    ensures ScanStep(toks, i, st, cap, width) == Success(st')
  {
    st' := ScanStep(toks, i, st, cap, width).value;
  }

  lemma SlotsOfCons(toks: Tokens, i: nat, ap: seq<nat>, base: Table, width: (Token, Token) -> nat)
    requires i + 1 < |toks| && forall k :: 0 <= k < |ap| ==> ap[k] + 1 < |toks|
    ensures base + SlotsOf(toks, [i] + ap, width) == (base + [NewSlot(toks, i, width)]) + SlotsOf(toks, ap, width)
  {
    assert ([i] + ap)[1..] == ap;
    assert SlotsOf(toks, [i] + ap, width) == [NewSlot(toks, i, width)] + SlotsOf(toks, ap, width);
    AppendAssoc(base, [NewSlot(toks, i, width)], SlotsOf(toks, ap, width));
  }

  lemma AppendAssoc<T>(a: seq<T>, b: seq<T>, c: seq<T>)
    ensures a + (b + c) == (a + b) + c
  {
  }

  lemma ConsIndex(i: nat, ap: seq<nat>, n: nat)
    requires 0 < n <= |ap|
    ensures ([i] + ap)[n] == ap[n - 1]
  {
  }

  function ScanIbLine(toks: Tokens, start: Ref, table: Table, c99: bool, cap: nat, width: (Token, Token) -> nat)
    : (r: Result<ScanResult, Overflow>)
    requires Valid(toks, start) && |table| < cap
    ensures r.Success? ==> Extends(table, r.value.table) && |r.value.table| < cap
    ensures r.Success? ==> |r.value.toks| == |toks| && Valid(toks, r.value.end)
    ensures r.Success? && SkipC99Array(toks, start).None? ==> r.value.toks == toks && r.value.c99 == c99
    ensures r.Success? && SkipC99Array(toks, start).Some? ==>
              && r.value.c99
              && start.At? && r.value.toks == toks[start.i := toks[start.i].(parent := TSquare)]
    // The scan starts at the value after a designator, else at `start`, and stops at the first break.
    ensures r.Success? ==>
              var skip := SkipC99Array(toks, start);
              var first := if skip.Some? then skip.value else start;
              match first
              case Null => r.value.end == Null
              case At(f) => FirstBreak(toks, f, toks[f].level, r.value.end)
  {
    var skip := SkipC99Array(toks, start);
    var toks' := LineToks(toks, start);
    var first := LineStart(toks, start);
    var c99' := if skip.Some? then true else c99;
    var level := LineLevel(toks, start);
    var scanned := ScanFrom(toks', first, level, ScanState(0, None, table), cap, width);
    if scanned.Failure? then Failure(scanned.error)
    else
      assert first.At? ==> FirstBreak(toks, first.i, level, scanned.value.0) by {
        if first.At? {
          FirstBreakIgnoresParent(toks, start, first.i, level, scanned.value.0);
        }
      }
      Success(ScanResult(scanned.value.0, toks', scanned.value.1.table, c99'))
  }

  /** The chunks the line scan works on: a designator's `[` is retyped first. */
  function LineToks(toks: Tokens, start: Ref): (t: Tokens)
    requires Valid(toks, start)
    ensures |t| == |toks|
  {
    var skip := SkipC99Array(toks, start);
    if skip.Some? then toks[start.i := toks[start.i].(parent := TSquare)] else toks
  }

  /** Where the line scan starts: after a designator, else at `start`. */
  function LineStart(toks: Tokens, start: Ref): (first: Ref)
    requires Valid(toks, start)
    ensures Valid(toks, first)
  {
    var skip := SkipC99Array(toks, start);
    if skip.Some? then skip.value else start
  }

  /** The brace level the line scan keeps to: that of its first chunk. */
  function LineLevel(toks: Tokens, start: Ref): nat
    requires Valid(toks, start)
  {
    var first := LineStart(toks, start);
    if first.At? then toks[first.i].level else 0
  }

  /** The chunks of a line that claim a table position. */
  function LineClaims(toks: Tokens, start: Ref): (ap: seq<nat>)
    requires Valid(toks, start)
  {
    var t := LineToks(toks, start);
    Appending(t, Visited(t, LineStart(toks, start), LineLevel(toks, start)))
  }

  /**
   * A line claims at most one new slot per claiming chunk, and the scan
   * fails only when there are more claiming chunks than free positions.
   */
  lemma ScanIbLineBound(toks: Tokens, start: Ref, table: Table, c99: bool, cap: nat, width: (Token, Token) -> nat)
    requires Valid(toks, start) && |table| < cap
    ensures var r := ScanIbLine(toks, start, table, c99, cap, width);
            && (r.Success? ==> |r.value.table| <= |table| + |LineClaims(toks, start)|)
            && (r.Failure? ==> |LineClaims(toks, start)| >= cap - |table|)
  {
    ScanIbLineUnfold(toks, start, table, c99, cap, width);
    ScanFromBound(LineToks(toks, start), LineStart(toks, start), LineLevel(toks, start), ScanState(0, None, table), cap, width);
  }

  /**
   * The first line of a list, scanned into an empty table, produces one slot
   * per claiming chunk, in order, when there are fewer than `cap` of them;
   * otherwise it fails at the claiming chunk that reaches the capacity.
   */
  lemma ScanIbLineFresh(toks: Tokens, start: Ref, c99: bool, cap: nat, width: (Token, Token) -> nat)
    requires Valid(toks, start) && 0 < cap
    ensures var t := LineToks(toks, start);
            var ap := LineClaims(toks, start);
            var r := ScanIbLine(toks, start, [], c99, cap, width);
            if |ap| < cap then r.Success? && r.value.table == SlotsOf(t, ap, width)
            else r == Failure(OverflowAt(t, ap[cap - 1], cap))
  {
    if |LineClaims(toks, start)| < cap {
      LineFits(toks, start, c99, cap, width);
    } else {
      LineOverflows(toks, start, c99, cap, width);
    }
  }

  lemma LineFits(toks: Tokens, start: Ref, c99: bool, cap: nat, width: (Token, Token) -> nat)
    requires Valid(toks, start) && |LineClaims(toks, start)| < cap
    ensures var r := ScanIbLine(toks, start, [], c99, cap, width);
            r.Success? && r.value.table == SlotsOf(LineToks(toks, start), LineClaims(toks, start), width)
  {
    var t := LineToks(toks, start);
    var ap := LineClaims(toks, start);
    ScanIbLineUnfold(toks, start, [], c99, cap, width);
    FreshFits(t, LineStart(toks, start), LineLevel(toks, start), ScanState(0, None, []), cap, width);
    assert [] + SlotsOf(t, ap, width) == SlotsOf(t, ap, width);
  }

  lemma LineOverflows(toks: Tokens, start: Ref, c99: bool, cap: nat, width: (Token, Token) -> nat)
    requires Valid(toks, start) && 0 < cap <= |LineClaims(toks, start)|
    ensures ScanIbLine(toks, start, [], c99, cap, width) == Failure(OverflowAt(LineToks(toks, start), LineClaims(toks, start)[cap - 1], cap))
  {
    ScanIbLineUnfold(toks, start, [], c99, cap, width);
    FreshOverflows(LineToks(toks, start), LineStart(toks, start), LineLevel(toks, start), ScanState(0, None, []), cap, width);
  }

  /** `ScanIbLine` reports what the scan of its line from a fresh index reports. */
  lemma ScanIbLineUnfold(toks: Tokens, start: Ref, table: Table, c99: bool, cap: nat, width: (Token, Token) -> nat)
    requires Valid(toks, start) && |table| < cap
    ensures var scanned := ScanFrom(LineToks(toks, start), LineStart(toks, start), LineLevel(toks, start), ScanState(0, None, table), cap, width);
            var r := ScanIbLine(toks, start, table, c99, cap, width);
            && (scanned.Failure? ==> r == Failure(scanned.error))
            && (scanned.Success? ==> r.Success? && r.value.table == scanned.value.1.table)
  {
  }

  /** Where a scan stops does not depend on parent types: retyping the parent of chunk `at` leaves it alone. */
  lemma FirstBreakIgnoresParent(toks: Tokens, at: Ref, from: nat, level: nat, end: Ref)
    requires at.At? && at.i < |toks| && from < |toks| && Valid(toks, end)
    requires FirstBreak(toks[at.i := toks[at.i].(parent := TSquare)], from, level, end)
    ensures FirstBreak(toks, from, level, end)
  {
    var toks' := toks[at.i := toks[at.i].(parent := TSquare)];
    assert forall k :: 0 <= k < |toks| ==> toks'[k].kind == toks[k].kind && toks'[k].level == toks[k].level;
  }

  /**
   * `step_back_over_member`: from `pc`, step back over `name ::` pairs for
   * as long as the previous real chunk is a `::`.
   */
  function StepBackOverMember(toks: Tokens, pc: Ref): (r: Ref)
    requires Valid(toks, pc)
    ensures Valid(toks, r)
    ensures r == pc || r.Null? || (pc.At? && r.i < pc.i)
    ensures !IsKind(toks, PrevNcNnl(toks, pc), DcMember) ==> r == pc
    ensures r != pc ==> IsKind(toks, PrevNcNnl(toks, pc), DcMember)
    ensures !IsKind(toks, PrevNcNnl(toks, r), DcMember)
  {
    StepBackFrom(toks, pc)
  }

  /** The previous real chunk is a `::`. */
  predicate MemberBefore(toks: Tokens, r: Ref)
    requires Valid(toks, r)
  {
    IsKind(toks, PrevNcNnl(toks, r), DcMember)
  }

  /** `n` hops back over `name ::` pairs from `r`: each hop goes to the real chunk before the real chunk before. */
  function Hop(toks: Tokens, r: Ref, n: nat): (h: Ref)
    requires Valid(toks, r)
    ensures Valid(toks, h)
    decreases n
  {
    if n == 0 then r else Hop(toks, PrevNcNnl(toks, PrevNcNnl(toks, r)), n - 1)
  }

  /**
   * Stepping back lands on the first hop point that has no `::` before it:
   * every earlier hop point had one and the result has none, which pins the
   * result down to the leftmost name of the `A :: B :: …` chain.
   */
  lemma StepBackHops(toks: Tokens, pc: Ref)
    requires Valid(toks, pc)
    ensures exists n: nat :: StepBackOverMember(toks, pc) == Hop(toks, pc, n) && forall m :: 0 <= m < n ==> MemberBefore(toks, Hop(toks, pc, m))
    ensures !MemberBefore(toks, StepBackOverMember(toks, pc))
  {
    var n := StepBackHopCount(toks, pc);
    assert StepBackOverMember(toks, pc) == Hop(toks, pc, n);
  }

  /** The number of hops `StepBackFrom` makes, with every hop point before it followed by a `::`. */
  lemma {:induction false} StepBackHopCount(toks: Tokens, pc: Ref) returns (n: nat)
    requires Valid(toks, pc)
    ensures StepBackFrom(toks, pc) == Hop(toks, pc, n)
    ensures forall m :: 0 <= m < n ==> MemberBefore(toks, Hop(toks, pc, m))
    decreases if pc.At? then pc.i else 0
  {
    if MemberBefore(toks, pc) {
      var tmp := PrevNcNnl(toks, pc);
      var next := PrevNcNnl(toks, tmp);
      assert tmp.At? && (next.Null? || next.i < tmp.i < pc.i);
      var k := StepBackHopCount(toks, next);
      n := k + 1;
      HopChainExtends(toks, pc, k);
    } else {
      n := 0;
      assert StepBackFrom(toks, pc) == pc == Hop(toks, pc, 0);
    }
  }

  /** The loop of `step_back_over_member`. */
  function StepBackFrom(toks: Tokens, pc: Ref): (r: Ref)
    requires Valid(toks, pc)
    ensures Valid(toks, r)
    ensures r == pc || r.Null? || (pc.At? && r.i < pc.i)
    ensures r != pc ==> IsKind(toks, PrevNcNnl(toks, pc), DcMember)
    ensures !IsKind(toks, PrevNcNnl(toks, r), DcMember)
    decreases if pc.At? then pc.i else 0
  {
    var tmp := PrevNcNnl(toks, pc);
    if IsKind(toks, tmp, DcMember) then
      StepBackFrom(toks, PrevNcNnl(toks, tmp))
    else
      pc
  }

  /** A `::` before `pc` followed by a chain of `k` hops from the next hop point makes a chain of `k + 1` hops from `pc`. */
  lemma HopChainExtends(toks: Tokens, pc: Ref, k: nat)
    requires Valid(toks, pc) && MemberBefore(toks, pc)
    requires StepBackFrom(toks, PrevNcNnl(toks, PrevNcNnl(toks, pc))) == Hop(toks, PrevNcNnl(toks, PrevNcNnl(toks, pc)), k)
    requires forall m :: 0 <= m < k ==> MemberBefore(toks, Hop(toks, PrevNcNnl(toks, PrevNcNnl(toks, pc)), m))
    ensures StepBackFrom(toks, pc) == Hop(toks, pc, k + 1)
    ensures forall m :: 0 <= m < k + 1 ==> MemberBefore(toks, Hop(toks, pc, m))
  {
    forall m | 0 < m < k + 1 ensures MemberBefore(toks, Hop(toks, pc, m)) {
      assert Hop(toks, pc, m) == Hop(toks, PrevNcNnl(toks, PrevNcNnl(toks, pc)), m - 1);
    }
    assert Hop(toks, pc, 0) == pc;
  }

  function Tok(k: Kind, text: string): Token {
    Token(k, NoKind, text, 0, 0, 1, 0, {}, None)
  }

  /** The previous real chunk of a chunk whose predecessor is neither a comment nor a newline is that predecessor. */
  lemma PrevIsAdjacent(toks: Tokens, i: nat)
    requires 0 < i < |toks| && !IsComment(toks[i - 1]) && !IsNewline(toks[i - 1])
    ensures PrevNcNnl(toks, At(i)) == At(i - 1)
  {
  }

  /** A comment just before a chunk is stepped over. */
  lemma PrevSkipsComment(toks: Tokens, i: nat)
    requires 0 < i < |toks| && IsComment(toks[i - 1])
    ensures PrevNcNnl(toks, At(i)) == PrevNcNnl(toks, At(i - 1))
  {
  }

  /** In `bool CFoo::bar`, stepping back from `bar` lands on `CFoo`, not on `bool`. */
  lemma StepBackQualifiedName()
    ensures var toks := [Tok(Type, "bool"), Tok(Word, "CFoo"), Tok(DcMember, "::"), Tok(Word, "bar")];
            StepBackOverMember(toks, At(3)) == At(1)
  {
    var toks := [Tok(Type, "bool"), Tok(Word, "CFoo"), Tok(DcMember, "::"), Tok(Word, "bar")];
    assert toks[0].kind == Type && toks[1].kind == Word && toks[2].kind == DcMember;
    PrevIsAdjacent(toks, 3);
    PrevIsAdjacent(toks, 2);
    PrevIsAdjacent(toks, 1);
    assert StepBackFrom(toks, At(1)) == At(1);
  }

  /** In `A :: /* note */ B::c`, stepping back from `c` crosses both `::` and the comment and lands on `A`. */
  lemma StepBackNestedQualifiedName()
    ensures var toks := [Tok(Word, "A"), Tok(DcMember, "::"), Tok(CommentMulti, "/* note */"),
                         Tok(Word, "B"), Tok(DcMember, "::"), Tok(Word, "c")];
            StepBackOverMember(toks, At(5)) == At(0)
  {
    var toks := [Tok(Word, "A"), Tok(DcMember, "::"), Tok(CommentMulti, "/* note */"),
                 Tok(Word, "B"), Tok(DcMember, "::"), Tok(Word, "c")];
    assert toks[0].kind == Word && toks[1].kind == DcMember && toks[2].kind == CommentMulti;
    assert toks[3].kind == Word && toks[4].kind == DcMember;
    PrevIsAdjacent(toks, 5);
    PrevIsAdjacent(toks, 4);
    PrevIsAdjacent(toks, 2);
    PrevSkipsComment(toks, 3);
    PrevIsAdjacent(toks, 1);
    assert StepBackFrom(toks, At(0)) == At(0);
    assert StepBackFrom(toks, At(3)) == At(0);
  }
}
