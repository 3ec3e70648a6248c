/**
 * Four self-contained marking passes of the combine stage: the C# `where`
 * constraint marker, the embedded-SQL marker, the variable-stack marker and
 * the expression-start marker inside `#define`, `#if` and `#else` lines.
 */
module FixMark {
  import opened Wrappers
  import opened Tokens

  /**
   * `mark_where_chunk`: `where` starts a constraint clause (it becomes a
   * `WhereSpec` with the given parent, and the running flags gain
   * `InWhereSpec`); inside the clause a `:` becomes a `WhereColon` and a
   * `class`/`struct` keyword a plain word. The chunk carries `InWhereSpec`
   * when the returned flags do.
   */
  function MarkWhereChunk(t: Token, parentType: Kind, flags: set<Flag>): (r: (Token, set<Flag>))
    ensures t.kind == Where ==> r.1 == flags + {InWhereSpec} && r.0.kind == WhereSpec && r.0.parent == parentType
    ensures t.kind != Where ==> r.1 == flags && r.0.parent == t.parent
    ensures t.kind != Where && InWhereSpec in flags && t.text == ":" ==> r.0.kind == WhereColon
    ensures t.kind != Where && InWhereSpec in flags && t.text != ":" && (t.kind == Class || t.kind == Struct) ==>
              r.0.kind == Word
    ensures t.kind != Where && (InWhereSpec !in flags || (t.text != ":" && t.kind != Class && t.kind != Struct)) ==>
              r.0.kind == t.kind
    ensures r.0.flags == t.flags + (if InWhereSpec in r.1 then {InWhereSpec} else {})
    ensures r.0.text == t.text && r.0.level == t.level && r.0.column == t.column
  {
    var (t', flags') :=
      if t.kind == Where then
        (t.(kind := WhereSpec, parent := parentType), flags + {InWhereSpec})
      else if InWhereSpec in flags then
        if t.text == ":" then (t.(kind := WhereColon), flags)
        else if t.kind == Class || t.kind == Struct then (t.(kind := Word), flags)
        else (t, flags)
      else
        (t, flags);
    if InWhereSpec in flags' then (t'.(flags := t'.flags + {InWhereSpec}), flags') else (t', flags')
  }

  /** Marking a chunk a second time with the flags the first call returned changes nothing. */
  lemma MarkWhereChunkIdempotent(t: Token, parentType: Kind, flags: set<Flag>)
    requires t.kind == Where ==> t.text != ":"
    ensures var (t1, f1) := MarkWhereChunk(t, parentType, flags);
            MarkWhereChunk(t1, parentType, f1) == (t1, f1)
  {
  }

  /** A chunk after the `EXEC SQL` keyword: parent set to the keyword's type, words become SQL words. */
  function SqlTagged(t: Token, parentType: Kind): Token {
    t.(parent := parentType, kind := if t.kind == Word then SqlWord else t.kind)
  }

  /** The first index at or after `from` holding a chunk of kind `k`. */
  function FirstOfKind(toks: Tokens, from: nat, k: Kind): (r: Option<nat>)
    ensures r.Some? ==> from <= r.value < |toks| && toks[r.value].kind == k
    ensures r.Some? ==> forall j :: from <= j < r.value ==> toks[j].kind != k
    ensures r.None? ==> forall j :: from <= j < |toks| ==> toks[j].kind != k
    decreases |toks| - from
  {
    if from >= |toks| then None
    else if toks[from].kind == k then Some(from)
    else FirstOfKind(toks, from + 1, k)
  }

  /**
   * `mark_exec_sql`: every chunk after `pc` up to and including the first
   * semicolon gets `pc`'s type as parent, and words among them become SQL
   * words. After `EXEC SQL BEGIN ...;` the chunks between that semicolon and
   * the next `EXEC SQL END` go one level deeper.
   */
  method MarkExecSql(toks: Tokens, pc: nat) returns (r: Tokens)
    requires pc < |toks|
    ensures |r| == |toks|
    ensures forall j {:trigger r[j]} :: 0 <= j < |toks| ==> r[j] == ExecSqlMarked(toks, pc, j)
  {
    var semi: Option<nat>;
    r, semi := TagSqlStatement(toks, pc);
    if toks[pc].kind != SqlBegin || semi.None? {
      forall j | 0 <= j < |toks| ensures r[j] == ExecSqlMarked(toks, pc, j) {
        ExecSqlMarkedAt(toks, pc, j);
      }
      return;
    }
    r := IndentSqlBody(toks, pc, r, semi.value);
  }

  /** The second half of `mark_exec_sql` after `EXEC SQL BEGIN ...;`, given the tagged statement. */
  method IndentSqlBody(toks: Tokens, pc: nat, tagged: Tokens, semi: nat) returns (r: Tokens)
    requires pc < |toks| && toks[pc].kind == SqlBegin && FirstOfKind(toks, pc + 1, Semicolon) == Some(semi)
    requires |tagged| == |toks|
    requires forall j {:trigger tagged[j]} :: 0 <= j < |toks| ==>
               tagged[j] == if pc < j <= semi then SqlTagged(toks[j], toks[pc].kind) else toks[j]
    ensures |r| == |toks|
    ensures forall j {:trigger r[j]} :: 0 <= j < |toks| ==> r[j] == ExecSqlMarked(toks, pc, j)
  {
    var from := semi + 1;
    forall j | from <= j < |toks| ensures tagged[j].kind == toks[j].kind {
    }
    FirstOfKindSameKinds(tagged, toks, from, SqlEnd);
    r := IndentSqlBlock(tagged, from);
    forall j | 0 <= j < |toks| ensures r[j] == ExecSqlMarked(toks, pc, j) {
      ExecSqlMarkedAt(toks, pc, j);
    }
  }

  /** `ExecSqlMarked` at one index, by cases on where the index lies. */
  lemma ExecSqlMarkedAt(toks: Tokens, pc: nat, j: nat)
    requires pc < |toks| && j < |toks|
    ensures var semi := FirstOfKind(toks, pc + 1, Semicolon);
            pc < j && (semi.None? || j <= semi.value) ==> ExecSqlMarked(toks, pc, j) == SqlTagged(toks[j], toks[pc].kind)
    ensures var semi := FirstOfKind(toks, pc + 1, Semicolon);
            (j <= pc || (semi.Some? && semi.value < j)) && (toks[pc].kind != SqlBegin || semi.None?) ==>
              ExecSqlMarked(toks, pc, j) == toks[j]
    ensures var semi := FirstOfKind(toks, pc + 1, Semicolon);
            toks[pc].kind == SqlBegin && semi.Some? && semi.value < j ==>
              var end := FirstOfKind(toks, semi.value + 1, SqlEnd);
              ExecSqlMarked(toks, pc, j) == if end.None? || j < end.value then toks[j].(level := toks[j].level + 1) else toks[j]
  {
  }

  /**
   * What `mark_exec_sql` leaves at index `j`: the statement after `pc` up to
   * its first semicolon is tagged; after `EXEC SQL BEGIN ...;` the chunks up
   * to the next `EXEC SQL END` go one level deeper; everything else is kept.
   */
  function ExecSqlMarked(toks: Tokens, pc: nat, j: nat): Token
    requires pc < |toks| && j < |toks|
  {
    var semi := FirstOfKind(toks, pc + 1, Semicolon);
    if pc < j && (semi.None? || j <= semi.value) then
      SqlTagged(toks[j], toks[pc].kind)
    else if toks[pc].kind == SqlBegin && semi.Some? && semi.value < j
         && (var end := FirstOfKind(toks, semi.value + 1, SqlEnd); end.None? || j < end.value) then
      toks[j].(level := toks[j].level + 1)
    else
      toks[j]
  }

  /** The first loop of `mark_exec_sql`: tag the chunks after `pc` up to the first semicolon. */
  method TagSqlStatement(toks: Tokens, pc: nat) returns (r: Tokens, semi: Option<nat>)
    requires pc < |toks|
    ensures semi == FirstOfKind(toks, pc + 1, Semicolon)
    ensures |r| == |toks|
    ensures forall j {:trigger r[j]} :: 0 <= j < |toks| ==>
              r[j] == if pc < j && (semi.None? || j <= semi.value) then SqlTagged(toks[j], toks[pc].kind) else toks[j]
  {
    var parentType := toks[pc].kind;
    r := toks;
    var i := pc + 1;
    semi := None;
    while i < |toks| && semi.None?
      invariant pc + 1 <= i <= |toks| && |r| == |toks|
      invariant semi.None? ==> forall j :: pc < j < i ==> toks[j].kind != Semicolon
      invariant semi.Some? ==> semi == FirstOfKind(toks, pc + 1, Semicolon) && semi.value == i - 1
      invariant forall j {:trigger r[j]} :: 0 <= j < |toks| ==>
                  r[j] == if pc < j < i then SqlTagged(toks[j], parentType) else toks[j]
    {
      r := r[i := SqlTagged(toks[i], parentType)];
      if toks[i].kind == Semicolon {
        semi := Some(i);
        FirstOfKindIsFirst(toks, pc + 1, Semicolon, i);
      }
      i := i + 1;
    }
    if semi.None? {
      FirstOfKindNone(toks, pc + 1, Semicolon);
    }
  }

  /** The second loop of `mark_exec_sql`: one level deeper from `from` up to the next `EXEC SQL END`. */
  method IndentSqlBlock(toks: Tokens, from: nat) returns (r: Tokens)
    requires from <= |toks|
    ensures |r| == |toks|
    ensures var end := FirstOfKind(toks, from, SqlEnd);
            forall j {:trigger r[j]} :: 0 <= j < |toks| ==>
              r[j] == if from <= j && (end.None? || j < end.value) then toks[j].(level := toks[j].level + 1) else toks[j]
  {
    r := toks;
    var i := from;
    while i < |toks| && toks[i].kind != SqlEnd
      invariant from <= i <= |toks| && |r| == |toks|
      invariant forall j :: from <= j < i ==> toks[j].kind != SqlEnd
      invariant forall j {:trigger r[j]} :: 0 <= j < |toks| ==>
                  r[j] == if from <= j < i then toks[j].(level := toks[j].level + 1) else toks[j]
    {
      r := r[i := r[i].(level := r[i].level + 1)];
      i := i + 1;
    }
    if i < |toks| {
      FirstOfKindIsFirst(toks, from, SqlEnd, i);
    } else {
      FirstOfKindNone(toks, from, SqlEnd);
    }
  }

  lemma {:induction false} FirstOfKindSameKinds(a: Tokens, b: Tokens, from: nat, k: Kind)
    requires |a| == |b|
    requires forall j :: from <= j < |a| ==> a[j].kind == b[j].kind
    ensures FirstOfKind(a, from, k) == FirstOfKind(b, from, k)
    decreases |a| - from
  {
    if from < |a| {
      FirstOfKindSameKinds(a, b, from + 1, k);
    }
  }

  lemma FirstOfKindIsFirst(toks: Tokens, from: nat, k: Kind, j: nat)
    requires from <= j < |toks| && toks[j].kind == k
    requires forall m :: from <= m < j ==> toks[m].kind != k
    ensures FirstOfKind(toks, from, k) == Some(j)
    decreases j - from
  {
    if from < j {
      FirstOfKindIsFirst(toks, from + 1, k, j);
    }
  }

  lemma FirstOfKindNone(toks: Tokens, from: nat, k: Kind)
    requires forall m :: from <= m < |toks| ==> toks[m].kind != k
    ensures FirstOfKind(toks, from, k) == None
    decreases |toks| - from
  {
    if from < |toks| {
      FirstOfKindNone(toks, from + 1, k);
    }
  }

  predicate IsWordOrType(t: Token) {
    t.kind == Word || t.kind == Type
  }

  /** A chunk taken as (part of) the variable's type. */
  function AsVarType(t: Token): Token {
    t.(kind := Type, flags := t.flags + {VarType})
  }

  /**
   * The stack entries `mark_variable_stack` treats as type words: all but
   * the top one (the variable name), and the top one too when it follows `::`.
   */
  function TypeEntries(toks: Tokens, cs: seq<nat>): seq<nat>
    requires |cs| > 0 && cs[|cs| - 1] < |toks|
  {
    var name := cs[|cs| - 1];
    if name > 0 && toks[name - 1].kind == DcMember then cs else cs[..|cs| - 1]
  }

  /**
   * `mark_variable_stack`: the stack holds the words of a declaration, the
   * variable name on top. Every word or type below it becomes a type flagged
   * `VarType`; the name, if still a word, is flagged `VarDef` when there was
   * a type before it, and is itself taken as a type otherwise. Every entry
   * is popped on the way, so the caller gets the stack back empty, ready for
   * the next declaration.
   */
  method MarkVariableStack(toks: Tokens, cs: seq<nat>) returns (r: Tokens, rest: seq<nat>)
    requires forall k :: 0 <= k < |cs| ==> cs[k] < |toks|
    ensures rest == []
    ensures |r| == |toks|
    ensures |cs| == 0 ==> r == toks
    ensures forall i :: 0 <= i < |toks| && i !in cs ==> r[i] == toks[i]
    ensures |cs| > 0 ==> forall i :: i in TypeEntries(toks, cs) ==>
              r[i] == if IsWordOrType(toks[i]) then AsVarType(toks[i]) else toks[i]
    ensures |cs| > 0 && cs[|cs| - 1] !in TypeEntries(toks, cs) ==>
              var name := cs[|cs| - 1];
              r[name] == if toks[name].kind != Word then toks[name]
                         else if |TypeEntries(toks, cs)| > 0 then toks[name].(flags := toks[name].flags + {VarDef})
                         else AsVarType(toks[name])
  {
    if |cs| == 0 {
      return toks, cs;
    }
    var name := cs[|cs| - 1];
    var types := TypeEntries(toks, cs);
    r := toks;
    var stack := types;
    var wordCnt := 0;
    while |stack| > 0
      invariant |r| == |toks| && |stack| <= |types|
      invariant stack == types[..|stack|]
      invariant wordCnt == |types| - |stack|
      invariant forall j {:trigger r[j]} :: 0 <= j < |toks| ==>
                  r[j] == if j in types[|stack|..] && IsWordOrType(toks[j]) then AsVarType(toks[j]) else toks[j]
    {
      var w := stack[|stack| - 1];
      assert types[|stack| - 1..] == [w] + types[|stack|..];
      stack := stack[..|stack| - 1];
      if IsWordOrType(r[w]) {
        r := r[w := AsVarType(r[w])];
      }
      wordCnt := wordCnt + 1;
    }
    assert types[0..] == types;
    rest := stack;
    if r[name].kind == Word {
      if wordCnt > 0 {
        r := r[name := r[name].(flags := r[name].flags + {VarDef})];
      } else {
        r := r[name := AsVarType(r[name])];
      }
    }
  }

  /** The directives after which `mark_define_expressions` looks for expression starts. */
  predicate IsExprDirective(k: Kind) {
    k == PpDefine || k == PpIf || k == PpElse
  }

  /** The chunks after which a new expression starts. */
  predicate StartsExpression(t: Token) {
    || t.kind == ParenOpen || t.kind == Arith || t.kind == Shift || t.kind == Caret
    || t.kind == Assign || t.kind == Compare || t.kind == Return || t.kind == Goto
    || t.kind == Continue || t.kind == FparenOpen || t.kind == SparenOpen || t.kind == BraceOpen
    || IsSemicolon(t) || t.kind == Comma || t.kind == Colon || t.kind == Question
  }

  /** The two booleans `mark_define_expressions` carries from chunk to chunk. */
  datatype DefineState = DefineState(inDefine: bool, first: bool)

  /** The chunk ends the directive's line: it is outside the preprocessor or starts a new directive. */
  predicate EndsDirective(t: Token) {
    InPreproc !in t.flags || t.kind == Preproc
  }

  /** Chunk `i`, met in state `s`, starts an expression and is flagged `ExprStart`. */
  predicate MarksAt(toks: Tokens, i: nat, s: DefineState)
    requires i < |toks|
  {
    && s.inDefine && !EndsDirective(toks[i]) && toks[i].kind != Macro
    && (s.first || (i > 0 && StartsExpression(toks[i - 1])))
  }

  /** The state after chunk `i` has been visited in state `s`. */
  function Transition(toks: Tokens, i: nat, s: DefineState): DefineState
    requires i < |toks|
  {
    if !s.inDefine then
      if IsExprDirective(toks[i].kind) then DefineState(true, true) else s
    else if EndsDirective(toks[i]) then
      DefineState(false, s.first)
    else if MarksAt(toks, i, s) then
      DefineState(true, false)
    else
      s
  }

  /** The state in which the pass meets chunk `i`. */
  function StateBefore(toks: Tokens, i: nat): DefineState
    requires i <= |toks|
  {
    if i == 0 then DefineState(false, true) else Transition(toks, i - 1, StateBefore(toks, i - 1))
  }

  /**
   * `mark_define_expressions`: inside the line of a `#define`, `#if` or
   * `#else`, flag with `ExprStart` the first non-macro chunk and every
   * non-macro chunk after an operator or opening punctuator.
   */
  method MarkDefineExpressions(toks: Tokens) returns (r: Tokens)
    ensures |r| == |toks|
    ensures forall i :: 0 <= i < |toks| ==> r[i] == DefineMarked(toks, i)
  {
    r := [];
    var inDefine := false;
    var first := true;
    var i := 0;
    while i < |toks|
      invariant 0 <= i <= |toks| && |r| == i
      invariant DefineState(inDefine, first) == StateBefore(toks, i)
      invariant forall j {:trigger r[j]} :: 0 <= j < i ==> r[j] == DefineMarked(toks, j)
    {
      var pc;
      pc, inDefine, first := DefineStep(toks, i, inDefine, first);
      r := r + [pc];
      i := i + 1;
    }
  }

  /** One iteration of the loop of `mark_define_expressions` on chunk `i`. */
  method DefineStep(toks: Tokens, i: nat, inDefine: bool, first: bool) returns (pc: Token, inDefine': bool, first': bool)
    requires i < |toks| && DefineState(inDefine, first) == StateBefore(toks, i)
    ensures pc == DefineMarked(toks, i)
    ensures DefineState(inDefine', first') == StateBefore(toks, i + 1)
  {
    pc := toks[i];
    inDefine', first' := inDefine, first;
    if !inDefine {
      if IsExprDirective(pc.kind) {
        inDefine' := true;
        first' := true;
      }
    } else {
      if InPreproc !in pc.flags || pc.kind == Preproc {
        inDefine' := false;
      } else if pc.kind != Macro && (first || (i > 0 && StartsExpression(toks[i - 1]))) {
        pc := pc.(flags := pc.flags + {ExprStart});
        first' := false;
      }
    }
  }

  /** Chunk `i` after the pass: flagged `ExprStart` exactly when the state machine selects it. */
  function DefineMarked(toks: Tokens, i: nat): Token
    requires i < |toks|
  {
    if MarksAt(toks, i, StateBefore(toks, i)) then toks[i].(flags := toks[i].flags + {ExprStart}) else toks[i]
  }

  /**
   * Right after a `#define`, `#if` or `#else` met outside a directive, the
   * first chunk of the line that is not a macro name starts an expression.
   */
  lemma {:induction false} FirstAfterDirectiveMarked(toks: Tokens, d: nat, k: nat)
    requires d < k < |toks|
    requires !StateBefore(toks, d).inDefine && IsExprDirective(toks[d].kind)
    requires forall m :: d < m <= k ==> !EndsDirective(toks[m])
    requires forall m :: d < m < k ==> toks[m].kind == Macro
    requires toks[k].kind != Macro
    ensures MarksAt(toks, k, StateBefore(toks, k))
  {
    MacrosKeepFirst(toks, d, k);
  }

  lemma {:induction false} MacrosKeepFirst(toks: Tokens, d: nat, m: nat)
    requires d < m < |toks|
    requires !StateBefore(toks, d).inDefine && IsExprDirective(toks[d].kind)
    requires forall j :: d < j < m ==> !EndsDirective(toks[j]) && toks[j].kind == Macro
    ensures StateBefore(toks, m) == DefineState(true, true)
    decreases m - d
  {
    if m > d + 1 {
      MacrosKeepFirst(toks, d, m - 1);
    }
  }

  /** A chunk outside the preprocessor, or a new directive, is never flagged and closes the directive. */
  lemma EndOfDirectiveResets(toks: Tokens, i: nat)
    requires i < |toks| && EndsDirective(toks[i]) && !IsExprDirective(toks[i].kind)
    ensures !MarksAt(toks, i, StateBefore(toks, i))
    ensures !StateBefore(toks, i + 1).inDefine
  {
  }
}
