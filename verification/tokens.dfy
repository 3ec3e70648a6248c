/**
 * The token ("chunk") list the formatter works on, as an index-addressed arena.
 *
 * uncrustify keeps chunks in a doubly linked list with a distinguished null
 * chunk; here a token list is an immutable `seq<Token>`, a position is a `Ref`
 * (`Null` plays the null chunk), and the next/previous/matching links are
 * functions of the index.
 */
module Tokens {
  import opened Wrappers

  /** The token types (`CT_*`) the modelled passes look at; `Other` stands for every remaining one. */
  datatype Kind =
    | NoKind | Other
    | Assign | BraceOpen | BraceClose | Comma
    | SquareOpen | SquareClose | TSquare
    | Comment | CommentCpp | CommentMulti
    | Newline | NlCont
    | DcMember | Word | Type | PtrType | Byref
    | Semicolon | VSemicolon | Colon | Question
    | AngleOpen | AngleClose | Template
    | Where | WhereSpec | WhereColon | Class | Struct
    | SqlExec | SqlBegin | SqlEnd | SqlWord
    | Preproc | PpDefine | PpIf | PpElse | Macro
    | ParenOpen | FparenOpen | SparenOpen
    | Arith | Shift | Caret | Compare
    | Return | Goto | Continue
    | Ignored

  /** The chunk flags (`PCF_*`) the modelled passes read or write. */
  datatype Flag =
    | InPreproc | InFor | InTemplate | ExprStart
    | InWhereSpec | VarType | VarDef

  /**
   * One chunk: its type and parent type, text, brace level, current output
   * column, original position, flags, and (for a bracket) the index of the
   * matching bracket.
   */
  datatype Token = Token(
    kind: Kind,
    parent: Kind,
    text: string,
    level: nat,
    column: nat,
    origLine: nat,
    origCol: nat,
    flags: set<Flag>,
    partner: Option<nat>)

  /** A chunk pointer: `Null` is the null chunk, `At(i)` the chunk at index i. */
  datatype Ref = Null | At(i: nat)

  type Tokens = seq<Token>

  predicate Valid(toks: Tokens, r: Ref) {
    r.Null? || r.i < |toks|
  }

  predicate IsComment(t: Token) {
    t.kind == Comment || t.kind == CommentCpp || t.kind == CommentMulti
  }

  predicate IsNewline(t: Token) {
    t.kind == Newline || t.kind == NlCont
  }

  predicate IsSemicolon(t: Token) {
    t.kind == Semicolon || t.kind == VSemicolon
  }

  /** True when `r` is a real chunk of kind `k` (`chunk_is_token`). */
  predicate IsKind(toks: Tokens, r: Ref, k: Kind)
    requires Valid(toks, r)
  {
    r.At? && toks[r.i].kind == k
  }

  /** The raw next chunk (`GetNext()`). */
  function Next(toks: Tokens, r: Ref): (n: Ref)
    requires Valid(toks, r)
    ensures Valid(toks, n)
    ensures n.At? <==> r.At? && r.i + 1 < |toks|
    ensures n.At? ==> n.i == r.i + 1
  {
    if r.At? && r.i + 1 < |toks| then At(r.i + 1) else Null
  }

  /** The next chunk that is not a comment (`GetNextNc()`). */
  function NextNc(toks: Tokens, r: Ref): (n: Ref)
    requires Valid(toks, r)
    ensures Valid(toks, n)
    ensures n.At? ==> r.At? && r.i < n.i && !IsComment(toks[n.i])
    ensures n.At? ==> forall k :: r.i < k < n.i ==> IsComment(toks[k])
    ensures n.Null? && r.At? ==> forall k :: r.i < k < |toks| ==> IsComment(toks[k])
    decreases if r.At? then |toks| - r.i else 0
  {
    match r
    case Null => Null
    case At(i) =>
      if i + 1 >= |toks| then Null
      else if IsComment(toks[i + 1]) then NextNc(toks, At(i + 1))
      else At(i + 1)
  }

  /** The previous chunk that is neither a comment nor a newline (`GetPrevNcNnl()`). */
  function PrevNcNnl(toks: Tokens, r: Ref): (p: Ref)
    requires Valid(toks, r)
    ensures Valid(toks, p)
    ensures p.At? ==> r.At? && p.i < r.i && !IsComment(toks[p.i]) && !IsNewline(toks[p.i])
    ensures p.At? ==> forall k :: p.i < k < r.i ==> IsComment(toks[k]) || IsNewline(toks[k])
    ensures p.Null? && r.At? ==> forall k :: 0 <= k < r.i ==> IsComment(toks[k]) || IsNewline(toks[k])
    decreases if r.At? then r.i else 0
  {
    match r
    case Null => Null
    case At(i) =>
      if i == 0 then Null
      else if IsComment(toks[i - 1]) || IsNewline(toks[i - 1]) then PrevNcNnl(toks, At(i - 1))
      else At(i - 1)
  }

  /** A comment, a newline or an ignored chunk: what `GetPrevNcNnlNi()` steps over. */
  predicate Skippable(t: Token) {
    IsComment(t) || IsNewline(t) || t.kind == Ignored
  }

  /** Like `PrevNcNnl`, also skipping ignored chunks (`GetPrevNcNnlNi()`). */
  function PrevNcNnlNi(toks: Tokens, r: Ref): (p: Ref)
    requires Valid(toks, r)
    ensures Valid(toks, p)
    ensures p.At? ==> r.At? && p.i < r.i && !Skippable(toks[p.i])
    ensures p.At? ==> forall k :: p.i < k < r.i ==> Skippable(toks[k])
    ensures p.Null? && r.At? ==> forall k :: 0 <= k < r.i ==> Skippable(toks[k])
    decreases if r.At? then r.i else 0
  {
    match r
    case Null => Null
    case At(i) =>
      if i == 0 then Null
      else if Skippable(toks[i - 1]) then PrevNcNnlNi(toks, At(i - 1))
      else At(i - 1)
  }

  /** The matching bracket of an opening bracket (`SkipToMatch()`), or the null chunk. */
  function SkipToMatch(toks: Tokens, r: Ref): (m: Ref)
    requires Valid(toks, r)
    ensures Valid(toks, m)
    ensures m.At? ==> r.At? && toks[r.i].partner == Some(m.i)
  {
    match r
    case Null => Null
    case At(i) =>
      match toks[i].partner
      case Some(j) => if j < |toks| then At(j) else Null
      case None => Null
  }

  /** Navigation scope of `GetNext(scope)`: everything, or stay inside/outside preprocessor lines. */
  datatype Scope = All | PreprocScope

  /**
   * `GetNext(scope)`: with `All` the raw next chunk; with `PreprocScope`, a chunk
   * inside a preprocessor line never leaves it (the null chunk is returned at
   * its end) and a chunk outside one skips over preprocessor lines.
   */
  function NextInScope(toks: Tokens, r: Ref, scope: Scope): (n: Ref)
    requires Valid(toks, r)
    ensures Valid(toks, n)
    ensures n.At? ==> r.At? && r.i < n.i
    ensures scope == All ==> n == Next(toks, r)
    ensures scope == PreprocScope && r.At? && InPreproc in toks[r.i].flags ==>
              n == if r.i + 1 < |toks| && InPreproc in toks[r.i + 1].flags then At(r.i + 1) else Null
    ensures scope == PreprocScope && r.At? && InPreproc !in toks[r.i].flags && n.At? ==>
              InPreproc !in toks[n.i].flags && forall j :: r.i < j < n.i ==> InPreproc in toks[j].flags
    ensures scope == PreprocScope && r.At? && InPreproc !in toks[r.i].flags && n.Null? ==>
              forall j :: r.i < j < |toks| ==> InPreproc in toks[j].flags
  {
    match r
    case Null => Null
    case At(i) =>
      if scope == All || InPreproc in toks[i].flags then
        var n := Next(toks, r);
        if scope == PreprocScope && n.At? && InPreproc !in toks[n.i].flags then Null else n
      else SkipPreproc(toks, Next(toks, r))
  }

  /** The first chunk at or after `r` that is not in a preprocessor line. */
  function SkipPreproc(toks: Tokens, r: Ref): (n: Ref)
    requires Valid(toks, r)
    ensures Valid(toks, n)
    ensures n.At? ==> r.At? && r.i <= n.i && InPreproc !in toks[n.i].flags
    ensures n.At? ==> forall j :: r.i <= j < n.i ==> InPreproc in toks[j].flags
    ensures n.Null? && r.At? ==> forall j :: r.i <= j < |toks| ==> InPreproc in toks[j].flags
    decreases if r.At? then |toks| - r.i else 0
  {
    match r
    case Null => Null
    case At(i) =>
      if InPreproc !in toks[i].flags then r
      else SkipPreproc(toks, Next(toks, r))
  }
}
