/**
 * Small helpers over the token list used by the combine passes: text and
 * statement tests, a text lookup in a chunk stack, the template angle-bracket
 * nesting count, a flag update over a range and the word-to-type promotion.
 */
module CombineTools {
  import opened Wrappers
  import opened Tokens

  /** `unc_toupper`, on ASCII letters only. */
  function ToUpper(c: char): (u: char)
    ensures ('a' <= c <= 'z') ==> 'A' <= u <= 'Z' && u as int == c as int - 32
    ensures !('a' <= c <= 'z') ==> u == c
  {
    if 'a' <= c <= 'z' then (c as int - 32) as char else c
  }

  /**
   * `is_ucase_str`: each of the first `len` characters of `s` equals its
   * upper-case form (vacuously true for `len == 0`).
   */
  function IsUcaseStr(s: string, len: nat): (r: bool)
    requires len <= |s|
    ensures r <==> forall k :: 0 <= k < len ==> ToUpper(s[k]) == s[k]
    decreases len
  {
    if len == 0 then
      true
    else if ToUpper(s[0]) != s[0] then
      false
    else
      var r := IsUcaseStr(s[1..], len - 1);
      assert forall k :: 1 <= k < len ==> s[k] == s[1..][k - 1];
      r
  }

  /** A string is upper case exactly when it holds no lower-case ASCII letter. */
  lemma UcaseMeansNoLowerLetter(s: string, len: nat)
    requires len <= |s|
    ensures IsUcaseStr(s, len) <==> forall k :: 0 <= k < len ==> !('a' <= s[k] <= 'z')
  {
    if !IsUcaseStr(s, len) {
      var k :| 0 <= k < len && ToUpper(s[k]) != s[k];
      assert 'a' <= s[k] <= 'z';
    }
  }

  /**
   * `go_on`: the statement scan continues at `pc` when it is a real chunk at
   * the level of `start` that is not a semicolon, nor a colon inside a `for`.
   */
  function GoOn(toks: Tokens, pc: Ref, start: nat): (r: bool)
    requires Valid(toks, pc) && start < |toks|
    ensures pc.Null? ==> !r
    ensures pc.At? && toks[pc.i].level != toks[start].level ==> !r
    ensures pc.At? && toks[pc.i].level == toks[start].level ==>
              (r <==> !IsSemicolon(toks[pc.i]) && (InFor in toks[pc.i].flags ==> toks[pc.i].kind != Colon))
  {
    if pc.Null? || toks[pc.i].level != toks[start].level then
      false
    else if InFor in toks[pc.i].flags then
      !IsSemicolon(toks[pc.i]) && toks[pc.i].kind != Colon
    else
      !IsSemicolon(toks[pc.i])
  }

  /** `chunkstack_match`: some chunk on the stack has the same text as `pc`. */
  method ChunkstackMatch(toks: Tokens, cs: seq<nat>, pc: nat) returns (found: bool)
    requires pc < |toks| && forall k :: 0 <= k < |cs| ==> cs[k] < |toks|
    ensures found <==> exists k :: 0 <= k < |cs| && toks[cs[k]].text == toks[pc].text
  {
    var idx := 0;
    while idx < |cs|
      invariant 0 <= idx <= |cs|
      invariant forall k :: 0 <= k < idx ==> toks[cs[k]].text != toks[pc].text
    {
      if toks[pc].text == toks[cs[idx]].text {
        return true;
      }
      idx := idx + 1;
    }
    return false;
  }

  /** An angle bracket that belongs to a template. */
  predicate IsTemplateAngle(t: Token, k: Kind) {
    t.kind == k && t.parent == Template
  }

  /** The number of template angle brackets of kind `k` among the first `len` chunks. */
  function CountAngles(toks: Tokens, len: nat, k: Kind): nat
    requires len <= |toks|
  {
    if len == 0 then 0
    else CountAngles(toks, len - 1, k) + (if IsTemplateAngle(toks[len - 1], k) then 1 else 0)
  }

  lemma {:induction false} CountAnglesMonotone(toks: Tokens, lo: nat, hi: nat, k: Kind)
    requires lo <= hi < |toks|
    ensures CountAngles(toks, lo, k) <= CountAngles(toks, hi, k)
    ensures CountAngles(toks, hi + 1, k) == CountAngles(toks, hi, k) + (if IsTemplateAngle(toks[hi], k) then 1 else 0)
    decreases hi - lo
  {
    if lo < hi {
      CountAnglesMonotone(toks, lo, hi - 1, k);
    }
  }

  /** The template `<` count minus the template `>` count of the chunks `lo` to `hi - 1`. */
  function AngleBalance(toks: Tokens, lo: nat, hi: nat): int
    requires lo <= hi <= |toks|
  {
    (CountAngles(toks, hi, AngleOpen) - CountAngles(toks, lo, AngleOpen))
    - (CountAngles(toks, hi, AngleClose) - CountAngles(toks, lo, AngleClose))
  }

  /**
   * The chunks `lo` to `last` are the stretch the backward walk from `last`
   * covers: `last` is inside a template, so is every real chunk from `lo` on,
   * and the walk stops at the real chunk just before `lo`, which is outside
   * any template, or runs off the head of the list (`lo == 0`).
   */
  predicate TemplateRun(toks: Tokens, lo: nat, last: nat) {
    && lo <= last < |toks|
    && InTemplate in toks[last].flags
    && (forall k :: lo <= k < last && !Skippable(toks[k]) ==> InTemplate in toks[k].flags)
    && (lo > 0 ==> !Skippable(toks[lo - 1]) && InTemplate !in toks[lo - 1].flags)
  }

  /**
   * The walk of `get_cpp_template_angle_nest_level`: going back from `pc`
   * over real chunks while they are inside a template, +1 for each template
   * `<` and -1 for each template `>`. Its value is the angle balance of the
   * stretch it covers.
   */
  function NestWalk(toks: Tokens, pc: Ref): (n: int)
    requires Valid(toks, pc)
    ensures pc.Null? || InTemplate !in toks[pc.i].flags ==> n == 0
    ensures pc.At? ==> 0 - CountAngles(toks, pc.i + 1, AngleClose) as int <= n <= CountAngles(toks, pc.i + 1, AngleOpen)
    ensures pc.At? ==> forall lo :: TemplateRun(toks, lo, pc.i) ==> n == AngleBalance(toks, lo, pc.i + 1)
    decreases if pc.At? then pc.i + 1 else 0
  {
    if pc.Null? || InTemplate !in toks[pc.i].flags then
      0
    else
      var prev := PrevNcNnlNi(toks, pc);
      var rest := NestWalk(toks, prev);
      WalkStepBounded(toks, pc.i, prev, rest);
      WalkStepBalanced(toks, pc.i, prev, rest);
      AngleStep(toks[pc.i]) + rest
  }

  /** What one chunk adds to the nest level: -1 for a template `>`, +1 for a template `<`. */
  function AngleStep(t: Token): int {
    if IsTemplateAngle(t, AngleClose) then -1
    else if IsTemplateAngle(t, AngleOpen) then 1
    else 0
  }

  /** The walk's bounds carry over from the previous real chunk to chunk `i`. */
  lemma WalkStepBounded(toks: Tokens, i: nat, prev: Ref, rest: int)
    requires i < |toks| && Valid(toks, prev) && (prev.At? ==> prev.i < i)
    requires prev.Null? ==> rest == 0
    requires prev.At? ==> 0 - CountAngles(toks, prev.i + 1, AngleClose) as int <= rest <= CountAngles(toks, prev.i + 1, AngleOpen)
    ensures 0 - CountAngles(toks, i + 1, AngleClose) as int <= AngleStep(toks[i]) + rest <= CountAngles(toks, i + 1, AngleOpen)
  {
    var lo := if prev.At? then prev.i + 1 else 0;
    CountAnglesMonotone(toks, lo, i, AngleOpen);
    CountAnglesMonotone(toks, lo, i, AngleClose);
  }

  /** Comments, newlines and ignored chunks are never angle brackets, so a stretch of them is balanced. */
  lemma {:induction false} SkippedBalanced(toks: Tokens, lo: nat, hi: nat)
    requires lo <= hi <= |toks|
    requires forall k :: lo <= k < hi ==> Skippable(toks[k])
    ensures CountAngles(toks, hi, AngleOpen) == CountAngles(toks, lo, AngleOpen)
    ensures CountAngles(toks, hi, AngleClose) == CountAngles(toks, lo, AngleClose)
    decreases hi - lo
  {
    if lo < hi {
      SkippedBalanced(toks, lo, hi - 1);
      assert Skippable(toks[hi - 1]);
    }
  }

  /** One step of the walk: if the walk from the previous real chunk has its balance, so has the walk from `i`. */
  lemma WalkStepBalanced(toks: Tokens, i: nat, prev: Ref, rest: int)
    requires i < |toks| && InTemplate in toks[i].flags && prev == PrevNcNnlNi(toks, At(i))
    requires prev.Null? || InTemplate !in toks[prev.i].flags ==> rest == 0
    requires prev.At? ==> forall lo :: TemplateRun(toks, lo, prev.i) ==> rest == AngleBalance(toks, lo, prev.i + 1)
    ensures forall lo :: TemplateRun(toks, lo, i) ==> AngleStep(toks[i]) + rest == AngleBalance(toks, lo, i + 1)
  {
    forall lo | TemplateRun(toks, lo, i) ensures AngleStep(toks[i]) + rest == AngleBalance(toks, lo, i + 1) {
      WalkStepBalancedFrom(toks, i, prev, rest, lo);
    }
  }

  lemma WalkStepBalancedFrom(toks: Tokens, i: nat, prev: Ref, rest: int, lo: nat)
    requires i < |toks| && InTemplate in toks[i].flags && prev == PrevNcNnlNi(toks, At(i))
    requires prev.Null? || InTemplate !in toks[prev.i].flags ==> rest == 0
    requires prev.At? ==> forall lo :: TemplateRun(toks, lo, prev.i) ==> rest == AngleBalance(toks, lo, prev.i + 1)
    requires TemplateRun(toks, lo, i)
    ensures AngleStep(toks[i]) + rest == AngleBalance(toks, lo, i + 1)
  {
    if prev.Null? {
      StretchFromStart(toks, lo, i);
      StepFromStart(toks, i, rest);
    } else if lo <= prev.i {
      StretchThroughPrevious(toks, lo, prev.i, i);
      StepThroughPrevious(toks, lo, prev.i, i, rest);
    } else {
      StretchAfterPrevious(toks, lo, prev.i, i);
      StepAfterPrevious(toks, lo, i, rest);
    }
  }

  /** The balance of a stretch from 0 to `i` when nothing before `i` is real. */
  lemma StepFromStart(toks: Tokens, i: nat, rest: int)
    requires i < |toks| && rest == 0
    requires forall k :: 0 <= k < i ==> Skippable(toks[k])
    ensures AngleStep(toks[i]) + rest == AngleBalance(toks, 0, i + 1)
  {
    SkippedBalanced(toks, 0, i);
    ExtendBalance(toks, 0, i);
  }

  /** The balance of a stretch through the previous real chunk `j` extends the balance up to `j`. */
  lemma StepThroughPrevious(toks: Tokens, lo: nat, j: nat, i: nat, rest: int)
    requires lo <= j < i < |toks| && rest == AngleBalance(toks, lo, j + 1)
    requires forall k :: j < k < i ==> Skippable(toks[k])
    ensures AngleStep(toks[i]) + rest == AngleBalance(toks, lo, i + 1)
  {
    SkippedBalanced(toks, j + 1, i);
    ExtendBalance(toks, lo, i);
  }

  /** The balance of a stretch starting at `lo` when nothing from `lo` to `i` is real. */
  lemma StepAfterPrevious(toks: Tokens, lo: nat, i: nat, rest: int)
    requires lo <= i < |toks| && rest == 0
    requires forall k :: lo <= k < i ==> Skippable(toks[k])
    ensures AngleStep(toks[i]) + rest == AngleBalance(toks, lo, i + 1)
  {
    SkippedBalanced(toks, lo, i);
    ExtendBalance(toks, lo, i);
  }

  /** With nothing real before chunk `i`, a stretch ending at `i` starts at 0. */
  lemma StretchFromStart(toks: Tokens, lo: nat, i: nat)
    requires TemplateRun(toks, lo, i)
    requires forall k :: 0 <= k < i ==> Skippable(toks[k])
    ensures lo == 0
  {
    assert lo == 0;
  }

  /** A stretch reaching back past the previous real chunk `j` is also a stretch ending at `j`. */
  lemma StretchThroughPrevious(toks: Tokens, lo: nat, j: nat, i: nat)
    requires TemplateRun(toks, lo, i) && lo <= j < i && !Skippable(toks[j])
    ensures TemplateRun(toks, lo, j)
  {
  }

  /** A stretch that does not reach back to the previous real chunk `j` starts right after it, outside any template. */
  lemma StretchAfterPrevious(toks: Tokens, lo: nat, j: nat, i: nat)
    requires TemplateRun(toks, lo, i) && j < lo && j < i
    requires forall k :: j < k < i ==> Skippable(toks[k])
    ensures lo == j + 1 && InTemplate !in toks[j].flags
  {
    assert lo == j + 1;
  }

  /** Adding chunk `i` to a stretch adds its step to the balance. */
  lemma ExtendBalance(toks: Tokens, lo: nat, i: nat)
    requires lo <= i < |toks|
    ensures AngleBalance(toks, lo, i + 1) == AngleBalance(toks, lo, i) + AngleStep(toks[i])
  {
    CountAnglesMonotone(toks, lo, i, AngleOpen);
    CountAnglesMonotone(toks, lo, i, AngleClose);
  }

  /**
   * `get_cpp_template_angle_nest_level`: 0 for the null chunk and outside a
   * template; otherwise the angle balance of the stretch the walk covers,
   * clamped at zero.
   */
  function TemplateAngleNestLevel(toks: Tokens, pc: Ref): (r: nat)
    requires Valid(toks, pc)
    ensures pc.Null? ==> r == 0
    ensures pc.At? && InTemplate !in toks[pc.i].flags ==> r == 0
    ensures pc.At? ==> r <= CountAngles(toks, pc.i + 1, AngleOpen)
    ensures pc.At? ==> forall lo :: TemplateRun(toks, lo, pc.i) ==>
              r == (var d := AngleBalance(toks, lo, pc.i + 1); if d <= 0 then 0 else d)
  {
    var n := NestWalk(toks, pc);
    if n <= 0 then 0 else n
  }

  /** Every chunk inside a template starts a stretch for the walk: scanning back from `m` finds where it stops. */
  lemma {:induction false} TemplateRunFrom(toks: Tokens, m: nat, last: nat)
    requires m <= last < |toks| && InTemplate in toks[last].flags
    requires forall k :: m <= k < last && !Skippable(toks[k]) ==> InTemplate in toks[k].flags
    ensures exists lo :: TemplateRun(toks, lo, last)
    decreases m
  {
    if m == 0 {
      assert TemplateRun(toks, 0, last);
    } else if !Skippable(toks[m - 1]) && InTemplate !in toks[m - 1].flags {
      assert TemplateRun(toks, m, last);
    } else {
      TemplateRunFrom(toks, m - 1, last);
    }
  }

  /**
   * For every chunk, the nest level is 0 outside a template, and inside one it
   * is the clamped angle balance of the stretch back to where the walk stops.
   */
  lemma NestLevelCountsAngles(toks: Tokens, last: nat)
    requires last < |toks|
    ensures InTemplate !in toks[last].flags ==> TemplateAngleNestLevel(toks, At(last)) == 0
    ensures InTemplate in toks[last].flags ==>
              exists lo :: TemplateRun(toks, lo, last) &&
                TemplateAngleNestLevel(toks, At(last)) ==
                  (var d := AngleBalance(toks, lo, last + 1); if d <= 0 then 0 else d)
  {
    if InTemplate in toks[last].flags {
      TemplateRunFrom(toks, last, last);
    }
  }

  function Tok(k: Kind, parent: Kind, flags: set<Flag>): Token {
    Token(k, parent, "", 0, 0, 1, 0, flags, None)
  }

  /** In `x template < int`, the walk from `int` stops at `x`, outside the template, and the level is 1. */
  lemma NestLevelAfterPlainCode()
    ensures var toks := [Tok(Word, NoKind, {}), Tok(Template, NoKind, {InTemplate}),
                         Tok(AngleOpen, Template, {InTemplate}), Tok(Type, NoKind, {InTemplate})];
            TemplateAngleNestLevel(toks, At(3)) == 1
  {
    var toks := [Tok(Word, NoKind, {}), Tok(Template, NoKind, {InTemplate}),
                 Tok(AngleOpen, Template, {InTemplate}), Tok(Type, NoKind, {InTemplate})];
    assert TemplateRun(toks, 1, 3);
    assert CountAngles(toks, 1, AngleOpen) == 0 && CountAngles(toks, 4, AngleOpen) == 1;
    assert CountAngles(toks, 1, AngleClose) == 0 && CountAngles(toks, 4, AngleClose) == 0;
    assert AngleBalance(toks, 1, 4) == 1;
  }

  /** `chunk_flags_upd`: clear `clr`, then set `setFlags`. */
  function UpdateFlags(flags: set<Flag>, setFlags: set<Flag>, clr: set<Flag>): set<Flag> {
    (flags - clr) + setFlags
  }

  function UpdateToken(t: Token, setFlags: set<Flag>, clr: set<Flag>): Token {
    t.(flags := UpdateFlags(t.flags, setFlags, clr))
  }

  /**
   * The chunks `flag_series` updates when walking the raw chain: `start`
   * through `end` when `end` lies ahead; the whole rest of the list when
   * `end` is missing or behind (the chain runs out and `end` is skipped);
   * only `end` when `start` is the null chunk.
   */
  predicate InSeries(start: Ref, end: Ref, k: nat) {
    if start.Null? then end.At? && k == end.i
    else if end.At? && start.i <= end.i then start.i <= k <= end.i
    else start.i <= k
  }

  /**
   * `flag_series`: apply the flag update to each chunk from `start` on,
   * following `GetNext(nav)`, up to and including `end`; when the chain runs
   * out first, stop there without touching `end`.
   */
  function FlagSeries(toks: Tokens, start: Ref, end: Ref, setFlags: set<Flag>, clr: set<Flag>, nav: Scope): (r: Tokens)
    requires Valid(toks, start) && Valid(toks, end)
    ensures |r| == |toks|
    ensures forall k :: 0 <= k < |toks| ==>
              r[k] == toks[k] || r[k] == UpdateToken(toks[k], setFlags, clr)
    ensures nav == All ==> forall k :: 0 <= k < |toks| ==>
              r[k] == (if InSeries(start, end, k) then UpdateToken(toks[k], setFlags, clr) else toks[k])
    decreases if start.At? then |toks| - start.i else 0
  {
    if start.Null? || start == end then
      if end.At? then toks[end.i := UpdateToken(toks[end.i], setFlags, clr)] else toks
    else
      var toks' := toks[start.i := UpdateToken(toks[start.i], setFlags, clr)];
      var next := NextInScope(toks', start, nav);
      if next.Null? then
        toks'
      else
        var r := FlagSeries(toks', next, end, setFlags, clr, nav);
        assert forall k :: 0 <= k < |toks| ==> UpdateToken(UpdateToken(toks[k], setFlags, clr), setFlags, clr) == UpdateToken(toks[k], setFlags, clr);
        r
  }

  /**
   * Chunk `k` is on the preprocessor-scoped chain from chunk `s`: inside a
   * preprocessor line the chain is the unbroken run of preprocessor chunks
   * from `s`; outside one it is every chunk from `s` on that is not in a
   * preprocessor line.
   */
  predicate ScopeReach(toks: Tokens, s: nat, k: nat) {
    && s <= k < |toks|
    && if InPreproc in toks[s].flags then forall j :: s <= j <= k ==> InPreproc in toks[j].flags
       else InPreproc !in toks[k].flags
  }

  /**
   * The chunks `flag_series` updates with `PreprocScope` navigation: the
   * chain from `start` through `end` when `end` is on it; the whole chain
   * when it is not (the chain runs out first and `end` is left alone); only
   * `end` when `start` is the null chunk.
   */
  predicate InScopeSeries(toks: Tokens, start: Ref, end: Ref, k: nat) {
    if start.Null? then end.At? && k == end.i
    else if end.At? && ScopeReach(toks, start.i, end.i) then start.i <= k <= end.i && ScopeReach(toks, start.i, k)
    else ScopeReach(toks, start.i, k)
  }

  /** Two chunk lists of the same length that agree on which chunks are in preprocessor lines. */
  predicate SamePreproc(a: Tokens, b: Tokens) {
    |a| == |b| && forall j :: 0 <= j < |a| ==> (InPreproc in a[j].flags <==> InPreproc in b[j].flags)
  }

  /**
   * With `PreprocScope` navigation and an update that leaves `InPreproc`
   * alone, `flag_series` updates exactly the chunks of its scoped chain.
   */
  lemma {:induction false} FlagSeriesInScope(toks: Tokens, start: Ref, end: Ref, setFlags: set<Flag>, clr: set<Flag>)
    requires Valid(toks, start) && Valid(toks, end)
    requires InPreproc !in setFlags && InPreproc !in clr
    ensures var r := FlagSeries(toks, start, end, setFlags, clr, PreprocScope);
            forall k :: 0 <= k < |toks| ==>
              r[k] == if InScopeSeries(toks, start, end, k) then UpdateToken(toks[k], setFlags, clr) else toks[k]
    decreases if start.At? then |toks| - start.i else 0
  {
    if start.Null? || start == end {
    } else {
      var toks' := toks[start.i := UpdateToken(toks[start.i], setFlags, clr)];
      var next := NextInScope(toks', start, PreprocScope);
      assert SamePreproc(toks, toks');
      forall k | 0 <= k < |toks|
        ensures InScopeSeries(toks, start, end, k) <==> k == start.i || (next.At? && InScopeSeries(toks', next, end, k))
      {
        SeriesStep(toks', start.i, next, end, k);
        SeriesSamePreproc(toks, toks', start, end, k);
      }
      if next.At? {
        FlagSeriesInScope(toks', next, end, setFlags, clr);
      }
    }
  }

  /** The scoped chain from `s` is `s` followed by the scoped chain from the next chunk in scope. */
  lemma SeriesStep(toks: Tokens, s: nat, next: Ref, end: Ref, k: nat)
    requires s < |toks| && k < |toks| && Valid(toks, end) && At(s) != end
    requires next == NextInScope(toks, At(s), PreprocScope)
    ensures InScopeSeries(toks, At(s), end, k) <==> k == s || (next.At? && InScopeSeries(toks, next, end, k))
  {
  }

  /** The scoped chain depends only on which chunks are in preprocessor lines. */
  lemma SeriesSamePreproc(a: Tokens, b: Tokens, start: Ref, end: Ref, k: nat)
    requires SamePreproc(a, b) && Valid(a, start) && Valid(a, end)
    ensures InScopeSeries(a, start, end, k) <==> InScopeSeries(b, start, end, k)
  {
  }

  /**
   * `make_type`: a word becomes a type; a pointer-like mark after a type
   * becomes a pointer type; an address mark not after `[` becomes a
   * by-reference mark. `isPtrMark` (`IsStar`, `chunk_is_msref`,
   * `chunk_is_nullable`), `isAddr` (`chunk_is_addr`) and `isType`
   * (`chunk_is_type`) are the token classifiers uncrustify calls.
   */
  function MakeType(toks: Tokens, pc: Ref, isPtrMark: Token -> bool, isAddr: Token -> bool, isType: Token -> bool)
    : (r: Tokens)
    requires Valid(toks, pc)
    ensures |r| == |toks|
    ensures pc.Null? ==> r == toks
    ensures forall k :: 0 <= k < |toks| && (pc.Null? || k != pc.i) ==> r[k] == toks[k]
    ensures pc.At? ==> r[pc.i] == toks[pc.i].(kind := r[pc.i].kind)
    ensures pc.At? && toks[pc.i].kind == Word ==> r[pc.i].kind == Type
    ensures pc.At? && toks[pc.i].kind != Word && isPtrMark(toks[pc.i]) && PrevIs(toks, pc.i, isType) ==>
              r[pc.i].kind == PtrType
    ensures pc.At? && toks[pc.i].kind != Word && !(isPtrMark(toks[pc.i]) && PrevIs(toks, pc.i, isType))
              && isAddr(toks[pc.i]) && !PrevIs(toks, pc.i, IsSquareOpen) ==>
              r[pc.i].kind == Byref
    ensures pc.At? && toks[pc.i].kind != Word && !(isPtrMark(toks[pc.i]) && PrevIs(toks, pc.i, isType))
              && !(isAddr(toks[pc.i]) && !PrevIs(toks, pc.i, IsSquareOpen)) ==>
              r == toks
    ensures pc.At? && r[pc.i].kind != toks[pc.i].kind ==>
              r[pc.i].kind == Type || r[pc.i].kind == PtrType || r[pc.i].kind == Byref
  {
    match pc
    case Null => toks
    case At(i) =>
      var t := toks[i];
      var prevIsType := PrevIs(toks, i, isType);
      var prevIsSquare := PrevIs(toks, i, IsSquareOpen);
      if t.kind == Word then
        toks[i := t.(kind := Type)]
      else if isPtrMark(t) && prevIsType then
        toks[i := t.(kind := PtrType)]
      else if isAddr(t) && !prevIsSquare then
        toks[i := t.(kind := Byref)]
      else
        toks
  }

  /** The raw previous chunk of chunk `i` exists and satisfies `p` (the null chunk satisfies nothing). */
  predicate PrevIs(toks: Tokens, i: nat, p: Token -> bool)
    requires i < |toks|
  {
    i > 0 && p(toks[i - 1])
  }

  predicate IsSquareOpen(t: Token) {
    t.kind == SquareOpen
  }

  /**
   * `make_type` applied twice is `make_type` applied once, when the
   * classifiers look at the token type as uncrustify's do: a type is no
   * pointer mark or address, a pointer type no address, a by-reference mark
   * no pointer mark.
   */
  lemma MakeTypeIdempotent(toks: Tokens, pc: Ref, isPtrMark: Token -> bool, isAddr: Token -> bool, isType: Token -> bool)
    requires Valid(toks, pc)
    requires forall t: Token :: t.kind == Type ==> !isPtrMark(t) && !isAddr(t)
    requires forall t: Token :: t.kind == PtrType ==> !isAddr(t)
    requires forall t: Token :: t.kind == Byref ==> !isPtrMark(t)
    ensures var once := MakeType(toks, pc, isPtrMark, isAddr, isType);
            MakeType(once, pc, isPtrMark, isAddr, isType) == once
  {
    if pc.At? {
      var once := MakeType(toks, pc, isPtrMark, isAddr, isType);
      assert pc.i > 0 ==> once[pc.i - 1] == toks[pc.i - 1];
    }
  }
}
