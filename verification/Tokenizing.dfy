/** What one call of a tokenizer function does, as a function of its state, the whole
    input and the position reached, and what a run of such calls yields. */
module Tokenizing {
  import opened Strings

  datatype EmptyTokenPolicy = DropEmptyTokens | KeepEmptyTokens

  /** The member data of the three tokenizer functions. */
  datatype Separator =
    | EscapedList(escape: string, c: string, quote: string, last: bool)
    | CharSep(dropped: string, kept: string, useIspunct: bool, useIsspace: bool,
              policy: EmptyTokenPolicy, outputDone: bool)
    | OffsetSep(offsets: seq<int>, current: nat, wrap: bool, returnPartialLast: bool)
  {
    ghost predicate Valid() {
      OffsetSep? ==> offsets != [] && current <= |offsets|
    }

    predicate IsEscape(e: char) requires EscapedList? { e in escape }

    predicate IsC(e: char) requires EscapedList? { e in c }

    predicate IsQuote(e: char) requires EscapedList? { e in quote }

    predicate IsKept(e: char)
      requires CharSep?
    {
      if kept != [] then e in kept else useIspunct && IsPunct(e)
    }

    predicate IsDropped(e: char)
      requires CharSep?
    {
      if dropped != [] then e in dropped else useIsspace && IsSpace(e)
    }

    predicate IsDelimiter(e: char)
      requires CharSep?
    {
      IsDropped(e) || IsKept(e)
    }

    function WithLast(b: bool): Separator
      requires EscapedList?
    {
      EscapedList(escape, c, quote, b)
    }

    function WithDone(b: bool): Separator
      requires CharSep?
    {
      CharSep(dropped, kept, useIspunct, useIsspace, policy, b)
    }

    function WithCurrent(k: nat): Separator
      requires OffsetSep?
    {
      OffsetSep(offsets, k, wrap, returnPartialLast)
    }

    /** `reset`: a char_separator forgets nothing. */
    function Reset(): Separator {
      match this
      case EscapedList(_, _, _, _) => WithLast(false)
      case CharSep(_, _, _, _, _, _) => this
      case OffsetSep(_, _, _, _) => WithCurrent(0)
    }
  }

  datatype EscapeError = CannotEndWithEscape | UnknownEscapeSequence

  /** A call returns true with a token, returns false, or throws. */
  datatype Step =
    | Token(tok: string, next: nat, sep: Separator)
    | Finished(next: nat, sep: Separator)
    | Thrown(error: EscapeError, next: nat, sep: Separator)

  function Next(sep: Separator, s: string, pos: nat): Step
    requires sep.Valid() && pos <= |s|
  {
    match sep
    case EscapedList(_, _, _, _) => EscapedNext(sep, s, pos)
    case CharSep(_, _, _, _, _, _) =>
      if sep.policy.DropEmptyTokens? then DropNext(sep, s, pos) else KeepNext(sep, s, pos)
    case OffsetSep(_, _, _, _) => OffsetNext(sep, s, pos)
  }

  // ------------------------------------------------ escaped_list_separator

  function EscapedNext(sep: Separator, s: string, pos: nat): Step
    requires sep.EscapedList? && pos <= |s|
  {
    if pos == |s| then
      if sep.last then Token("", pos, sep.WithLast(false)) else Finished(pos, sep)
    else Scan(sep.WithLast(false), s, pos, false, "")
  }

  /** The loop over the characters of a field. */
  function Scan(sep: Separator, s: string, pos: nat, inQuote: bool, tok: string): Step
    requires sep.EscapedList? && pos <= |s|
    decreases |s| - pos
  {
    if pos == |s| then Token(tok, pos, sep)
    else if sep.IsEscape(s[pos]) then
      if pos + 1 == |s| then Thrown(CannotEndWithEscape, pos + 1, sep)
      else if s[pos + 1] == 'n' then Scan(sep, s, pos + 2, inQuote, tok + ['\n'])
      else if Escapable(sep, s[pos + 1]) then Scan(sep, s, pos + 2, inQuote, tok + [s[pos + 1]])
      else Thrown(UnknownEscapeSequence, pos + 1, sep)
    else if sep.IsC(s[pos]) then
      if inQuote then Scan(sep, s, pos + 1, inQuote, tok + [s[pos]])
      else Token(tok, pos + 1, sep.WithLast(true))
    else if sep.IsQuote(s[pos]) then Scan(sep, s, pos + 1, !inQuote, tok)
    else Scan(sep, s, pos + 1, inQuote, tok + [s[pos]])
  }

  predicate Escapable(sep: Separator, e: char)
    requires sep.EscapedList?
  {
    sep.IsQuote(e) || sep.IsC(e) || sep.IsEscape(e)
  }

  // --------------------------------------------------------- char_separator

  function SkipDropped(sep: Separator, s: string, pos: nat): (e: nat)
    requires sep.CharSep? && pos <= |s|
    ensures pos <= e <= |s|
    ensures forall i :: pos <= i < e ==> sep.IsDropped(s[i])
    ensures e < |s| ==> !sep.IsDropped(s[e])
    decreases |s| - pos
  {
    if pos < |s| && sep.IsDropped(s[pos]) then SkipDropped(sep, s, pos + 1) else pos
  }

  function RunEnd(sep: Separator, s: string, pos: nat): (e: nat)
    requires sep.CharSep? && pos <= |s|
    ensures pos <= e <= |s|
    ensures forall i :: pos <= i < e ==> !sep.IsDelimiter(s[i])
    ensures e < |s| ==> sep.IsDelimiter(s[e])
    decreases |s| - pos
  {
    if pos < |s| && !sep.IsDelimiter(s[pos]) then RunEnd(sep, s, pos + 1) else pos
  }

  function DropNext(sep: Separator, s: string, pos: nat): Step
    requires sep.CharSep? && pos <= |s|
  {
    var start := SkipDropped(sep, s, pos);
    if start == |s| then Finished(start, sep)
    else if sep.IsKept(s[start]) then Token(s[start..start + 1], start + 1, sep)
    else Token(s[start..RunEnd(sep, s, start)], RunEnd(sep, s, start), sep)
  }

  function KeepNext(sep: Separator, s: string, pos: nat): Step
    requires sep.CharSep? && pos <= |s|
  {
    var done := sep.WithDone(true);
    if pos == |s| then
      if sep.outputDone then Finished(pos, sep) else Token("", pos, done)
    else if sep.IsKept(s[pos]) then
      if sep.outputDone then Token([s[pos]], pos + 1, sep.WithDone(false)) else Token("", pos, done)
    else if !sep.outputDone && sep.IsDropped(s[pos]) then Token("", pos, done)
    else
      var start := if sep.IsDropped(s[pos]) then pos + 1 else pos;
      Token(s[start..RunEnd(sep, s, start)], RunEnd(sep, s, start), done)
  }

  // ------------------------------------------------------- offset_separator

  function OffsetEnd(s: string, pos: nat, c: int): (e: nat)
    requires pos <= |s|
    ensures pos <= e <= |s|
  {
    if c <= 0 then pos else if pos + c <= |s| then pos + c else |s|
  }

  function OffsetNext(sep: Separator, s: string, pos: nat): Step
    requires sep.OffsetSep? && sep.Valid() && pos <= |s|
  {
    if pos == |s| || (sep.current == |sep.offsets| && !sep.wrap) then Finished(pos, sep)
    else
      var current := if sep.current == |sep.offsets| then 0 else sep.current;
      var c := sep.offsets[current];
      var e := OffsetEnd(s, pos, c);
      if !sep.returnPartialLast && e - pos < c - 1 then Finished(e, sep.WithCurrent(current))
      else Token(s[pos..e], e, sep.WithCurrent(current + 1))
  }

  // ------------------------------------------------------------------- runs

  lemma {:induction false} ScanAdvances(sep: Separator, s: string, pos: nat, inQuote: bool, tok: string)
    requires sep.EscapedList? && pos <= |s|
    ensures var r := Scan(sep, s, pos, inQuote, tok);
            && !r.Finished? && pos <= r.next <= |s|
            && (r.Token? && pos < |s| ==> pos < r.next)
            && r.sep.EscapedList? && r.sep.WithLast(sep.last) == sep
    decreases |s| - pos
  {
    if pos < |s| {
      var c := s[pos];
      if sep.IsEscape(c) {
        if pos + 1 < |s| {
          ScanAdvances(sep, s, pos + 2, inQuote, tok + ['\n']);
          ScanAdvances(sep, s, pos + 2, inQuote, tok + [s[pos + 1]]);
        }
      } else if sep.IsC(c) || !sep.IsQuote(c) {
        ScanAdvances(sep, s, pos + 1, inQuote, tok + [c]);
      } else {
        ScanAdvances(sep, s, pos + 1, !inQuote, tok);
      }
    }
  }

  /** A call leaves a valid state and a position inside the input. */
  lemma NextKeepsValid(sep: Separator, s: string, pos: nat)
    requires sep.Valid() && pos <= |s|
    ensures var r := Next(sep, s, pos);
            pos <= r.next <= |s| && r.sep.Valid() && (r.sep.OffsetSep? <==> sep.OffsetSep?)
  {
    if sep.EscapedList? && pos < |s| {
      ScanAdvances(sep.WithLast(false), s, pos, false, "");
    }
  }

  /** Twice the rest of the input, plus one for a token still owed at the end. */
  function Measure(sep: Separator, s: string, pos: nat): nat
    requires pos <= |s|
  {
    2 * (|s| - pos) + match sep
                      case EscapedList(_, _, _, last) => if last then 1 else 0
                      case CharSep(_, _, _, _, policy, outputDone) =>
                        if policy.KeepEmptyTokens? && !outputDone then 1 else 0
                      case OffsetSep(_, _, _, _) => 0
  }

  /** A call that returns a token although its offset is not positive: it takes nothing. */
  predicate TakesNothing(sep: Separator)
    requires sep.Valid()
  {
    sep.OffsetSep? && sep.offsets[if sep.current == |sep.offsets| then 0 else sep.current] <= 0
  }

  /** Every call that returns a token decreases the measure, but for an offset that is not
      positive, which leaves it as it is. */
  lemma NextDecreases(sep: Separator, s: string, pos: nat)
    requires sep.Valid() && pos <= |s|
    ensures var r := Next(sep, s, pos);
            r.Token? ==>
              && pos <= r.next <= |s|
              && Measure(r.sep, s, r.next) <= Measure(sep, s, pos)
              && (Measure(r.sep, s, r.next) == Measure(sep, s, pos) <==> TakesNothing(sep))
  {
    if sep.EscapedList? && pos < |s| {
      ScanAdvances(sep.WithLast(false), s, pos, false, "");
    }
  }

  /** The calls from here on return exactly these tokens and then false. */
  predicate RunsTo(sep: Separator, s: string, pos: nat, toks: seq<string>)
    requires sep.Valid() && pos <= |s|
    decreases |toks|
  {
    NextKeepsValid(sep, s, pos);
    var r := Next(sep, s, pos);
    if toks == [] then r.Finished?
    else r.Token? && r.tok == toks[0] && RunsTo(r.sep, s, r.next, toks[1..])
  }

  /** What a token iterator over the input yields; an empty input is never handed on. */
  predicate Yields(sep: Separator, s: string, toks: seq<string>)
    requires sep.Valid()
  {
    if s == "" then toks == [] else RunsTo(sep.Reset(), s, 0, toks)
  }

  /** The calls from here on return exactly these tokens and then throw. */
  predicate FailsAfter(sep: Separator, s: string, pos: nat, toks: seq<string>)
    requires sep.Valid() && pos <= |s|
    decreases |toks|
  {
    NextKeepsValid(sep, s, pos);
    var r := Next(sep, s, pos);
    if toks == [] then r.Thrown?
    else r.Token? && r.tok == toks[0] && FailsAfter(r.sep, s, r.next, toks[1..])
  }

  /** How the calls from here on end: with an exception, or without. */
  predicate EndsAs(sep: Separator, s: string, pos: nat, toks: seq<string>, fails: bool)
    requires sep.Valid() && pos <= |s|
  {
    if fails then FailsAfter(sep, s, pos, toks) else RunsTo(sep, s, pos, toks)
  }

  /** The same for a token iterator over the input. */
  predicate Ends(sep: Separator, s: string, toks: seq<string>, fails: bool)
    requires sep.Valid()
  {
    if fails then s != "" && FailsAfter(sep.Reset(), s, 0, toks) else Yields(sep, s, toks)
  }

  lemma {:induction false} EndsAsUnique(sep: Separator, s: string, pos: nat, a: seq<string>, b: seq<string>,
                                        i: bool, j: bool)
    requires sep.Valid() && pos <= |s| && EndsAs(sep, s, pos, a, i) && EndsAs(sep, s, pos, b, j)
    ensures a == b && i == j
    decreases |a|
  {
    if a != [] && b != [] {
      NextKeepsValid(sep, s, pos);
      var r := Next(sep, s, pos);
      EndsAsUnique(r.sep, s, r.next, a[1..], b[1..], i, j);
      assert a == [a[0]] + a[1..] && b == [b[0]] + b[1..];
    }
  }

  /** A run over an input ends in one way, with one list of tokens, or not at all. */
  lemma EndsUnique(sep: Separator, s: string, a: seq<string>, b: seq<string>, i: bool, j: bool)
    requires sep.Valid() && Ends(sep, s, a, i) && Ends(sep, s, b, j)
    ensures a == b && i == j
  {
    if s != "" {
      EndsAsUnique(sep.Reset(), s, 0, a, b, i, j);
    }
  }

  /** The two delimiter-driven functions always come to an end. */
  lemma {:induction false} RunHasEnd(sep: Separator, s: string, pos: nat) returns (toks: seq<string>, fails: bool)
    requires !sep.OffsetSep? && pos <= |s|
    ensures EndsAs(sep, s, pos, toks, fails)
    decreases Measure(sep, s, pos)
  {
    NextKeepsValid(sep, s, pos);
    NextDecreases(sep, s, pos);
    var r := Next(sep, s, pos);
    toks, fails := [], r.Thrown?;
    if r.Token? {
      var more;
      more, fails := RunHasEnd(r.sep, s, r.next);
      toks := [r.tok] + more;
      assert toks[1..] == more;
    }
  }

  lemma IterationHasEnd(sep: Separator, s: string) returns (toks: seq<string>, fails: bool)
    requires !sep.OffsetSep?
    ensures Ends(sep, s, toks, fails)
  {
    toks, fails := [], false;
    if s != "" {
      toks, fails := RunHasEnd(sep.Reset(), s, 0);
    }
  }

  /** There is at most one token list for an input. */
  lemma YieldsUnique(sep: Separator, s: string, a: seq<string>, b: seq<string>)
    requires sep.Valid() && Yields(sep, s, a) && Yields(sep, s, b)
    ensures a == b
  {
    EndsUnique(sep, s, a, b, false, false);
  }

  /** A run that starts with a token goes on behind it. */
  lemma RunsToTail(sep: Separator, s: string, pos: nat, toks: seq<string>)
    requires sep.Valid() && pos <= |s| && RunsTo(sep, s, pos, toks) && !Next(sep, s, pos).Finished?
    ensures var r := Next(sep, s, pos);
            && r.Token? && pos <= r.next <= |s| && r.sep.Valid()
            && toks == [r.tok] + toks[1..] && RunsTo(r.sep, s, r.next, toks[1..])
            && (r.next == |s| && r.sep.EscapedList? && !r.sep.last ==> toks == [r.tok])
  {
    NextKeepsValid(sep, s, pos);
  }

  lemma RunsToCons(sep: Separator, s: string, pos: nat, toks: seq<string>)
    requires sep.Valid() && pos <= |s| && toks != []
    requires var r := Next(sep, s, pos);
             r.Token? && r.tok == toks[0] && r.sep.Valid() && r.next <= |s| && RunsTo(r.sep, s, r.next, toks[1..])
    ensures RunsTo(sep, s, pos, toks)
  {
  }

  function Concat(toks: seq<string>): string {
    if toks == [] then "" else toks[0] + Concat(toks[1..])
  }
}
