/** The tokenizer functions as the classes they are, and the iterator that drives them. */
module Separators {
  import opened Strings
  import opened Tokenizing

  /** Whether tokens are assigned as a range or built up character by character. */
  datatype IteratorKind = ForwardIterator | InputIterator

  /** `assign_or_plus_equal`. */
  function Assign(kind: IteratorKind, s: string, b: nat, e: nat, tok: string): string
    requires b <= e <= |s|
  {
    if kind.ForwardIterator? then s[b..e] else tok
  }

  function PlusEqual(kind: IteratorKind, tok: string, v: char): string {
    if kind.ForwardIterator? then tok else tok + [v]
  }

  function Clear(kind: IteratorKind, tok: string): string {
    if kind.ForwardIterator? then tok else ""
  }

  class EscapedListSeparator {
    const escape: string
    const c: string
    const quote: string
    var last: bool

    function View(): Separator
      reads this
    {
      EscapedList(escape, c, quote, last)
    }

    constructor (escape: string, c: string, quote: string)
      ensures View() == EscapedList(escape, c, quote, false)
    {
      this.escape, this.c, this.quote, last := escape, c, quote, false;
    }

    constructor CopyOf(other: EscapedListSeparator)
      ensures View() == other.View()
    {
      escape, c, quote, last := other.escape, other.c, other.quote, other.last;
    }

    method Reset()
      modifies this
      ensures View() == old(View()).Reset()
    {
      last := false;
    }

    /** `do_escape`: stands on the escape character, ends on the escaped one. */
    method DoEscape(s: string, pos: nat, tok: string)
      returns (thrown: bool, error: EscapeError, next: nat, tok': string)
      requires pos < |s|
      ensures !thrown ==> next == pos + 1 < |s| && tok' == tok + [if s[next] == 'n' then '\n' else s[next]]
      ensures !thrown ==> s[next] == 'n' || Escapable(View(), s[next])
      ensures thrown ==> next == pos + 1
      ensures thrown ==> if pos + 1 == |s| then error == CannotEndWithEscape
                         else error == UnknownEscapeSequence && s[pos + 1] != 'n' && !Escapable(View(), s[pos + 1])
    {
      thrown, error, next, tok' := false, CannotEndWithEscape, pos + 1, tok;
      if next == |s| {
        thrown := true;
      } else if s[next] == 'n' {
        tok' := tok' + ['\n'];
      } else if s[next] in quote {
        tok' := tok' + [s[next]];
      } else if s[next] in c {
        tok' := tok' + [s[next]];
      } else if s[next] in escape {
        tok' := tok' + [s[next]];
      } else {
        thrown, error := true, UnknownEscapeSequence;
      }
    }

    /** `operator()`. */
    method Call(s: string, pos: nat) returns (step: Step)
      requires pos <= |s|
      modifies this
      ensures step == Next(old(View()), s, pos)
      ensures View() == step.sep
    {
      var inQuote, tok, next := false, "", pos;
      if next == |s| {
        if last {
          last := false;
          return Token(tok, next, View());
        } else {
          return Finished(next, View());
        }
      }
      last := false;
      ghost var sep := View();
      while next != |s|
        invariant pos <= next <= |s|
        invariant View() == sep
        invariant Scan(sep, s, next, inQuote, tok) == Scan(sep, s, pos, false, "")
        decreases |s| - next
      {
        if s[next] in escape {
          var thrown, error;
          thrown, error, next, tok := DoEscape(s, next, tok);
          if thrown { return Thrown(error, next, View()); }
        } else if s[next] in c {
          if !inQuote {
            next := next + 1;
            last := true;
            return Token(tok, next, View());
          } else {
            tok := tok + [s[next]];
          }
        } else if s[next] in quote {
          inQuote := !inQuote;
        } else {
          tok := tok + [s[next]];
        }
        next := next + 1;
      }
      return Token(tok, next, View());
    }
  }

  class CharSeparator {
    const dropped: string
    const kept: string
    const useIspunct: bool
    const useIsspace: bool
    const policy: EmptyTokenPolicy
    var outputDone: bool

    function View(): Separator
      reads this
    {
      CharSep(dropped, kept, useIspunct, useIsspace, policy, outputDone)
    }

    constructor (droppedDelims: string, keptDelims: string, emptyTokens: EmptyTokenPolicy)
      ensures View() == CharSep(droppedDelims, keptDelims, false, false, emptyTokens, false)
    {
      dropped, kept, policy := droppedDelims, keptDelims, emptyTokens;
      useIspunct, useIsspace, outputDone := false, false, false;
    }

    /** The default constructor leaves `m_output_done` unset. */
    constructor Default()
      ensures exists b: bool :: View() == CharSep("", "", true, true, DropEmptyTokens, b)
    {
      dropped, kept, policy := "", "", DropEmptyTokens;
      useIspunct, useIsspace := true, true;
      outputDone := *;
      new;
      assert View() == CharSep("", "", true, true, DropEmptyTokens, outputDone);
    }

    constructor CopyOf(other: CharSeparator)
      ensures View() == other.View()
    {
      dropped, kept, policy := other.dropped, other.kept, other.policy;
      useIspunct, useIsspace, outputDone := other.useIspunct, other.useIsspace, other.outputDone;
    }

    method Reset()
      ensures View() == View().Reset()
    {
    }

    /** `operator()`. When it returns true, the token is the same for both kinds of
        iterator, whatever the token variable held before. */
    method Call(kind: IteratorKind, s: string, pos: nat, tok: string) returns (ok: bool, next: nat, tok': string)
      requires pos <= |s|
      modifies this
      ensures var step := Next(old(View()), s, pos);
              && ok == step.Token? && next == step.next && View() == step.sep
              && (ok ==> tok' == step.tok)
      ensures !ok ==> tok' == Clear(kind, tok)
    {
      tok' := Clear(kind, tok);
      if policy == DropEmptyTokens {
        ok, next, tok' := CallDropping(kind, s, pos, tok');
      } else {
        ok, next, tok' := CallKeeping(kind, s, pos, tok');
      }
    }

    /** The branches for drop_empty_tokens; the token has been cleared. */
    method CallDropping(kind: IteratorKind, s: string, pos: nat, tok: string)
      returns (ok: bool, next: nat, tok': string)
      requires pos <= |s| && (kind.InputIterator? ==> tok == "")
      ensures var step := DropNext(View(), s, pos);
              && ok == step.Token? && next == step.next && View() == step.sep
              && tok' == if ok then step.tok else tok
    {
      tok', next := tok, pos;
      while next != |s| && View().IsDropped(s[next])
        invariant pos <= next <= |s|
        invariant SkipDropped(View(), s, next) == SkipDropped(View(), s, pos)
        decreases |s| - next
      {
        next := next + 1;
      }
      var start := next;
      if next == |s| { return false, next, tok'; }
      if View().IsKept(s[next]) {
        tok' := PlusEqual(kind, tok', s[next]);
        next := next + 1;
      } else {
        next, tok' := AppendRun(kind, s, next, tok');
      }
      tok' := Assign(kind, s, start, next, tok');
      return true, next, tok';
    }

    /** The branches for keep_empty_tokens; the token has been cleared. */
    method CallKeeping(kind: IteratorKind, s: string, pos: nat, tok: string)
      returns (ok: bool, next: nat, tok': string)
      requires pos <= |s| && (kind.InputIterator? ==> tok == "")
      modifies this
      ensures var step := KeepNext(old(View()), s, pos);
              && ok == step.Token? && next == step.next && View() == step.sep
              && tok' == if ok then step.tok else tok
    {
      tok', next := tok, pos;
      var start := next;
      if next == |s| {
        if !outputDone {
          outputDone := true;
          tok' := Assign(kind, s, start, next, tok');
          return true, next, tok';
        } else {
          return false, next, tok';
        }
      }
      if View().IsKept(s[next]) {
        if !outputDone {
          outputDone := true;
        } else {
          tok' := PlusEqual(kind, tok', s[next]);
          next := next + 1;
          outputDone := false;
        }
      } else if !outputDone && View().IsDropped(s[next]) {
        outputDone := true;
      } else {
        if View().IsDropped(s[next]) {
          next := next + 1;
          start := next;
        }
        next, tok' := AppendRun(kind, s, next, tok');
        outputDone := true;
      }
      tok' := Assign(kind, s, start, next, tok');
      return true, next, tok';
    }

    /** The loop over the characters of a token. */
    method AppendRun(kind: IteratorKind, s: string, pos: nat, tok: string) returns (next: nat, tok': string)
      requires pos <= |s|
      ensures next == RunEnd(View(), s, pos)
      ensures tok' == if kind.ForwardIterator? then tok else tok + s[pos..next]
    {
      next, tok' := pos, tok;
      while next != |s| && !View().IsDropped(s[next]) && !View().IsKept(s[next])
        invariant pos <= next <= |s|
        invariant RunEnd(View(), s, next) == RunEnd(View(), s, pos)
        invariant tok' == if kind.ForwardIterator? then tok else tok + s[pos..next]
        decreases |s| - next
      {
        SliceGrows(s, pos, next);
        AppendAssociative(tok, s[pos..next], [s[next]]);
        tok' := PlusEqual(kind, tok', s[next]);
        next := next + 1;
      }
    }
  }

  class OffsetSeparator {
    const offsets: seq<int>
    const wrapOffsets: bool
    const returnPartialLast: bool
    var current: nat

    function View(): Separator
      reads this
    {
      OffsetSep(offsets, current, wrapOffsets, returnPartialLast)
    }

    constructor (offsets: seq<int>, wrapOffsets: bool, returnPartialLast: bool)
      ensures View() == OffsetSep(offsets, 0, wrapOffsets, returnPartialLast)
    {
      this.offsets, this.wrapOffsets, this.returnPartialLast := offsets, wrapOffsets, returnPartialLast;
      current := 0;
    }

    constructor CopyOf(other: OffsetSeparator)
      ensures View() == other.View()
    {
      offsets, wrapOffsets, returnPartialLast := other.offsets, other.wrapOffsets, other.returnPartialLast;
      current := other.current;
    }

    method Reset()
      modifies this
      ensures View() == old(View()).Reset()
    {
      current := 0;
    }

    /** `operator()`; it asserts that there are offsets. */
    method Call(kind: IteratorKind, s: string, pos: nat, tok: string) returns (ok: bool, next: nat, tok': string)
      requires View().Valid() && pos <= |s|
      modifies this
      ensures View().Valid()
      ensures var step := Next(old(View()), s, pos);
              && ok == step.Token? && next == step.next && View() == step.sep
              && (ok ==> tok' == step.tok)
    {
      tok', next := Clear(kind, tok), pos;
      var start := next;
      if next == |s| { return false, next, tok'; }
      if current == |offsets| {
        if wrapOffsets {
          current := 0;
        } else {
          return false, next, tok';
        }
      }
      ghost var sep := View();
      var c := offsets[current];
      var i := 0;
      while i < c
        invariant View() == sep
        invariant 0 <= i && (i <= c || i == 0)
        invariant next == pos + i <= |s|
        invariant kind.InputIterator? ==> tok' == s[pos..next]
      {
        if next == |s| { break; }
        SliceGrows(s, pos, next);
        tok' := PlusEqual(kind, tok', s[next]);
        next := next + 1;
        i := i + 1;
      }
      assert next == OffsetEnd(s, pos, c);
      tok' := Assign(kind, s, start, next, tok');
      if !returnPartialLast {
        if i < c - 1 { return false, next, tok'; }
      }
      current := current + 1;
      return true, next, tok';
    }
  }

  /** The template argument of the iterator. */
  datatype TokenizerFunc =
    | EscapedFunc(e: EscapedListSeparator)
    | CharFunc(k: CharSeparator)
    | OffsetFunc(o: OffsetSeparator)
  {
    ghost function Object(): object {
      match this
      case EscapedFunc(e) => e
      case CharFunc(k) => k
      case OffsetFunc(o) => o
    }

    function View(): Separator
      reads Object()
    {
      match this
      case EscapedFunc(e) => e.View()
      case CharFunc(k) => k.View()
      case OffsetFunc(o) => o.View()
    }

    /** Function objects are passed by value. */
    method Copy() returns (f: TokenizerFunc)
      ensures fresh(f.Object()) && f.View() == View()
    {
      if EscapedFunc? {
        var copy := new EscapedListSeparator.CopyOf(e);
        f := EscapedFunc(copy);
      } else if CharFunc? {
        var copy := new CharSeparator.CopyOf(k);
        f := CharFunc(copy);
      } else {
        var copy := new OffsetSeparator.CopyOf(o);
        f := OffsetFunc(copy);
      }
    }

    method Reset()
      modifies Object()
      ensures View() == old(View()).Reset()
    {
      match this
      case EscapedFunc(e) => e.Reset();
      case CharFunc(k) => k.Reset();
      case OffsetFunc(o) => o.Reset();
    }

    method Call(kind: IteratorKind, s: string, pos: nat, tok: string)
      returns (thrown: bool, ok: bool, next: nat, tok': string)
      requires View().Valid() && pos <= |s|
      modifies Object()
      ensures var step := Next(old(View()), s, pos);
              && thrown == step.Thrown? && ok == step.Token? && next == step.next <= |s|
              && View() == step.sep && View().Valid()
              && (ok ==> tok' == step.tok)
    {
      NextKeepsValid(View(), s, pos);
      thrown, ok, next, tok' := false, false, pos, tok;
      match this
      case EscapedFunc(e) =>
        var step := e.Call(s, pos);
        thrown, ok, next := step.Thrown?, step.Token?, step.next;
        if ok { tok' := step.tok; }
      case CharFunc(k) => ok, next, tok' := k.Call(kind, s, pos, tok);
      case OffsetFunc(o) => ok, next, tok' := o.Call(kind, s, pos, tok);
    }
  }

  /** `token_iterator`: has its own copy of the tokenizer function and moves over one input. */
  class TokenIterator {
    const f: TokenizerFunc
    const input: string
    const kind: IteratorKind
    var begin: nat
    var valid: bool
    var tok: string

    ghost predicate Valid()
      reads this, f.Object()
    {
      f.View().Valid() && begin <= |input|
    }

    /** The tokens still to be delivered, the current one first. */
    ghost predicate Ahead(toks: seq<string>)
      requires Valid()
      reads this, f.Object()
    {
      if valid then toks != [] && toks[0] == tok && RunsTo(f.View(), input, begin, toks[1..])
      else toks == []
    }

    /** The same, told apart by whether an exception comes after them. */
    ghost predicate Leads(toks: seq<string>, fails: bool)
      requires Valid()
      reads this, f.Object()
    {
      if fails then valid && toks != [] && toks[0] == tok && FailsAfter(f.View(), input, begin, toks[1..])
      else Ahead(toks)
    }

    constructor (f: TokenizerFunc, input: string, kind: IteratorKind)
      requires f.View().Valid()
      ensures Valid() && this.input == input && !valid && begin == 0
      ensures fresh(this.f.Object()) && this.f.View() == f.View()
    {
      var own := f.Copy();
      this.f, this.input, this.kind := own, input, kind;
      begin, valid, tok := 0, false, "";
    }

    /** `initialize`, which the constructor of the source ends with; it may throw. */
    method Initialize() returns (thrown: bool)
      requires Valid() && !valid && begin == 0
      modifies this, f.Object()
      ensures thrown <==> input != "" && Next(old(f.View()).Reset(), input, 0).Thrown?
      ensures Valid()
      ensures if thrown then Ends(old(f.View()), input, [], true)
              else forall toks, fails :: Ends(old(f.View()), input, toks, fails) <==> Leads(toks, fails)
    {
      thrown := false;
      f.Reset();
      if begin != |input| {
        var ok;
        thrown, ok, begin, tok := f.Call(kind, input, begin, tok);
        valid := !thrown && ok;
      }
    }

    /** `increment`; the source asserts that the iterator is valid. */
    method Increment() returns (thrown: bool)
      requires Valid() && valid
      modifies this, f.Object()
      ensures thrown <==> Next(old(f.View()), input, old(begin)).Thrown?
      ensures Valid() && (thrown ==> valid)
      ensures if thrown then forall toks, fails :: old(Leads(toks, fails)) <==> fails && toks == [old(tok)]
              else forall toks, fails ::
                     old(Leads(toks, fails)) <==> toks != [] && toks[0] == old(tok) && Leads(toks[1..], fails)
      ensures !thrown && valid ==>
                var step := Next(old(f.View()), input, old(begin));
                f.View() == step.sep && begin == step.next
    {
      var ok;
      thrown, ok, begin, tok := f.Call(kind, input, begin, tok);
      if !thrown {
        valid := ok;
      }
    }

    predicate AtEnd()
      reads this
    {
      !valid
    }
  }
}
