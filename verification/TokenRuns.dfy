/** Whole runs of the iterator object over an input, from construction to the end, and of
    the separators called directly. */
module TokenRuns {
  import opened Tokenizing
  import opened Separators
  import CharSeparatorLaws
  import OffsetLaws

  /** One turn of a loop over an iterator that has these tokens ahead. */
  method Advance(it: TokenIterator, ghost ahead: seq<string>, ghost fails: bool) returns (thrown: bool)
    requires it.Valid() && it.valid && it.Leads(ahead, fails)
    modifies it, it.f.Object()
    ensures it.Valid() && ahead != [] && ahead[0] == old(it.tok)
    ensures thrown <==> fails && |ahead| == 1
    ensures !thrown ==> it.Leads(ahead[1..], fails)
    ensures !thrown && it.valid && !TakesNothing(old(it.f.View())) ==>
              Measure(it.f.View(), it.input, it.begin) < old(Measure(it.f.View(), it.input, it.begin))
  {
    NextDecreases(it.f.View(), it.input, it.begin);
    thrown := it.Increment();
    assert old(it.Leads(ahead, fails));
  }

  lemma MoveOver(delivered: seq<string>, ahead: seq<string>, toks: seq<string>)
    requires delivered + ahead == toks && ahead != []
    ensures delivered + [ahead[0]] + ahead[1..] == toks
    ensures |ahead| == 1 ==> delivered + [ahead[0]] == toks
  {
    assert ahead == [ahead[0]] + ahead[1..];
  }

  lemma OneMore(toks: seq<string>, tok: string, ahead: seq<string>)
    ensures toks + [tok] + ahead == toks + ([tok] + ahead)
  {
  }

  /** Collects what an iterator over the input delivers: all its tokens, and then the end
      or an exception. The iterator works on its own copy of the function object. */
  method Collect(f: TokenizerFunc, input: string, kind: IteratorKind, ghost toks: seq<string>, ghost fails: bool)
    returns (thrown: bool, delivered: seq<string>)
    requires f.View().Valid() && Ends(f.View(), input, toks, fails)
    ensures thrown == fails && delivered == toks
  {
    var it := new TokenIterator(f, input, kind);
    thrown := it.Initialize();
    delivered := [];
    if thrown {
      EndsUnique(f.View(), input, [], toks, true, fails);
      return;
    }
    ghost var ahead := toks;
    while !it.AtEnd()
      invariant fresh(it) && fresh(it.f.Object()) && it.Valid()
      invariant it.Leads(ahead, fails) && delivered + ahead == toks
      decreases |ahead|
    {
      var tok := it.tok;
      thrown := Advance(it, ahead, fails);
      MoveOver(delivered, ahead, toks);
      delivered := delivered + [tok];
      ahead := ahead[1..];
      if thrown { return; }
    }
  }

  /** The tokens of a text with a char_separator in any state do not depend on the kind of
      iterator, that is on whether tokens are assigned at once or grown by characters. */
  method CharTokens(k: CharSeparator, input: string, kind: IteratorKind) returns (toks: seq<string>)
    ensures toks == CharSeparatorLaws.TokensOf(k.View(), input)
  {
    CharSeparatorLaws.TokensOfYields(k.View(), input);
    var thrown;
    thrown, toks := Collect(CharFunc(k), input, kind, CharSeparatorLaws.TokensOf(k.View(), input), false);
  }

  /** The tokens of a text cut at offsets in turn, whatever the options, wherever such a
      run ends at all. */
  method OffsetTokens(o: OffsetSeparator, input: string, kind: IteratorKind) returns (toks: seq<string>)
    requires o.View().Valid()
    requires input == "" || !o.wrapOffsets || exists p :: 0 <= p < |o.offsets| && o.offsets[p] > 0
    ensures OffsetLaws.Pieces(o.View(), 0, input, toks)
  {
    OffsetLaws.OffsetEnds(o.View(), input);
    ghost var expected: seq<string> :| Yields(o.View(), input, expected);
    OffsetLaws.OffsetYields(o.View(), input, expected);
    var thrown;
    thrown, toks := Collect(OffsetFunc(o), input, kind, expected, false);
  }

  /** Any run of an escaped_list_separator: it delivers the one token list of the text, or
      the tokens in front of the first error and then throws. */
  method EscapedTokens(e: EscapedListSeparator, input: string, kind: IteratorKind)
    returns (thrown: bool, toks: seq<string>)
    ensures Ends(e.View(), input, toks, thrown)
    ensures thrown ==> forall ts :: !Yields(e.View(), input, ts)
  {
    ghost var expected, fails := IterationHasEnd(e.View(), input);
    thrown, toks := Collect(EscapedFunc(e), input, kind, expected, fails);
    forall ts | thrown
      ensures !Yields(e.View(), input, ts)
    {
      if Yields(e.View(), input, ts) {
        EndsUnique(e.View(), input, toks, ts, true, false);
      }
    }
  }

  // ------------------------------------------------------- used without an iterator

  /** One direct call of a separator that differs from `sep` in the flag only. */
  method CallDirectly(k: CharSeparator, ghost sep: Separator, input: string, kind: IteratorKind, pos: nat, tok: string)
    returns (ok: bool, next: nat, tok': string)
    requires sep.CharSep? && sep.policy.KeepEmptyTokens? && k.View() == sep.WithDone(k.outputDone) && pos <= |input|
    modifies k
    ensures next <= |input| && k.View() == sep.WithDone(k.outputDone)
    ensures var before := CharSeparatorLaws.StillToCome(sep, old(k.outputDone), input, pos);
            if ok then before == [tok'] + CharSeparatorLaws.StillToCome(sep, k.outputDone, input, next)
            else before == [] && k.outputDone
    ensures ok ==> Measure(k.View(), input, next) < Measure(old(k.View()), input, pos)
  {
    CharSeparatorLaws.KeepCall(sep, k.outputDone, input, pos);
    ok, next, tok' := k.Call(kind, input, pos, tok);
  }

  /** Calls a keep_empty_tokens separator over and over until it returns false. It returns
      what is still to come for it, and is left with `m_output_done` set. */
  method DrainDirectly(k: CharSeparator, input: string, kind: IteratorKind) returns (toks: seq<string>)
    requires k.policy.KeepEmptyTokens?
    modifies k
    ensures toks == CharSeparatorLaws.StillToCome(old(k.View()), old(k.outputDone), input, 0)
    ensures k.View() == old(k.View()).WithDone(true)
  {
    ghost var sep, all := k.View(), CharSeparatorLaws.StillToCome(k.View(), k.outputDone, input, 0);
    var pos: nat, tok, ok := 0, "", true;
    toks := [];
    while ok
      invariant pos <= |input| && k.View() == sep.WithDone(k.outputDone)
      invariant if ok then toks + CharSeparatorLaws.StillToCome(sep, k.outputDone, input, pos) == all
                else k.outputDone && toks == all
      decreases ok, Measure(k.View(), input, pos)
    {
      ok, pos, tok := CallDirectly(k, sep, input, kind, pos, tok);
      if ok {
        OneMore(toks, tok, CharSeparatorLaws.StillToCome(sep, k.outputDone, input, pos));
        toks := toks + [tok];
      } else {
        assert toks + [] == toks;
      }
    }
  }

  /** A separator that has been called to the end loses the leading empty token of the same
      text the next time, by direct calls and in an iterator alike. */
  method UsedTwice(kind: IteratorKind) returns (first: seq<string>, second: seq<string>, third: seq<string>)
    ensures first == ["", "x"] && second == ["x"] && third == ["x"]
  {
    CharSeparatorLaws.LeadingDelimiterExample();
    var k := new CharSeparator(",", "", KeepEmptyTokens);
    first := DrainDirectly(k, ",x", kind);
    second := DrainDirectly(k, ",x", kind);
    third := CharTokens(k, ",x", kind);
  }
}
