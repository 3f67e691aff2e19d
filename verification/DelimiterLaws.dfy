/** What char_separator does in terms of the arguments it was constructed with: which
    characters the tokens lack, which make a token by themselves, and where tokens end. */
module DelimiterLaws {
  import opened Strings
  import opened Tokenizing
  import opened CharSeparatorLaws

  /** The separator drops the characters of the one string and keeps those of the other. */
  ghost predicate Uses(sep: Separator, dropped: string, kept: string)
    requires sep.CharSep?
  {
    forall e: char :: (sep.IsDropped(e) <==> e in dropped) && (sep.IsKept(e) <==> e in kept)
  }

  /** Strings that are given count as they are, the empty ones included; where none is
      given, the default constructor takes white space and punctuation. */
  lemma RolesExactly(sep: Separator)
    requires sep.CharSep?
    ensures !sep.useIspunct && !sep.useIsspace ==> Uses(sep, sep.dropped, sep.kept)
    ensures sep.dropped != "" && sep.kept != "" ==> Uses(sep, sep.dropped, sep.kept)
    ensures sep.dropped == sep.kept == "" && sep.useIspunct && sep.useIsspace ==>
              Uses(sep, " \t\n\U{B}\U{C}\r", "!\"#$%&'()*+,-./:;<=>?@[\\]^_`{|}~")
  {
    forall e: char
      ensures (IsSpace(e) <==> e in SPACES) && (IsPunct(e) <==> e in PUNCTUATION)
    {
      SpaceExactly(e);
      PunctExactly(e);
    }
  }

  // ------------------------------------------------------------ single tokens

  /** One kept delimiter, or a stretch of characters that are no delimiters. */
  predicate IsToken(tok: string, dropped: string, kept: string) {
    (|tok| == 1 && tok[0] in kept) || forall i :: 0 <= i < |tok| ==> tok[i] !in dropped && tok[i] !in kept
  }

  lemma StretchIsToken(sep: Separator, dropped: string, kept: string, s: string, b: nat, e: nat)
    requires sep.CharSep? && Uses(sep, dropped, kept) && b <= e <= |s|
    requires forall i :: b <= i < e ==> !sep.IsDelimiter(s[i])
    ensures IsToken(s[b..e], dropped, kept)
  {
    forall i | 0 <= i < e - b
      ensures s[b..e][i] !in dropped && s[b..e][i] !in kept
    {
      assert !sep.IsDelimiter(s[b + i]);
    }
  }

  lemma {:induction false} KeepTokensAre(sep: Separator, dropped: string, kept: string, s: string, pos: nat)
    requires sep.CharSep? && Uses(sep, dropped, kept) && pos <= |s|
    ensures forall i :: 0 <= i < |KeepTokens(sep, s, pos)| ==> IsToken(KeepTokens(sep, s, pos)[i], dropped, kept)
    decreases |s| - pos
  {
    var e := RunEnd(sep, s, pos);
    StretchIsToken(sep, dropped, kept, s, pos, e);
    if e < |s| {
      KeepTokensAre(sep, dropped, kept, s, e + 1);
      var more := KeptAt(sep, s, e) + KeepTokens(sep, s, e + 1);
      assert KeepTokens(sep, s, pos) == [s[pos..e]] + more;
    }
  }

  // --------------------------------------------------------- what is left out

  lemma FilteredCons(s: string, pos: nat, out: string, but: string)
    requires pos < |s|
    ensures Filtered(s[pos..], out, but)
         == (if s[pos] in out && s[pos] !in but then "" else [s[pos]]) + Filtered(s[pos + 1..], out, but)
  {
    assert s[pos..][1..] == s[pos + 1..];
  }

  lemma FilteredStretch(s: string, b: nat, e: nat, out: string, but: string)
    requires b <= e <= |s| && forall i :: b <= i < e ==> s[i] !in out
    ensures Filtered(s[b..], out, but) == s[b..e] + Filtered(s[e..], out, but)
  {
    assert s[b..][..e - b] == s[b..e] && s[b..][e - b..] == s[e..];
    HeadFiltered(s[b..], out, but, e - b);
  }

  lemma {:induction false} ConcatSplit(a: seq<string>, b: seq<string>)
    ensures Concat(a + b) == Concat(a) + Concat(b)
  {
    if a == [] {
      assert a + b == b && "" + Concat(b) == Concat(b);
    } else {
      assert (a + b)[1..] == a[1..] + b;
      ConcatSplit(a[1..], b);
      AppendAssociative(a[0], Concat(a[1..]), Concat(b));
    }
  }

  lemma ConcatOne(tok: string)
    ensures Concat([tok]) == tok
  {
    assert [tok][1..] == [] && tok + "" == tok;
  }

  lemma {:induction false} KeepTokensConcat(sep: Separator, dropped: string, kept: string, s: string, pos: nat)
    requires sep.CharSep? && Uses(sep, dropped, kept) && pos <= |s|
    ensures Concat(KeepTokens(sep, s, pos)) == Filtered(s[pos..], dropped, kept)
    decreases |s| - pos
  {
    var e := RunEnd(sep, s, pos);
    FilteredStretch(s, pos, e, dropped, kept);
    ConcatOne(s[pos..e]);
    if e == |s| {
      assert s[e..] == "" && s[pos..e] + "" == s[pos..e];
    } else {
      KeepTokensConcat(sep, dropped, kept, s, e + 1);
      DelimiterConcat(sep, dropped, kept, s, e);
      ConcatSplit([s[pos..e]], KeptAt(sep, s, e) + KeepTokens(sep, s, e + 1));
    }
  }

  lemma DelimiterConcat(sep: Separator, dropped: string, kept: string, s: string, e: nat)
    requires sep.CharSep? && Uses(sep, dropped, kept) && e < |s| && sep.IsDelimiter(s[e])
    requires Concat(KeepTokens(sep, s, e + 1)) == Filtered(s[e + 1..], dropped, kept)
    ensures Concat(KeptAt(sep, s, e) + KeepTokens(sep, s, e + 1)) == Filtered(s[e..], dropped, kept)
  {
    FilteredCons(s, e, dropped, kept);
    ConcatSplit(KeptAt(sep, s, e), KeepTokens(sep, s, e + 1));
    if sep.IsKept(s[e]) {
      ConcatOne([s[e]]);
    }
  }

  lemma {:induction false} DroppedCount(sep: Separator, dropped: string, kept: string, s: string, pos: nat)
    requires sep.CharSep? && Uses(sep, dropped, kept) && pos <= |s|
    ensures |DroppedDelimiters(sep, s, pos)| == |s| - pos - |Filtered(s[pos..], dropped, kept)|
    ensures CountKept(sep, s, pos) == Occurrences(s[pos..], kept)
    decreases |s| - pos
  {
    if pos < |s| {
      DroppedCount(sep, dropped, kept, s, pos + 1);
      FilteredCons(s, pos, dropped, kept);
      assert s[pos..][1..] == s[pos + 1..];
    }
  }

  lemma {:induction false} WithoutIsFiltered(sep: Separator, dropped: string, kept: string, s: string, pos: nat)
    requires sep.CharSep? && Uses(sep, dropped, kept) && pos <= |s|
    ensures WithoutDropped(sep, s, pos) == Filtered(s[pos..], dropped, "")
    decreases |s| - pos
  {
    if pos < |s| {
      WithoutIsFiltered(sep, dropped, kept, s, pos + 1);
      FilteredCons(s, pos, dropped, "");
      assert "" + Filtered(s[pos + 1..], dropped, "") == Filtered(s[pos + 1..], dropped, "");
    }
  }

  // ------------------------------------------------------------ main results

  /** What the tokens of a keep_empty_tokens separator are: every one is a kept delimiter or
      free of delimiters, nothing is missing but dropped delimiters that are not kept as
      well, and there is one token more than those and two more for every kept one. */
  ghost predicate KeepsApart(s: string, dropped: string, kept: string, toks: seq<string>) {
    && (forall i :: 0 <= i < |toks| ==> IsToken(toks[i], dropped, kept))
    && Concat(toks) == Filtered(s, dropped, kept)
    && |toks| == 1 + (|s| - |Concat(toks)|) + 2 * Occurrences(s, kept)
  }

  lemma KeepDelimiters(sep: Separator, dropped: string, kept: string, s: string)
    requires sep.CharSep? && Uses(sep, dropped, kept)
    ensures KeepsApart(s, dropped, kept, KeepTokens(sep, s, 0))
  {
    assert s[0..] == s;
    KeepTokensAre(sep, dropped, kept, s, 0);
    KeepTokensConcat(sep, dropped, kept, s, 0);
    DroppedCount(sep, dropped, kept, s, 0);
    KeepTokenCount(sep, s, 0);
  }

  /** A span that no character can be added to: a kept delimiter that is not dropped as
      well, or a stretch free of delimiters between two of them or the ends. */
  predicate IsWhole(s: string, dropped: string, kept: string, t: Span) {
    && t.b < t.e <= |s|
    && if s[t.b] in dropped || s[t.b] in kept then t.e == t.b + 1 && s[t.b] !in dropped
       else && (forall i :: t.b <= i < t.e ==> s[i] !in dropped && s[i] !in kept)
            && (t.b > 0 ==> s[t.b - 1] in dropped || s[t.b - 1] in kept)
            && (t.e < |s| ==> s[t.e] in dropped || s[t.e] in kept)
  }

  /** The tokens of a drop_empty_tokens separator: the texts of exactly the whole spans, in
      order, and nothing is missing but the dropped characters. */
  ghost predicate DropsApart(s: string, dropped: string, kept: string, toks: seq<string>, spans: seq<Span>) {
    && toks == Texts(s, spans)
    && (forall t: Span :: t in spans <==> IsWhole(s, dropped, kept, t))
    && (forall i, j :: 0 <= i < j < |spans| ==> spans[i].e <= spans[j].b)
    && Concat(toks) == Filtered(s, dropped, "")
  }

  lemma WholeIsMaximal(sep: Separator, dropped: string, kept: string, s: string, t: Span)
    requires sep.CharSep? && Uses(sep, dropped, kept)
    ensures IsWhole(s, dropped, kept, t) <==> Maximal(sep, s, t)
  {
  }

  lemma DropDelimiters(sep: Separator, dropped: string, kept: string, s: string)
    requires sep.CharSep? && sep.policy.DropEmptyTokens? && Uses(sep, dropped, kept)
    ensures DropsApart(s, dropped, kept, DropTokens(sep, s), Spans(sep, s, 0))
  {
    assert s[0..] == s;
    DropYields(sep, s);
    DropConserves(sep, s);
    WithoutIsFiltered(sep, dropped, kept, s, 0);
    forall t: Span
      ensures t in Spans(sep, s, 0) <==> IsWhole(s, dropped, kept, t)
    {
      WholeIsMaximal(sep, dropped, kept, s, t);
    }
  }

  /** A separator made from two strings, under drop_empty_tokens. */
  lemma GivenDrop(dropped: string, kept: string, done: bool, s: string, toks: seq<string>)
    requires Yields(CharSep(dropped, kept, false, false, DropEmptyTokens, done), s, toks)
    ensures exists spans: seq<Span> :: DropsApart(s, dropped, kept, toks, spans)
  {
    var sep := CharSep(dropped, kept, false, false, DropEmptyTokens, done);
    RolesExactly(sep);
    DropDelimiters(sep, dropped, kept, s);
    DropYields(sep, s);
    YieldsUnique(sep, s, toks, DropTokens(sep, s));
  }

  /** A separator made from two strings and not called before, under keep_empty_tokens. */
  lemma GivenKeep(dropped: string, kept: string, s: string, toks: seq<string>)
    requires s != "" && Yields(CharSep(dropped, kept, false, false, KeepEmptyTokens, false), s, toks)
    ensures KeepsApart(s, dropped, kept, toks)
  {
    var sep := CharSep(dropped, kept, false, false, KeepEmptyTokens, false);
    RolesExactly(sep);
    KeepDelimiters(sep, dropped, kept, s);
    KeepYields(sep, s);
    YieldsUnique(sep, s, toks, KeepTokens(sep, s, 0));
  }

  /** A separator made without arguments: white space separates and is dropped, punctuation
      separates and is kept. */
  lemma GivenNothing(done: bool, s: string, toks: seq<string>)
    requires Yields(CharSep("", "", true, true, DropEmptyTokens, done), s, toks)
    ensures exists spans: seq<Span> ::
              DropsApart(s, " \t\n\U{B}\U{C}\r", "!\"#$%&'()*+,-./:;<=>?@[\\]^_`{|}~", toks, spans)
  {
    var sep := CharSep("", "", true, true, DropEmptyTokens, done);
    RolesExactly(sep);
    DropDelimiters(sep, SPACES, PUNCTUATION, s);
    DropYields(sep, s);
    YieldsUnique(sep, s, toks, DropTokens(sep, s));
  }

  /** The text "a|b" with a bar that is kept: three tokens under either policy. */
  lemma KeptBarExample()
    ensures Yields(CharSep("", "|", false, false, DropEmptyTokens, false), "a|b", ["a", "|", "b"])
    ensures Yields(CharSep("", "|", false, false, KeepEmptyTokens, false), "a|b", ["a", "|", "b"])
  {
    var drop := CharSep("", "|", false, false, DropEmptyTokens, false);
    var keep := CharSep("", "|", false, false, KeepEmptyTokens, false);
    BarDrop(drop);
    DropYields(drop, "a|b");
    BarKeep(keep);
    KeepYields(keep, "a|b");
  }

  lemma BarDrop(sep: Separator)
    requires sep.CharSep? && Uses(sep, "", "|")
    ensures DropTokens(sep, "a|b") == ["a", "|", "b"]
  {
    var s := "a|b";
    RunEndIs(sep, s, 0, 1);
    RunEndIs(sep, s, 2, 3);
    assert s[0..1] == "a" && s[1..2] == "|" && s[2..3] == "b";
    assert Spans(sep, s, 3) == [] && Spans(sep, s, 2) == [Span(2, 3)] + [];
    assert Spans(sep, s, 1) == [Span(1, 2)] + Spans(sep, s, 2);
    assert Spans(sep, s, 0) == [Span(0, 1)] + Spans(sep, s, 1);
    TextsCons(s, Span(2, 3), []);
    TextsCons(s, Span(1, 2), Spans(sep, s, 2));
    TextsCons(s, Span(0, 1), Spans(sep, s, 1));
  }

  lemma TextsCons(s: string, t: Span, rest: seq<Span>)
    ensures Texts(s, [t] + rest) == [Cut(s, t)] + Texts(s, rest)
  {
    assert ([t] + rest)[1..] == rest;
  }

  lemma BarKeep(sep: Separator)
    requires sep.CharSep? && Uses(sep, "", "|")
    ensures KeepTokens(sep, "a|b", 0) == ["a", "|", "b"]
  {
    var s := "a|b";
    RunEndIs(sep, s, 0, 1);
    RunEndIs(sep, s, 2, 3);
    assert s[0..1] == "a" && s[2..3] == "b";
    assert KeepTokens(sep, s, 2) == ["b"];
    assert KeptAt(sep, s, 1) == ["|"];
  }
}
