/** What char_separator returns over a whole input, under either policy for empty tokens. */
module CharSeparatorLaws {
  import opened Tokenizing

  // ----------------------------------------------------- keep_empty_tokens

  /** A delimiter as a token, if it is a kept one. */
  function KeptAt(sep: Separator, s: string, e: nat): seq<string>
    requires sep.CharSep? && e < |s|
  {
    if sep.IsKept(s[e]) then [[s[e]]] else []
  }

  /** The tokens of a text from a position on, when nothing is left out but the dropped
      delimiters themselves: the stretches between delimiters, empty ones included, and
      the kept delimiters. */
  function KeepTokens(sep: Separator, s: string, pos: nat): (toks: seq<string>)
    requires sep.CharSep? && pos <= |s|
    ensures toks != [] && toks[0] == s[pos..RunEnd(sep, s, pos)]
    decreases |s| - pos
  {
    var e := RunEnd(sep, s, pos);
    [s[pos..e]] + if e == |s| then [] else KeptAt(sep, s, e) + KeepTokens(sep, s, e + 1)
  }

  /** The same without the first stretch. */
  function AfterFirst(sep: Separator, s: string, pos: nat): seq<string>
    requires sep.CharSep? && pos <= |s|
  {
    KeepTokens(sep, s, pos)[1..]
  }

  lemma {:induction false} RunEndIs(sep: Separator, s: string, pos: nat, e: nat)
    requires sep.CharSep? && pos <= e <= |s|
    requires forall i :: pos <= i < e ==> !sep.IsDelimiter(s[i])
    requires e < |s| ==> sep.IsDelimiter(s[e])
    ensures RunEnd(sep, s, pos) == e
  {
  }

  /** The flag has no say in where a stretch ends. */
  lemma RunEndFlag(sep: Separator, s: string, pos: nat, b: bool)
    requires sep.CharSep? && pos <= |s|
    ensures RunEnd(sep.WithDone(b), s, pos) == RunEnd(sep, s, pos)
  {
    assert forall i :: 0 <= i < |s| ==> sep.WithDone(b).IsDelimiter(s[i]) == sep.IsDelimiter(s[i]);
    RunEndIs(sep.WithDone(b), s, pos, RunEnd(sep, s, pos));
  }

  /** What is still to come: the empty stretch in front of a delimiter or of the end has
      already been returned when the flag is set. */
  function StillToCome(sep: Separator, done: bool, s: string, pos: nat): seq<string>
    requires sep.CharSep? && pos <= |s|
  {
    if done && (pos == |s| || sep.IsDelimiter(s[pos])) then AfterFirst(sep, s, pos) else KeepTokens(sep, s, pos)
  }

  /** A delimiter: the empty stretch, then the delimiter if it is kept, then the rest. */
  lemma AtDelimiter(sep: Separator, s: string, pos: nat)
    requires sep.CharSep? && pos < |s| && sep.IsDelimiter(s[pos])
    ensures KeepTokens(sep, s, pos) == [""] + AfterFirst(sep, s, pos)
    ensures AfterFirst(sep, s, pos) == KeptAt(sep, s, pos) + KeepTokens(sep, s, pos + 1)
  {
    RunEndIs(sep, s, pos, pos);
  }

  lemma AtEnd(sep: Separator, s: string)
    requires sep.CharSep?
    ensures KeepTokens(sep, s, |s|) == [""] && AfterFirst(sep, s, |s|) == []
  {
  }

  /** A stretch just returned leaves what follows it. */
  lemma AfterStretch(sep: Separator, s: string, pos: nat)
    requires sep.CharSep? && pos <= |s|
    ensures var e := RunEnd(sep, s, pos);
            KeepTokens(sep, s, pos) == [s[pos..e]] + StillToCome(sep, true, s, e)
  {
    var e := RunEnd(sep, s, pos);
    if e == |s| {
      AtEnd(sep, s);
    } else {
      AtDelimiter(sep, s, e);
    }
  }

  /** A call has taken the first of the tokens still to come, or found none. */
  ghost predicate TakesFirst(sep: Separator, done: bool, s: string, pos: nat, r: Step)
    requires sep.CharSep? && pos <= |s|
  {
    if StillToCome(sep, done, s, pos) == [] then r.Finished?
    else && r.Token? && r.next <= |s| && r.sep.CharSep? && r.sep == sep.WithDone(r.sep.outputDone)
         && StillToCome(sep, done, s, pos) == [r.tok] + StillToCome(sep, r.sep.outputDone, s, r.next)
  }

  lemma DelimiterTaken(sep: Separator, done: bool, s: string, pos: nat)
    requires sep.CharSep? && pos < |s| && sep.IsDelimiter(s[pos])
    ensures TakesFirst(sep, done, s, pos, KeepNext(sep.WithDone(done), s, pos))
  {
    AtDelimiter(sep, s, pos);
    if done && !sep.IsKept(s[pos]) {
      RunEndFlag(sep, s, pos + 1, done);
      AfterStretch(sep, s, pos + 1);
    }
  }

  /** One call takes exactly the first of the tokens still to come. */
  lemma KeepNextTakesFirst(sep: Separator, done: bool, s: string, pos: nat)
    requires sep.CharSep? && pos <= |s|
    ensures TakesFirst(sep, done, s, pos, KeepNext(sep.WithDone(done), s, pos))
  {
    if pos == |s| {
      AtEnd(sep, s);
    } else if sep.IsDelimiter(s[pos]) {
      DelimiterTaken(sep, done, s, pos);
    } else {
      RunEndFlag(sep, s, pos, done);
      AfterStretch(sep, s, pos);
    }
  }

  /** The same, for a separator that is called directly, and what the last call leaves. */
  lemma KeepCall(sep: Separator, done: bool, s: string, pos: nat)
    requires sep.CharSep? && sep.policy.KeepEmptyTokens? && pos <= |s|
    ensures var r, toks := Next(sep.WithDone(done), s, pos), StillToCome(sep, done, s, pos);
            if r.Token? then
              && r.next <= |s| && r.sep.CharSep? && r.sep == sep.WithDone(r.sep.outputDone)
              && toks == [r.tok] + StillToCome(sep, r.sep.outputDone, s, r.next)
              && Measure(r.sep, s, r.next) < Measure(sep.WithDone(done), s, pos)
            else
              r.Finished? && toks == [] && r.sep == sep.WithDone(true)
  {
    KeepNextTakesFirst(sep, done, s, pos);
    NextDecreases(sep.WithDone(done), s, pos);
  }

  lemma {:induction false} KeepRun(sep: Separator, done: bool, s: string, pos: nat)
    requires sep.CharSep? && sep.policy.KeepEmptyTokens? && pos <= |s|
    ensures RunsTo(sep.WithDone(done), s, pos, StillToCome(sep, done, s, pos))
    decreases Measure(sep.WithDone(done), s, pos)
  {
    var r, toks := Next(sep.WithDone(done), s, pos), StillToCome(sep, done, s, pos);
    KeepCall(sep, done, s, pos);
    if toks != [] {
      KeepRun(sep, r.sep.outputDone, s, r.next);
      assert toks[1..] == StillToCome(sep, r.sep.outputDone, s, r.next);
      RunsToCons(sep.WithDone(done), s, pos, toks);
    }
  }

  /** The run over a whole non-empty input, for either state the separator arrives in:
      reset does not clear the flag, so a separator that has been used elsewhere loses
      the empty token in front of a leading delimiter. */
  lemma KeepYields(sep: Separator, s: string)
    requires sep.CharSep? && sep.policy.KeepEmptyTokens? && s != ""
    ensures Yields(sep, s,
                   if sep.outputDone && sep.IsDelimiter(s[0]) then AfterFirst(sep, s, 0) else KeepTokens(sep, s, 0))
    ensures Yields(sep, s, KeepTokens(sep, s, 0)) <==> !sep.outputDone || !sep.IsDelimiter(s[0])
  {
    assert sep == sep.WithDone(sep.outputDone);
    KeepRun(sep, sep.outputDone, s, 0);
    if Yields(sep, s, KeepTokens(sep, s, 0)) {
      YieldsUnique(sep, s, KeepTokens(sep, s, 0), StillToCome(sep, sep.outputDone, s, 0));
      assert |AfterFirst(sep, s, 0)| != |KeepTokens(sep, s, 0)|;
    }
  }

  /** The text ",x" with a comma dropped: two tokens for a separator not used before, one
      for a separator whose flag is set. */
  lemma LeadingDelimiterExample()
    ensures var sep := CharSep(",", "", false, false, KeepEmptyTokens, false);
            && StillToCome(sep, false, ",x", 0) == ["", "x"] && StillToCome(sep, true, ",x", 0) == ["x"]
            && TokensOf(sep, ",x") == ["", "x"] && TokensOf(sep.WithDone(true), ",x") == ["x"]
            && Yields(sep, ",x", ["", "x"]) && Yields(sep.WithDone(true), ",x", ["x"])
  {
    var sep := CharSep(",", "", false, false, KeepEmptyTokens, false);
    var used := sep.WithDone(true);
    CommaTokens(sep);
    CommaTokens(used);
    assert ["", "x"][1..] == ["x"];
    KeepYields(sep, ",x");
    KeepYields(used, ",x");
  }

  lemma CommaTokens(sep: Separator)
    requires sep.CharSep? && sep.dropped == "," && sep.kept == "" && !sep.useIspunct
    ensures KeepTokens(sep, ",x", 0) == ["", "x"]
  {
    AtDelimiter(sep, ",x", 0);
    RunEndIs(sep, ",x", 1, 2);
    assert ",x"[1..2] == "x" && KeepTokens(sep, ",x", 1) == ["x"];
  }

  /** What the iterator yields, under either policy. */
  function TokensOf(sep: Separator, s: string): seq<string>
    requires sep.CharSep?
  {
    if s == "" then []
    else if sep.policy.DropEmptyTokens? then DropTokens(sep, s)
    else StillToCome(sep, sep.outputDone, s, 0)
  }

  lemma TokensOfYields(sep: Separator, s: string)
    requires sep.CharSep?
    ensures Yields(sep, s, TokensOf(sep, s))
  {
    if s != "" {
      if sep.policy.DropEmptyTokens? {
        DropYields(sep, s);
      } else {
        KeepYields(sep, s);
      }
    }
  }

  /** The delimiters from a position on that no token shows, in order. */
  function DroppedDelimiters(sep: Separator, s: string, pos: nat): string
    requires sep.CharSep? && pos <= |s|
    decreases |s| - pos
  {
    if pos == |s| then ""
    else (if sep.IsDelimiter(s[pos]) && !sep.IsKept(s[pos]) then [s[pos]] else "") + DroppedDelimiters(sep, s, pos + 1)
  }

  function CountKept(sep: Separator, s: string, pos: nat): nat
    requires sep.CharSep? && pos <= |s|
    decreases |s| - pos
  {
    if pos == |s| then 0 else (if sep.IsKept(s[pos]) then 1 else 0) + CountKept(sep, s, pos + 1)
  }

  /** A stretch holds no delimiters of either kind. */
  lemma {:induction false} StretchIsPlain(sep: Separator, s: string, pos: nat, e: nat)
    requires sep.CharSep? && pos <= e <= |s| && forall i :: pos <= i < e ==> !sep.IsDelimiter(s[i])
    ensures DroppedDelimiters(sep, s, pos) == DroppedDelimiters(sep, s, e)
    ensures CountKept(sep, s, pos) == CountKept(sep, s, e)
    decreases e - pos
  {
    if pos < e {
      StretchIsPlain(sep, s, pos + 1, e);
      assert "" + DroppedDelimiters(sep, s, pos + 1) == DroppedDelimiters(sep, s, pos + 1);
    }
  }

  predicate IsKeptToken(sep: Separator, tok: string)
    requires sep.CharSep?
  {
    |tok| == 1 && sep.IsKept(tok[0])
  }

  /** Puts missing delimiters back between the tokens, knowing only the tokens: one
      belongs wherever two stretches meet. */
  function Rebuild(sep: Separator, toks: seq<string>, missing: string): string
    requires sep.CharSep?
    decreases |toks|, 0
  {
    if toks == [] then "" else toks[0] + RebuildAfter(sep, toks[1..], missing)
  }

  /** What follows a stretch. */
  function RebuildAfter(sep: Separator, toks: seq<string>, missing: string): string
    requires sep.CharSep?
    decreases |toks|, 1
  {
    if toks == [] then ""
    else if IsKeptToken(sep, toks[0]) then toks[0] + Rebuild(sep, toks[1..], missing)
    else if missing == "" then ""
    else [missing[0]] + Rebuild(sep, toks, missing[1..])
  }

  /** The first token is a stretch, so it is never taken for a kept delimiter. */
  lemma FirstIsStretch(sep: Separator, s: string, pos: nat)
    requires sep.CharSep? && pos <= |s|
    ensures !IsKeptToken(sep, KeepTokens(sep, s, pos)[0])
  {
    var tok := KeepTokens(sep, s, pos)[0];
    if |tok| == 1 {
      assert tok[0] == s[pos];
    }
  }

  lemma SplitAt(s: string, pos: nat, e: nat)
    requires pos <= e <= |s|
    ensures s[pos..] == s[pos..e] + s[e..]
    ensures e < |s| ==> s[e..] == [s[e]] + s[e + 1..]
  {
  }

  /** A delimiter finds its way back, whichever kind it is. */
  lemma RebuildDelimiter(sep: Separator, s: string, e: nat)
    requires sep.CharSep? && e < |s| && sep.IsDelimiter(s[e])
    ensures RebuildAfter(sep, AfterFirst(sep, s, e), DroppedDelimiters(sep, s, e))
         == [s[e]] + Rebuild(sep, KeepTokens(sep, s, e + 1), DroppedDelimiters(sep, s, e + 1))
  {
    AtDelimiter(sep, s, e);
    var tail, missing := KeepTokens(sep, s, e + 1), DroppedDelimiters(sep, s, e + 1);
    if sep.IsKept(s[e]) {
      assert "" + missing == missing;
      assert AfterFirst(sep, s, e)[1..] == tail;
    } else {
      FirstIsStretch(sep, s, e + 1);
      assert AfterFirst(sep, s, e) == tail;
      assert ([s[e]] + missing)[1..] == missing;
    }
  }

  /** At a stop, what is still to come is the rest of the text if that holds behind the delimiter. */
  lemma RebuildRest(sep: Separator, s: string, e: nat)
    requires sep.CharSep? && e <= |s| && (e < |s| ==> sep.IsDelimiter(s[e]))
    requires e < |s| ==> Rebuild(sep, KeepTokens(sep, s, e + 1), DroppedDelimiters(sep, s, e + 1)) == s[e + 1..]
    ensures RebuildAfter(sep, StillToCome(sep, true, s, e), DroppedDelimiters(sep, s, e)) == s[e..]
  {
    if e == |s| {
      AtEnd(sep, s);
      assert s[e..] == "";
    } else {
      RebuildDelimiter(sep, s, e);
      SplitAt(s, e, e);
    }
  }

  lemma RebuildFirst(sep: Separator, first: string, rest: seq<string>, missing: string)
    requires sep.CharSep?
    ensures Rebuild(sep, [first] + rest, missing) == first + RebuildAfter(sep, rest, missing)
  {
    assert ([first] + rest)[1..] == rest;
  }

  /** A stretch finds its way back if what follows it does. */
  lemma RebuildStretch(sep: Separator, s: string, pos: nat, rest: seq<string>)
    requires sep.CharSep? && pos <= |s|
    requires rest == StillToCome(sep, true, s, RunEnd(sep, s, pos))
    requires RebuildAfter(sep, rest, DroppedDelimiters(sep, s, RunEnd(sep, s, pos))) == s[RunEnd(sep, s, pos)..]
    ensures Rebuild(sep, KeepTokens(sep, s, pos), DroppedDelimiters(sep, s, pos)) == s[pos..]
  {
    var e := RunEnd(sep, s, pos);
    AfterStretch(sep, s, pos);
    StretchIsPlain(sep, s, pos, e);
    RebuildFirst(sep, s[pos..e], rest, DroppedDelimiters(sep, s, e));
    SplitAt(s, pos, e);
  }

  /** The first stretch, its delimiter and the rest make up the text. */
  lemma RebuildFrom(sep: Separator, s: string, pos: nat)
    requires sep.CharSep? && pos <= |s|
    requires var e := RunEnd(sep, s, pos);
             e < |s| ==> Rebuild(sep, KeepTokens(sep, s, e + 1), DroppedDelimiters(sep, s, e + 1)) == s[e + 1..]
    ensures Rebuild(sep, KeepTokens(sep, s, pos), DroppedDelimiters(sep, s, pos)) == s[pos..]
  {
    var e := RunEnd(sep, s, pos);
    RebuildRest(sep, s, e);
    RebuildStretch(sep, s, pos, StillToCome(sep, true, s, e));
  }

  /** Lossless: tokens and dropped delimiters together determine the input. */
  lemma {:induction false} KeepIsLossless(sep: Separator, s: string, pos: nat)
    requires sep.CharSep? && pos <= |s|
    ensures Rebuild(sep, KeepTokens(sep, s, pos), DroppedDelimiters(sep, s, pos)) == s[pos..]
    decreases |s| - pos
  {
    var e := RunEnd(sep, s, pos);
    if e < |s| {
      KeepIsLossless(sep, s, e + 1);
    }
    RebuildFrom(sep, s, pos);
  }

  /** One token more than dropped delimiters, and two for every kept one. */
  lemma {:induction false} KeepTokenCount(sep: Separator, s: string, pos: nat)
    requires sep.CharSep? && pos <= |s|
    ensures |KeepTokens(sep, s, pos)| == 1 + |DroppedDelimiters(sep, s, pos)| + 2 * CountKept(sep, s, pos)
    decreases |s| - pos
  {
    var e := RunEnd(sep, s, pos);
    StretchIsPlain(sep, s, pos, e);
    if e < |s| {
      KeepTokenCount(sep, s, e + 1);
    }
  }

  // ----------------------------------------------------- drop_empty_tokens

  /** A token by the positions it covers. */
  datatype Span = Span(b: nat, e: nat)

  /** A kept delimiter by itself, or a stretch between delimiters that cannot be extended. */
  predicate Maximal(sep: Separator, s: string, t: Span)
    requires sep.CharSep?
  {
    && t.b < t.e <= |s|
    && if sep.IsDelimiter(s[t.b]) then t.e == t.b + 1 && !sep.IsDropped(s[t.b])
       else && (forall i :: t.b <= i < t.e ==> !sep.IsDelimiter(s[i]))
            && (t.b > 0 ==> sep.IsDelimiter(s[t.b - 1]))
            && (t.e < |s| ==> sep.IsDelimiter(s[t.e]))
  }

  /** The spans of the tokens from a position on. */
  function Spans(sep: Separator, s: string, pos: nat): seq<Span>
    requires sep.CharSep? && pos <= |s|
    decreases |s| - pos
  {
    var b := SkipDropped(sep, s, pos);
    if b == |s| then []
    else
      var e := if sep.IsKept(s[b]) then b + 1 else RunEnd(sep, s, b);
      [Span(b, e)] + Spans(sep, s, e)
  }

  function Cut(s: string, t: Span): string {
    if t.b <= t.e <= |s| then s[t.b..t.e] else ""
  }

  function Texts(s: string, spans: seq<Span>): seq<string> {
    if spans == [] then [] else [Cut(s, spans[0])] + Texts(s, spans[1..])
  }

  lemma {:induction false} SpansInside(sep: Separator, s: string, pos: nat)
    requires sep.CharSep? && pos <= |s|
    ensures forall i :: 0 <= i < |Spans(sep, s, pos)| ==>
              pos <= Spans(sep, s, pos)[i].b < Spans(sep, s, pos)[i].e <= |s|
    ensures forall i, j :: 0 <= i < j < |Spans(sep, s, pos)| ==> Spans(sep, s, pos)[i].e <= Spans(sep, s, pos)[j].b
    decreases |s| - pos
  {
    var spans := Spans(sep, s, pos);
    if spans != [] {
      SpansInside(sep, s, spans[0].e);
      assert spans[1..] == Spans(sep, s, spans[0].e);
      assert forall i :: 1 <= i < |spans| ==> spans[i] == spans[1..][i - 1];
    }
  }

  /** A position where a token may begin: not in the middle of a stretch. */
  predicate Boundary(sep: Separator, s: string, pos: nat)
    requires sep.CharSep? && pos <= |s|
  {
    pos == 0 || pos == |s| || sep.IsDelimiter(s[pos - 1]) || sep.IsDelimiter(s[pos])
  }

  /** The spans are exactly the maximal ones: none is missing, none is anything else. */
  lemma {:induction false} SpansAreMaximal(sep: Separator, s: string, pos: nat, t: Span)
    requires sep.CharSep? && pos <= |s| && Boundary(sep, s, pos)
    ensures t in Spans(sep, s, pos) <==> Maximal(sep, s, t) && pos <= t.b
    decreases |s| - pos
  {
    var b := SkipDropped(sep, s, pos);
    if b < |s| {
      var e := if sep.IsKept(s[b]) then b + 1 else RunEnd(sep, s, b);
      FirstSpan(sep, s, pos, b, e, t);
      SpansAreMaximal(sep, s, e, t);
      assert Spans(sep, s, pos) == [Span(b, e)] + Spans(sep, s, e);
    }
  }

  lemma FirstSpan(sep: Separator, s: string, pos: nat, b: nat, e: nat, t: Span)
    requires sep.CharSep? && pos <= |s| && Boundary(sep, s, pos)
    requires b == SkipDropped(sep, s, pos) < |s|
    requires e == if sep.IsKept(s[b]) then b + 1 else RunEnd(sep, s, b)
    ensures b < e <= |s| && Boundary(sep, s, e)
    ensures Maximal(sep, s, t) && pos <= t.b <==> t == Span(b, e) || (Maximal(sep, s, t) && e <= t.b)
  {
    assert b == pos || sep.IsDropped(s[b - 1]);
    assert forall i :: pos <= i < b ==> sep.IsDropped(s[i]);
    assert !sep.IsKept(s[b]) ==> forall i :: b <= i < e ==> !sep.IsDelimiter(s[i]);
    if Maximal(sep, s, t) && pos <= t.b < e {
      // a maximal span begins neither on a dropped character nor inside a stretch
      assert t.b == b;
      assert t.e == e;
    }
  }

  /** One call takes the first of the spans still to come. */
  lemma DropCall(sep: Separator, s: string, pos: nat)
    requires sep.CharSep? && sep.policy.DropEmptyTokens? && pos <= |s|
    ensures var r, spans := Next(sep, s, pos), Spans(sep, s, pos);
            if spans == [] then r.Finished?
            else
              && pos < spans[0].e <= |s| && r == Token(Cut(s, spans[0]), spans[0].e, sep)
              && Texts(s, spans) == [Cut(s, spans[0])] + Texts(s, Spans(sep, s, spans[0].e))
  {
  }

  lemma {:induction false} DropRun(sep: Separator, s: string, pos: nat)
    requires sep.CharSep? && sep.policy.DropEmptyTokens? && pos <= |s|
    ensures RunsTo(sep, s, pos, Texts(s, Spans(sep, s, pos)))
    decreases |s| - pos
  {
    var spans := Spans(sep, s, pos);
    DropCall(sep, s, pos);
    if spans != [] {
      var toks, more := Texts(s, spans), Texts(s, Spans(sep, s, spans[0].e));
      DropRun(sep, s, spans[0].e);
      assert toks[1..] == more;
      RunsToCons(sep, s, pos, toks);
    }
  }

  /** The tokens of a text under drop_empty_tokens. */
  function DropTokens(sep: Separator, s: string): seq<string>
    requires sep.CharSep?
  {
    Texts(s, Spans(sep, s, 0))
  }

  /** Under drop_empty_tokens the iterator yields the texts of the maximal spans, in order. */
  lemma DropYields(sep: Separator, s: string)
    requires sep.CharSep? && sep.policy.DropEmptyTokens?
    ensures Yields(sep, s, DropTokens(sep, s))
    ensures forall t: Span :: t in Spans(sep, s, 0) <==> Maximal(sep, s, t)
    ensures forall i, j :: 0 <= i < j < |Spans(sep, s, 0)| ==> Spans(sep, s, 0)[i].e <= Spans(sep, s, 0)[j].b
  {
    SpansInside(sep, s, 0);
    DropRun(sep, s, 0);
    forall t: Span
      ensures t in Spans(sep, s, 0) <==> Maximal(sep, s, t)
    {
      SpansAreMaximal(sep, s, 0, t);
    }
  }

  /** The text from a position on without its dropped characters. */
  function WithoutDropped(sep: Separator, s: string, pos: nat): string
    requires sep.CharSep? && pos <= |s|
    decreases |s| - pos
  {
    if pos == |s| then ""
    else if sep.IsDropped(s[pos]) then WithoutDropped(sep, s, pos + 1)
    else [s[pos]] + WithoutDropped(sep, s, pos + 1)
  }

  lemma {:induction false} SkipLosesDropped(sep: Separator, s: string, pos: nat, b: nat)
    requires sep.CharSep? && pos <= b <= |s| && forall i :: pos <= i < b ==> sep.IsDropped(s[i])
    ensures WithoutDropped(sep, s, pos) == WithoutDropped(sep, s, b)
    decreases b - pos
  {
    if pos < b {
      SkipLosesDropped(sep, s, pos + 1, b);
    }
  }

  lemma {:induction false} TokenLosesNothing(sep: Separator, s: string, b: nat, e: nat)
    requires sep.CharSep? && b <= e <= |s| && forall i :: b <= i < e ==> !sep.IsDropped(s[i])
    ensures WithoutDropped(sep, s, b) == s[b..e] + WithoutDropped(sep, s, e)
    decreases e - b
  {
    if b == e {
      assert s[b..e] == "";
    } else {
      TokenLosesNothing(sep, s, b + 1, e);
      assert s[b..e] == [s[b]] + s[b + 1..e];
    }
  }

  lemma ConcatTexts(s: string, t: Span, rest: seq<Span>)
    ensures Concat(Texts(s, [t] + rest)) == Cut(s, t) + Concat(Texts(s, rest))
  {
    assert ([t] + rest)[1..] == rest;
    assert ([Cut(s, t)] + Texts(s, rest))[1..] == Texts(s, rest);
  }

  lemma {:induction false} SpansConserve(sep: Separator, s: string, pos: nat)
    requires sep.CharSep? && pos <= |s|
    ensures Concat(Texts(s, Spans(sep, s, pos))) == WithoutDropped(sep, s, pos)
    decreases |s| - pos
  {
    var b := SkipDropped(sep, s, pos);
    SkipLosesDropped(sep, s, pos, b);
    if b < |s| {
      var e := if sep.IsKept(s[b]) then b + 1 else RunEnd(sep, s, b);
      ConcatTexts(s, Span(b, e), Spans(sep, s, e));
      SpansConserve(sep, s, e);
      TokenLosesNothing(sep, s, b, e);
    }
  }

  /** Nothing but dropped characters is lost. */
  lemma DropConserves(sep: Separator, s: string)
    requires sep.CharSep?
    ensures Concat(DropTokens(sep, s)) == WithoutDropped(sep, s, 0)
  {
    SpansConserve(sep, s, 0);
  }
}
