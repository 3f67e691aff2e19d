/** What escaped_list_separator does in terms of the three strings it was constructed with. */
module EscapedRoles {
  import opened Strings
  import opened Tokenizing
  import opened CharSeparatorLaws
  import opened DelimiterLaws

  /** An escape character in front of another character: a line feed for an n, the character
      itself if it has a role, and otherwise nothing at all, because that throws. */
  lemma EscapeExactly(escape: string, c: string, quote: string, last: bool, e: char, ch: char)
    requires e in escape
    ensures ch == 'n' ==> Yields(EscapedList(escape, c, quote, last), [e, ch], ["\n"])
    ensures ch != 'n' && (ch in escape || ch in c || ch in quote) ==>
              Yields(EscapedList(escape, c, quote, last), [e, ch], [[ch]])
    ensures ch != 'n' && ch !in escape && ch !in c && ch !in quote ==>
              forall toks :: !Yields(EscapedList(escape, c, quote, last), [e, ch], toks)
  {
    var sep, s := EscapedList(escape, c, quote, false), [e, ch];
    var tok := if ch == 'n' then "\n" else [ch];
    assert "" + tok == tok;
    if ch == 'n' || Escapable(sep, ch) {
      assert Scan(sep, s, 0, false, "") == Scan(sep, s, 2, false, "" + tok) == Token(tok, 2, sep);
      SingleToken(sep, s, tok);
    }
  }

  lemma SingleToken(sep: Separator, s: string, tok: string)
    requires sep.EscapedList? && !sep.last && s != "" && Next(sep, s, 0) == Token(tok, |s|, sep)
    ensures RunsTo(sep, s, 0, [tok])
  {
    assert [tok][1..] == [];
    assert RunsTo(sep, s, |s|, []);
  }

  /** The scanner appends characters without a role, and separators between quotation marks. */
  lemma {:induction false} ScanPlain(sep: Separator, s: string, b: nat, e: nat, inQuote: bool, tok: string)
    requires sep.EscapedList? && b <= e <= |s|
    requires forall i :: b <= i < e ==> s[i] !in sep.escape && s[i] !in sep.quote && (s[i] in sep.c ==> inQuote)
    ensures Scan(sep, s, b, inQuote, tok) == Scan(sep, s, e, inQuote, tok + s[b..e])
    decreases e - b
  {
    if b == e {
      assert tok + s[b..e] == tok;
    } else {
      ScanPlain(sep, s, b + 1, e, inQuote, tok + [s[b]]);
      assert tok + [s[b]] + s[b + 1..e] == tok + s[b..e];
    }
  }

  /** Text between quotation marks is one token without the marks, separators included. */
  lemma QuotedText(escape: string, c: string, quote: string, last: bool, mark: char, body: string)
    requires mark in quote && mark !in escape && mark !in c
    requires forall i :: 0 <= i < |body| ==> body[i] !in escape && body[i] !in quote
    ensures Yields(EscapedList(escape, c, quote, last), [mark] + body + [mark], [body])
  {
    var sep, s := EscapedList(escape, c, quote, false), [mark] + body + [mark];
    assert s[1..1 + |body|] == body && "" + body == body;
    ScanPlain(sep, s, 1, 1 + |body|, true, "");
    assert Next(sep, s, 0) == Token(body, |s|, sep);
    SingleToken(sep, s, body);
  }

  // ----------------------------------------------------- nothing but separators

  /** A call that meets nothing with a role before the first separator, or the end. */
  lemma NextPlain(sep: Separator, s: string, pos: nat, e: nat)
    requires sep.EscapedList? && pos <= e <= |s| && (pos < |s| || sep.last)
    requires forall i :: pos <= i < e ==> s[i] !in sep.escape && s[i] !in sep.c && s[i] !in sep.quote
    requires e < |s| ==> s[e] in sep.c && s[e] !in sep.escape
    ensures Next(sep, s, pos)
         == if e == |s| then Token(s[pos..e], e, sep.WithLast(false)) else Token(s[pos..e], e + 1, sep.WithLast(true))
  {
    ScanPlain(sep.WithLast(false), s, pos, e, false, "");
    assert "" + s[pos..e] == s[pos..e];
  }

  /** The separator that drops the same characters and keeps empty tokens. */
  function Dropping(c: string): Separator {
    CharSep(c, "", false, false, KeepEmptyTokens, false)
  }

  /** One call, up to the first separator. */
  lemma PlainCall(sep: Separator, s: string, pos: nat)
    requires sep.EscapedList? && pos <= |s| && (pos < |s| || sep.last)
    requires Free(s, sep.escape) && Free(s, sep.quote)
    ensures var e := RunEnd(Dropping(sep.c), s, pos);
            && (e == |s| ==> Next(sep, s, pos) == Token(s[pos..e], e, sep.WithLast(false)))
            && (e < |s| ==> Next(sep, s, pos) == Token(s[pos..e], e + 1, sep.WithLast(true)))
  {
    DroppingRoles(sep.c, s);
    FreeIff(s, sep.escape);
    FreeIff(s, sep.quote);
    NextPlain(sep, s, pos, RunEnd(Dropping(sep.c), s, pos));
  }

  lemma TokensFrom(c: string, s: string, pos: nat)
    requires pos <= |s|
    ensures var other := Dropping(c);
            var e := RunEnd(other, s, pos);
            var toks := KeepTokens(other, s, pos);
            && toks[0] == s[pos..e]
            && (e == |s| ==> toks[1..] == [])
            && (e < |s| ==> toks[1..] == KeepTokens(other, s, e + 1))
  {
    DroppingRoles(c, s);
  }

  lemma NothingBehind(sep: Separator, s: string)
    requires sep.EscapedList?
    ensures RunsTo(sep.WithLast(false), s, |s|, [])
  {
  }

  lemma {:induction false} PlainRun(sep: Separator, s: string, pos: nat)
    requires sep.EscapedList? && pos <= |s| && (pos < |s| || sep.last)
    requires Free(s, sep.escape) && Free(s, sep.quote)
    ensures RunsTo(sep, s, pos, KeepTokens(Dropping(sep.c), s, pos))
    decreases |s| - pos
  {
    var e := RunEnd(Dropping(sep.c), s, pos);
    PlainCall(sep, s, pos);
    TokensFrom(sep.c, s, pos);
    NothingBehind(sep, s);
    if e < |s| {
      PlainRun(sep.WithLast(true), s, e + 1);
    }
    RunsToCons(sep, s, pos, KeepTokens(Dropping(sep.c), s, pos));
  }

  lemma DroppingRoles(c: string, s: string)
    ensures forall i :: 0 <= i < |s| ==> (Dropping(c).IsDelimiter(s[i]) <==> s[i] in c) && !Dropping(c).IsKept(s[i])
  {
    RolesExactly(Dropping(c));
  }

  /** On a text without escapes and quotation marks the separator does what a char_separator
      does that drops its separators and keeps empty tokens: the tokens hold none of them,
      nothing else is lost, and there is one token more than separators. */
  lemma PlainText(escape: string, c: string, quote: string, last: bool, s: string, toks: seq<string>)
    requires s != "" && forall i :: 0 <= i < |s| ==> s[i] !in escape && s[i] !in quote
    ensures Yields(EscapedList(escape, c, quote, last), s, toks)
       <==> Yields(CharSep(c, "", false, false, KeepEmptyTokens, false), s, toks)
    ensures Yields(EscapedList(escape, c, quote, last), s, toks) ==>
              && (forall i, j :: 0 <= i < |toks| && 0 <= j < |toks[i]| ==> toks[i][j] !in c)
              && Concat(toks) == Filtered(s, c, "")
              && |toks| == 1 + |s| - |Filtered(s, c, "")|
  {
    var sep, other := EscapedList(escape, c, quote, last), Dropping(c);
    var all := KeepTokens(other, s, 0);
    FreeIff(s, escape);
    FreeIff(s, quote);
    PlainRun(sep.WithLast(false), s, 0);
    KeepYields(other, s);
    if Yields(sep, s, toks) || Yields(other, s, toks) {
      if Yields(sep, s, toks) {
        YieldsUnique(sep, s, toks, all);
      } else {
        YieldsUnique(other, s, toks, all);
      }
      GivenKeep(c, "", s, toks);
      NoOccurrences(s);
      forall i, j | 0 <= i < |toks| && 0 <= j < |toks[i]|
        ensures toks[i][j] !in c
      {
        assert IsToken(toks[i], c, "");
      }
    }
  }

  lemma {:induction false} NoOccurrences(s: string)
    ensures Occurrences(s, "") == 0
  {
    if s != "" {
      NoOccurrences(s[1..]);
    }
  }
}
