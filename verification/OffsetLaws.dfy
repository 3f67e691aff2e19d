/** What offset_separator returns over a whole input. */
module OffsetLaws {
  import opened Tokenizing
  import NumberTheory

  /** The length of the k-th token, offsets being used in turn; a negative one counts as zero. */
  function LengthAt(offsets: seq<int>, k: nat): nat
    requires offsets != []
  {
    var c := offsets[k % |offsets|];
    if c < 0 then 0 else c
  }

  function Lengths(offsets: seq<int>): nat -> nat
    requires offsets != []
  {
    (k: nat) => LengthAt(offsets, k)
  }

  lemma ModStep(k: nat, m: nat)
    requires m > 0
    ensures (k + 1) % m == if k % m + 1 == m then 0 else k % m + 1
  {
    var q, r := k / m, k % m;
    assert k == q * m + r;
    if r + 1 == m {
      assert k + 1 == (q + 1) * m;
      NumberTheory.DivUnique(k + 1, m, q + 1, 0);
    } else {
      NumberTheory.DivUnique(k + 1, m, q, r + 1);
    }
  }

  // ------------------------------------------ the pieces of a text, described

  /** A piece may be short only at the end of the text: by any number of characters if
      partial last tokens are wanted, and by one character if they are not. */
  predicate PieceOk(sep: Separator, k: nat, tok: string, rest: string)
    requires sep.OffsetSep? && sep.Valid()
  {
    var c := LengthAt(sep.offsets, k);
    || (|tok| == c && (rest == "" ==> tok != ""))
    || (rest == "" && 0 < |tok| < c && (sep.returnPartialLast || |tok| == c - 1))
  }

  /** Why there is no k-th token: nothing is left, the offsets are used up, or what is
      left lacks more than one character. */
  predicate Stops(sep: Separator, k: nat, rest: string)
    requires sep.OffsetSep? && sep.Valid()
  {
    || rest == ""
    || (!sep.wrap && k == |sep.offsets|)
    || (!sep.returnPartialLast && |rest| < LengthAt(sep.offsets, k) - 1)
  }

  /** The tokens from the k-th on, under either of the two options: a prefix of the text,
      cut at the offsets in turn, that goes on until there is a reason to stop. */
  predicate Pieces(sep: Separator, k: nat, text: string, toks: seq<string>)
    requires sep.OffsetSep? && sep.Valid()
  {
    && Concat(toks) <= text
    && (sep.wrap || k + |toks| <= |sep.offsets|)
    && (forall i :: 0 <= i < |toks| - 1 ==> |toks[i]| == LengthAt(sep.offsets, k + i))
    && var rest := text[|Concat(toks)|..];
    && (toks != [] ==> PieceOk(sep, k + |toks| - 1, toks[|toks| - 1], rest))
    && Stops(sep, k + |toks|, rest)
  }

  /** What the k-th call finds. */
  predicate HasPiece(sep: Separator, k: nat, text: string)
    requires sep.OffsetSep? && sep.Valid()
  {
    text != "" && (sep.wrap || k < |sep.offsets|) && !Stops(sep, k, text)
  }

  function PieceEnd(sep: Separator, k: nat, text: string): (e: nat)
    requires sep.OffsetSep? && sep.Valid()
    ensures e <= |text|
  {
    OffsetEnd(text, 0, LengthAt(sep.offsets, k))
  }

  lemma ConcatCons(tok: string, toks: seq<string>)
    ensures Concat([tok] + toks) == tok + Concat(toks)
  {
    assert ([tok] + toks)[1..] == toks;
  }

  lemma {:induction false} ConcatSnoc(toks: seq<string>, tok: string)
    ensures Concat(toks + [tok]) == Concat(toks) + tok
  {
    if toks == [] {
      ConcatCons(tok, []);
      assert [] + [tok] == [tok] + [] && tok + "" == "" + tok;
    } else {
      ConcatSnoc(toks[1..], tok);
      assert (toks + [tok])[1..] == toks[1..] + [tok];
      assert toks[0] + (Concat(toks[1..]) + tok) == toks[0] + Concat(toks[1..]) + tok;
    }
  }

  lemma {:induction false} NonEmptyLast(toks: seq<string>)
    requires toks != [] && toks[|toks| - 1] != ""
    ensures Concat(toks) != ""
  {
    if |toks| > 1 {
      NonEmptyLast(toks[1..]);
    }
  }

  lemma PiecesOfSomething(sep: Separator, k: nat, text: string, toks: seq<string>)
    requires sep.OffsetSep? && sep.Valid() && Pieces(sep, k, text, toks) && toks != []
    ensures text != "" && (sep.wrap || k < |sep.offsets|)
  {
    if text == "" {
      assert Concat(toks) == "";
      NonEmptyLast(toks);
    }
  }

  lemma PrefixCons(tok: string, more: string, text: string)
    ensures tok + more <= text <==> tok <= text && more <= text[|tok|..]
    ensures tok + more <= text ==> text[|tok + more|..] == text[|tok|..][|more|..]
  {
    if tok <= text && more <= text[|tok|..] {
      assert text == tok + text[|tok|..];
    }
    if tok + more <= text {
      assert forall i :: 0 <= i < |tok| ==> tok[i] == (tok + more)[i];
      assert forall i :: 0 <= i < |more| ==> more[i] == (tok + more)[|tok| + i];
    }
  }

  lemma LengthsTail(offsets: seq<int>, k: nat, tok: string, more: seq<string>)
    requires offsets != [] && more != []
    ensures (forall i :: 0 <= i < |[tok] + more| - 1 ==> |([tok] + more)[i]| == LengthAt(offsets, k + i))
       <==> |tok| == LengthAt(offsets, k)
            && forall i :: 0 <= i < |more| - 1 ==> |more[i]| == LengthAt(offsets, k + 1 + i)
  {
    var all := [tok] + more;
    if forall i :: 0 <= i < |all| - 1 ==> |all[i]| == LengthAt(offsets, k + i) {
      assert |all[0]| == LengthAt(offsets, k + 0);
      forall i | 0 <= i < |more| - 1
        ensures |more[i]| == LengthAt(offsets, k + 1 + i)
      {
        assert more[i] == all[i + 1] && k + 1 + i == k + (i + 1);
      }
    }
    if |tok| == LengthAt(offsets, k) && forall i :: 0 <= i < |more| - 1 ==> |more[i]| == LengthAt(offsets, k + 1 + i) {
      forall i | 0 <= i < |all| - 1
        ensures |all[i]| == LengthAt(offsets, k + i)
      {
        if i > 0 {
          assert all[i] == more[i - 1] && k + i == k + 1 + (i - 1);
        }
      }
    }
  }

  /** The last piece by itself. */
  lemma SinglePiece(sep: Separator, k: nat, text: string, tok: string)
    requires sep.OffsetSep? && sep.Valid()
    ensures Pieces(sep, k, text, [tok])
       <==> HasPiece(sep, k, text) && tok == text[..PieceEnd(sep, k, text)]
            && Pieces(sep, k + 1, text[PieceEnd(sep, k, text)..], [])
  {
    ConcatCons(tok, []);
    assert [tok] + [] == [tok] && tok + "" == tok;
    var e := PieceEnd(sep, k, text);
    assert text[e..][0..] == text[e..];
    if tok <= text {
      assert text[..|tok|] == tok;
    }
  }

  /** The conditions on several pieces, told apart into those on the first and on the others. */
  lemma PiecesCons(sep: Separator, k: nat, text: string, tok: string, more: seq<string>)
    requires sep.OffsetSep? && sep.Valid() && more != []
    ensures Pieces(sep, k, text, [tok] + more)
       <==> tok <= text && |tok| == LengthAt(sep.offsets, k) && Pieces(sep, k + 1, text[|tok|..], more)
  {
    var all := [tok] + more;
    ConcatCons(tok, more);
    PrefixCons(tok, Concat(more), text);
    LengthsTail(sep.offsets, k, tok, more);
    assert all[|all| - 1] == more[|more| - 1] && k + |all| == k + 1 + |more|;
  }

  /** The first of several pieces is a whole one. */
  lemma MorePieces(sep: Separator, k: nat, text: string, tok: string, more: seq<string>)
    requires sep.OffsetSep? && sep.Valid() && more != [] && Pieces(sep, k, text, [tok] + more)
    ensures HasPiece(sep, k, text) && tok == text[..PieceEnd(sep, k, text)]
            && Pieces(sep, k + 1, text[PieceEnd(sep, k, text)..], more)
  {
    PiecesCons(sep, k, text, tok, more);
    PiecesOfSomething(sep, k + 1, text[|tok|..], more);
    WholePiece(sep, k, text, |tok|);
    assert text[..|tok|] == tok;
  }

  lemma PieceInFront(sep: Separator, k: nat, text: string, more: seq<string>)
    requires sep.OffsetSep? && sep.Valid() && more != [] && HasPiece(sep, k, text)
    requires Pieces(sep, k + 1, text[PieceEnd(sep, k, text)..], more)
    ensures Pieces(sep, k, text, [text[..PieceEnd(sep, k, text)]] + more)
  {
    var e := PieceEnd(sep, k, text);
    PiecesOfSomething(sep, k + 1, text[e..], more);
    PiecesCons(sep, k, text, text[..e], more);
  }

  /** A piece with something behind it is a whole one. */
  lemma WholePiece(sep: Separator, k: nat, text: string, c: nat)
    requires sep.OffsetSep? && sep.Valid() && (sep.wrap || k < |sep.offsets|)
    requires c == LengthAt(sep.offsets, k) && c < |text|
    ensures HasPiece(sep, k, text) && PieceEnd(sep, k, text) == c
  {
    if !sep.wrap {
      NumberTheory.DivUnique(k, |sep.offsets|, 0, k);
    }
  }

  /** Pieces are a first piece and the pieces of what is behind it. */
  lemma PiecesStep(sep: Separator, k: nat, text: string, toks: seq<string>)
    requires sep.OffsetSep? && sep.Valid() && toks != []
    ensures Pieces(sep, k, text, toks)
       <==> HasPiece(sep, k, text) && toks[0] == text[..PieceEnd(sep, k, text)]
            && Pieces(sep, k + 1, text[PieceEnd(sep, k, text)..], toks[1..])
  {
    assert toks == [toks[0]] + toks[1..];
    if toks[1..] == [] {
      assert toks == [toks[0]];
      SinglePiece(sep, k, text, toks[0]);
    } else {
      if Pieces(sep, k, text, toks) {
        MorePieces(sep, k, text, toks[0], toks[1..]);
      }
      if HasPiece(sep, k, text) && Pieces(sep, k + 1, text[PieceEnd(sep, k, text)..], toks[1..]) {
        PieceInFront(sep, k, text, toks[1..]);
      }
    }
  }

  // ---------------------------------------------------------------- the run

  /** The index that the k-th call starts from. */
  predicate StandsAt(sep: Separator, k: nat)
    requires sep.OffsetSep? && sep.Valid()
  {
    var m := |sep.offsets|;
    if sep.wrap then sep.current == k % m || (sep.current == m && k % m == 0) else sep.current == k
  }

  lemma AtIndex(sep: Separator, k: nat)
    requires sep.OffsetSep? && sep.Valid() && StandsAt(sep, k) && (sep.wrap || k < |sep.offsets|)
    ensures k % |sep.offsets| == if sep.current == |sep.offsets| then 0 else sep.current
  {
    if !sep.wrap {
      NumberTheory.DivUnique(k, |sep.offsets|, 0, k);
    }
  }

  /** The k-th call returns the piece that is there, or finds a reason to stop. */
  lemma OffsetCall(sep: Separator, k: nat, s: string, pos: nat)
    requires sep.OffsetSep? && sep.Valid() && StandsAt(sep, k) && pos <= |s|
    ensures var r, e := Next(sep, s, pos), pos + PieceEnd(sep, k, s[pos..]);
            if HasPiece(sep, k, s[pos..]) then
              && r.Token? && r.tok == s[pos..][..PieceEnd(sep, k, s[pos..])] && r.next == e
              && r.sep.OffsetSep? && r.sep.Valid() && r.sep == sep.WithCurrent(r.sep.current)
              && StandsAt(r.sep, k + 1) && e <= |s| && s[e..] == s[pos..][PieceEnd(sep, k, s[pos..])..]
            else r.Finished?
  {
    var e := PieceEnd(sep, k, s[pos..]);
    assert s[pos..][..e] == s[pos..pos + e] && s[pos..][e..] == s[pos + e..];
    if pos < |s| && (sep.wrap || k < |sep.offsets|) {
      AtIndex(sep, k);
      ModStep(k, |sep.offsets|);
    }
  }

  /** The calls, one by one, from the k-th on. */
  predicate Cutting(sep: Separator, k: nat, text: string, toks: seq<string>)
    requires sep.OffsetSep? && sep.Valid()
    decreases |toks|
  {
    if toks == [] then !HasPiece(sep, k, text)
    else
      var e := PieceEnd(sep, k, text);
      HasPiece(sep, k, text) && toks[0] == text[..e] && Cutting(sep, k + 1, text[e..], toks[1..])
  }

  lemma {:induction false} CuttingIsPieces(sep: Separator, k: nat, text: string, toks: seq<string>)
    requires sep.OffsetSep? && sep.Valid() && (sep.wrap || k <= |sep.offsets|)
    ensures Cutting(sep, k, text, toks) <==> Pieces(sep, k, text, toks)
    decreases |toks|
  {
    if toks == [] {
      NoPieces(sep, k, text);
    } else {
      PiecesStep(sep, k, text, toks);
      if HasPiece(sep, k, text) {
        CuttingIsPieces(sep, k + 1, text[PieceEnd(sep, k, text)..], toks[1..]);
      }
    }
  }

  lemma NoPieces(sep: Separator, k: nat, text: string)
    requires sep.OffsetSep? && sep.Valid() && (sep.wrap || k <= |sep.offsets|)
    ensures Pieces(sep, k, text, []) <==> !HasPiece(sep, k, text)
  {
    assert text[0..] == text;
  }

  /** The index at which the object stands is no part of the description. */
  lemma {:induction false} CuttingAnyIndex(sep: Separator, current: nat, k: nat, text: string, toks: seq<string>)
    requires sep.OffsetSep? && sep.Valid() && current <= |sep.offsets|
    ensures Cutting(sep.WithCurrent(current), k, text, toks) == Cutting(sep, k, text, toks)
    decreases |toks|
  {
    if toks != [] {
      CuttingAnyIndex(sep, current, k + 1, text[PieceEnd(sep, k, text)..], toks[1..]);
    }
  }

  /** The first cut, and the others as the separator finds them after its call. */
  lemma CuttingBehind(sep: Separator, k: nat, s: string, pos: nat, toks: seq<string>)
    requires sep.OffsetSep? && sep.Valid() && StandsAt(sep, k) && pos <= |s|
    requires toks != [] && HasPiece(sep, k, s[pos..])
    ensures var r := Next(sep, s, pos);
            && r.Token? && r.next <= |s| && r.sep.OffsetSep? && r.sep.Valid() && StandsAt(r.sep, k + 1)
            && (Cutting(sep, k, s[pos..], toks) <==> toks[0] == r.tok && Cutting(r.sep, k + 1, s[r.next..], toks[1..]))
  {
    OffsetCall(sep, k, s, pos);
    var r := Next(sep, s, pos);
    CuttingAnyIndex(sep, r.sep.current, k + 1, s[r.next..], toks[1..]);
  }

  /** A run from the k-th call on returns a list exactly when the list cuts the rest of the text. */
  lemma {:induction false} OffsetRun(sep: Separator, k: nat, s: string, pos: nat, toks: seq<string>)
    requires sep.OffsetSep? && sep.Valid() && StandsAt(sep, k) && pos <= |s|
    ensures RunsTo(sep, s, pos, toks) <==> Cutting(sep, k, s[pos..], toks)
    decreases |toks|
  {
    OffsetCall(sep, k, s, pos);
    if toks != [] && HasPiece(sep, k, s[pos..]) {
      var r := Next(sep, s, pos);
      CuttingBehind(sep, k, s, pos, toks);
      OffsetRun(r.sep, k + 1, s, r.next, toks[1..]);
    }
  }

  /** The iterator over an offset_separator yields a list exactly when the list is the
      pieces of the input, for every input and under every choice of the two options. */
  lemma OffsetYields(sep: Separator, s: string, toks: seq<string>)
    requires sep.OffsetSep? && sep.Valid()
    ensures Yields(sep, s, toks) <==> Pieces(sep, 0, s, toks)
  {
    CuttingIsPieces(sep, 0, s, toks);
    if s != "" {
      assert s[0..] == s;
      OffsetRun(sep.WithCurrent(0), 0, s, 0, toks);
      CuttingAnyIndex(sep, 0, 0, s, toks);
    }
  }

  /** Whatever the options, the tokens begin the input, and the k-th is as long as the offset
      in turn says, none below zero counting; only the last may be shorter. */
  lemma OffsetLengths(offsets: seq<int>, current: nat, wrap: bool, partial: bool, s: string, toks: seq<string>)
    requires offsets != [] && current <= |offsets|
    requires Yields(OffsetSep(offsets, current, wrap, partial), s, toks)
    ensures Concat(toks) <= s && (!wrap ==> |toks| <= |offsets|)
    ensures forall k :: 0 <= k < |toks| - 1 ==>
              |toks[k]| == if offsets[k % |offsets|] < 0 then 0 else offsets[k % |offsets|]
    ensures toks != [] ==>
              var k := |toks| - 1;
              |toks[k]| <= if offsets[k % |offsets|] < 0 then 0 else offsets[k % |offsets|]
  {
    OffsetYields(OffsetSep(offsets, current, wrap, partial), s, toks);
    forall k | 0 <= k < |toks| - 1
      ensures |toks[k]| == if offsets[k % |offsets|] < 0 then 0 else offsets[k % |offsets|]
    {
      assert |toks[k]| == LengthAt(offsets, 0 + k);
    }
  }

  // ------------------------------------------ wrapping, partial tokens wanted

  /** The tokens from the k-th on cut up the text: every one has its own length but
      the last, which may be shorter, though never empty. */
  predicate Cuts(len: nat -> nat, k: nat, text: string, toks: seq<string>) {
    && Concat(toks) == text
    && (forall i :: 0 <= i < |toks| - 1 ==> |toks[i]| == len(k + i))
    && (toks != [] ==> 0 < |toks[|toks| - 1]| <= len(k + |toks| - 1))
  }

  /** The iterator over a wrapping offset_separator yields a list exactly when the list
      concatenates to the input and its k-th token has the length of the k-th offset in
      turn, a shorter last one excepted. */
  lemma WrapYields(sep: Separator, s: string, toks: seq<string>)
    requires sep.OffsetSep? && sep.Valid() && sep.wrap && sep.returnPartialLast
    ensures Yields(sep, s, toks) <==> Cuts(Lengths(sep.offsets), 0, s, toks)
  {
    OffsetYields(sep, s, toks);
    var len := Lengths(sep.offsets);
    assert forall k: nat :: len(k) == LengthAt(sep.offsets, k);
    if Concat(toks) <= s {
      assert s == Concat(toks) + s[|Concat(toks)|..];
    }
  }

  // ---------------------------------------------- partial tokens not wanted

  /** A list of tokens without its last one, if that lacks more than one character. */
  function WithoutShortLast(len: nat -> nat, full: seq<string>): seq<string> {
    var last := |full| - 1;
    if full != [] && |full[last]| < len(last) - 1 then full[..last] else full
  }

  /** When partial last tokens are not wanted, the list is that of the other option
      without its last token, but only if that lacks more than one character. */
  lemma StrictYields(sep: Separator, s: string, toks: seq<string>)
    requires sep.OffsetSep? && sep.Valid() && sep.wrap && !sep.returnPartialLast
    ensures Yields(sep, s, toks) <==>
            exists full: seq<string> :: Cuts(Lengths(sep.offsets), 0, s, full)
                                        && toks == WithoutShortLast(Lengths(sep.offsets), full)
  {
    OffsetYields(sep, s, toks);
    var len := Lengths(sep.offsets);
    assert forall k: nat :: len(k) == LengthAt(sep.offsets, k);
    if Pieces(sep, 0, s, toks) {
      var full := Completed(sep, s, toks);
      assert Cuts(len, 0, s, full);
    }
    forall full: seq<string> | Cuts(len, 0, s, full) && toks == WithoutShortLast(len, full)
      ensures Pieces(sep, 0, s, toks)
    {
      StrictPieces(sep, s, full);
    }
  }

  /** What is left after the pieces, put back as one more token. */
  lemma Completed(sep: Separator, s: string, toks: seq<string>) returns (full: seq<string>)
    requires sep.OffsetSep? && sep.Valid() && sep.wrap && !sep.returnPartialLast && Pieces(sep, 0, s, toks)
    ensures Cuts(Lengths(sep.offsets), 0, s, full) && toks == WithoutShortLast(Lengths(sep.offsets), full)
  {
    var rest := s[|Concat(toks)|..];
    assert s == Concat(toks) + rest;
    if rest == "" {
      full := toks;
    } else {
      full := toks + [rest];
      ConcatSnoc(toks, rest);
      assert full[..|toks|] == toks;
    }
  }

  lemma StrictPieces(sep: Separator, s: string, full: seq<string>)
    requires sep.OffsetSep? && sep.Valid() && sep.wrap && !sep.returnPartialLast
    requires Cuts(Lengths(sep.offsets), 0, s, full)
    ensures Pieces(sep, 0, s, WithoutShortLast(Lengths(sep.offsets), full))
  {
    var len, toks := Lengths(sep.offsets), WithoutShortLast(Lengths(sep.offsets), full);
    if toks == full {
      assert s[|Concat(toks)|..] == "";
    } else {
      var last := |full| - 1;
      assert full == toks + [full[last]];
      ConcatSnoc(toks, full[last]);
      assert s[|Concat(toks)|..] == full[last];
      if toks != [] {
        assert |full[last - 1]| == len(0 + (last - 1));
      }
    }
  }

  /** The characters that the first n tokens take if none of them is short. */
  function Total(offsets: seq<int>, n: nat): nat
    requires offsets != []
  {
    if n == 0 then 0 else Total(offsets, n - 1) + LengthAt(offsets, n - 1)
  }

  lemma {:induction false} TotalGrows(offsets: seq<int>, m: nat, n: nat)
    requires offsets != [] && m <= n
    ensures Total(offsets, m) <= Total(offsets, n)
    decreases n
  {
    if m < n {
      TotalGrows(offsets, m, n - 1);
    }
  }

  lemma {:induction false} TotalOfTokens(offsets: seq<int>, toks: seq<string>)
    requires offsets != [] && forall i :: 0 <= i < |toks| ==> |toks[i]| == LengthAt(offsets, i)
    ensures |Concat(toks)| == Total(offsets, |toks|)
  {
    if toks != [] {
      var last := |toks| - 1;
      assert toks == toks[..last] + [toks[last]];
      ConcatSnoc(toks[..last], toks[last]);
      TotalOfTokens(offsets, toks[..last]);
    }
  }

  /** The input ends one character before the n-th token is complete, but not before it begins. */
  predicate OneMissing(sep: Separator, s: string, n: nat)
    requires sep.OffsetSep? && sep.Valid()
  {
    && n > 0 && (sep.wrap || n <= |sep.offsets|)
    && Total(sep.offsets, n - 1) < |s| && Total(sep.offsets, n) == |s| + 1
  }

  /** With partial last tokens not wanted, some token comes out short all the same exactly
      if the input is one character too short for a whole number of tokens. */
  lemma WrongLengthIff(sep: Separator, s: string, toks: seq<string>)
    requires sep.OffsetSep? && sep.Valid() && !sep.returnPartialLast && Yields(sep, s, toks)
    ensures (exists i :: 0 <= i < |toks| && |toks[i]| != LengthAt(sep.offsets, i))
       <==> exists n: nat :: OneMissing(sep, s, n)
  {
    OffsetYields(sep, s, toks);
    var count := |toks|;
    if count > 0 && |toks[count - 1]| != LengthAt(sep.offsets, count - 1) {
      ShortLast(sep, s, toks);
    } else {
      forall i | 0 <= i < count
        ensures |toks[i]| == LengthAt(sep.offsets, i)
      {
        assert i < count - 1 ==> |toks[i]| == LengthAt(sep.offsets, 0 + i);
      }
      TotalOfTokens(sep.offsets, toks);
      NoneMissing(sep, s, toks);
    }
  }

  lemma NoneMissing(sep: Separator, s: string, toks: seq<string>)
    requires sep.OffsetSep? && sep.Valid() && !sep.returnPartialLast && Pieces(sep, 0, s, toks)
    requires |Concat(toks)| == Total(sep.offsets, |toks|)
    ensures forall n: nat :: !OneMissing(sep, s, n)
  {
    var count := |toks|;
    assert |s| == |Concat(toks)| + |s[|Concat(toks)|..]|;
    forall n: nat
      ensures !OneMissing(sep, s, n)
    {
      if n <= count {
        TotalGrows(sep.offsets, n, count);
      } else {
        TotalGrows(sep.offsets, count, n - 1);
        TotalGrows(sep.offsets, count + 1, n);
      }
    }
  }

  lemma ShortLast(sep: Separator, s: string, toks: seq<string>)
    requires sep.OffsetSep? && sep.Valid() && !sep.returnPartialLast && Pieces(sep, 0, s, toks)
    requires toks != [] && |toks[|toks| - 1]| != LengthAt(sep.offsets, |toks| - 1)
    ensures OneMissing(sep, s, |toks|)
  {
    var last := |toks| - 1;
    assert toks == toks[..last] + [toks[last]];
    ConcatSnoc(toks[..last], toks[last]);
    forall i | 0 <= i < last
      ensures |toks[..last][i]| == LengthAt(sep.offsets, i)
    {
      assert |toks[i]| == LengthAt(sep.offsets, 0 + i);
    }
    TotalOfTokens(sep.offsets, toks[..last]);
    assert s == Concat(toks) + s[|Concat(toks)|..];
  }

  /** The offset that the next call uses. */
  function OffsetInUse(sep: Separator): int
    requires sep.OffsetSep? && sep.Valid()
  {
    sep.offsets[if sep.current == |sep.offsets| then 0 else sep.current]
  }

  /** The same for a single call, from every state that has an offset left. */
  lemma PartialLastOffByOne(sep: Separator, s: string, pos: nat)
    requires sep.OffsetSep? && sep.Valid() && !sep.returnPartialLast
    requires (sep.wrap || sep.current < |sep.offsets|) && pos < |s| && |s| - pos < OffsetInUse(sep)
    ensures Next(sep, s, pos).Token? <==> |s| - pos == OffsetInUse(sep) - 1
    ensures Next(sep, s, pos).Token? ==> Next(sep, s, pos).tok == s[pos..]
  {
  }

  /** One character short in the first round, and in the second. */
  lemma PartialLastExample()
    ensures Yields(OffsetSep([3], 0, true, false), "ab", ["ab"])
    ensures Yields(OffsetSep([3], 0, true, false), "abcde", ["abc", "de"])
    ensures Yields(OffsetSep([3], 0, true, false), "abcd", ["abc"])
  {
    var sep := OffsetSep([3], 0, true, false);
    assert forall k: nat :: LengthAt(sep.offsets, k) == 3;
    ConcatCons("ab", []);
    ConcatCons("abc", []);
    ConcatCons("abc", ["de"]);
    ConcatCons("de", []);
    assert ["ab"] + [] == ["ab"] && ["abc"] + [] == ["abc"] && ["de"] + [] == ["de"]
      && ["abc"] + ["de"] == ["abc", "de"];
    OffsetYields(sep, "ab", ["ab"]);
    OffsetYields(sep, "abcd", ["abc"]);
    OffsetYields(sep, "abcde", ["abc", "de"]);
  }

  // ----------------------------------------------------------- termination

  /** How many calls until the offset with index p is used. */
  function CallsUntil(k: nat, p: nat, m: nat): nat
    requires p < m
  {
    if k % m <= p then p - k % m else p + m - k % m
  }

  lemma CallsDecrease(k: nat, p: nat, m: nat)
    requires p < m && k % m != p
    ensures CallsUntil(k + 1, p, m) < CallsUntil(k, p, m)
  {
    ModStep(k, m);
  }

  lemma PositiveLength(offsets: seq<int>, k: nat, p: nat)
    requires p < |offsets| && offsets[p] > 0 && LengthAt(offsets, k) == 0
    ensures CallsUntil(k + 1, p, |offsets|) < CallsUntil(k, p, |offsets|)
  {
    CallsDecrease(k, p, |offsets|);
  }

  /** The pieces of a text, by cutting; for a wrapping separator p is the index of a
      positive offset. */
  function CutUp(sep: Separator, k: nat, text: string, p: nat): (toks: seq<string>)
    requires sep.OffsetSep? && sep.Valid()
    requires if sep.wrap then p < |sep.offsets| && sep.offsets[p] > 0 else k <= |sep.offsets|
    decreases |text|, if sep.wrap then CallsUntil(k, p, |sep.offsets|) else |sep.offsets| - k
  {
    if !HasPiece(sep, k, text) then []
    else
      var e := PieceEnd(sep, k, text);
      assert e == 0 && sep.wrap ==> CallsUntil(k + 1, p, |sep.offsets|) < CallsUntil(k, p, |sep.offsets|) by {
        if e == 0 && sep.wrap { PositiveLength(sep.offsets, k, p); }
      }
      [text[..e]] + CutUp(sep, k + 1, text[e..], p)
  }

  lemma {:induction false} CutUpCuts(sep: Separator, k: nat, text: string, p: nat)
    requires sep.OffsetSep? && sep.Valid()
    requires if sep.wrap then p < |sep.offsets| && sep.offsets[p] > 0 else k <= |sep.offsets|
    ensures Cutting(sep, k, text, CutUp(sep, k, text, p))
    decreases |text|, if sep.wrap then CallsUntil(k, p, |sep.offsets|) else |sep.offsets| - k
  {
    if HasPiece(sep, k, text) {
      var e := PieceEnd(sep, k, text);
      if e == 0 && sep.wrap { PositiveLength(sep.offsets, k, p); }
      CutUpCuts(sep, k + 1, text[e..], p);
    }
  }

  lemma CutUpYields(sep: Separator, s: string, p: nat)
    requires sep.OffsetSep? && sep.Valid()
    requires sep.wrap ==> p < |sep.offsets| && sep.offsets[p] > 0
    ensures Yields(sep, s, CutUp(sep, 0, s, p))
  {
    CutUpCuts(sep, 0, s, p);
    CuttingIsPieces(sep, 0, s, CutUp(sep, 0, s, p));
    OffsetYields(sep, s, CutUp(sep, 0, s, p));
  }

  /** Wrapping over offsets none of which is positive never gets anywhere. */
  lemma NoProgress(sep: Separator, s: string, toks: seq<string>)
    requires sep.OffsetSep? && sep.Valid() && sep.wrap && s != ""
    requires forall p :: 0 <= p < |sep.offsets| ==> sep.offsets[p] <= 0
    ensures !Pieces(sep, 0, s, toks)
  {
    assert forall k: nat :: LengthAt(sep.offsets, k) == 0;
  }

  /** The run comes to an end exactly if there is nothing to cut, the offsets are not used
      again, or some offset is positive. */
  lemma OffsetEnds(sep: Separator, s: string)
    requires sep.OffsetSep? && sep.Valid()
    ensures (exists toks: seq<string> :: Yields(sep, s, toks))
       <==> s == "" || !sep.wrap || exists p :: 0 <= p < |sep.offsets| && sep.offsets[p] > 0
  {
    if s == "" {
      assert Yields(sep, s, []);
    } else if !sep.wrap {
      CutUpYields(sep, s, 0);
    } else if p :| 0 <= p < |sep.offsets| && sep.offsets[p] > 0 {
      CutUpYields(sep, s, p);
    } else {
      forall toks: seq<string>
        ensures !Yields(sep, s, toks)
      {
        OffsetYields(sep, s, toks);
        NoProgress(sep, s, toks);
      }
    }
  }

  // ------------------------------------------------------- without wrapping

  /** The first of the tokens, as many as there are offsets. */
  function FirstRound(offsets: seq<int>, toks: seq<string>): seq<string> {
    if |toks| <= |offsets| then toks else toks[..|offsets|]
  }

  /** Without wrapping, the run is the same up to the number of offsets. */
  lemma {:induction false} NoWrapRun(sep: Separator, s: string, pos: nat, toks: seq<string>)
    requires sep.OffsetSep? && sep.Valid() && pos <= |s|
    requires sep.wrap && RunsTo(sep, s, pos, toks)
    ensures var once := OffsetSep(sep.offsets, sep.current, false, sep.returnPartialLast);
            var left := |sep.offsets| - sep.current;
            RunsTo(once, s, pos, if |toks| <= left then toks else toks[..left])
    decreases |toks|
  {
    var once := OffsetSep(sep.offsets, sep.current, false, sep.returnPartialLast);
    var left := |sep.offsets| - sep.current;
    if toks != [] && left > 0 {
      var r := Next(sep, s, pos);
      NoWrapRun(r.sep, s, r.next, toks[1..]);
      var expected := if |toks| <= left then toks else toks[..left];
      assert expected[1..] == if |toks[1..]| <= left - 1 then toks[1..] else toks[1..][..left - 1];
      RunsToCons(once, s, pos, expected);
    }
  }

  lemma NoWrapYieldsPrefix(offsets: seq<int>, current: nat, s: string, toks: seq<string>, partial: bool)
    requires offsets != [] && current <= |offsets|
    requires Yields(OffsetSep(offsets, current, true, partial), s, toks)
    ensures Yields(OffsetSep(offsets, current, false, partial), s, FirstRound(offsets, toks))
  {
    if s != "" {
      NoWrapRun(OffsetSep(offsets, 0, true, partial), s, 0, toks);
    }
  }

  /** Without wrapping every input has its list, of at most as many tokens as there are
      offsets; where the wrapping run ends as well, it is the beginning of that list. */
  lemma NoWrapYields(once: Separator, s: string)
    requires once.OffsetSep? && once.Valid() && !once.wrap
    ensures exists toks: seq<string> ::
              && |toks| <= |once.offsets| && Pieces(once, 0, s, toks)
              && (forall other: seq<string> :: Yields(once, s, other) <==> other == toks)
              && forall full: seq<string> ::
                   Yields(OffsetSep(once.offsets, once.current, true, once.returnPartialLast), s, full)
                   ==> toks == FirstRound(once.offsets, full)
  {
    var toks := CutUp(once, 0, s, 0);
    CutUpYields(once, s, 0);
    OffsetYields(once, s, toks);
    forall other: seq<string> | Yields(once, s, other)
      ensures other == toks
    {
      YieldsUnique(once, s, other, toks);
    }
    var again := OffsetSep(once.offsets, once.current, true, once.returnPartialLast);
    forall full: seq<string> | Yields(again, s, full)
      ensures toks == FirstRound(once.offsets, full)
    {
      NoWrapYieldsPrefix(once.offsets, once.current, s, full, once.returnPartialLast);
      assert Yields(once, s, FirstRound(once.offsets, full));
    }
  }
}
