/** Characters and strings, shared by the tokenizers, the text form of fractions and
    the progress display. */
module Strings {

  /** `isspace` in the classic locale. */
  predicate IsSpace(e: char) {
    e == ' ' || 9 <= e as int <= 13
  }

  lemma SliceGrows(s: string, b: nat, e: nat)
    requires b <= e < |s|
    ensures s[b..e + 1] == s[b..e] + [s[e]]
  {
  }

  lemma AppendAssociative(a: string, b: string, c: string)
    ensures a + b + c == a + (b + c)
  {
  }

  /** `ispunct` in the classic locale. */
  predicate IsPunct(e: char) {
    33 <= e as int <= 47 || 58 <= e as int <= 64 || 91 <= e as int <= 96 || 123 <= e as int <= 126
  }

  /** Blank, tabulators, line feed, form feed and carriage return. */
  const SPACES := " \t\n\U{B}\U{C}\r"

  const PUNCTUATION := "!\"#$%&'()*+,-./:;<=>?@[\\]^_`{|}~"

  lemma SpaceExactly(e: char)
    ensures IsSpace(e) <==> e in SPACES
  {
    assert SPACES[0] == ' ' && SPACES[1] == '\t' && SPACES[2] == '\n';
    assert SPACES[3] == '\U{B}' && SPACES[4] == '\U{C}' && SPACES[5] == '\r';
  }

  /** The n-th punctuation character, by its code. */
  function PunctuationAt(i: nat): char
    requires i < 32
  {
    (if i < 15 then 33 + i else if i < 22 then 43 + i else if i < 28 then 69 + i else 95 + i) as char
  }

  lemma PunctExactly(e: char)
    ensures IsPunct(e) <==> e in PUNCTUATION
  {
    assert |PUNCTUATION| == 32;
    assert forall i :: 0 <= i < 32 ==> PUNCTUATION[i] == PunctuationAt(i);
    if IsPunct(e) {
      var k := e as int;
      var i := if k <= 47 then k - 33 else if k <= 64 then k - 43 else if k <= 96 then k - 69 else k - 95;
      assert PUNCTUATION[i] == e;
    }
  }

  /** How many characters of a text are in the set. */
  function Occurrences(s: string, chars: string): nat {
    if s == "" then 0 else (if s[0] in chars then 1 else 0) + Occurrences(s[1..], chars)
  }

  /** A text without the characters that are in the first set and not in the second. */
  function Filtered(s: string, out: string, but: string): (r: string)
    ensures |r| <= |s|
  {
    if s == "" then ""
    else (if s[0] in out && s[0] !in but then "" else [s[0]]) + Filtered(s[1..], out, but)
  }

  lemma TailOfTail(s: string, e: nat)
    requires 0 < e <= |s|
    ensures s[1..][e - 1..] == s[e..] && [s[0]] + s[1..][..e - 1] == s[..e]
  {
  }

  lemma {:induction false} HeadFiltered(s: string, out: string, but: string, e: nat)
    requires e <= |s| && forall i :: 0 <= i < e ==> s[i] !in out
    ensures Filtered(s, out, but) == s[..e] + Filtered(s[e..], out, but)
    decreases e
  {
    if e == 0 {
      assert s[..0] == "" && s[0..] == s;
    } else {
      HeadFiltered(s[1..], out, but, e - 1);
      TailOfTail(s, e);
      AppendAssociative([s[0]], s[1..][..e - 1], Filtered(s[e..], out, but));
    }
  }

  /** No character of the text is in the set. */
  predicate Free(s: string, chars: string) {
    s == "" || (s[0] !in chars && Free(s[1..], chars))
  }

  lemma {:induction false} FreeIff(s: string, chars: string)
    ensures Free(s, chars) <==> forall i :: 0 <= i < |s| ==> s[i] !in chars
  {
    if s != "" {
      FreeIff(s[1..], chars);
      assert forall i :: 1 <= i < |s| ==> s[i] == s[1..][i - 1];
    }
  }
}
