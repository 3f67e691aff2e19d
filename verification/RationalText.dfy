/** The text form of fractions: what `operator<<` writes and `operator>>` accepts,
    in the default decimal format. Extraction of plain integers is that of the
    standard stream, on a text and a position in it. */
module RationalText {
  import opened NumberTheory
  import opened RationalLaws
  import opened Rationals
  import opened Strings

  /** Either way the position is the one at which the stream stands afterwards. */
  datatype Parsed = Failed(next: nat) | Read(value: int, next: nat)

  predicate IsDigit(c: char) {
    '0' <= c <= '9'
  }

  predicate AllDigits(s: string) {
    forall i :: 0 <= i < |s| ==> IsDigit(s[i])
  }

  predicate AllSpaces(s: string) {
    forall i :: 0 <= i < |s| ==> IsSpace(s[i])
  }

  function DigitValue(c: char): nat
    requires IsDigit(c)
  {
    c as int - '0' as int
  }

  function DigitOf(k: nat): char
    requires k < 10
  {
    ('0' as int + k) as char
  }

  /** The value of a digit string, leading zeros allowed. */
  function DigitsValue(s: string): nat
    requires AllDigits(s)
  {
    if s == [] then 0 else 10 * DigitsValue(s[..|s| - 1]) + DigitValue(s[|s| - 1])
  }

  function Signed(negative: bool, v: nat): int {
    var i: int := v;
    if negative then -i else i
  }

  function DigitsEnd(s: string, p: nat): (e: nat)
    requires p <= |s|
    ensures p <= e <= |s| && AllDigits(s[p..e])
    ensures e < |s| ==> !IsDigit(s[e])
    decreases |s| - p
  {
    if p < |s| && IsDigit(s[p]) then
      var e := DigitsEnd(s, p + 1);
      assert s[p..e] == [s[p]] + s[p + 1..e];
      e
    else p
  }

  function SpacesEnd(s: string, p: nat): (e: nat)
    requires p <= |s|
    ensures p <= e <= |s|
    decreases |s| - p
  {
    if p < |s| && IsSpace(s[p]) then SpacesEnd(s, p + 1) else p
  }

  /** `is >> n` without skipping: an optional sign and at least one digit. A sign without
      a digit behind it has been taken all the same. */
  function ReadInt(s: string, p: nat): (r: Parsed)
    requires p <= |s|
    ensures p <= r.next <= |s| && (r.Read? ==> p < r.next)
  {
    var q := if p < |s| && s[p] in "+-" then p + 1 else p;
    var e := DigitsEnd(s, q);
    if e == q then Failed(q)
    else Read(Signed(s[p] == '-', DigitsValue(s[q..e])), e)
  }

  datatype ParsedRatio = NotRead(next: nat) | ReadRatio(x: Ratio, next: nat)

  /** Numerator with leading blanks skipped, a slash right behind it, denominator right
      behind that. A text that stops after the numerator is refused as well; any other
      character in place of the slash has been taken. */
  function ReadFraction(s: string, p: nat): (r: ParsedRatio)
    requires p <= |s|
    ensures p <= r.next <= |s|
  {
    match ReadInt(s, SpacesEnd(s, p))
    case Failed(q) => NotRead(q)
    case Read(n, k) =>
      if k == |s| then NotRead(k)
      else if s[k] != '/' then NotRead(k + 1)
      else
        match ReadInt(s, k + 1)
        case Failed(q) => NotRead(q)
        case Read(d, e) => ReadRatio(Ratio(n, d), e)
  }

  function NatText(n: nat): (s: string)
    ensures s != []
  {
    if n < 10 then [DigitOf(n)] else NatText(n / 10) + [DigitOf(n % 10)]
  }

  function IntText(n: int): string {
    if n < 0 then "-" + NatText(-n) else NatText(n)
  }

  /** `operator<<`. */
  method Insert(r: Rational) returns (text: string)
    ensures text == IntText(r.num) + "/" + IntText(r.den)
  {
    var tail := "/" + IntText(r.den);
    text := IntText(r.num) + tail;
  }

  /** `operator>>`: on any failure, a zero denominator included, r keeps its value. The
      stream ends up behind what was read, or where reading failed. */
  method Extract(text: string, p: nat, r: Rational) returns (ok: bool, next: nat)
    requires p <= |text|
    modifies r
    ensures var read := ReadFraction(text, p);
            && ok == (read.ReadRatio? && read.x.d != 0) && next == read.next
            && (ok ==> r.Valid() && r.Equals(read.x))
    ensures !ok ==> r.num == old(r.num) && r.den == old(r.den)
  {
    var numerator := ReadInt(text, SpacesEnd(text, p));
    next := numerator.next;
    if numerator.Failed? || next == |text| { return false, next; }
    var c := text[next];
    next := next + 1;
    if c != '/' { return false, next; }
    var denominator := ReadInt(text, next);
    next := denominator.next;
    if denominator.Failed? { return false, next; }
    var outcome := r.Assign(numerator.value, denominator.value);
    return outcome == Done, next;
  }

  // ------------------------------------------------------------- the numerals

  function TenTo(k: nat): nat {
    if k == 0 then 1 else 10 * TenTo(k - 1)
  }

  /** The ten digits and what they stand for. */
  lemma DigitsAre(c: char, k: nat)
    ensures IsDigit(c) <==> c in "0123456789"
    ensures k < 10 ==> DigitOf(k) == "0123456789"[k] && IsDigit(DigitOf(k)) && DigitValue(DigitOf(k)) == k
  {
    var digits := "0123456789";
    assert forall i :: 0 <= i < 10 ==> digits[i] == ('0' as int + i) as char;
    if IsDigit(c) {
      assert digits[c as int - '0' as int] == c;
    }
  }

  lemma AllDigitsSplit(a: string, b: string)
    ensures AllDigits(a + b) <==> AllDigits(a) && AllDigits(b)
  {
    if AllDigits(a + b) {
      assert forall i :: 0 <= i < |a| ==> a[i] == (a + b)[i];
      assert forall i :: 0 <= i < |b| ==> b[i] == (a + b)[|a| + i];
    }
  }

  lemma TimesTen(u: nat, t: nat, v: nat)
    ensures 10 * (u * t + v) == u * (10 * t) + 10 * v
  {
  }

  /** Numerals are decimal: what stands in front counts as many tens of tens as there are
      digits behind it. */
  lemma {:induction false} Decimal(a: string, b: string)
    requires AllDigits(a) && AllDigits(b)
    ensures AllDigits(a + b) && DigitsValue(a + b) == DigitsValue(a) * TenTo(|b|) + DigitsValue(b)
    decreases |b|
  {
    AllDigitsSplit(a, b);
    if b == "" {
      assert a + b == a;
    } else {
      var k := |b| - 1;
      Decimal(a, b[..k]);
      assert (a + b)[..|a + b| - 1] == a + b[..k] && (a + b)[|a + b| - 1] == b[k];
      TimesTen(DigitsValue(a), TenTo(k), DigitsValue(b[..k]));
    }
  }

  lemma {:induction false} NoughtsValue(k: nat)
    ensures AllDigits(seq(k, _ => '0')) && DigitsValue(seq(k, _ => '0')) == 0
  {
    if k > 0 {
      NoughtsValue(k - 1);
      assert seq(k, _ => '0')[..k - 1] == seq(k - 1, _ => '0');
    }
  }

  /** Leading noughts make no difference. */
  lemma LeadingNoughts(k: nat, s: string)
    requires AllDigits(s)
    ensures AllDigits(seq(k, _ => '0') + s) && DigitsValue(seq(k, _ => '0') + s) == DigitsValue(s)
  {
    NoughtsValue(k);
    Decimal(seq(k, _ => '0'), s);
  }

  lemma NumeralExample()
    ensures AllDigits("120") && DigitsValue("120") == 120 && NatText(120) == "120"
  {
    assert "120"[..2] == "12" && "12"[..1] == "1" && "1"[..0] == "";
    assert DigitsValue("1") == 1 && DigitsValue("12") == 12;
    assert NatText(1) == "1" && NatText(12) == "1" + "2" && NatText(120) == "12" + "0";
  }

  /** Where the stream stands when there is no slash: at the end, or behind the character
      in its place. */
  lemma NoSlashExample()
    ensures ReadFraction("7", 0) == NotRead(1) && ReadFraction("7x8", 0) == NotRead(2)
  {
    DigitsEndAt("7", 0, 1);
    DigitsEndAt("7x8", 0, 1);
  }

  /** Either sign may stand in front, and nothing else. */
  lemma SignExample()
    ensures ReadInt("-7", 0) == Read(-7, 2) && ReadInt("+7", 0) == Read(7, 2)
    ensures ReadInt(" 7", 0) == Failed(0) && ReadInt("-", 0) == Failed(1)
    ensures IntText(-7) == "-7"
    ensures ReadFraction("-", 0) == NotRead(1)
  {
    assert "-7"[1..2] == "7" && "+7"[1..2] == "7" && "7"[..0] == "";
    assert DigitsValue("7") == 7;
    DigitsEndAt("-7", 1, 2);
    DigitsEndAt("+7", 1, 2);
  }

  // ------------------------------------------------------------ round trips

  lemma {:induction false} NatTextDigits(n: nat)
    ensures AllDigits(NatText(n)) && DigitsValue(NatText(n)) == n
  {
    if n >= 10 {
      NatTextDigits(n / 10);
      var s := NatText(n);
      assert s[..|s| - 1] == NatText(n / 10);
      assert DigitValue(DigitOf(n % 10)) == n % 10;
    } else {
      assert NatText(n)[..0] == [];
    }
  }

  /** The digits of a run end exactly where the run does. */
  lemma {:induction false} DigitsEndAt(s: string, p: nat, e: nat)
    requires p <= e <= |s| && AllDigits(s[p..e]) && (e < |s| ==> !IsDigit(s[e]))
    ensures DigitsEnd(s, p) == e
    decreases e - p
  {
    if p < e {
      assert s[p] == s[p..e][0];
      assert s[p + 1..e] == s[p..e][1..];
      DigitsEndAt(s, p + 1, e);
    }
  }

  lemma {:induction false} SpacesEndAt(s: string, p: nat, e: nat)
    requires p <= e <= |s| && AllSpaces(s[p..e]) && (e < |s| ==> !IsSpace(s[e]))
    ensures SpacesEnd(s, p) == e
    decreases e - p
  {
    if p < e {
      assert s[p] == s[p..e][0];
      assert s[p + 1..e] == s[p..e][1..];
      SpacesEndAt(s, p + 1, e);
    }
  }

  /** s[p..e] is an optional sign and digits, with no further digit behind, and means v. */
  predicate Spells(s: string, p: nat, e: nat, v: int) {
    && p < e <= |s|
    && var q := if s[p] in "+-" then p + 1 else p;
    && q < e && AllDigits(s[q..e]) && (e < |s| ==> !IsDigit(s[e]))
    && v == Signed(s[p] == '-', DigitsValue(s[q..e]))
  }

  /** Reading an integer succeeds exactly on the texts that spell one. */
  lemma ReadIntExactly(s: string, p: nat, e: nat, v: int)
    requires p <= |s|
    ensures ReadInt(s, p) == Read(v, e) <==> Spells(s, p, e, v)
  {
    if Spells(s, p, e, v) {
      DigitsEndAt(s, if s[p] in "+-" then p + 1 else p, e);
    }
  }

  /** Blanks, a number, a slash, a number. */
  ghost predicate SpellsFraction(s: string, p: nat, e: nat, x: Ratio) {
    exists k: nat, m: nat :: FractionParts(s, p, k, m, e, x)
  }

  predicate FractionParts(s: string, p: nat, k: nat, m: nat, e: nat, x: Ratio) {
    && p <= k < m < |s| && AllSpaces(s[p..k])
    && Spells(s, k, m, x.n) && s[m] == '/' && Spells(s, m + 1, e, x.d)
  }

  /** Reading a fraction succeeds exactly on the texts of that grammar, with their value. */
  lemma ReadFractionExactly(s: string, p: nat, e: nat, x: Ratio)
    requires p <= |s|
    ensures ReadFraction(s, p) == ReadRatio(x, e) <==> SpellsFraction(s, p, e, x)
  {
    if SpellsFraction(s, p, e, x) {
      var k: nat, m: nat :| FractionParts(s, p, k, m, e, x);
      FractionReads(s, p, k, m, e, x);
    }
    if ReadFraction(s, p) == ReadRatio(x, e) {
      FractionRead(s, p, e, x);
    }
  }

  lemma FractionReads(s: string, p: nat, k: nat, m: nat, e: nat, x: Ratio)
    requires FractionParts(s, p, k, m, e, x)
    ensures ReadFraction(s, p) == ReadRatio(x, e)
  {
    SpelledStart(s, k, m, x.n);
    SpacesEndAt(s, p, k);
    ReadIntExactly(s, k, m, x.n);
    ReadIntExactly(s, m + 1, e, x.d);
  }

  lemma FractionRead(s: string, p: nat, e: nat, x: Ratio)
    requires p <= |s| && ReadFraction(s, p) == ReadRatio(x, e)
    ensures SpellsFraction(s, p, e, x)
  {
    var k := SpacesEnd(s, p);
    SpacesSkipped(s, p);
    var m := ReadInt(s, k).next;
    ReadIntExactly(s, k, m, x.n);
    ReadIntExactly(s, m + 1, e, x.d);
    assert FractionParts(s, p, k, m, e, x);
  }

  lemma SpelledStart(s: string, k: nat, m: nat, v: int)
    requires Spells(s, k, m, v)
    ensures !IsSpace(s[k])
  {
    if s[k] !in "+-" {
      assert s[k] == s[k..m][0];
    }
  }

  lemma {:induction false} SpacesSkipped(s: string, p: nat)
    requires p <= |s|
    ensures AllSpaces(s[p..SpacesEnd(s, p)])
    decreases |s| - p
  {
    if p < |s| && IsSpace(s[p]) {
      SpacesSkipped(s, p + 1);
      assert s[p..SpacesEnd(s, p)] == [s[p]] + s[p + 1..SpacesEnd(s, p)];
    }
  }

  /** Digits spell their value where nothing but a non-digit follows. */
  lemma DigitsSpell(before: string, digits: string, after: string)
    requires digits != "" && AllDigits(digits) && (after != [] ==> !IsDigit(after[0]))
    ensures Spells(before + digits + after, |before|, |before + digits|, DigitsValue(digits))
  {
    SliceMiddle(before, digits, after);
    assert IsDigit(digits[0]);
  }

  /** A minus sign in front negates. */
  lemma MinusSpells(before: string, digits: string, after: string)
    requires digits != "" && AllDigits(digits) && (after != [] ==> !IsDigit(after[0]))
    ensures Spells(before + ("-" + digits) + after, |before|, |before + ("-" + digits)|,
                   Signed(true, DigitsValue(digits)))
  {
    AppendAssociative(before, "-", digits);
    SliceMiddle(before + "-", digits, after);
    SliceMiddle(before, "-" + digits, after);
  }

  /** A printed integer spells itself wherever it stands. */
  lemma PrintedSpells(before: string, n: int, after: string)
    requires after != [] ==> !IsDigit(after[0])
    ensures Spells(before + IntText(n) + after, |before|, |before + IntText(n)|, n)
  {
    NatTextDigits(Abs(n));
    if n < 0 {
      MinusSpells(before, NatText(-n), after);
    } else {
      DigitsSpell(before, NatText(n), after);
    }
  }

  lemma SliceMiddle(a: string, b: string, c: string)
    ensures (a + b + c)[|a|..|a + b|] == b
    ensures b != "" ==> (a + b + c)[|a|] == b[0]
    ensures c != "" ==> (a + b + c)[|a + b|] == c[0]
  {
  }

  /** The printed form of any pair, whatever follows that is no digit, is read back as that pair. */
  lemma TextRoundTrip(x: Ratio, after: string)
    requires after != [] ==> !IsDigit(after[0])
    ensures ReadFraction(IntText(x.n) + "/" + IntText(x.d) + after, 0)
         == ReadRatio(x, |IntText(x.n) + "/" + IntText(x.d)|)
  {
    var t1, t2 := IntText(x.n), IntText(x.d);
    FirstPart(t1, "/", t2, after);
    SlashAt(t1, t2 + after);
    PrintedParts(t1 + "/" + t2 + after, x, after);
    PartsRead(t1 + "/" + t2 + after, |t1|, |t1 + "/" + t2|, x);
  }

  lemma PrintedParts(s: string, x: Ratio, after: string)
    requires after != [] ==> !IsDigit(after[0])
    requires s == "" + IntText(x.n) + ("/" + IntText(x.d) + after) == IntText(x.n) + "/" + (IntText(x.d) + after)
    requires s == IntText(x.n) + "/" + IntText(x.d) + after
    ensures Spells(s, 0, |IntText(x.n)|, x.n)
    ensures Spells(s, |IntText(x.n)| + 1, |IntText(x.n) + "/" + IntText(x.d)|, x.d)
  {
    PrintedSpells("", x.n, "/" + IntText(x.d) + after);
    PrintedSpells(IntText(x.n) + "/", x.d, after);
  }

  lemma SlashAt(a: string, b: string)
    ensures (a + "/" + b)[|a|] == '/' && |a + "/"| == |a| + 1
  {
  }

  lemma FirstPart(a: string, b: string, c: string, d: string)
    ensures a + b + c + d == "" + a + (b + c + d) == a + b + (c + d) && "" + a == a
  {
  }

  lemma PartsRead(s: string, m: nat, e: nat, x: Ratio)
    requires m < |s| && Spells(s, 0, m, x.n) && s[m] == '/' && Spells(s, m + 1, e, x.d)
    ensures ReadFraction(s, 0) == ReadRatio(x, e)
  {
    assert FractionParts(s, 0, 0, m, e, x);
    ReadFractionExactly(s, 0, e, x);
  }

  /** Printing a fraction and reading the text into another one copies it, and reads all of it. */
  method PrintAndRead(a: Rational, b: Rational) returns (ok: bool)
    requires a.Valid() && b.Valid()
    modifies b
    ensures ok && b.num == old(a.num) && b.den == old(a.den)
  {
    var text := Insert(a);
    TextRoundTrip(a.Value(), "");
    assert text + "" == text;
    ghost var n, d := a.num, a.den;
    var next;
    ok, next := Extract(text, 0, b);
    assert next == |text|;
    NormalFormUnique(b.num, b.den, n, d, n, d);
  }
}
