/** The escaped-list grammar, written down from the writer's side, and the theorem that
    the tokenizer accepts exactly its texts and gives back what was written. */
module EscapedListLaws {
  import opened Tokenizing
  import opened Strings

  /** One piece of a written field: a character as it is, an escape sequence, or a quotation mark. */
  datatype Item = Raw(ch: char) | Escaped(esc: char, ch: char) | Toggle(mark: char)

  type Field = seq<Item>

  function ItemText(item: Item): string {
    match item
    case Raw(ch) => [ch]
    case Escaped(esc, ch) => [esc, ch]
    case Toggle(mark) => [mark]
  }

  function ItemValue(item: Item): string {
    match item
    case Raw(ch) => [ch]
    case Escaped(_, ch) => if ch == 'n' then ['\n'] else [ch]
    case Toggle(_) => ""
  }

  /** Where a piece may stand: field separators go unescaped only between quotation marks. */
  predicate ItemOk(sep: Separator, item: Item, inQuote: bool)
    requires sep.EscapedList?
  {
    match item
    case Raw(ch) => !sep.IsEscape(ch) && (if sep.IsC(ch) then inQuote else !sep.IsQuote(ch))
    case Escaped(esc, ch) => sep.IsEscape(esc) && (ch == 'n' || Escapable(sep, ch))
    case Toggle(mark) => sep.IsQuote(mark) && !sep.IsEscape(mark) && !sep.IsC(mark)
  }

  function FieldText(field: Field): string {
    if field == [] then "" else ItemText(field[0]) + FieldText(field[1..])
  }

  function FieldValue(field: Field): string {
    if field == [] then "" else ItemValue(field[0]) + FieldValue(field[1..])
  }

  function QuoteAfter(field: Field, inQuote: bool): bool {
    if field == [] then inQuote else QuoteAfter(field[1..], inQuote != field[0].Toggle?)
  }

  predicate FieldOk(sep: Separator, field: Field, inQuote: bool)
    requires sep.EscapedList?
  {
    field == [] || (ItemOk(sep, field[0], inQuote) && FieldOk(sep, field[1..], inQuote != field[0].Toggle?))
  }

  /** Fields joined by separator characters; only the last may end inside quotation marks. */
  predicate RecordOk(sep: Separator, fields: seq<Field>, seps: string)
    requires sep.EscapedList?
  {
    && |fields| == |seps| + 1
    && FieldOk(sep, fields[0], false)
    && (seps != [] ==>
          && sep.IsC(seps[0]) && !sep.IsEscape(seps[0]) && !QuoteAfter(fields[0], false)
          && RecordOk(sep, fields[1..], seps[1..]))
  }

  function RecordText(fields: seq<Field>, seps: string): string
    requires |fields| == |seps| + 1
  {
    if seps == "" then FieldText(fields[0])
    else FieldText(fields[0]) + ([seps[0]] + RecordText(fields[1..], seps[1..]))
  }

  function Values(fields: seq<Field>): seq<string> {
    if fields == [] then [] else [FieldValue(fields[0])] + Values(fields[1..])
  }

  /** The text t stands in s at the position. */
  predicate At(s: string, pos: nat, t: string) {
    pos + |t| <= |s| && forall i :: 0 <= i < |t| ==> t[i] == s[pos + i]
  }

  lemma AtConcat(s: string, pos: nat, a: string, b: string)
    ensures At(s, pos, a + b) <==> At(s, pos, a) && At(s, pos + |a|, b)
  {
    var t := a + b;
    if At(s, pos, t) {
      assert forall i :: 0 <= i < |a| ==> a[i] == t[i];
      assert forall i :: 0 <= i < |b| ==> b[i] == t[|a| + i];
    }
  }

  lemma AtWhole(s: string)
    ensures At(s, 0, s)
  {
  }

  lemma WholeAt(s: string, t: string)
    requires At(s, 0, t) && |t| == |s|
    ensures s == t
  {
  }

  // ------------------------------------------------------ written, then read

  lemma FieldTextEmpty(field: Field)
    ensures FieldText(field) == "" <==> field == []
  {
  }

  /** One written piece moves the scanner by its length. */
  lemma ScanPiece(sep: Separator, s: string, pos: nat, item: Item, inQuote: bool, tok: string)
    requires sep.EscapedList? && ItemOk(sep, item, inQuote) && At(s, pos, ItemText(item))
    ensures Scan(sep, s, pos, inQuote, tok)
         == Scan(sep, s, pos + |ItemText(item)|, inQuote != item.Toggle?, tok + ItemValue(item))
  {
    var text := ItemText(item);
    assert text[0] == s[pos] && (item.Escaped? ==> text[1] == s[pos + 1]);
    assert tok + "" == tok;
  }

  lemma FieldAt(s: string, pos: nat, item: Item, rest: Field)
    requires At(s, pos, FieldText([item] + rest))
    ensures At(s, pos, ItemText(item)) && At(s, pos + |ItemText(item)|, FieldText(rest))
    ensures |FieldText([item] + rest)| == |ItemText(item)| + |FieldText(rest)|
  {
    assert ([item] + rest)[1..] == rest;
    AtConcat(s, pos, ItemText(item), FieldText(rest));
  }

  /** The scanner walks over a written field and appends its value. */
  lemma {:induction false} ScanField(sep: Separator, s: string, pos: nat, field: Field, inQuote: bool, tok: string)
    requires sep.EscapedList? && FieldOk(sep, field, inQuote) && At(s, pos, FieldText(field))
    ensures Scan(sep, s, pos, inQuote, tok)
         == Scan(sep, s, pos + |FieldText(field)|, QuoteAfter(field, inQuote), tok + FieldValue(field))
    decreases |field|
  {
    if field == [] {
      assert tok + "" == tok;
    } else {
      var item, rest := field[0], field[1..];
      assert field == [item] + rest;
      FieldAt(s, pos, item, rest);
      ScanPiece(sep, s, pos, item, inQuote, tok);
      ScanField(sep, s, pos + |ItemText(item)|, rest, inQuote != item.Toggle?, tok + ItemValue(item));
      AppendAssociative(tok, ItemValue(item), FieldValue(rest));
    }
  }

  /** The call that reads one written field, up to its end or to its separator. */
  lemma NextField(sep: Separator, s: string, pos: nat, field: Field)
    requires sep.EscapedList? && FieldOk(sep, field, false) && At(s, pos, FieldText(field))
    requires pos < |s| || sep.last
    ensures var e := pos + |FieldText(field)|;
            && (e == |s| ==> Next(sep, s, pos) == Token(FieldValue(field), e, sep.WithLast(false)))
            && (e < |s| && sep.IsC(s[e]) && !sep.IsEscape(s[e]) && !QuoteAfter(field, false) ==>
                  Next(sep, s, pos) == Token(FieldValue(field), e + 1, sep.WithLast(true)))
  {
    FieldOkAnyLast(sep, field, false);
    ScanField(sep.WithLast(false), s, pos, field, false, "");
    FieldTextEmpty(field);
    assert "" + FieldValue(field) == FieldValue(field);
  }

  /** A text made of a field, a separator and the rest. */
  lemma AtJoined(s: string, pos: nat, a: string, c: char, b: string)
    ensures At(s, pos, a + ([c] + b))
       <==> At(s, pos, a) && pos + |a| < |s| && s[pos + |a|] == c && At(s, pos + |a| + 1, b)
  {
    AtConcat(s, pos, a, [c] + b);
    AtConcat(s, pos + |a|, [c], b);
    assert [c][0] == c;
  }

  /** A written record is its first field, a separator and a written record. */
  lemma RecordAt(s: string, pos: nat, field: Field, c: char, fields: seq<Field>, seps: string)
    requires |fields| == |seps| + 1
    ensures var whole, e := RecordText([field] + fields, [c] + seps), pos + |FieldText(field)|;
            && |whole| == |FieldText(field)| + 1 + |RecordText(fields, seps)|
            && (At(s, pos, whole) <==>
                  At(s, pos, FieldText(field)) && e < |s| && s[e] == c && At(s, e + 1, RecordText(fields, seps)))
  {
    assert ([field] + fields)[1..] == fields && ([c] + seps)[1..] == seps;
    assert RecordText([field] + fields, [c] + seps) == FieldText(field) + ([c] + RecordText(fields, seps));
    AtJoined(s, pos, FieldText(field), c, RecordText(fields, seps));
  }

  /** The call that reads a field with a separator behind it. */
  lemma NextOfSeveral(sep: Separator, s: string, pos: nat, field: Field, c: char, rest: string)
    requires sep.EscapedList? && FieldOk(sep, field, false) && !QuoteAfter(field, false)
    requires sep.IsC(c) && !sep.IsEscape(c) && At(s, pos, FieldText(field) + ([c] + rest))
    ensures var e := pos + |FieldText(field)|;
            && e < |s| && Next(sep, s, pos) == Token(FieldValue(field), e + 1, sep.WithLast(true))
            && At(s, e + 1, rest)
  {
    AtJoined(s, pos, FieldText(field), c, rest);
    NextField(sep, s, pos, field);
  }

  /** What a well-formed record of several fields is made of. */
  lemma RecordParts(sep: Separator, fields: seq<Field>, seps: string)
    requires sep.EscapedList? && RecordOk(sep, fields, seps) && seps != ""
    ensures FieldOk(sep, fields[0], false) && !QuoteAfter(fields[0], false)
    ensures sep.IsC(seps[0]) && !sep.IsEscape(seps[0])
    ensures RecordOk(sep.WithLast(true), fields[1..], seps[1..])
    ensures RecordText(fields, seps) == FieldText(fields[0]) + ([seps[0]] + RecordText(fields[1..], seps[1..]))
  {
    RecordOkAnyLast(sep, fields[1..], seps[1..]);
  }

  /** A run over a written record returns the values of its fields, the blank one behind
      a final separator included. */
  lemma {:induction false} RunOverRecord(sep: Separator, s: string, pos: nat, fields: seq<Field>, seps: string)
    requires sep.EscapedList? && RecordOk(sep, fields, seps)
    requires At(s, pos, RecordText(fields, seps)) && pos + |RecordText(fields, seps)| == |s|
    requires pos < |s| || sep.last
    ensures RunsTo(sep, s, pos, Values(fields))
    decreases |fields|
  {
    if seps == "" {
      NextField(sep, s, pos, fields[0]);
      LastRun(sep, s, pos, fields);
    } else {
      RecordParts(sep, fields, seps);
      NextOfSeveral(sep, s, pos, fields[0], seps[0], RecordText(fields[1..], seps[1..]));
      RunOverRecord(sep.WithLast(true), s, pos + |FieldText(fields[0])| + 1, fields[1..], seps[1..]);
      ValuesCons(fields);
      RunsToCons(sep, s, pos, Values(fields));
    }
  }

  lemma ValuesCons(fields: seq<Field>)
    requires fields != []
    ensures Values(fields)[0] == FieldValue(fields[0]) && Values(fields)[1..] == Values(fields[1..])
  {
  }

  lemma LastRun(sep: Separator, s: string, pos: nat, fields: seq<Field>)
    requires sep.EscapedList? && |fields| == 1 && pos <= |s|
    requires Next(sep, s, pos) == Token(FieldValue(fields[0]), |s|, sep.WithLast(false))
    ensures RunsTo(sep, s, pos, Values(fields))
  {
    ValuesCons(fields);
    assert fields[1..] == [];
    assert RunsTo(sep.WithLast(false), s, |s|, []);
    RunsToCons(sep, s, pos, Values(fields));
  }

  lemma {:induction false} FieldOkAnyLast(sep: Separator, field: Field, inQuote: bool)
    requires sep.EscapedList? && FieldOk(sep, field, inQuote)
    ensures forall b: bool :: FieldOk(sep.WithLast(b), field, inQuote)
    decreases |field|
  {
    if field != [] {
      FieldOkAnyLast(sep, field[1..], inQuote != field[0].Toggle?);
      forall b: bool
        ensures FieldOk(sep.WithLast(b), field, inQuote)
      {
        assert ItemOk(sep.WithLast(b), field[0], inQuote);
      }
    }
  }

  lemma {:induction false} RecordOkAnyLast(sep: Separator, fields: seq<Field>, seps: string)
    requires sep.EscapedList? && RecordOk(sep, fields, seps)
    ensures forall b: bool :: RecordOk(sep.WithLast(b), fields, seps)
    decreases |fields|
  {
    FieldOkAnyLast(sep, fields[0], false);
    if seps != "" {
      RecordOkAnyLast(sep, fields[1..], seps[1..]);
    }
  }

  // ------------------------------------------------------ read, then written

  /** The field that the scanner walked over before it returned. */
  predicate Scanned(sep: Separator, s: string, pos: nat, inQuote: bool, tok: string, field: Field, r: Step)
    requires sep.EscapedList? && pos <= |s|
  {
    var e := pos + |FieldText(field)|;
    && FieldOk(sep, field, inQuote)
    && r.Token? && At(s, pos, FieldText(field)) && r.tok == tok + FieldValue(field)
    && if e == |s| then r.next == e && r.sep == sep
       else r.next == e + 1 && r.sep == sep.WithLast(true) && sep.IsC(s[e])
            && !sep.IsEscape(s[e]) && !QuoteAfter(field, inQuote)
  }

  /** The piece that stands at a position where the field goes on. */
  function ItemAt(sep: Separator, s: string, pos: nat): Item
    requires sep.EscapedList? && pos < |s| && (sep.IsEscape(s[pos]) ==> pos + 1 < |s|)
  {
    if sep.IsEscape(s[pos]) then Escaped(s[pos], s[pos + 1])
    else if !sep.IsC(s[pos]) && sep.IsQuote(s[pos]) then Toggle(s[pos])
    else Raw(s[pos])
  }

  lemma ScanItem(sep: Separator, s: string, pos: nat, inQuote: bool, tok: string)
    requires sep.EscapedList? && pos < |s| && Scan(sep, s, pos, inQuote, tok).Token?
    requires sep.IsEscape(s[pos]) || !sep.IsC(s[pos]) || inQuote
    ensures sep.IsEscape(s[pos]) ==> pos + 1 < |s|
    ensures var item := ItemAt(sep, s, pos);
            && ItemOk(sep, item, inQuote) && At(s, pos, ItemText(item))
            && Scan(sep, s, pos, inQuote, tok)
            == Scan(sep, s, pos + |ItemText(item)|, inQuote != item.Toggle?, tok + ItemValue(item))
  {
    assert tok + "" == tok;
  }

  lemma FieldCons(sep: Separator, item: Item, rest: Field, inQuote: bool)
    requires sep.EscapedList?
    ensures var field := [item] + rest;
            && FieldText(field) == ItemText(item) + FieldText(rest)
            && FieldValue(field) == ItemValue(item) + FieldValue(rest)
            && QuoteAfter(field, inQuote) == QuoteAfter(rest, inQuote != item.Toggle?)
            && FieldOk(sep, field, inQuote)
               == (ItemOk(sep, item, inQuote) && FieldOk(sep, rest, inQuote != item.Toggle?))
  {
    assert ([item] + rest)[1..] == rest;
  }

  lemma ScannedCons(sep: Separator, s: string, pos: nat, inQuote: bool, tok: string, item: Item, rest: Field, r: Step)
    requires sep.EscapedList? && ItemOk(sep, item, inQuote) && At(s, pos, ItemText(item))
    requires Scanned(sep, s, pos + |ItemText(item)|, inQuote != item.Toggle?, tok + ItemValue(item), rest, r)
    ensures Scanned(sep, s, pos, inQuote, tok, [item] + rest, r)
  {
    FieldCons(sep, item, rest, inQuote);
    AtConcat(s, pos, ItemText(item), FieldText(rest));
    AppendAssociative(tok, ItemValue(item), FieldValue(rest));
  }

  lemma ScannedEnd(sep: Separator, s: string, pos: nat, inQuote: bool, tok: string)
    requires sep.EscapedList? && !sep.last && pos <= |s|
    requires pos == |s| || (!sep.IsEscape(s[pos]) && sep.IsC(s[pos]) && !inQuote)
    ensures Scanned(sep, s, pos, inQuote, tok, [], Scan(sep, s, pos, inQuote, tok))
  {
    assert tok + "" == tok && s[pos..pos] == "";
  }

  /** Whatever the scanner returns a token for is a written field, up to the end of the
      input or to an unquoted separator. */
  lemma {:induction false} ScannedField(sep: Separator, s: string, pos: nat, inQuote: bool, tok: string)
    returns (field: Field)
    requires sep.EscapedList? && !sep.last && pos <= |s| && Scan(sep, s, pos, inQuote, tok).Token?
    ensures Scanned(sep, s, pos, inQuote, tok, field, Scan(sep, s, pos, inQuote, tok))
    decreases |s| - pos
  {
    if pos == |s| || (!sep.IsEscape(s[pos]) && sep.IsC(s[pos]) && !inQuote) {
      field := [];
      ScannedEnd(sep, s, pos, inQuote, tok);
    } else {
      ScanItem(sep, s, pos, inQuote, tok);
      var item := ItemAt(sep, s, pos);
      var rest := ScannedField(sep, s, pos + |ItemText(item)|, inQuote != item.Toggle?, tok + ItemValue(item));
      ScannedCons(sep, s, pos, inQuote, tok, item, rest, Scan(sep, s, pos, inQuote, tok));
      field := [item] + rest;
    }
  }

  /** The rest of the input from a position on is a written record with these values. */
  predicate ReadAs(sep: Separator, s: string, pos: nat, toks: seq<string>, fields: seq<Field>, seps: string)
    requires sep.EscapedList?
  {
    && RecordOk(sep, fields, seps) && Values(fields) == toks
    && At(s, pos, RecordText(fields, seps)) && pos + |RecordText(fields, seps)| == |s|
  }

  lemma SingleField(sep: Separator, s: string, pos: nat, field: Field)
    requires sep.EscapedList? && FieldOk(sep, field, false)
    requires At(s, pos, FieldText(field)) && pos + |FieldText(field)| == |s|
    ensures ReadAs(sep, s, pos, [FieldValue(field)], [field], "")
  {
    assert [field][1..] == [];
  }

  /** The field that a run has read first, and how the run goes on behind it. */
  lemma FirstOfRun(sep: Separator, s: string, pos: nat, toks: seq<string>) returns (field: Field)
    requires sep.EscapedList? && pos <= |s| && RunsTo(sep, s, pos, toks)
    requires pos < |s| || sep.last
    ensures FieldOk(sep, field, false) && At(s, pos, FieldText(field))
    ensures toks != [] && toks == [FieldValue(field)] + toks[1..]
    ensures var e := pos + |FieldText(field)|;
            if e == |s| then toks == [FieldValue(field)]
            else
              && sep.IsC(s[e]) && !sep.IsEscape(s[e]) && !QuoteAfter(field, false)
              && RunsTo(sep.WithLast(true), s, e + 1, toks[1..])
  {
    field := FirstField(sep, s, pos);
    RunsToTail(sep, s, pos, toks);
  }

  /** Every run that ends without an exception has read a record. */
  lemma {:induction false} RecordOfRun(sep: Separator, s: string, pos: nat, toks: seq<string>)
    returns (fields: seq<Field>, seps: string)
    requires sep.EscapedList? && pos <= |s| && RunsTo(sep, s, pos, toks)
    requires pos < |s| || sep.last
    ensures ReadAs(sep, s, pos, toks, fields, seps)
    decreases |toks|
  {
    var field := FirstOfRun(sep, s, pos, toks);
    var e := pos + |FieldText(field)|;
    if e == |s| {
      SingleField(sep, s, pos, field);
      fields, seps := [field], "";
    } else {
      fields, seps := RecordOfRun(sep.WithLast(true), s, e + 1, toks[1..]);
      RecordBuilt(sep, s, pos, field, toks[1..], fields, seps);
      fields, seps := [field] + fields, [s[e]] + seps;
    }
  }

  lemma RecordOkCons(sep: Separator, field: Field, c: char, fields: seq<Field>, seps: string)
    requires sep.EscapedList? && FieldOk(sep, field, false) && !QuoteAfter(field, false)
    requires sep.IsC(c) && !sep.IsEscape(c) && RecordOk(sep, fields, seps)
    ensures RecordOk(sep, [field] + fields, [c] + seps)
  {
    assert ([field] + fields)[1..] == fields && ([c] + seps)[1..] == seps;
  }

  /** A field, a separator and a record read make up a longer record. */
  lemma RecordBuilt(sep: Separator, s: string, pos: nat, field: Field,
                      toks: seq<string>, fields: seq<Field>, seps: string)
    requires sep.EscapedList? && FieldOk(sep, field, false) && !QuoteAfter(field, false)
    requires At(s, pos, FieldText(field))
    requires var e := pos + |FieldText(field)|;
             e < |s| && sep.IsC(s[e]) && !sep.IsEscape(s[e]) && ReadAs(sep.WithLast(true), s, e + 1, toks, fields, seps)
    ensures ReadAs(sep, s, pos, [FieldValue(field)] + toks, [field] + fields, [s[pos + |FieldText(field)|]] + seps)
  {
    var c := s[pos + |FieldText(field)|];
    RecordOkAnyLast(sep.WithLast(true), fields, seps);
    assert sep == sep.WithLast(true).WithLast(sep.last);
    RecordAt(s, pos, field, c, fields, seps);
    RecordOkCons(sep, field, c, fields, seps);
    assert ([field] + fields)[1..] == fields;
  }

  /** The field that a successful call has read. */
  lemma FirstField(sep: Separator, s: string, pos: nat) returns (field: Field)
    requires sep.EscapedList? && pos <= |s| && !Next(sep, s, pos).Thrown?
    requires pos < |s| || sep.last
    ensures FieldOk(sep, field, false) && At(s, pos, FieldText(field))
    ensures var e := pos + |FieldText(field)|;
            Next(sep, s, pos) ==
              if e == |s| then Token(FieldValue(field), e, sep.WithLast(false))
              else Token(FieldValue(field), e + 1, sep.WithLast(true))
    ensures var e := pos + |FieldText(field)|;
            e < |s| ==> sep.IsC(s[e]) && !sep.IsEscape(s[e]) && !QuoteAfter(field, false)
  {
    var base := sep.WithLast(false);
    assert sep == base.WithLast(sep.last);
    ScanAdvances(base, s, pos, false, "");
    field := ScannedField(base, s, pos, false, "");
    FieldOkAnyLast(base, field, false);
    assert "" + FieldValue(field) == FieldValue(field);
  }

  // ------------------------------------------------------------ main results

  ghost predicate Written(sep: Separator, s: string, toks: seq<string>)
    requires sep.EscapedList?
  {
    exists fields: seq<Field>, seps: string :: WrittenAs(sep, s, toks, fields, seps)
  }

  predicate WrittenAs(sep: Separator, s: string, toks: seq<string>, fields: seq<Field>, seps: string)
    requires sep.EscapedList?
  {
    RecordOk(sep, fields, seps) && RecordText(fields, seps) == s && Values(fields) == toks
  }

  /** The iterator yields a list exactly when the non-empty text is a writing of that list. */
  lemma YieldsExactlyWritten(sep: Separator, s: string, toks: seq<string>)
    requires sep.EscapedList? && s != ""
    ensures Yields(sep, s, toks) <==> Written(sep, s, toks)
  {
    var base := sep.WithLast(false);
    assert sep == base.WithLast(sep.last);
    AtWhole(s);
    if Yields(sep, s, toks) {
      var fields, seps := RecordOfRun(base, s, 0, toks);
      WholeAt(s, RecordText(fields, seps));
      RecordOkAnyLast(base, fields, seps);
      assert WrittenAs(sep, s, toks, fields, seps);
    }
    if Written(sep, s, toks) {
      var fields: seq<Field>, seps: string :| WrittenAs(sep, s, toks, fields, seps);
      RecordOkAnyLast(sep, fields, seps);
      RunOverRecord(base, s, 0, fields, seps);
    }
  }

  // ---------------------------------------------------------------- writers

  /** Writes a field by escaping every special character. */
  function PlainField(sep: Separator, esc: char, value: string): Field
    requires sep.EscapedList?
  {
    if value == "" then []
    else [if Escapable(sep, value[0]) then Escaped(esc, value[0]) else Raw(value[0])] + PlainField(sep, esc, value[1..])
  }

  /** What stands between the quotation marks: only escapes and quotation marks are escaped. */
  function QuotedBody(sep: Separator, esc: char, value: string): Field
    requires sep.EscapedList?
  {
    if value == "" then []
    else
      var item := if sep.IsEscape(value[0]) || sep.IsQuote(value[0]) then Escaped(esc, value[0]) else Raw(value[0]);
      [item] + QuotedBody(sep, esc, value[1..])
  }

  datatype Style = Plain | Quoted(mark: char)

  function Write(sep: Separator, esc: char, style: Style, value: string): Field
    requires sep.EscapedList?
  {
    match style
    case Plain => PlainField(sep, esc, value)
    case Quoted(mark) => [Toggle(mark)] + QuotedBody(sep, esc, value) + [Toggle(mark)]
  }

  predicate StyleOk(sep: Separator, style: Style)
    requires sep.EscapedList?
  {
    style.Quoted? ==> sep.IsQuote(style.mark) && !sep.IsEscape(style.mark) && !sep.IsC(style.mark)
  }

  /** The style would escape the letter n, which then reads as a line feed. */
  predicate EscapesN(sep: Separator, style: Style)
    requires sep.EscapedList?
  {
    sep.IsEscape('n') || sep.IsQuote('n') || (style.Plain? && sep.IsC('n'))
  }

  lemma {:induction false} PlainFieldWritten(sep: Separator, esc: char, value: string)
    requires sep.EscapedList? && sep.IsEscape(esc)
    ensures var f := PlainField(sep, esc, value);
            && FieldOk(sep, f, false) && !QuoteAfter(f, false)
            && (FieldValue(f) == value <==> !(Escapable(sep, 'n') && 'n' in value))
            && |FieldValue(f)| == |value|
  {
    if value != "" {
      PlainFieldWritten(sep, esc, value[1..]);
      assert PlainField(sep, esc, value)[1..] == PlainField(sep, esc, value[1..]);
      assert value == [value[0]] + value[1..];
    }
  }

  lemma {:induction false} QuotedBodyWritten(sep: Separator, esc: char, mark: char, value: string)
    requires sep.EscapedList? && sep.IsEscape(esc) && StyleOk(sep, Quoted(mark))
    ensures var f := QuotedBody(sep, esc, value) + [Toggle(mark)];
            && FieldOk(sep, f, true) && !QuoteAfter(f, true)
            && (FieldValue(f) == value <==> !((sep.IsEscape('n') || sep.IsQuote('n')) && 'n' in value))
            && |FieldValue(f)| == |value|
  {
    var f := QuotedBody(sep, esc, value) + [Toggle(mark)];
    if value == "" {
      assert f[1..] == [];
    } else {
      QuotedBodyWritten(sep, esc, mark, value[1..]);
      assert f[1..] == QuotedBody(sep, esc, value[1..]) + [Toggle(mark)];
      assert value == [value[0]] + value[1..];
    }
  }

  /** A written field means what was written, except for an n that had to be escaped. */
  lemma FieldWritten(sep: Separator, esc: char, style: Style, value: string)
    requires sep.EscapedList? && sep.IsEscape(esc) && StyleOk(sep, style)
    ensures var f := Write(sep, esc, style, value);
            && FieldOk(sep, f, false) && !QuoteAfter(f, false)
            && (FieldValue(f) == value <==> !(EscapesN(sep, style) && 'n' in value))
  {
    match style
    case Plain => PlainFieldWritten(sep, esc, value);
    case Quoted(mark) =>
      QuotedBodyWritten(sep, esc, mark, value);
      assert Write(sep, esc, style, value)[1..] == QuotedBody(sep, esc, value) + [Toggle(mark)];
      var v := FieldValue(QuotedBody(sep, esc, value) + [Toggle(mark)]);
      assert "" + v == v;
  }

  function WriteAll(sep: Separator, esc: char, styles: seq<Style>, values: seq<string>): seq<Field>
    requires sep.EscapedList? && |styles| == |values|
  {
    if values == [] then [] else [Write(sep, esc, styles[0], values[0])] + WriteAll(sep, esc, styles[1..], values[1..])
  }

  /** No field contains an n that its style would escape. */
  predicate Faithful(sep: Separator, styles: seq<Style>, values: seq<string>)
    requires sep.EscapedList? && |styles| == |values|
  {
    forall i :: 0 <= i < |values| ==> !(EscapesN(sep, styles[i]) && 'n' in values[i])
  }

  lemma {:induction false} AllWritten(sep: Separator, esc: char, styles: seq<Style>, values: seq<string>, seps: string)
    requires sep.EscapedList? && sep.IsEscape(esc) && |styles| == |values| == |seps| + 1
    requires forall i :: 0 <= i < |styles| ==> StyleOk(sep, styles[i])
    requires forall i :: 0 <= i < |seps| ==> sep.IsC(seps[i]) && !sep.IsEscape(seps[i])
    ensures var fields := WriteAll(sep, esc, styles, values);
            RecordOk(sep, fields, seps) && (Values(fields) == values <==> Faithful(sep, styles, values))
    decreases |values|
  {
    var fields := WriteAll(sep, esc, styles, values);
    FieldWritten(sep, esc, styles[0], values[0]);
    assert values == [values[0]] + values[1..];
    if seps == "" {
      assert values[1..] == [] && WriteAll(sep, esc, styles[1..], values[1..]) == [];
      assert fields == [Write(sep, esc, styles[0], values[0])];
      FaithfulSplit(sep, styles, values);
    } else {
      AllWritten(sep, esc, styles[1..], values[1..], seps[1..]);
      assert fields[1..] == WriteAll(sep, esc, styles[1..], values[1..]);
      FaithfulSplit(sep, styles, values);
    }
  }

  lemma FaithfulSplit(sep: Separator, styles: seq<Style>, values: seq<string>)
    requires sep.EscapedList? && |styles| == |values| >= 1
    ensures Faithful(sep, styles, values)
       <==> !(EscapesN(sep, styles[0]) && 'n' in values[0]) && Faithful(sep, styles[1..], values[1..])
  {
    if Faithful(sep, styles[1..], values[1..]) {
      forall i | 1 <= i < |values|
        ensures !(EscapesN(sep, styles[i]) && 'n' in values[i])
      {
        assert styles[i] == styles[1..][i - 1] && values[i] == values[1..][i - 1];
      }
    }
  }

  /** Write any list of fields, each in its own style and with any separator characters
      between them, and the iterator gives exactly that list back if, and only if, the
      text is not empty and no letter n had to be escaped. */
  lemma WriteThenTokenize(sep: Separator, esc: char, styles: seq<Style>, values: seq<string>, seps: string)
    requires sep.EscapedList? && sep.IsEscape(esc) && |styles| == |values| == |seps| + 1
    requires forall i :: 0 <= i < |styles| ==> StyleOk(sep, styles[i])
    requires forall i :: 0 <= i < |seps| ==> sep.IsC(seps[i]) && !sep.IsEscape(seps[i])
    ensures var fields := WriteAll(sep, esc, styles, values);
            |fields| == |seps| + 1 &&
            var text := RecordText(fields, seps);
            Yields(sep, text, values) <==> text != "" && Faithful(sep, styles, values)
  {
    var fields := WriteAll(sep, esc, styles, values);
    AllWritten(sep, esc, styles, values, seps);
    var text := RecordText(fields, seps);
    if text != "" {
      assert WrittenAs(sep, text, Values(fields), fields, seps);
      YieldsExactlyWritten(sep, text, Values(fields));
      if Yields(sep, text, values) {
        YieldsUnique(sep, text, values, Values(fields));
      }
    }
  }

  lemma SinglePieceField(item: Item)
    ensures FieldText([item]) == ItemText(item) && FieldValue([item]) == ItemValue(item)
  {
    assert [item][1..] == [];
    assert ItemText(item) + "" == ItemText(item) && ItemValue(item) + "" == ItemValue(item);
  }

  lemma SingleFieldRecord(field: Field)
    ensures Values([field]) == [FieldValue(field)] && RecordText([field], "") == FieldText(field)
  {
    assert [field][1..] == [];
  }

  /** With n as the separator, the field "n" is written as an escaped n and comes back as
      a line feed. */
  lemma EscapedNExample()
    ensures var sep := EscapedList("\\", "n", "\"", false);
            && RecordText(WriteAll(sep, '\\', [Plain], ["n"]), "") == "\\n"
            && Yields(sep, "\\n", ["\n"]) && !Yields(sep, "\\n", ["n"])
  {
    var sep := EscapedList("\\", "n", "\"", false);
    var fields := WriteAll(sep, '\\', [Plain], ["n"]);
    var piece := Escaped('\\', 'n');
    assert "n"[1..] == "" && PlainField(sep, '\\', "n") == [piece];
    assert ["n"][1..] == [] && [Plain][1..] == [] && WriteAll(sep, '\\', [], []) == [];
    assert fields == [[piece]];
    SinglePieceField(piece);
    SingleFieldRecord([piece]);
    AllWritten(sep, '\\', [Plain], ["n"], "");
    assert WrittenAs(sep, "\\n", ["\n"], fields, "");
    YieldsExactlyWritten(sep, "\\n", ["\n"]);
    WriteThenTokenize(sep, '\\', [Plain], ["n"], "");
    assert EscapesN(sep, [Plain][0]) && 'n' in ["n"][0];
  }
}
