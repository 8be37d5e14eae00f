/**
 The contract export's row printer and the import's row parser: section 2 of RFC 4180 with ';' as the separator.
 */
module CsvRow {

  const QUOTE: char := '"'
  const SEPARATOR: char := ';'

  /** Characters that make the printer quote a field. */
  predicate IsSpecial(c: char) { c == SEPARATOR || c == QUOTE || c == '\r' || c == '\n' }

  predicate NeedsQuotes(text: string) { exists i :: 0 <= i < |text| && IsSpecial(text[i]) }

  function DoubleQuotes(text: string): string {
    if text == "" then ""
    else (if text[0] == QUOTE then [QUOTE, QUOTE] else [text[0]]) + DoubleQuotes(text[1..])
  }

  /** `escapeCsv` */
  function Escape(text: string): string {
    if NeedsQuotes(text) then [QUOTE] + DoubleQuotes(text) + [QUOTE] else text
  }

  /** The row join of the export. */
  function Print(fields: seq<string>): string {
    if fields == [] then ""
    else if |fields| == 1 then Escape(fields[0])
    else Escape(fields[0]) + [SEPARATOR] + Print(fields[1..])
  }

  /** The parser as a machine over the remaining text: finished fields, current field, inside quotes or not. */
  function Parse(text: string, delimiter: char, done: seq<string>, current: string, inQuotes: bool): seq<string> {
    if text == "" then done + [current]
    else if text[0] == QUOTE then
      if inQuotes && |text| > 1 && text[1] == QUOTE
      then Parse(text[2..], delimiter, done, current + [QUOTE], true)
      else Parse(text[1..], delimiter, done, current, !inQuotes)
    else if text[0] == delimiter && !inQuotes then Parse(text[1..], delimiter, done + [current], "", false)
    else Parse(text[1..], delimiter, done, current + [text[0]], inQuotes)
  }

  /** `parseCsvRow` */
  method ParseRow(row: string, delimiter: char) returns (result: seq<string>)
    ensures result == Parse(row, delimiter, [], "", false)
  {
    result := [];
    var current, inQuotes, i := "", false, 0;
    while i < |row|
      invariant 0 <= i <= |row|
      invariant Parse(row, delimiter, [], "", false) == Parse(row[i..], delimiter, result, current, inQuotes)
    {
      var c := row[i];
      if c == QUOTE {
        if inQuotes && i + 1 < |row| && row[i + 1] == QUOTE {
          assert row[i..][2..] == row[i + 2..];
          current := current + [QUOTE];
          i := i + 1;
        } else {
          inQuotes := !inQuotes;
        }
      } else if c == delimiter && !inQuotes {
        result := result + [current];
        current := "";
      } else {
        current := current + [c];
      }
      i := i + 1;
    }
    result := result + [current];
  }

  /** What may follow a printed field: the end of the row or a separator. */
  predicate FieldEnds(rest: string) { rest == "" || rest[0] == SEPARATOR }

  lemma {:induction false} PlainField(text: string, rest: string, done: seq<string>, current: string)
    requires !NeedsQuotes(text)
    ensures Parse(text + rest, SEPARATOR, done, current, false) == Parse(rest, SEPARATOR, done, current + text, false)
  {
    if text == "" {
      assert text + rest == rest && current + text == current;
    } else {
      assert !IsSpecial(text[0]);
      assert (text + rest)[1..] == text[1..] + rest;
      assert forall i :: 0 <= i < |text[1..]| ==> text[1..][i] == text[i + 1];
      PlainField(text[1..], rest, done, current + [text[0]]);
      assert current + [text[0]] + text[1..] == current + text;
    }
  }

  lemma {:induction false} QuotedField(text: string, rest: string, done: seq<string>, current: string)
    requires FieldEnds(rest)
    ensures Parse(DoubleQuotes(text) + [QUOTE] + rest, SEPARATOR, done, current, true)
         == Parse(rest, SEPARATOR, done, current + text, false)
  {
    var printed := DoubleQuotes(text) + [QUOTE] + rest;
    if text == "" {
      assert printed == [QUOTE] + rest && printed[1..] == rest && current + text == current;
    } else {
      var tail := DoubleQuotes(text[1..]) + [QUOTE] + rest;
      if text[0] == QUOTE {
        assert printed == [QUOTE, QUOTE] + tail && printed[2..] == tail;
      } else {
        assert printed == [text[0]] + tail && printed[1..] == tail;
      }
      QuotedField(text[1..], rest, done, current + [text[0]]);
      assert current + [text[0]] + text[1..] == current + text;
    }
  }

  lemma OpeningQuote(body: string, done: seq<string>)
    ensures Parse([QUOTE] + body, SEPARATOR, done, "", false) == Parse(body, SEPARATOR, done, "", true)
  {
    assert ([QUOTE] + body)[1..] == body;
  }

  /** A printed field is read back as the field, whatever it contains. */
  lemma FieldRoundTrip(text: string, rest: string, done: seq<string>)
    requires FieldEnds(rest)
    ensures Parse(Escape(text) + rest, SEPARATOR, done, "", false) == Parse(rest, SEPARATOR, done, text, false)
  {
    hide Parse, DoubleQuotes;
    assert "" + text == text;
    if NeedsQuotes(text) {
      var body := DoubleQuotes(text) + [QUOTE] + rest;
      assert Escape(text) + rest == [QUOTE] + body;
      OpeningQuote(body, done);
      QuotedField(text, rest, done, "");
    } else {
      PlainField(text, rest, done, "");
    }
  }

  lemma {:induction false} RowRoundTrip(fields: seq<string>, done: seq<string>)
    requires fields != []
    ensures Parse(Print(fields), SEPARATOR, done, "", false) == done + fields
  {
    if |fields| == 1 {
      assert Escape(fields[0]) + "" == Escape(fields[0]);
      FieldRoundTrip(fields[0], "", done);
      assert done + fields == done + [fields[0]];
    } else {
      var rest := [SEPARATOR] + Print(fields[1..]);
      assert Print(fields) == Escape(fields[0]) + rest;
      FieldRoundTrip(fields[0], rest, done);
      assert rest[1..] == Print(fields[1..]);
      RowRoundTrip(fields[1..], done + [fields[0]]);
      assert done + [fields[0]] + fields[1..] == done + fields;
    }
  }

  /** Printing and parsing a row is the identity exactly on non-empty rows; the empty row reads back as one empty field. */
  lemma RoundTripExactly(fields: seq<string>)
    ensures Parse(Print(fields), SEPARATOR, [], "", false) == fields <==> fields != []
  {
    ReadsBack(fields);
  }

  /** So two rows print alike exactly when they are the same row, or the empty row and the row of one empty field. */
  lemma PrintsAlikeExactly(a: seq<string>, b: seq<string>)
    ensures Print(a) == Print(b) <==> a == b || (a in {[], [""]} && b in {[], [""]})
  {
    assert Print([]) == Print([""]) == "";
    ReadsBack(a);
    ReadsBack(b);
  }

  lemma ReadsBack(fields: seq<string>)
    ensures Parse(Print(fields), SEPARATOR, [], "", false) == if fields == [] then [""] else fields
  {
    if fields != [] {
      RowRoundTrip(fields, []);
      assert [] + fields == fields;
    }
  }

  // ---- the printed form ----

  function CountQuotes(text: string): nat {
    if text == "" then 0 else (if text[0] == '"' then 1 else 0) + CountQuotes(text[1..])
  }

  /** A field without a quote, a semicolon or a line break prints as it is; any other is quoted, its quotes doubled. */
  lemma EscapeExactly(text: string)
    ensures (forall i :: 0 <= i < |text| ==> text[i] !in {'"', ';', '\r', '\n'}) ==> Escape(text) == text
    ensures (exists i :: 0 <= i < |text| && text[i] in {'"', ';', '\r', '\n'}) ==>
              && |Escape(text)| == |text| + 2 + CountQuotes(text)
              && Escape(text)[0] == '"' && Escape(text)[|Escape(text)| - 1] == '"'
  {
    DoubledLength(text);
  }

  lemma {:induction false} DoubledLength(text: string)
    ensures |DoubleQuotes(text)| == |text| + CountQuotes(text)
  {
    if text != "" {
      DoubledLength(text[1..]);
    }
  }

  /** Fields are joined by a semicolon. */
  lemma PrintJoins(field: string, rest: seq<string>)
    ensures Print([field]) == Escape(field)
    ensures rest != [] ==> Print([field] + rest) == Escape(field) + ";" + Print(rest)
  {
    assert rest != [] ==> ([field] + rest)[1..] == rest;
  }

  // ---- other delimiters ----

  /** Fields joined by some delimiter. */
  function Join(fields: seq<string>, delimiter: char): string
    requires fields != []
  {
    if |fields| == 1 then fields[0] else fields[0] + [delimiter] + Join(fields[1..], delimiter)
  }

  predicate Clean(text: string, delimiter: char) { forall i :: 0 <= i < |text| ==> text[i] != QUOTE && text[i] != delimiter }

  lemma {:induction false} CleanField(text: string, rest: string, delimiter: char, done: seq<string>, current: string)
    requires Clean(text, delimiter)
    ensures Parse(text + rest, delimiter, done, current, false) == Parse(rest, delimiter, done, current + text, false)
  {
    if text == "" {
      assert text + rest == rest && current + text == current;
    } else {
      assert (text + rest)[1..] == text[1..] + rest;
      assert forall i :: 0 <= i < |text[1..]| ==> text[1..][i] == text[i + 1];
      CleanField(text[1..], rest, delimiter, done, current + [text[0]]);
      assert current + [text[0]] + text[1..] == current + text;
    }
  }

  /** The parser splits unquoted text at whatever delimiter it is given, and nowhere else. */
  lemma {:induction false} SplitsAtDelimiter(fields: seq<string>, delimiter: char, done: seq<string>)
    requires fields != [] && delimiter != QUOTE && forall i :: 0 <= i < |fields| ==> Clean(fields[i], delimiter)
    ensures Parse(Join(fields, delimiter), delimiter, done, "", false) == done + fields
  {
    var first := fields[0];
    assert "" + first == first;
    if |fields| == 1 {
      CleanField(first, "", delimiter, done, "");
      assert first + "" == first && done + fields == done + [first];
    } else {
      var rest := [delimiter] + Join(fields[1..], delimiter);
      assert first + [delimiter] + Join(fields[1..], delimiter) == first + rest;
      CleanField(first, rest, delimiter, done, "");
      assert rest[1..] == Join(fields[1..], delimiter);
      SplitsAtDelimiter(fields[1..], delimiter, done + [first]);
      assert done + [first] + fields[1..] == done + fields;
    }
  }
}
