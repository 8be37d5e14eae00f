/**
 `normalizeImportLine`: documents, dates, amounts and debt types of one mapped line. The ISO rendering of an Excel
 serial day is a parameter; case and blanks are ASCII.
 */
module ImportLine {
  import opened Wrappers
  import opened Text
  import CurrencyText

  predicate Blank(s: string) { Trim(s) == "" }

  // ---- one value ----

  function NormalDocument(raw: string): string {
    var d := CleanDocument(raw);
    if |d| == 15 && d[0] == '0' && All(d, IsDigit) then d[1..] else d
  }

  function FixDocument(v: string): string { if Blank(v) then v else NormalDocument(Trim(v)) }

  predicate IsIso(s: string) { |s| == 10 && IsDigit(s[0]) && s[4] == '-' && s[7] == '-' && IsDigit(s[9]) }

  /** Days since 1899-12-30 rendered as a date. */
  type SerialToIso = f: nat -> string | (forall n :: IsIso(f(n))) witness (n: nat) => "1900-01-01"

  predicate IsSlashDate(v: string) {
    && |v| == 10 && v[2] == '/' && v[5] == '/'
    && forall i :: 0 <= i < 10 && i != 2 && i != 5 ==> IsDigit(v[i])
  }

  /** The replacement for a trimmed date, or None to leave it. */
  function NormalDate(v: string, iso: SerialToIso): Option<string> {
    if |v| == 8 && All(v, IsDigit) then Some(v[..4] + "-" + v[4..6] + "-" + v[6..8])
    else if IsSlashDate(v) then Some(v[6..] + "-" + v[3..5] + "-" + v[..2])
    else if 1 <= |v| <= 5 && All(v, IsDigit) then
      var serial := CurrencyText.ValueOf(v);
      Some(if 20_000 <= serial <= 70_000 then iso(serial) else "")
    else None
  }

  function FixDate(v: string, iso: SerialToIso): string { if Blank(v) then v else GetOr(NormalDate(Trim(v), iso), v) }

  function FixAmount(v: string): string { if Blank(v) then v else CurrencyText.Normalize(Trim(v)) }

  function MapDebtType(t: string): string {
    if t == "INTERNET" || t == "TELEFONIA" || t == "TELECOMUNICACOES" then "TELECOM"
    else if t == "ENERGIA" || t == "AGUA" then "UTILITIES"
    else if t == "CONDOMINIO" then "CONDOMINIAL"
    else t
  }

  function FixDebtType(v: string): string { if Blank(v) then v else MapDebtType(Upper(Trim(v))) }

  // ---- the line ----

  datatype Field =
    | DebtorDocument | OccurrenceDate | DueDate | ProductAdhesionDate | CancelledAt
    | OriginalValue | UpdatedValue | DebtType | Other(name: string)

  type Line = map<Field, string>

  const DATE_FIELDS: seq<Field> := [OccurrenceDate, DueDate, ProductAdhesionDate, CancelledAt]
  const AMOUNT_FIELDS: seq<Field> := [OriginalValue, UpdatedValue]

  /** A field that is there and not blank. */
  predicate Filled(line: Line, f: Field) { f in line && !Blank(line[f]) }

  /** The rule of one field. */
  function Fix(f: Field, v: string, iso: SerialToIso): string {
    match f
    case DebtorDocument => FixDocument(v)
    case OriginalValue => FixAmount(v)
    case UpdatedValue => FixAmount(v)
    case DebtType => FixDebtType(v)
    case Other(_) => v
    case _ => FixDate(v, iso)
  }

  /** All fields by their own rule. */
  function FixAll(line: Line, iso: SerialToIso): Line { map f | f in line :: Fix(f, line[f], iso) }

  /** A single balance column serves as both values. */
  function FillUpdatedValue(line: Line): Line {
    if !Filled(line, UpdatedValue) && Filled(line, OriginalValue) then line[UpdatedValue := line[OriginalValue]] else line
  }

  /** The due date is the only debt date. */
  function SyncDates(line: Line): Line {
    if Filled(line, DueDate) then line[OccurrenceDate := line[DueDate]]
    else if Filled(line, OccurrenceDate) then line[DueDate := line[OccurrenceDate]]
    else line
  }

  function Normalize(line: Line, iso: SerialToIso): Line { SyncDates(FillUpdatedValue(FixAll(line, iso))) }

  /** Some fields by their own rule. */
  function FixSome(line: Line, fields: seq<Field>, iso: SerialToIso): Line {
    map f | f in line :: if f in fields then Fix(f, line[f], iso) else line[f]
  }

  /** A loop over field names. */
  method FixFields(line: Line, fields: seq<Field>, iso: SerialToIso) returns (normalized: Line)
    requires forall i, j :: 0 <= i < j < |fields| ==> fields[i] != fields[j]
    ensures normalized == FixSome(line, fields, iso)
  {
    hide Fix;
    normalized := line;
    for i := 0 to |fields|
      invariant normalized == FixSome(line, fields[..i], iso)
    {
      var f := fields[i];
      assert fields[..i + 1] == fields[..i] + [f];
      if f in normalized {
        normalized := normalized[f := Fix(f, normalized[f], iso)];
      }
    }
    assert fields[..|fields|] == fields;
  }

  /** `normalizeImportLine`, statement by statement over a copy of the dictionary. */
  method NormalizeImportLine(line: Line, iso: SerialToIso) returns (normalized: Line)
    ensures normalized == Normalize(line, iso)
  {
    hide Fix, Blank;
    normalized := FixFields(line, [DebtorDocument], iso);
    normalized := FixFields(normalized, DATE_FIELDS, iso);
    normalized := FixFields(normalized, AMOUNT_FIELDS, iso);
    ghost var before := normalized;
    if !Filled(normalized, UpdatedValue) && Filled(normalized, OriginalValue) {
      normalized := normalized[UpdatedValue := normalized[OriginalValue]];
    }
    if Filled(normalized, DueDate) {
      normalized := normalized[OccurrenceDate := normalized[DueDate]];
    } else if Filled(normalized, OccurrenceDate) {
      normalized := normalized[DueDate := normalized[OccurrenceDate]];
    }
    normalized := FixFields(normalized, [DebtType], iso);
    FieldsInAnyOrder(line, before, iso);
    DebtTypeLast(before, iso);
  }

  lemma FieldsInAnyOrder(line: Line, before: Line, iso: SerialToIso)
    requires before == FixSome(FixSome(FixSome(line, [DebtorDocument], iso), DATE_FIELDS, iso), AMOUNT_FIELDS, iso)
    ensures FixSome(before, [DebtType], iso) == FixAll(line, iso)
  {
    hide FixDocument, FixAmount, FixDate, FixDebtType;
    var r := FixSome(before, [DebtType], iso);
    forall f | f in line
      ensures f in r && r[f] == Fix(f, line[f], iso)
    {
    }
  }

  lemma DebtTypeLast(before: Line, iso: SerialToIso)
    ensures FixSome(SyncDates(FillUpdatedValue(before)), [DebtType], iso)
         == SyncDates(FillUpdatedValue(FixSome(before, [DebtType], iso)))
  {
    hide Fix, Blank;
  }

  // ---- each rule is idempotent ----

  lemma BlankEmpty()
    ensures Blank("")
  {
  }

  lemma NotBlank(s: string)
    requires s != "" && !IsSpace(s[0]) && !IsSpace(s[|s| - 1])
    ensures !Blank(s) && Trim(s) == s
  {
    TrimFixed(s);
  }

  lemma UpperAlnumFixed(s: string)
    requires All(s, IsUpperAlnum)
    ensures Upper(s) == s && Keep(s, IsUpperAlnum) == s && Trim(s) == s
  {
    hide Keep, Trim;
    KeepAll(s, IsUpperAlnum);
    assert forall i :: 0 <= i < |s| ==> IsUpperAlnum(s[i]) && UpperChar(s[i]) == s[i];
    assert s != "" ==> IsUpperAlnum(s[0]) && IsUpperAlnum(s[|s| - 1]);
    TrimFixed(s);
  }

  lemma DocumentIdempotent(v: string)
    ensures FixDocument(FixDocument(v)) == FixDocument(v)
  {
    hide Keep, Trim, Upper;
    if !Blank(v) {
      var d := Keep(Upper(Trim(v)), IsUpperAlnum);
      var r := FixDocument(v);
      assert All(r, IsUpperAlnum);
      UpperAlnumFixed(r);
    }
  }

  lemma DateShape(v: string, iso: SerialToIso)
    requires NormalDate(v, iso).Some?
    ensures NormalDate(v, iso).value == "" || IsIso(NormalDate(v, iso).value)
  {
  }

  lemma IsoLeftAlone(s: string, iso: SerialToIso)
    requires IsIso(s)
    ensures NormalDate(s, iso).None?
  {
    assert !IsDigit(s[4]);
  }

  lemma DateIdempotent(v: string, iso: SerialToIso)
    ensures FixDate(FixDate(v, iso), iso) == FixDate(v, iso)
  {
    hide NormalDate, Trim;
    if !Blank(v) && NormalDate(Trim(v), iso).Some? {
      var r := FixDate(v, iso);
      DateShape(Trim(v), iso);
      BlankEmpty();
      if r != "" {
        NotBlank(r);
        IsoLeftAlone(r, iso);
      }
    }
  }

  lemma AmountIdempotent(v: string)
    ensures FixAmount(FixAmount(v)) == FixAmount(v)
  {
    hide Trim, CurrencyText.Normalize;
    if !Blank(v) {
      TrimFixed(Trim(v));
      CurrencyText.NormalizeIdempotent(Trim(v));
      CurrencyText.NormalizeTrimmed(Trim(v));
    }
  }

  lemma TargetsFixed(t: string)
    requires t == "TELECOM" || t == "UTILITIES" || t == "CONDOMINIAL"
    ensures All(t, IsUpperAlnum) && MapDebtType(t) == t
  {
  }

  lemma UpperTrimmed(t: string)
    requires t == "" || (!IsSpace(t[0]) && !IsSpace(t[|t| - 1]))
    ensures Trim(Upper(t)) == Upper(t)
  {
    var u := Upper(t);
    assert t != "" ==> u[0] == UpperChar(t[0]) && u[|u| - 1] == UpperChar(t[|t| - 1]);
    TrimFixed(u);
  }

  lemma DebtTypeIdempotent(v: string)
    ensures FixDebtType(FixDebtType(v)) == FixDebtType(v)
  {
    hide Trim, Upper;
    if !Blank(v) {
      var u := Upper(Trim(v));
      var r := FixDebtType(v);
      UpperTrimmed(Trim(v));
      UpperIdempotent(Trim(v));
      if r != u {
        TargetsFixed(r);
        UpperAlnumFixed(r);
      }
    }
  }

  lemma FixIdempotent(f: Field, v: string, iso: SerialToIso)
    ensures Fix(f, Fix(f, v, iso), iso) == Fix(f, v, iso)
  {
    hide FixDocument, FixAmount, FixDate, FixDebtType;
    DocumentIdempotent(v);
    DateIdempotent(v, iso);
    AmountIdempotent(v);
    DebtTypeIdempotent(v);
  }

  // ---- the whole line ----

  /** Every field obeys its rule, and the two pairs agree. */
  predicate Normal(line: Line, iso: SerialToIso) {
    && (forall f :: f in line ==> Fix(f, line[f], iso) == line[f])
    && (Filled(line, UpdatedValue) || !Filled(line, OriginalValue))
    && (if Filled(line, DueDate) then OccurrenceDate in line && line[OccurrenceDate] == line[DueDate]
        else !Filled(line, OccurrenceDate))
  }

  lemma NormalizeIsNormal(line: Line, iso: SerialToIso)
    ensures Normal(Normalize(line, iso), iso)
  {
    hide FixDocument, FixAmount, FixDate, FixDebtType, Blank;
    var m := FixAll(line, iso);
    forall f | f in m
      ensures Fix(f, m[f], iso) == m[f]
    {
      FixIdempotent(f, line[f], iso);
    }
  }

  lemma NormalUnchanged(line: Line, iso: SerialToIso)
    requires Normal(line, iso)
    ensures Normalize(line, iso) == line
  {
    hide Fix, Blank;
    assert FixAll(line, iso) == line;
  }

  /** Normalising a normalised line changes nothing, on every input. */
  lemma NormalizeIdempotent(line: Line, iso: SerialToIso)
    ensures Normalize(Normalize(line, iso), iso) == Normalize(line, iso)
  {
    NormalizeIsNormal(line, iso);
    NormalUnchanged(Normalize(line, iso), iso);
  }

  // ---- what the rules say ----

  /** A slash date becomes its ISO form. */
  lemma SlashDatesRead(day: string, month: string, year: string, iso: SerialToIso)
    requires |year| == 4 && |month| == 2 && |day| == 2 && All(year, IsDigit) && All(month, IsDigit) && All(day, IsDigit)
    ensures Fix(DueDate, day + "/" + month + "/" + year, iso) == year + "-" + month + "-" + day
  {
    hide Trim, Blank, IsSlashDate;
    var v := day + "/" + month + "/" + year;
    assert v[6..] == year && v[3..5] == month && v[..2] == day;
    assert v[0] == day[0] && v[9] == year[3];
    NotBlank(v);
    SlashDate(day, month, year);
  }

  /** So does a compact date. */
  lemma CompactDatesRead(year: string, month: string, day: string, iso: SerialToIso)
    requires |year| == 4 && |month| == 2 && |day| == 2 && All(year, IsDigit) && All(month, IsDigit) && All(day, IsDigit)
    ensures Fix(DueDate, year + month + day, iso) == year + "-" + month + "-" + day
  {
    hide Trim, Blank, IsSlashDate;
    var v := year + month + day;
    assert v[..4] == year && v[4..6] == month && v[6..8] == day;
    assert v[0] == year[0] && v[7] == day[1];
    NotBlank(v);
    assert forall i :: 0 <= i < 8 ==> v[i] == if i < 4 then year[i] else if i < 6 then month[i - 4] else day[i - 6];
  }

  lemma SlashDate(day: string, month: string, year: string)
    requires |year| == 4 && |month| == 2 && |day| == 2 && All(year, IsDigit) && All(month, IsDigit) && All(day, IsDigit)
    ensures IsSlashDate(day + "/" + month + "/" + year)
  {
    var v := day + "/" + month + "/" + year;
    forall i | 0 <= i < 10 && i != 2 && i != 5
      ensures IsDigit(v[i])
    {
      if i < 2 {
        assert v[i] == day[i];
      } else if i < 5 {
        assert v[i] == month[i - 3];
      } else {
        assert v[i] == year[i - 6];
      }
    }
  }

  /** Spreadsheet serials of plausible days are rendered, other short numbers are dropped, and text of any other form stays. */
  lemma SerialsRead(digits: string, iso: SerialToIso)
    requires 1 <= |digits| <= 5 && All(digits, IsDigit)
    ensures var n := CurrencyText.ValueOf(digits);
            Fix(DueDate, digits, iso) == if 20_000 <= n <= 70_000 then iso(n) else ""
  {
    assert IsDigit(digits[0]) && IsDigit(digits[|digits| - 1]);
    NotBlank(digits);
    hide Trim, Blank, CurrencyText.ValueOf;
  }

  lemma OtherDatesStay(v: string, iso: SerialToIso)
    requires v != "" && !IsSpace(v[0]) && !IsSpace(v[|v| - 1])
    requires (exists i :: 0 <= i < |v| && !IsDigit(v[i]) && v[i] != '/') || |v| > 10
    ensures Fix(DueDate, v, iso) == v
  {
    NotBlank(v);
    hide Trim, Blank;
    if i :| 0 <= i < |v| && !IsDigit(v[i]) && v[i] != '/' {
      assert !All(v, IsDigit);
    }
  }

  /** All date fields and both amount fields share one rule each; free columns are left alone. */
  lemma RulesShared(v: string, iso: SerialToIso)
    ensures Fix(OccurrenceDate, v, iso) == Fix(DueDate, v, iso) == Fix(ProductAdhesionDate, v, iso) == Fix(CancelledAt, v, iso)
    ensures Fix(OriginalValue, v, iso) == Fix(UpdatedValue, v, iso) == if Blank(v) then v else CurrencyText.Normalize(Trim(v))
    ensures forall name :: Fix(Other(name), v, iso) == v
  {
    hide FixDate, Trim, Blank, CurrencyText.Normalize;
  }

  /** Debt types: capitals, and the synonyms of three sectors. */
  lemma DebtTypesRead(v: string, iso: SerialToIso)
    requires !Blank(v)
    ensures var t, r := Upper(Trim(v)), Fix(DebtType, v, iso);
            && (t in {"INTERNET", "TELEFONIA", "TELECOMUNICACOES"} ==> r == "TELECOM")
            && (t in {"ENERGIA", "AGUA"} ==> r == "UTILITIES")
            && (t == "CONDOMINIO" ==> r == "CONDOMINIAL")
            && (t !in {"INTERNET", "TELEFONIA", "TELECOMUNICACOES", "ENERGIA", "AGUA", "CONDOMINIO"} ==> r == t)
  {
    hide Trim, Upper, Blank;
  }

  /** Documents: letters and digits in capitals; a zero that pads a 14-digit document to 15 goes. */
  lemma DocumentsRead(v: string, iso: SerialToIso)
    requires !Blank(v)
    ensures var d, r := Keep(Upper(Trim(v)), IsUpperAlnum), Fix(DebtorDocument, v, iso);
            if |d| == 15 && d[0] == '0' && All(d, IsDigit) then "0" + r == d else r == d
  {
    hide Trim, Upper, Keep, Blank;
    var d := Keep(Upper(Trim(v)), IsUpperAlnum);
    assert |d| == 15 && d[0] == '0' ==> d == "0" + d[1..];
  }

  /** A value is blank exactly when it has nothing but spaces. */
  lemma BlankExactly(v: string)
    ensures Blank(v) <==> forall i :: 0 <= i < |v| ==> v[i] in {' ', '\t', '\r', '\n'}
  {
    TrimsToNothing(v);
    hide Trim;
  }

  /** Blank values stay as they are, whatever the field. */
  lemma BlanksStay(f: Field, v: string, iso: SerialToIso)
    requires Blank(v)
    ensures Fix(f, v, iso) == v
  {
  }

  /**
   The whole line: every column by its rule, except that a filled due date also is the debt date, or else a filled debt
   date the due date, and that an unfilled updated value takes a filled original one. No other column comes or goes.
   */
  lemma NormalizeExactly(line: Line, iso: SerialToIso)
    ensures var n := Normalize(line, iso);
            var due := DueDate in line && !Blank(Fix(DueDate, line[DueDate], iso));
            var debt := OccurrenceDate in line && !Blank(Fix(OccurrenceDate, line[OccurrenceDate], iso));
            var updated := UpdatedValue in line && !Blank(Fix(UpdatedValue, line[UpdatedValue], iso));
            var original := OriginalValue in line && !Blank(Fix(OriginalValue, line[OriginalValue], iso));
            && (forall f :: f in line ==> f in n)
            && (forall f :: f in n && f !in line ==> f in {DueDate, OccurrenceDate, UpdatedValue})
            && (forall f :: f in line && f !in {DueDate, OccurrenceDate, UpdatedValue} ==> n[f] == Fix(f, line[f], iso))
            && (due || debt ==> DueDate in n && OccurrenceDate in n && n[DueDate] == n[OccurrenceDate])
            && (due ==> n[DueDate] == Fix(DueDate, line[DueDate], iso))
            && (!due && debt ==> n[OccurrenceDate] == Fix(OccurrenceDate, line[OccurrenceDate], iso))
            && (!due && !debt ==> (forall f :: f in {DueDate, OccurrenceDate} ==>
                                     && (f in n <==> f in line)
                                     && (f in line ==> n[f] == Fix(f, line[f], iso))))
            && (updated ==> n[UpdatedValue] == Fix(UpdatedValue, line[UpdatedValue], iso))
            && (!updated && original ==> UpdatedValue in n && n[UpdatedValue] == Fix(OriginalValue, line[OriginalValue], iso))
            && (!updated && !original ==> (UpdatedValue in n <==> UpdatedValue in line)
                                          && (UpdatedValue in line ==> n[UpdatedValue] == Fix(UpdatedValue, line[UpdatedValue], iso)))
  {
    hide Fix, Blank;
  }
}
