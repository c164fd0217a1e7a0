/** The reconciliation core of `CSVReader`: from a MemberPress export and a
    Genius Referrals export, the MemberPress users whose email is not yet an
    advocate, laid out as a Genius Referrals import file; and the summary
    counts of `get_csv_info`. */
module CsvReader {
  import opened Tables
  import opened Text

  // ---------------------------------------------------------------------------
  // Output schema and required columns
  // ---------------------------------------------------------------------------

  /** The import file's header, in order. The spaces inside the names and the
      right single quotation mark (U+2019) in the eighth are part of the format. */
  const MissingMemberOutputColumns: seq<string> := [
    "First Name",
    "Last name ",
    "Email",
    " Payout threshold",
    " Currency code",
    "Member type",
    "Campaign slug  (optional)",
    "Referrer\U{2019}s email (optional)",
    " note (optional)"
  ]

  /** The columns the MemberPress export must have, listed in sorted order. */
  const RequiredMemberpressColumns: seq<string> := ["email", "first_name", "last_name"]

  const AdvocateEmailColumn: string := "ADVOCATE_EMAIL"

  /** The six columns the import file fills with a constant, in assignment order. */
  const ConstantColumns: seq<(string, Cell)> := [
    (" Payout threshold", Int(1)),
    (" Currency code", Str("USD")),
    ("Member type", Str("ADVOCATE")),
    ("Campaign slug  (optional)", Str("")),
    ("Referrer\U{2019}s email (optional)", Str("")),
    (" note (optional)", Str(""))
  ]

  // ---------------------------------------------------------------------------
  // Schema errors
  // ---------------------------------------------------------------------------

  /** The `ValueError`s `find_missing_members` raises. */
  datatype SchemaError =
    | MemberpressColumnsMissing(missing: seq<string>)
    | AdvocateColumnMissing

  datatype Outcome = Ok(table: Table) | Failed(error: SchemaError)

  /** Python's `<` on `str`: lexicographic by code point. */
  predicate StrLess(a: string, b: string)
  {
    if |a| == 0 then |b| > 0
    else if |b| == 0 then false
    else if a[0] != b[0] then a[0] < b[0]
    else StrLess(a[1..], b[1..])
  }

  predicate StrictlySorted(names: seq<string>)
  {
    forall i, j :: 0 <= i < j < |names| ==> StrLess(names[i], names[j])
  }

  lemma {:induction false} StrLessAsymmetric(a: string, b: string)
    ensures !(StrLess(a, b) && StrLess(b, a))
  {
    if |a| > 0 && |b| > 0 && a[0] == b[0] {
      StrLessAsymmetric(a[1..], b[1..]);
    }
  }

  lemma HeadIsMember<T>(s: seq<T>)
    ensures |s| > 0 ==> s[0] in s
  {
  }

  /** A set of strings has exactly one strictly sorted enumeration, so any
      such list is what Python's `sorted` returns for that set. */
  lemma {:induction false} SortedUnique(a: seq<string>, b: seq<string>)
    requires StrictlySorted(a) && StrictlySorted(b)
    requires forall x :: x in a <==> x in b
    ensures a == b
  {
    if |a| == 0 {
      HeadIsMember(b);
    } else {
      assert a[0] in b;
      assert |b| > 0 && b[0] in a;
      var k :| 0 <= k < |b| && b[k] == a[0];
      var m :| 0 <= m < |a| && a[m] == b[0];
      StrLessAsymmetric(a[0], b[0]);
      StrLessAsymmetric(a[0], a[0]);
      assert b[0] == a[0];
      forall x
        ensures x in a[1..] <==> x in b[1..]
      {
        if x in a[1..] {
          var i :| 1 <= i < |a| && a[i] == x;
          assert StrLess(a[0], x);
          assert x in a && x in b;
          var i' :| 0 <= i' < |b| && b[i'] == x;
          assert i' != 0;
          assert b[1..][i' - 1] == x;
        }
        if x in b[1..] {
          var i :| 1 <= i < |b| && b[i] == x;
          assert StrLess(b[0], x);
          assert x in b && x in a;
          var i' :| 0 <= i' < |a| && a[i'] == x;
          assert i' != 0;
          assert a[1..][i' - 1] == x;
        }
      }
      SortedUnique(a[1..], b[1..]);
      assert a == [a[0]] + a[1..];
      assert b == [b[0]] + b[1..];
    }
  }

  /** The required names absent from the header, in the order of `required`. */
  function MissingColumns(required: seq<string>, present: seq<string>): (missing: seq<string>)
    ensures forall c :: c in missing <==> c in required && c !in present
    ensures StrictlySorted(required) ==> StrictlySorted(missing)
  {
    if required == [] then []
    else
      var rest := MissingColumns(required[1..], present);
      assert StrictlySorted(required) ==> forall c :: c in rest ==> StrLess(required[0], c);
      (if required[0] in present then [] else [required[0]]) + rest
  }

  /** `", ".join(parts)` */
  function Join(parts: seq<string>, separator: string): string
  {
    if |parts| == 0 then ""
    else if |parts| == 1 then parts[0]
    else parts[0] + separator + Join(parts[1..], separator)
  }

  /** A join starts with the first part and ends with the last. */
  lemma {:induction false} JoinEnds(parts: seq<string>, separator: string)
    ensures |parts| > 0 ==>
            var r := Join(parts, separator);
            && parts[0] <= r
            && var last := parts[|parts| - 1];
               |last| <= |r| && r[|r| - |last|..] == last
  {
    if |parts| > 1 {
      JoinEnds(parts[1..], separator);
      var rest := Join(parts[1..], separator);
      var r := Join(parts, separator);
      assert r == parts[0] + separator + rest;
      assert r[|r| - |rest|..] == rest;
    }
  }

  const MemberpressErrorPrefix := "MemberPress CSV missing required columns: "
  const AdvocateErrorPrefix := "Genius Referrals CSV missing required column: "

  /** The text of the raised `ValueError`. The opening words tell which export
      is deficient, and the text ends with the name of the last missing column. */
  function Message(e: SchemaError): (text: string)
    ensures e.MemberpressColumnsMissing? <==> MemberpressErrorPrefix <= text
    ensures e.AdvocateColumnMissing? <==> AdvocateErrorPrefix <= text
    ensures e.AdvocateColumnMissing? ==> var n := |AdvocateEmailColumn|;
                                         n <= |text| && text[|text| - n..] == AdvocateEmailColumn
    ensures e.MemberpressColumnsMissing? && e.missing != [] ==>
              var last := e.missing[|e.missing| - 1];
              |last| <= |text| && text[|text| - |last|..] == last
  {
    match e
    case MemberpressColumnsMissing(missing) =>
      var text := MemberpressErrorPrefix + Join(missing, ", ");
      JoinEnds(missing, ", ");
      assert text[41] == ' ' != AdvocateErrorPrefix[41];
      text
    case AdvocateColumnMissing =>
      var text := AdvocateErrorPrefix + AdvocateEmailColumn;
      assert text[41] == 'u' != MemberpressErrorPrefix[41];
      assert text[|AdvocateErrorPrefix|..] == AdvocateEmailColumn;
      text
  }

  // ---------------------------------------------------------------------------
  // Email normalisation (`_normalize_email_series`)
  // ---------------------------------------------------------------------------

  /** `n` in decimal: digits only, and no leading zero unless `n` is zero. */
  function DecimalDigits(n: nat): (d: string)
    ensures |d| > 0 && forall i :: 0 <= i < |d| ==> '0' <= d[i] <= '9'
    ensures n > 0 ==> d[0] != '0'
  {
    if n < 10 then [('0' as int + n) as char]
    else DecimalDigits(n / 10) + [('0' as int + n % 10) as char]
  }

  /** The number a run of decimal digits spells. */
  function DigitsValue(d: string): int
  {
    if d == [] then 0 else 10 * DigitsValue(d[..|d| - 1]) + (d[|d| - 1] as int - '0' as int)
  }

  /** The digits of `n` spell `n`. */
  lemma {:induction false} DecimalDigitsValue(n: nat)
    ensures DigitsValue(DecimalDigits(n)) == n
  {
    if n >= 10 {
      DecimalDigitsValue(n / 10);
      assert DecimalDigits(n)[..|DecimalDigits(n)| - 1] == DecimalDigits(n / 10);
    }
  }

  /** `fillna("")` followed by `astype(str)` for one cell. */
  function Render(c: Cell): (s: string)
    ensures c.Null? ==> s == ""
    ensures c.Str? ==> s == c.text
    ensures c.Int? ==> |s| > 0 && (c.value < 0 <==> s[0] == '-')
    ensures c.Int? ==> var digits := if c.value < 0 then s[1..] else s;
                       && |digits| > 0 && (forall i :: 0 <= i < |digits| ==> '0' <= digits[i] <= '9')
                       && (c.value != 0 ==> digits[0] != '0')
  {
    match c
    case Null => ""
    case Str(s) => s
    case Int(n) => if n < 0 then "-" + DecimalDigits(-n) else DecimalDigits(n)
  }

  /** Reading a rendered integer back: an optional `-`, then its digits. */
  function ReadInt(s: string): int
  {
    if |s| > 0 && s[0] == '-' then -DigitsValue(s[1..]) else DigitsValue(s)
  }

  /** A rendered integer reads back as the integer: its digits spell the
      magnitude, after a `-` exactly when it is negative. */
  lemma RenderedIntValue(n: int)
    ensures ReadInt(Render(Int(n))) == n
  {
    if n < 0 {
      var d := DecimalDigits(-n);
      DecimalDigitsValue(-n);
      assert Render(Int(n)) == ['-'] + d;
      assert (['-'] + d)[1..] == d;
    } else {
      var d := DecimalDigits(n);
      DecimalDigitsValue(n);
      assert Render(Int(n)) == d && d[0] != '-';
    }
  }

  /** A comparison key: no surrounding whitespace and no ASCII capital letter.
      Other capitals are left as they are, since case mapping covers ASCII only. */
  predicate IsKey(key: string)
  {
    && (key == [] || (!IsSpace(key[0]) && !IsSpace(key[|key| - 1])))
    && forall i :: 0 <= i < |key| ==> !('A' <= key[i] <= 'Z')
  }

  /** `.str.strip().str.lower()` for one value. */
  function NormalizeText(s: string): (t: string)
    ensures |t| <= |s|
  {
    TrimStartShape(s);
    TrimEndShape(TrimStart(s));
    LowerString(Strip(s))
  }

  /** The comparison key of one email cell: rendered, stripped, lower-cased.
      An absent cell has the empty key. */
  function NormalizeEmail(c: Cell): (key: string)
    ensures c.Null? ==> key == ""
    ensures c.Str? ==> |key| <= |c.text|
  {
    NormalizeText(Render(c))
  }

  /** Every key is stripped and has no ASCII capital letter. */
  lemma NormalizedIsKey(c: Cell)
    ensures IsKey(NormalizeEmail(c))
  {
    var s := Render(c);
    TrimStartShape(s);
    var u := TrimStart(s);
    TrimEndShape(u);
    var r := TrimEnd(u);
    assert r == [] || (!IsSpace(r[0]) && !IsSpace(r[|r| - 1])) by {
      if r != [] {
        assert r[0] == u[0];
      }
    }
    if r != [] {
      LowerKeepsSpace(r[0]);
      LowerKeepsSpace(r[|r| - 1]);
    }
  }

  /** Text that is already a key is its own key: normalising keys changes
      nothing (under the ASCII case mapping). */
  lemma KeyIsItsOwnKey(s: string)
    requires IsKey(s)
    ensures NormalizeEmail(Str(s)) == s
  {
    assert TrimStart(s) == s;
    assert TrimEnd(s) == s;
  }

  /** `_normalize_email_series(df[column])`: one key per row, in row order, with
      the empty key for every row whose cell is absent. */
  function NormalizeEmailSeries(rows: seq<Row>, column: string): (keys: seq<string>)
    ensures |keys| == |rows|
    ensures forall i :: 0 <= i < |keys| && CellAt(rows[i], column) == Null ==> keys[i] == ""
  {
    seq(|rows|, i requires 0 <= i < |rows| => NormalizeEmail(CellAt(rows[i], column)))
  }

  /** A key is in the normalised series exactly when some cell of the column has it. */
  lemma InNormalizedSeries(rows: seq<Row>, column: string, key: string)
    ensures key in NormalizeEmailSeries(rows, column)
            <==> exists k :: 0 <= k < |rows| && NormalizeEmail(CellAt(rows[k], column)) == key
  {
    var series := NormalizeEmailSeries(rows, column);
    if key in series {
      var k :| 0 <= k < |series| && series[k] == key;
      assert NormalizeEmail(CellAt(rows[k], column)) == key;
    }
    if exists k :: 0 <= k < |rows| && NormalizeEmail(CellAt(rows[k], column)) == key {
      var k :| 0 <= k < |rows| && NormalizeEmail(CellAt(rows[k], column)) == key;
      assert series[k] == key;
    }
  }

  /** Normalising a normalised email changes nothing. */
  lemma NormalizeIdempotent(c: Cell)
    ensures NormalizeEmail(Str(NormalizeEmail(c))) == NormalizeEmail(c)
  {
    var s := Strip(Render(c));
    StripIdempotent(Render(c));
    LowerStrip(s);
    LowerIdempotent(s);
  }

  /** The key ignores letter case: two texts equal up to case get one key. */
  lemma NormalizeIgnoresCase(a: string, b: string)
    requires LowerString(a) == LowerString(b)
    ensures NormalizeEmail(Str(a)) == NormalizeEmail(Str(b))
  {
    LowerStrip(a);
    LowerStrip(b);
  }

  /** The key ignores whitespace around the value. */
  lemma NormalizeIgnoresPadding(p: string, e: string, q: string)
    requires AllSpace(p) && AllSpace(q)
    ensures NormalizeEmail(Str(p + e + q)) == NormalizeEmail(Str(e))
  {
    StripPadded(p, e, q);
  }

  /** `normalize(" " + e.upper() + " ") == normalize(e.lower())` */
  lemma NormalizeUpperPadded(e: string)
    ensures NormalizeEmail(Str(" " + UpperString(e) + " ")) == NormalizeEmail(Str(LowerString(e)))
  {
    NormalizeIgnoresPadding(" ", UpperString(e), " ");
    LowerOfUpper(e);
    LowerIdempotent(e);
    NormalizeIgnoresCase(UpperString(e), LowerString(e));
  }

  /** Absent cells and blank text share the empty key. */
  lemma NormalizeBlank(c: Cell)
    requires c == Null || (c.Str? && AllSpace(c.text))
    ensures NormalizeEmail(c) == ""
  {
    var s := Render(c);
    assert AllSpace(s);
    StripAllSpace(s);
    assert LowerString([]) == [];
  }

  // ---------------------------------------------------------------------------
  // Set difference, selection and projection: the specification
  // ---------------------------------------------------------------------------

  /** `~memberpress_emails.isin(genius_emails)` */
  function MissingMask(memberpressEmails: seq<string>, geniusEmails: seq<string>): seq<bool>
  {
    seq(|memberpressEmails|, i requires 0 <= i < |memberpressEmails| => memberpressEmails[i] !in geniusEmails)
  }

  /** The positions `.loc[mask]` keeps, in increasing order. */
  function TrueIndices(mask: seq<bool>): (indices: seq<nat>)
    ensures forall j :: 0 <= j < |indices| ==> indices[j] < |mask| && mask[indices[j]]
    ensures forall j, k :: 0 <= j < k < |indices| ==> indices[j] < indices[k]
    ensures |indices| <= |mask|
  {
    if |mask| == 0 then []
    else
      var last := |mask| - 1;
      TrueIndices(mask[..last]) + (if mask[last] then [last] else [])
  }

  /** Every set position of the mask is kept. */
  lemma {:induction false} TrueIndicesComplete(mask: seq<bool>, i: nat)
    requires i < |mask| && mask[i]
    ensures i in TrueIndices(mask)
  {
    var last := |mask| - 1;
    if i < last {
      assert mask[..last][i] == mask[i];
      TrueIndicesComplete(mask[..last], i);
    }
  }

  /** Extending the mask by one position appends that position when it is set. */
  lemma TrueIndicesStep(mask: seq<bool>, i: nat)
    requires i < |mask|
    ensures TrueIndices(mask[..i + 1]) == TrueIndices(mask[..i]) + (if mask[i] then [i] else [])
  {
    assert mask[..i + 1][..i] == mask[..i];
  }

  /** The MemberPress columns the import copies, in the order they are selected. */
  const CopiedColumns := ["first_name", "last_name", "email"]

  /** The three copied columns under their import names (the `rename`): the
      j-th copied column becomes the j-th import column, and nothing else is kept. */
  function Renamed(row: Row): (r: Row)
    ensures forall c :: c in r <==> c in MissingMemberOutputColumns[..3]
    ensures forall j :: 0 <= j < 3 ==> r[MissingMemberOutputColumns[j]] == CellAt(row, CopiedColumns[j])
  {
    assert MissingMemberOutputColumns[..3] == ["First Name", "Last name ", "Email"];
    map["First Name" := CellAt(row, "first_name"),
        "Last name " := CellAt(row, "last_name"),
        "Email" := CellAt(row, "email")]
  }

  /** `row` after the first `k` constant-column assignments. */
  function Assigned(row: Row, k: nat): Row
    requires k <= |ConstantColumns|
  {
    if k == 0 then row
    else Assigned(row, k - 1)[ConstantColumns[k - 1].0 := ConstantColumns[k - 1].1]
  }

  /** The import row built from one missing MemberPress row. */
  function OutputRow(row: Row): Row
  {
    Assigned(Renamed(row), |ConstantColumns|)
  }

  /** The positions of the MemberPress rows missing from Genius Referrals. */
  function MissingMemberIndices(memberpress: Table, genius: Table): (kept: seq<nat>)
    ensures forall j :: 0 <= j < |kept| ==> kept[j] < |memberpress.rows|
    ensures forall j, k :: 0 <= j < k < |kept| ==> kept[j] < kept[k]
  {
    var memberpressEmails := NormalizeEmailSeries(memberpress.rows, "email");
    var geniusEmails := NormalizeEmailSeries(genius.rows, AdvocateEmailColumn);
    TrueIndices(MissingMask(memberpressEmails, geniusEmails))
  }

  /** What `find_missing_members` returns or raises for two loaded exports. */
  function Reconciled(memberpress: Table, genius: Table): (r: Outcome)
    ensures r.Failed? && r.error.MemberpressColumnsMissing? ==>
              && r.error.missing != []
              && forall c :: c in r.error.missing ==> c in RequiredMemberpressColumns && c !in memberpress.columns
    ensures r.Failed? && r.error.AdvocateColumnMissing? ==>
              && AdvocateEmailColumn !in genius.columns
              && forall c :: c in RequiredMemberpressColumns ==> c in memberpress.columns
    ensures r.Ok? ==>
              && r.table.columns == MissingMemberOutputColumns
              && |r.table.rows| <= |memberpress.rows|
              && AdvocateEmailColumn in genius.columns
              && forall c :: c in RequiredMemberpressColumns ==> c in memberpress.columns
  {
    var missing := MissingColumns(RequiredMemberpressColumns, memberpress.columns);
    if missing != [] then Failed(MemberpressColumnsMissing(missing))
    else if AdvocateEmailColumn !in genius.columns then Failed(AdvocateColumnMissing)
    else
      var kept := MissingMemberIndices(memberpress, genius);
      Ok(Table(MissingMemberOutputColumns,
               seq(|kept|, j requires 0 <= j < |kept| => OutputRow(memberpress.rows[kept[j]]))))
  }

  // ---------------------------------------------------------------------------
  // The operation, step by step as the source builds its result
  // ---------------------------------------------------------------------------

  /** `.loc[missing_mask, ["first_name", "last_name", "email"]]` followed by the
      `rename`: the rows whose key is not among the Genius Referrals keys, in
      order, under their import names. */
  method SelectMissing(memberpressRows: seq<Row>, memberpressEmails: seq<string>, geniusEmails: seq<string>)
    returns (rows: seq<Row>)
    requires |memberpressEmails| == |memberpressRows|
    ensures var kept := TrueIndices(MissingMask(memberpressEmails, geniusEmails));
            && |rows| == |kept|
            && forall j :: 0 <= j < |rows| ==> rows[j] == Renamed(memberpressRows[kept[j]])
  {
    ghost var mask := MissingMask(memberpressEmails, geniusEmails);
    rows := [];
    ghost var kept: seq<nat> := [];
    var i := 0;
    while i < |memberpressRows|
      invariant 0 <= i <= |memberpressRows|
      invariant kept == TrueIndices(mask[..i])
      invariant |rows| == |kept|
      invariant forall j :: 0 <= j < |rows| ==> rows[j] == Renamed(memberpressRows[kept[j]])
    {
      TrueIndicesStep(mask, i);
      if memberpressEmails[i] !in geniusEmails {
        rows := rows + [Renamed(memberpressRows[i])];
        kept := kept + [i];
      }
      i := i + 1;
    }
    assert mask[..i] == mask;
  }

  /** The six constant-column assignments, each applied to every row; the
      columns grow in the same order, ending as the import header. */
  method AssignConstantColumns(frame: seq<Row>) returns (columns: seq<string>, rows: seq<Row>)
    ensures columns == MissingMemberOutputColumns
    ensures |rows| == |frame|
    ensures forall j :: 0 <= j < |rows| ==> rows[j] == Assigned(frame[j], |ConstantColumns|)
  {
    columns := MissingMemberOutputColumns[..3];
    rows := frame;
    var k := 0;
    while k < |ConstantColumns|
      invariant 0 <= k <= |ConstantColumns|
      invariant columns == MissingMemberOutputColumns[..3 + k]
      invariant |rows| == |frame|
      invariant forall j :: 0 <= j < |rows| ==> rows[j] == Assigned(frame[j], k)
    {
      var (name, value) := ConstantColumns[k];
      var j := 0;
      while j < |rows|
        invariant 0 <= j <= |rows| == |frame|
        invariant forall t :: 0 <= t < j ==> rows[t] == Assigned(frame[t], k + 1)
        invariant forall t :: j <= t < |rows| ==> rows[t] == Assigned(frame[t], k)
      {
        rows := rows[j := rows[j][name := value]];
        j := j + 1;
      }
      assert MissingMemberOutputColumns[3 + k] == name;
      columns := columns + [name];
      k := k + 1;
    }
  }

  /** `find_missing_members` on two loaded exports: validate, normalise, keep
      the unmatched rows under their new names, then assign the constant
      columns. */
  method FindMissingMembers(memberpress: Table, genius: Table) returns (r: Outcome)
    ensures r == Reconciled(memberpress, genius)
  {
    var missing := MissingColumns(RequiredMemberpressColumns, memberpress.columns);
    if missing != [] {
      return Failed(MemberpressColumnsMissing(missing));
    }
    if AdvocateEmailColumn !in genius.columns {
      return Failed(AdvocateColumnMissing);
    }
    var memberpressEmails := NormalizeEmailSeries(memberpress.rows, "email");
    var geniusEmails := NormalizeEmailSeries(genius.rows, AdvocateEmailColumn);
    var renamed := SelectMissing(memberpress.rows, memberpressEmails, geniusEmails);
    var columns, rows := AssignConstantColumns(renamed);
    r := Ok(Table(columns, rows));
    ghost var kept := MissingMemberIndices(memberpress, genius);
    assert r.table.rows == seq(|kept|, j requires 0 <= j < |kept| => OutputRow(memberpress.rows[kept[j]]));
  }

  // ---------------------------------------------------------------------------
  // `get_csv_info`, without `dtypes`
  // ---------------------------------------------------------------------------

  datatype CsvInfo = CsvInfo(rows: nat, columns: nat, columnNames: seq<string>, missingValues: map<string, nat>)

  /** `isnull().sum()` over one column. */
  function NullCount(cells: seq<Cell>): (n: nat)
    ensures n <= |cells|
    ensures n == 0 <==> forall i :: 0 <= i < |cells| ==> !cells[i].Null?
    ensures n == |cells| <==> forall i :: 0 <= i < |cells| ==> cells[i].Null?
  {
    if |cells| == 0 then 0
    else NullCount(cells[..|cells| - 1]) + (if cells[|cells| - 1].Null? then 1 else 0)
  }

  /** The positions of the absent cells of a column. */
  ghost function NullPositions(cells: seq<Cell>): set<nat>
  {
    set i: nat | i < |cells| && cells[i].Null?
  }

  /** `isnull().sum()` counts the absent cells, each once. */
  lemma {:induction false} NullCountIsCount(cells: seq<Cell>)
    ensures NullCount(cells) == |NullPositions(cells)|
  {
    if |cells| == 0 {
      assert NullPositions(cells) == {};
    } else {
      var n := |cells| - 1;
      var prefix := cells[..n];
      NullCountIsCount(prefix);
      assert forall i :: 0 <= i < n ==> prefix[i] == cells[i];
      assert n !in NullPositions(prefix);
      if cells[n].Null? {
        assert NullPositions(cells) == NullPositions(prefix) + {n};
      } else {
        assert NullPositions(cells) == NullPositions(prefix);
      }
    }
  }

  /** Every column's null count is the number of rows in which that column is absent. */
  lemma ColumnNullCounts(t: Table)
    ensures forall c :: NullCount(Column(t.rows, c))
                        == |set i: nat | i < |t.rows| && CellAt(t.rows[i], c) == Null|
  {
    forall c
      ensures NullCount(Column(t.rows, c))
              == |set i: nat | i < |t.rows| && CellAt(t.rows[i], c) == Null|
    {
      var cells := Column(t.rows, c);
      NullCountIsCount(cells);
      assert NullPositions(cells) == set i: nat | i < |t.rows| && CellAt(t.rows[i], c) == Null;
    }
  }

  /** Row count, column count, header, and the number of absent cells per column. */
  function GetCsvInfo(t: Table): (info: CsvInfo)
    ensures info.rows == |t.rows| && info.columns == |t.columns| && info.columnNames == t.columns
    ensures info.missingValues.Keys == set c | c in t.columns
    ensures forall c :: c in t.columns ==> info.missingValues[c] <= info.rows
    ensures forall c :: c in t.columns ==>
              info.missingValues[c] == |set i: nat | i < |t.rows| && CellAt(t.rows[i], c) == Null|
  {
    ColumnNullCounts(t);
    CsvInfo(|t.rows|, |t.columns|, t.columns,
            map c | c in t.columns :: NullCount(Column(t.rows, c)))
  }
}
