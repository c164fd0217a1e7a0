/** What `find_missing_members` and `get_csv_info` promise, proved about
    their specifications in module CsvReader. */
module CsvReaderProperties {
  import opened Tables
  import opened Text
  import opened CsvReader

  predicate HasRequiredColumns(memberpress: Table)
  {
    forall c :: c in RequiredMemberpressColumns ==> c in memberpress.columns
  }

  /** Some Genius Referrals advocate email has the key `key`. */
  predicate IsAdvocateKey(genius: Table, key: string)
  {
    exists k :: 0 <= k < |genius.rows| && NormalizeEmail(CellAt(genius.rows[k], AdvocateEmailColumn)) == key
  }

  lemma RequiredColumnsSorted()
    ensures StrictlySorted(RequiredMemberpressColumns)
  {
    assert StrLess("email", "first_name");
    assert StrLess("email", "last_name");
    assert StrLess("first_name", "last_name");
  }

  // ---------------------------------------------------------------------------
  // Schema errors
  // ---------------------------------------------------------------------------

  /** A MemberPress export without all of `first_name`, `last_name` and `email`
      is refused, whatever the Genius Referrals export holds, and the error
      lists exactly the absent names in Python's sorted order (any strictly
      sorted list of exactly those names). */
  lemma MemberpressColumnsChecked(memberpress: Table, genius: Table, sorted: seq<string>)
    requires StrictlySorted(sorted)
    requires forall c :: c in sorted <==> c in RequiredMemberpressColumns && c !in memberpress.columns
    requires sorted != []
    ensures Reconciled(memberpress, genius) == Failed(MemberpressColumnsMissing(sorted))
    ensures Message(Reconciled(memberpress, genius).error)
            == "MemberPress CSV missing required columns: " + Join(sorted, ", ")
  {
    RequiredColumnsSorted();
    SortedUnique(MissingColumns(RequiredMemberpressColumns, memberpress.columns), sorted);
  }

  /** The MemberPress check refuses exactly when a required column is absent. */
  lemma MemberpressErrorIff(memberpress: Table, genius: Table)
    ensures (Reconciled(memberpress, genius).Failed? && Reconciled(memberpress, genius).error.MemberpressColumnsMissing?)
            <==> !HasRequiredColumns(memberpress)
  {
    var missing := MissingColumns(RequiredMemberpressColumns, memberpress.columns);
    if !HasRequiredColumns(memberpress) {
      var c :| c in RequiredMemberpressColumns && c !in memberpress.columns;
      assert c in missing;
    } else {
      HeadIsMember(missing);
    }
  }

  /** The Genius Referrals check is reached only when the MemberPress header is
      complete, and refuses exactly when `ADVOCATE_EMAIL` is absent. */
  lemma AdvocateColumnChecked(memberpress: Table, genius: Table)
    ensures Reconciled(memberpress, genius) == Failed(AdvocateColumnMissing)
            <==> HasRequiredColumns(memberpress) && AdvocateEmailColumn !in genius.columns
  {
    MemberpressErrorIff(memberpress, genius);
  }

  /** The Genius Referrals error names the column it looked for. */
  lemma AdvocateMessageNamesColumn()
    ensures Message(AdvocateColumnMissing) == "Genius Referrals CSV missing required column: " + AdvocateEmailColumn
  {
  }

  // ---------------------------------------------------------------------------
  // The result table
  // ---------------------------------------------------------------------------

  lemma OutputColumnsDistinct()
    ensures Distinct(MissingMemberOutputColumns)
  {
  }

  /** An import row is exactly the nine import columns: the three copied
      cells, unnormalised, and the six constants. */
  lemma OutputRowContents(row: Row)
    ensures OutputRow(row) == map[
      "First Name" := CellAt(row, "first_name"),
      "Last name " := CellAt(row, "last_name"),
      "Email" := CellAt(row, "email"),
      " Payout threshold" := Int(1),
      " Currency code" := Str("USD"),
      "Member type" := Str("ADVOCATE"),
      "Campaign slug  (optional)" := Str(""),
      "Referrer\U{2019}s email (optional)" := Str(""),
      " note (optional)" := Str("")]
  {
    var r0 := Renamed(row);
    assert Assigned(r0, 1) == r0[" Payout threshold" := Int(1)];
    assert Assigned(r0, 2) == Assigned(r0, 1)[" Currency code" := Str("USD")];
    assert Assigned(r0, 3) == Assigned(r0, 2)["Member type" := Str("ADVOCATE")];
    assert Assigned(r0, 4) == Assigned(r0, 3)["Campaign slug  (optional)" := Str("")];
    assert Assigned(r0, 5) == Assigned(r0, 4)["Referrer\U{2019}s email (optional)" := Str("")];
    assert Assigned(r0, 6) == Assigned(r0, 5)[" note (optional)" := Str("")];
  }

  /** Every import row carries exactly the import header's columns. */
  lemma OutputRowColumns(row: Row)
    ensures forall c :: c in OutputRow(row) <==> c in MissingMemberOutputColumns
  {
    OutputRowContents(row);
  }

  /** With both headers complete there is no error: the result has the nine
      import columns in order, however many rows it has, every row carries
      exactly those columns, and it has no more rows than the MemberPress export. */
  lemma ResultShape(memberpress: Table, genius: Table)
    requires HasRequiredColumns(memberpress) && AdvocateEmailColumn in genius.columns
    ensures Reconciled(memberpress, genius).Ok?
    ensures Reconciled(memberpress, genius).table.columns == MissingMemberOutputColumns
    ensures WellFormed(Reconciled(memberpress, genius).table)
    ensures |Reconciled(memberpress, genius).table.rows| <= |memberpress.rows|
  {
    MemberpressErrorIff(memberpress, genius);
    var t := Reconciled(memberpress, genius).table;
    OutputColumnsDistinct();
    forall r | r in t.rows
      ensures forall c :: c in r <==> c in t.columns
    {
      var j :| 0 <= j < |t.rows| && t.rows[j] == r;
      var kept := MissingMemberIndices(memberpress, genius);
      OutputRowColumns(memberpress.rows[kept[j]]);
    }
  }

  /** The set difference, in order: the result rows are the import rows of a
      strictly increasing selection of MemberPress positions, and a position is
      selected exactly when its email key is not the key of any advocate email.
      Equal rows are selected alike, so duplicates are kept. */
  lemma MissingMembersExactly(memberpress: Table, genius: Table)
    requires Reconciled(memberpress, genius).Ok?
    ensures var rows := Reconciled(memberpress, genius).table.rows;
            var kept := MissingMemberIndices(memberpress, genius);
            && |rows| == |kept|
            && (forall j :: 0 <= j < |kept| ==> kept[j] < |memberpress.rows| && rows[j] == OutputRow(memberpress.rows[kept[j]]))
            && (forall j, k :: 0 <= j < k < |kept| ==> kept[j] < kept[k])
            && (forall i :: 0 <= i < |memberpress.rows| ==>
                  (i in kept <==> !IsAdvocateKey(genius, NormalizeEmail(CellAt(memberpress.rows[i], "email")))))
  {
    var kept := MissingMemberIndices(memberpress, genius);
    forall i | 0 <= i < |memberpress.rows|
      ensures i in kept <==> !IsAdvocateKey(genius, NormalizeEmail(CellAt(memberpress.rows[i], "email")))
    {
      SelectedIff(memberpress, genius, i);
    }
  }

  /** Position `i` is selected exactly when its key is no advocate's key. */
  lemma SelectedIff(memberpress: Table, genius: Table, i: nat)
    requires i < |memberpress.rows|
    ensures i in MissingMemberIndices(memberpress, genius)
            <==> !IsAdvocateKey(genius, NormalizeEmail(CellAt(memberpress.rows[i], "email")))
  {
    var memberpressEmails := NormalizeEmailSeries(memberpress.rows, "email");
    var geniusEmails := NormalizeEmailSeries(genius.rows, AdvocateEmailColumn);
    var mask := MissingMask(memberpressEmails, geniusEmails);
    var kept := TrueIndices(mask);
    var key := NormalizeEmail(CellAt(memberpress.rows[i], "email"));
    InNormalizedSeries(genius.rows, AdvocateEmailColumn, key);
    assert mask[i] == (key !in geniusEmails);
    if mask[i] {
      TrueIndicesComplete(mask, i);
    }
    if i in kept {
      var j :| 0 <= j < |kept| && kept[j] == i;
    }
  }

  /** Duplicates are kept or dropped together: two MemberPress rows whose
      emails have the same key are either both selected or both not. */
  lemma DuplicatesSelectedAlike(memberpress: Table, genius: Table, i: nat, j: nat)
    requires i < |memberpress.rows| && j < |memberpress.rows|
    requires NormalizeEmail(CellAt(memberpress.rows[i], "email")) == NormalizeEmail(CellAt(memberpress.rows[j], "email"))
    ensures i in MissingMemberIndices(memberpress, genius) <==> j in MissingMemberIndices(memberpress, genius)
  {
    SelectedIff(memberpress, genius, i);
    SelectedIff(memberpress, genius, j);
  }

  /** When some advocate email is absent or blank, no MemberPress row with an
      absent or blank email reaches the result. */
  lemma BlankEmailsDropped(memberpress: Table, genius: Table, k: nat, i: nat)
    requires Reconciled(memberpress, genius).Ok?
    requires k < |genius.rows| && i < |memberpress.rows|
    requires var c := CellAt(genius.rows[k], AdvocateEmailColumn); c == Null || (c.Str? && AllSpace(c.text))
    requires var c := CellAt(memberpress.rows[i], "email"); c == Null || (c.Str? && AllSpace(c.text))
    ensures i !in MissingMemberIndices(memberpress, genius)
  {
    NormalizeBlank(CellAt(genius.rows[k], AdvocateEmailColumn));
    NormalizeBlank(CellAt(memberpress.rows[i], "email"));
    MissingMembersExactly(memberpress, genius);
  }

  /** When every MemberPress email is already an advocate's, the result is the
      empty import table, not an error. */
  lemma NoneMissing(memberpress: Table, genius: Table)
    requires HasRequiredColumns(memberpress) && AdvocateEmailColumn in genius.columns
    requires forall i :: 0 <= i < |memberpress.rows| ==>
               IsAdvocateKey(genius, NormalizeEmail(CellAt(memberpress.rows[i], "email")))
    ensures Reconciled(memberpress, genius) == Ok(Table(MissingMemberOutputColumns, []))
  {
    ResultShape(memberpress, genius);
    MissingMembersExactly(memberpress, genius);
    HeadIsMember(MissingMemberIndices(memberpress, genius));
  }

  // ---------------------------------------------------------------------------
  // `get_csv_info`
  // ---------------------------------------------------------------------------

  /** `missing_values[c]` is zero exactly when column `c` has no absent cell,
      and equals `rows` exactly when every cell of `c` is absent. */
  lemma MissingValuesMeaning(t: Table, c: string)
    requires c in t.columns
    ensures var info := GetCsvInfo(t);
            && (info.missingValues[c] == 0 <==> forall i :: 0 <= i < |t.rows| ==> CellAt(t.rows[i], c) != Null)
            && (info.missingValues[c] == info.rows <==> forall i :: 0 <= i < |t.rows| ==> CellAt(t.rows[i], c) == Null)
  {
    var cells := Column(t.rows, c);
    assert forall i :: 0 <= i < |t.rows| ==> cells[i] == CellAt(t.rows[i], c);
  }
}
