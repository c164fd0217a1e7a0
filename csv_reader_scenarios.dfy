/** The concrete cases of the test suite and of the reconciler's documented
    behaviour, worked out on the model. */
module CsvReaderScenarios {
  import opened Tables
  import opened Text
  import opened CsvReader
  import opened CsvReaderProperties

  function Member(first: string, last: string, email: string): Row
  {
    map["first_name" := Str(first), "last_name" := Str(last), "email" := Str(email)]
  }

  lemma MemberCells(first: string, last: string, email: string)
    ensures CellAt(Member(first, last, email), "first_name") == Str(first)
    ensures CellAt(Member(first, last, email), "last_name") == Str(last)
    ensures CellAt(Member(first, last, email), "email") == Str(email)
  {
  }

  /** The import row of a member: the member's three cells under their import
      names and the six constants. */
  lemma MemberOutputRow(first: string, last: string, email: string)
    ensures OutputRow(Member(first, last, email)) == map[
      "First Name" := Str(first),
      "Last name " := Str(last),
      "Email" := Str(email),
      " Payout threshold" := Int(1),
      " Currency code" := Str("USD"),
      "Member type" := Str("ADVOCATE"),
      "Campaign slug  (optional)" := Str(""),
      "Referrer\U{2019}s email (optional)" := Str(""),
      " note (optional)" := Str("")]
  {
    OutputRowContents(Member(first, last, email));
    MemberCells(first, last, email);
  }

  /** Alice, Bob and Carol, as in the MemberPress fixture. */
  function MemberpressFixture(): Table
  {
    Table(["first_name", "last_name", "email"],
          [Member("Alice", "Smith", "alice@example.com"),
           Member("Bob", "Brown", "bob@example.com"),
           Member("Carol", "Jones", "carol@example.com")])
  }

  /** The Genius Referrals fixture, with its email column named `column`. */
  function GeniusFixture(column: string): Table
  {
    Table([column], [map[column := Str("bob@example.com")], map[column := Str("CAROL@EXAMPLE.COM")]])
  }

  /** Lower-casing `s` character by character gives `t`. */
  lemma LowerStringIs(s: string, t: string)
    requires |s| == |t| && forall i :: 0 <= i < |s| ==> Lower(s[i]) == t[i]
    ensures LowerString(s) == t
  {
  }

  /** The fixture as the test writes it names the advocate column
      `MEMBER_EMAIL`, so the reconciler refuses it, and so it refuses every
      pair of exports with the fixture's headers, whatever their rows. */
  lemma FixtureAsWrittenIsRefused(memberpress: Table, genius: Table)
    requires memberpress.columns == MemberpressFixture().columns
    requires genius.columns == GeniusFixture("MEMBER_EMAIL").columns
    ensures Reconciled(memberpress, genius) == Failed(AdvocateColumnMissing)
    ensures Message(Reconciled(memberpress, genius).error)
            == "Genius Referrals CSV missing required column: " + "ADVOCATE_EMAIL"
  {
    assert HasRequiredColumns(memberpress) && AdvocateEmailColumn !in genius.columns by {
      assert AdvocateEmailColumn[0] != genius.columns[0][0];
    }
    AdvocateColumnChecked(memberpress, genius);
    AdvocateMessageNamesColumn();
  }

  /** The key lemmas take the email as a parameter fixed by `requires`, so the
      literal reaches the solver only where a caller supplies it. */
  lemma AliceKey(s: string)
    requires s == "alice@example.com"
    ensures NormalizeEmail(Str(s)) == s
  {
    KeyIsItsOwnKey(s);
  }

  lemma BobKey(s: string)
    requires s == "bob@example.com"
    ensures NormalizeEmail(Str(s)) == s
  {
    KeyIsItsOwnKey(s);
  }

  lemma CarolKey(s: string)
    requires s == "carol@example.com"
    ensures NormalizeEmail(Str(s)) == s
  {
    KeyIsItsOwnKey(s);
  }

  /** Carol's upper-case advocate email has her MemberPress key. */
  lemma UpperCaseCarolKey(s: string)
    requires s == "CAROL@EXAMPLE.COM"
    ensures NormalizeEmail(Str(s)) == "carol@example.com"
  {
    assert TrimStart(s) == s;
    assert TrimEnd(s) == s;
    LowerStringIs(s, "carol@example.com");
  }

  /** The keys of the MemberPress fixture are its emails as written. */
  lemma MemberpressFixtureKeys()
    ensures var keys := NormalizeEmailSeries(MemberpressFixture().rows, "email");
            && |keys| == 3
            && keys[0] == "alice@example.com" && keys[1] == "bob@example.com" && keys[2] == "carol@example.com"
  {
    var rows := MemberpressFixture().rows;
    assert CellAt(rows[0], "email") == Str("alice@example.com");
    assert CellAt(rows[1], "email") == Str("bob@example.com");
    assert CellAt(rows[2], "email") == Str("carol@example.com");
    AliceKey("alice@example.com");
    BobKey("bob@example.com");
    CarolKey("carol@example.com");
  }

  lemma GeniusFixtureKeys()
    ensures var keys := NormalizeEmailSeries(GeniusFixture(AdvocateEmailColumn).rows, AdvocateEmailColumn);
            && |keys| == 2 && keys[0] == "bob@example.com" && keys[1] == "carol@example.com"
  {
    BobKey("bob@example.com");
    UpperCaseCarolKey("CAROL@EXAMPLE.COM");
  }

  /** When exactly one MemberPress position is missing, the result is that
      member's import row alone. */
  lemma SingleMissing(memberpress: Table, genius: Table, k: nat)
    requires HasRequiredColumns(memberpress) && AdvocateEmailColumn in genius.columns
    requires MissingMemberIndices(memberpress, genius) == [k]
    ensures k < |memberpress.rows|
    ensures Reconciled(memberpress, genius) == Ok(Table(MissingMemberOutputColumns, [OutputRow(memberpress.rows[k])]))
  {
    ResultShape(memberpress, genius);
    MissingMembersExactly(memberpress, genius);
    var kept := MissingMemberIndices(memberpress, genius);
    assert kept[0] == k;
    var t := Reconciled(memberpress, genius).table;
    assert |t.rows| == 1 && t.rows[0] == OutputRow(memberpress.rows[k]);
    assert t.rows == [OutputRow(memberpress.rows[k])];
  }

  /** Of three keys, only the first is not one of two advocate keys. */
  lemma OnlyFirstMissing(keys: seq<string>, advocateKeys: seq<string>)
    requires |keys| == 3 && |advocateKeys| == 2
    requires keys[0] != advocateKeys[0] && keys[0] != advocateKeys[1]
    requires keys[1] == advocateKeys[0] && keys[2] == advocateKeys[1]
    ensures TrueIndices(MissingMask(keys, advocateKeys)) == [0]
  {
    var mask := MissingMask(keys, advocateKeys);
    assert keys[0] !in advocateKeys;
    assert mask[..0] == [];
    TrueIndicesStep(mask, 0);
    TrueIndicesStep(mask, 1);
    TrueIndicesStep(mask, 2);
    assert mask[..3] == mask;
  }

  /** Only Alice, at position 0, is not an advocate. */
  lemma FixtureSelection(memberpress: Table, genius: Table)
    requires memberpress == MemberpressFixture() && genius == GeniusFixture(AdvocateEmailColumn)
    ensures MissingMemberIndices(memberpress, genius) == [0]
  {
    MemberpressFixtureKeys();
    GeniusFixtureKeys();
    var keys := NormalizeEmailSeries(memberpress.rows, "email");
    var advocateKeys := NormalizeEmailSeries(genius.rows, AdvocateEmailColumn);
    assert keys[1] == advocateKeys[0] && keys[2] == advocateKeys[1];
    assert keys[0][0] != advocateKeys[0][0] && keys[0][0] != advocateKeys[1][0];
    OnlyFirstMissing(keys, advocateKeys);
  }

  /** With the advocate column named `ADVOCATE_EMAIL`, Bob matches exactly and
      Carol matches up to case, so only Alice is exported. */
  lemma FixtureWithAdvocateColumn(memberpress: Table, genius: Table)
    requires memberpress == MemberpressFixture() && genius == GeniusFixture(AdvocateEmailColumn)
    ensures Reconciled(memberpress, genius) == Ok(Table(
      MissingMemberOutputColumns,
      [map[
        "First Name" := Str("Alice"),
        "Last name " := Str("Smith"),
        "Email" := Str("alice@example.com"),
        " Payout threshold" := Int(1),
        " Currency code" := Str("USD"),
        "Member type" := Str("ADVOCATE"),
        "Campaign slug  (optional)" := Str(""),
        "Referrer\U{2019}s email (optional)" := Str(""),
        " note (optional)" := Str("")]]))
  {
    assert HasRequiredColumns(memberpress);
    FixtureSelection(memberpress, genius);
    SingleMissing(memberpress, genius, 0);
    MemberOutputRow("Alice", "Smith", "alice@example.com");
  }

  /** A MemberPress export without `last_name` is refused, naming it. */
  lemma LastNameMissing()
    ensures var memberpress := Table(["first_name", "email"],
                                     [map["first_name" := Str("Alice"), "email" := Str("alice@example.com")]]);
            && Reconciled(memberpress, GeniusFixture("ADVOCATE_EMAIL")) == Failed(MemberpressColumnsMissing(["last_name"]))
            && Message(MemberpressColumnsMissing(["last_name"])) == "MemberPress CSV missing required columns: " + "last_name"
  {
    var memberpress := Table(["first_name", "email"],
                             [map["first_name" := Str("Alice"), "email" := Str("alice@example.com")]]);
    assert "last_name" !in memberpress.columns;
    assert forall c :: c in ["last_name"] <==> c in RequiredMemberpressColumns && c !in memberpress.columns;
    MemberpressColumnsChecked(memberpress, GeniusFixture("ADVOCATE_EMAIL"), ["last_name"]);
  }

  /** When both exports are deficient, only the MemberPress error is raised,
      and it lists every absent name, sorted, whatever the rows of the two exports. */
  lemma BothHeadersDeficient(memberpress: Table, genius: Table)
    requires memberpress.columns == ["name"] && genius.columns == GeniusFixture("MEMBER_EMAIL").columns
    ensures Reconciled(memberpress, genius)
            == Failed(MemberpressColumnsMissing(["email", "first_name", "last_name"]))
    ensures Message(Reconciled(memberpress, genius).error)
            == "MemberPress CSV missing required columns: " + ("email" + ", " + ("first_name" + ", " + "last_name"))
  {
    var names := RequiredMemberpressColumns;
    assert Join(names, ", ") == "email" + ", " + ("first_name" + ", " + "last_name") by {
      assert names[1..] == ["first_name", "last_name"];
      assert names[1..][1..] == ["last_name"];
    }
    assert forall c :: c in names <==> c in RequiredMemberpressColumns && c !in memberpress.columns by {
      assert names[0][0] != 'n' && names[1][0] != 'n' && names[2][0] != 'n';
    }
    assert Reconciled(memberpress, genius) == Failed(MemberpressColumnsMissing(names))
           && Message(Reconciled(memberpress, genius).error) == MemberpressErrorPrefix + Join(names, ", ") by {
      RequiredColumnsSorted();
      MemberpressColumnsChecked(memberpress, genius, names);
    }
  }

  /** Each member's email, as an advocate writes it: padded, as is, or title-cased. */
  function AdvocatesOfEveryone(): Table
  {
    Table(["ADVOCATE_EMAIL"],
          [map["ADVOCATE_EMAIL" := Str(" alice@example.com ")],
           map["ADVOCATE_EMAIL" := Str("bob@example.com")],
           map["ADVOCATE_EMAIL" := Str("Carol@Example.com")]])
  }

  /** Alice's email padded with spaces has her key. */
  lemma PaddedAliceKey(s: string)
    requires s == " alice@example.com "
    ensures NormalizeEmail(Str(s)) == "alice@example.com"
  {
    var e := "alice@example.com";
    assert s == " " + e + " ";
    NormalizeIgnoresPadding(" ", e, " ");
    AliceKey(e);
  }

  lemma TitleCaseCarolKey(s: string)
    requires s == "Carol@Example.com"
    ensures NormalizeEmail(Str(s)) == "carol@example.com"
  {
    assert TrimStart(s) == s;
    assert TrimEnd(s) == s;
    LowerStringIs(s, "carol@example.com");
  }

  /** Advocates listed in the members' order, key for key, cover every member:
      the advocate at the member's own position is the witness. */
  lemma SameKeysCovered(memberpress: Table, genius: Table)
    requires |memberpress.rows| <= |genius.rows|
    requires forall i :: 0 <= i < |memberpress.rows| ==>
               NormalizeEmail(CellAt(memberpress.rows[i], "email"))
               == NormalizeEmail(CellAt(genius.rows[i], AdvocateEmailColumn))
    ensures forall i :: 0 <= i < |memberpress.rows| ==>
              IsAdvocateKey(genius, NormalizeEmail(CellAt(memberpress.rows[i], "email")))
  {
    forall i | 0 <= i < |memberpress.rows|
      ensures IsAdvocateKey(genius, NormalizeEmail(CellAt(memberpress.rows[i], "email")))
    {
      var k := i;
      assert NormalizeEmail(CellAt(genius.rows[k], AdvocateEmailColumn))
             == NormalizeEmail(CellAt(memberpress.rows[i], "email"));
    }
  }

  /** The i-th advocate of the full-overlap table has the i-th member's key. */
  lemma AdvocatesOfEveryoneInOrder(memberpress: Table, genius: Table)
    requires memberpress == MemberpressFixture() && genius == AdvocatesOfEveryone()
    ensures |memberpress.rows| <= |genius.rows|
    ensures forall i :: 0 <= i < |memberpress.rows| ==>
              NormalizeEmail(CellAt(memberpress.rows[i], "email"))
              == NormalizeEmail(CellAt(genius.rows[i], AdvocateEmailColumn))
  {
    forall i | 0 <= i < |memberpress.rows|
      ensures NormalizeEmail(CellAt(memberpress.rows[i], "email"))
              == NormalizeEmail(CellAt(genius.rows[i], AdvocateEmailColumn))
    {
      if i == 0 {
        AliceKey("alice@example.com");
        PaddedAliceKey(" alice@example.com ");
        MemberMatchesAdvocate("Alice", "Smith", "alice@example.com", " alice@example.com ");
      } else if i == 1 {
        BobKey("bob@example.com");
        MemberMatchesAdvocate("Bob", "Brown", "bob@example.com", "bob@example.com");
      } else {
        CarolKey("carol@example.com");
        TitleCaseCarolKey("Carol@Example.com");
        MemberMatchesAdvocate("Carol", "Jones", "carol@example.com", "Carol@Example.com");
      }
    }
  }

  /** A member and an advocate whose emails have the same key match. */
  lemma MemberMatchesAdvocate(first: string, last: string, email: string, written: string)
    requires NormalizeEmail(Str(email)) == NormalizeEmail(Str(written))
    ensures NormalizeEmail(CellAt(Member(first, last, email), "email"))
            == NormalizeEmail(CellAt(map[AdvocateEmailColumn := Str(written)], AdvocateEmailColumn))
  {
    MemberCells(first, last, email);
  }

  /** When every member is already an advocate, up to case and surrounding
      whitespace, the result is the empty import table. */
  lemma FullOverlap(memberpress: Table, genius: Table)
    requires memberpress == MemberpressFixture() && genius == AdvocatesOfEveryone()
    ensures Reconciled(memberpress, genius) == Ok(Table(MissingMemberOutputColumns, []))
  {
    AdvocatesOfEveryoneInOrder(memberpress, genius);
    SameKeysCovered(memberpress, genius);
    assert HasRequiredColumns(memberpress);
    NoneMissing(memberpress, genius);
  }

  /** The summary of the `get_csv_info` test table. */
  lemma InfoScenario(t: Table)
    requires t == Table(["name", "age", "city"],
                        [map["name" := Str("Alice"), "age" := Int(25), "city" := Str("New York")],
                         map["name" := Str("Bob"), "age" := Int(30), "city" := Str("London")],
                         map["name" := Null, "age" := Int(35), "city" := Str("Paris")]])
    ensures var info := GetCsvInfo(t);
            && info.rows == 3 && info.columns == 3
            && "name" in info.columnNames
            && "name" in info.missingValues && info.missingValues["name"] == 1
            && "age" in info.missingValues && info.missingValues["age"] == 0
  {
    var names := Column(t.rows, "name");
    assert names == [Str("Alice"), Str("Bob"), Null];
    assert names[..2][..1] == [Str("Alice")];
    assert NullCount(names[..2]) == 0;
    assert NullCount(names) == 1;
    var ages := Column(t.rows, "age");
    assert NullCount(ages) == 0 by {
      assert ages == [Int(25), Int(30), Int(35)];
    }
    assert GetCsvInfo(t).missingValues["age"] == NullCount(ages);
  }
}
