/** Concrete rows of the Swedish calendar tables and what the extractor
    stores for them. */
module Scenarios {
  import opened Wrappers
  import Text
  import Decimal
  import Calendar
  import Names
  import Extract

  /** "Erik och Erika" is two names. */
  lemma ConjunctionSplits()
    ensures Names.PlainNames("Erik och Erika") == ["Erik", "Erika"]
    ensures Names.AnnotatedNames("Erik och Erika") == ["Erik", "Erika"]
  {
    var names := ["Erik", "Erika"];
    assert Names.PlainWord("Erik") && Names.PlainWord("Erika");
    assert Names.Interleave(names, [Names.And]) == "Erik och Erika";
    Names.PlainNamesRoundTrip(names, [Names.And]);
    Names.AnnotatedNamesRoundTrip(names, [Names.And]);
  }

  /** "Kristoffer, Christoffer" is two names. */
  lemma CommaSplits()
    ensures Names.PlainNames("Kristoffer, Christoffer") == ["Kristoffer", "Christoffer"]
  {
    var names := ["Kristoffer", "Christoffer"];
    assert Names.PlainWord("Kristoffer") && Names.PlainWord("Christoffer");
    assert Names.Interleave(names, [Names.CommaSpace]) == "Kristoffer, Christoffer";
    Names.PlainNamesRoundTrip(names, [Names.CommaSpace]);
  }

  /** An annotated name loses its annotation. */
  lemma AnnotationRemoved()
    ensures Names.AnnotatedNames("Mariana (Valborg)") == ["Mariana"]
  {
    assert Names.PlainWord("Mariana");
    assert "Mariana" + " (" + "Valborg" + ")" == "Mariana (Valborg)";
    Names.AnnotatedSingle("Mariana", "Valborg");
  }

  /** Lower-casing a word whose letters after the first are not upper
      case changes only its first letter. */
  lemma LowerCapitalised(w: string)
    requires w != [] && forall j :: 1 <= j < |w| ==> !Text.IsUpper(w[j])
    ensures Text.Lower(w) == [Text.LowerChar(w[0])] + w[1..]
  {
    var r, e := Text.Lower(w), [Text.LowerChar(w[0])] + w[1..];
    forall i | 0 <= i < |r| ensures r[i] == e[i] {
      if i > 0 {
        assert e[i] == w[i];
      }
    }
  }

  /** The i-th month name is month `i + 1`. */
  lemma MonthNumberOf(i: nat)
    requires i < 12
    ensures Extract.MonthNumber(Extract.MonthNames[i]) == i + 1
  {
    Extract.MonthMapNumbers();
    var m := Extract.MonthNumber(Extract.MonthNames[i]);
    Decimal.Pad2Injective(m, i + 1);
  }

  /** A capitalised month name lower-cases to an entry of `MONTH_MAP`, and
      that entry is month `i + 1`. */
  lemma MonthToken(month: string, i: nat)
    requires i < 12 && Text.IsWord(month)
    requires forall j :: 1 <= j < |month| ==> !Text.IsUpper(month[j])
    requires [Text.LowerChar(month[0])] + month[1..] == Extract.MonthNames[i]
    ensures Text.Lower(month) == Extract.MonthNames[i]
    ensures Extract.MonthNumber(Extract.MonthNames[i]) == i + 1
  {
    LowerCapitalised(month);
    MonthNumberOf(i);
  }

  lemma ReadDay(day: string, n: nat)
    requires Decimal.DigitString(day) && Decimal.DigitsValue(day) == n
    ensures Text.IsWord(day) && Text.Lower(day) == day
    ensures Decimal.ParseInt(day) == Some(n)
  {
    assert forall i :: 0 <= i < |day| ==> Decimal.IsDigit(day[i]) || day[i] == '_';
    Text.LowerUnchanged(day);
    Decimal.ParseUnsigned(day);
  }

  /** A row "<day> <Month>" whose day is a plain number is stored under
      the key of that month and day. */
  lemma DateEntry(day: string, n: nat, month: string, lower: string, m: int, cell: string)
    requires Decimal.DigitString(day) && Decimal.DigitsValue(day) == n
    requires Text.IsWord(month) && Text.Lower(month) == lower
    requires lower in Extract.MonthNames && Extract.MonthNumber(lower) == m
    ensures var key := Calendar.DateKey(m, n);
      Extract.ParseRow([day + " " + month, cell]) == Extract.Entry(key, Extract.NamesFor(key, cell))
  {
    ReadDay(day, n);
    Extract.DateRow(day, month, cell, n);
  }

  lemma ValborgKey()
    ensures "04-30" !in Extract.EmptyDates && "04-30" in Extract.DatesWithJunk
  {
    Extract.NotSpecial("04-30");
    assert "04-30"[0] == '0' && "04-30"[1] == '4' && "04-30"[3] == '3' && "04-30"[4] == '0';
  }

  lemma OrdinaryKey(k: string)
    requires k == "03-15" || k == "01-40"
    ensures k !in Extract.EmptyDates && k !in Extract.DatesWithJunk
  {
    Extract.NotSpecial(k);
    assert k[0] == '0' && (k[1] == '3' || k[1] == '1') && (k[3] == '1' || k[3] == '4');
  }

  /** Valborg's eve: an annotated date. */
  lemma ValborgRow()
    ensures Extract.ParseRow(["30 April", "Mariana (Valborg)"]) == Extract.Entry("04-30", ["Mariana"])
  {
    assert Decimal.DigitString("30") && Decimal.DigitsValue("30") == 30;
    assert Calendar.DateKey(4, 30) == "04-30";
    assert "30" + " " + "April" == "30 April";
    MonthToken("April", 3);
    assert Extract.MonthNames[3] == "april";
    DateEntry("30", 30, "April", "april", 4, "Mariana (Valborg)");
    ValborgKey();
    AnnotationRemoved();
  }

  /** New Year's Day: an empty date, whatever its cell says. */
  lemma NewYearRow()
    ensures Extract.ParseRow(["1 Januari", "Svea"]) == Extract.Entry("01-01", [])
  {
    assert Decimal.DigitString("1") && Decimal.DigitsValue("1") == 1;
    assert Calendar.DateKey(1, 1) == "01-01";
    assert "1" + " " + "Januari" == "1 Januari";
    MonthToken("Januari", 0);
    assert Extract.MonthNames[0] == "januari";
    DateEntry("1", 1, "Januari", "januari", 1, "Svea");
    assert "01-01" in Extract.EmptyDates;
  }

  /** An ordinary date: the comma-separated names, stripped. */
  lemma OrdinaryRow()
    ensures Extract.ParseRow(["15 Mars", "Kristoffer, Christoffer"])
         == Extract.Entry("03-15", ["Kristoffer", "Christoffer"])
  {
    assert Decimal.DigitString("15") && Decimal.DigitsValue("15") == 15;
    assert Calendar.DateKey(3, 15) == "03-15";
    assert "15" + " " + "Mars" == "15 Mars";
    MonthToken("Mars", 2);
    assert Extract.MonthNames[2] == "mars";
    DateEntry("15", 15, "Mars", "mars", 3, "Kristoffer, Christoffer");
    OrdinaryKey("03-15");
    CommaSplits();
  }

  /** The day is not checked against the month: "40 Januari" is stored
      under "01-40". */
  lemma DayNotRangeChecked(cell: string)
    ensures Extract.ParseRow(["40 Januari", cell]) == Extract.Entry("01-40", Names.PlainNames(cell))
  {
    assert Decimal.DigitString("40") && Decimal.DigitsValue("40") == 40;
    assert Calendar.DateKey(1, 40) == "01-40";
    assert "40" + " " + "Januari" == "40 Januari";
    MonthToken("Januari", 0);
    assert Extract.MonthNames[0] == "januari";
    DateEntry("40", 40, "Januari", "januari", 1, cell);
    OrdinaryKey("01-40");
  }

  /** A day token `int` cannot read is reported, not skipped. */
  lemma UnreadableDay(cell: string)
    ensures Extract.ParseRow(["x Januari", cell]) == Extract.BadDay("x")
  {
    UnreadableWords(cell);
    Extract.MonthMapKeys();
    assert Extract.MonthNames[0] == "januari";
    assert "januari" in Extract.MonthMap;
    Decimal.ParseIntRejects("x", 0);
  }

  lemma UnreadableWords(cell: string)
    ensures Extract.DateWords(["x Januari", cell]) == ["x", "januari"]
  {
    assert Text.Lower("Januari") == "januari" by {
      LowerCapitalised("Januari");
      assert Text.LowerChar('J') == 'j';
    }
    assert Text.Lower("x") == "x" by {
      Text.LowerUnchanged("x");
    }
    assert "x" + " " + "Januari" == "x Januari";
    Extract.DateCellWords("x", "Januari", ["x Januari", cell]);
  }

  /** A table with its header, an annotated date, a one-cell row and an
      empty date. */
  lemma SmallTable()
    ensures Extract.ParseTables([[["Datum", "Namn"], ["30 April", "Mariana (Valborg)"], ["Juni"], ["1 Januari", "Svea"]]])
         == Success(map["04-30" := ["Mariana"], "01-01" := []])
  {
    var t := [["Datum", "Namn"], ["30 April", "Mariana (Valborg)"], ["Juni"], ["1 Januari", "Svea"]];
    var rows := t[1..];
    assert Extract.Body([t]) == rows;
    ValborgRow();
    NewYearRow();
    var rs := Extract.Results(rows);
    assert rs[0] == Extract.Entry("04-30", ["Mariana"]);
    assert rs[1] == Extract.Skipped;
    assert rs[2] == Extract.Entry("01-01", []);
    var a0: Extract.Table := map[];
    var a1 := a0["04-30" := ["Mariana"]];
    var a2 := a1["01-01" := []];
    assert Extract.Accumulate(a0, rs) == Extract.Accumulate(a1, rs[1..]);
    assert Extract.Accumulate(a1, rs[1..]) == Extract.Accumulate(a1, rs[2..]);
    assert Extract.Accumulate(a1, rs[2..]) == Extract.Accumulate(a2, rs[3..]);
    assert rs[3..] == [];
  }
}
