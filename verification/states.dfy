/**
 Classification of free-text state names against a reference table of
 (full name, abbreviation, postal code) rows, as `get_states` does it.
 */
module States {
  import opened Wrappers
  import opened Text
  import opened Seqs

  /** One row of the reference table. */
  datatype Entry = Entry(name: string, abbrev: string, code: string)

  /** Which column an input matched; the four keys of the identification tally. */
  datatype Category = FullName | Abbreviation | PostalCode | Unidentified

  /** The category of one input together with the table row it resolved to, if any. */
  datatype Classification = Classification(category: Category, row: Option<nat>)

  /** The identification tally: how many inputs fell into each category. */
  datatype Tally = Tally(state: nat, abbrev: nat, code: nat, unident: nat) {
    function Total(): nat {
      state + abbrev + code + unident
    }

    /** One more input in category `cat`; the other three counters are unchanged. */
    function Bump(cat: Category): (r: Tally)
      ensures r.Total() == Total() + 1
      ensures r.state == state + (if cat == FullName then 1 else 0)
      ensures r.abbrev == abbrev + (if cat == Abbreviation then 1 else 0)
      ensures r.code == code + (if cat == PostalCode then 1 else 0)
      ensures r.unident == unident + (if cat == Unidentified then 1 else 0)
    {
      match cat
      case FullName => this.(state := state + 1)
      case Abbreviation => this.(abbrev := abbrev + 1)
      case PostalCode => this.(code := code + 1)
      case Unidentified => this.(unident := unident + 1)
    }
  }

  /** The label given to an input that matches no row. */
  const Unknown: string := "UNKNOWN"

  /** The index the script stores for an unidentified input. */
  const UnidentifiedIndex: int := 999

  /** A row in the form the script compares against: lower case, abbreviation without periods. */
  predicate IsCanonical(e: Entry) {
    IsLowerCase(e.name) && IsLowerCase(e.abbrev) && '.' !in e.abbrev && IsLowerCase(e.code)
  }

  /** Cleaning of one row: every column lowered, the abbreviation also stripped of periods. */
  function CanonicalEntry(e: Entry): (c: Entry)
    ensures c.name == Lower(e.name) && c.abbrev == Lower(StripPeriods(e.abbrev)) && c.code == Lower(e.code)
    ensures IsCanonical(c)
    ensures IsCanonical(e) ==> c == e
  {
    LowerKeepsPeriods(StripPeriods(e.abbrev));
    CanonicalOfCanonical(e);
    Entry(Lower(e.name), Lower(StripPeriods(e.abbrev)), Lower(e.code))
  }

  lemma CanonicalOfCanonical(e: Entry)
    ensures IsCanonical(e) ==> StripPeriods(e.abbrev) == e.abbrev && Lower(e.abbrev) == e.abbrev
  {
    if IsCanonical(e) {
      StripPeriodsOfPlain(e.abbrev);
      LowerOfLowerCase(e.abbrev);
    }
  }

  /** Cleaning of the whole table, row by row, keeping the row order. */
  function Canonicalize(t: seq<Entry>): (c: seq<Entry>)
    ensures |c| == |t|
    ensures forall i :: 0 <= i < |t| ==> c[i] == CanonicalEntry(t[i])
    ensures forall i :: 0 <= i < |c| ==> IsCanonical(c[i])
  {
    seq(|t|, i requires 0 <= i < |t| => CanonicalEntry(t[i]))
  }

  /** The column of a row that a category compares against. */
  function Field(e: Entry, cat: Category): string
    requires cat != Unidentified
  {
    match cat
    case FullName => e.name
    case Abbreviation => e.abbrev
    case PostalCode => e.code
  }

  /** One column of the table, in row order. */
  function Column(t: seq<Entry>, cat: Category): (col: seq<string>)
    requires cat != Unidentified
    ensures |col| == |t|
    ensures forall i :: 0 <= i < |t| ==> col[i] == Field(t[i], cat)
  {
    seq(|t|, i requires 0 <= i < |t| => Field(t[i], cat))
  }

  /**
   Classification of an already lowered input against a cleaned table:
   full name first, then abbreviation, then code, and within a column the
   first row that matches.
   */
  function Classify(t: seq<Entry>, s: string): (r: Classification)
    ensures r.row.None? <==> r.category == Unidentified
    ensures r.row.Some? ==> r.row.value < |t|
  {
    if s in Column(t, FullName) then
      Classification(FullName, Some(FirstIndex(Column(t, FullName), s)))
    else if s in Column(t, Abbreviation) then
      Classification(Abbreviation, Some(FirstIndex(Column(t, Abbreviation), s)))
    else if s in Column(t, PostalCode) then
      Classification(PostalCode, Some(FirstIndex(Column(t, PostalCode), s)))
    else
      Classification(Unidentified, None)
  }

  /**
   The priority of the classification: full name whenever the input is in the
   name column, abbreviation only when it is not a full name, code only when it
   is neither; unidentified exactly when no row is resolved. A resolved row
   holds the input in the matched column and no earlier row does.
   */
  lemma ClassifySound(t: seq<Entry>, s: string)
    ensures Classify(t, s).category == FullName <==> s in Column(t, FullName)
    ensures Classify(t, s).category == Abbreviation <==> s !in Column(t, FullName) && s in Column(t, Abbreviation)
    ensures Classify(t, s).category == PostalCode <==>
      s !in Column(t, FullName) && s !in Column(t, Abbreviation) && s in Column(t, PostalCode)
    ensures Classify(t, s).row.Some? ==>
      var i := Classify(t, s).row.value;
      && Field(t[i], Classify(t, s).category) == s
      && forall j :: 0 <= j < i ==> Field(t[j], Classify(t, s).category) != s
  {
  }

  /** The category a raw input falls into: the input is lowered, and nothing else. */
  function CategoryOf(table: seq<Entry>, s: string): Category
  {
    Classify(Canonicalize(table), Lower(s)).category
  }

  /** The label of a raw input: the cleaned code of the row it resolved to, or `Unknown`. */
  function Label(table: seq<Entry>, s: string): (r: string)
    ensures r == Unknown || r in Column(Canonicalize(table), PostalCode)
  {
    var t := Canonicalize(table);
    match Classify(t, Lower(s)).row
    case Some(i) => assert Column(t, PostalCode)[i] == t[i].code; t[i].code
    case None => Unknown
  }

  /** Labels of a whole column of inputs, position by position. */
  function Labels(table: seq<Entry>, inputs: seq<string>): (out: seq<string>)
    ensures |out| == |inputs|
    ensures forall k :: 0 <= k < |inputs| ==> out[k] == Label(table, inputs[k])
  {
    seq(|inputs|, k requires 0 <= k < |inputs| => Label(table, inputs[k]))
  }

  /** The category of every input, position by position. */
  function Categories(table: seq<Entry>, inputs: seq<string>): (cats: seq<Category>)
    ensures |cats| == |inputs|
    ensures forall k :: 0 <= k < |inputs| ==> cats[k] == CategoryOf(table, inputs[k])
  {
    seq(|inputs|, k requires 0 <= k < |inputs| => CategoryOf(table, inputs[k]))
  }

  /** The tally of a column of categories: one bump per input, in input order. */
  function TallyOf(cats: seq<Category>): Tally
  {
    if |cats| == 0 then Tally(0, 0, 0, 0)
    else TallyOf(cats[..|cats| - 1]).Bump(cats[|cats| - 1])
  }

  /**
   Each counter of the tally is the number of inputs in its category, and the
   counters add up to the number of inputs: every input lands in exactly one
   category.
   */
  lemma {:induction false} TallyCoversEveryInput(cats: seq<Category>)
    ensures TallyOf(cats).state == Count(cats, FullName)
    ensures TallyOf(cats).abbrev == Count(cats, Abbreviation)
    ensures TallyOf(cats).code == Count(cats, PostalCode)
    ensures TallyOf(cats).unident == Count(cats, Unidentified)
    ensures Count(cats, FullName) + Count(cats, Abbreviation) + Count(cats, PostalCode) + Count(cats, Unidentified)
         == |cats|
  {
    if |cats| > 0 {
      TallyCoversEveryInput(cats[..|cats| - 1]);
    }
  }

  /**
   The classification loop: every input is classified against the cleaned
   table, one tally counter is bumped per input, and each resolved row is
   looked up for its code.
   */
  method GetStates(table: seq<Entry>, inputs: seq<string>) returns (codes: seq<string>, tally: Tally)
    ensures |codes| == |inputs|
    ensures forall k :: 0 <= k < |inputs| ==> codes[k] == Label(table, inputs[k])
    ensures tally.Total() == |inputs|
    ensures tally.state == Count(Categories(table, inputs), FullName)
    ensures tally.abbrev == Count(Categories(table, inputs), Abbreviation)
    ensures tally.code == Count(Categories(table, inputs), PostalCode)
    ensures tally.unident == Count(Categories(table, inputs), Unidentified)
  {
    var t := Canonicalize(table);
    var found := seq(|inputs|, k requires 0 <= k < |inputs| => Classify(t, Lower(inputs[k])));
    ghost var cats := Categories(table, inputs);
    tally := Tally(0, 0, 0, 0);
    var n := 0;
    while n < |found|
      invariant 0 <= n <= |found|
      invariant tally == TallyOf(cats[..n])
    {
      assert cats[..n + 1][..n] == cats[..n];
      assert found[n].category == cats[n];
      tally := tally.Bump(found[n].category);
      n := n + 1;
    }
    assert tally == TallyOf(cats) by {
      assert cats[..n] == cats;
    }
    TallyCoversEveryInput(cats);
    assert forall k :: 0 <= k < |found| && found[k].row.Some? ==> found[k].row.value < |t|;
    codes := seq(|found|, k requires 0 <= k < |found| =>
      match found[k].row
      case Some(i) => t[i].code
      case None => Unknown);
    assert forall k :: 0 <= k < |inputs| ==> codes[k] == Label(table, inputs[k]) by {
      forall k | 0 <= k < |inputs| ensures codes[k] == Label(table, inputs[k]) {
        assert found[k] == Classify(t, Lower(inputs[k]));
      }
    }
  }

  /** A cleaned code is lower case, so it can never be the upper-case sentinel. */
  lemma LowerCaseIsNotUnknown(s: string)
    requires IsLowerCase(s)
    ensures s != Unknown
  {
    assert Unknown[0] == 'U';
    if |s| == |Unknown| {
      assert !IsUpperChar(s[0]);
    }
  }

  /**
   Every label is the sentinel or the lowered code of some row, and it is the
   sentinel exactly when the input was unidentified.
   */
  lemma LabelIsUnknownOrCode(table: seq<Entry>, s: string)
    ensures Label(table, s) == Unknown
         || exists i :: 0 <= i < |table| && Label(table, s) == Lower(table[i].code)
    ensures Label(table, s) == Unknown <==> CategoryOf(table, s) == Unidentified
  {
    var t := Canonicalize(table);
    var r := Classify(t, Lower(s));
    if r.row.Some? {
      var i := r.row.value;
      assert Label(table, s) == Lower(table[i].code);
      LowerCaseIsNotUnknown(Lower(table[i].code));
    }
  }

  /**
   On a cleaned table: an input found first at row `i` of column `cat`, and
   in no column of higher priority, resolves to row `i` in that category.
   */
  lemma ClassifyAtRow(t: seq<Entry>, x: string, cat: Category, i: nat)
    requires cat != Unidentified && i < |t|
    requires Field(t[i], cat) == x
    requires forall j :: 0 <= j < i ==> Field(t[j], cat) != x
    requires cat != FullName ==> x !in Column(t, FullName)
    requires cat == PostalCode ==> x !in Column(t, Abbreviation)
    ensures Classify(t, x) == Classification(cat, Some(i))
  {
    var col := Column(t, cat);
    assert col[i] == x;
    assert forall j :: 0 <= j < i ==> col[j] != x;
    FirstIndexIs(col, x, i);
  }

  /**
   Stated on the raw table: an input whose lowered form is the lowered name
   of row `i`, and of no earlier row, is a full name labelled with row `i`'s
   lowered code.
   */
  lemma LabelOfFullName(table: seq<Entry>, s: string, i: nat)
    requires i < |table|
    requires Lower(s) == Lower(table[i].name)
    requires forall j :: 0 <= j < i ==> Lower(table[j].name) != Lower(s)
    ensures CategoryOf(table, s) == FullName
    ensures Label(table, s) == Lower(table[i].code)
  {
    var t := Canonicalize(table);
    var x := Lower(s);
    forall j | 0 <= j < i ensures Field(t[j], FullName) != x {
      assert t[j].name == Lower(table[j].name);
    }
    ClassifyAtRow(t, x, FullName, i);
  }

  /**
   An input matching no lowered name, whose lowered form is the lowered,
   period-stripped abbreviation of row `i` and of no earlier row, is an
   abbreviation labelled with row `i`'s lowered code.
   */
  lemma LabelOfAbbreviation(table: seq<Entry>, s: string, i: nat)
    requires i < |table|
    requires forall j :: 0 <= j < |table| ==> Lower(table[j].name) != Lower(s)
    requires Lower(s) == Lower(StripPeriods(table[i].abbrev))
    requires forall j :: 0 <= j < i ==> Lower(StripPeriods(table[j].abbrev)) != Lower(s)
    ensures CategoryOf(table, s) == Abbreviation
    ensures Label(table, s) == Lower(table[i].code)
  {
    var t := Canonicalize(table);
    var x := Lower(s);
    NotInColumn(t, x, FullName) by {
      forall j | 0 <= j < |t| ensures Field(t[j], FullName) != x {
        assert t[j].name == Lower(table[j].name);
      }
    }
    forall j | 0 <= j < i ensures Field(t[j], Abbreviation) != x {
      assert t[j].abbrev == Lower(StripPeriods(table[j].abbrev));
    }
    ClassifyAtRow(t, x, Abbreviation, i);
  }

  /**
   An input matching no lowered name or abbreviation, whose lowered form is
   the lowered code of row `i` and of no earlier row, is a postal code
   labelled with that code.
   */
  lemma LabelOfCode(table: seq<Entry>, s: string, i: nat)
    requires i < |table|
    requires forall j :: 0 <= j < |table| ==> Lower(table[j].name) != Lower(s)
    requires forall j :: 0 <= j < |table| ==> Lower(StripPeriods(table[j].abbrev)) != Lower(s)
    requires Lower(s) == Lower(table[i].code)
    requires forall j :: 0 <= j < i ==> Lower(table[j].code) != Lower(s)
    ensures CategoryOf(table, s) == PostalCode
    ensures Label(table, s) == Lower(table[i].code)
  {
    var t := Canonicalize(table);
    var x := Lower(s);
    NotInColumn(t, x, FullName) by {
      forall j | 0 <= j < |t| ensures Field(t[j], FullName) != x {
        assert t[j].name == Lower(table[j].name);
      }
    }
    NotInColumn(t, x, Abbreviation) by {
      forall j | 0 <= j < |t| ensures Field(t[j], Abbreviation) != x {
        assert t[j].abbrev == Lower(StripPeriods(table[j].abbrev));
      }
    }
    forall j | 0 <= j < i ensures Field(t[j], PostalCode) != x {
      assert t[j].code == Lower(table[j].code);
    }
    ClassifyAtRow(t, x, PostalCode, i);
  }

  /** A value held by no row in a category's field is not in that column. */
  lemma NotInColumn(t: seq<Entry>, x: string, cat: Category)
    requires cat != Unidentified
    requires forall j :: 0 <= j < |t| ==> Field(t[j], cat) != x
    ensures x !in Column(t, cat)
  {
  }

  /** An input matching no lowered name, abbreviation or code is unidentified and labelled `Unknown`. */
  lemma LabelOfUnmatched(table: seq<Entry>, s: string)
    requires forall j :: 0 <= j < |table| ==> Lower(table[j].name) != Lower(s)
    requires forall j :: 0 <= j < |table| ==> Lower(StripPeriods(table[j].abbrev)) != Lower(s)
    requires forall j :: 0 <= j < |table| ==> Lower(table[j].code) != Lower(s)
    ensures CategoryOf(table, s) == Unidentified
    ensures Label(table, s) == Unknown
  {
    ClassifySound(Canonicalize(table), Lower(s));
  }

  /**
   The label and the category depend only on the lowered input: any other
   casing of it gets the same label and is tallied in the same category.
   */
  lemma LabelIgnoresCase(table: seq<Entry>, s: string)
    ensures Label(table, Lower(s)) == Label(table, s)
    ensures Label(table, Upper(s)) == Label(table, s)
    ensures CategoryOf(table, Lower(s)) == CategoryOf(table, s) && CategoryOf(table, Upper(s)) == CategoryOf(table, s)
  {
    LowerOfLowerCase(Lower(s));
    LowerOfUpper(s);
  }

  /**
   Periods are stripped from the table's abbreviations but not from the input,
   so an input holding a period is never classified as an abbreviation.
   */
  lemma PeriodedInputIsNoAbbreviation(table: seq<Entry>, s: string)
    requires '.' in s
    ensures CategoryOf(table, s) != Abbreviation
  {
    LowerKeepsPeriods(s);
    ClassifySound(Canonicalize(table), Lower(s));
  }

  /** Feeding a recognised label back in is recognised again: it is at least in the code column. */
  lemma {:induction false} KnownLabelIsRecognised(table: seq<Entry>, s: string)
    requires Label(table, s) != Unknown
    ensures Label(table, Label(table, s)) != Unknown
  {
    var t := Canonicalize(table);
    var i := Classify(t, Lower(s)).row.value;
    var code := t[i].code;
    assert IsCanonical(t[i]);
    LowerOfLowerCase(code);
    assert Column(t, PostalCode)[i] == code;
    ClassifySound(t, code);
    LabelIsUnknownOrCode(table, code);
  }

  /** The index the script stores: the resolved row, or 999 for an unidentified input. */
  function IndexAsWritten(r: Classification): int
  {
    match r.row
    case Some(i) => i
    case None => UnidentifiedIndex
  }

  /** The code lookup as written: any stored index equal to 999 reads as the sentinel. */
  function LabelAsWritten(table: seq<Entry>, s: string): (r: string)
    ensures r == Unknown || r in Column(Canonicalize(table), PostalCode)
  {
    var t := Canonicalize(table);
    var r := Classify(t, Lower(s));
    var i := IndexAsWritten(r);
    if i != UnidentifiedIndex then
      assert Column(t, PostalCode)[r.row.value] == t[r.row.value].code;
      t[r.row.value].code
    else Unknown
  }

  /** With fewer than 1000 rows no row has index 999, and the sentinel index is harmless. */
  lemma SentinelAgreesBelow1000(table: seq<Entry>, s: string)
    requires |table| < 1000
    ensures LabelAsWritten(table, s) == Label(table, s)
  {
  }

  /** A table of 1000 rows whose only "texas" is row 999. */
  function ThousandRows(): (t: seq<Entry>)
    ensures |t| == 1000
  {
    seq(1000, i => if i == 999 then Entry("texas", "tex", "tx") else Entry("ohio", "oh", "oh"))
  }

  lemma ThousandRowsAreClean()
    ensures Canonicalize(ThousandRows()) == ThousandRows()
  {
    assert IsCanonical(Entry("texas", "tex", "tx"));
    assert IsCanonical(Entry("ohio", "oh", "oh"));
  }

  /**
   In a table of 1000 rows a full-name match on row 999 is counted as a
   state but labelled as the sentinel by the index lookup as written.
   */
  lemma SentinelHidesRow999()
    ensures CategoryOf(ThousandRows(), "texas") == FullName
    ensures LabelAsWritten(ThousandRows(), "texas") == Unknown
    ensures Label(ThousandRows(), "texas") == "tx"
  {
    var t := ThousandRows();
    ThousandRowsAreClean();
    LowerOfLowerCase("texas");
    assert Column(t, FullName)[999] == "texas";
    ClassifySound(t, "texas");
    var r := Classify(t, "texas");
    assert r.row.value == 999;
  }

  /** A small reference table used by the worked example. */
  function ExampleTable(): seq<Entry>
  {
    [Entry("Texas", "Tex.", "TX"), Entry("Iowa", "Ia.", "IA"), Entry("Florida", "Fla.", "FL")]
  }

  /** The example table's abbreviations lose exactly their one trailing period. */
  lemma ExampleStrippedAbbreviations()
    ensures StripPeriods("Tex.") == "Tex"
    ensures StripPeriods("Ia.") == "Ia"
    ensures StripPeriods("Fla.") == "Fla"
  {
    assert "Tex." == "Tex" + ".";
    assert "Ia." == "Ia" + ".";
    assert "Fla." == "Fla" + ".";
    StripTrailingPeriod("Tex");
    StripTrailingPeriod("Ia");
    StripTrailingPeriod("Fla");
  }

  /** The example table's strings and the example inputs, lowered. */
  lemma ExampleLowered()
    ensures Lower("TX") == "tx" && Lower("IA") == "ia" && Lower("FL") == "fl"
    ensures Lower("Texas") == "texas" && Lower("Iowa") == "iowa" && Lower("Florida") == "florida"
    ensures Lower("Tex") == "tex" && Lower("Ia") == "ia" && Lower("Fla") == "fla"
    ensures Lower("tx") == "tx" && Lower("ZZ") == "zz" && Lower("Fla.") == "fla."
  {
  }

  /** A full name resolves through the name column. */
  lemma ExampleFullName()
    ensures Label(ExampleTable(), "Texas") == "tx"
  {
    ExampleLowered();
    LabelOfFullName(ExampleTable(), "Texas", 0);
  }

  /** A code that is no name and no abbreviation resolves through the code column. */
  lemma ExampleCode()
    ensures Label(ExampleTable(), "tx") == "tx"
  {
    ExampleStrippedAbbreviations();
    ExampleLowered();
    LabelOfCode(ExampleTable(), "tx", 0);
  }

  /** An abbreviation given without its period resolves through the abbreviation column. */
  lemma ExampleBareAbbreviation()
    ensures Label(ExampleTable(), "Fla") == "fl"
  {
    var t := ExampleTable();
    ExampleStrippedAbbreviations();
    ExampleLowered();
    assert forall j :: 0 <= j < |t| ==> Lower(t[j].name) != Lower("Fla");
    assert Lower("Fla") == Lower(StripPeriods(t[2].abbrev));
    assert forall j :: 0 <= j < 2 ==> Lower(StripPeriods(t[j].abbrev)) != Lower("Fla");
    LabelOfAbbreviation(t, "Fla", 2);
  }

  /** A string in no column is unidentified. */
  lemma ExampleUnknown()
    ensures Label(ExampleTable(), "ZZ") == Unknown
  {
    ExampleStrippedAbbreviations();
    ExampleLowered();
    LabelOfUnmatched(ExampleTable(), "ZZ");
  }

  /** An abbreviation written with its period matches no cleaned abbreviation and is unidentified. */
  lemma ExamplePeriodAbbreviation()
    ensures Label(ExampleTable(), "Fla.") == Unknown
  {
    ExampleStrippedAbbreviations();
    ExampleLowered();
    LabelOfUnmatched(ExampleTable(), "Fla.");
  }

  /**
   The worked example: a full name, a code and an unknown string resolve as
   expected, the abbreviation without its period resolves, but the
   abbreviation written with its period is unidentified.
   */
  lemma ExampleLabels()
    ensures Label(ExampleTable(), "Texas") == "tx"
    ensures Label(ExampleTable(), "tx") == "tx"
    ensures Label(ExampleTable(), "ZZ") == Unknown
    ensures Label(ExampleTable(), "Fla") == "fl"
    ensures Label(ExampleTable(), "Fla.") == Unknown
  {
    ExampleFullName();
    ExampleCode();
    ExampleUnknown();
    ExampleBareAbbreviation();
    ExamplePeriodAbbreviation();
  }
}
