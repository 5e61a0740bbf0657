/**
 * A one-row catalog used for worked examples of the two tools: a
 * bachelor's course in civil engineering at university "X" in London,
 * with no country recorded.
 */
module SampleCatalog {
  import opened Values
  import opened Text
  import opened Filter
  import opened Replies

  const SampleRow := CourseRecord(Str("X"), Str("engineering"), Str("london"), Str("bachelor's"),
                                  Str("civil engineering"), Missing)

  /** The same row once the pipeline has normalised its columns. */
  const NormalRow := CourseRecord(Str("x"), Str("engineering"), Str("london"), Str("bachelor's"),
                                  Str("civil engineering"), Str("nan"))

  /** Text that is already lower-case and trimmed is its own normal form. */
  lemma NormalFixed(s: string)
    requires IsLowered(s) && IsStripped(s)
    ensures Normalize(s) == s
  {
    StripOfStripped(s);
    LowerFixes(s);
  }

  lemma LoweredConcat(a: string, b: string)
    requires IsLowered(a) && IsLowered(b)
    ensures IsLowered(a + b)
  {
    assert forall i :: |a| <= i < |a + b| ==> (a + b)[i] == b[i - |a|];
  }

  /** "X" is lower-cased. */
  lemma CapitalLowered()
    ensures NormalizeCell(Str("X")) == Str("x")
  {
    StripOfStripped("X");
    assert Lower("X")[0] == LowerChar('X') == 'x';
  }

  /** The course title is already in normal form. */
  lemma CourseTitleNormal()
    ensures NormalizeCell(Str("civil engineering")) == Str("civil engineering")
  {
    LoweredConcat("civil ", "engineering");
    assert "civil " + "engineering" == "civil engineering";
    NormalFixed("civil engineering");
  }

  lemma FieldNormal()
    ensures NormalizeCell(Str("engineering")) == Str("engineering")
  {
    NormalFixed("engineering");
  }

  lemma LocationNormal()
    ensures NormalizeCell(Str("london")) == Str("london")
  {
    NormalFixed("london");
  }

  lemma DegreeNormal()
    ensures NormalizeCell(Str("bachelor's")) == Str("bachelor's")
  {
    NormalFixed("bachelor's");
  }

  lemma SampleRecordNormalized()
    ensures NormalizeRecord(SampleRow) == NormalRow
  {
    CapitalLowered();
    FieldNormal();
    LocationNormal();
    DegreeNormal();
    CourseTitleNormal();
    MissingCellReadsNan();
  }

  /** Normalising the sample lower-cases "X" and turns the missing country into "nan". */
  lemma SampleNormalized()
    ensures NormalizeTable([SampleRow]) == [NormalRow]
  {
    SampleRecordNormalized();
  }

  /** The normalised sample row, projected to its university and course. */
  lemma SampleProjected()
    ensures Project([NormalRow]) == [Pair("x", "civil engineering")]
  {
    assert Read(NormalRow, UniversityName) == "x";
    assert Read(NormalRow, CourseOrDegreeName) == "civil engineering";
  }

  /** The sample course's entry in a reply. */
  lemma SampleEntry()
    ensures Entries([Pair("x", "civil engineering")]) == ["x - civil engineering"]
  {
    assert Entry(Pair("x", "civil engineering")) == "x - civil engineering";
  }
}
