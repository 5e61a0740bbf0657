/**
 * What `initial_filtering` promises, stated over its specification
 * `Filter.InitialFilteringSpec`, which the method `Filter.InitialFiltering`
 * is proved to compute.
 */
module FilterProperties {
  import opened Wrappers
  import opened Values
  import opened Text
  import opened Filter

  // =====================================================================
  // The normalised table

  /** Every cell the pipeline compares is lower-case, trimmed text. */
  lemma TableIsNormalized(catalog: seq<CourseRecord>, r: CourseRecord, c: Column)
    requires r in NormalizeTable(catalog)
    ensures r.Get(c).Str?
    ensures IsLowered(Read(r, c)) && IsStripped(Read(r, c))
  {
    var t := NormalizeTable(catalog);
    var j :| 0 <= j < |t| && t[j] == r;
    assert r.Get(c) == NormalizeCell(catalog[j].Get(c));
    NormalizedCellIsNormal(catalog[j].Get(c));
  }

  // =====================================================================
  // The course-lookup shortcut

  /** Some row of `t` offers university `u` with a course title containing `q`. */
  predicate Offers(t: seq<CourseRecord>, q: string, u: string) {
    exists r :: r in t && Contains(Read(r, CourseOrDegreeName), q) && Read(r, UniversityName) == u
  }

  /** On the normalised table, pandas' caseless search is a plain substring search. */
  lemma CaselessIsPlain(catalog: seq<CourseRecord>, r: CourseRecord, q: string)
    requires r in NormalizeTable(catalog)
    ensures CourseContains(r, Normalize(q)) <==> Contains(Read(r, CourseOrDegreeName), Normalize(q))
  {
    TableIsNormalized(catalog, r, CourseOrDegreeName);
    NormalizeIsNormal(q);
    ContainsCaseless(Read(r, CourseOrDegreeName), Normalize(q));
  }

  /** The universities of the rows the shortcut keeps are exactly those offering the query. */
  lemma HitsAreOffers(catalog: seq<CourseRecord>, s: string)
    ensures var t := NormalizeTable(catalog);
            var q := Normalize(s);
            forall u :: u in UniversityNames(Containing(t, q)) <==> Offers(t, q, u)
  {
    var t := NormalizeTable(catalog);
    var q := Normalize(s);
    var hits := Containing(t, q);
    var names := UniversityNames(hits);
    ContainingMembers(t, q);
    forall u
      ensures u in names <==> Offers(t, q, u)
    {
      if u in names {
        var j :| 0 <= j < |names| && names[j] == u;
        assert hits[j] in hits;
        CaselessIsPlain(catalog, hits[j], s);
      }
      if Offers(t, q, u) {
        var r :| r in t && Contains(Read(r, CourseOrDegreeName), q) && Read(r, UniversityName) == u;
        CaselessIsPlain(catalog, r, s);
        assert r in hits;
        var j :| 0 <= j < |hits| && hits[j] == r;
        assert names[j] == u;
      }
    }
  }

  /**
   * The shortcut answers with the distinct universities that have a course
   * whose title contains the trimmed, lower-cased query, and with the fixed
   * message exactly when there is none.
   */
  lemma ShortcutFindsUniversities(catalog: seq<CourseRecord>, filters: Filters)
    requires ShortcutApplies(ResolveAlias(filters))
    requires ResolveAlias(filters)[CourseKey].StrValue?
    ensures var q := Normalize(ResolveAlias(filters)[CourseKey].s);
            var t := NormalizeTable(catalog);
            var r := InitialFilteringSpec(catalog, filters);
            (r.Universities? || r == Message(NoUniversitiesMessage)) &&
            (r == Message(NoUniversitiesMessage) <==> forall u :: !Offers(t, q, u)) &&
            (r.Universities? ==> NoDuplicates(r.names) && forall u :: u in r.names <==> Offers(t, q, u))
  {
    var f := ResolveAlias(filters);
    var s := f[CourseKey].s;
    var t := NormalizeTable(catalog);
    var q := Normalize(s);
    var hits := Containing(t, q);
    HitsAreOffers(catalog, s);
    assert InitialFilteringSpec(catalog, filters) == ShortcutOutcome(t, f[CourseKey]);
    if hits != [] {
      var u := UniversityNames(hits)[0];
      assert Offers(t, q, u);
    }
  }

  /** Every string contains the empty query. */
  lemma {:induction false} ContainingEmpty(rows: seq<CourseRecord>)
    ensures Containing(rows, []) == rows
    decreases |rows|
  {
    if rows != [] {
      ContainingEmpty(rows[..|rows| - 1]);
      ContainsEmpty(Upper(Read(rows[|rows| - 1], CourseOrDegreeName)));
      assert rows[..|rows| - 1] + [rows[|rows| - 1]] == rows;
    }
  }

  /**
   * A course query made only of whitespace is truthy, so it takes the
   * shortcut; after trimming it is empty, and every university in the
   * catalog is returned.
   */
  lemma BlankQueryMatchesEverything(catalog: seq<CourseRecord>, blank: string)
    requires blank != [] && forall i :: 0 <= i < |blank| ==> IsSpace(blank[i])
    requires catalog != []
    ensures InitialFilteringSpec(catalog, map[CourseKey := StrValue(blank)])
            == Universities(Distinct(UniversityNames(NormalizeTable(catalog))))
  {
    var f := map[CourseKey := StrValue(blank)];
    assert ResolveAlias(f) == f;
    assert ShortcutApplies(f);
    assert Strip(blank) == [] by {
      StripLeftSpec(blank);
      assert LeadingSpaces(blank) == |blank|;
    }
    assert Normalize(blank) == [];
    ContainingEmpty(NormalizeTable(catalog));
  }

  // =====================================================================
  // Presence versus truthiness

  /**
   * A categorical key that is present but falsy (null, say) still turns the
   * shortcut off; in standard mode the course query is not looked at, so
   * the whole catalog comes back.
   */
  lemma PresentNullBlocksShortcut(catalog: seq<CourseRecord>, filters: Filters, k: string)
    requires k in BlockingKeys && k in ResolveAlias(filters)
    requires forall b :: b in BlockingKeys ==> !Truthy(Lookup(ResolveAlias(filters), b))
    ensures InitialFilteringSpec(catalog, filters)
            == if catalog == [] then Message(NoMatchMessage) else Pairs(Project(NormalizeTable(catalog)))
  {
    var f := ResolveAlias(filters);
    assert !ShortcutApplies(f);
    assert forall b :: b in BlockingKeys ==> DemandFor(f, b) == Unconstrained;
    var cs := ConstraintsOf(f).value;
    assert cs.At(UniversityName) == None by { assert ColumnOf(UniversityKey) == UniversityName; }
    assert cs.At(FieldName) == None by { assert ColumnOf(FieldKey) == FieldName; }
    assert cs.At(Location) == None by { assert ColumnOf(LocationKey) == Location; }
    assert cs.At(DegreeProgram) == None by { assert ColumnOf(DegreeKey) == DegreeProgram; }
    assert cs == NoConstraints;
    SurvivorsOfNone(NormalizeTable(catalog));
  }

  /**
   * Once a categorical key is present, the course query is dropped: the
   * request answers as if it had no course key at all, whatever its value.
   * So adding a location to a course lookup can widen the answer from the
   * universities offering the course to every course at that location.
   */
  lemma CourseQueryIgnored(catalog: seq<CourseRecord>, filters: Filters, k: string, v: FilterValue)
    requires k in BlockingKeys && k in filters && CourseNameAlias !in filters
    ensures InitialFilteringSpec(catalog, filters[CourseKey := v])
            == InitialFilteringSpec(catalog, filters - {CourseKey})
  {
    var with := filters[CourseKey := v];
    var without := filters - {CourseKey};
    BlockingKeysAreNotCourseKeys(k);
    assert ResolveAlias(with) == with && ResolveAlias(without) == without;
    assert k in BlockingKeys && k in with && k in without;
    assert forall b :: b in BlockingKeys ==> Lookup(with, b) == Lookup(without, b);
    SameDemandsSameConstraints(with, without);
  }

  /** A value that the filter chain skips: falsy, or a location meaning the whole country. */
  predicate Skipped(k: string, v: FilterValue) {
    !Truthy(v) || (k == LocationKey && v.StrValue? && Normalize(v.s) == WholeCountry)
  }

  /** Two constraint sets that agree on the four columns are equal. */
  lemma ConstraintsAgree(a: Constraints, b: Constraints)
    requires a.At(UniversityName) == b.At(UniversityName) && a.At(FieldName) == b.At(FieldName)
    requires a.At(Location) == b.At(Location) && a.At(DegreeProgram) == b.At(DegreeProgram)
    ensures a == b
  {
  }

  /** Every categorical key is a key the alias rule leaves alone. */
  lemma BlockingKeysAreNotCourseKeys(k: string)
    requires k in BlockingKeys
    ensures k != CourseNameAlias && k != CourseKey
  {
  }

  /**
   * A skipped value constrains nothing: the request behaves as if the key
   * were absent, provided the course-lookup shortcut stays off without the
   * key. (With the key present the shortcut is off in any case.)
   */
  lemma SkippedIsOmitted(catalog: seq<CourseRecord>, filters: Filters, k: string, v: FilterValue)
    requires k in BlockingKeys && Skipped(k, v)
    requires !ShortcutApplies(ResolveAlias(filters) - {k})
    ensures InitialFilteringSpec(catalog, filters[k := v]) == InitialFilteringSpec(catalog, filters - {k})
  {
    StandardAfterUpdate(catalog, filters, k, v);
    StandardAfterRemove(catalog, filters, k);
    SkippedSameStandard(NormalizeTable(catalog), ResolveAlias(filters), k, v);
  }

  /**
   * The other half: when leaving the key out would let the shortcut fire,
   * a present skipped value (null, "", "uk") answers differently, because
   * the shortcut tests the key's presence, not its value.
   */
  lemma SkippedBlocksShortcut(catalog: seq<CourseRecord>, filters: Filters, k: string, v: FilterValue)
    requires k in BlockingKeys && Skipped(k, v)
    requires ShortcutApplies(ResolveAlias(filters) - {k})
    ensures InitialFilteringSpec(catalog, filters[k := v]) != InitialFilteringSpec(catalog, filters - {k})
  {
    var f := ResolveAlias(filters);
    var t := NormalizeTable(catalog);
    StandardAfterUpdate(catalog, filters, k, v);
    ShortcutAfterRemove(catalog, filters, k);
    SkippedStandardAnswers(t, f, k, v);
    MessagesDiffer();
  }

  /**
   * Both halves together: a skipped value behaves like an absent key
   * exactly when the shortcut would stay off without the key.
   */
  lemma SkippedIsOmittedExactly(catalog: seq<CourseRecord>, filters: Filters, k: string, v: FilterValue)
    requires k in BlockingKeys && Skipped(k, v)
    ensures InitialFilteringSpec(catalog, filters[k := v]) == InitialFilteringSpec(catalog, filters - {k})
            <==> !ShortcutApplies(ResolveAlias(filters) - {k})
  {
    if ShortcutApplies(ResolveAlias(filters) - {k}) {
      SkippedBlocksShortcut(catalog, filters, k, v);
    } else {
      SkippedIsOmitted(catalog, filters, k, v);
    }
  }

  lemma ShortcutAfterRemove(catalog: seq<CourseRecord>, filters: Filters, k: string)
    requires k in BlockingKeys
    requires ShortcutApplies(ResolveAlias(filters) - {k})
    ensures InitialFilteringSpec(catalog, filters - {k})
            == ShortcutOutcome(NormalizeTable(catalog), (ResolveAlias(filters) - {k})[CourseKey])
  {
    AliasRemove(filters, k);
  }

  /** With no other categorical key present, a skipped value leaves nothing to raise on. */
  lemma SkippedStandardAnswers(t: seq<CourseRecord>, f: Filters, k: string, v: FilterValue)
    requires k in BlockingKeys && Skipped(k, v)
    requires ShortcutApplies(f - {k})
    ensures StandardOutcome(t, f[k := v]).Pairs? || StandardOutcome(t, f[k := v]).Message?
  {
    SkippedDemands(f, k, v);
    assert forall b :: b in BlockingKeys ==> DemandFor(f - {k}, b) == Unconstrained;
  }

  /** The two fixed messages are different texts. */
  lemma MessagesDiffer()
    ensures NoMatchMessage != NoUniversitiesMessage
  {
    assert NoMatchMessage[3] == 'm' && NoUniversitiesMessage[3] == 'u';
  }

  lemma StandardAfterUpdate(catalog: seq<CourseRecord>, filters: Filters, k: string, v: FilterValue)
    requires k in BlockingKeys
    ensures InitialFilteringSpec(catalog, filters[k := v])
            == StandardOutcome(NormalizeTable(catalog), ResolveAlias(filters)[k := v])
  {
    AliasUpdate(filters, k, v);
    StandardMode(catalog, filters[k := v]);
  }

  lemma StandardAfterRemove(catalog: seq<CourseRecord>, filters: Filters, k: string)
    requires k in BlockingKeys
    requires !ShortcutApplies(ResolveAlias(filters) - {k})
    ensures InitialFilteringSpec(catalog, filters - {k})
            == StandardOutcome(NormalizeTable(catalog), ResolveAlias(filters) - {k})
  {
    AliasRemove(filters, k);
    StandardMode(catalog, filters - {k});
  }

  /** In standard mode a skipped value and an absent key give the same outcome. */
  lemma SkippedSameStandard(t: seq<CourseRecord>, f: Filters, k: string, v: FilterValue)
    requires k in BlockingKeys && Skipped(k, v)
    ensures StandardOutcome(t, f[k := v]) == StandardOutcome(t, f - {k})
  {
    SkippedDemands(f, k, v);
    SameDemandsSameConstraints(f[k := v], f - {k});
  }

  /** When the shortcut does not fire, the request is answered in standard mode. */
  lemma StandardMode(catalog: seq<CourseRecord>, filters: Filters)
    requires !ShortcutApplies(ResolveAlias(filters))
    ensures InitialFilteringSpec(catalog, filters) == StandardOutcome(NormalizeTable(catalog), ResolveAlias(filters))
  {
  }

  /** Setting a categorical key commutes with the alias rule. */
  lemma AliasUpdate(filters: Filters, k: string, v: FilterValue)
    requires k in BlockingKeys
    ensures ResolveAlias(filters[k := v]) == ResolveAlias(filters)[k := v]
  {
    BlockingKeysAreNotCourseKeys(k);
    if CourseNameAlias in filters {
      assert filters[k := v][CourseNameAlias] == filters[CourseNameAlias];
    }
  }

  /** Removing a categorical key commutes with the alias rule. */
  lemma AliasRemove(filters: Filters, k: string)
    requires k in BlockingKeys
    ensures ResolveAlias(filters - {k}) == ResolveAlias(filters) - {k}
  {
    BlockingKeysAreNotCourseKeys(k);
    if CourseNameAlias in filters {
      assert (filters - {k})[CourseNameAlias] == filters[CourseNameAlias];
    }
  }

  /** A skipped value demands what an absent key demands, and nothing else changes. */
  lemma SkippedDemands(f: Filters, k: string, v: FilterValue)
    requires k in BlockingKeys && Skipped(k, v)
    ensures forall b :: b in BlockingKeys ==> DemandFor(f[k := v], b) == DemandFor(f - {k}, b)
  {
    assert DemandFor(f[k := v], k) == Unconstrained && DemandFor(f - {k}, k) == Unconstrained;
    assert forall b :: b in BlockingKeys && b != k ==> DemandFor(f[k := v], b) == DemandFor(f - {k}, b);
  }

  /** The constraints depend only on the four demands. */
  lemma SameDemandsSameConstraints(f1: Filters, f2: Filters)
    requires forall b :: b in BlockingKeys ==> DemandFor(f1, b) == DemandFor(f2, b)
    ensures ConstraintsOf(f1) == ConstraintsOf(f2)
  {
    assert UniversityKey in BlockingKeys && FieldKey in BlockingKeys;
    assert LocationKey in BlockingKeys && DegreeKey in BlockingKeys;
  }

  // =====================================================================
  // Standard mode narrows

  /** Projecting keeps the subsequence relation. */
  lemma {:induction false} ProjectKeepsSubsequence(a: seq<CourseRecord>, b: seq<CourseRecord>)
    requires IsSubsequence(a, b)
    ensures IsSubsequence(Project(a), Project(b))
    decreases |b|
  {
    if a != [] {
      var pa := Project(a);
      var pb := Project(b);
      assert Project(a[..|a| - 1]) == pa[..|pa| - 1];
      assert Project(b[..|b| - 1]) == pb[..|pb| - 1];
      if a[|a| - 1] == b[|b| - 1] {
        ProjectKeepsSubsequence(a[..|a| - 1], b[..|b| - 1]);
      } else {
        ProjectKeepsSubsequence(a, b[..|b| - 1]);
        if pa[|pa| - 1] == pb[|pb| - 1] {
          SubsequenceWeaken(pa, pb[..|pb| - 1]);
        }
      }
    }
  }

  /** One more equality constraint keeps a subsequence of the rows. */
  lemma ConstraintNarrows(rows: seq<CourseRecord>, cs: Constraints, col: Column, q: string)
    requires IsCategorical(col) && cs.At(col).None?
    ensures IsSubsequence(Survivors(rows, cs.Set(col, q)), Survivors(rows, cs))
  {
    MatchingNarrows(rows, cs, col, q);
  }

  /**
   * In standard mode the result is the surviving rows of the normalised
   * catalog, in catalog order, each meeting every constraint.
   */
  lemma StandardResultIsSubsequence(catalog: seq<CourseRecord>, filters: Filters)
    requires !ShortcutApplies(ResolveAlias(filters))
    requires InitialFilteringSpec(catalog, filters).Pairs?
    ensures ConstraintsOf(ResolveAlias(filters)).Some?
    ensures InitialFilteringSpec(catalog, filters).pairs
            == Project(Survivors(NormalizeTable(catalog), ConstraintsOf(ResolveAlias(filters)).value))
    ensures IsSubsequence(InitialFilteringSpec(catalog, filters).pairs, Project(NormalizeTable(catalog)))
  {
    var t := NormalizeTable(catalog);
    var cs := ConstraintsOf(ResolveAlias(filters)).value;
    ProjectKeepsSubsequence(Survivors(t, cs), t);
  }

  /**
   * Adding one more categorical string filter to a standard-mode request
   * never enlarges the result: pairs become a subsequence of the pairs, and
   * "no match" stays "no match".
   */
  lemma AddingFilterNarrows(catalog: seq<CourseRecord>, filters: Filters, k: string, s: string)
    requires k in BlockingKeys && k !in filters
    requires !ShortcutApplies(ResolveAlias(filters))
    requires ConstraintsOf(ResolveAlias(filters)).Some?
    ensures var before := InitialFilteringSpec(catalog, filters);
            var after := InitialFilteringSpec(catalog, filters[k := StrValue(s)]);
            (before.Message? ==> after == before) &&
            (before.Pairs? ==> after.Message? || (after.Pairs? && IsSubsequence(after.pairs, before.pairs)))
  {
    var f1 := ResolveAlias(filters);
    AliasUpdate(filters, k, StrValue(s));
    var f2 := f1[k := StrValue(s)];
    BlockingKeysAreNotCourseKeys(k);
    assert k !in f1;
    assert !ShortcutApplies(f2);
    var t := NormalizeTable(catalog);
    NarrowedConstraints(t, f1, k, s);
    var before := Survivors(t, ConstraintsOf(f1).value);
    var after := Survivors(t, ConstraintsOf(f2).value);
    if before == [] {
      SubsequenceOfEmpty(after);
    }
    ProjectKeepsSubsequence(after, before);
  }

  /** A string on an absent categorical key changes only that key's demand, to one that is text. */
  lemma AddedDemands(f1: Filters, k: string, s: string)
    requires k in BlockingKeys && k !in f1
    ensures DemandFor(f1, k) == Unconstrained
    ensures !DemandFor(f1[k := StrValue(s)], k).NotText?
    ensures forall b :: b in BlockingKeys && b != k ==> DemandFor(f1[k := StrValue(s)], b) == DemandFor(f1, b)
  {
  }

  /** One more string value on an absent categorical key keeps a subsequence of the survivors. */
  lemma NarrowedConstraints(t: seq<CourseRecord>, f1: Filters, k: string, s: string)
    requires k in BlockingKeys && k !in f1
    requires ConstraintsOf(f1).Some?
    ensures ConstraintsOf(f1[k := StrValue(s)]).Some?
    ensures IsSubsequence(Survivors(t, ConstraintsOf(f1[k := StrValue(s)]).value),
                          Survivors(t, ConstraintsOf(f1).value))
  {
    var f2 := f1[k := StrValue(s)];
    var cs := ConstraintsOf(f1).value;
    var col := ColumnOf(k);
    AddedDemands(f1, k, s);
    assert cs.At(col) == None;
    var cs2 := ConstraintsOf(f2).value;
    assert forall b :: b in BlockingKeys && b != k ==> cs2.At(ColumnOf(b)) == cs.At(ColumnOf(b));
    if DemandFor(f2, k).Equal? {
      var q := DemandFor(f2, k).q;
      assert cs2.At(col) == Some(q);
      ColumnsOfKeys(cs2, cs.Set(col, q), k);
      ConstraintNarrows(t, cs, col, q);
    } else {
      assert cs2.At(col) == None;
      ColumnsOfKeys(cs2, cs, k);
      SubsequenceReflexive(Survivors(t, cs));
    }
  }

  /**
   * Two constraint sets equal on the column of `k` and on the columns of
   * all the other categorical keys are equal.
   */
  lemma ColumnsOfKeys(a: Constraints, b: Constraints, k: string)
    requires k in BlockingKeys
    requires a.At(ColumnOf(k)) == b.At(ColumnOf(k))
    requires forall x :: x in BlockingKeys && x != k ==> a.At(ColumnOf(x)) == b.At(ColumnOf(x))
    ensures a == b
  {
    assert ColumnOf(UniversityKey) == UniversityName && ColumnOf(FieldKey) == FieldName;
    assert ColumnOf(LocationKey) == Location && ColumnOf(DegreeKey) == DegreeProgram;
    assert UniversityKey in BlockingKeys && FieldKey in BlockingKeys;
    assert LocationKey in BlockingKeys && DegreeKey in BlockingKeys;
    ConstraintsAgree(a, b);
  }

  lemma {:induction false} SubsequenceReflexive<T>(a: seq<T>)
    ensures IsSubsequence(a, a)
    decreases |a|
  {
    if a != [] {
      SubsequenceReflexive(a[..|a| - 1]);
    }
  }

  lemma SubsequenceOfEmpty<T>(a: seq<T>)
    requires IsSubsequence(a, [])
    ensures a == []
  {
  }
}
