/**
 * The structured tool adapter: a typed set of criteria is reduced to its
 * non-null fields, run through `initial_filtering`, and the rows are listed
 * university by university, at most ten per university.
 */
module StructuredTool {
  import opened Wrappers
  import opened Values
  import opened Text
  import opened Filter
  import opened Replies
  import opened SampleCatalog

  // =====================================================================
  // The criteria

  /** The typed request; every field is optional and absent by default. */
  datatype FilterCriteria = FilterCriteria(
    universityName: Option<string>,
    latestQualification: Option<string>,
    fieldType: Option<string>,
    degreeProgram: Option<string>,
    location: Option<string>,
    courseName: Option<string>,
    gpa: Option<real>,
    ielts: Option<real>,
    ieltsIndividualComponent: Option<real>,
    btecDiploma: Option<string>,
    btecExtendedDiploma: Option<string>,
    gcseOverall: Option<string>,
    mandatorySubjectOfGcse: Option<seq<string>>,
    aLevelsOverall: Option<string>,
    mandatorySubjectOfALevels: Option<seq<string>>)

  /** The criteria with nothing set. */
  const NoCriteria := FilterCriteria(None, None, None, None, None, None, None, None, None,
                                     None, None, None, None, None, None)

  /** The keys `model_dump` produces: the field names, in declaration order. */
  const FieldNames: seq<string> := [
    "university_name", "latest_qualification", "field_type", "degree_program", "location",
    "course_name", "gpa", "ielts", "ielts_individual_component", "btec_diploma",
    "btec_extended_diploma", "gcse_overall", "mandatory_subject_of_gcse", "a_levels_overall",
    "mandatory_subject_of_a_levels"]

  function TextValue(o: Option<string>): Option<FilterValue> {
    if o.Some? then Some(StrValue(o.value)) else None
  }

  /** A float is truthy when it is not zero. */
  function NumberValue(o: Option<real>): Option<FilterValue> {
    if o.Some? then Some(OtherValue(o.value != 0.0)) else None
  }

  /** A list is truthy when it is not empty. */
  function ListValue(o: Option<seq<string>>): Option<FilterValue> {
    if o.Some? then Some(OtherValue(o.value != [])) else None
  }

  /** The value `model_dump` gives under key `k`, None for Python's `None`. */
  function Dumped(c: FilterCriteria, k: string): (r: Option<FilterValue>)
    ensures r.Some? ==> !r.value.Null?
  {
    if k == "university_name" then TextValue(c.universityName)
    else if k == "latest_qualification" then TextValue(c.latestQualification)
    else if k == "field_type" then TextValue(c.fieldType)
    else if k == "degree_program" then TextValue(c.degreeProgram)
    else if k == "location" then TextValue(c.location)
    else if k == "course_name" then TextValue(c.courseName)
    else if k == "gpa" then NumberValue(c.gpa)
    else if k == "ielts" then NumberValue(c.ielts)
    else if k == "ielts_individual_component" then NumberValue(c.ieltsIndividualComponent)
    else if k == "btec_diploma" then TextValue(c.btecDiploma)
    else if k == "btec_extended_diploma" then TextValue(c.btecExtendedDiploma)
    else if k == "gcse_overall" then TextValue(c.gcseOverall)
    else if k == "mandatory_subject_of_gcse" then ListValue(c.mandatorySubjectOfGcse)
    else if k == "a_levels_overall" then TextValue(c.aLevelsOverall)
    else if k == "mandatory_subject_of_a_levels" then ListValue(c.mandatorySubjectOfALevels)
    else None
  }

  /** The request dictionary: every dumped field whose value is not `None`. */
  function NonNoneFilters(c: FilterCriteria): (r: Filters)
    ensures forall k :: k in r ==> k in FieldNames && !r[k].Null?
    ensures forall k :: k in FieldNames ==> (k in r <==> Dumped(c, k).Some?)
  {
    map k | k in FieldNames && Dumped(c, k).Some? :: Dumped(c, k).value
  }

  // =====================================================================
  // Grouping by university

  /** At most this many courses are listed per university. */
  const PerUniversity := 10

  predicate StrictlySorted(keys: seq<string>) {
    forall i, j :: 0 <= i < j < |keys| ==> Below(keys[i], keys[j])
  }

  /** A key below the first of a sorted list is below all of it. */
  lemma BelowAll(u: string, keys: seq<string>)
    requires StrictlySorted(keys) && keys != [] && Below(u, keys[0])
    ensures forall j :: 0 <= j < |keys| ==> Below(u, keys[j])
  {
    forall j | 0 < j < |keys|
      ensures Below(u, keys[j])
    {
      BelowTransitive(u, keys[0], keys[j]);
    }
  }

  /** `u` put into its place in a sorted list of distinct keys. */
  function Insert(keys: seq<string>, u: string): (r: seq<string>)
    requires StrictlySorted(keys)
    ensures StrictlySorted(r)
    ensures forall x :: x in r <==> x in keys || x == u
    decreases |keys|
  {
    if keys == [] then [u]
    else if keys[0] == u then keys
    else if Below(u, keys[0]) then
      BelowAll(u, keys);
      [u] + keys
    else
      BelowTotal(u, keys[0]);
      var rest := Insert(keys[1..], u);
      assert forall x :: x in keys[1..] ==> Below(keys[0], x) by {
        assert forall j :: 0 <= j < |keys| - 1 ==> keys[1..][j] == keys[j + 1];
      }
      assert forall x :: x in rest ==> Below(keys[0], x);
      [keys[0]] + rest
  }

  /** The groups of `groupby("university_name")`: the distinct universities, sorted. */
  function GroupKeys(ps: seq<Pair>): (keys: seq<string>)
    ensures StrictlySorted(keys)
    ensures forall u :: u in keys <==> exists p :: p in ps && p.university == u
    decreases |ps|
  {
    if ps == [] then []
    else
      var init := ps[..|ps| - 1];
      assert ps == init + [ps[|ps| - 1]];
      Insert(GroupKeys(init), ps[|ps| - 1].university)
  }

  /** The rows of one group, in their order. */
  function OfUniversity(ps: seq<Pair>, u: string): (r: seq<Pair>)
    ensures forall p :: p in r <==> p in ps && p.university == u
    decreases |ps|
  {
    if ps == [] then []
    else
      var init := ps[..|ps| - 1];
      var last := ps[|ps| - 1];
      assert ps == init + [last];
      if last.university == u then OfUniversity(init, u) + [last] else OfUniversity(init, u)
  }

  /** `head(n)`. */
  function Head<T>(s: seq<T>, n: nat): (r: seq<T>)
    ensures |r| == if |s| < n then |s| else n
    ensures r == s[..|r|]
  {
    if |s| < n then s else s[..n]
  }

  /** The first `PerUniversity` rows of each group of `keys`, group after group. */
  function Capped(ps: seq<Pair>, keys: seq<string>): (r: seq<Pair>)
    ensures forall p :: p in r ==> p in ps && p.university in keys
    decreases |keys|
  {
    if keys == [] then []
    else
      var u := keys[|keys| - 1];
      var h := Head(OfUniversity(ps, u), PerUniversity);
      assert forall p :: p in h ==> p in OfUniversity(ps, u);
      Capped(ps, keys[..|keys| - 1]) + h
  }

  /** The rows the adapter lists. */
  function Selected(ps: seq<Pair>): (r: seq<Pair>)
    ensures forall p :: p in r ==> p in ps
  {
    Capped(ps, GroupKeys(ps))
  }

  // =====================================================================
  // The adapter

  /** The reply to `initial_filtering`'s result. */
  function Format(o: Outcome): (r: Reply)
    ensures o.Message? ==> r == Answer(o.text)
    ensures o.Pairs? ==> r.Answer?
    ensures r.AttributeErrorRaised? <==> o == AttributeError
    ensures r.KeyErrorRaised? <==> o.Universities? && o.names != []
  {
    match o
    case Message(m) => Answer(m)
    case AttributeError => AttributeErrorRaised
    case Pairs(ps) => if ps == [] then Answer(NoMatchMessage) else Answer(Join(Entries(Selected(ps)), EntrySeparator))
    case Universities(names) => if names == [] then Answer(NoMatchMessage) else KeyErrorRaised(CourseKey)
  }

  /**
   * What `initial_filtering_tool(input_data)` returns for the criteria. It
   * never raises: the shortcut never fires and every forwarded value that
   * the filter reads is a string.
   */
  function ToolReply(catalog: seq<CourseRecord>, criteria: FilterCriteria): (r: Reply)
    ensures r.Answer?
  {
    OnlyLocationConstrains(catalog, criteria);
    Format(InitialFilteringSpec(catalog, NonNoneFilters(criteria)))
  }

  /** The tool, step by step. */
  method InitialFilteringTool(catalog: seq<CourseRecord>, criteria: FilterCriteria) returns (reply: Reply)
    ensures reply == ToolReply(catalog, criteria)
  {
    var filters := NonNoneFilters(criteria);
    var outcome := InitialFiltering(catalog, filters);
    match outcome
    case Message(m) =>
      reply := Answer(m);
    case AttributeError =>
      reply := AttributeErrorRaised;
    case Universities(names) =>
      reply := if names == [] then Answer(NoMatchMessage) else KeyErrorRaised(CourseKey);
    case Pairs(ps) =>
      if ps == [] {
        reply := Answer(NoMatchMessage);
      } else {
        var entries := GroupedEntries(ps);
        reply := Answer(Join(entries, EntrySeparator));
      }
  }

  /** The loops over the groups and over the first rows of each. */
  method GroupedEntries(ps: seq<Pair>) returns (entries: seq<string>)
    ensures entries == Entries(Selected(ps))
  {
    var keys := GroupKeys(ps);
    entries := [];
    for i := 0 to |keys|
      invariant entries == Entries(Capped(ps, keys[..i]))
    {
      var top := Head(OfUniversity(ps, keys[i]), PerUniversity);
      assert keys[..i + 1][..i] == keys[..i];
      for j := 0 to |top|
        invariant entries == Entries(Capped(ps, keys[..i]) + top[..j])
      {
        assert top[..j + 1] == top[..j] + [top[j]];
        EntriesConcat(Capped(ps, keys[..i]) + top[..j], [top[j]]);
        entries := entries + [Entry(top[j])];
      }
      assert top[..|top|] == top;
    }
    assert keys[..|keys|] == keys;
  }

  // =====================================================================
  // The request the criteria make

  /** "location" is the fifth field name, and the four before it are longer. */
  lemma LocationDumped(c: FilterCriteria)
    ensures Dumped(c, LocationKey) == TextValue(c.location)
  {
  }

  lemma AliasNotAField()
    ensures CourseNameAlias !in FieldNames
  {
    assert CourseNameAlias[6] != "course_name"[6];
  }

  lemma CourseKeyNotAField()
    ensures CourseKey !in FieldNames
  {
    assert CourseKey[0] != "btec_extended_diploma"[0];
  }

  lemma UniversityKeyNotAField()
    ensures UniversityKey !in FieldNames
  {
    assert UniversityKey[10] != "university_name"[10];
  }

  lemma FieldKeyNotAField()
    ensures FieldKey !in FieldNames
  {
    assert FieldKey[5] != "field_type"[5];
  }

  lemma DegreeKeyNotAField()
    ensures DegreeKey !in FieldNames
  {
  }

  /** Criteria with nothing set forward no filter at all. */
  lemma NothingSetNothingForwarded()
    ensures NonNoneFilters(NoCriteria) == map[]
  {
    assert forall k :: Dumped(NoCriteria, k) == None;
  }

  /** A location is forwarded, as given, exactly when it is set. */
  lemma LocationForwarded(c: FilterCriteria)
    ensures LocationKey in NonNoneFilters(c) <==> c.location.Some?
    ensures c.location.Some? ==> NonNoneFilters(c)[LocationKey] == StrValue(c.location.value)
  {
    LocationDumped(c);
    assert LocationKey in FieldNames;
  }

  /** The constraint the criteria's location imposes on the location column. */
  function LocationConstraint(c: FilterCriteria): Option<string> {
    match c.location
    case None => None
    case Some(s) => AsConstraint(LocationDemand(StrValue(s)))
  }

  /**
   * Of all the criteria only the location reaches the filter: the other
   * field names are not the keys the filter reads, so the course-lookup
   * shortcut never fires and no other column is constrained.
   */
  lemma OnlyLocationConstrains(catalog: seq<CourseRecord>, c: FilterCriteria)
    ensures var rows := Survivors(NormalizeTable(catalog), Constraints(None, None, LocationConstraint(c), None));
            InitialFilteringSpec(catalog, NonNoneFilters(c))
            == if rows == [] then Message(NoMatchMessage) else Pairs(Project(rows))
  {
    var f := NonNoneFilters(c);
    AliasNotAField();
    CourseKeyNotAField();
    UniversityKeyNotAField();
    FieldKeyNotAField();
    DegreeKeyNotAField();
    LocationDumped(c);
    assert ResolveAlias(f) == f;
    assert Lookup(f, CourseKey) == Null;
    assert !ShortcutApplies(f);
    assert Lookup(f, LocationKey) == if c.location.Some? then StrValue(c.location.value) else Null;
    assert ConstraintsOf(f) == Some(Constraints(None, None, LocationConstraint(c), None));
  }

  /** Two sets of criteria with the same location get the same reply. */
  lemma OtherCriteriaIgnored(catalog: seq<CourseRecord>, c: FilterCriteria, d: FilterCriteria)
    requires c.location == d.location
    ensures ToolReply(catalog, c) == ToolReply(catalog, d)
  {
    OnlyLocationConstrains(catalog, c);
    OnlyLocationConstrains(catalog, d);
  }

  // =====================================================================
  // Properties of the listing

  lemma {:induction false} OfUniversityConcat(a: seq<Pair>, b: seq<Pair>, u: string)
    ensures OfUniversity(a + b, u) == OfUniversity(a, u) + OfUniversity(b, u)
    decreases |b|
  {
    if b == [] {
      assert a + b == a;
    } else {
      var init := b[..|b| - 1];
      assert (a + b)[..|a + b| - 1] == a + init;
      OfUniversityConcat(a, init, u);
    }
  }

  /** Picking university `u` out of rows that all belong to `k`. */
  lemma {:induction false} OfUniversityUniform(s: seq<Pair>, k: string, u: string)
    requires forall p :: p in s ==> p.university == k
    ensures OfUniversity(s, u) == if u == k then s else []
    decreases |s|
  {
    if s != [] {
      var init := s[..|s| - 1];
      assert s == init + [s[|s| - 1]];
      OfUniversityUniform(init, k, u);
    }
  }

  lemma SortedDistinct(keys: seq<string>)
    requires StrictlySorted(keys)
    ensures NoDuplicates(keys)
  {
    forall i, j | 0 <= i < j < |keys|
      ensures keys[i] != keys[j]
    {
      BelowIrreflexive(keys[i]);
    }
  }

  /** The rows of one group. */
  lemma HeadOfGroup(ps: seq<Pair>, k: string)
    ensures forall p :: p in Head(OfUniversity(ps, k), PerUniversity) ==> p in ps && p.university == k
  {
  }

  /** Listing groups `keys` keeps, of each listed university, its first rows. */
  lemma {:induction false} CappedOfUniversity(ps: seq<Pair>, keys: seq<string>, u: string)
    requires NoDuplicates(keys)
    ensures OfUniversity(Capped(ps, keys), u)
            == if u in keys then Head(OfUniversity(ps, u), PerUniversity) else []
    decreases |keys|
  {
    if keys != [] {
      var init := keys[..|keys| - 1];
      var k := keys[|keys| - 1];
      var top := Head(OfUniversity(ps, k), PerUniversity);
      assert keys == init + [k];
      CappedOfUniversity(ps, init, u);
      OfUniversityConcat(Capped(ps, init), top, u);
      HeadOfGroup(ps, k);
      OfUniversityUniform(top, k, u);
      if u == k {
        assert u !in init;
      }
    }
  }

  /**
   * Each university of the result is listed with its first ten rows, in
   * their order: no more, and none of another university's rows.
   */
  lemma CapPerUniversity(ps: seq<Pair>, u: string)
    ensures OfUniversity(Selected(ps), u) == Head(OfUniversity(ps, u), PerUniversity)
  {
    var keys := GroupKeys(ps);
    SortedDistinct(keys);
    CappedOfUniversity(ps, keys, u);
    if u !in keys {
      assert OfUniversity(ps, u) == [] by {
        if OfUniversity(ps, u) != [] {
          assert OfUniversity(ps, u)[0] in OfUniversity(ps, u);
        }
      }
    }
  }

  /** Some row of `ps` belongs to university `u`. */
  predicate HasUniversity(ps: seq<Pair>, u: string) {
    exists p :: p in ps && p.university == u
  }

  /** Every university of the result is listed, and only rows of the result are. */
  lemma ListingCovers(ps: seq<Pair>)
    ensures forall p :: p in Selected(ps) ==> p in ps
    ensures forall u :: HasUniversity(ps, u) ==> HasUniversity(Selected(ps), u)
  {
    forall p | p in Selected(ps)
      ensures p in ps
    {
      CapPerUniversity(ps, p.university);
      assert p in OfUniversity(Selected(ps), p.university);
    }
    forall u | HasUniversity(ps, u)
      ensures HasUniversity(Selected(ps), u)
    {
      var p :| p in ps && p.university == u;
      CapPerUniversity(ps, u);
      assert p in OfUniversity(ps, u);
      var q := OfUniversity(Selected(ps), u)[0];
      assert q in OfUniversity(Selected(ps), u);
    }
  }

  /** Every listed row belongs to one of the listed groups. */
  lemma {:induction false} CappedUniversities(ps: seq<Pair>, keys: seq<string>)
    ensures forall p :: p in Capped(ps, keys) ==> p.university in keys
    decreases |keys|
  {
    if keys != [] {
      var init := keys[..|keys| - 1];
      CappedUniversities(ps, init);
      HeadOfGroup(ps, keys[|keys| - 1]);
    }
  }

  /** The universities of `s` never go down. */
  predicate Ascending(s: seq<Pair>) {
    forall i, j :: 0 <= i < j < |s| ==>
      s[i].university == s[j].university || Below(s[i].university, s[j].university)
  }

  /** Listed in the order of sorted keys, the universities never go down. */
  lemma {:induction false} CappedOrdered(ps: seq<Pair>, keys: seq<string>)
    requires StrictlySorted(keys)
    ensures Ascending(Capped(ps, keys))
    decreases |keys|
  {
    if keys != [] {
      var init := keys[..|keys| - 1];
      var k := keys[|keys| - 1];
      var a := Capped(ps, init);
      var top := Head(OfUniversity(ps, k), PerUniversity);
      var s := Capped(ps, keys);
      assert s == a + top;
      assert StrictlySorted(init);
      CappedOrdered(ps, init);
      CappedUniversities(ps, init);
      HeadOfGroup(ps, k);
      forall i, j | 0 <= i < j < |s|
        ensures s[i].university == s[j].university || Below(s[i].university, s[j].university)
      {
        if j < |a| {
          assert s[i] == a[i] && s[j] == a[j];
        } else if i >= |a| {
          assert s[i] == top[i - |a|] && s[j] == top[j - |a|];
        } else {
          assert s[i] == a[i] && s[j] == top[j - |a|];
          assert a[i] in a && top[j - |a|] in top;
          assert a[i].university in init;
          var m :| 0 <= m < |init| && init[m] == a[i].university;
          assert init[m] == keys[m];
          assert Below(keys[m], keys[|keys| - 1]);
        }
      }
    }
  }

  /**
   * The listing is grouped by university, the groups in ascending name
   * order: a university's rows are never interrupted by another's.
   */
  lemma GroupsContiguous(ps: seq<Pair>)
    ensures var s := Selected(ps);
            forall i, j, k :: 0 <= i < j < k < |s| && s[i].university == s[k].university ==>
              s[j].university == s[i].university
  {
    var s := Selected(ps);
    CappedOrdered(ps, GroupKeys(ps));
    assert Ascending(s);
    forall i, j, k | 0 <= i < j < k < |s| && s[i].university == s[k].university
      ensures s[j].university == s[i].university
    {
      if s[j].university != s[i].university {
        assert Below(s[i].university, s[j].university);
        if s[j].university != s[k].university {
          BelowTransitive(s[i].university, s[j].university, s[k].university);
        }
        BelowIrreflexive(s[i].university);
      }
    }
  }

  /** The reply when some rows survive: one entry per listed row, joined. */
  lemma ReplyListsSelected(catalog: seq<CourseRecord>, c: FilterCriteria)
    ensures var rows := Survivors(NormalizeTable(catalog), Constraints(None, None, LocationConstraint(c), None));
            ToolReply(catalog, c) ==
              if rows == [] then Answer(NoMatchMessage)
              else Answer(Join(Entries(Selected(Project(rows))), EntrySeparator))
  {
    OnlyLocationConstrains(catalog, c);
  }

  // =====================================================================
  // A worked example

  lemma LondonDemand()
    ensures LocationDemand(StrValue("london")) == Equal("london")
  {
    LocationNormal();
  }

  lemma SampleInLondon()
    ensures Survivors([NormalRow], Constraints(None, None, Some("london"), None)) == [NormalRow]
  {
    assert Meets(NormalRow, Constraints(None, None, Some("london"), None));
  }

  lemma SampleListing()
    ensures Selected([Pair("x", "civil engineering")]) == [Pair("x", "civil engineering")]
  {
    var ps := [Pair("x", "civil engineering")];
    assert ps[..0] == [];
    assert GroupKeys(ps) == ["x"];
    assert OfUniversity(ps, "x") == ps;
    assert ["x"][..0] == [];
  }

  lemma SampleSurvivors(c: FilterCriteria)
    requires c.location == Some("london")
    ensures Survivors(NormalizeTable([SampleRow]), Constraints(None, None, LocationConstraint(c), None))
            == [NormalRow]
  {
    LondonDemand();
    SampleNormalized();
    SampleInLondon();
  }

  /**
   * Any criteria asking for London, whatever field, degree or scores they
   * also give, list the sample course with its normalised university name.
   */
  lemma SampleStructuredRequest(c: FilterCriteria)
    requires c.location == Some("london")
    ensures ToolReply([SampleRow], c) == Answer("x - civil engineering")
  {
    ReplyListsSelected([SampleRow], c);
    SampleSurvivors(c);
    SampleProjected();
    SampleListing();
    SampleEntry();
  }
}
