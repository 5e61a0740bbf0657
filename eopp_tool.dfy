/**
 * The JSON-string tool adapter: it parses the request, runs
 * `initial_filtering` and turns its result into one line of text for the
 * agent.
 */
module JsonTool {
  import opened Wrappers
  import opened Values
  import opened Text
  import opened Filter
  import opened FilterProperties
  import opened Replies
  import opened SampleCatalog

  const ParseErrorPrefix := "Error parsing filters JSON: "

  /**
   * The reply to `initial_filtering`'s result as the adapter is written: a
   * message passes through, an exception escapes, rows become entries. On
   * the one-column frame of the course-lookup shortcut the per-row lookup of
   * the course column raises `KeyError`.
   */
  function FormatAsWritten(o: Outcome): (r: Reply)
    ensures o.Message? ==> r == Answer(o.text)
    ensures r.AttributeErrorRaised? <==> o == AttributeError
    ensures r.KeyErrorRaised? <==> o.Universities? && o.names != []
  {
    match o
    case Message(m) => Answer(m)
    case AttributeError => AttributeErrorRaised
    case Pairs(ps) => if ps == [] then Answer(NoMatchMessage) else Answer(Join(Entries(ps), EntrySeparator))
    case Universities(names) => if names == [] then Answer(NoMatchMessage) else KeyErrorRaised(CourseKey)
  }

  /** The reply with the shortcut's universities listed instead. */
  function Format(o: Outcome): (r: Reply)
    ensures !r.KeyErrorRaised?
    ensures r.AttributeErrorRaised? <==> o == AttributeError
    ensures o.Universities? && o.names != [] ==> r == Answer(Join(o.names, EntrySeparator))
    ensures !(o.Universities? && o.names != []) ==> r == FormatAsWritten(o)
  {
    if o.Universities? && o.names != [] then Answer(Join(o.names, EntrySeparator)) else FormatAsWritten(o)
  }

  /**
   * `initial_filtering_tool(filters_json)` as written, where `parsed` is what
   * `json.loads` made of the argument: the request, or the parser's message.
   */
  function ToolReplyAsWritten(catalog: seq<CourseRecord>, parsed: Result<Filters>): (r: Reply)
    ensures parsed.Failure? ==> r == Answer(ParseErrorPrefix + parsed.message)
    ensures r.KeyErrorRaised? ==> parsed.Success? && ShortcutApplies(ResolveAlias(parsed.value))
  {
    match parsed
    case Failure(e) => Answer(ParseErrorPrefix + e)
    case Success(filters) => FormatAsWritten(InitialFilteringSpec(catalog, filters))
  }

  /** The adapter with the course-lookup reply repaired. */
  function ToolReply(catalog: seq<CourseRecord>, parsed: Result<Filters>): (r: Reply)
    ensures parsed.Failure? ==> r == Answer(ParseErrorPrefix + parsed.message)
    ensures !r.KeyErrorRaised?
    ensures r.AttributeErrorRaised? ==> parsed.Success?
  {
    match parsed
    case Failure(e) => Answer(ParseErrorPrefix + e)
    case Success(filters) => Format(InitialFilteringSpec(catalog, filters))
  }

  // =====================================================================
  // Properties

  /** Malformed JSON is reported, with the parser's message after a fixed prefix. */
  lemma ParseErrorReported(catalog: seq<CourseRecord>, e: string)
    ensures ToolReply(catalog, Failure(e)).Answer?
    ensures var text := ToolReply(catalog, Failure(e)).text;
            StartsWith(text, ParseErrorPrefix) && text[|ParseErrorPrefix|..] == e
  {
  }

  /** A message from the pipeline is handed back unchanged. */
  lemma MessagesPassThrough(catalog: seq<CourseRecord>, filters: Filters)
    requires InitialFilteringSpec(catalog, filters).Message?
    ensures var m := InitialFilteringSpec(catalog, filters).text;
            ToolReply(catalog, Success(filters)) == Answer(m) &&
            (m == NoMatchMessage || m == NoUniversitiesMessage)
  {
  }

  /**
   * The only exception that escapes the repaired adapter is the
   * AttributeError of a truthy non-string value: a non-string course query
   * on the shortcut, or a non-string categorical value otherwise.
   */
  lemma OnlyNonTextRaises(catalog: seq<CourseRecord>, filters: Filters)
    ensures var f := ResolveAlias(filters);
            var r := ToolReply(catalog, Success(filters));
            !r.KeyErrorRaised? &&
            (r.AttributeErrorRaised? <==>
               if ShortcutApplies(f) then !f[CourseKey].StrValue? else ConstraintsOf(f).None?)
  {
    var f := ResolveAlias(filters);
    var o := InitialFilteringSpec(catalog, filters);
    FormatRaises(o);
    if ShortcutApplies(f) {
      assert o == ShortcutOutcome(NormalizeTable(catalog), f[CourseKey]);
    } else {
      assert o == StandardOutcome(NormalizeTable(catalog), f);
    }
  }

  /** The repaired formatting raises only for the pipeline's own AttributeError. */
  lemma FormatRaises(o: Outcome)
    ensures !Format(o).KeyErrorRaised?
    ensures Format(o).AttributeErrorRaised? <==> o.AttributeError?
  {
  }

  /**
   * In standard mode every surviving row becomes one entry,
   * "university - course", in catalog order, joined with ", ": the reply is
   * as long as the entries plus one separator between each neighbouring
   * pair; with no survivor it is the fixed message.
   */
  lemma RowsBecomeEntries(catalog: seq<CourseRecord>, filters: Filters)
    requires !ShortcutApplies(ResolveAlias(filters)) && ConstraintsOf(ResolveAlias(filters)).Some?
    ensures var rows := Survivors(NormalizeTable(catalog), ConstraintsOf(ResolveAlias(filters)).value);
            var r := ToolReply(catalog, Success(filters));
            r.Answer? &&
            (rows == [] ==> r.text == NoMatchMessage) &&
            (rows != [] ==>
               r.text == Join(Entries(Project(rows)), EntrySeparator) &&
               |r.text| == PairsLength(Project(rows)) + 2 * (|rows| - 1) &&
               forall i :: 0 <= i < |rows| ==>
                 Entries(Project(rows))[i] == Read(rows[i], UniversityName) + " - " + Read(rows[i], CourseOrDegreeName))
  {
    var f := ResolveAlias(filters);
    var rows := Survivors(NormalizeTable(catalog), ConstraintsOf(f).value);
    assert InitialFilteringSpec(catalog, filters) == StandardOutcome(NormalizeTable(catalog), f);
    if rows != [] {
      JoinedEntriesLength(Project(rows));
    }
  }

  // =====================================================================
  // The course-lookup reply

  /**
   * As written, a course-lookup query that some university offers makes the
   * adapter raise `KeyError` instead of answering.
   */
  lemma ShortcutHitRaisesAsWritten(catalog: seq<CourseRecord>, filters: Filters, u: string)
    requires ShortcutApplies(ResolveAlias(filters)) && ResolveAlias(filters)[CourseKey].StrValue?
    requires Offers(NormalizeTable(catalog), Normalize(ResolveAlias(filters)[CourseKey].s), u)
    ensures ToolReplyAsWritten(catalog, Success(filters)) == KeyErrorRaised(CourseKey)
  {
    ShortcutFindsUniversities(catalog, filters);
  }

  /**
   * Repaired, the course lookup answers with the distinct universities that
   * offer the query, comma-separated, and with the fixed message when none
   * does.
   */
  lemma ShortcutAnswered(catalog: seq<CourseRecord>, filters: Filters)
    requires ShortcutApplies(ResolveAlias(filters)) && ResolveAlias(filters)[CourseKey].StrValue?
    ensures var t := NormalizeTable(catalog);
            var q := Normalize(ResolveAlias(filters)[CourseKey].s);
            var r := ToolReply(catalog, Success(filters));
            ((forall u :: !Offers(t, q, u)) ==> r == Answer(NoUniversitiesMessage)) &&
            ((exists u :: Offers(t, q, u)) ==>
               exists names :: r == Answer(Join(names, EntrySeparator)) && names != [] && NoDuplicates(names) &&
                 forall u :: u in names <==> Offers(t, q, u))
  {
    ShortcutFindsUniversities(catalog, filters);
    var o := InitialFilteringSpec(catalog, filters);
    if o.Universities? {
      assert ToolReply(catalog, Success(filters)) == Answer(Join(o.names, EntrySeparator));
    }
  }

  /** Outside a course-lookup hit the repaired adapter answers as written. */
  lemma RepairIsLocal(catalog: seq<CourseRecord>, parsed: Result<Filters>)
    ensures ToolReply(catalog, parsed) != ToolReplyAsWritten(catalog, parsed) <==>
              parsed.Success? && InitialFilteringSpec(catalog, parsed.value).Universities?
  {
  }

  // =====================================================================
  // Worked examples

  lemma CivilNormal()
    ensures Normalize("civil") == "civil"
  {
    NormalFixed("civil");
  }

  lemma CivilContained()
    ensures Contains("civil engineering", "civil")
  {
    ContainsInfix([], "civil", " engineering");
    assert [] + "civil" + " engineering" == "civil engineering";
  }

  /** The lookup request for "civil", by its alias. */
  const LookupRequest: Filters := map[CourseNameAlias := StrValue("civil")]

  lemma LookupTakesShortcut()
    ensures ResolveAlias(LookupRequest) == map[CourseKey := StrValue("civil")]
    ensures ShortcutApplies(ResolveAlias(LookupRequest))
  {
  }

  lemma LookupHitsSample()
    ensures Containing([NormalRow], Normalize("civil")) == [NormalRow]
  {
    CivilNormal();
    CivilContained();
    SampleNormalized();
    assert NormalRow in NormalizeTable([SampleRow]);
    CaselessIsPlain([SampleRow], NormalRow, "civil");
  }

  /** On the sample catalog the lookup of "civil" finds university "x". */
  lemma SampleLookupOutcome()
    ensures InitialFilteringSpec([SampleRow], LookupRequest) == Universities(["x"])
  {
    LookupTakesShortcut();
    SampleNormalized();
    assert InitialFilteringSpec([SampleRow], LookupRequest) == ShortcutOutcome([NormalRow], StrValue("civil"));
    SampleShortcut();
  }

  lemma SampleShortcut()
    ensures ShortcutOutcome([NormalRow], StrValue("civil")) == Universities(["x"])
  {
    LookupHitsSample();
    SampleNames();
  }

  lemma SampleNames()
    ensures Distinct(UniversityNames([NormalRow])) == ["x"]
  {
    assert UniversityNames([NormalRow]) == ["x"];
    assert Distinct(["x"]) == ["x"];
  }

  /** Asking the sample catalog for "civil" courses crashes as written and names "x" repaired. */
  lemma SampleCourseLookup()
    ensures ToolReplyAsWritten([SampleRow], Success(LookupRequest))
            == KeyErrorRaised(CourseKey)
    ensures ToolReply([SampleRow], Success(LookupRequest)) == Answer("x")
  {
    SampleLookupOutcome();
  }

  /** The request of the adapter's usage note, over the sample catalog. */
  const UsageRequest: Filters := map[UniversityKey := Null, FieldKey := StrValue("engineering"),
                                     LocationKey := StrValue("london"), DegreeKey := StrValue("bachelor's")]

  lemma UsageConstraints()
    ensures ConstraintsOf(UsageRequest) == Some(Constraints(None, Some("engineering"), Some("london"), Some("bachelor's")))
  {
    UsageUniversityDemand();
    UsageFieldDemand();
    UsageLocationDemand();
    UsageDegreeDemand();
  }

  lemma UsageUniversityDemand()
    ensures DemandFor(UsageRequest, UniversityKey) == Unconstrained
  {
  }

  lemma UsageFieldDemand()
    ensures DemandFor(UsageRequest, FieldKey) == Equal("engineering")
  {
    FieldNormal();
  }

  lemma UsageLocationDemand()
    ensures DemandFor(UsageRequest, LocationKey) == Equal("london")
  {
    LocationNormal();
  }

  lemma UsageDegreeDemand()
    ensures DemandFor(UsageRequest, DegreeKey) == Equal("bachelor's")
  {
    DegreeNormal();
  }

  lemma UsageTakesStandardMode()
    ensures ResolveAlias(UsageRequest) == UsageRequest
    ensures !ShortcutApplies(UsageRequest)
  {
    assert UniversityKey in BlockingKeys && UniversityKey in UsageRequest;
  }

  lemma SampleMeetsUsage()
    ensures Survivors([NormalRow], Constraints(None, Some("engineering"), Some("london"), Some("bachelor's")))
            == [NormalRow]
  {
    var cs := Constraints(None, Some("engineering"), Some("london"), Some("bachelor's"));
    assert Meets(NormalRow, cs);
  }

  lemma UsageStandardOutcome()
    ensures StandardOutcome([NormalRow], UsageRequest) == Pairs([Pair("x", "civil engineering")])
  {
    UsageConstraints();
    SampleMeetsUsage();
    SampleProjected();
  }

  lemma UsageOutcome()
    ensures InitialFilteringSpec([SampleRow], UsageRequest) == Pairs([Pair("x", "civil engineering")])
  {
    UsageTakesStandardMode();
    SampleNormalized();
    assert InitialFilteringSpec([SampleRow], UsageRequest) == StandardOutcome([NormalRow], UsageRequest);
    UsageStandardOutcome();
  }

  /**
   * The request of the adapter's usage note finds the sample course; the
   * entry carries the normalised, lower-cased university name.
   */
  lemma SampleStandardRequest()
    ensures ToolReply([SampleRow], Success(UsageRequest)) == Answer("x - civil engineering")
  {
    UsageOutcome();
    SampleEntry();
  }
}
