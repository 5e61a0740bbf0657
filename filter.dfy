/**
 * `initial_filtering` (chatbot/filter.py): the course catalog is normalised
 * column by column, the `"course name"` alias is resolved, and then either
 * the course-lookup shortcut answers with the distinct universities whose
 * course title contains the query, or the four categorical filters are
 * applied one after another and the surviving rows are projected to
 * (university, course) pairs.
 *
 * The spreadsheet is passed in as a sequence of records; its six
 * normalised columns are always present.
 */
module Filter {
  import opened Wrappers
  import opened Values
  import opened Text

  // =====================================================================
  // The catalog

  /** The columns the pipeline normalises. */
  datatype Column = UniversityName | FieldName | Location | DegreeProgram | CourseOrDegreeName | Country

  /** The columns in the order the normalisation loop visits them. */
  const NormalizedColumns: seq<Column> :=
    [UniversityName, FieldName, Location, DegreeProgram, CourseOrDegreeName, Country]

  /** One row of the course spreadsheet. */
  datatype CourseRecord = CourseRecord(
    university: Cell, field: Cell, location: Cell, degree: Cell, course: Cell, country: Cell)
  {
    function Get(c: Column): Cell {
      match c
      case UniversityName => university
      case FieldName => field
      case Location => location
      case DegreeProgram => degree
      case CourseOrDegreeName => course
      case Country => country
    }

    function With(c: Column, v: Cell): (r: CourseRecord)
      ensures r.Get(c) == v
      ensures forall d :: d != c ==> r.Get(d) == Get(d)
    {
      match c
      case UniversityName => this.(university := v)
      case FieldName => this.(field := v)
      case Location => this.(location := v)
      case DegreeProgram => this.(degree := v)
      case CourseOrDegreeName => this.(course := v)
      case Country => this.(country := v)
    }
  }

  /** `astype(str).str.strip().str.lower()` on one cell. */
  function NormalizeCell(c: Cell): (r: Cell)
    ensures r.Str?
  {
    Str(Normalize(Render(c)))
  }

  /** Every normalised cell holds lower-case text with no surrounding whitespace. */
  lemma NormalizedCellIsNormal(c: Cell)
    ensures IsLowered(NormalizeCell(c).s) && IsStripped(NormalizeCell(c).s)
  {
    NormalizeIsNormal(Render(c));
  }

  /** A cell that is already normalised is left as it is. */
  lemma NormalizeCellIdempotent(c: Cell)
    ensures NormalizeCell(NormalizeCell(c)) == NormalizeCell(c)
  {
    NormalizeIdempotent(Render(c));
  }

  /** A missing cell becomes the text "nan", so the later `notna` test never rejects it. */
  lemma MissingCellReadsNan()
    ensures NormalizeCell(Missing) == Str("nan")
  {
    assert Strip("nan") == "nan" by { StripOfStripped("nan"); }
    assert Lower("nan") == "nan" by { LowerFixes("nan"); }
  }

  /** Every column of a record normalised. */
  function NormalizeRecord(r: CourseRecord): CourseRecord {
    CourseRecord(NormalizeCell(r.university), NormalizeCell(r.field), NormalizeCell(r.location),
                 NormalizeCell(r.degree), NormalizeCell(r.course), NormalizeCell(r.country))
  }

  /** The normalised catalog the rest of the pipeline reads. */
  function NormalizeTable(catalog: seq<CourseRecord>): (t: seq<CourseRecord>)
    ensures |t| == |catalog|
    ensures forall j :: 0 <= j < |t| ==> t[j] == NormalizeRecord(catalog[j])
  {
    seq(|catalog|, j requires 0 <= j < |catalog| => NormalizeRecord(catalog[j]))
  }

  /** One step of the normalisation loop: one column rewritten in every row. */
  function NormalizeColumn(rows: seq<CourseRecord>, col: Column): (r: seq<CourseRecord>)
    ensures |r| == |rows|
    ensures forall j :: 0 <= j < |r| ==> r[j] == rows[j].With(col, NormalizeCell(rows[j].Get(col)))
  {
    seq(|rows|, j requires 0 <= j < |rows| => rows[j].With(col, NormalizeCell(rows[j].Get(col))))
  }

  /** The text of a normalised cell. */
  function Read(r: CourseRecord, c: Column): string {
    Render(r.Get(c))
  }

  // =====================================================================
  // The filter request

  /**
   * A value in the request dictionary: JSON `null`, a string, or any
   * other value, of which only its Python truthiness matters.
   */
  datatype FilterValue = Null | StrValue(s: string) | OtherValue(truthy: bool)

  type Filters = map<string, FilterValue>

  predicate Truthy(v: FilterValue) {
    match v
    case Null => false
    case StrValue(s) => s != []
    case OtherValue(t) => t
  }

  /** `filters.get(key)`. */
  function Lookup(f: Filters, key: string): (v: FilterValue)
    ensures key !in f ==> v == Null
  {
    if key in f then f[key] else Null
  }

  const CourseNameAlias := "course name"
  const CourseKey := "course_or_degree_name"
  const UniversityKey := "university name"
  const FieldKey := "field type"
  const LocationKey := "location"
  const DegreeKey := "degree program type"

  /** The keys whose mere presence turns the course-lookup shortcut off. */
  const BlockingKeys: seq<string> := [UniversityKey, FieldKey, LocationKey, DegreeKey]

  /** The location that means the whole country: no location constraint. */
  const WholeCountry := "uk"

  const NoUniversitiesMessage := "No universities found for this course."
  const NoMatchMessage := "No matching results found."

  /**
   * `filters["course_or_degree_name"] = filters.pop("course name")`: the
   * alias is moved to the course key, overwriting it, and nothing else
   * changes.
   */
  function ResolveAlias(f: Filters): (r: Filters)
    ensures CourseNameAlias !in r
    ensures CourseNameAlias in f ==> CourseKey in r && r[CourseKey] == f[CourseNameAlias]
    ensures CourseNameAlias !in f ==> r == f
    ensures forall k :: k != CourseNameAlias && k != CourseKey ==>
              (k in r <==> k in f) && (k in r ==> r[k] == f[k])
  {
    if CourseNameAlias in f then (f - {CourseNameAlias})[CourseKey := f[CourseNameAlias]] else f
  }

  /**
   * The shortcut fires on a truthy course value when no categorical key is
   * present at all, even with a null value.
   */
  predicate ShortcutApplies(f: Filters)
    ensures ShortcutApplies(f) ==> CourseKey in f && Truthy(f[CourseKey])
    ensures (exists k :: k in BlockingKeys && k in f) ==> !ShortcutApplies(f)
  {
    Truthy(Lookup(f, CourseKey)) && forall k :: k in BlockingKeys ==> k !in f
  }

  // =====================================================================
  // The course-lookup shortcut

  /**
   * `str.contains(q, case=False, regex=False)` on the course column:
   * pandas upper-cases both sides and searches for a plain substring.
   */
  predicate CourseContains(r: CourseRecord, q: string) {
    Contains(Upper(Read(r, CourseOrDegreeName)), Upper(q))
  }

  /** The rows whose course title contains the query, in catalog order. */
  function Containing(rows: seq<CourseRecord>, q: string): (r: seq<CourseRecord>)
    ensures IsSubsequence(r, rows)
    decreases |rows|
  {
    if rows == [] then []
    else
      var rest := Containing(rows[..|rows| - 1], q);
      var last := rows[|rows| - 1];
      assert rows == rows[..|rows| - 1] + [last];
      SubsequenceSnoc(rest, rows[..|rows| - 1], last);
      if CourseContains(last, q) then rest + [last] else rest
  }

  /** The rows `Containing` keeps are exactly those whose title contains the query. */
  lemma {:induction false} ContainingMembers(rows: seq<CourseRecord>, q: string)
    ensures forall x :: x in Containing(rows, q) <==> x in rows && CourseContains(x, q)
    decreases |rows|
  {
    if rows != [] {
      var init := rows[..|rows| - 1];
      ContainingMembers(init, q);
      assert rows == init + [rows[|rows| - 1]];
    }
  }

  function UniversityNames(rows: seq<CourseRecord>): (r: seq<string>)
    ensures |r| == |rows|
    ensures forall j :: 0 <= j < |r| ==> r[j] == Read(rows[j], UniversityName)
  {
    seq(|rows|, j requires 0 <= j < |rows| => Read(rows[j], UniversityName))
  }

  predicate NoDuplicates<T(==)>(xs: seq<T>) {
    forall i, j :: 0 <= i < j < |xs| ==> xs[i] != xs[j]
  }

  /** `drop_duplicates()`: first occurrences kept, in order. */
  function Distinct(xs: seq<string>): (r: seq<string>)
    ensures NoDuplicates(r)
    ensures forall x :: x in r <==> x in xs
    ensures IsSubsequence(r, xs)
    ensures |r| <= |xs|
    decreases |xs|
  {
    if xs == [] then []
    else
      var d := Distinct(xs[..|xs| - 1]);
      var last := xs[|xs| - 1];
      assert xs == xs[..|xs| - 1] + [last];
      SubsequenceSnoc(d, xs[..|xs| - 1], last);
      if last in d then d else d + [last]
  }

  /** The position of the first occurrence of `x` in `xs`. */
  function FirstIndex<T(==)>(xs: seq<T>, x: T): (i: nat)
    requires x in xs
    ensures i < |xs| && xs[i] == x && x !in xs[..i]
    decreases |xs|
  {
    if xs[0] == x then 0
    else
      var i := FirstIndex(xs[1..], x);
      assert xs[..i + 1] == [xs[0]] + xs[1..][..i];
      i + 1
  }

  /** Only one position holds the first occurrence. */
  lemma FirstIndexUnique<T>(xs: seq<T>, x: T, i: nat)
    requires i < |xs| && xs[i] == x && x !in xs[..i]
    ensures FirstIndex(xs, x) == i
  {
  }

  /** Appending an element leaves every earlier first occurrence where it was. */
  lemma FirstIndexSnoc<T>(xs: seq<T>, y: T, x: T)
    requires x in xs
    ensures FirstIndex(xs + [y], x) == FirstIndex(xs, x)
  {
    var k := FirstIndex(xs, x);
    assert (xs + [y])[..k] == xs[..k];
    FirstIndexUnique(xs + [y], x, k);
  }

  /**
   * `drop_duplicates` keeps first occurrences in order: the names kept are
   * listed in the order in which each first occurs in `xs`.
   */
  lemma {:induction false} DistinctKeepsFirstOccurrences(xs: seq<string>)
    ensures forall i, j :: 0 <= i < j < |Distinct(xs)| ==>
              FirstIndex(xs, Distinct(xs)[i]) < FirstIndex(xs, Distinct(xs)[j])
    decreases |xs|
  {
    if xs != [] {
      var init := xs[..|xs| - 1];
      var last := xs[|xs| - 1];
      var d := Distinct(init);
      assert xs == init + [last];
      DistinctKeepsFirstOccurrences(init);
      forall x | x in init
        ensures FirstIndex(xs, x) == FirstIndex(init, x) < |init|
      {
        FirstIndexSnoc(init, last, x);
      }
      if last !in d {
        assert init[..|init|] == init;
        FirstIndexUnique(xs, last, |init|);
      }
    }
  }

  // =====================================================================
  // The categorical filters

  /** What one request value asks of its column. */
  datatype Demand = Unconstrained | Equal(q: string) | NotText

  /**
   * `if filters.get(key): ... filters[key].strip().lower()`: a falsy value
   * is ignored, a string is normalised, and anything else has no `strip`.
   */
  function DemandOf(v: FilterValue): (d: Demand)
    ensures d.Unconstrained? <==> !Truthy(v)
    ensures d.NotText? <==> Truthy(v) && !v.StrValue?
    ensures d.Equal? ==> v.StrValue? && d.q == Normalize(v.s)
  {
    if !Truthy(v) then Unconstrained
    else if v.StrValue? then Equal(Normalize(v.s))
    else NotText
  }

  /** The location filter also ignores "uk". */
  function LocationDemand(v: FilterValue): (d: Demand)
    ensures d.Equal? ==> d.q != WholeCountry && d == DemandOf(v)
    ensures d.Unconstrained? <==> DemandOf(v).Unconstrained? || DemandOf(v) == Equal(WholeCountry)
    ensures d.NotText? <==> DemandOf(v).NotText?
  {
    var d := DemandOf(v);
    if d == Equal(WholeCountry) then Unconstrained else d
  }

  /** The equality constraints in force on the four categorical columns. */
  datatype Constraints = Constraints(
    university: Option<string>, field: Option<string>, location: Option<string>, degree: Option<string>)
  {
    function At(c: Column): Option<string> {
      match c
      case UniversityName => university
      case FieldName => field
      case Location => location
      case DegreeProgram => degree
      case CourseOrDegreeName => None
      case Country => None
    }

    function Set(c: Column, q: string): (r: Constraints)
      requires IsCategorical(c)
      ensures r.At(c) == Some(q)
      ensures forall d :: d != c ==> r.At(d) == At(d)
    {
      match c
      case UniversityName => this.(university := Some(q))
      case FieldName => this.(field := Some(q))
      case Location => this.(location := Some(q))
      case DegreeProgram => this.(degree := Some(q))
    }
  }

  predicate IsCategorical(c: Column) {
    c == UniversityName || c == FieldName || c == Location || c == DegreeProgram
  }

  const NoConstraints := Constraints(None, None, None, None)

  function AsConstraint(d: Demand): Option<string>
    requires !d.NotText?
  {
    if d.Equal? then Some(d.q) else None
  }

  /** The column a categorical request key filters. */
  function ColumnOf(k: string): (c: Column)
    requires k in BlockingKeys
    ensures IsCategorical(c)
  {
    if k == UniversityKey then UniversityName
    else if k == FieldKey then FieldName
    else if k == LocationKey then Location
    else DegreeProgram
  }

  /** What the request asks of the column behind key `k`. */
  function DemandFor(f: Filters, k: string): Demand {
    if k == LocationKey then LocationDemand(Lookup(f, k)) else DemandOf(Lookup(f, k))
  }

  /**
   * The constraints a request imposes, or None when one of the four values
   * is truthy but not a string (the source raises AttributeError then).
   */
  function ConstraintsOf(f: Filters): (r: Option<Constraints>)
    ensures r.None? <==> exists k :: k in BlockingKeys && DemandFor(f, k).NotText?
    ensures r.Some? ==> forall k :: k in BlockingKeys ==>
              !DemandFor(f, k).NotText? && r.value.At(ColumnOf(k)) == AsConstraint(DemandFor(f, k))
  {
    var u := DemandFor(f, UniversityKey);
    var fd := DemandFor(f, FieldKey);
    var l := DemandFor(f, LocationKey);
    var d := DemandFor(f, DegreeKey);
    assert forall k :: k in BlockingKeys <==> k == UniversityKey || k == FieldKey || k == LocationKey || k == DegreeKey;
    if u.NotText? || fd.NotText? || l.NotText? || d.NotText? then None
    else Some(Constraints(AsConstraint(u), AsConstraint(fd), AsConstraint(l), AsConstraint(d)))
  }

  /** A row meets every equality constraint in force. */
  predicate Meets(r: CourseRecord, cs: Constraints) {
    (cs.university.None? || Read(r, UniversityName) == cs.university.value) &&
    (cs.field.None? || Read(r, FieldName) == cs.field.value) &&
    (cs.location.None? || Read(r, Location) == cs.location.value) &&
    (cs.degree.None? || Read(r, DegreeProgram) == cs.degree.value)
  }

  /** The rows meeting `cs`, in catalog order. */
  function Survivors(rows: seq<CourseRecord>, cs: Constraints): (r: seq<CourseRecord>)
    ensures forall x :: x in r <==> x in rows && Meets(x, cs)
    ensures IsSubsequence(r, rows)
    decreases |rows|
  {
    if rows == [] then []
    else
      var rest := Survivors(rows[..|rows| - 1], cs);
      var last := rows[|rows| - 1];
      assert rows == rows[..|rows| - 1] + [last];
      SubsequenceSnoc(rest, rows[..|rows| - 1], last);
      if Meets(last, cs) then rest + [last] else rest
  }

  /** `df[df[col] == q]`: the rows whose column reads exactly `q`, in order. */
  function Matching(rows: seq<CourseRecord>, col: Column, q: string): (r: seq<CourseRecord>)
    ensures IsSubsequence(r, rows)
    decreases |rows|
  {
    if rows == [] then []
    else
      var rest := Matching(rows[..|rows| - 1], col, q);
      var last := rows[|rows| - 1];
      assert rows == rows[..|rows| - 1] + [last];
      SubsequenceSnoc(rest, rows[..|rows| - 1], last);
      if Read(last, col) == q then rest + [last] else rest
  }

  /** The rows `Matching` keeps are exactly the rows whose column reads `q`. */
  lemma {:induction false} MatchingMembers(rows: seq<CourseRecord>, col: Column, q: string)
    ensures forall x :: x in Matching(rows, col, q) <==> x in rows && Read(x, col) == q
    decreases |rows|
  {
    if rows != [] {
      var init := rows[..|rows| - 1];
      MatchingMembers(init, col, q);
      assert rows == init + [rows[|rows| - 1]];
    }
  }

  /** Filtering the survivors on one more column is surviving one more constraint. */
  lemma {:induction false} MatchingNarrows(rows: seq<CourseRecord>, cs: Constraints, col: Column, q: string)
    requires IsCategorical(col) && cs.At(col).None?
    ensures Matching(Survivors(rows, cs), col, q) == Survivors(rows, cs.Set(col, q))
    decreases |rows|
  {
    if rows != [] {
      var init := rows[..|rows| - 1];
      var last := rows[|rows| - 1];
      MatchingNarrows(init, cs, col, q);
      assert Meets(last, cs.Set(col, q)) <==> Meets(last, cs) && Read(last, col) == q;
      if Meets(last, cs) {
        var s := Survivors(rows, cs);
        assert s == Survivors(init, cs) + [last];
        assert s[..|s| - 1] == Survivors(init, cs);
      }
    }
  }

  // =====================================================================
  // Order-preserving subsequences

  /** `a` is `b` with some elements removed and the rest in their order. */
  predicate IsSubsequence<T(==)>(a: seq<T>, b: seq<T>)
    decreases |b|
  {
    if a == [] then true
    else if b == [] then false
    else if a[|a| - 1] == b[|b| - 1] then IsSubsequence(a[..|a| - 1], b[..|b| - 1])
    else IsSubsequence(a, b[..|b| - 1])
  }

  /** Extending both sides, or only the longer one, keeps a subsequence. */
  lemma SubsequenceSnoc<T>(a: seq<T>, b: seq<T>, x: T)
    requires IsSubsequence(a, b)
    ensures IsSubsequence(a, b + [x]) && IsSubsequence(a + [x], b + [x])
  {
    SubsequenceSnocRight(a, b, x);
    assert (a + [x])[..|a|] == a;
    assert (b + [x])[..|b|] == b;
  }

  lemma {:induction false} SubsequenceSnocRight<T>(a: seq<T>, b: seq<T>, x: T)
    requires IsSubsequence(a, b)
    ensures IsSubsequence(a, b + [x])
    decreases |b|, 1
  {
    assert (b + [x])[..|b|] == b;
    if a != [] && a[|a| - 1] == x {
      SubsequenceWeaken(a, b);
    }
  }

  /** Dropping the last element of a subsequence keeps it a subsequence. */
  lemma {:induction false} SubsequenceWeaken<T>(a: seq<T>, b: seq<T>)
    requires a != [] && IsSubsequence(a, b)
    ensures IsSubsequence(a[..|a| - 1], b)
    decreases |b|, 0
  {
    var init := b[..|b| - 1];
    assert init + [b[|b| - 1]] == b;
    if a[|a| - 1] == b[|b| - 1] {
      SubsequenceSnocRight(a[..|a| - 1], init, b[|b| - 1]);
    } else {
      SubsequenceWeaken(a, init);
      SubsequenceSnocRight(a[..|a| - 1], init, b[|b| - 1]);
    }
  }

  // =====================================================================
  // The result

  /** One row of `df[["university_name", "course_or_degree_name"]]`. */
  datatype Pair = Pair(university: string, course: string)

  function Project(rows: seq<CourseRecord>): (r: seq<Pair>)
    ensures |r| == |rows|
    ensures forall j :: 0 <= j < |r| ==>
              r[j] == Pair(Read(rows[j], UniversityName), Read(rows[j], CourseOrDegreeName))
  {
    seq(|rows|, j requires 0 <= j < |rows| =>
      Pair(Read(rows[j], UniversityName), Read(rows[j], CourseOrDegreeName)))
  }

  /**
   * What `initial_filtering` hands back: the projected rows of standard
   * mode, the one-column frame of universities of the shortcut, one of the
   * two messages, or the AttributeError raised by `strip` on a non-string.
   */
  datatype Outcome = Pairs(pairs: seq<Pair>) | Universities(names: seq<string>) | Message(text: string) | AttributeError

  /** The shortcut on a normalised table and a resolved request. */
  function ShortcutOutcome(t: seq<CourseRecord>, v: FilterValue): (r: Outcome)
    ensures !v.StrValue? ==> r == AttributeError
    ensures r.Universities? ==> r.names != [] && NoDuplicates(r.names)
    ensures r.Message? ==> r.text == NoUniversitiesMessage
  {
    if !v.StrValue? then AttributeError
    else
      var hits := Containing(t, Normalize(v.s));
      if hits == [] then Message(NoUniversitiesMessage) else Universities(Distinct(UniversityNames(hits)))
  }

  /** Standard mode on a normalised table and a resolved request. */
  function StandardOutcome(t: seq<CourseRecord>, f: Filters): (r: Outcome)
    ensures ConstraintsOf(f).None? <==> r == AttributeError
    ensures r.Pairs? ==> r.pairs != [] && |r.pairs| <= |t|
    ensures r.Message? ==> r.text == NoMatchMessage
    ensures !r.Universities?
  {
    match ConstraintsOf(f)
    case None => AttributeError
    case Some(cs) =>
      var s := Survivors(t, cs);
      SubsequenceLength(s, t);
      if s == [] then Message(NoMatchMessage) else Pairs(Project(s))
  }

  lemma {:induction false} SubsequenceLength<T>(a: seq<T>, b: seq<T>)
    requires IsSubsequence(a, b)
    ensures |a| <= |b|
    decreases |b|
  {
    if a != [] {
      if a[|a| - 1] == b[|b| - 1] {
        SubsequenceLength(a[..|a| - 1], b[..|b| - 1]);
      } else {
        SubsequenceLength(a, b[..|b| - 1]);
      }
    }
  }

  /** What `initial_filtering(catalog, filters)` returns. */
  function InitialFilteringSpec(catalog: seq<CourseRecord>, filters: Filters): (r: Outcome)
    ensures r.Pairs? ==> r.pairs != [] && |r.pairs| <= |catalog|
    ensures r.Universities? ==> r.names != [] && NoDuplicates(r.names)
    ensures r.Message? ==> r.text == NoMatchMessage || r.text == NoUniversitiesMessage
  {
    var t := NormalizeTable(catalog);
    var f := ResolveAlias(filters);
    if ShortcutApplies(f) then ShortcutOutcome(t, f[CourseKey]) else StandardOutcome(t, f)
  }

  // =====================================================================
  // The pipeline, step by step

  /**
   * `initial_filtering`: the columns are normalised in place, the request
   * is updated by the alias rule, and then the shortcut or the filter
   * chain answers.
   */
  method InitialFiltering(catalog: seq<CourseRecord>, filters: Filters) returns (result: Outcome)
    ensures result == InitialFilteringSpec(catalog, filters)
  {
    var df := NormalizeColumns(catalog);
    var f := filters;
    if CourseNameAlias in f {
      var v := f[CourseNameAlias];
      f := f - {CourseNameAlias};
      f := f[CourseKey := v];
    }
    assert f == ResolveAlias(filters);
    if Truthy(Lookup(f, CourseKey)) && UniversityKey !in f && FieldKey !in f && LocationKey !in f && DegreeKey !in f {
      assert ShortcutApplies(f);
      result := CourseLookup(df, f[CourseKey]);
    } else {
      assert !ShortcutApplies(f);
      result := StandardFiltering(df, f);
    }
  }

  /** The `for col` loop: each listed column rewritten in every row. */
  method NormalizeColumns(catalog: seq<CourseRecord>) returns (df: seq<CourseRecord>)
    ensures df == NormalizeTable(catalog)
  {
    df := catalog;
    for i := 0 to |NormalizedColumns|
      invariant df == NormalizeColumnsIn(catalog, NormalizedColumns[..i])
    {
      df := NormalizeColumn(df, NormalizedColumns[i]);
      assert NormalizedColumns[..i + 1][..i] == NormalizedColumns[..i];
    }
    assert NormalizedColumns[..|NormalizedColumns|] == NormalizedColumns;
    AllColumnsNormalized(catalog);
  }

  /** The table after the loop has rewritten the columns `cols`, in order. */
  function NormalizeColumnsIn(rows: seq<CourseRecord>, cols: seq<Column>): (r: seq<CourseRecord>)
    ensures |r| == |rows|
    decreases |cols|
  {
    if cols == [] then rows
    else NormalizeColumn(NormalizeColumnsIn(rows, cols[..|cols| - 1]), cols[|cols| - 1])
  }

  /** Rewriting the six columns one by one normalises every record. */
  lemma AllColumnsNormalized(catalog: seq<CourseRecord>)
    ensures NormalizeColumnsIn(catalog, NormalizedColumns) == NormalizeTable(catalog)
  {
    var cols := NormalizedColumns;
    var t1 := NormalizeColumnsIn(catalog, cols[..1]);
    var t2 := NormalizeColumnsIn(catalog, cols[..2]);
    var t3 := NormalizeColumnsIn(catalog, cols[..3]);
    var t4 := NormalizeColumnsIn(catalog, cols[..4]);
    var t5 := NormalizeColumnsIn(catalog, cols[..5]);
    var t6 := NormalizeColumnsIn(catalog, cols);
    assert t1 == NormalizeColumn(catalog, UniversityName) by {
      assert cols[..1] == [UniversityName];
      assert cols[..1][..0] == [];
      assert NormalizeColumnsIn(catalog, []) == catalog;
    }
    assert t2 == NormalizeColumn(t1, FieldName) by {
      assert cols[..2][..1] == cols[..1];
    }
    assert t3 == NormalizeColumn(t2, Location) by {
      assert cols[..3][..2] == cols[..2];
    }
    assert t4 == NormalizeColumn(t3, DegreeProgram) by {
      assert cols[..4][..3] == cols[..3];
    }
    assert t5 == NormalizeColumn(t4, CourseOrDegreeName) by {
      assert cols[..5][..4] == cols[..4];
    }
    assert t6 == NormalizeColumn(t5, Country) by {
      assert cols[..5] == cols[..|cols| - 1];
    }
    forall j | 0 <= j < |catalog|
      ensures t6[j] == NormalizeRecord(catalog[j])
    {
      var r := catalog[j];
      assert t1[j] == r.(university := NormalizeCell(r.university));
      assert t2[j] == t1[j].(field := NormalizeCell(r.field));
      assert t3[j] == t2[j].(location := NormalizeCell(r.location));
      assert t4[j] == t3[j].(degree := NormalizeCell(r.degree));
      assert t5[j] == t4[j].(course := NormalizeCell(r.course));
      assert t6[j] == t5[j].(country := NormalizeCell(r.country));
    }
  }

  /** The course-lookup shortcut, lines 31-40 of the source. */
  method CourseLookup(df: seq<CourseRecord>, v: FilterValue) returns (result: Outcome)
    ensures result == ShortcutOutcome(df, v)
  {
    if !v.StrValue? {
      return AttributeError;
    }
    var courseFilter := Normalize(v.s);
    var filtered := Containing(df, courseFilter);
    if filtered != [] {
      return Universities(Distinct(UniversityNames(filtered)));
    }
    return Message(NoUniversitiesMessage);
  }

  /** The filter chain and the final projection, lines 43-67 of the source. */
  /** One value that cannot be stripped makes standard mode raise. */
  lemma NotTextRaises(t: seq<CourseRecord>, f: Filters, k: string)
    requires k in BlockingKeys && DemandFor(f, k).NotText?
    ensures StandardOutcome(t, f) == AttributeError
  {
  }

  /** Standard mode under known constraints: the projected survivors, or the no-match message. */
  lemma StandardOutcomeOf(t: seq<CourseRecord>, f: Filters, cs: Constraints)
    requires ConstraintsOf(f) == Some(cs)
    ensures Survivors(t, cs) == [] ==> StandardOutcome(t, f) == Message(NoMatchMessage)
    ensures Survivors(t, cs) != [] ==> StandardOutcome(t, f) == Pairs(Project(Survivors(t, cs)))
  {
  }

  /** Each categorical key's demand, as its block of the filter chain computes it. */
  lemma DemandsByKey(f: Filters)
    ensures DemandFor(f, UniversityKey) == DemandOf(Lookup(f, UniversityKey))
    ensures DemandFor(f, FieldKey) == DemandOf(Lookup(f, FieldKey))
    ensures DemandFor(f, LocationKey) == LocationDemand(Lookup(f, LocationKey))
    ensures DemandFor(f, DegreeKey) == DemandOf(Lookup(f, DegreeKey))
  {
  }

  /** Narrowing by the four demands in turn gives the request's constraints. */
  lemma ConstraintsFromChain(f: Filters)
    requires !DemandFor(f, UniversityKey).NotText? && !DemandFor(f, FieldKey).NotText?
    requires !DemandFor(f, LocationKey).NotText? && !DemandFor(f, DegreeKey).NotText?
    ensures ConstraintsOf(f) == Some(Narrow(Narrow(Narrow(Narrow(NoConstraints,
              UniversityName, DemandFor(f, UniversityKey)), FieldName, DemandFor(f, FieldKey)),
              Location, DemandFor(f, LocationKey)), DegreeProgram, DemandFor(f, DegreeKey)))
  {
  }

  /** The constraints after one more demand on the categorical column `col`. */
  function Narrow(cs: Constraints, col: Column, d: Demand): Constraints
    requires IsCategorical(col) && !d.NotText?
  {
    if d.Equal? then cs.Set(col, d.q) else cs
  }

  /**
   * One block of the filter chain on the university, field or degree column:
   * a truthy value is stripped and lower-cased and the frame keeps the rows
   * equal to it; `raised` when the value has no `strip`.
   */
  method FilterColumn(table: seq<CourseRecord>, df: seq<CourseRecord>, ghost cs: Constraints, col: Column, v: FilterValue)
    returns (raised: bool, kept: seq<CourseRecord>)
    requires IsCategorical(col) && cs.At(col).None? && df == Survivors(table, cs)
    ensures raised <==> DemandOf(v).NotText?
    ensures !raised ==> kept == Survivors(table, Narrow(cs, col, DemandOf(v)))
  {
    raised, kept := false, df;
    if Truthy(v) {
      if !v.StrValue? {
        return true, df;
      }
      MatchingNarrows(table, cs, col, Normalize(v.s));
      kept := Matching(df, col, Normalize(v.s));
    }
  }

  /** The location block: as `FilterColumn`, except that "uk" keeps every row. */
  method FilterLocation(table: seq<CourseRecord>, df: seq<CourseRecord>, ghost cs: Constraints, v: FilterValue)
    returns (raised: bool, kept: seq<CourseRecord>)
    requires cs.location.None? && df == Survivors(table, cs)
    ensures raised <==> LocationDemand(v).NotText?
    ensures !raised ==> kept == Survivors(table, Narrow(cs, Location, LocationDemand(v)))
  {
    raised, kept := false, df;
    if Truthy(v) {
      if !v.StrValue? {
        return true, df;
      }
      var locationFilter := Normalize(v.s);
      if locationFilter != WholeCountry {
        MatchingNarrows(table, cs, Location, locationFilter);
        kept := Matching(df, Location, locationFilter);
      }
    }
  }

  /**
   * Standard mode: the four blocks in the source's order, each narrowing the
   * frame, then the projection or the no-match message.
   */
  method StandardFiltering(table: seq<CourseRecord>, f: Filters) returns (result: Outcome)
    ensures result == StandardOutcome(table, f)
  {
    DemandsByKey(f);
    SurvivorsOfNone(table);
    var raised, df := FilterColumn(table, table, NoConstraints, UniversityName, Lookup(f, UniversityKey));
    if raised {
      NotTextRaises(table, f, UniversityKey);
      return AttributeError;
    }
    ghost var cs := Narrow(NoConstraints, UniversityName, DemandFor(f, UniversityKey));
    raised, df := FilterColumn(table, df, cs, FieldName, Lookup(f, FieldKey));
    if raised {
      NotTextRaises(table, f, FieldKey);
      return AttributeError;
    }
    cs := Narrow(cs, FieldName, DemandFor(f, FieldKey));
    raised, df := FilterLocation(table, df, cs, Lookup(f, LocationKey));
    if raised {
      NotTextRaises(table, f, LocationKey);
      return AttributeError;
    }
    cs := Narrow(cs, Location, DemandFor(f, LocationKey));
    raised, df := FilterColumn(table, df, cs, DegreeProgram, Lookup(f, DegreeKey));
    if raised {
      NotTextRaises(table, f, DegreeKey);
      return AttributeError;
    }
    cs := Narrow(cs, DegreeProgram, DemandFor(f, DegreeKey));
    ConstraintsFromChain(f);
    StandardOutcomeOf(table, f, cs);
    if df != [] {
      return Pairs(Project(df));
    }
    return Message(NoMatchMessage);
  }

  /** With no constraint in force every row survives. */
  lemma {:induction false} SurvivorsOfNone(rows: seq<CourseRecord>)
    ensures Survivors(rows, NoConstraints) == rows
    decreases |rows|
  {
    if rows != [] {
      SurvivorsOfNone(rows[..|rows| - 1]);
      assert rows[..|rows| - 1] + [rows[|rows| - 1]] == rows;
    }
  }
}
