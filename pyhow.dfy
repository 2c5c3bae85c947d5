/** The sample report builder of pyhow/__init__.py.

    Python's reflection is replaced by input records: a sample module is its
    name, its file path, its docstring, its source lines and the objects
    `dir()` lists for it, in `dir()` order; each such object is its
    `__name__`, whether it is callable, its `__module__` (if it has one), its
    docstring, its source lines with their starting line number, and the
    `repr` of the value calling it returns. */
module Pyhow {
  import opened Results
  import opened Seqs
  import opened PyStr
  import opened PySorted
  import opened PyGroupBy
  import PyDict

  const CATEGORY_TAG: string := "# category: "
  const SAMPLES_ROOT: string := "pyhow.samples."
  const UNCATEGORIZED: string := "uncategorized"
  /** The routine a sample module runs as a whole; never shown. */
  const ENTRY_POINT: string := "run"
  const TRIPLE_QUOTE: string := "\"\"\""
  const BACKSPACE: char := '\U{8}'

  datatype Member = Member(
    name: string,
    isCallable: bool,
    owner: Option<string>,
    doc: Option<string>,
    sourceLines: seq<string>,
    startLine: int,
    resultRepr: string)

  datatype SampleModule = SampleModule(
    name: string,
    file: string,
    doc: Option<string>,
    sourceLines: seq<string>,
    members: seq<Member>)

  /** A category and the source line (0-based) where its marker stands. */
  datatype Boundary = Boundary(name: string, line: int)

  /** One displayed routine: the record `_extract_methods_info` builds. */
  datatype MethodInfo = MethodInfo(
    name: string,
    doc: string,
    codelines: seq<string>,
    category: string,
    resultRepr: string)

  /** The exceptions the builder lets escape: the `IndexError` of a routine
      with no category boundary below its start line, and the
      `AttributeError` of a module without docstring. */
  datatype Error = NoCategory(routine: string, line: int) | ModuleWithoutDoc

  // ---------------------------------------------------------------------
  // Registry of sample modules

  /** A loaded module is a sample when its name is under the samples package
      and its file name does not start with an underscore. */
  predicate IsSample(name: string, sample: SampleModule) {
    StartsWith(name, SAMPLES_ROOT) && !StartsWith(AfterLast(sample.file, '/'), "_")
  }

  /** The key of a sample: its module name without the package prefix. */
  function SampleKey(name: string): string {
    SliceFrom(name, |SAMPLES_ROOT|)
  }

  /** A name under the samples package is the package prefix followed by
      its key, and the key of such a name is what follows the prefix. */
  lemma SampleKeyRoundTrip(name: string, k: string)
    ensures StartsWith(name, SAMPLES_ROOT) ==> name == SAMPLES_ROOT + SampleKey(name)
    ensures SampleKey(SAMPLES_ROOT + k) == k
  {
    assert (SAMPLES_ROOT + k)[|SAMPLES_ROOT|..] == k;
    if StartsWith(name, SAMPLES_ROOT) {
      assert name == name[..|SAMPLES_ROOT|] + name[|SAMPLES_ROOT|..];
    }
  }

  /** `make_samples` over the entries of `sys.modules`: a key is
      registered exactly when some sample is named with the package prefix
      followed by that key. */
  function MakeSamples(modules: seq<(string, SampleModule)>): (r: map<string, SampleModule>)
    ensures forall k :: k in r <==>
              exists i :: 0 <= i < |modules| && IsSample(modules[i].0, modules[i].1)
                          && modules[i].0 == SAMPLES_ROOT + k
  {
    var r := PyDict.Comprehend(modules, IsSample, SampleKey);
    forall k | k in r
      ensures exists i :: 0 <= i < |modules| && IsSample(modules[i].0, modules[i].1) && modules[i].0 == SAMPLES_ROOT + k
    {
      PyDict.LastIndexIsLast(modules, IsSample, SampleKey, k);
      var w := PyDict.LastIndex(modules, IsSample, SampleKey, k);
      SampleKeyRoundTrip(modules[w].0, k);
    }
    forall k, i | 0 <= i < |modules| && IsSample(modules[i].0, modules[i].1) && modules[i].0 == SAMPLES_ROOT + k
      ensures k in r
    {
      SampleKeyRoundTrip(modules[i].0, k);
      PyDict.LastIndexIsLast(modules, IsSample, SampleKey, k);
    }
    r
  }

  /** The names in `sys.modules` are distinct, so every sample is registered
      under its name with the package prefix removed. */
  lemma SampleRegistered(modules: seq<(string, SampleModule)>, i: int)
    requires forall a, b :: 0 <= a < b < |modules| ==> modules[a].0 != modules[b].0
    requires 0 <= i < |modules| && IsSample(modules[i].0, modules[i].1)
    ensures SampleKey(modules[i].0) in MakeSamples(modules)
    ensures MakeSamples(modules)[SampleKey(modules[i].0)] == modules[i].1
  {
    var k := SampleKey(modules[i].0);
    PyDict.LastIndexIsLast(modules, IsSample, SampleKey, k);
    var w := PyDict.LastIndex(modules, IsSample, SampleKey, k);
    SampleKeyRoundTrip(modules[i].0, k);
    SampleKeyRoundTrip(modules[w].0, k);
    assert modules[w].0 == modules[i].0;
  }

  // ---------------------------------------------------------------------
  // Overstrike styling

  /** `_bold`: every character struck twice. */
  function Bold(text: string): (r: string)
    ensures |r| == 3 * |text|
    ensures forall i :: 0 <= i < |text| ==> r[3 * i..3 * i + 3] == [text[i], BACKSPACE, text[i]]
  {
    if text == [] then []
    else
      var tail := Bold(text[1..]);
      var r := [text[0], BACKSPACE, text[0]] + tail;
      assert forall i :: 1 <= i < |text| ==> r[3 * i..3 * i + 3] == tail[3 * (i - 1)..3 * (i - 1) + 3] by {
        forall i | 1 <= i < |text|
          ensures r[3 * i..3 * i + 3] == tail[3 * (i - 1)..3 * (i - 1) + 3]
        {
          var j := i - 1;
          assert 3 * i == 3 * j + 3;
        }
      }
      r
  }

  /** `_underline`: every character struck over an underscore. */
  function Underline(text: string): (r: string)
    ensures |r| == 3 * |text|
    ensures forall i :: 0 <= i < |text| ==> r[3 * i..3 * i + 3] == ['_', BACKSPACE, text[i]]
  {
    if text == [] then []
    else
      var tail := Underline(text[1..]);
      var r := ['_', BACKSPACE, text[0]] + tail;
      assert forall i :: 1 <= i < |text| ==> r[3 * i..3 * i + 3] == tail[3 * (i - 1)..3 * (i - 1) + 3] by {
        forall i | 1 <= i < |text|
          ensures r[3 * i..3 * i + 3] == tail[3 * (i - 1)..3 * (i - 1) + 3]
        {
          var j := i - 1;
          assert 3 * i == 3 * j + 3;
        }
      }
      r
  }

  /** What a terminal shows of an overstruck text: the last character of
      every triple. */
  function Plain(s: string): string {
    if |s| < 3 then [] else [s[2]] + Plain(s[3..])
  }

  lemma {:induction false} BoldShowsText(text: string)
    ensures Plain(Bold(text)) == text
  {
    if text != [] {
      BoldShowsText(text[1..]);
      assert Bold(text)[3..] == Bold(text[1..]);
    }
  }

  lemma {:induction false} UnderlineShowsText(text: string)
    ensures Plain(Underline(text)) == text
  {
    if text != [] {
      UnderlineShowsText(text[1..]);
      assert Underline(text)[3..] == Underline(text[1..]);
    }
  }

  // ---------------------------------------------------------------------
  // Category markers

  /** A source line is a category marker when, stripped, it starts with the tag. */
  predicate IsMarker(line: string) {
    StartsWith(Strip(line), CATEGORY_TAG)
  }

  /** The category a marker line names: the stripped line with the tag removed. */
  function MarkerName(line: string): string {
    Replace(Strip(line), CATEGORY_TAG, "")
  }

  /** The name of a marker is the text after its tag (with any further
      copies of the tag taken out as well). */
  lemma MarkerNameFollowsTag(line: string)
    requires IsMarker(line)
    ensures MarkerName(line) == Replace(Strip(line)[|CATEGORY_TAG|..], CATEGORY_TAG, "")
    ensures !Contains(Strip(line)[|CATEGORY_TAG|..], CATEGORY_TAG) ==>
              MarkerName(line) == Strip(line)[|CATEGORY_TAG|..]
  {
    var rest := Strip(line)[|CATEGORY_TAG|..];
    assert Strip(line) == CATEGORY_TAG + rest;
    ReplaceLeading(CATEGORY_TAG, rest, "");
    if !Contains(rest, CATEGORY_TAG) {
      ReplaceAbsent(rest, CATEGORY_TAG, "");
    }
  }

  /** The boundary a marker line stands for. */
  function MarkerAt(lines: seq<string>, l: nat): Boundary
    requires l < |lines|
  {
    Boundary(MarkerName(lines[l]), l)
  }

  /** The category boundaries of a module: the `uncategorized` sentinel at
      line -1, then one boundary per marker line (numbered from 0 as
      `enumerate` numbers them), in ascending line order, each named after
      its marker. */
  function Categories(lines: seq<string>): (r: seq<Boundary>)
    ensures r != [] && r[0] == Boundary(UNCATEGORIZED, -1)
    ensures forall i, j :: 0 <= i < j < |r| ==> r[i].line < r[j].line
    ensures forall j :: 0 < j < |r| ==>
              0 <= r[j].line < |lines| && IsMarker(lines[r[j].line]) && r[j].name == MarkerName(lines[r[j].line])
  {
    var positions := Positions(lines, IsMarker);
    [Boundary(UNCATEGORIZED, -1)] + seq(|positions|, j requires 0 <= j < |positions| => MarkerAt(lines, positions[j]))
  }

  /** Every marker line is among the boundaries, after the sentinel. */
  lemma CategoriesComplete(lines: seq<string>, l: int)
    requires 0 <= l < |lines| && IsMarker(lines[l])
    ensures exists j :: 0 < j < |Categories(lines)| && Categories(lines)[j].line == l
  {
    PositionsComplete(lines, IsMarker, l);
    var positions := Positions(lines, IsMarker);
    var j :| 0 <= j < |positions| && positions[j] == l;
    assert Categories(lines)[j + 1].line == l;
  }

  /** The boundaries below `line`, the way the comprehension in
      `_extract_methods_info` lists them. */
  function BoundariesBelow(categories: seq<Boundary>, line: int): seq<Boundary> {
    Filter(categories, (b: Boundary) => line > b.line)
  }

  /** A routine's category: the last boundary whose line is below its start
      line; `None` stands for the `IndexError` when there is none. */
  function CategoryAt(categories: seq<Boundary>, line: int): Option<string> {
    var below := BoundariesBelow(categories, line);
    if below == [] then None else Some(below[|below| - 1].name)
  }

  /** Entry `k` has the greatest line below `line`. */
  ghost predicate GreatestBelow(categories: seq<Boundary>, line: int, k: int) {
    && 0 <= k < |categories|
    && categories[k].line < line
    && forall j :: 0 <= j < |categories| && categories[j].line < line ==> categories[j].line <= categories[k].line
  }

  /** How many leading boundaries lie below `line`. */
  function CountBelow(categories: seq<Boundary>, line: int): (c: nat)
    ensures c <= |categories|
  {
    if categories == [] || line <= categories[0].line then 0
    else 1 + CountBelow(categories[1..], line)
  }

  /** On boundaries in ascending line order, those below a line form a
      prefix: the first `CountBelow` of them. */
  lemma {:induction false} BelowIsPrefix(categories: seq<Boundary>, line: int)
    requires forall i, j :: 0 <= i < j < |categories| ==> categories[i].line < categories[j].line
    ensures BoundariesBelow(categories, line) == categories[..CountBelow(categories, line)]
    ensures forall j :: CountBelow(categories, line) <= j < |categories| ==> categories[j].line >= line
  {
    var c := CountBelow(categories, line);
    if categories == [] {
    } else if line > categories[0].line {
      var rest := categories[1..];
      BelowIsPrefix(rest, line);
      assert BoundariesBelow(categories, line) == [categories[0]] + rest[..c - 1];
      assert categories[..c] == [categories[0]] + rest[..c - 1];
      assert forall j :: c <= j < |categories| ==> categories[j] == rest[j - 1];
    } else {
      FilterNone(categories, (b: Boundary) => line > b.line);
    }
  }

  /** Every boundary of the prefix `CountBelow` counts lies below `line`. */
  lemma {:induction false} CountBelowIsBelow(categories: seq<Boundary>, line: int)
    ensures forall j :: 0 <= j < CountBelow(categories, line) ==> categories[j].line < line
  {
    if categories != [] && line > categories[0].line {
      CountBelowIsBelow(categories[1..], line);
      assert forall j :: 1 <= j < CountBelow(categories, line) ==> categories[j] == categories[1..][j - 1];
    }
  }

  /** On boundaries in ascending line order the lookup finds the boundary
      with the greatest line strictly below `line`, and fails exactly when
      no boundary lies below. */
  lemma CategoryAtGreatestBelow(categories: seq<Boundary>, line: int)
    requires forall i, j :: 0 <= i < j < |categories| ==> categories[i].line < categories[j].line
    ensures CategoryAt(categories, line).None? <==> forall j :: 0 <= j < |categories| ==> categories[j].line >= line
    ensures CategoryAt(categories, line).Some? ==>
              exists k :: GreatestBelow(categories, line, k) && CategoryAt(categories, line) == Some(categories[k].name)
  {
    BelowIsPrefix(categories, line);
    CountBelowIsBelow(categories, line);
    var c := CountBelow(categories, line);
    if c > 0 {
      assert categories[c - 1].line < line;
      assert GreatestBelow(categories, line, c - 1);
    }
  }

  /** Thanks to the sentinel at -1, every routine starting at a line >= 0
      gets a category; only a negative start line makes the lookup fail. */
  lemma CategoryDefinedIffNonNegative(lines: seq<string>, line: int)
    ensures CategoryAt(Categories(lines), line).Some? <==> line >= 0
  {
    CategoryAtGreatestBelow(Categories(lines), line);
    if line < 0 {
      forall j | 0 <= j < |Categories(lines)| ensures Categories(lines)[j].line >= line {
        if j > 0 {
          assert Categories(lines)[0].line < Categories(lines)[j].line;
        }
      }
    }
  }

  // ---------------------------------------------------------------------
  // Routines and their records

  /** The objects shown: callables defined in the module itself, except the
      entry point. */
  predicate IsOwnRoutine(m: Member, moduleName: string) {
    m.isCallable && m.owner == Some(moduleName) && m.name != ENTRY_POINT
  }

  /** The module's own routines, in `dir()` order. */
  function OwnRoutines(sample: SampleModule): (r: seq<Member>)
    ensures forall i :: 0 <= i < |r| ==>
              r[i].isCallable && r[i].owner == Some(sample.name) && r[i].name != ENTRY_POINT
    ensures forall m :: multiset(r)[m] == if IsOwnRoutine(m, sample.name) then multiset(sample.members)[m] else 0
  {
    var p := (m: Member) => IsOwnRoutine(m, sample.name);
    FilterCount(sample.members, p);
    Filter(sample.members, p)
  }

  /** The routines are kept in `dir()` order: the own routines of members
      listed one after another are those of the first part followed by
      those of the second. */
  lemma OwnRoutinesKeepOrder(sample: SampleModule, more: seq<Member>)
    ensures OwnRoutines(sample.(members := sample.members + more))
            == OwnRoutines(sample) + OwnRoutines(sample.(members := more))
  {
    FilterAppend(sample.members, more, (m: Member) => IsOwnRoutine(m, sample.name));
  }

  /** A source line is displayed when it is not blank and holds no
      triple quote. */
  predicate IsDisplayedLine(line: string) {
    Strip(line) != [] && !Contains(line, TRIPLE_QUOTE)
  }

  /** The displayed code of a routine. */
  function Codelines(lines: seq<string>): seq<string> {
    Filter(lines, IsDisplayedLine)
  }

  /** The displayed code keeps, in source order and with their
      multiplicities, exactly the lines that have a non-whitespace character
      and no triple quote. */
  lemma CodelinesAreDisplayedLines(lines: seq<string>, more: seq<string>)
    ensures forall l :: multiset(Codelines(lines))[l] == if IsDisplayedLine(l) then multiset(lines)[l] else 0
    ensures Codelines(lines + more) == Codelines(lines) + Codelines(more)
  {
    FilterCount(lines, IsDisplayedLine);
    FilterAppend(lines, more, IsDisplayedLine);
  }

  /** A line is displayed exactly when some character of it is not
      whitespace and no triple quote occurs in it. */
  lemma DisplayedLineMeaning(line: string)
    ensures IsDisplayedLine(line) <==>
              (exists k :: 0 <= k < |line| && !IsSpace(line[k])) && !(exists i :: OccursAt(line, TRIPLE_QUOTE, i))
  {
    StripEmptyIffBlank(line);
    ContainsIffOccurs(line, TRIPLE_QUOTE);
  }

  /** `__doc__.strip()`, or the empty string when there is no docstring. */
  function DocOf(doc: Option<string>): string {
    if doc.Some? && doc.value != [] then Strip(doc.value) else []
  }

  /** A routine's shown doc is its docstring with the whitespace around it
      taken away, and empty when it has none. */
  lemma DocIsTrimmedDocstring(doc: Option<string>)
    ensures doc.None? ==> DocOf(doc) == []
    ensures doc.Some? ==> exists i :: TrimmedAt(doc.value, DocOf(doc), i)
    ensures DocOf(doc) == [] || (!IsSpace(DocOf(doc)[0]) && !IsSpace(DocOf(doc)[|DocOf(doc)| - 1]))
  {
    if doc.Some? {
      if doc.value == [] {
        assert TrimmedAt(doc.value, DocOf(doc), 0);
      } else {
        StripIsTrim(doc.value);
        assert TrimmedAt(doc.value, DocOf(doc), StripStart(doc.value));
      }
    }
  }

  /** The record of one routine, or the error of its category lookup. */
  function Describe(m: Member, categories: seq<Boundary>): Result<MethodInfo, Error> {
    match CategoryAt(categories, m.startLine)
    case None => Err(NoCategory(m.name, m.startLine))
    case Some(category) => Ok(MethodInfo(m.name, DocOf(m.doc), Codelines(m.sourceLines), category, m.resultRepr))
  }

  /** The records of all routines in order, or the error of the first
      routine whose lookup fails. */
  function DescribeAll(ms: seq<Member>, categories: seq<Boundary>): (r: Result<seq<MethodInfo>, Error>)
    ensures r.Ok? <==> forall i :: 0 <= i < |ms| ==> Describe(ms[i], categories).Ok?
    ensures r.Ok? ==> |r.value| == |ms| && forall i :: 0 <= i < |ms| ==> Describe(ms[i], categories) == Ok(r.value[i])
    ensures r.Err? ==> exists i :: 0 <= i < |ms| && Describe(ms[i], categories) == Err(r.error)
                                   && forall j :: 0 <= j < i ==> Describe(ms[j], categories).Ok?
  {
    if ms == [] then Ok([])
    else
      match Describe(ms[0], categories)
      case Err(e) => Err(e)
      case Ok(info) =>
        var rest := DescribeAll(ms[1..], categories);
        assert forall i :: 0 < i < |ms| ==> ms[i] == ms[1..][i - 1];
        if rest.Err? then
          var i :| 0 <= i < |ms[1..]| && Describe(ms[1..][i], categories) == Err(rest.error)
                   && forall j :: 0 <= j < i ==> Describe(ms[1..][j], categories).Ok?;
          assert Describe(ms[i + 1], categories) == Err(rest.error);
          Err(rest.error)
        else
          Ok([info] + rest.value)
  }

  /** The result of `DescribeAll` is fixed by the routines' own records:
      all of them when all succeed. */
  lemma DescribeAllOk(ms: seq<Member>, categories: seq<Boundary>, infos: seq<MethodInfo>)
    requires |infos| == |ms|
    requires forall i :: 0 <= i < |ms| ==> Describe(ms[i], categories) == Ok(infos[i])
    ensures DescribeAll(ms, categories) == Ok(infos)
  {
    var r := DescribeAll(ms, categories);
    assert r.Ok?;
    assert forall i :: 0 <= i < |ms| ==> r.value[i] == infos[i];
    assert r.value == infos;
    assert r == Ok(r.value);
  }

  /** ... and the error of the first failing routine otherwise. */
  lemma DescribeAllFirstError(ms: seq<Member>, categories: seq<Boundary>, i: int)
    requires 0 <= i < |ms| && Describe(ms[i], categories).Err?
    requires forall j :: 0 <= j < i ==> Describe(ms[j], categories).Ok?
    ensures DescribeAll(ms, categories) == Err(Describe(ms[i], categories).error)
  {
    var r := DescribeAll(ms, categories);
    var k :| 0 <= k < |ms| && Describe(ms[k], categories) == Err(r.error)
             && forall j :: 0 <= j < k ==> Describe(ms[j], categories).Ok?;
    assert k == i;
  }

  /** The records of a module's routines exist exactly when every own
      routine starts at a line >= 0; then there is one per routine and none
      is named `run`. */
  lemma ExtractionSucceedsIffNonNegative(sample: SampleModule)
    ensures var r := DescribeAll(OwnRoutines(sample), Categories(sample.sourceLines));
            && (r.Ok? <==> forall i :: 0 <= i < |OwnRoutines(sample)| ==> OwnRoutines(sample)[i].startLine >= 0)
            && (r.Ok? ==> |r.value| == |OwnRoutines(sample)|
                          && forall i :: 0 <= i < |r.value| ==> r.value[i].name != ENTRY_POINT)
  {
    var methods := OwnRoutines(sample);
    var categories := Categories(sample.sourceLines);
    forall i | 0 <= i < |methods|
      ensures Describe(methods[i], categories).Ok? <==> methods[i].startLine >= 0
    {
      CategoryDefinedIffNonNegative(sample.sourceLines, methods[i].startLine);
    }
  }

  /** `_extract_methods_info`: the records of the module's own routines in
      `dir()` order, or the error of the first routine without a category
      (see `DescribeAll` and `ExtractionSucceedsIffNonNegative`). */
  method ExtractMethodsInfo(sample: SampleModule) returns (r: Result<seq<MethodInfo>, Error>)
    ensures r == DescribeAll(OwnRoutines(sample), Categories(sample.sourceLines))
  {
    var categories := Categories(sample.sourceLines);
    var methods := OwnRoutines(sample);
    var methodsInfo: seq<MethodInfo> := [];
    var i := 0;
    while i < |methods|
      invariant 0 <= i <= |methods|
      invariant |methodsInfo| == i
      invariant forall j :: 0 <= j < i ==> Describe(methods[j], categories) == Ok(methodsInfo[j])
    {
      var info := Describe(methods[i], categories);
      if info.Err? {
        DescribeAllFirstError(methods, categories, i);
        return Err(info.error);
      }
      methodsInfo := methodsInfo + [info.value];
      i := i + 1;
    }
    DescribeAllOk(methods, categories, methodsInfo);
    return Ok(methodsInfo);
  }

  // ---------------------------------------------------------------------
  // Ordering and grouping

  function NameKey(info: MethodInfo): string {
    info.name
  }

  function CategoryKey(info: MethodInfo): string {
    info.category
  }

  /** The two `sorted` calls of `show_sample`, by name and then by category:
      a permutation of the records ordered by category, then by name. */
  function OrderMethods(infos: seq<MethodInfo>): (r: seq<MethodInfo>)
    ensures multiset(r) == multiset(infos)
    ensures LexSortedBy(r, CategoryKey, NameKey)
  {
    TwoPassSort(infos, CategoryKey, NameKey);
    SortBy(SortBy(infos, NameKey), CategoryKey)
  }

  /** `nb_categories`: the number of distinct categories among the records. */
  function NbCategories(infos: seq<MethodInfo>): nat {
    |KeySet(infos, CategoryKey)|
  }

  /** Grouping the ordered records by category gives one group per distinct
      category, in ascending category order, and every record exactly once;
      so there are `nb_categories` groups. */
  lemma GroupsOfOrderedRecords(infos: seq<MethodInfo>)
    ensures var groups := GroupBy(OrderMethods(infos), CategoryKey);
            && |groups| == NbCategories(OrderMethods(infos)) == NbCategories(infos)
            && (forall i, j :: 0 <= i < j < |groups| ==> Less(groups[i].key, groups[j].key))
            && GroupKeySet(groups) == KeySet(infos, CategoryKey)
            && multiset(Flatten(groups)) == multiset(infos)
  {
    var ordered := OrderMethods(infos);
    LexSortedIsSortedByPrimary(ordered, CategoryKey, NameKey);
    GroupPerKey(ordered, CategoryKey);
    GroupKeysAscending(ordered, CategoryKey);
    KeySetOfPermutation(ordered, infos, CategoryKey);
  }

  // ---------------------------------------------------------------------
  // Rendering

  /** `_TEMPLATE_PREFIX.format(module_doc=...)`. */
  function FormatPrefix(moduleDoc: string): string {
    "\n>>> " + moduleDoc + "\n\n\n"
  }

  /** `_CATEGORY_TEMPLATE.format(step=..., category=..., methods=...)`. */
  function FormatCategory(step: string, category: string, methods: string): string {
    step + " " + category + "\n\n\n" + methods + "\n"
  }

  /** `_STEP_TEMPLATE.format(current_category=..., nb_categories=...)`. */
  function FormatStep(current: nat, total: nat): string {
    NatToString(current) + "/" + NatToString(total)
  }

  /** `_METHOD_TEMPLATE.format(...)`. */
  function FormatMethod(methodUpper: string, doc: string, codelines: string, methodName: string, result: string): string {
    "  " + methodUpper + ": " + doc + "\n    |\n" + codelines + "\n    |\n    |-- " + methodName + "() = " + result + "\n\n\n"
  }

  /** `_CODELINE_TEMPLATE.format(codeline=...)`. */
  function FormatCodeline(codeline: string): string {
    "    |  " + codeline
  }

  /** The code lines of a routine, each formatted, one after the other. */
  function CodelinesText(lines: seq<string>): string {
    if lines == [] then ""
    else CodelinesText(lines[..|lines| - 1]) + FormatCodeline(lines[|lines| - 1])
  }

  /** The text of one routine. */
  function MethodText(info: MethodInfo): string {
    FormatMethod(Bold(Upper(info.name)), Bold(info.doc), RStrip(CodelinesText(info.codelines)),
                 Bold(info.name), info.resultRepr)
  }

  /** The texts of the routines of one category, one after the other. */
  function MethodsText(infos: seq<MethodInfo>): string {
    if infos == [] then ""
    else MethodsText(infos[..|infos| - 1]) + MethodText(infos[|infos| - 1])
  }

  /** The block of the group at position `index`, labelled step `index + 1`
      of `total`. */
  function CategoryBlock(group: Group<MethodInfo>, index: nat, total: nat): string {
    FormatCategory(Bold(FormatStep(index + 1, total)), Underline(Upper(group.key)), MethodsText(group.items))
  }

  /** The blocks of the groups, in order. */
  function CategoriesText(groups: seq<Group<MethodInfo>>, total: nat): string {
    if groups == [] then ""
    else CategoriesText(groups[..|groups| - 1], total) + CategoryBlock(groups[|groups| - 1], |groups| - 1, total)
  }

  /** The report `show_sample` hands to the pager, or the exception it raises. */
  function Report(sample: SampleModule): Result<string, Error> {
    match DescribeAll(OwnRoutines(sample), Categories(sample.sourceLines))
    case Err(e) => Err(e)
    case Ok(infos) =>
      if sample.doc.None? then Err(ModuleWithoutDoc)
      else
        var ordered := OrderMethods(infos);
        Ok(FormatPrefix(Bold(Upper(sample.doc.value)))
           + CategoriesText(GroupBy(ordered, CategoryKey), NbCategories(ordered)))
  }

  /** Distinct steps carry distinct labels: `_STEP_TEMPLATE` tells the
      categories apart by their number. */
  lemma FormatStepInjective(a: nat, b: nat, total: nat)
    requires FormatStep(a, total) == FormatStep(b, total)
    ensures a == b
  {
    var x, y := NatToString(a), NatToString(b);
    var tail := "/" + NatToString(total);
    assert FormatStep(a, total) == x + tail;
    assert FormatStep(b, total) == y + tail;
    assert x == (x + tail)[..|x|];
    assert y == (y + tail)[..|y|];
    NatToStringInjective(a, b);
  }

  /** In a report, the groups are numbered 1/n, 2/n, ..., n/n, where n is
      both the number of groups and the number of distinct categories. */
  lemma ReportNumbersEveryGroup(sample: SampleModule)
    requires Report(sample).Ok?
    ensures DescribeAll(OwnRoutines(sample), Categories(sample.sourceLines)).Ok?
    ensures var infos := DescribeAll(OwnRoutines(sample), Categories(sample.sourceLines)).value;
            var groups := GroupBy(OrderMethods(infos), CategoryKey);
            && |groups| == NbCategories(infos)
            && Report(sample).value == FormatPrefix(Bold(Upper(sample.doc.value))) + CategoriesText(groups, |groups|)
  {
    var infos := DescribeAll(OwnRoutines(sample), Categories(sample.sourceLines)).value;
    GroupsOfOrderedRecords(infos);
  }

  /** The report exists exactly when the module has a docstring and every
      own routine starts at a line >= 0. */
  lemma ReportSucceeds(sample: SampleModule)
    ensures Report(sample).Ok? <==>
              sample.doc.Some? && forall i :: 0 <= i < |OwnRoutines(sample)| ==> OwnRoutines(sample)[i].startLine >= 0
    ensures Report(sample).Ok? ==> StartsWith(Report(sample).value, FormatPrefix(Bold(Upper(sample.doc.value))))
  {
    ExtractionSucceedsIffNonNegative(sample);
  }

  /** The innermost loop of `show_sample`: the code lines of one routine,
      each formatted, concatenated. */
  method RenderCodelines(lines: seq<string>) returns (text: string)
    ensures text == CodelinesText(lines)
  {
    text := "";
    var l := 0;
    while l < |lines|
      invariant 0 <= l <= |lines|
      invariant text == CodelinesText(lines[..l])
    {
      text := text + FormatCodeline(lines[l]);
      assert lines[..l + 1][..l] == lines[..l];
      l := l + 1;
    }
    assert lines[..l] == lines;
  }

  /** The middle loop of `show_sample`: the texts of the routines of one
      category, concatenated. */
  method RenderMethods(infos: seq<MethodInfo>) returns (text: string)
    ensures text == MethodsText(infos)
  {
    text := "";
    var m := 0;
    while m < |infos|
      invariant 0 <= m <= |infos|
      invariant text == MethodsText(infos[..m])
    {
      var info := infos[m];
      var codelinesText := RenderCodelines(info.codelines);
      text := text + FormatMethod(Bold(Upper(info.name)), Bold(info.doc), RStrip(codelinesText),
                                  Bold(info.name), info.resultRepr);
      assert infos[..m + 1][..m] == infos[..m];
      m := m + 1;
    }
    assert infos[..m] == infos;
  }

  /** The outer loop of `show_sample`: one block per group, labelled with
      its step among `total`. */
  method RenderCategories(groups: seq<Group<MethodInfo>>, total: nat) returns (text: string)
    ensures text == CategoriesText(groups, total)
  {
    text := "";
    var current := 0;
    while current < |groups|
      invariant 0 <= current <= |groups|
      invariant text == CategoriesText(groups[..current], total)
    {
      var methodsText := RenderMethods(groups[current].items);
      text := text + FormatCategory(Bold(FormatStep(current + 1, total)),
                                    Underline(Upper(groups[current].key)), methodsText);
      assert groups[..current + 1][..current] == groups[..current];
      current := current + 1;
    }
    assert groups[..current] == groups;
  }

  /** `show_sample`: extracts, orders and groups the records, then builds
      the report text category by category. */
  method ShowSample(sample: SampleModule) returns (r: Result<string, Error>)
    ensures r == Report(sample)
    ensures r.Ok? <==>
              sample.doc.Some? && forall i :: 0 <= i < |OwnRoutines(sample)| ==> OwnRoutines(sample)[i].startLine >= 0
  {
    ReportSucceeds(sample);
    var extracted := ExtractMethodsInfo(sample);
    if extracted.Err? {
      return Err(extracted.error);
    }
    var methodsInfo := OrderMethods(extracted.value);
    var groups := GroupBy(methodsInfo, CategoryKey);
    if sample.doc.None? {
      return Err(ModuleWithoutDoc);
    }
    var text := FormatPrefix(Bold(Upper(sample.doc.value)));
    var nbCategories := NbCategories(methodsInfo);
    var categoriesText := RenderCategories(groups, nbCategories);
    return Ok(text + categoriesText);
  }
}
