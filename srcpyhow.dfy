/** The later revision of the report builder (`src/pyhow/__init__.py`).
    Styling, category markers, the extraction of routine records, their
    ordering and the routine and code-line templates are the same code as
    in the first revision and are taken from `Pyhow`; what differs is the
    sample registry and the category block, which has no step label. */
module SrcPyhow {
  import opened Results
  import opened PyStr
  import opened PyGroupBy
  import PyDict
  import opened Pyhow

  // ---------------------------------------------------------------------
  // Registry of sample modules

  /** Every module under the samples package is a sample. */
  predicate IsSample(name: string, sample: SampleModule) {
    StartsWith(name, SAMPLES_ROOT)
  }

  /** The key of a sample: the last dotted component of its name. */
  function SampleKey(name: string): string {
    AfterLast(name, '.')
  }

  /** `make_samples`: every module under the samples package is registered
      under the last component of its name, and nothing else is; when two
      modules share that component, the later one in `sys.modules` wins. */
  function MakeSamples(modules: seq<(string, SampleModule)>): (r: map<string, SampleModule>)
    ensures forall k :: k in r <==>
              exists i :: 0 <= i < |modules| && IsSample(modules[i].0, modules[i].1)
                          && SampleKey(modules[i].0) == k
    ensures forall k :: k in r ==>
              exists i :: PyDict.LastWithKey(modules, IsSample, SampleKey, k, i) && r[k] == modules[i].1
    ensures forall k :: k in r ==> forall i :: 0 <= i < |k| ==> k[i] != '.'
  {
    var r := PyDict.Comprehend(modules, IsSample, SampleKey);
    forall k | k in r
      ensures PyDict.LastWithKey(modules, IsSample, SampleKey, k, PyDict.LastIndex(modules, IsSample, SampleKey, k))
      ensures forall i :: 0 <= i < |k| ==> k[i] != '.'
    {
      PyDict.LastIndexIsLast(modules, IsSample, SampleKey, k);
    }
    forall k, i | 0 <= i < |modules| && IsSample(modules[i].0, modules[i].1) && SampleKey(modules[i].0) == k
      ensures k in r
    {
      PyDict.LastIndexIsLast(modules, IsSample, SampleKey, k);
    }
    r
  }

  /** A module directly under the samples package gets the same key in both
      revisions: its name with the package prefix removed. */
  lemma SampleKeysAgree(k: string)
    requires forall i :: 0 <= i < |k| ==> k[i] != '.'
    ensures SampleKey(SAMPLES_ROOT + k) == Pyhow.SampleKey(SAMPLES_ROOT + k) == k
  {
    var root := SAMPLES_ROOT[..|SAMPLES_ROOT| - 1];
    assert SAMPLES_ROOT == root + ['.'];
    AfterLastOfSuffix(root, '.', k);
    assert (SAMPLES_ROOT + k)[|SAMPLES_ROOT|..] == k;
  }

  /** When no two samples share a key, each sample is registered under its
      own key. */
  lemma DistinctKeysRegisterEverySample(modules: seq<(string, SampleModule)>, i: int)
    requires 0 <= i < |modules| && IsSample(modules[i].0, modules[i].1)
    requires forall j :: 0 <= j < |modules| && j != i && IsSample(modules[j].0, modules[j].1) ==>
               SampleKey(modules[j].0) != SampleKey(modules[i].0)
    ensures SampleKey(modules[i].0) in MakeSamples(modules)
    ensures MakeSamples(modules)[SampleKey(modules[i].0)] == modules[i].1
  {
    var r := MakeSamples(modules);
    var k := SampleKey(modules[i].0);
    assert k in r;
    PyDict.LastIndexIsLast(modules, IsSample, SampleKey, k);
    assert PyDict.LastIndex(modules, IsSample, SampleKey, k) == i;
  }

  // ---------------------------------------------------------------------
  // Rendering

  /** `_CATEGORY_TEMPLATE.format(category=..., methods=...)`. */
  function FormatCategory(category: string, methods: string): string {
    category + "\n\n\n" + methods + "\n"
  }

  /** The block of one group: its category underlined, then its routines. */
  function CategoryBlock(group: Group<MethodInfo>): string {
    FormatCategory(Underline(Upper(group.key)), MethodsText(group.items))
  }

  /** The blocks of the groups, in order. */
  function CategoriesText(groups: seq<Group<MethodInfo>>): string {
    if groups == [] then ""
    else CategoriesText(groups[..|groups| - 1]) + CategoryBlock(groups[|groups| - 1])
  }

  /** The report `show_sample` hands to the pager, or the exception it raises. */
  function Report(sample: SampleModule): Result<string, Error> {
    match DescribeAll(OwnRoutines(sample), Categories(sample.sourceLines))
    case Err(e) => Err(e)
    case Ok(infos) =>
      if sample.doc.None? then Err(ModuleWithoutDoc)
      else Ok(FormatPrefix(Bold(Upper(sample.doc.value)))
              + CategoriesText(GroupBy(OrderMethods(infos), CategoryKey)))
  }

  /** A category block of the first revision is the one of this revision
      behind a bold step label. */
  lemma BlocksDifferByStep(group: Group<MethodInfo>, index: nat, total: nat)
    ensures Pyhow.CategoryBlock(group, index, total)
            == Bold(FormatStep(index + 1, total)) + " " + CategoryBlock(group)
  {
    var step := Bold(FormatStep(index + 1, total));
    var category := Underline(Upper(group.key));
    var methods := MethodsText(group.items);
    calc {
      Pyhow.CategoryBlock(group, index, total);
      Pyhow.FormatCategory(step, category, methods);
      step + " " + category + "\n\n\n" + methods + "\n";
      { assert step + " " + category + "\n\n\n" + methods + "\n"
               == step + " " + (category + "\n\n\n" + methods + "\n"); }
      step + " " + FormatCategory(category, methods);
    }
  }

  /** Both revisions fail on the same modules and with the same exception,
      and succeed on the same ones with the same header. */
  lemma RevisionsFailAlike(sample: SampleModule)
    ensures Report(sample).Ok? <==> Pyhow.Report(sample).Ok?
    ensures Report(sample).Err? ==> Report(sample).error == Pyhow.Report(sample).error
    ensures Report(sample).Ok? ==> StartsWith(Report(sample).value, FormatPrefix(Bold(Upper(sample.doc.value))))
  {
  }

  /** The outer loop of `show_sample`: one block per group. */
  method RenderCategories(groups: seq<Group<MethodInfo>>) returns (text: string)
    ensures text == CategoriesText(groups)
  {
    text := "";
    var current := 0;
    while current < |groups|
      invariant 0 <= current <= |groups|
      invariant text == CategoriesText(groups[..current])
    {
      var methodsText := RenderMethods(groups[current].items);
      text := text + FormatCategory(Underline(Upper(groups[current].key)), methodsText);
      assert groups[..current + 1][..current] == groups[..current];
      current := current + 1;
    }
    assert groups[..current] == groups;
  }

  /** `show_sample`: extracts, orders and groups the records, then builds
      the report text category by category. */
  method ShowSample(sample: SampleModule) returns (r: Result<string, Error>)
    ensures r == Report(sample)
    ensures r.Ok? <==>
              sample.doc.Some? && forall i :: 0 <= i < |OwnRoutines(sample)| ==> OwnRoutines(sample)[i].startLine >= 0
  {
    ReportSucceeds(sample);
    RevisionsFailAlike(sample);
    var extracted := ExtractMethodsInfo(sample);
    if extracted.Err? {
      return Err(extracted.error);
    }
    var methodsInfo := OrderMethods(extracted.value);
    var groups := GroupBy(methodsInfo, CategoryKey);
    if sample.doc.None? {
      return Err(ModuleWithoutDoc);
    }
    var text := FormatPrefix(Bold(Upper(sample.doc.value)));
    var categoriesText := RenderCategories(groups);
    return Ok(text + categoriesText);
  }
}
