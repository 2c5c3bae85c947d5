# pyhow report builder, in Dafny

pyhow shows Python sample modules as a terminal report. Given one sample module, the report builder does the following:

- It reads the module's `# category: ` markers.
- It keeps the module's own routines, other than `run`.
- It gives each routine the category of the nearest marker above it.
- It drops blank lines and lines containing `"""` from each routine's code. Inside a multi-line docstring, the lines without `"""` are kept; a code line holding `"""` is dropped.
- It orders the routines by category and then by name.
- It groups them by category and renders the report through fixed templates. Bold and underline are done by overstriking with a backspace.
- A small registry, `make_samples`, maps sample names to loaded sample modules.

The repository holds two revisions of this code, and both are modelled:

- `Pyhow` (pyhow.dfy) models `pyhow/__init__.py`. That revision numbers the categories `k/n`.
- `SrcPyhow` (srcpyhow.dfy) models `src/pyhow/__init__.py`. That revision inlines the extraction, drops the step numbers and keys samples by the last dotted component of their name.

Code that is the same in both revisions is modelled once, in `Pyhow`, and `SrcPyhow` imports it. This covers:

- `_bold` and `_underline`;
- the marker, routine, code-line and category comprehensions;
- the extraction loop;
- the two sorts and the grouping;
- the routine and code-line templates.

The Python library behaviour the builder relies on is modelled in small modules of its own:

- `Seqs`: list comprehensions with a condition.
- `PyStr`: `str.strip`, `rstrip`, `startswith`, `in`, `replace`, `upper`, `split('.')[-1]` and `os.path.basename`, and `str(int)`.
- `PySorted`: Python's string order and the stable `sorted`.
- `PyGroupBy`: `itertools.groupby`.
- `PyDict`: dict comprehensions, where the last write wins.
- `Results`: `Option` and `Result`.

Reflection is replaced by input records:

- A `SampleModule` holds its name, its `__file__`, its docstring, its source lines, and the objects `dir()` lists, in `dir()` order.
- A `Member` holds its `__name__`, whether it is callable, its `__module__`, its docstring, its source lines and start line, and the `repr` of what calling it returns.

The two exceptions the builder lets escape are modelled as `Error` values:

- `NoCategory` is the `IndexError` of the category lookup. It happens for a routine with no boundary below its start line.
- `ModuleWithoutDoc` is the `AttributeError` of `module.__doc__.upper()`.

The extraction runs first, so its error wins, as in the source.

`show_sample` is modelled as one method per nested loop: `RenderCodelines`, `RenderMethods` and `RenderCategories`, called by `ShowSample`. Each method is proved equal to a recursive specification of the text it builds (`CodelinesText`, `MethodsText`, `CategoriesText`, `Report`). The templates are the `Format*` functions.

## Model

| member | source | states |
|---|---|---|
| Pyhow.Bold | pyhow/__init__.py:55-57 | the result is three times as long as the text, and the triple at 3i is `t[i]`, backspace, `t[i]`; the later revision has the same code at `src/pyhow/__init__.py:59-61` |
| Pyhow.Underline | pyhow/__init__.py:60-62 | the result is three times as long as the text, and the triple at 3i is `_`, backspace, `t[i]`; the later revision has the same code at `src/pyhow/__init__.py:64-66` |
| Pyhow.BoldShowsText | pyhow/__init__.py:55-57 | a terminal that resolves overstrikes shows exactly the bolded text |
| Pyhow.UnderlineShowsText | pyhow/__init__.py:60-62 | a terminal that resolves overstrikes shows exactly the underlined text |
| Pyhow.MakeSamples | pyhow/__init__.py:44-52 | a key is registered iff some module whose file name does not start with `_` is named `pyhow.samples.` followed by that key |
| Pyhow.SampleRegistered | pyhow/__init__.py:44-52 | with the distinct names of `sys.modules`, every such sample sits under its name with the prefix removed |
| Pyhow.SampleKeyRoundTrip | pyhow/__init__.py:47-49 | a name under the package is the prefix followed by its key, and `name[len(root):]` gives back what follows the prefix |
| SrcPyhow.MakeSamples | src/pyhow/__init__.py:50-56 | a key is registered iff it is the last dotted component of some module name starting with `pyhow.samples.`; its value is the module of the last such name in `sys.modules` order; keys hold no `.` |
| SrcPyhow.SampleKeysAgree | src/pyhow/__init__.py:53-56 | a module directly under the samples package gets the same key in both revisions |
| SrcPyhow.DistinctKeysRegisterEverySample | src/pyhow/__init__.py:53-56 | when no other sample shares its last component, a sample is registered under it |
| PyDict.Comprehend | src/pyhow/__init__.py:53-56 | a key is present iff some kept entry has it, and it maps to the value of the last such entry |
| PyDict.LastIndexIsLast | src/pyhow/__init__.py:53-56 | the entry found is kept, has the key and is followed by no kept entry with that key; none is found iff no kept entry has the key |
| Pyhow.MarkerNameFollowsTag | pyhow/__init__.py:68-72 | a marker's name is its stripped line after the tag, with any further copies of the tag removed |
| Seqs.Positions | pyhow/__init__.py:70-72 | the positions listed hold elements satisfying the condition and are strictly ascending |
| Seqs.PositionsComplete | pyhow/__init__.py:70-72 | every position whose element satisfies the condition is listed |
| Pyhow.Categories | pyhow/__init__.py:68-72 | the `('uncategorized', -1)` sentinel, then only marker lines, in ascending line order, each named by its stripped line without the tag; the later revision has the same code at `src/pyhow/__init__.py:72-76` |
| Pyhow.CategoriesComplete | pyhow/__init__.py:68-72 | every marker line is among the boundaries after the sentinel |
| Pyhow.BelowIsPrefix | pyhow/__init__.py:87-90 | on ascending boundaries, those strictly below a line are the first `CountBelow` of them, and none after lies below |
| Pyhow.CountBelowIsBelow | pyhow/__init__.py:87-90 | every boundary `CountBelow` counts lies strictly below the line |
| Pyhow.CategoryAtGreatestBelow | pyhow/__init__.py:87-90 | the lookup returns the boundary with the greatest line strictly below the start line, and fails iff there is none; the later revision has the same code at `src/pyhow/__init__.py:92-94` |
| Pyhow.CategoryDefinedIffNonNegative | pyhow/__init__.py:87-90 | thanks to the sentinel, a category exists iff the start line is >= 0 |
| Pyhow.OwnRoutines | pyhow/__init__.py:74-77 | keeps, with their multiplicities, exactly the callables whose module is the sample's and whose name is not `run`; the later revision has the same code at `src/pyhow/__init__.py:78-81` |
| Pyhow.OwnRoutinesKeepOrder | pyhow/__init__.py:74-77 | the filter keeps `dir()` order: the routines of members listed one after another are those of the first part followed by those of the second (the same comprehension is at `src/pyhow/__init__.py:78-81`) |
| Pyhow.CodelinesAreDisplayedLines | pyhow/__init__.py:84-86 | the shown code keeps exactly the displayed lines, with their multiplicities, and filtering commutes with concatenation, so order is kept; the later revision has the same code at `src/pyhow/__init__.py:88-90` |
| Pyhow.DisplayedLineMeaning | pyhow/__init__.py:84-86 | a line is displayed iff it has a non-whitespace character and no `"""` occurs in it |
| Pyhow.DocIsTrimmedDocstring | pyhow/__init__.py:83 | the shown doc is the docstring with the surrounding whitespace removed, or empty when there is none |
| Pyhow.DescribeAll | pyhow/__init__.py:79-92 | succeeds iff every routine's record succeeds; the records are in routine order; an error is that of the first failing routine |
| Pyhow.DescribeAllOk | pyhow/__init__.py:79-92 | when every routine has a record, the result is exactly those records |
| Pyhow.DescribeAllFirstError | pyhow/__init__.py:79-92 | the first failing routine's error is the result |
| Pyhow.ExtractionSucceedsIffNonNegative | pyhow/__init__.py:79-92 | the records exist iff every own routine starts at a line >= 0; then there is one per routine and none is named `run` |
| Pyhow.ExtractMethodsInfo | pyhow/__init__.py:65-92 | the loop builds exactly `DescribeAll` of the own routines: the records in `dir()` order, or the first routine's lookup error; the later revision has the same code at `src/pyhow/__init__.py:72-95` |
| PySorted.LessTransitive | pyhow/__init__.py:99-100 | Python's string order is transitive |
| PySorted.LessTotal | pyhow/__init__.py:99-100 | Python's string order is total |
| PySorted.SortBy | pyhow/__init__.py:99-100 | `sorted(key=...)` gives a permutation ordered by the key |
| PySorted.SortByStable | pyhow/__init__.py:99-100 | elements with equal keys keep their relative order |
| PySorted.StableSortUnique | pyhow/__init__.py:99-100 | two stable sorts of one list by one key agree, so the model's insertion sort gives the same list as Python's sort |
| PySorted.SortByIsTheStableSort | pyhow/__init__.py:99-100 | any ordered, stable permutation of the input is `SortBy`'s result |
| PySorted.TwoPassSort | pyhow/__init__.py:99-100 | sorting by name and then stably by category gives a permutation in (category, name) order |
| Pyhow.OrderMethods | pyhow/__init__.py:99-100 | the records reordered as a permutation, in (category, name) order; the later revision has the same code at `src/pyhow/__init__.py:97-98` |
| PyGroupBy.GroupBy | pyhow/__init__.py:102-103 | the groups concatenate back to the input; they are non-empty; adjacent groups differ in key; the first group has the first element's key |
| PyGroupBy.GroupByUniform | pyhow/__init__.py:102-103 | every element of a group has the group's key |
| PyGroupBy.GroupKeysAscending | pyhow/__init__.py:102-103 | on input sorted by the key, group keys are strictly ascending |
| PyGroupBy.GroupPerKey | pyhow/__init__.py:102-108 | on sorted input, each key has exactly one group, and the number of groups is the number of distinct keys |
| PyGroupBy.KeySetOfPermutation | pyhow/__init__.py:106-107 | reordering does not change the set of categories |
| Pyhow.GroupsOfOrderedRecords | pyhow/__init__.py:99-108 | there is one group per distinct category, in ascending order, and `nb_categories` groups; every record appears in exactly one group; the two sorts and the `groupby` are the same code in the later revision (`src/pyhow/__init__.py:97-100`), which has no `nb_categories` |
| Pyhow.FormatStepInjective | pyhow/__init__.py:30 | different step numbers give different step labels |
| Pyhow.ReportNumbersEveryGroup | pyhow/__init__.py:105-130 | the report is the header followed by the groups' blocks numbered 1/n to n/n, where n is both the group count and `nb_categories` |
| Pyhow.ReportSucceeds | pyhow/__init__.py:95-132 | a report exists iff the module has a docstring and every own routine starts at a line >= 0; the report starts with the bolded upper-cased docstring header |
| Pyhow.RenderCodelines | pyhow/__init__.py:114-116 | the code-line loop builds the formatted lines concatenated in order |
| Pyhow.RenderMethods | pyhow/__init__.py:111-123 | the routine loop builds the routine texts concatenated in order |
| Pyhow.RenderCategories | pyhow/__init__.py:108-130 | the category loop builds each group's block, labelled with its 1-based step of `nb_categories` |
| Pyhow.ShowSample | pyhow/__init__.py:95-130 | `show_sample` builds exactly `Report` and fails exactly when that spec does |
| SrcPyhow.RenderCategories | src/pyhow/__init__.py:103-121 | the category loop of the later revision builds each group's block without a step label |
| SrcPyhow.ShowSample | src/pyhow/__init__.py:69-121 | the later revision's `show_sample` builds exactly its `Report` and fails exactly when that spec does |
| SrcPyhow.BlocksDifferByStep | src/pyhow/__init__.py:32-36 | a category block of the first revision is the later revision's block behind the bold step label and a space |
| SrcPyhow.RevisionsFailAlike | src/pyhow/__init__.py:69-121 | both revisions fail on the same modules with the same exception, and both start their report with the same header |
| PyStr.StripIsTrim | pyhow/__init__.py:70-72 | `strip()` gives a slice of the line with only whitespace around it |
| PyStr.StripEmptyIffBlank | pyhow/__init__.py:85 | a line strips to the empty string iff all its characters are whitespace |
| PyStr.RStripIsPrefix | pyhow/__init__.py:123 | `rstrip()` keeps a prefix and removes whitespace only |
| PyStr.LStripIsSuffix | pyhow/__init__.py:70-72 | leading whitespace removal keeps a suffix and removes whitespace only |
| PyStr.ContainsIffOccurs | pyhow/__init__.py:85-86 | `sub in s` holds iff `sub` occurs in `s` at some index |
| PyStr.AfterLast | src/pyhow/__init__.py:54 | `name.split('.')[-1]` is the suffix after the last `.` and holds no `.` |
| PyStr.DecimalRoundTrip | pyhow/__init__.py:30 | parsing the decimal text of a number gives the number back |
| PyStr.Upper | pyhow/__init__.py:105 | upper-casing keeps the length, maps each character, and leaves no lower-case ASCII letter |

## Left out

- PyStr.Upper: `str.upper` is modelled for ASCII letters only. Other Unicode case mappings, including those that change the length (such as `ß` to `SS`), are not modelled.
- Reflection (`inspect.getsourcelines`, `dir`, `getattr`, `callable`, `__module__`, `__file__`) is replaced by input records.
  - `dir()` order is taken as the records' order.
  - A start line is taken as given, while marker indices are 0-based, as `enumerate` numbers them.
  - A module whose `__file__` is `None` is not modelled: the file path is always a string.
  - `inspect` failing to find source is not modelled.
- Calling each routine and taking the `repr` of its result is not modelled. The repr is an input string, and exceptions raised by a routine are not modelled.
- `pydoc.getpager()(text)` is terminal I/O. The model ends with the text handed to it.
- `src/pyhow/__main__.py` (command-line parsing), the sample modules, `pyhow/samples/__init__.py` and `setup.py` are not part of this model.
- `sys.modules` is taken as a list of (name, module) entries in iteration order. `Pyhow.SampleRegistered` also takes its names as distinct, as a dictionary's keys are.
