# convert-assemblies-to-packages, modelled in Dafny

This project models the reference-rewrite logic of the `convert-assemblies-to-packages`
command of DNT (`src/Dnt.Commands/Packages/ConvertAssemblyReferencesToPackagesCommand.cs`).
For one loaded MSBuild project the command:

1. selects the `Reference` items that have a `HintPath` ending in `.dll` (or all of them with
   `IncludeWithoutHintPath`), and of those only the ones whose evaluated include matches the
   reference pattern when one is given;
2. derives a package name from each one's evaluated include (the text before the first comma);
3. asks the configured package sources in order, each for a page of at most 10 results, and
   takes the first result titled exactly with that name, stopping at the first source with a hit;
4. adds a `PackageReference` for the package, pinned to the first version listed, and removes
   the `Reference`;
5. saves the project once, after the last reference.

Modules, one per part of the command:

- `sequences.dfy`: `Option`, and LINQ `Where` with the proof that it keeps order.
- `items.dfy`: project items (type, evaluated include, direct metadata, and an identity
  standing for the item object) and removal by identity.
- `matcher.dfy`: the selection of references, `string.Split`, the package-name derivation and
  `string.IsNullOrWhiteSpace` for the pattern argument.
- `registry.dfy`: the result page, the exact-title search of one source, and the ordered
  search over all sources with the loop that stops at the first hit.
- `project.dfy`: the loaded project as a class with `AddItem`, `RemoveItem` and `Save`, and
  the console host's error log.
- `conversion.dfy`: the per-reference and per-project processing as methods, the functions
  `Step`, `RunFrom` and `RunProject` that specify them, and lemmas about a whole run.
- `hardening.dfy`: the run with a versionless package skipped instead of ending the run (see
  Findings).
- `scenarios.dfy`: concrete runs.

The package search of a source is a function parameter `search(repository, term,
includePrerelease)` giving the source's results in order. The regular expression matcher is a
parameter `isMatch(pattern, input)`. Both travel in `Conversion.Settings`, with the ordered
source list and the three command arguments.

When a package is found with an empty version list, the code writes an error line and then
evaluates `versions[0]` as an argument of `AddItem`, which throws. The exception leaves the
`foreach`, so the later references are not processed and the project is not saved. The model
has this outcome (`Conversion.Outcome.VersionsMissing`, `Conversion.Run.Aborted`).

## Model

| member | source | states |
|---|---|---|
| Sequences.Where | src/Dnt.Commands/Packages/ConvertAssemblyReferencesToPackagesCommand.cs:59-70 | LINQ `Where`: an element is in the result iff it is in the source and satisfies the predicate, and the result is never longer; how often each appears is not stated, which is immaterial for item lists of distinct objects |
| Sequences.WhereIsSubsequence | src/Dnt.Commands/Packages/ConvertAssemblyReferencesToPackagesCommand.cs:59-70 | the result of `Where` is a subsequence of its source, so filtering never reorders |
| Sequences.SubsequenceTransitive | src/Dnt.Commands/Packages/ConvertAssemblyReferencesToPackagesCommand.cs:64-68 | a subsequence of a subsequence is a subsequence, so the second filter on the pattern keeps project order too |
| Sequences.WhereKeepsAll | src/Dnt.Commands/Packages/ConvertAssemblyReferencesToPackagesCommand.cs:59-62 | a filter every element satisfies returns its source unchanged |
| ProjectItems.Without | src/Dnt.Commands/Packages/ConvertAssemblyReferencesToPackagesCommand.cs:102 | removing an item object keeps exactly the items with another identity, in their order |
| ProjectItems.WithoutKeepsUniqueIds | src/Dnt.Commands/Packages/ConvertAssemblyReferencesToPackagesCommand.cs:102 | after a removal the items are still distinct objects |
| ProjectItems.WithoutAbsent | src/Dnt.Commands/Packages/ConvertAssemblyReferencesToPackagesCommand.cs:102 | removing an item that is not in the project changes nothing |
| ProjectItems.WithoutLength | src/Dnt.Commands/Packages/ConvertAssemblyReferencesToPackagesCommand.cs:102 | removing an item that is in the project removes exactly one element |
| ReferenceMatcher.IsNullOrWhiteSpace | src/Dnt.Commands/Packages/ConvertAssemblyReferencesToPackagesCommand.cs:34 | `string.IsNullOrWhiteSpace` over .NET's `char.IsWhiteSpace` set; pinned down by `ActivePattern` |
| ReferenceMatcher.HasDllHintPath | src/Dnt.Commands/Packages/ConvertAssemblyReferencesToPackagesCommand.cs:61-62 | some direct metadata entry is named `HintPath` and its value ends in `.dll`; used by `SelectReferences` |
| ReferenceMatcher.IsAssemblyReference | src/Dnt.Commands/Packages/ConvertAssemblyReferencesToPackagesCommand.cs:61-62 | the first filter: item type `Reference`, and a dll hint path unless `IncludeWithoutHintPath`; pinned down by `SelectReferences` |
| ReferenceMatcher.ActivePattern | src/Dnt.Commands/Packages/ConvertAssemblyReferencesToPackagesCommand.cs:34-37 | the pattern filter is active exactly when the argument is not null, empty or white space, and then it is the argument |
| ReferenceMatcher.SelectReferences | src/Dnt.Commands/Packages/ConvertAssemblyReferencesToPackagesCommand.cs:59-70 | every selected item is a project `Reference`; without `IncludeWithoutHintPath` it has a `HintPath` ending in `.dll`; with a pattern its include matches; every project item meeting these is selected; the selection keeps project order |
| ReferenceMatcher.Split | src/Dnt.Commands/Packages/ConvertAssemblyReferencesToPackagesCommand.cs:109 | `Split` gives at least one piece, and no piece contains the separator |
| ReferenceMatcher.JoinSplit | src/Dnt.Commands/Packages/ConvertAssemblyReferencesToPackagesCommand.cs:109 | joining the pieces of a split with the separator gives back the string |
| ReferenceMatcher.SplitHead | src/Dnt.Commands/Packages/ConvertAssemblyReferencesToPackagesCommand.cs:109 | the first piece is a prefix: the whole string without a separator, otherwise the text right before the first separator |
| ReferenceMatcher.PotentialPackageName | src/Dnt.Commands/Packages/ConvertAssemblyReferencesToPackagesCommand.cs:105-110 | an include without a comma is returned unchanged; otherwise the result is the prefix before the first comma; the result never contains a comma |
| PackageSearch.Page | src/Dnt.Commands/Packages/ConvertAssemblyReferencesToPackagesCommand.cs:116-118 | a request sees at most the first 10 results of the source, in their order |
| PackageSearch.FirstWithTitle | src/Dnt.Commands/Packages/ConvertAssemblyReferencesToPackagesCommand.cs:119 | `FirstOrDefault`: nothing iff no candidate has the exact title, otherwise the candidate at the first position with that title |
| PackageSearch.SearchForPackage | src/Dnt.Commands/Packages/ConvertAssemblyReferencesToPackagesCommand.cs:112-120 | a hit has exactly the searched title and is among the first 10 results; there is none iff none of those results has that title |
| PackageSearch.SearchAll | src/Dnt.Commands/Packages/ConvertAssemblyReferencesToPackagesCommand.cs:87-92 | sources probed in order until one has a hit; pinned down by `SearchAllFinds`, `SearchAllIsFirstHit` and `FindPackage` |
| PackageSearch.SearchAllFinds | src/Dnt.Commands/Packages/ConvertAssemblyReferencesToPackagesCommand.cs:87-92 | the ordered search finds nothing iff no source has a hit, and otherwise yields the hit of the earliest source that has one |
| PackageSearch.SearchAllIsFirstHit | src/Dnt.Commands/Packages/ConvertAssemblyReferencesToPackagesCommand.cs:87-92 | the earliest source with a hit decides the result, whatever later sources hold |
| PackageSearch.FindPackage | src/Dnt.Commands/Packages/ConvertAssemblyReferencesToPackagesCommand.cs:87-92 | the loop yields the ordered search's result; the sources it asks are a prefix of the list, the whole list when nothing is found, and otherwise end at the first source with a hit, so no later source is asked |
| MsBuild.Project.Load | src/Dnt.Commands/Packages/ConvertAssemblyReferencesToPackagesCommand.cs:55 | a loaded project holds the file's items, unchanged and not yet saved |
| MsBuild.Project.AddItem | src/Dnt.Commands/Packages/ConvertAssemblyReferencesToPackagesCommand.cs:100-101 | one new item object with the given type, include and metadata is added, and nothing else changes |
| MsBuild.Project.RemoveItem | src/Dnt.Commands/Packages/ConvertAssemblyReferencesToPackagesCommand.cs:102 | the item object leaves the list and the others stay in order; the result says whether it was there |
| MsBuild.Project.Save | src/Dnt.Commands/Packages/ConvertAssemblyReferencesToPackagesCommand.cs:79 | the current items are written and the save count goes up by one |
| MsBuild.ConsoleHost.WriteError | src/Dnt.Commands/Packages/ConvertAssemblyReferencesToPackagesCommand.cs:97-98 | one error line is appended to the host's log |
| Conversion.Selected | src/Dnt.Commands/Packages/ConvertAssemblyReferencesToPackagesCommand.cs:34-37 | the selection of a run: `SelectReferences` with the pattern made active as `ActivePattern` says (59-70) |
| Conversion.Lookup | src/Dnt.Commands/Packages/ConvertAssemblyReferencesToPackagesCommand.cs:86-92 | the package for a reference: its derived name searched in every source in order; `LookupTitle` states its title |
| Conversion.PackageReference | src/Dnt.Commands/Packages/ConvertAssemblyReferencesToPackagesCommand.cs:100-101 | the added item: type `PackageReference`, include the package title, one `Version` metadata equal to the first version; used by `RewriteReplacesOne` and `RunFromAdds` |
| Conversion.Rewrite | src/Dnt.Commands/Packages/ConvertAssemblyReferencesToPackagesCommand.cs:100-102 | add the package reference, then remove the reference by identity; pinned down by `RewriteReplacesOne` |
| Conversion.Step | src/Dnt.Commands/Packages/ConvertAssemblyReferencesToPackagesCommand.cs:94-102 | one reference: no package leaves the items, a versionless package stops the run, otherwise `Rewrite`; tied to `ProcessAssemblyReference` by its contract |
| Conversion.RunFrom | src/Dnt.Commands/Packages/ConvertAssemblyReferencesToPackagesCommand.cs:71-77 | references processed in order until one stops the run; properties in `RunFromNoHits`, `RunFromAdds`, `RunFromSurvivors`, `RunFromKeepsLength` and `RunFromAddsAll` |
| Conversion.RunProject | src/Dnt.Commands/Packages/ConvertAssemblyReferencesToPackagesCommand.cs:59-77 | the run over a project's selected references; tied to `ReplaceAssembliesWithPackageReference` by its contract, idempotent by `RunProjectIdempotent` |
| Conversion.LookupTitle | src/Dnt.Commands/Packages/ConvertAssemblyReferencesToPackagesCommand.cs:86-92 | a package found for a reference is titled exactly with the name derived from its include, which has no comma |
| Conversion.WithoutAppend | src/Dnt.Commands/Packages/ConvertAssemblyReferencesToPackagesCommand.cs:100-102 | adding the new item and then removing the reference equals removing the reference and then appending the new item |
| Conversion.RewriteReplacesOne | src/Dnt.Commands/Packages/ConvertAssemblyReferencesToPackagesCommand.cs:100-102 | converting a reference keeps the project's length, removes the reference, keeps every other item in order, appends the package reference, and keeps the items distinct |
| Conversion.RunFromNoHits | src/Dnt.Commands/Packages/ConvertAssemblyReferencesToPackagesCommand.cs:94 | references for which no source has a package leave the project unchanged |
| Conversion.RunFromAdds | src/Dnt.Commands/Packages/ConvertAssemblyReferencesToPackagesCommand.cs:95-102 | every item after a run is an original one or a `PackageReference` added for a found package, named after its title, with one `Version` metadata equal to its first version |
| Conversion.RunFromSurvivors | src/Dnt.Commands/Packages/ConvertAssemblyReferencesToPackagesCommand.cs:94-102 | after a completed run every item that is not a package reference is an original item that no converted reference was |
| Conversion.RunFromKeepsOthers | src/Dnt.Commands/Packages/ConvertAssemblyReferencesToPackagesCommand.cs:94-102 | an item that is none of the references survives the run, whether it completes or stops |
| Conversion.RunFromKeepsLength | src/Dnt.Commands/Packages/ConvertAssemblyReferencesToPackagesCommand.cs:94-102 | a run over distinct references of a well-formed item list keeps its length: each conversion replaces one item by one |
| Conversion.RunFromAddsAll | src/Dnt.Commands/Packages/ConvertAssemblyReferencesToPackagesCommand.cs:71-102 | after a completed run, every reference whose package has versions has its package reference in the list, named after the title and pinned to the first version |
| Conversion.RunProjectKeepsLength | src/Dnt.Commands/Packages/ConvertAssemblyReferencesToPackagesCommand.cs:59-77 | a run keeps the length of a project of distinct items |
| Conversion.RunProjectConvertsAll | src/Dnt.Commands/Packages/ConvertAssemblyReferencesToPackagesCommand.cs:59-102 | a completed run leaves a package reference for every selected reference whose package has versions |
| Conversion.RunProjectIdempotent | src/Dnt.Commands/Packages/ConvertAssemblyReferencesToPackagesCommand.cs:59-79 | running the conversion again on a converted project changes nothing |
| Conversion.ProcessAssemblyReference | src/Dnt.Commands/Packages/ConvertAssemblyReferencesToPackagesCommand.cs:83-103 | with no package the project and log are unchanged; with a package without versions one error line is logged and the project is unchanged; otherwise the package reference is added and the reference removed |
| Conversion.ProcessReferences | src/Dnt.Commands/Packages/ConvertAssemblyReferencesToPackagesCommand.cs:71-77 | the `foreach`: the references are processed in order as `RunFrom` says, and a package without versions ends the loop after its one error line |
| Conversion.ReplaceAssembliesWithPackageReference | src/Dnt.Commands/Packages/ConvertAssemblyReferencesToPackagesCommand.cs:51-81 | the selected references are processed in order as `RunProject` says; a completed run saves the project exactly once, after the last reference; a run stopped by a versionless package saves nothing and logs one error |
| Hardening.Versioned | src/Dnt.Commands/Packages/ConvertAssemblyReferencesToPackagesCommand.cs:96-99 | the package found, or none when it has no versions |
| Hardening.SkippingStep | src/Dnt.Commands/Packages/ConvertAssemblyReferencesToPackagesCommand.cs:94-102 | processing a reference never stops the run, and equals `Step` with a versionless package counted as none |
| Hardening.SkippingRunFrom | src/Dnt.Commands/Packages/ConvertAssemblyReferencesToPackagesCommand.cs:71-77 | the run with versionless packages skipped always completes |
| Hardening.SkippingRunIsRunWithoutVersionless | src/Dnt.Commands/Packages/ConvertAssemblyReferencesToPackagesCommand.cs:71-102 | the skipping run equals the run as written over a lookup that treats versionless packages as not found |
| Hardening.SkippingRunAdds | src/Dnt.Commands/Packages/ConvertAssemblyReferencesToPackagesCommand.cs:100-102 | every item the skipping run leaves is original or a package reference pinned to the first version of a package that has versions |
| Hardening.SkippingErrors | src/Dnt.Commands/Packages/ConvertAssemblyReferencesToPackagesCommand.cs:96-98 | the error lines the corrected code writes while it skips: at most one per reference, and none iff no reference's package lacks versions |
| Hardening.SkippingRunAddsAll | src/Dnt.Commands/Packages/ConvertAssemblyReferencesToPackagesCommand.cs:71-102 | the corrected run leaves a package reference, pinned to the first version, for every reference whose package has versions |
| Hardening.SkippingErrorsAreVersionless | src/Dnt.Commands/Packages/ConvertAssemblyReferencesToPackagesCommand.cs:96-98 | the corrected code's error lines are exactly one `Failed to retrieve any versions` message per reference whose package has no versions, naming that reference's derived package name, in reference order |
| Hardening.SkippingRunAgrees | src/Dnt.Commands/Packages/ConvertAssemblyReferencesToPackagesCommand.cs:71-77 | wherever the run as written completes, the skipping run gives the same project |
| Hardening.SkippingRunKeepsUnconverted | src/Dnt.Commands/Packages/ConvertAssemblyReferencesToPackagesCommand.cs:94-102 | an item survives the skipping run unless a reference with its identity found a package that has versions |
| Hardening.VersionlessPackageStopsRun | src/Dnt.Commands/Packages/ConvertAssemblyReferencesToPackagesCommand.cs:96-101 | a versionless package found for the first reference stops the run as written before the second, convertible reference; the skipping run converts it |
| Scenarios.JsonPackageName | src/Dnt.Commands/Packages/ConvertAssemblyReferencesToPackagesCommand.cs:105-110 | the name derived from `Json, Version=12` is `Json` |
| Scenarios.JsonSelected | src/Dnt.Commands/Packages/ConvertAssemblyReferencesToPackagesCommand.cs:59-62 | a `Reference` with a hint path `Json.dll` is selected |
| Scenarios.JsonFound | src/Dnt.Commands/Packages/ConvertAssemblyReferencesToPackagesCommand.cs:112-120 | a result titled exactly `Json` is the package found |
| Scenarios.JsonReferenceConverted | src/Dnt.Commands/Packages/ConvertAssemblyReferencesToPackagesCommand.cs:100-102 | with versions `13.0.3, 12.0.3` the reference becomes a `PackageReference` to `Json` with `Version` `13.0.3` |
| Scenarios.JsonNotFound | src/Dnt.Commands/Packages/ConvertAssemblyReferencesToPackagesCommand.cs:119 | a result titled `Json.Bson` is not a hit for `Json` |
| Scenarios.NoExactTitleLeavesProject | src/Dnt.Commands/Packages/ConvertAssemblyReferencesToPackagesCommand.cs:94 | with no exactly titled result the project is left as it is |

## Left out

- Processing several projects at once with `Task.WhenAll` (lines 46-47), and the async suspension points. The model runs one project sequentially.
- Loading the NuGet settings and building the source list (lines 39-44). The ordered source list is an input.
- The network search and `GetVersionsAsync` (lines 95, 115-118). The search is a function parameter, and a candidate carries its version list in the source's order. The prerelease flag is passed to that parameter and not interpreted.
- A failing `SearchAsync` (lines 115-118). The code has no try/catch, so the exception ends the project's run; the model's search always returns results.
- Exceptions from the version listing, loading or saving. The code catches none of them either. Only the empty-version exception is modelled.
- .NET regular expressions (lines 36, 67). `isMatch(pattern, input)` is an uninterpreted parameter.
- `string.EndsWith(".dll")` (line 62). It is compared character by character. .NET's default comparison is culture-sensitive.
- MSBuild loading and `SaveWithLineEndings` (lines 55, 79). Loading gives a list of distinct items, and saving records the item list and counts the saves. Serialisation, line endings and unloading by `using` are not modelled.
- MSBuild.Project.AddItem: appends the new item at the end of the evaluated item list and takes the include literally. MSBuild places it in a matching item group and evaluates properties and wildcards in the include.
- `NuGetVersion.ToString()`: versions are modelled by their string form.
- Command-line arguments, `TryGetGlobalProperties`, `GetProjectPaths` and console formatting. These are in the base class, which is not part of this model. The console host is an error log.

## Findings

| source | as written | input that shows it | evidently intended | confidence | as-written member | corrected member |
|---|---|---|---|---|---|---|
| src/Dnt.Commands/Packages/ConvertAssemblyReferencesToPackagesCommand.cs:96-101 | after writing "Failed to retrieve any versions…", execution goes on to `versions[0]`, which throws on the empty list; the project's run ends there, the later references are not converted and the project is not saved | references `A` and `B` where `A`'s package is found with no versions and `B`'s with version `1.0.0` | report the error and skip that reference (a `return` after `WriteError`), converting the rest and saving | not executed | Hardening.VersionlessPackageStopsRun | Hardening.SkippingRunFrom |

`Hardening.SkippingRunFrom` is the corrected run. `Hardening.SkippingRunIsRunWithoutVersionless` proves it is the run as written with versionless packages treated as not found, and `Hardening.SkippingRunAddsAll` that it converts every reference whose package has versions. `Hardening.SkippingErrors` gives the error lines the corrected code writes, and `Hardening.SkippingErrorsAreVersionless` proves they are one per skipped reference, in order; and `Hardening.SkippingRunAgrees` proves it differs from the run as written only where that run stops. The methods `Conversion.ProcessAssemblyReference` and `Conversion.ReplaceAssembliesWithPackageReference` model the code as written, including the stop.
