/** Concrete runs of the conversion over a single project. */
module Scenarios {
  import opened Wrappers
  import opened Sequences
  import opened ProjectItems
  import opened ReferenceMatcher
  import opened PackageSearch
  import opened Conversion

  const JsonInclude := "Json, Version=12"
  const JsonReference := Item(0, ReferenceType, JsonInclude, [Metadata(HintPathKey, "Json.dll")])

  /** One package source whose search returns `results` for every term. */
  function OneSource(results: seq<Candidate>): Settings {
    Settings([Repository("nuget.org")], None, false, false, (pattern: string, input: string) => false,
             (repository: Repository, term: string, prerelease: bool) => results)
  }

  /** The assembly name fields after the first comma are not part of the package name. */
  lemma JsonPackageName()
    ensures PotentialPackageName(JsonInclude) == "Json"
  {
    SplitHead(JsonInclude, NameSeparator);
    assert JsonInclude[4] == NameSeparator;
  }

  /** The reference has a dll hint path, so it is selected whatever the source holds. */
  lemma JsonSelected(results: seq<Candidate>)
    ensures Selected([JsonReference], OneSource(results)) == [JsonReference]
  {
    assert HasDllHintPath(JsonReference) by {
      assert JsonReference.directMetadata[0].evaluatedValue[4..] == DllExtension;
    }
    WhereKeepsAll([JsonReference], (x: Item) => IsAssemblyReference(x, false));
  }

  /** The source's only result is titled exactly with the derived name, so it is the package found. */
  lemma JsonFound(package: Candidate)
    requires package.title == "Json"
    ensures Lookup(JsonReference, OneSource([package])) == Some(package)
  {
    JsonPackageName();
    var settings := OneSource([package]);
    assert SearchForPackage(Repository("nuget.org"), "Json", false, settings.search) == Some(package);
  }

  /**
   * A dll reference to Json with an assembly version field, and a source that
   * lists versions 13.0.3 and 12.0.3: the reference becomes a package reference
   * to Json pinned to 13.0.3.
   */
  lemma JsonReferenceConverted()
    ensures RunProject([JsonReference], 1, OneSource([Candidate("Json", ["13.0.3", "12.0.3"])]))
            == Completed([Item(1, PackageReferenceType, "Json", [Metadata(VersionKey, "13.0.3")])], 2)
  {
    var package := Candidate("Json", ["13.0.3", "12.0.3"]);
    var settings := OneSource([package]);
    JsonSelected([package]);
    JsonFound(package);
    assert Resolver(settings)(JsonReference) == Some(package);
    var added := PackageReference(1, package);
    assert Rewrite([JsonReference], JsonReference, package, 1) == [added] by {
      WithoutAppend([JsonReference], added, 0);
      var keep := (x: Item) => x.id != 0;
      assert Where([JsonReference], keep) == [] + Where([], keep);
    }
    assert Step([JsonReference], 1, JsonReference, Some(package)) == Completed([added], 2);
    assert RunFrom([added], 2, [], Resolver(settings)) == Completed([added], 2);
  }

  /** A result whose title only starts with the derived name is not a hit. */
  lemma JsonNotFound(package: Candidate)
    requires package.title == "Json.Bson"
    ensures Lookup(JsonReference, OneSource([package])).None?
  {
    JsonPackageName();
    var settings := OneSource([package]);
    assert SearchForPackage(Repository("nuget.org"), "Json", false, settings.search).None?;
  }

  /** When no result of the source carries the exact name, the project is left as it is. */
  lemma NoExactTitleLeavesProject()
    ensures RunProject([JsonReference], 1, OneSource([Candidate("Json.Bson", ["1.0.2"])]))
            == Completed([JsonReference], 1)
  {
    var package := Candidate("Json.Bson", ["1.0.2"]);
    var settings := OneSource([package]);
    JsonSelected([package]);
    JsonNotFound(package);
    assert Resolver(settings)(JsonReference).None?;
    RunFromNoHits([JsonReference], 1, [JsonReference], Resolver(settings));
  }
}
