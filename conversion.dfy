/**
 * The conversion of one project: select the assembly references, look each
 * one up in the package sources, replace it by a package reference, and save
 * the project once at the end.
 */
module Conversion {
  import opened Wrappers
  import opened ProjectItems
  import opened ReferenceMatcher
  import opened PackageSearch
  import opened MsBuild

  /**
   * What one run works with: the package sources in configuration order, the
   * command's three arguments, the regular expression matcher
   * (`isMatch(pattern, input)`) and the package search of the sources.
   */
  datatype Settings = Settings(
    repositories: seq<Repository>,
    referencePattern: Option<string>,
    includePrerelease: bool,
    includeWithoutHintPath: bool,
    isMatch: (string, string) -> bool,
    search: SearchOracle)

  /** The references of `items` that the run converts, in project order. */
  function Selected(items: seq<Item>, settings: Settings): seq<Item> {
    SelectReferences(items, settings.includeWithoutHintPath, ActivePattern(settings.referencePattern), settings.isMatch)
  }

  /** The package found for a reference: its derived name, searched in every source in order. */
  function Lookup(reference: Item, settings: Settings): Option<Candidate> {
    SearchAll(settings.repositories,
              Probe(PotentialPackageName(reference.evaluatedInclude), settings.includePrerelease, settings.search))
  }

  /** `Lookup` as a function of the reference, for the specification of a whole run. */
  function Resolver(settings: Settings): Item -> Option<Candidate> {
    reference => Lookup(reference, settings)
  }

  /** The package reference added for `package`: its title, pinned to the first version listed. */
  function PackageReference(id: nat, package: Candidate): Item
    requires |package.versions| > 0
  {
    Item(id, PackageReferenceType, package.title, [Metadata(VersionKey, package.versions[0])])
  }

  /** The item list after the package reference is added and then the reference removed. */
  function Rewrite(items: seq<Item>, reference: Item, package: Candidate, id: nat): seq<Item>
    requires |package.versions| > 0
  {
    Without(items + [PackageReference(id, package)], reference.id)
  }

  /** The error line written when a package has no versions. */
  function NoVersionsMessage(name: string): string {
    "Failed to retrieve any versions for " + name + ". The returned collection is empty."
  }

  /**
   * What processing one reference came to. `VersionsMissing` is the
   * index-out-of-range exception raised by taking the first of no versions.
   */
  datatype Outcome = Skipped | Converted(added: Item) | VersionsMissing(name: string)

  /**
   * The item list after some references were processed: all of them, or up
   * to one whose package has no versions, whose derived name the run keeps.
   */
  datatype Run = Completed(items: seq<Item>, nextId: nat) | Aborted(items: seq<Item>, nextId: nat, name: string)

  /**
   * Processing one reference, `found` being the package the sources yield for
   * it: nothing happens without a package, the run stops at a package without
   * versions, and otherwise the reference is rewritten.
   */
  function Step(items: seq<Item>, nextId: nat, reference: Item, found: Option<Candidate>): Run {
    match found
    case None => Completed(items, nextId)
    case Some(package) =>
      if |package.versions| == 0 then Aborted(items, nextId, PotentialPackageName(reference.evaluatedInclude))
      else Completed(Rewrite(items, reference, package, nextId), nextId + 1)
  }

  /** Processing `references` one after the other, starting from `items`, until one of them stops the run. */
  function RunFrom(items: seq<Item>, nextId: nat, references: seq<Item>, lookup: Item -> Option<Candidate>): Run
    decreases |references|
  {
    if references == [] then Completed(items, nextId)
    else
      var step := Step(items, nextId, references[0], lookup(references[0]));
      if step.Aborted? then step else RunFrom(step.items, step.nextId, references[1..], lookup)
  }

  /** The run over one project: its selected references, in order. */
  function RunProject(items: seq<Item>, nextId: nat, settings: Settings): Run {
    RunFrom(items, nextId, Selected(items, settings), Resolver(settings))
  }

  /** A found package carries exactly the name derived from the reference as its title. */
  lemma LookupTitle(reference: Item, settings: Settings)
    requires Lookup(reference, settings).Some?
    ensures Lookup(reference, settings).value.title == PotentialPackageName(reference.evaluatedInclude)
    ensures NameSeparator !in Lookup(reference, settings).value.title
  {
    var name := PotentialPackageName(reference.evaluatedInclude);
    var probe := Probe(name, settings.includePrerelease, settings.search);
    SearchAllFinds(settings.repositories, probe);
    var k :| IsFirstHit(settings.repositories, k, probe) && Lookup(reference, settings) == probe(settings.repositories[k]);
    assert probe(settings.repositories[k]) == SearchForPackage(settings.repositories[k], name, settings.includePrerelease, settings.search);
  }

  /** Removing an older item commutes with appending a newer one. */
  lemma {:induction false} WithoutAppend(items: seq<Item>, added: Item, id: nat)
    requires added.id != id
    ensures Without(items + [added], id) == Without(items, id) + [added]
    decreases |items|
  {
    if items == [] {
      assert Without([added], id) == [added] + Without([], id);
    } else {
      WithoutAppend(items[1..], added, id);
      assert (items + [added])[1..] == items[1..] + [added];
    }
  }

  /**
   * Converting one reference of a well-formed item list replaces exactly that
   * item by the new package reference at the end: the length is kept, the
   * reference is gone, and every other item is still there in its order.
   */
  lemma {:induction false} RewriteReplacesOne(items: seq<Item>, reference: Item, package: Candidate, id: nat)
    requires UniqueIds(items) && IdsBelow(items, id) && reference in items
    requires |package.versions| > 0
    ensures Rewrite(items, reference, package, id) == Without(items, reference.id) + [PackageReference(id, package)]
    ensures |Rewrite(items, reference, package, id)| == |items|
    ensures reference !in Rewrite(items, reference, package, id)
    ensures forall x <- items :: x != reference ==> x in Rewrite(items, reference, package, id)
    ensures UniqueIds(Rewrite(items, reference, package, id)) && IdsBelow(Rewrite(items, reference, package, id), id + 1)
  {
    var added := PackageReference(id, package);
    WithoutAppend(items, added, reference.id);
    WithoutLength(items, reference.id);
    WithoutKeepsUniqueIds(items + [added], reference.id) by {
      forall i, j | 0 <= i < j < |items + [added]| ensures (items + [added])[i].id != (items + [added])[j].id {
        if j == |items| {
          assert (items + [added])[i] in items;
        }
      }
    }
    forall x | x in items && x != reference ensures x.id != reference.id {
      var i :| 0 <= i < |items| && items[i] == x;
      var j :| 0 <= j < |items| && items[j] == reference;
    }
  }

  /** References that no source knows leave the item list as it is. */
  lemma {:induction false} RunFromNoHits(items: seq<Item>, nextId: nat, references: seq<Item>,
                                         lookup: Item -> Option<Candidate>)
    requires forall r <- references :: lookup(r).None?
    ensures RunFrom(items, nextId, references, lookup) == Completed(items, nextId)
    decreases |references|
  {
    if references != [] {
      assert forall r <- references[1..] :: r in references;
      RunFromNoHits(items, nextId, references[1..], lookup);
    }
  }

  /** `x` is the package reference added for one of `references`, with the first version of its package. */
  ghost predicate IsAddedFor(x: Item, references: seq<Item>, lookup: Item -> Option<Candidate>) {
    exists k :: 0 <= k < |references| && lookup(references[k]).Some?
      && var package := lookup(references[k]).value;
         |package.versions| > 0
         && x.itemType == PackageReferenceType
         && x.evaluatedInclude == package.title
         && x.directMetadata == [Metadata(VersionKey, package.versions[0])]
  }

  /**
   * Whether the run completes or stops, every item it leaves is an original
   * item or a package reference added for a converted reference, pinned to a
   * version: no package reference without a version is ever written.
   */
  lemma {:induction false} RunFromAdds(items: seq<Item>, nextId: nat, references: seq<Item>,
                                       lookup: Item -> Option<Candidate>)
    ensures forall x <- RunFrom(items, nextId, references, lookup).items :: x in items || IsAddedFor(x, references, lookup)
    decreases |references|
  {
    if references != [] {
      var rest := references[1..];
      var step := Step(items, nextId, references[0], lookup(references[0]));
      if step.Completed? {
        RunFromAdds(step.items, step.nextId, rest, lookup);
        assert forall x :: IsAddedFor(x, rest, lookup) ==> IsAddedFor(x, references, lookup) by {
          forall k | 0 <= k < |rest| ensures rest[k] == references[k + 1] { }
        }
        forall x | x in step.items ensures x in items || IsAddedFor(x, references, lookup) {
          if x !in items {
            var package := lookup(references[0]).value;
            assert x == PackageReference(nextId, package);
            assert 0 < |references| && lookup(references[0]).Some?;
          }
        }
      }
    }
  }

  /**
   * After a completed run, every item that is not a package reference is an
   * original item that none of the converted references was.
   */
  lemma {:induction false} RunFromSurvivors(items: seq<Item>, nextId: nat, references: seq<Item>,
                                            lookup: Item -> Option<Candidate>)
    requires RunFrom(items, nextId, references, lookup).Completed?
    ensures forall x <- RunFrom(items, nextId, references, lookup).items :: x.itemType != PackageReferenceType ==>
              x in items && forall k :: 0 <= k < |references| && references[k].id == x.id ==> lookup(references[k]).None?
    decreases |references|
  {
    if references != [] {
      var rest := references[1..];
      forall k | 0 <= k < |rest| ensures rest[k] == references[k + 1] { }
      var step := Step(items, nextId, references[0], lookup(references[0]));
      RunFromSurvivors(step.items, step.nextId, rest, lookup);
    }
  }

  /** The identity counter never goes down during a run. */
  lemma {:induction false} RunFromNextId(items: seq<Item>, nextId: nat, references: seq<Item>,
                                         lookup: Item -> Option<Candidate>)
    ensures RunFrom(items, nextId, references, lookup).nextId >= nextId
    decreases |references|
  {
    if references != [] {
      var step := Step(items, nextId, references[0], lookup(references[0]));
      if step.Completed? {
        RunFromNextId(step.items, step.nextId, references[1..], lookup);
      }
    }
  }

  /** An item that is none of the references survives the run, whether it completes or stops. */
  lemma {:induction false} RunFromKeepsOthers(items: seq<Item>, nextId: nat, references: seq<Item>,
                                              lookup: Item -> Option<Candidate>, x: Item)
    requires x in items
    requires forall r <- references :: r.id != x.id
    ensures x in RunFrom(items, nextId, references, lookup).items
    decreases |references|
  {
    if references != [] {
      assert forall r <- references[1..] :: r in references;
      var step := Step(items, nextId, references[0], lookup(references[0]));
      if lookup(references[0]).Some? && |lookup(references[0]).value.versions| > 0 {
        assert x in items + [PackageReference(nextId, lookup(references[0]).value)];
      }
      if step.Completed? {
        RunFromKeepsOthers(step.items, step.nextId, references[1..], lookup, x);
      }
    }
  }

  /**
   * A run over distinct references of a well-formed item list keeps its
   * length: each conversion replaces one item by one package reference.
   */
  lemma {:induction false} RunFromKeepsLength(items: seq<Item>, nextId: nat, references: seq<Item>,
                                              lookup: Item -> Option<Candidate>)
    requires UniqueIds(items) && IdsBelow(items, nextId)
    requires UniqueIds(references) && forall r <- references :: r in items
    ensures |RunFrom(items, nextId, references, lookup).items| == |items|
    decreases |references|
  {
    if references != [] {
      var reference := references[0];
      var rest := references[1..];
      UniqueIdsTail(references);
      var step := Step(items, nextId, reference, lookup(reference));
      if step.Completed? {
        if lookup(reference).Some? {
          RewriteReplacesOne(items, reference, lookup(reference).value, nextId);
        }
        forall r | r in rest ensures r in step.items {
          assert r in references && r != reference;
        }
        RunFromKeepsLength(step.items, step.nextId, rest, lookup);
      }
    }
  }

  /** `items` holds a package reference for `package`, pinned to its first version. */
  ghost predicate HoldsPackageReference(items: seq<Item>, package: Candidate) {
    |package.versions| > 0 && exists x <- items :: x == PackageReference(x.id, package)
  }

  /**
   * A completed run converts in full: for every reference whose package has
   * versions, the package reference added for it is still in the final list.
   */
  lemma {:induction false} RunFromAddsAll(items: seq<Item>, nextId: nat, references: seq<Item>,
                                          lookup: Item -> Option<Candidate>)
    requires IdsBelow(references, nextId)
    requires RunFrom(items, nextId, references, lookup).Completed?
    ensures forall k :: 0 <= k < |references| && lookup(references[k]).Some? && |lookup(references[k]).value.versions| > 0 ==>
              HoldsPackageReference(RunFrom(items, nextId, references, lookup).items, lookup(references[k]).value)
    decreases |references|
  {
    if references != [] {
      var rest := references[1..];
      var step := Step(items, nextId, references[0], lookup(references[0]));
      var result := RunFrom(items, nextId, references, lookup);
      assert step.Completed? && result == RunFrom(step.items, step.nextId, rest, lookup);
      assert IdsBelow(rest, step.nextId) by {
        forall r | r in rest ensures r.id < step.nextId {
          assert r in references;
        }
      }
      RunFromAddsAll(step.items, step.nextId, rest, lookup);
      forall k | 0 <= k < |references| && lookup(references[k]).Some? && |lookup(references[k]).value.versions| > 0
        ensures HoldsPackageReference(result.items, lookup(references[k]).value)
      {
        if k == 0 {
          var added := PackageReference(nextId, lookup(references[0]).value);
          assert added in items + [added];
          forall r | r in rest ensures r.id != added.id {
            assert r in references;
          }
          RunFromKeepsOthers(step.items, step.nextId, rest, lookup, added);
        } else {
          assert references[k] == rest[k - 1];
        }
      }
    }
  }

  /** A run keeps the length of a well-formed project: references are replaced, never just dropped. */
  lemma RunProjectKeepsLength(items: seq<Item>, nextId: nat, settings: Settings)
    requires UniqueIds(items) && IdsBelow(items, nextId)
    ensures |RunProject(items, nextId, settings).items| == |items|
  {
    SubsequenceKeepsUniqueIds(Selected(items, settings), items);
    RunFromKeepsLength(items, nextId, Selected(items, settings), Resolver(settings));
  }

  /** A completed run leaves a package reference for every selected reference whose package has versions. */
  lemma RunProjectConvertsAll(items: seq<Item>, nextId: nat, settings: Settings)
    requires IdsBelow(items, nextId)
    requires RunProject(items, nextId, settings).Completed?
    ensures forall r <- Selected(items, settings) ::
              Lookup(r, settings).Some? && |Lookup(r, settings).value.versions| > 0 ==>
              HoldsPackageReference(RunProject(items, nextId, settings).items, Lookup(r, settings).value)
  {
    var references := Selected(items, settings);
    var lookup := Resolver(settings);
    RunFromAddsAll(items, nextId, references, lookup);
    forall r | r in references && Lookup(r, settings).Some? && |Lookup(r, settings).value.versions| > 0
      ensures HoldsPackageReference(RunProject(items, nextId, settings).items, Lookup(r, settings).value)
    {
      var k :| 0 <= k < |references| && references[k] == r;
      assert lookup(references[k]) == Lookup(r, settings);
    }
  }

  /**
   * Running the conversion again on a converted project changes nothing: the
   * references still selected are exactly those no source has a package for.
   * Both runs use the same `settings`, so the package sources are taken to
   * return the same results the second time.
   */
  lemma RunProjectIdempotent(items: seq<Item>, nextId: nat, settings: Settings)
    requires RunProject(items, nextId, settings).Completed?
    ensures var first := RunProject(items, nextId, settings);
            RunProject(first.items, first.nextId, settings) == Completed(first.items, first.nextId)
  {
    var lookup := Resolver(settings);
    var first := RunProject(items, nextId, settings);
    var references := Selected(items, settings);
    RunFromSurvivors(items, nextId, references, lookup);
    forall r | r in Selected(first.items, settings) ensures lookup(r).None? {
      assert r in first.items && r.itemType == ReferenceType;
      assert r in items;
      assert r in references;
      var k :| 0 <= k < |references| && references[k] == r;
    }
    RunFromNoHits(first.items, first.nextId, Selected(first.items, settings), lookup);
  }

  /**
   * `ProcessAssemblyReference`: look the reference's derived name up in the
   * sources in order; when a package is found, add a package reference pinned
   * to its first version and remove the reference. A package without versions
   * is reported and then stops the run before the item list is touched.
   */
  method ProcessAssemblyReference(project: Project, host: ConsoleHost, settings: Settings, reference: Item)
    returns (outcome: Outcome)
    requires project.Valid()
    modifies project`items, project`nextId, host
    ensures project.Valid()
    ensures var step := Step(old(project.items), old(project.nextId), reference, Lookup(reference, settings));
            project.items == step.items && project.nextId == step.nextId
            && host.errors == old(host.errors) + (if step.Aborted? then [NoVersionsMessage(step.name)] else [])
            && outcome == match Lookup(reference, settings)
                          case None => Skipped
                          case Some(package) =>
                            if step.Aborted? then VersionsMissing(step.name)
                            else Converted(PackageReference(old(project.nextId), package))
  {
    var name := PotentialPackageName(reference.evaluatedInclude);
    var package, _ := FindPackage(settings.repositories, Probe(name, settings.includePrerelease, settings.search));
    assert package == Lookup(reference, settings);
    if package.None? {
      return Skipped;
    }
    var versions := package.value.versions;
    if |versions| == 0 {
      host.WriteError(NoVersionsMessage(name));
      // `versions[0]` is evaluated before `AddItem` runs, and throws.
      return VersionsMissing(name);
    }
    var added := project.AddItem(PackageReferenceType, package.value.title, [Metadata(VersionKey, versions[0])]);
    var _ := project.RemoveItem(reference);
    return Converted(added);
  }

  /**
   * The `foreach` over the selected references: each one is processed in turn
   * until one of them stops the run with the missing-versions exception.
   */
  method ProcessReferences(project: Project, host: ConsoleHost, settings: Settings, references: seq<Item>)
    returns (completed: bool)
    requires project.Valid()
    modifies project`items, project`nextId, host
    ensures project.Valid()
    ensures var run := RunFrom(old(project.items), old(project.nextId), references, Resolver(settings));
            completed == run.Completed? && project.items == run.items && project.nextId == run.nextId
            && host.errors == old(host.errors) + (if completed then [] else [NoVersionsMessage(run.name)])
  {
    ghost var run := RunFrom(project.items, project.nextId, references, Resolver(settings));
    var i := 0;
    while i < |references|
      invariant 0 <= i <= |references|
      invariant project.Valid()
      invariant run == RunFrom(project.items, project.nextId, references[i..], Resolver(settings))
      invariant host.errors == old(host.errors)
    {
      assert references[i..][1..] == references[i + 1..];
      assert Resolver(settings)(references[i]) == Lookup(references[i], settings);
      var outcome := ProcessAssemblyReference(project, host, settings, references[i]);
      if outcome.VersionsMissing? {
        return false;
      }
      i := i + 1;
    }
    completed := true;
  }

  /**
   * `ReplaceAssembliesWithPackageReference` for one loaded project: the
   * selected references are processed in order and the project is saved once,
   * after the last of them. A package without versions ends the run with an
   * exception: the references after it are not processed and nothing is saved.
   */
  method ReplaceAssembliesWithPackageReference(project: Project, host: ConsoleHost, settings: Settings)
    returns (completed: bool)
    requires project.Valid()
    modifies project, host
    ensures project.Valid()
    ensures var run := RunProject(old(project.items), old(project.nextId), settings);
            completed == run.Completed? && project.items == run.items && project.nextId == run.nextId
            && host.errors == old(host.errors) + (if completed then [] else [NoVersionsMessage(run.name)])
    ensures completed ==> project.saved == project.items && project.saveCount == old(project.saveCount) + 1
    ensures !completed ==> project.saved == old(project.saved) && project.saveCount == old(project.saveCount)
  {
    var references := Selected(project.items, settings);
    completed := ProcessReferences(project, host, settings, references);
    if completed {
      project.Save();
    }
  }
}
