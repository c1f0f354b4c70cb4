/**
 * The run as it was evidently meant to be: a package without versions is
 * reported and its reference skipped, instead of ending the whole run.
 */
module Hardening {
  import opened Wrappers
  import opened Sequences
  import opened ProjectItems
  import opened ReferenceMatcher
  import opened PackageSearch
  import opened Conversion

  /** The package found, unless it has no versions. */
  function Versioned(found: Option<Candidate>): (r: Option<Candidate>)
    ensures r.Some? <==> found.Some? && |found.value.versions| > 0
    ensures r.Some? ==> r == found
  {
    if found.Some? && |found.value.versions| == 0 then None else found
  }

  /** The lookup with every package that has no versions treated as not found. */
  function DropVersionless(lookup: Item -> Option<Candidate>): Item -> Option<Candidate> {
    reference => Versioned(lookup(reference))
  }

  /** Processing one reference when a package without versions counts as no package. */
  function SkippingStep(items: seq<Item>, nextId: nat, reference: Item, found: Option<Candidate>): (r: Run)
    ensures r.Completed?
    ensures r == Step(items, nextId, reference, Versioned(found))
  {
    match found
    case Some(package) =>
      if |package.versions| == 0 then Completed(items, nextId) else Step(items, nextId, reference, found)
    case None => Step(items, nextId, reference, found)
  }

  /** Processing `references` one after the other with `SkippingStep`. */
  function SkippingRunFrom(items: seq<Item>, nextId: nat, references: seq<Item>,
                           lookup: Item -> Option<Candidate>): (r: Run)
    ensures r.Completed?
    decreases |references|
  {
    if references == [] then Completed(items, nextId)
    else
      var step := SkippingStep(items, nextId, references[0], lookup(references[0]));
      SkippingRunFrom(step.items, step.nextId, references[1..], lookup)
  }

  /**
   * The skipping run is the run as written over a lookup that finds no
   * package without versions, so every property proved of `RunFrom` holds of it.
   */
  lemma {:induction false} SkippingRunIsRunWithoutVersionless(items: seq<Item>, nextId: nat, references: seq<Item>,
                                                              lookup: Item -> Option<Candidate>)
    ensures SkippingRunFrom(items, nextId, references, lookup) == RunFrom(items, nextId, references, DropVersionless(lookup))
    decreases |references|
  {
    if references != [] {
      var step := SkippingStep(items, nextId, references[0], lookup(references[0]));
      assert DropVersionless(lookup)(references[0]) == Versioned(lookup(references[0]));
      SkippingRunIsRunWithoutVersionless(step.items, step.nextId, references[1..], lookup);
    }
  }

  /**
   * Every item the skipping run leaves is an original item or a package
   * reference pinned to the first version of a package that has versions.
   */
  lemma SkippingRunAdds(items: seq<Item>, nextId: nat, references: seq<Item>, lookup: Item -> Option<Candidate>)
    ensures forall x <- SkippingRunFrom(items, nextId, references, lookup).items ::
              x in items || IsAddedFor(x, references, DropVersionless(lookup))
  {
    SkippingRunIsRunWithoutVersionless(items, nextId, references, lookup);
    RunFromAdds(items, nextId, references, DropVersionless(lookup));
  }

  /**
   * The skipping run converts in full: every reference whose package has
   * versions leaves its package reference, pinned to the first version.
   */
  lemma SkippingRunAddsAll(items: seq<Item>, nextId: nat, references: seq<Item>, lookup: Item -> Option<Candidate>)
    requires IdsBelow(references, nextId)
    ensures forall k :: 0 <= k < |references| && lookup(references[k]).Some? && |lookup(references[k]).value.versions| > 0 ==>
              HoldsPackageReference(SkippingRunFrom(items, nextId, references, lookup).items, lookup(references[k]).value)
  {
    SkippingRunIsRunWithoutVersionless(items, nextId, references, lookup);
    RunFromAddsAll(items, nextId, references, DropVersionless(lookup));
    forall k | 0 <= k < |references| && lookup(references[k]).Some? && |lookup(references[k]).value.versions| > 0
      ensures DropVersionless(lookup)(references[k]) == lookup(references[k])
    {
    }
  }

  /** Whether a package is found for a reference and has no versions. */
  function Versionless(lookup: Item -> Option<Candidate>): Item -> bool {
    reference => lookup(reference).Some? && |lookup(reference).value.versions| == 0
  }

  /**
   * The error lines the corrected code writes while it skips: one per reference
   * whose package has no versions, naming its derived package name, in the
   * order of the references (`SkippingErrorsAreVersionless` states it exactly).
   */
  function SkippingErrors(references: seq<Item>, lookup: Item -> Option<Candidate>): (r: seq<string>)
    ensures |r| <= |references|
    ensures r == [] <==> forall x <- references :: Versioned(lookup(x)) == lookup(x)
    decreases |references|
  {
    if references == [] then []
    else
      var found := lookup(references[0]);
      var rest := SkippingErrors(references[1..], lookup);
      assert forall x <- references[1..] :: x in references;
      if found.Some? && |found.value.versions| == 0 then
        [NoVersionsMessage(PotentialPackageName(references[0].evaluatedInclude))] + rest
      else rest
  }

  /**
   * The error lines are exactly one message per reference whose package has
   * no versions, naming that reference's derived package name, in order.
   */
  lemma {:induction false} SkippingErrorsAreVersionless(references: seq<Item>, lookup: Item -> Option<Candidate>)
    ensures var errors := SkippingErrors(references, lookup);
            var versionless := Where(references, Versionless(lookup));
            |errors| == |versionless|
            && forall i :: 0 <= i < |errors| ==> errors[i] == NoVersionsMessage(PotentialPackageName(versionless[i].evaluatedInclude))
    decreases |references|
  {
    if references != [] {
      var reference := references[0];
      var rest := references[1..];
      SkippingErrorsAreVersionless(rest, lookup);
      var restErrors := SkippingErrors(rest, lookup);
      var restVersionless := Where(rest, Versionless(lookup));
      if Versionless(lookup)(reference) {
        var line := NoVersionsMessage(PotentialPackageName(reference.evaluatedInclude));
        assert SkippingErrors(references, lookup) == [line] + restErrors;
        assert Where(references, Versionless(lookup)) == [reference] + restVersionless;
      } else {
        assert SkippingErrors(references, lookup) == restErrors;
        assert Where(references, Versionless(lookup)) == restVersionless;
      }
    }
  }

  /** Where the run as written completes, skipping changes nothing. */
  lemma {:induction false} SkippingRunAgrees(items: seq<Item>, nextId: nat, references: seq<Item>,
                                             lookup: Item -> Option<Candidate>)
    requires RunFrom(items, nextId, references, lookup).Completed?
    ensures SkippingRunFrom(items, nextId, references, lookup) == RunFrom(items, nextId, references, lookup)
    decreases |references|
  {
    if references != [] {
      var step := Step(items, nextId, references[0], lookup(references[0]));
      SkippingRunAgrees(step.items, step.nextId, references[1..], lookup);
    }
  }

  /**
   * An item survives the skipping run unless some reference with the same
   * identity found a package that has versions: in particular a reference whose
   * package has no versions stays as it was.
   */
  lemma {:induction false} SkippingRunKeepsUnconverted(items: seq<Item>, nextId: nat, references: seq<Item>,
                                                       lookup: Item -> Option<Candidate>, x: Item)
    requires x in items
    requires forall r <- references :: r.id == x.id ==> lookup(r).None? || |lookup(r).value.versions| == 0
    ensures x in SkippingRunFrom(items, nextId, references, lookup).items
    decreases |references|
  {
    if references != [] {
      assert forall r <- references[1..] :: r in references;
      var step := SkippingStep(items, nextId, references[0], lookup(references[0]));
      assert x in step.items;
      SkippingRunKeepsUnconverted(step.items, step.nextId, references[1..], lookup, x);
    }
  }

  /**
   * The run as written: two references whose packages are found, the first
   * without versions. The run stops at the first, so the second, which has a
   * version, is never converted; skipping converts it.
   */
  lemma VersionlessPackageStopsRun()
    ensures var a := Item(0, ReferenceType, "A", []);
            var b := Item(1, ReferenceType, "B", []);
            var lookup := (r: Item) => if r.id == 0 then Some(Candidate("A", [])) else Some(Candidate("B", ["1.0.0"]));
            RunFrom([a, b], 2, [a, b], lookup) == Aborted([a, b], 2, "A")
            && SkippingRunFrom([a, b], 2, [a, b], lookup)
               == Completed([a, Item(2, PackageReferenceType, "B", [Metadata(VersionKey, "1.0.0")])], 3)
  {
    var a := Item(0, ReferenceType, "A", []);
    var b := Item(1, ReferenceType, "B", []);
    var lookup := (r: Item) => if r.id == 0 then Some(Candidate("A", [])) else Some(Candidate("B", ["1.0.0"]));
    assert PotentialPackageName("A") == "A";
    var added := Item(2, PackageReferenceType, "B", [Metadata(VersionKey, "1.0.0")]);
    assert Rewrite([a, b], b, Candidate("B", ["1.0.0"]), 2) == [a, added] by {
      WithoutAppend([a, b], added, 1);
      var keep := (x: Item) => x.id != 1;
      assert [a, b][1..] == [b] && [b][1..] == [];
      assert Where([b], keep) == [] + Where([], keep);
      assert Where([a, b], keep) == [a] + Where([b], keep);
    }
    assert [a, b][1..] == [b] && [b][1..] == [];
    assert SkippingStep([a, b], 2, a, lookup(a)) == Completed([a, b], 2);
    assert SkippingStep([a, b], 2, b, lookup(b)) == Completed([a, added], 3);
    assert SkippingRunFrom([a, added], 3, [], lookup) == Completed([a, added], 3);
    assert SkippingRunFrom([a, b], 2, [b], lookup) == Completed([a, added], 3);
  }
}
