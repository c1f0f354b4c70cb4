/**
 * Which `Reference` items are candidates for conversion, and the package
 * name each one suggests.
 */
module ReferenceMatcher {
  import opened Wrappers
  import opened Sequences
  import opened ProjectItems

  const HintPathKey := "HintPath"
  const DllExtension := ".dll"
  const NameSeparator := ','

  /** `string.EndsWith`, compared character by character. */
  predicate EndsWith(s: string, suffix: string) {
    |suffix| <= |s| && s[|s| - |suffix|..] == suffix
  }

  /** The item has a direct `HintPath` metadata entry whose value names a dll. */
  predicate HasDllHintPath(item: Item) {
    exists m <- item.directMetadata :: m.name == HintPathKey && EndsWith(m.evaluatedValue, DllExtension)
  }

  /** The first filter: a `Reference` item, with a dll hint path unless that requirement is switched off. */
  predicate IsAssemblyReference(item: Item, includeWithoutHintPath: bool) {
    item.itemType == ReferenceType && (includeWithoutHintPath || HasDllHintPath(item))
  }

  /** `char.IsWhiteSpace`: the Unicode space separators, line and paragraph separators and the control white space. */
  predicate IsWhiteSpace(c: char) {
    ('\U{0009}' <= c <= '\U{000D}') || c == '\U{0020}' || c == '\U{0085}' || c == '\U{00A0}'
    || c == '\U{1680}' || ('\U{2000}' <= c <= '\U{200A}') || c == '\U{2028}' || c == '\U{2029}'
    || c == '\U{202F}' || c == '\U{205F}' || c == '\U{3000}'
  }

  /** `string.IsNullOrWhiteSpace`. */
  predicate IsNullOrWhiteSpace(s: Option<string>) {
    s.None? || forall c <- s.value :: IsWhiteSpace(c)
  }

  /**
   * The reference pattern that is compiled into a regular expression: the
   * argument as given, unless it is absent, empty or only white space, in which
   * case no pattern filter is applied.
   */
  function ActivePattern(referencePattern: Option<string>): (r: Option<string>)
    ensures r.None? <==> IsNullOrWhiteSpace(referencePattern)
    ensures r.Some? ==> r == referencePattern && |r.value| > 0
  {
    if IsNullOrWhiteSpace(referencePattern) then None else referencePattern
  }

  /**
   * The references selected for conversion. `isMatch(pattern, input)` stands
   * for `Regex.IsMatch`.
   */
  function SelectReferences(items: seq<Item>, includeWithoutHintPath: bool, pattern: Option<string>,
                            isMatch: (string, string) -> bool): (r: seq<Item>)
    ensures forall x <- r :: x in items && x.itemType == ReferenceType
    ensures !includeWithoutHintPath ==> forall x <- r :: HasDllHintPath(x)
    ensures pattern.Some? ==> forall x <- r :: isMatch(pattern.value, x.evaluatedInclude)
    ensures forall x <- items ::
              IsAssemblyReference(x, includeWithoutHintPath)
              && (pattern.Some? ==> isMatch(pattern.value, x.evaluatedInclude))
              ==> x in r
    ensures IsSubsequence(r, items)
  {
    var eligible := (x: Item) => IsAssemblyReference(x, includeWithoutHintPath);
    var references := Where(items, eligible);
    WhereIsSubsequence(items, eligible);
    if pattern.None? then references
    else
      var matching := (x: Item) => isMatch(pattern.value, x.evaluatedInclude);
      WhereIsSubsequence(references, matching);
      SubsequenceTransitive(Where(references, matching), references, items);
      Where(references, matching)
  }

  /** `s.Split(sep)`: the pieces of `s` between occurrences of `sep`, at least one. */
  function Split(s: string, sep: char): (r: seq<string>)
    ensures |r| >= 1
    ensures forall piece <- r :: sep !in piece
    decreases |s|
  {
    if s == [] then [[]]
    else if s[0] == sep then [[]] + Split(s[1..], sep)
    else
      var rest := Split(s[1..], sep);
      [[s[0]] + rest[0]] + rest[1..]
  }

  /** `string.Join(sep, pieces)`, the inverse of `Split`. */
  function Join(pieces: seq<string>, sep: char): string
    requires |pieces| >= 1
    decreases |pieces|
  {
    if |pieces| == 1 then pieces[0] else pieces[0] + [sep] + Join(pieces[1..], sep)
  }

  /** Splitting loses nothing: joining the pieces with the separator gives back the string. */
  lemma {:induction false} JoinSplit(s: string, sep: char)
    ensures Join(Split(s, sep), sep) == s
    decreases |s|
  {
    if s != [] {
      JoinSplit(s[1..], sep);
      var rest := Split(s[1..], sep);
      if s[0] == sep {
        assert Split(s, sep)[1..] == rest;
      } else {
        var r := Split(s, sep);
        assert r[1..] == rest[1..];
        if |rest| == 1 {
          assert Join(r, sep) == [s[0]] + rest[0];
        } else {
          assert Join(r, sep) == [s[0]] + rest[0] + [sep] + Join(rest[1..], sep);
        }
      }
    }
  }

  /**
   * The first piece of a split is the text before the first separator: the
   * whole string when there is none, otherwise a proper prefix followed by it.
   */
  lemma {:induction false} SplitHead(s: string, sep: char)
    ensures Split(s, sep)[0] <= s
    ensures sep !in s ==> Split(s, sep)[0] == s
    ensures sep in s ==> |Split(s, sep)[0]| < |s| && s[|Split(s, sep)[0]|] == sep
    decreases |s|
  {
    if s != [] && s[0] != sep {
      SplitHead(s[1..], sep);
      assert sep in s ==> sep in s[1..];
    }
  }

  /**
   * `GetPotentialPackageName`: the evaluated include up to its first comma,
   * which drops `Version=…, Culture=…` and the other assembly name fields.
   */
  function PotentialPackageName(evaluatedInclude: string): (r: string)
    ensures NameSeparator !in evaluatedInclude ==> r == evaluatedInclude
    ensures NameSeparator in evaluatedInclude ==> |r| < |evaluatedInclude| && r == evaluatedInclude[..|r|] && evaluatedInclude[|r|] == NameSeparator
    ensures NameSeparator !in r
  {
    SplitHead(evaluatedInclude, NameSeparator);
    if NameSeparator !in evaluatedInclude then evaluatedInclude else Split(evaluatedInclude, NameSeparator)[0]
  }
}
