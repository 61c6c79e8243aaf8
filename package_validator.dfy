/**
  The cross-field check of one package's properties (`PackageValidator.validate`).
  The properties are the resolved string values the host passes in; a key
  that is absent means the property is not set. The check runs three stages
  in order -- version/release coupling, a package replacing itself, and the
  requires list -- and reports at most one error, from the first stage that
  finds one.
*/
module PackageValidator {
  import opened Wrappers
  import opened Tokens
  import opened Ordering

  /** The error the host shows to the user: the offending property and a message. */
  datatype ValidationError = ValidationError(propertyName: string, errorMessage: string)

  type Properties = map<string, string>

  const ReleaseWithoutVersion := "The property 'version' must be specified if a 'release' value is provided."
  const ReleaseInVersion := "The property 'release' cannot be specified if the release is provided in the version."
  // The missing "be" is part of the message as the host shows it.
  const ReleaseWithLatest := "The property 'release' cannot specified if 'version' is set to 'latest'"
  const VersionWithoutRelease := "Please define the release when the version is specified"

  /** The replaced package and the package itself, each quoted, at fixed
      places of the message. */
  function ReplacesItselfMessage(replaced: string, name: string): (m: string)
    ensures |m| == |replaced| + |name| + 60
    ensures m[35..35 + |replaced|] == replaced
    ensures m[43 + |replaced|..43 + |replaced| + |name|] == name
  {
    "Replacement of a modelled package \"" + replaced + "\" with \"" + name + "\" is not allowed."
  }

  /** The package, quoted, after the word "Package". */
  function RequiresItselfMessage(name: string): (m: string)
    ensures |m| == |name| + 33
    ensures m[9..9 + |name|] == name
  {
    "Package \"" + name + "\" cannot require itself."
  }

  /** Both sentences of the duplicates message, naming the package quoted
      after the word "Package". */
  function DuplicatesPrefix(name: string): (m: string)
    ensures |m| == |name| + 73
    ensures m[9..9 + |name|] == name
  {
    "Package \"" + name + "\" has duplicated requirements. " + "Duplicate package requires are : "
  }

  /** One listed duplicate: the token in double quotes and a trailing space. */
  function Quoted(token: string): (q: string)
    ensures |q| == |token| + 3
    ensures q[0] == '"' && q[1..|token| + 1] == token && q[|token| + 1..] == "\" "
  {
    "\"" + token + "\" "
  }

  /** The quoted tokens one after the other, in the order given. */
  function QuotedList(tokens: seq<string>): (listing: string)
    ensures |listing| >= 3 * |tokens|
  {
    if tokens == [] then "" else QuotedList(tokens[..|tokens| - 1]) + Quoted(tokens[|tokens| - 1])
  }

  /** The relations between the properties that the check enforces, stated
      one by one and independently of the order in which it tests them. */
  predicate VersionReleaseConsistent(p: Properties)
  {
    && ("release" in p ==> "version" in p)
    && ("version" in p && "release" in p ==> '-' !in p["version"] && p["version"] != "latest")
    && ("version" in p && "release" !in p ==> '-' in p["version"] || p["version"] == "latest")
  }

  predicate ReplacesConsistent(p: Properties)
  {
    "replaces" in p && "name" in p ==> p["replaces"] != p["name"]
  }

  predicate RequiresConsistent(p: Properties)
  {
    "requires" in p && "name" in p ==>
      && p["name"] !in Split(p["requires"], ',')
      && Distinct(Split(p["requires"], ','))
  }

  predicate Consistent(p: Properties)
  {
    VersionReleaseConsistent(p) && ReplacesConsistent(p) && RequiresConsistent(p)
  }

  /** Stage 1: version and release. */
  function VersionReleaseError(p: Properties): (r: Option<ValidationError>)
    ensures r == None <==> VersionReleaseConsistent(p)
    ensures r != None ==> r.value.propertyName == (if "release" in p then "release" else "version")
  {
    if "release" in p && "version" !in p then
      Some(ValidationError("release", ReleaseWithoutVersion))
    else if "version" in p then
      if "release" in p && '-' in p["version"] then
        Some(ValidationError("release", ReleaseInVersion))
      else if "release" in p && p["version"] == "latest" then
        Some(ValidationError("release", ReleaseWithLatest))
      else if "release" !in p && '-' !in p["version"] && p["version"] != "latest" then
        Some(ValidationError("version", VersionWithoutRelease))
      else
        None
    else
      None
  }

  /** Stage 2: a package must not replace itself. */
  function ReplacesError(p: Properties): (r: Option<ValidationError>)
    ensures r == None <==> ReplacesConsistent(p)
    ensures r != None ==> r.value.propertyName == "replaces"
  {
    if "replaces" in p && "name" in p && p["replaces"] == p["name"] then
      Some(ValidationError("replaces", ReplacesItselfMessage(p["replaces"], p["name"])))
    else
      None
  }

  /** The tokens of `ys` that occur at least twice in `all`, each once, in the
      order of their last occurrence in `ys`. */
  function DistinctDuplicates(ys: seq<string>, all: seq<string>): (r: seq<string>)
    ensures Distinct(r)
    ensures forall t :: t in r <==> t in ys && Count(all, t) >= 2
  {
    if ys == [] then []
    else
      var rest := DistinctDuplicates(ys[1..], all);
      if Count(all, ys[0]) >= 2 && ys[0] !in ys[1..] then [ys[0]] + rest else rest
  }

  /** The duplicated requirements, each once, in ascending order. */
  function SortedDuplicates(tokens: seq<string>): (r: seq<string>)
    ensures StrictlyAscending(r)
    ensures forall t :: t in r <==> Count(tokens, t) >= 2
  {
    var duplicated := DistinctDuplicates(tokens, tokens);
    SortDistinct(duplicated);
    SortStrings(duplicated)
  }

  /** The whole duplicates message: the package named after the word
      "Package", then at least three characters per listed duplicate. */
  function DuplicatesMessage(name: string, duplicated: seq<string>): (m: string)
    ensures |m| >= |name| + 73 + 3 * |duplicated|
    ensures m[9..9 + |name|] == name
  {
    DuplicatesPrefix(name) + QuotedList(duplicated)
  }

  /** There are no duplicated requirements exactly when the tokens are distinct. */
  lemma NoDuplicatesIffDistinct(tokens: seq<string>)
    ensures SortedDuplicates(tokens) == [] <==> Distinct(tokens)
  {
    var d := SortedDuplicates(tokens);
    DistinctIffCountsAtMostOne(tokens);
    if d != [] {
      assert d[0] in d;
      assert Count(tokens, d[0]) >= 2;
    } else {
      forall t ensures Count(tokens, t) <= 1 {
        if Count(tokens, t) >= 2 {
          assert t in d;
        }
      }
    }
  }

  /** Stage 3: the requires list names neither the package itself nor any
      package twice. */
  function RequiresError(p: Properties): (r: Option<ValidationError>)
    ensures r == None <==> RequiresConsistent(p)
    ensures r != None ==> r.value.propertyName == "requires"
  {
    if "requires" in p && "name" in p then
      var name := p["name"];
      var tokens := Split(p["requires"], ',');
      if name in tokens then
        Some(ValidationError("requires", RequiresItselfMessage(name)))
      else
        var duplicated := SortedDuplicates(tokens);
        NoDuplicatesIffDistinct(tokens);
        if |duplicated| > 0 then
          Some(ValidationError("requires", DuplicatesMessage(name, duplicated)))
        else
          None
    else
      None
  }

  /** What the check reports for the properties `p`: nothing exactly when all
      the relations hold, otherwise the error of the first stage that fails. */
  function ValidationOutcome(p: Properties): (r: Option<ValidationError>)
    ensures r == None <==> Consistent(p)
  {
    var versionRelease := VersionReleaseError(p);
    if versionRelease.Some? then versionRelease
    else
      var replacement := ReplacesError(p);
      if replacement.Some? then replacement else RequiresError(p)
  }

  /** Marks each requirement in a dictionary: false when first seen, true
      once seen again. */
  method MarkRepeated(requirements: seq<string>) returns (checker: map<string, bool>)
    ensures forall k :: k in checker <==> k in requirements
    ensures forall k :: k in checker ==> (checker[k] <==> Count(requirements, k) >= 2)
  {
    checker := map[];
    for i := 0 to |requirements|
      invariant forall k :: k in checker <==> k in requirements[..i]
      invariant forall k :: k in checker ==> (checker[k] <==> Count(requirements[..i], k) >= 2)
    {
      var pkg := requirements[i];
      assert requirements[..i + 1] == requirements[..i] + [pkg];
      forall k ensures Count(requirements[..i + 1], k) == Count(requirements[..i], k) + (if k == pkg then 1 else 0) {
        CountAppend(requirements[..i], [pkg], k);
      }
      if pkg in checker {
        checker := checker[pkg := true];
      } else {
        checker := checker[pkg := false];
      }
    }
    assert requirements[..|requirements|] == requirements;
  }

  /** The keys the dictionary marks true, each once, in whatever order the
      dictionary yields them. */
  method CollectMarked(checker: map<string, bool>) returns (duplicated: seq<string>)
    ensures Distinct(duplicated)
    ensures forall k :: k in duplicated <==> k in checker && checker[k]
  {
    duplicated := [];
    var pending := checker.Keys;
    while pending != {}
      invariant pending <= checker.Keys
      invariant Distinct(duplicated)
      invariant forall k :: k in duplicated <==> k in checker && k !in pending && checker[k]
      decreases |pending|
    {
      var pkg :| pkg in pending;
      if checker[pkg] {
        duplicated := duplicated + [pkg];
      }
      pending := pending - {pkg};
    }
  }

  /** The listing of two lists one after the other is the two listings one
      after the other. */
  lemma {:induction false} QuotedListAppend(a: seq<string>, b: seq<string>)
    ensures QuotedList(a + b) == QuotedList(a) + QuotedList(b)
    decreases |b|
  {
    if b == [] {
      assert a + b == a;
    } else {
      var c, front, last := a + b, b[..|b| - 1], b[|b| - 1];
      DropLastOfAppend(a, b);
      QuotedListAppend(a, front);
      calc {
        QuotedList(c);
        QuotedList(a + front) + Quoted(last);
        (QuotedList(a) + QuotedList(front)) + Quoted(last);
        QuotedList(a) + (QuotedList(front) + Quoted(last));
      }
    }
  }

  lemma DropLastOfAppend(a: seq<string>, b: seq<string>)
    requires b != []
    ensures (a + b)[..|a + b| - 1] == a + b[..|b| - 1]
    ensures (a + b)[|a + b| - 1] == b[|b| - 1]
  {
  }

  /** Listing one more token appends its quoted form. */
  lemma QuotedListExtended(tokens: seq<string>, j: nat)
    requires j < |tokens|
    ensures QuotedList(tokens[..j + 1]) == QuotedList(tokens[..j]) + Quoted(tokens[j])
  {
    assert tokens[..j + 1][..j] == tokens[..j];
  }

  /** The duplicates message: the prefix, then each duplicate in sorted order,
      quoted and followed by a space. */
  method BuildDuplicatesMessage(packageName: string, duplicated: seq<string>) returns (errMsg: string)
    ensures errMsg == DuplicatesMessage(packageName, SortStrings(duplicated))
  {
    errMsg := AppendQuoted(DuplicatesPrefix(packageName), SortStrings(duplicated));
  }

  /** The loop that appends each token, quoted and followed by a space, to
      the message built so far. */
  method AppendQuoted(start: string, ordered: seq<string>) returns (errMsg: string)
    ensures errMsg == start + QuotedList(ordered)
  {
    errMsg := start;
    for j := 0 to |ordered|
      invariant errMsg == start + QuotedList(ordered[..j])
    {
      QuotedListExtended(ordered, j);
      errMsg := errMsg + Quoted(ordered[j]);
    }
    assert ordered[..|ordered|] == ordered;
  }

  /** The check as the validator runs it, with the duplicate detection done
      by the three methods above. */
  method Validate(properties: Properties) returns (error: Option<ValidationError>)
    ensures error == ValidationOutcome(properties)
  {
    error := VersionReleaseError(properties);
    if error.Some? {
      return;
    }
    error := ReplacesError(properties);
    if error.Some? {
      return;
    }
    if "requires" in properties && "name" in properties {
      var packageName := properties["name"];
      var requirements := Split(properties["requires"], ',');
      if packageName in requirements {
        return Some(ValidationError("requires", RequiresItselfMessage(packageName)));
      }
      var checker := MarkRepeated(requirements);
      var duplicated := CollectMarked(checker);
      ghost var expected := SortedDuplicates(requirements);
      SortDistinct(duplicated);
      StrictlyAscendingUnique(SortStrings(duplicated), expected);
      if |duplicated| > 0 {
        var errMsg := BuildDuplicatesMessage(packageName, duplicated);
        return Some(ValidationError("requires", errMsg));
      }
    }
    error := None;
  }
}
