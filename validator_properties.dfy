/**
  What the package check promises, stated over `ValidationOutcome`: the
  error each rule reports, the order of the stages, and that the duplicates
  message depends only on which requirements are repeated.
*/
module ValidatorProperties {
  import opened Wrappers
  import opened Tokens
  import opened Ordering
  import opened PackageValidator

  /** The value of a property, if it is set. */
  function Get(p: Properties, key: string): Option<string>
  {
    if key in p then Some(p[key]) else None
  }

  /** A release without a version is reported on `release`, whatever else is set. */
  lemma ReleaseNeedsVersion(p: Properties)
    requires "release" in p && "version" !in p
    ensures ValidationOutcome(p) == Some(ValidationError("release", ReleaseWithoutVersion))
  {
  }

  /** A version that carries its own release (it contains '-') cannot be
      combined with a release, whatever the release is; this rule is tested
      before the `latest` one. */
  lemma ReleaseInVersionRejected(p: Properties)
    requires "version" in p && "release" in p && '-' in p["version"]
    ensures ValidationOutcome(p) == Some(ValidationError("release", ReleaseInVersion))
  {
  }

  /** Version `latest` cannot be combined with a release. */
  lemma ReleaseWithLatestRejected(p: Properties)
    requires "release" in p && "version" in p && p["version"] == "latest"
    ensures ValidationOutcome(p) == Some(ValidationError("release", ReleaseWithLatest))
  {
  }

  /** A concrete version (no '-', not `latest`) needs a release. */
  lemma VersionNeedsRelease(p: Properties)
    requires "version" in p && "release" !in p
    requires '-' !in p["version"] && p["version"] != "latest"
    ensures ValidationOutcome(p) == Some(ValidationError("version", VersionWithoutRelease))
  {
  }

  /** A version/release error pre-empts the later stages: the outcome is the
      same for any other properties, and it is about `release` or `version`. */
  lemma VersionReleaseErrorFirst(p: Properties, q: Properties)
    requires !VersionReleaseConsistent(p)
    requires Get(p, "version") == Get(q, "version") && Get(p, "release") == Get(q, "release")
    ensures ValidationOutcome(p) == ValidationOutcome(q) != None
    ensures ValidationOutcome(p).value.propertyName in {"release", "version"}
  {
    assert "version" in p <==> "version" in q;
    assert "release" in p <==> "release" in q;
  }

  /** Once version and release agree, a package replacing itself is
      reported on `replaces`, whatever the requires list holds. */
  lemma ReplacesItselfRejected(p: Properties)
    requires VersionReleaseConsistent(p)
    requires "replaces" in p && "name" in p && p["replaces"] == p["name"]
    ensures ValidationOutcome(p) == Some(ValidationError("replaces", ReplacesItselfMessage(p["name"], p["name"])))
  {
  }

  /** Once the first two stages pass, a requires list naming the package
      itself is reported as such, even when it also has duplicates. */
  lemma RequiresItselfRejected(p: Properties)
    requires VersionReleaseConsistent(p) && ReplacesConsistent(p)
    requires "requires" in p && "name" in p && p["name"] in Split(p["requires"], ',')
    ensures ValidationOutcome(p) == Some(ValidationError("requires", RequiresItselfMessage(p["name"])))
  {
  }

  /** Otherwise a requires list with a repeated package is reported with the
      repeated packages listed once each, in ascending order, each quoted
      and followed by a space. */
  lemma DuplicatesListed(p: Properties)
    requires VersionReleaseConsistent(p) && ReplacesConsistent(p)
    requires "requires" in p && "name" in p
    requires p["name"] !in Split(p["requires"], ',') && !Distinct(Split(p["requires"], ','))
    ensures exists listed: seq<string> ::
      && StrictlyAscending(listed)
      && |listed| > 0
      && (forall t :: t in listed <==> Count(Split(p["requires"], ','), t) >= 2)
      && ValidationOutcome(p) == Some(ValidationError("requires", DuplicatesPrefix(p["name"]) + QuotedList(listed)))
  {
    var tokens := Split(p["requires"], ',');
    var listed := SortedDuplicates(tokens);
    NoDuplicatesIffDistinct(tokens);
    assert ValidationOutcome(p) == Some(ValidationError("requires", DuplicatesPrefix(p["name"]) + QuotedList(listed)));
  }

  /** The properties differ at most in the order of the requirements. */
  predicate SameUpToRequiresOrder(p: Properties, q: Properties)
  {
    && p.Keys == q.Keys
    && (forall k :: k in p && k != "requires" ==> p[k] == q[k])
    && ("requires" in p ==> multiset(Split(p["requires"], ',')) == multiset(Split(q["requires"], ',')))
  }

  /** Reordering the requirements changes nothing in the outcome: neither
      whether the package requires itself, nor which packages are repeated,
      nor the order in which the repeated ones are listed. */
  lemma OutcomeIgnoresRequiresOrder(p: Properties, q: Properties)
    requires SameUpToRequiresOrder(p, q)
    ensures ValidationOutcome(p) == ValidationOutcome(q)
  {
    assert VersionReleaseError(p) == VersionReleaseError(q);
    assert ReplacesError(p) == ReplacesError(q);
    if "requires" in p && "name" in p {
      var a := Split(p["requires"], ',');
      var b := Split(q["requires"], ',');
      forall t ensures Count(a, t) == Count(b, t) {
        CountIsMultiplicity(a, t);
        CountIsMultiplicity(b, t);
      }
      assert p["name"] in a <==> p["name"] in b by {
        assert Count(a, p["name"]) == Count(b, p["name"]);
      }
      StrictlyAscendingUnique(SortedDuplicates(a), SortedDuplicates(b));
    }
  }

  /** The test's repair: a release without a version is an error, and adding
      a concrete version makes the same properties pass when nothing else is
      wrong with them. */
  lemma AddingVersionRepairs(p: Properties, version: string)
    requires "release" in p && "version" !in p
    requires ReplacesConsistent(p) && RequiresConsistent(p)
    requires '-' !in version && version != "latest"
    ensures ValidationOutcome(p) != None
    ensures ValidationOutcome(p["version" := version]) == None
  {
    var q := p["version" := version];
    assert ReplacesConsistent(q) && RequiresConsistent(q) by {
      assert forall k :: k != "version" && k in p ==> k in q && q[k] == p[k];
    }
  }

  /** Every reported error is about one of the four checked properties. */
  lemma ErrorOnCheckedProperty(p: Properties)
    ensures ValidationOutcome(p) != None ==>
      ValidationOutcome(p).value.propertyName in {"release", "version", "replaces", "requires"}
  {
  }
}
