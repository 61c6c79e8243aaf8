/**
  The cases of the repository's unit tests, and two accepted packages, as
  lemmas over `ValidationOutcome`. The splitting of each
  requires value is worked out in a lemma of its own, with the value passed
  as a parameter, and each case first settles which properties are set.
*/
module ValidatorExamples {
  import opened Wrappers
  import opened Tokens
  import opened Ordering
  import opened PackageValidator

  /** A release without a version, then the same with version 1.2. */
  lemma ReleaseThenVersion()
    ensures ValidationOutcome(map["name" := "foo", "release" := "rc3"]) ==
      Some(ValidationError("release", "The property 'version' must be specified if a 'release' value is provided."))
    ensures ValidationOutcome(map["name" := "foo", "release" := "rc3", "version" := "1.2"]) == None
  {
  }

  lemma ReplacesItself()
    ensures ValidationOutcome(map["name" := "foo", "replaces" := "foo"]) ==
      Some(ValidationError("replaces", "Replacement of a modelled package \"foo\" with \"foo\" is not allowed."))
  {
    ReplacesItselfText();
  }

  /** The message text of the replaces case, in two steps for the same reason
      as the duplicates text below. */
  lemma ReplacesItselfText()
    ensures ReplacesItselfMessage("foo", "foo") == "Replacement of a modelled package \"foo\" with \"foo\" is not allowed."
  {
    ReplacesItselfFirstName();
    ReplacesItselfSecondName();
  }

  lemma ReplacesItselfFirstName()
    ensures "Replacement of a modelled package \"" + "foo" + "\" with \"" == "Replacement of a modelled package \"foo\" with \""
  {
  }

  lemma ReplacesItselfSecondName()
    ensures "Replacement of a modelled package \"foo\" with \"" + "foo" + "\" is not allowed." ==
      "Replacement of a modelled package \"foo\" with \"foo\" is not allowed."
  {
  }

  lemma SplitsWithItself(value: string)
    requires value == "some_other_pkg,foo,bar,foobar"
    ensures Split(value, ',') == ["some_other_pkg", "foo", "bar", "foobar"]
  {
    var tokens := ["some_other_pkg", "foo", "bar", "foobar"];
    assert Join(tokens, ',') == value by {
      assert tokens[1..][1..][1..] == ["foobar"];
      assert tokens[1..][1..] == ["bar", "foobar"];
      assert tokens[1..] == ["foo", "bar", "foobar"];
    }
    SplitJoin(tokens, ',');
  }

  /** Without version, release and replaces only the requires stage can
      report anything. */
  lemma OnlyRequiresChecked(p: Properties)
    requires "release" !in p && "version" !in p && "replaces" !in p
    ensures ValidationOutcome(p) == RequiresError(p)
  {
  }

  lemma RequiresItselfStage(p: Properties)
    requires p == map["name" := "foo", "requires" := "some_other_pkg,foo,bar,foobar"]
    ensures RequiresError(p) == Some(ValidationError("requires", RequiresItselfMessage("foo")))
  {
    SplitsWithItself(p["requires"]);
  }

  lemma RequiresItselfText()
    ensures RequiresItselfMessage("foo") == "Package \"foo\" cannot require itself."
  {
  }

  /** `foobar` does not count as `foo`; `foo` itself does. */
  lemma RequiresItself(p: Properties)
    requires p == map["name" := "foo", "requires" := "some_other_pkg,foo,bar,foobar"]
    ensures ValidationOutcome(p) == Some(ValidationError("requires", "Package \"foo\" cannot require itself."))
  {
    OnlyRequiresChecked(p);
    RequiresItselfStage(p);
    RequiresItselfText();
  }

  lemma SplitsWithDuplicates(value: string)
    requires value == "bar,foobar,bar,httpd,httpd"
    ensures Split(value, ',') == ["bar", "foobar", "bar", "httpd", "httpd"]
  {
    var tokens := ["bar", "foobar", "bar", "httpd", "httpd"];
    assert Join(tokens, ',') == value by {
      assert tokens[1..][1..][1..][1..] == ["httpd"];
      assert tokens[1..][1..][1..] == ["httpd", "httpd"];
      assert tokens[1..][1..] == ["bar", "httpd", "httpd"];
      assert tokens[1..] == ["foobar", "bar", "httpd", "httpd"];
    }
    SplitJoin(tokens, ',');
  }

  /** `bar` and `httpd` are the repeated packages, in ascending order. */
  lemma DuplicatesOfTestList(tokens: seq<string>)
    requires tokens == ["bar", "foobar", "bar", "httpd", "httpd"]
    ensures SortedDuplicates(tokens) == ["bar", "httpd"]
  {
    var listed := ["bar", "httpd"];
    assert Less("bar", "httpd");
    RepeatedInTestList(tokens);
    StrictlyAscendingUnique(listed, SortedDuplicates(tokens));
  }

  lemma RepeatedInTestList(tokens: seq<string>)
    requires tokens == ["bar", "foobar", "bar", "httpd", "httpd"]
    ensures forall t :: t in ["bar", "httpd"] <==> Count(tokens, t) >= 2
  {
    forall t ensures t in ["bar", "httpd"] <==> Count(tokens, t) >= 2 {
      CountIsMultiplicity(tokens, t);
      assert tokens == ["bar"] + ["foobar"] + ["bar"] + ["httpd"] + ["httpd"];
    }
  }

  lemma QuotedTestDuplicates()
    ensures QuotedList(["bar", "httpd"]) == "\"bar\" \"httpd\" "
  {
    var listed := ["bar", "httpd"];
    assert listed[..|listed| - 1] == ["bar"] && listed[..1][..0] == [];
  }

  /** The message text of the duplicates case, assembled sentence by sentence. */
  lemma DuplicatesText()
    ensures DuplicatesPrefix("foo") + QuotedList(["bar", "httpd"]) ==
      "Package \"foo\" has duplicated requirements. Duplicate package requires are : \"bar\" \"httpd\" "
  {
    QuotedTestDuplicates();
    DuplicatesSentences();
    DuplicatesListingAppended();
  }

  lemma DuplicatesSentences()
    ensures DuplicatesPrefix("foo") == "Package \"foo\" has duplicated requirements. Duplicate package requires are : "
  {
    DuplicatesFirstSentence();
    DuplicatesSecondSentence();
  }

  // The three equalities below hold by the definition of string
  // concatenation; each is a lemma of its own because the solver does not
  // settle a literal of this length in one proof together with the others.
  lemma DuplicatesFirstSentence()
    ensures "Package \"" + "foo" + "\" has duplicated requirements. " == "Package \"foo\" has duplicated requirements. "
  {
  }

  lemma DuplicatesSecondSentence()
    ensures "Package \"foo\" has duplicated requirements. " + "Duplicate package requires are : " ==
      "Package \"foo\" has duplicated requirements. Duplicate package requires are : "
  {
  }

  lemma DuplicatesListingAppended()
    ensures "Package \"foo\" has duplicated requirements. Duplicate package requires are : " + "\"bar\" \"httpd\" " ==
      "Package \"foo\" has duplicated requirements. Duplicate package requires are : \"bar\" \"httpd\" "
  {
  }

  /** The duplicates are listed sorted, each once, each quoted and followed
      by a space, after the fixed prefix naming the package. */
  lemma RequiresDuplicates(p: Properties)
    requires p == map["name" := "foo", "requires" := "bar,foobar,bar,httpd,httpd"]
    ensures ValidationOutcome(p) ==
      Some(ValidationError("requires", "Package \"foo\" has duplicated requirements. Duplicate package requires are : \"bar\" \"httpd\" "))
  {
    OnlyRequiresChecked(p);
    RequiresDuplicatesStage(p);
    DuplicatesText();
  }

  lemma RequiresDuplicatesStage(p: Properties)
    requires p == map["name" := "foo", "requires" := "bar,foobar,bar,httpd,httpd"]
    ensures RequiresError(p) == Some(ValidationError("requires", DuplicatesMessage("foo", ["bar", "httpd"])))
  {
    DuplicatesTestFacts(p);
  }

  lemma DuplicatesTestFacts(p: Properties)
    requires p == map["name" := "foo", "requires" := "bar,foobar,bar,httpd,httpd"]
    ensures p["name"] !in Split(p["requires"], ',')
    ensures SortedDuplicates(Split(p["requires"], ',')) == ["bar", "httpd"]
  {
    SplitsWithDuplicates(p["requires"]);
    DuplicatesOfTestList(Split(p["requires"], ','));
  }

  lemma SplitsDistinct(value: string)
    requires value == "bar,foobar,httpd"
    ensures Split(value, ',') == ["bar", "foobar", "httpd"]
  {
    var tokens := ["bar", "foobar", "httpd"];
    assert Join(tokens, ',') == value by {
      assert tokens[1..][1..] == ["httpd"];
      assert tokens[1..] == ["foobar", "httpd"];
    }
    SplitJoin(tokens, ',');
  }

  lemma RequiresDistinct(p: Properties)
    requires p == map["name" := "foo", "requires" := "bar,foobar,httpd"]
    ensures ValidationOutcome(p) == None
  {
    OnlyRequiresChecked(p);
    SplitsDistinct(p["requires"]);
    DistinctTestTokens(Split(p["requires"], ','));
  }

  lemma DistinctTestTokens(tokens: seq<string>)
    requires tokens == ["bar", "foobar", "httpd"]
    ensures Distinct(tokens) && "foo" !in tokens
  {
  }

  lemma SplitsTwo(value: string)
    requires value == "bar,httpd"
    ensures Split(value, ',') == ["bar", "httpd"]
  {
    var tokens := ["bar", "httpd"];
    assert Join(tokens, ',') == value by {
      assert tokens[1..] == ["httpd"];
    }
    SplitJoin(tokens, ',');
  }

  lemma WellFormedFirstStages(p: Properties)
    requires p == map["name" := "foo", "version" := "1.2-3", "replaces" := "old", "requires" := "bar,httpd"]
    ensures VersionReleaseError(p) == None && ReplacesError(p) == None
  {
    assert "release" !in p && '-' in p["version"] && p["replaces"] != p["name"];
  }

  lemma WellFormedRequires(p: Properties)
    requires p == map["name" := "foo", "version" := "1.2-3", "replaces" := "old", "requires" := "bar,httpd"]
    ensures RequiresError(p) == None
  {
    SplitsTwo(p["requires"]);
    TwoTestTokens(Split(p["requires"], ','));
  }

  lemma TwoTestTokens(tokens: seq<string>)
    requires tokens == ["bar", "httpd"]
    ensures Distinct(tokens) && "foo" !in tokens
  {
  }

  /** A version with its release embedded, no release, distinct requirements
      and another package replaced. */
  lemma WellFormedPackage(p: Properties)
    requires p == map["name" := "foo", "version" := "1.2-3", "replaces" := "old", "requires" := "bar,httpd"]
    ensures ValidationOutcome(p) == None
  {
    WellFormedFirstStages(p);
    WellFormedRequires(p);
  }
}
