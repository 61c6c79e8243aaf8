# Package extension: property types and the package validator

This project models the core of the LITP "package" model extension: the
three property types it registers for package items, and
`PackageValidator.validate`. That validator is the cross-field check run
on the properties of one `package` item before the host accepts them. It
returns at most one error, from the first of three stages that finds one:

1. **version / release coupling.** A release needs a version. A release
   cannot be given when the version already carries one (it contains `-`)
   or when the version is `latest`. A version without a release must
   contain `-` or be `latest`.
2. **replaces.** A package may not replace itself.
3. **requires.** The comma-separated requires list may not name the
   package itself. If it repeats a package, the error lists each repeated
   package once, in sorted order, quoted and followed by a space.

Modules:

- `Wrappers` holds `Option`.
- `Tokens` holds Python's `str.split` on one separator character with its
  inverse `Join`, the occurrence count of a token, and the `Distinct`
  predicate.
- `Ordering` holds the string order `sorted` uses, strict and non-strict
  ascending order, and an insertion sort. It also proves that a strictly
  ascending listing of a set of tokens is unique.
- `PropertyTypes` holds the three registered property types.
  - Each pattern is a hand-written predicate: `package_version`,
    `package_config`, and `package_requires`, the last as a small automaton
    for `N+(,N+)*`.
  - Each type also carries its id and error description.
- `PackageValidator` holds the message texts and the declarative
  consistency predicates.
  - `ValidationOutcome` is the pure specification of the validator.
  - `Validate` is the imperative method. It follows the source's loops:
    a map of seen and repeated packages, collection of the repeated ones in
    an arbitrary order, and the message built by appending one quoted
    token at a time over the sorted list. It is proved equal to
    `ValidationOutcome`.
- `ValidatorProperties` holds lemmas relating the outcome to the
  consistency predicates, to stage order and to the order of the requires
  list.
- `ValidatorExamples` restates the repository's unit tests as lemmas. It
  also holds two accepted packages that are not unit-test cases:
  `RequiresDistinct` and `WellFormedPackage`.

The properties of an item are a `map<string, string>`. An absent key is an
unset property.

## Model

| member | source | states |
|---|---|---|
| Tokens.Split | src/package_extension/package_extension.py:194-195 | the requires value cut at every comma gives at least one token, no token contains the separator, and joining the tokens with it gives back the value |
| Tokens.SplitJoin | src/package_extension/package_extension.py:194-195 | splitting the join of separator-free tokens gives back exactly those tokens (split and join are inverse) |
| Tokens.SplitAround | src/package_extension/package_extension.py:194-195 | splitting `a + sep + b` is the split of `a` followed by the split of `b` |
| Tokens.SplitWithoutSeparator | src/package_extension/package_extension.py:194-195 | a value without the separator splits into itself alone |
| Tokens.Count | src/package_extension/package_extension.py:206-213 | the number of occurrences of a token is at most the length of the list and positive exactly when the token occurs |
| Tokens.CountAppend | src/package_extension/package_extension.py:209-213 | occurrences in a concatenation add up |
| Tokens.CountIsMultiplicity | src/package_extension/package_extension.py:206-213 | the occurrence count equals the token's multiplicity in the list's multiset |
| Tokens.CountAtLeastTwo | src/package_extension/package_extension.py:210-211 | a token occurs at least twice exactly when two distinct positions hold it (the condition under which `checker` marks it `True`) |
| Tokens.DistinctIffCountsAtMostOne | src/package_extension/package_extension.py:215-218 | a list has no repeated token exactly when every token occurs at most once |
| Ordering.Less | src/package_extension/package_extension.py:225 | the order `sorted` applies to two strings: a proper prefix sorts first, and a non-empty string sorts only before a non-empty string whose first character is not smaller |
| Ordering.LessIrreflexive | src/package_extension/package_extension.py:225 | no string sorts before itself |
| Ordering.LessTransitive | src/package_extension/package_extension.py:225 | the string order used by `sorted` is transitive |
| Ordering.LessTotal | src/package_extension/package_extension.py:225 | of two different strings one sorts before the other |
| Ordering.LessAsymmetric | src/package_extension/package_extension.py:225 | two strings never sort before each other |
| Ordering.Insert | src/package_extension/package_extension.py:225 | inserting into an ascending list keeps it ascending and adds exactly the inserted string |
| Ordering.SortStrings | src/package_extension/package_extension.py:225 | `sorted` returns an ascending permutation of its input |
| Ordering.SortDistinct | src/package_extension/package_extension.py:225 | sorting a list without repeats gives a strictly ascending list with the same members |
| Ordering.HeadIsLeast | src/package_extension/package_extension.py:225 | the first element of a strictly ascending list sorts before every other element |
| Ordering.StrictlyAscendingUnique | src/package_extension/package_extension.py:215-226 | two strictly ascending lists with the same members are equal, so the listing does not depend on the dictionary's iteration order |
| PropertyTypes.DefinePropertyTypes | src/package_extension/package_extension.py:24-46 | three property types are registered, with pairwise different ids |
| PropertyTypes.RegisteredIds | src/package_extension/package_extension.py:28-46 | the ids are `package_version`, `package_config`, `package_requires`, in that order |
| PropertyTypes.IsPackageName | src/package_extension/package_extension.py:26 | `package_name_re`, the class `[a-zA-Z0-9\-\._]` repeated at least once: a name is non-empty and never holds a comma |
| PropertyTypes.PropertyType.Accepts | src/package_extension/package_extension.py:29-45 | the pattern each registered type carries: a version or config value is one package name, and a requires value is accepted exactly when every comma separated token is a package name |
| PropertyTypes.ConfigValuesAreVersions | src/package_extension/package_extension.py:29-39 | every value the `package_config` pattern accepts is also accepted by the `package_version` pattern |
| PropertyTypes.IsPackageVersion | src/package_extension/package_extension.py:31 | the version pattern (`latest`, or a run of name characters) accepts exactly the package names, `latest` being one of them |
| PropertyTypes.IsPackageConfig | src/package_extension/package_extension.py:37 | both values the config pattern accepts, `keep` and `replace`, are also well-formed package names |
| PropertyTypes.MatchesRequiresFrom | src/package_extension/package_extension.py:42 | the automaton for `N+(,N+)*` accepts the empty rest only inside a name, and an accepted value ends with a name character |
| PropertyTypes.IsPackageRequires | src/package_extension/package_extension.py:42 | an accepted requires value is non-empty and starts and ends with a name character |
| PropertyTypes.PropertyType.Id | src/package_extension/package_extension.py:30-41 | every registered id is in the `package_` namespace |
| PropertyTypes.PropertyType.ErrorDesc | src/package_extension/package_extension.py:32-44 | every error description opens with "Value must be " and ends without a period |
| PropertyTypes.MatchesRequiresFromPieces | src/package_extension/package_extension.py:40-45 | the requires automaton accepts a value exactly when every comma-separated piece is a non-empty run of name characters |
| PropertyTypes.RequiresAcceptsNameLists | src/package_extension/package_extension.py:40-45 | `package_requires` accepts a value exactly when every token of its split is a package name |
| PropertyTypes.AcceptedRequiresTokens | src/package_extension/package_extension.py:40-45 | an accepted requires value is non-empty, and its tokens are non-empty, comma-free and join back to it |
| PropertyTypes.RequiresAcceptsJoinedNames | src/package_extension/package_extension.py:40-45 | any non-empty list of package names joined by commas is accepted and splits back into that list |
| PackageValidator.ReplacesItselfMessage | src/package_extension/package_extension.py:182-185 | the message quotes the replaced package, then the package itself, at fixed places, with 60 characters of fixed text |
| PackageValidator.RequiresItselfMessage | src/package_extension/package_extension.py:199-200 | the message quotes the package after the word "Package", with 33 characters of fixed text |
| PackageValidator.DuplicatesPrefix | src/package_extension/package_extension.py:221-223 | both sentences of the duplicates message, quoting the package after the word "Package", with 73 characters of fixed text |
| PackageValidator.DuplicatesMessage | src/package_extension/package_extension.py:221-226 | the whole duplicates message names the package after the word "Package" and grows by at least three characters per listed duplicate |
| PackageValidator.Quoted | src/package_extension/package_extension.py:226 | one listed duplicate: the token between double quotes, followed by a space |
| PackageValidator.QuotedList | src/package_extension/package_extension.py:225-226 | the listing of the tokens contributes at least three characters per token |
| PackageValidator.QuotedListAppend | src/package_extension/package_extension.py:225-226 | listing two lists one after the other gives the two listings one after the other |
| PackageValidator.AppendQuoted | src/package_extension/package_extension.py:225-226 | the loop appends the listing of the tokens, in their order, to the message built so far |
| PackageValidator.VersionReleaseError | src/package_extension/package_extension.py:152-176 | stage 1 finds no error exactly when version and release are consistent, and reports on `release` when a release is set, else on `version` |
| PackageValidator.ReplacesError | src/package_extension/package_extension.py:178-186 | stage 2 finds no error exactly when the package does not replace itself, and reports on `replaces` |
| PackageValidator.DistinctDuplicates | src/package_extension/package_extension.py:206-216 | the repeated tokens, each once: the result has no repeats and holds exactly the tokens occurring at least twice |
| PackageValidator.SortedDuplicates | src/package_extension/package_extension.py:215-225 | the listed duplicates are strictly ascending and are exactly the tokens occurring at least twice |
| PackageValidator.NoDuplicatesIffDistinct | src/package_extension/package_extension.py:215-218 | the duplicates list is empty exactly when the requires list has no repeated token |
| PackageValidator.RequiresError | src/package_extension/package_extension.py:188-231 | stage 3 finds no error exactly when the requires list neither names the package nor repeats a token |
| PackageValidator.ValidationOutcome | src/package_extension/package_extension.py:151-231 | the validator returns no error exactly when all three consistency relations hold |
| PackageValidator.MarkRepeated | src/package_extension/package_extension.py:206-213 | after the loop, `checker` has exactly the listed tokens as keys, each mapped to whether it occurs at least twice |
| PackageValidator.CollectMarked | src/package_extension/package_extension.py:215-216 | the packages marked `True`, collected in any order, each exactly once |
| PackageValidator.BuildDuplicatesMessage | src/package_extension/package_extension.py:221-226 | the message is the prefix naming the package followed by each duplicate quoted with a trailing space, in sorted order |
| PackageValidator.Validate | src/package_extension/package_extension.py:151-231 | the imperative validator returns exactly `ValidationOutcome` of the properties, whatever order the dictionary yields its keys in |
| ValidatorProperties.ReleaseNeedsVersion | src/package_extension/package_extension.py:152-156 | a release without a version is reported on `release` with that message, whatever else is set |
| ValidatorProperties.ReleaseInVersionRejected | src/package_extension/package_extension.py:158-162 | a release beside a version containing `-` is reported on `release` |
| ValidatorProperties.ReleaseWithLatestRejected | src/package_extension/package_extension.py:163-168 | a release beside version `latest` is reported on `release` |
| ValidatorProperties.VersionNeedsRelease | src/package_extension/package_extension.py:169-176 | a version without a release, without `-` and other than `latest` is reported on `version` |
| ValidatorProperties.VersionReleaseErrorFirst | src/package_extension/package_extension.py:151-176 | a version/release error wins over every later stage: the outcome depends only on version and release and names one of them |
| ValidatorProperties.ReplacesItselfRejected | src/package_extension/package_extension.py:178-186 | after stage 1 passes, a package replacing itself is reported on `replaces` with both names in the message |
| ValidatorProperties.RequiresItselfRejected | src/package_extension/package_extension.py:197-204 | after the first two stages pass, a requires list naming the package is reported as requiring itself, even when it also has duplicates |
| ValidatorProperties.DuplicatesListed | src/package_extension/package_extension.py:206-231 | otherwise a repeated token gives the duplicates message, listing exactly the repeated tokens, strictly ascending, each once |
| ValidatorProperties.OutcomeIgnoresRequiresOrder | src/package_extension/package_extension.py:194-231 | reordering the requires tokens does not change the outcome |
| ValidatorProperties.AddingVersionRepairs | src/package_extension/package_extension.py:152-176 | a package rejected only for a release without a version is accepted once a plain version is added |
| ValidatorProperties.ErrorOnCheckedProperty | src/package_extension/package_extension.py:151-231 | every error names `release`, `version`, `replaces` or `requires` |
| ValidatorExamples.ReleaseThenVersion | test/test_package_extension.py:43-74 | `name=foo, release=rc3` is rejected on `release` with the test's message, and adding `version=1.2` is accepted |
| ValidatorExamples.ReplacesItself | test/test_package_extension.py:76-88 | `name=foo, replaces=foo` gives the test's error |
| ValidatorExamples.RequiresItself | test/test_package_extension.py:117-130 | `requires=some_other_pkg,foo,bar,foobar` for package `foo` is rejected as requiring itself |
| ValidatorExamples.RequiresDuplicates | test/test_package_extension.py:132-146 | `requires=bar,foobar,bar,httpd,httpd` gives the test's duplicates message `"bar" "httpd" ` |
| ValidatorExamples.DuplicatesOfTestList | test/test_package_extension.py:132-146 | the sorted duplicates of the test's list are `bar`, `httpd` |
| ValidatorExamples.RequiresDistinct | src/package_extension/package_extension.py:188-231 | a requires list of three different packages other than the package itself passes |
| ValidatorExamples.WellFormedPackage | src/package_extension/package_extension.py:151-231 | a package with a version carrying its release, a different replaced package and two distinct requirements passes all three stages |

## Left out

- `define_item_types` (the `package-list` and `package` item types) is
  left out. It is declarative registration data for the host. The
  validator only sees the resulting property map.
- The host framework (`ModelExtension`, `PropertyType`, `ItemValidator`,
  `ValidationError` and its `error_type`) is not part of this model.
  `ValidationError` is a plain datatype of property name and message.
- The regular-expression engine is left out. Each pattern is a
  hand-written predicate for whole-value matching. It does not model
  Python's `$`, which also matches before one final newline, so a value
  ending in `"\n"` is rejected here. How the host applies the patterns
  before calling the validator is also not modelled.
- Python 2 byte strings are modelled as sequences of `char`. `sorted`
  compares code points, which agrees with byte order for the ASCII
  package-name characters.
- `dict.iteritems` order is unspecified in the source. `CollectMarked`
  takes the marked packages in an arbitrary order, chosen by `:|`. All
  orders give the same result, because the list is sorted afterwards.
- The error descriptions of the property types follow the code, which ends
  them without a final period.
