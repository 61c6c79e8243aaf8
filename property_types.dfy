/**
  The three string property types the package extension registers with the
  host model (`define_property_types`): each is a name, a pattern and the
  message shown when a value does not match. The regular expressions are
  written out here as predicates over the characters of the value.
*/
module PropertyTypes {
  import opened Tokens

  /** One character of the class `[a-zA-Z0-9\-\._]` (the version pattern's
      class `[a-zA-Z0-9\.\-_]` is the same set). */
  predicate IsNameChar(c: char)
  {
    ('a' <= c <= 'z') || ('A' <= c <= 'Z') || ('0' <= c <= '9') || c == '-' || c == '.' || c == '_'
  }

  predicate AllNameChars(s: string)
  {
    forall i :: 0 <= i < |s| ==> IsNameChar(s[i])
  }

  /** `[a-zA-Z0-9\-\._]+`: one package name. A name never holds the comma
      that separates the names of a requires list. */
  predicate IsPackageName(s: string): (named: bool)
    ensures named ==> s != [] && ',' !in s
  {
    |s| > 0 && AllNameChars(s)
  }

  /** `^(latest|[a-zA-Z0-9\.\-_]+)$`. The `latest` alternative adds nothing:
      the pattern accepts exactly the package names. */
  predicate IsPackageVersion(s: string): (accepted: bool)
    ensures accepted <==> IsPackageName(s)
  {
    var latest := "latest";
    assert forall i :: 0 <= i < |latest| ==> IsNameChar(latest[i]);
    s == latest || IsPackageName(s)
  }

  /** `^(keep|replace)$`. Both values are also well-formed package names. */
  predicate IsPackageConfig(s: string): (accepted: bool)
    ensures accepted ==> IsPackageName(s)
  {
    var keep, replace := "keep", "replace";
    assert forall i :: 0 <= i < |keep| ==> IsNameChar(keep[i]);
    assert forall i :: 0 <= i < |replace| ==> IsNameChar(replace[i]);
    s == keep || s == replace
  }

  /** `^((N)(,(N))*)$` with N the package name pattern, read left to right:
      `inName` says that the token being read already has a character, so a
      comma or the end of the value may come next. */
  predicate MatchesRequiresFrom(s: string, inName: bool): (accepted: bool)
    ensures accepted && s == [] ==> inName
    ensures accepted && s != [] ==> IsNameChar(s[|s| - 1])
    decreases |s|
  {
    if |s| == 0 then inName
    else if IsNameChar(s[0]) then MatchesRequiresFrom(s[1..], true)
    else s[0] == ',' && inName && MatchesRequiresFrom(s[1..], false)
  }

  /** `package_requires`: a comma separated list of package names. */
  predicate IsPackageRequires(s: string): (accepted: bool)
    ensures accepted ==> s != [] && IsNameChar(s[0]) && IsNameChar(s[|s| - 1])
  {
    MatchesRequiresFrom(s, false)
  }

  datatype PropertyType = PackageVersion | PackageConfig | PackageRequires
  {
    /** Every identifier is in the `package_` namespace. */
    function Id(): (id: string)
      ensures |id| > 8 && id[..8] == "package_"
    {
      match this
      case PackageVersion => "package_version"
      case PackageConfig => "package_config"
      case PackageRequires => "package_requires"
    }

    /** Every description opens with "Value must be " and, as written in
        the extension, ends without a period. */
    function ErrorDesc(): (desc: string)
      ensures |desc| > 14 && desc[..14] == "Value must be "
      ensures desc[|desc| - 1] != '.'
    {
      match this
      case PackageVersion => "Value must be either \"latest\" or " + "a valid alphanumeric package version number"
      case PackageConfig => "Value must be \"keep\" or \"replace\""
      case PackageRequires => "Value must be a comma separated list " + "of package names"
    }

    /** The pattern each type is registered with: a version or config value
        is one package name, a requires value a comma separated list of them. */
    predicate Accepts(value: string): (accepted: bool)
      ensures this != PackageRequires && accepted ==> IsPackageName(value)
      ensures this == PackageRequires ==>
        (accepted <==> forall i :: 0 <= i < |Split(value, ',')| ==> IsPackageName(Split(value, ',')[i]))
    {
      match this
      case PackageVersion => IsPackageVersion(value)
      case PackageConfig => IsPackageConfig(value)
      case PackageRequires => RequiresAcceptsNameLists(value); IsPackageRequires(value)
    }
  }

  /** The property types in the order they are registered. */
  function DefinePropertyTypes(): (types: seq<PropertyType>)
    ensures |types| == 3
    ensures forall i, j :: 0 <= i < j < |types| ==> types[i].Id() != types[j].Id()
  {
    [PackageVersion, PackageConfig, PackageRequires]
  }

  /** Every value the config type accepts is also a valid version. */
  lemma ConfigValuesAreVersions(value: string)
    requires PackageConfig.Accepts(value)
    ensures PackageVersion.Accepts(value)
  {
  }

  /** The registered identifiers, in order. */
  lemma RegisteredIds()
    ensures |DefinePropertyTypes()| == 3
    ensures DefinePropertyTypes()[0].Id() == "package_version"
    ensures DefinePropertyTypes()[1].Id() == "package_config"
    ensures DefinePropertyTypes()[2].Id() == "package_requires"
  {
  }

  /** What the requires matcher accepts, stated on the pieces of the value
      between commas: the first piece holds only name characters (and is
      non-empty unless a character was already read), every later piece is a
      package name. */
  lemma {:induction false} MatchesRequiresFromPieces(s: string, inName: bool)
    ensures MatchesRequiresFrom(s, inName) <==>
      var parts := Split(s, ',');
      && AllNameChars(parts[0])
      && (inName || parts[0] != "")
      && forall i :: 1 <= i < |parts| ==> IsPackageName(parts[i])
    decreases |s|
  {
    if |s| > 0 {
      var rest := Split(s[1..], ',');
      var parts := Split(s, ',');
      if s[0] == ',' {
        MatchesRequiresFromPieces(s[1..], false);
        assert parts == [""] + rest;
        assert forall i :: 1 <= i < |parts| ==> parts[i] == rest[i - 1];
      } else {
        MatchesRequiresFromPieces(s[1..], true);
        assert parts == [[s[0]] + rest[0]] + rest[1..];
        assert forall i :: 1 <= i < |parts| ==> parts[i] == rest[i];
        assert forall i :: 1 <= i < |parts[0]| ==> parts[0][i] == rest[0][i - 1];
        assert parts[0][0] == s[0];
        if IsNameChar(s[0]) {
          assert parts[0] == [s[0]] + rest[0];
          if AllNameChars(parts[0]) {
            assert forall k :: 0 <= k < |rest[0]| ==> rest[0][k] == parts[0][k + 1];
          }
        } else {
          assert !AllNameChars(parts[0]);
        }
      }
    }
  }

  /** `package_requires` accepts a value exactly when every comma separated
      piece of it is a package name. */
  lemma RequiresAcceptsNameLists(s: string)
    ensures IsPackageRequires(s) <==> forall i :: 0 <= i < |Split(s, ',')| ==> IsPackageName(Split(s, ',')[i])
  {
    MatchesRequiresFromPieces(s, false);
  }

  /** What the requires validator relies on: an accepted value splits into
      non-empty, comma-free package names that join back to the value. */
  lemma AcceptedRequiresTokens(s: string)
    requires IsPackageRequires(s)
    ensures s != ""
    ensures forall t :: t in Split(s, ',') ==> IsPackageName(t) && t != "" && ',' !in t
    ensures Join(Split(s, ','), ',') == s
  {
    RequiresAcceptsNameLists(s);
  }

  /** Every non-empty list of package names, joined with commas, is accepted
      and splits back into the same names. */
  lemma RequiresAcceptsJoinedNames(names: seq<string>)
    requires |names| >= 1
    requires forall i :: 0 <= i < |names| ==> IsPackageName(names[i])
    ensures IsPackageRequires(Join(names, ','))
    ensures Split(Join(names, ','), ',') == names
  {
    SplitJoin(names, ',');
    RequiresAcceptsNameLists(Join(names, ','));
  }
}
