/** The capability probe of `refreshProxiedFactories`: the Hibernate version
    string picks the rebuild path for every wrapper in one refresh. */
module HibernateVersion {
  import opened JavaRuntime
  import opened JavaStrings

  /** The rebuild path: `Modern` is the source's `version43OrGreater`
      (`refreshProxiedFactoryVersion43OrGreater`), `Legacy` is
      `refreshProxiedFactory` through the `Ejb3Configuration` API. */
  datatype Strategy = Legacy | Modern

  /** The probe's verdict and whether it logged "Unable to resolve hibernate
      version", which happens exactly when the parse threw. */
  datatype Detection = Detection(strategy: Strategy, warned: bool)

  /** The try-block over the already split components: `Integer.valueOf` of
      component 0, and only when that is at least 4 (`&&` short-circuits)
      `Integer.valueOf` of component 1. A missing component
      (`ArrayIndexOutOfBoundsException`) or an unparsable one
      (`NumberFormatException`) is caught and leaves the default `false`. */
  function DetectFrom(parts: seq<string>): (d: Detection)
    ensures d.strategy == Modern ==> !d.warned
    ensures d.strategy == Modern ==> |parts| >= 2
  {
    if |parts| == 0 then Detection(Legacy, true)
    else match ParseInt(parts[0])
      case None => Detection(Legacy, true)
      case Some(major) =>
        if major < 4 then Detection(Legacy, false)
        else if |parts| < 2 then Detection(Legacy, true)
        else match ParseInt(parts[1])
          case None => Detection(Legacy, true)
          case Some(minor) => Detection(if minor >= 3 then Modern else Legacy, false)
  }

  /** The probe on `Version.getVersionString()`, split as `split("\\.")` does. */
  function DetectStrategy(version: string): (d: Detection)
    ensures d == DetectFrom(Split(version))
  {
    var parts := JavaSplit(version);
    var all := Split(version);
    assert |parts| >= 1 ==> parts[0] == all[0];
    assert |parts| >= 2 ==> parts[1] == all[1];
    assert |parts| == 0 ==> all[0] == "";
    assert |parts| == 1 && |all| >= 2 ==> all[1] == "";
    DetectFrom(parts)
  }

  /** The literal conjunctive rule: the modern path is taken iff the first two
      dot-separated components are `int` numerals, the first at least 4 AND
      the second at least 3. */
  lemma ModernIff(version: string)
    ensures DetectStrategy(version).strategy == Modern <==>
      var parts := Split(version);
      && |parts| >= 2
      && ParseInt(parts[0]).Some? && ParseInt(parts[0]).value >= 4
      && ParseInt(parts[1]).Some? && ParseInt(parts[1]).value >= 3
  {
  }

  /** The warning is logged exactly when the probe throws: the first
      component is not an `int` numeral, or it is at least 4 and the second
      component is missing or not an `int` numeral. A major below 4 never
      has its minor component looked at, so it never warns. */
  lemma WarnedIff(version: string)
    ensures DetectStrategy(version).warned <==>
      var parts := Split(version);
      || ParseInt(parts[0]).None?
      || (ParseInt(parts[0]).value >= 4 && (|parts| < 2 || ParseInt(parts[1]).None?))
  {
  }

  /** A version written as major.minor, optionally followed by further
      dot-separated text, takes the modern path iff major >= 4 and
      minor >= 3, and never logs the warning. */
  lemma DetectNumericVersion(major: int, minor: int, tail: string)
    requires InIntRange(major) && InIntRange(minor)
    requires tail == "" || tail[0] == '.'
    ensures DetectStrategy(FormatInt(major) + "." + FormatInt(minor) + tail)
         == Detection(if major >= 4 && minor >= 3 then Modern else Legacy, false)
  {
    var a, b := FormatInt(major), FormatInt(minor);
    LeadingComponents(a, b, tail);
    FormatParseRoundTrip(major);
    FormatParseRoundTrip(minor);
    DetectFromNumerals(Split(a + "." + b + tail), major, minor);
  }

  /** The first two components of a + "." + b + tail are a and b, when
      neither holds a dot and the tail is empty or starts a new component. */
  lemma LeadingComponents(a: string, b: string, tail: string)
    requires '.' !in a && '.' !in b
    requires tail == "" || tail[0] == '.'
    ensures var parts := Split(a + "." + b + tail);
      |parts| >= 2 && parts[0] == a && parts[1] == b
  {
    assert a + "." + b + tail == a + "." + (b + tail);
    SplitAfterDotFree(a, b + tail);
    FirstComponent(b, tail);
  }

  /** A dot-free b stays the first component when the tail is empty or
      starts a new component. */
  lemma FirstComponent(b: string, tail: string)
    requires '.' !in b
    requires tail == "" || tail[0] == '.'
    ensures Split(b + tail)[0] == b
  {
    if tail == "" {
      assert b + tail == b;
    } else {
      assert b + tail == b + "." + tail[1..];
      SplitAfterDotFree(b, tail[1..]);
    }
  }

  /** Two parsable leading components decide the probe without a warning. */
  lemma DetectFromNumerals(parts: seq<string>, major: int, minor: int)
    requires |parts| >= 2 && ParseInt(parts[0]) == Some(major) && ParseInt(parts[1]) == Some(minor)
    ensures DetectFrom(parts) == Detection(if major >= 4 && minor >= 3 then Modern else Legacy, false)
  {
  }

  /** A bare major version is always legacy; it logs the warning exactly when
      the missing minor component is looked at, that is when major >= 4. */
  lemma DetectMajorOnly(major: int)
    requires InIntRange(major)
    ensures DetectStrategy(FormatInt(major)) == Detection(Legacy, major >= 4)
  {
  }

  /** An unparsable first component always falls back to legacy with a
      warning, whatever follows it. */
  lemma DetectUnparsableMajor(version: string)
    requires ParseInt(Split(version)[0]).None?
    ensures DetectStrategy(version) == Detection(Legacy, true)
  {
  }

  /** With a major of at least 4, an unparsable or missing minor component
      falls back to legacy with a warning. */
  lemma DetectUnparsableMinor(version: string)
    requires ParseInt(Split(version)[0]).Some? && ParseInt(Split(version)[0]).value >= 4
    requires |Split(version)| < 2 || ParseInt(Split(version)[1]).None?
    ensures DetectStrategy(version) == Detection(Legacy, true)
  {
  }

  /** "4.3.0" takes the modern path. */
  lemma VersionFourThreeIsModern()
    ensures DetectStrategy("4.3.0") == Detection(Modern, false)
  {
    SingleDigitNumerals();
    assert "4.3.0" == FormatInt(4) + "." + FormatInt(3) + ".0";
    DetectNumericVersion(4, 3, ".0");
  }

  /** "4.2.9" is legacy: the minor component is below 3. */
  lemma VersionFourTwoIsLegacy()
    ensures DetectStrategy("4.2.9") == Detection(Legacy, false)
  {
    SingleDigitNumerals();
    assert "4.2.9" == FormatInt(4) + "." + FormatInt(2) + ".9";
    DetectNumericVersion(4, 2, ".9");
  }

  /** "3.6.1" is legacy: the major component is below 4. */
  lemma VersionThreeSixIsLegacy()
    ensures DetectStrategy("3.6.1") == Detection(Legacy, false)
  {
    SingleDigitNumerals();
    assert "3.6.1" == FormatInt(3) + "." + FormatInt(6) + ".1";
    DetectNumericVersion(3, 6, ".1");
  }

  /** "5.0.0" is legacy as well: the conjunctive rule also demands a minor
      component of at least 3 from every later major version. */
  lemma VersionFiveZeroIsLegacy()
    ensures DetectStrategy("5.0.0") == Detection(Legacy, false)
  {
    SingleDigitNumerals();
    assert "5.0.0" == FormatInt(5) + "." + FormatInt(0) + ".0";
    DetectNumericVersion(5, 0, ".0");
  }

  /** A version string that is not numeric falls back to legacy and warns. */
  lemma UnknownVersionIsLegacy()
    ensures DetectStrategy("unknown") == Detection(Legacy, true)
  {
  }

  /** The numerals of 0 to 9 are the single digit characters. */
  lemma SingleDigitNumerals()
    ensures FormatInt(0) == "0" && FormatInt(1) == "1" && FormatInt(2) == "2"
    ensures FormatInt(3) == "3" && FormatInt(4) == "4" && FormatInt(5) == "5"
    ensures FormatInt(6) == "6" && FormatInt(7) == "7" && FormatInt(8) == "8"
    ensures FormatInt(9) == "9"
  {
  }
}
