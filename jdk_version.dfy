/** The host JDK's major version, as `getJdkVersion` derives it from the
    `java.version` system property. */
module JdkVersion {
  import opened Wrappers
  import opened JavaInteger
  import opened JavaString

  /** Why no major version could be determined. */
  datatype JdkError =
    | PropertyMissing            // the property is null
    | NoComponent                // the split has no parts, so parts[0] is out of bounds
    | NotAnInt(component: string) // the chosen part is not an int (NumberFormatException)

  /** The dot-separated part that holds the major version: the second one in
      the legacy "1.x" scheme, the first one otherwise. */
  function MajorComponent(parts: seq<string>): string
    requires |parts| >= 1
  {
    if parts[0] == "1" && |parts| > 1 then parts[1] else parts[0]
  }

  /** `getJdkVersion`, with the property value passed in (None for null). */
  function ParseMajor(javaVersion: Option<string>): (r: Result<Int32, JdkError>)
    ensures javaVersion.None? <==> r == Failure(PropertyMissing)
    ensures r == Failure(NoComponent) <==> javaVersion.Some? && Split(javaVersion.value, '.') == []
    ensures r.Failure? && r.error.NotAnInt? ==>
              && javaVersion.Some? && |Split(javaVersion.value, '.')| >= 1
              && r.error.component == MajorComponent(Split(javaVersion.value, '.'))
              && ParseInt(r.error.component) == None
    ensures r.Success? ==> javaVersion.Some? && |Split(javaVersion.value, '.')| >= 1
                           && ParseInt(MajorComponent(Split(javaVersion.value, '.'))) == Some(r.value)
    ensures javaVersion.Some? && |Split(javaVersion.value, '.')| >= 1
            && ParseInt(MajorComponent(Split(javaVersion.value, '.'))).Some? ==>
              r == Success(ParseInt(MajorComponent(Split(javaVersion.value, '.'))).value)
  {
    match javaVersion
    case None => Failure(PropertyMissing)
    case Some(full) =>
      var parts := Split(full, '.');
      if |parts| == 0 then Failure(NoComponent)
      else
        var versionStr := MajorComponent(parts);
        match ParseInt(versionStr)
        case None => Failure(NotAnInt(versionStr))
        case Some(v) => Success(v)
  }

  lemma NoDotInNumeral(n: int)
    ensures '.' !in ToString(n)
  {
  }

  /** The first part of a dot-free string followed by nothing or by a dot. */
  lemma SplitAfterPart(p: string, rest: string)
    requires '.' !in p
    requires rest == [] || rest[0] == '.'
    ensures |SplitAll(p + rest, '.')| >= 1
    ensures SplitAll(p + rest, '.')[0] == p
  {
    if rest == [] {
      assert p + rest == p;
      SplitAllNoSeparator(p, '.');
    } else {
      assert p + rest == p + ['.'] + rest[1..];
      SplitAllCons(p, rest[1..], '.');
    }
  }

  /** Modern scheme, for any first part parseInt accepts other than "1":
      "17", "17.0.1", "011.2" give the value of their first part. */
  lemma ParseMajorModernPart(p: string, n: Int32, rest: string)
    requires '.' !in p && p != "1" && ParseInt(p) == Some(n)
    requires rest == [] || rest[0] == '.'
    ensures ParseMajor(Some(p + rest)) == Success(n)
  {
    var s := p + rest;
    SplitAfterPart(p, rest);
    SplitKeepsUpToNonEmpty(s, '.', 0);
  }

  /** Legacy scheme, for any second part parseInt accepts: "1.8",
      "1.08", "1.8.0_362" give the value of their second part. */
  lemma ParseMajorLegacyPart(p: string, n: Int32, rest: string)
    requires '.' !in p && ParseInt(p) == Some(n)
    requires rest == [] || rest[0] == '.'
    ensures ParseMajor(Some("1." + p + rest)) == Success(n)
  {
    var t := p + rest;
    var s := "1." + t;
    assert "1." + p + rest == s == "1" + ['.'] + t;
    SplitAllCons("1", t, '.');
    SplitAfterPart(p, rest);
    SplitKeepsUpToNonEmpty(s, '.', 1);
    var parts := Split(s, '.');
    assert parts[0] == "1" && parts[1] == p;
  }

  /** Modern scheme on canonical numerals: every int other than 1. */
  lemma ParseMajorModern(n: Int32, rest: string)
    requires n != 1
    requires rest == [] || rest[0] == '.'
    ensures ParseMajor(Some(ToString(n) + rest)) == Success(n)
  {
    NoDotInNumeral(n);
    ParseIntToString(n);
    ParseIntToString(1);
    assert ToString(1) == "1";
    if ToString(n) == "1" {
      ToStringInjective(n, 1);
    }
    ParseMajorModernPart(ToString(n), n, rest);
  }

  /** Legacy scheme on canonical numerals: every int. */
  lemma ParseMajorLegacy(n: Int32, rest: string)
    requires rest == [] || rest[0] == '.'
    ensures ParseMajor(Some("1." + ToString(n) + rest)) == Success(n)
  {
    NoDotInNumeral(n);
    ParseIntToString(n);
    ParseMajorLegacyPart(ToString(n), n, rest);
  }

  /** "1" with nothing after it but dots is version 1: the legacy scheme needs
      a second part, and trailing empty parts do not count. */
  lemma ParseMajorOne(dots: string)
    requires forall i :: 0 <= i < |dots| ==> dots[i] == '.'
    ensures ParseMajor(Some("1" + dots)) == Success(1)
  {
    var s := "1" + dots;
    var all := SplitAll(s, '.');
    if dots == [] {
      assert s == "1";
      SplitAllNoSeparator("1", '.');
    } else {
      assert s == "1" + ['.'] + dots[1..];
      SplitAllCons("1", dots[1..], '.');
      SplitAllOnlySeparators(dots[1..], '.');
      assert forall i :: 1 <= i < |all| ==> all[i] == SplitAll(dots[1..], '.')[i - 1];
    }
    SplitKeepsUpToNonEmpty(s, '.', 0);
    var parts := Split(s, '.');
    assert parts[|parts| - 1] == all[|parts| - 1];
    assert ParseInt("1") == Some(1) by {
      ParseIntToString(1);
      assert ToString(1) == "1";
    }
  }

  /** A null property fails. */
  lemma ParseMajorNull()
    ensures ParseMajor(None) == Failure(PropertyMissing)
  {
  }

  /** An empty property has the single part "", which is not an int. */
  lemma ParseMajorEmpty()
    ensures ParseMajor(Some("")) == Failure(NotAnInt(""))
  {
    ParseIntRejectsNoDigits();
  }

  /** A property made only of dots has no parts at all. */
  lemma ParseMajorOnlyDots(s: string)
    requires s != []
    requires forall i :: 0 <= i < |s| ==> s[i] == '.'
    ensures ParseMajor(Some(s)) == Failure(NoComponent)
  {
    SplitOnlySeparators(s, '.');
  }

  /** A leading dot, as in ".5", makes the first part empty, and the empty
      part is what gets parsed. */
  lemma ParseMajorLeadingDot(p: string, rest: string)
    requires p != [] && '.' !in p
    requires rest == [] || rest[0] == '.'
    ensures ParseMajor(Some("." + p + rest)) == Failure(NotAnInt(""))
  {
    var t := p + rest;
    var s := "." + t;
    assert "." + p + rest == s == "" + ['.'] + t;
    SplitAllCons("", t, '.');
    if rest == [] {
      assert t == p;
      SplitAllNoSeparator(p, '.');
    } else {
      assert t == p + ['.'] + rest[1..];
      SplitAllCons(p, rest[1..], '.');
    }
    SplitKeepsUpToNonEmpty(s, '.', 1);
    assert Split(s, '.')[0] == "";
    ParseIntRejectsNoDigits();
  }

  /** A version whose chosen part holds a non-digit fails, as early-access
      strings like "21-ea" do. */
  lemma ParseMajorNonNumeric(s: string, i: nat)
    requires |Split(s, '.')| >= 1
    requires i < |MajorComponent(Split(s, '.'))|
    requires !IsDigit(MajorComponent(Split(s, '.'))[i])
    requires i > 0 || MajorComponent(Split(s, '.'))[i] !in "+-"
    ensures ParseMajor(Some(s)) == Failure(NotAnInt(MajorComponent(Split(s, '.'))))
  {
    ParseIntRejectsNonDigit(MajorComponent(Split(s, '.')), i);
  }

  /** Java 8's "1.8.0_362" is version 8. */
  lemma ParseMajorExampleLegacy()
    ensures ParseMajor(Some("1.8.0_362")) == Success(8)
  {
    assert ToString(8) == "8";
    assert "1.8.0_362" == "1." + ToString(8) + ".0_362";
    ParseMajorLegacy(8, ".0_362");
  }

  /** "1.08" is version 8: parseInt accepts the leading zero. */
  lemma ParseMajorExampleLeadingZero()
    ensures ParseMajor(Some("1.08")) == Success(8)
  {
    var digits := "08";
    assert digits[0..] == digits && AllDigits(digits);
    assert digits[..1] == "0" && "0"[..0] == "";
    assert DigitsValue("0") == 0;
    assert DigitsValue(digits) == 8;
    assert ParseInt(digits) == Some(8);
    assert "1.08" == "1." + "08" + "";
    ParseMajorLegacyPart("08", 8, "");
  }

  /** "17.0.1" is version 17. */
  lemma ParseMajorExampleModern()
    ensures ParseMajor(Some("17.0.1")) == Success(17)
  {
    assert ToString(17) == "17";
    assert "17.0.1" == ToString(17) + ".0.1";
    ParseMajorModern(17, ".0.1");
  }

  /** "1" alone is version 1. */
  lemma ParseMajorExampleOne()
    ensures ParseMajor(Some("1")) == Success(1)
  {
    assert "1" == "1" + "";
    ParseMajorOne("");
  }

  /** ".5" and "." are rejected, the second for having no parts at all. */
  lemma ParseMajorExampleDots()
    ensures ParseMajor(Some(".5")) == Failure(NotAnInt(""))
    ensures ParseMajor(Some(".")) == Failure(NoComponent)
  {
    assert ".5" == "." + "5" + "";
    ParseMajorLeadingDot("5", "");
    ParseMajorOnlyDots(".");
  }
}
