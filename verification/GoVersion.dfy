/** The Go version as it is reported in headers. */
module GoVersions {
  import opened Prelude
  import opened Headers

  predicate IsDigit(c: char) { '0' <= c <= '9' }

  predicate NotSemverRune(c: char) { !IsDigit(c) && c != '.' }

  /** `strings.Count` of dots. */
  function Dots(s: string): nat {
    if s == "" then 0 else (if s[0] == '.' then 1 else 0) + Dots(s[1..])
  }

  function FirstWord(s: string): string {
    s[..IndexFunc(s, IsSpace)]
  }

  /** Major, minor and patch, the last two filled in with zeros. */
  function ThreeParts(number: string): string {
    if number != "" && number[|number| - 1] == '.' then number + "0"
    else if Dots(number) < 2 then number + ".0"
    else number
  }

  function Dashed(prerelease: string): string {
    if prerelease == "" || prerelease[0] == '-' then prerelease else "-" + prerelease
  }

  /** The text after "go": a number of digits and dots, and the rest. */
  function Semver(s: string): string {
    var p := IndexFunc(s, NotSemverRune);
    ThreeParts(s[..p]) + Dashed(s[p..])
  }

  /** What is reported for the runtime version `v`. */
  function Reported(v: string): string {
    if "devel +" <= v then FirstWord(v[7..])
    else if "go1" <= FirstWord(v) then Semver(FirstWord(v)[2..])
    else "UNKNOWN"
  }

  method GoVersion(version: string) returns (s: string)
    ensures s == Reported(version)
  {
    s := version;
    if "devel +" <= s {
      s := s[7..];
      var p := IndexFunc(s, IsSpace);
      if p < |s| {
        s := s[..p];
      }
      assert s == FirstWord(version[7..]);
      return;
    }
    var q := IndexFunc(s, IsSpace);
    if q < |s| {
      s := s[..q];
    }
    assert s == FirstWord(version);
    if "go1" <= s {
      s := s[2..];
      var prerelease := "";
      var p := IndexFunc(s, NotSemverRune);
      ghost var whole := s;
      if p < |s| {
        s, prerelease := s[..p], s[p..];
      }
      assert s == whole[..p] && prerelease == whole[p..];
      if s != "" && s[|s| - 1] == '.' {
        s := s + "0";
      } else if Dots(s) < 2 {
        s := s + ".0";
      }
      if prerelease != "" {
        if prerelease[0] != '-' {
          prerelease := "-" + prerelease;
        }
        s := s + prerelease;
      }
      return;
    }
    s := "UNKNOWN";
  }

  lemma FirstWordHasNoSpace(s: string)
    ensures NoSpace(FirstWord(s))
  {
  }

  lemma NoSpaceConcat(a: string, b: string)
    requires NoSpace(a) && NoSpace(b)
    ensures NoSpace(a + b)
  {
  }

  lemma LiteralsHaveNoSpace()
    ensures NoSpace("0") && NoSpace(".0") && NoSpace("-") && NoSpace("UNKNOWN")
  {
  }

  lemma SemverHasNoSpace(s: string)
    requires NoSpace(s)
    ensures NoSpace(Semver(s))
  {
  }

  /** Whatever the runtime says, there is no white space in the result. */
  lemma ReportedHasNoSpace(v: string)
    ensures NoSpace(Reported(v))
  {
    hide IsSpace, IndexFunc, FirstWord, Semver;
    LiteralsHaveNoSpace();
    if "devel +" <= v {
      FirstWordHasNoSpace(v[7..]);
    } else if "go1" <= FirstWord(v) {
      FirstWordHasNoSpace(v);
      SemverHasNoSpace(FirstWord(v)[2..]);
    }
  }

  /** So it can be reported next to any clean key and read back. */
  lemma ReportedIsLegalValue(key: string, v: string)
    requires ' ' !in key && '/' !in key
    ensures Parse(Header([key, Reported(v)])) == Some([key, Reported(v)])
  {
    ReportedHasNoSpace(v);
    HeaderRoundTrip([key, Reported(v)]);
  }

  predicate Digits(s: string) {
    s != "" && forall i :: 0 <= i < |s| ==> IsDigit(s[i])
  }

  predicate DigitsAndDots(s: string) {
    forall i :: 0 <= i < |s| ==> IsDigit(s[i]) || s[i] == '.'
  }

  lemma {:induction false} DotsOfDigits(s: string, tail: string)
    requires forall i :: 0 <= i < |s| ==> IsDigit(s[i])
    ensures Dots(s + tail) == Dots(tail)
  {
    if s == "" {
      assert s + tail == tail;
    } else {
      assert (s + tail)[1..] == s[1..] + tail;
      DotsOfDigits(s[1..], tail);
    }
  }

  lemma ThreePartsOf(minor: string, patch: Option<string>)
    requires Digits(minor) && (patch.Some? ==> Digits(patch.value))
    ensures ThreeParts("1." + minor + if patch.None? then "" else "." + patch.value) ==
            "1." + minor + "." + if patch.None? then "0" else patch.value
  {
    var end := if patch.None? then "" else "." + patch.value;
    var number := "1." + minor + end;
    assert number == "1" + ("." + (minor + end));
    DotsOfDigits("1", "." + (minor + end));
    assert ("." + (minor + end))[1..] == minor + end;
    DotsOfDigits(minor, end);
    if patch.Some? {
      assert end[1..] == patch.value;
      DotsOfDigits(patch.value, "");
      assert patch.value + "" == patch.value;
    }
  }

  /** The digits and dots after "go1" and the prerelease behind them are told apart. */
  lemma ReportedParts(number: string, prerelease: string, more: string)
    requires "1" <= number && NoSpace(number) && forall i :: 0 <= i < |number| ==> !NotSemverRune(number[i])
    requires NoSpace(prerelease) && (prerelease == "" || NotSemverRune(prerelease[0]))
    requires more == "" || IsSpace(more[0])
    ensures Reported("go" + number + prerelease + more) == ThreeParts(number) + Dashed(prerelease)
  {
    var word := "go" + (number + prerelease);
    assert NoSpace(word) by {
      assert NoSpace("go");
      NoSpaceConcat(number, prerelease);
      NoSpaceConcat("go", number + prerelease);
    }
    hide IsSpace, ThreeParts, Dashed, IndexFunc, NotSemverRune;
    assert "go" + number + prerelease + more == word + more;
    IndexFuncIs(word, more, IsSpace);
    FirstWordIs(word, more);
    IndexFuncIs(number, prerelease, NotSemverRune);
    assert (number + prerelease)[..|number|] == number && (number + prerelease)[|number|..] == prerelease;
  }

  lemma FirstWordIs(word: string, more: string)
    requires IndexFunc(word + more, IsSpace) == |word|
    ensures FirstWord(word + more) == word
    ensures word != "" && word[0] == 'g' ==> !("devel +" <= word + more)
  {
  }

  /**
   A released version `go1.minor[.patch][prerelease]`, perhaps followed by a space and more: the patch defaults to 0
   and the prerelease has exactly one dash put before it when it does not start with one.
   */
  lemma ReleasedVersion(minor: string, patch: Option<string>, prerelease: string, more: string)
    requires Digits(minor) && (patch.Some? ==> Digits(patch.value))
    requires NoSpace(prerelease) && (prerelease == "" || NotSemverRune(prerelease[0]))
    requires more == "" || IsSpace(more[0])
    ensures var number := "1." + minor + if patch.None? then "" else "." + patch.value;
            Reported("go" + number + prerelease + more) ==
            "1." + minor + "." + (if patch.None? then "0" else patch.value)
            + if prerelease == "" || prerelease[0] == '-' then prerelease else "-" + prerelease
  {
    NumberOf(minor, patch);
    ThreePartsOf(minor, patch);
    ReportedParts("1." + minor + if patch.None? then "" else "." + patch.value, prerelease, more);
  }

  /**
   The versions that are not of that form, all cut off at the first white space: a development version keeps what
   follows "devel +", "go1" is completed to "1.0", a number that ends in a dot gets a 0, and anything else is not known.
   */
  lemma OtherVersions(word: string, more: string)
    requires NoSpace(word) && (more == "" || IsSpace(more[0]))
    ensures Reported("devel +" + word + more) == word
    ensures Reported("go1" + more) == "1.0"
    ensures "1" <= word && word[|word| - 1] == '.' && DigitsAndDots(word) ==> Reported("go" + word + more) == word + "0"
    ensures !("go1" <= word) && !("devel +" <= word + more) ==> Reported(word + more) == "UNKNOWN"
  {
    DevelVersion(word, more);
    BareVersion(more);
    if "1" <= word && word[|word| - 1] == '.' && DigitsAndDots(word) {
      DottedVersion(word, more);
    }
    UnknownVersion(word, more);
  }

  lemma DevelVersion(word: string, more: string)
    requires NoSpace(word) && (more == "" || IsSpace(more[0]))
    ensures Reported("devel +" + word + more) == word
  {
    hide IsSpace, IndexFunc, Semver;
    assert ("devel +" + word + more)[7..] == word + more;
    IndexFuncIs(word, more, IsSpace);
    FirstWordIs(word, more);
  }

  lemma BareVersion(more: string)
    requires more == "" || IsSpace(more[0])
    ensures Reported("go1" + more) == "1.0"
  {
    GoOneHasNoSpace();
    OneIsOneDotZero();
    hide IsSpace, IndexFunc, ThreeParts, Reported, NotSemverRune;
    assert "go" + "1" + "" + more == "go1" + more;
    ReportedParts("1", "", more);
  }

  lemma DottedVersion(word: string, more: string)
    requires NoSpace(word) && (more == "" || IsSpace(more[0]))
    requires "1" <= word && word[|word| - 1] == '.' && DigitsAndDots(word)
    ensures Reported("go" + word + more) == word + "0"
  {
    assert "go" + word + "" + more == "go" + word + more;
    TrailingDot(word);
    assert forall i :: 0 <= i < |word| ==> !NotSemverRune(word[i]);
    hide IsSpace, IndexFunc, ThreeParts, Reported, NotSemverRune;
    ReportedParts(word, "", more);
  }

  lemma UnknownVersion(word: string, more: string)
    requires NoSpace(word) && (more == "" || IsSpace(more[0]))
    ensures !("go1" <= word) && !("devel +" <= word + more) ==> Reported(word + more) == "UNKNOWN"
  {
    hide IsSpace, IndexFunc, Semver;
    IndexFuncIs(word, more, IsSpace);
    FirstWordIs(word, more);
  }

  lemma GoOneHasNoSpace()
    ensures NoSpace("1") && !NotSemverRune('1')
  {
  }

  lemma OneIsOneDotZero()
    ensures ThreeParts("1") == "1.0"
  {
    DotsOfDigits("1", "");
    assert "1" + "" == "1";
  }

  lemma TrailingDot(number: string)
    requires number != "" && number[|number| - 1] == '.'
    ensures ThreeParts(number) == number + "0"
  {
  }

  lemma NumberOf(minor: string, patch: Option<string>)
    requires Digits(minor) && (patch.Some? ==> Digits(patch.value))
    ensures var number := "1." + minor + if patch.None? then "" else "." + patch.value;
            NoSpace(number) && forall i :: 0 <= i < |number| ==> !NotSemverRune(number[i])
  {
  }
}
