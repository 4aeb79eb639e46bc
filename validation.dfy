/**
 * Input validation for registration requests: the workstation name must be a
 * host-name label (section 2.3.1 of RFC 1035, as relaxed by section 2.1 of
 * RFC 1123) of at least three characters, and the address dotted-decimal IPv4
 * text. The request body is untyped JSON, so each field is an `Option`: `None`
 * stands for a missing field or one that is not a string.
 */
module Validation {
  import opened Wrappers
  import opened Types

  /** Outcome of a single field check: `{ valid: true }` or `{ valid: false, error }`. */
  datatype Verdict = Valid | Invalid(error: string)

  /** Outcome of the request check; a failure also carries an error code. */
  datatype RequestVerdict = Accepted | Rejected(error: string, code: ErrorCode)

  /** The body of a registration request. */
  datatype RegistrationRequest = RegistrationRequest(name: Option<string>, ip: Option<string>)

  const NameRequiredError := "Name is required and must be a string"
  const NameLengthError := "Name must be between 3 and 63 characters"
  const NameFormatError := "Name must start and end with alphanumeric characters and can contain hyphens"
  const IpRequiredError := "IP address is required and must be a string"
  const IpFormatError := "Invalid IPv4 address format"
  const IpRangeError := "IPv4 address octets must be between 0 and 255"

  // ---------------------------------------------------------------------
  // Character classes
  // ---------------------------------------------------------------------

  predicate IsDigit(c: char) {
    '0' <= c <= '9'
  }

  /** `[a-z0-9]` under the case-insensitive flag: ASCII letters of either case and digits. */
  predicate IsAlnum(c: char) {
    'a' <= c <= 'z' || 'A' <= c <= 'Z' || IsDigit(c)
  }

  /** `[a-z0-9-]` under the case-insensitive flag: letters, digits and hyphen. */
  predicate IsLdh(c: char) {
    IsAlnum(c) || c == '-'
  }

  // ---------------------------------------------------------------------
  // Splitting text at a separator
  // ---------------------------------------------------------------------

  /** The pieces of `s` between occurrences of `sep` (always at least one piece). */
  function Split(s: string, sep: char): (parts: seq<string>)
    ensures |parts| >= 1
    decreases |s|
  {
    if s == [] then [[]]
    else
      var rest := Split(s[1..], sep);
      if s[0] == sep then [[]] + rest
      else [[s[0]] + rest[0]] + rest[1..]
  }

  /** The pieces joined back together with `sep` between neighbours. */
  function Join(parts: seq<string>, sep: char): string
    requires |parts| >= 1
    decreases |parts|
  {
    if |parts| == 1 then parts[0] else parts[0] + [sep] + Join(parts[1..], sep)
  }

  /** Joining the pieces of a split gives back the text. */
  lemma {:induction false} JoinSplit(s: string, sep: char)
    ensures Join(Split(s, sep), sep) == s
    decreases |s|
  {
    if s != [] {
      var rest := Split(s[1..], sep);
      JoinSplit(s[1..], sep);
      if s[0] == sep {
        assert Split(s, sep) == [[]] + rest;
        assert ([[]] + rest)[1..] == rest;
        assert [s[0]] + s[1..] == s;
      } else {
        var parts := [[s[0]] + rest[0]] + rest[1..];
        assert Split(s, sep) == parts;
        if |rest| == 1 {
          assert Join(parts, sep) == [s[0]] + rest[0];
        } else {
          assert parts[1..] == rest[1..];
          assert Join(rest, sep) == rest[0] + [sep] + Join(rest[1..], sep);
          assert Join(parts, sep) == [s[0]] + rest[0] + [sep] + Join(rest[1..], sep);
        }
        assert [s[0]] + s[1..] == s;
      }
    }
  }

  /** Text without the separator splits into itself alone. */
  lemma {:induction false} SplitWithoutSeparator(a: string, sep: char)
    requires sep !in a
    ensures Split(a, sep) == [a]
    decreases |a|
  {
    if a != [] {
      SplitWithoutSeparator(a[1..], sep);
      assert [a[0]] + a[1..] == a;
    }
  }

  /** A separator-free prefix followed by the separator comes off as the first piece. */
  lemma {:induction false} SplitAfterPrefix(a: string, sep: char, s: string)
    requires sep !in a
    ensures Split(a + [sep] + s, sep) == [a] + Split(s, sep)
    decreases |a|
  {
    var t := a + [sep] + s;
    if a == [] {
      assert t[0] == sep && t[1..] == s;
    } else {
      assert t[0] == a[0] && t[1..] == a[1..] + [sep] + s;
      SplitAfterPrefix(a[1..], sep, s);
      assert [a[0]] + a[1..] == a;
      assert ([a[1..]] + Split(s, sep))[1..] == Split(s, sep);
    }
  }

  /** Splitting separator-free pieces joined by the separator gives the pieces back. */
  lemma {:induction false} SplitJoin(parts: seq<string>, sep: char)
    requires |parts| >= 1
    requires forall k :: 0 <= k < |parts| ==> sep !in parts[k]
    ensures Split(Join(parts, sep), sep) == parts
    decreases |parts|
  {
    if |parts| == 1 {
      SplitWithoutSeparator(parts[0], sep);
    } else {
      SplitJoin(parts[1..], sep);
      SplitAfterPrefix(parts[0], sep, Join(parts[1..], sep));
      assert [parts[0]] + parts[1..] == parts;
    }
  }

  // ---------------------------------------------------------------------
  // Workstation names
  // ---------------------------------------------------------------------

  /** The pattern `^[a-z0-9]([a-z0-9-]*[a-z0-9])?$`, case-insensitive. */
  predicate MatchesNamePattern(s: string) {
    |s| >= 1 && IsAlnum(s[0]) &&
    (|s| == 1 || (IsAlnum(s[|s| - 1]) && forall i :: 1 <= i < |s| - 1 ==> IsLdh(s[i])))
  }

  /**
   * `validateWorkstationName`: presence, then length, then the pattern. A
   * missing or empty name gets the required message, a length outside 3 to
   * 63 the length message, and a name of the right length that is not a
   * host-name label the format message.
   */
  function ValidateWorkstationName(name: Option<string>): (v: Verdict)
    ensures v.Valid? ==> name.Some? && 3 <= |name.value| <= 63
    ensures v.Valid? ==> forall i :: 0 <= i < |name.value| ==> IsLdh(name.value[i])
    ensures name.None? || name.value == [] ==> v == Invalid(NameRequiredError)
    ensures name.Some? && name.value != [] && (|name.value| < 3 || |name.value| > 63) ==> v == Invalid(NameLengthError)
    ensures name.Some? && 3 <= |name.value| <= 63 ==>
              (v == Invalid(NameFormatError) <==> !IsHostLabel(name.value)) &&
              (v.Valid? <==> IsHostLabel(name.value))
  {
    if name.None? || name.value == [] then Invalid(NameRequiredError)
    else if |name.value| < 3 || |name.value| > 63 then Invalid(NameLengthError)
    else
      PatternIsHostLabel(name.value);
      if !MatchesNamePattern(name.value) then Invalid(NameFormatError)
      else Valid
  }

  /** Within the length bounds, the name pattern matches exactly the host-name labels. */
  lemma PatternIsHostLabel(s: string)
    requires 1 <= |s| <= 63
    ensures MatchesNamePattern(s) <==> IsHostLabel(s)
  {
    if IsHostLabel(s) {
      assert IsAlnum(s[0]) && IsAlnum(s[|s| - 1]);
    }
  }

  /**
   * A host-name label as section 2.3.1 of RFC 1035 defines it and section 2.1
   * of RFC 1123 relaxes it: 1 to 63 letters, digits and hyphens, beginning and
   * ending with a letter or digit.
   */
  predicate IsHostLabel(s: string) {
    1 <= |s| <= 63 &&
    (forall i :: 0 <= i < |s| ==> IsLdh(s[i])) &&
    s[0] != '-' && s[|s| - 1] != '-'
  }

  /** A name is accepted exactly when it is a host-name label of at least three characters. */
  lemma NameIsHostLabel(s: string)
    ensures ValidateWorkstationName(Some(s)).Valid? <==> IsHostLabel(s) && |s| >= 3
  {
    if IsHostLabel(s) && |s| >= 3 {
      assert IsAlnum(s[0]) && IsAlnum(s[|s| - 1]);
    }
  }

  /** A name beginning or ending with a hyphen is refused. */
  lemma HyphenAtEitherEndRejected(s: string)
    requires |s| >= 1 && (s[0] == '-' || s[|s| - 1] == '-')
    ensures ValidateWorkstationName(Some(s)).Invalid?
  {
    NameIsHostLabel(s);
  }

  /** A name holding an underscore, dot, space or `@` anywhere is refused. */
  lemma ForeignCharacterRejected(s: string, i: int)
    requires 0 <= i < |s| && s[i] in {'_', '.', ' ', '@'}
    ensures ValidateWorkstationName(Some(s)).Invalid?
  {
    assert !IsLdh(s[i]);
  }

  // ---------------------------------------------------------------------
  // IPv4 addresses
  // ---------------------------------------------------------------------

  /** `\d{1,3}`: one to three ASCII digits. */
  predicate IsDigitGroup(g: string) {
    1 <= |g| <= 3 && forall i :: 0 <= i < |g| ==> IsDigit(g[i])
  }

  /** `parseInt(g, 10)` on a digit string: its decimal value, leading zeros allowed. */
  function DecimalValue(g: string): nat
    decreases |g|
  {
    if g == [] then 0
    else DecimalValue(g[..|g| - 1]) * 10 + ((g[|g| - 1] as int - '0' as int) % 10)
  }

  /**
   * The four captures of `^(\d{1,3})\.(\d{1,3})\.(\d{1,3})\.(\d{1,3})$`, or
   * `None` when the text does not match.
   */
  function DottedQuadGroups(s: string): (groups: Option<seq<string>>)
    ensures groups.Some? ==> |groups.value| == 4 && Join(groups.value, '.') == s
    ensures groups.Some? ==> forall k :: 0 <= k < 4 ==> IsDigitGroup(groups.value[k])
  {
    JoinSplit(s, '.');
    var parts := Split(s, '.');
    if |parts| == 4 && forall k :: 0 <= k < 4 ==> IsDigitGroup(parts[k]) then Some(parts) else None
  }

  /** Conversely, any four digit groups joined by dots match the pattern, with those groups. */
  lemma DigitGroupsMatch(gs: seq<string>)
    requires |gs| == 4 && forall k :: 0 <= k < 4 ==> IsDigitGroup(gs[k])
    ensures DottedQuadGroups(Join(gs, '.')) == Some(gs)
  {
    forall k | 0 <= k < 4 ensures '.' !in gs[k] {
      assert forall i :: 0 <= i < |gs[k]| ==> gs[k][i] != '.';
    }
    SplitJoin(gs, '.');
  }

  /**
   * `validateIpv4`: presence, then the dotted-quad pattern, then each octet
   * at most 255. A missing or empty address gets the required message, text
   * that does not match the pattern the format message, and a match with an
   * octet over 255 the range message. An accepted address is 7 to 15
   * characters long.
   */
  function ValidateIpv4(ip: Option<string>): (v: Verdict)
    ensures ip.None? || ip.value == [] ==> v == Invalid(IpRequiredError)
    ensures v.Invalid? ==> v.error == IpRequiredError || v.error == IpFormatError || v.error == IpRangeError
    ensures ip.Some? && ip.value != [] ==> (v == Invalid(IpFormatError) <==> DottedQuadGroups(ip.value).None?)
    ensures ip.Some? && ip.value != [] && DottedQuadGroups(ip.value).Some? ==>
              (v == Invalid(IpRangeError) <==> exists k :: 0 <= k < 4 && DecimalValue(DottedQuadGroups(ip.value).value[k]) > 255)
    ensures v.Valid? ==> ip.Some? && 7 <= |ip.value| <= 15
  {
    if ip.None? || ip.value == [] then Invalid(IpRequiredError)
    else
      match DottedQuadGroups(ip.value)
      case None => Invalid(IpFormatError)
      case Some(groups) =>
        if exists k :: 0 <= k < 4 && OctetOutOfRange(groups[k]) then Invalid(IpRangeError)
        else
          JoinOfFourLength(groups, '.');
          Valid
  }

  /** Four pieces joined with a separator: their lengths plus three separators. */
  lemma JoinOfFourLength(gs: seq<string>, sep: char)
    requires |gs| == 4
    ensures |Join(gs, sep)| == |gs[0]| + |gs[1]| + |gs[2]| + |gs[3]| + 3
  {
    assert gs[1..][1..] == gs[2..];
    assert gs[2..][1..] == gs[3..];
    assert Join(gs[3..], sep) == gs[3];
    assert Join(gs[2..], sep) == gs[2] + [sep] + gs[3];
    assert Join(gs[1..], sep) == gs[1] + [sep] + Join(gs[2..], sep);
  }

  /** The octet test `octet < 0 || octet > 255`; the first half can never hold, since digits parse to a natural number. */
  predicate OctetOutOfRange(g: string) {
    var octet: int := DecimalValue(g);
    octet < 0 || octet > 255
  }

  /** The text of an octet: one to three digits whose value is at most 255. */
  predicate IsOctetText(g: string) {
    IsDigitGroup(g) && DecimalValue(g) <= 255
  }

  /**
   * An address is accepted exactly when it is four octet texts joined by dots
   * (leading zeros allowed).
   */
  lemma Ipv4Characterization(s: string)
    ensures ValidateIpv4(Some(s)).Valid? <==>
            exists gs :: |gs| == 4 && (forall k :: 0 <= k < 4 ==> IsOctetText(gs[k])) && Join(gs, '.') == s
  {
    if ValidateIpv4(Some(s)).Valid? {
      AcceptedAddressIsDottedQuad(s);
    }
    if exists gs :: |gs| == 4 && (forall k :: 0 <= k < 4 ==> IsOctetText(gs[k])) && Join(gs, '.') == s {
      var gs :| |gs| == 4 && (forall k :: 0 <= k < 4 ==> IsOctetText(gs[k])) && Join(gs, '.') == s;
      DottedQuadIsAccepted(gs, s);
    }
  }

  /** An accepted address splits into four octet texts that join back to it. */
  lemma AcceptedAddressIsDottedQuad(s: string)
    requires ValidateIpv4(Some(s)).Valid?
    ensures var gs := DottedQuadGroups(s).value;
            |gs| == 4 && (forall k :: 0 <= k < 4 ==> IsOctetText(gs[k])) && Join(gs, '.') == s
  {
    var gs := DottedQuadGroups(s).value;
    forall k | 0 <= k < 4 ensures IsOctetText(gs[k]) {
      assert !OctetOutOfRange(gs[k]);
    }
  }

  /** Four octet texts joined by dots are accepted. */
  lemma DottedQuadIsAccepted(gs: seq<string>, s: string)
    requires |gs| == 4 && forall k :: 0 <= k < 4 ==> IsOctetText(gs[k])
    requires Join(gs, '.') == s
    ensures ValidateIpv4(Some(s)).Valid?
  {
    forall k | 0 <= k < 4 ensures '.' !in gs[k] {
      assert forall i :: 0 <= i < |gs[k]| ==> gs[k][i] != '.';
    }
    SplitJoin(gs, '.');
    assert s != [] by {
      assert |gs[0]| >= 1;
      assert s == gs[0] + ['.'] + Join(gs[1..], '.');
    }
    assert DottedQuadGroups(s) == Some(gs);
  }

  // ---------------------------------------------------------------------
  // The registration request
  // ---------------------------------------------------------------------

  /** `validateRegistrationRequest`: the name first, then the address; the first failure wins. */
  function ValidateRegistrationRequest(req: RegistrationRequest): (v: RequestVerdict)
    ensures v.Accepted? <==> ValidateWorkstationName(req.name).Valid? && ValidateIpv4(req.ip).Valid?
    ensures v.Rejected? ==> v.code == InvalidInput
    ensures ValidateWorkstationName(req.name).Invalid? ==> v == Rejected(ValidateWorkstationName(req.name).error, InvalidInput)
    ensures ValidateWorkstationName(req.name).Valid? && ValidateIpv4(req.ip).Invalid? ==>
              v == Rejected(ValidateIpv4(req.ip).error, InvalidInput)
  {
    match ValidateWorkstationName(req.name)
    case Invalid(e) => Rejected(e, InvalidInput)
    case Valid =>
      match ValidateIpv4(req.ip)
      case Invalid(e) => Rejected(e, InvalidInput)
      case Valid => Accepted
  }

  /** The domain derived for a name under a base domain, as the DNS registrar forms it. */
  function DerivedDomain(name: string, baseDomain: string): string {
    name + "." + baseDomain
  }

  /** An accepted name is exactly the first label of the domain derived from it. */
  lemma AcceptedNameIsFirstLabel(name: string, baseDomain: string)
    requires ValidateWorkstationName(Some(name)).Valid?
    ensures Split(DerivedDomain(name, baseDomain), '.')[0] == name
  {
    assert forall i :: 0 <= i < |name| ==> name[i] != '.';
    SplitAfterPrefix(name, '.', baseDomain);
    assert DerivedDomain(name, baseDomain) == name + ['.'] + baseDomain;
  }
}
