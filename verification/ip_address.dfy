/** The textual address validators of `dns.hpp`: `is_ipv4_address` and `is_ipv6_address`,
    both `std::regex_match` (whole-string) tests.

    Each regular expression is modelled as a predicate over the fields of the string: the
    IPv4 pattern over the '.'-separated fields, the IPv6 pattern over the ':'-separated fields,
    one predicate per alternative of the pattern. A group of the form `([0-9a-fA-F]{1,4}:)`
    contributes one non-empty hexadecimal field, and each "::" contributes one empty field. */
module IpAddress {
  import opened Text

  // ---------------------------------------------------------------------------------------
  // IPv4: ([0-9]{1,3})\.([0-9]{1,3})\.([0-9]{1,3})\.([0-9]{1,3})

  /** `[0-9]{1,3}`: one to three ASCII digits, with no range limit. */
  predicate IsDecimalGroup(s: string) {
    1 <= |s| <= 3 && AllDigits(s)
  }

  /** `is_ipv4_address`: four decimal groups separated by single dots. */
  predicate IsIPv4Address(address: string) {
    var fields := Split(address, '.');
    |fields| == 4 && forall i :: 0 <= i < 4 ==> IsDecimalGroup(fields[i])
  }

  /** Any four groups of 1-3 digits joined by dots pass the IPv4 check ... */
  lemma IPv4FromGroups(groups: seq<string>)
    requires |groups| == 4
    requires forall i :: 0 <= i < 4 ==> IsDecimalGroup(groups[i])
    ensures IsIPv4Address(Join(groups, '.'))
  {
    forall i | 0 <= i < 4 ensures '.' !in groups[i] {
      assert IsDecimalGroup(groups[i]);
    }
    SplitJoin(groups, '.');
  }

  /** ... and every string passing it is such a join. */
  lemma IPv4IsGroups(address: string)
    requires IsIPv4Address(address)
    ensures var groups := Split(address, '.');
      && |groups| == 4
      && (forall i :: 0 <= i < 4 ==> IsDecimalGroup(groups[i]))
      && address == Join(groups, '.')
  {
    JoinSplit(address, '.');
  }

  /** An IPv4 text never contains a colon. */
  lemma IPv4HasNoColon(address: string)
    requires IsIPv4Address(address)
    ensures ':' !in address
  {
    var groups := Split(address, '.');
    JoinSplit(address, '.');
    forall i | 0 <= i < |groups| ensures ':' !in groups[i] {
      assert IsDecimalGroup(groups[i]);
    }
    JoinAvoids(groups, '.', ':');
  }

  /** A character that is not the separator and occurs in no field does not occur in the
      join. */
  lemma {:induction false} JoinAvoids(fields: seq<string>, sep: char, c: char)
    requires |fields| >= 1 && c != sep
    requires forall i :: 0 <= i < |fields| ==> c !in fields[i]
    ensures c !in Join(fields, sep)
    decreases |fields|
  {
    if |fields| > 1 {
      JoinAvoids(fields[1..], sep, c);
    }
  }

  /** The pattern limits the length of each group, never its value: "999.999.999.999"
      passes. */
  lemma IPv4AcceptsOutOfRangeGroups()
    ensures IsIPv4Address("999.999.999.999")
  {
    assert Join(["999", "999", "999", "999"], '.') == "999.999.999.999";
    IPv4FromGroups(["999", "999", "999", "999"]);
  }

  /** Three groups are too few. */
  lemma IPv4RejectsThreeGroups()
    ensures !IsIPv4Address("1.2.3")
  {
    assert Join(["1", "2", "3"], '.') == "1.2.3";
    SplitJoin(["1", "2", "3"], '.');
  }

  /** Five groups are too many. */
  lemma IPv4RejectsFiveGroups()
    ensures !IsIPv4Address("1.2.3.4.5")
  {
    assert Join(["1", "2", "3", "4", "5"], '.') == "1.2.3.4.5";
    SplitJoin(["1", "2", "3", "4", "5"], '.');
  }

  /** A group of four digits is too long. */
  lemma IPv4RejectsLongGroup()
    ensures !IsIPv4Address("1234.1.1.1")
  {
    assert Join(["1234", "1", "1", "1"], '.') == "1234.1.1.1";
    SplitJoin(["1234", "1", "1", "1"], '.');
    assert !IsDecimalGroup("1234");
  }

  // ---------------------------------------------------------------------------------------
  // IPv6

  /** `[0-9a-fA-F]{1,4}`: one to four hexadecimal digits in either case. */
  predicate IsHexGroup(s: string) {
    1 <= |s| <= 4 && AllHexDigits(s)
  }

  /** `25[0-5]|(2[0-4]|1{0,1}[0-9]){0,1}[0-9]`: one dotted octet of an embedded IPv4 tail. */
  predicate IsOctet(s: string) {
    || (|s| == 3 && s[0] == '2' && s[1] == '5' && '0' <= s[2] <= '5')
    || (|s| >= 1 && IsDigit(s[|s| - 1]) && IsOctetLead(s[..|s| - 1]))
  }

  /** `(2[0-4]|1{0,1}[0-9]){0,1}`: what may precede the last digit of an octet. */
  predicate IsOctetLead(p: string) {
    || |p| == 0
    || (|p| == 1 && IsDigit(p[0]))
    || (|p| == 2 && p[0] == '2' && '0' <= p[1] <= '4')
    || (|p| == 2 && p[0] == '1' && IsDigit(p[1]))
  }

  /** `((octet)\.){3,3}(octet)`: four octets separated by single dots. */
  predicate IsDottedQuad(s: string) {
    var octets := Split(s, '.');
    |octets| == 4 && forall i :: 0 <= i < 4 ==> IsOctet(octets[i])
  }

  /** `([h]{1,4}:){7,7}[h]{1,4}`: eight groups, the full form. */
  predicate IsFullForm(f: seq<string>) {
    |f| == 8 && forall i :: 0 <= i < 8 ==> IsHexGroup(f[i])
  }

  /** The first k fields are hexadecimal groups. */
  predicate GroupsBefore(f: seq<string>, k: int) {
    0 <= k <= |f| && forall i :: 0 <= i < k ==> IsHexGroup(f[i])
  }

  /** The fields from position k on are hexadecimal groups. */
  predicate GroupsFrom(f: seq<string>, k: int) {
    0 <= k <= |f| && forall i :: k <= i < |f| ==> IsHexGroup(f[i])
  }

  /** `([h]{1,4}:){1,7}:`: one to seven groups, then "::" at the end. */
  predicate IsTrailingCompressed(f: seq<string>) {
    exists k :: 1 <= k <= 7 && |f| == k + 2 && GroupsBefore(f, k) && f[k] == "" && f[k + 1] == ""
  }

  /** `([h]{1,4}:){1,K}(:[h]{1,4}){1,M}`: one to K groups, "::", one to M groups.
      The alternative `([h]{1,4}:){1,6}:[h]{1,4}` is the case K = 6, M = 1 and
      `[h]{1,4}:((:[h]{1,4}){1,6})` the case K = 1, M = 6. */
  predicate IsMiddleCompressed(f: seq<string>, maxBefore: nat, maxAfter: nat) {
    exists k :: 1 <= k <= maxBefore && k < |f| && 1 <= |f| - k - 1 <= maxAfter
      && GroupsBefore(f, k) && f[k] == "" && GroupsFrom(f, k + 1)
  }

  /** `:((:[h]{1,4}){1,7}|:)`: "::" alone, or "::" followed by one to seven groups. */
  predicate IsLeadingCompressed(f: seq<string>) {
    && |f| >= 3 && f[0] == "" && f[1] == ""
    && ((|f| == 3 && f[2] == "") || (|f| <= 9 && GroupsFrom(f, 2)))
  }

  /** `fe80:(:[h]{0,4}){0,4}%[0-9a-zA-Z]{1,}`: a link-local prefix with up to four further
      (possibly empty) groups and a non-empty alphanumeric zone index. */
  predicate IsLinkLocalWithZone(address: string) {
    var parts := Split(address, '%');
    && |parts| == 2
    && |parts[1]| >= 1 && AllAlphaNumeric(parts[1])
    && var f := Split(parts[0], ':');
    && 2 <= |f| <= 6 && f[0] == "fe80" && f[1] == ""
    && forall i :: 2 <= i < |f| ==> |f[i]| <= 4 && AllHexDigits(f[i])
  }

  /** `::(ffff(:0{1,4}){0,1}:){0,1}(quad)`: "::", an optional "ffff:" or "ffff:0…0:" and a
      dotted IPv4 tail (the IPv4-mapped form of section 2.5.5.2 of RFC 4291). */
  predicate IsMappedIPv4(f: seq<string>) {
    && |f| >= 3 && f[0] == "" && f[1] == "" && IsDottedQuad(f[|f| - 1])
    && (|| |f| == 3
        || (|f| == 4 && f[2] == "ffff")
        || (|f| == 5 && f[2] == "ffff" && IsZeroRun(f[3])))
  }

  /** `0{1,4}` */
  predicate IsZeroRun(s: string) {
    1 <= |s| <= 4 && forall i :: 0 <= i < |s| ==> s[i] == '0'
  }

  /** `([h]{1,4}:){1,4}:(quad)`: one to four groups, "::", a dotted IPv4 tail. */
  predicate IsCompressedIPv4(f: seq<string>) {
    exists k :: 1 <= k <= 4 && |f| == k + 2 && GroupsBefore(f, k) && f[k] == "" && IsDottedQuad(f[k + 1])
  }

  /** `is_ipv6_address`: the whole string matches one of the alternatives of the pattern.
      The alternatives made only of groups and "::" are collected in `IsPlainForm`. */
  predicate IsIPv6Address(address: string) {
    var f := Split(address, ':');
    || IsPlainForm(f)
    || IsLinkLocalWithZone(address)
    || IsMappedIPv4(f)
    || IsCompressedIPv4(f)
  }

  /** The first nine alternatives of the pattern, in order. */
  predicate IsPlainForm(f: seq<string>) {
    || IsFullForm(f)
    || IsTrailingCompressed(f)
    || IsMiddleCompressed(f, 6, 1)
    || IsMiddleCompressed(f, 5, 2)
    || IsMiddleCompressed(f, 4, 3)
    || IsMiddleCompressed(f, 3, 4)
    || IsMiddleCompressed(f, 2, 5)
    || IsMiddleCompressed(f, 1, 6)
    || IsLeadingCompressed(f)
  }

  // ---------------------------------------------------------------------------------------
  // Properties of the IPv6 pattern

  /** The full form of section 2.2 of RFC 4291: any eight groups of 1-4 hexadecimal digits
      (either case) joined by colons pass. */
  lemma IPv6FullFormAccepted(groups: seq<string>)
    requires |groups| == 8
    requires forall i :: 0 <= i < 8 ==> IsHexGroup(groups[i])
    ensures IsIPv6Address(Join(groups, ':'))
  {
    forall i | 0 <= i < 8 ensures ':' !in groups[i] {
      assert IsHexGroup(groups[i]);
      assert !IsHexDigit(':');
    }
    SplitJoin(groups, ':');
  }

  /** The unspecified address "::" and the loopback address "::1" pass through the
      leading-"::" alternative. */
  lemma IPv6CompressedExamples()
    ensures IsIPv6Address("::")
    ensures IsIPv6Address("::1")
  {
    assert Join(["", "", ""], ':') == "::";
    SplitJoin(["", "", ""], ':');
    assert Join(["", "", "1"], ':') == "::1";
    SplitJoin(["", "", "1"], ':');
    assert IsLeadingCompressed(["", "", "1"]) by {
      assert IsHexGroup(["", "", "1"][2]);
    }
  }

  /** A link-local address "fe80:" followed by up to four ":"-groups of 0-4 hexadecimal
      digits and a non-empty alphanumeric zone index passes. */
  lemma IPv6LinkLocalAccepted(groups: seq<string>, zone: string)
    requires |groups| <= 4
    requires forall i :: 0 <= i < |groups| ==> |groups[i]| <= 4 && AllHexDigits(groups[i])
    requires |zone| >= 1 && AllAlphaNumeric(zone)
    ensures IsIPv6Address(Join(["fe80", ""] + groups, ':') + "%" + zone)
  {
    var fields := ["fe80", ""] + groups;
    var prefix := Join(fields, ':');
    forall i | 0 <= i < |fields| ensures ':' !in fields[i] && '%' !in fields[i] {
      if i >= 2 {
        assert fields[i] == groups[i - 2];
        assert !IsHexDigit(':') && !IsHexDigit('%');
      }
    }
    SplitJoin(fields, ':');
    JoinAvoids(fields, ':', '%');
    assert ':' !in zone && '%' !in zone by {
      assert !IsAlphaNumeric(':') && !IsAlphaNumeric('%');
    }
    assert Join([prefix, zone], '%') == prefix + "%" + zone;
    SplitJoin([prefix, zone], '%');
    assert IsLinkLocalWithZone(prefix + "%" + zone);
  }

  /** Every field of a plain form is either empty (one side of a "::") or a group, and
      there are at least two fields. */
  lemma PlainFormFields(f: seq<string>)
    requires IsPlainForm(f)
    ensures |f| >= 2
    ensures forall i :: 0 <= i < |f| ==> f[i] == "" || IsHexGroup(f[i])
  {
    if IsTrailingCompressed(f) {
      var k :| 1 <= k <= 7 && |f| == k + 2 && GroupsBefore(f, k) && f[k] == "" && f[k + 1] == "";
    } else if IsMiddleCompressed(f, 6, 1) {
      MiddleCompressedFields(f, 6, 1);
    } else if IsMiddleCompressed(f, 5, 2) {
      MiddleCompressedFields(f, 5, 2);
    } else if IsMiddleCompressed(f, 4, 3) {
      MiddleCompressedFields(f, 4, 3);
    } else if IsMiddleCompressed(f, 3, 4) {
      MiddleCompressedFields(f, 3, 4);
    } else if IsMiddleCompressed(f, 2, 5) {
      MiddleCompressedFields(f, 2, 5);
    } else if IsMiddleCompressed(f, 1, 6) {
      MiddleCompressedFields(f, 1, 6);
    }
  }

  lemma MiddleCompressedFields(f: seq<string>, maxBefore: nat, maxAfter: nat)
    requires IsMiddleCompressed(f, maxBefore, maxAfter)
    ensures |f| >= 3
    ensures forall i :: 0 <= i < |f| ==> f[i] == "" || IsHexGroup(f[i])
  {
    var k :| 1 <= k <= maxBefore && k < |f| && 1 <= |f| - k - 1 <= maxAfter
      && GroupsBefore(f, k) && f[k] == "" && GroupsFrom(f, k + 1);
  }

  /** A string with a non-hexadecimal character is not a run of hexadecimal digits. */
  lemma NotAllHex(s: string, j: int)
    requires 0 <= j < |s| && !IsHexDigit(s[j])
    ensures !AllHexDigits(s)
  {
  }

  /** The ':'-fields of a link-local text with a zone index: the fields of the part before
      '%' are at most four characters long, and the zone index lands on the last field. */
  lemma LinkLocalFields(address: string)
    requires IsLinkLocalWithZone(address)
    ensures var f := Split(address, ':');
      && |f| >= 2
      && (forall i :: 0 <= i < |f| - 1 ==> |f[i]| <= 4 && '.' !in f[i])
      && '%' in f[|f| - 1] && '.' !in f[|f| - 1]
  {
    var parts := Split(address, '%');
    var prefix, zone := parts[0], parts[1];
    JoinSplit(address, '%');
    JoinTwo(parts, '%');
    assert address == prefix + ("%" + zone);
    ZoneFields(prefix, zone);
  }

  /** The ':'-fields of `fe80:…` followed by `%zone`. */
  lemma ZoneFields(prefix: string, zone: string)
    requires var pf := Split(prefix, ':');
      && |pf| >= 2 && pf[0] == "fe80" && pf[1] == ""
      && forall i :: 2 <= i < |pf| ==> |pf[i]| <= 4 && AllHexDigits(pf[i])
    requires |zone| >= 1 && AllAlphaNumeric(zone)
    ensures var f := Split(prefix + ("%" + zone), ':');
      && |f| >= 2
      && (forall i :: 0 <= i < |f| - 1 ==> |f[i]| <= 4 && '.' !in f[i])
      && '%' in f[|f| - 1] && '.' !in f[|f| - 1]
  {
    var pf := Split(prefix, ':');
    var suffix := "%" + zone;
    ZoneSuffixClean(zone);
    SplitAppend(prefix, suffix, ':');
    PrefixFieldsClean(pf);
    var f := Split(prefix + suffix, ':');
    assert f == pf[..|pf| - 1] + [pf[|pf| - 1] + suffix];
    forall i | 0 <= i < |f| - 1 ensures |f[i]| <= 4 && '.' !in f[i] {
      assert f[i] == pf[i];
    }
    var last := f[|f| - 1];
    assert last == pf[|pf| - 1] + suffix;
    assert last[|pf[|pf| - 1]|] == '%';
    assert forall c :: c in last ==> c in pf[|pf| - 1] || c in suffix;
  }

  /** Two fields joined: the first, the separator, the second. */
  lemma JoinTwo(parts: seq<string>, sep: char)
    requires |parts| == 2
    ensures Join(parts, sep) == parts[0] + [sep] + parts[1]
  {
    assert parts[1..] == [parts[1]];
  }

  /** The fields before the zone index are at most four characters long and hold no dot. */
  lemma PrefixFieldsClean(pf: seq<string>)
    requires |pf| >= 2 && pf[0] == "fe80" && pf[1] == ""
    requires forall i :: 2 <= i < |pf| ==> |pf[i]| <= 4 && AllHexDigits(pf[i])
    ensures forall i :: 0 <= i < |pf| ==> |pf[i]| <= 4 && '.' !in pf[i]
  {
    assert !IsHexDigit('.');
  }

  /** "%" followed by an alphanumeric zone index holds neither a colon nor a dot. */
  lemma ZoneSuffixClean(zone: string)
    requires AllAlphaNumeric(zone)
    ensures ':' !in "%" + zone && '.' !in "%" + zone
  {
    assert !IsAlphaNumeric(':') && !IsAlphaNumeric('.');
    assert forall j :: 0 <= j < |zone| ==> ("%" + zone)[j + 1] == zone[j];
  }

  /** No field of an accepted IPv6 text is a run of more than four hexadecimal digits, so a
      5-digit group such as "12345" is never accepted. */
  lemma IPv6HexRunsAtMostFour(address: string)
    requires IsIPv6Address(address)
    ensures var f := Split(address, ':');
      forall i :: 0 <= i < |f| ==> AllHexDigits(f[i]) ==> |f[i]| <= 4
  {
    var f := Split(address, ':');
    if IsLinkLocalWithZone(address) {
      LinkLocalFields(address);
      var last := f[|f| - 1];
      var j :| 0 <= j < |last| && last[j] == '%';
      NotAllHex(last, j);
    } else if IsPlainForm(f) {
      PlainFormFields(f);
    } else {
      forall i | 0 <= i < |f| ensures AllHexDigits(f[i]) ==> |f[i]| <= 4 {
        QuadIsNotHex(f[i]);
      }
    }
  }

  /** A dotted quad always contains a dot, so it is never a run of hexadecimal digits. */
  lemma QuadIsNotHex(s: string)
    ensures IsDottedQuad(s) ==> !AllHexDigits(s)
  {
    if IsDottedQuad(s) {
      CountZeroIffAbsent(s, '.');
      var j :| 0 <= j < |s| && s[j] == '.';
      NotAllHex(s, j);
    }
  }

  /** Every octet of an embedded IPv4 tail is a decimal numeral of value 0-255. */
  lemma OctetInRange(s: string)
    requires IsOctet(s)
    ensures AllDigits(s) && ParseDecimal(s) <= 255
  {
    var lead := s[..|s| - 1];
    if |s| == 3 && s[0] == '2' && s[1] == '5' && '0' <= s[2] <= '5' {
      assert s[..2][..1] == [s[0]] && s[..2][..1][..0] == [];
      assert ParseDecimal(s[..2][..1]) == 2;
      assert ParseDecimal(s[..2]) == 25;
    } else {
      assert IsOctetLead(lead);
      if |lead| == 2 {
        assert lead[..1] == [lead[0]] && lead[..1][..0] == [];
        assert ParseDecimal(lead) == ParseDecimal(lead[..1]) * 10 + (lead[1] as int - '0' as int);
        assert ParseDecimal(lead) <= 24;
      } else if |lead| == 1 {
        assert lead[..0] == [];
      }
    }
  }

  /** Only the two alternatives with a dotted tail admit a '.' anywhere in the text. */
  lemma DotOnlyInQuadForms(address: string)
    requires IsIPv6Address(address)
    requires '.' in address
    ensures var f := Split(address, ':');
      IsMappedIPv4(f) || IsCompressedIPv4(f)
  {
    var f := Split(address, ':');
    JoinSplit(address, ':');
    if IsLinkLocalWithZone(address) {
      LinkLocalFields(address);
      JoinAvoids(f, ':', '.');
      assert false;
    } else if IsPlainForm(f) {
      PlainFormFields(f);
      assert !IsHexDigit('.');
      JoinAvoids(f, ':', '.');
      assert false;
    }
  }

  /** An accepted IPv6 text containing a dot ends in a dotted IPv4 tail whose four octets are
      each 0-255: the embedded and mapped forms of section 2.5.5.2 of RFC 4291 accept only
      in-range octets. */
  lemma IPv6EmbeddedOctetsInRange(address: string)
    requires IsIPv6Address(address)
    requires '.' in address
    ensures var f := Split(address, ':');
      var octets := Split(f[|f| - 1], '.');
      && |octets| == 4
      && forall i :: 0 <= i < 4 ==> AllDigits(octets[i]) && ParseDecimal(octets[i]) <= 255
  {
    DotOnlyInQuadForms(address);
    var f := Split(address, ':');
    var tail := f[|f| - 1];
    if IsCompressedIPv4(f) {
      var k :| 1 <= k <= 4 && |f| == k + 2 && GroupsBefore(f, k) && f[k] == "" && IsDottedQuad(f[k + 1]);
    }
    assert IsDottedQuad(tail);
    var octets := Split(tail, '.');
    forall i | 0 <= i < 4 ensures AllDigits(octets[i]) && ParseDecimal(octets[i]) <= 255 {
      OctetInRange(octets[i]);
    }
  }

  /** An accepted IPv6 text always contains a colon. */
  lemma IPv6HasColon(address: string)
    requires IsIPv6Address(address)
    ensures ':' in address
  {
    var f := Split(address, ':');
    if IsLinkLocalWithZone(address) {
      LinkLocalFields(address);
    } else if IsPlainForm(f) {
      PlainFormFields(f);
    }
    CountZeroIffAbsent(address, ':');
  }

  /** No text (the empty one included) passes both checks: every IPv6 alternative needs a
      colon and the IPv4 pattern has none. */
  lemma NotBothFamilies(address: string)
    ensures !(IsIPv4Address(address) && IsIPv6Address(address))
  {
    if IsIPv4Address(address) && IsIPv6Address(address) {
      IPv4HasNoColon(address);
      IPv6HasColon(address);
    }
  }
}
