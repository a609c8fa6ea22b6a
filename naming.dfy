/** Resource names, CIDR templates and the cleanup filter of shell.py.

    Every generated name has the shape `<kind>-<index>-host-<hostname>`, the
    index printed in decimal as Python's `%s` prints a non-negative int.
    Cleanup recognises the networks of a host by matching
    `network-\d+-host-<hostname>` with `re.match`, which anchors only at the
    start of the name. */
module Naming {

  /* ---------------- decimal numerals ---------------- */

  predicate IsDigit(c: char) { '0' <= c <= '9' }

  predicate AllDigits(s: string) { forall i | 0 <= i < |s| :: IsDigit(s[i]) }

  function DigitChar(d: nat): (c: char)
    requires d < 10
    ensures IsDigit(c)
  {
    ('0' as int + d) as char
  }

  function DigitValue(c: char): nat
    requires IsDigit(c)
  {
    c as int - '0' as int
  }

  /** `str(n)` for a non-negative int: decimal digits, no leading zero. */
  function Decimal(n: nat): (s: string)
    ensures 1 <= |s| && AllDigits(s)
    decreases n
  {
    if n < 10 then [DigitChar(n)] else Decimal(n / 10) + [DigitChar(n % 10)]
  }

  /** The number a string of decimal digits denotes (its inverse). */
  function ValueOf(s: string): nat
    requires AllDigits(s)
    decreases |s|
  {
    if s == [] then 0 else ValueOf(s[..|s| - 1]) * 10 + DigitValue(s[|s| - 1])
  }

  lemma {:induction false} DecimalRoundTrip(n: nat)
    ensures ValueOf(Decimal(n)) == n
  {
    var s := Decimal(n);
    if n >= 10 {
      DecimalRoundTrip(n / 10);
      assert s[..|s| - 1] == Decimal(n / 10);
    }
  }

  /** Distinct indices print differently. */
  lemma DecimalInjective(a: nat, b: nat)
    requires Decimal(a) == Decimal(b)
    ensures a == b
  {
    DecimalRoundTrip(a);
    DecimalRoundTrip(b);
  }

  /** Python prints no leading zero. */
  lemma {:induction false} DecimalNoLeadingZero(n: nat)
    ensures |Decimal(n)| > 1 ==> Decimal(n)[0] != '0'
  {
    if n >= 10 {
      DecimalNoLeadingZero(n / 10);
      assert Decimal(n)[0] == Decimal(n / 10)[0];
    }
  }

  /* ---------------- generated names ---------------- */

  const HostInfix: string := "-host-"
  const NetworkPrefix: string := "network-"

  /** `"<prefix><index>-host-<hostname>"`, the one shape of every name. */
  function Label(prefix: string, index: nat, hostname: string): string
  {
    prefix + Decimal(index) + HostInfix + hostname
  }

  function NetworkName(index: nat, hostname: string): string
  {
    Label(NetworkPrefix, index, hostname)
  }

  function V4SubnetName(index: nat, hostname: string): string
  {
    Label("v4_subnet-", index, hostname)
  }

  function V6SubnetName(index: nat, hostname: string): string
  {
    Label("v6_subnet-", index, hostname)
  }

  function PortName(index: nat, hostname: string): string
  {
    Label("port-", index, hostname)
  }

  /** A label determines both its index and its host name: distinct slots,
      and distinct hosts, never share a name. */
  lemma LabelInjective(prefix: string, i: nat, j: nat, h1: string, h2: string)
    requires Label(prefix, i, h1) == Label(prefix, j, h2)
    ensures i == j && h1 == h2
  {
    var s := Label(prefix, i, h1);
    var d1, d2 := Decimal(i), Decimal(j);
    var p := |prefix|;
    var rest := s[p..];
    assert rest == d1 + HostInfix + h1 && rest == d2 + HostInfix + h2;
    // the digit run ends at the first '-', so both numerals have its length
    assert rest[..|d1|] == d1 && rest[|d1|] == '-';
    assert rest[..|d2|] == d2 && rest[|d2|] == '-';
    LeadingDigitsExact(rest, |d1|);
    LeadingDigitsExact(rest, |d2|);
    assert d1 == s[p..p + |d1|] == d2;
    DecimalInjective(i, j);
    assert h1 == s[p + |d1| + |HostInfix|..] == h2;
  }

  lemma NetworkNameInjective(i: nat, j: nat, h1: string, h2: string)
    requires NetworkName(i, h1) == NetworkName(j, h2)
    ensures i == j && h1 == h2
  {
    LabelInjective(NetworkPrefix, i, j, h1, h2);
  }

  /* ---------------- CIDR templates ---------------- */

  /** `V4_CIDR_BASE % k`. */
  function V4Cidr(k: nat): string
  {
    "192.168." + Decimal(k) + ".0/24"
  }

  /** `V6_CIDR_BASE % k`. */
  function V6Cidr(k: nat): string
  {
    "2000:" + Decimal(k) + "::/64"
  }

  /** The third octet of `V4Cidr(k)` is a valid IPv4 octet only below 256;
      the address parser rejects `V4Cidr(256)` and beyond. */
  const V4Octets: nat := 256

  /** The IPv4 template at index `V4Octets`: the string whose third octet
      the address parser rejects. */
  lemma FirstInvalidV4Cidr()
    ensures V4Cidr(V4Octets) == "192.168.256.0/24"
  {
    assert Decimal(2) == "2";
    assert Decimal(25) == Decimal(2) + "5";
    assert Decimal(256) == Decimal(25) + "6";
  }

  /* ---------------- the cleanup filter ---------------- */

  /** The characters a host name is made of. None of them is a regular
      expression metacharacter except '.', which matches any character but a
      newline. */
  predicate HostChar(c: char)
  {
    'a' <= c <= 'z' || 'A' <= c <= 'Z' || '0' <= c <= '9' || c == '-' || c == '_' || c == '.'
  }

  predicate IsHostname(h: string) { forall i | 0 <= i < |h| :: HostChar(h[i]) }

  /** One character of the host-name part of the pattern against one of the name. */
  predicate PatternCharMatches(p: char, c: char)
  {
    if p == '.' then c != '\n' else p == c
  }

  /** The host-name part of the pattern matches `s` exactly. */
  predicate HostPatternMatches(h: string, s: string)
  {
    |s| == |h| && forall i | 0 <= i < |h| :: PatternCharMatches(h[i], s[i])
  }

  /** The length of the longest run of digits at the start of `s`. */
  function LeadingDigits(s: string): (n: nat)
    ensures n <= |s| && AllDigits(s[..n])
    ensures n < |s| ==> !IsDigit(s[n])
    decreases |s|
  {
    if s == [] || !IsDigit(s[0]) then 0
    else
      var m := LeadingDigits(s[1..]);
      assert s[..1 + m] == [s[0]] + s[1..][..m];
      1 + m
  }

  lemma {:induction false} LeadingDigitsExact(s: string, k: nat)
    requires k <= |s| && AllDigits(s[..k])
    requires k < |s| ==> !IsDigit(s[k])
    ensures LeadingDigits(s) == k
  {
    if k > 0 {
      assert IsDigit(s[..k][0]);
      assert s[1..][..k - 1] == s[..k][1..];
      LeadingDigitsExact(s[1..], k - 1);
    }
  }

  /** Regular-expression reading of `re.match(r"network-\d+-host-" + h, name)`:
      `\d+` consumes some `k >= 1` digits and the rest of the pattern matches
      what follows; anything may come after the match. */
  ghost predicate MatchesWithDigitRun(name: string, h: string, k: nat)
  {
    var p := |NetworkPrefix|;
    var q := |HostInfix|;
    && 1 <= k
    && p + k + q + |h| <= |name|
    && name[..p] == NetworkPrefix
    && AllDigits(name[p..p + k])
    && name[p + k..p + k + q] == HostInfix
    && HostPatternMatches(h, name[p + k + q..p + k + q + |h|])
  }

  ghost predicate PatternMatch(name: string, h: string)
  {
    exists k: nat :: MatchesWithDigitRun(name, h, k)
  }

  /** The filter `clean_all` applies to every listed network's name. */
  function CleanupFilter(name: string, h: string): bool
    requires IsHostname(h)
  {
    var p := |NetworkPrefix|;
    var q := |HostInfix|;
    && p <= |name|
    && name[..p] == NetworkPrefix
    && var k := LeadingDigits(name[p..]);
       && 1 <= k
       && p + k + q + |h| <= |name|
       && name[p + k..p + k + q] == HostInfix
       && HostPatternMatches(h, name[p + k + q..p + k + q + |h|])
  }

  /** The filter decides exactly the regular-expression match: the digit run
      is forced to be the longest one, since `-` is not a digit. */
  lemma CleanupFilterIsPatternMatch(name: string, h: string)
    requires IsHostname(h)
    ensures CleanupFilter(name, h) <==> PatternMatch(name, h)
  {
    var p := |NetworkPrefix|;
    if CleanupFilter(name, h) {
      var k := LeadingDigits(name[p..]);
      assert name[p..][..k] == name[p..p + k];
      assert MatchesWithDigitRun(name, h, k);
    }
    if PatternMatch(name, h) {
      var k: nat :| MatchesWithDigitRun(name, h, k);
      var rest := name[p..];
      assert rest[..k] == name[p..p + k];
      assert rest[k] == name[p + k] == HostInfix[0];
      LeadingDigitsExact(rest, k);
    }
  }

  /** Which generated network names the filter for `h` accepts: exactly those
      whose host name starts with something the pattern `h` matches. */
  lemma NetworkNameFilter(i: nat, other: string, h: string)
    requires IsHostname(h)
    ensures CleanupFilter(NetworkName(i, other), h)
        <==> |h| <= |other| && HostPatternMatches(h, other[..|h|])
  {
    var name := NetworkName(i, other);
    var p := |NetworkPrefix|;
    var d := Decimal(i);
    var rest := name[p..];
    assert rest == d + HostInfix + other;
    assert rest[..|d|] == d;
    assert rest[|d|] == '-';
    LeadingDigitsExact(rest, |d|);
    assert name[p + |d|..p + |d| + |HostInfix|] == HostInfix;
    if |h| <= |other| {
      assert name[p + |d| + |HostInfix|..p + |d| + |HostInfix| + |h|] == other[..|h|];
    }
  }

  /** Round trip: every network this host generates, whatever its index (so
      also those of an earlier run with more networks), is selected. */
  lemma NetworkNameAccepted(i: nat, h: string)
    requires IsHostname(h)
    ensures CleanupFilter(NetworkName(i, h), h)
  {
    NetworkNameFilter(i, h, h);
    assert h[..|h|] == h;
    forall j | 0 <= j < |h| ensures PatternCharMatches(h[j], h[j]) {
      assert HostChar(h[j]);
    }
  }

  /** The weakness of matching only at the start: the networks of any host
      whose name extends `h` are selected by the cleanup for `h` as well. */
  lemma ExtendedHostAccepted(i: nat, h: string, ext: string)
    requires IsHostname(h)
    ensures CleanupFilter(NetworkName(i, h + ext), h)
  {
    NetworkNameFilter(i, h + ext, h);
    assert (h + ext)[..|h|] == h;
    forall j | 0 <= j < |h| ensures PatternCharMatches(h[j], h[j]) {
      assert HostChar(h[j]);
    }
  }

  /** A '.' in the host name is a wildcard: cleanup for "node.1" also takes
      the networks of host "nodeX1". */
  lemma DotIsWildcard(i: nat)
    ensures IsHostname("node.1")
    ensures CleanupFilter(NetworkName(i, "nodeX1"), "node.1")
  {
    NetworkNameFilter(i, "nodeX1", "node.1");
    assert "nodeX1"[..6] == "nodeX1";
  }

  /** A generated network name never has "007-" right after its prefix:
      the printed index has no leading zero. */
  lemma GeneratedIndexNotPadded(i: nat, x: string)
    ensures NetworkName(i, x)[|NetworkPrefix|..][..4] != "007-"
  {
    var d := Decimal(i);
    var s := NetworkName(i, x)[|NetworkPrefix|..];
    assert s == d + HostInfix + x;
    DecimalNoLeadingZero(i);
    if |d| == 1 {
      assert s[1] == '-' != "007-"[1];
    } else if |d| == 2 {
      assert s[2] == '-' != "007-"[2];
    } else {
      assert s[0] == d[0] != '0';
    }
  }

  /** Names that were never generated are selected too: the pattern accepts
      leading zeros and any text after the host name. */
  lemma NonCanonicalNameAccepted(h: string, tail: string)
    requires IsHostname(h)
    ensures CleanupFilter(NetworkPrefix + "007" + HostInfix + h + tail, h)
    ensures forall i: nat :: NetworkPrefix + "007" + HostInfix + h + tail != NetworkName(i, h + tail)
  {
    var name := NetworkPrefix + "007" + HostInfix + h + tail;
    var p := |NetworkPrefix|;
    var rest := name[p..];
    assert rest == "007" + HostInfix + h + tail;
    assert rest[..3] == "007";
    assert rest[3] == '-';
    LeadingDigitsExact(rest, 3);
    assert name[p + 3..p + 3 + |HostInfix|] == HostInfix;
    assert name[p + 3 + |HostInfix|..p + 3 + |HostInfix| + |h|] == h;
    forall j | 0 <= j < |h| ensures PatternCharMatches(h[j], h[j]) {
      assert HostChar(h[j]);
    }
    assert rest[..4] == "007-";
    forall i: nat ensures name != NetworkName(i, h + tail) {
      GeneratedIndexNotPadded(i, h + tail);
    }
  }
}
