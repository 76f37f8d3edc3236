/** IPv4 addresses as `std::net::Ipv4Addr` reads and writes them: four decimal
    octets separated by dots. */
module Ipv4 {
  import opened Outcomes
  import opened Text

  type Octet = n: nat | n < 256

  datatype Addr = Addr(a: Octet, b: Octet, c: Octet, d: Octet)

  /** A character of the dotted-quad form. */
  predicate IsDottedChar(c: char) {
    IsDigit(c) || c == '.'
  }

  /** The `Display` form of an address, e.g. "10.0.0.5". */
  function Format(ip: Addr): (s: string)
    ensures forall i :: 0 <= i < |s| ==> IsDottedChar(s[i])
  {
    FormatNat(ip.a) + "." + FormatNat(ip.b) + "." + FormatNat(ip.c) + "." + FormatNat(ip.d)
  }

  /** One octet: one to three ASCII digits, no leading zero unless the octet
      is "0", and a value below 256. */
  function ParseOctet(s: string): (r: Option<Octet>)
    ensures r.Some? ==> IsCanonicalNumeral(s) && NumeralValue(s) == r.value
  {
    if IsCanonicalNumeral(s) && |s| <= 3 && NumeralValue(s) < 256
    then Some(NumeralValue(s))
    else None
  }

  /** `s.parse::<Ipv4Addr>()`: exactly four octets separated by dots. */
  function Parse(s: string): (r: Option<Addr>)
  {
    var parts := Split(s, '.');
    if |parts| != 4 then None
    else
      match (ParseOctet(parts[0]), ParseOctet(parts[1]), ParseOctet(parts[2]), ParseOctet(parts[3]))
      case (Some(a), Some(b), Some(c), Some(d)) => Some(Addr(a, b, c, d))
      case _ => None
  }

  lemma NoDotInNumeral(s: string)
    requires IsNumeral(s)
    ensures '.' !in s
  {
  }

  /** An octet is read back exactly from its decimal form, and from no other text. */
  lemma ParseOctetIff(s: string, v: Octet)
    ensures ParseOctet(s) == Some(v) <==> s == FormatNat(v)
  {
    if ParseOctet(s) == Some(v) {
      FormatOfValue(s);
    }
    if s == FormatNat(v) {
      ValueOfFormat(v);
      FormatNatWidth(v);
    }
  }

  /** Parsing and formatting are inverse: `Parse(s)` yields `ip` exactly when
      `s` is the dotted-quad form of `ip`, so an address has one textual form. */
  lemma ParseIff(s: string, ip: Addr)
    ensures Parse(s) == Some(ip) <==> s == Format(ip)
  {
    if s == Format(ip) {
      ParseFormat(ip);
    }
    if Parse(s) == Some(ip) {
      FormatParse(s, ip);
    }
  }

  function Octets(ip: Addr): seq<string> {
    [FormatNat(ip.a), FormatNat(ip.b), FormatNat(ip.c), FormatNat(ip.d)]
  }

  lemma FormatJoin(ip: Addr)
    ensures Format(ip) == Join(Octets(ip), '.')
  {
    var octets := Octets(ip);
    var o1, o2, o3 := octets[1..], octets[2..], octets[3..];
    assert o3 == [octets[3]] && Join(o3, '.') == octets[3];
    assert o2 == [octets[2]] + o3 && o2[1..] == o3;
    assert Join(o2, '.') == octets[2] + ['.'] + octets[3];
    assert o1[1..] == o2;
    assert Join(o1, '.') == octets[1] + ['.'] + Join(o2, '.');
    assert Join(octets, '.') == octets[0] + ['.'] + Join(o1, '.');
  }

  /** The dotted-quad form of an address parses back to it. */
  lemma ParseFormat(ip: Addr)
    ensures Parse(Format(ip)) == Some(ip)
  {
    var octets := Octets(ip);
    ParseOctetIff(octets[0], ip.a);
    ParseOctetIff(octets[1], ip.b);
    ParseOctetIff(octets[2], ip.c);
    ParseOctetIff(octets[3], ip.d);
    FormatJoin(ip);
    forall i | 0 <= i < 4 ensures '.' !in octets[i] {
      NoDotInNumeral(octets[i]);
    }
    SplitJoin(octets, '.');
  }

  /** Only the dotted-quad form of an address parses to it. */
  lemma FormatParse(s: string, ip: Addr)
    requires Parse(s) == Some(ip)
    ensures s == Format(ip)
  {
    var parts := Split(s, '.');
    ParseOctetIff(parts[0], ip.a);
    ParseOctetIff(parts[1], ip.b);
    ParseOctetIff(parts[2], ip.c);
    ParseOctetIff(parts[3], ip.d);
    assert parts == Octets(ip);
    JoinSplit(s, '.');
    FormatJoin(ip);
  }

  /** The formatted address contains neither whitespace nor a colon. */
  lemma FormatIsWord(ip: Addr)
    ensures IsWord(Format(ip))
    ensures ':' !in Format(ip)
  {
    var s := Format(ip);
    assert |FormatNat(ip.a)| >= 1;
    forall i | 0 <= i < |s| ensures !IsWhitespace(s[i]) && s[i] != ':' {
      assert IsDottedChar(s[i]);
    }
  }
}
