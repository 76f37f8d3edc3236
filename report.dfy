/** The rows of `out.csv`: enriched rows for the looked-up addresses, then
    pass-through rows for the rest. */
module Report {
  import opened Outcomes
  import opened Text
  import Ipv4
  import opened Ranker

  /** The fields of a successful IP-information lookup that the rows use;
      `city` is always present, the others may be absent. */
  datatype Details = Details(countryName: Option<string>, city: string,
                             hostname: Option<string>, org: Option<string>)

  /** `"<ip>, <count>, "`, the start of every row. */
  function RowHead(e: Entry): string {
    Ipv4.Format(e.addr) + ", " + FormatNat(e.count) + ", "
  }

  /** The row for an address that is not looked up. */
  function PassThroughRow(e: Entry): string {
    RowHead(e) + "-, -, -, -,\n"
  }

  /** `value + ", "` when the field is present, nothing when it is absent. */
  function OptionalField(field: Option<string>): string {
    if field.Some? then field.value + ", " else ""
  }

  /** The row for a successful lookup: the country when present, the city,
      the hostname when present (with no separator after it), the
      organisation when present, and a line break. */
  function EnrichedRow(e: Entry, d: Details): string {
    var hostname := if d.hostname.Some? then d.hostname.value else "";
    RowHead(e) + OptionalField(d.countryName) + d.city + ", " + hostname + OptionalField(d.org) + "\n"
  }

  /** The entries of `top` whose lookup succeeds, in order; `lookups` holds
      the answer for each address whose lookup succeeds. */
  function LookedUp(top: seq<Entry>, lookups: map<Ipv4.Addr, Details>): (s: seq<Entry>)
    ensures |s| <= |top|
    decreases |top|
  {
    if top == [] then []
    else
      var init, last := top[..|top| - 1], top[|top| - 1];
      LookedUp(init, lookups) + (if last.addr in lookups then [last] else [])
  }

  /** `rows` is the output for a ranking: one enriched row per entry of the
      top part whose lookup succeeds, in order, then one pass-through row per
      entry of the rest, in order. */
  predicate IsOutput(rows: seq<string>, r: Ranking, lookups: map<Ipv4.Addr, Details>) {
    var enriched := LookedUp(r.top, lookups);
    && |rows| == |enriched| + |r.rest|
    && (forall k :: 0 <= k < |enriched| ==>
          enriched[k].addr in lookups && rows[k] == EnrichedRow(enriched[k], lookups[enriched[k].addr]))
    && (forall k :: 0 <= k < |r.rest| ==> rows[|enriched| + k] == PassThroughRow(r.rest[k]))
  }

  /** `rows` holds one enriched row per entry of `found`, in order. */
  predicate EnrichedRows(rows: seq<string>, found: seq<Entry>, lookups: map<Ipv4.Addr, Details>) {
    && |rows| == |found|
    && forall k :: 0 <= k < |found| ==>
         found[k].addr in lookups && rows[k] == EnrichedRow(found[k], lookups[found[k].addr])
  }

  /** `rows` holds one pass-through row per entry of `rest`, in order. */
  predicate PassThroughRows(rows: seq<string>, rest: seq<Entry>) {
    && |rows| == |rest|
    && forall k :: 0 <= k < |rest| ==> rows[k] == PassThroughRow(rest[k])
  }

  /** The two loops that fill `out_lines_csv`: a failed lookup adds no row. */
  method AssembleRows(top: seq<Entry>, rest: seq<Entry>, lookups: map<Ipv4.Addr, Details>)
    returns (rows: seq<string>)
    ensures IsOutput(rows, Ranking(top, rest), lookups)
  {
    var enriched := EnrichTop(top, lookups);
    var passed := PassThroughRest(rest);
    rows := enriched + passed;
  }

  /** The first loop: one row per entry of the top part whose lookup succeeds. */
  method EnrichTop(top: seq<Entry>, lookups: map<Ipv4.Addr, Details>) returns (rows: seq<string>)
    ensures EnrichedRows(rows, LookedUp(top, lookups), lookups)
  {
    rows := [];
    ghost var found: seq<Entry> := [];
    for i := 0 to |top|
      invariant found == LookedUp(top[..i], lookups)
      invariant EnrichedRows(rows, found, lookups)
    {
      LookedUpSnoc(top, i, lookups);
      var v := top[i];
      if v.addr in lookups {
        rows := rows + [EnrichedRow(v, lookups[v.addr])];
        found := found + [v];
      }
    }
    assert top[..|top|] == top;
  }

  /** The second loop: one pass-through row per entry of the rest. */
  method PassThroughRest(rest: seq<Entry>) returns (rows: seq<string>)
    ensures PassThroughRows(rows, rest)
  {
    rows := [];
    for i := 0 to |rest|
      invariant PassThroughRows(rows, rest[..i])
    {
      rows := rows + [PassThroughRow(rest[i])];
    }
    assert rest[..|rest|] == rest;
  }

  lemma LookedUpSnoc(top: seq<Entry>, i: nat, lookups: map<Ipv4.Addr, Details>)
    requires i < |top|
    ensures LookedUp(top[..i + 1], lookups) ==
              LookedUp(top[..i], lookups) + (if top[i].addr in lookups then [top[i]] else [])
  {
    assert top[..i + 1][..i] == top[..i];
  }

  /** A failed lookup adds no row and a successful one adds one: the
      looked-up entries are exactly those of `top` with an answer. */
  lemma {:induction false} LookedUpExactly(top: seq<Entry>, lookups: map<Ipv4.Addr, Details>)
    ensures forall e :: e in LookedUp(top, lookups) <==> e in top && e.addr in lookups
    decreases |top|
  {
    if top != [] {
      var init, last := top[..|top| - 1], top[|top| - 1];
      LookedUpExactly(init, lookups);
      assert top == init + [last];
      var found := LookedUp(top, lookups);
      assert found == LookedUp(init, lookups) + (if last.addr in lookups then [last] else []);
      forall e ensures e in found <==> e in top && e.addr in lookups {
        assert e in top <==> e in init || e == last;
      }
    }
  }

  /** When every lookup succeeds, every entry of `top` gets a row, in order. */
  lemma {:induction false} LookedUpAll(top: seq<Entry>, lookups: map<Ipv4.Addr, Details>)
    requires forall i :: 0 <= i < |top| ==> top[i].addr in lookups
    ensures LookedUp(top, lookups) == top
    decreases |top|
  {
    if top != [] {
      var init := top[..|top| - 1];
      LookedUpAll(init, lookups);
      assert top == init + [top[|top| - 1]];
    }
  }

  /** When every lookup fails, no entry of `top` gets a row. */
  lemma {:induction false} LookedUpNone(top: seq<Entry>, lookups: map<Ipv4.Addr, Details>)
    requires forall i :: 0 <= i < |top| ==> top[i].addr !in lookups
    ensures LookedUp(top, lookups) == []
    decreases |top|
  {
    if top != [] {
      LookedUpNone(top[..|top| - 1], lookups);
    }
  }

  /** Reads the address and count back from the start of a row. */
  function ParseHead(row: string): Option<Entry> {
    var fields := Split(row, ',');
    if |fields| >= 2 && |fields[1]| >= 2 && fields[1][0] == ' ' && IsNumeral(fields[1][1..]) then
      match Ipv4.Parse(fields[0])
      case Some(ip) => Some(Entry(ip, NumeralValue(fields[1][1..])))
      case None => None
    else
      None
  }

  /** Whatever follows it, the start of a row gives back its address and count. */
  lemma ParseRowHead(e: Entry, tail: string)
    ensures ParseHead(RowHead(e) + tail) == Some(e)
  {
    var ip, n := Ipv4.Format(e.addr), FormatNat(e.count);
    Ipv4.FormatIsWord(e.addr);
    assert ',' !in ip by {
      forall i | 0 <= i < |ip| ensures ip[i] != ',' {
        assert Ipv4.IsDottedChar(ip[i]);
      }
    }
    assert ',' !in " " + n by {
      forall i | 0 <= i < |n| ensures n[i] != ',' {
        assert IsDigit(n[i]);
      }
    }
    var row := RowHead(e) + tail;
    assert row == ip + [','] + (" " + n + [','] + (" " + tail));
    SplitOfPiece(ip, ',', " " + n + [','] + (" " + tail));
    SplitOfPiece(" " + n, ',', " " + tail);
    var fields := Split(row, ',');
    assert fields[0] == ip && fields[1] == " " + n;
    assert fields[1][1..] == n;
    Ipv4.ParseIff(ip, e.addr);
    ValueOfFormat(e.count);
  }

  /** A pass-through row starts with its address and count in a form that
      can be read back. */
  lemma PassThroughHead(e: Entry)
    ensures ParseHead(PassThroughRow(e)) == Some(e)
  {
    ParseRowHead(e, "-, -, -, -,\n");
  }

  /** So does an enriched row, whatever the lookup returned. */
  lemma EnrichedHead(e: Entry, d: Details)
    ensures ParseHead(EnrichedRow(e, d)) == Some(e)
  {
    var hostname := if d.hostname.Some? then d.hostname.value else "";
    var tail := OptionalField(d.countryName) + d.city + ", " + hostname + OptionalField(d.org) + "\n";
    assert EnrichedRow(e, d) == RowHead(e) + tail;
    ParseRowHead(e, tail);
  }

  /** A pass-through row has seven comma-separated pieces: address, count,
      four placeholders and the line break. */
  lemma PassThroughFields(e: Entry)
    ensures Split(PassThroughRow(e), ',') ==
              [Ipv4.Format(e.addr), " " + FormatNat(e.count), " -", " -", " -", " -", "\n"]
  {
    var ip, n := Ipv4.Format(e.addr), FormatNat(e.count);
    assert ',' !in ip by {
      forall i | 0 <= i < |ip| ensures ip[i] != ',' {
        assert Ipv4.IsDottedChar(ip[i]);
      }
    }
    assert ',' !in " " + n by {
      forall i | 0 <= i < |n| ensures n[i] != ',' {
        assert IsDigit(n[i]);
      }
    }
    var sep, dash, nl := ',', " -", "\n";
    var tail := [sep] + (dash + ([sep] + (dash + ([sep] + (dash + ([sep] + (dash + ([sep] + nl))))))));
    assert ", -, -, -, -,\n" == tail;
    assert PassThroughRow(e) == ip + ([sep] + ((" " + n) + tail));
    SplitSeven(ip, " " + n, dash, dash, dash, dash, nl, sep);
  }

  lemma SplitOfPieceRight(a: string, sep: char, b: string)
    requires sep !in a
    ensures Split(a + ([sep] + b), sep) == [a] + Split(b, sep)
  {
    assert a + ([sep] + b) == a + [sep] + b;
    SplitOfPiece(a, sep, b);
  }

  /** Seven pieces without the separator, joined by it, split back apart. */
  lemma SplitSeven(p0: string, p1: string, p2: string, p3: string, p4: string, p5: string, p6: string, sep: char)
    requires sep !in p0 && sep !in p1 && sep !in p2 && sep !in p3
    requires sep !in p4 && sep !in p5 && sep !in p6
    ensures Split(p0 + ([sep] + (p1 + ([sep] + (p2 + ([sep] + (p3 + ([sep] + (p4 + ([sep] + (p5 + ([sep] + p6))))))))))), sep) ==
              [p0, p1, p2, p3, p4, p5, p6]
  {
    SplitOfWhole(p6, sep);
    var t5 := p5 + ([sep] + p6);
    SplitOfPieceRight(p5, sep, p6);
    var t4 := p4 + ([sep] + t5);
    SplitOfPieceRight(p4, sep, t5);
    var t3 := p3 + ([sep] + t4);
    SplitOfPieceRight(p3, sep, t4);
    var t2 := p2 + ([sep] + t3);
    SplitOfPieceRight(p2, sep, t3);
    var t1 := p1 + ([sep] + t2);
    SplitOfPieceRight(p1, sep, t2);
    SplitOfPieceRight(p0, sep, t1);
  }

  /** When no looked-up field contains a comma, an enriched row has four
      comma-separated pieces, one more for a country and one more for an
      organisation: a hostname never adds a column, so an enriched row
      has fewer columns than a pass-through row. */
  lemma EnrichedFieldCount(e: Entry, d: Details)
    requires d.countryName.Some? ==> ',' !in d.countryName.value
    requires ',' !in d.city
    requires d.hostname.Some? ==> ',' !in d.hostname.value
    requires d.org.Some? ==> ',' !in d.org.value
    ensures |Split(EnrichedRow(e, d), ',')| ==
              4 + (if d.countryName.Some? then 1 else 0) + (if d.org.Some? then 1 else 0)
    ensures |Split(EnrichedRow(e, d), ',')| < |Split(PassThroughRow(e), ',')|
  {
    EnrichedRowCommas(e, d);
    SplitCount(EnrichedRow(e, d), ',');
    PassThroughFields(e);
  }

  lemma EnrichedRowCommas(e: Entry, d: Details)
    requires d.countryName.Some? ==> ',' !in d.countryName.value
    requires ',' !in d.city
    requires d.hostname.Some? ==> ',' !in d.hostname.value
    requires d.org.Some? ==> ',' !in d.org.value
    ensures Occurrences(EnrichedRow(e, d), ',') ==
              3 + (if d.countryName.Some? then 1 else 0) + (if d.org.Some? then 1 else 0)
  {
    var hostname := if d.hostname.Some? then d.hostname.value else "";
    HeadCommas(e);
    OptionalFieldCommas(d.countryName);
    OptionalFieldCommas(d.org);
    OccurrencesAbsent(d.city, ',');
    OccurrencesAbsent(hostname, ',');
    ConcatCommas(RowHead(e), OptionalField(d.countryName), d.city, hostname, OptionalField(d.org));
  }

  /** The commas of the pieces of an enriched row add up. */
  lemma ConcatCommas(head: string, country: string, city: string, hostname: string, org: string)
    ensures Occurrences(head + country + city + ", " + hostname + org + "\n", ',') ==
              Occurrences(head, ',') + Occurrences(country, ',') + Occurrences(city, ',') + 1
              + Occurrences(hostname, ',') + Occurrences(org, ',')
  {
    var r1 := head + country;
    OccurrencesAppend(head, country, ',');
    var r2 := r1 + city;
    OccurrencesAppend(r1, city, ',');
    var r3 := r2 + ", ";
    OccurrencesAppend(r2, ", ", ',');
    var r4 := r3 + hostname;
    OccurrencesAppend(r3, hostname, ',');
    var r5 := r4 + org;
    OccurrencesAppend(r4, org, ',');
    OccurrencesAppend(r5, "\n", ',');
  }

  lemma HeadCommas(e: Entry)
    ensures Occurrences(RowHead(e), ',') == 2
  {
    var ip, n := Ipv4.Format(e.addr), FormatNat(e.count);
    assert ',' !in ip by {
      forall i | 0 <= i < |ip| ensures ip[i] != ',' {
        assert Ipv4.IsDottedChar(ip[i]);
      }
    }
    assert ',' !in n by {
      forall i | 0 <= i < |n| ensures n[i] != ',' {
        assert IsDigit(n[i]);
      }
    }
    OccurrencesAbsent(ip, ',');
    OccurrencesAbsent(n, ',');
    OccurrencesAppend(ip, ", ", ',');
    OccurrencesAppend(ip + ", ", n, ',');
    OccurrencesAppend(ip + ", " + n, ", ", ',');
  }

  lemma OptionalFieldCommas(field: Option<string>)
    requires field.Some? ==> ',' !in field.value
    ensures Occurrences(OptionalField(field), ',') == if field.Some? then 1 else 0
  {
    if field.Some? {
      OccurrencesAbsent(field.value, ',');
      OccurrencesAppend(field.value, ", ", ',');
    }
  }
}
