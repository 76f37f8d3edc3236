/** The counting loops of `main`: every line of every file in the log
    directory goes through `from_line`, and each address found is tallied. */
module Counter {
  import opened Outcomes
  import opened Seqs
  import opened LineParser
  import Ipv4

  /** One item of a file's `lines()` iterator: a decoded line, or an error. */
  datatype LineRead = LineError | Line(text: string)

  /** What `read_lines` gives for a path: the file's lines, or an open error. */
  datatype FileRead = OpenError | Opened(lines: seq<LineRead>)

  /** One item of `read_dir`: an entry error, or an entry whose path may or
      may not be valid Unicode, with what reading the file gives. */
  datatype DirEntry = EntryError | Entry(unicodePath: bool, file: FileRead)

  /** The state the loops build: `address_counts`, `total_lines`, `total_files`. */
  datatype Tally = Tally(counts: map<Ipv4.Addr, nat>, totalLines: nat, totalFiles: nat)

  /** One counting step: the count of `ip` goes up by one, starting at one
      on first sight; every other address keeps its count. */
  function Bump(counts: map<Ipv4.Addr, nat>, ip: Ipv4.Addr): (r: map<Ipv4.Addr, nat>)
    ensures r.Keys == counts.Keys + {ip}
    ensures ip in counts ==> r[ip] == counts[ip] + 1
    ensures ip !in counts ==> r[ip] == 1
    ensures forall a :: a in counts && a != ip ==> r[a] == counts[a]
  {
    if ip in counts then counts[ip := counts[ip] + 1] else counts[ip := 1]
  }

  // The loops as a specification: a left fold over lines and entries.

  /** One iteration of the inner loop. */
  function CountLine(t: Tally, line: LineRead): Outcome<Tally> {
    match line
    case LineError => Done(t)
    case Line(text) =>
      match FromLine(text)
      case Aborted(p) => Aborted(p)
      case Done(None) => Done(t.(totalLines := t.totalLines + 1))
      case Done(Some(ip)) => Done(t.(counts := Bump(t.counts, ip), totalLines := t.totalLines + 1))
  }

  /** The inner loop over the lines of one file. */
  function CountLines(t: Tally, lines: seq<LineRead>): Outcome<Tally>
    decreases |lines|
  {
    if lines == [] then Done(t)
    else
      match CountLines(t, lines[..|lines| - 1])
      case Aborted(p) => Aborted(p)
      case Done(t') => CountLine(t', lines[|lines| - 1])
  }

  /** One iteration of the outer loop. */
  function CountEntry(t: Tally, e: DirEntry): Outcome<Tally> {
    match e
    case EntryError => Done(t.(totalFiles := t.totalFiles + 1))
    case Entry(unicodePath, file) =>
      if !unicodePath then Aborted(NonUnicodePath)
      else
        match file
        case OpenError => Done(t.(totalFiles := t.totalFiles + 1))
        case Opened(lines) =>
          match CountLines(t, lines)
          case Aborted(p) => Aborted(p)
          case Done(t') => Done(t'.(totalFiles := t'.totalFiles + 1))
  }

  /** The outer loop over the directory entries, from empty counters. */
  function CountEntries(entries: seq<DirEntry>): Outcome<Tally>
    decreases |entries|
  {
    if entries == [] then Done(Tally(map[], 0, 0))
    else
      match CountEntries(entries[..|entries| - 1])
      case Aborted(p) => Aborted(p)
      case Done(t) => CountEntry(t, entries[|entries| - 1])
  }

  lemma {:induction false} LinesAbortPersists(t: Tally, lines: seq<LineRead>, j: nat, p: Panic)
    requires j <= |lines| && CountLines(t, lines[..j]) == Aborted(p)
    ensures CountLines(t, lines) == Aborted(p)
    decreases |lines| - j
  {
    if j < |lines| {
      assert lines[..j + 1][..j] == lines[..j];
      LinesAbortPersists(t, lines, j + 1, p);
    } else {
      assert lines[..j] == lines;
    }
  }

  lemma {:induction false} EntriesAbortPersists(entries: seq<DirEntry>, i: nat, p: Panic)
    requires i <= |entries| && CountEntries(entries[..i]) == Aborted(p)
    ensures CountEntries(entries) == Aborted(p)
    decreases |entries| - i
  {
    if i < |entries| {
      assert entries[..i + 1][..i] == entries[..i];
      EntriesAbortPersists(entries, i + 1, p);
    } else {
      assert entries[..i] == entries;
    }
  }

  /** The nested `for` loops of `main`: the result is the fold above; the
      run ends with a panic as soon as a panicking entry or line is met. */
  method CountAddresses(entries: seq<DirEntry>) returns (r: Outcome<Tally>)
    ensures r == CountEntries(entries)
  {
    var counts: map<Ipv4.Addr, nat> := map[];
    var totalFiles := 0;
    var totalLines := 0;
    for i := 0 to |entries|
      invariant CountEntries(entries[..i]) == Done(Tally(counts, totalLines, totalFiles))
    {
      assert entries[..i + 1][..i] == entries[..i];
      var entry := entries[i];
      if entry.Entry? {
        if !entry.unicodePath {
          EntriesAbortPersists(entries, i + 1, NonUnicodePath);
          return Aborted(NonUnicodePath);
        }
        if entry.file.Opened? {
          var counted := CountFile(Tally(counts, totalLines, totalFiles), entry.file.lines);
          if counted.Aborted? {
            EntriesAbortPersists(entries, i + 1, counted.reason);
            return Aborted(counted.reason);
          }
          counts, totalLines := counted.value.counts, counted.value.totalLines;
        }
      }
      totalFiles := totalFiles + 1;
    }
    assert entries[..|entries|] == entries;
    return Done(Tally(counts, totalLines, totalFiles));
  }

  /** The inner `for` loop over the lines of one file, from the counters
      reached so far; a line whose address does not parse ends the run. */
  method CountFile(start: Tally, lines: seq<LineRead>) returns (r: Outcome<Tally>)
    ensures r == CountLines(start, lines)
    ensures r.Done? ==> r.value.totalFiles == start.totalFiles
  {
    var counts, totalLines := start.counts, start.totalLines;
    for j := 0 to |lines|
      invariant CountLines(start, lines[..j]) == Done(Tally(counts, totalLines, start.totalFiles))
    {
      assert lines[..j + 1][..j] == lines[..j];
      if lines[j].Line? {
        var found := FromLine(lines[j].text);
        if found.Aborted? {
          LinesAbortPersists(start, lines, j + 1, found.reason);
          return Aborted(found.reason);
        }
        if found.value.Some? {
          var ip := found.value.value;
          if ip in counts {
            counts := counts[ip := counts[ip] + 1];
          } else {
            counts := counts[ip := 1];
          }
        }
        totalLines := totalLines + 1;
      }
    }
    assert lines[..|lines|] == lines;
    return Done(Tally(counts, totalLines, start.totalFiles));
  }

  // What the loops compute, described independently of the loops.

  /** The address a read line contributes: one, or none. */
  function LineAddress(line: LineRead): seq<Ipv4.Addr> {
    match line
    case LineError => []
    case Line(text) =>
      match FromLine(text)
      case Done(Some(ip)) => [ip]
      case _ => []
  }

  /** The text of a line that was read successfully. */
  function LineText(line: LineRead): seq<string> {
    if line.Line? then [line.text] else []
  }

  /** The lines the loops visit for one directory entry. */
  function EntryLines(e: DirEntry): seq<LineRead> {
    if e.Entry? && e.file.Opened? then e.file.lines else []
  }

  function EntryAddresses(e: DirEntry): seq<Ipv4.Addr> {
    FlatMap(EntryLines(e), LineAddress)
  }

  function EntryTexts(e: DirEntry): seq<string> {
    FlatMap(EntryLines(e), LineText)
  }

  /** Every address found, in the order the lines are read. */
  function Addresses(entries: seq<DirEntry>): seq<Ipv4.Addr> {
    FlatMap(entries, EntryAddresses)
  }

  /** Every line read successfully, in order. */
  function ReadLines(entries: seq<DirEntry>): seq<string> {
    FlatMap(entries, EntryTexts)
  }

  /** How often each address occurs in `xs`. */
  function Histogram(xs: seq<Ipv4.Addr>): (h: map<Ipv4.Addr, nat>)
    ensures forall x :: x in h <==> x in xs
  {
    map x | x in xs :: multiset(xs)[x]
  }

  /** A line panics when its fourth field is not an address. */
  predicate LinePanics(line: LineRead) {
    line.Line? && FromLine(line.text).Aborted?
  }

  /** An entry panics when its path is not Unicode or one of its lines panics. */
  predicate EntryPanics(e: DirEntry) {
    e.Entry? && (!e.unicodePath || exists j :: 0 <= j < |EntryLines(e)| && LinePanics(EntryLines(e)[j]))
  }

  ghost function Pick(m: map<Ipv4.Addr, nat>): Ipv4.Addr
    requires m != map[]
  {
    var k :| k in m; k
  }

  /** The sum of all counts in a map. */
  ghost function Sum(m: map<Ipv4.Addr, nat>): nat
    decreases |m|
  {
    if m == map[] then 0
    else
      var k := Pick(m);
      assert m.Keys - {k} < m.Keys;
      m[k] + Sum(m - {k})
  }

  lemma {:induction false} SumRemove(m: map<Ipv4.Addr, nat>, k: Ipv4.Addr)
    requires k in m
    ensures Sum(m) == m[k] + Sum(m - {k})
    decreases |m|
  {
    var j := Pick(m);
    if j != k {
      assert (m - {j}).Keys < m.Keys;
      SumRemove(m - {j}, k);
      assert (m - {k}).Keys < m.Keys;
      SumRemove(m - {k}, j);
      assert m - {j} - {k} == m - {k} - {j};
    }
  }

  /** A counting step adds one to the sum of the counts. */
  lemma SumBump(m: map<Ipv4.Addr, nat>, ip: Ipv4.Addr)
    ensures Sum(Bump(m, ip)) == Sum(m) + 1
  {
    var b := Bump(m, ip);
    SumRemove(b, ip);
    if ip in m {
      SumRemove(m, ip);
      assert b - {ip} == m - {ip};
    } else {
      assert b - {ip} == m;
    }
  }

  lemma HistogramSnoc(xs: seq<Ipv4.Addr>, x: Ipv4.Addr)
    ensures Histogram(xs + [x]) == Bump(Histogram(xs), x)
  {
    var ys := xs + [x];
    assert multiset(ys) == multiset(xs) + multiset{x};
    var h, b := Histogram(ys), Bump(Histogram(xs), x);
    assert h.Keys == b.Keys;
    forall y | y in h ensures h[y] == b[y] {
      if y == x && x !in xs {
        assert multiset(xs)[x] == 0;
      }
    }
  }

  /** The counts of a histogram add up to the length of the sequence. */
  lemma {:induction false} SumHistogram(xs: seq<Ipv4.Addr>)
    ensures Sum(Histogram(xs)) == |xs|
    decreases |xs|
  {
    if xs == [] {
      assert Histogram(xs) == map[];
    } else {
      var init := xs[..|xs| - 1];
      SumHistogram(init);
      assert xs == init + [xs[|xs| - 1]];
      HistogramSnoc(init, xs[|xs| - 1]);
      SumBump(Histogram(init), xs[|xs| - 1]);
    }
  }

  lemma HistogramOfPermutation(xs: seq<Ipv4.Addr>, ys: seq<Ipv4.Addr>)
    requires multiset(xs) == multiset(ys)
    ensures Histogram(xs) == Histogram(ys)
  {
    forall x ensures x in xs <==> x in ys {
      assert x in xs <==> x in multiset(xs);
      assert x in ys <==> x in multiset(ys);
    }
  }

  lemma FlatMapLast<T, U>(s: seq<T>, f: T -> seq<U>)
    requires s != []
    ensures FlatMap(s, f) == FlatMap(s[..|s| - 1], f) + f(s[|s| - 1])
  {
    var x := s[|s| - 1];
    assert s == s[..|s| - 1] + [x];
    FlatMapAppend(s[..|s| - 1], [x], f);
    assert [x][1..] == [];
  }

  lemma AppendAssoc(a: seq<Ipv4.Addr>, b: seq<Ipv4.Addr>, c: seq<Ipv4.Addr>)
    ensures a + (b + c) == (a + b) + c
  {
  }

  lemma CountLineMeaning(t: Tally, line: LineRead, prior: seq<Ipv4.Addr>, t': Tally)
    requires t.counts == Histogram(prior)
    requires CountLine(t, line) == Done(t')
    ensures t'.counts == Histogram(prior + LineAddress(line))
    ensures t'.totalLines == t.totalLines + |LineText(line)|
    ensures t'.totalFiles == t.totalFiles
  {
    if LineAddress(line) == [] {
      assert prior + [] == prior;
    } else {
      HistogramSnoc(prior, LineAddress(line)[0]);
    }
  }

  /** The inner loop adds the addresses of the file's lines to the counts and
      the number of lines read to the line total. */
  lemma {:induction false} CountLinesMeaning(t: Tally, lines: seq<LineRead>, prior: seq<Ipv4.Addr>, t': Tally)
    requires t.counts == Histogram(prior)
    requires CountLines(t, lines) == Done(t')
    ensures t'.counts == Histogram(prior + FlatMap(lines, LineAddress))
    ensures t'.totalLines == t.totalLines + |FlatMap(lines, LineText)|
    ensures t'.totalFiles == t.totalFiles
    decreases |lines|
  {
    if lines == [] {
      assert prior + [] == prior;
    } else {
      var init, last := lines[..|lines| - 1], lines[|lines| - 1];
      assert CountLines(t, init).Done?;
      var t1 := CountLines(t, init).value;
      assert CountLine(t1, last) == Done(t');
      CountLinesMeaning(t, init, prior, t1);
      FlatMapLast(lines, LineAddress);
      FlatMapLast(lines, LineText);
      var found := prior + FlatMap(init, LineAddress);
      AppendAssoc(prior, FlatMap(init, LineAddress), LineAddress(last));
      CountLineMeaning(t1, last, found, t');
    }
  }

  /** What the loops compute: each address is counted as often as it is found,
      every line read is counted, and every directory entry is counted. */
  lemma {:induction false} CountEntriesMeaning(entries: seq<DirEntry>, t: Tally)
    requires CountEntries(entries) == Done(t)
    ensures t.counts == Histogram(Addresses(entries))
    ensures t.totalLines == |ReadLines(entries)|
    ensures t.totalFiles == |entries|
    decreases |entries|
  {
    if entries == [] {
    } else {
      var init, last := entries[..|entries| - 1], entries[|entries| - 1];
      var t1 := CountEntries(init).value;
      CountEntriesMeaning(init, t1);
      FlatMapLast(entries, EntryAddresses);
      FlatMapLast(entries, EntryTexts);
      if last.Entry? && last.file.Opened? {
        CountLinesMeaning(t1, last.file.lines, Addresses(init), CountLines(t1, last.file.lines).value);
      } else {
        assert Addresses(init) + [] == Addresses(init);
      }
    }
  }

  /** The sum of all counts is the number of lines that yielded an address,
      which is at most the number of lines read. */
  lemma CountTotals(entries: seq<DirEntry>, t: Tally)
    requires CountEntries(entries) == Done(t)
    ensures Sum(t.counts) == |Addresses(entries)| <= t.totalLines
  {
    CountEntriesMeaning(entries, t);
    SumHistogram(Addresses(entries));
    forall i | 0 <= i < |entries| ensures |EntryAddresses(entries[i])| <= |EntryTexts(entries[i])| {
      FlatMapShorter(EntryLines(entries[i]), LineAddress, LineText);
    }
    FlatMapShorter(entries, EntryAddresses, EntryTexts);
  }

  /** Counts never go down: a later prefix of the run has every address of an
      earlier one, with at least the same count. */
  lemma CountsGrow(entries: seq<DirEntry>, i: nat, t: Tally, t': Tally)
    requires i <= |entries|
    requires CountEntries(entries[..i]) == Done(t) && CountEntries(entries) == Done(t')
    ensures forall ip :: ip in t.counts ==> ip in t'.counts && t.counts[ip] <= t'.counts[ip]
    ensures t.totalLines <= t'.totalLines && t.totalFiles <= t'.totalFiles
  {
    CountEntriesMeaning(entries[..i], t);
    CountEntriesMeaning(entries, t');
    assert entries == entries[..i] + entries[i..];
    FlatMapAppend(entries[..i], entries[i..], EntryAddresses);
    FlatMapAppend(entries[..i], entries[i..], EntryTexts);
    var before := Addresses(entries[..i]);
    assert multiset(Addresses(entries)) == multiset(before) + multiset(Addresses(entries[i..]));
  }

  lemma {:induction false} LinesAbortIff(t: Tally, lines: seq<LineRead>)
    ensures CountLines(t, lines).Aborted? <==> exists j :: 0 <= j < |lines| && LinePanics(lines[j])
    ensures CountLines(t, lines).Aborted? ==> CountLines(t, lines).reason == InvalidIp
    decreases |lines|
  {
    if lines != [] {
      var init := lines[..|lines| - 1];
      LinesAbortIff(t, init);
      if exists j :: 0 <= j < |init| && LinePanics(init[j]) {
        var j :| 0 <= j < |init| && LinePanics(init[j]);
        assert lines[j] == init[j];
      }
      if exists j :: 0 <= j < |lines| && LinePanics(lines[j]) {
        var j :| 0 <= j < |lines| && LinePanics(lines[j]);
        if j < |init| {
          assert init[j] == lines[j];
        }
      }
    }
  }

  /** The run panics exactly when some directory entry panics. */
  lemma {:induction false} AbortIff(entries: seq<DirEntry>)
    ensures CountEntries(entries).Aborted? <==> exists i :: 0 <= i < |entries| && EntryPanics(entries[i])
    decreases |entries|
  {
    if entries != [] {
      var n := |entries| - 1;
      var init, last := entries[..n], entries[n];
      AbortIff(init);
      var earlier := exists i :: 0 <= i < n && EntryPanics(init[i]);
      if earlier {
        var i :| 0 <= i < n && EntryPanics(init[i]);
        assert entries[i] == init[i];
      } else {
        var t := CountEntries(init).value;
        if last.Entry? && last.unicodePath && last.file.Opened? {
          LinesAbortIff(t, last.file.lines);
          assert EntryLines(last) == last.file.lines;
        }
        assert CountEntries(entries) == CountEntry(t, last);
        assert CountEntry(t, last).Aborted? <==> EntryPanics(last);
        forall i | 0 <= i < n ensures !EntryPanics(entries[i]) {
          assert entries[i] == init[i];
        }
      }
    }
  }

  /** The order in which `read_dir` lists the files does not matter: visiting
      the same entries in any order panics or not alike, and otherwise gives
      the same counts and totals. */
  lemma CountEntriesCommute(entries: seq<DirEntry>, entries': seq<DirEntry>)
    requires multiset(entries) == multiset(entries')
    ensures CountEntries(entries).Done? <==> CountEntries(entries').Done?
    ensures CountEntries(entries).Done? ==> CountEntries(entries) == CountEntries(entries')
  {
    AbortIff(entries);
    AbortIff(entries');
    if exists i :: 0 <= i < |entries| && EntryPanics(entries[i]) {
      var i :| 0 <= i < |entries| && EntryPanics(entries[i]);
      assert entries[i] in multiset(entries');
      var k :| 0 <= k < |entries'| && entries'[k] == entries[i];
    }
    if exists i :: 0 <= i < |entries'| && EntryPanics(entries'[i]) {
      var i :| 0 <= i < |entries'| && EntryPanics(entries'[i]);
      assert entries'[i] in multiset(entries);
      var k :| 0 <= k < |entries| && entries[k] == entries'[i];
    }
    if CountEntries(entries).Done? {
      var t, t' := CountEntries(entries).value, CountEntries(entries').value;
      CountEntriesMeaning(entries, t);
      CountEntriesMeaning(entries', t');
      FlatMapPermutation(entries, entries', EntryAddresses);
      FlatMapPermutation(entries, entries', EntryTexts);
      HistogramOfPermutation(Addresses(entries), Addresses(entries'));
      assert |ReadLines(entries)| == |multiset(ReadLines(entries))| == |multiset(ReadLines(entries'))|;
      assert |entries| == |multiset(entries)| == |entries'|;
    }
  }
}
