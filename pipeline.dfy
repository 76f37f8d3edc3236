/** `main` without its input and output: count the addresses of every log
    line, rank the frequent ones, build the CSV rows and the summary figures. */
module Pipeline {
  import opened Outcomes
  import Ipv4
  import opened Counter
  import opened Ranker
  import opened Report

  /** What a run leaves behind: the rows written to `out.csv` and the three
      figures of the final summary line. */
  datatype Summary = Summary(rows: seq<string>, totalFiles: nat, totalLines: nat, uniqueAddresses: nat)

  /** A whole run over the directory entries, with `lookups` standing for the
      answers of the IP-information service. It panics when counting panics
      or when fewer than 100 addresses pass the threshold; otherwise the rows
      follow `ranking`, a ranking of the frequent addresses, and the figures
      are the number of directory entries, the number of lines read and the
      number of frequent addresses. */
  method Analyze(entries: seq<DirEntry>, lookups: map<Ipv4.Addr, Details>)
    returns (r: Outcome<Summary>, ghost ranking: Ranking)
    ensures CountEntries(entries).Aborted? ==> r == Aborted(CountEntries(entries).reason)
    ensures CountEntries(entries).Done? ==>
              (r.Aborted? <==> |Frequent(CountEntries(entries).value.counts)| < TopSize)
    ensures CountEntries(entries).Done? && r.Aborted? ==> r.reason == SplitOutOfBounds
    ensures r.Done? ==>
              && CountEntries(entries).Done?
              && var counts := CountEntries(entries).value.counts;
              && r.value.totalFiles == |entries|
              && r.value.totalLines == |ReadLines(entries)|
              && r.value.uniqueAddresses == |Frequent(counts)|
              && |ranking.top| == TopSize
              && multiset(ranking.top + ranking.rest) == multiset(FrequentEntries(counts))
              && NonIncreasing(ranking.top + ranking.rest)
              && IsOutput(r.value.rows, ranking, lookups)
  {
    ranking := Ranking([], []);
    var counted := CountAddresses(entries);
    if counted.Aborted? {
      return Aborted(counted.reason), ranking;
    }
    var tally := counted.value;
    CountEntriesMeaning(entries, tally);
    FrequentSize(tally.counts);
    var ranked := Rank(tally.counts);
    if ranked.Aborted? {
      return Aborted(ranked.reason), ranking;
    }
    var split := ranked.value;
    ranking := split;
    var rows := AssembleRows(split.top, split.rest, lookups);
    var unique := |split.top| + |split.rest|;
    assert unique == |multiset(split.top + split.rest)|;
    r := Done(Summary(rows, tally.totalFiles, tally.totalLines, unique));
  }
}
