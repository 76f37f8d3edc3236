/** Threshold, rank and split: the entries counted more than 100 times,
    sorted by count from the highest, and cut after the first 100. */
module Ranker {
  import opened Outcomes
  import Ipv4

  /** Counts must exceed this to be reported. */
  const Threshold: nat := 100
  /** How many of the most frequent addresses are looked up. */
  const TopSize: nat := 100

  /** An element of `address_vec`: an address with its count. */
  datatype Entry = Entry(addr: Ipv4.Addr, count: nat)

  /** The result of the split: the looked-up part and the remainder. */
  datatype Ranking = Ranking(top: seq<Entry>, rest: seq<Entry>)

  /** The filter closure `|w| w.1 > &100`. */
  predicate IsFrequent(count: nat) {
    count > Threshold
  }

  /** The addresses whose count passes the filter. */
  function Frequent(counts: map<Ipv4.Addr, nat>): set<Ipv4.Addr> {
    set a | a in counts && IsFrequent(counts[a])
  }

  /** The map entries, among those of `keys`, whose count passes the filter. */
  function FrequentAmong(counts: map<Ipv4.Addr, nat>, keys: set<Ipv4.Addr>): set<Entry> {
    set a | a in keys && a in counts && IsFrequent(counts[a]) :: Entry(a, counts[a])
  }

  /** All the map entries whose count passes the filter. */
  function FrequentEntries(counts: map<Ipv4.Addr, nat>): set<Entry> {
    FrequentAmong(counts, counts.Keys)
  }

  /** Counts never increase along the sequence. */
  predicate NonIncreasing(s: seq<Entry>) {
    forall i, j :: 0 <= i < j < |s| ==> s[i].count >= s[j].count
  }

  /** `address_counts.iter().filter(..).collect()`: the map is visited in an
      order the program does not control, so each step picks any address not
      yet visited. The result holds each frequent entry exactly once. */
  method CollectFrequent(counts: map<Ipv4.Addr, nat>) returns (v: seq<Entry>)
    ensures multiset(v) == multiset(FrequentEntries(counts))
  {
    v := [];
    var remaining := counts.Keys;
    while remaining != {}
      invariant remaining <= counts.Keys
      invariant multiset(v) == multiset(FrequentAmong(counts, counts.Keys - remaining))
      decreases |remaining|
    {
      var a :| a in remaining;
      ghost var visited := counts.Keys - remaining;
      if IsFrequent(counts[a]) {
        var e := Entry(a, counts[a]);
        assert FrequentAmong(counts, visited + {a}) == FrequentAmong(counts, visited) + {e};
        assert e !in FrequentAmong(counts, visited);
        v := v + [e];
      } else {
        assert FrequentAmong(counts, visited + {a}) == FrequentAmong(counts, visited);
      }
      remaining := remaining - {a};
      assert counts.Keys - remaining == visited + {a};
    }
  }

  /** `address_vec.sort_by(|a, b| b.1.cmp(a.1))`: the vector is rearranged in
      place so that counts never increase along it. */
  method SortByCountDesc(a: array<Entry>)
    modifies a
    ensures NonIncreasing(a[..])
    ensures multiset(a[..]) == old(multiset(a[..]))
  {
    if a.Length <= 1 {
      return;
    }
    for i := 1 to a.Length
      invariant forall p, q :: 0 <= p < q < i ==> a[p].count >= a[q].count
      invariant multiset(a[..]) == old(multiset(a[..]))
    {
      InsertBack(a, i);
    }
  }

  /** One step of the sort: given a prefix of length `i` in order, moves
      `a[i]` towards the front past every smaller count, so that the prefix
      of length `i + 1` is in order, holds the same entries as before, and
      nothing after it moves. */
  method InsertBack(a: array<Entry>, i: nat)
    requires i < a.Length
    requires forall p, q :: 0 <= p < q < i ==> a[p].count >= a[q].count
    modifies a
    ensures forall p, q :: 0 <= p < q <= i ==> a[p].count >= a[q].count
    ensures multiset(a[..i + 1]) == old(multiset(a[..i + 1]))
    ensures a[i + 1..] == old(a[i + 1..])
    ensures multiset(a[..]) == old(multiset(a[..]))
  {
    var j := i;
    while j > 0 && a[j - 1].count < a[j].count
      invariant 0 <= j <= i
      invariant forall p, q :: 0 <= p < q <= i && p != j && q != j ==> a[p].count >= a[q].count
      invariant forall q :: j < q <= i ==> a[j].count > a[q].count
      invariant forall p :: i < p < a.Length ==> a[p] == old(a[p])
      invariant multiset(a[..]) == old(multiset(a[..]))
    {
      SwapAdjacent(a, j);
      j := j - 1;
    }
    assert a[i + 1..] == old(a[i + 1..]);
    PrefixOfPermutation(old(a[..]), a[..], i + 1);
  }

  method SwapAdjacent(a: array<Entry>, j: nat)
    requires 0 < j < a.Length
    modifies a
    ensures a[..] == old(a[..])[j - 1 := old(a[j])][j := old(a[j - 1])]
    ensures multiset(a[..]) == old(multiset(a[..]))
  {
    a[j - 1], a[j] := a[j], a[j - 1];
  }

  /** Two permutations of each other that agree from `k` on are
      permutations of each other before `k` as well. */
  lemma PrefixOfPermutation(s: seq<Entry>, t: seq<Entry>, k: nat)
    requires k <= |s| == |t|
    requires multiset(t) == multiset(s) && t[k..] == s[k..]
    ensures multiset(t[..k]) == multiset(s[..k])
  {
    assert s == s[..k] + s[k..];
    assert t == t[..k] + t[k..];
    assert multiset(t[..k]) == multiset(t) - multiset(t[k..]);
    assert multiset(s[..k]) == multiset(s) - multiset(s[k..]);
  }

  /** `split_at(n)`: the first `n` elements and the rest; it panics when
      there are fewer than `n`. */
  function SplitAt(s: seq<Entry>, n: nat): (r: Outcome<Ranking>)
    ensures r.Aborted? <==> |s| < n
    ensures r.Aborted? ==> r.reason == SplitOutOfBounds
    ensures r.Done? ==> |r.value.top| == n && r.value.top + r.value.rest == s
  {
    if |s| < n then Aborted(SplitOutOfBounds)
    else
      assert s[..n] + s[n..] == s;
      Done(Ranking(s[..n], s[n..]))
  }

  /** Filter, sort and split. Unless it panics for want of 100 frequent
      addresses, the two parts together hold each frequent entry exactly once,
      in an order where counts never increase, and the first part has 100. */
  method Rank(counts: map<Ipv4.Addr, nat>) returns (r: Outcome<Ranking>)
    ensures r.Aborted? <==> |FrequentEntries(counts)| < TopSize
    ensures r.Aborted? ==> r.reason == SplitOutOfBounds
    ensures r.Done? ==> |r.value.top| == TopSize
    ensures r.Done? ==> multiset(r.value.top + r.value.rest) == multiset(FrequentEntries(counts))
    ensures r.Done? ==> NonIncreasing(r.value.top + r.value.rest)
  {
    var v := CollectFrequent(counts);
    var a := new Entry[|v|](k requires 0 <= k < |v| => v[k]);
    assert a[..] == v;
    SortByCountDesc(a);
    var sorted := a[..];
    assert |sorted| == |multiset(sorted)| == |multiset(FrequentEntries(counts))| == |FrequentEntries(counts)|;
    r := SplitAt(sorted, TopSize);
  }

  /** After the split, each part is in order and every count in the first
      part is at least every count in the second. */
  lemma RankingOrder(r: Ranking)
    requires NonIncreasing(r.top + r.rest)
    ensures NonIncreasing(r.top) && NonIncreasing(r.rest)
    ensures forall i, j :: 0 <= i < |r.top| && 0 <= j < |r.rest| ==> r.top[i].count >= r.rest[j].count
  {
    var s := r.top + r.rest;
    forall i, j | 0 <= i < |r.top| && 0 <= j < |r.rest|
      ensures r.top[i].count >= r.rest[j].count
    {
      assert s[i] == r.top[i] && s[|r.top| + j] == r.rest[j];
    }
    forall i, j | 0 <= i < j < |r.top|
      ensures r.top[i].count >= r.top[j].count
    {
      assert s[i] == r.top[i] && s[j] == r.top[j];
    }
    forall i, j | 0 <= i < j < |r.rest|
      ensures r.rest[i].count >= r.rest[j].count
    {
      assert s[|r.top| + i] == r.rest[i] && s[|r.top| + j] == r.rest[j];
    }
  }

  lemma RepeatedElement(s: seq<Entry>, i: nat, j: nat)
    requires i < j < |s| && s[i] == s[j]
    ensures multiset(s)[s[i]] >= 2
  {
    assert s == s[..i] + [s[i]] + s[i + 1..j] + [s[j]] + s[j + 1..];
  }

  /** A sequence with the multiset of the frequent entries holds exactly the
      map entries whose count exceeds the threshold, with their counts, and
      no address twice. */
  lemma RankedExactly(s: seq<Entry>, counts: map<Ipv4.Addr, nat>)
    requires multiset(s) == multiset(FrequentEntries(counts))
    ensures forall e :: e in s <==> e.addr in counts && e.count == counts[e.addr] && IsFrequent(e.count)
    ensures forall i, j :: 0 <= i < j < |s| ==> s[i].addr != s[j].addr
  {
    forall e ensures e in s <==> e in FrequentEntries(counts) {
      assert e in s <==> e in multiset(s);
    }
    forall i, j | 0 <= i < j < |s| ensures s[i].addr != s[j].addr {
      if s[i].addr == s[j].addr {
        assert s[i] in multiset(s) && s[j] in multiset(s);
        assert s[i] == s[j];
        RepeatedElement(s, i, j);
      }
    }
  }

  lemma {:induction false} FrequentAmongSize(counts: map<Ipv4.Addr, nat>, keys: set<Ipv4.Addr>)
    ensures |FrequentAmong(counts, keys)| == |keys * Frequent(counts)|
    decreases |keys|
  {
    if keys != {} {
      var a :| a in keys;
      var smaller := keys - {a};
      FrequentAmongSize(counts, smaller);
      FrequentAmongAdd(counts, smaller, a);
      assert smaller + {a} == keys;
    }
  }

  lemma FrequentAmongAdd(counts: map<Ipv4.Addr, nat>, keys: set<Ipv4.Addr>, a: Ipv4.Addr)
    requires a !in keys
    ensures |FrequentAmong(counts, keys + {a})| ==
              |FrequentAmong(counts, keys)| + (if a in Frequent(counts) then 1 else 0)
    ensures |(keys + {a}) * Frequent(counts)| ==
              |keys * Frequent(counts)| + (if a in Frequent(counts) then 1 else 0)
  {
    var bigger := keys + {a};
    if a in Frequent(counts) {
      var e := Entry(a, counts[a]);
      assert FrequentAmong(counts, bigger) == FrequentAmong(counts, keys) + {e};
      assert e !in FrequentAmong(counts, keys);
      assert bigger * Frequent(counts) == keys * Frequent(counts) + {a};
    } else {
      assert FrequentAmong(counts, bigger) == FrequentAmong(counts, keys);
      assert bigger * Frequent(counts) == keys * Frequent(counts);
    }
  }

  /** The figure printed as "unique addresses", the length of the filtered
      vector, is the number of frequent addresses, not the size of the map. */
  lemma FrequentSize(counts: map<Ipv4.Addr, nat>)
    ensures |FrequentEntries(counts)| == |Frequent(counts)| <= |counts|
  {
    FrequentAmongSize(counts, counts.Keys);
    assert counts.Keys * Frequent(counts) == Frequent(counts);
    var others := counts.Keys - Frequent(counts);
    assert counts.Keys == Frequent(counts) + others;
    assert Frequent(counts) !! others;
  }
}
