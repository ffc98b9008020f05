/**
  The local prefix table (pipeline/enrichment/asn.py): sorted once by descending prefix length, then
  scanned for the first network that contains the address.
 */
module AsnTable {
  import opened Wrappers
  import opened Sequences

  datatype Version = V4 | V6
  {
    function Bits(): nat { match this case V4 => 32 case V6 => 128 }
  }

  /** An address as an integer; a network as the address and length of its prefix. */
  datatype Address = Address(version: Version, value: nat)

  datatype Network = Network(version: Version, base: nat, prefixLen: nat)

  datatype Entry = Entry(network: Network, asn: int, org: string)

  function Pow2(n: nat): (r: nat)
    ensures r > 0
  {
    if n == 0 then 1 else 2 * Pow2(n - 1)
  }

  /** `addr in network`: the leading prefixLen bits agree. */
  predicate Contains(n: Network, a: Address) {
    && n.prefixLen <= n.version.Bits()
    && a.value / Pow2(n.version.Bits() - n.prefixLen) == n.base / Pow2(n.version.Bits() - n.prefixLen)
  }

  predicate Matches(e: Entry, a: Address) {
    a.version == e.network.version && Contains(e.network, a)
  }

  /** An address is in a network if and only if it is of its version and lies in the block of 2^(bits - prefixLen)
      addresses around the network's base. */
  lemma MatchesIff(e: Entry, a: Address)
    requires e.network.prefixLen <= e.network.version.Bits()
    ensures var size := Pow2(e.network.version.Bits() - e.network.prefixLen);
      var first := e.network.base - e.network.base % size;
      Matches(e, a) <==> a.version == e.network.version && first <= a.value < first + size
  {
    SameBlock(a.value, e.network.base, Pow2(e.network.version.Bits() - e.network.prefixLen));
  }

  lemma SameBlock(x: nat, y: nat, size: nat)
    requires size > 0
    ensures x / size == y / size <==> y - y % size <= x < y - y % size + size
  {
    var q := y / size;
    assert y - y % size == q * size;
    if q * size <= x < q * size + size {
      BlockNumber(x, size, q);
    } else {
      assert x / size * size <= x < x / size * size + size;
    }
  }

  lemma BlockNumber(x: nat, size: nat, q: nat)
    requires size > 0 && q * size <= x < q * size + size
    ensures x / size == q
  {
    var r := x - q * size;
    assert x == q * size + r;
    var p := x / size;
    assert p * size <= x < p * size + size;
    if p < q {
      MultiplesApart(p, q, size);
    } else if q < p {
      MultiplesApart(q, p, size);
    }
  }

  lemma MultiplesApart(p: nat, q: nat, size: nat)
    requires p < q
    ensures p * size + size <= q * size
  {
    var gap := q - p - 1;
    assert q * size == p * size + gap * size + size;
  }

  /** A full-length prefix holds its base alone; any other compares all but the last bit as the next longer prefix
      does. Together they say that the first prefixLen bits are compared, of 32 for version 4 and 128 for version 6. */
  lemma LeadingBitsCompared(n: Network, value: nat)
    ensures n.prefixLen == (if n.version == V4 then 32 else 128) ==>
      (Contains(n, Address(n.version, value)) <==> value == n.base)
    ensures n.prefixLen < (if n.version == V4 then 32 else 128) ==>
      (Contains(n, Address(n.version, value))
       <==> Contains(Network(n.version, n.base / 2, n.prefixLen + 1), Address(n.version, value / 2)))
    ensures n.prefixLen > (if n.version == V4 then 32 else 128) ==> !Contains(n, Address(n.version, value))
  {
    if n.prefixLen < n.version.Bits() {
      var rest := Pow2(n.version.Bits() - n.prefixLen - 1);
      DivideTwice(value, rest);
      DivideTwice(n.base, rest);
    } else if n.prefixLen == n.version.Bits() {
      assert Pow2(0) == 1;
    }
  }

  lemma DivideTwice(x: nat, d: nat)
    requires d > 0
    ensures x / (2 * d) == x / 2 / d
  {
    var q := x / 2 / d;
    var r := x / 2 - q * d;
    assert 0 <= r < d;
    assert q * (2 * d) == 2 * (q * d);
    BlockNumber(x, 2 * d, q);
  }

  /** The sort key, reversed: longer prefixes first, equal lengths in file order. */
  predicate LongerFirst(a: Entry, b: Entry) { a.network.prefixLen >= b.network.prefixLen }

  function Sorted(file: seq<Entry>): seq<Entry> { StableSort(file, LongerFirst) }

  /** The table is built and sorted once, then reused by every lookup. */
  class PrefixTable {
    var loaded: bool
    var table: seq<Entry>

    /** Either nothing was loaded yet, or the table is the sorted file. */
    ghost predicate Valid(file: seq<Entry>)
      reads this
    {
      loaded ==> table == Sorted(file)
    }

    constructor ()
      ensures !loaded
    {
      loaded, table := false, [];
    }

    method GetPrefixTable(file: seq<Entry>) returns (t: seq<Entry>)
      requires Valid(file)
      modifies this
      ensures loaded && Valid(file) && t == Sorted(file)
    {
      if !loaded {
        var rows: seq<Entry> := [];
        for k := 0 to |file|
          invariant rows == file[..k]
        {
          rows := rows + [file[k]];
        }
        assert file[..|file|] == file;
        table := StableSort(rows, LongerFirst);
        loaded := true;
      }
      t := table;
    }

    /** The scan of `lookup`, for a public address and no other database. */
    method Lookup(file: seq<Entry>, a: Address) returns (r: Option<Entry>)
      requires Valid(file)
      modifies this
      ensures Valid(file)
      ensures r == LongestMatch(file, a)
    {
      hide Matches, Sorted, LongestMatch;
      var t := GetPrefixTable(file);
      for k := 0 to |t|
        invariant forall j :: 0 <= j < k ==> !Matches(t[j], a)
      {
        if Matches(t[k], a) {
          FirstMatchIsLongest(file, a, k);
          return Some(t[k]);
        }
      }
      NoMatch(file, a);
      return None;
    }
  }

  // -------------------------------------------------------------- specification

  /** Routing: of all entries that match, one with the longest prefix; among those the first in the
      file. */
  ghost predicate IsLongestMatch(file: seq<Entry>, a: Address, i: nat) {
    && i < |file| && Matches(file[i], a)
    && (forall j :: 0 <= j < |file| && Matches(file[j], a) ==> file[j].network.prefixLen <= file[i].network.prefixLen)
    && (forall j :: 0 <= j < i && Matches(file[j], a) ==> file[j].network.prefixLen < file[i].network.prefixLen)
  }

  lemma LongestMatchUnique(file: seq<Entry>, a: Address, i: nat, j: nat)
    requires IsLongestMatch(file, a, i) && IsLongestMatch(file, a, j)
    ensures i == j
  {
    hide Matches;
  }

  ghost function LongestMatch(file: seq<Entry>, a: Address): Option<Entry> {
    if exists i: nat :: IsLongestMatch(file, a, i) then
      var i: nat :| IsLongestMatch(file, a, i);
      Some(file[i])
    else None
  }

  // --------------------------------------------- first match of the sorted table

  function Rival(a: Address, length: nat): Entry -> bool {
    (e: Entry) => Matches(e, a) && e.network.prefixLen == length
  }

  lemma {:induction false} FirstOfFilter(s: seq<Entry>, keep: Entry -> bool, k: nat)
    requires k < |s| && keep(s[k]) && forall j :: 0 <= j < k ==> !keep(s[j])
    ensures Filter(s, keep) != [] && Filter(s, keep)[0] == s[k]
  {
    if k > 0 {
      assert forall j :: 0 <= j < k - 1 ==> s[1..][j] == s[j + 1];
      FirstOfFilter(s[1..], keep, k - 1);
      assert !keep(s[0]);
      assert [] + Filter(s[1..], keep) == Filter(s[1..], keep);
    }
  }

  lemma SortedFacts(file: seq<Entry>, keep: Entry -> bool)
    requires forall x, y :: keep(x) && keep(y) ==> LongerFirst(x, y)
    ensures Ordered(Sorted(file), LongerFirst)
    ensures multiset(Sorted(file)) == multiset(file)
    ensures Filter(Sorted(file), keep) == Filter(file, keep)
  {
    assert TotalPreorder(LongerFirst);
    SortOrdered(file, LongerFirst);
    SortMultiset(file, LongerFirst);
    SortStable(file, LongerFirst, keep);
  }

  /** The first entry of a list that satisfies a predicate. */
  lemma {:induction false} FirstIndex(s: seq<Entry>, keep: Entry -> bool) returns (i: nat)
    requires Filter(s, keep) != []
    ensures i < |s| && keep(s[i]) && forall j :: 0 <= j < i ==> !keep(s[j])
  {
    if keep(s[0]) {
      i := 0;
    } else {
      var k := FirstIndex(s[1..], keep);
      i := k + 1;
      forall j | 0 <= j < i ensures !keep(s[j]) {
        assert j > 0 ==> s[j] == s[1..][j - 1];
      }
    }
  }

  /** The first match in the sorted table is the longest-prefix match. */
  lemma FirstMatchIsLongest(file: seq<Entry>, a: Address, k: nat)
    requires var t := Sorted(file);
      k < |t| && Matches(t[k], a) && forall j :: 0 <= j < k ==> !Matches(t[j], a)
    ensures LongestMatch(file, a) == Some(Sorted(file)[k])
  {
    hide Matches, Sorted, Filter;
    var t := Sorted(file);
    var length := t[k].network.prefixLen;
    var keep := Rival(a, length);
    SortedFacts(file, keep);
    FirstOfFilter(t, keep, k);
    var i := FirstIndex(file, keep);
    FirstOfFilter(file, keep, i);
    assert file[i] == t[k];
    SameMembers(file, t);
    forall j | 0 <= j < |file| && Matches(file[j], a)
      ensures file[j].network.prefixLen <= length
    {
      assert file[j] in t;
      var m :| 0 <= m < |t| && t[m] == file[j];
      assert m == k || LongerFirst(t[k], t[m]);
    }
    forall j | 0 <= j < i && Matches(file[j], a) ensures file[j].network.prefixLen < length {
      assert !keep(file[j]);
    }
    assert IsLongestMatch(file, a, i);
    var n: nat :| IsLongestMatch(file, a, n) && LongestMatch(file, a) == Some(file[n]);
    LongestMatchUnique(file, a, i, n);
  }

  lemma NoMatch(file: seq<Entry>, a: Address)
    requires var t := Sorted(file); forall j :: 0 <= j < |t| ==> !Matches(t[j], a)
    ensures LongestMatch(file, a) == None
  {
    hide Matches, Sorted;
    SortedFacts(file, (e: Entry) => false);
    SameMembers(file, Sorted(file));
    forall i: nat ensures !IsLongestMatch(file, a, i) {
      assert i < |file| ==> file[i] in Sorted(file);
    }
  }
}
