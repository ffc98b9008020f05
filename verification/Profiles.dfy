/**
  What a campaign says about its sources as a group (pipeline/analysis/campaigns.py, _summarise): the
  artefacts all of them share, where they come from, and when they were seen.
 */
module Profiles {
  import opened Wrappers
  import opened Sequences
  import opened Similarity

  const SHOWN: nat := 20

  datatype Profile = Profile(
    sharedCredentials: seq<string>,
    sharedPayloads: seq<string>,
    sharedPaths: seq<string>,
    asns: seq<int>,
    countries: seq<string>,
    classifications: seq<string>,
    firstSeen: Option<int>,
    lastSeen: Option<int>)

  /** `set.intersection(*[set(f.facet) for f in group])` */
  function Shared(group: seq<Fingerprint>, facet: Facet): (s: set<string>)
    ensures group != [] ==> forall x :: x in s <==> forall f :: f in group ==> x in f.Get(facet)
  {
    if group == [] then {}
    else if |group| == 1 then group[0].Get(facet)
    else
      assert group == [group[0]] + group[1..];
      group[0].Get(facet) * Shared(group[1..], facet)
  }

  function Asns(group: seq<Fingerprint>): set<int> { set f | f in group && f.asn.Some? :: f.asn.value }

  function Countries(group: seq<Fingerprint>): set<string> { set f | f in group && f.country != "" :: f.country }

  function Classifications(group: seq<Fingerprint>): set<string> {
    set f | f in group && f.classification != "" :: f.classification
  }

  predicate IntLe(a: int, b: int) { a <= b }

  function SortedStrings(s: set<string>): (r: seq<string>)
    ensures Ordered(r, StringLe) && |r| == |s| && forall x :: x in r <==> x in s
  {
    StringLeIsTotalOrder();
    SortedSet(s, StringLe)
  }

  function SortedInts(s: set<int>): (r: seq<int>)
    ensures Ordered(r, IntLe) && |r| == |s| && forall x :: x in r <==> x in s
  {
    SortedSet(s, IntLe)
  }

  function FirstOf<T>(s: seq<T>, n: nat): seq<T> { if |s| <= n then s else s[..n] }

  function HasFirst(f: Fingerprint): bool { f.firstSeen.Some? }

  function HasLast(f: Fingerprint): bool { f.lastSeen.Some? }

  function FirstTime(f: Fingerprint): int { if f.firstSeen.Some? then f.firstSeen.value else 0 }

  function LastTime(f: Fingerprint): int { if f.lastSeen.Some? then f.lastSeen.value else 0 }

  /** `min(firsts) if firsts else None` */
  function Earliest(group: seq<Fingerprint>): (t: Option<int>)
    ensures t == None <==> forall f :: f in group ==> f.firstSeen == None
    ensures t.Some? ==> (exists f :: f in group && f.firstSeen == t)
    ensures t.Some? ==> forall f :: f in group && f.firstSeen.Some? ==> t.value <= f.firstSeen.value
  {
    var seen := Filter(group, HasFirst);
    if seen == [] then None
    else
      assert seen[0] in seen;
      Some(Least(seen, FirstTime))
  }

  /** `max(lasts) if lasts else None` */
  function Latest(group: seq<Fingerprint>): (t: Option<int>)
    ensures t == None <==> forall f :: f in group ==> f.lastSeen == None
    ensures t.Some? ==> (exists f :: f in group && f.lastSeen == t)
    ensures t.Some? ==> forall f :: f in group && f.lastSeen.Some? ==> f.lastSeen.value <= t.value
  {
    var seen := Filter(group, HasLast);
    if seen == [] then None
    else
      assert seen[0] in seen;
      Some(Greatest(seen, LastTime))
  }

  function ProfileOf(group: seq<Fingerprint>): Profile {
    Profile(
      FirstOf(SortedStrings(Shared(group, Credentials)), SHOWN),
      FirstOf(SortedStrings(Shared(group, Payloads)), SHOWN),
      FirstOf(SortedStrings(Shared(group, Paths)), SHOWN),
      SortedInts(Asns(group)),
      SortedStrings(Countries(group)),
      SortedStrings(Classifications(group)),
      Earliest(group),
      Latest(group))
  }

  /** `shown` are the first of the strings that all sources share, in order, and all of them when there is room. */
  ghost predicate ShowsShared(shown: seq<string>, group: seq<Fingerprint>, facet: Facet) {
    && |shown| <= 20 && Ordered(shown, StringLe)
    && (forall x, f :: x in shown && f in group ==> x in f.Get(facet))
    && (forall x :: (forall f :: f in group ==> x in f.Get(facet)) ==>
          x in shown || (|shown| == 20 && forall y :: y in shown ==> StringLe(y, x)))
  }

  lemma SharedShown(group: seq<Fingerprint>, facet: Facet)
    requires group != []
    ensures ShowsShared(FirstOf(SortedStrings(Shared(group, facet)), SHOWN), group, facet)
  {
    hide StringLe, Shared, SortedStrings;
    var all := SortedStrings(Shared(group, facet));
    var shown := FirstOf(all, SHOWN);
    assert shown <= all && forall x :: x in shown ==> x in all;
    forall x | forall f :: f in group ==> x in f.Get(facet)
      ensures x in shown || (|shown| == SHOWN && forall y :: y in shown ==> StringLe(y, x))
    {
      assert x in all;
      var k :| 0 <= k < |all| && all[k] == x;
      if k >= SHOWN {
        forall y | y in shown ensures StringLe(y, x) {
          var j :| 0 <= j < |shown| && shown[j] == y;
          assert all[j] == y;
        }
      } else {
        assert shown[k] == x;
      }
    }
  }

  /** The profile shows what all sources have in common, exactly the origins that occur, and the extreme times. */
  lemma ProfileMeaning(group: seq<Fingerprint>)
    requires group != []
    ensures var p := ProfileOf(group);
      && ShowsShared(p.sharedCredentials, group, Credentials)
      && ShowsShared(p.sharedPayloads, group, Payloads)
      && ShowsShared(p.sharedPaths, group, Paths)
      && (forall n :: n in p.asns <==> exists f :: f in group && f.asn == Some(n))
      && (forall x :: x in p.countries <==> x != "" && exists f :: f in group && f.country == x)
      && (forall x :: x in p.classifications <==> x != "" && exists f :: f in group && f.classification == x)
      && Ordered(p.asns, IntLe) && Ordered(p.countries, StringLe) && Ordered(p.classifications, StringLe)
      && p.firstSeen == Earliest(group) && p.lastSeen == Latest(group)
  {
    hide ShowsShared, Shared, SortedStrings, SortedInts, StringLe, FirstOf, Earliest, Latest, Ordered;
    SharedShown(group, Credentials);
    SharedShown(group, Payloads);
    SharedShown(group, Paths);
  }

  /** The profile depends on which sources are in the group only. */
  lemma ProfileByMembers(g: seq<Fingerprint>, h: seq<Fingerprint>)
    requires g != [] && h != [] && forall f :: f in g <==> f in h
    ensures ProfileOf(g) == ProfileOf(h)
  {
    hide SortedStrings, SortedInts, FirstOf, Shared, Earliest, Latest;
    assert Shared(g, Credentials) == Shared(h, Credentials);
    assert Shared(g, Payloads) == Shared(h, Payloads);
    assert Shared(g, Paths) == Shared(h, Paths);
    assert Asns(g) == Asns(h) && Countries(g) == Countries(h) && Classifications(g) == Classifications(h);
    SameTimes(g, h);
  }

  lemma SameTimes(g: seq<Fingerprint>, h: seq<Fingerprint>)
    requires forall f :: f in g <==> f in h
    ensures Earliest(g) == Earliest(h) && Latest(g) == Latest(h)
  {
    hide Earliest, Latest;
    var e1, e2, l1, l2 := Earliest(g), Earliest(h), Latest(g), Latest(h);
  }
}
