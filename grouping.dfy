/** The selection step of `render` (main.js:65-66): keep the records of the
    selected countries and scenarios, then group them by country and, inside each
    country, by scenario, as `d3.group` does (keys in order of first appearance,
    records in input order). */
module Grouping {
  import opened Records

  /** `a` is `b` with some elements left out, the rest in their original order. */
  predicate IsSubsequence(a: seq<Record>, b: seq<Record>)
    decreases |b|
  {
    a == [] ||
    (b != [] && ((a[0] == b[0] && IsSubsequence(a[1..], b[1..])) || IsSubsequence(a, b[1..])))
  }

  /** Leaving out elements twice leaves out elements once. */
  lemma {:induction false} SubsequenceTransitive(a: seq<Record>, b: seq<Record>, c: seq<Record>)
    requires IsSubsequence(a, b) && IsSubsequence(b, c)
    ensures IsSubsequence(a, c)
    decreases |c|
  {
    if a == [] {
    } else if b[0] == c[0] && IsSubsequence(b[1..], c[1..]) {
      if a[0] == b[0] && IsSubsequence(a[1..], b[1..]) {
        SubsequenceTransitive(a[1..], b[1..], c[1..]);
      } else {
        SubsequenceTransitive(a, b[1..], c[1..]);
      }
    } else {
      SubsequenceTransitive(a, b, c[1..]);
    }
  }

  /** `s.filter(keep)`. */
  function Filter(s: seq<Record>, keep: Record -> bool): (r: seq<Record>)
    ensures forall d :: d in r <==> d in s && keep(d)
    ensures forall d :: multiset(r)[d] == (if keep(d) then multiset(s)[d] else 0)
    ensures IsSubsequence(r, s)
  {
    if s == [] then []
    else
      assert s == [s[0]] + s[1..];
      if keep(s[0]) then [s[0]] + Filter(s[1..], keep)
      else Filter(s[1..], keep)
  }

  /** The selection of main.js:65: the country is among `countries` and the
      scenario among `scenarios`. */
  predicate Selected(d: Record, countries: seq<string>, scenarios: set<string>)
  {
    d.country in countries && d.scenario in scenarios
  }

  function SelectRecords(data: seq<Record>, countries: seq<string>, scenarios: set<string>): (r: seq<Record>)
    ensures forall d :: d in r <==> d in data && Selected(d, countries, scenarios)
    ensures forall d :: multiset(r)[d] == (if Selected(d, countries, scenarios) then multiset(data)[d] else 0)
    ensures IsSubsequence(r, data)
  {
    Filter(data, d => Selected(d, countries, scenarios))
  }

  lemma {:induction false} FilterNothing(s: seq<Record>, keep: Record -> bool)
    requires forall d :: d in s ==> !keep(d)
    ensures Filter(s, keep) == []
  {
    if s != [] {
      assert s[0] in s;
      assert forall d :: d in s[1..] ==> d in s;
      FilterNothing(s[1..], keep);
    }
  }

  /** With no country selected nothing is selected. */
  lemma SelectNothing(data: seq<Record>, scenarios: set<string>)
    ensures SelectRecords(data, [], scenarios) == []
  {
    FilterNothing(data, d => Selected(d, [], scenarios));
  }

  /** Some record of `s` before position `j` has key `k`. */
  predicate SeenBefore(s: seq<Record>, key: Record -> string, k: string, j: int)
  {
    exists i :: 0 <= i < j && i < |s| && key(s[i]) == k
  }

  /** The keys `ks` come in the order in which they first appear in `s`: wherever a
      later key occurs, every earlier key has already occurred. */
  predicate InFirstAppearanceOrder(ks: seq<string>, s: seq<Record>, key: Record -> string)
  {
    forall p, q, j :: 0 <= p < q < |ks| && 0 <= j < |s| && key(s[j]) == ks[q] ==> SeenBefore(s, key, ks[p], j)
  }

  /** A key of `pre` seen before position `j` is still seen before `j` once
      records are appended. */
  lemma SeenBeforeExtends(pre: seq<Record>, s: seq<Record>, key: Record -> string, k: string, j: int)
    requires |pre| <= |s| && pre == s[..|pre|] && SeenBefore(pre, key, k, j)
    ensures SeenBefore(s, key, k, j)
  {
    var i :| 0 <= i < j && i < |pre| && key(pre[i]) == k;
    assert pre[i] == s[i];
  }

  /** A key that some record of `pre` has is seen before any position after `pre`. */
  lemma SeenInPrefix(pre: seq<Record>, s: seq<Record>, key: Record -> string, k: string)
    requires |pre| <= |s| && pre == s[..|pre|]
    requires exists d :: d in pre && key(d) == k
    ensures SeenBefore(s, key, k, |pre|)
  {
    var d :| d in pre && key(d) == k;
    var i :| 0 <= i < |pre| && pre[i] == d;
    assert pre[i] == s[i];
  }

  /** In first-appearance order, a later key occurring anywhere in `pre` has the
      earlier key before it, also in any extension `s` of `pre`. */
  lemma SeenBeforeLaterKey(pre: seq<Record>, s: seq<Record>, key: Record -> string,
                           init: seq<string>, p: nat, q: nat)
    requires |pre| <= |s| && pre == s[..|pre|]
    requires InFirstAppearanceOrder(init, pre, key)
    requires p < q < |init| && exists d :: d in pre && key(d) == init[q]
    ensures SeenBefore(s, key, init[p], |pre|)
  {
    var d :| d in pre && key(d) == init[q];
    var j :| 0 <= j < |pre| && pre[j] == d;
    assert SeenBefore(pre, key, init[p], j);
    SeenBeforeExtends(pre, s, key, init[p], j);
    var i :| 0 <= i < j && i < |s| && key(s[i]) == init[p];
  }

  /** In first-appearance order, a later key at a position inside `pre` has the
      earlier key before it, also in any extension `s` of `pre`. */
  lemma SeenBeforeInPrefix(pre: seq<Record>, s: seq<Record>, key: Record -> string,
                           init: seq<string>, p: nat, q: nat, j: nat)
    requires |pre| <= |s| && pre == s[..|pre|]
    requires InFirstAppearanceOrder(init, pre, key)
    requires p < q < |init| && j < |pre| && key(s[j]) == init[q]
    ensures SeenBefore(s, key, init[p], j)
  {
    assert pre[j] == s[j];
    assert SeenBefore(pre, key, init[p], j);
    SeenBeforeExtends(pre, s, key, init[p], j);
  }

  /** A key missing from the keys of all but the last record occurs only at the end. */
  lemma NewKeyAtEnd(s: seq<Record>, key: Record -> string, init: seq<string>, j: nat)
    requires s != [] && j < |s|
    requires forall d :: d in s[..|s| - 1] ==> key(d) in init
    requires key(s[|s| - 1]) !in init && key(s[j]) == key(s[|s| - 1])
    ensures j == |s| - 1
  {
  }

  /** Where a later key of `ks` occurs in `s`, the key at `p` has occurred before. */
  lemma {:induction false} OrderStepAt(s: seq<Record>, key: Record -> string, init: seq<string>,
                                       ks: seq<string>, p: nat, q: nat, j: nat)
    requires s != []
    requires forall d :: d in s[..|s| - 1] ==> key(d) in init
    requires forall k :: k in init ==> exists d :: d in s[..|s| - 1] && key(d) == k
    requires InFirstAppearanceOrder(init, s[..|s| - 1], key)
    requires ks == init || (ks == init + [key(s[|s| - 1])] && key(s[|s| - 1]) !in init)
    requires p < q < |ks| && j < |s| && key(s[j]) == ks[q]
    ensures SeenBefore(s, key, ks[p], j)
  {
    var n := |s| - 1;
    var pre := s[..n];
    assert p < |init| && ks[p] == init[p];
    if q < |init| {
      assert ks[q] == init[q];
      if j < n {
        SeenBeforeInPrefix(pre, s, key, init, p, q, j);
      } else {
        // `s[n]` repeats a key that some earlier record already has
        assert init[q] in init;
        SeenBeforeLaterKey(pre, s, key, init, p, q);
      }
    } else {
      // `s[n]` brings the new key, so `j == n`; the earlier key comes from `pre`
      NewKeyAtEnd(s, key, init, j);
      assert init[p] in init;
      SeenInPrefix(pre, s, key, init[p]);
    }
  }

  /** Appending one record to `s` keeps the keys in first-appearance order when its
      key is appended exactly if it is new. */
  lemma KeysOrderStep(s: seq<Record>, key: Record -> string, init: seq<string>, ks: seq<string>)
    requires s != []
    requires forall d :: d in s[..|s| - 1] ==> key(d) in init
    requires forall k :: k in init ==> exists d :: d in s[..|s| - 1] && key(d) == k
    requires InFirstAppearanceOrder(init, s[..|s| - 1], key)
    requires ks == init || (ks == init + [key(s[|s| - 1])] && key(s[|s| - 1]) !in init)
    ensures InFirstAppearanceOrder(ks, s, key)
  {
    forall p, q, j | 0 <= p < q < |ks| && 0 <= j < |s| && key(s[j]) == ks[q]
      ensures SeenBefore(s, key, ks[p], j)
    {
      OrderStepAt(s, key, init, ks, p, q, j);
    }
  }

  /** Appending one record to `s` keeps every property of `Keys` when its key is
      appended exactly if it is new. */
  lemma KeysStep(s: seq<Record>, key: Record -> string, init: seq<string>, ks: seq<string>)
    requires s != []
    requires forall d :: d in s[..|s| - 1] ==> key(d) in init
    requires forall k :: k in init ==> exists d :: d in s[..|s| - 1] && key(d) == k
    requires forall p, q :: 0 <= p < q < |init| ==> init[p] != init[q]
    requires InFirstAppearanceOrder(init, s[..|s| - 1], key)
    requires ks == if key(s[|s| - 1]) in init then init else init + [key(s[|s| - 1])]
    ensures forall d :: d in s ==> key(d) in ks
    ensures forall k :: k in ks ==> exists d :: d in s && key(d) == k
    ensures forall p, q :: 0 <= p < q < |ks| ==> ks[p] != ks[q]
    ensures InFirstAppearanceOrder(ks, s, key)
  {
    KeysOrderStep(s, key, init, ks);
    KeysCoverStep(s, key, init, ks);
    KeysFromStep(s, key, init, ks);
    KeysDistinctStep(s, key, init, ks);
  }

  /** Every record of `s` has its key in `ks`. */
  lemma KeysCoverStep(s: seq<Record>, key: Record -> string, init: seq<string>, ks: seq<string>)
    requires s != []
    requires forall d :: d in s[..|s| - 1] ==> key(d) in init
    requires ks == if key(s[|s| - 1]) in init then init else init + [key(s[|s| - 1])]
    ensures forall d :: d in s ==> key(d) in ks
  {
    var n := |s| - 1;
    var pre, last := s[..n], s[n];
    assert s == pre + [last];
    forall d | d in s ensures key(d) in ks {
      if d != last {
        assert d in pre;
      }
    }
  }

  /** Every key of `ks` is the key of a record of `s`. */
  lemma KeysFromStep(s: seq<Record>, key: Record -> string, init: seq<string>, ks: seq<string>)
    requires s != []
    requires forall k :: k in init ==> exists d :: d in s[..|s| - 1] && key(d) == k
    requires ks == if key(s[|s| - 1]) in init then init else init + [key(s[|s| - 1])]
    ensures forall k :: k in ks ==> exists d :: d in s && key(d) == k
  {
    var n := |s| - 1;
    var pre, last := s[..n], s[n];
    assert s == pre + [last];
    forall k | k in ks ensures exists d :: d in s && key(d) == k {
      if k in init {
        var d :| d in pre && key(d) == k;
        assert d in s;
      } else {
        assert last in s;
      }
    }
  }

  /** Appending a key not yet in `init` keeps the keys distinct. */
  lemma KeysDistinctStep(s: seq<Record>, key: Record -> string, init: seq<string>, ks: seq<string>)
    requires s != []
    requires forall p, q :: 0 <= p < q < |init| ==> init[p] != init[q]
    requires ks == if key(s[|s| - 1]) in init then init else init + [key(s[|s| - 1])]
    ensures forall p, q :: 0 <= p < q < |ks| ==> ks[p] != ks[q]
  {
    forall p, q | 0 <= p < q < |ks| ensures ks[p] != ks[q] {
      if q >= |init| {
        assert ks[p] == init[p] && init[p] in init;
      }
    }
  }

  /** The distinct keys of `s`, in the order in which each first appears. */
  function Keys(s: seq<Record>, key: Record -> string): (ks: seq<string>)
    ensures forall d :: d in s ==> key(d) in ks
    ensures forall k :: k in ks ==> exists d :: d in s && key(d) == k
    ensures forall p, q :: 0 <= p < q < |ks| ==> ks[p] != ks[q]
    ensures InFirstAppearanceOrder(ks, s, key)
  {
    if s == [] then []
    else
      var init := Keys(s[..|s| - 1], key);
      var ks := if key(s[|s| - 1]) in init then init else init + [key(s[|s| - 1])];
      KeysStep(s, key, init, ks);
      ks
  }

  /** One entry of a `d3.group` map: a key and the records that have it. */
  datatype Group = Group(key: string, members: seq<Record>)

  /** No two groups share a key, as in a map. */
  predicate DistinctKeys(gs: seq<Group>)
  {
    forall p, q :: 0 <= p < q < |gs| ==> gs[p].key != gs[q].key
  }

  /** All records of all groups, counted with multiplicity. */
  function AllMembers(gs: seq<Group>): multiset<Record>
  {
    if gs == [] then multiset{}
    else AllMembers(gs[..|gs| - 1]) + multiset(gs[|gs| - 1].members)
  }

  /** The records of `s` whose key is `k`, every copy, in input order. */
  function KeyGroup(s: seq<Record>, key: Record -> string, k: string): (g: Group)
    ensures g.key == k
    ensures forall d :: d in g.members <==> d in s && key(d) == k
    ensures forall d :: multiset(g.members)[d] == (if key(d) == k then multiset(s)[d] else 0)
    ensures IsSubsequence(g.members, s)
  {
    Group(k, Filter(s, d => key(d) == k))
  }

  /** One group per key of `ks`, in the order of `ks`. */
  function KeyGroups(s: seq<Record>, key: Record -> string, ks: seq<string>): (gs: seq<Group>)
    ensures |gs| == |ks| && forall j :: 0 <= j < |ks| ==> gs[j] == KeyGroup(s, key, ks[j])
  {
    if ks == [] then [] else [KeyGroup(s, key, ks[0])] + KeyGroups(s, key, ks[1..])
  }

  /** Groups, one per distinct key of `ks`, each holding every copy of `d` from `s`
      exactly when `d` has its key, hold together every copy of `d` when its key is
      among `ks`, and none otherwise. */
  lemma {:induction false} GroupsCount(s: seq<Record>, key: Record -> string, ks: seq<string>,
                                       gs: seq<Group>, d: Record)
    requires |gs| == |ks|
    requires forall p, q :: 0 <= p < q < |ks| ==> ks[p] != ks[q]
    requires forall j :: 0 <= j < |gs| ==>
               multiset(gs[j].members)[d] == (if key(d) == ks[j] then multiset(s)[d] else 0)
    ensures AllMembers(gs)[d] == if key(d) in ks then multiset(s)[d] else 0
  {
    if gs != [] {
      var n := |gs| - 1;
      GroupsCount(s, key, ks[..n], gs[..n], d);
      assert ks == ks[..n] + [ks[n]];
      if key(d) == ks[n] {
        forall p | 0 <= p < n ensures ks[p] != ks[n] {
        }
        assert key(d) !in ks[..n];
      }
    }
  }

  /** `gs` is `d3.group(s, key)` as far as its users can tell: distinct keys,
      non-empty groups of records with their key in input order, every record in
      the group of its key, and every copy of every record kept exactly once. */
  predicate GroupsOf(gs: seq<Group>, s: seq<Record>, key: Record -> string)
  {
    DistinctKeys(gs) &&
    (forall g :: 0 <= g < |gs| ==> gs[g].members != [] && IsSubsequence(gs[g].members, s)) &&
    (forall g, d :: 0 <= g < |gs| && d in gs[g].members ==> d in s && key(d) == gs[g].key) &&
    (forall d :: d in s ==> exists g :: 0 <= g < |gs| && gs[g].key == key(d) && d in gs[g].members) &&
    AllMembers(gs) == multiset(s)
  }

  /** One group per key of `ks`, the distinct keys of `s` in first-appearance
      order, is what `d3.group` promises: distinct keys, non-empty groups of
      records with their key in input order, and every copy of every record in the
      group of its key. */
  lemma GroupsPartition(s: seq<Record>, key: Record -> string, ks: seq<string>, gs: seq<Group>)
    requires forall d :: d in s ==> key(d) in ks
    requires forall k :: k in ks ==> exists d :: d in s && key(d) == k
    requires forall p, q :: 0 <= p < q < |ks| ==> ks[p] != ks[q]
    requires |gs| == |ks| && forall j :: 0 <= j < |ks| ==> gs[j] == KeyGroup(s, key, ks[j])
    ensures GroupsOf(gs, s, key)
  {
    forall d | d in s
      ensures exists g :: 0 <= g < |gs| && gs[g].key == key(d) && d in gs[g].members
    {
      var g :| 0 <= g < |ks| && ks[g] == key(d);
      assert d in gs[g].members;
    }
    forall g | 0 <= g < |gs|
      ensures gs[g].members != []
    {
      assert ks[g] in ks;
      var d :| d in s && key(d) == ks[g];
      assert d in gs[g].members;
    }
    forall d
      ensures AllMembers(gs)[d] == multiset(s)[d]
    {
      GroupsCount(s, key, ks, gs, d);
    }
  }

  /** The groups `gs` carry the keys `ks`, one each, in that order. */
  predicate KeyedInOrder(gs: seq<Group>, ks: seq<string>)
  {
    |gs| == |ks| && forall j :: 0 <= j < |gs| ==> gs[j].key == ks[j]
  }

  /** `d3.group(s, key)`: one group per distinct key, in order of first appearance,
      each holding the records with that key in input order; together the groups
      hold every record of `s` exactly as often as `s` does. */
  function GroupBy(s: seq<Record>, key: Record -> string): (gs: seq<Group>)
    ensures GroupsOf(gs, s, key)
    ensures KeyedInOrder(gs, Keys(s, key))
    ensures forall j :: 0 <= j < |gs| ==> gs[j] == KeyGroup(s, key, gs[j].key)
  {
    var ks := Keys(s, key);
    var gs := KeyGroups(s, key, ks);
    GroupsPartition(s, key, ks, gs);
    gs
  }

  /** The nested map of main.js:66: per country, its records grouped by scenario. */
  datatype CountryGroup = CountryGroup(country: string, byScenario: seq<Group>)

  /** `cg` holds records of `s` from its own country only, one group per distinct
      scenario, each group a non-empty subsequence of `s`, in input order. */
  predicate CountryGroupOf(cg: CountryGroup, s: seq<Record>)
  {
    DistinctKeys(cg.byScenario) &&
    (forall g :: 0 <= g < |cg.byScenario| ==>
       cg.byScenario[g].members != [] && IsSubsequence(cg.byScenario[g].members, s)) &&
    (forall g, d :: 0 <= g < |cg.byScenario| && d in cg.byScenario[g].members ==>
       d in s && d.country == cg.country && d.scenario == cg.byScenario[g].key)
  }

  /** The keys of the two levels of main.js:66. */
  function CountryOf(d: Record): string { d.country }

  function ScenarioOf(d: Record): string { d.scenario }

  /** The scenario map of one country's group: `d3.group` of its records by
      scenario, so every copy of each of its records lands in exactly one
      scenario group. */
  function ScenarioGroups(c: Group): (cg: CountryGroup)
    ensures cg.country == c.key
    ensures GroupsOf(cg.byScenario, c.members, ScenarioOf)
    ensures KeyedInOrder(cg.byScenario, Keys(c.members, ScenarioOf))
  {
    CountryGroup(c.key, GroupBy(c.members, ScenarioOf))
  }

  /** The scenario map of a country group of `s` is a `CountryGroupOf` of `s`. */
  lemma ScenarioGroupsIn(c: Group, s: seq<Record>)
    requires IsSubsequence(c.members, s)
    requires forall d :: d in c.members ==> d in s && CountryOf(d) == c.key
    ensures CountryGroupOf(ScenarioGroups(c), s)
  {
    var scen := ScenarioGroups(c).byScenario;
    forall g | 0 <= g < |scen| ensures IsSubsequence(scen[g].members, s) {
      SubsequenceTransitive(scen[g].members, c.members, s);
    }
  }

  /** Grouping each country group of `s` by scenario keeps it inside `s`. */
  lemma CountryGroupsIn(s: seq<Record>, byCountry: seq<Group>)
    requires GroupsOf(byCountry, s, CountryOf)
    ensures forall c :: 0 <= c < |byCountry| ==> CountryGroupOf(ScenarioGroups(byCountry[c]), s)
  {
    forall c | 0 <= c < |byCountry| ensures CountryGroupOf(ScenarioGroups(byCountry[c]), s) {
      ScenarioGroupsIn(byCountry[c], s);
    }
  }

  /** The scenario map of each country group, in the order of the countries. */
  function CountryGroups(byCountry: seq<Group>): (cs: seq<CountryGroup>)
    ensures |cs| == |byCountry|
    ensures forall c :: 0 <= c < |cs| ==> cs[c] == ScenarioGroups(byCountry[c])
  {
    if byCountry == [] then []
    else [ScenarioGroups(byCountry[0])] + CountryGroups(byCountry[1..])
  }

  /** All records of all countries' scenario groups, counted with multiplicity. */
  function CountryMembers(cs: seq<CountryGroup>): multiset<Record>
  {
    if cs == [] then multiset{}
    else CountryMembers(cs[..|cs| - 1]) + AllMembers(cs[|cs| - 1].byScenario)
  }

  /** Regrouping each country's records by scenario keeps every country's records,
      with multiplicity. */
  lemma {:induction false} CountryMembersCount(byCountry: seq<Group>, cs: seq<CountryGroup>)
    requires |cs| == |byCountry|
    requires forall c :: 0 <= c < |cs| ==> AllMembers(cs[c].byScenario) == multiset(byCountry[c].members)
    ensures CountryMembers(cs) == AllMembers(byCountry)
  {
    if cs != [] {
      var n := |cs| - 1;
      forall c | 0 <= c < n
        ensures AllMembers(cs[..n][c].byScenario) == multiset(byCountry[..n][c].members)
      {
        assert cs[..n][c] == cs[c] && byCountry[..n][c] == byCountry[c];
      }
      CountryMembersCount(byCountry[..n], cs[..n]);
      assert AllMembers(cs[n].byScenario) == multiset(byCountry[n].members);
    }
  }

  /** The country groups built from `byCountry`, the groups of `s` by country, are
      what the nested `d3.group` promises. */
  lemma CountryGroupsOf(s: seq<Record>, byCountry: seq<Group>, cs: seq<CountryGroup>)
    requires byCountry == GroupBy(s, CountryOf)
    requires |cs| == |byCountry| && forall c :: 0 <= c < |cs| ==> cs[c] == ScenarioGroups(byCountry[c])
    ensures forall p, q :: 0 <= p < q < |cs| ==> cs[p].country != cs[q].country
    ensures forall c :: 0 <= c < |cs| ==> CountryGroupOf(cs[c], s)
    ensures CountryMembers(cs) == multiset(s)
  {
    CountryGroupsIn(s, byCountry);
    CountryMembersCount(byCountry, cs);
  }

  /** `d3.group(s, d => d.country, d => d.scenario)`: distinct countries, each with
      its own scenario groups, and every copy of every record kept once. */
  function GroupByCountryScenario(s: seq<Record>): (cs: seq<CountryGroup>)
    ensures forall p, q :: 0 <= p < q < |cs| ==> cs[p].country != cs[q].country
    ensures forall c :: 0 <= c < |cs| ==> CountryGroupOf(cs[c], s)
    ensures CountryMembers(cs) == multiset(s)
    ensures CountriesInOrder(cs, Keys(s, CountryOf))
    ensures forall c :: 0 <= c < |cs| ==>
              KeyedInOrder(cs[c].byScenario, Keys(KeyGroup(s, CountryOf, cs[c].country).members, ScenarioOf))
  {
    var byCountry := GroupBy(s, CountryOf);
    var cs := CountryGroups(byCountry);
    CountryGroupsOf(s, byCountry, cs);
    CountryGroupsOrder(s, byCountry, cs);
    cs
  }

  /** The country groups carry the countries `ks`, one each, in that order. */
  predicate CountriesInOrder(cs: seq<CountryGroup>, ks: seq<string>)
  {
    |cs| == |ks| && forall c :: 0 <= c < |cs| ==> cs[c].country == ks[c]
  }

  /** Countries come in order of first appearance in `s`, and inside each country
      the scenarios in order of first appearance among that country's records. */
  lemma CountryGroupsOrder(s: seq<Record>, byCountry: seq<Group>, cs: seq<CountryGroup>)
    requires byCountry == GroupBy(s, CountryOf)
    requires |cs| == |byCountry| && forall c :: 0 <= c < |cs| ==> cs[c] == ScenarioGroups(byCountry[c])
    ensures CountriesInOrder(cs, Keys(s, CountryOf))
    ensures forall c :: 0 <= c < |cs| ==>
              KeyedInOrder(cs[c].byScenario, Keys(KeyGroup(s, CountryOf, cs[c].country).members, ScenarioOf))
  {
    forall c | 0 <= c < |cs|
      ensures KeyedInOrder(cs[c].byScenario, Keys(KeyGroup(s, CountryOf, cs[c].country).members, ScenarioOf))
    {
      assert byCountry[c] == KeyGroup(s, CountryOf, byCountry[c].key);
    }
  }

  /** A record counted by `AllMembers(gs)` lies in one of the groups. */
  lemma {:induction false} InSomeGroup(gs: seq<Group>, d: Record)
    requires AllMembers(gs)[d] > 0
    ensures exists g :: 0 <= g < |gs| && d in gs[g].members
  {
    var n := |gs| - 1;
    if d !in gs[n].members {
      InSomeGroup(gs[..n], d);
      var g :| 0 <= g < n && d in gs[..n][g].members;
      assert gs[g] == gs[..n][g];
    }
  }

  /** A record counted by `CountryMembers(cs)` lies in one of the country groups. */
  lemma {:induction false} InSomeCountry(cs: seq<CountryGroup>, d: Record)
    requires CountryMembers(cs)[d] > 0
    ensures exists c :: 0 <= c < |cs| && AllMembers(cs[c].byScenario)[d] > 0
  {
    var n := |cs| - 1;
    if AllMembers(cs[n].byScenario)[d] == 0 {
      InSomeCountry(cs[..n], d);
      var c :| 0 <= c < n && AllMembers(cs[..n][c].byScenario)[d] > 0;
      assert cs[c] == cs[..n][c];
    }
  }

  /** Country groups of `s` that count every record of `s` hold each one in the
      group of its country and scenario. */
  lemma CoverageFrom(s: seq<Record>, cs: seq<CountryGroup>, d: Record)
    requires forall c :: 0 <= c < |cs| ==> CountryGroupOf(cs[c], s)
    requires CountryMembers(cs) == multiset(s)
    requires d in s
    ensures exists c :: 0 <= c < |cs| && cs[c].country == d.country &&
              exists g :: 0 <= g < |cs[c].byScenario| && cs[c].byScenario[g].key == d.scenario &&
                d in cs[c].byScenario[g].members
  {
    InSomeCountry(cs, d);
    var c :| 0 <= c < |cs| && AllMembers(cs[c].byScenario)[d] > 0;
    InSomeGroup(cs[c].byScenario, d);
    var g :| 0 <= g < |cs[c].byScenario| && d in cs[c].byScenario[g].members;
    assert CountryGroupOf(cs[c], s);
  }

  /** Grouping loses no record: each one lies in the group of its country and scenario. */
  lemma GroupedCoverage(s: seq<Record>, d: Record)
    requires d in s
    ensures var cs := GroupByCountryScenario(s);
            exists c :: 0 <= c < |cs| && cs[c].country == d.country &&
              exists g :: 0 <= g < |cs[c].byScenario| && cs[c].byScenario[g].key == d.scenario &&
                d in cs[c].byScenario[g].members
  {
    CoverageFrom(s, GroupByCountryScenario(s), d);
  }

  /** Filtering then grouping (main.js:65-66): every grouped record comes from
      `data`, belongs to a selected country and a selected scenario, and each group
      keeps the relative input order of its records. */
  lemma SelectionGroups(data: seq<Record>, countries: seq<string>, scenarios: set<string>)
    ensures var cs := GroupByCountryScenario(SelectRecords(data, countries, scenarios));
            forall c, g, d :: 0 <= c < |cs| && 0 <= g < |cs[c].byScenario| && d in cs[c].byScenario[g].members ==>
              d in data && d.country in countries && d.scenario in scenarios
    ensures var cs := GroupByCountryScenario(SelectRecords(data, countries, scenarios));
            forall c, g :: 0 <= c < |cs| && 0 <= g < |cs[c].byScenario| ==>
              IsSubsequence(cs[c].byScenario[g].members, data)
  {
    var sel := SelectRecords(data, countries, scenarios);
    var cs := GroupByCountryScenario(sel);
    forall c, g | 0 <= c < |cs| && 0 <= g < |cs[c].byScenario|
      ensures IsSubsequence(cs[c].byScenario[g].members, data)
    {
      assert CountryGroupOf(cs[c], sel);
      SubsequenceTransitive(cs[c].byScenario[g].members, sel, data);
    }
  }

  /** A record of `data` from a selected country and scenario is charted. */
  lemma SelectedRecordGrouped(data: seq<Record>, countries: seq<string>, scenarios: set<string>, d: Record)
    requires d in data && Selected(d, countries, scenarios)
    ensures var cs := GroupByCountryScenario(SelectRecords(data, countries, scenarios));
            exists c :: 0 <= c < |cs| && cs[c].country == d.country &&
              exists g :: 0 <= g < |cs[c].byScenario| && cs[c].byScenario[g].key == d.scenario &&
                d in cs[c].byScenario[g].members
  {
    GroupedCoverage(SelectRecords(data, countries, scenarios), d);
  }
}
