/**
 failure_domains.go: deriving a Harvester cluster's failure domains from its hosts, and the
 way back from a domain name to the node label a machine must schedule on.
 */
module FailureDomains {
  import opened Wrappers

  const ZONE_LABEL := "topology.kubernetes.io/zone"
  const HOSTNAME_LABEL := "kubernetes.io/hostname"
  const TOPOLOGY_KEY_ATTRIBUTE := "topologyKey"

  datatype Node = Node(name: string, labels: map<string, string>)

  datatype FailureDomain = FailureDomain(name: string, controlPlane: bool, attributes: map<string, string>)

  /** Reading a map with the zero value for a missing key. */
  function Lookup(m: map<string, string>, key: string): string {
    if key in m then m[key] else ""
  }

  // ---------------------------------------------------------------- string order

  predicate Less(a: string, b: string) {
    b != "" && (a == "" || a[0] < b[0] || (a[0] == b[0] && Less(a[1..], b[1..])))
  }

  lemma {:induction false} LessTotal(a: string, b: string)
    ensures Less(a, b) || a == b || Less(b, a)
    ensures !(Less(a, b) && Less(b, a)) && !(a == b && Less(a, b))
  {
    if a != "" && b != "" && a[0] == b[0] {
      LessTotal(a[1..], b[1..]);
      assert a == [a[0]] + a[1..] && b == [b[0]] + b[1..];
    }
  }

  lemma {:induction false} LessTransitive(a: string, b: string, c: string)
    requires Less(a, b) && Less(b, c)
    ensures Less(a, c)
  {
    if a != "" && a[0] == b[0] == c[0] {
      LessTransitive(a[1..], b[1..], c[1..]);
    }
  }

  function Elems(names: seq<string>): set<string> {
    set n | n in names
  }

  predicate Sorted(names: seq<string>) {
    forall i, j :: 0 <= i < j < |names| ==> Less(names[i], names[j])
  }

  /** A strictly sorted list is determined by its elements. */
  lemma {:induction false} SortedUnique(a: seq<string>, b: seq<string>)
    requires Sorted(a) && Sorted(b) && Elems(a) == Elems(b)
    ensures a == b
  {
    assert b != [] ==> b[0] in Elems(b);
    if a != [] {
      assert a[0] in Elems(a);
      LessTotal(a[0], b[0]);
      assert a[0] == b[0] by {
        var i :| 0 <= i < |a| && a[i] == b[0];
        var j :| 0 <= j < |b| && b[j] == a[0];
      }
      TailSet(a);
      TailSet(b);
      SortedUnique(a[1..], b[1..]);
    }
  }

  lemma TailSet(a: seq<string>)
    requires Sorted(a) && a != []
    ensures Elems(a[1..]) == Elems(a) - {a[0]}
  {
    forall n | n in a && n != a[0] ensures n in a[1..] {
      var i :| 0 <= i < |a| && a[i] == n;
      assert a[1..][i - 1] == n;
    }
    forall i | 0 <= i < |a[1..]| ensures a[1..][i] != a[0] {
      LessTotal(a[0], a[i + 1]);
    }
  }

  // ---------------------------------------------------------------- specification

  predicate AllZoned(nodes: seq<Node>) {
    forall i :: 0 <= i < |nodes| ==> Lookup(nodes[i].labels, ZONE_LABEL) != ""
  }

  function TopologyKey(nodes: seq<Node>): string {
    if AllZoned(nodes) then ZONE_LABEL else HOSTNAME_LABEL
  }

  /** The domain a host belongs to: its zone if every host has one, else the host itself. */
  function DomainOf(nodes: seq<Node>, n: Node): string {
    if AllZoned(nodes) then Lookup(n.labels, ZONE_LABEL) else n.name
  }

  function DomainsOf(nodes: seq<Node>, some: seq<Node>): set<string> {
    set n | n in some :: DomainOf(nodes, n)
  }

  lemma DomainsOfAppend(nodes: seq<Node>, some: seq<Node>, n: Node)
    ensures DomainsOf(nodes, some + [n]) == DomainsOf(nodes, some) + {DomainOf(nodes, n)}
  {
    assert n in some + [n];
  }

  function Names(domains: seq<FailureDomain>): seq<string> {
    seq(|domains|, i requires 0 <= i < |domains| => domains[i].name)
  }

  function Domain(nodes: seq<Node>, name: string): FailureDomain {
    FailureDomain(name, true, map[TOPOLOGY_KEY_ATTRIBUTE := TopologyKey(nodes)])
  }

  /** The published list: strictly sorted, one entry per domain some host belongs to. */
  ghost predicate Publishes(nodes: seq<Node>, domains: seq<FailureDomain>) {
    && Sorted(Names(domains))
    && Elems(Names(domains)) == DomainsOf(nodes, nodes)
    && forall i :: 0 <= i < |domains| ==> domains[i] == Domain(nodes, domains[i].name)
  }

  /** Map iteration order cannot show: the hosts determine the published list. */
  lemma PublishedUnique(nodes: seq<Node>, a: seq<FailureDomain>, b: seq<FailureDomain>)
    requires Publishes(nodes, a) && Publishes(nodes, b)
    ensures a == b
  {
    SortedUnique(Names(a), Names(b));
    assert |a| == |Names(a)| && |b| == |Names(b)|;
    forall i | 0 <= i < |a| ensures a[i] == b[i] {
      assert Names(a)[i] == Names(b)[i];
    }
  }

  ghost predicate HasHost(nodes: seq<Node>, domain: string) {
    exists m :: m in nodes && DomainOf(nodes, m) == domain
  }

  /** Every host falls in exactly one published domain, and every domain has a host. */
  lemma DomainsPartitionHosts(nodes: seq<Node>, domains: seq<FailureDomain>, n: Node)
    requires Publishes(nodes, domains)
    ensures n in nodes ==> exists i :: 0 <= i < |domains| && domains[i].name == DomainOf(nodes, n)
    ensures forall i, j :: 0 <= i < |domains| && 0 <= j < |domains| && domains[i].name == domains[j].name ==> i == j
    ensures forall i :: 0 <= i < |domains| ==> HasHost(nodes, domains[i].name)
  {
    var names := Names(domains);
    if n in nodes {
      assert DomainOf(nodes, n) in Elems(names);
      var i :| 0 <= i < |names| && names[i] == DomainOf(nodes, n);
      assert domains[i].name == DomainOf(nodes, n);
    }
    forall i, j | 0 <= i < j < |domains| ensures domains[i].name != domains[j].name {
      assert Less(names[i], names[j]);
      LessTotal(names[i], names[j]);
    }
    forall i | 0 <= i < |domains| ensures HasHost(nodes, domains[i].name) {
      assert names[i] in Elems(names);
      assert domains[i].name in DomainsOf(nodes, nodes);
    }
  }

  // ---------------------------------------------------------------- the way back

  /** failureDomainNodeSelector: the first entry of that name decides the node label. */
  function NodeSelector(domains: seq<FailureDomain>, failureDomain: string): (string, string) {
    if domains == [] then (HOSTNAME_LABEL, failureDomain)
    else if domains[0].name == failureDomain then
      var k := Lookup(domains[0].attributes, TOPOLOGY_KEY_ATTRIBUTE);
      if k != "" then (k, failureDomain) else (HOSTNAME_LABEL, failureDomain)
    else NodeSelector(domains[1..], failureDomain)
  }

  /** effectiveFailureDomain: the owner Machine's domain, else the HarvesterMachine's own. */
  function EffectiveFailureDomain(machine: Option<string>, harvesterMachine: string): string {
    if machine.Some? && machine.value != "" then machine.value else harvesterMachine
  }

  /** The owner Machine's domain wins whenever it names one. */
  lemma MachineDomainWins(machine: Option<string>, own: string)
    ensures machine.Some? && machine.value != "" ==> EffectiveFailureDomain(machine, own) == machine.value
    ensures machine.None? || machine.value == "" ==> EffectiveFailureDomain(machine, own) == own
  {}

  /**
   A name that is not published, or whose first entry says no label, falls back to a host
   name; the value is always the name itself.
   */
  lemma {:induction false} SelectorFallback(domains: seq<FailureDomain>, name: string)
    ensures NodeSelector(domains, name).1 == name
    ensures (forall d :: d in domains ==> d.name != name) ==> NodeSelector(domains, name).0 == HOSTNAME_LABEL
    ensures forall i :: 0 <= i < |domains| && domains[i].name == name && (forall j :: 0 <= j < i ==> domains[j].name != name) ==>
      var key := Lookup(domains[i].attributes, TOPOLOGY_KEY_ATTRIBUTE);
      NodeSelector(domains, name).0 == if key == "" then HOSTNAME_LABEL else key
  {
    if domains != [] && domains[0].name != name {
      SelectorFallback(domains[1..], name);
      forall i | 0 <= i < |domains| && domains[i].name == name && (forall j :: 0 <= j < i ==> domains[j].name != name)
        ensures var key := Lookup(domains[i].attributes, TOPOLOGY_KEY_ATTRIBUTE);
          NodeSelector(domains, name).0 == if key == "" then HOSTNAME_LABEL else key
      {
        assert domains[1..][i - 1] == domains[i];
        forall j | 0 <= j < i - 1 ensures domains[1..][j].name != name {
          assert domains[1..][j] == domains[j + 1];
        }
      }
    }
  }

  lemma {:induction false} NodeSelectorAt(domains: seq<FailureDomain>, name: string, key: string)
    requires key != "" && exists i :: 0 <= i < |domains| && domains[i].name == name
    requires forall i :: 0 <= i < |domains| ==> Lookup(domains[i].attributes, TOPOLOGY_KEY_ATTRIBUTE) == key
    ensures NodeSelector(domains, name) == (key, name)
  {
    if domains[0].name != name {
      var i :| 0 <= i < |domains| && domains[i].name == name;
      assert domains[1..][i - 1].name == name;
      NodeSelectorAt(domains[1..], name, key);
    }
  }

  predicate HostnameLabelled(n: Node) {
    HOSTNAME_LABEL in n.labels && n.labels[HOSTNAME_LABEL] == n.name
  }

  predicate Carries(n: Node, key: string, value: string) {
    key in n.labels && n.labels[key] == value
  }

  /**
   The selector computed back from a published name picks exactly the hosts the domain came
   from, given that a host's hostname label is its name (needed only without zones).
   */
  lemma SelectorPicksDomain(nodes: seq<Node>, domains: seq<FailureDomain>, d: FailureDomain, n: Node)
    requires Publishes(nodes, domains) && d in domains && n in nodes
    requires !AllZoned(nodes) ==> HostnameLabelled(n)
    ensures var (key, value) := NodeSelector(domains, d.name);
      Carries(n, key, value) <==> DomainOf(nodes, n) == d.name
  {
    var i :| 0 <= i < |domains| && domains[i] == d;
    NodeSelectorAt(domains, d.name, TopologyKey(nodes));
    if AllZoned(nodes) {
      var j :| 0 <= j < |nodes| && nodes[j] == n;
      assert Lookup(n.labels, ZONE_LABEL) != "";
    }
  }

  // ---------------------------------------------------------------- the source's loops

  /** sort.Slice by name; the names are distinct, so every correct sort gives the same list. */
  method SortByName(domains: seq<FailureDomain>) returns (r: seq<FailureDomain>)
    requires forall i, j :: 0 <= i < j < |domains| ==> domains[i].name != domains[j].name
    ensures multiset(r) == multiset(domains) && Sorted(Names(r))
  {
    r := [];
    for i := 0 to |domains|
      invariant multiset(r) == multiset(domains[..i]) && Sorted(Names(r))
    {
      var k := 0;
      while k < |r| && Less(r[k].name, domains[i].name)
        invariant 0 <= k <= |r|
        invariant forall j :: 0 <= j < k ==> Less(r[j].name, domains[i].name)
      {
        k := k + 1;
      }
      InsertSorted(r, domains[i], k, domains[..i]);
      assert domains[..i + 1] == domains[..i] + [domains[i]];
      assert r == r[..k] + r[k..];
      r := r[..k] + [domains[i]] + r[k..];
    }
    assert domains[..|domains|] == domains;
  }

  lemma InsertSorted(r: seq<FailureDomain>, d: FailureDomain, k: nat, from: seq<FailureDomain>)
    requires k <= |r| && Sorted(Names(r)) && multiset(r) == multiset(from)
    requires forall x :: x in from ==> x.name != d.name
    requires forall j :: 0 <= j < k ==> Less(r[j].name, d.name)
    requires k < |r| ==> !Less(r[k].name, d.name)
    ensures Sorted(Names(r[..k] + [d] + r[k..]))
  {
    forall j | k <= j < |r| ensures Less(d.name, r[j].name) {
      assert r[k] in multiset(from);
      LessTotal(r[k].name, d.name);
      if k < j {
        assert Less(Names(r)[k], Names(r)[j]);
        LessTransitive(d.name, r[k].name, r[j].name);
      }
    }
    var t := Names(r[..k] + [d] + r[k..]);
    forall i, j | 0 <= i < j < |t| ensures Less(t[i], t[j]) {
      if i != k && j != k {
        assert Less(Names(r)[if i < k then i else i - 1], Names(r)[if j < k then j else j - 1]);
      }
    }
  }

  method PickTopologyKey(nodes: seq<Node>) returns (topologyKey: string)
    ensures topologyKey == TopologyKey(nodes)
  {
    topologyKey := ZONE_LABEL;
    for i := 0 to |nodes|
      invariant topologyKey == ZONE_LABEL
      invariant forall j :: 0 <= j < i ==> Lookup(nodes[j].labels, ZONE_LABEL) != ""
    {
      if Lookup(nodes[i].labels, ZONE_LABEL) == "" {
        topologyKey := HOSTNAME_LABEL;
        break;
      }
    }
  }

  method FailureDomainsFromNodes(nodes: seq<Node>) returns (domains: seq<FailureDomain>)
    ensures Publishes(nodes, domains)
    // every domain serves control planes and says which label to schedule on
    ensures forall i :: 0 <= i < |domains| ==> domains[i].controlPlane
    ensures (forall n :: n in nodes ==> Lookup(n.labels, "topology.kubernetes.io/zone") != "") ==>
      forall i :: 0 <= i < |domains| ==> domains[i].attributes == map["topologyKey" := "topology.kubernetes.io/zone"]
    ensures (exists n :: n in nodes && Lookup(n.labels, "topology.kubernetes.io/zone") == "") ==>
      forall i :: 0 <= i < |domains| ==> domains[i].attributes == map["topologyKey" := "kubernetes.io/hostname"]
  {
    if |nodes| == 0 {
      assert Names([]) == [];
      return [];
    }
    var topologyKey := PickTopologyKey(nodes);
    var names: set<string> := {};
    for i := 0 to |nodes|
      invariant names == DomainsOf(nodes, nodes[..i])
    {
      if topologyKey == ZONE_LABEL {
        names := names + {Lookup(nodes[i].labels, ZONE_LABEL)};
      } else {
        names := names + {nodes[i].name};
      }
      assert nodes[..i + 1] == nodes[..i] + [nodes[i]];
      DomainsOfAppend(nodes, nodes[..i], nodes[i]);
    }
    assert nodes[..|nodes|] == nodes;
    var list := Collect(names, nodes, topologyKey);
    domains := SortByName(list);
    SortedPublishes(nodes, list, domains);
  }

  lemma SortedPublishes(nodes: seq<Node>, list: seq<FailureDomain>, domains: seq<FailureDomain>)
    requires multiset(domains) == multiset(list) && Sorted(Names(domains))
    requires forall d :: d in list <==> d.name in DomainsOf(nodes, nodes) && d == Domain(nodes, d.name)
    ensures Publishes(nodes, domains)
  {
    forall i | 0 <= i < |domains|
      ensures domains[i] == Domain(nodes, domains[i].name) && domains[i].name in DomainsOf(nodes, nodes)
    {
      assert domains[i] in multiset(list);
    }
    forall name | name in DomainsOf(nodes, nodes) ensures name in Names(domains) {
      var d := Domain(nodes, name);
      assert d in list;
      assert d in multiset(domains);
      var i :| 0 <= i < |domains| && domains[i] == d;
      assert Names(domains)[i] == name;
    }
    assert Elems(Names(domains)) == DomainsOf(nodes, nodes);
  }

  /** One domain per name, in whatever order the map is walked. */
  method Collect(names: set<string>, nodes: seq<Node>, topologyKey: string) returns (list: seq<FailureDomain>)
    requires topologyKey == TopologyKey(nodes)
    ensures forall d :: d in list <==> d.name in names && d == Domain(nodes, d.name)
    ensures forall i, j :: 0 <= i < j < |list| ==> list[i].name != list[j].name
  {
    list := [];
    var rest := names;
    while rest != {}
      invariant rest <= names
      invariant forall d :: d in list <==> d.name in names - rest && d == Domain(nodes, d.name)
      invariant forall i, j :: 0 <= i < j < |list| ==> list[i].name != list[j].name
      decreases rest
    {
      var name :| name in rest;
      rest := rest - {name};
      list := list + [FailureDomain(name, true, map[TOPOLOGY_KEY_ATTRIBUTE := topologyKey])];
    }
  }
}
