/**
 buildAffinity of the machine controller: pinning a VM to its failure domain by appending
 a requirement to every required node-selector term, in place, on the machine's own spec.

 The meaning of a node selector is Kubernetes': terms are ORed, the requirements of a term
 are ANDed, and a term without any requirement matches no host.
 */
module Affinity {
  import opened Wrappers
  import opened FailureDomains

  datatype Operator = In | NotIn | Exists | DoesNotExist | Gt | Lt

  datatype Requirement = Requirement(key: string, op: Operator, values: seq<string>)

  datatype Term = Term(matchExpressions: seq<Requirement>, matchFields: seq<Requirement>)

  // ---------------------------------------------------------------- meaning

  function ParseNat(s: string): Option<nat> {
    if s == "" then None
    else if !('0' <= s[|s| - 1] <= '9') then None
    else
      var digit := s[|s| - 1] as int - '0' as int;
      if |s| == 1 then Some(digit)
      else
        var high := ParseNat(s[..|s| - 1]);
        if high.None? then None else Some(10 * high.value + digit)
  }

  function ParseInt(s: string): Option<int> {
    if s != "" && s[0] == '-'
    then var n := ParseNat(s[1..]); if n.None? then None else Some(0 - n.value)
    else var n := ParseNat(s); if n.None? then None else Some(n.value)
  }

  predicate Satisfies(r: Requirement, labels: map<string, string>) {
    match r.op
    case In => r.key in labels && labels[r.key] in r.values
    case NotIn => r.key in labels ==> labels[r.key] !in r.values
    case Exists => r.key in labels
    case DoesNotExist => r.key !in labels
    case _ =>
      r.key in labels && |r.values| == 1
      && var actual, bound := ParseInt(labels[r.key]), ParseInt(r.values[0]);
         actual.Some? && bound.Some? && if r.op == Gt then actual.value > bound.value else actual.value < bound.value
  }

  predicate IsEmpty(t: Term) {
    t.matchExpressions == [] && t.matchFields == []
  }

  predicate TermMatches(t: Term, n: Node) {
    && !IsEmpty(t)
    && (forall r :: r in t.matchExpressions ==> Satisfies(r, n.labels))
    && (forall r :: r in t.matchFields ==> Satisfies(r, map["metadata.name" := n.name]))
  }

  /** The hosts a required node selector admits; no selector admits all. */
  predicate Admits(required: Option<seq<Term>>, n: Node) {
    required.Some? ==> exists t :: t in required.value && TermMatches(t, n)
  }

  predicate SomeEmpty(required: Option<seq<Term>>) {
    required.Some? && exists t :: t in required.value && IsEmpty(t)
  }

  function Pin(key: string, value: string): Requirement {
    Requirement(key, In, [value])
  }

  function Extended(t: Term, r: Requirement): Term {
    t.(matchExpressions := t.matchExpressions + [r])
  }

  /** The rewriting: the requirement is appended to every term, or becomes the only one. */
  function Rewrite(required: Option<seq<Term>>, r: Requirement): Option<seq<Term>> {
    match required
    case None => Some([Extended(Term([], []), r)])
    case Some(terms) => Some(seq(|terms|, i requires 0 <= i < |terms| => Extended(terms[i], r)))
  }

  function Repeat(required: Option<seq<Term>>, r: Requirement, n: nat): Option<seq<Term>> {
    if n == 0 then required else Rewrite(Repeat(required, r, n - 1), r)
  }

  // ---------------------------------------------------------------- laws

  /** A missing selector is rewritten like a single empty term. */
  lemma RewriteNone(r: Requirement)
    ensures Rewrite(None, r) == Rewrite(Some([Term([], [])]), r)
  {
    assert Rewrite(None, r).value == Rewrite(Some([Term([], [])]), r).value;
  }

  lemma ExtendedMatches(t: Term, r: Requirement, n: Node)
    ensures TermMatches(Extended(t, r), n) <==> Satisfies(r, n.labels) && (TermMatches(t, n) || IsEmpty(t))
  {
    var e := Extended(t, r);
    assert r in e.matchExpressions;
    forall q | q in t.matchExpressions ensures q in e.matchExpressions {}
    forall q | q in e.matchExpressions ensures q in t.matchExpressions || q == r {}
  }

  /**
   Exactly what rewriting does to the admitted hosts, for every selector: they must satisfy
   the requirement, and must have been admitted before or some term was empty.
   */
  lemma RewriteAdmits(required: Option<seq<Term>>, r: Requirement, n: Node)
    ensures Admits(Rewrite(required, r), n)
       <==> Satisfies(r, n.labels) && (Admits(required, n) || SomeEmpty(required))
  {
    match required
    case None =>
      ExtendedMatches(Term([], []), r, n);
      assert Rewrite(required, r).value == [Extended(Term([], []), r)];
    case Some(terms) =>
      var after := Rewrite(required, r).value;
      forall i | 0 <= i < |terms|
        ensures TermMatches(after[i], n) <==> Satisfies(r, n.labels) && (TermMatches(terms[i], n) || IsEmpty(terms[i]))
      {
        ExtendedMatches(terms[i], r, n);
      }
      if t :| t in terms && (TermMatches(t, n) || IsEmpty(t)) && Satisfies(r, n.labels) {
        var i :| 0 <= i < |terms| && terms[i] == t;
        assert after[i] in after;
      }
  }

  /** A selector without empty terms keeps its meaning: user constraints AND failure domain. */
  lemma PinningPreservesMeaning(required: Option<seq<Term>>, key: string, value: string, n: Node)
    requires !SomeEmpty(required)
    ensures Admits(Rewrite(required, Pin(key, value)), n) <==> Admits(required, n) && Carries(n, key, value)
  {
    RewriteAdmits(required, Pin(key, value), n);
  }

  /** An empty user term admitted no host; after pinning it admits the whole failure domain. */
  lemma EmptyTermWidens(key: string, value: string, n: Node)
    requires Carries(n, key, value)
    ensures !Admits(Some([Term([], [])]), n) && Admits(Rewrite(Some([Term([], [])]), Pin(key, value)), n)
  {
    assert Term([], []) in [Term([], [])];
    RewriteAdmits(Some([Term([], [])]), Pin(key, value), n);
  }

  lemma RewrittenNotEmpty(required: Option<seq<Term>>, r: Requirement)
    ensures !SomeEmpty(Rewrite(required, r))
  {}

  /**
   Repeating the in-place rewriting for the same domain admits the same hosts as doing it
   once, while every list of requirements grows by one each time.
   */
  lemma {:induction false} RepeatAdmitsSame(required: Option<seq<Term>>, r: Requirement, k: nat, n: Node)
    requires k > 0
    ensures Admits(Repeat(required, r, k), n) <==> Admits(Rewrite(required, r), n)
    ensures Repeat(required, r, k).Some? && !SomeEmpty(Repeat(required, r, k))
    ensures required.Some? ==>
      && |Repeat(required, r, k).value| == |required.value|
      && forall i :: 0 <= i < |required.value| ==>
           |Repeat(required, r, k).value[i].matchExpressions| == |required.value[i].matchExpressions| + k
  {
    RewrittenNotEmpty(Repeat(required, r, k - 1), r);
    if k == 1 {
      assert Repeat(required, r, 1) == Rewrite(required, r);
    } else {
      RepeatAdmitsSame(required, r, k - 1, n);
      RewriteAdmits(Repeat(required, r, k - 1), r, n);
      RewriteAdmits(required, r, n);
    }
  }

  /** Rewriting once more for a different domain of the same kind leaves no host at all. */
  lemma SecondDomainAdmitsNone(required: Option<seq<Term>>, key: string, d1: string, d2: string, n: Node)
    requires d1 != d2
    ensures !Admits(Rewrite(Rewrite(required, Pin(key, d1)), Pin(key, d2)), n)
  {
    RewriteAdmits(Rewrite(required, Pin(key, d1)), Pin(key, d2), n);
    RewriteAdmits(required, Pin(key, d1), n);
    RewrittenNotEmpty(required, Pin(key, d1));
  }

  /**
   End to end: pinned to a published domain, a VM may run exactly on the hosts of that
   domain that its own terms admit.
   */
  lemma PinnedToDomainHosts(nodes: seq<Node>, domains: seq<FailureDomain>, d: FailureDomain, required: Option<seq<Term>>, n: Node)
    requires Publishes(nodes, domains) && d in domains && n in nodes && !SomeEmpty(required)
    requires !AllZoned(nodes) ==> HostnameLabelled(n)
    ensures var (key, value) := NodeSelector(domains, d.name);
      Admits(Rewrite(required, Pin(key, value)), n) <==> Admits(required, n) && DomainOf(nodes, n) == d.name
  {
    var (key, value) := NodeSelector(domains, d.name);
    SelectorPicksDomain(nodes, domains, d, n);
    PinningPreservesMeaning(required, key, value, n);
  }

  // ---------------------------------------------------------------- the objects and the procedure

  class RequiredSelector {
    var terms: array<Term>

    constructor (terms: array<Term>)
      ensures this.terms == terms
    {
      this.terms := terms;
    }
  }

  class NodeAffinity {
    var required: RequiredSelector?

    constructor ()
      ensures required == null
    {
      required := null;
    }

    /** The objects a rewriting of this affinity may touch. */
    ghost function Footprint(): set<object>
      reads this, required
    {
      if required == null then {this} else var r: RequiredSelector := required; {this, r, r.terms}
    }

    function Required(): Option<seq<Term>>
      reads this, required, if required == null then {} else {required.terms}
    {
      if required == null then None else Some(required.terms[..])
    }
  }

  class MachineSpec {
    var nodeAffinity: NodeAffinity?
  }

  /**
   The node affinity of the VM, for the failure domain of the owner Machine (if there is one
   and it names a domain) or else the machine's own. It is the machine's own object when the machine has one, so
   the rewriting changes the machine's spec; a machine without node affinity is not changed.
   */
  method BuildNodeAffinity(spec: MachineSpec, domains: seq<FailureDomain>, machine: Option<string>, own: string) returns (na: NodeAffinity?)
    modifies if spec.nodeAffinity == null then {} else spec.nodeAffinity.Footprint()
    ensures spec.nodeAffinity == old(spec.nodeAffinity)
    ensures spec.nodeAffinity != null ==> na == spec.nodeAffinity
    ensures spec.nodeAffinity == null ==> (na == null <==> EffectiveFailureDomain(machine, own) == "") && (na != null ==> fresh(na))
    ensures na != null ==>
      var before := if spec.nodeAffinity == null then None else old(spec.nodeAffinity.Required());
      var failureDomain := EffectiveFailureDomain(machine, own);
      var (key, value) := NodeSelector(domains, failureDomain);
      na.Required() == if failureDomain == "" then before else Rewrite(before, Pin(key, value))
    // the domain of the owner Machine wins
    ensures machine.Some? && machine.value != "" ==> na != null
    ensures machine.Some? && machine.value != "" ==>
      var before := if spec.nodeAffinity == null then None else old(spec.nodeAffinity.Required());
      na.Required() == Rewrite(before, Pin(NodeSelector(domains, machine.value).0, machine.value))
  {
    MachineDomainWins(machine, own);
    SelectorFallback(domains, EffectiveFailureDomain(machine, own));
    na := null;
    if spec.nodeAffinity != null {
      na := spec.nodeAffinity;
    }
    var failureDomain := EffectiveFailureDomain(machine, own);
    if failureDomain != "" {
      var (key, value) := NodeSelector(domains, failureDomain);
      var requirement := Requirement(key, In, [value]);
      if na == null {
        na := new NodeAffinity();
      }
      ghost var before := na.Required();
      if na.required == null {
        var one := new Term[1](_ => Term([], []));
        na.required := new RequiredSelector(one);
      }
      ghost var terms := na.required.terms[..];
      if before.None? {
        RewriteNone(requirement);
        assert terms == [Term([], [])];
      }
      AppendToTerms(na.required.terms, requirement);
      assert na.required.terms[..] == Rewrite(Some(terms), requirement).value;
      assert na.Required() == Rewrite(before, requirement);
    }
  }

  method AppendToTerms(terms: array<Term>, requirement: Requirement)
    modifies terms
    ensures forall i :: 0 <= i < terms.Length ==> terms[i] == Extended(old(terms[i]), requirement)
    // what the user wrote comes first and stays
    ensures forall i :: 0 <= i < terms.Length ==>
      && terms[i].matchExpressions == old(terms[i]).matchExpressions + [requirement]
      && terms[i].matchFields == old(terms[i]).matchFields
  {
    for i := 0 to terms.Length
      invariant forall j :: 0 <= j < i ==> terms[j] == Extended(old(terms[j]), requirement)
      invariant forall j :: i <= j < terms.Length ==> terms[j] == old(terms[j])
    {
      terms[i] := terms[i].(matchExpressions := terms[i].matchExpressions + [requirement]);
    }
  }
}
