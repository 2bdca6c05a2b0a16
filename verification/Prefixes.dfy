/**
 Ownership decided by name prefix: the etcd member removed for a deleted node
 (util/etcd.go) and the volume claims cleaned up after a deleted machine.
 */
module Prefixes {
  import opened Wrappers

  predicate HasPrefix(s: string, prefix: string) {
    |prefix| <= |s| && s[..|prefix|] == prefix
  }

  predicate DashFree(s: string) {
    '-' !in s
  }

  // ---------------------------------------------------------------- etcd members

  datatype Member = Member(id: nat, name: string)

  datatype PodCondition = PodCondition(kind: string, status: string)

  datatype Pod = Pod(name: string, nodeName: string, phase: string, conditions: seq<PodCondition>)

  /** RKE2 names a member after its node and a hash. */
  function MemberName(node: string, hash: string): string {
    node + "-" + hash
  }

  predicate MatchesNode(member: string, node: string) {
    HasPrefix(member, node + "-") || member == node
  }

  lemma PrefixChars(s: string, p: string, i: nat)
    requires HasPrefix(s, p) && i < |p|
    ensures s[i] == p[i]
  {
    assert s[..|p|][i] == s[i];
  }

  /**
   Exactly which members are taken for node `n`: its own, those of nodes named with the
   prefix "n-", and one whose whole name happens to be `n`.
   */
  lemma MemberMatchesExactly(n: string, node: string, hash: string)
    requires DashFree(hash)
    ensures MatchesNode(MemberName(node, hash), n) <==> node == n || HasPrefix(node, n + "-") || MemberName(node, hash) == n
  {
    var s, p := MemberName(node, hash), n + "-";
    if HasPrefix(s, p) {
      PrefixChars(s, p, |n|);
      if |n| < |node| {
        assert node[..|p|] == s[..|p|] == p;
      } else if |n| == |node| {
        assert node == s[..|n|] == p[..|n|] == n;
      }
    }
    if node == n {
      assert s[..|p|] == p;
    }
    if HasPrefix(node, p) {
      assert s[..|p|] == node[..|p|];
    }
  }

  predicate IsPodReady(p: Pod) {
    p.phase == "Running" && exists c :: c in p.conditions && c.kind == "Ready" && c.status == "True"
  }

  /** The pods considered: the labelled ones, or failing that the pods whose name says etcd. */
  ghost predicate Considered(labelled: Option<seq<Pod>>, all: Option<seq<Pod>>, p: Pod) {
    if labelled.Some? && labelled.value != [] then p in labelled.value
    else all.Some? && p in all.value && HasPrefix(p.name, "etcd-")
  }

  ghost predicate Usable(labelled: Option<seq<Pod>>, all: Option<seq<Pod>>, deleted: string, p: Pod) {
    Considered(labelled, all, p) && p.nodeName != deleted && IsPodReady(p)
  }

  method PodReady(p: Pod) returns (ready: bool)
    ensures ready <==> IsPodReady(p)
    ensures ready <==> p.phase == "Running" && PodCondition("Ready", "True") in p.conditions
  {
    if p.phase != "Running" {
      return false;
    }
    for i := 0 to |p.conditions|
      invariant forall j :: 0 <= j < i ==> !(p.conditions[j].kind == "Ready" && p.conditions[j].status == "True")
    {
      if p.conditions[i].kind == "Ready" && p.conditions[i].status == "True" {
        return true;
      }
    }
    return false;
  }

  /** findHealthyEtcdPod; a failed list call is None. */
  method FindHealthyEtcdPod(labelled: Option<seq<Pod>>, all: Option<seq<Pod>>, deleted: string) returns (r: Option<Pod>)
    ensures r.Some? ==> Usable(labelled, all, deleted, r.value)
    ensures r.None? ==> forall p :: !Usable(labelled, all, deleted, p)
    // labelled pods are preferred; only without any are the pods named etcd- considered
    ensures r.Some? ==> r.value.nodeName != deleted && r.value.phase == "Running"
    ensures r.Some? && labelled.Some? && labelled.value != [] ==> r.value in labelled.value
    ensures r.Some? && (labelled.None? || labelled.value == []) ==>
      all.Some? && r.value in all.value && HasPrefix(r.value.name, "etcd-")
  {
    var items: seq<Pod> := [];
    if labelled.None? || |labelled.value| == 0 {
      if all.None? {
        return None;
      }
      for i := 0 to |all.value|
        invariant forall p :: p in items <==> p in all.value[..i] && HasPrefix(p.name, "etcd-")
      {
        if HasPrefix(all.value[i].name, "etcd-") {
          items := items + [all.value[i]];
        }
      }
    } else {
      items := labelled.value;
    }
    for i := 0 to |items|
      invariant forall j :: 0 <= j < i ==> items[j].nodeName == deleted || !IsPodReady(items[j])
    {
      if items[i].nodeName == deleted {
        continue;
      }
      var ready := PodReady(items[i]);
      if ready {
        return Some(items[i]);
      }
    }
    return None;
  }

  /** The first member whose name matches the node. */
  ghost predicate FirstMatch(members: seq<Member>, node: string, m: Member) {
    exists k :: 0 <= k < |members| && members[k] == m && MatchesNode(m.name, node)
      && forall j :: 0 <= j < k ==> !MatchesNode(members[j].name, node)
  }

  /** What RemoveEtcdMember ends up running: on which pod, removing which member. */
  datatype Removal = Removal(pod: Pod, member: Member)

  method RemoveEtcdMember(labelled: Option<seq<Pod>>, all: Option<seq<Pod>>, members: Option<seq<Member>>, deleted: string)
    returns (r: Option<Removal>)
    ensures r.Some? ==>
      && Usable(labelled, all, deleted, r.value.pod)
      && members.Some? && FirstMatch(members.value, deleted, r.value.member)
      && r.value.pod.nodeName != deleted && r.value.pod.phase == "Running"
      && (HasPrefix(r.value.member.name, deleted + "-") || r.value.member.name == deleted)
    ensures r.None? ==>
      || (forall p :: !Usable(labelled, all, deleted, p))
      || members.None?
      || forall m :: m in members.value ==> !MatchesNode(m.name, deleted)
  {
    var pod := FindHealthyEtcdPod(labelled, all, deleted);
    if pod.None? {
      return None;
    }
    if members.None? {
      return None;
    }
    var target: Option<Member> := None;
    for i := 0 to |members.value|
      invariant target.None? && forall j :: 0 <= j < i ==> !MatchesNode(members.value[j].name, deleted)
    {
      if HasPrefix(members.value[i].name, deleted + "-") || members.value[i].name == deleted {
        target := Some(members.value[i]);
        break;
      }
    }
    if target.None? {
      return None;
    }
    return Some(Removal(pod.value, target.value));
  }

  /** The nodes of a cluster's members: member i is named after nodes[i] and hashes[i]. */
  predicate NamedAfter(members: seq<Member>, nodes: seq<string>, hashes: seq<string>) {
    && |members| == |nodes| == |hashes|
    && forall i :: 0 <= i < |members| ==> DashFree(hashes[i]) && members[i].name == MemberName(nodes[i], hashes[i])
  }

  /** Nobody else's name can be mistaken for `n`'s. */
  predicate Unmistakable(n: string, nodes: seq<string>, hashes: seq<string>)
    requires |nodes| == |hashes|
  {
    forall i :: 0 <= i < |nodes| && nodes[i] != n ==>
      !HasPrefix(nodes[i], n + "-") && MemberName(nodes[i], hashes[i]) != n
  }

  /**
   Member matching is right for every member list exactly when no other name can be
   mistaken: the matching members are then n's own and no others.
   */
  lemma OwnMembersExactly(members: seq<Member>, nodes: seq<string>, hashes: seq<string>, n: string)
    requires NamedAfter(members, nodes, hashes)
    ensures Unmistakable(n, nodes, hashes) <==>
              forall i :: 0 <= i < |members| ==> (MatchesNode(members[i].name, n) <==> nodes[i] == n)
  {
    forall i | 0 <= i < |members|
      ensures MatchesNode(members[i].name, n) <==> nodes[i] == n || HasPrefix(nodes[i], n + "-") || members[i].name == n
    {
      MemberMatchesExactly(n, nodes[i], hashes[i]);
    }
  }

  /** The member RemoveEtcdMember removes for `n` is then n's own. */
  lemma RemovedMemberIsOwn(members: seq<Member>, nodes: seq<string>, hashes: seq<string>, n: string, m: Member)
    requires NamedAfter(members, nodes, hashes) && Unmistakable(n, nodes, hashes) && FirstMatch(members, n, m)
    ensures exists k :: 0 <= k < |members| && members[k] == m && nodes[k] == n
  {
    OwnMembersExactly(members, nodes, hashes, n);
  }

  // ---------------------------------------------------------------- volume claims

  function Digits(n: nat): (s: string)
    ensures s != "" && forall i :: 0 <= i < |s| ==> '0' <= s[i] <= '9'
  {
    var d := [('0' as int + n % 10) as char];
    if n < 10 then d else Digits(n / 10) + d
  }

  /** The claim of disk `i` of a machine; the random id has no dash. */
  function PvcName(machine: string, i: nat, random: string): string {
    machine + "-disk-" + Digits(i) + "-" + random
  }

  /** The number a string of digits stands for. */
  function DigitsValue(s: string): int {
    if s == "" then 0 else 10 * DigitsValue(s[..|s| - 1]) + (s[|s| - 1] as int - '0' as int)
  }

  /** The disk number is written in decimal: reading it back gives the number. */
  lemma {:induction false} DigitsRoundTrip(n: nat)
    ensures DigitsValue(Digits(n)) == n
  {
    var s := Digits(n);
    if n < 10 {
      assert s[..0] == "" && DigitsValue("") == 0;
    } else {
      DigitsRoundTrip(n / 10);
      assert s[..|s| - 1] == Digits(n / 10);
    }
  }

  /** The claims of one machine are told apart: equal names mean the same disk and the same random id. */
  lemma ClaimNamesDistinct(m: string, i: nat, a: string, j: nat, b: string)
    requires PvcName(m, i, a) == PvcName(m, j, b)
    ensures i == j && a == b
  {
    var s := PvcName(m, i, a);
    PvcChars(m, i, a);
    PvcChars(m, j, b);
    var k, d, e := |m| + 6, |Digits(i)|, |Digits(j)|;
    PvcTail(m, i, a);
    PvcTail(m, j, b);
    assert s[k + d] == '-' && s[k + e] == '-';
    assert d == e;
    assert Digits(i) == s[k..k + d] == Digits(j);
    DigitsRoundTrip(i);
    DigitsRoundTrip(j);
    assert a == s[k + d + 1..] == b;
  }

  lemma PvcTail(m: string, i: nat, random: string)
    ensures var s, k, d := PvcName(m, i, random), |m| + 6, |Digits(i)|;
      && |s| == k + d + 1 + |random|
      && s[k..k + d] == Digits(i) && s[k + d] == '-' && s[k + d + 1..] == random
  {
    var head, d := m + "-disk-", Digits(i);
    var s := PvcName(m, i, random);
    assert s == head + (d + ("-" + random));
    assert s[|head|..] == d + ("-" + random);
    assert s[|head|..|head| + |d|] == d;
    assert s[|head| + |d|..] == "-" + random;
  }

  predicate CleanedFor(pvc: string, n: string) {
    HasPrefix(pvc, n + "-disk-")
  }

  lemma DiskHead(m: string, tail: string)
    ensures var s, k := m + "-disk-" + tail, |m|;
      && |s| == k + 6 + |tail| && s[..k] == m && s[..k + 6] == m + "-disk-"
      && s[k] == '-' && s[k + 1] == 'd' && s[k + 2] == 'i' && s[k + 3] == 's' && s[k + 4] == 'k' && s[k + 5] == '-'
  {
    var head := m + "-disk-";
    assert head[|m|..] == "-disk-";
    assert (head + tail)[..|head|] == head;
    assert (head + tail)[..|m|] == m;
  }

  lemma ClaimTail(head: string, d: string, random: string)
    ensures var s, k := head + (d + "-" + random), |head|;
      && (forall j :: k <= j < k + |d| ==> s[j] == d[j - k])
      && s[k + |d|] == '-'
      && (forall j :: k + |d| < j < |s| ==> s[j] == random[j - k - |d| - 1])
  {}

  lemma PvcChars(m: string, i: nat, random: string)
    ensures var s, k, e := PvcName(m, i, random), |m|, |m| + 6 + |Digits(i)|;
      && |s| == e + 1 + |random|
      && s[..k] == m && s[k] == '-' && s[k + 1] == 'd' && s[k + 2] == 'i' && s[k + 3] == 's' && s[k + 4] == 'k' && s[k + 5] == '-'
      && (forall j :: k + 6 <= j < e ==> '0' <= s[j] <= '9')
      && (forall j :: e < j < |s| ==> s[j] == random[j - e - 1])
      && s[..k + 6] == m + "-disk-"
  {
    var d := Digits(i);
    assert PvcName(m, i, random) == m + "-disk-" + (d + "-" + random);
    DiskHead(m, d + "-" + random);
    ClaimTail(m + "-disk-", d, random);
  }

  lemma DiskPrefixChars(s: string, n: string)
    requires HasPrefix(s, n + "-disk-")
    ensures |s| >= |n| + 6 && s[..|n|] == n
    ensures s[|n|] == '-' && s[|n| + 1] == 'd' && s[|n| + 5] == '-'
  {
    var p := n + "-disk-";
    PrefixChars(s, p, |n|);
    PrefixChars(s, p, |n| + 1);
    PrefixChars(s, p, |n| + 5);
    assert s[..|n|] == p[..|n|];
  }

  /** A shorter machine's claim never starts with a longer machine's disk prefix. */
  lemma ShorterNotCleaned(n: string, m: string, i: nat, random: string)
    requires DashFree(random) && |m| < |n|
    ensures !CleanedFor(PvcName(m, i, random), n)
  {
    var s := PvcName(m, i, random);
    if CleanedFor(s, n) {
      PvcChars(m, i, random);
      DiskPrefixChars(s, n);
    }
  }

  /** A longer machine's claim starts with n's disk prefix only if the machine's name says so. */
  lemma LongerCleaned(n: string, m: string, i: nat, random: string)
    requires |m| > |n|
    ensures CleanedFor(PvcName(m, i, random), n) <==> m == n + "-disk" || HasPrefix(m, n + "-disk-")
  {
    var s, p := PvcName(m, i, random), n + "-disk-";
    PvcChars(m, i, random);
    if HasPrefix(s, p) {
      assert p[|n| + 2] == 'i' && p[|n| + 3] == 's' && p[|n| + 4] == 'k';
      PrefixChars(s, p, |n|);
      PrefixChars(s, p, |n| + 1);
      PrefixChars(s, p, |n| + 2);
      PrefixChars(s, p, |n| + 3);
      PrefixChars(s, p, |n| + 4);
      PrefixChars(s, p, |n| + 5);
      assert |m| >= |n| + 5;
      if |m| == |n| + 5 {
        assert m == s[..|m|] == p[..|m|] == n + "-disk";
      } else {
        assert m[..|p|] == s[..|p|] == p;
      }
    }
    if m == n + "-disk" {
      assert s[..|p|] == s[..|m|] + [s[|m|]] == p;
    }
    if HasPrefix(m, p) {
      assert s[..|p|] == m[..|p|];
    }
  }

  /**
   Exactly whose claims the cleanup for `n` deletes: n's own, and those of machines named
   "n-disk" or with the prefix "n-disk-".
   */
  lemma CleanedExactly(n: string, m: string, i: nat, random: string)
    requires DashFree(random)
    ensures CleanedFor(PvcName(m, i, random), n) <==> m == n || m == n + "-disk" || HasPrefix(m, n + "-disk-")
  {
    if |m| < |n| {
      ShorterNotCleaned(n, m, i, random);
    } else if |m| > |n| {
      LongerCleaned(n, m, i, random);
    } else {
      PvcChars(m, i, random);
      var s := PvcName(m, i, random);
      if CleanedFor(s, n) {
        DiskPrefixChars(s, n);
      }
    }
  }

  /** The claims left after deleting those with the prefix, except the ones whose deletion fails. */
  function Remaining(pvcs: seq<string>, prefix: string, deleteFails: set<string>): seq<string> {
    if pvcs == [] then []
    else
      var last := pvcs[|pvcs| - 1];
      Remaining(pvcs[..|pvcs| - 1], prefix, deleteFails)
      + if HasPrefix(last, prefix) && last !in deleteFails then [] else [last]
  }

  lemma {:induction false} RemainingMembers(pvcs: seq<string>, prefix: string, deleteFails: set<string>, p: string)
    ensures p in Remaining(pvcs, prefix, deleteFails) <==> p in pvcs && (!HasPrefix(p, prefix) || p in deleteFails)
  {
    if pvcs != [] {
      RemainingMembers(pvcs[..|pvcs| - 1], prefix, deleteFails, p);
      assert pvcs == pvcs[..|pvcs| - 1] + [pvcs[|pvcs| - 1]];
    }
  }

  /** Claims are looked at one by one and keep their order. */
  lemma {:induction false} RemainingConcat(a: seq<string>, b: seq<string>, prefix: string, deleteFails: set<string>)
    ensures Remaining(a + b, prefix, deleteFails) == Remaining(a, prefix, deleteFails) + Remaining(b, prefix, deleteFails)
    decreases |b|
  {
    if b == [] {
      assert a + b == a;
    } else {
      assert (a + b)[..|a + b| - 1] == a + b[..|b| - 1];
      RemainingConcat(a, b[..|b| - 1], prefix, deleteFails);
    }
  }

  /** Claim i is disk disks[i] of machine machines[i]. */
  predicate ClaimsOf(claims: seq<string>, machines: seq<string>, disks: seq<nat>, randoms: seq<string>) {
    && |claims| == |machines| == |disks| == |randoms|
    && forall i :: 0 <= i < |claims| ==> DashFree(randoms[i]) && claims[i] == PvcName(machines[i], disks[i], randoms[i])
  }

  /**
   Cleaning up after `n` leaves exactly the other machines' claims if and only if none of
   those machines is named "n-disk" or with the prefix "n-disk-".
   */
  lemma CleanupIsOwnExactly(claims: seq<string>, machines: seq<string>, disks: seq<nat>, randoms: seq<string>, n: string)
    requires ClaimsOf(claims, machines, disks, randoms)
    ensures (forall i :: 0 <= i < |machines| ==> machines[i] != n + "-disk" && !HasPrefix(machines[i], n + "-disk-"))
       <==> forall i :: 0 <= i < |claims| ==> (claims[i] in Remaining(claims, n + "-disk-", {}) <==> machines[i] != n)
  {
    forall i | 0 <= i < |claims|
      ensures claims[i] !in Remaining(claims, n + "-disk-", {})
         <==> machines[i] == n || machines[i] == n + "-disk" || HasPrefix(machines[i], n + "-disk-")
    {
      RemainingMembers(claims, n + "-disk-", {}, claims[i]);
      CleanedExactly(n, machines[i], disks[i], randoms[i]);
    }
    assert |n + "-disk"| != |n|;
    forall i | 0 <= i < |machines| && HasPrefix(machines[i], n + "-disk-") ensures machines[i] != n {
      assert |n + "-disk-"| > |n|;
    }
  }

  /** deletePVCsByPrefix: failures are only logged. */
  method DeletePVCsByPrefix(pvcs: seq<string>, prefix: string, listFails: bool, deleteFails: set<string>) returns (left: seq<string>)
    ensures left == if listFails then pvcs else Remaining(pvcs, prefix, deleteFails)
  {
    if listFails {
      return pvcs;
    }
    left := [];
    for i := 0 to |pvcs|
      invariant left == Remaining(pvcs[..i], prefix, deleteFails)
    {
      assert pvcs[..i + 1][..i] == pvcs[..i];
      if !HasPrefix(pvcs[i], prefix) {
        left := left + [pvcs[i]];
        continue;
      }
      if pvcs[i] in deleteFails {
        left := left + [pvcs[i]];
      }
    }
    assert pvcs[..|pvcs|] == pvcs;
  }
}
