/**
 GenerateRFC1035Name of util/util.go: joining components into a DNS label (sections 2.3.1
 and 2.3.4 of RFC 1035).

 Lower-casing is Go's on the characters that matter: apart from A-Z only the Kelvin sign
 and the dotted capital I map into a-z; every other character ends up as a dash.
 */
module Names {

  const MAX_LABEL: nat := 63

  predicate IsLetter(c: char) {
    'a' <= c <= 'z'
  }

  predicate IsNameChar(c: char) {
    IsLetter(c) || '0' <= c <= '9' || c == '-'
  }

  function Lower(c: char): char {
    if 'A' <= c <= 'Z' then (c as int + 32) as char
    else if c == '\U{212A}' then 'k'
    else if c == '\U{130}' then 'i'
    else c
  }

  function CleanChar(c: char): char {
    if IsNameChar(Lower(c)) then Lower(c) else '-'
  }

  // ---------------------------------------------------------------- the pipeline

  function Join(components: seq<string>): string {
    if components == [] then ""
    else if |components| == 1 then components[0]
    else components[0] + "-" + Join(components[1..])
  }

  /** Lower-casing and replacing everything outside [a-z0-9-]. */
  function Sanitize(s: string): string {
    seq(|s|, i requires 0 <= i < |s| => CleanChar(s[i]))
  }

  function TrimLeft(s: string): string {
    if s != "" && s[0] == '-' then TrimLeft(s[1..]) else s
  }

  function TrimRight(s: string): string {
    if s != "" && s[|s| - 1] == '-' then TrimRight(s[..|s| - 1]) else s
  }

  function StartWithLetter(s: string): string {
    if s != "" && !IsLetter(s[0]) then "a-" + s else s
  }

  function Truncate(s: string): string {
    if |s| > MAX_LABEL then s[..MAX_LABEL] else s
  }

  /** The name before truncation. */
  function FullName(components: seq<string>): string {
    StartWithLetter(TrimRight(TrimLeft(Sanitize(Join(components)))))
  }

  function GenerateName(components: seq<string>): string {
    Truncate(FullName(components))
  }

  // ---------------------------------------------------------------- well-formed names

  predicate NameChars(s: string) {
    forall i :: 0 <= i < |s| ==> IsNameChar(s[i])
  }

  predicate DashEnd(s: string) {
    s != "" && s[|s| - 1] == '-'
  }

  lemma {:induction false} TrimLeftFacts(s: string)
    requires NameChars(s)
    ensures NameChars(TrimLeft(s)) && (TrimLeft(s) != "" ==> TrimLeft(s)[0] != '-')
  {
    if s != "" && s[0] == '-' {
      TrimLeftFacts(s[1..]);
    }
  }

  lemma {:induction false} TrimRightFacts(s: string)
    requires NameChars(s)
    ensures NameChars(TrimRight(s)) && !DashEnd(TrimRight(s))
    ensures s != "" && s[0] != '-' ==> TrimRight(s) != "" && TrimRight(s)[0] == s[0]
  {
    if DashEnd(s) {
      TrimRightFacts(s[..|s| - 1]);
    }
  }

  lemma SanitizeChars(s: string)
    ensures NameChars(Sanitize(s))
  {}

  lemma FullNameFacts(components: seq<string>)
    ensures var f := FullName(components);
      NameChars(f) && !DashEnd(f) && (f != "" ==> IsLetter(f[0]))
  {
    var s := Sanitize(Join(components));
    SanitizeChars(Join(components));
    TrimLeftFacts(s);
    TrimRightFacts(TrimLeft(s));
  }

  /**
   Every generated name has at most 63 characters of [a-z0-9-] and is empty or starts with
   a letter; it ends in a letter or digit unless it was truncated.
   */
  lemma NameWellFormed(components: seq<string>)
    ensures var r := GenerateName(components);
      && |r| <= MAX_LABEL && NameChars(r)
      && (r != "" ==> IsLetter(r[0]))
      && (|FullName(components)| <= MAX_LABEL ==> !DashEnd(r))
  {
    FullNameFacts(components);
  }

  lemma SanitizeIdentity(s: string)
    requires NameChars(s)
    ensures Sanitize(s) == s
  {}

  lemma {:induction false} TrimRightIdentity(s: string)
    ensures TrimRight(s) == s <==> !DashEnd(s)
    ensures |TrimRight(s)| <= |s|
  {
    if DashEnd(s) {
      TrimRightIdentity(s[..|s| - 1]);
    }
  }

  /** A generated name is a fixed point exactly when it does not end in a dash. */
  lemma FixedPointExactly(components: seq<string>)
    ensures var r := GenerateName(components);
      GenerateName([r]) == r <==> !DashEnd(r)
  {
    var r := GenerateName(components);
    NameWellFormed(components);
    assert Join([r]) == r;
    SanitizeIdentity(r);
    assert TrimLeft(r) == r;
    TrimRightIdentity(r);
    TrimRightFacts(r);
    assert FullName([r]) == TrimRight(r);
  }

  // ---------------------------------------------------------------- what a name keeps

  /** A DNS label the generator has nothing to do with. */
  predicate IsLabel(s: string) {
    && |s| <= MAX_LABEL && NameChars(s) && !DashEnd(s)
    && (s != "" ==> 'a' <= s[0] <= 'z')
  }

  /** Exactly the labels are kept as they are. */
  lemma LabelsKeptExactly(s: string)
    ensures GenerateName([s]) == s <==> IsLabel(s)
  {
    assert Join([s]) == s;
    if IsLabel(s) {
      SanitizeIdentity(s);
      assert TrimLeft(s) == s;
      TrimRightIdentity(s);
    }
    if GenerateName([s]) == s {
      NameWellFormed([s]);
      if DashEnd(s) {
        FixedPointExactly([s]);
      }
    }
  }

  predicate UpperOf(u: string, s: string) {
    |u| == |s| && forall i :: 0 <= i < |s| ==>
      u[i] == s[i] || ('a' <= s[i] <= 'z' && u[i] as int == s[i] as int - 32)
  }

  /** Case does not matter: any spelling of a label in upper and lower case gives the label. */
  lemma CaseIsFolded(u: string, s: string)
    requires IsLabel(s) && UpperOf(u, s)
    ensures GenerateName([u]) == s
  {
    assert Join([u]) == u && Join([s]) == s;
    forall i | 0 <= i < |s| ensures CleanChar(u[i]) == s[i] {
      assert IsNameChar(s[i]);
    }
    assert Sanitize(u) == s;
    SanitizeIdentity(s);
    LabelsKeptExactly(s);
  }

  /** Characters outside the alphabet become dashes, one for one. */
  lemma OthersBecomeDashes(a: string, c: char, b: string)
    requires IsLabel(a + "-" + b) && !IsNameChar(Lower(c))
    ensures GenerateName([a + [c] + b]) == a + "-" + b
  {
    var u, s := a + [c] + b, a + "-" + b;
    assert Join([u]) == u && Join([s]) == s;
    forall i | 0 <= i < |s| ensures CleanChar(u[i]) == s[i] {
      assert IsNameChar(s[i]);
    }
    assert Sanitize(u) == s;
    SanitizeIdentity(s);
    LabelsKeptExactly(s);
  }

  /** A name that would start with a digit gets "a-" in front and is otherwise kept, up to 63 characters. */
  lemma DigitGetsLetter(s: string)
    requires s != "" && '0' <= s[0] <= '9' && NameChars(s) && !DashEnd(s)
    ensures FullName([s]) == "a-" + s
    ensures |s| <= 61 ==> GenerateName([s]) == "a-" + s
    ensures |s| > 61 ==> GenerateName([s]) == "a-" + s[..61]
  {
    assert Join([s]) == s;
    SanitizeIdentity(s);
    assert TrimLeft(s) == s;
    TrimRightIdentity(s);
    if |s| > 61 {
      assert ("a-" + s)[..63] == "a-" + s[..61];
    }
  }

  /** Dashes around a label are dropped. */
  lemma {:induction false} DashesTrimmed(s: string, before: nat, after: nat)
    requires IsLabel(s) && s != ""
    ensures GenerateName([Dashes(before) + s + Dashes(after)]) == s
  {
    var t := Dashes(before) + s + Dashes(after);
    assert Join([t]) == t;
    SanitizeIdentity(t);
    LeftTrimmed(s + Dashes(after), before);
    assert t == Dashes(before) + (s + Dashes(after));
    RightTrimmed(s, after);
    LabelsKeptExactly(s);
    assert Join([s]) == s;
    SanitizeIdentity(s);
    TrimRightIdentity(s);
  }

  function Dashes(n: nat): string {
    seq(n, _ => '-')
  }

  lemma {:induction false} LeftTrimmed(s: string, n: nat)
    requires s != "" && s[0] != '-'
    ensures TrimLeft(Dashes(n) + s) == s
  {
    if n == 0 {
      assert Dashes(n) + s == s;
    } else {
      assert (Dashes(n) + s)[1..] == Dashes(n - 1) + s;
      LeftTrimmed(s, n - 1);
    }
  }

  lemma {:induction false} RightTrimmed(s: string, n: nat)
    requires s != "" && !DashEnd(s)
    ensures TrimRight(s + Dashes(n)) == s
  {
    var t := s + Dashes(n);
    if n == 0 {
      assert t == s;
    } else {
      assert t[..|t| - 1] == s + Dashes(n - 1);
      RightTrimmed(s, n - 1);
    }
  }

  // ---------------------------------------------------------------- two names of one cluster

  const LB_POOL := "ippool"
  const VM_POOL := "vm-ippool"

  /** The sanitised text before the suffix of a cluster's generated names. */
  function NamePrefix(namespace: string, name: string): string {
    StartWithLetter(TrimLeft(Sanitize(namespace + "-" + name + "-")))
  }

  lemma JoinThree(a: string, b: string, c: string)
    ensures Join([a, b, c]) == a + "-" + b + "-" + c
  {
    assert [a, b, c][1..] == [b, c] && [b, c][1..] == [c];
    assert Join([c]) == c;
    assert Join([b, c]) == b + "-" + c;
    assert a + "-" + (b + "-" + c) == a + "-" + b + "-" + c;
  }

  lemma SanitizeConcat(a: string, b: string)
    ensures Sanitize(a + b) == Sanitize(a) + Sanitize(b)
  {}

  lemma {:induction false} TrimLeftConcat(a: string, b: string)
    requires b != "" && b[0] != '-'
    ensures TrimLeft(a + b) == TrimLeft(a) + b
  {
    if a == "" {
      assert a + b == b;
    } else if a[0] == '-' {
      assert (a + b)[1..] == a[1..] + b;
      TrimLeftConcat(a[1..], b);
    }
  }

  lemma FullNameSplits(namespace: string, name: string, suffix: string)
    requires suffix != "" && NameChars(suffix) && IsLetter(suffix[0]) && !DashEnd(suffix)
    ensures FullName([namespace, name, suffix]) == NamePrefix(namespace, name) + suffix
  {
    var before := namespace + "-" + name + "-";
    JoinThree(namespace, name, suffix);
    SanitizeConcat(before, suffix);
    SanitizeIdentity(suffix);
    TrimLeftConcat(Sanitize(before), suffix);
    var t := TrimLeft(Sanitize(before));
    assert !DashEnd(t + suffix);
    TrimRightIdentity(t + suffix);
    if t == "" {
      assert t + suffix == suffix;
    } else {
      assert (t + suffix)[0] == t[0];
      assert StartWithLetter(t + suffix) == StartWithLetter(t) + suffix;
    }
  }

  /**
   The load-balancer pool and the VM pool of a cluster have different names exactly when
   the text before their suffixes is shorter than 63 characters.
   */
  lemma PoolNamesDifferExactly(namespace: string, name: string)
    ensures GenerateName([namespace, name, LB_POOL]) != GenerateName([namespace, name, VM_POOL])
       <==> |NamePrefix(namespace, name)| < MAX_LABEL
  {
    FullNameSplits(namespace, name, LB_POOL);
    FullNameSplits(namespace, name, VM_POOL);
    var p := NamePrefix(namespace, name);
    var a, b := GenerateName([namespace, name, LB_POOL]), GenerateName([namespace, name, VM_POOL]);
    if |p| < MAX_LABEL {
      assert a[|p|] == 'i' && b[|p|] == 'v';
    } else {
      assert a == p[..MAX_LABEL] == b;
    }
  }

  /** A generated pool name is never empty. */
  lemma PoolNameNotEmpty(namespace: string, name: string)
    ensures GenerateName([namespace, name, VM_POOL]) != "" && GenerateName([namespace, name, LB_POOL]) != ""
  {
    FullNameSplits(namespace, name, LB_POOL);
    FullNameSplits(namespace, name, VM_POOL);
  }

  /** Different clusters can share a generated name, whatever the suffix. */
  lemma ClustersShareName(ns: string, middle: string, name: string, suffix: string)
    ensures GenerateName([ns + "-" + middle, name, suffix]) == GenerateName([ns, middle + "-" + name, suffix])
  {
    JoinThree(ns + "-" + middle, name, suffix);
    JoinThree(ns, middle + "-" + name, suffix);
    assert ns + "-" + middle + "-" + name == ns + "-" + (middle + "-" + name);
  }
}
