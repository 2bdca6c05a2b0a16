/**
 MergeCloudInitData of util/cloudinit.go. The YAML codec is abstract: an input is what it
 parses to (None when malformed), and the output parses back to the merged object.
 */
module CloudInit {
  import opened Wrappers

  datatype Value = Null | List(items: seq<Value>) | Other(text: string)

  type Object = map<string, Value>

  datatype MergeError = Malformed | SectionNotAList | ValueNotAList

  const LIST_SECTIONS: set<string> :=
    {"packages", "runcmd", "ssh_authorized_keys", "groups", "users", "write_files", "bootcmd"}

  // ---------------------------------------------------------------- specification

  /** Every list section present holds a list; an explicit null does not. */
  predicate WellTyped(o: Object) {
    forall k :: k in o && k in LIST_SECTIONS ==> o[k].List?
  }

  function ItemsAt(o: Object, k: string): seq<Value> {
    if k in o && o[k].List? then o[k].items else []
  }

  function MergedAt(acc: Object, o: Object, k: string): Value
    requires k in acc || k in o
  {
    if k !in o then acc[k]
    else if k in LIST_SECTIONS then List(ItemsAt(acc, k) + ItemsAt(o, k))
    else o[k]
  }

  function MergeOne(acc: Object, o: Object): Object {
    map k | k in acc.Keys + o.Keys :: MergedAt(acc, o, k)
  }

  function MergeAll(inputs: seq<Option<Object>>): Result<Object, MergeError> {
    if inputs == [] then Ok(map[])
    else
      var before := MergeAll(inputs[..|inputs| - 1]);
      var input := inputs[|inputs| - 1];
      if before.Err? then before
      else if input.None? then Err(Malformed)
      else if !WellTyped(input.value) then Err(ValueNotAList)
      else Ok(MergeOne(before.value, input.value))
  }

  predicate AllUsable(inputs: seq<Option<Object>>) {
    forall i :: 0 <= i < |inputs| ==> inputs[i].Some? && WellTyped(inputs[i].value)
  }

  /** The items of section `k` over all inputs, in argument order. */
  function AllItems(inputs: seq<Option<Object>>, k: string): seq<Value> {
    if inputs == [] then []
    else
      var last := inputs[|inputs| - 1];
      AllItems(inputs[..|inputs| - 1], k) + (if last.Some? then ItemsAt(last.value, k) else [])
  }

  /** The value of `k` in the last input that has it. */
  function LastValue(inputs: seq<Option<Object>>, k: string): Option<Value> {
    if inputs == [] then None
    else if inputs[|inputs| - 1].Some? && k in inputs[|inputs| - 1].value then Some(inputs[|inputs| - 1].value[k])
    else LastValue(inputs[..|inputs| - 1], k)
  }

  // ---------------------------------------------------------------- the source's loops

  /**
   The nested loops over the inputs and over the keys of each, the keys in any order: the
   result is MergeAll's, so neither success nor result depends on that order.
   */
  method MergeCloudInitData(inputs: seq<Option<Object>>) returns (r: Result<Object, MergeError>)
    ensures r == MergeAll(inputs)
  {
    var res: Object := map[];
    for i := 0 to |inputs|
      invariant MergeAll(inputs[..i]) == Ok(res) && WellTyped(res)
    {
      assert inputs[..i + 1][..i] == inputs[..i];
      if inputs[i].None? {
        MergeStuck(inputs, i, Malformed);
        return Err(Malformed);
      }
      var merged := MergeKeys(res, inputs[i].value);
      if merged.Err? {
        MergeStuck(inputs, i, ValueNotAList);
        return merged;
      }
      res := merged.value;
    }
    assert inputs[..|inputs|] == inputs;
    return Ok(res);
  }

  method MergeKeys(acc: Object, o: Object) returns (r: Result<Object, MergeError>)
    requires WellTyped(acc)
    ensures r == if WellTyped(o) then Ok(MergeOne(acc, o)) else Err(ValueNotAList)
    ensures r.Ok? ==> WellTyped(r.value)
  {
    var res := acc;
    var rest := o.Keys;
    while rest != {}
      invariant rest <= o.Keys && WellTyped(res)
      invariant res.Keys == acc.Keys + (o.Keys - rest)
      invariant forall k :: k in o && k !in rest ==> res[k] == MergedAt(acc, o, k)
      invariant forall k :: k in acc && (k !in o || k in rest) ==> res[k] == acc[k]
      invariant forall k :: k in o && k !in rest && k in LIST_SECTIONS ==> o[k].List?
      decreases rest
    {
      var k :| k in rest;
      rest := rest - {k};
      var v := o[k];
      if k in LIST_SECTIONS {
        var section: seq<Value> := [];
        if k in res && res[k] != Null {
          if !res[k].List? {
            return Err(SectionNotAList);
          }
          section := res[k].items;
        }
        if !v.List? {
          return Err(ValueNotAList);
        }
        section := section + v.items;
        res := res[k := List(section)];
      } else {
        res := res[k := v];
      }
    }
    assert res == MergeOne(acc, o);
    return Ok(res);
  }

  lemma {:induction false} MergeStuck(inputs: seq<Option<Object>>, i: nat, e: MergeError)
    requires i < |inputs| && MergeAll(inputs[..i + 1]) == Err(e)
    ensures MergeAll(inputs) == Err(e)
    decreases |inputs|
  {
    if i + 1 == |inputs| {
      assert inputs[..i + 1] == inputs;
    } else {
      assert inputs[..|inputs| - 1][..i + 1] == inputs[..i + 1];
      MergeStuck(inputs[..|inputs| - 1], i, e);
    }
  }

  // ---------------------------------------------------------------- laws

  /** The merge fails exactly when some input is malformed or holds a list section that is not a list. */
  lemma {:induction false} FailsExactly(inputs: seq<Option<Object>>)
    ensures MergeAll(inputs).Ok? <==> AllUsable(inputs)
    ensures MergeAll(inputs).Ok? ==> WellTyped(MergeAll(inputs).value)
  {
    if inputs != [] {
      var init := inputs[..|inputs| - 1];
      FailsExactly(init);
      assert AllUsable(inputs) <==>
        AllUsable(init) && inputs[|inputs| - 1].Some? && WellTyped(inputs[|inputs| - 1].value);
    }
  }

  /** Input `i` is the first that cannot be used, for the reason `e`. */
  predicate FirstUnusable(inputs: seq<Option<Object>>, i: nat, e: MergeError) {
    && i < |inputs| && AllUsable(inputs[..i])
    && (if inputs[i].None? then e == Malformed else !WellTyped(inputs[i].value) && e == ValueNotAList)
  }

  /** The error reported is that of the first input that cannot be used. */
  lemma {:induction false} FailsWithFirst(inputs: seq<Option<Object>>)
    requires MergeAll(inputs).Err?
    ensures exists i: nat :: FirstUnusable(inputs, i, MergeAll(inputs).error)
  {
    var init := inputs[..|inputs| - 1];
    if MergeAll(init).Err? {
      FailsWithFirst(init);
      var i: nat :| FirstUnusable(init, i, MergeAll(init).error);
      assert inputs[..i] == init[..i] && inputs[i] == init[i];
      assert FirstUnusable(inputs, i, MergeAll(inputs).error);
    } else {
      FailsExactly(init);
      assert FirstUnusable(inputs, |inputs| - 1, MergeAll(inputs).error);
    }
  }

  /** A list section holding anything but a list, null included, is refused; any other key may hold anything. */
  lemma RefusedExactly(k: string, v: Value)
    ensures var merged := MergeAll([Some(map[k := v])]);
      if v.List? || (k != "packages" && k != "runcmd" && k != "ssh_authorized_keys" && k != "groups"
                     && k != "users" && k != "write_files" && k != "bootcmd")
      then merged == Ok(map[k := v]) else merged == Err(ValueNotAList)
  {
    var o := map[k := v];
    assert [Some(o)][..0] == [];
    if WellTyped(o) {
      MergeEmpty(o);
    } else {
      assert k in o && k in LIST_SECTIONS;
    }
  }

  /** Exactly these keys of two documents are concatenated; of every other the second value stays. */
  lemma ConcatenatesExactly(k: string, a: seq<Value>, b: seq<Value>)
    requires a != []
    ensures var merged := MergeAll([Some(map[k := List(a)]), Some(map[k := List(b)])]);
      && merged.Ok?
      && merged.value.Keys == {k}
      && merged.value[k] == List(
           if k == "packages" || k == "runcmd" || k == "ssh_authorized_keys" || k == "groups"
              || k == "users" || k == "write_files" || k == "bootcmd"
           then a + b else b)
  {
    var x, y := map[k := List(a)], map[k := List(b)];
    assert [Some(x), Some(y)][..1] == [Some(x)] && [Some(x)][..0] == [];
    MergeEmpty(x);
    assert MergeAll([Some(x)]) == Ok(x);
    assert ItemsAt(x, k) == a && ItemsAt(y, k) == b;
    assert MergeOne(x, y).Keys == {k};
  }

  /**
   What a successful merge holds: a list section is present if some input has it and is the
   concatenation of all inputs' items in argument order; any other key has its last value.
   */
  lemma {:induction false} MergedContents(inputs: seq<Option<Object>>, k: string)
    requires AllUsable(inputs)
    ensures MergeAll(inputs).Ok?
    ensures k in MergeAll(inputs).value <==> LastValue(inputs, k).Some?
    ensures k in LIST_SECTIONS && k in MergeAll(inputs).value ==> MergeAll(inputs).value[k] == List(AllItems(inputs, k))
    ensures k in LIST_SECTIONS && k !in MergeAll(inputs).value ==> AllItems(inputs, k) == []
    ensures k !in LIST_SECTIONS && k in MergeAll(inputs).value ==> Some(MergeAll(inputs).value[k]) == LastValue(inputs, k)
  {
    FailsExactly(inputs);
    if inputs != [] {
      var init := inputs[..|inputs| - 1];
      MergedContents(init, k);
      FailsExactly(init);
    }
  }

  lemma MergeEmpty(o: Object)
    requires WellTyped(o)
    ensures MergeOne(map[], o) == o
  {
    forall k | k in o ensures MergedAt(map[], o, k) == o[k] {}
  }

  lemma MergeAssociativeAt(a: Object, b: Object, c: Object, k: string)
    requires WellTyped(a) && WellTyped(b) && WellTyped(c) && (k in a || k in b || k in c)
    ensures MergedAt(MergeOne(a, b), c, k) == MergedAt(a, MergeOne(b, c), k)
  {
    if k in LIST_SECTIONS {
      assert (ItemsAt(a, k) + ItemsAt(b, k)) + ItemsAt(c, k) == ItemsAt(a, k) + (ItemsAt(b, k) + ItemsAt(c, k));
    }
  }

  lemma MergeAssociative(a: Object, b: Object, c: Object)
    requires WellTyped(a) && WellTyped(b) && WellTyped(c)
    ensures MergeOne(MergeOne(a, b), c) == MergeOne(a, MergeOne(b, c))
  {
    var l, r := MergeOne(MergeOne(a, b), c), MergeOne(a, MergeOne(b, c));
    assert l.Keys == r.Keys;
    forall k | k in l ensures l[k] == r[k] {
      MergeAssociativeAt(a, b, c, k);
    }
  }

  lemma {:induction false} MergeConcat(xs: seq<Option<Object>>, ys: seq<Option<Object>>)
    requires AllUsable(xs) && AllUsable(ys)
    ensures MergeAll(xs).Ok? && MergeAll(ys).Ok? && MergeAll(xs + ys).Ok?
    ensures MergeAll(xs + ys).value == MergeOne(MergeAll(xs).value, MergeAll(ys).value)
  {
    FailsExactly(xs);
    FailsExactly(ys);
    if ys == [] {
      assert xs + ys == xs;
      var m := MergeAll(xs).value;
      assert MergeOne(m, map[]) == m;
    } else {
      var init, last := ys[..|ys| - 1], ys[|ys| - 1];
      MergeConcat(xs, init);
      assert (xs + ys)[..|xs + ys| - 1] == xs + init;
      FailsExactly(xs);
      FailsExactly(init);
      MergeAssociative(MergeAll(xs).value, MergeAll(init).value, last.value);
    }
  }

  /**
   The merge is a homomorphism: merging xs followed by ys succeeds exactly when both merges
   do, and equals merging the two merged results.
   */
  lemma MergeHomomorphism(xs: seq<Option<Object>>, ys: seq<Option<Object>>)
    ensures MergeAll(xs + ys).Ok? <==> MergeAll(xs).Ok? && MergeAll(ys).Ok?
    ensures MergeAll(xs + ys).Ok? ==>
      MergeAll(xs + ys) == MergeAll([Some(MergeAll(xs).value), Some(MergeAll(ys).value)])
  {
    FailsExactly(xs);
    FailsExactly(ys);
    FailsExactly(xs + ys);
    assert AllUsable(xs + ys) <==> AllUsable(xs) && AllUsable(ys) by {
      assert forall i :: 0 <= i < |xs| ==> (xs + ys)[i] == xs[i];
      assert forall i :: 0 <= i < |ys| ==> (xs + ys)[|xs| + i] == ys[i];
    }
    if AllUsable(xs) && AllUsable(ys) {
      MergeConcat(xs, ys);
      var a, b := MergeAll(xs).value, MergeAll(ys).value;
      var two := [Some(a), Some(b)];
      assert two[..1] == [Some(a)];
      assert [Some(a)][..0] == [];
      MergeEmpty(a);
      assert MergeAll([Some(a)]) == Ok(a);
    }
  }
}
