/**
 The multi-document edit of util/cloud_provider.go: find a Secret among the documents of a
 YAML stream, set one of its keys, and write the stream back. ModifyYAMlString discards
 the document indexes GetSecrets computes and uses the position in the list of Secrets as
 if it were a position in the list of documents.

 The codec is abstract: a document either decodes to a Secret, whatever its layout, or is
 something else; encoding a Secret gives a document that decodes to it.
 */
module SecretDocs {
  import opened Wrappers

  type Bytes = seq<bv8>

  datatype Secret = Secret(name: string, namespace: string, kind: string, data: Option<map<string, Bytes>>)

  datatype Doc = SecretDoc(secret: Secret, layout: nat) | OtherDoc(text: string)

  function Decode(d: Doc): Option<Secret> {
    if d.SecretDoc? then Some(d.secret) else None
  }

  function Encode(s: Secret): (d: Doc)
    ensures Decode(d) == Some(s)
  {
    SecretDoc(s, 0)
  }

  predicate Named(s: Secret, name: string, namespace: string) {
    s.name == name && s.namespace == namespace
  }

  predicate NamedDoc(d: Doc, name: string, namespace: string) {
    Decode(d).Some? && Named(Decode(d).value, name, namespace)
  }

  /** SetSecretData. */
  function WithData(s: Secret, key: string, value: Bytes): Secret {
    s.(data := Some((if s.data.None? then map[] else s.data.value)[key := value]))
  }

  function NewSecret(name: string, namespace: string): Secret {
    Secret(name, namespace, "Opaque", None)
  }

  // ---------------------------------------------------------------- specification

  /** How many of the documents are Secrets. */
  function CountSecrets(docs: seq<Doc>): (n: nat)
    ensures n <= |docs|
  {
    if docs == [] then 0
    else CountSecrets(docs[..|docs| - 1]) + if Decode(docs[|docs| - 1]).Some? then 1 else 0
  }

  predicate AllSecrets(docs: seq<Doc>) {
    forall i :: 0 <= i < |docs| ==> Decode(docs[i]).Some?
  }

  predicate Absent(docs: seq<Doc>, name: string, namespace: string) {
    forall i :: 0 <= i < |docs| ==> !NamedDoc(docs[i], name, namespace)
  }

  /** Document `t` is the first one holding the named Secret. */
  predicate FirstNamed(docs: seq<Doc>, name: string, namespace: string, t: nat) {
    t < |docs| && NamedDoc(docs[t], name, namespace) && Absent(docs[..t], name, namespace)
  }

  /** The edit as intended: the named Secret's own document is replaced, or a new one appended. */
  predicate Intended(docs: seq<Doc>, out: seq<Doc>, name: string, namespace: string, key: string, value: Bytes) {
    if Absent(docs, name, namespace)
    then out == docs + [Encode(WithData(NewSecret(name, namespace), key, value))]
    else exists t: nat :: t < |docs| && FirstNamed(docs, name, namespace, t)
           && out == docs[t := Encode(WithData(docs[t].secret, key, value))]
  }

  /** The edit as made: the document replaced is the one whose index is the number of Secrets before `t`. */
  predicate Edited(docs: seq<Doc>, out: seq<Doc>, name: string, namespace: string, key: string, value: Bytes) {
    if Absent(docs, name, namespace)
    then out == docs + [Encode(WithData(NewSecret(name, namespace), key, value))]
    else exists t: nat :: t < |docs| && FirstNamed(docs, name, namespace, t)
           && out == docs[CountSecrets(docs[..t]) := Encode(WithData(docs[t].secret, key, value))]
  }

  // ---------------------------------------------------------------- the source's procedures

  /** `indexes` lists the Secret documents in order, and secrets[j] decodes document indexes[j]. */
  predicate ListsSecrets(docs: seq<Doc>, secrets: seq<Secret>, indexes: seq<nat>) {
    && |secrets| == |indexes| == CountSecrets(docs)
    && (forall j :: 0 <= j < |indexes| ==> indexes[j] < |docs| && Decode(docs[indexes[j]]) == Some(secrets[j]))
    && (forall j, k :: 0 <= j < k < |indexes| ==> indexes[j] < indexes[k])
    && (forall j :: 0 <= j < |indexes| ==> CountSecrets(docs[..indexes[j]]) == j)
    && (forall i :: 0 <= i < |docs| && Decode(docs[i]).Some? ==> i in indexes)
  }

  method GetSecrets(objects: seq<Doc>) returns (secrets: seq<Secret>, indexes: seq<nat>)
    ensures ListsSecrets(objects, secrets, indexes)
  {
    secrets, indexes := [], [];
    for i := 0 to |objects|
      invariant ListsSecrets(objects[..i], secrets, indexes)
    {
      var decoded := Decode(objects[i]);
      ListsOneMore(objects[..i], secrets, indexes, objects[i]);
      assert objects[..i + 1] == objects[..i] + [objects[i]];
      if decoded.None? {
        continue;
      }
      indexes := indexes + [i];
      secrets := secrets + [decoded.value];
    }
    assert objects[..|objects|] == objects;
  }

  lemma ListsOneMore(docs: seq<Doc>, secrets: seq<Secret>, indexes: seq<nat>, d: Doc)
    requires ListsSecrets(docs, secrets, indexes)
    ensures Decode(d).None? ==> ListsSecrets(docs + [d], secrets, indexes)
    ensures Decode(d).Some? ==> ListsSecrets(docs + [d], secrets + [Decode(d).value], indexes + [|docs|])
  {
    var more := docs + [d];
    assert more[..|docs|] == docs;
    forall i | 0 <= i <= |docs| ensures more[..i] == docs[..i] {}
    if Decode(d).Some? {
      var idx := indexes + [|docs|];
      forall i | 0 <= i < |more| && Decode(more[i]).Some? ensures i in idx {
        if i < |docs| {
          assert i in indexes;
        } else {
          assert idx[|indexes|] == i;
        }
      }
    }
  }

  method FindSecretByName(secrets: seq<Secret>, name: string, namespace: string) returns (found: Option<nat>)
    ensures found.None? ==> forall i :: 0 <= i < |secrets| ==> !Named(secrets[i], name, namespace)
    ensures found.Some? ==>
      && found.value < |secrets| && Named(secrets[found.value], name, namespace)
      && forall i :: 0 <= i < found.value ==> !Named(secrets[i], name, namespace)
  {
    for i := 0 to |secrets|
      invariant forall j :: 0 <= j < i ==> !Named(secrets[j], name, namespace)
    {
      if secrets[i].name == name && secrets[i].namespace == namespace {
        return Some(i);
      }
    }
    return None;
  }

  lemma FoundIsFirst(docs: seq<Doc>, secrets: seq<Secret>, indexes: seq<nat>, name: string, namespace: string, k: nat)
    requires ListsSecrets(docs, secrets, indexes) && k < |secrets| && Named(secrets[k], name, namespace)
    requires forall i :: 0 <= i < k ==> !Named(secrets[i], name, namespace)
    ensures FirstNamed(docs, name, namespace, indexes[k])
  {
    forall i | 0 <= i < indexes[k] ensures !NamedDoc(docs[i], name, namespace) {
      if Decode(docs[i]).Some? {
        var j :| 0 <= j < |indexes| && indexes[j] == i;
        assert j < k;
      }
    }
  }

  method ModifyYAML(docs: seq<Doc>, name: string, namespace: string, key: string, value: Bytes) returns (objects: seq<Doc>)
    ensures Edited(docs, objects, name, namespace, key, value)
  {
    objects := docs;
    var secrets, indexes := GetSecrets(objects);
    var found := FindSecretByName(secrets, name, namespace);
    var secret, index;
    if found.None? {
      forall i | 0 <= i < |docs| ensures !NamedDoc(docs[i], name, namespace) {
        if Decode(docs[i]).Some? {
          var j :| 0 <= j < |indexes| && indexes[j] == i;
        }
      }
      secret, index := NewSecret(name, namespace), |objects|;
    } else {
      FoundIsFirst(docs, secrets, indexes, name, namespace, found.value);
      secret, index := secrets[found.value], found.value;
    }
    secret := WithData(secret, key, value);
    if index < |objects| {
      objects := objects[index := Encode(secret)];
    } else if index == |objects| {
      objects := objects + [Encode(secret)];
    }
  }

  // ---------------------------------------------------------------- what the edit does

  lemma {:induction false} CountAll(docs: seq<Doc>)
    ensures CountSecrets(docs) == |docs| <==> AllSecrets(docs)
  {
    if docs != [] {
      var init := docs[..|docs| - 1];
      CountAll(init);
      assert AllSecrets(docs) <==> AllSecrets(init) && Decode(docs[|docs| - 1]).Some?;
    }
  }

  lemma FirstNamedUnique(docs: seq<Doc>, name: string, namespace: string, t: nat, u: nat)
    requires FirstNamed(docs, name, namespace, t) && FirstNamed(docs, name, namespace, u)
    ensures t == u
  {}

  /** The edit is the intended one exactly when every document before the named Secret is a Secret too. */
  lemma IntendedExactly(docs: seq<Doc>, out: seq<Doc>, name: string, namespace: string, key: string, value: Bytes, t: nat)
    requires Edited(docs, out, name, namespace, key, value) && FirstNamed(docs, name, namespace, t)
    ensures Intended(docs, out, name, namespace, key, value) <==> AllSecrets(docs[..t])
  {
    var u: nat :| u < |docs| && FirstNamed(docs, name, namespace, u)
                  && out == docs[CountSecrets(docs[..u]) := Encode(WithData(docs[u].secret, key, value))];
    FirstNamedUnique(docs, name, namespace, t, u);
    CountAll(docs[..t]);
    var k := CountSecrets(docs[..t]);
    if k < t {
      assert docs[..t][k] == docs[k];
      assert NamedDoc(out[k], name, namespace) && !NamedDoc(docs[k], name, namespace);
    }
    if k != t && Intended(docs, out, name, namespace, key, value) {
      var v: nat :| v < |docs| && FirstNamed(docs, name, namespace, v)
                    && out == docs[v := Encode(WithData(docs[v].secret, key, value))];
      FirstNamedUnique(docs, name, namespace, t, v);
    }
  }

  /**
   Whatever the documents: at most one is replaced or one is appended and all others stay,
   and looking the Secret up again finds the new value.
   */
  lemma EditReadsBack(docs: seq<Doc>, out: seq<Doc>, name: string, namespace: string, key: string, value: Bytes)
    requires Edited(docs, out, name, namespace, key, value)
    ensures |out| == |docs| + if Absent(docs, name, namespace) then 1 else 0
    ensures exists k: nat ::
      && k < |out| && FirstNamed(out, name, namespace, k)
      && out[k].secret.data.Some? && key in out[k].secret.data.value && out[k].secret.data.value[key] == value
      && forall i :: 0 <= i < |docs| && i != k ==> out[i] == docs[i]
  {
    var k: nat;
    if Absent(docs, name, namespace) {
      k := |docs|;
      assert out[..k] == docs;
    } else {
      var t: nat :| t < |docs| && FirstNamed(docs, name, namespace, t)
                    && out == docs[CountSecrets(docs[..t]) := Encode(WithData(docs[t].secret, key, value))];
      k := CountSecrets(docs[..t]);
      assert NamedDoc(docs[t], name, namespace);
      forall i | 0 <= i < k ensures !NamedDoc(out[i], name, namespace) {
        assert docs[..t][i] == docs[i];
      }
    }
    assert FirstNamed(out, name, namespace, k);
  }

  /** The two data maps agree on every key but one. */
  ghost predicate SameButAt(before: Option<map<string, Bytes>>, after: Option<map<string, Bytes>>, key: string) {
    var b, a := if before.Some? then before.value else map[], if after.Some? then after.value else map[];
    forall q :: q != key ==> (q in a <==> q in b) && (q in b ==> a[q] == b[q])
  }

  /**
   What the edit writes: the named Secret as it was but for the one key, wherever it ends up;
   or, if there was none, a new Opaque Secret of that name with that single entry.
   */
  lemma EditWrites(docs: seq<Doc>, out: seq<Doc>, name: string, namespace: string, key: string, value: Bytes, t: nat)
    requires Edited(docs, out, name, namespace, key, value)
    ensures FirstNamed(docs, name, namespace, t) ==> exists k: nat ::
      && k <= t && k < |out| && FirstNamed(out, name, namespace, k)
      && var s := out[k].secret;
         && s.name == name && s.namespace == namespace && s.kind == docs[t].secret.kind
         && s.data.Some? && key in s.data.value && s.data.value[key] == value
         && SameButAt(docs[t].secret.data, s.data, key)
    ensures Absent(docs, name, namespace) ==>
      && |out| == |docs| + 1 && out[..|docs|] == docs
      && Decode(out[|docs|]) == Some(Secret(name, namespace, "Opaque", Some(map[key := value])))
  {
    if FirstNamed(docs, name, namespace, t) {
      var u: nat :| u < |docs| && FirstNamed(docs, name, namespace, u)
                    && out == docs[CountSecrets(docs[..u]) := Encode(WithData(docs[u].secret, key, value))];
      FirstNamedUnique(docs, name, namespace, t, u);
      var k := CountSecrets(docs[..t]);
      forall i | 0 <= i < k ensures !NamedDoc(out[i], name, namespace) {
        assert docs[..t][i] == docs[i];
      }
      assert FirstNamed(out, name, namespace, k);
    }
  }

  /**
   When a document before the named Secret is not a Secret, an earlier document that is not
   the named Secret is lost and the old Secret stays in the stream.
   */
  lemma EditLosesDocument(docs: seq<Doc>, out: seq<Doc>, name: string, namespace: string, key: string, value: Bytes, t: nat)
    requires Edited(docs, out, name, namespace, key, value) && FirstNamed(docs, name, namespace, t) && !AllSecrets(docs[..t])
    ensures var k := CountSecrets(docs[..t]);
      k < t && !NamedDoc(docs[k], name, namespace) && NamedDoc(out[k], name, namespace) && out[t] == docs[t]
  {
    CountAll(docs[..t]);
    var u: nat :| u < |docs| && FirstNamed(docs, name, namespace, u)
                  && out == docs[CountSecrets(docs[..u]) := Encode(WithData(docs[u].secret, key, value))];
    FirstNamedUnique(docs, name, namespace, t, u);
    assert docs[..t][CountSecrets(docs[..t])] == docs[CountSecrets(docs[..t])];
  }

  /**
   A first edit that appends the Secret is followed by a second edit that keeps the other
   documents exactly when all of them are Secrets.
   */
  lemma EditTwice(docs: seq<Doc>, once: seq<Doc>, twice: seq<Doc>, name: string, namespace: string, key: string, v1: Bytes, v2: Bytes)
    requires Absent(docs, name, namespace)
    requires Edited(docs, once, name, namespace, key, v1) && Edited(once, twice, name, namespace, key, v2)
    ensures twice[..|docs|] == docs <==> AllSecrets(docs)
  {
    var t := |docs|;
    assert once[..t] == docs;
    assert FirstNamed(once, name, namespace, t);
    assert NamedDoc(once[t], name, namespace);
    var u: nat :| u < |once| && FirstNamed(once, name, namespace, u)
                  && twice == once[CountSecrets(once[..u]) := Encode(WithData(once[u].secret, key, v2))];
    FirstNamedUnique(once, name, namespace, t, u);
    CountAll(docs);
    var k := CountSecrets(docs);
    if k < t {
      assert NamedDoc(twice[k], name, namespace) && !NamedDoc(docs[k], name, namespace);
      assert twice[..t][k] != docs[k];
    }
  }
}
