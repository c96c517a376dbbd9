/** The nested profile map the server sends in SUB PROFILE packets and the
    deep merge `recursiveUpdate` that folds one map into another.

    A value is either text or a dict of further values; the source tells
    them apart with `type(v) is dict`. Dict iteration order plays no part in
    `recursiveUpdate` (every key is visited once and updated on its own), so
    the model uses Dafny maps.
 */
module Profile {
  import opened Common
  import opened Text

  datatype Tree = Leaf(text: string) | Node(children: map<string, Tree>)

  /** `recursiveUpdate(m1, m2)`: every key of `m2` is written into `m1`;
      where both hold a dict under the key, the two dicts are merged
      recursively instead. */
  function RecursiveUpdate(m1: map<string, Tree>, m2: map<string, Tree>): (r: map<string, Tree>)
    ensures r.Keys == m1.Keys + m2.Keys
    ensures forall k :: k in m1 && k !in m2 ==> r[k] == m1[k]
    ensures forall k :: k in m2 && !(k in m1 && m1[k].Node? && m2[k].Node?) ==> r[k] == m2[k]
    ensures forall k :: k in m1 && k in m2 && m1[k].Node? && m2[k].Node? ==>
      r[k] == Node(RecursiveUpdate(m1[k].children, m2[k].children))
    decreases Node(m2)
  {
    map k | k in m1.Keys + m2.Keys ::
      if k in m2 then
        if k in m1 && m1[k].Node? && m2[k].Node? then
          Node(RecursiveUpdate(m1[k].children, m2[k].children))
        else m2[k]
      else m1[k]
  }

  /** Merging an empty map changes nothing. */
  lemma {:induction false} UpdateEmpty(m: map<string, Tree>)
    ensures RecursiveUpdate(m, map[]) == m
    ensures RecursiveUpdate(map[], m) == m
  {
  }

  /** Merging a map into itself changes nothing. */
  lemma {:induction false} UpdateSelf(m: map<string, Tree>)
    ensures RecursiveUpdate(m, m) == m
    decreases Node(m)
  {
    forall k | k in m && m[k].Node?
      ensures RecursiveUpdate(m[k].children, m[k].children) == m[k].children
    {
      UpdateSelf(m[k].children);
    }
  }

  /** Applying the same update twice is applying it once. */
  lemma {:induction false} UpdateIdempotent(m1: map<string, Tree>, m2: map<string, Tree>)
    ensures RecursiveUpdate(RecursiveUpdate(m1, m2), m2) == RecursiveUpdate(m1, m2)
    decreases Node(m2)
  {
    var r := RecursiveUpdate(m1, m2);
    forall k | k in m2 && m2[k].Node?
      ensures r[k].Node?
      ensures RecursiveUpdate(r[k].children, m2[k].children) == r[k].children
    {
      if k in m1 && m1[k].Node? {
        UpdateIdempotent(m1[k].children, m2[k].children);
      } else {
        UpdateSelf(m2[k].children);
      }
    }
  }

  /** A key the update does not mention keeps its value. */
  lemma {:induction false} UpdateKeeps(m1: map<string, Tree>, m2: map<string, Tree>, k: string)
    requires k in m1 && k !in m2
    ensures k in RecursiveUpdate(m1, m2) && RecursiveUpdate(m1, m2)[k] == m1[k]
  {
  }

  /** A worked example: a leaf is replaced, a new
      key is added, and nested dicts are merged key by key. */
  lemma {:induction false} UpdateExample()
    ensures RecursiveUpdate(
      map["a" := Leaf("1"), "b" := Node(map["x" := Leaf("1")])],
      map["a" := Leaf("2"), "b" := Node(map["y" := Leaf("2")]), "c" := Leaf("3")])
      == map["a" := Leaf("2"), "b" := Node(map["x" := Leaf("1"), "y" := Leaf("2")]), "c" := Leaf("3")]
  {
    var inner := RecursiveUpdate(map["x" := Leaf("1")], map["y" := Leaf("2")]);
    assert inner == map["x" := Leaf("1"), "y" := Leaf("2")];
  }

  /** `recursiveUpdate(kv[key], res)` inside `parseWeirdData`, where the
      existing value may be text: a dict absorbs a dict; text has no
      `iteritems` (AttributeError); a dict cannot be written into text
      (TypeError) unless it is empty, when nothing happens. */
  function MergeValue(existing: Tree, incoming: Tree): (r: Result<Tree>)
    ensures existing.Node? && incoming.Node? ==> r == Ok(Node(RecursiveUpdate(existing.children, incoming.children)))
    ensures incoming.Leaf? ==> r == Err(AttributeError)
    ensures existing.Leaf? && incoming.Node? ==>
      r == (if incoming.children == map[] then Ok(existing) else Err(TypeError))
  {
    match (existing, incoming)
    case (Node(m1), Node(m2)) => Ok(Node(RecursiveUpdate(m1, m2)))
    case (_, Leaf(_)) => Err(AttributeError)
    case (Leaf(_), Node(m2)) => if m2 == map[] then Ok(existing) else Err(TypeError)
  }

  /** `kv[key] = value` for a new key, else the merge above. */
  function Insert(kv: map<string, Tree>, key: string, value: Tree): (r: Result<map<string, Tree>>)
    ensures key !in kv ==> r == Ok(kv[key := value])
    ensures key in kv ==> r.Ok? == MergeValue(kv[key], value).Ok?
    ensures key in kv && r.Ok? ==> r.value == kv[key := MergeValue(kv[key], value).value]
    ensures r.Err? ==> r.fault == AttributeError || r.fault == TypeError
  {
    if key in kv then
      var merged :- MergeValue(kv[key], value);
      Ok(kv[key := merged])
    else Ok(kv[key := value])
  }
}
