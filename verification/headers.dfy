/** The header map of a `PalPacket` and its case-insensitive accessors
    (`hasKeyI`, `hasValueI`, `getValueI`, `setValueI`, `getValue`).

    The source keeps headers in a Python dict and every `...I` accessor walks
    the dict in iteration order, stopping at the first key that matches
    ignoring case. The model keeps the dict as a sequence of (key, value)
    pairs with distinct keys, iterated in sequence order, and a key added by
    assignment goes at the end: insertion order. Python 2 iterates a dict in
    hash order instead, so where two case variants of one key are present,
    the variant these accessors find first, and the order of `toData`'s
    header lines, follow insertion order here rather than the hash order
    of the source.
 */
module Headers {
  import opened Common
  import opened Text

  type Headers = seq<(string, string)>

  /** Dict keys are distinct (exactly, not ignoring case). */
  predicate Distinct(h: Headers) {
    forall i, j :: 0 <= i < j < |h| ==> h[i].0 != h[j].0
  }

  /** Position of the exact key `key`, if present. */
  function Find(h: Headers, key: string): (r: Option<nat>)
    ensures r.Some? ==> r.value < |h| && h[r.value].0 == key
    ensures r.None? ==> forall j :: 0 <= j < |h| ==> h[j].0 != key
  {
    if h == [] then None
    else if h[|h| - 1].0 == key then Some(|h| - 1)
    else Find(h[..|h| - 1], key)
  }

  /** `headers.get(key)` -- the source's `getValue`. */
  function Get(h: Headers, key: string): Option<string> {
    match Find(h, key)
    case Some(i) => Some(h[i].1)
    case None => None
  }

  /** `headers[key] = value`: overwrite in place, or append a new key. */
  function Put(h: Headers, key: string, value: string): (r: Headers)
    requires Distinct(h)
    ensures Distinct(r)
    ensures Get(r, key) == Some(value)
    ensures forall k :: k != key ==> Get(r, k) == Get(h, k)
    ensures Find(h, key).Some? ==> |r| == |h| && r[Find(h, key).value] == (key, value)
    ensures Find(h, key).Some? ==> forall j :: 0 <= j < |h| && j != Find(h, key).value ==> r[j] == h[j]
    ensures Find(h, key).None? ==> r == h + [(key, value)]
  {
    match Find(h, key)
    case Some(i) =>
      var r := h[i := (key, value)];
      assert Find(r, key) == Some(i) by { DistinctFind(r, i); }
      forall k | k != key
        ensures Get(r, k) == Get(h, k)
      {
        FindIgnoresOthers(h, i, key, value, k);
      }
      r
    case None =>
      var r := h + [(key, value)];
      forall k | k != key
        ensures Get(r, k) == Get(h, k)
      {
        assert r[..|r| - 1] == h;
      }
      r
  }

  lemma {:induction false} DistinctFind(h: Headers, i: nat)
    requires Distinct(h) && i < |h|
    ensures Find(h, h[i].0) == Some(i)
  {
  }

  lemma {:induction false} FindIgnoresOthers(h: Headers, i: nat, key: string, value: string, k: string)
    requires i < |h| && k != key && k != h[i].0
    ensures Find(h[i := (key, value)], k) == Find(h, k)
    decreases |h|
  {
    var r := h[i := (key, value)];
    if i < |h| - 1 {
      assert r[..|r| - 1] == h[..|h| - 1][i := (key, value)];
      FindIgnoresOthers(h[..|h| - 1], i, key, value, k);
    } else {
      assert r[..|r| - 1] == h[..|h| - 1];
    }
  }

  // ---------------------------------------------------------------------------
  // Case-insensitive accessors
  // ---------------------------------------------------------------------------

  /** The first position, in iteration order, whose key equals `key`
      ignoring case -- where every `...I` loop of the source stops. */
  function FindI(h: Headers, key: string): (r: Option<nat>)
    ensures r.Some? ==> r.value < |h| && EqualI(h[r.value].0, key)
    ensures r.Some? ==> forall j :: 0 <= j < r.value ==> !EqualI(h[j].0, key)
    ensures r.None? ==> forall j :: 0 <= j < |h| ==> !EqualI(h[j].0, key)
  {
    if h == [] then None
    else if EqualI(h[0].0, key) then Some(0)
    else match FindI(h[1..], key)
      case Some(i) => Some(i + 1)
      case None => None
  }

  /** `hasKeyI`: some key matches ignoring case. */
  function HasKeyI(h: Headers, key: string): (r: bool)
    ensures r <==> exists j :: 0 <= j < |h| && EqualI(h[j].0, key)
  {
    FindI(h, key).Some?
  }

  /** `getValueI`: the value under the first key that matches ignoring case. */
  function GetValueI(h: Headers, key: string): (r: Option<string>)
    ensures r.Some? <==> HasKeyI(h, key)
    ensures r.Some? ==> exists j :: 0 <= j < |h| && EqualI(h[j].0, key) && h[j].1 == r.value
    ensures r.Some? ==> r.value == h[FindI(h, key).value].1
  {
    match FindI(h, key)
    case Some(i) => Some(h[i].1)
    case None => None
  }

  /** `hasValueI`: the first key matching ignoring case carries `value`. */
  function HasValueI(h: Headers, key: string, value: string): (r: bool)
    ensures r <==> GetValueI(h, key) == Some(value)
  {
    match FindI(h, key)
    case Some(i) => h[i].1 == value
    case None => false
  }

  /** `setValueI`: overwrite the first key that matches ignoring case, keeping
      its spelling; with no such key, add `key` as given. */
  function SetValueI(h: Headers, key: string, value: string): (r: Headers)
    requires Distinct(h)
    ensures Distinct(r)
    ensures forall k :: EqualI(k, key) ==> GetValueI(r, k) == Some(value)
    ensures HasKeyI(h, key) ==> |r| == |h| && forall j :: 0 <= j < |h| ==> r[j].0 == h[j].0
    ensures HasKeyI(h, key) ==>
      forall j :: 0 <= j < |h| && j != FindI(h, key).value ==> r[j] == h[j]
    ensures !HasKeyI(h, key) ==> r == h + [(key, value)]
  {
    match FindI(h, key)
    case Some(i) =>
      DistinctFind(h, i);
      var r := Put(h, h[i].0, value);
      forall k | EqualI(k, key)
        ensures GetValueI(r, k) == Some(value)
      {
        assert FindI(r, k) == Some(i) by { FindIStable(h, r, k, i); }
      }
      r
    case None =>
      var r := Put(h, key, value);
      forall k | EqualI(k, key)
        ensures GetValueI(r, k) == Some(value)
      {
        assert FindI(r, k) == Some(|h|) by { FindIStable(h, r, k, |h|); }
      }
      r
  }

  /** `FindI` depends only on the keys, and only up to the first match. */
  lemma {:induction false} FindIStable(h: Headers, r: Headers, k: string, i: nat)
    requires i < |r| && EqualI(r[i].0, k)
    requires forall j :: 0 <= j < i ==> j < |h| && r[j].0 == h[j].0 && !EqualI(h[j].0, k)
    ensures FindI(r, k) == Some(i)
  {
  }

  /** A key that is the only one matching ignoring case is the one found. */
  lemma {:induction false} LookupUnique(h: Headers, k: string, i: nat)
    requires i < |h| && EqualI(h[i].0, k)
    requires forall j :: 0 <= j < |h| && j != i ==> !EqualI(h[j].0, k)
    ensures FindI(h, k) == Some(i) && GetValueI(h, k) == Some(h[i].1)
  {
    FindIStable(h, h, k, i);
  }

  /** A key whose length no other key shares is the one found. */
  lemma {:induction false} LookupByLength(h: Headers, k: string, i: nat)
    requires i < |h| && h[i].0 == k
    requires forall j :: 0 <= j < |h| && j != i ==> |h[j].0| != |k|
    ensures FindI(h, k) == Some(i) && GetValueI(h, k) == Some(h[i].1)
  {
    LookupUnique(h, k, i);
  }

  /** Keys whose lengths all differ are distinct, and a name whose length no
      key has is absent. */
  lemma {:induction false} AbsentByLength(h: Headers, k: string)
    requires forall j :: 0 <= j < |h| ==> |h[j].0| != |k|
    ensures !HasKeyI(h, k)
  {
  }

  /** Lookups ignore case: two spellings of one name find the same header. */
  lemma {:induction false} GetValueIIgnoresCase(h: Headers, k1: string, k2: string)
    requires EqualI(k1, k2)
    ensures GetValueI(h, k1) == GetValueI(h, k2)
    ensures HasKeyI(h, k1) == HasKeyI(h, k2)
  {
    assert forall j :: 0 <= j < |h| ==> (EqualI(h[j].0, k1) <==> EqualI(h[j].0, k2));
    if FindI(h, k1).Some? {
      FindIStable(h, h, k2, FindI(h, k1).value);
    } else {
      assert FindI(h, k2).None?;
    }
  }

  /** Appending a header under another name leaves every lookup of `k` as
      it was. */
  lemma {:induction false} LookupAppend(h: Headers, x: (string, string), k: string)
    requires !EqualI(x.0, k)
    ensures GetValueI(h + [x], k) == GetValueI(h, k)
    ensures HasKeyI(h + [x], k) == HasKeyI(h, k)
  {
    var r := h + [x];
    assert forall j :: 0 <= j < |h| ==> r[j] == h[j];
    match FindI(h, k)
    case Some(i) =>
      FindIStable(h, r, k, i);
    case None =>
      assert forall j :: 0 <= j < |r| ==> !EqualI(r[j].0, k);
  }

  /** `FindI` depends only on the keys. */
  lemma {:induction false} FindISameKeys(h: Headers, r: Headers, k: string)
    requires |h| == |r| && forall j :: 0 <= j < |h| ==> h[j].0 == r[j].0
    ensures FindI(h, k) == FindI(r, k)
  {
    match FindI(h, k)
    case Some(i) => FindIStable(h, r, k, i);
    case None =>
  }

  /** `setValueI(key, value)` changes no lookup of a name that differs from
      `key` ignoring case. */
  lemma {:induction false} SetValueIOthers(h: Headers, key: string, value: string, k: string)
    requires Distinct(h) && !EqualI(k, key)
    ensures GetValueI(SetValueI(h, key, value), k) == GetValueI(h, k)
    ensures HasKeyI(SetValueI(h, key, value), k) == HasKeyI(h, k)
  {
    var r := SetValueI(h, key, value);
    if HasKeyI(h, key) {
      var i := FindI(h, key).value;
      FindISameKeys(h, r, k);
      if FindI(h, k).Some? {
        var j := FindI(h, k).value;
        if j == i {
          assert false;
        }
        assert r[j] == h[j];
      }
    } else {
      LookupAppend(h, (key, value), k);
    }
  }

  /** The same, for every other name at once. */
  lemma {:induction false} SetValueIFrame(h: Headers, key: string, value: string)
    requires Distinct(h)
    ensures GetValueI(SetValueI(h, key, value), key) == Some(value)
    ensures forall k :: !EqualI(k, key) ==> GetValueI(SetValueI(h, key, value), k) == GetValueI(h, k)
  {
    assert EqualI(key, key);
    forall k | !EqualI(k, key)
      ensures GetValueI(SetValueI(h, key, value), k) == GetValueI(h, k)
    {
      SetValueIOthers(h, key, value, k);
    }
  }
}
