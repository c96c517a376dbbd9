/** `Mesg`: a message being reassembled from MESG fragments.

    The source keeps the fragments in a dict from the fragment's `mesg-id`
    header (a string, or `None` when the header is missing) to its
    correlation id and text, and `text()` concatenates the texts in ascending
    key order. The keys are header strings, so they sort the way Python 2
    sorts strings -- byte by byte -- and `None` sorts before every string.
    The model keeps the dict as a sequence of chunks with distinct keys; the
    text does not depend on the sequence order.
 */
module Reassembly {
  import opened Common
  import opened Text

  /** One fragment: its `mesg-id`, its `correlation-id` and its text. The
      first fragment's correlation id is the source's `-1` marker, modelled
      as `None`; it only feeds diagnostics. */
  datatype Chunk = Chunk(key: Option<string>, cid: Option<string>, text: string)

  /** `Mesg.totalLength`: a count, or the empty `total-length` string that
      the engine stores as it is. */
  datatype Length = Count(n: int) | Blank

  datatype Mesg = Mesg(
    sourceId: Option<string>,
    name: Option<string>,
    totalLength: Length,
    mime: Option<string>,
    chunks: seq<Chunk>,
    groupId: Option<string>
  )

  /** Python 2 order on dict keys that are strings or `None`. */
  predicate KeyLess(a: Option<string>, b: Option<string>) {
    match a
    case None => b.Some?
    case Some(x) => b.Some? && StrLess(x, b.value)
  }

  lemma {:induction false} KeyLessOrder(a: Option<string>, b: Option<string>, c: Option<string>)
    ensures !KeyLess(a, a)
    ensures a != b ==> KeyLess(a, b) != KeyLess(b, a)
    ensures KeyLess(a, b) && KeyLess(b, c) ==> KeyLess(a, c)
  {
    if a.Some? && b.Some? {
      StrLessTotal(a.value, b.value);
    }
    if a.Some? {
      StrLessIrreflexive(a.value);
    }
    if a.Some? && b.Some? && c.Some? && KeyLess(a, b) && KeyLess(b, c) {
      StrLessTransitive(a.value, b.value, c.value);
    }
  }

  /** The chunk dict has one entry per key. */
  predicate DistinctKeys(cs: seq<Chunk>) {
    forall i, j :: 0 <= i < j < |cs| ==> cs[i].key != cs[j].key
  }

  predicate Valid(m: Mesg) {
    DistinctKeys(m.chunks)
  }

  /** `Mesg(sourceId, name, mesgId, totalLength, msg, mime)`: one chunk, no
      group. */
  function NewMesg(sourceId: Option<string>, name: Option<string>, key: Option<string>,
                   totalLength: Length, text: string, mime: Option<string>): (r: Mesg)
    ensures Valid(r) && r.chunks == [Chunk(key, None, text)] && r.groupId.None?
  {
    Mesg(sourceId, name, totalLength, mime, [Chunk(key, None, text)], None)
  }

  /** `addChunk`: `chunks[key] = (cid, text)` -- overwrite an existing key in
      place, or add a new one. */
  function AddChunk(m: Mesg, key: Option<string>, cid: Option<string>, text: string): (r: Mesg)
    requires Valid(m)
    ensures Valid(r)
    ensures r == m.(chunks := r.chunks)
    ensures Chunk(key, cid, text) in r.chunks
    ensures forall c :: c in r.chunks && c.key != key <==> c in m.chunks && c.key != key
    ensures (exists i :: 0 <= i < |m.chunks| && m.chunks[i].key == key) ==> |r.chunks| == |m.chunks|
    ensures (forall i :: 0 <= i < |m.chunks| ==> m.chunks[i].key != key) ==>
      r.chunks == m.chunks + [Chunk(key, cid, text)]
  {
    m.(chunks := Store(m.chunks, Chunk(key, cid, text)))
  }

  /** The position of the chunk with key `key`, if any. */
  function KeyIndex(cs: seq<Chunk>, key: Option<string>): (r: Option<nat>)
    ensures r.Some? ==> r.value < |cs| && cs[r.value].key == key
    ensures r.None? ==> forall i :: 0 <= i < |cs| ==> cs[i].key != key
  {
    if cs == [] then None
    else if cs[|cs| - 1].key == key then Some(|cs| - 1)
    else KeyIndex(cs[..|cs| - 1], key)
  }

  function Store(cs: seq<Chunk>, c: Chunk): (r: seq<Chunk>)
    requires DistinctKeys(cs)
    ensures DistinctKeys(r)
    ensures c in r
    ensures forall d :: d in r && d.key != c.key <==> d in cs && d.key != c.key
    ensures (exists i :: 0 <= i < |cs| && cs[i].key == c.key) ==> |r| == |cs|
    ensures (forall i :: 0 <= i < |cs| ==> cs[i].key != c.key) ==> r == cs + [c]
  {
    match KeyIndex(cs, c.key)
    case Some(i) =>
      var r := cs[i := c];
      assert r[i] == c;
      assert forall d :: d in r && d.key != c.key ==> d in cs by {
        forall d | d in r && d.key != c.key ensures d in cs {
          var k :| 0 <= k < |r| && r[k] == d;
          assert k != i;
        }
      }
      assert forall d :: d in cs && d.key != c.key ==> d in r by {
        forall d | d in cs && d.key != c.key ensures d in r {
          var k :| 0 <= k < |cs| && cs[k] == d;
          assert r[k] == d;
        }
      }
      r
    case None => cs + [c]
  }

  // ---------------------------------------------------------------------------
  // `text()`
  // ---------------------------------------------------------------------------

  /** The position of the smallest key. */
  function MinIndex(cs: seq<Chunk>): (r: nat)
    requires |cs| > 0 && DistinctKeys(cs)
    ensures r < |cs|
    ensures forall j :: 0 <= j < |cs| && j != r ==> KeyLess(cs[r].key, cs[j].key)
  {
    if |cs| == 1 then 0
    else
      var j := 1 + MinIndex(cs[1..]);
      KeyLessOrder(cs[0].key, cs[j].key, cs[0].key);
      if KeyLess(cs[0].key, cs[j].key) then
        assert forall k :: 1 <= k < |cs| && k != j ==> KeyLess(cs[j].key, cs[k].key);
        assert forall k :: 1 <= k < |cs| && k != j ==> KeyLess(cs[0].key, cs[k].key) by {
          forall k | 1 <= k < |cs| && k != j
            ensures KeyLess(cs[0].key, cs[k].key)
          {
            KeyLessOrder(cs[0].key, cs[j].key, cs[k].key);
          }
        }
        0
      else
        j
  }

  function Without(cs: seq<Chunk>, i: nat): (r: seq<Chunk>)
    requires i < |cs|
    ensures |r| == |cs| - 1
  {
    cs[..i] + cs[i + 1..]
  }

  lemma {:induction false} WithoutDistinct(cs: seq<Chunk>, i: nat)
    requires i < |cs| && DistinctKeys(cs)
    ensures DistinctKeys(Without(cs, i))
    ensures forall c :: c in Without(cs, i) ==> c in cs
  {
    var r := Without(cs, i);
    assert forall k :: 0 <= k < |r| ==> r[k] == cs[if k < i then k else k + 1];
  }

  /** `Mesg.text()`: the chunk texts, smallest key first. */
  function TextOf(cs: seq<Chunk>): string
    requires DistinctKeys(cs)
    decreases |cs|
  {
    if cs == [] then ""
    else
      var i := MinIndex(cs);
      WithoutDistinct(cs, i);
      cs[i].text + TextOf(Without(cs, i))
  }

  /** The chunk keys strictly ascend. */
  predicate Ascending(cs: seq<Chunk>) {
    forall i, j :: 0 <= i < j < |cs| ==> KeyLess(cs[i].key, cs[j].key)
  }

  /** The texts in sequence order. */
  function Concat(cs: seq<Chunk>): string {
    if cs == [] then "" else Concat(cs[..|cs| - 1]) + cs[|cs| - 1].text
  }

  lemma {:induction false} AscendingDistinct(cs: seq<Chunk>)
    requires Ascending(cs)
    ensures DistinctKeys(cs)
  {
    forall i, j | 0 <= i < j < |cs|
      ensures cs[i].key != cs[j].key
    {
      KeyLessOrder(cs[i].key, cs[j].key, cs[j].key);
    }
  }

  /** A chunk whose key is larger than every other key lands at the end. */
  lemma {:induction false} TextAppendGreater(cs: seq<Chunk>, c: Chunk)
    requires DistinctKeys(cs + [c])
    requires forall i :: 0 <= i < |cs| ==> KeyLess(cs[i].key, c.key)
    ensures DistinctKeys(cs)
    ensures TextOf(cs + [c]) == TextOf(cs) + c.text
    decreases |cs|
  {
    var all := cs + [c];
    assert forall i :: 0 <= i < |cs| ==> cs[i] == all[i];
    if cs == [] {
      assert all == [c];
    } else {
      var m := MinIndexAppendGreater(cs, c);
      WithoutDistinct(all, m);
      WithoutDistinct(cs, m);
      var rest := Without(cs, m);
      WithoutAppend(cs, c, m);
      TextAppendGreater(rest, c);
      assert TextOf(all) == cs[m].text + TextOf(rest + [c]);
      assert TextOf(cs) == cs[m].text + TextOf(rest);
    }
  }

  /** Helper: dropping an entry before an appended chunk commutes with the
      append, and keeps every remaining key below the appended one. */
  lemma {:induction false} WithoutAppend(cs: seq<Chunk>, c: Chunk, m: nat)
    requires m < |cs|
    requires forall i :: 0 <= i < |cs| ==> KeyLess(cs[i].key, c.key)
    ensures Without(cs + [c], m) == Without(cs, m) + [c]
    ensures forall i :: 0 <= i < |Without(cs, m)| ==> KeyLess(Without(cs, m)[i].key, c.key)
  {
    var rest := Without(cs, m);
    assert forall i :: 0 <= i < |rest| ==> rest[i] == cs[if i < m then i else i + 1];
  }

  /** Helper: appending a chunk with a greater key keeps the smallest key
      where it was. */
  lemma {:induction false} MinIndexAppendGreater(cs: seq<Chunk>, c: Chunk) returns (m: nat)
    requires cs != [] && DistinctKeys(cs + [c])
    requires forall i :: 0 <= i < |cs| ==> KeyLess(cs[i].key, c.key)
    ensures DistinctKeys(cs)
    ensures m < |cs| && m == MinIndex(cs) && m == MinIndex(cs + [c])
    ensures (cs + [c])[m] == cs[m]
  {
    var all := cs + [c];
    assert forall i :: 0 <= i < |cs| ==> cs[i] == all[i];
    var i := MinIndex(all);
    if i == |cs| {
      KeyLessOrder(all[0].key, c.key, all[0].key);
      assert false;
    }
    m := MinIndex(cs);
    if i != m {
      assert KeyLess(all[i].key, all[m].key);
      assert KeyLess(cs[m].key, cs[i].key);
      KeyLessOrder(cs[m].key, cs[i].key, cs[m].key);
    }
  }

  /** Chunks already in key order are concatenated in that order. */
  lemma {:induction false} TextAscending(cs: seq<Chunk>)
    requires Ascending(cs)
    ensures DistinctKeys(cs)
    ensures TextOf(cs) == Concat(cs)
    decreases |cs|
  {
    AscendingDistinct(cs);
    if cs != [] {
      var init := cs[..|cs| - 1];
      assert init + [cs[|cs| - 1]] == cs;
      TextAscending(init);
      TextAppendGreater(init, cs[|cs| - 1]);
    }
  }

  /** `text()` of a message. */
  function MesgText(m: Mesg): (r: string)
    requires Valid(m)
    ensures Ascending(m.chunks) ==> r == Concat(m.chunks)
  {
    assert Ascending(m.chunks) ==> TextOf(m.chunks) == Concat(m.chunks) by {
      if Ascending(m.chunks) {
        TextAscending(m.chunks);
      }
    }
    TextOf(m.chunks)
  }

  /** A three-fragment message whose ids ascend reads as its texts in order. */
  lemma {:induction false} ThreeFragments(a: Chunk, b: Chunk, c: Chunk)
    requires KeyLess(a.key, b.key) && KeyLess(b.key, c.key)
    ensures DistinctKeys([a, b, c])
    ensures TextOf([a, b, c]) == a.text + b.text + c.text
  {
    KeyLessOrder(a.key, b.key, c.key);
    assert Ascending([a, b, c]);
    TextAscending([a, b, c]);
    ConcatThree(a, b, c);
  }

  /** The texts of three chunks, in sequence order. */
  lemma {:induction false} ConcatThree(a: Chunk, b: Chunk, c: Chunk)
    ensures Concat([a, b, c]) == a.text + b.text + c.text
  {
    var cs := [a, b, c];
    assert cs[..2] == [a, b] && [a, b][..1] == [a] && [a][..0] == [];
    assert Concat(cs) == Concat([a, b]) + c.text;
    assert Concat([a, b]) == Concat([a]) + b.text;
    assert Concat([a]) == a.text;
  }

  /** Ids are compared as strings: the fragment with id `10` comes before the
      one with id `9`, although it was sent after it. */
  lemma {:induction false} LexicographicIds(first: string, second: string)
    ensures DistinctKeys([Chunk(Some("9"), None, first), Chunk(Some("10"), Some("9"), second)])
    ensures TextOf([Chunk(Some("9"), None, first), Chunk(Some("10"), Some("9"), second)])
      == second + first
  {
    var nine := Chunk(Some("9"), None, first);
    var ten := Chunk(Some("10"), Some("9"), second);
    assert StrLess("10", "9");
    var cs := [ten, nine];
    assert Ascending(cs);
    TextAscending(cs);
    assert cs[..1] == [ten] && [ten][..0] == [];
    assert Concat(cs) == Concat([ten]) + first;
    assert Concat([ten]) == second;
    TextPermutation2(nine, ten);
  }

  /** The text does not depend on the order the chunks are stored in: any
      two storage orders of the same chunks read the same. */
  lemma {:induction false} TextPermutation(xs: seq<Chunk>, ys: seq<Chunk>)
    requires DistinctKeys(xs) && DistinctKeys(ys)
    requires multiset(xs) == multiset(ys)
    ensures TextOf(xs) == TextOf(ys)
    decreases |xs|
  {
    assert |xs| == |multiset(xs)| == |multiset(ys)| == |ys|;
    if xs != [] {
      var i := MinIndex(xs);
      var j := MinIndex(ys);
      SameMin(xs, ys);
      WithoutMultiset(xs, i);
      WithoutMultiset(ys, j);
      WithoutDistinct(xs, i);
      WithoutDistinct(ys, j);
      TextPermutation(Without(xs, i), Without(ys, j));
    }
  }

  /** Helper: the same chunks have the same chunk with the smallest key. */
  lemma {:induction false} SameMin(xs: seq<Chunk>, ys: seq<Chunk>)
    requires xs != [] && ys != [] && DistinctKeys(xs) && DistinctKeys(ys)
    requires multiset(xs) == multiset(ys)
    ensures xs[MinIndex(xs)] == ys[MinIndex(ys)]
  {
    var i := MinIndex(xs);
    var j := MinIndex(ys);
    assert xs[i] in multiset(ys);
    var k :| 0 <= k < |ys| && ys[k] == xs[i];
    assert ys[j] in multiset(xs);
    var l :| 0 <= l < |xs| && xs[l] == ys[j];
    if k != j {
      if l != i {
        assert KeyLess(ys[j].key, ys[k].key) && KeyLess(xs[i].key, xs[l].key);
        KeyLessOrder(xs[i].key, xs[l].key, xs[i].key);
      }
      assert false;
    }
  }

  /** Helper: dropping an entry drops one copy of it. */
  lemma {:induction false} WithoutMultiset(cs: seq<Chunk>, i: nat)
    requires i < |cs|
    ensures multiset(Without(cs, i)) == multiset(cs) - multiset{cs[i]}
  {
    assert cs == cs[..i] + [cs[i]] + cs[i + 1..];
  }

  /** The text of two chunks does not depend on their order in the dict. */
  lemma {:induction false} TextPermutation2(a: Chunk, b: Chunk)
    requires a.key != b.key
    ensures DistinctKeys([a, b]) && DistinctKeys([b, a])
    ensures TextOf([a, b]) == TextOf([b, a])
  {
    KeyLessOrder(a.key, b.key, a.key);
    var ab := [a, b];
    var ba := [b, a];
    assert Without(ab, 0) == [b] && Without(ab, 1) == [a];
    assert Without(ba, 0) == [a] && Without(ba, 1) == [b];
  }
}
