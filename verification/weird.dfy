/** `parseWeirdData`: the decoder for the nested key/value payload of a
    SUB PROFILE packet.

    An entry is a key terminated by a NUL byte, a two-byte big-endian length
    `n`, and `n` bytes holding the value. A value is decoded by the same
    routine with a byte budget of `n`: it is text when its first `n` bytes
    contain no NUL (the key being read reaches the budget), otherwise a
    dict of further entries. A key seen twice has its values merged with
    `recursiveUpdate`. The top-level call has no budget and reads to the end.

    The decoder is modelled as two mutually recursive functions that follow
    the source's two loops: `Entries` is the outer loop (one entry per turn
    while the budget lasts) and `KeyBytes` the inner one (one key byte per
    turn). Python 2 byte strings are Dafny strings whose characters stand for
    bytes.
 */
module WeirdData {
  import opened Common
  import opened Text
  import opened Profile

  const NUL: char := 0 as char

  /** `unpack('!H', hi + lo)` */
  function U16(hi: char, lo: char): nat {
    (hi as int) * 256 + lo as int
  }

  /** Bytes left from `pos` to the end of the data. */
  function Gap(data: string, pos: nat): nat {
    if pos < |data| then |data| - pos else 0
  }

  /** The outer loop of `parseWeirdData(data, ofs, budget)` after `parsed`
      bytes, with the entries `kv` read so far. A negative budget is the
      top-level call's `-1`. */
  function Entries(data: string, ofs: nat, budget: int, parsed: nat, kv: map<string, Tree>): (r: Result<Tree>)
    ensures budget < 0 && r.Ok? ==> r.value.Node?
    ensures r.Ok? && r.value.Leaf? ==> |r.value.text| == budget && NoNul(r.value.text)
    ensures r.Ok? && r.value.Node? ==> kv.Keys <= r.value.children.Keys
    ensures r.Err? ==> Decoding(r.fault)
    decreases Gap(data, ofs + parsed), 1
  {
    if !(budget < 0 || budget > parsed) then Ok(Node(kv))
    else KeyBytes(data, ofs, budget, parsed, kv, "")
  }

  /** The inner loop: read the key `temp` one byte at a time. The end of the
      data ends the whole call with the entries read so far; a NUL ends the
      key and starts its value; a key that reaches the budget is the value
      itself. */
  function KeyBytes(data: string, ofs: nat, budget: int, parsed: nat, kv: map<string, Tree>,
                    temp: string): (r: Result<Tree>)
    ensures budget < 0 && r.Ok? ==> r.value.Node?
    ensures r.Ok? && r.value.Leaf? ==> |r.value.text| == budget
    ensures r.Ok? && r.value.Leaf? && NoNul(temp) ==> NoNul(r.value.text)
    ensures r.Ok? && r.value.Node? ==> kv.Keys <= r.value.children.Keys
    ensures r.Err? ==> Decoding(r.fault)
    decreases Gap(data, ofs + parsed), 0
  {
    var pos := ofs + parsed;
    if pos >= |data| then Ok(Node(kv))
    else if data[pos] == NUL then
      if pos + 3 > |data| then Err(StructError)
      else
        var btp := U16(data[pos + 1], data[pos + 2]);
        var res :- Entries(data, pos + 3, btp, 0, map[]);
        var kv' :- Insert(kv, temp, res);
        Entries(data, ofs, budget, parsed + 3 + btp, kv')
    else
      var temp' := temp + [data[pos]];
      if |temp'| == budget then Ok(Leaf(temp'))
      else KeyBytes(data, ofs, budget, parsed + 1, kv, temp')
  }

  /** The errors the decoder can raise: `struct.error` from a cut-off
      length field, and the two errors of merging a repeated key. */
  predicate Decoding(f: Fault) {
    f == StructError || f == AttributeError || f == TypeError
  }

  /** `parseWeirdData(data)`: data without any NUL holds no complete entry,
      so the trailing key is dropped and the result is an empty dict. */
  function ParseWeirdData(data: string): (r: Result<Tree>)
    ensures r.Ok? ==> r.value.Node?
    ensures r.Err? ==> Decoding(r.fault)
    ensures NoNul(data) ==> r == Ok(Node(map[]))
  {
    NulFreeTail(data, 0, 0, map[], "");
    Entries(data, 0, -1, 0, map[])
  }

  /** Helper: without a budget, NUL-free bytes up to the end of the data are
      read into the key and then dropped with it. */
  lemma {:induction false} NulFreeTail(data: string, ofs: nat, parsed: nat, kv: map<string, Tree>, temp: string)
    ensures ofs + parsed <= |data| && NoNul(data[ofs + parsed..]) ==>
      KeyBytes(data, ofs, -1, parsed, kv, temp) == Ok(Node(kv))
    decreases Gap(data, ofs + parsed)
  {
    if ofs + parsed < |data| && NoNul(data[ofs + parsed..]) {
      assert data[ofs + parsed] == data[ofs + parsed..][0];
      assert data[ofs + parsed + 1..] == data[ofs + parsed..][1..];
      NulFreeTail(data, ofs, parsed + 1, kv, temp + [data[ofs + parsed]]);
    }
  }

  // ---------------------------------------------------------------------------
  // Direct consequences
  // ---------------------------------------------------------------------------

  /** Empty input decodes to an empty dict. */
  lemma {:induction false} EmptyInput()
    ensures ParseWeirdData("") == Ok(Node(map[]))
  {
  }

  /** A zero-length value is an empty dict, never empty text. */
  lemma {:induction false} ZeroBudget(data: string, ofs: nat)
    ensures Entries(data, ofs, 0, 0, map[]) == Ok(Node(map[]))
  {
  }

  predicate NoNul(s: string) {
    forall i :: 0 <= i < |s| ==> s[i] != NUL
  }

  /** Bytes without a NUL that fill the budget are read back as text. */
  lemma {:induction false} ReadText(data: string, ofs: nat, n: nat, p: nat, kv: map<string, Tree>, temp: string)
    requires |temp| == p && p < n && ofs + n <= |data|
    requires NoNul(data[ofs + p..ofs + n])
    ensures KeyBytes(data, ofs, n, p, kv, temp) == Ok(Leaf(temp + data[ofs + p..ofs + n]))
    decreases n - p
  {
    var pos := ofs + p;
    assert data[pos] == data[ofs + p..ofs + n][0];
    var temp' := temp + [data[pos]];
    if p + 1 < n {
      assert data[ofs + p + 1..ofs + n] == data[ofs + p..ofs + n][1..];
      ReadText(data, ofs, n, p + 1, kv, temp');
      assert temp' + data[ofs + p + 1..ofs + n] == temp + data[ofs + p..ofs + n];
    } else {
      assert data[ofs + p..ofs + n] == [data[pos]];
    }
  }

  /** Reading the bytes of a NUL-free key appends them to `temp`, as long as
      the key stays shorter than the budget. */
  lemma {:induction false} ReadKey(data: string, ofs: nat, budget: int, p: nat, kv: map<string, Tree>,
                                   temp: string, key: string)
    requires ofs + p + |key| < |data| && data[ofs + p..ofs + p + |key|] == key && NoNul(key)
    requires budget < 0 || |temp| + |key| < budget
    ensures KeyBytes(data, ofs, budget, p, kv, temp) == KeyBytes(data, ofs, budget, p + |key|, kv, temp + key)
    decreases |key|
  {
    if key != [] {
      var pos := ofs + p;
      assert data[pos] == key[0];
      assert data[ofs + p + 1..ofs + p + 1 + |key[1..]|] == key[1..];
      ReadKey(data, ofs, budget, p + 1, kv, temp + [key[0]], key[1..]);
      assert temp + [key[0]] + key[1..] == temp + key;
    } else {
      assert temp + key == temp;
    }
  }

  /** A key cut off after its NUL, without the two length bytes, fails the
      length `unpack`. */
  lemma {:induction false} TruncatedLength(key: string)
    requires NoNul(key)
    ensures ParseWeirdData(key + [NUL]) == Err(StructError)
  {
    var data := key + [NUL];
    assert data[..|key|] == key;
    ReadKey(data, 0, -1, 0, map[], "", key);
    assert "" + key == key;
  }

  // ---------------------------------------------------------------------------
  // Encoding and round trip
  // ---------------------------------------------------------------------------

  /** A document to encode: text, or a group of keyed entries. */
  datatype Doc = Plain(s: string) | Group(entries: EntryList)
  datatype EntryList = Nil | Cons(key: string, value: Doc, rest: EntryList)

  function Hi(n: nat): char
    requires n < 0x1_0000
  {
    (n / 256) as char
  }

  function Lo(n: nat): char {
    (n % 256) as char
  }

  function Enc(d: Doc): string
    decreases d
  {
    match d
    case Plain(s) => s
    case Group(es) => EncEntries(es)
  }

  /** One entry: the key, a NUL, the value's length in two bytes, the value. */
  function EncEntry(key: string, value: Doc): string
    requires |Enc(value)| < 0x1_0000
  {
    var n := |Enc(value)|;
    key + [NUL, Hi(n), Lo(n)] + Enc(value)
  }

  function EncEntries(es: EntryList): string
    decreases es
  {
    match es
    case Nil => ""
    case Cons(k, v, rest) =>
      var n := |Enc(v)|;
      // A value too long for its length field has no encoding; `WellFormed`
      // excludes it.
      if n < 0x1_0000 then k + [NUL, Hi(n), Lo(n)] + Enc(v) + EncEntries(rest) else ""
  }

  function Keys(es: EntryList): set<string>
    decreases es
  {
    match es
    case Nil => {}
    case Cons(k, _, rest) => {k} + Keys(rest)
  }

  /** Documents the decoder reads back: text is non-empty, NUL-free and
      fits the two-byte length; keys are NUL-free and distinct. */
  predicate WellFormed(d: Doc)
    decreases d
  {
    match d
    case Plain(s) => s != [] && NoNul(s) && |s| < 0x1_0000
    case Group(es) => WellFormedEntries(es) && |EncEntries(es)| < 0x1_0000
  }

  predicate WellFormedEntries(es: EntryList)
    decreases es
  {
    match es
    case Nil => true
    case Cons(k, v, rest) =>
      NoNul(k) && WellFormed(v) && k !in Keys(rest) && WellFormedEntries(rest)
  }

  /** The dict a document stands for. */
  function ToTree(d: Doc): Tree
    decreases d
  {
    match d
    case Plain(s) => Leaf(s)
    case Group(es) => Node(ToMap(es))
  }

  function ToMap(es: EntryList): (r: map<string, Tree>)
    ensures r.Keys == Keys(es)
    decreases es
  {
    match es
    case Nil => map[]
    case Cons(k, v, rest) => ToMap(rest)[k := ToTree(v)]
  }

  lemma {:induction false} U16Bytes(n: nat)
    requires n < 0x1_0000
    ensures U16(Hi(n), Lo(n)) == n
  {
  }

  /** The bytes of one encoded entry found at `pos`. */
  lemma {:induction false} EntryBytes(data: string, pos: nat, k: string, v: Doc)
    requires |Enc(v)| < 0x1_0000
    requires pos + |EncEntry(k, v)| <= |data|
    requires data[pos..pos + |EncEntry(k, v)|] == EncEntry(k, v)
    ensures pos + |k| + 3 + |Enc(v)| <= |data|
    ensures data[pos..pos + |k|] == k
    ensures data[pos + |k|] == NUL
    ensures U16(data[pos + |k| + 1], data[pos + |k| + 2]) == |Enc(v)|
    ensures data[pos + |k| + 3..pos + |k| + 3 + |Enc(v)|] == Enc(v)
  {
    var n := |Enc(v)|;
    var e := EncEntry(k, v);
    assert e[..|k|] == k;
    assert data[pos..pos + |k|] == data[pos..pos + |e|][..|k|];
    assert data[pos + |k|] == e[|k|];
    assert data[pos + |k| + 1] == e[|k| + 1];
    assert data[pos + |k| + 2] == e[|k| + 2];
    U16Bytes(n);
    assert data[pos + |k| + 3..pos + |k| + 3 + n] == data[pos..pos + |e|][|k| + 3..];
    assert e[|k| + 3..] == Enc(v);
  }

  /** The inner loop at a NUL: decode the value, insert it, carry on. */
  lemma {:induction false} AtNul(data: string, ofs: nat, budget: int, parsed: nat, kv: map<string, Tree>, temp: string)
    requires ofs + parsed + 3 <= |data| && data[ofs + parsed] == NUL
    ensures var pos := ofs + parsed;
      var btp := U16(data[pos + 1], data[pos + 2]);
      KeyBytes(data, ofs, budget, parsed, kv, temp) ==
        match Entries(data, pos + 3, btp, 0, map[])
        case Err(f) => Err(f)
        case Ok(res) =>
          match Insert(kv, temp, res)
          case Err(f) => Err(f)
          case Ok(kv') => Entries(data, ofs, budget, parsed + 3 + btp, kv')
  {
  }

  /** One encoded entry at `parsed`: the loop reads its key, decodes its
      value with the value's length as budget, inserts the result, and
      carries on after it. */
  lemma {:induction false} EntryStep(data: string, ofs: nat, budget: int, parsed: nat, kv: map<string, Tree>,
                  k: string, v: Doc)
    requires NoNul(k) && WellFormed(v) && |Enc(v)| < 0x1_0000
    requires ofs + parsed + |EncEntry(k, v)| <= |data|
    requires data[ofs + parsed..ofs + parsed + |EncEntry(k, v)|] == EncEntry(k, v)
    requires budget < 0 || parsed + |EncEntry(k, v)| <= budget
    ensures Entries(data, ofs, budget, parsed, kv) ==
      match Insert(kv, k, ToTree(v))
      case Ok(kv') => Entries(data, ofs, budget, parsed + |EncEntry(k, v)|, kv')
      case Err(f) => Err(f)
    decreases v, 2
  {
    var q := parsed + |k|;
    var n := |Enc(v)|;
    EntryHead(data, ofs, budget, parsed, kv, k, v, q);
    DecodeValue(data, ofs + q + 3, v);
    AtNulDecoded(data, ofs, budget, q, kv, k, ToTree(v), n, parsed + |EncEntry(k, v)|);
  }

  /** Helper: an entry with a new key is added as it is. */
  lemma {:induction false} EntryStepFresh(data: string, ofs: nat, budget: int, parsed: nat, kv: map<string, Tree>,
                                          k: string, v: Doc)
    requires NoNul(k) && WellFormed(v) && |Enc(v)| < 0x1_0000 && k !in kv
    requires ofs + parsed + |EncEntry(k, v)| <= |data|
    requires data[ofs + parsed..ofs + parsed + |EncEntry(k, v)|] == EncEntry(k, v)
    requires budget < 0 || parsed + |EncEntry(k, v)| <= budget
    ensures Entries(data, ofs, budget, parsed, kv)
      == Entries(data, ofs, budget, parsed + |EncEntry(k, v)|, kv[k := ToTree(v)])
    decreases v, 3
  {
    EntryStep(data, ofs, budget, parsed, kv, k, v);
  }

  /** Helper: the loop reads the key of an encoded entry and stops at the
      NUL after it, where the length bytes and the value follow. */
  lemma {:induction false} EntryHead(data: string, ofs: nat, budget: int, parsed: nat, kv: map<string, Tree>,
                                     k: string, v: Doc, q: nat)
    requires NoNul(k) && |Enc(v)| < 0x1_0000 && q == parsed + |k|
    requires ofs + parsed + |EncEntry(k, v)| <= |data|
    requires data[ofs + parsed..ofs + parsed + |EncEntry(k, v)|] == EncEntry(k, v)
    requires budget < 0 || parsed + |EncEntry(k, v)| <= budget
    ensures ofs + q + 3 + |Enc(v)| <= |data| && data[ofs + q] == NUL
    ensures U16(data[ofs + q + 1], data[ofs + q + 2]) == |Enc(v)|
    ensures data[ofs + q + 3..ofs + q + 3 + |Enc(v)|] == Enc(v)
    ensures parsed + |EncEntry(k, v)| == q + 3 + |Enc(v)|
    ensures Entries(data, ofs, budget, parsed, kv) == KeyBytes(data, ofs, budget, q, kv, k)
  {
    var pos := ofs + parsed;
    EntryBytes(data, pos, k, v);
    assert Entries(data, ofs, budget, parsed, kv) == KeyBytes(data, ofs, budget, parsed, kv, "");
    ReadKey(data, ofs, budget, parsed, kv, "", k);
    assert "" + k == k;
  }

  /** Helper: at a NUL whose length bytes give `n` and whose value decodes,
      the value is inserted and the loop goes on after it. */
  lemma {:induction false} AtNulDecoded(data: string, ofs: nat, budget: int, q: nat, kv: map<string, Tree>,
                                        k: string, t: Tree, n: nat, next: nat)
    requires ofs + q + 3 <= |data| && data[ofs + q] == NUL
    requires U16(data[ofs + q + 1], data[ofs + q + 2]) == n
    requires Entries(data, ofs + q + 3, n, 0, map[]) == Ok(t)
    requires next == q + 3 + n
    ensures KeyBytes(data, ofs, budget, q, kv, k) ==
      match Insert(kv, k, t)
      case Ok(kv') => Entries(data, ofs, budget, next, kv')
      case Err(f) => Err(f)
  {
    AtNul(data, ofs, budget, q, kv, k);
  }

  /** An encoded value decodes to the tree it stands for. */
  lemma {:induction false} DecodeValue(data: string, pos: nat, d: Doc)
    requires WellFormed(d)
    requires pos + |Enc(d)| <= |data| && data[pos..pos + |Enc(d)|] == Enc(d)
    ensures Entries(data, pos, |Enc(d)|, 0, map[]) == Ok(ToTree(d))
    decreases d, 1
  {
    match d
    case Plain(s) =>
      ReadText(data, pos, |s|, 0, map[], "");
      assert "" + data[pos..pos + |s|] == s;
    case Group(es) =>
      DecodeEntries(data, pos, |Enc(d)|, 0, map[], es);
      assert map[] + ToMap(es) == ToMap(es);
  }

  /** Encoded entries decode to their dict, added to the entries before
      them, when the budget ends with them (or, at top level, the data
      does). */
  lemma {:induction false} DecodeEntries(data: string, ofs: nat, budget: int, parsed: nat,
                                         kv: map<string, Tree>, es: EntryList)
    requires WellFormedEntries(es)
    requires ofs + parsed + |EncEntries(es)| <= |data|
    requires data[ofs + parsed..ofs + parsed + |EncEntries(es)|] == EncEntries(es)
    requires (budget < 0 && ofs + parsed + |EncEntries(es)| == |data|)
          || budget == parsed + |EncEntries(es)|
    requires forall k :: k in Keys(es) ==> k !in kv
    ensures Entries(data, ofs, budget, parsed, kv) == Ok(Node(kv + ToMap(es)))
    decreases es, 1
  {
    match es
    case Nil =>
      assert kv + ToMap(es) == kv;
      EntriesAtEnd(data, ofs, budget, parsed, kv);
    case Cons(k, v, rest) =>
      WellFormedSize(v);
      EncCons(k, v, rest);
      SliceSplit(data, ofs + parsed, EncEntry(k, v), EncEntries(rest));
      DecodeCons(data, ofs, budget, parsed, kv, k, v, rest);
      UnionShift(kv, k, ToTree(v), ToMap(rest));
  }

  /** Helper: `DecodeEntries` for a first entry `k: v` followed by `rest`. */
  lemma {:induction false} DecodeCons(data: string, ofs: nat, budget: int, parsed: nat,
                                      kv: map<string, Tree>, k: string, v: Doc, rest: EntryList)
    requires NoNul(k) && WellFormed(v) && WellFormedEntries(rest)
    requires |Enc(v)| < 0x1_0000
    requires ofs + parsed + |EncEntry(k, v)| + |EncEntries(rest)| <= |data|
    requires data[ofs + parsed..ofs + parsed + |EncEntry(k, v)|] == EncEntry(k, v)
    requires data[ofs + parsed + |EncEntry(k, v)|..ofs + parsed + |EncEntry(k, v)| + |EncEntries(rest)|]
      == EncEntries(rest)
    requires (budget < 0 && ofs + parsed + |EncEntry(k, v)| + |EncEntries(rest)| == |data|)
          || budget == parsed + |EncEntry(k, v)| + |EncEntries(rest)|
    requires k !in kv && forall key :: key in Keys(rest) ==> key !in kv[k := ToTree(v)]
    ensures Entries(data, ofs, budget, parsed, kv) == Ok(Node(kv[k := ToTree(v)] + ToMap(rest)))
    decreases Cons(k, v, rest), 0
  {
    EntryStepFresh(data, ofs, budget, parsed, kv, k, v);
    DecodeEntries(data, ofs, budget, parsed + |EncEntry(k, v)|, kv[k := ToTree(v)], rest);
  }

  /** Helper: the loop stops with the entries read so far when the budget
      is spent or, at top level, the data is. */
  lemma {:induction false} EntriesAtEnd(data: string, ofs: nat, budget: int, parsed: nat, kv: map<string, Tree>)
    requires (budget < 0 && ofs + parsed == |data|) || budget == parsed
    ensures Entries(data, ofs, budget, parsed, kv) == Ok(Node(kv))
  {
  }

  /** Adding a key before or after the union is the same when the right
      map lacks it. */
  lemma {:induction false} UnionShift(kv: map<string, Tree>, k: string, t: Tree, m: map<string, Tree>)
    requires k !in m
    ensures kv[k := t] + m == kv + m[k := t]
  {
  }

  lemma {:induction false} EncCons(k: string, v: Doc, rest: EntryList)
    requires |Enc(v)| < 0x1_0000
    ensures EncEntries(Cons(k, v, rest)) == EncEntry(k, v) + EncEntries(rest)
  {
  }

  /** A slice holding `a + b` holds `a` and then `b`. */
  lemma {:induction false} SliceSplit(data: string, start: nat, a: string, b: string)
    requires start + |a + b| <= |data| && data[start..start + |a + b|] == a + b
    ensures data[start..start + |a|] == a
    ensures data[start + |a|..start + |a| + |b|] == b
  {
    assert data[start..start + |a|] == data[start..start + |a + b|][..|a|];
    assert data[start + |a|..start + |a| + |b|] == data[start..start + |a + b|][|a|..];
  }

  /** Every value of a well-formed group fits its two-byte length. */
  lemma {:induction false} WellFormedSize(d: Doc)
    requires WellFormed(d)
    ensures |Enc(d)| < 0x1_0000
  {
  }

  /** `parseWeirdData` reads back what the encoder wrote. */
  lemma {:induction false} ParseEncoded(es: EntryList)
    requires WellFormedEntries(es)
    ensures ParseWeirdData(EncEntries(es)) == Ok(Node(ToMap(es)))
  {
    var data := EncEntries(es);
    assert data[0..|data|] == data;
    DecodeEntries(data, 0, -1, 0, map[], es);
    assert map[] + ToMap(es) == ToMap(es);
  }

  /** A key sent twice with dict values gets the two dicts deep-merged. */
  lemma {:induction false} RepeatedKeyMerges(k: string, a: EntryList, b: EntryList)
    requires NoNul(k) && WellFormed(Group(a)) && WellFormed(Group(b))
    ensures ParseWeirdData(EncEntry(k, Group(a)) + EncEntry(k, Group(b)))
      == Ok(Node(map[k := Node(RecursiveUpdate(ToMap(a), ToMap(b)))]))
  {
    var e1 := EncEntry(k, Group(a));
    var e2 := EncEntry(k, Group(b));
    var data := e1 + e2;
    assert data[0..|e1 + e2|] == e1 + e2;
    SliceSplit(data, 0, e1, e2);
    WellFormedSize(Group(a));
    FirstOfTwo(data, k, Group(a), e2);
    SecondOfTwo(data, k, a, b);
  }

  lemma {:induction false} FirstOfTwo(data: string, k: string, v: Doc, rest: string)
    requires NoNul(k) && WellFormed(v)
    requires |Enc(v)| < 0x1_0000 && data == EncEntry(k, v) + rest
    ensures Entries(data, 0, -1, 0, map[]) == Entries(data, 0, -1, |EncEntry(k, v)|, map[k := ToTree(v)])
  {
    var e1 := EncEntry(k, v);
    assert data[0..|e1|] == e1;
    EntryStep(data, 0, -1, 0, map[], k, v);
    assert Insert(map[], k, ToTree(v)) == Ok(map[k := ToTree(v)]);
  }

  lemma {:induction false} SecondOfTwo(data: string, k: string, a: EntryList, b: EntryList)
    requires NoNul(k) && WellFormed(Group(a)) && WellFormed(Group(b))
    requires data == EncEntry(k, Group(a)) + EncEntry(k, Group(b))
    ensures Entries(data, 0, -1, |EncEntry(k, Group(a))|, map[k := ToTree(Group(a))])
      == Ok(Node(map[k := Node(RecursiveUpdate(ToMap(a), ToMap(b)))]))
  {
    var e1 := EncEntry(k, Group(a));
    var e2 := EncEntry(k, Group(b));
    assert data[|e1|..|e1| + |e2|] == e2;
    var kv := map[k := ToTree(Group(a))];
    EntryStep(data, 0, -1, |e1|, kv, k, Group(b));
    assert ToTree(Group(a)) == Node(ToMap(a));
    assert ToTree(Group(b)) == Node(ToMap(b));
    InsertTwice(k, ToMap(a), ToMap(b));
    var merged := map[k := Node(RecursiveUpdate(ToMap(a), ToMap(b)))];
    AtEnd(data, 0, -1, |e1| + |e2|, merged);
  }

  /** The top-level loop stops at the end of the data. */
  lemma {:induction false} AtEnd(data: string, ofs: nat, budget: int, parsed: nat, kv: map<string, Tree>)
    requires budget < 0 && ofs + parsed >= |data|
    ensures Entries(data, ofs, budget, parsed, kv) == Ok(Node(kv))
  {
  }

  lemma {:induction false} InsertTwice(k: string, a: map<string, Tree>, b: map<string, Tree>)
    ensures Insert(map[k := Node(a)], k, Node(b)) == Ok(map[k := Node(RecursiveUpdate(a, b))])
  {
    var merged := Node(RecursiveUpdate(a, b));
    assert MergeValue(Node(a), Node(b)) == Ok(merged);
    assert map[k := Node(a)][k := merged] == map[k := merged];
  }

  /** A key sent twice with text values fails: text has no `iteritems`. */
  lemma {:induction false} RepeatedTextFails(k: string, s: string, t: string)
    requires NoNul(k) && WellFormed(Plain(s)) && WellFormed(Plain(t))
    ensures ParseWeirdData(EncEntry(k, Plain(s)) + EncEntry(k, Plain(t))) == Err(AttributeError)
  {
    var e1 := EncEntry(k, Plain(s));
    var e2 := EncEntry(k, Plain(t));
    var data := e1 + e2;
    assert data[0..|e1 + e2|] == e1 + e2;
    SliceSplit(data, 0, e1, e2);
    EntryStep(data, 0, -1, 0, map[], k, Plain(s));
    var kv := map[k := Leaf(s)];
    assert Insert(map[], k, ToTree(Plain(s))) == Ok(kv);
    EntryStep(data, 0, -1, |e1|, kv, k, Plain(t));
  }
}
