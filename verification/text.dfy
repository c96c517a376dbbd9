/** Python 2 byte-string primitives the engine is built from: ASCII case
    folding, `str.index`, `str.split`, `str.join`, `str.strip`, `int()` and
    `'%d' %`, and slicing with possibly negative bounds.

    A Python 2 `str` is a byte string; it is modelled as a Dafny `string`
    whose characters stand for bytes.
 */
module Text {
  import opened Common

  // ---------------------------------------------------------------------------
  // Case folding (`str.lower` on a byte string folds A-Z only)
  // ---------------------------------------------------------------------------

  function Lower(c: char): char {
    if 'A' <= c <= 'Z' then (c as int + 32) as char else c
  }

  function LowerStr(s: string): (r: string)
    ensures |r| == |s|
    ensures forall i :: 0 <= i < |s| ==> r[i] == Lower(s[i])
  {
    seq(|s|, i requires 0 <= i < |s| => Lower(s[i]))
  }

  /** `a.lower() == b.lower()` */
  predicate EqualI(a: string, b: string) {
    |a| == |b| && forall i :: 0 <= i < |a| ==> Lower(a[i]) == Lower(b[i])
  }

  lemma {:induction false} EqualILower(a: string, b: string)
    ensures EqualI(a, b) <==> LowerStr(a) == LowerStr(b)
  {
    if |a| == |b| && LowerStr(a) == LowerStr(b) {
      assert forall i :: 0 <= i < |a| ==> LowerStr(a)[i] == LowerStr(b)[i];
    }
  }

  // ---------------------------------------------------------------------------
  // Substring search (`str.index`, `in`)
  // ---------------------------------------------------------------------------

  predicate OccursAt(s: string, p: string, i: int) {
    0 <= i && i + |p| <= |s| && s[i..i + |p|] == p
  }

  predicate Contains(s: string, p: string) {
    exists i | 0 <= i <= |s| :: OccursAt(s, p, i)
  }

  /** The first occurrence of `p` in `s` at or after `from`. */
  function IndexFrom(s: string, p: string, from: nat): (r: Option<nat>)
    ensures r.Some? ==> from <= r.value && OccursAt(s, p, r.value)
    ensures r.Some? ==> forall j :: from <= j < r.value ==> !OccursAt(s, p, j)
    ensures r.None? ==> forall j :: from <= j ==> !OccursAt(s, p, j)
    decreases |s| - from
  {
    if from + |p| > |s| then None
    else if s[from..from + |p|] == p then Some(from)
    else IndexFrom(s, p, from + 1)
  }

  /** `s.index(p)`, with `None` for the ValueError of a missing substring. */
  function IndexOf(s: string, p: string): (r: Option<nat>)
    ensures r.Some? <==> Contains(s, p)
    ensures r.Some? ==> OccursAt(s, p, r.value)
    ensures r.Some? ==> forall j :: 0 <= j < r.value ==> !OccursAt(s, p, j)
  {
    IndexFrom(s, p, 0)
  }

  /** An occurrence with none before it is the one `IndexOf` finds. */
  lemma {:induction false} IndexOfFirst(s: string, p: string, i: nat)
    requires OccursAt(s, p, i)
    requires forall j :: 0 <= j < i ==> !OccursAt(s, p, j)
    ensures IndexOf(s, p) == Some(i)
  {
  }

  /** A string without a given character has no occurrence of any pattern
      containing that character. */
  lemma {:induction false} NoCharNoOccurrence(s: string, p: string, k: nat)
    requires k < |p|
    requires forall i :: 0 <= i < |s| ==> s[i] != p[k]
    ensures IndexOf(s, p) == None
  {
    if IndexOf(s, p).Some? {
      assert false;
    }
  }

  // ---------------------------------------------------------------------------
  // Split and join
  // ---------------------------------------------------------------------------

  /** `s.split(sep)`: cut at every non-overlapping occurrence, left to right. */
  function Split(s: string, sep: string): (r: seq<string>)
    requires |sep| > 0
    ensures |r| > 0
    ensures Join(r, sep) == s
    ensures forall k :: 0 <= k < |r| ==> !Contains(r[k], sep)
    decreases |s|
  {
    match IndexOf(s, sep)
    case None => [s]
    case Some(i) =>
      var rest := Split(s[i + |sep|..], sep);
      SplitStep(s, sep, i, rest);
      [s[..i]] + rest
  }

  /** Helper: the part before the first separator holds no separator, and
      the separator joins it to the rest. */
  lemma {:induction false} SplitStep(s: string, sep: string, i: nat, rest: seq<string>)
    requires |sep| > 0 && |rest| > 0
    requires IndexOf(s, sep) == Some(i)
    requires Join(rest, sep) == s[i + |sep|..]
    ensures Join([s[..i]] + rest, sep) == s
    ensures !Contains(s[..i], sep)
  {
    var parts := [s[..i]] + rest;
    assert parts[0] == s[..i] && parts[1..] == rest;
    assert s[i..i + |sep|] == sep;
    assert s == s[..i] + sep + s[i + |sep|..];
    if Contains(s[..i], sep) {
      var j :| 0 <= j <= i && OccursAt(s[..i], sep, j);
      assert s[j..j + |sep|] == s[..i][j..j + |sep|];
      assert OccursAt(s, sep, j);
      assert false;
    }
  }

  /** `sep.join(xs)` */
  function Join(xs: seq<string>, sep: string): string {
    if xs == [] then ""
    else if |xs| == 1 then xs[0]
    else xs[0] + sep + Join(xs[1..], sep)
  }

  /** Joining one more part appends the separator and the part. */
  lemma {:induction false} JoinSnoc(xs: seq<string>, y: string, sep: string)
    requires |xs| > 0
    ensures Join(xs + [y], sep) == Join(xs, sep) + sep + y
    decreases |xs|
  {
    if |xs| > 1 {
      assert (xs + [y])[1..] == xs[1..] + [y];
      JoinSnoc(xs[1..], y, sep);
    } else {
      assert (xs + [y])[1..] == [y];
    }
  }

  /** Splitting on a character undoes joining on it, when no part holds it. */
  lemma {:induction false} SplitJoin(xs: seq<string>, c: char)
    requires |xs| > 0
    requires forall i, j :: 0 <= i < |xs| && 0 <= j < |xs[i]| ==> xs[i][j] != c
    ensures Split(Join(xs, [c]), [c]) == xs
    decreases |xs|
  {
    if |xs| == 1 {
      NoCharNoOccurrence(xs[0], [c], 0);
    } else {
      var s := Join(xs, [c]);
      var x := xs[0];
      var rest := Join(xs[1..], [c]);
      assert s == x + [c] + rest;
      assert OccursAt(s, [c], |x|) by {
        assert s[|x|..|x| + 1] == [c];
      }
      forall j | 0 <= j < |x|
        ensures !OccursAt(s, [c], j)
      {
        assert s[j] == x[j];
      }
      IndexOfFirst(s, [c], |x|);
      assert s[..|x|] == x;
      assert s[|x| + 1..] == rest;
      SplitJoin(xs[1..], c);
    }
  }

  /** Splitting `k + ": " + v` on `": "` gives back `[k, v]`. */
  lemma {:induction false} SplitPair(k: string, v: string)
    requires !Contains(k, ": ") && !Contains(v, ": ")
    ensures Split(k + ": " + v, ": ") == [k, v]
  {
    var s := k + ": " + v;
    assert OccursAt(s, ": ", |k|) by {
      assert s[|k|..|k| + 2] == ": ";
    }
    forall j | 0 <= j < |k|
      ensures !OccursAt(s, ": ", j)
    {
      if j + 2 <= |k| {
        if OccursAt(s, ": ", j) {
          assert k[j..j + 2] == s[j..j + 2];
          assert OccursAt(k, ": ", j);
        }
      } else {
        assert s[j + 1] == ':';
      }
    }
    IndexOfFirst(s, ": ", |k|);
    assert s[..|k|] == k;
    assert s[|k| + 2..] == v;
    assert IndexOf(v, ": ") == None;
  }

  // ---------------------------------------------------------------------------
  // Whitespace, `strip` and `int()`
  // ---------------------------------------------------------------------------

  /** The bytes Python 2 counts as whitespace (`\s`, `str.strip`). */
  predicate IsSpace(c: char) {
    c == ' ' || '\t' <= c <= '\r'  // tab, LF, VT, FF, CR are 9 to 13
  }

  /** Every byte of `s` from `a` up to `b` is whitespace. */
  predicate SpaceIn(s: string, a: nat, b: nat) {
    forall p :: a <= p < b && p < |s| ==> IsSpace(s[p])
  }

  function StripLeft(s: string): (r: string)
    ensures |r| <= |s| && r == s[|s| - |r|..]
    ensures r != [] ==> !IsSpace(r[0])
    ensures SpaceIn(s, 0, |s| - |r|)
  {
    if s != [] && IsSpace(s[0]) then
      var r := StripLeft(s[1..]);
      assert forall p :: 1 <= p < |s| ==> s[p] == s[1..][p - 1];
      r
    else s
  }

  function StripRight(s: string): (r: string)
    ensures |r| <= |s| && r == s[..|r|]
    ensures r != [] ==> !IsSpace(r[|r| - 1])
    ensures SpaceIn(s, |r|, |s|)
  {
    if s != [] && IsSpace(s[|s| - 1]) then
      var r := StripRight(s[..|s| - 1]);
      assert forall p :: 0 <= p < |s| - 1 ==> s[p] == s[..|s| - 1][p];
      r
    else s
  }

  /** `s.strip()` */
  function Strip(s: string): string {
    StripRight(StripLeft(s))
  }

  predicate IsDigit(c: char) {
    '0' <= c <= '9'
  }

  predicate AllDigits(s: string) {
    forall i :: 0 <= i < |s| ==> IsDigit(s[i])
  }

  function DigitsValue(s: string): nat
    requires AllDigits(s)
  {
    if s == [] then 0 else DigitsValue(s[..|s| - 1]) * 10 + (s[|s| - 1] as int - '0' as int)
  }

  predicate IsSign(c: char) {
    c == '-' || c == '+'
  }

  /** Python 2 `int(s)`: strip the text, take an optional sign, strip again
      (`PyOS_strtoul` skips whitespace after the sign too), then one or more
      decimal digits; `None` stands for the ValueError. */
  function ParseInt(s: string): (r: Option<int>)
    ensures r.Some? ==> Strip(s) != []
  {
    ReadStripped(Strip(s))
  }

  /** `int()` of text with no whitespace around it. */
  function ReadStripped(t: string): Option<int> {
    if t != [] && IsSign(t[0]) then
      match DigitsOf(StripLeft(t[1..]))
      case None => None
      case Some(v) => Some(if t[0] == '-' then -v else v)
    else DigitsOf(t)
  }

  /** The value of a non-empty run of decimal digits. */
  function DigitsOf(ds: string): Option<int> {
    if ds != [] && AllDigits(ds) then Some(DigitsValue(ds) as int) else None
  }

  /** `s` laid out as integer text with value `n`: whitespace before `i`, an
      optional sign from `i` to `j`, whitespace up to `k`, decimal digits up
      to `l`, whitespace after. */
  predicate IntLayout(s: string, n: int, i: nat, j: nat, k: nat, l: nat) {
    && i <= j <= k < l <= |s|
    && (j == i || (j == i + 1 && IsSign(s[i])))
    && SpaceIn(s, 0, i) && SpaceIn(s, j, k) && SpaceIn(s, l, |s|)
    && AllDigits(s[k..l])
    && n == (if j == i + 1 && s[i] == '-' then -(DigitsValue(s[k..l]) as int) else DigitsValue(s[k..l]) as int)
  }

  /** `s` is the text of the integer `n` as Python 2 `int()` reads it. */
  ghost predicate IntText(s: string, n: int) {
    exists i: nat, j: nat, k: nat, l: nat :: IntLayout(s, n, i, j, k, l)
  }

  /** `int(s)` returns `n` exactly when `s` is integer text for `n`. */
  lemma {:induction false} ParseIntText(s: string, n: int)
    ensures ParseInt(s) == Some(n) <==> IntText(s, n)
  {
    ParseIntSound(s);
    if IntText(s, n) {
      var i: nat, j: nat, k: nat, l: nat :| IntLayout(s, n, i, j, k, l);
      ParseIntComplete(s, n, i, j, k, l);
    }
  }

  /** `int(s)` raises exactly when `s` is no integer text at all. */
  lemma {:induction false} ParseIntRejects(s: string)
    ensures ParseInt(s).None? <==> forall n :: !IntText(s, n)
  {
    ParseIntSound(s);
    forall n | IntText(s, n)
      ensures ParseInt(s) == Some(n)
    {
      ParseIntText(s, n);
    }
  }

  /** A worked example: whitespace may sit around the sign. */
  lemma {:induction false} ParseIntSpaced()
    ensures ParseInt(" - 5 ") == Some(-5)
  {
    var s := " - 5 ";
    assert s[3..4] == "5" && "5"[..0] == "";
    assert IntLayout(s, -5, 1, 2, 3, 4);
    ParseIntText(s, -5);
  }

  /** Helper: what `ParseInt` accepts is laid out as integer text. */
  lemma {:induction false} ParseIntSound(s: string)
    ensures ParseInt(s).Some? ==> IntText(s, ParseInt(s).value)
  {
    var i, l := StripParts(s);
    if ReadStripped(s[i..l]).Some? {
      var n := ReadStripped(s[i..l]).value;
      if IsSign(s[i]) {
        SoundSigned(s, n, i, l);
      } else {
        SoundUnsigned(s, n, i, l);
      }
    }
  }

  /** Helper: `strip` keeps the bytes between the leading and the trailing
      whitespace. */
  lemma {:induction false} StripParts(s: string) returns (i: nat, l: nat)
    ensures i <= l <= |s| && Strip(s) == s[i..l]
    ensures SpaceIn(s, 0, i) && SpaceIn(s, l, |s|)
  {
    var a := StripLeft(s);
    i := |s| - |a|;
    var t := StripRight(a);
    l := i + |t|;
    assert a == s[i..|s|];
    assert t == s[i..l];
    SpaceSlice(s, i, |s|, |t|, |a|);
  }

  /** Helper: whitespace in a slice is whitespace in the whole text. */
  lemma {:induction false} SpaceSlice(s: string, a: nat, b: nat, x: nat, y: nat)
    requires a <= b <= |s| && x <= y <= b - a
    requires SpaceIn(s[a..b], x, y)
    ensures SpaceIn(s, a + x, a + y)
  {
    forall p | a + x <= p < a + y
      ensures IsSpace(s[p])
    {
      assert s[p] == s[a..b][p - a];
    }
  }

  /** Helper: the unsigned case of `ParseIntSound`. */
  lemma {:induction false} SoundUnsigned(s: string, n: int, i: nat, l: nat)
    requires i <= l <= |s| && SpaceIn(s, 0, i) && SpaceIn(s, l, |s|)
    requires i < l ==> !IsSign(s[i])
    requires ReadStripped(s[i..l]) == Some(n)
    ensures IntText(s, n)
  {
    assert IntLayout(s, n, i, i, i, l);
  }

  /** Helper: the signed case of `ParseIntSound`. */
  lemma {:induction false} SoundSigned(s: string, n: int, i: nat, l: nat)
    requires i < l <= |s| && IsSign(s[i])
    requires SpaceIn(s, 0, i) && SpaceIn(s, l, |s|)
    requires ReadStripped(s[i..l]) == Some(n)
    ensures IntText(s, n)
  {
    var t := s[i..l];
    assert t[0] == s[i];
    var k := SignedParts(t, n);
    assert t[k..] == s[i + k..l];
    SpaceSlice(s, i, l, 1, k);
    assert IntLayout(s, n, i, i + 1, i + k, l);
  }

  /** Helper: stripped signed text read as a number is a sign, whitespace
      and digits from index `k` on. */
  lemma {:induction false} SignedParts(t: string, n: int) returns (k: nat)
    requires t != [] && IsSign(t[0]) && ReadStripped(t) == Some(n)
    ensures 1 <= k < |t| && SpaceIn(t, 1, k) && AllDigits(t[k..])
    ensures n == (if t[0] == '-' then -(DigitsValue(t[k..]) as int) else DigitsValue(t[k..]) as int)
  {
    var u := t[1..];
    var ds := StripLeft(u);
    assert DigitsOf(ds).Some?;
    k := |t| - |ds|;
    assert ds == t[k..];
    SpaceSlice(t, 1, |t|, 0, |u| - |ds|);
  }

  /** Helper: integer text is accepted with its value. */
  lemma {:induction false} ParseIntComplete(s: string, n: int, i: nat, j: nat, k: nat, l: nat)
    requires IntLayout(s, n, i, j, k, l)
    ensures ParseInt(s) == Some(n)
  {
    if j == i + 1 {
      CompleteSigned(s, n, i, k, l);
    } else {
      CompleteUnsigned(s, n, i, k, l);
    }
  }

  /** Helper: the signed case of `ParseIntComplete`. */
  lemma {:induction false} CompleteSigned(s: string, n: int, i: nat, k: nat, l: nat)
    requires IntLayout(s, n, i, i + 1, k, l)
    ensures ParseInt(s) == Some(n)
  {
    var digits := s[k..l];
    assert IsDigit(s[l - 1]) by { assert digits[l - 1 - k] == s[l - 1]; }
    StripAt(s, i, l);
    var t := s[i..l];
    assert t[k - i..] == digits && t[0] == s[i];
    assert IsDigit(t[k - i]) by { assert digits[0] == t[k - i]; }
    SpaceSub(s, i, l, 1, k - i);
    SignedAt(t, k - i, n);
  }

  /** Helper: whitespace in the whole text is whitespace in a slice. */
  lemma {:induction false} SpaceSub(s: string, a: nat, b: nat, x: nat, y: nat)
    requires a <= b <= |s| && x <= y <= b - a
    requires SpaceIn(s, a + x, a + y)
    ensures SpaceIn(s[a..b], x, y)
  {
    forall p | x <= p < y
      ensures IsSpace(s[a..b][p])
    {
      assert s[a..b][p] == s[a + p];
    }
  }

  /** Helper: the unsigned case of `ParseIntComplete`. */
  lemma {:induction false} CompleteUnsigned(s: string, n: int, i: nat, k: nat, l: nat)
    requires IntLayout(s, n, i, i, k, l)
    ensures ParseInt(s) == Some(n)
  {
    var digits := s[k..l];
    assert IsDigit(s[k]) by { assert digits[0] == s[k]; }
    assert IsDigit(s[l - 1]) by { assert digits[l - 1 - k] == s[l - 1]; }
    StripAt(s, k, l);
    assert !IsSign(digits[0]);
  }

  /** Helper: `t` is a sign, whitespace up to `k`, then digits to the end. */
  lemma {:induction false} SignedAt(t: string, k: nat, n: int)
    requires 0 < k < |t| && IsSign(t[0]) && IsDigit(t[k])
    requires SpaceIn(t, 1, k) && AllDigits(t[k..])
    requires n == (if t[0] == '-' then -(DigitsValue(t[k..]) as int) else DigitsValue(t[k..]) as int)
    ensures ReadStripped(t) == Some(n)
  {
    var u := t[1..];
    assert SpaceIn(u, 0, k - 1) by {
      forall p | 0 <= p < k - 1
        ensures IsSpace(u[p])
      {
        assert u[p] == t[p + 1];
      }
    }
    assert u[k - 1] == t[k];
    StripLeftAt(u, k - 1);
    assert u[k - 1..] == t[k..];
  }

  /** Helper: whitespace before `i` and from `l` on is what `strip` removes. */
  lemma {:induction false} StripAt(s: string, i: nat, l: nat)
    requires i < l <= |s| && SpaceIn(s, 0, i) && SpaceIn(s, l, |s|)
    requires !IsSpace(s[i]) && !IsSpace(s[l - 1])
    ensures Strip(s) == s[i..l]
  {
    StripLeftAt(s, i);
    StripRightFrom(s, i, l);
  }

  /** Helper: `StripRightAt` for the text after the leading whitespace. */
  lemma {:induction false} StripRightFrom(s: string, i: nat, l: nat)
    requires i < l <= |s| && SpaceIn(s, l, |s|) && !IsSpace(s[l - 1])
    ensures StripRight(s[i..]) == s[i..l]
  {
    var a := s[i..];
    assert SpaceIn(a, l - i, |a|) by {
      forall p | l - i <= p < |a|
        ensures IsSpace(a[p])
      {
        assert a[p] == s[p + i];
      }
    }
    assert a[l - i - 1] == s[l - 1];
    StripRightAt(a, l - i);
    assert a[..l - i] == s[i..l];
  }

  /** Helper: stripping leading whitespace stops at the first other byte. */
  lemma {:induction false} StripLeftAt(s: string, i: nat)
    requires i < |s| && SpaceIn(s, 0, i) && !IsSpace(s[i])
    ensures StripLeft(s) == s[i..]
    decreases i
  {
    if i > 0 {
      assert s[1..][i - 1] == s[i];
      StripLeftAt(s[1..], i - 1);
      assert s[1..][i - 1..] == s[i..];
    }
  }

  /** Helper: stripping trailing whitespace stops after the last other byte. */
  lemma {:induction false} StripRightAt(s: string, l: nat)
    requires 0 < l <= |s| && SpaceIn(s, l, |s|) && !IsSpace(s[l - 1])
    ensures StripRight(s) == s[..l]
    decreases |s| - l
  {
    if l < |s| {
      var s' := s[..|s| - 1];
      assert s'[l - 1] == s[l - 1];
      StripRightAt(s', l);
      assert s'[..l] == s[..l];
    }
  }

  function Digit(d: nat): char
    requires d < 10
  {
    ('0' as int + d) as char
  }

  /** `'%d' % n` and `str(n)` for a non-negative integer. */
  function Decimal(n: nat): (r: string)
    ensures r != [] && AllDigits(r)
  {
    if n < 10 then [Digit(n)] else Decimal(n / 10) + [Digit(n % 10)]
  }

  lemma {:induction false} DecimalValue(n: nat)
    ensures DigitsValue(Decimal(n)) == n
  {
    if n >= 10 {
      var s := Decimal(n);
      assert s[..|s| - 1] == Decimal(n / 10);
      DecimalValue(n / 10);
    }
  }

  /** `int(str(n)) == n`: the decimal text of a count reads back as that count. */
  lemma {:induction false} ParseDecimal(n: nat)
    ensures ParseInt(Decimal(n)) == Some(n)
  {
    var s := Decimal(n);
    DecimalValue(n);
    assert s[0..|s|] == s;
    assert IntLayout(s, n, 0, 0, 0, |s|);
    ParseIntComplete(s, n, 0, 0, 0, |s|);
  }

  lemma {:induction false} DecimalInjective(a: nat, b: nat)
    requires Decimal(a) == Decimal(b)
    ensures a == b
  {
    DecimalValue(a);
    DecimalValue(b);
  }

  /** Consecutive counts have different decimal texts. */
  lemma {:induction false} DecimalSuccessor(n: nat)
    ensures Decimal(n) != Decimal(n + 1)
  {
    if Decimal(n) == Decimal(n + 1) {
      DecimalInjective(n, n + 1);
    }
  }

  // ---------------------------------------------------------------------------
  // Python slices with possibly negative bounds
  // ---------------------------------------------------------------------------

  /** `s[:n]` */
  function SliceTo(s: string, n: int): (r: string)
    ensures |r| <= |s| && r == s[..|r|]
    ensures 0 <= n <= |s| ==> |r| == n
    ensures n > |s| ==> r == s
  {
    if n >= 0 then (if n <= |s| then s[..n] else s)
    else if |s| + n >= 0 then s[..|s| + n] else []
  }

  /** `s[n:]` */
  function SliceFrom(s: string, n: int): (r: string)
    ensures |r| <= |s| && r == s[|s| - |r|..]
    ensures 0 <= n <= |s| ==> r == s[n..]
  {
    if n >= 0 then (if n <= |s| then s[n..] else [])
    else if |s| + n >= 0 then s[|s| + n..] else s
  }

  // ---------------------------------------------------------------------------
  // Byte-string ordering (Python 2 `<` on `str`)
  // ---------------------------------------------------------------------------

  /** Lexicographic order on byte strings: a proper prefix comes first. */
  predicate StrLess(a: string, b: string)
    decreases |a|
  {
    if a == [] then b != []
    else if b == [] then false
    else if a[0] != b[0] then a[0] < b[0]
    else StrLess(a[1..], b[1..])
  }

  lemma {:induction false} StrLessIrreflexive(a: string)
    ensures !StrLess(a, a)
    decreases |a|
  {
    if a != [] {
      StrLessIrreflexive(a[1..]);
    }
  }

  lemma {:induction false} StrLessTransitive(a: string, b: string, c: string)
    requires StrLess(a, b) && StrLess(b, c)
    ensures StrLess(a, c)
    decreases |a|
  {
    if a != [] && a[0] == b[0] && b[0] == c[0] {
      StrLessTransitive(a[1..], b[1..], c[1..]);
    }
  }

  /** Two different strings are ordered one way or the other, never both. */
  lemma {:induction false} StrLessTotal(a: string, b: string)
    ensures a != b ==> StrLess(a, b) != StrLess(b, a)
    ensures a == b ==> !StrLess(a, b)
    decreases |a|
  {
    if a == b {
      StrLessIrreflexive(a);
    } else if a != [] && b != [] && a[0] == b[0] {
      assert a == [a[0]] + a[1..] && b == [b[0]] + b[1..];
      StrLessTotal(a[1..], b[1..]);
    }
  }
}
