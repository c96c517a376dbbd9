/** `PalPacket`: one protocol unit (command line, header map, payload), its
    wire encoding `toData`, its decoder `parse`, the compressed flag and the
    packet builders the engine and the bot use.

    zlib, MD5 and Salsa20 are foreign code; they enter as function-valued
    parameters, so only the byte layout around them is modelled.
 */
module PalPacket {
  import opened Common
  import opened Text
  import opened Headers

  datatype Packet = Packet(
    command: string,
    headers: Headers,
    payload: string,
    compressed: bool,  // the private `__compressed` flag
    needsMid: bool     // the connection must stamp a `mesg-id` before sending
  )

  /** The header dict is a dict. */
  predicate Valid(p: Packet) {
    Distinct(p.headers)
  }

  /** `PalPacket(command, payload, headers, needsMid)`: a new packet is
      never compressed. */
  function Make(command: string, headers: Headers, payload: string, needsMid: bool): Packet {
    Packet(command, headers, payload, false, needsMid)
  }

  // ---------------------------------------------------------------------------
  // Compression flag
  // ---------------------------------------------------------------------------

  /** `compress`: deflate the payload once; a no-op on a compressed packet. */
  function Compress(p: Packet, deflate: string -> string): (r: Packet)
    ensures r.compressed
    ensures r.command == p.command && r.headers == p.headers && r.needsMid == p.needsMid
    ensures p.compressed ==> r == p
  {
    if p.compressed then p else p.(payload := deflate(p.payload), compressed := true)
  }

  /** `decompress`: inflate the payload once; a no-op on a plain packet.
      `inflate` is `None` on bytes that are not a zlib stream, where
      `zlib.decompress` raises. */
  function Decompress(p: Packet, inflate: string -> Option<string>): (r: Result<Packet>)
    ensures !p.compressed ==> r == Ok(p)
    ensures p.compressed ==> (r.Ok? <==> inflate(p.payload).Some?)
    ensures r.Ok? ==> !r.value.compressed
    ensures r.Ok? ==> r.value.command == p.command && r.value.headers == p.headers && r.value.needsMid == p.needsMid
    ensures r.Ok? && p.compressed ==> r.value.payload == inflate(p.payload).value
    ensures r.Err? ==> r.fault == ZlibError
  {
    if !p.compressed then Ok(p)
    else match inflate(p.payload)
      case Some(data) => Ok(p.(payload := data, compressed := false))
      case None => Err(ZlibError)
  }

  /** With a codec whose inflate undoes its deflate, compressing then
      decompressing gives back the packet, payload and flag alike. */
  lemma {:induction false} CompressRoundTrip(p: Packet, deflate: string -> string, inflate: string -> Option<string>)
    requires forall s :: inflate(deflate(s)) == Some(s)
    requires !p.compressed
    ensures Decompress(Compress(p, deflate), inflate) == Ok(p)
  {
  }

  /** Compressing twice deflates once. */
  lemma {:induction false} CompressIdempotent(p: Packet, deflate: string -> string)
    ensures Compress(Compress(p, deflate), deflate) == Compress(p, deflate)
  {
  }

  // ---------------------------------------------------------------------------
  // Encoding: `toData`
  // ---------------------------------------------------------------------------

  /** The two header names `toData` synthesises and never copies from the map. */
  predicate Reserved(k: string) {
    LowerStr(k) == "compression" || LowerStr(k) == "content-length"
  }

  /** `k and v and k.lower() not in ['compression', 'content-length']` */
  predicate Emitted(k: string, v: string) {
    k != "" && v != "" && !Reserved(k)
  }

  function HeaderLine(k: string, v: string): string {
    k + ": " + v
  }

  /** The headers `toData` copies from the map, in iteration order. */
  function EmittedHeaders(h: Headers): (r: Headers)
    ensures |r| <= |h|
    ensures forall x :: x in r <==> x in h && Emitted(x.0, x.1)
    ensures (forall x :: x in h ==> Emitted(x.0, x.1)) ==> r == h
  {
    if h == [] then []
    else
      assert forall x :: x in h <==> x == h[0] || x in h[1..];
      (if Emitted(h[0].0, h[0].1) then [h[0]] else []) + EmittedHeaders(h[1..])
  }

  /** One `key: value` line per copied header. */
  function HeaderLines(h: Headers): (r: seq<string>)
    ensures |r| == |EmittedHeaders(h)|
    ensures forall i :: 0 <= i < |r| ==>
      r[i] == HeaderLine(EmittedHeaders(h)[i].0, EmittedHeaders(h)[i].1)
  {
    var e := EmittedHeaders(h);
    seq(|e|, i requires 0 <= i < |e| => HeaderLine(e[i].0, e[i].1))
  }

  /** The headers `toData` writes itself: `content-length` (and
      `compression: 1` for a compressed packet), only when there is a payload. */
  function Synthesized(p: Packet): (r: seq<string>)
    ensures p.payload == [] ==> r == []
    ensures p.payload != [] ==> |r| == (if p.compressed then 2 else 1)
    ensures p.payload != [] ==> r[0] == "content-length: " + Decimal(|p.payload|)
    ensures p.payload != [] && p.compressed ==> r[1] == "compression: 1"
  {
    if p.payload == [] then []
    else ["content-length: " + Decimal(|p.payload|)] + (if p.compressed then ["compression: 1"] else [])
  }

  /** The lines `toData` puts before the blank line: the command, the
      synthesised headers, then the map's headers. */
  function Lines(p: Packet): (r: seq<string>)
    ensures |r| == 1 + |Synthesized(p)| + |HeaderLines(p.headers)|
    ensures r[0] == p.command
    ensures r[1..1 + |Synthesized(p)|] == Synthesized(p)
    ensures r[1 + |Synthesized(p)|..] == HeaderLines(p.headers)
  {
    [p.command] + Synthesized(p) + HeaderLines(p.headers)
  }

  /** What the lines before the blank line say: the command comes first;
      every other line is a `key: value` line; every header with a non-empty
      key and value that `toData` does not write itself is among them; a
      payload brings its `content-length` line right after the command, and
      without a payload every line after the command is a copied header. */
  lemma {:induction false} ToDataLines(p: Packet)
    ensures Lines(p)[0] == p.command
    ensures forall i :: 1 <= i < |Lines(p)| ==> Contains(Lines(p)[i], ": ")
    ensures forall x :: x in p.headers && Emitted(x.0, x.1) ==> HeaderLine(x.0, x.1) in Lines(p)[1..]
    ensures p.payload != [] ==> Lines(p)[1] == "content-length: " + Decimal(|p.payload|)
    ensures p.payload == [] ==> forall i :: 1 <= i < |Lines(p)| ==> CopiedLine(p.headers, Lines(p)[i])
  {
    var ls := Lines(p);
    var sy := Synthesized(p);
    var hl := HeaderLines(p.headers);
    SynthesizedLines(p);
    HeaderLinesOfCopied(p.headers);
    LinesParts(p.command, sy, hl);
    if p.payload == [] {
      forall i | 1 <= i < |ls|
        ensures CopiedLine(p.headers, ls[i])
      {
        assert ls[i] == hl[i - 1];
      }
    }
  }

  /** Helper: the lines after the command are the synthesised lines and then
      the header lines. */
  lemma {:induction false} LinesParts(command: string, sy: seq<string>, hl: seq<string>)
    ensures var ls := [command] + sy + hl;
      && ls[0] == command && ls[1..] == sy + hl
      && (forall i :: 1 <= i <= |sy| ==> ls[i] == sy[i - 1])
      && (forall i :: 1 + |sy| <= i < |ls| ==> ls[i] == hl[i - 1 - |sy|])
  { }

  /** Helper: the synthesised lines are `key: value` lines, `content-length`
      first. */
  lemma {:induction false} SynthesizedLines(p: Packet)
    ensures forall i :: 0 <= i < |Synthesized(p)| ==> Contains(Synthesized(p)[i], ": ")
    ensures p.payload != [] ==> Synthesized(p)[0] == "content-length: " + Decimal(|p.payload|)
  {
    if p.payload != [] {
      var d := Decimal(|p.payload|);
      LineHasSep("content-length", d);
      assert "content-length: " + d == HeaderLine("content-length", d);
      if p.compressed {
        LineHasSep("compression", "1");
        assert "compression: 1" == HeaderLine("compression", "1");
      }
    }
  }

  /** Helper: the header lines are exactly the lines of the copied headers. */
  lemma {:induction false} HeaderLinesOfCopied(h: Headers)
    ensures forall i :: 0 <= i < |HeaderLines(h)| ==> Contains(HeaderLines(h)[i], ": ")
    ensures forall i :: 0 <= i < |HeaderLines(h)| ==> CopiedLine(h, HeaderLines(h)[i])
    ensures forall x :: x in h && Emitted(x.0, x.1) ==> HeaderLine(x.0, x.1) in HeaderLines(h)
  {
    var e := EmittedHeaders(h);
    var hl := HeaderLines(h);
    forall i | 0 <= i < |hl|
      ensures Contains(hl[i], ": ")
      ensures CopiedLine(h, hl[i])
    {
      var x := e[i];
      assert x in e;
      assert x in h && Emitted(x.0, x.1) && hl[i] == HeaderLine(x.0, x.1);
      LineHasSep(x.0, x.1);
    }
    forall x | x in h && Emitted(x.0, x.1)
      ensures HeaderLine(x.0, x.1) in hl
    {
      assert x in e;
      var j :| 0 <= j < |e| && e[j] == x;
      assert hl[j] == HeaderLine(x.0, x.1);
    }
  }

  /** `line` is the line of some header `toData` copies. */
  predicate CopiedLine(h: Headers, line: string) {
    exists x :: x in h && Emitted(x.0, x.1) && line == HeaderLine(x.0, x.1)
  }

  /** Helper: a header line holds its `": "`. */
  lemma {:induction false} LineHasSep(k: string, v: string)
    ensures Contains(HeaderLine(k, v), ": ")
  {
    var s := HeaderLine(k, v);
    assert s[|k|..|k| + 2] == ": ";
    assert OccursAt(s, ": ", |k|);
  }

  /** `toData`: the lines joined by `\n`, an empty line, then the raw payload. */
  function ToData(p: Packet): (r: string)
    ensures r == Join(Lines(p), "\n") + "\n\n" + p.payload
  {
    var lines := Lines(p);
    JoinBlankThen(lines, p.payload);
    Join(lines + ["", p.payload], "\n")
  }

  /** A blank line and then the payload: two line breaks, then the payload. */
  lemma {:induction false} JoinBlankThen(lines: seq<string>, payload: string)
    requires |lines| > 0
    ensures Join(lines + ["", payload], "\n") == Join(lines, "\n") + "\n\n" + payload
  {
    JoinSnoc(lines, "", "\n");
    JoinSnoc(lines + [""], payload, "\n");
    assert lines + ["", payload] == lines + [""] + [payload];
  }

  // ---------------------------------------------------------------------------
  // Decoding: `parse`
  // ---------------------------------------------------------------------------

  /** Where the header block ends and which line break it uses: the first
      `\r\n\r\n` if there is one, otherwise the first `\n\n`. */
  function Delimit(data: string): (r: Option<(nat, string)>)
    ensures r.None? <==> !Contains(data, "\r\n\r\n") && !Contains(data, "\n\n")
    ensures Contains(data, "\r\n\r\n") ==> r == Some((IndexOf(data, "\r\n\r\n").value, "\r\n"))
    ensures !Contains(data, "\r\n\r\n") && Contains(data, "\n\n") ==>
      r == Some((IndexOf(data, "\n\n").value, "\n"))
    ensures r.Some? ==> r.value.0 + 2 * |r.value.1| <= |data|
  {
    match IndexOf(data, "\r\n\r\n")
    case Some(i) => Some((i, "\r\n"))
    case None =>
      match IndexOf(data, "\n\n")
      case Some(i) => Some((i, "\n"))
      case None => None
  }

  /** Each header line split on `": "`; `None` when one does not give
      exactly two parts (the ValueError `dict()` raises). */
  function SplitHeaderLines(lines: seq<string>): (r: Option<seq<(string, string)>>)
    ensures r.Some? <==> forall i :: 0 <= i < |lines| ==> |Split(lines[i], ": ")| == 2
    ensures r.Some? ==> |r.value| == |lines|
    ensures r.Some? ==>
      forall i :: 0 <= i < |lines| ==> [r.value[i].0, r.value[i].1] == Split(lines[i], ": ")
  {
    if lines == [] then Some([])
    else
      var kv := Split(lines[0], ": ");
      var rest := SplitHeaderLines(lines[1..]);
      assert forall i :: 1 <= i < |lines| ==> lines[i] == lines[1..][i - 1];
      if |kv| != 2 || rest.None? then None
      else Some([(kv[0], kv[1])] + rest.value)
  }

  /** The value the last pair with key `k` carries, if any pair has it. */
  function LastValue(pairs: seq<(string, string)>, k: string): (r: Option<string>)
    ensures r.None? <==> forall i :: 0 <= i < |pairs| ==> pairs[i].0 != k
    ensures r.Some? ==> exists i :: 0 <= i < |pairs| && pairs[i] == (k, r.value) &&
                                    forall j :: i < j < |pairs| ==> pairs[j].0 != k
    decreases |pairs|
  {
    if pairs == [] then None
    else if pairs[|pairs| - 1].0 == k then Some(pairs[|pairs| - 1].1)
    else LastValue(pairs[..|pairs| - 1], k)
  }

  /** `dict(pairs)`: insert left to right; a repeated key keeps its first
      position and takes its last value. */
  function DictOf(pairs: seq<(string, string)>): (r: Headers)
    ensures Distinct(r)
    ensures forall k :: Get(r, k) == LastValue(pairs, k)
    decreases |pairs|
  {
    if pairs == [] then []
    else
      var last := pairs[|pairs| - 1];
      Put(DictOf(pairs[..|pairs| - 1]), last.0, last.1)
  }

  /** A dict built from pairs with distinct keys keeps them in order. */
  lemma {:induction false} DictOfDistinct(pairs: seq<(string, string)>)
    requires Distinct(pairs)
    ensures DictOf(pairs) == pairs
    decreases |pairs|
  {
    if pairs != [] {
      var init := pairs[..|pairs| - 1];
      var last := pairs[|pairs| - 1];
      assert Distinct(init);
      DictOfDistinct(init);
      assert Find(init, last.0).None?;
      assert DictOf(pairs) == Put(init, last.0, last.1);
      assert pairs == init + [last];
    }
  }

  /** The lines of the header block, up to the delimiter. */
  function BlockLines(data: string): (r: seq<string>)
    requires Delimit(data).Some?
    ensures |r| > 0
  {
    var (pos, delim) := Delimit(data).value;
    Split(data[..pos], delim)
  }

  /** What `parse` makes of a header block cut into lines and the payload
      after it: the first line is the command, and every other line must
      split into exactly a key and a value. */
  function ParseBlock(lines: seq<string>, payload: string): (r: Option<Packet>)
    requires |lines| > 0
    ensures r.Some? <==> forall i :: 1 <= i < |lines| ==> |Split(lines[i], ": ")| == 2
    ensures r.Some? ==> r.value.headers == DictOf(SplitHeaderLines(lines[1..]).value)
    ensures r.Some? ==> Valid(r.value) && !r.value.needsMid
    ensures r.Some? ==> r.value.compressed == HasValueI(r.value.headers, "compression", "1")
    ensures r.Some? ==> r.value.command == lines[0] && r.value.payload == payload
  {
    assert forall i :: 1 <= i < |lines| ==> lines[i] == lines[1..][i - 1];
    match SplitHeaderLines(lines[1..])
    case None => None
    case Some(pairs) =>
      var headers := DictOf(pairs);
      Some(Packet(lines[0], headers, payload, HasValueI(headers, "compression", "1"), false))
  }

  /** `PalPacket.parse(data)` (without auto-decompression): `None` when no
      header/payload delimiter is found or a header line is not a
      `key: value` pair. */
  function Parse(data: string): (r: Option<Packet>)
    ensures Delimit(data).None? ==> r.None?
    ensures r.Some? <==>
      && Delimit(data).Some?
      && forall i :: 1 <= i < |BlockLines(data)| ==> |Split(BlockLines(data)[i], ": ")| == 2
    ensures r.Some? ==> r.value.headers == DictOf(SplitHeaderLines(BlockLines(data)[1..]).value)
    ensures r.Some? ==> Valid(r.value) && !r.value.needsMid
    ensures r.Some? ==> r.value.compressed == HasValueI(r.value.headers, "compression", "1")
    ensures r.Some? ==>
      var (pos, delim) := Delimit(data).value;
      && r.value.command == BlockLines(data)[0]
      && r.value.payload == data[pos + 2 * |delim|..]
  {
    match Delimit(data)
    case None => None
    case Some((pos, delim)) => ParseBlock(BlockLines(data), data[pos + 2 * |delim|..])
  }

  // ---------------------------------------------------------------------------
  // Round trip
  // ---------------------------------------------------------------------------

  predicate NoChar(s: string, c: char) {
    forall i :: 0 <= i < |s| ==> s[i] != c
  }

  /** A header `parse` can read back from `toData`'s output. */
  predicate WireSafe(k: string, v: string) {
    && Emitted(k, v)
    && NoChar(k, '\n') && NoChar(v, '\n') && NoChar(k, '\r') && NoChar(v, '\r')
    && !Contains(k, ": ") && !Contains(v, ": ")
  }

  /** Decoding the encoding of a payload-free packet recovers its command and
      headers; the compressed flag is not carried by such a packet's wire
      form, and a parsed packet never needs a `mesg-id`. */
  lemma {:induction false} ParseToData(p: Packet)
    requires Valid(p) && p.payload == []
    requires NoChar(p.command, '\n') && NoChar(p.command, '\r')
    requires forall j :: 0 <= j < |p.headers| ==> WireSafe(p.headers[j].0, p.headers[j].1)
    ensures Parse(ToData(p)) == Some(Packet(p.command, p.headers, [], false, false))
  {
    var h := p.headers;
    var lines := [p.command] + HeaderLines(h);
    var head := Join(lines, "\n");
    var data := head + "\n\n";
    PayloadFreeLines(p);
    CleanLines(p.command, h);
    DelimitHeaderBlock(lines);
    assert data[..|head|] == head;
    SplitJoin(lines, '\n');
    assert lines[1..] == HeaderLines(h);
    SplitHeaderLinesOf(h);
    DictOfDistinct(h);
    NoCompressionKey(h);
    assert data[|head| + 2..] == [];
    ParseAt(data, |head|, lines, h);
  }

  /** A payload-free packet of wire-safe headers: its command line, one line
      per header, and the blank line. */
  lemma {:induction false} PayloadFreeLines(p: Packet)
    requires p.payload == []
    requires forall j :: 0 <= j < |p.headers| ==> WireSafe(p.headers[j].0, p.headers[j].1)
    ensures ToData(p) == Join([p.command] + HeaderLines(p.headers), "\n") + "\n\n"
  {
    assert EmittedHeaders(p.headers) == p.headers;
    assert Lines(p) == [p.command] + HeaderLines(p.headers);
  }

  /** The command line and the header lines carry no line breaks, and the
      header lines are not blank. */
  lemma {:induction false} CleanLines(command: string, h: Headers)
    requires NoChar(command, '\n') && NoChar(command, '\r')
    requires forall j :: 0 <= j < |h| ==> WireSafe(h[j].0, h[j].1)
    ensures var lines := [command] + HeaderLines(h);
      && (forall i :: 0 <= i < |lines| ==> NoChar(lines[i], '\n') && NoChar(lines[i], '\r'))
      && (forall i :: 1 <= i < |lines| ==> lines[i] != [])
      && (forall i, j :: 0 <= i < |lines| && 0 <= j < |lines[i]| ==> lines[i][j] != '\n')
  {
    var lines := [command] + HeaderLines(h);
    HeaderLinesClean(h);
    assert forall i :: 1 <= i < |lines| ==> lines[i] == HeaderLines(h)[i - 1];
  }

  /** How `parse` reads data whose header block ends with `\n\n` at `pos`. */
  lemma {:induction false} ParseAt(data: string, pos: nat, lines: seq<string>, pairs: seq<(string, string)>)
    requires Delimit(data) == Some((pos, "\n"))
    requires Split(data[..pos], "\n") == lines
    requires SplitHeaderLines(lines[1..]) == Some(pairs)
    ensures Parse(data) == Some(Packet(lines[0], DictOf(pairs), data[pos + 2..],
                                       HasValueI(DictOf(pairs), "compression", "1"), false))
  { }

  /** The lines of wire-safe headers are non-empty and free of line breaks. */
  lemma {:induction false} HeaderLinesClean(h: Headers)
    requires forall j :: 0 <= j < |h| ==> WireSafe(h[j].0, h[j].1)
    ensures forall i :: 0 <= i < |HeaderLines(h)| ==>
      HeaderLines(h)[i] != [] && NoChar(HeaderLines(h)[i], '\n') && NoChar(HeaderLines(h)[i], '\r')
  {
    assert EmittedHeaders(h) == h;
    forall i | 0 <= i < |HeaderLines(h)|
      ensures HeaderLines(h)[i] != [] && NoChar(HeaderLines(h)[i], '\n') && NoChar(HeaderLines(h)[i], '\r')
    {
      LineChars(h[i].0, h[i].1);
    }
  }

  /** After lines free of line breaks, all but the first non-empty, the
      first blank line is the one `toData` writes. */
  lemma {:induction false} DelimitHeaderBlock(lines: seq<string>)
    requires |lines| > 0
    requires forall i :: 0 <= i < |lines| ==> NoChar(lines[i], '\n') && NoChar(lines[i], '\r')
    requires forall i :: 1 <= i < |lines| ==> lines[i] != []
    ensures Delimit(Join(lines, "\n") + "\n\n") == Some((|Join(lines, "\n")|, "\n"))
  {
    var head := Join(lines, "\n");
    var data := head + "\n\n";
    // No carriage return anywhere, so the delimiter is the first `\n\n`.
    JoinAvoids(lines, "\n", '\r');
    NoCharNoOccurrence(data, "\r\n\r\n", 0);
    JoinNoBlankLine(lines);
    assert OccursAt(data, "\n\n", |head|) by { assert data[|head|..|head| + 2] == "\n\n"; }
    forall j | 0 <= j < |head|
      ensures !OccursAt(data, "\n\n", j)
    {
      assert data[j..j + 2][0] == data[j] && data[j..j + 2][1] == data[j + 1];
      if j < |head| - 1 {
        assert data[j] == head[j] && data[j + 1] == head[j + 1];
      } else {
        assert data[j] == head[j];
      }
    }
    IndexOfFirst(data, "\n\n", |head|);
  }

  /** Every line of wire-safe headers splits back into its key and value. */
  lemma {:induction false} SplitHeaderLinesOf(h: Headers)
    requires forall j :: 0 <= j < |h| ==> WireSafe(h[j].0, h[j].1)
    ensures SplitHeaderLines(HeaderLines(h)) == Some(h)
    decreases |h|
  {
    if h != [] {
      assert EmittedHeaders(h) == h;
      assert EmittedHeaders(h[1..]) == h[1..];
      var lines := HeaderLines(h);
      assert lines[1..] == HeaderLines(h[1..]);
      SplitPair(h[0].0, h[0].1);
      SplitHeaderLinesOf(h[1..]);
      assert h == [(h[0].0, h[0].1)] + h[1..];
    }
  }

  /** No wire-safe header is a `compression` header. */
  lemma {:induction false} NoCompressionKey(h: Headers)
    requires forall j :: 0 <= j < |h| ==> WireSafe(h[j].0, h[j].1)
    ensures !HasKeyI(h, "compression")
  {
    forall j | 0 <= j < |h|
      ensures !EqualI(h[j].0, "compression")
    {
      assert WireSafe(h[j].0, h[j].1);
      EqualILower(h[j].0, "compression");
      assert LowerStr("compression") == "compression";
    }
  }

  lemma {:induction false} LineChars(k: string, v: string)
    requires WireSafe(k, v)
    ensures NoChar(HeaderLine(k, v), '\n') && NoChar(HeaderLine(k, v), '\r')
    ensures HeaderLine(k, v) != []
  {
    var l := HeaderLine(k, v);
    forall i | 0 <= i < |l|
      ensures l[i] != '\n' && l[i] != '\r'
    {
      if i < |k| {
        assert l[i] == k[i];
      } else if i >= |k| + 2 {
        assert l[i] == v[i - |k| - 2];
      }
    }
  }

  /** A character in neither the parts nor the separator is not in the join. */
  lemma {:induction false} JoinAvoids(xs: seq<string>, sep: string, c: char)
    requires NoChar(sep, c)
    requires forall i :: 0 <= i < |xs| ==> NoChar(xs[i], c)
    ensures NoChar(Join(xs, sep), c)
    decreases |xs|
  {
    if |xs| > 1 {
      JoinAvoids(xs[1..], sep, c);
      var s := Join(xs, sep);
      var rest := Join(xs[1..], sep);
      assert s == xs[0] + sep + rest;
      forall i | 0 <= i < |s|
        ensures s[i] != c
      {
        if i < |xs[0]| {
          assert s[i] == xs[0][i];
        } else if i < |xs[0]| + |sep| {
          assert s[i] == sep[i - |xs[0]|];
        } else {
          assert s[i] == rest[i - |xs[0]| - |sep|];
        }
      }
    }
  }

  /** Joining newline-free lines, all but the first non-empty, gives text
      with no two adjacent newlines and no trailing newline. */
  lemma {:induction false} JoinNoBlankLine(xs: seq<string>)
    requires |xs| > 0
    requires forall i :: 0 <= i < |xs| ==> NoChar(xs[i], '\n')
    requires forall i :: 1 <= i < |xs| ==> xs[i] != []
    ensures var s := Join(xs, "\n");
      && (forall j :: 0 <= j < |s| - 1 ==> !(s[j] == '\n' && s[j + 1] == '\n'))
      && (s == [] || s[|s| - 1] != '\n')
    decreases |xs|
  {
    if |xs| > 1 {
      var s := Join(xs, "\n");
      var x := xs[0];
      var rest := Join(xs[1..], "\n");
      JoinNoBlankLine(xs[1..]);
      JoinStartsWith(xs[1..]);
      assert s == x + "\n" + rest;
      forall j | 0 <= j < |s| - 1
        ensures !(s[j] == '\n' && s[j + 1] == '\n')
      {
        if j < |x| {
          assert s[j] == x[j];
        } else if j > |x| {
          assert s[j] == rest[j - |x| - 1] && s[j + 1] == rest[j - |x|];
        } else {
          assert s[j + 1] == rest[0];
        }
      }
      assert s[|s| - 1] == rest[|rest| - 1];
    }
  }

  lemma {:induction false} JoinStartsWith(xs: seq<string>)
    requires |xs| > 0 && xs[0] != []
    ensures |Join(xs, "\n")| >= |xs[0]| && Join(xs, "\n")[0] == xs[0][0]
  {
  }

  // ---------------------------------------------------------------------------
  // Builders
  // ---------------------------------------------------------------------------

  /** The constant part of the LOGON headers. */
  const LogonFixed: Headers :=
    [("Operator", "PC_CLIENT"), ("affiliate-id", "winpc"), ("app-identifier", "00000"),
     ("app-type", "Windows x86"), ("capabilities", "786437"),
     ("client-version", "2.8.0,  53947"), ("fw", "Win 5.1"), ("last", "1"),
     ("protocol-version", "2.0")]

  lemma {:induction false} LogonFixedKeys()
    ensures Distinct(LogonFixed)
    ensures forall j :: 0 <= j < |LogonFixed| ==>
      !EqualI(LogonFixed[j].0, "name") && !EqualI(LogonFixed[j].0, "redirect-count")
  {
    var keys := seq(|LogonFixed|, j requires 0 <= j < |LogonFixed| => LogonFixed[j].0);
    assert keys[0][0] == 'O' && keys[1][0] == 'a' && keys[2][0] == 'a' && keys[3][0] == 'a';
    assert keys[4][0] == 'c' && keys[5][0] == 'c' && keys[7][0] == 'l';
    assert keys[2][1] == 'p' && keys[1][1] == 'f';
    assert "name"[0] == 'n' && "redirect-count"[0] == 'r';
  }

  /** The LOGON headers: the fixed ones, the login name, and the redirect
      count after a redirect. */
  function LogonHeaders(email: string, redirectCount: int): Headers {
    var base := LogonFixed + [("name", email)];
    if redirectCount > 0 then base + [("redirect-count", Decimal(redirectCount))] else base
  }

  lemma {:induction false} LogonBase(email: string)
    ensures var base := LogonFixed + [("name", email)];
      && Distinct(base)
      && GetValueI(base, "name") == Some(email)
      && !HasKeyI(base, "redirect-count")
  {
    LogonFixedKeys();
    var base := LogonFixed + [("name", email)];
    LookupUnique(base, "name", |LogonFixed|);
    assert forall j :: 0 <= j < |base| ==> !EqualI(base[j].0, "redirect-count") by {
      forall j | 0 <= j < |base|
        ensures !EqualI(base[j].0, "redirect-count")
      {
        if j < |LogonFixed| {
          assert base[j] == LogonFixed[j];
        }
      }
    }
  }

  lemma {:induction false} LogonHeadersLookup(email: string, redirectCount: int)
    ensures var h := LogonHeaders(email, redirectCount);
      && Distinct(h)
      && GetValueI(h, "name") == Some(email)
      && (HasKeyI(h, "redirect-count") <==> redirectCount > 0)
      && (redirectCount > 0 ==> GetValueI(h, "redirect-count") == Some(Decimal(redirectCount)))
  {
    LogonFixedKeys();
    LogonBase(email);
    var base := LogonFixed + [("name", email)];
    if redirectCount > 0 {
      var h := base + [("redirect-count", Decimal(redirectCount))];
      assert "name"[0] != "redirect-count"[0];
      LookupUnique(h, "name", |LogonFixed|);
      LookupUnique(h, "redirect-count", |base|);
    }
  }

  /** `PalPacket.logon(email, redirect_count)`: `redirect-count` is sent
      only after a redirect. */
  function Logon(email: string, redirectCount: int): (r: Packet)
    ensures Valid(r) && r.command == "LOGON" && !r.needsMid && r.payload == []
    ensures GetValueI(r.headers, "name") == Some(email)
    ensures HasKeyI(r.headers, "redirect-count") <==> redirectCount > 0
    ensures redirectCount > 0 ==> GetValueI(r.headers, "redirect-count") == Some(Decimal(redirectCount))
  {
    LogonHeadersLookup(email, redirectCount);
    Make("LOGON", LogonHeaders(email, redirectCount), [], false)
  }

  /** `PalPacket.ping(number)`: the keep-alive answer echoing a count. */
  function Ping(number: nat): (r: Packet)
    ensures Valid(r) && r.command == "P" && !r.needsMid && r.payload == []
    ensures GetValueI(r.headers, "ps") == Some(Decimal(number))
  {
    var h := [("last", "1"), ("ps", Decimal(number))];
    FindIStable(h, h, "ps", 1);
    Make("P", h, [], false)
  }

  /** `PalPacket.group_join(group, password)`: the password, empty by
      default, is the payload. */
  function GroupJoin(group: string, password: string): (r: Packet)
    ensures Valid(r) && r.command == "GROUP SUBSCRIBE" && r.needsMid && !r.compressed
    ensures r.payload == password
    ensures |r.headers| == 2
    ensures GetValueI(r.headers, "name") == Some(group) && GetValueI(r.headers, "last") == Some("1")
  {
    var h := [("name", group), ("last", "1")];
    assert !EqualI("name", "last") && !EqualI("last", "name") by {
      assert LowerStr("name")[0] == 'n' && LowerStr("last")[0] == 'l';
    }
    LookupUnique(h, "name", 0);
    LookupUnique(h, "last", 1);
    Make("GROUP SUBSCRIBE", h, password, true)
  }

  /** `PalPacket.group_leave(group)`: no payload; the group goes by id. */
  function GroupLeave(group: string): (r: Packet)
    ensures Valid(r) && r.command == "GROUP UNSUB" && r.needsMid && !r.compressed
    ensures r.payload == []
    ensures |r.headers| == 2
    ensures GetValueI(r.headers, "group-id") == Some(group) && GetValueI(r.headers, "last") == Some("1")
  {
    var h := [("group-id", group), ("last", "1")];
    LookupByLength(h, "group-id", 0);
    LookupByLength(h, "last", 1);
    Make("GROUP UNSUB", h, [], true)
  }

  /** The headers of one MESG fragment, in the order the source writes them. */
  function MessageHeaders(target: string, to: string, contentType: string,
                          correlationId: Option<string>, last: bool): Headers
  {
    var common := [("Content-Type", contentType), ("Target-Id", to), ("Mesg-Target", target)];
    match correlationId
    case Some(c) => if last then common + [("Correlation-Id", c), ("Last", "T")] else common + [("Correlation-Id", c)]
    case None => if last then common + [("Last", "T")] else common
  }

  lemma {:induction false} MessageHeadersLookup(target: string, to: string, contentType: string,
                             correlationId: Option<string>, last: bool)
    ensures var h := MessageHeaders(target, to, contentType, correlationId, last);
      && Distinct(h)
      && GetValueI(h, "Content-Type") == Some(contentType)
      && GetValueI(h, "Target-Id") == Some(to)
      && GetValueI(h, "Mesg-Target") == Some(target)
      && GetValueI(h, "Correlation-Id") == correlationId
      && (HasKeyI(h, "Last") <==> last)
      && !HasKeyI(h, "Mesg-Id")
  {
    var h := MessageHeaders(target, to, contentType, correlationId, last);
    var common := [("Content-Type", contentType), ("Target-Id", to), ("Mesg-Target", target)];
    match correlationId
    case Some(c) =>
      if last {
        assert h == [common[0], common[1], common[2], ("Correlation-Id", c), ("Last", "T")];
        LookupChainedLast(target, to, contentType, c);
      } else {
        assert h == [common[0], common[1], common[2], ("Correlation-Id", c)];
        LookupChained(target, to, contentType, c);
      }
    case None =>
      if last {
        assert h == [common[0], common[1], common[2], ("Last", "T")];
        LookupFirstLast(target, to, contentType);
      } else {
        assert h == common;
        LookupFirst(target, to, contentType);
      }
  }

  // Every key of a MESG fragment has a length of its own, so each is found
  // exactly where it was written, and a name of another length is absent.

  lemma {:induction false} LookupChainedLast(target: string, to: string, ct: string, c: string)
    ensures var h := [("Content-Type", ct), ("Target-Id", to), ("Mesg-Target", target),
                      ("Correlation-Id", c), ("Last", "T")];
      && Distinct(h)
      && GetValueI(h, "Content-Type") == Some(ct) && GetValueI(h, "Target-Id") == Some(to)
      && GetValueI(h, "Mesg-Target") == Some(target) && GetValueI(h, "Correlation-Id") == Some(c)
      && HasKeyI(h, "Last") && !HasKeyI(h, "Mesg-Id")
  {
    var h := [("Content-Type", ct), ("Target-Id", to), ("Mesg-Target", target),
              ("Correlation-Id", c), ("Last", "T")];
    LookupByLength(h, "Content-Type", 0);
    LookupByLength(h, "Target-Id", 1);
    LookupByLength(h, "Mesg-Target", 2);
    LookupByLength(h, "Correlation-Id", 3);
    LookupByLength(h, "Last", 4);
    AbsentByLength(h, "Mesg-Id");
  }

  lemma {:induction false} LookupChained(target: string, to: string, ct: string, c: string)
    ensures var h := [("Content-Type", ct), ("Target-Id", to), ("Mesg-Target", target),
                      ("Correlation-Id", c)];
      && Distinct(h)
      && GetValueI(h, "Content-Type") == Some(ct) && GetValueI(h, "Target-Id") == Some(to)
      && GetValueI(h, "Mesg-Target") == Some(target) && GetValueI(h, "Correlation-Id") == Some(c)
      && !HasKeyI(h, "Last") && !HasKeyI(h, "Mesg-Id")
  {
    var h := [("Content-Type", ct), ("Target-Id", to), ("Mesg-Target", target),
              ("Correlation-Id", c)];
    LookupByLength(h, "Content-Type", 0);
    LookupByLength(h, "Target-Id", 1);
    LookupByLength(h, "Mesg-Target", 2);
    LookupByLength(h, "Correlation-Id", 3);
    AbsentByLength(h, "Last");
    AbsentByLength(h, "Mesg-Id");
  }

  lemma {:induction false} LookupFirstLast(target: string, to: string, ct: string)
    ensures var h := [("Content-Type", ct), ("Target-Id", to), ("Mesg-Target", target), ("Last", "T")];
      && Distinct(h)
      && GetValueI(h, "Content-Type") == Some(ct) && GetValueI(h, "Target-Id") == Some(to)
      && GetValueI(h, "Mesg-Target") == Some(target) && GetValueI(h, "Correlation-Id") == None
      && HasKeyI(h, "Last") && !HasKeyI(h, "Mesg-Id")
  {
    var h := [("Content-Type", ct), ("Target-Id", to), ("Mesg-Target", target), ("Last", "T")];
    LookupByLength(h, "Content-Type", 0);
    LookupByLength(h, "Target-Id", 1);
    LookupByLength(h, "Mesg-Target", 2);
    LookupByLength(h, "Last", 3);
    AbsentByLength(h, "Correlation-Id");
    AbsentByLength(h, "Mesg-Id");
  }

  lemma {:induction false} LookupFirst(target: string, to: string, ct: string)
    ensures var h := [("Content-Type", ct), ("Target-Id", to), ("Mesg-Target", target)];
      && Distinct(h)
      && GetValueI(h, "Content-Type") == Some(ct) && GetValueI(h, "Target-Id") == Some(to)
      && GetValueI(h, "Mesg-Target") == Some(target) && GetValueI(h, "Correlation-Id") == None
      && !HasKeyI(h, "Last") && !HasKeyI(h, "Mesg-Id")
  {
    var h := [("Content-Type", ct), ("Target-Id", to), ("Mesg-Target", target)];
    LookupByLength(h, "Content-Type", 0);
    LookupByLength(h, "Target-Id", 1);
    LookupByLength(h, "Mesg-Target", 2);
    AbsentByLength(h, "Correlation-Id");
    AbsentByLength(h, "Last");
    AbsentByLength(h, "Mesg-Id");
  }

  /** `PalPacket.message(target, to, payload, mime, correlationId, last)`:
      one MESG fragment. `Content-Type` defaults to `text/plain`,
      `Correlation-Id` is present iff a correlation id is given, `Last` iff
      this is the last fragment. */
  function Message(target: string, to: string, payload: string, mime: Option<string>,
                   correlationId: Option<string>, last: bool): (r: Packet)
    ensures Valid(r) && r.command == "MESG" && !r.needsMid && r.payload == payload
    ensures GetValueI(r.headers, "Target-Id") == Some(to)
    ensures GetValueI(r.headers, "Mesg-Target") == Some(target)
    ensures GetValueI(r.headers, "Content-Type") ==
      Some(if mime.None? || mime.value == [] then "text/plain" else mime.value)
    ensures GetValueI(r.headers, "Correlation-Id") == correlationId
    ensures HasKeyI(r.headers, "Last") <==> last
    ensures !HasKeyI(r.headers, "Mesg-Id")
  {
    var ct := if mime.None? || mime.value == [] then "text/plain" else mime.value;
    MessageHeadersLookup(target, to, ct, correlationId, last);
    Make("MESG", MessageHeaders(target, to, ct, correlationId, last), payload, false)
  }

  // ---------------------------------------------------------------------------
  // AUTH answer: `generatePayload` layout
  // ---------------------------------------------------------------------------

  /** The three inputs of the Salsa20 call that answers an AUTH challenge. */
  datatype AuthInput = AuthInput(key: string, iv: string, block: string)

  /** `str.replace('.', '')` */
  function RemoveDots(s: string): (r: string)
    ensures |r| <= |s|
    ensures NoChar(r, '.')
    ensures NoChar(s, '.') ==> r == s
  {
    if s == [] then []
    else (if s[0] == '.' then [] else [s[0]]) + RemoveDots(s[1..])
  }

  /** The byte layout of `generatePayload(password, challenge)`: the IV is
      payload bytes 16..24, the key is `md5(md5(password) + IV)`, and the
      block is payload bytes 0..16 followed by the first 16 characters of the
      exact-case `TIMESTAMP` header with its dots removed. Fails like the
      source: KeyError without that header, IndexError on a short payload or
      timestamp. */
  function AuthLayout(password: string, challenge: Packet, md5: string -> string): (r: Result<AuthInput>)
    ensures r.Ok? <==>
      && Get(challenge.headers, "TIMESTAMP").Some?
      && |challenge.payload| >= 24
      && |RemoveDots(Get(challenge.headers, "TIMESTAMP").value)| >= 16
    ensures Get(challenge.headers, "TIMESTAMP").None? ==> r == Err(KeyError)
    ensures r.Ok? ==>
      var rnd := RemoveDots(Get(challenge.headers, "TIMESTAMP").value);
      && |r.value.iv| == 8 && |r.value.block| == 32
      && r.value.iv == challenge.payload[16..24]
      && r.value.block[..16] == challenge.payload[..16]
      && r.value.block[16..] == rnd[..16]
      && r.value.key == md5(md5(password) + r.value.iv)
  {
    match Get(challenge.headers, "TIMESTAMP")
    case None => Err(KeyError)
    case Some(ts) =>
      var rnd := RemoveDots(ts);
      var payload := challenge.payload;
      if |payload| < 24 then Err(IndexError)
      else
        var iv := payload[16..24];
        var key := md5(md5(password) + iv);
        if |rnd| < 16 then Err(IndexError)
        else Ok(AuthInput(key, iv, payload[..16] + rnd[..16]))
  }

  /** `PalPacket.auth(password, challenge)`: the AUTH answer whose payload is
      the Salsa20 (20 rounds) encryption of the layout above. */
  function Auth(password: string, challenge: Packet, md5: string -> string,
                salsa20: (string, string, string) -> string): (r: Result<Packet>)
    ensures r.Ok? <==> AuthLayout(password, challenge, md5).Ok?
    ensures r.Ok? ==>
      var a := AuthLayout(password, challenge, md5).value;
      && Valid(r.value) && r.value.command == "AUTH" && !r.value.needsMid
      && r.value.payload == salsa20(a.key, a.iv, a.block)
      && GetValueI(r.value.headers, "encryption-type") == Some("1")
      && GetValueI(r.value.headers, "online-status") == Some("1")
  {
    var a :- AuthLayout(password, challenge, md5);
    Ok(Make("AUTH", [("encryption-type", "1"), ("online-status", "1")],
            salsa20(a.key, a.iv, a.block), false))
  }

  /** The layout depends on the challenge only through payload bytes 0..24
      and the dot-free timestamp. */
  lemma {:induction false} AuthLayoutLocal(password: string, c1: Packet, c2: Packet, md5: string -> string)
    requires |c1.payload| >= 24 && |c2.payload| >= 24 && c1.payload[..24] == c2.payload[..24]
    requires Get(c1.headers, "TIMESTAMP").Some? && Get(c2.headers, "TIMESTAMP").Some?
    requires RemoveDots(Get(c1.headers, "TIMESTAMP").value) == RemoveDots(Get(c2.headers, "TIMESTAMP").value)
    ensures AuthLayout(password, c1, md5) == AuthLayout(password, c2, md5)
  {
    assert c1.payload[16..24] == c1.payload[..24][16..];
    assert c2.payload[16..24] == c2.payload[..24][16..];
    assert c1.payload[..16] == c1.payload[..24][..16];
    assert c2.payload[..16] == c2.payload[..24][..16];
  }
}
