# Palringo bot engine and Qt audio source, modelled in Dafny

This project models three pieces of a small Python code base.

- **The Palringo protocol engine** (`bots/palringo/palringo.py`) covers:
  - the `PalPacket` unit: a case-insensitive header dict, the `toData` wire form, `parse`, the compressed flag, and the packet builders including the AUTH answer layout of `generatePayload`;
  - the `Mesg` reassembly buffer;
  - the `PalProtocol` connection: the `parseData` frame decoder, `sendPacket` with its `mesg-id` counter, the `sendMesg` fragmenter and its outbox, the ping counter, and the command handlers;
  - the nested profile decoder `parseWeirdData` and the deep merge `recursiveUpdate`.
- **The `PalBot` consumer** (`bots/palringo/bot.py`) covers:
  - the redirect counter and the deep-merged profile;
  - group lookup and removal;
  - the registry of pending responses;
  - `removePuncs`;
  - the owner commands of `onPrivateMesg`: `/groups`, `/j <group>` and `/l <group>`.
- **The byte logic of the Qt audio demo** (`pyqt/qplay.py`) covers:
  - `AudioSource._getChannelData`, which copies one stereo channel to both sides;
  - the read pointer of `readData` and `reset`;
  - the `AudioPlayer` slots `setChannel`, `setVolume`, `setMuted` and `onStateChanged`.

Modelling conventions:

- A Python 2 byte string is a Dafny `string` whose characters stand for bytes.
- Each exception the code can raise on some input becomes a `Fault`. An operation that can raise returns `Result<T>`, which is `Ok(value)` or `Err(fault)`.
- A header dict is a sequence of key/value pairs with distinct keys, iterated in insertion order: a new key goes at the end. Python 2 iterates a dict in hash order, so the order is a modelling choice (see "## Left out"); it matters because the case-insensitive lookups return the first match in iteration order.
- The profile is a tree: `Leaf(text)` or `Node(map)`.
- Where the source iterates a dict whose order matters (`findGroup`, `/groups`), the order is an explicit parameter. The lemmas show what does and does not depend on it.
- Foreign code enters as function-valued parameters: zlib, MD5 and Salsa20. zlib's inflate is partial: it returns `None` where `zlib.decompress` raises `zlib.error`, which becomes the fault `ZlibError`.
- Callbacks into the delegate become `Event` values that a handler returns.
- Qt signals and output-device calls become `Effect` values.

Modules: `Common` (Option, Result, Fault), `Text` (the Python string primitives), `Headers`, `PalPacket`, `Reassembly` (`Mesg`), `Profile` (`recursiveUpdate`), `WeirdData` (`parseWeirdData`), `Protocol` (`PalProtocol`), `Bot` (`PalBot`) and `Audio` (`qplay`).

Where the code and the protocol as usually described differ, the model follows the code:

- Each fragment's `Correlation-Id` is the previous fragment's `Mesg-Id`, not the first fragment's id.
- Every message is sent as at least one fragment. A payload whose length is a multiple of 512, including the empty payload, gets an extra empty last fragment.
- Bytes received beyond a pending packet's `content-length` are cut off and lost. They are not carried over to the next frame.
- A failed parse while idle drops the bytes.
- Fragment ids are header strings, so they sort byte by byte: `"10"` sorts before `"9"`.
- An empty `total-length` header makes the message wait for more fragments, because Python 2 ranks an int below a str.
- A header lookup that ignores case returns the first match in iteration order, so two case variants of one key can shadow each other. Which one wins depends on the dict's hash order in the source and on insertion order in the model.
- `onProtocolDisconnected` replaces the profile wholesale with an empty one.

## Model

| member | source | states |
|---|---|---|
| Text.EqualILower | bots/palringo/palringo.py:69-73 | comparing `key.lower()` with `k.lower()` is exactly equality ignoring ASCII case |
| Text.IndexOf | bots/palringo/palringo.py:132-135 | `data.index(p)` finds a position iff `p` occurs, and it is the first occurrence |
| Text.Split | bots/palringo/palringo.py:137-139 | `s.split(sep)` yields at least one part; joining the parts with `sep` gives `s` back, and no part contains `sep` |
| Text.SplitJoin | bots/palringo/palringo.py:137-139 | splitting on a one-character separator undoes joining parts that do not contain it |
| Text.SplitPair | bots/palringo/palringo.py:139 | a `k: v` line whose halves contain no `": "` splits into exactly `[k, v]` |
| Text.StripLeft | bots/palringo/bot.py:84 | the leading whitespace is removed and nothing else; the rest starts with a non-space |
| Text.StripRight | bots/palringo/bot.py:84 | the trailing whitespace is removed and nothing else; the rest ends with a non-space |
| Text.ParseInt | bots/palringo/palringo.py:416-420 | `int(s)` can succeed only on text that is not blank |
| Text.ParseIntText | bots/palringo/palringo.py:416-420 | `int(s) == n` exactly when `s` is integer text for `n` (`IntText`): whitespace, an optional sign, whitespace, a non-empty run of digits with value `n` (negated after `-`), whitespace |
| Text.ParseIntRejects | bots/palringo/palringo.py:416-420 | `int(s)` raises exactly when `s` is integer text for no value |
| Text.ParseIntSpaced | bots/palringo/palringo.py:420 | whitespace around the text and between the sign and the digits is skipped: `int(' - 5 ') == -5` |
| Text.Decimal | bots/palringo/palringo.py:261 | `'%d' % n` is a non-empty run of digits |
| Text.ParseDecimal | bots/palringo/palringo.py:416 | `int('%d' % n) == n`: a written count reads back as that count |
| Text.DecimalInjective | bots/palringo/bot.py:111 | different counts have different decimal texts, so `str(mesgId)` keys do not collide |
| Text.SliceTo | bots/palringo/palringo.py:428 | `s[:n]` is a prefix of `s`; it has length `n` when `n` is in range, and is all of `s` beyond the end |
| Text.SliceFrom | bots/palringo/palringo.py:518 | `s[n:]` is a suffix of `s`; it is `s` from `n` when `n` is in range |
| Text.StrLessTotal | bots/palringo/palringo.py:312 | Python 2 `<` on byte strings orders any two distinct strings one way and is irreflexive |
| Text.StrLessTransitive | bots/palringo/palringo.py:312 | that order is transitive, so `sorted` is well defined |
| Headers.Put | bots/palringo/palringo.py:86 | `headers[key] = value` keeps the keys distinct, makes `key` map to `value`, and leaves every other key's value alone; an existing key is overwritten in place, a new one is appended (insertion order, where Python 2 uses hash order) |
| Headers.FindI | bots/palringo/palringo.py:81-85 | the position found is the first key equal to the query ignoring case, and none is found iff no key matches |
| Headers.HasKeyI | bots/palringo/palringo.py:69-73 | true iff some key equals the query ignoring case |
| Headers.GetValueI | bots/palringo/palringo.py:88-92 | yields a value iff `hasKeyI` holds, and it is the value of the first key, in iteration order, that matches ignoring case |
| Headers.HasValueI | bots/palringo/palringo.py:75-79 | true iff `getValueI(key)` is exactly `value` |
| Headers.SetValueI | bots/palringo/palringo.py:81-86 | afterwards every case variant of the key reads `value`; an existing case variant is overwritten under its own spelling with no new key; otherwise the pair is appended; all other headers are unchanged |
| Headers.SetValueIOthers | bots/palringo/palringo.py:81-86 | `setValueI(k, v)` changes neither `getValueI` nor `hasKeyI` for any key that differs from `k` ignoring case |
| Headers.SetValueIFrame | bots/palringo/palringo.py:81-86 | after setting a key, reading it back gives the new value, and every key that differs from it case-insensitively reads as before |
| Headers.GetValueIIgnoresCase | bots/palringo/palringo.py:88-92 | two queries equal ignoring case give the same `getValueI` and `hasKeyI` answers |
| Headers.LookupAppend | bots/palringo/palringo.py:86 | appending a header under another name does not change a lookup |
| PalPacket.Compress | bots/palringo/palringo.py:118-121 | `compress` sets the flag, keeps command and headers, and does nothing to a packet that is already compressed |
| PalPacket.Decompress | bots/palringo/palringo.py:123-126 | `decompress` does nothing to a packet that is not compressed; on a compressed one it succeeds iff zlib inflates the payload, giving the inflated payload with the flag cleared and command and headers kept, and otherwise raises `zlib.error` |
| PalPacket.CompressRoundTrip | bots/palringo/palringo.py:118-126 | when zlib's inflate undoes deflate, decompressing a freshly compressed packet succeeds and gives the packet back |
| PalPacket.CompressIdempotent | bots/palringo/palringo.py:118-121 | compressing twice is compressing once |
| PalPacket.EmittedHeaders | bots/palringo/palringo.py:106-107 | exactly the headers with a non-empty key and value that are not `compression` or `content-length` in any case are written; when all qualify, all are written |
| PalPacket.ToDataLines | bots/palringo/palringo.py:100-107 | the command line comes first and every later line is a `key: value` line; every header with a non-empty key and value other than `compression` and `content-length` is written; a payload puts `content-length: <len>` right after the command, and without one every line after the command is a copied header |
| PalPacket.ToData | bots/palringo/palringo.py:100-110 | the lines are joined with LF, followed by an empty line and the raw payload |
| PalPacket.Delimit | bots/palringo/palringo.py:131-136 | the first CRLF-CRLF wins over any LF-LF; with neither, there is no packet |
| PalPacket.SplitHeaderLines | bots/palringo/palringo.py:139 | succeeds iff every header line splits on `": "` into exactly two parts, giving those parts |
| PalPacket.DictOf | bots/palringo/palringo.py:139 | `dict(pairs)` has distinct keys, each key reads the value of the last pair that carries it, and a key no pair carries is absent |
| PalPacket.DictOfDistinct | bots/palringo/palringo.py:139 | `dict` of pairs with distinct keys keeps every pair in order |
| PalPacket.Parse | bots/palringo/palringo.py:129-150 | no packet iff there is no delimiter or some header line does not split on `": "` into exactly two parts (the ValueError of `dict`); a parsed packet's headers are the `dict` of those pairs, it needs no mesg-id, its command is the first header-block line, its payload is everything after the delimiter, and it is compressed iff `compression` is `1` |
| PalPacket.ParseToData | bots/palringo/palringo.py:100-150 | `parse(toData(p))` gives back the command and headers of a payload-free packet whose header keys and values are non-empty and free of line breaks and `": "` |
| PalPacket.LogonHeadersLookup | bots/palringo/palringo.py:153-168 | the logon headers are a dict with `name` = the e-mail, and carry `redirect-count` = `str(n)` iff `n > 0` |
| PalPacket.Logon | bots/palringo/palringo.py:153-170 | a LOGON packet without payload or mesg-id, carrying the e-mail, and a redirect count exactly when it is positive |
| PalPacket.Ping | bots/palringo/palringo.py:258-262 | a P packet whose `ps` header is the decimal ping number |
| PalPacket.GroupJoin | bots/palringo/palringo.py:239-246 | a GROUP SUBSCRIBE packet that needs a mesg-id, with the password as its payload and exactly the headers `name` (the group) and `last: 1` |
| PalPacket.GroupLeave | bots/palringo/palringo.py:249-255 | a GROUP UNSUB packet that needs a mesg-id, with no payload and exactly the headers `group-id` (the group) and `last: 1` |
| PalPacket.MessageHeadersLookup | bots/palringo/palringo.py:180-192 | the message headers map `Content-Type`, `Target-Id` and `Mesg-Target` to the arguments, carry `Correlation-Id` iff one is given, carry `Last` iff `last`, and have no `Mesg-Id` |
| PalPacket.Message | bots/palringo/palringo.py:180-195 | a MESG packet with the given payload, whose content type falls back to `text/plain` when the mime is missing or empty |
| PalPacket.RemoveDots | bots/palringo/palringo.py:267 | `replace('.', '')` leaves no dot, never lengthens, and leaves a dot-free string alone |
| PalPacket.AuthLayout | bots/palringo/palringo.py:265-296 | IV is payload[16:24], the block is payload[:16] followed by the first 16 bytes of the dot-free TIMESTAMP, and the key is md5(md5(password) + IV); it fails iff TIMESTAMP is missing (KeyError) or either input is short |
| PalPacket.Auth | bots/palringo/palringo.py:173-177 | the AUTH answer's payload is Salsa20 of that layout, with `encryption-type` and `online-status` both `1` |
| PalPacket.AuthLayoutLocal | bots/palringo/palringo.py:265-281 | the answer depends on the challenge only through its first 24 payload bytes and its dot-free timestamp |
| Reassembly.KeyLessOrder | bots/palringo/palringo.py:312 | the order `sorted` uses on chunk ids (None first, then strings byte by byte) is a strict total order |
| Reassembly.NewMesg | bots/palringo/palringo.py:301-304 | a new message holds exactly its first chunk and no group |
| Reassembly.AddChunk | bots/palringo/palringo.py:306-307 | `chunks[mesgId] = (cid, text)` keeps ids distinct, stores the chunk, replaces any chunk with the same id and leaves the others; a new id is appended |
| Reassembly.MinIndex | bots/palringo/palringo.py:312 | the chunk chosen first has the least id of all |
| Reassembly.TextAscending | bots/palringo/palringo.py:309-319 | when the chunks are held in ascending id order, `text()` is their texts concatenated in that order |
| Reassembly.MesgText | bots/palringo/palringo.py:309-319 | `text()` of a message whose chunks ascend is their concatenation |
| Reassembly.ThreeFragments | bots/palringo/palringo.py:309-319 | three fragments whose ids ascend read back as their texts in id order |
| Reassembly.LexicographicIds | bots/palringo/palringo.py:312 | ids sort as strings: whatever the texts, the chunk with id `10` comes before the one with id `9` |
| Reassembly.TextPermutation | bots/palringo/palringo.py:309-319 | any two storage orders of the same chunks (same multiset, distinct keys) give the same text: the result does not depend on dict order |
| Reassembly.TextPermutation2 | bots/palringo/palringo.py:309-319 | the special case of two chunks: swapping them leaves the text unchanged |
| Profile.RecursiveUpdate | bots/palringo/palringo.py:595-600 | the keys are the union of both maps; keys only in m1 keep their value; where both values are dicts they merge recursively; every other key of m2 takes m2's value |
| Profile.UpdateEmpty | bots/palringo/palringo.py:595-600 | merging an empty dict, or merging into one, changes nothing |
| Profile.UpdateSelf | bots/palringo/palringo.py:595-600 | merging a dict into itself changes nothing |
| Profile.UpdateIdempotent | bots/palringo/palringo.py:595-600 | applying the same update twice is applying it once |
| Profile.UpdateKeeps | bots/palringo/palringo.py:595-600 | a key the update does not mention keeps its value |
| Profile.UpdateExample | bots/palringo/palringo.py:595-600 | text is replaced, a new key is added and nested dicts merge key by key |
| Profile.MergeValue | bots/palringo/palringo.py:547-548 | `recursiveUpdate(kv[key], res)`: dict into dict merges; text as the update raises AttributeError; a non-empty dict into text raises TypeError, and an empty one is a no-op |
| Profile.Insert | bots/palringo/palringo.py:547-550 | a new key is stored, and a repeated key is merged and fails exactly when the merge does |
| WeirdData.Entries | bots/palringo/palringo.py:531-553 | the outer loop: without a budget the result is a dict; a text result is NUL-free and exactly as long as the budget; a dict result keeps every key read before; the only errors are `struct.error` and the two merge errors |
| WeirdData.KeyBytes | bots/palringo/palringo.py:536-552 | the inner loop, with the same guarantees (text is NUL-free when the key gathered so far is) |
| WeirdData.ParseWeirdData | bots/palringo/palringo.py:531-553 | a top-level decode that succeeds is a dict; it fails only with `struct.error` or a merge error; data without any NUL decodes to an empty dict |
| WeirdData.NulFreeTail | bots/palringo/palringo.py:536-538 | with no budget, NUL-free bytes up to the end of the data are dropped and the dict read so far is returned |
| WeirdData.EmptyInput | bots/palringo/palringo.py:537-538 | empty data decodes to an empty dict |
| WeirdData.ZeroBudget | bots/palringo/palringo.py:535 | a zero budget reads nothing and gives an empty dict |
| WeirdData.ReadText | bots/palringo/palringo.py:536-543 | NUL-free bytes that fill the budget are returned as text |
| WeirdData.ReadKey | bots/palringo/palringo.py:536-543 | NUL-free key bytes within the budget are gathered one by one |
| WeirdData.TruncatedLength | bots/palringo/palringo.py:544 | a key that ends in NUL with no length bytes after it raises `struct.error` |
| WeirdData.U16Bytes | bots/palringo/palringo.py:544 | the big-endian `!H` bytes of n read back as n |
| WeirdData.AtNul | bots/palringo/palringo.py:544-552 | at a NUL the loop reads the length, decodes that many bytes, files the value under the key, and continues after it |
| WeirdData.EntryStep | bots/palringo/palringo.py:536-552 | one well-formed encoded entry is read whole and filed under its key |
| WeirdData.DecodeValue | bots/palringo/palringo.py:546 | an encoded value decodes with its length as the budget to the value it encodes |
| WeirdData.DecodeEntries | bots/palringo/palringo.py:534-553 | a run of encoded entries with fresh keys extends the dict by exactly those entries |
| WeirdData.ParseEncoded | bots/palringo/palringo.py:531-553 | round trip: decoding the encoding of well-formed entries with distinct keys gives their dict |
| WeirdData.AtEnd | bots/palringo/palringo.py:537-538 | running out of input returns the dict read so far |
| WeirdData.RepeatedKeyMerges | bots/palringo/palringo.py:547-548 | a key sent twice with dict values holds the `recursiveUpdate` of the two |
| WeirdData.InsertTwice | bots/palringo/palringo.py:547-548 | filing a dict under a key that already holds a dict merges the two |
| WeirdData.RepeatedTextFails | bots/palringo/palringo.py:547-548 | a key sent twice with text values raises AttributeError |
| Protocol.New | bots/palringo/palringo.py:333-349 | a new connection has nothing pending, no message in flight, an empty outbox and nothing sent; the ping count 0 and the mesg-id counter 1 are the values `connectionMade` (palringo.py:355-356) assigns, since `__init__` leaves them unset |
| Protocol.Stamp | bots/palringo/palringo.py:383 | `setValueI('mesg-id', id)` gives `mesg-id` = `str(id)` and changes no other header |
| Protocol.SendPacket | bots/palringo/palringo.py:379-388 | exactly one packet is written; iff the packet needs a mesg-id it is stamped with the counter, the counter advances and that id is returned; otherwise the packet is written as it is, the counter stays and None is returned |
| Protocol.SendPacketFreshIds | bots/palringo/palringo.py:379-388 | two packets that both need ids get consecutive, distinct ids |
| Protocol.SendFromOutbox | bots/palringo/palringo.py:362-365 | sends and removes exactly the head of a non-empty outbox, and does nothing on an empty one |
| Protocol.Ticks | bots/palringo/palringo.py:359-365 | n timer ticks keep the connection invariant |
| Protocol.DrainOutbox | bots/palringo/palringo.py:362-365 | n ticks send the first n queued packets in FIFO order and leave the rest |
| Protocol.ConnectionMade | bots/palringo/palringo.py:351-358 | sends a logon with the delegate's redirect count (0 without a delegate), resets pings to 0 and the mesg-id counter to 1, and notifies the delegate |
| Protocol.DoPing | bots/palringo/palringo.py:509-511 | answers with `ps` = the current count and then increments it |
| Protocol.PingsCount | bots/palringo/palringo.py:509-511 | two pings are answered with consecutive counts |
| Protocol.FragmentEnd | bots/palringo/palringo.py:395 | a slice never ends past the payload |
| Protocol.FragmentBounds | bots/palringo/palringo.py:394-398 | slices are at most 512 bytes and adjacent, and the loop stops exactly when the next offset passes the payload's end |
| Protocol.Fragment | bots/palringo/palringo.py:395-408 | fragment k carries payload[512k : 512k+512], `Mesg-Id` = first + k, `Correlation-Id` = the previous fragment's id (none for the first), and `Last` iff it is the final fragment |
| Protocol.Fragments | bots/palringo/palringo.py:394-408 | ⌊n/512⌋ + 1 fragments for an n-byte payload |
| Protocol.FragmentsIndex | bots/palringo/palringo.py:394-408 | the k-th queued fragment is fragment k as described above |
| Protocol.FragmentsJoin | bots/palringo/palringo.py:395 | the fragments' payloads put back together are the payload |
| Protocol.LastFragmentId | bots/palringo/palringo.py:405-409 | the final fragment carries `Last` and the id `sendMesg` returns |
| Protocol.QueueFragments | bots/palringo/palringo.py:394-408 | the loop queues exactly the fragment count, in order, behind what the outbox held |
| Protocol.SendMesg | bots/palringo/palringo.py:390-409 | the outbox grows by the fragments, the counter advances by their number, and the returned id is the last fragment's |
| Protocol.Int | bots/palringo/palringo.py:420 | `int(l)` succeeds exactly when `l` is integer text (`IntText`), with the value it spells, and raises ValueError otherwise |
| Protocol.ParseData | bots/palringo/palringo.py:411-433 | idle: unparsable bytes are dropped; a packet with no `content-length`, or with one equal to its payload length, is emitted; otherwise it is held with its length and nothing is emitted, and a non-integer length raises ValueError. Holding: the read is appended to the held payload; once it reaches the held length the packet is emitted with the same command, headers and flags and its payload cut to `payload[:clen]`, and the decoder is idle again; otherwise nothing is emitted and the held packet keeps the longer payload |
| Protocol.SplitFrame | bots/palringo/palringo.py:411-433 | a frame cut in two, whose `content-length` is any text `int()` reads as a length between the two reads' sizes, is held after the first read, and after the second it is emitted with exactly that many bytes; the excess is cut off |
| Protocol.SplitRead | bots/palringo/palringo.py:424-433 | while a packet is held, two short reads act like one read of both |
| Protocol.Start | bots/palringo/palringo.py:483-495 | a new `Mesg` takes sender, name (`nick` when a total length is given), first chunk and content type from the packet |
| Protocol.Route | bots/palringo/palringo.py:501-507 | a finished message goes to `onGroupMesg` with the target as group iff `target-id` is present and differs from `source-id`, else to `onPrivateMesg` unchanged |
| Protocol.Reassemble | bots/palringo/palringo.py:466-500 | a packet either leaves a message in flight or finishes one, never both; without a total length it finishes the in-flight message iff it says `last`; a total length finishes iff the payload already reaches it; an empty total length always waits |
| Protocol.Calls | bots/palringo/palringo.py:465-507 | `onMesg` is always called, followed by the routing call when a message was finished |
| Protocol.DoMesg | bots/palringo/palringo.py:462-507 | without a delegate nothing happens; otherwise only the in-flight slot changes, following the reassembly step above |
| Protocol.ReassembleAll | bots/palringo/palringo.py:462-500 | a run of MESG packets keeps the in-flight message valid |
| Protocol.ContinueOne | bots/palringo/palringo.py:472-481 | a continuation packet is added as a chunk, and the message is finished iff it says `last` |
| Protocol.Finish | bots/palringo/palringo.py:472-481 | continuations ending with `last` finish the in-flight message with every chunk and clear the slot |
| Protocol.ServerMessage | bots/palringo/palringo.py:462-500 | a first packet short of its total length followed by continuations ending in `last` gives exactly one message holding every piece; with ascending ids its text is the payloads in order |
| Protocol.AssembledText | bots/palringo/palringo.py:309-319 | with ascending ids, the assembled text is the first payload followed by the rest |
| Protocol.SinglePacket | bots/palringo/palringo.py:482-488 | a lone packet without total length is finished at once, with its payload as text and its length as total length |
| Protocol.BlankLengthWaits | bots/palringo/palringo.py:466-497 | a message with an empty total length never finishes on continuations without `last`; only a new message can replace it |
| Protocol.StaysInFlight | bots/palringo/palringo.py:472-481 | continuations without `last` only add chunks |
| Protocol.DoAuth | bots/palringo/palringo.py:439-442 | succeeds iff the challenge has the needed fields; then it sends the AUTH answer, whose payload is Salsa20 over the `generatePayload` layout, and notifies the delegate |
| Protocol.DoBalanceQueryResult | bots/palringo/palringo.py:444-448 | a compressed payload that zlib cannot inflate raises `zlib.error`, delegate or not; otherwise the connection is unchanged and the delegate receives the packet decompressed, with the same command and headers |
| Protocol.DoGroupAdmin | bots/palringo/palringo.py:450-452 | only passes the packet to the delegate |
| Protocol.DoLogonFailed | bots/palringo/palringo.py:454-460 | the next host becomes the payload iff `reason` is `32`; otherwise it is unchanged; the delegate is told |
| Protocol.DoResponse | bots/palringo/palringo.py:524-529 | the delegate receives `type`, `what` and `mesg-id` as read from the headers |
| Protocol.SubProfileData | bots/palringo/palringo.py:513-518 | a payload that does not inflate raises `zlib.error`; otherwise the decompressed payload, cut at the `iv` offset when present; the result is always a suffix, and an `iv` that is not integer text raises ValueError |
| Protocol.DoSubProfile | bots/palringo/palringo.py:513-522 | succeeds iff the payload inflates and the data can be cut and decoded; the delegate receives the headers and the decoded dict |
| Protocol.SubProfileRoundTrip | bots/palringo/palringo.py:513-555 | a SUB PROFILE whose `iv` skips a prefix and whose remainder encodes some entries gives the delegate exactly their dict |
| Protocol.ParsePacket | bots/palringo/palringo.py:435-437 | known commands go to their handlers and unknown ones are ignored; only AUTH, BALANCE QUERY RESULT and SUB PROFILE can raise |
| Protocol.DataReceived | bots/palringo/palringo.py:372-377 | a packet emitted by `parseData` is dispatched; otherwise only the decoder state changes; a `content-length` that is not integer text raises ValueError |
| Protocol.PingFrame | bots/palringo/palringo.py:372-377 | receiving the wire form of a bare P packet answers the ping |
| Bot.New | bots/palringo/bot.py:16-22 | a new bot has an empty profile, no pending responses, redirect count 0 and no user id |
| Bot.OnProtocolDisconnected | bots/palringo/bot.py:27-28 | the profile is emptied and nothing else changes |
| Bot.OnLogonFailed | bots/palringo/bot.py:30-32 | the redirect count goes up by exactly one iff `reason` is `32` (any key case), and otherwise stays |
| Bot.RedirectCount | bots/palringo/bot.py:34-35 | reports the counter |
| Bot.RedirectFollowed | bots/palringo/bot.py:30-35 | a redirect moves the host to the payload, counts once, and the next logon carries the new count; any other failure changes neither host nor bot |
| Bot.OnSubProfile | bots/palringo/bot.py:43-48 | the profile becomes `recursiveUpdate(profile, kvMap)`: unrelated keys survive, a value that is not dict-over-dict replaces the old one, and dict-over-dict is merged recursively; `userId` follows `Sub-Id` when present and is otherwise unchanged; nothing else changes; a text update raises AttributeError |
| Bot.SubProfileIdempotent | bots/palringo/bot.py:43-48 | delivering the same profile update twice is delivering it once |
| Bot.SubProfileAfterDisconnect | bots/palringo/bot.py:27-48 | after a disconnect the profile is exactly the next update |
| Bot.NameOf | bots/palringo/bot.py:59 | `data['name']` succeeds iff the entry is a dict with a `name` key |
| Bot.Scan | bots/palringo/bot.py:59-62 | the comprehension raises iff some entry has no name; otherwise it returns the first entry, in dict order, whose name is the query, or nothing if none is |
| Bot.FindGroup | bots/palringo/bot.py:57-63 | no `group_sub`: `(None, None)`; text: AttributeError; a dict: raises iff some entry has no name, otherwise a found pair has the queried name and a real gid, and nothing is found iff no entry has that name |
| Bot.FindGroupOrderFree | bots/palringo/bot.py:57-63 | when group names are distinct, the answer does not depend on dict order |
| Bot.FindGroupName | bots/palringo/bot.py:65-71 | finds the entry keyed by the gid, with its name, and nothing when the gid is absent |
| Bot.FindGroupThenName | bots/palringo/bot.py:57-71 | looking up the gid that `findGroup` returned gives the same pair |
| Bot.RemoveGroup | bots/palringo/bot.py:73-78 | deletes only `gid` from the `group_sub` dict and keeps every other key; a no-op without `group_sub`; text containing the gid raises AttributeError |
| Bot.RemovedGroupGone | bots/palringo/bot.py:57-78 | after removal neither lookup finds the gid |
| Bot.OnResponse | bots/palringo/bot.py:136-141 | only `type 0, what 4` for a registered id runs the registered removal and drops the id; anything else leaves the bot unchanged |
| Bot.UnsubscribeConfirmed | bots/palringo/bot.py:136-141 | the confirmation removes the group and the registration, and a repeat has no effect |
| Bot.Keep | bots/palringo/bot.py:53-55 | removing characters never lengthens the text |
| Bot.KeepSpec | bots/palringo/bot.py:53-55 | no punctuation character remains, and every other character keeps its count |
| Bot.RemovePuncs | bots/palringo/bot.py:53-55 | raises a regex error iff the set is empty; otherwise removes exactly the set's characters and keeps every other character's count |
| Bot.KeepAppend | bots/palringo/bot.py:53-55 | removal works piecewise, so the remaining characters keep their order |
| Bot.KeepClean | bots/palringo/bot.py:53-55 | text without punctuation is left alone |
| Bot.RemovePuncsIdempotent | bots/palringo/bot.py:53-55 | removing twice is removing once |
| Bot.RemovePuncsExample | bots/palringo/bot.py:53-55 | filtering `(ok)!` through the default punctuation set keeps only `ok`, in order |
| Bot.MatchAt | bots/palringo/bot.py:95 | a match of `/([a-zA-Z]+)\s+(.+)` found at a position is a real match there |
| Bot.MatchAtComplete | bots/palringo/bot.py:95 | no match is reported at a position iff the pattern has no match there |
| Bot.MatchAtGreedy | bots/palringo/bot.py:95 | the letters run as far as they can, the spaces take at most what the greedy engine gives them, and `.+` runs to the end of the line |
| Bot.FindFrom | bots/palringo/bot.py:95-97 | the match `findall` lists first is at the leftmost position that matches |
| Bot.FindCommand | bots/palringo/bot.py:95-97 | the command is non-empty letters and the data is a non-empty line |
| Bot.FindCommandNone | bots/palringo/bot.py:95-96 | `findall` is empty iff the pattern matches nowhere |
| Bot.CommandRoundTrip | bots/palringo/bot.py:95-97 | `/cmd data`, with letters for `cmd` and data that starts with a non-space on a single line, reads back as `(cmd, data)` |
| Bot.Classify | bots/palringo/bot.py:85-116 | a message is not a command iff it is not `/groups` in any case and the pattern finds nothing; join and leave name a non-empty group |
| Bot.ClassifyCommand | bots/palringo/bot.py:95-114 | `/j` and `/l` (any case) ask to join or leave the group named; any other command word is unknown |
| Bot.ClassifyExamples | bots/palringo/bot.py:85-116 | `/GROUPS` lists the groups; plain text is not a command |
| Bot.Lines | bots/palringo/bot.py:87-88 | one `name - gid` line per group |
| Bot.GroupLines | bots/palringo/bot.py:87-88 | the comprehension succeeds iff every group has a name, and otherwise raises the fault of one that has not |
| Bot.Listing | bots/palringo/bot.py:85-93 | text `group_sub` raises AttributeError; a dict raises iff some group has no name; the reply is never empty |
| Bot.ListingEmpty | bots/palringo/bot.py:86-92 | no groups, or no `group_sub`, give `Not subscribed to any group.` |
| Bot.ListingLines | bots/palringo/bot.py:86-88 | with groups, the reply is their lines sorted and joined with LF |
| Bot.ListingNode | bots/palringo/bot.py:86-92 | with a `group_sub` dict, the reply is the sorted lines, or the fallback text when there are none |
| Bot.ListingOrderFree | bots/palringo/bot.py:86-92 | whether the listing succeeds, and what it says when it does, do not depend on dict order |
| Bot.InsertSorted | bots/palringo/bot.py:87 | inserting into a sorted list keeps it sorted and adds exactly the element |
| Bot.Sort | bots/palringo/bot.py:87 | `sorted` returns a sorted permutation of its input |
| Bot.SortedUnique | bots/palringo/bot.py:87 | two sorted lists with the same elements are equal, so `sorted` has one answer |
| Bot.LinesPermutation | bots/palringo/bot.py:87-88 | any two dict orders give the same lines up to order |
| Bot.Private | bots/palringo/bot.py:143-147 | `sendPrivate` queues fragments and uses up message ids, and touches nothing else |
| Bot.SendPrivate | bots/palringo/bot.py:143-147 | `sendMesg('0', to, text)` on the bot's connection |
| Bot.OnPrivateMesg | bots/palringo/bot.py:80-116 | non-owner or not a command: False, nothing sent. `/groups` sends the listing. `/j`: "Already subscribed" when found with a name and gid, else "Joining" plus a GROUP SUBSCRIBE. `/l`: for a subscribed group, "Leaving" plus a GROUP UNSUB whose id registers the removal; else "Not subscribed". Lookup faults propagate |
| Bot.LeaveStamped | bots/palringo/bot.py:110-111 | the GROUP UNSUB carries the gid and the mesg-id under which the removal is registered |
| Bot.LeaveConfirmed | bots/palringo/bot.py:111-141 | the server's confirmation of that mesg-id removes the group and clears the registration |
| Audio.Unpack16 | pyqt/qplay.py:56 | `struct.unpack('<h')` gives the 16-bit two's complement value of the two bytes |
| Audio.Pack16 | pyqt/qplay.py:57 | `struct.pack('<h')` gives two bytes whose little-endian value is v mod 2^16 |
| Audio.PackUnpack | pyqt/qplay.py:56-57 | packing an unpacked sample gives back its bytes |
| Audio.UnpackPack | pyqt/qplay.py:56-57 | unpacking a packed sample gives back its value |
| Audio.Stride | pyqt/qplay.py:52 | `data[o::4]` has ⌈(n - o)/4⌉ bytes |
| Audio.Zeros | pyqt/qplay.py:53 | `bytearray(n)` is `n` zero bytes |
| Audio.AssignStep2 | pyqt/qplay.py:54-55 | `b[start::2] = v`: an empty `v` deletes the selected bytes and keeps the others in order; a `v` as long as the slice replaces them in order; any other length raises ValueError |
| Audio.FillInterleave | pyqt/qplay.py:53-55 | with strides of the slice lengths, the two assignments into `bytearray(n)` succeed and give the evens and odds interleaved, empty strides included |
| Audio.Interleave | pyqt/qplay.py:53-55 | filling even and odd slots gives a buffer of the requested length |
| Audio.Shorts | pyqt/qplay.py:56 | one 16-bit sample per byte pair, each in range |
| Audio.Doubled | pyqt/qplay.py:57 | `chain(*zip(s, s))` doubles the length |
| Audio.PackAll | pyqt/qplay.py:57 | two bytes per sample |
| Audio.Repack | pyqt/qplay.py:56-57 | `struct.error` exactly on an odd buffer; otherwise twice as many bytes, each sample written twice |
| Audio.ChannelData | pyqt/qplay.py:50-57 | a result is whole 4-byte frames, at most twice as long as the input; the only faults are ValueError and `struct.error` |
| Audio.ChannelDataDefined | pyqt/qplay.py:50-57 | succeeds iff the length is whole frames, or for the right channel one stray byte more or a lone 2-byte piece, which gives `b''`; otherwise ValueError, except StructError for a right-channel read three bytes past a frame |
| Audio.ChannelDataIs | pyqt/qplay.py:50-57 | on whole frames the result is the interleaved strides unpacked, each value doubled, and packed again |
| Audio.ChannelFrames | pyqt/qplay.py:50-57 | the output covers the whole frames, and each 4-byte frame becomes the chosen channel's 2-byte sample written twice |
| Audio.ChannelIdempotent | pyqt/qplay.py:50-57 | extracting either channel again from an extracted buffer changes nothing |
| Audio.ReadData | pyqt/qplay.py:80-102 | at the end: signals and returns empty, unchanged. Otherwise it moves the pointer by min(size, rest) and returns that slice: whole for stereo, one channel for 1 and 2 (raising after the move), None for other channels. The pointer never passes the end |
| Audio.Pick | pyqt/qplay.py:60-65 | `getLeft` / `getRight` as `readData` returns them: succeeds exactly when the channel extraction does, with its bytes, and passes its fault on |
| Audio.RightPairRead | pyqt/qplay.py:80-103 | a right-channel read of a 2-byte buffer moves the pointer to the end and returns `b''` |
| Audio.Reset | pyqt/qplay.py:106-107 | the pointer goes back to 0 and nothing else changes |
| Audio.SetSourceChannel | pyqt/qplay.py:110-111 | only the channel changes |
| Audio.DrainIsRest | pyqt/qplay.py:80-97 | stereo reads from a position until the end concatenate to the rest of the data |
| Audio.ReplayAfterReset | pyqt/qplay.py:80-106 | after `reset`, stereo reads until the end give the whole data |
| Audio.Reads | pyqt/qplay.py:80-97 | any sequence of stereo reads returns exactly the bytes between the old and new pointer |
| Audio.NewPlayer | pyqt/qplay.py:133-160 | a new player is stopped, unmuted, at volume 100, reading stereo from position 0 |
| Audio.SetChannel | pyqt/qplay.py:219-222 | Mono is forwarded to the source as Stereo and any other value passes through unchanged; the signal carries the requested value |
| Audio.SetVolume | pyqt/qplay.py:232-239 | the volume is clamped to [0, 100] and the player is always left unmuted; the output gets volume/100; `mutedChanged(False)` follows only if it was muted |
| Audio.SetMutedAsWritten | pyqt/qplay.py:225-229 | as written: only the flag changes, and the output gets 0 or the raw 0-100 volume |
| Audio.SetMuted | pyqt/qplay.py:225-229 | corrected: only the flag changes, and the output gets 0 or volume/100 |
| Audio.UnmuteLevelAsWritten | pyqt/qplay.py:225-239 | after `setVolume(50)` (output 0.5), mute then unmute sets the output to 50.0, outside [0, 1] |
| Audio.UnmuteRestoresLevel | pyqt/qplay.py:225-239 | with the correction, mute then unmute restores the player and the output level `setVolume` set, and every level is in [0, 1] |
| Audio.MuteKeepsVolume | pyqt/qplay.py:225-229 | muting never changes the stored volume, and unmuting restores the player |
| Audio.SetVolumeIdempotent | pyqt/qplay.py:232-239 | setting the same volume again changes nothing |
| Audio.OnStateChanged | pyqt/qplay.py:168-190 | the device state maps to Playing, Paused or Stopped; the player changes and signals only when the mapped state differs; entering Stopped also rewinds the source; Idle stops the output iff no data is left |
| Audio.StateChangeOnce | pyqt/qplay.py:168-186 | a repeated device state changes nothing |
| Audio.Pull | pyqt/qplay.py:80-85 | the device pulling data moves the source and latches `noDataLeft` when the source signals it |
| Audio.SlotsKeepValid | pyqt/qplay.py:80-239 | every slot keeps the volume in [0, 100] and the pointer within the data |
| Audio.MonoIsStereo | pyqt/qplay.py:219-222 | after choosing Mono, reads are exactly the stereo reads |
| Audio.NoDataLeftSticky | pyqt/qplay.py:143-147 | once set, `noDataLeft` is never cleared |

## Left out

- Twisted plumbing is not modelled: the reactor, transport writes, the one-second `LoopingCall` as a timer, `connectionLost`, `PalClientFactory` reconnection and back-off, and `palConnect`. The timer is modelled as explicit ticks (`Protocol.Ticks`), and the factory's host as a field of the connection.
- zlib, MD5 and Salsa20 are foreign libraries. They are function-valued parameters, so only the byte layout around them is proved. MD5 and Salsa20 are taken to be total; zlib's inflate may fail, and that failure is modelled.
- `autoDecompress` is fixed to False. The factory never sets it, and `parse(decompress=True)` calls a method that does not exist.
- Diagnostics are not modelled: debug prints, `__str__`, and the warning prints in `Mesg.text`, which do not change the result. The first chunk's correlation marker `-1` only feeds those warnings and is modelled as None.
- The bot's `onGroupAdmin`, `onGroupMesg`, `contacts` and `sendToGroup` are not part of this model. Neither are the other bots and scripts of the repository.
- The bot is assumed to be connected when it answers an owner command, because `self.protocol` is set by `onProtocolConnected`.
- The owner `None` is written as the empty string when a private message is addressed to it.
- Python renders a dict that appears as a group name in the `/groups` listing with `%s`. That rendering is the `showDict` parameter.
- The iteration order of the bot's profile dicts (`findGroup`, the `/groups` listing) is a parameter (`order`) wherever the result can depend on it.
- Header dicts are iterated in insertion order, not in Python 2's hash order. This fixes the order of `toData`'s header lines and, when a frame carries two case variants of one key (say `Content-Length` and `content-length`), which one `getValueI`, `hasValueI` and `setValueI` find first; in the source both follow the hash order of the keys.
- Characters stand for bytes. Code points of 256 or more are not excluded by the types, and nothing depends on them.
- The Qt side is not modelled: audioread decoding in `open`, `QAudioFormat`/`QAudioOutput` setup, signal delivery, `duration`, `play` and `pause`. Slots return their signals and output calls as effects.
- The float passed to `QAudioOutput.setVolume` is a Dafny `real`.
- Audio.ReadData: `size` is a natural number. A negative `size` from the device is not modelled.
- Audio.Pack16: requires a value in the 16-bit range. The out-of-range `struct.error` cannot arise, because every packed value comes from an unpack.
- Audio.ChannelFrames: stated for the lengths that succeed. The failing lengths are covered by `Audio.ChannelDataDefined`.
- PalPacket.ParseToData: stated for payload-free packets only. The same round trip with a payload needs `content-length` handling from `parseData`, which `Protocol.SplitFrame` covers.
- PalPacket.AuthLayout: names the fault only for a missing `TIMESTAMP` (KeyError). A short payload or timestamp raises IndexError in the body, but the contract only says that the result is an error.
- Bot.FindGroupOrderFree: requires distinct group names. With repeated names the source returns whichever entry dict order puts first.
- Bot.ListingOrderFree: equal results are stated only on success. Which group's missing name raises first depends on dict order, and so does the fault.
- Protocol.ReassembleAll: only keeps the in-flight message valid. Its behaviour is stated by `Protocol.Finish`, `Protocol.ServerMessage`, `Protocol.BlankLengthWaits` and `Protocol.StaysInFlight`.
- Protocol.New: does not model the window between `__init__` and `connectionMade` in which the ping count and mesg-id counter are unset; a connection is created with the values `connectionMade` gives them.
- WeirdData.Entries: its contract states the shape of the result, the keys kept and the possible errors, not the decoded entries. Those are stated by the step lemmas (`AtNul`, `EntryStep`, `DecodeEntries`) and the round trip `WeirdData.ParseEncoded`.
- WeirdData.KeyBytes: as for `Entries`; the bytes it gathers are stated by `ReadKey`, `ReadText` and `NulFreeTail`.
- WeirdData.ParseWeirdData: its contract does not give the decoded dict of arbitrary data. The dict for encoded input is stated by `ParseEncoded`, and a repeated key by `RepeatedKeyMerges` and `RepeatedTextFails`.
- Text.ParseInt: its own contract states only that blank text fails. What it accepts, and the value, is stated in both directions by `Text.ParseIntText` and `Text.ParseIntRejects`.

## Findings

| source | as written | input that shows it | evidently intended | confidence | as-written member | corrected member |
|---|---|---|---|---|---|---|
| pyqt/qplay.py:225-229 | unmuting hands the stored volume (0-100) to `QAudioOutput.setVolume`, while `setVolume` hands it `volume/100` (0.0-1.0) | `setVolume(50)` sets the output to 0.5; `setMuted(True)` then `setMuted(False)` sets it to 50.0 | unmuting restores `volume/100` | not executed | Audio.SetMutedAsWritten (exhibited by Audio.UnmuteLevelAsWritten) | Audio.SetMuted (proved by Audio.UnmuteRestoresLevel) |
