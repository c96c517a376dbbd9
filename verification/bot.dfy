/** `PalBot`: the delegate that sits on top of the engine -- the profile it
    deep-merges from SUB PROFILE packets, the redirect counter it hands to
    the next LOGON, the registry of actions waiting for a server response,
    the group lookups over `profile['group_sub']`, and the owner commands
    it answers in private messages.

    The bot holds no connection of its own: the handlers that send take the
    engine's `Conn` and return the new one. The iteration order of the
    `group_sub` dict, which decides what `findGroup` returns when two groups
    share a name and which malformed entry raises first, is a parameter
    (`order`) that lists the dict's keys.
 */
module Bot {
  import opened Common
  import opened Text
  import opened Headers
  import opened Profile
  import PalPacket
  import Reassembly
  import Protocol

  datatype PalBot = PalBot(
    name: string,
    owner: Option<string>,
    userId: Option<Tree>,
    profile: map<string, Tree>,
    responses: map<string, string>,  // str(mesg-id) -> the gid its `removeGroup` action drops
    redirectCount: nat
  )

  /** `PalBot(name, owner)` */
  function New(name: string, owner: Option<string>): (r: PalBot)
    ensures r.profile == map[] && r.responses == map[] && r.redirectCount == 0 && r.userId.None?
  {
    PalBot(name, owner, None, map[], map[], 0)
  }

  // ---------------------------------------------------------------------------
  // Connection callbacks
  // ---------------------------------------------------------------------------

  /** `onProtocolDisconnected`: forget the profile; everything else stays. */
  function OnProtocolDisconnected(b: PalBot): (r: PalBot)
    ensures r.profile == map[]
    ensures r == b.(profile := r.profile)
  {
    b.(profile := map[])
  }

  /** `onLogonFailed`: count the failures whose reason is a redirect (32). */
  function OnLogonFailed(b: PalBot, p: PalPacket.Packet): (r: PalBot)
    ensures r == b.(redirectCount := r.redirectCount)
    ensures r.redirectCount == b.redirectCount + 1 <==> HasValueI(p.headers, "reason", "32")
    ensures r.redirectCount == b.redirectCount <==> !HasValueI(p.headers, "reason", "32")
  {
    if HasValueI(p.headers, "reason", "32") then b.(redirectCount := b.redirectCount + 1) else b
  }

  /** `redirectCount()` */
  function RedirectCount(b: PalBot): (r: nat)
    ensures r == b.redirectCount
  {
    b.redirectCount
  }

  /** A redirect moves the engine to the host in the payload and bumps the
      bot's counter together, and the LOGON of the next connection carries
      the new count as its `redirect-count`; any other failure changes
      neither. */
  lemma {:induction false} RedirectFollowed(c: Protocol.Conn, b: PalBot, p: PalPacket.Packet)
    requires c.hasDelegate
    ensures var c1 := Protocol.DoLogonFailed(c, p).conn;
      var b1 := OnLogonFailed(b, p);
      var logon := Protocol.ConnectionMade(c1, RedirectCount(b1)).conn.wire[|c.wire|];
      && (c1.host != c.host ==> b1.redirectCount == b.redirectCount + 1)
      && (HasValueI(p.headers, "reason", "32") ==>
            c1.host == Some(p.payload) && b1.redirectCount == b.redirectCount + 1
            && GetValueI(logon.headers, "redirect-count") == Some(Decimal(b.redirectCount + 1)))
      && (!HasValueI(p.headers, "reason", "32") ==> c1.host == c.host && b1 == b)
  {
    var c1 := Protocol.DoLogonFailed(c, p).conn;
    var b1 := OnLogonFailed(b, p);
    var s := Protocol.ConnectionMade(c1, RedirectCount(b1));
    assert s.conn.wire[|c.wire|] == PalPacket.Logon(c.login, b1.redirectCount);
  }

  /** `onSubProfile(headers, kvMap)`: deep-merge the decoded map into the
      profile, then take `userId` from `Sub-Id` when the profile has one.
      A decoded value that is text, not a dict, has no `iteritems`. */
  function OnSubProfile(b: PalBot, headers: Headers, kvMap: Tree): (r: Result<PalBot>)
    ensures r.Err? <==> kvMap.Leaf?
    ensures r.Err? ==> r.fault == AttributeError
    ensures r.Ok? ==> r.value == b.(profile := r.value.profile, userId := r.value.userId)
    ensures r.Ok? ==> r.value.profile.Keys == b.profile.Keys + kvMap.children.Keys
    ensures r.Ok? ==> forall k :: k in b.profile && k !in kvMap.children ==> r.value.profile[k] == b.profile[k]
    ensures r.Ok? ==> r.value.profile == RecursiveUpdate(b.profile, kvMap.children)
    ensures r.Ok? ==> forall k :: k in kvMap.children && !(k in b.profile && b.profile[k].Node? && kvMap.children[k].Node?) ==>
      r.value.profile[k] == kvMap.children[k]
    ensures r.Ok? ==> forall k :: k in b.profile && k in kvMap.children && b.profile[k].Node? && kvMap.children[k].Node? ==>
      r.value.profile[k] == Node(RecursiveUpdate(b.profile[k].children, kvMap.children[k].children))
    ensures r.Ok? && "Sub-Id" in r.value.profile ==> r.value.userId == Some(r.value.profile["Sub-Id"])
    ensures r.Ok? && "Sub-Id" !in r.value.profile ==> r.value.userId == b.userId
  {
    match kvMap
    case Leaf(_) => Err(AttributeError)
    case Node(m) =>
      var profile := RecursiveUpdate(b.profile, m);
      Ok(b.(profile := profile, userId := if "Sub-Id" in profile then Some(profile["Sub-Id"]) else b.userId))
  }

  /** The same SUB PROFILE twice leaves the bot as the first left it. */
  lemma {:induction false} SubProfileIdempotent(b: PalBot, headers: Headers, kvMap: Tree)
    requires kvMap.Node?
    ensures OnSubProfile(b, headers, kvMap).Ok?
    ensures var b1 := OnSubProfile(b, headers, kvMap).value;
      OnSubProfile(b1, headers, kvMap) == Ok(b1)
  {
    UpdateIdempotent(b.profile, kvMap.children);
  }

  /** A profile that arrives after a disconnect is taken as it is. */
  lemma {:induction false} SubProfileAfterDisconnect(b: PalBot, headers: Headers, m: map<string, Tree>)
    ensures OnSubProfile(OnProtocolDisconnected(b), headers, Node(m)).Ok?
    ensures OnSubProfile(OnProtocolDisconnected(b), headers, Node(m)).value.profile == m
  {
    UpdateEmpty(m);
  }

  // ---------------------------------------------------------------------------
  // `profile['group_sub']`
  // ---------------------------------------------------------------------------

  /** `order` lists the keys of `group_sub`, each once, when it is a dict. */
  predicate Enumerates(order: seq<string>, m: map<string, Tree>) {
    && (forall i, j :: 0 <= i < j < |order| ==> order[i] != order[j])
    && (forall k :: k in m ==> k in order)
    && (forall i :: 0 <= i < |order| ==> order[i] in m)
  }

  predicate GroupOrder(profile: map<string, Tree>, order: seq<string>) {
    "group_sub" in profile && profile["group_sub"].Node? ==> Enumerates(order, profile["group_sub"].children)
  }

  /** `data['name']` for one entry of `group_sub`: text has no string keys
      (TypeError), a dict may lack the key (KeyError). */
  function NameOf(data: Tree): (r: Result<Tree>)
    ensures r.Ok? <==> data.Node? && "name" in data.children
  {
    match data
    case Leaf(_) => Err(TypeError)
    case Node(m) => if "name" in m then Ok(m["name"]) else Err(KeyError)
  }

  /** Every entry of `sub` has a name. */
  predicate WellFormed(sub: map<string, Tree>) {
    forall gid :: gid in sub ==> NameOf(sub[gid]).Ok?
  }

  /** The list comprehension of `findGroup` over the keys in `order`: every
      entry's name is compared, so the first malformed entry raises even
      when an earlier one matches; otherwise the first match wins. */
  function Scan(sub: map<string, Tree>, order: seq<string>, group: string): (r: Result<Option<string>>)
    requires forall i :: 0 <= i < |order| ==> order[i] in sub
    ensures r.Err? <==> exists i :: 0 <= i < |order| && NameOf(sub[order[i]]).Err?
    ensures r.Ok? && r.value.Some? ==> r.value.value in order && NameOf(sub[r.value.value]) == Ok(Leaf(group))
    ensures r == Ok(None) <==> forall i :: 0 <= i < |order| ==>
      NameOf(sub[order[i]]).Ok? && NameOf(sub[order[i]]) != Ok(Leaf(group))
    decreases |order|
  {
    if order == [] then Ok(None)
    else
      var name :- NameOf(sub[order[0]]);
      var rest :- Scan(sub, order[1..], group);
      if name == Leaf(group) then Ok(Some(order[0])) else Ok(rest)
  }

  /** `findGroup(group)`: the `(name, gid)` of a subscribed group called
      `group`, `None` for `(None, None)`. */
  function FindGroup(profile: map<string, Tree>, order: seq<string>, group: string): (r: Result<Option<(Tree, string)>>)
    requires GroupOrder(profile, order)
    ensures "group_sub" !in profile ==> r == Ok(None)
    ensures "group_sub" in profile && profile["group_sub"].Leaf? ==> r == Err(AttributeError)
    ensures "group_sub" in profile && profile["group_sub"].Node? ==>
      var sub := profile["group_sub"].children;
      && (r.Err? <==> !WellFormed(sub))
      && (r.Ok? && r.value.Some? ==>
            r.value.value.0 == Leaf(group) && r.value.value.1 in sub && NameOf(sub[r.value.value.1]) == Ok(Leaf(group)))
      && (r == Ok(None) <==> WellFormed(sub) && forall gid :: gid in sub ==> NameOf(sub[gid]) != Ok(Leaf(group)))
  {
    if "group_sub" !in profile then Ok(None)
    else match profile["group_sub"]
      case Leaf(_) => Err(AttributeError)
      case Node(sub) =>
        var gid :- Scan(sub, order, group);
        Ok(if gid.Some? then Some((Leaf(group), gid.value)) else None)
  }

  /** When no two groups share a name, what `findGroup` returns does not
      depend on the dict's order. */
  lemma {:induction false} FindGroupOrderFree(profile: map<string, Tree>, o1: seq<string>, o2: seq<string>, group: string)
    requires GroupOrder(profile, o1) && GroupOrder(profile, o2)
    requires "group_sub" in profile && profile["group_sub"].Node?
    requires WellFormed(profile["group_sub"].children)
    requires forall g1, g2 :: g1 in profile["group_sub"].children && g2 in profile["group_sub"].children && g1 != g2 ==>
      NameOf(profile["group_sub"].children[g1]) != NameOf(profile["group_sub"].children[g2])
    ensures FindGroup(profile, o1, group) == FindGroup(profile, o2, group)
  {
    var sub := profile["group_sub"].children;
    var r1 := FindGroup(profile, o1, group);
    var r2 := FindGroup(profile, o2, group);
    if r1.Ok? && r1.value.Some? && r2.Ok? && r2.value.Some? {
      assert NameOf(sub[r1.value.value.1]) == NameOf(sub[r2.value.value.1]);
    }
  }

  /** `findGroupName(groupId)`: the entry under key `groupId`, if any. Only
      that entry's name is read. */
  function FindGroupName(profile: map<string, Tree>, groupId: string): (r: Result<Option<(Tree, string)>>)
    ensures "group_sub" !in profile ==> r == Ok(None)
    ensures "group_sub" in profile && profile["group_sub"].Leaf? ==> r == Err(AttributeError)
    ensures "group_sub" in profile && profile["group_sub"].Node? ==>
      var sub := profile["group_sub"].children;
      && (groupId !in sub ==> r == Ok(None))
      && (groupId in sub ==> r.Ok? == NameOf(sub[groupId]).Ok?)
      && (r.Ok? && r.value.Some? ==> groupId in sub && r.value.value == (NameOf(sub[groupId]).value, groupId))
  {
    if "group_sub" !in profile then Ok(None)
    else match profile["group_sub"]
      case Leaf(_) => Err(AttributeError)
      case Node(sub) =>
        if groupId in sub then
          var name :- NameOf(sub[groupId]);
          Ok(Some((name, groupId)))
        else Ok(None)
  }

  /** Looking a group up by its id finds the entry `findGroup` returns. */
  lemma {:induction false} FindGroupThenName(profile: map<string, Tree>, order: seq<string>, group: string)
    requires GroupOrder(profile, order)
    requires FindGroup(profile, order, group).Ok? && FindGroup(profile, order, group).value.Some?
    ensures FindGroupName(profile, FindGroup(profile, order, group).value.value.1) == FindGroup(profile, order, group)
  {
  }

  /** The action `removeGroup(gid)` registers: drop `gid` from `group_sub`
      if both are there. When `group_sub` is text, `gid in` it is a
      substring test, and a text that contains `gid` has no `pop`. */
  function RemoveGroup(profile: map<string, Tree>, gid: string): (r: Result<map<string, Tree>>)
    ensures r.Err? <==> "group_sub" in profile && profile["group_sub"].Leaf? && Contains(profile["group_sub"].text, gid)
    ensures r.Err? ==> r.fault == AttributeError
    ensures r.Ok? ==> r.value.Keys == profile.Keys
    ensures r.Ok? ==> forall k :: k in profile && k != "group_sub" ==> r.value[k] == profile[k]
    ensures r.Ok? && "group_sub" in profile && profile["group_sub"].Node? ==>
      r.value["group_sub"] == Node(profile["group_sub"].children - {gid})
    ensures r.Ok? && "group_sub" in profile && profile["group_sub"].Leaf? ==> r.value == profile
  {
    if "group_sub" !in profile then Ok(profile)
    else match profile["group_sub"]
      case Node(sub) => if gid in sub then Ok(profile["group_sub" := Node(sub - {gid})]) else Ok(profile)
      case Leaf(t) => if Contains(t, gid) then Err(AttributeError) else Ok(profile)
  }

  /** After the removal no group has the id, so neither lookup finds it. */
  lemma {:induction false} RemovedGroupGone(profile: map<string, Tree>, gid: string)
    requires "group_sub" in profile && profile["group_sub"].Node?
    ensures RemoveGroup(profile, gid).Ok?
    ensures FindGroupName(RemoveGroup(profile, gid).value, gid) == Ok(None)
    ensures forall order, group :: GroupOrder(RemoveGroup(profile, gid).value, order) ==>
      var r := FindGroup(RemoveGroup(profile, gid).value, order, group);
      r.Ok? && r.value.Some? ==> r.value.value.1 != gid
  {
  }

  // ---------------------------------------------------------------------------
  // Responses
  // ---------------------------------------------------------------------------

  /** `onResponse(rtype, what, mesgId, packet)`: a success response (type 0,
      what 4) to a registered message id runs its action and then drops it;
      any other response changes nothing. An action that raises leaves the
      registry as it was. */
  function OnResponse(b: PalBot, rtype: Option<string>, what: Option<string>, mesgId: Option<string>): (r: Result<PalBot>)
    ensures !(rtype == Some("0") && what == Some("4") && mesgId.Some? && mesgId.value in b.responses) ==> r == Ok(b)
    ensures rtype == Some("0") && what == Some("4") && mesgId.Some? && mesgId.value in b.responses ==>
      var action := RemoveGroup(b.profile, b.responses[mesgId.value]);
      && (r.Err? <==> action.Err?)
      && (r.Ok? ==> r.value == b.(profile := action.value, responses := b.responses - {mesgId.value}))
  {
    if rtype == Some("0") && what == Some("4") && mesgId.Some? && mesgId.value in b.responses then
      var profile :- RemoveGroup(b.profile, b.responses[mesgId.value]);
      Ok(b.(profile := profile, responses := b.responses - {mesgId.value}))
    else Ok(b)
  }

  /** The confirmation of an unsubscribe drops the group and the
      registration; the same confirmation again changes nothing. */
  lemma {:induction false} UnsubscribeConfirmed(b: PalBot, id: string)
    requires id in b.responses
    requires "group_sub" in b.profile && b.profile["group_sub"].Node?
    ensures OnResponse(b, Some("0"), Some("4"), Some(id)).Ok?
    ensures var b1 := OnResponse(b, Some("0"), Some("4"), Some(id)).value;
      && b1.profile["group_sub"] == Node(b.profile["group_sub"].children - {b.responses[id]})
      && id !in b1.responses
      && OnResponse(b1, Some("0"), Some("4"), Some(id)) == Ok(b1)
  {
  }

  // ---------------------------------------------------------------------------
  // `removePuncs`
  // ---------------------------------------------------------------------------

  /** The default punctuation of `removePuncs`. */
  const DefaultPuncs: string := "'\"!?,.()-"

  /** The characters of `s` not in `puncs`, in order. */
  function Keep(s: string, puncs: string): (r: string)
    ensures |r| <= |s|
    decreases |s|
  {
    if s == [] then [] else (if s[0] in puncs then [] else [s[0]]) + Keep(s[1..], puncs)
  }

  /** No character of `puncs` is kept, and every other character is kept
      as often as it occurs. */
  lemma {:induction false} KeepSpec(s: string, puncs: string)
    ensures forall i :: 0 <= i < |Keep(s, puncs)| ==> Keep(s, puncs)[i] !in puncs
    ensures forall ch :: ch !in puncs ==> multiset(Keep(s, puncs))[ch] == multiset(s)[ch]
    decreases |s|
  {
    if s != [] {
      KeepSpec(s[1..], puncs);
      assert s == [s[0]] + s[1..];
    }
  }

  /** `removePuncs(s, puncs)`: `re.sub` with the character class of the
      escaped `puncs`, which matches exactly the characters of `puncs`; an
      empty `puncs` makes the pattern `[]`, which does not compile. */
  function RemovePuncs(s: string, puncs: string): (r: Result<string>)
    ensures r.Err? <==> puncs == []
    ensures r.Err? ==> r.fault == RegexError
    ensures r.Ok? ==> |r.value| <= |s| && forall i :: 0 <= i < |r.value| ==> r.value[i] !in puncs
    ensures r.Ok? ==> forall ch :: ch !in puncs ==> multiset(r.value)[ch] == multiset(s)[ch]
  {
    KeepSpec(s, puncs);
    if puncs == [] then Err(RegexError) else Ok(Keep(s, puncs))
  }

  /** Removal works piece by piece: the kept characters keep their order. */
  lemma {:induction false} KeepAppend(a: string, b: string, puncs: string)
    ensures Keep(a + b, puncs) == Keep(a, puncs) + Keep(b, puncs)
    decreases |a|
  {
    if a == [] {
      assert a + b == b;
    } else {
      assert (a + b)[0] == a[0] && (a + b)[1..] == a[1..] + b;
      KeepAppend(a[1..], b, puncs);
    }
  }

  /** A string without punctuation comes back unchanged, so removing twice
      is removing once. */
  lemma {:induction false} KeepClean(s: string, puncs: string)
    requires forall i :: 0 <= i < |s| ==> s[i] !in puncs
    ensures Keep(s, puncs) == s
    decreases |s|
  {
    if s != [] {
      KeepClean(s[1..], puncs);
    }
  }

  lemma {:induction false} RemovePuncsIdempotent(s: string, puncs: string)
    requires puncs != []
    ensures RemovePuncs(s, puncs).Ok?
    ensures RemovePuncs(RemovePuncs(s, puncs).value, puncs) == RemovePuncs(s, puncs)
  {
    KeepSpec(s, puncs);
    KeepClean(Keep(s, puncs), puncs);
  }

  /** The default set strips a sentence's punctuation and keeps its words. */
  lemma {:induction false} RemovePuncsExample()
    ensures Keep("(ok)!", DefaultPuncs) == "ok"
  {
    var s := "(ok)!";
    var a, b, c := "(", "ok", ")!";
    assert s == a + (b + c);
    KeepAppend(a, b + c, DefaultPuncs);
    KeepAppend(b, c, DefaultPuncs);
    KeepExamplePieces();
  }

  /** Helper: the pieces of the example, one by one. */
  lemma {:induction false} KeepExamplePieces()
    ensures Keep("(", DefaultPuncs) == []
    ensures Keep("ok", DefaultPuncs) == "ok"
    ensures Keep(")!", DefaultPuncs) == []
  {
    assert DefaultPuncs[2] == '!' && DefaultPuncs[6] == '(' && DefaultPuncs[7] == ')';
    assert "ok"[1..] == "k" && ")!"[1..] == "!";
  }


  // ---------------------------------------------------------------------------
  // The owner command pattern `/([a-zA-Z]+)\s+(.+)`
  // ---------------------------------------------------------------------------

  predicate IsLetter(ch: char) {
    'a' <= ch <= 'z' || 'A' <= ch <= 'Z'
  }

  /** The three character classes of the pattern: `[a-zA-Z]`, `\s` and `.`. */
  datatype Class = Letters | Spaces | NotNewline

  predicate InClass(ch: char, k: Class) {
    match k
    case Letters => IsLetter(ch)
    case Spaces => IsSpace(ch)
    case NotNewline => ch != '\n'
  }

  /** `s[i..i+n]` lies in class `k`. */
  predicate Spans(s: string, i: nat, n: nat, k: Class) {
    i + n <= |s| && forall j {:trigger InClass(s[j], k)} :: i <= j < i + n ==> InClass(s[j], k)
  }

  /** The longest run of class `k` starting at `i`. */
  function Run(s: string, i: nat, k: Class): (n: nat)
    requires i <= |s|
    ensures Spans(s, i, n, k)
    ensures i + n == |s| || !InClass(s[i + n], k)
    decreases |s| - i
  {
    if i < |s| && InClass(s[i], k) then 1 + Run(s, i + 1, k) else 0
  }

  /** The pattern matches at `i` with `a` letters, `b` spaces and `c` more
      characters. */
  predicate PatternAt(s: string, i: nat, a: nat, b: nat, c: nat) {
    && i < |s| && s[i] == '/'
    && a >= 1 && b >= 1 && c >= 1
    && Spans(s, i + 1, a, Letters)
    && Spans(s, i + 1 + a, b, Spaces)
    && Spans(s, i + 1 + a + b, c, NotNewline)
  }

  /** Position `p` holds a character that `.` takes. */
  predicate Takes(s: string, p: int) {
    0 <= p < |s| && s[p] != '\n'
  }

  /** The backtracking of `\s+` when the spaces run to the end of the text:
      the longest prefix of the `t` spaces after `j` that leaves `(.+)` a
      character to take. */
  function GiveBack(s: string, j: nat, t: nat): (r: Option<nat>)
    requires j + t <= |s|
    ensures r.Some? ==> 1 <= r.value <= t && Takes(s, j + r.value)
    ensures r.Some? ==> forall p :: j + r.value < p <= j + t ==> !Takes(s, p)
    ensures r.None? ==> forall p :: j + 1 <= p <= j + t ==> !Takes(s, p)
    decreases t
  {
    if t == 0 then None
    else if Takes(s, j + t) then Some(t)
    else GiveBack(s, j, t - 1)
  }

  /** Where a match puts its parts: `a` letters, `b` spaces and `c` more
      characters after the slash. */
  datatype Span = Span(a: nat, b: nat, c: nat)

  /** The match of the pattern at `i`: the letters run as far as they go,
      the spaces as far as they can while leaving a character for `(.+)`,
      which runs to the end of the line. */
  function MatchAt(s: string, i: nat): (r: Option<Span>)
    requires i <= |s|
    ensures r.Some? ==> PatternAt(s, i, r.value.a, r.value.b, r.value.c)
  {
    if i < |s| && s[i] == '/' then
      var a := Run(s, i + 1, Letters);
      var w := Run(s, i + 1 + a, Spaces);
      if a == 0 || w == 0 then None
      else match GiveBack(s, i + 1 + a, w)
        case None => None
        case Some(b) => Some(Span(a, b, Run(s, i + 1 + a + b, NotNewline)))
    else None
  }

  /** `MatchAt` misses only where the pattern cannot match. */
  lemma {:induction false} MatchAtComplete(s: string, i: nat)
    requires i <= |s|
    ensures MatchAt(s, i).None? <==> forall a: nat, b: nat, c: nat :: !PatternAt(s, i, a, b, c)
  {
    if MatchAt(s, i).Some? {
      var m := MatchAt(s, i).value;
      assert PatternAt(s, i, m.a, m.b, m.c);
    } else if i < |s| && s[i] == '/' {
      var a := Run(s, i + 1, Letters);
      forall a': nat, b: nat, c: nat | PatternAt(s, i, a', b, c)
        ensures false
      {
        LettersEnd(s, i, a', b, c, a);
      }
    }
  }

  /** What `MatchAt` finds is the greedy match: no longer run of letters,
      no more spaces, and the rest of the line up to its end. */
  lemma {:induction false} MatchAtGreedy(s: string, i: nat)
    requires i <= |s| && MatchAt(s, i).Some?
    ensures var m := MatchAt(s, i).value;
      && !Takes(s, i + 1 + m.a + m.b + m.c)
      && forall a: nat, b: nat, c: nat :: PatternAt(s, i, a, b, c) ==> a == m.a && b <= m.b
  {
    var m := MatchAt(s, i).value;
    MatchAtEnd(s, i, m);
    forall a': nat, b': nat, c': nat | PatternAt(s, i, a', b', c')
      ensures a' == m.a && b' <= m.b
    {
      MatchAtLongest(s, i, m, a', b', c');
    }
  }

  /** Helper: the match's rest of the line runs up to its end. */
  lemma {:induction false} MatchAtEnd(s: string, i: nat, m: Span)
    requires i <= |s| && MatchAt(s, i) == Some(m)
    ensures !Takes(s, i + 1 + m.a + m.b + m.c)
  {
    MatchAtShape(s, i);
  }

  /** Helper: any one way of matching at `i` has the same letters and no
      more spaces than the match `MatchAt` reports. */
  lemma {:induction false} MatchAtLongest(s: string, i: nat, m: Span, a: nat, b: nat, c: nat)
    requires i <= |s| && MatchAt(s, i) == Some(m)
    requires PatternAt(s, i, a, b, c)
    ensures a == m.a && b <= m.b
  {
    MatchAtShape(s, i);
    LettersEnd(s, i, a, b, c, m.a);
    GiveBackLongest(s, i + 1 + m.a, Run(s, i + 1 + m.a, Spaces), b);
  }

  /** Helper: how `MatchAt` built the match it reports. */
  lemma {:induction false} MatchAtShape(s: string, i: nat)
    requires i <= |s| && MatchAt(s, i).Some?
    ensures var m := MatchAt(s, i).value;
      && m.a == Run(s, i + 1, Letters)
      && GiveBack(s, i + 1 + m.a, Run(s, i + 1 + m.a, Spaces)) == Some(m.b)
      && m.c == Run(s, i + 1 + m.a + m.b, NotNewline)
  {
  }

  /** `GiveBack` keeps the most spaces that still leave a character. */
  lemma {:induction false} GiveBackLongest(s: string, j: nat, t: nat, b: nat)
    requires j + t <= |s| && 1 <= b <= t && Takes(s, j + b)
    ensures GiveBack(s, j, t).Some? && b <= GiveBack(s, j, t).value
  {
  }

  /** A match's letters end where the longest run of letters does, and its
      spaces lie within the longest run of spaces after them. */
  lemma {:induction false} LettersEnd(s: string, i: nat, a': nat, b: nat, c: nat, a: nat)
    requires PatternAt(s, i, a', b, c)
    requires a == Run(s, i + 1, Letters)
    ensures a' == a
    ensures b <= Run(s, i + 1 + a, Spaces)
    ensures Takes(s, i + 1 + a + b)
  {
    RunLongest(s, i + 1, a', Letters);
    assert InClass(s[i + 1 + a'], Spaces);
    assert !InClass(s[i + 1 + a'], Letters);
    RunLongest(s, i + 1 + a, b, Spaces);
    assert InClass(s[i + 1 + a + b], NotNewline);
  }

  /** A run of class `k` is no longer than the longest one. */
  lemma {:induction false} RunLongest(s: string, i: nat, n: nat, k: Class)
    requires Spans(s, i, n, k)
    ensures n <= Run(s, i, k)
    decreases n
  {
    if n > 0 {
      assert InClass(s[i], k);
      assert Spans(s, i + 1, n - 1, k) by {
        forall j | i + 1 <= j < i + n ensures InClass(s[j], k) {
        }
      }
      RunLongest(s, i + 1, n - 1, k);
    }
  }

  /** The match at each position of the text, `0` to `|s|` inclusive. */
  function Matches(s: string): (r: seq<Option<Span>>)
    ensures |r| == |s| + 1
    ensures forall i :: 0 <= i < |r| ==> r[i] == MatchAt(s, i)
  {
    seq(|s| + 1, i requires 0 <= i <= |s| => MatchAt(s, i))
  }

  /** The first entry of `ms` at or after `from` that holds a match. */
  function FindFirst(ms: seq<Option<Span>>, from: nat): (r: Option<(nat, Span)>)
    requires from <= |ms|
    ensures r.None? ==> forall i :: from <= i < |ms| ==> ms[i].None?
    ensures r.Some? ==> from <= r.value.0 < |ms| && ms[r.value.0] == Some(r.value.1)
    ensures r.Some? ==> forall k :: from <= k < r.value.0 ==> ms[k].None?
    decreases |ms| - from
  {
    if from == |ms| then None
    else match ms[from]
      case Some(m) => Some((from, m))
      case None => FindFirst(ms, from + 1)
  }

  /** `re.findall(pattern, s)[0]` when there is a match: the leftmost one
      at or after `from`, with its position. */
  function FindFrom(s: string, from: nat): (r: Option<(nat, Span)>)
    requires from <= |s|
    ensures r.None? <==> forall i :: from <= i <= |s| ==> MatchAt(s, i).None?
    ensures r.Some? ==> from <= r.value.0 <= |s| && MatchAt(s, r.value.0) == Some(r.value.1)
    ensures r.Some? ==> forall k :: from <= k < r.value.0 ==> MatchAt(s, k).None?
  {
    var ms := Matches(s);
    FindFirst(ms, from)
  }

  /** The two groups of the first match: the command and its argument. */
  function FindCommand(s: string): (r: Option<(string, string)>)
    ensures r.Some? ==> r.value.0 != [] && r.value.1 != []
    ensures r.Some? ==> Spans(r.value.0, 0, |r.value.0|, Letters) && Spans(r.value.1, 0, |r.value.1|, NotNewline)
  {
    var found := FindFrom(s, 0);
    if found.None? then None
    else
      var i := found.value.0;
      var m := found.value.1;
      MatchParts(s, i, m);
      Some(Groups(s, i, m))
  }

  /** The two groups a match at `i` captures are a run of letters and a
      run of characters other than newline. */
  lemma {:induction false} MatchParts(s: string, i: nat, m: Span)
    requires i <= |s| && MatchAt(s, i) == Some(m)
    ensures m.a >= 1 && m.c >= 1 && i + 1 + m.a + m.b + m.c <= |s|
    ensures var g := Groups(s, i, m);
      && g.0 != [] && g.1 != []
      && Spans(g.0, 0, |g.0|, Letters) && Spans(g.1, 0, |g.1|, NotNewline)
  {
    assert PatternAt(s, i, m.a, m.b, m.c);
    SpansSlice(s, i + 1, m.a, Letters);
    SpansSlice(s, i + 1 + m.a + m.b, m.c, NotNewline);
  }

  /** The text of the two groups of a match at `i`. */
  function Groups(s: string, i: nat, m: Span): (r: (string, string))
    requires i + 1 + m.a + m.b + m.c <= |s|
    ensures |r.0| == m.a && |r.1| == m.c
  {
    (s[i + 1..i + 1 + m.a], s[i + 1 + m.a + m.b..i + 1 + m.a + m.b + m.c])
  }

  lemma {:induction false} SpansSlice(s: string, i: nat, n: nat, k: Class)
    requires Spans(s, i, n, k)
    ensures Spans(s[i..i + n], 0, n, k)
  {
    var t := s[i..i + n];
    forall j | 0 <= j < n ensures InClass(t[j], k) {
      assert t[j] == s[i + j];
    }
  }

  /** The search comes back empty exactly when the pattern matches
      nowhere in the text. */
  lemma {:induction false} FindCommandNone(s: string)
    ensures FindCommand(s).None? <==> forall i: nat, a: nat, b: nat, c: nat :: i <= |s| ==> !PatternAt(s, i, a, b, c)
  {
    if FindFrom(s, 0).None? {
      forall i: nat, a: nat, b: nat, c: nat | i <= |s| ensures !PatternAt(s, i, a, b, c) {
        assert MatchAt(s, i).None?;
        MatchAtComplete(s, i);
      }
    } else {
      var (i, m) := FindFrom(s, 0).value;
      assert PatternAt(s, i, m.a, m.b, m.c);
    }
  }

  /** A run that fills `s[i..i+n]` and stops there has length `n`. */
  lemma {:induction false} RunCovers(s: string, i: nat, n: nat, k: Class)
    requires Spans(s, i, n, k)
    requires i + n == |s| || !InClass(s[i + n], k)
    ensures Run(s, i, k) == n
    decreases n
  {
    if n > 0 {
      RunCovers(s, i + 1, n - 1, k);
    }
  }

  /** A command typed as `/cmd data` -- one space, data on one line that
      starts with a non-space -- is read back as `cmd` and `data`. */
  lemma {:induction false} CommandRoundTrip(cmd: string, data: string)
    requires |cmd| >= 1 && forall i :: 0 <= i < |cmd| ==> IsLetter(cmd[i])
    requires |data| >= 1 && !IsSpace(data[0]) && forall i :: 0 <= i < |data| ==> data[i] != '\n'
    ensures FindCommand("/" + cmd + " " + data) == Some((cmd, data))
  {
    var s := "/" + cmd + " " + data;
    var m := Span(|cmd|, 1, |data|);
    CommandMatch(cmd, data);
    FindCommandAt(s, m);
    CommandGroups(cmd, data);
  }

  /** Helper: the groups of the typed command's match are `cmd` and `data`. */
  lemma {:induction false} CommandGroups(cmd: string, data: string)
    ensures Groups("/" + cmd + " " + data, 0, Span(|cmd|, 1, |data|)) == (cmd, data)
  {
    var s := "/" + cmd + " " + data;
    var j := 1 + |cmd|;
    assert s[1..j] == cmd;
    assert s[j + 1..j + 1 + |data|] == data;
  }

  /** Helper: a match at the very start is the one `FindCommand` reports. */
  lemma {:induction false} FindCommandAt(s: string, m: Span)
    requires MatchAt(s, 0) == Some(m)
    ensures m.a >= 1 && 1 + m.a + m.b + m.c <= |s|
    ensures FindCommand(s) == Some(Groups(s, 0, m))
  {
    FindFromAt(s, 0, m);
    MatchParts(s, 0, m);
  }

  /** Helper: a match where the search starts is the one it returns. */
  lemma {:induction false} FindFromAt(s: string, from: nat, m: Span)
    requires from <= |s| && MatchAt(s, from) == Some(m)
    ensures FindFrom(s, from) == Some((from, m))
  {
  }

  /** Helper: the typed command matches at its slash, with the letters of
      `cmd`, one space and all of `data`. */
  lemma {:induction false} CommandMatch(cmd: string, data: string)
    requires |cmd| >= 1 && forall i :: 0 <= i < |cmd| ==> IsLetter(cmd[i])
    requires |data| >= 1 && !IsSpace(data[0]) && forall i :: 0 <= i < |data| ==> data[i] != '\n'
    ensures MatchAt("/" + cmd + " " + data, 0) == Some(Span(|cmd|, 1, |data|))
  {
    var s := "/" + cmd + " " + data;
    var j := 1 + |cmd|;
    assert s[1..j] == cmd;
    assert s[j] == ' ';
    assert s[j + 1..] == data;
    RunCovers(s, 1, |cmd|, Letters);
    RunCovers(s, j, 1, Spaces);
    assert GiveBack(s, j, 1) == Some(1);
    RunCovers(s, j + 1, |data|, NotNewline);
  }

  // ---------------------------------------------------------------------------
  // `onPrivateMesg`
  // ---------------------------------------------------------------------------

  /** What the owner asked for. */
  datatype Request =
    | ListGroups                // `/groups`, in any case
    | JoinGroup(group: string)  // `/j <group>`
    | LeaveGroup(group: string) // `/l <group>`
    | Unknown                   // another `/<letters> <text>`
    | NotCommand                // nothing the pattern matches

  function Classify(msg: string): (r: Request)
    ensures (r.JoinGroup? || r.LeaveGroup?) ==> r.group != [] && Spans(r.group, 0, |r.group|, NotNewline)
    ensures r.NotCommand? <==> LowerStr(msg) != "/groups" && FindCommand(msg).None?
  {
    if LowerStr(msg) == "/groups" then ListGroups
    else match FindCommand(msg)
      case None => NotCommand
      case Some((cmd, data)) =>
        if LowerStr(cmd) == "j" then JoinGroup(data)
        else if LowerStr(cmd) == "l" then LeaveGroup(data)
        else Unknown
  }

  /** A typed command `/cmd data` is a join for `j` or `J`, a leave for
      `l` or `L`, and no known command otherwise. */
  lemma {:induction false} ClassifyCommand(cmd: string, data: string)
    requires |cmd| >= 1 && forall i :: 0 <= i < |cmd| ==> IsLetter(cmd[i])
    requires |data| >= 1 && !IsSpace(data[0]) && forall i :: 0 <= i < |data| ==> data[i] != '\n'
    ensures Classify("/" + cmd + " " + data) ==
      if LowerStr(cmd) == "j" then JoinGroup(data)
      else if LowerStr(cmd) == "l" then LeaveGroup(data)
      else Unknown
  {
    var s := "/" + cmd + " " + data;
    CommandRoundTrip(cmd, data);
    assert s[1 + |cmd|] == ' ';
    NotGroups(s, 1 + |cmd|);
  }

  /** A text with a space in it is not `/groups` in any case. */
  lemma {:induction false} NotGroups(s: string, k: nat)
    requires k < |s| && s[k] == ' '
    ensures LowerStr(s) != "/groups"
  {
    var g := "/groups";
    assert g[0] == '/' && g[1] == 'g' && g[2] == 'r' && g[3] == 'o' && g[4] == 'u' && g[5] == 'p' && g[6] == 's';
    assert LowerStr(s)[k] == ' ';
  }

  /** `/groups` in any case asks for the listing; a text without a slash
      is no command. */
  lemma {:induction false} ClassifyExamples()
    ensures Classify("/GROUPS") == ListGroups
    ensures Classify("hello") == NotCommand
  {
    assert LowerStr("/GROUPS") == "/groups";
    var h := "hello";
    assert LowerStr(h)[0] == 'h';
    forall i: nat | i <= |h| ensures MatchAt(h, i).None? {
      assert i < |h| ==> h[i] != '/';
    }
  }

  /** Python truthiness of a profile value. */
  predicate Truthy(t: Tree) {
    match t
    case Leaf(s) => s != []
    case Node(m) => m != map[]
  }

  /** `'%s' % value`: text as it is; a dict as Python prints it, which is
      the `showDict` parameter. */
  function Show(t: Tree, showDict: map<string, Tree> -> string): string {
    match t
    case Leaf(s) => s
    case Node(m) => showDict(m)
  }

  /** The line `'%s - %s' % (data['name'], gid)` for one group. */
  function Line(sub: map<string, Tree>, gid: string, showDict: map<string, Tree> -> string): string
    requires gid in sub && NameOf(sub[gid]).Ok?
  {
    Show(NameOf(sub[gid]).value, showDict) + " - " + gid
  }

  /** Every key of `order` is a group with a name. */
  predicate Named(sub: map<string, Tree>, order: seq<string>) {
    forall i :: 0 <= i < |order| ==> order[i] in sub && NameOf(sub[order[i]]).Ok?
  }

  /** The comprehension's lines, one per key, in the order of the keys. */
  function Lines(sub: map<string, Tree>, order: seq<string>, showDict: map<string, Tree> -> string): (r: seq<string>)
    requires Named(sub, order)
    ensures |r| == |order|
    decreases |order|
  {
    if order == [] then [] else [Line(sub, order[0], showDict)] + Lines(sub, order[1..], showDict)
  }

  /** The line at each position is the line of the key at that position. */
  lemma {:induction false} LinesAt(sub: map<string, Tree>, order: seq<string>, showDict: map<string, Tree> -> string)
    requires Named(sub, order)
    ensures forall i :: 0 <= i < |order| ==> Lines(sub, order, showDict)[i] == Line(sub, order[i], showDict)
    decreases |order|
  {
    if order != [] {
      LinesAt(sub, order[1..], showDict);
    }
  }

  /** The list comprehension over `group_sub.iteritems()`, keys taken in
      `order`: the first entry without a name raises. */
  function GroupLines(sub: map<string, Tree>, order: seq<string>, showDict: map<string, Tree> -> string): (r: Result<seq<string>>)
    requires forall i :: 0 <= i < |order| ==> order[i] in sub
    ensures r.Ok? <==> Named(sub, order)
    ensures r.Err? ==> exists i :: 0 <= i < |order| && NameOf(sub[order[i]]) == Err(r.fault)
    decreases |order|
  {
    if order == [] then Ok([])
    else
      var name :- NameOf(sub[order[0]]);
      var rest :- GroupLines(sub, order[1..], showDict);
      Ok([Show(name, showDict) + " - " + order[0]] + rest)
  }

  /** A comprehension that does not raise yields the lines of all keys. */
  lemma {:induction false} GroupLinesAre(sub: map<string, Tree>, order: seq<string>, showDict: map<string, Tree> -> string)
    requires forall i :: 0 <= i < |order| ==> order[i] in sub
    requires GroupLines(sub, order, showDict).Ok?
    ensures Named(sub, order)
    ensures GroupLines(sub, order, showDict).value == Lines(sub, order, showDict)
    decreases |order|
  {
    if order != [] {
      GroupLinesAre(sub, order[1..], showDict);
    }
  }

  const NoGroups := "Not subscribed to any group."

  /** The reply to `/groups`: the sorted lines joined by newlines, or a
      fixed text when that is empty. */
  function Listing(profile: map<string, Tree>, order: seq<string>, showDict: map<string, Tree> -> string): (r: Result<string>)
    requires GroupOrder(profile, order)
    ensures "group_sub" in profile && profile["group_sub"].Leaf? ==> r == Err(AttributeError)
    ensures "group_sub" in profile && profile["group_sub"].Node? ==>
      (r.Err? <==> !WellFormed(profile["group_sub"].children))
    ensures r.Ok? ==> r.value != []
  {
    if "group_sub" !in profile then Ok(NoGroups)
    else match profile["group_sub"]
      case Leaf(_) => Err(AttributeError)
      case Node(sub) =>
        assert Named(sub, order) <==> WellFormed(sub) by {
          if Named(sub, order) {
            forall gid | gid in sub ensures NameOf(sub[gid]).Ok? {
              var i :| 0 <= i < |order| && order[i] == gid;
            }
          }
        }
        var lines :- GroupLines(sub, order, showDict);
        var s := Join(Sort(lines), "\n");
        Ok(if s == [] then NoGroups else s)
  }

  /** Without groups the reply is the fixed text. */
  lemma {:induction false} ListingEmpty(profile: map<string, Tree>, order: seq<string>, showDict: map<string, Tree> -> string)
    requires GroupOrder(profile, order)
    requires "group_sub" !in profile || profile["group_sub"] == Node(map[])
    ensures Listing(profile, order, showDict) == Ok(NoGroups)
  {
    if "group_sub" in profile {
      EnumeratesEmpty(order, profile["group_sub"].children);
    }
  }

  /** A key list enumerates an empty dict exactly when it is empty. */
  lemma {:induction false} EnumeratesEmpty(order: seq<string>, m: map<string, Tree>)
    requires Enumerates(order, m)
    ensures order == [] <==> m == map[]
  {
    if order != [] {
      assert order[0] in m;
    }
    if m != map[] {
      var k :| k in m;
      assert k in order;
    }
  }

  /** With groups the reply is their lines, sorted and joined by newlines:
      never the fixed text, since every line holds `" - "`. */
  lemma {:induction false} ListingLines(profile: map<string, Tree>, order: seq<string>, showDict: map<string, Tree> -> string)
    requires GroupOrder(profile, order)
    requires "group_sub" in profile && profile["group_sub"].Node? && profile["group_sub"].children != map[]
    requires WellFormed(profile["group_sub"].children)
    ensures var sub := profile["group_sub"].children;
      && Named(sub, order)
      && Listing(profile, order, showDict) == Ok(Join(Sort(Lines(sub, order, showDict)), "\n"))
  {
    var sub := profile["group_sub"].children;
    ListingNode(profile, order, showDict);
    EnumeratesEmpty(order, sub);
    LinesAt(sub, order, showDict);
    SortedNonEmpty(Lines(sub, order, showDict));
  }

  /** A dict of groups that all have names: the reply is computed from
      their lines. */
  lemma {:induction false} ListingNode(profile: map<string, Tree>, order: seq<string>, showDict: map<string, Tree> -> string)
    requires GroupOrder(profile, order)
    requires "group_sub" in profile && profile["group_sub"].Node?
    requires WellFormed(profile["group_sub"].children)
    ensures var sub := profile["group_sub"].children;
      && Named(sub, order)
      && var s := Join(Sort(Lines(sub, order, showDict)), "\n");
         Listing(profile, order, showDict) == Ok(if s == [] then NoGroups else s)
  {
    var sub := profile["group_sub"].children;
    assert Listing(profile, order, showDict).Ok?;
    GroupLinesAre(sub, order, showDict);
  }

  /** Sorting keeps every line, so the joined lines are not empty. */
  lemma {:induction false} SortedNonEmpty(lines: seq<string>)
    requires |lines| > 0 && forall i :: 0 <= i < |lines| ==> |lines[i]| >= 3
    ensures Join(Sort(lines), "\n") != []
  {
    var sorted := Sort(lines);
    assert forall i :: 0 <= i < |sorted| ==> |sorted[i]| >= 3 by {
      forall i | 0 <= i < |sorted| ensures |sorted[i]| >= 3 {
        assert sorted[i] in multiset(lines);
        var j :| 0 <= j < |lines| && lines[j] == sorted[i];
      }
    }
    assert |sorted| == |lines| by {
      assert |multiset(sorted)| == |sorted|;
    }
    JoinNonEmpty(sorted);
  }

  /** Every line holds " - ", so joining at least one is not empty. */
  lemma {:induction false} JoinNonEmpty(xs: seq<string>)
    requires |xs| > 0 && forall i :: 0 <= i < |xs| ==> |xs[i]| >= 3
    ensures Join(xs, "\n") != []
  {
    if |xs| > 1 {
      assert Join(xs, "\n") == xs[0] + "\n" + Join(xs[1..], "\n");
    }
  }

  /** The `/groups` reply does not depend on the dict's order. */
  lemma {:induction false} ListingOrderFree(profile: map<string, Tree>, o1: seq<string>, o2: seq<string>,
                                            showDict: map<string, Tree> -> string)
    requires GroupOrder(profile, o1) && GroupOrder(profile, o2)
    ensures Listing(profile, o1, showDict).Ok? <==> Listing(profile, o2, showDict).Ok?
    ensures Listing(profile, o1, showDict).Ok? ==> Listing(profile, o1, showDict) == Listing(profile, o2, showDict)
  {
    if "group_sub" in profile && profile["group_sub"].Node? && profile["group_sub"].children != map[] {
      var sub := profile["group_sub"].children;
      if WellFormed(sub) {
        ListingLines(profile, o1, showDict);
        ListingLines(profile, o2, showDict);
        LinesPermutation(sub, o1, o2, showDict);
        SortedUnique(Sort(Lines(sub, o1, showDict)), Sort(Lines(sub, o2, showDict)));
      }
    } else if "group_sub" !in profile || profile["group_sub"].Node? {
      ListingEmpty(profile, o1, showDict);
      ListingEmpty(profile, o2, showDict);
    }
  }

  // ---------------------------------------------------------------------------
  // Python's `sorted` on strings
  // ---------------------------------------------------------------------------

  predicate Sorted(xs: seq<string>) {
    forall i, j :: 0 <= i < j < |xs| ==> !StrLess(xs[j], xs[i])
  }

  /** `b` is not below `a`, and `c` is not below `b`: `c` is not below `a`. */
  lemma {:induction false} NotLessTransitive(a: string, b: string, c: string)
    requires !StrLess(b, a) && !StrLess(c, b)
    ensures !StrLess(c, a)
  {
    StrLessTotal(a, b);
    StrLessTotal(b, c);
    StrLessTotal(a, c);
    if StrLess(c, a) && a != b && b != c {
      StrLessTransitive(a, b, c);
      StrLessTransitive(c, a, c);
      StrLessIrreflexive(c);
    }
  }

  function InsertSorted(x: string, xs: seq<string>): (r: seq<string>)
    requires Sorted(xs)
    ensures Sorted(r)
    ensures multiset(r) == multiset(xs) + multiset{x}
    decreases |xs|
  {
    if xs == [] then [x]
    else if !StrLess(xs[0], x) then
      assert forall j :: 0 <= j < |xs| ==> !StrLess(xs[j], x) by {
        forall j | 0 <= j < |xs| ensures !StrLess(xs[j], x) {
          if j > 0 { NotLessTransitive(x, xs[0], xs[j]); }
        }
      }
      [x] + xs
    else
      var rest := InsertSorted(x, xs[1..]);
      StrLessTotal(xs[0], x);
      assert xs == [xs[0]] + xs[1..];
      assert forall j :: 0 <= j < |rest| ==> !StrLess(rest[j], xs[0]) by {
        forall j | 0 <= j < |rest| ensures !StrLess(rest[j], xs[0]) {
          assert rest[j] in multiset(xs[1..]) + multiset{x};
          if rest[j] == x {
            StrLessTotal(x, xs[0]);
          } else {
            assert rest[j] in xs[1..];
          }
        }
      }
      [xs[0]] + rest
  }

  /** `sorted(xs)` */
  function Sort(xs: seq<string>): (r: seq<string>)
    ensures Sorted(r)
    ensures multiset(r) == multiset(xs)
    decreases |xs|
  {
    if xs == [] then []
    else
      assert xs == [xs[0]] + xs[1..];
      InsertSorted(xs[0], Sort(xs[1..]))
  }

  /** Two sorted sequences with the same elements are equal. */
  lemma {:induction false} SortedUnique(a: seq<string>, b: seq<string>)
    requires Sorted(a) && Sorted(b) && multiset(a) == multiset(b)
    ensures a == b
    decreases |a|
  {
    if a != [] {
      SortedHead(a, b);
      SortedTail(a);
      SortedTail(b);
      assert a == [a[0]] + a[1..] && b == [b[0]] + b[1..];
      assert multiset(a[1..]) == multiset(b[1..]) by {
        assert multiset(a[1..]) == multiset(a) - multiset{a[0]};
        assert multiset(b[1..]) == multiset(b) - multiset{b[0]};
      }
      SortedUnique(a[1..], b[1..]);
    }
  }

  /** Two sorted sequences with the same elements start alike. */
  lemma {:induction false} SortedHead(a: seq<string>, b: seq<string>)
    requires Sorted(a) && Sorted(b) && multiset(a) == multiset(b) && a != []
    ensures b != [] && a[0] == b[0]
  {
    assert |b| == |a| by {
      assert |multiset(a)| == |a| && |multiset(b)| == |b|;
    }
    assert a[0] in multiset(b);
    assert b[0] in multiset(a);
    var i :| 0 <= i < |b| && b[i] == a[0];
    var j :| 0 <= j < |a| && a[j] == b[0];
    assert !StrLess(a[0], b[0]) by {
      if i > 0 { assert !StrLess(b[i], b[0]); }
      else { StrLessIrreflexive(a[0]); }
    }
    assert !StrLess(b[0], a[0]) by {
      if j > 0 { assert !StrLess(a[j], a[0]); }
      else { StrLessIrreflexive(b[0]); }
    }
    StrLessTotal(a[0], b[0]);
  }

  lemma {:induction false} SortedTail(a: seq<string>)
    requires Sorted(a) && a != []
    ensures Sorted(a[1..])
  {
    forall i, j | 0 <= i < j < |a| - 1 ensures !StrLess(a[1..][j], a[1..][i]) {
      assert a[1..][j] == a[j + 1] && a[1..][i] == a[i + 1];
    }
  }

  /** Two listings of the same keys give the same lines, in some order. */
  lemma {:induction false} LinesPermutation(sub: map<string, Tree>, o1: seq<string>, o2: seq<string>,
                                            showDict: map<string, Tree> -> string)
    requires Enumerates(o1, sub) && Enumerates(o2, sub)
    requires Named(sub, o1)
    ensures Named(sub, o2)
    ensures multiset(Lines(sub, o1, showDict)) == multiset(Lines(sub, o2, showDict))
  {
    assert multiset(o1) == multiset(o2) by {
      DistinctMultiset(o1);
      DistinctMultiset(o2);
      assert forall k :: k in o1 <==> k in o2;
    }
    LinesPermute(sub, o1, o2, showDict);
  }

  /** In a sequence without repeats every element occurs once. */
  lemma {:induction false} DistinctMultiset(o: seq<string>)
    requires forall i, j :: 0 <= i < j < |o| ==> o[i] != o[j]
    ensures forall k :: multiset(o)[k] == if k in o then 1 else 0
    decreases |o|
  {
    if o != [] {
      DistinctMultiset(o[1..]);
      assert o == [o[0]] + o[1..];
      assert o[0] !in o[1..];
    }
  }

  /** The lines of two key lists are the lines of their concatenation. */
  lemma {:induction false} LinesAppend(sub: map<string, Tree>, a: seq<string>, b: seq<string>,
                                       showDict: map<string, Tree> -> string)
    requires Named(sub, a) && Named(sub, b)
    ensures Named(sub, a + b)
    ensures Lines(sub, a + b, showDict) == Lines(sub, a, showDict) + Lines(sub, b, showDict)
    decreases |a|
  {
    assert forall i :: 0 <= i < |a + b| ==> (a + b)[i] == if i < |a| then a[i] else b[i - |a|];
    if a == [] {
      assert a + b == b;
    } else {
      assert (a + b)[1..] == a[1..] + b;
      LinesAppend(sub, a[1..], b, showDict);
    }
  }

  /** Every key of a slice of a named key list is named. */
  lemma {:induction false} NamedSlice(sub: map<string, Tree>, o: seq<string>, lo: nat, hi: nat)
    requires Named(sub, o) && lo <= hi <= |o|
    ensures Named(sub, o[lo..hi])
  {
    assert forall i :: 0 <= i < hi - lo ==> o[lo..hi][i] == o[lo + i];
  }

  /** Named keys stay named in any permutation. */
  lemma {:induction false} NamedPermute(sub: map<string, Tree>, o1: seq<string>, o2: seq<string>)
    requires Named(sub, o1) && multiset(o1) == multiset(o2)
    ensures Named(sub, o2)
  {
    forall i | 0 <= i < |o2| ensures o2[i] in sub && NameOf(sub[o2[i]]).Ok? {
      assert o2[i] in multiset(o1);
      var j :| 0 <= j < |o1| && o1[j] == o2[i];
    }
  }

  /** Taking one key out of a key list takes its line out of the lines. */
  lemma {:induction false} LinesRemove(sub: map<string, Tree>, o: seq<string>, k: nat,
                                       showDict: map<string, Tree> -> string)
    requires Named(sub, o) && k < |o|
    ensures Named(sub, o[..k] + o[k + 1..])
    ensures multiset(Lines(sub, o, showDict))
      == multiset{Line(sub, o[k], showDict)} + multiset(Lines(sub, o[..k] + o[k + 1..], showDict))
  {
    var pre, post := o[..k], o[k + 1..];
    NamedSlice(sub, o, 0, k);
    NamedSlice(sub, o, k + 1, |o|);
    LinesAppend(sub, pre, post, showDict);
    LinesSplitAt(sub, o, k, showDict);
    var x := Line(sub, o[k], showDict);
    var lp, lq := Lines(sub, pre, showDict), Lines(sub, post, showDict);
    assert multiset(lp + [x] + lq) == multiset{x} + multiset(lp + lq);
  }

  /** Helper: the lines of a key list around its `k`-th key. */
  lemma {:induction false} LinesSplitAt(sub: map<string, Tree>, o: seq<string>, k: nat,
                                        showDict: map<string, Tree> -> string)
    requires Named(sub, o) && k < |o|
    ensures Named(sub, o[..k]) && Named(sub, o[k + 1..])
    ensures Lines(sub, o, showDict)
      == Lines(sub, o[..k], showDict) + [Line(sub, o[k], showDict)] + Lines(sub, o[k + 1..], showDict)
  {
    var pre, tail, post := o[..k], o[k..], o[k + 1..];
    NamedSlice(sub, o, 0, k);
    NamedSlice(sub, o, k, |o|);
    NamedSlice(sub, o, k + 1, |o|);
    assert o == pre + tail;
    assert tail[1..] == post;
    LinesAppend(sub, pre, tail, showDict);
  }

  /** Taking the first element out of one sequence and an equal element out
      of a permutation of it leaves permutations. */
  lemma {:induction false} MultisetRemove(o1: seq<string>, o2: seq<string>, k: nat)
    requires multiset(o1) == multiset(o2) && o1 != [] && k < |o2| && o2[k] == o1[0]
    ensures multiset(o1[1..]) == multiset(o2[..k] + o2[k + 1..])
  {
    assert o2 == o2[..k] + [o2[k]] + o2[k + 1..];
    assert o1 == [o1[0]] + o1[1..];
    assert multiset(o1[1..]) == multiset(o1) - multiset{o1[0]};
  }

  /** The lines of a permutation of the keys are a permutation of the
      lines. */
  lemma {:induction false} LinesPermute(sub: map<string, Tree>, o1: seq<string>, o2: seq<string>,
                                        showDict: map<string, Tree> -> string)
    requires Named(sub, o1)
    requires multiset(o1) == multiset(o2)
    ensures Named(sub, o2)
    ensures multiset(Lines(sub, o1, showDict)) == multiset(Lines(sub, o2, showDict))
    decreases |o1|
  {
    NamedPermute(sub, o1, o2);
    if o1 != [] {
      var x := o1[0];
      assert x in multiset(o2);
      var k :| 0 <= k < |o2| && o2[k] == x;
      var rest := o2[..k] + o2[k + 1..];
      MultisetRemove(o1, o2, k);
      NamedSlice(sub, o1, 1, |o1|);
      LinesPermute(sub, o1[1..], rest, showDict);
      LinesRemove(sub, o2, k, showDict);
    }
  }

  // ---------------------------------------------------------------------------
  // `onPrivateMesg`
  // ---------------------------------------------------------------------------

  /** What `onPrivateMesg` leaves behind: the bot, the engine, and the value
      it returns to the engine (`True`, `False`, or `None` when a command is
      neither `j` nor `l`). */
  datatype Reply = Reply(bot: PalBot, conn: Protocol.Conn, answer: Option<bool>)

  /** `self.owner` as the `to` of `sendPrivate`; an owner of `None` is
      written as the empty id. */
  function OwnerId(b: PalBot): string {
    b.owner.GetOr("")
  }

  /** The engine after `sendPrivate(to, text)`: the fragments of the text
      queued behind what the outbox held, and the message ids they take. */
  function Private(c: Protocol.Conn, to: string, text: string): (r: Protocol.Conn)
    ensures r == c.(outbox := r.outbox, mesgId := r.mesgId)
    ensures r.mesgId > c.mesgId
  {
    c.(outbox := c.outbox + Protocol.Fragments("0", to, text, None, c.mesgId),
       mesgId := c.mesgId + Protocol.FragmentCount(|text|))
  }

  /** `findGroup` found a group in the sense of `name and gid`: the name is
      the (non-empty) group asked for, so only the id can be false. */
  predicate Subscribed(found: Option<(Tree, string)>) {
    found.Some? && Truthy(found.value.0) && found.value.1 != []
  }

  /** The stripped text of a private message and what it asks for. */
  function RequestOf(mesg: Reassembly.Mesg): Request
    requires Reassembly.Valid(mesg)
  {
    Classify(Strip(Reassembly.MesgText(mesg)))
  }

  /** `sendPrivate`, through the engine's `sendMesg`. */
  method SendPrivate(c: Protocol.Conn, to: string, text: string) returns (r: Protocol.Conn)
    ensures r == Private(c, to, text)
  {
    var lastId;
    r, lastId := Protocol.SendMesg(c, "0", to, text, None);
  }

  /** `onPrivateMesg(mesg)`: answers only the owner. `/groups` lists the
      subscriptions; `/j <group>` joins a group unless already subscribed;
      `/l <group>` leaves a subscribed group and registers the removal of
      its entry for when the server confirms. The reply goes out through
      the outbox; the subscribe and unsubscribe packets are written
      directly. `findGroup` or the listing may raise on a malformed
      `group_sub`, before anything is sent. */
  method OnPrivateMesg(b: PalBot, c: Protocol.Conn, mesg: Reassembly.Mesg, order: seq<string>,
                       showDict: map<string, Tree> -> string)
    returns (r: Result<Reply>)
    requires Reassembly.Valid(mesg) && GroupOrder(b.profile, order)
    ensures mesg.sourceId != b.owner ==> r == Ok(Reply(b, c, Some(false)))
    ensures mesg.sourceId == b.owner && RequestOf(mesg).NotCommand? ==> r == Ok(Reply(b, c, Some(false)))
    ensures mesg.sourceId == b.owner && RequestOf(mesg).Unknown? ==> r == Ok(Reply(b, c, None))
    ensures mesg.sourceId == b.owner && RequestOf(mesg).ListGroups? ==>
      var text := Listing(b.profile, order, showDict);
      && (r.Ok? <==> text.Ok?)
      && (r.Ok? ==> r.value == Reply(b, Private(c, OwnerId(b), text.value), Some(true)))
    ensures mesg.sourceId == b.owner && RequestOf(mesg).JoinGroup? ==>
      var g := RequestOf(mesg).group;
      var found := FindGroup(b.profile, order, g);
      && (r.Ok? <==> found.Ok?)
      && (r.Ok? ==> r.value.bot == b && r.value.answer == Some(true))
      && (r.Ok? && Subscribed(found.value) ==>
            r.value.conn == Private(c, OwnerId(b), "Already subscribed to " + g + " (" + found.value.value.1 + ")."))
      && (r.Ok? && !Subscribed(found.value) ==>
            r.value.conn == Protocol.SendPacket(Private(c, OwnerId(b), "Joining " + g + "..."), PalPacket.GroupJoin(g, "")).0)
    ensures mesg.sourceId == b.owner && RequestOf(mesg).LeaveGroup? ==>
      var g := RequestOf(mesg).group;
      var found := FindGroup(b.profile, order, g);
      && (r.Ok? <==> found.Ok?)
      && (r.Ok? ==> r.value.answer == Some(true))
      && (r.Ok? && Subscribed(found.value) ==>
            var gid := found.value.value.1;
            var c1 := Private(c, OwnerId(b), "Leaving " + g + " (" + gid + ")...");
            && r.value.conn == Protocol.SendPacket(c1, PalPacket.GroupLeave(gid)).0
            && r.value.bot == b.(responses := b.responses[Decimal(c1.mesgId) := gid]))
      && (r.Ok? && !Subscribed(found.value) ==>
            r.value == Reply(b, Private(c, OwnerId(b), "Not subscribed to " + g + "."), Some(true)))
  {
    if mesg.sourceId != b.owner {
      return Ok(Reply(b, c, Some(false)));
    }
    var to := OwnerId(b);
    match RequestOf(mesg)
    case ListGroups =>
      var text := Listing(b.profile, order, showDict);
      if text.Err? {
        return Err(text.fault);
      }
      var c1 := SendPrivate(c, to, text.value);
      r := Ok(Reply(b, c1, Some(true)));
    case JoinGroup(g) =>
      var found := FindGroup(b.profile, order, g);
      if found.Err? {
        return Err(found.fault);
      }
      if Subscribed(found.value) {
        var c1 := SendPrivate(c, to, "Already subscribed to " + g + " (" + found.value.value.1 + ").");
        r := Ok(Reply(b, c1, Some(true)));
      } else {
        var c1 := SendPrivate(c, to, "Joining " + g + "...");
        var (c2, _) := Protocol.SendPacket(c1, PalPacket.GroupJoin(g, ""));
        r := Ok(Reply(b, c2, Some(true)));
      }
    case LeaveGroup(g) =>
      var found := FindGroup(b.profile, order, g);
      if found.Err? {
        return Err(found.fault);
      }
      if Subscribed(found.value) {
        var gid := found.value.value.1;
        var c1 := SendPrivate(c, to, "Leaving " + g + " (" + gid + ")...");
        var (c2, id) := Protocol.SendPacket(c1, PalPacket.GroupLeave(gid));
        r := Ok(Reply(b.(responses := b.responses[Decimal(id.value) := gid]), c2, Some(true)));
      } else {
        var c1 := SendPrivate(c, to, "Not subscribed to " + g + ".");
        r := Ok(Reply(b, c1, Some(true)));
      }
    case Unknown =>
      r := Ok(Reply(b, c, None));
    case NotCommand =>
      r := Ok(Reply(b, c, Some(false)));
  }

  /** The unsubscribe that `/l` writes carries the message id under which
      the removal is registered, and the group id. */
  lemma {:induction false} LeaveStamped(c1: Protocol.Conn, gid: string)
    ensures var r := Protocol.SendPacket(c1, PalPacket.GroupLeave(gid));
      var sent := r.0.wire[|c1.wire|];
      && r.1 == Some(c1.mesgId)
      && sent.command == "GROUP UNSUB"
      && GetValueI(sent.headers, "group-id") == Some(gid)
      && GetValueI(sent.headers, "mesg-id") == Some(Decimal(c1.mesgId))
  {
    var p := PalPacket.GroupLeave(gid);
    assert !EqualI("group-id", "mesg-id");
    assert Protocol.SendPacket(c1, p).0.wire[|c1.wire|] == Protocol.Stamp(p, c1.mesgId);
  }

  /** The server's confirmation of the registered id removes the group and
      the registration, whatever else was registered. */
  lemma {:induction false} LeaveConfirmed(b: PalBot, key: string, gid: string)
    requires "group_sub" in b.profile && b.profile["group_sub"].Node?
    ensures var b1 := b.(responses := b.responses[key := gid]);
      OnResponse(b1, Some("0"), Some("4"), Some(key))
        == Ok(b.(profile := b.profile["group_sub" := Node(b.profile["group_sub"].children - {gid})],
                 responses := b.responses - {key}))
  {
    var b1 := b.(responses := b.responses[key := gid]);
    assert b1.responses - {key} == b.responses - {key};
    var sub := b.profile["group_sub"].children;
    if gid !in sub {
      assert sub - {gid} == sub;
      assert b.profile["group_sub" := Node(sub)] == b.profile;
    }
  }
}
