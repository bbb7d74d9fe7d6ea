/**
 The dependencies in a module's .modinfo section: NUL-terminated records, padded with NULs, of which
 the first that begins with "depends" lists names between commas. The names are cut out in place.
 Memory behind the section reads as NUL.
 */
module Modinfo {
  import opened Tokens

  const NUL: char := '\0'
  const KEY: string := "depends"

  /** `strncmp` with a key at a place of the section. */
  predicate HasKey(s: string, i: nat, key: string) {
    i + |key| <= |s| && s[i..i + |key|] == key
  }

  /** The names asked for by the section from i on. */
  function Requests(s: string, i: nat, key: string): seq<string>
    requires i <= |s|
    decreases |s| - i
  {
    if i == |s| then []
    else if s[i] == NUL then Requests(s, i + 1, key)
    else if !HasKey(s, i, key) then
      var n := Next(s, i, |s|, NUL);
      if n == |s| then [] else Requests(s, n + 1, key)
    else if i + |key| + 1 > |s| then []
    else Split(s, i + |key| + 1, Next(s, i + |key| + 1, |s|, NUL), ',')
  }

  /** A record with the NULs behind its terminator. */
  datatype Record = Record(text: string, pad: nat)

  /** From i on the section holds `lead` NULs and then these records, each with its NULs, up to the end. */
  ghost predicate Rendered(s: string, i: nat, lead: nat, records: seq<Record>)
    decreases |records|
  {
    && i + lead <= |s|
    && (forall k | i <= k < i + lead :: s[k] == NUL)
    && (records == [] ==> i + lead == |s|)
    && (records != [] ==>
      && RecordAt(s, i + lead, records[0].text)
      && Rendered(s, i + lead + |records[0].text| + 1, records[0].pad, records[1..]))
  }

  predicate RecordAt(s: string, m: nat, text: string) {
    m + |text| < |s| && s[m..m + |text|] == text && s[m + |text|] == NUL
  }

  /** The place of the first record that begins with the key. */
  function FirstWith(records: seq<Record>, key: string): (k: nat)
    ensures k <= |records| && (k < |records| ==> HasKey(records[k].text, 0, key))
  {
    if records == [] || HasKey(records[0].text, 0, key) then 0 else 1 + FirstWith(records[1..], key)
  }

  lemma {:induction false} SkipNuls(s: string, i: nat, lead: nat, key: string)
    requires i + lead <= |s| && forall k | i <= k < i + lead :: s[k] == NUL
    ensures Requests(s, i, key) == Requests(s, i + lead, key)
    decreases lead
  {
    if lead > 0 {
      SkipNuls(s, i + 1, lead - 1, key);
    }
  }

  lemma KeyAtHead(s: string, m: nat, t: string, key: string)
    requires RecordAt(s, m, t) && NUL !in key
    ensures HasKey(s, m, key) <==> HasKey(t, 0, key)
  {
    if |key| <= |t| {
      PieceAt(s, m, m + |t|, t, |key|);
      assert t[0..|key|] == t[..|key|];
    } else {
      assert m + |key| <= |s| ==> s[m..m + |key|][|t|] == NUL;
    }
  }

  lemma TailIsPlain(s: string, m: nat, n: nat, t: string, j: nat)
    requires RecordAt(s, m, t) && NUL !in t && m <= j <= n == m + |t|
    ensures Next(s, j, |s|, NUL) == n && (j < n ==> s[j] != NUL)
  {
    PieceAt(s, m, n, t, j - m);
    assert NUL !in t[j - m..];
    NextIs(s, j, n, |s|, NUL);
  }

  lemma {:induction false} AtOther(s: string, m: nat, n: nat, next: nat, t: string, key: string)
    requires RecordAt(s, m, t) && n == m + |t| && next == n + 1
    requires Tokens.Plain(t, NUL) && !HasKey(t, 0, key) && NUL !in key
    ensures Requests(s, m, key) == Requests(s, next, key)
  {
    KeyAtHead(s, m, t, key);
    TailIsPlain(s, m, n, t, m);
  }

  lemma {:induction false} AtKey(s: string, m: nat, n: nat, t: string, key: string, j: nat, c: nat)
    requires RecordAt(s, m, t) && n == m + |t| && Tokens.Plain(t, NUL) && HasKey(t, 0, key) && NUL !in key
    requires |key| < |t| && c == |key| + 1 && j == m + c
    ensures Requests(s, m, key) == Split(t, c, |t|, ',')
  {
    KeyAtHead(s, m, t, key);
    TailIsPlain(s, m, n, t, m);
    RequestsAtKey(s, m, j, key);
    TailIsPlain(s, m, n, t, j);
    PieceAt(s, m, n, t, c);
    SplitMoves(s, j, n, t, c, |t|, ',');
  }

  lemma RequestsAtKey(s: string, m: nat, j: nat, key: string)
    requires m < |s| && s[m] != NUL && HasKey(s, m, key) && j == m + |key| + 1 <= |s|
    ensures Requests(s, m, key) == Split(s, j, Next(s, j, |s|, NUL), ',')
  {
  }

  /** No record is empty or holds a NUL. */
  ghost predicate Proper(records: seq<Record>) {
    forall k | 0 <= k < |records| :: Tokens.Plain(records[k].text, NUL)
  }

  /** What a record with the key lists: the names behind the key and one character. */
  function Own(t: string, key: string): seq<string> {
    if |key| < |t| then Split(t, |key| + 1, |t|, ',') else []
  }

  /** What the first record with the key lists. */
  function Listed(records: seq<Record>, key: string): seq<string> {
    var k := FirstWith(records, key);
    if k == |records| then [] else Own(records[k].text, key)
  }

  /**
   What is asked for when record k is the first with the key. Behind a bare key the code steps over the
   terminator, so that it takes the text of a record that follows at once for the list.
   */
  function AskedAt(records: seq<Record>, key: string, k: nat): seq<string>
    requires k <= |records|
  {
    if k == |records| then []
    else if |records[k].text| > |key| then Own(records[k].text, key)
    else if records[k].pad == 0 && k + 1 < |records| then Split(records[k + 1].text, 0, |records[k + 1].text|, ',')
    else []
  }

  function Asked(records: seq<Record>, key: string): seq<string> {
    AskedAt(records, key, FirstWith(records, key))
  }

  lemma AskedTail(records: seq<Record>, t: string, key: string)
    requires Proper(records) && records != [] && t == records[0].text
    ensures Tokens.Plain(t, NUL) && Proper(records[1..])
    ensures HasKey(t, 0, key) ==> Asked(records, key) == AskedAt(records, key, 0)
    ensures !HasKey(t, 0, key) ==> Asked(records, key) == Asked(records[1..], key)
  {
  }

  lemma RenderedHead(s: string, i: nat, lead: nat, records: seq<Record>, m: nat, next: nat, key: string)
    requires Rendered(s, i, lead, records) && m == i + lead
    requires records != [] ==> next == m + |records[0].text| + 1
    ensures Requests(s, i, key) == if m < |s| then Requests(s, m, key) else []
    ensures records == [] ==> m == |s|
    ensures records != [] ==> RecordAt(s, m, records[0].text) && Rendered(s, next, records[0].pad, records[1..])
  {
    SkipNuls(s, i, lead, key);
  }

  /** A bare key: what follows its terminator is split. */
  lemma {:induction false} AtBareKey(s: string, m: nat, next: nat, records: seq<Record>, key: string)
    requires Proper(records) && records != [] && records[0].text == key && NUL !in key
    requires RecordAt(s, m, key) && next == m + |key| + 1 && Rendered(s, next, records[0].pad, records[1..])
    ensures Requests(s, m, key) == AskedAt(records, key, 0)
  {
    assert Tokens.Plain(key, NUL);
    TailIsPlain(s, m, m + |key|, key, m);
    RequestsAtKey(s, m, next, key);
    if records[0].pad == 0 && 1 < |records| {
      var t := records[1].text;
      assert records[1..][0] == records[1] && Tokens.Plain(t, NUL);
      var n := next + |t|;
      TailIsPlain(s, next, n, t, next);
      SplitMoves(s, next, n, t, 0, |t|, ',');
    } else {
      assert next < |s| ==> s[next] == NUL;
    }
  }

  /** Of any rendering, exactly this is asked for. */
  lemma {:induction false} RequestsOfRendering(s: string, i: nat, lead: nat, records: seq<Record>, key: string)
    requires NUL !in key && Proper(records) && Rendered(s, i, lead, records)
    ensures Requests(s, i, key) == Asked(records, key)
    decreases |records|
  {
    var m := i + lead;
    if records == [] {
      RenderedHead(s, i, lead, records, m, m, key);
    } else {
      var t := records[0].text;
      var n, c := m + |t|, |key| + 1;
      var next, j := n + 1, m + c;
      RenderedHead(s, i, lead, records, m, next, key);
      AskedTail(records, t, key);
      if !HasKey(t, 0, key) {
        AtOther(s, m, n, next, t, key);
        RequestsOfRendering(s, next, records[0].pad, records[1..], key);
      } else if |key| < |t| {
        AtKey(s, m, n, t, key, j, c);
      } else {
        assert t == key;
        AtBareKey(s, m, next, records, key);
      }
    }
  }

  /** The first record with the key is the bare key, and a text with a name in it follows at once. */
  ghost predicate StepsOver(records: seq<Record>, key: string) {
    var k := FirstWith(records, key);
    && k + 1 < |records|
    && records[k].text == key
    && records[k].pad == 0
    && HasName(records[k + 1].text)
  }

  ghost predicate HasName(t: string) {
    exists i :: 0 <= i < |t| && t[i] != ','
  }

  /** What is asked for is what the first record with the key lists, exactly unless that record is stepped over. */
  lemma {:induction false} ListedIff(s: string, lead: nat, records: seq<Record>, key: string)
    requires NUL !in key && Proper(records) && Rendered(s, 0, lead, records)
    ensures Requests(s, 0, key) == Listed(records, key) <==> !StepsOver(records, key)
  {
    var k := FirstWith(records, key);
    RequestsOfRendering(s, 0, lead, records, key);
    if k < |records| && |records[k].text| <= |key| {
      assert records[k].text == records[k].text[0..|key|] == key;
      if k + 1 < |records| {
        var t := records[k + 1].text;
        NoNames(t, 0, |t|, ',');
      }
    }
  }

  /** A section in which it is: nothing is listed, and the module's own name record is asked for. */
  lemma {:induction false} BareKeyIsSteppedOver()
    ensures var s, records := "depends\0name=x\0", [Record("depends", 0), Record("name=x", 0)];
      && Proper(records) && Rendered(s, 0, 0, records) && StepsOver(records, KEY)
      && Listed(records, KEY) == [] && Requests(s, 0, KEY) == ["name=x"]
  {
    var s, records := "depends\0name=x\0", [Record("depends", 0), Record("name=x", 0)];
    BareKeyRendered();
    RequestsOfRendering(s, 0, 0, records, KEY);
    OneToken("name=x", 0, ',');
  }

  lemma {:induction false} BareKeyRendered()
    ensures var s, records := "depends\0name=x\0", [Record("depends", 0), Record("name=x", 0)];
      Proper(records) && Rendered(s, 0, 0, records) && records[1].text[0] != ','
  {
    var s, records := "depends\0name=x\0", [Record("depends", 0), Record("name=x", 0)];
    assert s[8..14] == "name=x" && Rendered(s, 8, 0, records[1..]);
  }

  lemma OneToken(t: string, i: nat, d: char)
    requires i < |t| && forall k | i <= k < |t| :: t[k] != d
    ensures Split(t, i, |t|, d) == [t[i..]]
  {
    NextIs(t, i, |t|, |t|, d);
    assert t[i..|t|] == t[i..];
  }

  /** A text has no tokens exactly if it is all delimiters. */
  lemma {:induction false} NoNames(s: string, i: nat, n: nat, d: char)
    requires i <= n <= |s|
    ensures Split(s, i, n, d) == [] <==> forall k | i <= k < n :: s[k] == d
    decreases n - i
  {
    if i < n && s[i] == d {
      NoNames(s, i + 1, n, d);
    }
  }

  /** If that record is the key, one character and a join of plain names, exactly these are asked for. */
  lemma {:induction false} NamesRequested(s: string, lead: nat, records: seq<Record>, key: string, equals: char,
    names: seq<string>)
    requires NUL !in key && Proper(records) && Rendered(s, 0, lead, records)
    requires var k := FirstWith(records, key);
      k < |records| && records[k].text == key + [equals] + Join(names, ',')
    requires forall k | 0 <= k < |names| :: Tokens.Plain(names[k], ',')
    ensures Requests(s, 0, key) == names
  {
    RequestsOfRendering(s, 0, lead, records, key);
    NamesListed(records[FirstWith(records, key)].text, |key| + 1, key, equals, names);
  }

  lemma NamesListed(t: string, c: nat, key: string, equals: char, names: seq<string>)
    requires t == key + [equals] + Join(names, ',') && c == |key| + 1
    requires forall k | 0 <= k < |names| :: Tokens.Plain(names[k], ',')
    ensures Split(t, c, |t|, ',') == names
  {
    assert t[c..|t|] == Join(names, ',');
    SplitOfJoin(t, c, |t|, names, ',');
  }

  lemma SameKey(s: string, i: nat, key: string, terminated: string)
    requires i < |s| && NUL !in key && terminated == s + [NUL]
    ensures HasKey(terminated, i, key) <==> HasKey(s, i, key)
  {
    var end := i + |key|;
    if end <= |s| {
      assert terminated[i..end] == s[i..end];
    } else if end == |terminated| {
      assert terminated[i..end][|key| - 1] == NUL;
    }
  }

  lemma {:induction false} NextOfTerminated(s: string, i: nat, terminated: string)
    requires i <= |s| && terminated == s + [NUL]
    ensures Next(terminated, i, |terminated|, NUL) == Next(s, i, |s|, NUL)
    decreases |s| - i
  {
    if i < |s| {
      NextOfTerminated(s, i + 1, terminated);
    }
  }

  lemma {:induction false} ListOfTerminated(s: string, j: nat, terminated: string)
    requires j <= |s| && terminated == s + [NUL]
    ensures Split(terminated, j, Next(terminated, j, |terminated|, NUL), ',') == Split(s, j, Next(s, j, |s|, NUL), ',')
  {
    var n := Next(s, j, |s|, NUL);
    NextOfTerminated(s, j, terminated);
    assert s[j..n] == terminated[j..n];
    SplitMoves(s, j, n, terminated, j, n, ',');
  }

  /** A section whose last record is not terminated asks for the same as with the terminator. */
  lemma {:induction false} LastTerminatorIsOptional(s: string, i: nat, key: string, terminated: string)
    requires i <= |s| && NUL !in key && terminated == s + [NUL]
    ensures Requests(terminated, i, key) == Requests(s, i, key)
    decreases |s| - i
  {
    if i == |s| {
      assert Requests(terminated, |terminated|, key) == [];
    } else if s[i] == NUL {
      LastTerminatorIsOptional(s, i + 1, key, terminated);
    } else {
      SameKey(s, i, key, terminated);
      NextOfTerminated(s, i, terminated);
      var n, j := Next(s, i, |s|, NUL), i + |key| + 1;
      if HasKey(s, i, key) {
        if j <= |s| {
          ListOfTerminated(s, j, terminated);
        }
      } else if n < |s| {
        LastTerminatorIsOptional(s, n + 1, key, terminated);
      } else {
        assert Requests(terminated, |terminated|, key) == [];
      }
    }
  }

  /* The code */

  /** A token from j on that ends at the delimiter at e, or at n. */
  lemma TokenEnds(text: string, j: nat, e: nat, n: nat, d: char)
    requires j <= e <= n <= |text| && j < n && text[j] != d && (e < n ==> text[e] == d)
    requires Next(text, j, n, d) == Next(text, e, n, d)
    ensures Split(text, j, n, d) == [text[j..e]] + Split(text, e, n, d)
    ensures e < n ==> Split(text, e, n, d) == Split(text, e + 1, n, d)
  {
    assert Next(text, e, n, d) == e;
  }

  /** `strtok_r`: the next token from `start` on; the delimiter behind it becomes a NUL. */
  method StrTok(buf: array<char>, start: nat, d: char, ghost text: string, ghost n: nat)
    returns (found: bool, token: string, next: nat)
    requires start <= n <= |text| == buf.Length && d != NUL
    requires forall k | start <= k < n :: buf[k] == text[k] && text[k] != NUL
    requires n < |text| ==> buf[n] == NUL
    modifies buf
    ensures start <= next <= n
    ensures found ==> Split(text, start, n, d) == [token] + Split(text, next, n, d)
    ensures !found ==> Split(text, start, n, d) == []
    ensures forall k | 0 <= k < buf.Length ::
              buf[k] == old(buf[k]) || (start <= k < next && old(buf[k]) == d && buf[k] == NUL)
  {
    var j := start;
    while j < buf.Length && buf[j] == d
      invariant start <= j <= n && Split(text, start, n, d) == Split(text, j, n, d)
    {
      j := j + 1;
    }
    if j == buf.Length || buf[j] == NUL {
      return false, [], j;
    }
    var e := j;
    while e < buf.Length && buf[e] != NUL && buf[e] != d
      invariant j <= e <= n && Next(text, j, n, d) == Next(text, e, n, d)
      invariant j < n && text[j] != d
    {
      e := e + 1;
    }
    TokenEnds(text, j, e, n, d);
    found, token, next := true, buf[j..e], e;
    assert token == text[j..e];
    if e < buf.Length && buf[e] != NUL {
      buf[e] := NUL;
      next := e + 1;
    }
  }

  method StrNCmp(buf: array<char>, i: nat, key: string) returns (equal: bool)
    requires i <= buf.Length
    ensures equal == HasKey(buf[..], i, key)
  {
    equal := i + |key| <= buf.Length && buf[i..i + |key|] == key;
  }

  method StrLen(buf: array<char>, i: nat) returns (n: nat)
    requires i <= buf.Length
    ensures i + n == Next(buf[..], i, buf.Length, NUL)
  {
    n := 0;
    while i + n < buf.Length && buf[i + n] != NUL
      invariant i + n <= buf.Length && Next(buf[..], i, buf.Length, NUL) == Next(buf[..], i + n, buf.Length, NUL)
    {
      n := n + 1;
    }
  }

  /** All that changed so far are commas, before the cursor. */
  ghost predicate CommasCut(now: string, text: string, cursor: nat) {
    && |now| == |text|
    && (forall k | cursor <= k < |text| :: now[k] == text[k])
    && (forall k | 0 <= k < |text| :: now[k] == text[k] || (text[k] == ',' && now[k] == NUL))
  }

  lemma CutMore(was: string, now: string, text: string, cursor: nat, next: nat)
    requires CommasCut(was, text, cursor) && cursor <= next && |now| == |was|
    requires forall k | 0 <= k < |was| ::
               now[k] == was[k] || (cursor <= k < next && was[k] == ',' && now[k] == NUL)
    ensures CommasCut(now, text, next)
  {
  }

  /** One call, with `text` as it was before the first. */
  method NextToken(modinfo: array<char>, from: nat, ghost text: string, ghost n: nat)
    returns (found: bool, token: string, cursor: nat)
    requires from <= n <= |text| && (n < |text| ==> text[n] == NUL)
    requires CommasCut(modinfo[..], text, from) && forall k | from <= k < n :: text[k] != NUL
    modifies modinfo
    ensures from <= cursor <= n && CommasCut(modinfo[..], text, cursor)
    ensures found ==> Split(text, from, n, ',') == [token] + Split(text, cursor, n, ',')
    ensures !found ==> Split(text, from, n, ',') == []
  {
    ghost var was := modinfo[..];
    assert forall k | from <= k < |text| :: was[k] == modinfo[k];
    found, token, cursor := StrTok(modinfo, from, ',', text, n);
    CutMore(was, modinfo[..], text, from, cursor);
  }

  lemma OneMore(requested: seq<string>, token: string, left: seq<string>)
    ensures requested + ([token] + left) == (requested + [token]) + left
  {
  }

  /** The token loop, which stands for the recursive `loadModule` calls by collecting their arguments. */
  method Tokenise(modinfo: array<char>, start: nat) returns (requested: seq<string>)
    requires start <= modinfo.Length
    modifies modinfo
    ensures requested ==
            Split(old(modinfo[..]), start, Next(old(modinfo[..]), start, |old(modinfo[..])|, NUL), ',')
    ensures CommasCut(modinfo[..], old(modinfo[..]), |old(modinfo[..])|)
  {
    ghost var text := modinfo[..];
    ghost var n := Next(text, start, |text|, NUL);
    NextStops(text, start, |text|, NUL);
    requested := [];
    var found, token, cursor := NextToken(modinfo, start, text, n);
    ghost var all := Split(text, start, n, ',');
    ghost var left := all;
    while found
      invariant start <= cursor <= n && CommasCut(modinfo[..], text, cursor)
      invariant all == requested + left && (!found ==> left == [])
      invariant found ==> left == [token] + Split(text, cursor, n, ',')
      decreases |left|
    {
      left := Split(text, cursor, n, ',');
      OneMore(requested, token, left);
      requested := requested + [token];
      found, token, cursor := NextToken(modinfo, cursor, text, n);
    }
  }

  /** `loadDependencies`: what is asked for, and what the tokeniser leaves of the section. */
  method LoadDependencies(modinfo: array<char>) returns (requested: seq<string>)
    modifies modinfo
    ensures requested == Requests(old(modinfo[..]), 0, KEY)
    ensures CommasCut(modinfo[..], old(modinfo[..]), |old(modinfo[..])|)
  {
    ghost var text := modinfo[..];
    var i := 0;
    while i < modinfo.Length
      invariant i <= modinfo.Length && modinfo[..] == text
      invariant Requests(text, 0, KEY) == Requests(text, i, KEY)
    {
      if modinfo[i] == NUL {
        i := i + 1;
        continue;
      }
      var equal := StrNCmp(modinfo, i, KEY);
      var n := StrLen(modinfo, i);
      if !equal {
        i := if i + n == modinfo.Length then i + n else i + n + 1;
      } else if i + |KEY| + 1 > modinfo.Length {
        return [];
      } else {
        i := i + |KEY| + 1;
        requested := Tokenise(modinfo, i);
        return;
      }
    }
    return [];
  }
}
