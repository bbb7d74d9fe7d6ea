/**
 Names of kernel modules: a dash counts as an underscore, and the file of a module is searched
 with a pattern that accepts either spelling.
 */
module ModuleNames {

  predicate IsDash(c: char) {
    c == '-' || c == '_'
  }

  function Plain(c: char): char {
    if c == '-' then '_' else c
  }

  function Normalize(name: string): (r: string)
    ensures |r| == |name| && forall i | 0 <= i < |name| :: r[i] == Plain(name[i])
  {
    seq(|name|, i requires 0 <= i < |name| => Plain(name[i]))
  }

  /** Two names are one module's exactly if they differ in nothing but dashes for underscores. */
  lemma OneModuleIff(a: string, b: string)
    ensures Normalize(a) == Normalize(b) <==>
      |a| == |b| && forall i | 0 <= i < |a| :: a[i] == b[i] || {a[i], b[i]} == {'-', '_'}
    ensures Normalize(Normalize(a)) == Normalize(a) && '-' !in Normalize(a)
  {
    if Normalize(a) == Normalize(b) {
      forall i | 0 <= i < |a| ensures a[i] == b[i] || {a[i], b[i]} == {'-', '_'} {
        assert Normalize(a)[i] == Normalize(b)[i];
      }
    }
  }

  const DASH: string := "[_|-]"

  /** The regular expression for the first `n` characters: every dash or underscore becomes a character class. */
  function Pattern(name: string, n: nat): string
    requires n <= |name|
  {
    if n == 0 then [] else Pattern(name, n - 1) + if IsDash(name[n - 1]) then DASH else [name[n - 1]]
  }

  /** `std::string::find` for a character; the length of the text when there is none. */
  method Find(s: string, c: char, start: nat) returns (pos: nat)
    requires start <= |s|
    ensures start <= pos <= |s| && (pos < |s| ==> s[pos] == c)
    ensures forall i | start <= i < pos :: s[i] != c
  {
    pos := start;
    while pos < |s| && s[pos] != c
      invariant start <= pos <= |s| && forall i | start <= i < pos :: s[i] != c
    {
      pos := pos + 1;
    }
  }

  /** Everything before `start` is rewritten, everything behind it only normalised. */
  ghost predicate Rewritten(name: string, done: nat, pattern: string, start: nat) {
    && done <= |name|
    && start <= |pattern| == start + (|name| - done)
    && pattern[..start] == Pattern(name, done)
    && forall i | start <= i < |pattern| :: pattern[i] == Plain(name[done + (i - start)])
  }

  /** Up to the next underscore the text is copied. */
  lemma {:induction false} PlainStretch(name: string, done: nat, pattern: string, start: nat, pos: nat)
    requires Rewritten(name, done, pattern, start) && start <= pos <= |pattern|
    requires forall i | start <= i < pos :: pattern[i] != '_'
    ensures pattern[..pos] == Pattern(name, done + (pos - start))
    decreases pos
  {
    if start < pos {
      PlainStretch(name, done, pattern, start, pos - 1);
      assert pattern[..pos] == pattern[..pos - 1] + [pattern[pos - 1]];
    }
  }

  method ReplaceDash(ghost name: string, ghost done: nat, pattern: string, ghost start: nat, pos: nat)
    returns (next: string)
    requires Rewritten(name, done, pattern, start) && start <= pos < |pattern| && pattern[pos] == '_'
    requires forall i | start <= i < pos :: pattern[i] != '_'
    ensures Rewritten(name, done + (pos - start) + 1, next, pos + 5)
  {
    PlainStretch(name, done, pattern, start, pos);
    next := pattern[..pos] + DASH + pattern[pos + 1..];
    assert next[..pos + 5] == pattern[..pos] + DASH;
  }

  /** The rewriting loop of `findModuleFile`. */
  method FilePattern(modName: string) returns (pattern: string)
    ensures pattern == Pattern(modName, |modName|)
  {
    pattern := Normalize(modName);
    ghost var done := 0;
    var start := 0;
    var pos := Find(pattern, '_', start);
    while pos < |pattern|
      invariant Rewritten(modName, done, pattern, start)
      invariant start <= pos <= |pattern| && (pos < |pattern| ==> pattern[pos] == '_')
      invariant forall i | start <= i < pos :: pattern[i] != '_'
      decreases |modName| - done
    {
      pattern := ReplaceDash(modName, done, pattern, start, pos);
      done, start := done + (pos - start) + 1, pos + 5;
      pos := Find(pattern, '_', start);
    }
    PlainStretch(modName, done, pattern, start, |pattern|);
    assert pattern[..|pattern|] == pattern;
  }

  /** No character of the name but the dot means anything but itself in a regular expression. */
  predicate Simple(name: string) {
    forall i | 0 <= i < |name| :: name[i] !in METACHARACTERS
  }

  const METACHARACTERS: set<char> := {'*', '+', '?', '(', ')', '[', ']', '{', '}', '|', '\\', '^', '$'}

  /** A dot matches anything within a line. */
  predicate MatchesCharacter(p: char, c: char) {
    if p == '.' then c != '\n' && c != '\r' else c == p
  }

  /** How the pattern matches a file's name, read from the end: by a class of three, or by a character. */
  predicate Matches(pattern: string, file: string) {
    if pattern == [] then file == []
    else if file == [] then false
    else if |pattern| >= 5 && pattern[|pattern| - 5] == '[' && pattern[|pattern| - 1] == ']' then
      && file[|file| - 1] in pattern[|pattern| - 4..|pattern| - 1]
      && Matches(pattern[..|pattern| - 5], file[..|file| - 1])
    else
      && MatchesCharacter(pattern[|pattern| - 1], file[|file| - 1])
      && Matches(pattern[..|pattern| - 1], file[..|file| - 1])
  }

  /** A dash or underscore may be spelled in three ways, and anything may stand for a dot. */
  predicate Spells(name: string, n: nat, file: string)
    requires n <= |name|
  {
    |file| == n && forall i | 0 <= i < n ::
      if IsDash(name[i]) then file[i] in {'_', '|', '-'} else MatchesCharacter(name[i], file[i])
  }

  /** Each character is itself, except for the dashes. */
  predicate IsSpelling(name: string, file: string) {
    |file| == |name| && forall i | 0 <= i < |name| ::
      if IsDash(name[i]) then file[i] in {'_', '|', '-'} else file[i] == name[i]
  }

  /** A class matches one of its three characters. */
  lemma {:induction false} BracketMatches(q: string, bracket: string, file: string, a: char, b: char, c: char)
    requires file != [] && bracket == ['[', a, b, c, ']']
    ensures Matches(q + bracket, file) <==> file[|file| - 1] in {a, b, c} && Matches(q, file[..|file| - 1])
  {
    var p := q + bracket;
    var inside := p[|p| - 4..|p| - 1];
    assert p[|p| - 5] == bracket[0] && p[|p| - 1] == bracket[4] && p[..|p| - 5] == q;
    assert |inside| == 3 && inside[0] == bracket[1] && inside[1] == bracket[2] && inside[2] == bracket[3];
    assert inside == [a, b, c];
  }

  lemma {:induction false} ClassMatches(q: string, file: string)
    requires file != []
    ensures Matches(q + DASH, file) <==> file[|file| - 1] in {'_', '|', '-'} && Matches(q, file[..|file| - 1])
  {
    assert DASH == ['[', '_', '|', '-', ']'];
    BracketMatches(q, DASH, file, '_', '|', '-');
  }

  lemma CharacterMatches(q: string, c: char, file: string)
    requires file != [] && c != ']'
    ensures Matches(q + [c], file) <==> MatchesCharacter(c, file[|file| - 1]) && Matches(q, file[..|file| - 1])
  {
    var p := q + [c];
    assert p[|p| - 1] == c && p[..|p| - 1] == q;
  }

  lemma {:induction false} SpellsNext(name: string, n: nat, file: string, c: char, last: nat)
    requires n <= |name| && n == last + 1 && file != [] && c == name[last]
    ensures Spells(name, n, file) <==>
      && Spells(name, last, file[..|file| - 1])
      && if IsDash(c) then file[|file| - 1] in {'_', '|', '-'} else MatchesCharacter(c, file[|file| - 1])
  {
    var init := file[..|file| - 1];
    assert forall i | 0 <= i < |init| :: init[i] == file[i];
  }

  lemma {:induction false} UnclosedMatches(name: string, n: nat, file: string)
    requires ']' !in name && n <= |name|
    ensures Matches(Pattern(name, n), file) <==> Spells(name, n, file)
    decreases n
  {
    if n != 0 && file != [] {
      var last := n - 1;
      var q, c, init := Pattern(name, last), name[last], file[..|file| - 1];
      UnclosedMatches(name, last, init);
      SpellsNext(name, n, file, c, last);
      if IsDash(c) {
        assert Pattern(name, n) == q + DASH;
        ClassMatches(q, file);
      } else {
        assert Pattern(name, n) == q + [c];
        CharacterMatches(q, c, file);
      }
    } else if n != 0 {
      assert Pattern(name, n) != [];
    }
  }

  /** The pattern of a simple name matches exactly what spells that name, anything standing for a dot. */
  lemma PatternMatchesSpellings(name: string, file: string)
    requires Simple(name)
    ensures Matches(Pattern(name, |name|), file) <==> Spells(name, |name|, file)
  {
    UnclosedMatches(name, |name|, file);
  }

  /** It matches nothing but the spellings of the name exactly if there is no dot in it. */
  lemma {:induction false} OnlySpellingsIff(name: string)
    requires Simple(name)
    ensures (forall file :: Matches(Pattern(name, |name|), file) ==> IsSpelling(name, file)) <==> '.' !in name
  {
    if i :| 0 <= i < |name| && name[i] == '.' {
      DotIsAnything(name, i);
    } else {
      forall file | Matches(Pattern(name, |name|), file) ensures IsSpelling(name, file) {
        PatternMatchesSpellings(name, file);
      }
    }
  }

  lemma {:induction false} DotIsAnything(name: string, i: nat)
    requires Simple(name) && i < |name| && name[i] == '.'
    ensures Matches(Pattern(name, |name|), name[i := 'x']) && !IsSpelling(name, name[i := 'x'])
  {
    PatternMatchesSpellings(name, name[i := 'x']);
  }

  /** So another file can be taken for a module with a dot in its name. */
  lemma {:induction false} DotMatchesMore()
    ensures Matches(Pattern("a.b", 3), "axb")
  {
    assert "a.b"[1 := 'x'] == "axb";
    DotIsAnything("a.b", 1);
  }

  /** Names that normalise alike have the same pattern, and if they are simple it matches each of them. */
  lemma {:induction false} SameNormalFormSamePattern(a: string, b: string)
    requires Normalize(a) == Normalize(b)
    ensures |a| == |b| && Pattern(a, |a|) == Pattern(b, |b|)
    ensures Simple(a) ==> Matches(Pattern(a, |a|), b)
  {
    AlikeButForDashes(a, b);
    SamePattern(a, b, |a|);
    if Simple(a) {
      SpelledAlike(a, b);
      PatternMatchesSpellings(a, b);
    }
  }

  ghost predicate Alike(a: string, b: string) {
    |a| == |b| && forall i | 0 <= i < |a| :: a[i] == b[i] || (IsDash(a[i]) && IsDash(b[i]))
  }

  lemma AlikeButForDashes(a: string, b: string)
    requires Normalize(a) == Normalize(b)
    ensures Alike(a, b)
  {
    assert |a| == |b|;
    forall i | 0 <= i < |a| ensures a[i] == b[i] || (IsDash(a[i]) && IsDash(b[i])) {
      assert Normalize(a)[i] == Normalize(b)[i];
    }
  }

  lemma {:induction false} SpelledAlike(a: string, b: string)
    requires Alike(a, b) && Simple(a)
    ensures Spells(a, |a|, b)
  {
  }

  lemma {:induction false} SamePattern(a: string, b: string, n: nat)
    requires Alike(a, b) && n <= |a|
    ensures Pattern(a, n) == Pattern(b, n)
  {
    if n != 0 {
      SamePattern(a, b, n - 1);
    }
  }
}
