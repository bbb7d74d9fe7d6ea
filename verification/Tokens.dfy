/** Splitting text at a delimiter: empty pieces are skipped, as `strtok_r` and the search path parser do. */
module Tokens {

  /** The first place from i on, below n, that holds d; n if there is none. */
  function Next(s: string, i: nat, n: nat, d: char): (j: nat)
    requires i <= n <= |s|
    ensures i <= j <= n
    decreases n - i
  {
    if i == n || s[i] == d then i else Next(s, i + 1, n, d)
  }

  lemma {:induction false} NextStops(s: string, i: nat, n: nat, d: char)
    requires i <= n <= |s|
    ensures Next(s, i, n, d) < n ==> s[Next(s, i, n, d)] == d
    ensures forall k | i <= k < Next(s, i, n, d) :: s[k] != d
    decreases n - i
  {
    if i != n && s[i] != d {
      NextStops(s, i + 1, n, d);
    }
  }

  /** The tokens of s[i..n]. */
  function Split(s: string, i: nat, n: nat, d: char): seq<string>
    requires i <= n <= |s|
    decreases n - i
  {
    if i == n then []
    else if s[i] == d then Split(s, i + 1, n, d)
    else [s[i..Next(s, i, n, d)]] + Split(s, Next(s, i, n, d), n, d)
  }

  function Join(names: seq<string>, d: char): string {
    if names == [] then []
    else if |names| == 1 then names[0]
    else names[0] + [d] + Join(names[1..], d)
  }

  /** What can be joined and split again. */
  ghost predicate Plain(name: string, d: char) {
    name != [] && d !in name
  }

  lemma {:induction false} NextIs(s: string, i: nat, j: nat, n: nat, d: char)
    requires i <= j <= n <= |s| && d !in s[i..j] && (j < n ==> s[j] == d)
    ensures Next(s, i, n, d) == j
    decreases j - i
  {
    if i < j {
      assert s[i] == s[i..j][0] && s[i + 1..j] == s[i..j][1..];
      NextIs(s, i + 1, j, n, d);
    }
  }

  /** A piece of a text that stands somewhere stands there too. */
  lemma PieceAt(s: string, i: nat, n: nat, t: string, c: nat)
    requires i <= n <= |s| && s[i..n] == t && c <= |t|
    ensures s[i..i + c] == t[..c] && s[i + c..n] == t[c..] && (c < |t| ==> s[i + c] == t[c])
  {
    assert c < |t| ==> s[i + c] == s[i..n][c];
  }

  lemma CutPiece(s: string, i: nat, e: nat, n: nat)
    requires i <= e <= n <= |s|
    ensures s[i..n][..e - i] == s[i..e] && s[i..n][e - i..] == s[e..n]
  {
  }

  /** The tokens of a piece do not depend on where it stands. */
  lemma {:induction false} SplitMoves(s: string, i: nat, n: nat, t: string, j: nat, m: nat, d: char)
    requires i <= n <= |s| && j <= m <= |t| && s[i..n] == t[j..m]
    ensures Split(s, i, n, d) == Split(t, j, m, d)
    decreases n - i
  {
    if i < n {
      assert s[i] == s[i..n][0] == t[j];
      NextMoves(s, i, n, t, j, m, d);
      var e, f := if s[i] == d then i + 1 else Next(s, i, n, d), if s[i] == d then j + 1 else Next(t, j, m, d);
      CutPiece(s, i, e, n);
      CutPiece(t, j, f, m);
      SplitMoves(s, e, n, t, f, m, d);
    }
  }

  lemma {:induction false} NextMoves(s: string, i: nat, n: nat, t: string, j: nat, m: nat, d: char)
    requires i <= n <= |s| && j <= m <= |t| && s[i..n] == t[j..m]
    ensures Next(s, i, n, d) - i == Next(t, j, m, d) - j
    decreases n - i
  {
    if i < n {
      assert s[i] == s[i..n][0] == t[j];
      assert s[i + 1..n] == s[i..n][1..] == t[j + 1..m];
      NextMoves(s, i + 1, n, t, j + 1, m, d);
    }
  }

  /** Splitting inverts joining, wherever the joined text stands. */
  lemma {:induction false} SplitOfJoin(s: string, i: nat, n: nat, names: seq<string>, d: char)
    requires i <= n <= |s| && s[i..n] == Join(names, d)
    requires forall k | 0 <= k < |names| :: Plain(names[k], d)
    ensures Split(s, i, n, d) == names
    decreases |names|
  {
    if names != [] {
      var j := i + |names[0]|;
      assert Plain(names[0], d) && s[i] == s[i..n][0] == names[0][0];
      assert s[i..j] == s[i..n][..j - i] == names[0];
      if |names| == 1 {
        NextIs(s, i, j, n, d);
        assert names == [names[0]];
      } else {
        assert s[j] == s[i..n][j - i] == d;
        NextIs(s, i, j, n, d);
        assert s[j + 1..n] == s[i..n][j - i + 1..] == Join(names[1..], d);
        SplitOfJoin(s, j + 1, n, names[1..], d);
        assert names == [names[0]] + names[1..];
      }
    }
  }

  function Flat(names: seq<string>): string {
    if names == [] then [] else names[0] + Flat(names[1..])
  }

  function Without(s: string, i: nat, n: nat, d: char): string
    requires i <= n <= |s|
    decreases n - i
  {
    if i == n then [] else (if s[i] == d then [] else [s[i]]) + Without(s, i + 1, n, d)
  }

  /** For any text the tokens, one behind the other, are the text without its delimiters. */
  lemma {:induction false} SplitKeepsText(s: string, i: nat, n: nat, d: char)
    requires i <= n <= |s|
    ensures Flat(Split(s, i, n, d)) == Without(s, i, n, d)
    decreases n - i
  {
    if i < n {
      if s[i] == d {
        SplitKeepsText(s, i + 1, n, d);
      } else {
        var j := Next(s, i, n, d);
        var rest := Split(s, j, n, d);
        SplitKeepsText(s, j, n, d);
        NextStops(s, i, n, d);
        WithoutPlain(s, i, j, n, d);
        assert ([s[i..j]] + rest)[1..] == rest;
      }
    }
  }

  lemma {:induction false} SplitIsPlain(s: string, i: nat, n: nat, d: char, k: nat)
    requires i <= n <= |s| && k < |Split(s, i, n, d)|
    ensures Plain(Split(s, i, n, d)[k], d)
    decreases n - i
  {
    if s[i] == d {
      SplitIsPlain(s, i + 1, n, d, k);
    } else {
      NextStops(s, i, n, d);
      if k > 0 {
        SplitIsPlain(s, Next(s, i, n, d), n, d, k - 1);
      }
    }
  }

  lemma {:induction false} WithoutPlain(s: string, i: nat, j: nat, n: nat, d: char)
    requires i <= j <= n <= |s| && forall k | i <= k < j :: s[k] != d
    ensures Without(s, i, n, d) == s[i..j] + Without(s, j, n, d)
    decreases j - i
  {
    if i < j {
      WithoutPlain(s, i + 1, j, n, d);
      assert s[i..j] == [s[i]] + s[i + 1..j];
    }
  }

  method Find(s: string, i: nat, n: nat, d: char) returns (j: nat)
    requires i <= n <= |s|
    ensures j == Next(s, i, n, d)
  {
    j := i;
    while j < n && s[j] != d
      invariant i <= j <= n && Next(s, j, n, d) == Next(s, i, n, d)
    {
      j := j + 1;
    }
  }

  /** `find_first_not_of` for one delimiter, with the length for no position. */
  method FindNot(s: string, i: nat, d: char) returns (j: nat)
    requires i <= |s|
    ensures i <= j <= |s| && (j < |s| ==> s[j] != d)
    ensures Split(s, i, |s|, d) == Split(s, j, |s|, d)
  {
    j := i;
    while j < |s| && s[j] == d
      invariant i <= j <= |s| && Split(s, i, |s|, d) == Split(s, j, |s|, d)
    {
      j := j + 1;
    }
  }

  /** The tokens, each behind the root path. */
  function Rooted(root: string, dirs: seq<string>): seq<string> {
    seq(|dirs|, i requires 0 <= i < |dirs| => root + dirs[i])
  }

  class SearchPath {
    var rootPath: string
    var ldLibraryPaths: seq<string>

    /** Every directory named between colons is appended, in order, behind the root path. */
    method SetLibraryDir(dirName: string)
      modifies this`ldLibraryPaths
      ensures ldLibraryPaths == old(ldLibraryPaths) + Rooted(rootPath, Split(dirName, 0, |dirName|, ':'))
    {
      ghost var dirs: seq<string> := [];
      var lastPos := FindNot(dirName, 0, ':');
      var pos := Find(dirName, lastPos, |dirName|, ':');
      while pos < |dirName| || lastPos < |dirName|
        invariant lastPos <= pos <= |dirName| && (lastPos < |dirName| ==> dirName[lastPos] != ':')
        invariant pos == Next(dirName, lastPos, |dirName|, ':')
        invariant dirs + Split(dirName, lastPos, |dirName|, ':') == Split(dirName, 0, |dirName|, ':')
        invariant ldLibraryPaths == old(ldLibraryPaths) + Rooted(rootPath, dirs)
        decreases |dirName| - lastPos
      {
        var dir := dirName[lastPos..pos];
        ldLibraryPaths := ldLibraryPaths + [rootPath + dir];
        dirs := dirs + [dir];
        lastPos := FindNot(dirName, pos, ':');
        pos := Find(dirName, lastPos, |dirName|, ':');
      }
    }
  }

  /** A search path that is a join of plain names adds exactly these names, each behind the root. */
  lemma LibraryDirsOfJoin(root: string, dirs: seq<string>)
    requires forall k | 0 <= k < |dirs| :: Plain(dirs[k], ':')
    ensures var path := Join(dirs, ':'); Split(path, 0, |path|, ':') == dirs
    ensures |Rooted(root, dirs)| == |dirs| && forall k | 0 <= k < |dirs| :: Rooted(root, dirs)[k] == root + dirs[k]
  {
    var path := Join(dirs, ':');
    assert path[0..|path|] == path;
    SplitOfJoin(path, 0, |path|, dirs, ':');
  }
}
