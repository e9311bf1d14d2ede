/** The string operations of .NET and JavaScript that the modelled code relies on,
    written out over `seq<char>`. */
module Text {

  /** `s` is non-empty and its last character is `c`. */
  predicate EndsWith(s: string, c: char) {
    |s| > 0 && s[|s| - 1] == c
  }

  /** `w` occurs in `s` starting at index `i`. */
  predicate OccursAt(s: string, w: string, i: int) {
    0 <= i && i + |w| <= |s| && s[i..i + |w|] == w
  }

  /** Ordinal `String.Contains`: `w` occurs somewhere in `s`. */
  predicate Contains(s: string, w: string) {
    exists i :: 0 <= i <= |s| && OccursAt(s, w, i)
  }

  /** No character of `s` is `c`. */
  predicate Free(s: string, c: char) {
    forall i :: 0 <= i < |s| ==> s[i] != c
  }

  /** .NET `String.Replace(pat, rep)`: occurrences of `pat` are found from left to
      right, without overlapping, and each is replaced by `rep`. */
  function Replace(s: string, pat: string, rep: string): string
    requires |pat| > 0
    decreases |s|
  {
    if |s| < |pat| then s
    else if s[..|pat|] == pat then rep + Replace(s[|pat|..], pat, rep)
    else [s[0]] + Replace(s[1..], pat, rep)
  }

  /** .NET `String.TrimEnd(chars)`: drops trailing characters that are in `cs`. */
  function TrimEnd(s: string, cs: set<char>): (r: string)
    ensures |r| <= |s| && r == s[..|r|]
    ensures forall i :: |r| <= i < |s| ==> s[i] in cs
    ensures r == [] || r[|r| - 1] !in cs
    decreases |s|
  {
    if s != [] && s[|s| - 1] in cs then TrimEnd(s[..|s| - 1], cs) else s
  }

  /** Lower-casing of one character (ASCII letters only). */
  function LowerChar(c: char): char {
    if 'A' <= c <= 'Z' then (c as int + 32) as char else c
  }

  /** `String.ToLower`, restricted to the ASCII letters. */
  function Lower(s: string): (r: string)
    ensures |r| == |s|
    ensures forall i :: 0 <= i < |s| ==> r[i] == LowerChar(s[i])
  {
    if s == [] then [] else [LowerChar(s[0])] + Lower(s[1..])
  }

  /** `String.LastIndexOf(c)`: the index of the last `c` in `s`, or -1 when there is none. */
  function LastIndexOf(s: string, c: char): (r: int)
    ensures -1 <= r < |s|
    ensures r >= 0 ==> s[r] == c
    ensures forall j :: r < j < |s| ==> s[j] != c
  {
    if s == [] then -1
    else if s[|s| - 1] == c then |s| - 1
    else LastIndexOf(s[..|s| - 1], c)
  }

  /** JavaScript `String.prototype.split(sep)` for a one-character separator:
      the pieces between separators, always at least one (`"".split(" ")` is `[""]`). */
  function Split(s: string, sep: char): (pieces: seq<string>)
    ensures |pieces| >= 1
    decreases |s|
  {
    if s == [] then [""]
    else
      var rest := Split(s[1..], sep);
      if s[0] == sep then [""] + rest
      else [[s[0]] + rest[0]] + rest[1..]
  }

  /** Array `join(sep)`: the inverse of `Split`. */
  function Join(pieces: seq<string>, sep: char): string
    requires |pieces| >= 1
  {
    if |pieces| == 1 then pieces[0] else pieces[0] + [sep] + Join(pieces[1..], sep)
  }

  /** Splitting loses nothing: the pieces hold no separator and joining them gives `s` back. */
  lemma {:induction false} SplitJoin(s: string, sep: char)
    ensures forall k :: 0 <= k < |Split(s, sep)| ==> Free(Split(s, sep)[k], sep)
    ensures Join(Split(s, sep), sep) == s
    decreases |s|
  {
    if s != [] {
      var rest := Split(s[1..], sep);
      SplitJoin(s[1..], sep);
      if s[0] == sep {
        assert Split(s, sep)[1..] == rest;
        assert [sep] + Join(rest, sep) == s;
      } else {
        var ps := Split(s, sep);
        assert ps[0] == [s[0]] + rest[0];
        assert forall k :: 1 <= k < |ps| ==> ps[k] == rest[k];
        if |rest| == 1 {
          assert rest[0] == s[1..];
        } else {
          assert ps[1..] == rest[1..];
          assert Join(rest, sep) == rest[0] + [sep] + Join(rest[1..], sep);
        }
      }
    }
  }

  /** A first character that cannot start `pat` survives `Replace`. */
  lemma ReplaceKeepsFirst(s: string, pat: string, rep: string)
    requires |pat| > 0 && |s| > 0 && s[0] != pat[0]
    ensures |Replace(s, pat, rep)| > 0 && Replace(s, pat, rep)[0] == s[0]
  {
    if |s| >= |pat| {
      assert s[..|pat|][0] != pat[0];
    }
  }

  /** `Replace(x + s, x, "")` drops the leading `x`, and leaves a shorter rest alone. */
  lemma ReplaceLeading(x: string, s: string)
    requires |x| > 0 && |s| < |x|
    ensures Replace(x + s, x, "") == s
  {
    assert (x + s)[..|x|] == x;
    assert (x + s)[|x|..] == s;
  }

  /** An occurrence survives putting `p` in front, shifted by `|p|`. */
  lemma OccursAfterPrefix(p: string, r: string, w: string, j: int)
    requires OccursAt(r, w, j)
    ensures OccursAt(p + r, w, |p| + j)
  {
    assert (p + r)[|p| + j..|p| + j + |w|] == r[j..j + |w|];
  }

  /** A word contained in `r` is contained in `p + r`. */
  lemma ContainsAfterPrefix(p: string, r: string, w: string)
    requires Contains(r, w)
    ensures Contains(p + r, w)
  {
    var j :| 0 <= j <= |r| && OccursAt(r, w, j);
    OccursAfterPrefix(p, r, w, j);
    assert OccursAt(p + r, w, |p| + j);
  }

  /** An occurrence at `i` is at `i - k` in the suffix from `k`. */
  lemma OccursInSuffix(s: string, w: string, i: int, k: nat)
    requires OccursAt(s, w, i) && k <= i
    ensures OccursAt(s[k..], w, i - k)
  {
    assert s[k..][i - k..i - k + |w|] == s[i..i + |w|];
  }

  /** Collapsing `//` passes over a prefix without `/` unchanged. */
  lemma {:induction false} CollapseKeepsSlashFreePrefix(w: string, y: string)
    requires Free(w, '/')
    ensures Replace(w + y, "//", "/") == w + Replace(y, "//", "/")
    decreases |w|
  {
    if w != [] {
      var s := w + y;
      assert s[1..] == w[1..] + y;
      CollapseKeepsSlashFreePrefix(w[1..], y);
      if |s| >= 2 {
        assert s[..2] != "//" by { assert s[0] == w[0] != '/'; }
        calc {
          Replace(s, "//", "/");
          [w[0]] + Replace(w[1..] + y, "//", "/");
          [w[0]] + (w[1..] + Replace(y, "//", "/"));
          ([w[0]] + w[1..]) + Replace(y, "//", "/");
          { assert [w[0]] + w[1..] == w; }
          w + Replace(y, "//", "/");
        }
      } else {
        assert y == [] && s == w;
        assert Replace(y, "//", "/") == [];
      }
    } else {
      assert w + y == y;
    }
  }

  /** A non-empty word without `/` that occurs in `s` still occurs once `//` is collapsed. */
  lemma {:induction false} CollapseKeepsSlashFreeWord(s: string, w: string, i: nat)
    requires Free(w, '/') && |w| > 0 && OccursAt(s, w, i)
    ensures Contains(Replace(s, "//", "/"), w)
    decreases i
  {
    var r := Replace(s, "//", "/");
    if i == 0 {
      assert s == w + s[|w|..];
      CollapseKeepsSlashFreePrefix(w, s[|w|..]);
      assert OccursAt(r, w, 0);
    } else if |s| >= 2 && s[..2] == "//" {
      // the matched pair cannot reach into w, whose first character is not '/'
      assert s[i] == w[0] != '/' by { assert s[i..i + |w|][0] == s[i]; }
      assert s[1] == '/' by { assert s[..2][1] == s[1]; }
      OccursInSuffix(s, w, i, 2);
      CollapseKeepsSlashFreeWord(s[2..], w, i - 2);
      assert r == "/" + Replace(s[2..], "//", "/");
      ContainsAfterPrefix("/", Replace(s[2..], "//", "/"), w);
    } else {
      OccursInSuffix(s, w, i, 1);
      CollapseKeepsSlashFreeWord(s[1..], w, i - 1);
      assert r == [s[0]] + Replace(s[1..], "//", "/");
      ContainsAfterPrefix([s[0]], Replace(s[1..], "//", "/"), w);
    }
  }

  /** The same, for a word known only to occur somewhere. */
  lemma CollapseKeepsContainedWord(s: string, w: string)
    requires Free(w, '/') && |w| > 0 && Contains(s, w)
    ensures Contains(Replace(s, "//", "/"), w)
  {
    var i :| 0 <= i <= |s| && OccursAt(s, w, i);
    CollapseKeepsSlashFreeWord(s, w, i);
  }
}
