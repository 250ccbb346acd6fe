/**
  The string operations the OCR script borrows from Python: `str.strip`,
  ASCII `str.lower`, and `os.path.splitext` / `os.path.basename` for both
  path flavours (`posixpath` and `ntpath`).
*/
module Paths {

  /** Which `os.path` implementation the script runs under. */
  datatype Platform = Posix | Windows

  /** Path separators: `/` on POSIX; `\` and the alternative `/` on Windows. */
  function Separators(platform: Platform): set<char> {
    if platform == Posix then {'/'} else {'\\', '/'}
  }

  // ---------------------------------------------------------------------
  // str.strip()
  // ---------------------------------------------------------------------

  /** Python's `str.isspace` on one character (the code points it accepts). */
  predicate IsSpace(c: char) {
    var n := c as int;
    (9 <= n <= 13) || (28 <= n <= 32) || n == 0x85 || n == 0xA0 || n == 0x1680 ||
    (0x2000 <= n <= 0x200A) || n == 0x2028 || n == 0x2029 || n == 0x202F ||
    n == 0x205F || n == 0x3000
  }

  predicate AllSpace(s: string) {
    forall i :: 0 <= i < |s| ==> IsSpace(s[i])
  }

  lemma AllSpaceJoin(a: string, b: string)
    requires AllSpace(a) && AllSpace(b)
    ensures AllSpace(a + b)
  {
    forall i | 0 <= i < |a + b| ensures IsSpace((a + b)[i]) {
      if i >= |a| {
        assert (a + b)[i] == b[i - |a|];
      }
    }
  }

  /** Drops leading whitespace: the result is the suffix of `s` that starts at its first non-space. */
  function TrimStart(s: string): (r: string)
    ensures |r| <= |s| && r == s[|s| - |r|..]
    ensures r == [] || !IsSpace(r[0])
    ensures AllSpace(s[..|s| - |r|])
  {
    if s != [] && IsSpace(s[0]) then
      var r := TrimStart(s[1..]);
      var n := |s| - |r|;
      assert r == s[n..] by {
        assert s[1..][n - 1..] == s[n..];
      }
      assert AllSpace(s[..n]) by {
        assert s[..n] == [s[0]] + s[1..][..n - 1];
        AllSpaceJoin([s[0]], s[1..][..n - 1]);
      }
      r
    else s
  }

  /** Drops trailing whitespace: the result is the prefix of `s` that ends at its last non-space. */
  function TrimEnd(s: string): (r: string)
    ensures |r| <= |s| && r == s[..|r|]
    ensures r == [] || !IsSpace(r[|r| - 1])
    ensures AllSpace(s[|r|..])
  {
    if s != [] && IsSpace(s[|s| - 1]) then
      var r := TrimEnd(s[..|s| - 1]);
      assert r == s[..|r|] by {
        assert s[..|s| - 1][..|r|] == s[..|r|];
      }
      assert AllSpace(s[|r|..]) by {
        assert s[|r|..] == s[..|s| - 1][|r|..] + [s[|s| - 1]];
        AllSpaceJoin(s[..|s| - 1][|r|..], [s[|s| - 1]]);
      }
      r
    else s
  }

  /** `s.strip()`: whitespace removed from both ends. */
  function Strip(s: string): (r: string)
    ensures r == [] || (!IsSpace(r[0]) && !IsSpace(r[|r| - 1]))
    ensures r == [] <==> AllSpace(s)
  {
    var t := TrimStart(s);
    assert t != [] ==> t[0] == s[|s| - |t|];
    assert t == [] ==> s == s[..|s| - |t|];
    TrimEnd(t)
  }

  lemma {:induction false} TrimStartPast(spaces: string, rest: string)
    requires AllSpace(spaces)
    requires rest == [] || !IsSpace(rest[0])
    ensures TrimStart(spaces + rest) == rest
    decreases |spaces|
  {
    if spaces == [] {
      assert spaces + rest == rest;
    } else {
      assert (spaces + rest)[0] == spaces[0];
      assert (spaces + rest)[1..] == spaces[1..] + rest;
      TrimStartPast(spaces[1..], rest);
    }
  }

  lemma {:induction false} TrimEndPast(rest: string, spaces: string)
    requires AllSpace(spaces)
    requires rest == [] || !IsSpace(rest[|rest| - 1])
    ensures TrimEnd(rest + spaces) == rest
    decreases |spaces|
  {
    if spaces == [] {
      assert rest + spaces == rest;
    } else {
      var s := rest + spaces;
      assert s[|s| - 1] == spaces[|spaces| - 1];
      assert s[..|s| - 1] == rest + spaces[..|spaces| - 1];
      TrimEndPast(rest, spaces[..|spaces| - 1]);
    }
  }

  /** Strip keeps exactly the middle part: whatever surrounds a part with
      non-space ends, if it is all whitespace, is what `strip` removes. */
  lemma StripIsMiddle(before: string, middle: string, after: string)
    requires AllSpace(before) && AllSpace(after)
    requires middle == [] || (!IsSpace(middle[0]) && !IsSpace(middle[|middle| - 1]))
    ensures Strip(before + middle + after) == middle
  {
    if middle == [] {
      assert before + middle + after == (before + after) + [];
      TrimStartPast(before + after, []);
      assert TrimEnd([]) == [];
    } else {
      assert before + middle + after == before + (middle + after);
      TrimStartPast(before, middle + after);
      TrimEndPast(middle, after);
    }
  }

  // ---------------------------------------------------------------------
  // str.lower() on ASCII letters
  // ---------------------------------------------------------------------

  predicate IsUpper(c: char) {
    'A' <= c <= 'Z'
  }

  function LowerChar(c: char): char {
    if IsUpper(c) then (c as int + 32) as char else c
  }

  /** ASCII case folding: upper-case letters become lower-case, everything else is kept. */
  function LowerAscii(s: string): (r: string)
    ensures |r| == |s|
    ensures forall i :: 0 <= i < |s| ==> r[i] == LowerChar(s[i])
    ensures forall i :: 0 <= i < |r| ==> !IsUpper(r[i])
  {
    if s == [] then [] else [LowerChar(s[0])] + LowerAscii(s[1..])
  }

  /** Lower-casing keeps every character that is not an ASCII letter in place,
      so it preserves which positions hold a member of such a set. */
  predicate NoLetters(chars: set<char>) {
    forall c :: c in chars ==> !IsUpper(c) && !('a' <= c <= 'z')
  }

  // ---------------------------------------------------------------------
  // str.rfind, os.path.splitext, os.path.basename
  // ---------------------------------------------------------------------

  /** One past the position of the last character of `s` in `stops`, or 0 when
      there is none: Python's `s.rfind(c) + 1`, taken over a set of characters. */
  function LastEnd(s: string, stops: set<char>): (r: nat)
    ensures r <= |s|
    ensures r > 0 ==> s[r - 1] in stops
    ensures forall i :: r <= i < |s| ==> s[i] !in stops
  {
    if s == [] then 0
    else if s[|s| - 1] in stops then |s|
    else LastEnd(s[..|s| - 1], stops)
  }

  lemma {:induction false} LastEndAppend(a: string, b: string, stops: set<char>)
    ensures LastEnd(a + b, stops) == if LastEnd(b, stops) > 0 then |a| + LastEnd(b, stops) else LastEnd(a, stops)
    decreases |b|
  {
    if b == [] {
      assert a + b == a;
    } else if b[|b| - 1] in stops {
    } else {
      assert (a + b)[..|a + b| - 1] == a + b[..|b| - 1];
      LastEndAppend(a, b[..|b| - 1], stops);
    }
  }

  lemma LowerCharKeeps(c: char, stops: set<char>)
    requires NoLetters(stops)
    ensures LowerChar(c) in stops <==> c in stops
  {
  }

  /** `LastEnd` only sees which positions hold a member of `stops`. */
  lemma LastEndSamePattern(s: string, t: string, stops: set<char>)
    requires |s| == |t|
    requires forall i :: 0 <= i < |s| ==> (s[i] in stops <==> t[i] in stops)
    ensures LastEnd(s, stops) == LastEnd(t, stops)
  {
    var a, b := LastEnd(s, stops), LastEnd(t, stops);
    assert a > 0 ==> t[a - 1] in stops;
    assert b > 0 ==> s[b - 1] in stops;
  }

  lemma LastEndLower(s: string, stops: set<char>)
    requires NoLetters(stops)
    ensures LastEnd(LowerAscii(s), stops) == LastEnd(s, stops)
  {
    var l := LowerAscii(s);
    forall i | 0 <= i < |s| ensures l[i] in stops <==> s[i] in stops {
      LowerCharKeeps(s[i], stops);
    }
    LastEndSamePattern(l, s, stops);
  }

  predicate AllDots(s: string) {
    forall i :: 0 <= i < |s| ==> s[i] == '.'
  }

  /** True of a well-formed extension: empty, or a dot followed by characters
      that are neither dots nor separators. */
  predicate IsExtension(ext: string, platform: Platform) {
    ext == [] ||
    (ext[0] == '.' && forall i :: 1 <= i < |ext| ==> ext[i] != '.' && ext[i] !in Separators(platform))
  }

  /** Where `os.path.splitext` starts the extension of `p`: at the last dot of
      the last path component, provided some character before that dot in the
      component is not a dot (so `.png` and `..png` have none); `|p|` when there
      is no extension. */
  function ExtStart(p: string, platform: Platform): (k: nat)
    ensures k <= |p|
    ensures k < |p| ==> p[k] == '.'
    ensures forall i :: k < i < |p| ==> p[i] != '.' && p[i] !in Separators(platform)
  {
    var sepEnd := LastEnd(p, Separators(platform));
    var dotEnd := LastEnd(p, {'.'});
    if dotEnd > sepEnd && !AllDots(p[sepEnd..dotEnd - 1]) then dotEnd - 1 else |p|
  }

  /** `os.path.splitext(p)`: root and extension. */
  function SplitExt(p: string, platform: Platform): (parts: (string, string))
    ensures parts.0 + parts.1 == p
    ensures IsExtension(parts.1, platform)
  {
    var k := ExtStart(p, platform);
    assert p[..k] + p[k..] == p;
    assert forall i :: 1 <= i < |p[k..]| ==> p[k..][i] == p[k + i];
    (p[..k], p[k..])
  }

  function Extension(p: string, platform: Platform): string {
    SplitExt(p, platform).1
  }

  /** The characters of `s` after position `k` avoid `stops`, and the one at `k` does not. */
  lemma LastEndAt(s: string, stops: set<char>, k: nat)
    requires k < |s| && s[k] in stops
    requires forall i :: k < i < |s| ==> s[i] !in stops
    ensures LastEnd(s, stops) == k + 1
  {
  }

  lemma LastEndNone(s: string, stops: set<char>)
    requires forall i :: 0 <= i < |s| ==> s[i] !in stops
    ensures LastEnd(s, stops) == 0
  {
  }

  /** A directory part (empty, or ending in a separator) ends exactly where its last separator does. */
  lemma LastEndOfDirectory(dir: string, platform: Platform)
    requires dir == [] || dir[|dir| - 1] in Separators(platform)
    ensures LastEnd(dir, Separators(platform)) == |dir|
  {
  }

  /** When the last component of `p` is `stem + ext`, with a non-dot character in
      the stem and `ext` a dot followed by no dot or separator, `ext` is the extension. */
  lemma SplitExtOfName(dir: string, stem: string, ext: string, platform: Platform)
    requires dir == [] || dir[|dir| - 1] in Separators(platform)
    requires forall i :: 0 <= i < |stem| ==> stem[i] !in Separators(platform)
    requires !AllDots(stem)
    requires |ext| > 0 && ext[0] == '.' && IsExtension(ext, platform)
    ensures SplitExt(dir + stem + ext, platform) == (dir + stem, ext)
  {
    var seps := Separators(platform);
    var q := dir + stem;
    var p := q + ext;
    assert LastEnd(p, {'.'}) == |q| + 1 by {
      LastEndAt(ext, {'.'}, 0);
      LastEndAppend(q, ext, {'.'});
    }
    assert LastEnd(p, seps) == |dir| by {
      LastEndNone(ext, seps);
      LastEndNone(stem, seps);
      LastEndOfDirectory(dir, platform);
      LastEndAppend(q, ext, seps);
      LastEndAppend(dir, stem, seps);
    }
    assert p[|dir|..|q|] == stem;
    assert ExtStart(p, platform) == |q|;
    assert p[..|q|] == q && p[|q|..] == ext;
  }

  /** A name without any dot has no extension. */
  lemma NoDotMeansNoExtension(p: string, platform: Platform)
    requires forall i :: 0 <= i < |p| ==> p[i] != '.'
    ensures Extension(p, platform) == []
  {
    LastEndNone(p, {'.'});
  }

  lemma HiddenNameSplitPoints(dir: string, dots: string, rest: string, platform: Platform)
    requires dir == [] || dir[|dir| - 1] in Separators(platform)
    requires AllDots(dots)
    requires forall i :: 0 <= i < |rest| ==> rest[i] != '.' && rest[i] !in Separators(platform)
    ensures LastEnd(dir + dots + rest, Separators(platform)) == |dir|
    ensures LastEnd(dir + dots + rest, {'.'}) <= |dir| || LastEnd(dir + dots + rest, {'.'}) == |dir| + LastEnd(dots, {'.'})
  {
    var seps := Separators(platform);
    var q := dir + dots;
    LastEndNone(rest, {'.'});
    LastEndNone(rest, seps);
    LastEndNone(dots, seps);
    LastEndOfDirectory(dir, platform);
    LastEndAppend(q, rest, {'.'});
    LastEndAppend(q, rest, seps);
    LastEndAppend(dir, dots, seps);
    LastEndAppend(dir, dots, {'.'});
  }

  /** Between the last separator and the last dot of such a name there are only dots. */
  lemma HiddenNameKeepsDots(dir: string, dots: string, rest: string, platform: Platform)
    requires dir == [] || dir[|dir| - 1] in Separators(platform)
    requires AllDots(dots)
    requires forall i :: 0 <= i < |rest| ==> rest[i] != '.' && rest[i] !in Separators(platform)
    ensures var p, sepEnd, dotEnd := dir + dots + rest, LastEnd(dir + dots + rest, Separators(platform)), LastEnd(dir + dots + rest, {'.'});
      dotEnd > sepEnd ==> AllDots(p[sepEnd..dotEnd - 1])
  {
    var p := dir + dots + rest;
    HiddenNameSplitPoints(dir, dots, rest, platform);
    var sepEnd := LastEnd(p, Separators(platform));
    var dotEnd := LastEnd(p, {'.'});
    if dotEnd > sepEnd {
      assert sepEnd == |dir| && dotEnd <= |dir| + |dots|;
      var between := p[sepEnd..dotEnd - 1];
      forall i | 0 <= i < |between| ensures between[i] == '.' {
        assert between[i] == p[|dir| + i] == dots[i];
      }
    }
  }

  /** A name made of leading dots followed by characters without a dot
      (a hidden file such as `.png`) has no extension. */
  lemma HiddenNameHasNoExtension(dir: string, dots: string, rest: string, platform: Platform)
    requires dir == [] || dir[|dir| - 1] in Separators(platform)
    requires AllDots(dots)
    requires forall i :: 0 <= i < |rest| ==> rest[i] != '.' && rest[i] !in Separators(platform)
    ensures Extension(dir + dots + rest, platform) == []
  {
    var p := dir + dots + rest;
    HiddenNameKeepsDots(dir, dots, rest, platform);
    assert ExtStart(p, platform) == |p|;
  }

  lemma LowerSuffix(s: string, lo: nat)
    requires lo <= |s|
    ensures LowerAscii(s)[lo..] == LowerAscii(s[lo..])
  {
  }

  lemma AllDotsSamePattern(s: string, t: string, lo: nat, hi: nat)
    requires lo <= hi <= |s| == |t|
    requires forall i :: 0 <= i < |s| ==> (s[i] == '.' <==> t[i] == '.')
    ensures AllDots(s[lo..hi]) <==> AllDots(t[lo..hi])
  {
    var x, y := s[lo..hi], t[lo..hi];
    forall i | 0 <= i < |x| ensures x[i] == '.' <==> y[i] == '.' {
      assert x[i] == s[lo + i] && y[i] == t[lo + i];
    }
  }

  /** `ExtStart` only sees which positions hold a dot and which a separator. */
  lemma ExtStartSamePattern(s: string, t: string, platform: Platform)
    requires |s| == |t|
    requires forall i :: 0 <= i < |s| ==> (s[i] == '.' <==> t[i] == '.')
    requires LastEnd(s, Separators(platform)) == LastEnd(t, Separators(platform))
    requires LastEnd(s, {'.'}) == LastEnd(t, {'.'})
    ensures ExtStart(s, platform) == ExtStart(t, platform)
  {
    var sepEnd, dotEnd := LastEnd(s, Separators(platform)), LastEnd(s, {'.'});
    if dotEnd > sepEnd {
      AllDotsSamePattern(s, t, sepEnd, dotEnd - 1);
    }
  }

  /** Case folding does not move the start of the extension. */
  lemma ExtStartLower(p: string, platform: Platform)
    ensures ExtStart(LowerAscii(p), platform) == ExtStart(p, platform)
  {
    var l := LowerAscii(p);
    LastEndLower(p, Separators(platform));
    LastEndLower(p, {'.'});
    forall i | 0 <= i < |p| ensures l[i] == '.' <==> p[i] == '.' {
      LowerCharKeeps(p[i], {'.'});
    }
    ExtStartSamePattern(l, p, platform);
  }

  /** Lower-casing commutes with taking the extension: dots and separators are
      not letters, so case folding moves neither. */
  lemma ExtensionOfLower(p: string, platform: Platform)
    ensures Extension(LowerAscii(p), platform) == LowerAscii(Extension(p, platform))
  {
    var k := ExtStart(p, platform);
    ExtStartLower(p, platform);
    LowerSuffix(p, k);
  }

  /** Length of a Windows drive-letter prefix such as `C:` (Python 3.12 `ntpath.splitroot`). */
  function DriveLength(p: string, platform: Platform): nat {
    if platform == Windows && |p| >= 2 && p[1] == ':' && p[0] !in Separators(platform) then 2 else 0
  }

  /** `os.path.basename(p)`: the last path component, after the last separator
      and after any drive prefix. */
  function Basename(p: string, platform: Platform): (name: string)
    ensures |name| <= |p| && name == p[|p| - |name|..]
    ensures forall i :: 0 <= i < |name| ==> name[i] !in Separators(platform)
    ensures |name| == |p| || p[|p| - |name| - 1] in Separators(platform) || |p| - |name| == DriveLength(p, platform)
    ensures |p| - |name| >= DriveLength(p, platform)
  {
    var sepEnd := LastEnd(p, Separators(platform));
    var drive := DriveLength(p, platform);
    p[if sepEnd >= drive then sepEnd else drive..]
  }

  /** Whatever directory precedes a final component, the basename is that component. */
  lemma BasenameAfterDirectory(dir: string, name: string, platform: Platform)
    requires dir == [] || dir[|dir| - 1] in Separators(platform)
    requires dir == [] ==> DriveLength(name, platform) == 0
    requires forall i :: 0 <= i < |name| ==> name[i] !in Separators(platform)
    ensures Basename(dir + name, platform) == name
  {
    var seps := Separators(platform);
    LastEndAppend(dir, name, seps);
    assert LastEnd(name, seps) == 0;
    if dir == [] {
      assert dir + name == name;
    } else if |dir| == 1 {
      assert (dir + name)[0] == dir[0];
    }
  }
}
