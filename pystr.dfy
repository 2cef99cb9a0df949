/** Character classes and the Python `str` methods the plate pipeline uses,
    over an ASCII alphabet (see README: non-ASCII characters are treated as
    neither letters, digits, whitespace nor punctuation). */
module PyStr {

  // ---------------------------------------------------------------------
  // Character classes
  // ---------------------------------------------------------------------

  predicate IsUpper(c: char) { 'A' <= c <= 'Z' }
  predicate IsLower(c: char) { 'a' <= c <= 'z' }
  predicate IsAlpha(c: char) { IsUpper(c) || IsLower(c) }
  predicate IsDigit(c: char) { '0' <= c <= '9' }

  /** `\w`: a letter, a digit or the underscore. */
  predicate IsWord(c: char) { IsAlpha(c) || IsDigit(c) || c == '_' }

  /** `\s` and `str.isspace()` restricted to ASCII: space, TAB, LF, VT, FF, CR
      and the four separators 0x1C-0x1F. */
  predicate IsSpace(c: char) { c == ' ' || '\t' <= c <= '\r' || '\U{1C}' <= c <= '\U{1F}' }

  /** `string.punctuation`: the four ASCII ranges of printable non-alphanumerics. */
  predicate IsPunct(c: char) {
    '!' <= c <= '/' || ':' <= c <= '@' || '[' <= c <= '`' || '{' <= c <= '~'
  }

  const Punctuation: string := "!\"#$%&'()*+,-./:;<=>?@[\\]^_`{|}~"

  /** The predicate and the 32-character constant describe the same set. */
  lemma PunctuationIsTheConstant(c: char)
    ensures IsPunct(c) <==> c in Punctuation
    ensures |Punctuation| == 32
  {
  }

  function ToUpper(c: char): (u: char)
    ensures !IsLower(u)
    ensures IsAlpha(c) <==> IsUpper(u)
    ensures IsPunct(c) <==> IsPunct(u)
    ensures IsSpace(c) <==> IsSpace(u)
    ensures IsDigit(c) <==> IsDigit(u)
    ensures !IsLower(c) ==> u == c
    ensures IsLower(c) ==> u as int == c as int - 32
  {
    if IsLower(c) then (c as int - 32) as char else c
  }

  // ---------------------------------------------------------------------
  // str.upper()
  // ---------------------------------------------------------------------

  /** `s.upper()`: every lower-case letter becomes its capital, nothing else moves. */
  function Upper(s: string): (r: string)
    ensures |r| == |s|
    ensures forall k :: 0 <= k < |r| ==> !IsLower(r[k])
    ensures forall k :: 0 <= k < |r| ==> (IsAlpha(s[k]) <==> IsUpper(r[k]))
    ensures forall k :: 0 <= k < |r| ==> !IsLower(s[k]) ==> r[k] == s[k]
    ensures forall k :: 0 <= k < |r| ==> IsLower(s[k]) ==> r[k] as int == s[k] as int - 32
  {
    seq(|s|, k requires 0 <= k < |s| => ToUpper(s[k]))
  }

  lemma UpperIdempotent(s: string)
    ensures Upper(Upper(s)) == Upper(s)
  {
  }

  // ---------------------------------------------------------------------
  // str.replace(old, new): every non-overlapping occurrence, scanned from the left
  // ---------------------------------------------------------------------

  predicate StartsWith(s: string, p: string) {
    |p| <= |s| && s[..|p|] == p
  }

  predicate Occurs(s: string, p: string) {
    exists k :: 0 <= k <= |s| - |p| && StartsWith(s[k..], p)
  }

  /** `s.replace(pat, repl)`.  With an empty `pat` Python inserts `repl` before every
      character and at the end. */
  function Replace(s: string, pat: string, repl: string): (r: string)
    ensures |pat| > 0 && |repl| == |pat| ==> |r| == |s|
    ensures |pat| > 0 && repl == pat ==> r == s
    decreases |s|
  {
    if |pat| == 0 then
      (if s == [] then repl else repl + [s[0]] + Replace(s[1..], pat, repl))
    else if s == [] then []
    else if StartsWith(s, pat) then
      assert s == s[..|pat|] + s[|pat|..];
      repl + Replace(s[|pat|..], pat, repl)
    else
      assert s == [s[0]] + s[1..];
      [s[0]] + Replace(s[1..], pat, repl)
  }

  /** A string in which the pattern does not occur is returned unchanged. */
  lemma {:induction false} ReplaceAbsent(s: string, pat: string, repl: string)
    requires |pat| > 0 && !Occurs(s, pat)
    ensures Replace(s, pat, repl) == s
    decreases |s|
  {
    if s != [] {
      assert !StartsWith(s[0..], pat);
      assert s[0..] == s;
      forall k | 0 <= k <= |s[1..]| - |pat|
        ensures !StartsWith(s[1..][k..], pat)
      {
        assert s[1..][k..] == s[k + 1..];
      }
      ReplaceAbsent(s[1..], pat, repl);
    }
  }

  /** A prefix whose characters cannot start the pattern is copied through. */
  lemma {:induction false} ReplaceSkipsPrefix(p: string, s: string, pat: string, repl: string)
    requires |pat| > 0 && forall k :: 0 <= k < |p| ==> p[k] != pat[0]
    ensures Replace(p + s, pat, repl) == p + Replace(s, pat, repl)
    decreases |p|
  {
    if p == [] {
      assert p + s == s;
    } else {
      var rest := Replace(s, pat, repl);
      assert Replace(p[1..] + s, pat, repl) == p[1..] + rest by {
        assert forall k :: 0 <= k < |p[1..]| ==> p[1..][k] != pat[0];
        ReplaceSkipsPrefix(p[1..], s, pat, repl);
      }
      assert p + s == [p[0]] + (p[1..] + s);
      ReplaceCopiesHead(p[0], p[1..] + s, pat, repl);
      assert [p[0]] + (p[1..] + rest) == p + rest;
    }
  }

  /** A character that cannot start the pattern is copied and the scan moves on. */
  lemma ReplaceCopiesHead(c: char, s: string, pat: string, repl: string)
    requires |pat| > 0 && c != pat[0]
    ensures Replace([c] + s, pat, repl) == [c] + Replace(s, pat, repl)
  {
    var cs := [c] + s;
    assert !StartsWith(cs, pat) by {
      if |pat| <= |cs| {
        assert cs[..|pat|][0] == c;
      }
    }
    assert cs[1..] == s;
  }

  /** An occurrence at the front is replaced and the scan resumes after it. */
  lemma ReplaceAtFront(s: string, pat: string, repl: string)
    requires |pat| > 0
    ensures Replace(pat + s, pat, repl) == repl + Replace(s, pat, repl)
  {
    assert (pat + s)[..|pat|] == pat;
    assert (pat + s)[|pat|..] == s;
  }

  /** Up to its first occurrence the text is copied; that occurrence is replaced
      and the scan goes on after it. */
  lemma {:induction false} ReplaceFirst(x: string, y: string, pat: string, repl: string)
    requires |pat| > 0
    requires forall k :: 0 <= k < |x| ==> !StartsWith((x + pat + y)[k..], pat)
    ensures Replace(x + pat + y, pat, repl) == x + repl + Replace(y, pat, repl)
    decreases |x|
  {
    var s := x + pat + y;
    if x == [] {
      assert s == pat + y;
      ReplaceAtFront(y, pat, repl);
    } else {
      var t := x[1..] + pat + y;
      assert s == [x[0]] + t;
      assert !StartsWith(s, pat) by {
        assert s[0..] == s;
      }
      forall k | 0 <= k < |x[1..]| ensures !StartsWith(t[k..], pat) {
        assert t[k..] == s[k + 1..];
      }
      ReplaceFirst(x[1..], y, pat, repl);
      ReplaceSkipsHead(x[0], t, pat, repl);
      HeadRegroup(x, repl, Replace(y, pat, repl));
    }
  }

  /** A character at which the pattern does not start is copied and the scan moves on. */
  lemma ReplaceSkipsHead(c: char, t: string, pat: string, repl: string)
    requires |pat| > 0 && !StartsWith([c] + t, pat)
    ensures Replace([c] + t, pat, repl) == [c] + Replace(t, pat, repl)
  {
    assert ([c] + t)[1..] == t;
  }

  /** Putting the first character back in front of the rest. */
  lemma HeadRegroup(x: string, a: string, b: string)
    requires |x| > 0
    ensures [x[0]] + (x[1..] + a + b) == x + a + b
  {
    assert x == [x[0]] + x[1..];
  }

  /** Replacing a single character by a single character works position by position. */
  lemma {:induction false} ReplaceChar(s: string, a: char, b: char)
    ensures |Replace(s, [a], [b])| == |s|
    ensures forall k :: 0 <= k < |s| ==> Replace(s, [a], [b])[k] == (if s[k] == a then b else s[k])
    decreases |s|
  {
    if s != [] {
      ReplaceChar(s[1..], a, b);
      if StartsWith(s, [a]) {
        assert s[1..] == s[|[a]|..];
      }
    }
  }

  // ---------------------------------------------------------------------
  // str.split(sep) with a one-character separator, and sep.join(xs)
  // ---------------------------------------------------------------------

  /** `s.split(sep)`: the pieces between separators, empty pieces included;
      there is always at least one piece. */
  function Split(s: string, sep: char): (r: seq<string>)
    ensures |r| >= 1
    ensures forall i :: 0 <= i < |r| ==> sep !in r[i]
    ensures Join([sep], r) == s
  {
    if s == [] then [[]]
    else
      var rest := Split(s[1..], sep);
      assert s == [s[0]] + s[1..];
      if s[0] == sep then
        JoinCons([sep], [], rest);
        [[]] + rest
      else
        JoinExtendFirst([sep], s[0], rest);
        [[s[0]] + rest[0]] + rest[1..]
  }

  /** A piece in front of at least one other is followed by the separator. */
  lemma JoinCons(sep: string, x: string, rest: seq<string>)
    requires |rest| >= 1
    ensures Join(sep, [x] + rest) == x + sep + Join(sep, rest)
  {
    assert ([x] + rest)[1..] == rest;
  }

  /** Prefixing the first piece prefixes the joined text. */
  lemma JoinExtendFirst(sep: string, c: char, xs: seq<string>)
    requires |xs| >= 1
    ensures Join(sep, [[c] + xs[0]] + xs[1..]) == [c] + Join(sep, xs)
  {
    if |xs| > 1 {
      JoinCons(sep, [c] + xs[0], xs[1..]);
      JoinCons(sep, xs[0], xs[1..]);
      assert [xs[0]] + xs[1..] == xs;
    }
  }

  /** `s.split(" ")[0]`: everything before the first space, or all of `s`. */
  function FirstToken(s: string): (r: string)
    ensures ' ' !in r
    ensures |r| <= |s| && s[..|r|] == r
    ensures |r| < |s| ==> s[|r|] == ' '
  {
    var pieces := Split(s, ' ');
    assert s == Join(" ", pieces);
    assert |pieces| > 1 ==> s == pieces[0] + " " + Join(" ", pieces[1..]);
    pieces[0]
  }

  /** Splitting a string without the separator yields that string alone. */
  lemma {:induction false} SplitNoSep(s: string, sep: char)
    requires sep !in s
    ensures Split(s, sep) == [s]
  {
    if s != [] {
      SplitNoSep(s[1..], sep);
      assert [s[0]] + s[1..] == s;
    }
  }

  /** The part before the first separator becomes the first piece. */
  lemma {:induction false} SplitAtSep(a: string, b: string, sep: char)
    requires sep !in a
    ensures Split(a + [sep] + b, sep) == [a] + Split(b, sep)
    decreases |a|
  {
    var s := a + [sep] + b;
    if a == [] {
      assert s[0] == sep && s[1..] == b;
    } else {
      assert s[0] == a[0];
      assert s[1..] == a[1..] + [sep] + b;
      SplitAtSep(a[1..], b, sep);
      assert [a[0]] + a[1..] == a;
    }
  }

  /** The first token of `a + " " + b` is `a` when `a` has no space. */
  lemma FirstTokenOf(a: string, b: string)
    requires ' ' !in a
    ensures FirstToken(a + " " + b) == a
  {
    SplitAtSep(a, b, ' ');
  }

  /** `sep.join(xs)`: the pieces in order, the separator between neighbours. */
  function Join(sep: string, xs: seq<string>): (r: string)
    ensures xs == [] ==> r == []
    ensures |xs| == 1 ==> r == xs[0]
    ensures |xs| >= 1 ==> |xs[0]| <= |r| && r[..|xs[0]|] == xs[0]
    ensures |xs| >= 2 ==> |xs[0]| + |sep| <= |r| && r[|xs[0]|..|xs[0]| + |sep|] == sep
    decreases |xs|
  {
    if |xs| == 0 then []
    else if |xs| == 1 then xs[0]
    else xs[0] + sep + Join(sep, xs[1..])
  }

  /** Joining two non-empty lists puts one separator between their joins. */
  lemma {:induction false} JoinAppend(sep: string, xs: seq<string>, ys: seq<string>)
    requires |xs| >= 1 && |ys| >= 1
    ensures Join(sep, xs + ys) == Join(sep, xs) + sep + Join(sep, ys)
    decreases |xs|
  {
    var x, rest := xs[0], xs[1..];
    assert xs == [x] + rest;
    if rest == [] {
      assert xs + ys == [x] + ys;
      JoinCons(sep, x, ys);
    } else {
      JoinAppend(sep, rest, ys);
      JoinConsAppend(sep, x, rest, ys);
    }
  }

  /** One step of `JoinAppend`: the first piece goes in front of the rest. */
  lemma JoinConsAppend(sep: string, x: string, rest: seq<string>, ys: seq<string>)
    requires |rest| >= 1 && |ys| >= 1
    requires Join(sep, rest + ys) == Join(sep, rest) + sep + Join(sep, ys)
    ensures Join(sep, [x] + rest + ys) == Join(sep, [x] + rest) + sep + Join(sep, ys)
  {
    assert [x] + rest + ys == [x] + (rest + ys);
    JoinCons(sep, x, rest + ys);
    JoinCons(sep, x, rest);
    Regroup(x, sep, Join(sep, rest), Join(sep, ys));
  }

  /** Regrouping the concatenation of a join step. */
  lemma Regroup(a: string, sep: string, b: string, c: string)
    ensures a + sep + (b + sep + c) == a + sep + b + sep + c
  {
  }

  /** Joining with a one-character separator that no piece contains is undone by
      splitting on it. */
  lemma {:induction false} SplitJoin(xs: seq<string>, sep: char)
    requires |xs| >= 1
    requires forall i :: 0 <= i < |xs| ==> sep !in xs[i]
    ensures Split(Join([sep], xs), sep) == xs
    decreases |xs|
  {
    if |xs| == 1 {
      SplitNoSep(xs[0], sep);
    } else {
      SplitJoin(xs[1..], sep);
      SplitAtSep(xs[0], Join([sep], xs[1..]), sep);
      assert [xs[0]] + xs[1..] == xs;
    }
  }

  // ---------------------------------------------------------------------
  // str.strip()
  // ---------------------------------------------------------------------

  /** Number of whitespace characters at the front of `s`. */
  function LeadingSpaces(s: string): (n: nat)
    ensures n <= |s|
    ensures forall k :: 0 <= k < n ==> IsSpace(s[k])
    ensures n < |s| ==> !IsSpace(s[n])
  {
    if s != [] && IsSpace(s[0]) then 1 + LeadingSpaces(s[1..]) else 0
  }

  /** Number of whitespace characters at the back of `s`. */
  function TrailingSpaces(s: string): (n: nat)
    ensures n <= |s|
    ensures forall k :: |s| - n <= k < |s| ==> IsSpace(s[k])
    ensures n < |s| ==> !IsSpace(s[|s| - 1 - n])
  {
    if s != [] && IsSpace(s[|s| - 1]) then 1 + TrailingSpaces(s[..|s| - 1]) else 0
  }

  /** `s.strip()`: the infix left after dropping whitespace at both ends. */
  function Strip(s: string): (r: string)
    ensures r == [] || (!IsSpace(r[0]) && !IsSpace(r[|r| - 1]))
    ensures |r| <= |s|
    ensures (s == [] || (!IsSpace(s[0]) && !IsSpace(s[|s| - 1]))) ==> r == s
  {
    var a := LeadingSpaces(s);
    if a == |s| then
      assert s[a..a] == [];
      []
    else
      var b := |s| - TrailingSpaces(s);
      assert a < b by {
        assert !IsSpace(s[a]);
      }
      s[a..b]
  }

  // ---------------------------------------------------------------------
  // Filtering, used to say which characters an operation keeps
  // ---------------------------------------------------------------------

  /** `s` with every character satisfying `drop` left out, order kept. */
  function Without(s: string, drop: char -> bool): (r: string)
    ensures |r| <= |s|
    ensures forall k :: 0 <= k < |r| ==> !drop(r[k])
  {
    if s == [] then [] else (if drop(s[0]) then [] else [s[0]]) + Without(s[1..], drop)
  }

  lemma {:induction false} WithoutAppend(a: string, b: string, drop: char -> bool)
    ensures Without(a + b, drop) == Without(a, drop) + Without(b, drop)
    decreases |a|
  {
    if a == [] {
      assert a + b == b;
    } else {
      assert (a + b)[0] == a[0];
      assert (a + b)[1..] == a[1..] + b;
      WithoutAppend(a[1..], b, drop);
    }
  }

  /** What is kept comes from the input. */
  lemma {:induction false} WithoutKeepsFrom(s: string, drop: char -> bool, c: char)
    requires c in Without(s, drop)
    ensures c in s
    decreases |s|
  {
    if s != [] && !(c == s[0]) {
      WithoutKeepsFrom(s[1..], drop, c);
    }
  }

  /** What is not dropped is kept. */
  lemma {:induction false} WithoutKeeps(s: string, drop: char -> bool, c: char)
    requires c in s && !drop(c)
    ensures c in Without(s, drop)
    decreases |s|
  {
    if c != s[0] {
      WithoutKeeps(s[1..], drop, c);
    }
  }

  lemma {:induction false} WithoutNothing(s: string, drop: char -> bool)
    requires forall k :: 0 <= k < |s| ==> !drop(s[k])
    ensures Without(s, drop) == s
    decreases |s|
  {
    if s != [] {
      WithoutNothing(s[1..], drop);
      assert [s[0]] + s[1..] == s;
    }
  }

  lemma {:induction false} WithoutAll(s: string, drop: char -> bool)
    requires forall k :: 0 <= k < |s| ==> drop(s[k])
    ensures Without(s, drop) == []
    decreases |s|
  {
    if s != [] {
      WithoutAll(s[1..], drop);
    }
  }

  /** Stripping cuts a run of blanks off each end and nothing else: the result is
      the part of `s` between two runs of whitespace. */
  lemma StripTrimsEnds(s: string)
    ensures exists a: nat, b: nat :: a <= b <= |s| && Strip(s) == s[a..b]
              && (forall k :: 0 <= k < a ==> IsSpace(s[k]))
              && (forall k :: b <= k < |s| ==> IsSpace(s[k]))
  {
    var a, n := LeadingSpaces(s), TrailingSpaces(s);
    if a == |s| {
      assert Strip(s) == s[a..a];
    } else {
      RunsApart(s, a, n);
      StripBetween(s, a, n);
    }
  }

  /** Stripping removes whitespace only: the other characters stay, in order. */
  lemma StripKeepsText(s: string)
    ensures Without(Strip(s), IsSpace) == Without(s, IsSpace)
  {
    var a, n := LeadingSpaces(s), TrailingSpaces(s);
    if a == |s| {
      WithoutAll(s, IsSpace);
    } else {
      RunsApart(s, a, n);
      StripBetween(s, a, n);
      KeepsBetween(s, a, |s| - n);
    }
  }

  /** Cutting whitespace off both ends keeps the other characters. */
  lemma KeepsBetween(s: string, a: nat, b: nat)
    requires a <= b <= |s|
    requires forall k :: 0 <= k < a ==> IsSpace(s[k])
    requires forall k :: b <= k < |s| ==> IsSpace(s[k])
    ensures Without(s[a..b], IsSpace) == Without(s, IsSpace)
  {
    DropBack(s, b);
    DropFront(s[..b], a);
    SliceOfPrefix(s, a, b);
  }

  /** A suffix of a prefix is an infix. */
  lemma SliceOfPrefix(s: string, a: nat, b: nat)
    requires a <= b <= |s|
    ensures s[..b][a..] == s[a..b]
  {
  }

  /** Dropping a leading whitespace run keeps the other characters. */
  lemma DropFront(s: string, a: nat)
    requires a <= |s|
    requires forall k :: 0 <= k < a ==> IsSpace(s[k])
    ensures Without(s[a..], IsSpace) == Without(s, IsSpace)
  {
    assert s == s[..a] + s[a..];
    WithoutAppend(s[..a], s[a..], IsSpace);
    WithoutAll(s[..a], IsSpace);
  }

  /** Dropping a trailing whitespace run keeps the other characters. */
  lemma DropBack(t: string, b: nat)
    requires b <= |t|
    requires forall k :: b <= k < |t| ==> IsSpace(t[k])
    ensures Without(t[..b], IsSpace) == Without(t, IsSpace)
  {
    assert t == t[..b] + t[b..];
    WithoutAppend(t[..b], t[b..], IsSpace);
    WithoutAll(t[b..], IsSpace);
  }

  /** A non-blank character lies before a trailing whitespace run. */
  lemma RunsApart(s: string, a: nat, n: nat)
    requires a < |s| && !IsSpace(s[a])
    requires n <= |s| && forall k :: |s| - n <= k < |s| ==> IsSpace(s[k])
    ensures a + n < |s|
  {
  }

  /** Upper-casing works character by character. */
  lemma UpperAppend(x: string, y: string)
    ensures Upper(x + y) == Upper(x) + Upper(y)
  {
    assert forall k :: 0 <= k < |x + y| ==> Upper(x + y)[k] == (Upper(x) + Upper(y))[k];
  }

  /** Text behind a non-blank character does not lengthen the leading run. */
  lemma {:induction false} LeadingSpacesAppend(x: string, y: string)
    requires LeadingSpaces(x) < |x|
    ensures LeadingSpaces(x + y) == LeadingSpaces(x)
    decreases |x|
  {
    assert (x + y)[0] == x[0];
    if IsSpace(x[0]) {
      assert (x + y)[1..] == x[1..] + y;
      LeadingSpacesAppend(x[1..], y);
    }
  }

  /** A leading run of blanks followed by a non-blank is counted exactly. */
  lemma {:induction false} LeadingSpacesBlanks(w: string, y: string)
    requires forall k :: 0 <= k < |w| ==> IsSpace(w[k])
    requires y == [] || !IsSpace(y[0])
    ensures LeadingSpaces(w + y) == |w|
    decreases |w|
  {
    if w == [] {
      assert w + y == y;
    } else {
      assert (w + y)[0] == w[0];
      assert (w + y)[1..] == w[1..] + y;
      LeadingSpacesBlanks(w[1..], y);
    }
  }

  /** Text in front of a non-blank character does not lengthen the trailing run. */
  lemma {:induction false} TrailingSpacesAppend(x: string, y: string)
    requires TrailingSpaces(y) < |y|
    ensures TrailingSpaces(x + y) == TrailingSpaces(y)
    decreases |y|
  {
    var s := x + y;
    assert s[|s| - 1] == y[|y| - 1];
    if IsSpace(y[|y| - 1]) {
      assert s[..|s| - 1] == x + y[..|y| - 1];
      TrailingSpacesAppend(x, y[..|y| - 1]);
    }
  }

  /** Stripping text that starts with a non-blank only trims its back. */
  lemma StripFront(y: string, c: nat)
    requires y != [] && !IsSpace(y[0]) && c == TrailingSpaces(y)
    ensures Strip(y) == y[..|y| - c]
  {
    assert LeadingSpaces(y) == 0;
    assert c < |y| by {
      assert !IsSpace(y[0]);
    }
    StripBetween(y, 0, c);
  }

  /** Stripping text that ends with a non-blank only trims its front. */
  lemma StripBack(x: string, a: nat)
    requires x != [] && !IsSpace(x[|x| - 1]) && a == LeadingSpaces(x)
    ensures Strip(x) == x[a..|x|]
  {
    NoTrailingSpaces(x, x[|x| - 1]);
    assert a < |x| by {
      assert !IsSpace(x[|x| - 1]);
    }
    StripBetween(x, a, 0);
  }

  /** Text ending with a non-blank has no trailing run. */
  lemma NoTrailingSpaces(t: string, c: char)
    requires t != [] && t[|t| - 1] == c && !IsSpace(c)
    ensures TrailingSpaces(t) == 0
  {
  }

  /** Stripping two non-blank-edged parts joined by one blank strips each part. */
  lemma StripJoin(x: string, y: string)
    requires x != [] && !IsSpace(x[|x| - 1])
    requires y != [] && !IsSpace(y[0])
    ensures Strip(x + " " + y) == Strip(x) + " " + Strip(y)
  {
    var s := x + " " + y;
    var a := LeadingSpaces(x);
    var c := TrailingSpaces(y);
    JoinRuns(x, y);
    StripBetween(s, a, c);
    StripBack(x, a);
    StripFront(y, c);
    SliceOfJoin(x, y, a, c);
  }

  /** A slice across the blank of `x + " " + y` is a suffix of `x`, the blank and a prefix of `y`. */
  lemma SliceOfJoin(x: string, y: string, a: nat, c: nat)
    requires a <= |x| && c <= |y|
    ensures (x + " " + y)[a..|x| + 1 + |y| - c] == x[a..|x|] + " " + y[..|y| - c]
  {
  }

  /** The runs of blanks at the ends of such a joined text are those of its parts. */
  lemma JoinRuns(x: string, y: string)
    requires x != [] && !IsSpace(x[|x| - 1])
    requires y != [] && !IsSpace(y[0])
    ensures LeadingSpaces(x) < |x| && TrailingSpaces(y) < |y|
    ensures LeadingSpaces(x + " " + y) == LeadingSpaces(x)
    ensures TrailingSpaces(x + " " + y) == TrailingSpaces(y)
  {
    var s := x + " " + y;
    assert s == x + (" " + y);
    LeadingSpacesAppend(x, " " + y);
    TrailingSpacesAppend(x + " ", y);
  }

  /** `strip()` keeps what lies between the two runs, given their lengths. */
  lemma StripBetween(s: string, a: nat, n: nat)
    requires a == LeadingSpaces(s) && n == TrailingSpaces(s) && a + n < |s|
    ensures Strip(s) == s[a..|s| - n]
  {
  }
}
