/** The text half of the plate reader: removing OCR artifacts, normalising the
    text, finding the plate structure, and correcting the region code against
    the reference table. */
module TextProcessing {
  import opened PyStr
  import opened Wrappers
  import opened Regex

  // =====================================================================
  // remove_pattern_strings: delete `\b\d{2}\.\d{2}\b|\b<\d><\d>\.<\d><\d>\b`
  // =====================================================================

  /** Position `k` holds a word character (`\w`); positions outside `t` do not. */
  predicate WordAt(t: string, k: int) {
    0 <= k < |t| && IsWord(t[k])
  }

  /** `\b` at position `i`: a word character on exactly one side. */
  predicate Boundary(t: string, i: nat) {
    WordAt(t, i - 1) != WordAt(t, i)
  }

  /** First alternative, `\b\d{2}\.\d{2}\b`, matches at `i`. */
  predicate DateAt(t: string, i: nat) {
    i + 5 <= |t| && Boundary(t, i)
    && IsDigit(t[i]) && IsDigit(t[i + 1]) && t[i + 2] == '.' && IsDigit(t[i + 3]) && IsDigit(t[i + 4])
    && Boundary(t, i + 5)
  }

  /** `<\d>` at `j`. */
  predicate BracketedDigit(t: string, j: nat) {
    j + 3 <= |t| && t[j] == '<' && IsDigit(t[j + 1]) && t[j + 2] == '>'
  }

  /** Second alternative, `\b<\d><\d>\.<\d><\d>\b`, matches at `i`. */
  predicate StampAt(t: string, i: nat) {
    i + 13 <= |t| && Boundary(t, i)
    && BracketedDigit(t, i) && BracketedDigit(t, i + 3) && t[i + 6] == '.'
    && BracketedDigit(t, i + 7) && BracketedDigit(t, i + 10)
    && Boundary(t, i + 13)
  }

  /** The characters an artifact can consist of. */
  predicate ArtifactChar(c: char) {
    IsDigit(c) || c == '.' || c == '<' || c == '>'
  }

  /** `re.sub(pattern, '', t)` from position `i` on: at each position the first
      alternative is tried, then the second; a match is dropped and the scan
      resumes after it, otherwise the character is copied.  The `\b` tests look
      at the original string, as the engine does. */
  function RemoveArtifactsFrom(t: string, i: nat): (r: string)
    requires i <= |t|
    ensures |r| <= |t| - i
    ensures Without(r, ArtifactChar) == Without(t[i..], ArtifactChar)
    ensures '.' !in t[i..] ==> r == t[i..]
    decreases |t| - i
  {
    if i == |t| then []
    else if DateAt(t, i) then
      DropArtifact(t, i, 5);
      RemoveArtifactsFrom(t, i + 5)
    else if StampAt(t, i) then
      DropArtifact(t, i, 13);
      RemoveArtifactsFrom(t, i + 13)
    else
      assert t[i..] == [t[i]] + t[i + 1..];
      WithoutAppend([t[i]], t[i + 1..], ArtifactChar);
      [t[i]] + RemoveArtifactsFrom(t, i + 1)
  }

  /** An artifact of length `n` at `i` consists of artifact characters only,
      one of them a dot. */
  lemma DropArtifact(t: string, i: nat, n: nat)
    requires (n == 5 && DateAt(t, i)) || (n == 13 && StampAt(t, i))
    ensures i + n <= |t|
    ensures Without(t[i..], ArtifactChar) == Without(t[i + n..], ArtifactChar)
    ensures '.' in t[i..]
  {
    var piece := t[i..i + n];
    if n == 5 {
      DateChars(t, i);
    } else {
      StampChars(t, i);
    }
    forall k | 0 <= k < n ensures ArtifactChar(piece[k]) {
      assert piece[k] == t[i + k];
    }
    assert t[i..] == piece + t[i + n..];
    WithoutAppend(piece, t[i + n..], ArtifactChar);
    WithoutAll(piece, ArtifactChar);
    assert t[i..][if n == 5 then 2 else 6] == '.';
  }

  /** A date artifact consists of artifact characters. */
  lemma DateChars(t: string, i: nat)
    requires DateAt(t, i)
    ensures forall k :: i <= k < i + 5 ==> ArtifactChar(t[k])
  {
  }

  /** So does a bracketed stamp: brackets, digits and one dot. */
  lemma StampChars(t: string, i: nat)
    requires StampAt(t, i)
    ensures forall k :: i <= k < i + 13 ==> ArtifactChar(t[k])
  {
    forall k | i <= k < i + 13 ensures ArtifactChar(t[k]) {
      var d := k - i;
      assert BracketedDigit(t, i + d / 3 * 3) || d == 6 || (d >= 7 && BracketedDigit(t, i + 7 + (d - 7) / 3 * 3));
    }
  }

  /** `remove_pattern_strings(text)`. */
  function RemovePatternStrings(text: string): (r: string)
    ensures |r| <= |text|
    ensures Without(r, ArtifactChar) == Without(text, ArtifactChar)
    ensures '.' !in text ==> r == text
  {
    assert text[0..] == text;
    RemoveArtifactsFrom(text, 0)
  }

  /** A character that cannot belong to an artifact is in the output only if it
      was in the input. */
  lemma RemovePatternStringsAddsNothing(text: string)
    ensures forall c :: c in RemovePatternStrings(text) && !ArtifactChar(c) ==> c in text
  {
    forall c | c in RemovePatternStrings(text) && !ArtifactChar(c) ensures c in text {
      WithoutKeeps(RemovePatternStrings(text), ArtifactChar, c);
      WithoutKeepsFrom(text, ArtifactChar, c);
    }
  }

  /** A scan that finds an artifact at `i` resumes right after it. */
  lemma SkipArtifact(t: string, i: nat)
    requires DateAt(t, i) || StampAt(t, i)
    ensures RemoveArtifactsFrom(t, i) == RemoveArtifactsFrom(t, if DateAt(t, i) then i + 5 else i + 13)
  {
  }

  /** A scan that finds no artifact at `i` copies that character. */
  lemma CopyCharacter(t: string, i: nat)
    requires i < |t| && !DateAt(t, i) && !StampAt(t, i)
    ensures RemoveArtifactsFrom(t, i) == [t[i]] + RemoveArtifactsFrom(t, i + 1)
  {
  }

  /** With no artifact starting in `[j, i)`, the scan copies `t[j..i]` unchanged. */
  lemma {:induction false} CopiedUntil(t: string, j: nat, i: nat)
    requires j <= i <= |t|
    requires forall k :: j <= k < i ==> !DateAt(t, k) && !StampAt(t, k)
    ensures RemoveArtifactsFrom(t, j) == t[j..i] + RemoveArtifactsFrom(t, i)
    decreases i - j
  {
    if j < i {
      CopiedUntil(t, j + 1, i);
      CopyCharacter(t, j);
      ConsSlice(t, j, i, RemoveArtifactsFrom(t, j), RemoveArtifactsFrom(t, j + 1), RemoveArtifactsFrom(t, i));
    } else {
      assert t[j..i] == [];
    }
  }

  /** Copying `t[j]` in front of a copy of `t[j + 1..i]` copies `t[j..i]`. */
  lemma ConsSlice(t: string, j: nat, i: nat, x: string, y: string, z: string)
    requires j < i <= |t|
    requires x == [t[j]] + y && y == t[j + 1..i] + z
    ensures x == t[j..i] + z
  {
    assert t[j..i] == [t[j]] + t[j + 1..i];
  }

  /** The leftmost artifact is deleted: everything before it is kept, and the scan
      resumes right after it. */
  lemma RemovePatternStringsDeletesMatch(t: string, i: nat)
    requires DateAt(t, i) || StampAt(t, i)
    requires forall j :: 0 <= j < i ==> !DateAt(t, j) && !StampAt(t, j)
    ensures RemovePatternStrings(t) == t[..i] + RemoveArtifactsFrom(t, i + (if DateAt(t, i) then 5 else 13))
  {
    CopiedUntil(t, 0, i);
    assert t[0..i] == t[..i];
  }

  /** Below any artifact lies a leftmost one. */
  lemma FirstArtifact(t: string, k: nat) returns (i: nat)
    requires DateAt(t, k) || StampAt(t, k)
    ensures i <= k && (DateAt(t, i) || StampAt(t, i))
    ensures forall j :: 0 <= j < i ==> !DateAt(t, j) && !StampAt(t, j)
    decreases k
  {
    if j :| 0 <= j < k && (DateAt(t, j) || StampAt(t, j)) {
      i := FirstArtifact(t, j);
    } else {
      i := k;
    }
  }

  /** The text comes back unchanged exactly when no artifact occurs in it. */
  lemma RemovePatternStringsUnchanged(t: string)
    ensures RemovePatternStrings(t) == t <==> forall k :: 0 <= k < |t| ==> !DateAt(t, k) && !StampAt(t, k)
  {
    if forall k :: 0 <= k < |t| ==> !DateAt(t, k) && !StampAt(t, k) {
      CopiedUntil(t, 0, |t|);
      assert t[0..|t|] == t;
    } else {
      var k :| 0 <= k < |t| && (DateAt(t, k) || StampAt(t, k));
      var i := FirstArtifact(t, k);
      RemovePatternStringsDeletesMatch(t, i);
    }
  }

  /** Characters that are neither colons nor lower case. */
  predicate Prepared(s: string) {
    forall k :: 0 <= k < |s| ==> s[k] != ':' && !IsLower(s[k])
  }

  /** Deleting artifacts from prepared text leaves prepared text: the scan only
      copies or drops input characters. */
  lemma {:induction false} RemoveArtifactsKeepsPrepared(t: string, i: nat)
    requires i <= |t| && forall k :: i <= k < |t| ==> t[k] != ':' && !IsLower(t[k])
    ensures Prepared(RemoveArtifactsFrom(t, i))
    decreases |t| - i
  {
    if i < |t| {
      if DateAt(t, i) {
        RemoveArtifactsKeepsPrepared(t, i + 5);
      } else if StampAt(t, i) {
        RemoveArtifactsKeepsPrepared(t, i + 13);
      } else {
        RemoveArtifactsKeepsPrepared(t, i + 1);
        var rest := RemoveArtifactsFrom(t, i + 1);
        assert RemoveArtifactsFrom(t, i) == [t[i]] + rest;
      }
    }
  }

  // =====================================================================
  // remove_punctuation and the normalisation at the head of extract_plate
  // =====================================================================

  /** `s.translate(str.maketrans("", "", string.punctuation))`. */
  function RemovePunctuation(s: string): (r: string)
    ensures forall k :: 0 <= k < |r| ==> !IsPunct(r[k])
    ensures (forall k :: 0 <= k < |s| ==> !IsPunct(s[k])) ==> r == s
  {
    if s == [] then []
    else
      assert s == [s[0]] + s[1..];
      (if IsPunct(s[0]) then [] else [s[0]]) + RemovePunctuation(s[1..])
  }

  /** Exactly the punctuation characters go: every other character keeps its
      number of occurrences. */
  lemma {:induction false} RemovePunctuationCounts(s: string)
    ensures forall c :: multiset(RemovePunctuation(s))[c] == if IsPunct(c) then 0 else multiset(s)[c]
    decreases |s|
  {
    if s != [] {
      RemovePunctuationCounts(s[1..]);
      assert s == [s[0]] + s[1..];
      assert multiset(s) == multiset([s[0]]) + multiset(s[1..]);
    }
  }

  /** Removing punctuation works piece by piece, so the characters that stay
      keep their order. */
  lemma {:induction false} RemovePunctuationAppend(a: string, b: string)
    ensures RemovePunctuation(a + b) == RemovePunctuation(a) + RemovePunctuation(b)
    decreases |a|
  {
    if a == [] {
      assert a + b == b;
    } else {
      assert (a + b)[0] == a[0];
      assert (a + b)[1..] == a[1..] + b;
      RemovePunctuationAppend(a[1..], b);
    }
  }

  /** A single character is dropped exactly when it is punctuation. */
  lemma RemovePunctuationChar(c: char)
    ensures RemovePunctuation([c]) == if IsPunct(c) then [] else [c]
  {
    assert [c][1..] == [];
  }

  /** Positions `k` and `k + 1` both hold a space. */
  predicate DoubleSpace(t: string, k: nat) {
    k + 1 < |t| && t[k] == ' ' && t[k + 1] == ' '
  }

  /** `re.sub(r'\s+', ' ', s)`: every whitespace run becomes one space. */
  function CollapseSpaces(s: string): (r: string)
    ensures forall k :: 0 <= k < |r| ==> IsSpace(r[k]) ==> r[k] == ' '
    ensures forall k :: 0 <= k < |r| ==> !DoubleSpace(r, k)
    ensures s == [] <==> r == []
    ensures s != [] ==> (IsSpace(s[0]) <==> r[0] == ' ')
    decreases |s|
  {
    if s == [] then []
    else if IsSpace(s[0]) then
      var rest := CollapseSpaces(s[LeadingSpaces(s)..]);
      NoDoubleSpaceCons(' ', rest);
      [' '] + rest
    else
      var rest := CollapseSpaces(s[1..]);
      NoDoubleSpaceCons(s[0], rest);
      [s[0]] + rest
  }

  /** Collapsing brings in no character other than the space. */
  lemma {:induction false} CollapseAddsNothing(s: string)
    ensures forall k :: 0 <= k < |CollapseSpaces(s)| ==> CollapseSpaces(s)[k] == ' ' || CollapseSpaces(s)[k] in s
    decreases |s|
  {
    if s != [] {
      var n := if IsSpace(s[0]) then LeadingSpaces(s) else 1;
      CollapseAddsNothing(s[n..]);
      forall c | c in s[n..] ensures c in s {
        var j :| 0 <= j < |s[n..]| && s[n..][j] == c;
        assert s[n + j] == c;
      }
    }
  }

  /** Putting a character in front of text without two spaces in a row keeps it
      so, unless both the character and the first of the text are spaces. */
  lemma NoDoubleSpaceCons(c: char, t: string)
    requires forall k :: 0 <= k < |t| ==> !DoubleSpace(t, k)
    requires c == ' ' ==> t == [] || t[0] != ' '
    ensures forall k :: 0 <= k < |[c] + t| ==> !DoubleSpace([c] + t, k)
  {
    forall k | 1 <= k < |[c] + t| ensures !DoubleSpace([c] + t, k) {
      assert !DoubleSpace(t, k - 1);
    }
  }

  /** Collapsing changes whitespace only: the other characters stay, in order. */
  lemma {:induction false} CollapseKeepsText(s: string)
    ensures Without(CollapseSpaces(s), IsSpace) == Without(s, IsSpace)
    decreases |s|
  {
    if s != [] && IsSpace(s[0]) {
      var n := LeadingSpaces(s);
      var rest := CollapseSpaces(s[n..]);
      CollapseKeepsText(s[n..]);
      assert CollapseSpaces(s) == [' '] + rest;
      assert s[..n] + s[n..] == s;
      KeepsTextStep(s[..n], [' '], s[n..], rest);
    } else if s != [] {
      var rest := CollapseSpaces(s[1..]);
      CollapseKeepsText(s[1..]);
      assert CollapseSpaces(s) == [s[0]] + rest;
      assert [s[0]] + s[1..] == s;
      KeepsTextStep([s[0]], [s[0]], s[1..], rest);
    }
  }

  /** Text-preservation is compositional: equal text in front and equal text
      behind give equal text in all. */
  lemma KeepsTextStep(a: string, a': string, b: string, b': string)
    requires (forall k :: 0 <= k < |a| ==> IsSpace(a[k])) || a == a'
    requires forall k :: 0 <= k < |a'| ==> IsSpace(a'[k]) || a == a'
    requires Without(b', IsSpace) == Without(b, IsSpace)
    ensures Without(a' + b', IsSpace) == Without(a + b, IsSpace)
  {
    WithoutAppend(a, b, IsSpace);
    WithoutAppend(a', b', IsSpace);
    if a != a' {
      WithoutAll(a, IsSpace);
      WithoutAll(a', IsSpace);
    }
  }

  /** A leading whitespace run collapses to one space. */
  lemma CollapseBlankFront(s: string)
    requires s != [] && IsSpace(s[0])
    ensures CollapseSpaces(s) == [' '] + CollapseSpaces(s[LeadingSpaces(s)..])
  {
  }

  /** A leading non-blank is copied. */
  lemma CollapseCharFront(s: string)
    requires s != [] && !IsSpace(s[0])
    ensures CollapseSpaces(s) == [s[0]] + CollapseSpaces(s[1..])
  {
  }

  /** Text ending in a non-blank collapses on its own: what follows it is
      collapsed separately. */
  lemma {:induction false} CollapseSpacesAppend(x: string, y: string)
    requires x != [] && !IsSpace(x[|x| - 1])
    ensures CollapseSpaces(x + y) == CollapseSpaces(x) + CollapseSpaces(y)
    decreases |x|
  {
    if IsSpace(x[0]) {
      var n := LeadingSpaces(x);
      assert x[n..][|x[n..]| - 1] == x[|x| - 1];
      CollapseSpacesAppend(x[n..], y);
      AppendAfterBlanks(x, y);
    } else if |x| == 1 {
      assert x[1..] + y == y;
      AppendAfterChar(x, y);
    } else {
      assert x[1..][|x[1..]| - 1] == x[|x| - 1];
      CollapseSpacesAppend(x[1..], y);
      AppendAfterChar(x, y);
    }
  }

  /** The step of `CollapseSpacesAppend` for a leading whitespace run. */
  lemma AppendAfterBlanks(x: string, y: string)
    requires x != [] && IsSpace(x[0]) && LeadingSpaces(x) < |x|
    requires CollapseSpaces(x[LeadingSpaces(x)..] + y)
             == CollapseSpaces(x[LeadingSpaces(x)..]) + CollapseSpaces(y)
    ensures CollapseSpaces(x + y) == CollapseSpaces(x) + CollapseSpaces(y)
  {
    BlankFrontOfAppend(x, y);
    CollapseBlankFront(x);
  }

  /** Text behind the leading run of `x` does not change where that run ends. */
  lemma BlankFrontOfAppend(x: string, y: string)
    requires x != [] && IsSpace(x[0]) && LeadingSpaces(x) < |x|
    ensures CollapseSpaces(x + y) == [' '] + CollapseSpaces(x[LeadingSpaces(x)..] + y)
  {
    var n := LeadingSpaces(x);
    var s := x + y;
    assert s[0] == x[0];
    LeadingSpacesAppend(x, y);
    assert s[n..] == x[n..] + y;
    CollapseBlankFront(s);
  }

  /** The step of `CollapseSpacesAppend` for a leading non-blank. */
  lemma AppendAfterChar(x: string, y: string)
    requires x != [] && !IsSpace(x[0])
    requires CollapseSpaces(x[1..] + y) == CollapseSpaces(x[1..]) + CollapseSpaces(y)
    ensures CollapseSpaces(x + y) == CollapseSpaces(x) + CollapseSpaces(y)
  {
    CharFrontOfAppend(x, y);
    CollapseCharFront(x);
  }

  /** A leading non-blank of `x` is also the leading non-blank of `x + y`. */
  lemma CharFrontOfAppend(x: string, y: string)
    requires x != [] && !IsSpace(x[0])
    ensures CollapseSpaces(x + y) == [x[0]] + CollapseSpaces(x[1..] + y)
  {
    var s := x + y;
    assert s[0] == x[0];
    assert s[1..] == x[1..] + y;
    CollapseCharFront(s);
  }

  /** A whitespace run between two non-blanks becomes exactly one space. */
  lemma CollapseSeparates(a: string, w: string, b: string)
    requires a != [] && !IsSpace(a[|a| - 1])
    requires w != [] && forall k :: 0 <= k < |w| ==> IsSpace(w[k])
    requires b != [] && !IsSpace(b[0])
    ensures CollapseSpaces(a + w + b) == CollapseSpaces(a) + " " + CollapseSpaces(b)
  {
    assert a + w + b == a + (w + b);
    CollapseSpacesAppend(a, w + b);
    LeadingSpacesBlanks(w, b);
    assert (w + b)[0] == w[0];
    assert (w + b)[|w|..] == b;
  }

  /** Collapsing keeps a final non-blank character as the last one. */
  lemma {:induction false} CollapseKeepsLast(s: string)
    requires s != [] && !IsSpace(s[|s| - 1])
    ensures CollapseSpaces(s) != [] && CollapseSpaces(s)[|CollapseSpaces(s)| - 1] == s[|s| - 1]
    decreases |s|
  {
    if IsSpace(s[0]) {
      var n := LeadingSpaces(s);
      assert s[n..][|s[n..]| - 1] == s[|s| - 1];
      CollapseKeepsLast(s[n..]);
    } else if |s| > 1 {
      assert s[1..][|s[1..]| - 1] == s[|s| - 1];
      CollapseKeepsLast(s[1..]);
    }
  }

  /** Text in which whitespace is only single spaces is left as it is. */
  lemma {:induction false} CollapseSingleSpaces(s: string)
    requires forall k :: 0 <= k < |s| ==> IsSpace(s[k]) ==> s[k] == ' '
    requires forall k :: 0 <= k < |s| ==> !DoubleSpace(s, k)
    ensures CollapseSpaces(s) == s
    decreases |s|
  {
    if s != [] {
      forall k | 0 <= k < |s[1..]| ensures !DoubleSpace(s[1..], k) {
        assert !DoubleSpace(s, k + 1);
      }
      CollapseSingleSpaces(s[1..]);
      if IsSpace(s[0]) {
        assert !DoubleSpace(s, 0);
        assert LeadingSpaces(s) == 1;
      }
      assert [s[0]] + s[1..] == s;
    }
  }

  /** The four normalisation steps of extract_plate: upper-case, drop punctuation,
      collapse whitespace, strip. */
  function Normalize(raw: string): (r: string)
    ensures Normalized(r)
  {
    var u := RemovePunctuation(Upper(raw));
    UpperWithoutPunctuation(raw);
    var c := CollapseSpaces(u);
    CollapseAddsNothing(u);
    assert forall k :: 0 <= k < |c| ==> !IsLower(c[k]) && !IsPunct(c[k]) by {
      forall k | 0 <= k < |c| ensures !IsLower(c[k]) && !IsPunct(c[k]) {
        if c[k] != ' ' {
          var j :| 0 <= j < |u| && u[j] == c[k];
        }
      }
    }
    StripNormalizes(c);
    Strip(c)
  }

  /** Whitespace occurs only as single space characters. */
  predicate SingleSpaced(t: string) {
    (forall k :: 0 <= k < |t| ==> IsSpace(t[k]) ==> t[k] == ' ')
    && (forall k :: 0 <= k < |t| ==> !DoubleSpace(t, k))
  }

  /** What normalised text looks like. */
  predicate Normalized(t: string) {
    (forall k :: 0 <= k < |t| ==> !IsLower(t[k]) && !IsPunct(t[k]))
    && SingleSpaced(t)
    && (t == [] || (t[0] != ' ' && t[|t| - 1] != ' '))
  }

  lemma SingleSpacedInfix(t: string, a: nat, b: nat)
    requires SingleSpaced(t) && a <= b <= |t|
    ensures SingleSpaced(t[a..b])
  {
    var r := t[a..b];
    forall k | 0 <= k < |r| ensures !DoubleSpace(r, k) {
      assert !DoubleSpace(t, a + k);
      if k + 1 < |r| {
        assert r[k] == t[a + k] && r[k + 1] == t[a + k + 1];
      }
    }
  }

  /** Upper-casing and then dropping punctuation leaves neither kind of character. */
  lemma UpperWithoutPunctuation(raw: string)
    ensures forall k :: 0 <= k < |RemovePunctuation(Upper(raw))| ==>
              !IsLower(RemovePunctuation(Upper(raw))[k]) && !IsPunct(RemovePunctuation(Upper(raw))[k])
  {
    var up := Upper(raw);
    var u := RemovePunctuation(up);
    RemovePunctuationCounts(up);
    forall k | 0 <= k < |u| ensures !IsLower(u[k]) {
      assert multiset(u)[u[k]] > 0;
      assert u[k] in multiset(up);
    }
  }

  /** Stripping single-spaced text free of lower-case and punctuation normalises it. */
  lemma StripNormalizes(c: string)
    requires forall k :: 0 <= k < |c| ==> !IsLower(c[k]) && !IsPunct(c[k])
    requires SingleSpaced(c)
    ensures Normalized(Strip(c))
  {
    var a := LeadingSpaces(c);
    if a < |c| {
      var b := |c| - TrailingSpaces(c);
      assert Strip(c) == c[a..b];
      SingleSpacedInfix(c, a, b);
    }
  }

  /** Normalised text is upper-case, punctuation-free, trimmed and has no two
      spaces in a row; its non-blank characters are those of the upper-cased,
      punctuation-free input, in order. */
  lemma NormalizeNormalizes(raw: string)
    ensures Normalized(Normalize(raw))
    ensures Without(Normalize(raw), IsSpace) == Without(RemovePunctuation(Upper(raw)), IsSpace)
  {
    var u := RemovePunctuation(Upper(raw));
    CollapseKeepsText(u);
    StripKeepsText(CollapseSpaces(u));
  }

  /** Upper-casing and dropping punctuation leave a whitespace run in place. */
  lemma CleanSeparates(a: string, w: string, b: string)
    requires forall k :: 0 <= k < |w| ==> IsSpace(w[k])
    ensures RemovePunctuation(Upper(a + w + b))
            == RemovePunctuation(Upper(a)) + w + RemovePunctuation(Upper(b))
  {
    UpperAppend(a + w, b);
    UpperAppend(a, w);
    assert Upper(w) == w;
    RemovePunctuationAppend(Upper(a) + w, Upper(b));
    RemovePunctuationAppend(Upper(a), w);
  }

  /** A last character that is neither blank nor punctuation survives the
      upper-casing and the punctuation removal as a non-blank. */
  lemma CleanKeepsLast(a: string)
    requires a != [] && !IsSpace(a[|a| - 1]) && !IsPunct(a[|a| - 1])
    ensures var p := RemovePunctuation(Upper(a)); p != [] && !IsSpace(p[|p| - 1])
  {
    var u := Upper(a);
    var c := u[|u| - 1];
    assert !IsSpace(c) && !IsPunct(c);
    assert u == u[..|u| - 1] + [c];
    RemovePunctuationAppend(u[..|u| - 1], [c]);
    RemovePunctuationChar(c);
  }

  /** Likewise for a first character. */
  lemma CleanKeepsFirst(b: string)
    requires b != [] && !IsSpace(b[0]) && !IsPunct(b[0])
    ensures var p := RemovePunctuation(Upper(b)); p != [] && !IsSpace(p[0])
  {
    var u := Upper(b);
    assert !IsSpace(u[0]) && !IsPunct(u[0]);
    assert u == [u[0]] + u[1..];
    RemovePunctuationAppend([u[0]], u[1..]);
    RemovePunctuationChar(u[0]);
  }

  /** The blanks between two tokens survive normalisation as exactly one
      space, and each side is normalised on its own. */
  lemma NormalizeSeparates(a: string, w: string, b: string)
    requires a != [] && !IsSpace(a[|a| - 1]) && !IsPunct(a[|a| - 1])
    requires w != [] && forall k :: 0 <= k < |w| ==> IsSpace(w[k])
    requires b != [] && !IsSpace(b[0]) && !IsPunct(b[0])
    ensures Normalize(a + w + b) == Normalize(a) + " " + Normalize(b)
  {
    var pa, pb := RemovePunctuation(Upper(a)), RemovePunctuation(Upper(b));
    CleanSeparates(a, w, b);
    CleanKeepsLast(a);
    CleanKeepsFirst(b);
    CollapseStrip(pa, w, pb);
  }

  /** The last two normalisation steps on two cleaned parts and the run between them. */
  lemma CollapseStrip(pa: string, w: string, pb: string)
    requires pa != [] && !IsSpace(pa[|pa| - 1])
    requires w != [] && forall k :: 0 <= k < |w| ==> IsSpace(w[k])
    requires pb != [] && !IsSpace(pb[0])
    ensures Strip(CollapseSpaces(pa + w + pb))
            == Strip(CollapseSpaces(pa)) + " " + Strip(CollapseSpaces(pb))
  {
    var x, y := CollapseSpaces(pa), CollapseSpaces(pb);
    CollapseSeparates(pa, w, pb);
    CollapseKeepsLast(pa);
    assert y != [] && !IsSpace(y[0]);
    StripJoin(x, y);
  }

  /** Normalised text is a fixed point of the normalisation. */
  lemma NormalizedIsFixed(t: string)
    requires Normalized(t)
    ensures Normalize(t) == t
  {
    assert Upper(t) == t by {
      assert forall k :: 0 <= k < |t| ==> !IsLower(t[k]);
    }
    assert RemovePunctuation(t) == t by {
      assert forall k :: 0 <= k < |t| ==> !IsPunct(t[k]);
    }
    assert CollapseSpaces(t) == t by {
      CollapseSingleSpaces(t);
    }
    assert Strip(t) == t by {
      assert t == [] || (!IsSpace(t[0]) && !IsSpace(t[|t| - 1]));
    }
  }

  /** Normalising twice is normalising once. */
  lemma NormalizeIdempotent(raw: string)
    ensures Normalize(Normalize(raw)) == Normalize(raw)
  {
    NormalizeNormalizes(raw);
    NormalizedIsFixed(Normalize(raw));
  }

  // =====================================================================
  // The structural search of extract_plate
  // =====================================================================

  /** `pattern.search(t)` with the plate pattern, reduced to its three groups. */
  function Structural(t: string): (g: Option<Groups>)
    ensures g.Some? ==> 1 <= |g.value.left| <= 2 && forall k :: 0 <= k < |g.value.left| ==> IsUpper(g.value.left[k])
    ensures g.Some? ==> 2 <= |g.value.mid| <= 5 && forall k :: 0 <= k < |g.value.mid| ==> IsDigit(g.value.mid[k])
    ensures g.Some? ==> 1 <= |g.value.right| <= 3 && forall k :: 0 <= k < |g.value.right| ==> IsUpper(g.value.right[k])
    ensures g.None? <==> forall k: nat, sh: Shape :: !MatchesAt(PlatePattern, t, k, sh)
    ensures g.Some? ==>
              exists i: nat, sh: Shape ::
                (Leftmost(PlatePattern, t, i, sh) && i + Length(sh) <= |t| && g.value == Captured(t, i, sh))
  {
    match Search(PlatePattern, t, 0)
    case None => None
    case Some(m) =>
      assert Leftmost(PlatePattern, t, m.start, m.shape);
      Some(GroupsOf(PlatePattern, t, m))
  }

  /** The plate string before correction: `f"{left} {mid} {right}"`. */
  function Assemble(g: Groups): string {
    g.left + " " + g.mid + " " + g.right
  }

  /** Where the groups and the two blanks sit in the assembled plate. */
  lemma AssembleLayout(g: Groups)
    ensures var r := Assemble(g);
            |r| == |g.left| + |g.mid| + |g.right| + 2
            && r[..|g.left|] == g.left && r[|g.left|] == ' '
            && r[|g.left| + 1..|g.left| + 1 + |g.mid|] == g.mid && r[|g.left| + 1 + |g.mid|] == ' '
            && r[|g.left| + |g.mid| + 2..] == g.right
  {
  }

  // =====================================================================
  // typo_correction
  // =====================================================================

  /** A `fuzz.ratio` value. */
  type Score = x: int | 0 <= x <= 100

  /** A record of the reference table: a region code and its place names. */
  datatype Record = Record(kode: string, daerah: seq<string>)

  /** A record is adopted only with a score strictly above this. */
  const Threshold := 40

  /** Record `k` is the one the scan of `table[..n]` settles on: it scores above
      the threshold, no record scores higher, and every earlier record scores lower. */
  predicate FirstBest(table: seq<Record>, token: string, ratio: (string, string) -> Score, n: nat, k: nat)
    requires n <= |table|
  {
    k < n && ratio(token, table[k].kode) > Threshold
    && (forall j :: 0 <= j < n ==> ratio(token, table[j].kode) <= ratio(token, table[k].kode))
    && (forall j :: 0 <= j < k ==> ratio(token, table[j].kode) < ratio(token, table[k].kode))
  }

  /** The record held after the loop has seen `table[..n]`. */
  function Adopted(table: seq<Record>, token: string, ratio: (string, string) -> Score, n: nat): (res: Option<nat>)
    requires n <= |table|
    ensures res.Some? ==> FirstBest(table, token, ratio, n, res.value)
    ensures res.None? ==> forall j :: 0 <= j < n ==> ratio(token, table[j].kode) <= Threshold
  {
    if n == 0 then None
    else
      var prev := Adopted(table, token, ratio, n - 1);
      var maximum := if prev.Some? then ratio(token, table[prev.value].kode) else 0;
      var score := ratio(token, table[n - 1].kode);
      if score > maximum && score > Threshold then Some(n - 1) else prev
  }

  /** What typo_correction returns: the text with every occurrence of its first
      space-separated token replaced by the adopted record's code, and that
      record's place names; or the text unchanged and no region. */
  function Correct(text: string, table: seq<Record>, ratio: (string, string) -> Score): (r: (string, Option<seq<string>>))
    ensures r.1.None? <==> forall j :: 0 <= j < |table| ==> ratio(FirstToken(text), table[j].kode) <= Threshold
    ensures r.1.None? ==> r.0 == text
    ensures r.1.Some? ==> exists k: nat :: FirstBest(table, FirstToken(text), ratio, |table|, k)
                                   && r.0 == Replace(text, FirstToken(text), table[k].kode)
                                   && r.1.value == table[k].daerah
  {
    var token := FirstToken(text);
    match Adopted(table, token, ratio, |table|)
    case None => (text, None)
    case Some(k) => (Replace(text, token, table[k].kode), Some(table[k].daerah))
  }

  /** `typo_correction(text)` with the reference table and `fuzz.ratio` passed in. */
  method TypoCorrection(text: string, table: seq<Record>, ratio: (string, string) -> Score)
    returns (result: string, region: Option<seq<string>>)
    ensures (result, region) == Correct(text, table, ratio)
  {
    var token := FirstToken(text);
    var maximum := 0;
    var textResult := "";
    var daerah: seq<string> := [];
    for i := 0 to |table|
      invariant Adopted(table, token, ratio, i).None? ==> maximum == 0
      invariant Adopted(table, token, ratio, i).Some? ==>
                  var k := Adopted(table, token, ratio, i).value;
                  maximum == ratio(token, table[k].kode) && textResult == table[k].kode && daerah == table[k].daerah
    {
      var score := ratio(token, table[i].kode);
      if score > maximum && score > Threshold {
        maximum := score;
        textResult := table[i].kode;
        daerah := table[i].daerah;
      }
    }
    if maximum > 0 {
      result := Replace(text, token, textResult);
      region := Some(daerah);
    } else {
      result := text;
      region := None;
    }
  }

  /** On an assembled plate, correction rewrites the leading code but also every
      later occurrence of it in the suffix; the digit group and the spaces stay. */
  lemma CorrectPlate(g: Groups, table: seq<Record>, ratio: (string, string) -> Score)
    requires 1 <= |g.left| && forall k :: 0 <= k < |g.left| ==> IsUpper(g.left[k])
    requires forall k :: 0 <= k < |g.mid| ==> IsDigit(g.mid[k])
    ensures FirstToken(Assemble(g)) == g.left
    ensures ' ' in Correct(Assemble(g), table, ratio).0
    ensures var r := Correct(Assemble(g), table, ratio);
            r.1.None? ==> r.0 == Assemble(g)
    ensures var r := Correct(Assemble(g), table, ratio);
            r.1.Some? ==> exists k: nat :: FirstBest(table, g.left, ratio, |table|, k)
                                    && r.0 == table[k].kode + " " + g.mid + " " + Replace(g.right, g.left, table[k].kode)
                                    && r.1.value == table[k].daerah
  {
    var text := Assemble(g);
    AssembledToken(g);
    var r := Correct(text, table, ratio);
    if r.1.Some? {
      var k: nat :| FirstBest(table, g.left, ratio, |table|, k)
                    && r.0 == Replace(text, g.left, table[k].kode) && r.1.value == table[k].daerah;
      var kode := table[k].kode;
      ReplacePlateCode(g, kode);
      assert r.0[|kode|] == ' ';
    } else {
      assert text[|g.left|] == ' ';
    }
  }

  /** The first blank-separated token of an assembled plate is its leading code. */
  lemma AssembledToken(g: Groups)
    requires forall k :: 0 <= k < |g.left| ==> IsUpper(g.left[k])
    ensures FirstToken(Assemble(g)) == g.left
  {
    assert ' ' !in g.left by {
      forall k | 0 <= k < |g.left| ensures g.left[k] != ' ' { }
    }
    FirstTokenOf(g.left, g.mid + " " + g.right);
    assert Assemble(g) == g.left + " " + (g.mid + " " + g.right);
  }

  /** Replacing the leading code of an assembled plate: the front occurrence is
      rewritten, the blanks and digits cannot start an occurrence, and the scan
      goes on into the suffix group. */
  lemma ReplacePlateCode(g: Groups, kode: string)
    requires 1 <= |g.left| && forall k :: 0 <= k < |g.left| ==> IsUpper(g.left[k])
    requires forall k :: 0 <= k < |g.mid| ==> IsDigit(g.mid[k])
    ensures Replace(Assemble(g), g.left, kode) == kode + " " + g.mid + " " + Replace(g.right, g.left, kode)
  {
    var gap := " " + g.mid + " ";
    var rest := Replace(g.right, g.left, kode);
    assert Replace(Assemble(g), g.left, kode) == kode + Replace(gap + g.right, g.left, kode) by {
      assert Assemble(g) == g.left + (gap + g.right);
      ReplaceAtFront(gap + g.right, g.left, kode);
    }
    assert Replace(gap + g.right, g.left, kode) == gap + rest by {
      GapHasNoCapital(g.mid, g.left[0]);
      ReplaceSkipsPrefix(gap, g.right, g.left, kode);
    }
    assert kode + (gap + rest) == kode + " " + g.mid + " " + rest;
  }

  /** The blanks and digits between the groups differ from any capital. */
  lemma GapHasNoCapital(mid: string, c: char)
    requires IsUpper(c)
    requires forall k :: 0 <= k < |mid| ==> IsDigit(mid[k])
    ensures forall k :: 0 <= k < |" " + mid + " "| ==> (" " + mid + " ")[k] != c
  {
    var gap := " " + mid + " ";
    forall k | 0 <= k < |gap| ensures gap[k] != c {
      if 0 < k < |gap| - 1 {
        assert gap[k] == mid[k - 1];
      }
    }
  }

  /** The deepest consequence of "replace every occurrence": a suffix holding the
      code is rewritten too (the text is a parameter so that the solver does not
      evaluate `replace` on the literal). */
  lemma CorrectionReachesSuffix(s: string)
    requires s == "A 12 AB"
    ensures Replace(s, "A", "B") == "B 12 BB"
  {
    ReplaceChar(s, 'A', 'B');
    var r := Replace(s, ['A'], ['B']);
    assert forall k :: 0 <= k < |r| ==> r[k] == "B 12 BB"[k];
  }

  // =====================================================================
  // extract_plate
  // =====================================================================

  /** `extract_plate(raw_text)`: `(None, None)` for empty text or text without the
      plate structure, else the corrected plate string and the region (if any). */
  function ExtractPlate(raw: string, table: seq<Record>, ratio: (string, string) -> Score)
    : (res: (Option<string>, Option<seq<string>>))
    ensures res.0.None? <==> raw == [] || Structural(Normalize(raw)).None?
    ensures res.0.None? ==> res.1.None?
    ensures res.0.Some? ==> ' ' in res.0.value
  {
    if raw == [] then (None, None)
    else
      match Structural(Normalize(raw))
      case None => (None, None)
      case Some(g) =>
        CorrectPlate(g, table, ratio);
        var corrected := Correct(Assemble(g), table, ratio);
        (Some(corrected.0), corrected.1)
  }

  /** On a match, the plate is the assembled leftmost match, corrected: unchanged
      with no region when no record scores above 40, and otherwise led by the
      first best record's code, with that record's place names. */
  lemma ExtractPlateOnMatch(raw: string, table: seq<Record>, ratio: (string, string) -> Score, g: Groups)
    requires Structural(Normalize(raw)) == Some(g)
    ensures var res := ExtractPlate(raw, table, ratio);
            res.1.None? ==> res.0 == Some(Assemble(g))
    ensures var res := ExtractPlate(raw, table, ratio);
            res.1.Some? ==> exists k: nat :: FirstBest(table, g.left, ratio, |table|, k)
                                     && res.0 == Some(table[k].kode + " " + g.mid + " " + Replace(g.right, g.left, table[k].kode))
                                     && res.1 == Some(table[k].daerah)
  {
    var res := ExtractPlate(raw, table, ratio);
    var r := Correct(Assemble(g), table, ratio);
    assert res == (Some(r.0), r.1);
    CorrectPlate(g, table, ratio);
    if r.1.Some? {
      var k: nat :| FirstBest(table, g.left, ratio, |table|, k)
                    && r.0 == table[k].kode + " " + g.mid + " " + Replace(g.right, g.left, table[k].kode)
                    && r.1.value == table[k].daerah;
      assert res.1 == Some(table[k].daerah);
    }
  }

  // =====================================================================
  // process_pattern (not called by the application)
  // =====================================================================

  /** `re.sub(pattern, r'\1 \2 \3', t)` from position `i` on. */
  function ReformatFrom(t: string, i: nat): (r: string)
    requires i <= |t|
    ensures (forall k: nat, sh: Shape :: i <= k ==> !MatchesAt(ReformatPattern, t, k, sh)) ==> r == t[i..]
    decreases |t| - i
  {
    if i == |t| then []
    else
      match MatchAt(ReformatPattern, t, i)
      case Some(sh) =>
        var g := GroupsOf(ReformatPattern, t, Match(i, sh));
        g.left + " " + g.mid + " " + g.right + ReformatFrom(t, i + Length(sh))
      case None =>
        assert t[i..] == [t[i]] + t[i + 1..];
        [t[i]] + ReformatFrom(t, i + 1)
  }

  /** `process_pattern(input_string)`. */
  function ProcessPattern(s: string): (r: string)
    ensures (forall k: nat, sh: Shape :: !MatchesAt(ReformatPattern, s, k, sh)) ==> r == s
  {
    assert s[0..] == s;
    ReformatFrom(s, 0)
  }

  /** A maximal match covering the whole input produces the three groups
      separated by single blanks. */
  lemma ReformatWhole(t: string, sh: Shape, g: Groups)
    requires MatchesAt(ReformatPattern, t, 0, sh) && Maximal(ReformatPattern, t, 0, sh)
    requires Length(sh) == |t| && GroupsOf(ReformatPattern, t, Match(0, sh)) == g
    ensures ProcessPattern(t) == g.left + " " + g.mid + " " + g.right
  {
    ForcedMatch(ReformatPattern, t, 0, sh);
    assert t[0..] == t;
    assert ReformatFrom(t, |t|) == [];
  }

  /** The example of its comment: "AB1234CD" becomes "AB 1234 CD" (the input is
      a parameter so that the solver does not evaluate the scan on the literal). */
  lemma ProcessPatternExample(t: string)
    requires t == "AB1234CD"
    ensures ProcessPattern(t) == "AB 1234 CD"
  {
    var sh := Shape(2, 0, 4, 0, 2);
    assert MatchesAt(ReformatPattern, t, 0, sh);
    assert Maximal(ReformatPattern, t, 0, sh);
    assert t[..2] == "AB" && t[2..6] == "1234" && t[6..8] == "CD";
    ReformatWhole(t, sh, Groups("AB", "1234", "CD"));
    JoinedExample();
  }

  /** The groups of the example joined with single blanks. */
  lemma JoinedExample()
    ensures "AB" + " " + "1234" + " " + "CD" == "AB 1234 CD"
  {
  }

}
