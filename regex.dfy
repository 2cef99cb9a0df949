/** Python `re` semantics for the one family of patterns the plate pipeline uses:

      (X{lmin,lmax}) \s* (\d{dmin,dmax}) \s* (X{rmin,rmax})

    where X is `[A-Z]` or `[a-zA-Z]`.  A match attempt at one start position is
    modelled as the backtracking engine runs it: every counted repetition is
    greedy, so it first takes as many characters as the bound allows and then
    gives them back one at a time; the left group is tried first, the suffix
    last.  `search` tries the start positions from left to right. */
module Regex {
  import opened PyStr
  import opened Wrappers

  /** The character classes that occur in the patterns. */
  datatype Class = Capitals | Letters | Digits | Blanks

  predicate Member(cl: Class, c: char) {
    match cl
    case Capitals => IsUpper(c)
    case Letters => IsAlpha(c)
    case Digits => IsDigit(c)
    case Blanks => IsSpace(c)
  }

  /** `t[j..j+n]` lies inside `t` and consists of characters of class `cl`. */
  predicate Run(t: string, j: nat, n: nat, cl: Class) {
    j + n <= |t| && forall k :: j <= k < j + n ==> Member(cl, t[k])
  }

  /** The letter class and the repetition bounds of the three groups. */
  datatype Pattern = Pattern(letters: Class, leftMin: nat, leftMax: nat,
                             midMin: nat, midMax: nat, rightMin: nat, rightMax: nat)

  /** `([A-Z]{1,2})\s*([0-9]{2,5})\s*([A-Z]{1,3})` */
  const PlatePattern := Pattern(Capitals, 1, 2, 2, 5, 1, 3)

  /** `([a-zA-Z]{1,3})\s*(\d{2,4})\s*([a-zA-Z]{2,3})` */
  const ReformatPattern := Pattern(Letters, 1, 3, 2, 4, 2, 3)

  /** How many characters each of the five parts of a match consumes. */
  datatype Shape = Shape(left: nat, ws1: nat, mid: nat, ws2: nat, right: nat)

  function Length(sh: Shape): nat {
    sh.left + sh.ws1 + sh.mid + sh.ws2 + sh.right
  }

  // ---------------------------------------------------------------------
  // What a match is, part by part from the suffix backwards
  // ---------------------------------------------------------------------

  predicate RightOk(p: Pattern, t: string, j: nat, r: nat) {
    p.rightMin <= r <= p.rightMax && Run(t, j, r, p.letters)
  }

  predicate Ws2Ok(p: Pattern, t: string, j: nat, w: nat, r: nat) {
    Run(t, j, w, Blanks) && RightOk(p, t, j + w, r)
  }

  predicate MidOk(p: Pattern, t: string, j: nat, d: nat, w: nat, r: nat) {
    p.midMin <= d <= p.midMax && Run(t, j, d, Digits) && Ws2Ok(p, t, j + d, w, r)
  }

  predicate Ws1Ok(p: Pattern, t: string, j: nat, w1: nat, d: nat, w2: nat, r: nat) {
    Run(t, j, w1, Blanks) && MidOk(p, t, j + w1, d, w2, r)
  }

  /** The pattern matches `t[i..i + Length(sh)]` with the parts sized as in `sh`. */
  predicate MatchesAt(p: Pattern, t: string, i: nat, sh: Shape) {
    p.leftMin <= sh.left <= p.leftMax && Run(t, i, sh.left, p.letters)
    && Ws1Ok(p, t, i + sh.left, sh.ws1, sh.mid, sh.ws2, sh.right)
  }

  /** The backtracking engine tries shape `a` no later than shape `b`: the order is
      lexicographic, larger counts first, the left group most significant. */
  predicate Precedes(a: Shape, b: Shape) {
    a.left > b.left || (a.left == b.left &&
    (a.ws1 > b.ws1 || (a.ws1 == b.ws1 &&
    (a.mid > b.mid || (a.mid == b.mid &&
    (a.ws2 > b.ws2 || (a.ws2 == b.ws2 && a.right >= b.right)))))))
  }

  // ---------------------------------------------------------------------
  // The engine
  // ---------------------------------------------------------------------

  /** Length of the whitespace run at `j`: what a greedy `\s*` first consumes. */
  function MaxSpaces(t: string, j: nat): (n: nat)
    ensures j <= |t| ==> Run(t, j, n, Blanks)
    ensures forall w: nat :: Run(t, j, w, Blanks) ==> w <= n
    decreases |t| - j
  {
    if j < |t| && IsSpace(t[j]) then
      assert forall w: nat :: w > 0 && Run(t, j, w, Blanks) ==> Run(t, j + 1, w - 1, Blanks);
      1 + MaxSpaces(t, j + 1)
    else 0
  }

  /** The suffix group with at most `r` letters: the largest admissible count. */
  function TryRight(p: Pattern, t: string, j: nat, r: nat): (res: Option<nat>)
    requires r <= p.rightMax
    ensures res.Some? ==> res.value <= r && RightOk(p, t, j, res.value)
    ensures res.Some? ==> forall r': nat :: r' <= r && RightOk(p, t, j, r') ==> r' <= res.value
    ensures res.None? ==> forall r': nat :: r' <= r ==> !RightOk(p, t, j, r')
    decreases r
  {
    if r < p.rightMin then None
    else if Run(t, j, r, p.letters) then Some(r)
    else if r == 0 then None
    else TryRight(p, t, j, r - 1)
  }

  /** `\s*` holding `w` blanks, then the suffix; on failure give one blank back. */
  function TryWs2(p: Pattern, t: string, j: nat, w: nat): (res: Option<(nat, nat)>)
    requires Run(t, j, w, Blanks)
    ensures res.Some? ==> res.value.0 <= w && Ws2Ok(p, t, j, res.value.0, res.value.1)
    ensures res.Some? ==> forall w': nat, r': nat :: w' <= w && Ws2Ok(p, t, j, w', r') ==>
                            w' < res.value.0 || (w' == res.value.0 && r' <= res.value.1)
    ensures res.None? ==> forall w': nat, r': nat :: w' <= w ==> !Ws2Ok(p, t, j, w', r')
    decreases w
  {
    match TryRight(p, t, j + w, p.rightMax)
    case Some(r) => Some((w, r))
    case None => if w == 0 then None else TryWs2(p, t, j, w - 1)
  }

  /** Everything after the digit group, starting with a greedy `\s*`. */
  function AfterMid(p: Pattern, t: string, j: nat): (res: Option<(nat, nat)>)
    ensures res.Some? ==> Ws2Ok(p, t, j, res.value.0, res.value.1)
    ensures res.Some? ==> forall w': nat, r': nat :: Ws2Ok(p, t, j, w', r') ==>
                            w' < res.value.0 || (w' == res.value.0 && r' <= res.value.1)
    ensures res.None? ==> forall w': nat, r': nat :: !Ws2Ok(p, t, j, w', r')
  {
    if j <= |t| then TryWs2(p, t, j, MaxSpaces(t, j)) else None
  }

  /** The digit group with at most `d` digits, then the rest; on failure one digit fewer. */
  function TryMid(p: Pattern, t: string, j: nat, d: nat): (res: Option<(nat, nat, nat)>)
    requires d <= p.midMax
    ensures res.Some? ==> res.value.0 <= d && MidOk(p, t, j, res.value.0, res.value.1, res.value.2)
    ensures res.Some? ==> forall d': nat, w': nat, r': nat :: d' <= d && MidOk(p, t, j, d', w', r') ==>
                            d' < res.value.0 || (d' == res.value.0 &&
                            (w' < res.value.1 || (w' == res.value.1 && r' <= res.value.2)))
    ensures res.None? ==> forall d': nat, w': nat, r': nat :: d' <= d ==> !MidOk(p, t, j, d', w', r')
    decreases d
  {
    if d < p.midMin then None
    else if Run(t, j, d, Digits) then
      match AfterMid(p, t, j + d)
      case Some(x) => Some((d, x.0, x.1))
      case None => if d == 0 then None else TryMid(p, t, j, d - 1)
    else if d == 0 then None
    else TryMid(p, t, j, d - 1)
  }

  /** `\s*` holding `w` blanks, then the digits and the rest; on failure one blank back. */
  function TryWs1(p: Pattern, t: string, j: nat, w: nat): (res: Option<(nat, nat, nat, nat)>)
    requires Run(t, j, w, Blanks)
    ensures res.Some? ==> res.value.0 <= w &&
                          Ws1Ok(p, t, j, res.value.0, res.value.1, res.value.2, res.value.3)
    ensures res.Some? ==> forall w1: nat, d: nat, w2: nat, r: nat :: w1 <= w && Ws1Ok(p, t, j, w1, d, w2, r) ==>
                            w1 < res.value.0 || (w1 == res.value.0 &&
                            (d < res.value.1 || (d == res.value.1 &&
                            (w2 < res.value.2 || (w2 == res.value.2 && r <= res.value.3)))))
    ensures res.None? ==> forall w1: nat, d: nat, w2: nat, r: nat :: w1 <= w ==> !Ws1Ok(p, t, j, w1, d, w2, r)
    decreases w
  {
    match TryMid(p, t, j + w, p.midMax)
    case Some(x) => Some((w, x.0, x.1, x.2))
    case None => if w == 0 then None else TryWs1(p, t, j, w - 1)
  }

  /** Everything after the left group, starting with a greedy `\s*`. */
  function AfterLeft(p: Pattern, t: string, j: nat): (res: Option<(nat, nat, nat, nat)>)
    ensures res.Some? ==> Ws1Ok(p, t, j, res.value.0, res.value.1, res.value.2, res.value.3)
    ensures res.Some? ==> forall w1: nat, d: nat, w2: nat, r: nat :: Ws1Ok(p, t, j, w1, d, w2, r) ==>
                            w1 < res.value.0 || (w1 == res.value.0 &&
                            (d < res.value.1 || (d == res.value.1 &&
                            (w2 < res.value.2 || (w2 == res.value.2 && r <= res.value.3)))))
    ensures res.None? ==> forall w1: nat, d: nat, w2: nat, r: nat :: !Ws1Ok(p, t, j, w1, d, w2, r)
  {
    if j <= |t| then TryWs1(p, t, j, MaxSpaces(t, j)) else None
  }

  /** The left group with at most `l` letters, then the rest; on failure one letter fewer. */
  function TryLeft(p: Pattern, t: string, i: nat, l: nat): (res: Option<Shape>)
    requires l <= p.leftMax
    ensures res.Some? ==> res.value.left <= l && MatchesAt(p, t, i, res.value)
    ensures res.Some? ==> forall sh: Shape :: sh.left <= l && MatchesAt(p, t, i, sh) ==> Precedes(res.value, sh)
    ensures res.None? ==> forall sh: Shape :: sh.left <= l ==> !MatchesAt(p, t, i, sh)
    decreases l
  {
    if l < p.leftMin then None
    else if Run(t, i, l, p.letters) then
      match AfterLeft(p, t, i + l)
      case Some(x) => Some(Shape(l, x.0, x.1, x.2, x.3))
      case None => if l == 0 then None else TryLeft(p, t, i, l - 1)
    else if l == 0 then None
    else TryLeft(p, t, i, l - 1)
  }

  /** One match attempt at position `i`: the first shape in backtracking order. */
  function MatchAt(p: Pattern, t: string, i: nat): (res: Option<Shape>)
    ensures res.Some? ==> MatchesAt(p, t, i, res.value)
    ensures res.Some? ==> forall sh :: MatchesAt(p, t, i, sh) ==> Precedes(res.value, sh)
    ensures res.None? ==> forall sh :: !MatchesAt(p, t, i, sh)
  {
    TryLeft(p, t, i, p.leftMax)
  }

  // ---------------------------------------------------------------------
  // re.search
  // ---------------------------------------------------------------------

  datatype Match = Match(start: nat, shape: Shape)

  /** `pattern.search(t, i)`: the leftmost start at or after `i` where an attempt
      succeeds, with the shape that attempt finds. */
  function Search(p: Pattern, t: string, i: nat): (res: Option<Match>)
    ensures res.Some? ==> i <= res.value.start && MatchesAt(p, t, res.value.start, res.value.shape)
    ensures res.Some? ==> forall sh :: MatchesAt(p, t, res.value.start, sh) ==> Precedes(res.value.shape, sh)
    ensures res.Some? ==> forall k: nat, sh: Shape :: i <= k < res.value.start ==> !MatchesAt(p, t, k, sh)
    ensures res.None? ==> forall k: nat, sh: Shape :: i <= k ==> !MatchesAt(p, t, k, sh)
    decreases |t| + 1 - i
  {
    if i > |t| then
      NoMatchPastEnd(p, t, i);
      None
    else
      match MatchAt(p, t, i)
      case Some(sh) => Some(Match(i, sh))
      case None =>
        var res := Search(p, t, i + 1);
        SearchStep(p, t, i, res);
        res
  }

  /** A search from `i + 1` stands for a search from `i` when nothing matches at `i`. */
  lemma SearchStep(p: Pattern, t: string, i: nat, res: Option<Match>)
    requires forall sh :: !MatchesAt(p, t, i, sh)
    requires res.Some? ==> forall k: nat, sh: Shape :: i + 1 <= k < res.value.start ==> !MatchesAt(p, t, k, sh)
    requires res.None? ==> forall k: nat, sh: Shape :: i + 1 <= k ==> !MatchesAt(p, t, k, sh)
    ensures res.Some? ==> forall k: nat, sh: Shape :: i <= k < res.value.start ==> !MatchesAt(p, t, k, sh)
    ensures res.None? ==> forall k: nat, sh: Shape :: i <= k ==> !MatchesAt(p, t, k, sh)
  {
  }

  /** No match starts beyond the end of the text. */
  lemma NoMatchPastEnd(p: Pattern, t: string, i: nat)
    requires i > |t|
    ensures forall k: nat, sh: Shape :: i <= k ==> !MatchesAt(p, t, k, sh)
  {
  }

  /** What `search` reports from position 0: a match at `i`, no match at any
      earlier start, and the first shape the engine tries at `i`. */
  ghost predicate Leftmost(p: Pattern, t: string, i: nat, sh: Shape) {
    MatchesAt(p, t, i, sh)
    && (forall k: nat, o: Shape :: k < i ==> !MatchesAt(p, t, k, o))
    && (forall o: Shape :: MatchesAt(p, t, i, o) ==> Precedes(sh, o))
  }

  /** The three captured groups of a match. */
  datatype Groups = Groups(left: string, mid: string, right: string)

  function GroupsOf(p: Pattern, t: string, m: Match): (g: Groups)
    requires MatchesAt(p, t, m.start, m.shape)
    ensures |g.left| == m.shape.left && |g.mid| == m.shape.mid && |g.right| == m.shape.right
    ensures forall k :: 0 <= k < |g.left| ==> Member(p.letters, g.left[k])
    ensures forall k :: 0 <= k < |g.mid| ==> IsDigit(g.mid[k])
    ensures forall k :: 0 <= k < |g.right| ==> Member(p.letters, g.right[k])
  {
    Captured(t, m.start, m.shape)
  }

  /** The text each group covers in a match of shape `sh` at `i`. */
  function Captured(t: string, i: nat, sh: Shape): Groups
    requires i + Length(sh) <= |t|
  {
    var a := i + sh.left + sh.ws1;
    var b := a + sh.mid + sh.ws2;
    Groups(t[i..i + sh.left], t[a..a + sh.mid], t[b..b + sh.right])
  }

  // ---------------------------------------------------------------------
  // When the match at a position is forced
  // ---------------------------------------------------------------------

  /** The character at `j` exists and is of class `cl`. */
  predicate At(t: string, j: nat, cl: Class) {
    j < |t| && Member(cl, t[j])
  }

  /** A run of class `cl` cannot reach past a position that is outside the class
      (or past the repetition bound). */
  lemma RunStops(t: string, j: nat, m: nat, n: nat, bound: nat, cl: Class)
    requires Run(t, j, m, cl) && m <= bound
    requires n == bound || !At(t, j + n, cl)
    ensures m <= n
  {
  }

  /** The conditions under which no other match can be tried before `sh`: each
      group is either at its upper bound or followed by a character outside its
      class, and each `\s*` takes the whole whitespace run. */
  predicate Maximal(p: Pattern, t: string, i: nat, sh: Shape) {
    (sh.left == p.leftMax || !At(t, i + sh.left, p.letters))
    && !At(t, i + sh.left + sh.ws1, Blanks)
    && (sh.mid == p.midMax || !At(t, i + sh.left + sh.ws1 + sh.mid, Digits))
    && !At(t, i + sh.left + sh.ws1 + sh.mid + sh.ws2, Blanks)
    && (sh.right == p.rightMax || !At(t, i + Length(sh), p.letters))
  }

  /** A match that is maximal is tried before every other match at its start. */
  lemma MaximalIsFirst(p: Pattern, t: string, i: nat, sh: Shape, other: Shape)
    requires MatchesAt(p, t, i, sh) && Maximal(p, t, i, sh)
    requires MatchesAt(p, t, i, other) && Precedes(other, sh)
    ensures other == sh
  {
    assert other.left == sh.left by {
      RunStops(t, i, other.left, sh.left, p.leftMax, p.letters);
    }
    var j1 := i + sh.left;
    assert other.ws1 == sh.ws1 by {
      RunStops(t, j1, other.ws1, sh.ws1, other.ws1, Blanks);
    }
    var j2 := j1 + sh.ws1;
    assert other.mid == sh.mid by {
      RunStops(t, j2, other.mid, sh.mid, p.midMax, Digits);
    }
    var j3 := j2 + sh.mid;
    assert other.ws2 == sh.ws2 by {
      RunStops(t, j3, other.ws2, sh.ws2, other.ws2, Blanks);
    }
    RunStops(t, j3 + sh.ws2, other.right, sh.right, p.rightMax, p.letters);
  }

  /** A maximal match is the one the engine returns at its start. */
  lemma ForcedMatch(p: Pattern, t: string, i: nat, sh: Shape)
    requires MatchesAt(p, t, i, sh) && Maximal(p, t, i, sh)
    ensures MatchAt(p, t, i) == Some(sh)
  {
    var res := MatchAt(p, t, i).value;
    MaximalIsFirst(p, t, i, sh, res);
  }

}
