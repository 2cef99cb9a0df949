/** Concrete cases of the plate pipeline, each reduced to the general lemmas
    by a few facts about the characters of the input. */
module Scenarios {
  import opened PyStr
  import opened Wrappers
  import opened Regex
  import opened TextProcessing
  import opened PlateScript

  // ---------------------------------------------------------------------
  // Reductions used by the cases below
  // ---------------------------------------------------------------------

  /** A maximal match at the first position is the one `search` returns. */
  lemma StructuralAtStart(t: string, sh: Shape, g: Groups)
    requires MatchesAt(PlatePattern, t, 0, sh) && Maximal(PlatePattern, t, 0, sh)
    requires GroupsOf(PlatePattern, t, Match(0, sh)) == g
    ensures Structural(t) == Some(g)
  {
    ForcedMatch(PlatePattern, t, 0, sh);
  }

  /** The groups of a match that starts at 0, as slices. */
  lemma GroupsAtStart(t: string, sh: Shape)
    requires MatchesAt(PlatePattern, t, 0, sh)
    ensures GroupsOf(PlatePattern, t, Match(0, sh))
            == Groups(t[..sh.left], t[sh.left + sh.ws1..sh.left + sh.ws1 + sh.mid],
                      t[sh.left + sh.ws1 + sh.mid + sh.ws2..Length(sh)])
  {
  }

  /** With one record in the table and a score above the threshold, that record
      is adopted. */
  lemma CorrectBySoleRecord(g: Groups, rec: Record, ratio: (string, string) -> Score)
    requires 1 <= |g.left| && forall k :: 0 <= k < |g.left| ==> IsUpper(g.left[k])
    requires forall k :: 0 <= k < |g.mid| ==> IsDigit(g.mid[k])
    requires ratio(g.left, rec.kode) > Threshold
    ensures Correct(Assemble(g), [rec], ratio)
            == (rec.kode + " " + g.mid + " " + Replace(g.right, g.left, rec.kode), Some(rec.daerah))
  {
    CorrectPlate(g, [rec], ratio);
  }

  /** As above, when the last group does not contain the code's first letter. */
  lemma CorrectBySoleRecordPlain(g: Groups, rec: Record, ratio: (string, string) -> Score)
    requires 1 <= |g.left| && forall k :: 0 <= k < |g.left| ==> IsUpper(g.left[k])
    requires forall k :: 0 <= k < |g.mid| ==> IsDigit(g.mid[k])
    requires forall k :: 0 <= k < |g.right| ==> g.right[k] != g.left[0]
    requires ratio(g.left, rec.kode) > Threshold
    ensures Correct(Assemble(g), [rec], ratio) == (rec.kode + " " + g.mid + " " + g.right, Some(rec.daerah))
  {
    CorrectBySoleRecord(g, rec, ratio);
    ReplaceWithoutHead(g.right, g.left, rec.kode);
  }

  /** A string without the pattern's first character is left alone by `replace`. */
  lemma ReplaceWithoutHead(s: string, pat: string, repl: string)
    requires |pat| > 0 && forall k :: 0 <= k < |s| ==> s[k] != pat[0]
    ensures Replace(s, pat, repl) == s
  {
    ReplaceSkipsPrefix(s, [], pat, repl);
    assert s + [] == s;
  }

  /** `t[..i]` is copied, the artifact at `i` is dropped, and the period-free
      rest from `e` on is copied. */
  lemma ArtifactThenPlain(t: string, i: nat, e: nat)
    requires i <= 1 && (i == 1 ==> !DateAt(t, 0) && !StampAt(t, 0))
    requires DateAt(t, i) || StampAt(t, i)
    requires e == if DateAt(t, i) then i + 5 else i + 13
    requires '.' !in t[e..]
    ensures RemovePatternStrings(t) == t[..i] + t[e..]
  {
    assert t[0..] == t;
    SkipArtifact(t, i);
    if i == 1 {
      CopyCharacter(t, 0);
      assert t[..1] == [t[0]];
    }
  }

  /** Text already in upper case and without colons is not changed by the
      preparation step. */
  lemma PrepareRawIdle(s: string)
    requires forall k :: 0 <= k < |s| ==> !IsLower(s[k]) && s[k] != ':'
    ensures PrepareRaw(s) == s
  {
    var r := PrepareRaw(s);
    ReplaceChar(Upper(s), ':', '.');
    assert forall k :: 0 <= k < |s| ==> r[k] == s[k];
  }

  /** One leading blank before single-spaced text is already collapsed. */
  lemma CollapseAfterBlank(t: string)
    requires t != [] && !IsSpace(t[0]) && SingleSpaced(t)
    ensures CollapseSpaces(" " + t) == " " + t
  {
    var s := " " + t;
    assert LeadingSpaces(s) == 1 by {
      assert s[1..] == t;
    }
    CollapseSingleSpaces(t);
  }

  /** `strip` removes exactly one leading blank from such text. */
  lemma StripAfterBlank(t: string)
    requires t != [] && !IsSpace(t[0]) && !IsSpace(t[|t| - 1])
    ensures Strip(" " + t) == t
  {
    var s := " " + t;
    assert LeadingSpaces(s) == 1 by {
      assert s[1..] == t;
    }
    assert s[1..] == t;
  }

  /** A leading blank in front of normalised text is all that normalisation removes. */
  lemma NormalizeAfterBlank(t: string)
    requires t != [] && Normalized(t)
    ensures Normalize(" " + t) == t
  {
    var s := " " + t;
    assert forall k :: 0 <= k < |s| ==> !IsLower(s[k]) && !IsPunct(s[k]) by {
      forall k | 1 <= k < |s| ensures !IsLower(s[k]) && !IsPunct(s[k]) {
        assert s[k] == t[k - 1];
      }
    }
    assert Upper(s) == s;
    assert RemovePunctuation(s) == s;
    assert !IsSpace(t[0]) && !IsSpace(t[|t| - 1]);
    CollapseAfterBlank(t);
    StripAfterBlank(t);
  }

  /** One upper-case fragment without colons reaches extraction with only the
      artifacts removed. */
  lemma CleanedSingle(raw: string, r: string)
    requires forall k :: 0 <= k < |raw| ==> !IsLower(raw[k]) && raw[k] != ':'
    requires RemovePatternStrings(raw) == r
    ensures Cleaned([Fragment(raw)]) == r
  {
    PrepareRawIdle(raw);
  }

  /** The labels drawn for a reading whose plate has groups `g` and whose code
      scores at most 40 against every record. */
  lemma ReadUnknownCode(frags: seq<Fragment>, n: string, g: Groups, table: seq<Record>, ratio: (string, string) -> Score)
    requires Cleaned(frags) != [] && Normalize(Cleaned(frags)) == n && Structural(n) == Some(g)
    requires forall j :: 0 <= j < |table| ==> ratio(g.left, table[j].kode) <= Threshold
    ensures ReadPlate(frags, table, ratio) == (Assemble(g), NotAvailable)
  {
    CorrectPlate(g, table, ratio);
  }

  // ---------------------------------------------------------------------
  // Structure
  // ---------------------------------------------------------------------

  /** Whatever follows the suffix group is not captured. */
  lemma TrailingIgnored()
    ensures Structural("AB 1234 CDX 50") == Some(Groups("AB", "1234", "CDX"))
  {
    var t := "AB 1234 CDX 50";
    var sh := Shape(2, 1, 4, 1, 3);
    assert MatchesAt(PlatePattern, t, 0, sh);
    assert Maximal(PlatePattern, t, 0, sh);
    GroupsAtStart(t, sh);
    assert t[..2] == "AB" && t[3..7] == "1234" && t[8..11] == "CDX";
    StructuralAtStart(t, sh, Groups("AB", "1234", "CDX"));
  }

  /** Without separating spaces the groups are the same. */
  lemma NoSpacesNeeded()
    ensures Structural("AB1234CDX50") == Some(Groups("AB", "1234", "CDX"))
  {
    var t := "AB1234CDX50";
    var sh := Shape(2, 0, 4, 0, 3);
    assert MatchesAt(PlatePattern, t, 0, sh);
    assert Maximal(PlatePattern, t, 0, sh);
    GroupsAtStart(t, sh);
    assert t[..2] == "AB" && t[2..6] == "1234" && t[6..9] == "CDX";
    StructuralAtStart(t, sh, Groups("AB", "1234", "CDX"));
  }

  // ---------------------------------------------------------------------
  // Region-code correction
  // ---------------------------------------------------------------------

  const Table1 := [Record("AB", ["Region1"])]

  /** A code that is already right is kept and its region reported. */
  lemma ExactCode(ratio: (string, string) -> Score)
    requires ratio("AB", "AB") > Threshold
    ensures Correct("AB 1234 CDX", Table1, ratio) == ("AB 1234 CDX", Some(["Region1"]))
  {
    var g := Groups("AB", "1234", "CDX");
    assert Assemble(g) == "AB 1234 CDX";
    CorrectBySoleRecordPlain(g, Table1[0], ratio);
  }

  /** A one-letter OCR error in the code is replaced by the table's code. */
  lemma TypoFixed(ratio: (string, string) -> Score)
    requires ratio("AD", "AB") == 50
    ensures Correct("AD 1234 CD", Table1, ratio) == ("AB 1234 CD", Some(["Region1"]))
  {
    var g := Groups("AD", "1234", "CD");
    assert Assemble(g) == "AD 1234 CD" by {}
    assert "AB" + " " + "1234" + " " + "CD" == "AB 1234 CD" by {}
    CorrectBySoleRecordPlain(g, Table1[0], ratio);
  }

  /** A best score of exactly 40 is not enough. */
  lemma ThresholdIsStrict(ratio: (string, string) -> Score)
    requires ratio("AD", "AB") == 40
    ensures Correct("AD 1234 CD", Table1, ratio) == ("AD 1234 CD", None)
  {
    var g := Groups("AD", "1234", "CD");
    assert Assemble(g) == "AD 1234 CD";
    CorrectPlate(g, Table1, ratio);
  }

  /** Of two records with the same best score, the first in table order wins. */
  lemma FirstOfEqualsWins(ratio: (string, string) -> Score)
    requires ratio("AD", "AB") == 60 && ratio("AD", "AE") == 60
    ensures Correct("AD 1234 CD", [Record("AB", ["R1"]), Record("AE", ["R2"])], ratio).1 == Some(["R1"])
  {
    var g := Groups("AD", "1234", "CD");
    var table := [Record("AB", ["R1"]), Record("AE", ["R2"])];
    assert Assemble(g) == "AD 1234 CD";
    CorrectPlate(g, table, ratio);
    var r := Correct(Assemble(g), table, ratio);
    var k: nat :| FirstBest(table, "AD", ratio, 2, k) && r.1.value == table[k].daerah;
    assert k == 0;
  }

  // ---------------------------------------------------------------------
  // Artifact removal
  // ---------------------------------------------------------------------

  /** A date-like token in front of the plate is deleted, the blank after it is kept. */
  lemma DateRemoved()
    ensures RemovePatternStrings("12.34 XY 99 ZZ") == " XY 99 ZZ"
  {
    var t := "12.34 XY 99 ZZ";
    assert DateAt(t, 0);
    assert t[5..] == " XY 99 ZZ";
    assert '.' !in t[5..];
    ArtifactThenPlain(t, 0, 5);
  }

  /** A bracketed stamp between two word characters is deleted. */
  lemma StampRemoved()
    ensures RemovePatternStrings("A<1><2>.<3><4>B") == "AB"
  {
    var t := "A<1><2>.<3><4>B";
    assert Boundary(t, 1) && Boundary(t, 14);
    assert StampAt(t, 1);
    assert !DateAt(t, 0) && !StampAt(t, 0) && !DateAt(t, 1);
    assert t[..1] + t[14..] == "AB";
    assert '.' !in t[14..];
    ArtifactThenPlain(t, 1, 14);
  }

  /** On its own the stamp stays: `\b` beside `<` or `>` needs a word character
      on the other side. */
  lemma LoneStampKept()
    ensures RemovePatternStrings("<1><2>.<3><4>") == "<1><2>.<3><4>"
  {
    var t := "<1><2>.<3><4>";
    LoneStampUnmatched(t);
    RemovePatternStringsUnchanged(t);
  }

  /** Neither alternative matches anywhere in the lone stamp. */
  lemma LoneStampUnmatched(t: string)
    requires t == "<1><2>.<3><4>"
    ensures forall j :: 0 <= j < |t| ==> !DateAt(t, j) && !StampAt(t, j)
  {
    assert !Boundary(t, 0);
    forall j | 0 <= j < |t| ensures !DateAt(t, j) && !StampAt(t, j) {
      assert !IsDigit(t[j]) || !IsDigit(t[j + 1]) || j + 5 > |t| || t[j + 2] != '.' by {
        if IsDigit(t[j]) { assert j in {1, 4, 8, 11}; }
      }
    }
  }

  // ---------------------------------------------------------------------
  // The whole reading step
  // ---------------------------------------------------------------------

  /** A colon-written artifact is removed too, since colons become periods first. */
  lemma ColonArtifact()
    ensures Cleaned([Fragment("12:34")]) == ""
  {
    var p := PrepareRaw("12:34");
    ReplaceChar(Upper("12:34"), ':', '.');
    assert p == "12.34";
    assert DateAt(p, 0);
    SkipArtifact(p, 0);
  }

  /** No OCR output: both labels are "N/A". */
  lemma NothingRead(table: seq<Record>, ratio: (string, string) -> Score)
    ensures ReadPlate([], table, ratio) == ("N/A", "N/A")
  {
  }

  /** The date-like token is removed from the cleaned OCR text. */
  lemma DateCleaned(raw: string)
    requires raw == "12.34 XY 99 ZZ"
    ensures Cleaned([Fragment(raw)]) == " XY 99 ZZ"
  {
    assert forall k :: 0 <= k < |raw| ==> !IsLower(raw[k]) && raw[k] != ':';
    DateRemoved();
    CleanedSingle(raw, " XY 99 ZZ");
  }

  /** The shortest middle group the pattern admits. */
  lemma ShortPlate(n: string)
    requires n == "XY 99 ZZ"
    ensures Structural(n) == Some(Groups("XY", "99", "ZZ"))
  {
    var sh := Shape(2, 1, 2, 1, 2);
    assert MatchesAt(PlatePattern, n, 0, sh);
    assert Maximal(PlatePattern, n, 0, sh);
    GroupsAtStart(n, sh);
    assert n[..2] == "XY" && n[3..5] == "99" && n[6..8] == "ZZ";
    StructuralAtStart(n, sh, Groups("XY", "99", "ZZ"));
  }

  /** The blank left where the date was is stripped by normalisation. */
  lemma BlankStripped(s: string)
    requires s == " XY 99 ZZ"
    ensures Normalize(s) == "XY 99 ZZ"
  {
    var n := "XY 99 ZZ";
    assert Normalized(n);
    assert s == " " + n;
    NormalizeAfterBlank(n);
  }

  /** The groups joined with single blanks. */
  lemma AssembleShort()
    ensures Assemble(Groups("XY", "99", "ZZ")) == "XY 99 ZZ"
  {
    assert "XY" + " " + "99" + " " + "ZZ" == "XY 99 ZZ";
  }

  /** Any reading that normalises to "XY 99 ZZ" is labelled with that plate and
      no region when "XY" scores at most 40 against the table's one code. */
  lemma ShortPlateLabels(frags: seq<Fragment>, ratio: (string, string) -> Score)
    requires Cleaned(frags) != [] && Normalize(Cleaned(frags)) == "XY 99 ZZ"
    requires Structural(Normalize(Cleaned(frags))) == Some(Groups("XY", "99", "ZZ"))
    requires ratio("XY", "AB") <= Threshold
    ensures ReadPlate(frags, Table1, ratio) == ("XY 99 ZZ", "N/A")
  {
    AssembleShort();
    ReadUnknownCode(frags, Normalize(Cleaned(frags)), Groups("XY", "99", "ZZ"), Table1, ratio);
  }

  /** An OCR reading with a date in front of the plate and no matching region
      code: the plate is read without the date and the region is "N/A".  (The
      reading is a parameter so that the solver does not evaluate the functions
      on the literal.) */
  lemma DateThenUnknownCode(raw: string, ratio: (string, string) -> Score)
    requires raw == "12.34 XY 99 ZZ" && ratio("XY", "AB") <= Threshold
    ensures ReadPlate([Fragment(raw)], Table1, ratio) == ("XY 99 ZZ", "N/A")
  {
    DateCleaned(raw);
    var cleaned := Cleaned([Fragment(raw)]);
    BlankStripped(cleaned);
    ShortPlate(Normalize(cleaned));
    ShortPlateLabels([Fragment(raw)], ratio);
  }

}
