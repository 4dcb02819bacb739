/**
 * Properties of the table of properly cased parts and of the two casing
 * rules built on it. The rules are stated for any table that, like `Cased`,
 * spells every part one way only, has no entry shorter than two characters
 * and starts with the five particles of the split pattern.
 */
module FixNameCaseTable {
  import opened Wrappers
  import opened PhpStrings
  import opened NameSplit
  import opened FixNameCase

  /** The parts the split pattern captures besides space and hyphen, in their table spelling. */
  const Particles: seq<string> := ["O'", "l'", "d'", "St.", "Mc"]

  /** No two entries are equal ignoring case unless they are spelled the same. */
  predicate CaseUnique(table: seq<string>) {
    forall i, j :: 0 <= i < |table| && 0 <= j < |table| && CaseEqual(table[i], table[j]) ==> table[i] == table[j]
  }

  /** What the casing rules need of a table. */
  predicate ProperTable(table: seq<string>) {
    && CaseUnique(table)
    && (forall i :: 0 <= i < |table| ==> |table[i]| >= 2)
    && |table| >= |Particles| && table[..|Particles|] == Particles
  }

  // ---------------------------------------------------------------------------
  // The table of `execute`

  /** The entries of `Cased`, lower-cased, position by position. */
  const FoldedCased: seq<string> := [
    "o'", "l'", "d'", "st.", "mc", "the", "van", "het", "in", "'t", "ten",
    "den", "von", "und", "der", "de", "da", "of", "and", "the", "iii", "iv",
    "vi", "vii", "viii", "ix"
  ]

  lemma CasedFolded()
    ensures |FoldedCased| == |Cased|
    ensures forall i :: 0 <= i < |Cased| ==> StrToLower(Cased[i]) == FoldedCased[i]
  {
  }

  /** The spelling of a lower-cased entry of `Cased`: a spelling is a function of the folded form. */
  function Spelling(k: string): string {
    if k == "o'" then "O'"
    else if k == "st." then "St."
    else if k == "mc" then "Mc"
    else if k == "iii" then "III"
    else if k == "iv" then "IV"
    else if k == "vi" then "VI"
    else if k == "vii" then "VII"
    else if k == "viii" then "VIII"
    else if k == "ix" then "IX"
    else k
  }

  lemma CasedSpelledLow()
    ensures forall i :: 0 <= i < 13 ==> Cased[i] == Spelling(FoldedCased[i])
  {
  }

  lemma CasedSpelledHigh()
    ensures forall i :: 13 <= i < 26 ==> Cased[i] == Spelling(FoldedCased[i])
  {
  }

  /** `Cased` spells every part one way (`the` is listed twice, the same way). */
  lemma CasedCaseUnique()
    ensures CaseUnique(Cased)
  {
    CasedFolded();
    CasedSpelledLow();
    CasedSpelledHigh();
    forall i, j | 0 <= i < |Cased| && 0 <= j < |Cased| && CaseEqual(Cased[i], Cased[j])
      ensures Cased[i] == Cased[j]
    {
      assert FoldedCased[i] == FoldedCased[j];
    }
  }

  lemma CasedProper()
    ensures ProperTable(Cased)
  {
    CasedCaseUnique();
  }

  // ---------------------------------------------------------------------------
  // Lookup

  /** The lookup sees only the lower-cased key. */
  lemma {:induction false} LookupIgnoresCase(table: seq<string>, x: string, y: string)
    requires CaseEqual(x, y)
    ensures Lookup(table, x) == Lookup(table, y)
    decreases |table|
  {
    if table != [] {
      LookupIgnoresCase(table[1..], x, y);
    }
  }

  lemma LookupLower(table: seq<string>, x: string)
    ensures Lookup(table, StrToLower(x)) == Lookup(table, x)
  {
    StrToLowerIdempotent(x);
    LookupIgnoresCase(table, StrToLower(x), x);
  }

  /**
   * In a table that spells every part one way, the lookup finds exactly the
   * entries equal to the key ignoring case.
   */
  lemma LookupCharacterised(table: seq<string>, x: string, e: string)
    requires CaseUnique(table)
    ensures Lookup(table, x) == Some(e) <==> e in table && CaseEqual(e, x)
  {
    if e in table && CaseEqual(e, x) {
      LookupNone(table, x);
      var r := Lookup(table, x);
      assert r.Some?;
      var i :| 0 <= i < |table| && table[i] == r.value;
      var j :| 0 <= j < |table| && table[j] == e;
      assert CaseEqual(table[i], table[j]);
    }
  }

  /** A key shorter than every entry is never found. */
  lemma LookupShort(table: seq<string>, x: string)
    requires forall i :: 0 <= i < |table| ==> |table[i]| >= 2
    requires |x| < 2
    ensures Lookup(table, x) == None
  {
    LookupNone(table, x);
    forall e | e in table ensures !CaseEqual(e, x) {
      var i :| 0 <= i < |table| && table[i] == e;
    }
  }

  /** `Cased` misses exactly the keys whose lower-case form is not a lower-cased entry. */
  lemma LookupMisses(x: string)
    ensures Lookup(Cased, x).None? <==> StrToLower(x) !in FoldedCased
  {
    CasedFolded();
    CasedCaseUnique();
    if StrToLower(x) in FoldedCased {
      var i :| 0 <= i < |FoldedCased| && FoldedCased[i] == StrToLower(x);
      LookupCharacterised(Cased, x, Cased[i]);
    } else {
      LookupNone(Cased, x);
      forall e | e in Cased ensures !CaseEqual(e, x) {
        var i :| 0 <= i < |Cased| && Cased[i] == e;
      }
    }
  }

  // ---------------------------------------------------------------------------
  // The two casing rules

  /** A text piece keeps its letters; only their case changes. */
  lemma CaseNameKeepsLetters(table: seq<string>, t: string)
    ensures StrToLower(CaseName(table, t)) == StrToLower(t)
  {
    if Lookup(table, t).None? {
      UcFirstLowerFolds(t);
    }
  }

  /** A text piece equal to an entry ignoring case takes that entry's spelling, as a whole piece only. */
  lemma CaseNameUsesTable(table: seq<string>, t: string, e: string)
    requires CaseUnique(table)
    requires e in table && CaseEqual(e, t)
    ensures CaseName(table, t) == e
  {
    LookupCharacterised(table, t, e);
  }

  /** Any other text piece gets its first character upper-cased and every other one lower-cased. */
  lemma CaseNameDefault(table: seq<string>, t: string)
    requires forall e :: e in table ==> !CaseEqual(e, t)
    ensures |CaseName(table, t)| == |t|
    ensures t != [] ==> CaseName(table, t)[0] == UpperChar(LowerChar(t[0]))
    ensures forall i :: 1 <= i < |t| ==> CaseName(table, t)[i] == LowerChar(t[i])
  {
    LookupNone(table, t);
    assert CaseName(table, t) == UcFirst(StrToLower(t));
  }

  /** The casing of a text piece depends on its lower-case form only. */
  lemma CaseNameIgnoresCase(table: seq<string>, t: string)
    ensures CaseName(table, StrToLower(t)) == CaseName(table, t)
  {
    LookupLower(table, t);
    StrToLowerIdempotent(t);
  }

  /** Re-casing a re-cased text piece changes nothing. */
  lemma CaseNameIdempotent(table: seq<string>, t: string)
    requires CaseUnique(table)
    ensures CaseName(table, CaseName(table, t)) == CaseName(table, t)
  {
    var r := CaseName(table, t);
    CaseNameKeepsLetters(table, t);
    match Lookup(table, t)
    case Some(e) =>
      LookupCharacterised(table, r, e);
    case None =>
      LookupIgnoresCase(table, r, t);
      StrToLowerIdempotent(t);
      UcFirstLowerFolds(t);
  }

  lemma CaseSeparatorKeepsLetters(table: seq<string>, d: string)
    ensures StrToLower(CaseSeparator(table, d)) == StrToLower(d)
  {
  }

  lemma ParticlesFolded()
    ensures |Particles| == 5
    ensures StrToLower(Particles[0]) == "o'" && StrToLower(Particles[1]) == "l'"
    ensures StrToLower(Particles[2]) == "d'" && StrToLower(Particles[3]) == "st."
    ensures StrToLower(Particles[4]) == "mc"
  {
  }

  /** Which of the particles a separator longer than one character is. */
  lemma ParticleIndex(d: string) returns (i: nat)
    requires IsDelimiter(d) && |d| > 1
    ensures i < |Particles| && CaseEqual(Particles[i], d)
  {
    ParticlesFolded();
    LowerCharFacts(d[0]);
    LowerCharFacts(d[1]);
    var c := LowerChar(d[0]);
    if c == 'o' {
      i := 0;
    } else if c == 'l' {
      i := 1;
    } else if c == 'd' {
      i := 2;
    } else if c == 's' {
      i := 3;
    } else {
      i := 4;
    }
    var k := StrToLower(Particles[i]);
    assert |k| == |d|;
    assert forall j :: 0 <= j < |d| ==> StrToLower(d)[j] == k[j];
  }

  /**
   * A captured separator is a space or a hyphen, left as it is, or one of the
   * particles, emitted in the table's spelling whatever its input case.
   */
  lemma SeparatorSpelling(table: seq<string>, d: string)
    requires ProperTable(table) && IsDelimiter(d)
    ensures |d| == 1 ==> (d == " " || d == "-") && CaseSeparator(table, d) == d
    ensures |d| > 1 ==> CaseSeparator(table, d) in Particles && CaseEqual(CaseSeparator(table, d), d)
  {
    LowerCharFacts(d[0]);
    if |d| == 1 {
      LookupShort(table, d);
      assert d == [d[0]];
    } else {
      var i := ParticleIndex(d);
      assert table[i] == Particles[i];
      LookupCharacterised(table, d, Particles[i]);
    }
  }

  /** The casing of a captured separator depends on its lower-case form only. */
  lemma CaseSeparatorIgnoresCase(table: seq<string>, d: string)
    requires ProperTable(table) && IsDelimiter(d)
    ensures CaseSeparator(table, StrToLower(d)) == CaseSeparator(table, d)
  {
    LookupLower(table, d);
    if |d| == 1 {
      SeparatorSpelling(table, d);
      LowerCharFacts(d[0]);
      assert StrToLower(d) == d;
    } else {
      var i := ParticleIndex(d);
      assert table[i] == Particles[i];
      LookupCharacterised(table, d, Particles[i]);
    }
  }
}
