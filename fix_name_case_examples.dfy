/**
 * `FixNameCase::execute` on particular names: particles recognised in any
 * case and anywhere in a word, table spellings, the default casing, spacing,
 * and the NUL character that defeats idempotence.
 *
 * Each example is proved in small steps (the split of the collapsed name,
 * the casing of each piece, the spelling of the joined result), so that no
 * single proof has to evaluate the whole routine on a literal.
 */
module FixNameCaseExamples {
  import opened PhpStrings
  import opened NameSplit
  import opened FixNameCase
  import opened FixNameCaseTable
  import opened FixNameCaseRender
  import opened FixNameCaseTheorems

  // ---------------------------------------------------------------------------
  // Casing single pieces with `Cased`

  /** A piece with no table entry gets the default casing. */
  lemma NameByDefault(t: string)
    requires StrToLower(t) !in FoldedCased
    ensures CaseName(Cased, t) == UcFirst(StrToLower(t))
  {
    LookupMisses(t);
  }

  /** A piece equal to entry `i` ignoring case takes that entry's spelling. */
  lemma NameFromTable(t: string, i: nat)
    requires i < |Cased| && StrToLower(t) == FoldedCased[i]
    ensures CaseName(Cased, t) == Cased[i] && CaseSeparator(Cased, t) == Cased[i]
  {
    CasedFolded();
    CasedCaseUnique();
    LookupCharacterised(Cased, t, Cased[i]);
  }

  /** `NameByDefault` with the expected spelling given. */
  lemma NameAs(t: string, out: string)
    requires StrToLower(t) !in FoldedCased && UcFirst(StrToLower(t)) == out
    ensures CaseName(Cased, t) == out
  {
    NameByDefault(t);
  }

  /** The empty text piece stays empty. */
  lemma EmptyName()
    ensures CaseName(Cased, "") == ""
  {
    CasedProper();
    LookupShort(Cased, "");
  }

  /** Space and hyphen are not in the table and pass through unchanged. */
  lemma PlainSeparators()
    ensures CaseSeparator(Cased, " ") == " " && CaseSeparator(Cased, "-") == "-"
  {
    CasedProper();
    LookupShort(Cased, " ");
    LookupShort(Cased, "-");
  }

  // ---------------------------------------------------------------------------
  // Generic steps

  /** No character `trim` strips at either end. */
  predicate Unpadded(t: string) {
    t == [] || (!IsTrimChar(t[0]) && !IsTrimChar(t[|t| - 1]))
  }

  lemma TrimUnpadded(t: string)
    requires Unpadded(t)
    ensures Trim(t) == t
  {
  }

  /** A collapsed name is re-cased from its own pieces. */
  lemma ExecuteCollapsed(name: string, ps: seq<string>)
    requires Collapsed(name) && Split(name) == ps
    ensures Execute(name) == Trim(Render(Cased, ps + [" "]))
  {
    CollapseFixpoint(name);
    ExecuteRecased(name);
  }

  /** A collapsed name whose pieces render as `out` and a space normalises to `out`. */
  lemma ExecuteOfPieces(name: string, ps: seq<string>, out: string)
    requires Collapsed(name) && Split(name) == ps
    requires Render(Cased, ps + [" "]) == out + " "
    requires Unpadded(out)
    ensures Execute(name) == out
  {
    ExecuteCollapsed(name, ps);
    TrimAppendTrimChar(out, ' ');
    TrimUnpadded(out);
  }

  lemma SplitWord(t: string)
    requires ScanFree(t)
    ensures Split(t) == [t]
  {
    ScanFreeNoDelimiter(t);
    SplitText(t);
  }

  lemma SplitThree(a: string, d: string, b: string)
    requires ScanFree(a) && IsDelimiter(d) && ScanFree(b)
    ensures Split(a + d + b) == [a, d, b]
  {
    SplitAround(a, d, b);
    SplitWord(a);
    SplitWord(b);
  }

  lemma SplitFive(a: string, d: string, b: string, e: string, c: string)
    requires ScanFree(a) && IsDelimiter(d) && ScanFree(b) && IsDelimiter(e) && ScanFree(c)
    ensures Split(a + d + (b + e + c)) == [a, d, b, e, c]
  {
    SplitAround(a, d, b + e + c);
    SplitWord(a);
    SplitThree(b, e, c);
  }

  lemma RenderCons(table: seq<string>, a: string, b: string, rest: seq<string>)
    ensures Render(table, [a, b] + rest) == CaseName(table, a) + CaseSeparator(table, b) + Render(table, rest)
  {
    assert ([a, b] + rest)[2..] == rest;
  }

  lemma RenderTwo(table: seq<string>, a: string, b: string)
    ensures Render(table, [a, b]) == CaseName(table, a) + CaseSeparator(table, b)
  {
    RenderCons(table, a, b, []);
    assert [a, b] + [] == [a, b];
  }

  lemma RenderFour(table: seq<string>, a: string, b: string, c: string, d: string)
    ensures Render(table, [a, b, c, d])
         == CaseName(table, a) + CaseSeparator(table, b) + (CaseName(table, c) + CaseSeparator(table, d))
  {
    RenderCons(table, a, b, [c, d]);
    RenderTwo(table, c, d);
    assert [a, b, c, d] == [a, b] + [c, d];
  }

  lemma RenderSix(table: seq<string>, a: string, b: string, c: string, d: string, e: string, f: string)
    ensures Render(table, [a, b, c, d, e, f])
         == CaseName(table, a) + CaseSeparator(table, b)
          + (CaseName(table, c) + CaseSeparator(table, d) + (CaseName(table, e) + CaseSeparator(table, f)))
  {
    RenderCons(table, a, b, [c, d, e, f]);
    RenderFour(table, c, d, e, f);
    assert [a, b, c, d, e, f] == [a, b] + [c, d, e, f];
  }

  /** The pieces of a one-piece name and the appended space, re-cased. */
  lemma RenderSpacedOne(table: seq<string>, a: string)
    ensures Render(table, [a] + [" "]) == CaseName(table, a) + CaseSeparator(table, " ")
  {
    RenderTwo(table, a, " ");
    assert [a] + [" "] == [a, " "];
  }

  lemma RenderSpacedThree(table: seq<string>, a: string, b: string, c: string)
    ensures Render(table, [a, b, c] + [" "])
         == CaseName(table, a) + CaseSeparator(table, b) + (CaseName(table, c) + CaseSeparator(table, " "))
  {
    RenderFour(table, a, b, c, " ");
    assert [a, b, c] + [" "] == [a, b, c, " "];
  }

  lemma RenderSpacedFive(table: seq<string>, a: string, b: string, c: string, d: string, e: string)
    ensures Render(table, [a, b, c, d, e] + [" "])
         == CaseName(table, a) + CaseSeparator(table, b)
          + (CaseName(table, c) + CaseSeparator(table, d) + (CaseName(table, e) + CaseSeparator(table, " ")))
  {
    RenderSix(table, a, b, c, d, e, " ");
    assert [a, b, c, d, e] + [" "] == [a, b, c, d, e, " "];
  }

  // ---------------------------------------------------------------------------
  // Pieces of the examples

  lemma CaseDonald()
    ensures CaseName(Cased, "donald") == "Donald"
  {
    NameAs("donald", "Donald");
  }

  lemma CaseDanie()
    ensures CaseName(Cased, "danie") == "Danie"
  {
    NameAs("danie", "Danie");
  }

  lemma CaseS()
    ensures CaseName(Cased, "s") == "S"
  {
    NameAs("s", "S");
  }

  lemma CaseOreal()
    ensures CaseName(Cased, "oreal") == "Oreal"
  {
    NameAs("oreal", "Oreal");
  }

  lemma CaseJames()
    ensures CaseName(Cased, "james") == "James"
  {
    NameAs("james", "James");
  }

  lemma CaseJohn()
    ensures CaseName(Cased, "john") == "John"
  {
    NameAs("john", "John");
  }

  lemma CaseBrien()
    ensures CaseName(Cased, "brien") == "Brien"
  {
    NameAs("brien", "Brien");
  }

  lemma CaseLudwig()
    ensures CaseName(Cased, "ludwig") == "Ludwig"
  {
    NameAs("ludwig", "Ludwig");
  }

  lemma CaseBeethoven()
    ensures CaseName(Cased, "beethoven") == "Beethoven"
  {
    NameAs("beethoven", "Beethoven");
  }

  lemma CaseHenry()
    ensures CaseName(Cased, "henry") == "Henry"
  {
    NameAs("henry", "Henry");
  }

  lemma CaseVanessa()
    ensures CaseName(Cased, "vanessa") == "Vanessa"
  {
    NameAs("vanessa", "Vanessa");
  }

  lemma CaseJo()
    ensures CaseName(Cased, "jo") == "Jo"
  {
    NameAs("jo", "Jo");
  }

  lemma CaseAnne()
    ensures CaseName(Cased, "anne") == "Anne"
  {
    NameAs("anne", "Anne");
  }

  lemma CaseSmith()
    ensures CaseName(Cased, "smith") == "Smith"
  {
    NameAs("smith", "Smith");
  }

  lemma CaseJohnMixed()
    ensures CaseName(Cased, "jOHN") == "John"
  {
    NameAs("jOHN", "John");
  }

  lemma CaseMc()
    ensures CaseSeparator(Cased, "mc") == "Mc"
  {
    NameFromTable("mc", 4);
  }

  lemma CaseL()
    ensures CaseSeparator(Cased, "l'") == "l'"
  {
    NameFromTable("l'", 1);
  }

  lemma CaseSt()
    ensures CaseSeparator(Cased, "st.") == "St."
  {
    NameFromTable("st.", 3);
  }

  lemma CaseO()
    ensures CaseSeparator(Cased, "o'") == "O'"
  {
    NameFromTable("o'", 0);
  }

  lemma CaseVan()
    ensures CaseName(Cased, "van") == "van"
  {
    NameFromTable("van", 6);
  }

  lemma CaseViii()
    ensures CaseName(Cased, "viii") == "VIII"
  {
    NameFromTable("viii", 24);
  }

  // ---------------------------------------------------------------------------
  // Names

  /** `Mc` is split off inside a word: `mcdonald` becomes `McDonald`. */
  lemma InputMcdonald()
    ensures "mcdonald" == "" + "mc" + "donald" && Collapsed("mcdonald")
    ensures ScanFree("") && ScanFree("donald") && IsDelimiter("mc")
  {
  }

  lemma SpellingMcdonald()
    ensures "" + "Mc" + ("Donald" + " ") == "McDonald" + " " && Unpadded("McDonald")
  {
  }

  lemma RenderMcdonald()
    ensures Render(Cased, ["", "mc", "donald"] + [" "]) == "McDonald" + " "
  {
    PlainSeparators();
    EmptyName();
    CaseMc();
    CaseDonald();
    RenderSpacedThree(Cased, "", "mc", "donald");
    SpellingMcdonald();
  }

  lemma ExampleMcdonald()
    ensures Execute("mcdonald") == "McDonald"
  {
    InputMcdonald();
    SplitThree("", "mc", "donald");
    SpellingMcdonald();
    RenderMcdonald();
    ExecuteOfPieces("mcdonald", ["", "mc", "donald"], "McDonald");
  }

  /** `l'` is a particle wherever it occurs: `daniel's` becomes `Daniel'S`. */
  lemma InputApostrophe()
    ensures "daniel's" == "danie" + "l'" + "s" && Collapsed("daniel's")
    ensures ScanFree("danie") && ScanFree("s") && IsDelimiter("l'")
  {
  }

  lemma SpellingApostrophe()
    ensures "Danie" + "l'" + ("S" + " ") == "Daniel'S" + " " && Unpadded("Daniel'S")
  {
  }

  lemma RenderApostrophe()
    ensures Render(Cased, ["danie", "l'", "s"] + [" "]) == "Daniel'S" + " "
  {
    PlainSeparators();
    CaseL();
    CaseDanie();
    CaseS();
    RenderSpacedThree(Cased, "danie", "l'", "s");
    SpellingApostrophe();
  }

  lemma ExampleApostrophe()
    ensures Execute("daniel's") == "Daniel'S"
  {
    InputApostrophe();
    SplitThree("danie", "l'", "s");
    SpellingApostrophe();
    RenderApostrophe();
    ExecuteOfPieces("daniel's", ["danie", "l'", "s"], "Daniel'S");
  }

  /** `l'oreal` becomes `l'Oreal`: the particle takes the table spelling. */
  lemma InputLoreal()
    ensures "l'oreal" == "" + "l'" + "oreal" && Collapsed("l'oreal")
    ensures ScanFree("") && ScanFree("oreal") && IsDelimiter("l'")
  {
  }

  lemma SpellingLoreal()
    ensures "" + "l'" + ("Oreal" + " ") == "l'Oreal" + " " && Unpadded("l'Oreal")
  {
  }

  lemma RenderLoreal()
    ensures Render(Cased, ["", "l'", "oreal"] + [" "]) == "l'Oreal" + " "
  {
    PlainSeparators();
    EmptyName();
    CaseL();
    CaseOreal();
    RenderSpacedThree(Cased, "", "l'", "oreal");
    SpellingLoreal();
  }

  lemma ExampleLoreal()
    ensures Execute("l'oreal") == "l'Oreal"
  {
    InputLoreal();
    SplitThree("", "l'", "oreal");
    SpellingLoreal();
    RenderLoreal();
    ExecuteOfPieces("l'oreal", ["", "l'", "oreal"], "l'Oreal");
  }

  /** `st. james` becomes `St. James`. */
  lemma InputStJames()
    ensures "st. james" == "" + "st." + ("" + " " + "james") && Collapsed("st. james")
    ensures ScanFree("") && ScanFree("") && ScanFree("james") && IsDelimiter("st.") && IsDelimiter(" ")
  {
  }

  lemma SpellingStJames()
    ensures "" + "St." + ("" + " " + ("James" + " ")) == "St. James" + " " && Unpadded("St. James")
  {
  }

  lemma RenderStJames()
    ensures Render(Cased, ["", "st.", "", " ", "james"] + [" "]) == "St. James" + " "
  {
    EmptyName();
    PlainSeparators();
    CaseSt();
    CaseJames();
    RenderSpacedFive(Cased, "", "st.", "", " ", "james");
    SpellingStJames();
  }

  lemma ExampleStJames()
    ensures Execute("st. james") == "St. James"
  {
    InputStJames();
    SplitFive("", "st.", "", " ", "james");
    SpellingStJames();
    RenderStJames();
    ExecuteOfPieces("st. james", ["", "st.", "", " ", "james"], "St. James");
  }

  /** `john o'brien` becomes `John O'Brien`. */
  lemma InputOBrien()
    ensures "john o'brien" == "john" + " " + ("" + "o'" + "brien") && Collapsed("john o'brien")
    ensures ScanFree("john") && ScanFree("") && ScanFree("brien") && IsDelimiter(" ") && IsDelimiter("o'")
  {
  }

  lemma SpellingOBrien()
    ensures "John" + " " + ("" + "O'" + ("Brien" + " ")) == "John O'Brien" + " " && Unpadded("John O'Brien")
  {
  }

  lemma RenderOBrien()
    ensures Render(Cased, ["john", " ", "", "o'", "brien"] + [" "]) == "John O'Brien" + " "
  {
    EmptyName();
    PlainSeparators();
    CaseO();
    CaseJohn();
    CaseBrien();
    RenderSpacedFive(Cased, "john", " ", "", "o'", "brien");
    SpellingOBrien();
  }

  lemma ExampleOBrien()
    ensures Execute("john o'brien") == "John O'Brien"
  {
    InputOBrien();
    SplitFive("john", " ", "", "o'", "brien");
    SpellingOBrien();
    RenderOBrien();
    ExecuteOfPieces("john o'brien", ["john", " ", "", "o'", "brien"], "John O'Brien");
  }

  /** A whole piece in the table takes its spelling: `ludwig van beethoven` becomes `Ludwig van Beethoven`. */
  lemma TextsBeethoven()
    ensures ScanFree("ludwig") && ScanFree("van") && IsDelimiter(" ")
  {
  }

  lemma TextBeethoven()
    ensures ScanFree("beethoven")
  {
  }

  lemma InputBeethoven()
    ensures "ludwig van beethoven" == "ludwig" + " " + ("van" + " " + "beethoven") && Collapsed("ludwig van beethoven")
  {
  }

  lemma SpellingBeethoven()
    ensures "Ludwig" + " " + ("van" + " " + ("Beethoven" + " ")) == "Ludwig van Beethoven" + " " && Unpadded("Ludwig van Beethoven")
  {
  }

  lemma RenderBeethoven()
    ensures Render(Cased, ["ludwig", " ", "van", " ", "beethoven"] + [" "]) == "Ludwig van Beethoven" + " "
  {
    PlainSeparators();
    CaseLudwig();
    CaseVan();
    CaseBeethoven();
    RenderSpacedFive(Cased, "ludwig", " ", "van", " ", "beethoven");
    SpellingBeethoven();
  }

  lemma ExampleBeethoven()
    ensures Execute("ludwig van beethoven") == "Ludwig van Beethoven"
  {
    InputBeethoven();
    TextsBeethoven();
    TextBeethoven();
    SplitFive("ludwig", " ", "van", " ", "beethoven");
    SpellingBeethoven();
    RenderBeethoven();
    ExecuteOfPieces("ludwig van beethoven", ["ludwig", " ", "van", " ", "beethoven"], "Ludwig van Beethoven");
  }

  /** `henry viii` becomes `Henry VIII`. */
  lemma InputHenry()
    ensures "henry viii" == "henry" + " " + "viii" && Collapsed("henry viii")
    ensures ScanFree("henry") && ScanFree("viii") && IsDelimiter(" ")
  {
  }

  lemma SpellingHenry()
    ensures "Henry" + " " + ("VIII" + " ") == "Henry VIII" + " " && Unpadded("Henry VIII")
  {
  }

  lemma RenderHenry()
    ensures Render(Cased, ["henry", " ", "viii"] + [" "]) == "Henry VIII" + " "
  {
    PlainSeparators();
    CaseHenry();
    CaseViii();
    RenderSpacedThree(Cased, "henry", " ", "viii");
    SpellingHenry();
  }

  lemma ExampleHenry()
    ensures Execute("henry viii") == "Henry VIII"
  {
    InputHenry();
    SplitThree("henry", " ", "viii");
    SpellingHenry();
    RenderHenry();
    ExecuteOfPieces("henry viii", ["henry", " ", "viii"], "Henry VIII");
  }

  /** The table matches whole pieces only: `vanessa` becomes `Vanessa`. */
  lemma InputVanessa()
    ensures Collapsed("vanessa")
    ensures ScanFree("vanessa")
  {
  }

  lemma SpellingVanessa()
    ensures Unpadded("Vanessa")
  {
  }

  lemma RenderVanessa()
    ensures Render(Cased, ["vanessa"] + [" "]) == "Vanessa" + " "
  {
    PlainSeparators();
    CaseVanessa();
    RenderSpacedOne(Cased, "vanessa");
    SpellingVanessa();
  }

  lemma ExampleVanessa()
    ensures Execute("vanessa") == "Vanessa"
  {
    InputVanessa();
    SplitWord("vanessa");
    SpellingVanessa();
    RenderVanessa();
    ExecuteOfPieces("vanessa", ["vanessa"], "Vanessa");
  }

  /** A hyphen is kept and starts a new piece: `jo-anne` becomes `Jo-Anne`. */
  lemma InputJoAnne()
    ensures "jo-anne" == "jo" + "-" + "anne" && Collapsed("jo-anne")
    ensures ScanFree("jo") && ScanFree("anne") && IsDelimiter("-")
  {
  }

  lemma SpellingJoAnne()
    ensures "Jo" + "-" + ("Anne" + " ") == "Jo-Anne" + " " && Unpadded("Jo-Anne")
  {
  }

  lemma RenderJoAnne()
    ensures Render(Cased, ["jo", "-", "anne"] + [" "]) == "Jo-Anne" + " "
  {
    PlainSeparators();
    CaseJo();
    CaseAnne();
    RenderSpacedThree(Cased, "jo", "-", "anne");
    SpellingJoAnne();
  }

  lemma ExampleJoAnne()
    ensures Execute("jo-anne") == "Jo-Anne"
  {
    InputJoAnne();
    SplitThree("jo", "-", "anne");
    SpellingJoAnne();
    RenderJoAnne();
    ExecuteOfPieces("jo-anne", ["jo", "-", "anne"], "Jo-Anne");
  }

  /** `mc donald` becomes `Mc Donald`. */
  lemma InputMcSpaceDonald()
    ensures "mc donald" == "" + "mc" + ("" + " " + "donald") && Collapsed("mc donald")
    ensures ScanFree("") && ScanFree("") && ScanFree("donald") && IsDelimiter("mc") && IsDelimiter(" ")
  {
  }

  lemma SpellingMcSpaceDonald()
    ensures "" + "Mc" + ("" + " " + ("Donald" + " ")) == "Mc Donald" + " " && Unpadded("Mc Donald")
  {
  }

  lemma RenderMcSpaceDonald()
    ensures Render(Cased, ["", "mc", "", " ", "donald"] + [" "]) == "Mc Donald" + " "
  {
    EmptyName();
    PlainSeparators();
    CaseMc();
    CaseDonald();
    RenderSpacedFive(Cased, "", "mc", "", " ", "donald");
    SpellingMcSpaceDonald();
  }

  lemma ExampleMcSpaceDonald()
    ensures Execute("mc donald") == "Mc Donald"
  {
    InputMcSpaceDonald();
    SplitFive("", "mc", "", " ", "donald");
    SpellingMcSpaceDonald();
    RenderMcSpaceDonald();
    ExecuteOfPieces("mc donald", ["", "mc", "", " ", "donald"], "Mc Donald");
  }

  /** Mixed case outside the table is reset: `jOHN smith` becomes `John Smith`. */
  lemma InputJohnSmith()
    ensures "jOHN smith" == "jOHN" + " " + "smith" && Collapsed("jOHN smith")
    ensures ScanFree("jOHN") && ScanFree("smith") && IsDelimiter(" ")
  {
  }

  lemma SpellingJohnSmith()
    ensures "John" + " " + ("Smith" + " ") == "John Smith" + " " && Unpadded("John Smith")
  {
  }

  lemma RenderJohnSmith()
    ensures Render(Cased, ["jOHN", " ", "smith"] + [" "]) == "John Smith" + " "
  {
    PlainSeparators();
    CaseJohnMixed();
    CaseSmith();
    RenderSpacedThree(Cased, "jOHN", " ", "smith");
    SpellingJohnSmith();
  }

  lemma ExampleJohnSmith()
    ensures Execute("jOHN smith") == "John Smith"
  {
    InputJohnSmith();
    SplitThree("jOHN", " ", "smith");
    SpellingJohnSmith();
    RenderJohnSmith();
    ExecuteOfPieces("jOHN smith", ["jOHN", " ", "smith"], "John Smith");
  }

  /** `john` becomes `John`. */
  lemma InputJohn()
    ensures Collapsed("john")
    ensures ScanFree("john")
  {
  }

  lemma SpellingJohn()
    ensures Unpadded("John")
  {
  }

  lemma RenderJohn()
    ensures Render(Cased, ["john"] + [" "]) == "John" + " "
  {
    PlainSeparators();
    CaseJohn();
    RenderSpacedOne(Cased, "john");
    SpellingJohn();
  }

  lemma ExampleJohn()
    ensures Execute("john") == "John"
  {
    InputJohn();
    SplitWord("john");
    SpellingJohn();
    RenderJohn();
    ExecuteOfPieces("john", ["john"], "John");
  }

  /** The same in capitals: the particle is matched whatever its case. */
  lemma ExampleMcdonaldCapitals()
    ensures Execute("MCDONALD") == "McDonald"
  {
    assert StrToLower("MCDONALD") == "mcdonald";
    ExecuteIgnoresCase("MCDONALD");
    ExampleMcdonald();
  }

  /** `L'OREAL` becomes `l'Oreal`. */
  lemma ExampleLorealCapitals()
    ensures Execute("L'OREAL") == "l'Oreal"
  {
    assert StrToLower("L'OREAL") == "l'oreal";
    ExecuteIgnoresCase("L'OREAL");
    ExampleLoreal();
  }

  // ---------------------------------------------------------------------------
  // Spacing

  /** A name collapsed to `t` with one space on each side normalises as `t` does. */
  lemma ExecutePadded(name: string, t: string)
    requires CollapseWhitespace(name) == " " + t + " " && Collapsed(t)
    ensures Execute(name) == Execute(t)
  {
    CasedProper();
    ExecuteRecased(name);
    ExecuteRecased(t);
    CollapseFixpoint(t);
    assert Pad(true) == " ";
    RecasedPadding(Cased, t, true, true);
  }

  lemma InputJohnSmithSpaced()
    ensures "  jOHN   smith " == "  " + ("jOHN" + ("   " + ("smith" + " ")))
    ensures " " + ("jOHN" + (" " + ("smith" + " "))) == " " + "jOHN smith" + " "
  {
  }

  lemma CollapseSpace()
    ensures CollapseWhitespace(" ") == " "
  {
  }

  /** A run of whitespace before a word becomes one space. */
  lemma CollapseGap(gap: string, w: string, t: string)
    requires gap != [] && forall i :: 0 <= i < |gap| ==> IsPcreSpace(gap[i])
    requires w != [] && !IsPcreSpace(w[0])
    ensures CollapseWhitespace(gap + (w + t)) == " " + CollapseWhitespace(w + t)
  {
    CollapseRun(gap, w + t);
  }

  /** Two words between runs of whitespace, followed by text already collapsed. */
  lemma CollapseTwoWords(lead: string, w1: string, gap: string, w2: string, t: string)
    requires lead != [] && forall i :: 0 <= i < |lead| ==> IsPcreSpace(lead[i])
    requires gap != [] && forall i :: 0 <= i < |gap| ==> IsPcreSpace(gap[i])
    requires w1 != [] && forall i :: 0 <= i < |w1| ==> !IsPcreSpace(w1[i])
    requires w2 != [] && forall i :: 0 <= i < |w2| ==> !IsPcreSpace(w2[i])
    requires CollapseWhitespace(t) == t
    ensures CollapseWhitespace(lead + (w1 + (gap + (w2 + t))))
         == " " + (w1 + (" " + (w2 + t)))
  {
    CollapseWord(w2, t);
    CollapseGap(gap, w2, t);
    CollapseWord(w1, gap + (w2 + t));
    CollapseGap(lead, w1, gap + (w2 + t));
  }

  lemma CollapseJohnSmith()
    ensures CollapseWhitespace("  jOHN   smith ") == " " + "jOHN smith" + " "
  {
    CollapseSpace();
    CollapseTwoWords("  ", "jOHN", "   ", "smith", " ");
    InputJohnSmithSpaced();
  }

  /** Runs of spaces are collapsed and the ends trimmed: `  jOHN   smith ` becomes `John Smith`. */
  lemma ExampleJohnSmithSpaced()
    ensures Execute("  jOHN   smith ") == "John Smith"
  {
    CollapseJohnSmith();
    InputJohnSmith();
    ExecutePadded("  jOHN   smith ", "jOHN smith");
    ExampleJohnSmith();
  }

  // ---------------------------------------------------------------------------
  // NUL

  lemma InputNul()
    ensures "\0john" == ['\0'] + "john" && Collapsed("\0john") && ScanFree("\0john")
  {
  }

  lemma CaseNul()
    ensures CaseName(Cased, "\0john") == "\0john"
  {
    NameAs("\0john", "\0john");
  }

  lemma RenderNul()
    ensures Render(Cased, ["\0john"] + [" "]) == "\0john" + " "
  {
    PlainSeparators();
    CaseNul();
    RenderSpacedOne(Cased, "\0john");
  }

  lemma TrimNul()
    ensures Trim("\0john" + " ") == "john"
  {
    TrimAppendTrimChar("\0john", ' ');
    InputNul();
    TrimPrependTrimChar("john", '\0');
    SpellingJohn();
    TrimUnpadded("john");
  }

  /**
   * `trim` strips a leading NUL that `\s` does not collapse, so the first
   * character of the result is not the one the default casing upper-cased.
   */
  lemma ExampleNul()
    ensures Execute("\0john") == "john"
  {
    InputNul();
    SplitWord("\0john");
    RenderNul();
    ExecuteCollapsed("\0john", ["\0john"]);
    TrimNul();
  }

  /** Hence normalising is not idempotent on names holding a NUL character. */
  lemma NulBreaksIdempotence()
    ensures Execute(Execute("\0john")) != Execute("\0john")
  {
    ExampleNul();
    ExampleJohn();
  }
}
