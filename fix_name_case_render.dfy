/**
 * The chunk / filter / mapSpread / implode / join pipeline of
 * `FixNameCase::execute` as one recursive function, and what it keeps and
 * what it ignores.
 */
module FixNameCaseRender {
  import opened PhpStrings
  import opened NameSplit
  import opened FixNameCase
  import opened FixNameCaseTable

  /**
   * Every (text, separator) pair, in order, re-cased and joined; a last
   * piece without a partner is dropped, as the `count() == 2` filter drops it.
   */
  function Render(table: seq<string>, qs: seq<string>): string
    decreases |qs|
  {
    if |qs| < 2 then [] else CaseName(table, qs[0]) + CaseSeparator(table, qs[1]) + Render(table, qs[2..])
  }

  /** The pipeline on the pieces of `c + " "`: the pieces of `c` with the appended space as the last separator. */
  function Recased(table: seq<string>, c: string): string {
    Render(table, Split(c) + [" "])
  }

  // ---------------------------------------------------------------------------
  // The pipeline is Render

  lemma CasePairsCons(table: seq<string>, c: seq<string>, cs: seq<seq<string>>)
    requires |c| == 2 && forall i :: 0 <= i < |cs| ==> |cs[i]| == 2
    ensures CasePairs(table, [c] + cs) == [[CaseName(table, c[0]), CaseSeparator(table, c[1])]] + CasePairs(table, cs)
  {
    var xs := [c] + cs;
    assert forall i :: 1 <= i < |xs| ==> xs[i] == cs[i - 1];
  }

  lemma ImplodeAllCons(p: seq<string>, ps: seq<seq<string>>)
    ensures ImplodeAll([p] + ps) == [Concat(p)] + ImplodeAll(ps)
  {
    var xs := [p] + ps;
    assert forall i :: 1 <= i < |xs| ==> xs[i] == ps[i - 1];
  }

  lemma PairStep(table: seq<string>, c: seq<string>, cs: seq<seq<string>>)
    requires |c| == 2 && forall i :: 0 <= i < |cs| ==> |cs[i]| == 2
    ensures ImplodeAll(CasePairs(table, [c] + cs))
         == [CaseName(table, c[0]) + CaseSeparator(table, c[1])] + ImplodeAll(CasePairs(table, cs))
  {
    var a, b := CaseName(table, c[0]), CaseSeparator(table, c[1]);
    CasePairsCons(table, c, cs);
    ImplodeAllCons([a, b], CasePairs(table, cs));
    assert [a, b][1..] == [b];
    assert Concat([b]) == b + Concat([]);
    assert Concat([a, b]) == a + b;
  }

  /** `chunk(2)`, the filter, `mapSpread`, `implode` and `join('')` together are Render. */
  lemma {:induction false} PipelineIsRender(table: seq<string>, ps: seq<string>)
    ensures Rejoin(table, ps) == Render(table, ps)
    decreases |ps|
  {
    if |ps| < 2 {
      assert KeepPairs(Chunk(ps)) == [];
    } else if |ps| == 2 {
      assert Chunk(ps) == [ps];
      assert KeepPairs([ps]) == [ps] + KeepPairs([]);
      PairStep(table, ps, []);
      assert ps[2..] == [];
      var h := CaseName(table, ps[0]) + CaseSeparator(table, ps[1]);
      assert Concat([h]) == h + Concat([]);
    } else {
      var rest := Chunk(ps[2..]);
      assert Chunk(ps) == [ps[..2]] + rest;
      assert ([ps[..2]] + rest)[1..] == rest;
      assert KeepPairs(Chunk(ps)) == [ps[..2]] + KeepPairs(rest);
      PairStep(table, ps[..2], KeepPairs(rest));
      PipelineIsRender(table, ps[2..]);
    }
  }

  /**
   * A last text piece with no separator after it is lost: the filter drops
   * the one-piece chunk that holds it, whatever it says.
   */
  lemma DanglingTextDropped(table: seq<string>, ps: seq<string>, t: string)
    requires |ps| % 2 == 0
    ensures Rejoin(table, ps + [t]) == Rejoin(table, ps)
  {
    PipelineIsRender(table, ps + [t]);
    PipelineIsRender(table, ps);
    RenderAppend(table, ps, [t]);
  }

  /** Chunking an even number of pieces ahead of others chunks the two parts apart. */
  lemma {:induction false} ChunkAppend(ps: seq<string>, qs: seq<string>)
    requires |ps| % 2 == 0
    ensures Chunk(ps + qs) == Chunk(ps) + Chunk(qs)
    decreases |ps|
  {
    if ps == [] {
      assert ps + qs == qs;
    } else if qs == [] && |ps| == 2 {
      assert ps + qs == ps;
    } else {
      var all := ps + qs;
      assert all[..2] == ps[..2] && all[2..] == ps[2..] + qs;
      ChunkAppend(ps[2..], qs);
      if |ps| == 2 {
        assert ps[..2] == ps && ps[2..] == [];
        assert ps[2..] + qs == qs;
      }
    }
  }

  /** An odd number of pieces chunks into pairs and one last chunk holding the last piece alone. */
  lemma ChunkOdd(ps: seq<string>)
    requires |ps| % 2 == 1
    ensures Chunk(ps) == Chunk(ps[..|ps| - 1]) + [[ps[|ps| - 1]]]
  {
    var n := |ps|;
    var front, last := ps[..n - 1], [ps[n - 1]];
    assert |front| % 2 == 0;
    SplitLast(ps);
    ChunkSingle(last);
    ChunkAppend(front, last);
  }

  lemma SplitLast<T>(s: seq<T>)
    requires s != []
    ensures s == s[..|s| - 1] + [s[|s| - 1]]
  {
  }

  lemma ChunkSingle(ps: seq<string>)
    requires |ps| == 1
    ensures Chunk(ps) == [ps]
  {
  }

  /** With an odd number of pieces the filter keeps the chunks of all pieces but the last. */
  lemma {:induction false} KeepPairsOdd(ps: seq<string>)
    requires |ps| % 2 == 1
    ensures KeepPairs(Chunk(ps)) == Chunk(ps[..|ps| - 1])
    decreases |ps|
  {
    var n := |ps|;
    if n == 1 {
      assert Chunk(ps) == [ps];
      assert KeepPairs([ps]) == KeepPairs([ps][1..]);
      assert ps[..0] == [];
    } else {
      var front := ps[..n - 1];
      KeepPairsOdd(ps[2..]);
      assert ps[2..][..n - 3] == ps[2..n - 1];
      assert Chunk(ps) == [ps[..2]] + Chunk(ps[2..]);
      assert KeepPairs(Chunk(ps)) == [ps[..2]] + KeepPairs(Chunk(ps[2..]));
      assert front[..2] == ps[..2] && front[2..] == ps[2..n - 1];
      if n == 3 {
        assert Chunk(front) == [ps[..2]];
        assert Chunk(ps[2..n - 1]) == [];
      } else {
        assert Chunk(front) == [front[..2]] + Chunk(front[2..]);
      }
    }
  }

  /**
   * On the pieces of `c + " "`, the filter drops exactly one chunk: the last,
   * which holds the empty string alone.
   */
  lemma SpacedChunks(c: string)
    ensures var cs := Chunk(Split(c + " "));
      |cs| >= 2 && cs[|cs| - 1] == [""] && KeepPairs(cs) == cs[..|cs| - 1]
  {
    var ps := Split(c + " ");
    SplitTrailingSpace(c);
    var n := |ps|;
    assert ps[n - 1] == "";
    ChunkOdd(ps);
    KeepPairsOdd(ps);
    var front := Chunk(ps[..n - 1]);
    ChunkShape(ps[..n - 1]);
    assert Concat(front) == ps[..n - 1];
    assert (front + [[""]])[..|front|] == front;
  }

  /** The last piece of the split, the one the filter drops, is always empty. */
  lemma DroppedPieceEmpty(c: string)
    ensures var ps := Split(c + " "); |ps| >= 3 && ps[|ps| - 2] == " " && ps[|ps| - 1] == []
  {
    SplitTrailingSpace(c);
  }

  /** The pieces of `c + " "` render as `c` re-cased with the space appended. */
  lemma RenderSpaced(table: seq<string>, c: string)
    ensures Render(table, Split(c + " ")) == Recased(table, c)
  {
    var qs := Split(c) + [" "];
    assert |qs| % 2 == 0;
    SplitTrailingSpace(c);
    assert Split(c + " ") == qs + [[]];
    RenderAppend(table, qs, [[]]);
  }

  /** `execute` re-cases the collapsed name with a space appended, then trims. */
  lemma ExecuteRecased(name: string)
    ensures Execute(name) == Trim(Recased(Cased, CollapseWhitespace(name)))
  {
    var c := CollapseWhitespace(name);
    PipelineIsRender(Cased, Split(c + " "));
    RenderSpaced(Cased, c);
  }

  // ---------------------------------------------------------------------------
  // Render

  lemma {:induction false} RenderAppend(table: seq<string>, qs: seq<string>, rs: seq<string>)
    requires |qs| % 2 == 0
    ensures Render(table, qs + rs) == Render(table, qs) + Render(table, rs)
    decreases |qs|
  {
    if qs == [] {
      assert qs + rs == rs;
    } else {
      assert (qs + rs)[2..] == qs[2..] + rs;
      RenderAppend(table, qs[2..], rs);
    }
  }

  /** Rendering changes letter case only. */
  lemma {:induction false} RenderKeepsLetters(table: seq<string>, qs: seq<string>)
    requires |qs| % 2 == 0
    ensures StrToLower(Render(table, qs)) == StrToLower(Concat(qs))
    decreases |qs|
  {
    if qs != [] {
      var a, b := CaseName(table, qs[0]), CaseSeparator(table, qs[1]);
      RenderKeepsLetters(table, qs[2..]);
      ConcatTwo(qs);
      CaseNameKeepsLetters(table, qs[0]);
      CaseSeparatorKeepsLetters(table, qs[1]);
      StrToLowerAppend(a + b, Render(table, qs[2..]));
      StrToLowerAppend(a, b);
      StrToLowerAppend(qs[0] + qs[1], Concat(qs[2..]));
      StrToLowerAppend(qs[0], qs[1]);
    }
  }

  /** Rendering ignores the case of its input when every second piece is a separator. */
  lemma {:induction false} RenderIgnoresCase(table: seq<string>, qs: seq<string>)
    requires ProperTable(table)
    requires forall i :: 0 <= i < |qs| && i % 2 == 1 ==> IsDelimiter(qs[i])
    ensures Render(table, LowerAll(qs)) == Render(table, qs)
    decreases |qs|
  {
    if |qs| >= 2 {
      var lq := LowerAll(qs);
      assert lq[2..] == LowerAll(qs[2..]);
      assert forall i :: 0 <= i < |qs[2..]| && i % 2 == 1 ==> qs[2..][i] == qs[i + 2];
      RenderIgnoresCase(table, qs[2..]);
      CaseNameIgnoresCase(table, qs[0]);
      CaseSeparatorIgnoresCase(table, qs[1]);
    }
  }

  // ---------------------------------------------------------------------------
  // Recased

  lemma RecasedKeepsLetters(table: seq<string>, c: string)
    ensures StrToLower(Recased(table, c)) == StrToLower(c) + " "
  {
    var ps := Split(c);
    RenderKeepsLetters(table, ps + [" "]);
    ConcatAppend(ps, [" "]);
    assert Concat([" "]) == " " + Concat([]);
    SplitConcat(c);
    StrToLowerAppend(c, " ");
  }

  lemma RecasedIgnoresCase(table: seq<string>, c: string)
    requires ProperTable(table)
    ensures Recased(table, StrToLower(c)) == Recased(table, c)
  {
    var ps := Split(c);
    SplitLower(c);
    SplitAlternates(c);
    assert DelimiterLength(" ") == 1;
    assert StrToLower(" ") == " ";
    assert LowerAll(ps + [" "]) == LowerAll(ps) + [" "];
    RenderIgnoresCase(table, ps + [" "]);
  }

  /** A leading space survives as a leading space and changes nothing else. */
  lemma RecasedLeadingSpace(table: seq<string>, c: string)
    requires ProperTable(table)
    ensures Recased(table, " " + c) == " " + Recased(table, c)
  {
    SplitLeadingSpace(c);
    var qs := ["", " "] + (Split(c) + [" "]);
    assert Split(" " + c) + [" "] == qs;
    assert qs[2..] == Split(c) + [" "];
    LookupShort(table, "");
    LookupShort(table, " ");
  }

  /** A final text piece and separator with nothing to case: an empty piece and a space. */
  lemma RenderEmptySpace(table: seq<string>)
    requires ProperTable(table)
    ensures Render(table, ["", " "]) == " "
  {
    LookupShort(table, "");
    LookupShort(table, " ");
    assert ["", " "][2..] == [];
  }

  /** A trailing space survives as a trailing space and changes nothing else. */
  lemma RecasedTrailingSpace(table: seq<string>, c: string)
    requires ProperTable(table)
    ensures Recased(table, c + " ") == Recased(table, c) + " "
  {
    var ps := Split(c);
    var qs := ps + [" "];
    assert |qs| % 2 == 0;
    SplitTrailingSpace(c);
    assert Split(c + " ") + [" "] == qs + ["", " "];
    RenderAppend(table, qs, ["", " "]);
    RenderEmptySpace(table);
  }
}
