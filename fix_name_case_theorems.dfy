/**
 * What `FixNameCase::execute` promises about its result: only letter case
 * changes, the case of the input does not matter, the spacing is clean, a
 * blank name gives the empty string, and normalising twice is normalising
 * once for names without a NUL character.
 */
module FixNameCaseTheorems {
  import opened PhpStrings
  import opened NameSplit
  import opened FixNameCase
  import opened FixNameCaseTable
  import opened FixNameCaseRender

  // ---------------------------------------------------------------------------
  // Whitespace collapsing

  lemma {:induction false} SkipWhitespaceLower(s: string)
    ensures SkipWhitespace(StrToLower(s)) == StrToLower(SkipWhitespace(s))
    decreases |s|
  {
    if s != [] {
      LowerCharFacts(s[0]);
      if IsPcreSpace(s[0]) {
        SkipWhitespaceLower(s[1..]);
        StrToLowerSlice(s, 1, |s|);
      }
    }
  }

  /** Collapsing whitespace commutes with lower-casing. */
  lemma {:induction false} CollapseLower(s: string)
    ensures CollapseWhitespace(StrToLower(s)) == StrToLower(CollapseWhitespace(s))
    decreases |s|
  {
    if s != [] {
      LowerCharFacts(s[0]);
      var ls := StrToLower(s);
      if IsPcreSpace(s[0]) {
        var rest := SkipWhitespace(s);
        SkipWhitespaceLower(s);
        CollapseLower(rest);
        StrToLowerAppend(" ", CollapseWhitespace(rest));
        assert StrToLower(" ") == " ";
      } else {
        StrToLowerSlice(s, 1, |s|);
        CollapseLower(s[1..]);
        StrToLowerAppend([s[0]], CollapseWhitespace(s[1..]));
        assert ls[1..] == StrToLower(s[1..]);
      }
    }
  }

  lemma {:induction false} SkipRun(ws: string, t: string)
    requires forall i :: 0 <= i < |ws| ==> IsPcreSpace(ws[i])
    requires t == [] || !IsPcreSpace(t[0])
    ensures SkipWhitespace(ws + t) == t
    decreases |ws|
  {
    if ws == [] {
      assert ws + t == t;
    } else {
      assert (ws + t)[1..] == ws[1..] + t;
      SkipRun(ws[1..], t);
    }
  }

  /** A run of whitespace becomes one space. */
  lemma CollapseRun(ws: string, t: string)
    requires ws != [] && forall i :: 0 <= i < |ws| ==> IsPcreSpace(ws[i])
    requires t == [] || !IsPcreSpace(t[0])
    ensures CollapseWhitespace(ws + t) == " " + CollapseWhitespace(t)
  {
    SkipRun(ws, t);
  }

  /** Text without whitespace is copied. */
  lemma {:induction false} CollapseWord(w: string, t: string)
    requires forall i :: 0 <= i < |w| ==> !IsPcreSpace(w[i])
    ensures CollapseWhitespace(w + t) == w + CollapseWhitespace(t)
    decreases |w|
  {
    if w == [] {
      assert w + t == t;
    } else {
      assert (w + t)[1..] == w[1..] + t;
      CollapseWord(w[1..], t);
    }
  }

  /** A string already collapsed is left unchanged. */
  lemma {:induction false} CollapseFixpoint(s: string)
    requires Collapsed(s)
    ensures CollapseWhitespace(s) == s
    decreases |s|
  {
    if s != [] {
      assert Collapsed(s[1..]) by {
        assert forall i :: 0 <= i < |s[1..]| ==> s[1..][i] == s[i + 1];
      }
      CollapseFixpoint(s[1..]);
      assert s == [s[0]] + s[1..];
      if IsPcreSpace(s[0]) {
        assert s[0] == ' ';
        assert s[1..] == [] || !IsPcreSpace(s[1..][0]) by {
          if |s| > 1 {
            assert s[1] != ' ';
          }
        }
        CollapseRun([s[0]], s[1..]);
      } else {
        CollapseWord([s[0]], s[1..]);
      }
    }
  }

  /** Every character of the collapsed text is a space or comes from the input. */
  lemma {:induction false} CollapseDrawsFrom(s: string)
    ensures forall i :: 0 <= i < |CollapseWhitespace(s)| ==>
              CollapseWhitespace(s)[i] == ' ' || CollapseWhitespace(s)[i] in s
    decreases |s|
  {
    if s != [] {
      var r := CollapseWhitespace(s);
      var rest := if IsPcreSpace(s[0]) then SkipWhitespace(s) else s[1..];
      assert |rest| < |s| && rest == s[|s| - |rest|..];
      CollapseDrawsFrom(rest);
      var tail := CollapseWhitespace(rest);
      assert r == [r[0]] + tail;
      forall i | 0 <= i < |r| && r[i] != ' ' ensures r[i] in s {
        if i > 0 {
          assert r[i] == tail[i - 1] && tail[i - 1] in rest;
        }
      }
    }
  }

  /** Every character of the input that is not whitespace survives the collapse. */
  lemma {:induction false} CollapseKeepsText(s: string)
    ensures forall i :: 0 <= i < |s| && !IsPcreSpace(s[i]) ==> s[i] in CollapseWhitespace(s)
    decreases |s|
  {
    if s != [] {
      var r := CollapseWhitespace(s);
      if IsPcreSpace(s[0]) {
        var rest := SkipWhitespace(s);
        var k := |s| - |rest|;
        assert k >= 1;
        CollapseKeepsText(rest);
        forall i | 0 <= i < |s| && !IsPcreSpace(s[i]) ensures s[i] in r {
          assert i >= k;
          assert s[i] == rest[i - k];
          assert r == " " + CollapseWhitespace(rest);
        }
      } else {
        CollapseKeepsText(s[1..]);
        forall i | 0 <= i < |s| && !IsPcreSpace(s[i]) ensures s[i] in r {
          if i > 0 {
            assert s[i] == s[1..][i - 1];
          }
        }
      }
    }
  }

  /** Collapsed-ness does not depend on letter case. */
  lemma CollapsedLower(s: string)
    ensures Collapsed(StrToLower(s)) <==> Collapsed(s)
  {
    forall i | 0 <= i < |s| {
      LowerCharFacts(s[i]);
    }
  }

  lemma CollapsedSlice(s: string, a: nat, b: nat)
    requires Collapsed(s) && a <= b <= |s|
    ensures Collapsed(s[a..b])
  {
    assert forall i :: 0 <= i < b - a ==> s[a..b][i] == s[a + i];
  }

  function Pad(b: bool): string {
    if b then " " else ""
  }

  lemma ThreeParts(s: string, a: nat, b: nat)
    requires a <= b <= |s|
    ensures s == s[..a] + s[a..b] + s[b..]
  {
  }

  lemma PadParts(lead: bool, t: string, trail: bool)
    ensures Pad(lead) + t + Pad(trail) == Pad(lead) + (t + Pad(trail))
    ensures !trail ==> t + Pad(trail) == t
    ensures !lead ==> Pad(lead) + (t + Pad(trail)) == t + Pad(trail)
  {
  }

  /**
   * Without NUL characters, `trim` on a collapsed string removes at most one
   * space at each end and nothing else.
   */
  lemma TrimCollapsed(s: string) returns (lead: bool, trail: bool)
    requires Collapsed(s) && '\0' !in s
    ensures s == Pad(lead) + Trim(s) + Pad(trail)
  {
    var a, b := TrimIsSlice(s);
    CollapsedEdges(s, a, b);
    lead := a == 1;
    trail := b == |s| - 1;
    assert s[..a] == Pad(lead) by {
      if lead {
        assert s[..a] == [s[0]];
      }
    }
    assert s[b..] == Pad(trail) by {
      if trail {
        assert s[b..] == [s[b]];
      }
    }
    ThreeParts(s, a, b);
  }

  /** The trim characters at the ends of a collapsed string without NUL are at most one space each. */
  lemma CollapsedEdges(s: string, a: nat, b: nat)
    requires Collapsed(s) && '\0' !in s && a <= b <= |s|
    requires forall i :: 0 <= i < a ==> IsTrimChar(s[i])
    requires forall i :: b <= i < |s| ==> IsTrimChar(s[i])
    ensures a <= 1 && |s| - b <= 1
    ensures a == 1 ==> s[0] == ' '
    ensures b == |s| - 1 ==> s[b] == ' '
  {
    forall i | 0 <= i < |s| && IsTrimChar(s[i]) ensures s[i] == ' ' {
      assert s[i] != '\0';
    }
    assert |s| >= 2 ==> !(s[0] == ' ' && s[1] == ' ');
    assert |s| >= 2 ==> !(s[|s| - 2] == ' ' && s[|s| - 1] == ' ');
  }

  lemma TrimRecasedTrailing(table: seq<string>, t: string)
    requires ProperTable(table)
    ensures Trim(Recased(table, t + " ")) == Trim(Recased(table, t))
  {
    RecasedTrailingSpace(table, t);
    TrimAppendTrimChar(Recased(table, t), ' ');
  }

  lemma TrimRecasedLeading(table: seq<string>, t: string)
    requires ProperTable(table)
    ensures Trim(Recased(table, " " + t)) == Trim(Recased(table, t))
  {
    RecasedLeadingSpace(table, t);
    TrimPrependTrimChar(Recased(table, t), ' ');
  }

  /** At most one space of padding at either end changes nothing once trimmed. */
  lemma RecasedPadding(table: seq<string>, t: string, lead: bool, trail: bool)
    requires ProperTable(table)
    ensures Trim(Recased(table, Pad(lead) + t + Pad(trail))) == Trim(Recased(table, t))
  {
    var u := t + Pad(trail);
    PadParts(lead, t, trail);
    if trail {
      TrimRecasedTrailing(table, t);
    }
    if lead {
      TrimRecasedLeading(table, u);
    }
  }

  // ---------------------------------------------------------------------------
  // The promises of `execute`

  /** Only letter case changes: the result is the collapsed, trimmed name up to case. */
  lemma ExecuteKeepsLetters(name: string)
    ensures StrToLower(Execute(name)) == Trim(StrToLower(CollapseWhitespace(name)))
  {
    var c := CollapseWhitespace(name);
    ExecuteRecased(name);
    TrimLower(Recased(Cased, c));
    RecasedKeepsLetters(Cased, c);
    TrimAppendTrimChar(StrToLower(c), ' ');
  }

  /** The result does not depend on the letter case of the input. */
  lemma ExecuteIgnoresCase(name: string)
    ensures Execute(StrToLower(name)) == Execute(name)
  {
    CasedProper();
    ExecuteRecased(name);
    ExecuteRecased(StrToLower(name));
    CollapseLower(name);
    RecasedIgnoresCase(Cased, CollapseWhitespace(name));
  }

  /**
   * The result has no whitespace but plain spaces, never two in a row, and no
   * character `trim` strips at either end.
   */
  lemma ExecuteClean(name: string)
    ensures Collapsed(Execute(name))
    ensures Execute(name) == [] || (!IsTrimChar(Execute(name)[0]) && !IsTrimChar(Execute(name)[|Execute(name)| - 1]))
  {
    var l := StrToLower(CollapseWhitespace(name));
    ExecuteKeepsLetters(name);
    CollapsedLower(CollapseWhitespace(name));
    var a, b := TrimIsSlice(l);
    CollapsedSlice(l, a, b);
    CollapsedLower(Execute(name));
  }

  /** The collapsed name consists of trim characters exactly when the name holds only whitespace and NUL. */
  lemma CollapsedBlank(name: string)
    ensures (forall i :: 0 <= i < |CollapseWhitespace(name)| ==> IsTrimChar(CollapseWhitespace(name)[i]))
        <==> forall i :: 0 <= i < |name| ==> IsPcreSpace(name[i]) || name[i] == '\0'
  {
    var c := CollapseWhitespace(name);
    if forall i :: 0 <= i < |name| ==> IsPcreSpace(name[i]) || name[i] == '\0' {
      CollapseDrawsFrom(name);
      forall i | 0 <= i < |c| ensures IsTrimChar(c[i]) {
        if c[i] != ' ' {
          var j :| 0 <= j < |name| && name[j] == c[i];
          assert IsPcreSpace(c[i]) || c[i] == '\0';
        }
      }
    }
    if forall i :: 0 <= i < |c| ==> IsTrimChar(c[i]) {
      CollapseKeepsText(name);
      forall j | 0 <= j < |name| ensures IsPcreSpace(name[j]) || name[j] == '\0' {
        if !IsPcreSpace(name[j]) {
          assert name[j] in c;
          var k :| 0 <= k < |c| && c[k] == name[j];
          assert IsTrimChar(c[k]);
        }
      }
    }
  }

  lemma LowerTrimChars(c: string)
    ensures (forall i :: 0 <= i < |c| ==> IsTrimChar(StrToLower(c)[i])) <==> forall i :: 0 <= i < |c| ==> IsTrimChar(c[i])
  {
    forall i | 0 <= i < |c| ensures IsTrimChar(StrToLower(c)[i]) <==> IsTrimChar(c[i]) {
      LowerCharFacts(c[i]);
    }
  }

  /** The result is empty exactly when the name holds nothing but whitespace and NUL characters. */
  lemma ExecuteBlank(name: string)
    ensures Execute(name) == [] <==> forall i :: 0 <= i < |name| ==> IsPcreSpace(name[i]) || name[i] == '\0'
  {
    var c := CollapseWhitespace(name);
    var e := Execute(name);
    ExecuteKeepsLetters(name);
    assert e == [] <==> StrToLower(e) == [] by {
      assert |StrToLower(e)| == |e|;
    }
    TrimEmpty(StrToLower(c));
    LowerTrimChars(c);
    CollapsedBlank(name);
  }

  lemma NoNulCollapsed(name: string)
    requires '\0' !in name
    ensures '\0' !in StrToLower(CollapseWhitespace(name))
  {
    var c := CollapseWhitespace(name);
    CollapseDrawsFrom(name);
    forall i | 0 <= i < |c| ensures StrToLower(c)[i] != '\0' {
      LowerCharFacts(c[i]);
      assert c[i] == ' ' || c[i] in name;
    }
  }

  /** Normalising a name without NUL characters twice gives the same result as once. */
  lemma ExecuteIdempotent(name: string)
    requires '\0' !in name
    ensures Execute(Execute(name)) == Execute(name)
  {
    var e := Execute(name);
    var c := CollapseWhitespace(name);
    var l := StrToLower(c);
    CasedProper();
    // the second pass sees the first result only up to case: the trimmed, lower-cased name
    ExecuteIgnoresCase(e);
    ExecuteKeepsLetters(name);
    var t := Trim(l);
    assert Execute(e) == Execute(t);
    CollapsedLower(c);
    var a, b := TrimIsSlice(l);
    CollapsedSlice(l, a, b);
    CollapseFixpoint(t);
    ExecuteRecased(t);
    // the first pass re-cases the lower-cased name, padded by at most one space each side
    ExecuteIgnoresCase(name);
    ExecuteRecased(StrToLower(name));
    CollapseLower(name);
    NoNulCollapsed(name);
    var lead, trail := TrimCollapsed(l);
    RecasedPadding(Cased, t, lead, trail);
  }
}
