/**
 * The split step of the name normaliser: `preg_split` with the pattern
 * `( |-|O'|l'|d'|St\.|Mc)`, the `i` flag, no limit and
 * `PREG_SPLIT_DELIM_CAPTURE`. The pattern's alternatives start with
 * different characters (ignoring case), and no proper suffix of one is a
 * prefix of another, so PCRE's leftmost search is a left-to-right scanner
 * that, at each position, either takes a delimiter or moves one character
 * into the current text piece.
 */
module NameSplit {
  import opened PhpStrings

  /** `d` matches at the start of `s` under the `i` flag. */
  predicate StartsWithIgnoringCase(s: string, d: string) {
    |d| <= |s| && StrToLower(s[..|d|]) == StrToLower(d)
  }

  /**
   * Length of the delimiter the pattern matches at the start of `s`, 0 when
   * it matches nothing there: the alternatives tried in the pattern's order.
   */
  function PatternMatchLength(s: string): nat {
    if StartsWithIgnoringCase(s, " ") then 1
    else if StartsWithIgnoringCase(s, "-") then 1
    else if StartsWithIgnoringCase(s, "O'") then 2
    else if StartsWithIgnoringCase(s, "l'") then 2
    else if StartsWithIgnoringCase(s, "d'") then 2
    else if StartsWithIgnoringCase(s, "St.") then 3
    else if StartsWithIgnoringCase(s, "Mc") then 2
    else 0
  }

  /**
   * The same match read character by character: the scanner below uses this
   * form, and `DelimiterLengthIsPatternMatch` shows the two agree.
   */
  function DelimiterLength(s: string): (n: nat)
    ensures n <= |s|
  {
    if |s| == 0 then 0
    else
      var c := LowerChar(s[0]);
      if c == ' ' || c == '-' then 1
      else if (c == 'o' || c == 'l' || c == 'd') && |s| >= 2 && s[1] == '\'' then 2
      else if c == 's' && |s| >= 3 && LowerChar(s[1]) == 't' && s[2] == '.' then 3
      else if c == 'm' && |s| >= 2 && LowerChar(s[1]) == 'c' then 2
      else 0
  }

  lemma LowerTwo(s: string, d: string)
    requires |s| >= 2 && |d| == 2
    ensures StrToLower(s[..2]) == StrToLower(d) <==> LowerChar(s[0]) == LowerChar(d[0]) && LowerChar(s[1]) == LowerChar(d[1])
  {
    if LowerChar(s[0]) == LowerChar(d[0]) && LowerChar(s[1]) == LowerChar(d[1]) {
      assert StrToLower(s[..2]) == StrToLower(d);
    }
  }

  lemma LowerThree(s: string, d: string)
    requires |s| >= 3 && |d| == 3
    ensures StrToLower(s[..3]) == StrToLower(d) <==>
      LowerChar(s[0]) == LowerChar(d[0]) && LowerChar(s[1]) == LowerChar(d[1]) && LowerChar(s[2]) == LowerChar(d[2])
  {
    if LowerChar(s[0]) == LowerChar(d[0]) && LowerChar(s[1]) == LowerChar(d[1]) && LowerChar(s[2]) == LowerChar(d[2]) {
      assert StrToLower(s[..3]) == StrToLower(d);
    }
  }

  lemma LowerOne(s: string, d: string)
    requires |s| >= 1 && |d| == 1
    ensures StrToLower(s[..1]) == StrToLower(d) <==> LowerChar(s[0]) == LowerChar(d[0])
  {
    if LowerChar(s[0]) == LowerChar(d[0]) {
      assert StrToLower(s[..1]) == StrToLower(d);
    }
  }

  /** The alternation, tried in order, agrees with the character-level reading. */
  lemma DelimiterLengthIsPatternMatch(s: string)
    ensures PatternMatchLength(s) == DelimiterLength(s)
  {
    if |s| >= 1 {
      LowerCharFacts(s[0]);
      LowerOne(s, " ");
      LowerOne(s, "-");
    }
    if |s| >= 2 {
      LowerCharFacts(s[1]);
      LowerTwo(s, "O'");
      LowerTwo(s, "l'");
      LowerTwo(s, "d'");
      LowerTwo(s, "Mc");
    }
    if |s| >= 3 {
      LowerThree(s, "St.");
    }
  }

  // ---------------------------------------------------------------------------
  // Three facts about where a match can sit

  /** A match depends only on its own characters, not on what follows. */
  lemma DelimiterLengthExtend(x: string, y: string)
    requires DelimiterLength(x) > 0
    ensures DelimiterLength(x + y) == DelimiterLength(x)
  {
  }

  /** A match is a delimiter piece on its own. */
  lemma DelimiterLengthPrefix(s: string)
    requires DelimiterLength(s) > 0
    ensures IsDelimiter(s[..DelimiterLength(s)])
  {
  }

  /** No match straddles the start of another delimiter. */
  lemma DelimiterLengthNoStraddle(x: string, y: string)
    requires |x| > 0
    requires DelimiterLength(y) > 0
    ensures DelimiterLength(x + y) == DelimiterLength(x)
  {
    LowerCharFacts(y[0]);
    if |y| >= 2 { LowerCharFacts(y[1]); }
  }

  /** Matching ignores letter case. */
  lemma DelimiterLengthLower(s: string)
    ensures DelimiterLength(StrToLower(s)) == DelimiterLength(s)
  {
    if |s| >= 1 { LowerCharFacts(s[0]); }
    if |s| >= 2 { LowerCharFacts(s[1]); }
    if |s| >= 3 { LowerCharFacts(s[2]); }
  }

  // ---------------------------------------------------------------------------
  // The split

  /** A piece the split emits as a captured delimiter: one whole match. */
  predicate IsDelimiter(d: string) {
    |d| > 0 && DelimiterLength(d) == |d|
  }

  /** A piece in which the pattern matches nowhere. */
  predicate NoDelimiter(t: string) {
    forall k :: 0 <= k < |t| ==> DelimiterLength(t[k..]) == 0
  }

  /** The same as `NoDelimiter`, read as a scan from the left. */
  predicate ScanFree(t: string)
    decreases |t|
  {
    t == [] || (DelimiterLength(t) == 0 && ScanFree(t[1..]))
  }

  lemma {:induction false} ScanFreeNoDelimiter(t: string)
    requires ScanFree(t)
    ensures NoDelimiter(t)
    decreases |t|
  {
    if t != [] {
      ScanFreeNoDelimiter(t[1..]);
      forall k | 0 <= k < |t| ensures DelimiterLength(t[k..]) == 0 {
        if k > 0 {
          assert t[k..] == t[1..][k - 1..];
        }
      }
    }
  }

  /** The shape of a split: text, delimiter, text, ..., text. */
  predicate Alternates(ps: seq<string>) {
    && |ps| % 2 == 1
    && (forall i :: 0 <= i < |ps| && i % 2 == 1 ==> IsDelimiter(ps[i]))
    && (forall i :: 0 <= i < |ps| && i % 2 == 0 ==> NoDelimiter(ps[i]))
  }

  /** `preg_split` with delimiter capture: pieces alternate text and delimiter. */
  function Split(s: string): (ps: seq<string>)
    ensures |ps| % 2 == 1
    decreases |s|
  {
    if s == [] then [[]]
    else
      var n := DelimiterLength(s);
      if n > 0 then [[], s[..n]] + Split(s[n..])
      else
        var rest := Split(s[1..]);
        [[s[0]] + rest[0]] + rest[1..]
  }

  /** The pieces of a split put back together give the input. */
  lemma {:induction false} SplitConcat(s: string)
    ensures Concat(Split(s)) == s
    decreases |s|
  {
    if s != [] {
      var n := DelimiterLength(s);
      if n > 0 {
        SplitConcat(s[n..]);
        assert s == s[..n] + s[n..];
      } else {
        var rest := Split(s[1..]);
        SplitConcat(s[1..]);
        assert rest == [rest[0]] + rest[1..];
        assert Concat(rest) == rest[0] + Concat(rest[1..]);
        assert s == [s[0]] + s[1..];
      }
    }
  }

  lemma NoDelimiterCons(c: char, t: string)
    requires NoDelimiter(t)
    requires DelimiterLength([c] + t) == 0
    ensures NoDelimiter([c] + t)
  {
    forall k | 0 <= k < |[c] + t| ensures DelimiterLength(([c] + t)[k..]) == 0 {
      if k > 0 {
        assert ([c] + t)[k..] == t[k - 1..];
      }
    }
  }

  /** A string without a match at its start has none at the start of any prefix. */
  lemma PrefixNoMatch(p: string, q: string)
    requires DelimiterLength(p + q) == 0
    ensures DelimiterLength(p) == 0
  {
    if DelimiterLength(p) > 0 {
      DelimiterLengthExtend(p, q);
    }
  }

  lemma AlternatesAfterMatch(d: string, rest: seq<string>)
    requires IsDelimiter(d) && Alternates(rest)
    ensures Alternates([[], d] + rest)
  {
    var ps := [[], d] + rest;
    forall i | 0 <= i < |ps| && i % 2 == 1 ensures IsDelimiter(ps[i]) {
      if i > 1 { assert ps[i] == rest[i - 2]; }
    }
    forall i | 0 <= i < |ps| && i % 2 == 0 ensures NoDelimiter(ps[i]) {
      if i > 1 { assert ps[i] == rest[i - 2]; }
    }
  }

  lemma AlternatesAfterChar(c: char, rest: seq<string>)
    requires Alternates(rest) && DelimiterLength([c] + rest[0]) == 0
    ensures Alternates([[c] + rest[0]] + rest[1..])
  {
    NoDelimiterCons(c, rest[0]);
    var ps := [[c] + rest[0]] + rest[1..];
    forall i | 0 <= i < |ps| && i % 2 == 1 ensures IsDelimiter(ps[i]) {
      assert ps[i] == rest[i];
    }
    forall i | 0 <= i < |ps| && i % 2 == 0 ensures NoDelimiter(ps[i]) {
      if i > 0 { assert ps[i] == rest[i]; }
    }
  }

  /** Every split alternates text pieces free of matches and whole delimiters. */
  lemma {:induction false} SplitAlternates(s: string)
    ensures Alternates(Split(s))
    decreases |s|
  {
    if s != [] {
      SplitStep(s);
      var n := DelimiterLength(s);
      if n > 0 {
        SplitAlternates(s[n..]);
        DelimiterLengthPrefix(s);
        AlternatesAfterMatch(s[..n], Split(s[n..]));
      } else {
        var rest := Split(s[1..]);
        SplitAlternates(s[1..]);
        SplitConcat(s[1..]);
        assert Concat(rest) == rest[0] + Concat(rest[1..]);
        assert s == ([s[0]] + rest[0]) + Concat(rest[1..]);
        PrefixNoMatch([s[0]] + rest[0], Concat(rest[1..]));
        AlternatesAfterChar(s[0], rest);
      }
    }
  }

  /** A piece without matches splits into itself. */
  lemma {:induction false} SplitText(t: string)
    requires NoDelimiter(t)
    ensures Split(t) == [t]
    decreases |t|
  {
    if t != [] {
      assert t[0..] == t;
      assert NoDelimiter(t[1..]) by {
        forall k | 0 <= k < |t[1..]| ensures DelimiterLength(t[1..][k..]) == 0 {
          assert t[1..][k..] == t[k + 1..];
        }
      }
      SplitText(t[1..]);
      assert [t[0]] + t[1..] == t;
    }
  }

  /** One step of the scanner: a delimiter at the front, or one character of text. */
  lemma SplitStep(s: string)
    requires s != []
    ensures DelimiterLength(s) > 0 ==>
      Split(s) == [[], s[..DelimiterLength(s)]] + Split(s[DelimiterLength(s)..])
    ensures DelimiterLength(s) == 0 ==>
      Split(s) == [[s[0]] + Split(s[1..])[0]] + Split(s[1..])[1..]
  {
  }

  lemma Regroup<X>(w: seq<X>, x: seq<X>, y: seq<X>, z: seq<X>)
    ensures w + (x + y + z) == (w + x) + y + z
  {
  }

  lemma SplitAfterMatch(a: string, d: string, b: string, n: nat)
    requires 0 < n <= |a| && DelimiterLength(a + d + b) == n
    ensures Split(a + d + b) == [[], a[..n]] + Split(a[n..] + d + b)
  {
    var s := a + d + b;
    SplitStep(s);
    assert s[..n] == a[..n];
    assert s[n..] == a[n..] + d + b;
  }

  lemma SplitAfterChar(a: string, d: string, b: string)
    requires a != [] && DelimiterLength(a + d + b) == 0
    ensures Split(a + d + b) == [[a[0]] + Split(a[1..] + d + b)[0]] + Split(a[1..] + d + b)[1..]
  {
    var s := a + d + b;
    SplitStep(s);
    assert s[1..] == a[1..] + d + b;
  }

  lemma {:induction false} SplitAroundMatch(a: string, d: string, b: string, n: nat)
    requires 0 < n <= |a| && DelimiterLength(a) == n && DelimiterLength(a + d + b) == n
    requires Split(a[n..] + d + b) == Split(a[n..]) + [d] + Split(b)
    ensures Split(a + d + b) == Split(a) + [d] + Split(b)
  {
    SplitAfterMatch(a, d, b, n);
    SplitStep(a);
    Regroup([[], a[..n]], Split(a[n..]), [d], Split(b));
  }

  lemma MergeFirst(c: char, ra: seq<string>, y: seq<string>)
    requires |ra| >= 1
    ensures [[c] + (ra + y)[0]] + (ra + y)[1..] == ([[c] + ra[0]] + ra[1..]) + y
  {
    assert (ra + y)[1..] == ra[1..] + y;
  }

  lemma {:induction false} SplitAroundChar(a: string, d: string, b: string)
    requires a != [] && DelimiterLength(a) == 0 && DelimiterLength(a + d + b) == 0
    requires Split(a[1..] + d + b) == Split(a[1..]) + [d] + Split(b)
    ensures Split(a + d + b) == Split(a) + [d] + Split(b)
  {
    SplitAfterChar(a, d, b);
    SplitStep(a);
    var ra, y := Split(a[1..]), [d] + Split(b);
    assert Split(a[1..] + d + b) == ra + y;
    MergeFirst(a[0], ra, y);
  }

  /**
   * A delimiter is split off wherever it occurs, inside a word as well as
   * between words: splitting `a + d + b` splits `a` and `b` on their own.
   */
  lemma {:induction false} SplitAround(a: string, d: string, b: string)
    requires IsDelimiter(d)
    ensures Split(a + d + b) == Split(a) + [d] + Split(b)
    decreases |a|
  {
    DelimiterLengthExtend(d, b);
    if a == [] {
      var s := a + d + b;
      assert s == d + b;
      assert s[..|d|] == d && s[|d|..] == b;
      SplitStep(s);
    } else {
      DelimiterLengthNoStraddle(a, d + b);
      assert a + d + b == a + (d + b);
      var n := DelimiterLength(a);
      if n > 0 {
        SplitAround(a[n..], d, b);
        SplitAroundMatch(a, d, b, n);
      } else {
        SplitAround(a[1..], d, b);
        SplitAroundChar(a, d, b);
      }
    }
  }

  lemma AlternatesTail(ps: seq<string>)
    requires Alternates(ps) && |ps| > 1
    ensures Alternates(ps[2..])
  {
    var rest := ps[2..];
    forall i | 0 <= i < |rest| && i % 2 == 1 ensures IsDelimiter(rest[i]) {
      assert rest[i] == ps[i + 2];
    }
    forall i | 0 <= i < |rest| && i % 2 == 0 ensures NoDelimiter(rest[i]) {
      assert rest[i] == ps[i + 2];
    }
  }

  lemma ConcatTwo(ps: seq<string>)
    requires |ps| >= 2
    ensures Concat(ps) == ps[0] + ps[1] + Concat(ps[2..])
  {
    assert ps[1..][1..] == ps[2..];
  }

  /** Splitting is the inverse of concatenation on well-formed piece lists. */
  lemma {:induction false} SplitOfConcat(ps: seq<string>)
    requires Alternates(ps)
    ensures Split(Concat(ps)) == ps
    decreases |ps|
  {
    if |ps| == 1 {
      assert ps[1..] == [];
      assert Concat(ps) == ps[0];
      SplitText(ps[0]);
    } else {
      var rest := ps[2..];
      AlternatesTail(ps);
      SplitOfConcat(rest);
      ConcatTwo(ps);
      SplitAround(ps[0], ps[1], Concat(rest));
      SplitText(ps[0]);
      assert ps == [ps[0]] + [ps[1]] + rest;
    }
  }

  /** The appended space ends the split with a space and an empty last piece. */
  lemma SplitTrailingSpace(s: string)
    ensures Split(s + " ") == Split(s) + [" ", ""]
  {
    SplitAround(s, " ", "");
    assert s + " " + "" == s + " ";
  }

  /** A leading space becomes an empty text piece and a space. */
  lemma SplitLeadingSpace(s: string)
    ensures Split(" " + s) == ["", " "] + Split(s)
  {
    SplitAround("", " ", s);
    assert "" + " " + s == " " + s;
  }

  /** Every piece, lower-cased. */
  function LowerAll(ps: seq<string>): (r: seq<string>)
    ensures |r| == |ps|
    ensures forall i :: 0 <= i < |ps| ==> r[i] == StrToLower(ps[i])
  {
    seq(|ps|, i requires 0 <= i < |ps| => StrToLower(ps[i]))
  }

  /** Splitting commutes with lower-casing: the `i` flag makes the cut points case-blind. */
  lemma {:induction false} SplitLower(s: string)
    ensures LowerAll(Split(s)) == Split(StrToLower(s))
    decreases |s|
  {
    var l := StrToLower(s);
    if s != [] {
      DelimiterLengthLower(s);
      var n := DelimiterLength(s);
      if n > 0 {
        SplitLower(s[n..]);
        StrToLowerSlice(s, n, |s|);
        StrToLowerSlice(s, 0, n);
        assert LowerAll(Split(s)) == [[], StrToLower(s[..n])] + LowerAll(Split(s[n..]));
      } else {
        SplitLower(s[1..]);
        StrToLowerSlice(s, 1, |s|);
        var rest := Split(s[1..]);
        StrToLowerAppend([s[0]], rest[0]);
        assert StrToLower([s[0]]) == [l[0]];
        assert LowerAll(Split(s)) == [[l[0]] + StrToLower(rest[0])] + LowerAll(rest)[1..];
      }
    }
  }
}
