/**
 * `FixNameCase::execute`: normalises the capitalisation and spacing of a
 * person's name. The routine collapses whitespace and appends a space,
 * splits the result on the name separators while keeping them, pairs every
 * text piece with the separator after it, re-cases both through a table of
 * properly cased parts, and joins and trims the result.
 */
module FixNameCase {
  import opened Wrappers
  import opened PhpStrings
  import opened NameSplit

  // ---------------------------------------------------------------------------
  // The table of properly cased parts

  /** The properly cased parts, in the routine's order (`the` is listed twice). */
  const Cased: seq<string> := [
    "O'", "l'", "d'", "St.", "Mc", "the", "van", "het", "in", "'t", "ten",
    "den", "von", "und", "der", "de", "da", "of", "and", "the", "III", "IV",
    "VI", "VII", "VIII", "IX"
  ]

  /**
   * `first` with a `strcasecmp(...) == 0` test: the first entry equal to `x`
   * ignoring case, the spelling the table gives `x`; `execute` looks up in `Cased`.
   */
  function Lookup(entries: seq<string>, x: string): (r: Option<string>)
    ensures r.Some? ==> r.value in entries && CaseEqual(r.value, x)
  {
    if entries == [] then None
    else if CaseEqual(entries[0], x) then Some(entries[0])
    else Lookup(entries[1..], x)
  }

  /** `first` returns `null` exactly when no entry matches. */
  lemma {:induction false} LookupNone(entries: seq<string>, x: string)
    ensures Lookup(entries, x).None? <==> forall e :: e in entries ==> !CaseEqual(e, x)
    decreases |entries|
  {
    if entries != [] {
      LookupNone(entries[1..], x);
      assert forall e :: e in entries ==> e == entries[0] || e in entries[1..];
    }
  }

  // ---------------------------------------------------------------------------
  // Step 1: whitespace

  /** No whitespace other than plain spaces, and never two spaces in a row. */
  predicate Collapsed(s: string) {
    && (forall i :: 0 <= i < |s| && IsPcreSpace(s[i]) ==> s[i] == ' ')
    && (forall i :: 0 <= i < |s| - 1 && s[i] == ' ' ==> s[i + 1] != ' ')
  }

  /** Drops the run of `\s` characters at the start of `s`. */
  function SkipWhitespace(s: string): (r: string)
    ensures |r| <= |s| && r == s[|s| - |r|..]
    ensures r == [] || !IsPcreSpace(r[0])
    ensures forall i :: 0 <= i < |s| - |r| ==> IsPcreSpace(s[i])
    decreases |s|
  {
    if s != [] && IsPcreSpace(s[0]) then SkipWhitespace(s[1..]) else s
  }

  /** `preg_replace('/\s+/', ' ', s)`: every maximal run of whitespace becomes one space. */
  function CollapseWhitespace(s: string): (r: string)
    ensures |r| <= |s|
    ensures r == [] <==> s == []
    ensures r != [] ==> r[0] == (if IsPcreSpace(s[0]) then ' ' else s[0])
    ensures Collapsed(r)
    decreases |s|
  {
    if s == [] then []
    else if IsPcreSpace(s[0]) then
      var rest := SkipWhitespace(s);
      " " + CollapseWhitespace(rest)
    else
      [s[0]] + CollapseWhitespace(s[1..])
  }

  // ---------------------------------------------------------------------------
  // Steps 3 and 4: chunking, filtering, casing

  /** `chunk(2)`: consecutive groups of two pieces; a last group of one when the count is odd. */
  function Chunk(ps: seq<string>): seq<seq<string>>
    decreases |ps|
  {
    if |ps| <= 2 then
      if ps == [] then [] else [ps]
    else
      [ps[..2]] + Chunk(ps[2..])
  }

  /** The chunks concatenate back to the pieces; all are pairs but the last, which may be a single piece. */
  lemma {:induction false} ChunkShape(ps: seq<string>)
    ensures Concat(Chunk(ps)) == ps
    ensures forall i :: 0 <= i < |Chunk(ps)| ==> 1 <= |Chunk(ps)[i]| <= 2
    ensures forall i :: 0 <= i < |Chunk(ps)| - 1 ==> |Chunk(ps)[i]| == 2
    decreases |ps|
  {
    var cs := Chunk(ps);
    if |ps| <= 2 {
      if ps != [] {
        assert Concat([ps]) == ps + Concat([]);
      }
    } else {
      ChunkShape(ps[2..]);
      assert cs[1..] == Chunk(ps[2..]);
      assert ps == ps[..2] + ps[2..];
    }
  }

  /** `filter(fn ($part) => $part->count() == 2)`: keeps the complete pairs, in order. */
  function KeepPairs(cs: seq<seq<string>>): (r: seq<seq<string>>)
    ensures forall i :: 0 <= i < |r| ==> |r[i]| == 2
    ensures |r| <= |cs|
    decreases |cs|
  {
    if cs == [] then []
    else
      var rest := KeepPairs(cs[1..]);
      if |cs[0]| == 2 then [cs[0]] + rest else rest
  }

  /** The filter keeps exactly the chunks of two pieces. */
  lemma {:induction false} KeepPairsMembers(cs: seq<seq<string>>)
    ensures forall c :: c in KeepPairs(cs) <==> c in cs && |c| == 2
    decreases |cs|
  {
    if cs != [] {
      KeepPairsMembers(cs[1..]);
      assert forall c :: c in cs <==> c == cs[0] || c in cs[1..];
    }
  }

  /** The casing `mapSpread` gives a text piece: its table spelling, else `ucfirst(strtolower(...))`. */
  function CaseName(table: seq<string>, t: string): string {
    match Lookup(table, t)
    case Some(e) => e
    case None => UcFirst(StrToLower(t))
  }

  /** The casing `mapSpread` gives a separator: its table spelling, else the separator unchanged. */
  function CaseSeparator(table: seq<string>, d: string): string {
    match Lookup(table, d)
    case Some(e) => e
    case None => d
  }

  /** `mapSpread`: every (text, separator) pair re-cased. */
  function CasePairs(table: seq<string>, cs: seq<seq<string>>): (r: seq<seq<string>>)
    requires forall i :: 0 <= i < |cs| ==> |cs[i]| == 2
    ensures |r| == |cs|
  {
    seq(|cs|, i requires 0 <= i < |cs| => [CaseName(table, cs[i][0]), CaseSeparator(table, cs[i][1])])
  }

  /** `map(fn ($part) => implode($part))`. */
  function ImplodeAll(cs: seq<seq<string>>): (r: seq<string>)
    ensures |r| == |cs|
  {
    seq(|cs|, i requires 0 <= i < |cs| => Concat(cs[i]))
  }

  /** `chunk(2)`, the filter, `mapSpread`, `map(implode)` and `join('')` on the split pieces. */
  function Rejoin(table: seq<string>, parts: seq<string>): string {
    Concat(ImplodeAll(CasePairs(table, KeepPairs(Chunk(parts)))))
  }

  // ---------------------------------------------------------------------------
  // The routine

  /** `FixNameCase::execute`. */
  function Execute(name: string): string {
    var spaced := CollapseWhitespace(name) + " ";
    var parts := Split(spaced);
    Trim(Rejoin(Cased, parts))
  }
}
