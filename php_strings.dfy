/**
 * The PHP string built-ins the name normaliser relies on, on one-byte
 * characters: `strtolower`, `ucfirst`, `strcasecmp` (through `StrToLower`),
 * `trim` with its default character list, `implode` with an empty glue, and
 * the `\s` class of a PCRE pattern without the `u` flag. All case mapping is
 * ASCII only, as from PHP 8.2 on (and under the default "C" locale before):
 * characters outside `A`-`Z` / `a`-`z` are never changed.
 */
module PhpStrings {

  /** A character of the PCRE class `\s`: space, tab, line feed, vertical tab, form feed, carriage return. */
  predicate IsPcreSpace(c: char) {
    c == ' ' || c == '\t' || c == '\n' || c == '\U{B}' || c == '\U{C}' || c == '\r'
  }

  /** A character `trim` strips by default: space, tab, line feed, carriage return, NUL, vertical tab. */
  predicate IsTrimChar(c: char) {
    c == ' ' || c == '\t' || c == '\n' || c == '\r' || c == '\0' || c == '\U{B}'
  }

  predicate IsUpper(c: char) { 'A' <= c <= 'Z' }

  predicate IsLower(c: char) { 'a' <= c <= 'z' }

  /** ASCII `tolower` on one character. */
  function LowerChar(c: char): char {
    if IsUpper(c) then (c as int + 32) as char else c
  }

  /** ASCII `toupper` on one character. */
  function UpperChar(c: char): char {
    if IsLower(c) then (c as int - 32) as char else c
  }

  /** `strtolower`. */
  function StrToLower(s: string): (r: string)
    ensures |r| == |s|
    ensures forall i :: 0 <= i < |s| ==> r[i] == LowerChar(s[i])
  {
    seq(|s|, i requires 0 <= i < |s| => LowerChar(s[i]))
  }

  /** `strcasecmp(a, b) == 0`: equal once both are lower-cased. */
  predicate CaseEqual(a: string, b: string) {
    StrToLower(a) == StrToLower(b)
  }

  /** `ucfirst`: upper-cases the first character only. */
  function UcFirst(s: string): (r: string)
    ensures |r| == |s|
    ensures s != [] ==> r[0] == UpperChar(s[0])
    ensures forall i :: 1 <= i < |s| ==> r[i] == s[i]
  {
    if s == [] then s else [UpperChar(s[0])] + s[1..]
  }

  /** `ltrim` with the default character list. */
  function TrimLeft(s: string): (r: string)
    ensures |r| <= |s| && r == s[|s| - |r|..]
    ensures r == [] || !IsTrimChar(r[0])
    ensures forall i :: 0 <= i < |s| - |r| ==> IsTrimChar(s[i])
    decreases |s|
  {
    if s != [] && IsTrimChar(s[0]) then TrimLeft(s[1..]) else s
  }

  /** `rtrim` with the default character list. */
  function TrimRight(s: string): (r: string)
    ensures |r| <= |s| && r == s[..|r|]
    ensures r == [] || !IsTrimChar(r[|r| - 1])
    ensures forall i :: |r| <= i < |s| ==> IsTrimChar(s[i])
    decreases |s|
  {
    if s != [] && IsTrimChar(s[|s| - 1]) then TrimRight(s[..|s| - 1]) else s
  }

  /** `trim` with the default character list. */
  function Trim(s: string): (r: string)
    ensures r == [] || (!IsTrimChar(r[0]) && !IsTrimChar(r[|r| - 1]))
  {
    TrimRight(TrimLeft(s))
  }

  /** `implode('', parts)`, and `join('')` on a collection of strings. */
  function Concat<T>(parts: seq<seq<T>>): seq<T> {
    if parts == [] then [] else parts[0] + Concat(parts[1..])
  }

  lemma {:induction false} ConcatAppend<T>(xs: seq<seq<T>>, ys: seq<seq<T>>)
    ensures Concat(xs + ys) == Concat(xs) + Concat(ys)
    decreases |xs|
  {
    if xs == [] {
      assert xs + ys == ys;
    } else {
      assert (xs + ys)[0] == xs[0];
      assert (xs + ys)[1..] == xs[1..] + ys;
      ConcatAppend(xs[1..], ys);
      assert xs[0] + (Concat(xs[1..]) + Concat(ys)) == (xs[0] + Concat(xs[1..])) + Concat(ys);
    }
  }

  // ---------------------------------------------------------------------------
  // Facts about case folding

  lemma LowerCharFacts(c: char)
    ensures LowerChar(LowerChar(c)) == LowerChar(c)
    ensures IsPcreSpace(LowerChar(c)) <==> IsPcreSpace(c)
    ensures IsTrimChar(LowerChar(c)) <==> IsTrimChar(c)
    ensures IsPcreSpace(c) ==> LowerChar(c) == c
    ensures IsTrimChar(c) ==> LowerChar(c) == c
    ensures LowerChar(c) == ' ' <==> c == ' '
    ensures LowerChar(c) == '-' <==> c == '-'
    ensures LowerChar(c) == '\'' <==> c == '\''
    ensures LowerChar(c) == '.' <==> c == '.'
    ensures LowerChar(UpperChar(c)) == LowerChar(c)
  {
  }

  lemma StrToLowerIdempotent(s: string)
    ensures StrToLower(StrToLower(s)) == StrToLower(s)
  {
    forall i | 0 <= i < |s| { LowerCharFacts(s[i]); }
  }

  lemma StrToLowerAppend(a: string, b: string)
    ensures StrToLower(a + b) == StrToLower(a) + StrToLower(b)
  {
  }

  lemma StrToLowerSlice(s: string, i: int, j: int)
    requires 0 <= i <= j <= |s|
    ensures StrToLower(s[i..j]) == StrToLower(s)[i..j]
    ensures StrToLower(s[i..]) == StrToLower(s)[i..]
    ensures StrToLower(s[..j]) == StrToLower(s)[..j]
  {
  }

  lemma StrToLowerConcat(parts: seq<string>)
    ensures StrToLower(Concat(parts)) == Concat(seq(|parts|, i requires 0 <= i < |parts| => StrToLower(parts[i])))
  {
    if parts != [] {
      StrToLowerConcat(parts[1..]);
      StrToLowerAppend(parts[0], Concat(parts[1..]));
      var lowered := seq(|parts|, i requires 0 <= i < |parts| => StrToLower(parts[i]));
      assert lowered[1..] == seq(|parts| - 1, i requires 0 <= i < |parts| - 1 => StrToLower(parts[1..][i]));
    }
  }

  /** `ucfirst(strtolower(s))` differs from `s` only in letter case. */
  lemma UcFirstLowerFolds(s: string)
    ensures StrToLower(UcFirst(StrToLower(s))) == StrToLower(s)
  {
    StrToLowerIdempotent(s);
    if s != [] {
      LowerCharFacts(StrToLower(s)[0]);
    }
  }

  /** Folding commutes with `trim`: the trimmed characters are never letters. */
  lemma {:induction false} TrimLeftLower(s: string)
    ensures StrToLower(TrimLeft(s)) == TrimLeft(StrToLower(s))
    decreases |s|
  {
    if s != [] {
      LowerCharFacts(s[0]);
      if IsTrimChar(s[0]) {
        TrimLeftLower(s[1..]);
        StrToLowerSlice(s, 1, |s|);
      }
    }
  }

  lemma {:induction false} TrimRightLower(s: string)
    ensures StrToLower(TrimRight(s)) == TrimRight(StrToLower(s))
    decreases |s|
  {
    if s != [] {
      LowerCharFacts(s[|s| - 1]);
      if IsTrimChar(s[|s| - 1]) {
        TrimRightLower(s[..|s| - 1]);
        StrToLowerSlice(s, 0, |s| - 1);
      }
    }
  }

  lemma TrimLower(s: string)
    ensures StrToLower(Trim(s)) == Trim(StrToLower(s))
  {
    TrimLeftLower(s);
    TrimRightLower(TrimLeft(s));
  }

  /** A trailing character that `trim` strips does not change the trimmed string. */
  lemma {:induction false} TrimLeftAppend(s: string, c: char)
    requires IsTrimChar(c)
    ensures TrimLeft(s + [c]) == if TrimLeft(s) == [] then [] else TrimLeft(s) + [c]
    decreases |s|
  {
    if s == [] {
      assert TrimLeft([c]) == TrimLeft([]);
    } else if IsTrimChar(s[0]) {
      assert (s + [c])[1..] == s[1..] + [c];
      TrimLeftAppend(s[1..], c);
    }
  }

  lemma TrimAppendTrimChar(s: string, c: char)
    requires IsTrimChar(c)
    ensures Trim(s + [c]) == Trim(s)
  {
    TrimLeftAppend(s, c);
    var l := TrimLeft(s);
    if l != [] {
      assert (l + [c])[..|l + [c]| - 1] == l;
    }
  }

  lemma TrimPrependTrimChar(s: string, c: char)
    requires IsTrimChar(c)
    ensures Trim([c] + s) == Trim(s)
  {
    assert ([c] + s)[1..] == s;
  }

  /** `trim` leaves a contiguous part of its argument. */
  lemma TrimIsSlice(s: string) returns (a: nat, b: nat)
    ensures a <= b <= |s| && Trim(s) == s[a..b]
    ensures forall i :: 0 <= i < a ==> IsTrimChar(s[i])
    ensures forall i :: b <= i < |s| ==> IsTrimChar(s[i])
  {
    var l := TrimLeft(s);
    a := |s| - |l|;
    b := a + |TrimRight(l)|;
    assert Trim(s) == l[..b - a];
    forall i | b <= i < |s| ensures IsTrimChar(s[i]) {
      assert s[i] == l[i - a];
    }
  }

  /** `trim` gives the empty string exactly when every character is one it strips. */
  lemma TrimEmpty(s: string)
    ensures Trim(s) == [] <==> forall i :: 0 <= i < |s| ==> IsTrimChar(s[i])
  {
    var a, b := TrimIsSlice(s);
    if forall i :: 0 <= i < |s| ==> IsTrimChar(s[i]) {
      assert a == b;
    }
  }
}
