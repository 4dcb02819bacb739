/**
 * `InArrayRecursive::execute($needle, $haystack, $strict = true)`: whether
 * the needle occurs in the haystack or, at any depth, in an array nested in
 * it.
 *
 * PHP values are modelled as scalars or (list) arrays of values; array keys
 * play no part in the search and are not modelled. Strict comparison `===`
 * is equality of these values, which is reflexive: PHP's `NAN === NAN`, which
 * is false, is not modelled. Loose comparison `==` follows PHP's
 * type-juggling rules, which are not modelled: it is the parameter `loose`.
 */
module InArrayRecursive {
  import opened Wrappers

  /** A PHP value as far as the search sees it. */
  datatype Value<T> = Scalar(scalar: T) | Array(elems: seq<Value<T>>)

  /** `$strict ? $value === $needle : $value == $needle`. */
  predicate Matches<T(==)>(value: Value<T>, needle: Value<T>, strict: bool, loose: (Value<T>, Value<T>) -> bool)
  {
    if strict then value == needle else loose(value, needle)
  }

  // ---------------------------------------------------------------------------
  // Positions in nested arrays

  /**
   * The value reached by following `path` from the haystack: `path[0]`
   * indexes the haystack, each further index the array found so far.
   */
  function At<T>(haystack: seq<Value<T>>, path: seq<nat>): (v: Option<Value<T>>)
    ensures |path| == 1 ==> v == (if path[0] < |haystack| then Some(haystack[path[0]]) else None)
    decreases path
  {
    if path == [] || path[0] >= |haystack| then None
    else if |path| == 1 then Some(haystack[path[0]])
    else if haystack[path[0]].Array? then At(haystack[path[0]].elems, path[1..])
    else None
  }

  /** Some value at some depth of the haystack matches the needle. */
  ghost predicate Occurs<T>(needle: Value<T>, haystack: seq<Value<T>>, loose: (Value<T>, Value<T>) -> bool, strict: bool)
  {
    exists path :: At(haystack, path).Some? && Matches(At(haystack, path).value, needle, strict, loose)
  }

  /** Dropping the first element of the haystack shifts the first index of every path. */
  lemma AtTail<T>(haystack: seq<Value<T>>, path: seq<nat>)
    requires haystack != [] && path != []
    ensures At(haystack, [path[0] + 1] + path[1..]) == At(haystack[1..], path)
  {
    var p := [path[0] + 1] + path[1..];
    assert p[1..] == path[1..];
  }

  /** A path into the first element of the haystack. */
  lemma AtHead<T>(haystack: seq<Value<T>>, path: seq<nat>)
    requires haystack != [] && haystack[0].Array? && path != []
    ensures At(haystack, [0] + path) == At(haystack[0].elems, path)
  {
    assert ([0] + path)[1..] == path;
  }

  // ---------------------------------------------------------------------------
  // The search, with the evidently intended self-recursion

  /**
   * The search, recursing into nested arrays by calling itself. Elements are
   * tried in order; each is compared with the needle before the search
   * descends into it.
   */
  function Execute<T(==)>(needle: Value<T>, haystack: seq<Value<T>>, loose: (Value<T>, Value<T>) -> bool, strict: bool := true): (found: bool)
    ensures haystack == [] ==> !found
    ensures (exists i :: 0 <= i < |haystack| && Matches(haystack[i], needle, strict, loose)) ==> found
    decreases haystack
  {
    if haystack == [] then false
    else if Matches(haystack[0], needle, strict, loose)
         || (haystack[0].Array? && Execute(needle, haystack[0].elems, loose, strict)) then true
    else Execute(needle, haystack[1..], loose, strict)
  }

  /** A successful search has a matching value at some position. */
  lemma {:induction false} ExecuteHasWitness<T>(needle: Value<T>, haystack: seq<Value<T>>, loose: (Value<T>, Value<T>) -> bool, strict: bool)
    requires Execute(needle, haystack, loose, strict)
    ensures Occurs(needle, haystack, loose, strict)
    decreases haystack
  {
    var head := haystack[0];
    if Matches(head, needle, strict, loose) {
      assert At(haystack, [0]) == Some(head);
    } else if head.Array? && Execute(needle, head.elems, loose, strict) {
      ExecuteHasWitness(needle, head.elems, loose, strict);
      var path :| At(head.elems, path).Some? && Matches(At(head.elems, path).value, needle, strict, loose);
      AtHead(haystack, path);
    } else {
      ExecuteHasWitness(needle, haystack[1..], loose, strict);
      var path :| At(haystack[1..], path).Some? && Matches(At(haystack[1..], path).value, needle, strict, loose);
      AtTail(haystack, path);
    }
  }

  /** A matching value at any position makes the search succeed. */
  lemma {:induction false} WitnessFound<T>(needle: Value<T>, haystack: seq<Value<T>>, loose: (Value<T>, Value<T>) -> bool, strict: bool, path: seq<nat>)
    requires At(haystack, path).Some? && Matches(At(haystack, path).value, needle, strict, loose)
    ensures Execute(needle, haystack, loose, strict)
    decreases |path|, |haystack|
  {
    var head := haystack[0];
    if path[0] == 0 {
      if |path| > 1 {
        assert [0] + path[1..] == path;
        AtHead(haystack, path[1..]);
        WitnessFound(needle, head.elems, loose, strict, path[1..]);
      }
    } else {
      var shifted := [path[0] - 1] + path[1..];
      assert [shifted[0] + 1] + shifted[1..] == path;
      AtTail(haystack, shifted);
      WitnessFound(needle, haystack[1..], loose, strict, shifted);
    }
  }

  /** The search succeeds exactly when some value at some depth matches. */
  lemma ExecuteFindsOccurrence<T>(needle: Value<T>, haystack: seq<Value<T>>, loose: (Value<T>, Value<T>) -> bool, strict: bool)
    ensures Execute(needle, haystack, loose, strict) <==> Occurs(needle, haystack, loose, strict)
  {
    if Execute(needle, haystack, loose, strict) {
      ExecuteHasWitness(needle, haystack, loose, strict);
    }
    if Occurs(needle, haystack, loose, strict) {
      var path :| At(haystack, path).Some? && Matches(At(haystack, path).value, needle, strict, loose);
      WitnessFound(needle, haystack, loose, strict, path);
    }
  }

  /** With the default strict comparison, the search finds exactly the values identical to the needle. */
  lemma ExecuteStrict<T>(needle: Value<T>, haystack: seq<Value<T>>, loose: (Value<T>, Value<T>) -> bool)
    ensures Execute(needle, haystack, loose) <==> exists path :: At(haystack, path) == Some(needle)
  {
    ExecuteFindsOccurrence(needle, haystack, loose, true);
    if Execute(needle, haystack, loose) {
      var path :| At(haystack, path).Some? && Matches(At(haystack, path).value, needle, true, loose);
      assert At(haystack, path) == Some(needle);
    }
    if exists path :: At(haystack, path) == Some(needle) {
      var path :| At(haystack, path) == Some(needle);
      assert At(haystack, path).Some? && Matches(At(haystack, path).value, needle, true, loose);
    }
  }

  /** Searching two haystacks one after the other is searching each. */
  lemma {:induction false} ExecuteAppend<T>(needle: Value<T>, a: seq<Value<T>>, b: seq<Value<T>>, loose: (Value<T>, Value<T>) -> bool, strict: bool)
    ensures Execute(needle, a + b, loose, strict) == (Execute(needle, a, loose, strict) || Execute(needle, b, loose, strict))
    decreases a
  {
    if a == [] {
      assert a + b == b;
    } else {
      assert (a + b)[0] == a[0];
      assert (a + b)[1..] == a[1..] + b;
      ExecuteAppend(needle, a[1..], b, loose, strict);
    }
  }

  // ---------------------------------------------------------------------------
  // The search as written: the recursive call names a method the class lacks

  /** The error PHP raises when the search reaches the call to `in_array_recursive`. */
  const UndefinedMethod: string := "Call to undefined method InArrayRecursive::in_array_recursive()"

  /**
   * The search as the class writes it: a match returns true at once, but a
   * non-matching array calls `$this->in_array_recursive`, which the class does
   * not define, so PHP raises an error instead of returning.
   */
  function ExecuteAsWritten<T(==)>(needle: Value<T>, haystack: seq<Value<T>>, loose: (Value<T>, Value<T>) -> bool, strict: bool := true): (r: Result<bool, string>)
    ensures r.Failure? ==> r.error == UndefinedMethod
    decreases haystack
  {
    if haystack == [] then Success(false)
    else if Matches(haystack[0], needle, strict, loose) then Success(true)
    else if haystack[0].Array? then Failure(UndefinedMethod)
    else ExecuteAsWritten(needle, haystack[1..], loose, strict)
  }

  /** Whenever the written search returns, it agrees with the intended one. */
  lemma {:induction false} AsWrittenAgrees<T>(needle: Value<T>, haystack: seq<Value<T>>, loose: (Value<T>, Value<T>) -> bool, strict: bool)
    ensures ExecuteAsWritten(needle, haystack, loose, strict).Success? ==>
              ExecuteAsWritten(needle, haystack, loose, strict).value == Execute(needle, haystack, loose, strict)
    decreases haystack
  {
    if haystack != [] {
      AsWrittenAgrees(needle, haystack[1..], loose, strict);
    }
  }

  /**
   * Element `i` is a non-matching array and every element before it a
   * non-matching scalar: the scan reaches the undefined call there.
   */
  predicate BlockedAt<T(==)>(needle: Value<T>, haystack: seq<Value<T>>, loose: (Value<T>, Value<T>) -> bool, strict: bool, i: int)
  {
    0 <= i < |haystack| && haystack[i].Array? && !Matches(haystack[i], needle, strict, loose) &&
    forall j :: 0 <= j < i ==> haystack[j].Scalar? && !Matches(haystack[j], needle, strict, loose)
  }

  /** Past the first element, being blocked is being blocked one place earlier in the tail. */
  lemma BlockedAtTail<T>(needle: Value<T>, haystack: seq<Value<T>>, loose: (Value<T>, Value<T>) -> bool, strict: bool, i: int)
    requires haystack != [] && i > 0
    ensures BlockedAt(needle, haystack, loose, strict, i) <==>
              haystack[0].Scalar? && !Matches(haystack[0], needle, strict, loose) &&
              BlockedAt(needle, haystack[1..], loose, strict, i - 1)
  {
    var tail := haystack[1..];
    assert forall j :: 0 <= j < |tail| ==> tail[j] == haystack[j + 1];
    if haystack[0].Scalar? && !Matches(haystack[0], needle, strict, loose) && BlockedAt(needle, tail, loose, strict, i - 1) {
      forall j | 0 <= j < i
        ensures haystack[j].Scalar? && !Matches(haystack[j], needle, strict, loose)
      {
        if j > 0 {
          assert haystack[j] == tail[j - 1];
        }
      }
    }
  }

  /**
   * The written search fails exactly when it reaches a non-matching array,
   * that is, when such an array comes after non-matching scalars only.
   */
  lemma {:induction false} AsWrittenFails<T>(needle: Value<T>, haystack: seq<Value<T>>, loose: (Value<T>, Value<T>) -> bool, strict: bool)
    ensures ExecuteAsWritten(needle, haystack, loose, strict).Failure? <==>
              exists i :: BlockedAt(needle, haystack, loose, strict, i)
    decreases haystack
  {
    if haystack != [] {
      var tail := haystack[1..];
      AsWrittenFails(needle, tail, loose, strict);
      if ExecuteAsWritten(needle, haystack, loose, strict).Failure? {
        if haystack[0].Array? {
          assert BlockedAt(needle, haystack, loose, strict, 0);
        } else {
          var i :| BlockedAt(needle, tail, loose, strict, i);
          BlockedAtTail(needle, haystack, loose, strict, i + 1);
        }
      } else if exists i :: BlockedAt(needle, haystack, loose, strict, i) {
        var i :| BlockedAt(needle, haystack, loose, strict, i);
        assert i != 0;
        BlockedAtTail(needle, haystack, loose, strict, i);
        assert false;
      }
    }
  }

  /**
   * The written search stops at the first match, whatever follows it: a
   * match found before any nested array is returned, and an array identical
   * to the needle is matched without descending into it.
   */
  lemma {:induction false} AsWrittenStopsAtFirstHit<T>(needle: Value<T>, haystack: seq<Value<T>>, loose: (Value<T>, Value<T>) -> bool, strict: bool, i: nat)
    requires i < |haystack| && Matches(haystack[i], needle, strict, loose)
    requires forall j :: 0 <= j < i ==> haystack[j].Scalar? && !Matches(haystack[j], needle, strict, loose)
    ensures ExecuteAsWritten(needle, haystack, loose, strict) == Success(true)
    decreases i
  {
    if i > 0 {
      assert forall j :: 0 <= j < i - 1 ==> haystack[1..][j] == haystack[j + 1];
      AsWrittenStopsAtFirstHit(needle, haystack[1..], loose, strict, i - 1);
    }
  }

  /** On a haystack without nested arrays the written search never fails and finds exactly the matching elements. */
  lemma {:induction false} AsWrittenFlat<T>(needle: Value<T>, haystack: seq<Value<T>>, loose: (Value<T>, Value<T>) -> bool, strict: bool)
    requires forall i :: 0 <= i < |haystack| ==> haystack[i].Scalar?
    ensures ExecuteAsWritten(needle, haystack, loose, strict) ==
              Success(exists i :: 0 <= i < |haystack| && Matches(haystack[i], needle, strict, loose))
    decreases haystack
  {
    if haystack != [] {
      var tail := haystack[1..];
      AsWrittenFlat(needle, tail, loose, strict);
      assert forall i :: 0 <= i < |tail| ==> tail[i] == haystack[i + 1];
      if exists i :: 0 <= i < |haystack| && Matches(haystack[i], needle, strict, loose) {
        var i :| 0 <= i < |haystack| && Matches(haystack[i], needle, strict, loose);
        if i > 0 {
          assert Matches(tail[i - 1], needle, strict, loose);
        }
      }
    }
  }

  /** No comparison ever holds: stands in for loose comparison in the example below. */
  predicate NeverEqual(a: Value<int>, b: Value<int>)
  {
    false
  }

  /**
   * `execute(1, [[1]])`: the intended search finds 1 inside the nested array,
   * while the written one raises the undefined-method error on reaching it.
   */
  lemma NestedNeedleCounterexample()
    ensures Execute(Scalar(1), [Array([Scalar(1)])], NeverEqual)
    ensures ExecuteAsWritten(Scalar(1), [Array([Scalar(1)])], NeverEqual) == Failure(UndefinedMethod)
  {
    var inner: seq<Value<int>> := [Scalar(1)];
    assert Matches(inner[0], Scalar(1), true, NeverEqual);
    assert Execute(Scalar(1), inner, NeverEqual);
    assert !Matches(Array(inner), Scalar(1), true, NeverEqual);
  }
}
