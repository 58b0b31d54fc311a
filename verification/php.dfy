/** The few PHP built-ins the wrapper relies on, over `string` (a sequence of
    characters): `trim` with its default character list, ASCII `strtolower`,
    `empty` on strings, and ordered arrays with string keys together with
    element assignment and `array_merge`. */
module Php {
  import opened Results

  // ---------------------------------------------------------------------------
  // Strings
  // ---------------------------------------------------------------------------

  /** The characters `trim` strips when no list is given: space, tab, line
      feed, carriage return, NUL and vertical tab. */
  predicate IsTrimChar(c: char) {
    c == ' ' || c == '\t' || c == '\n' || c == '\r' || c == '\0' || c == '\U{B}'
  }

  /** `ltrim(s)`: drops the leading trim characters. */
  function TrimLeft(s: string): string {
    if |s| > 0 && IsTrimChar(s[0]) then TrimLeft(s[1..]) else s
  }

  /** `rtrim(s)`: drops the trailing trim characters. */
  function TrimRight(s: string): string {
    if |s| > 0 && IsTrimChar(s[|s| - 1]) then TrimRight(s[..|s| - 1]) else s
  }

  /** `trim(s)`. */
  function Trim(s: string): string {
    TrimRight(TrimLeft(s))
  }

  /** `ltrim` removes a prefix made only of trim characters, and the longest one. */
  lemma {:induction false} TrimLeftSpec(s: string)
    ensures var r := TrimLeft(s);
            && |r| <= |s| && r == s[|s| - |r|..]
            && (forall i :: 0 <= i < |s| - |r| ==> IsTrimChar(s[i]))
            && (|r| > 0 ==> !IsTrimChar(r[0]))
    decreases |s|
  {
    if |s| > 0 && IsTrimChar(s[0]) {
      TrimLeftSpec(s[1..]);
    }
  }

  /** `rtrim` removes a suffix made only of trim characters, and the longest one. */
  lemma {:induction false} TrimRightSpec(s: string)
    ensures var r := TrimRight(s);
            && |r| <= |s| && r == s[..|r|]
            && (forall i :: |r| <= i < |s| ==> IsTrimChar(s[i]))
            && (|r| > 0 ==> !IsTrimChar(r[|r| - 1]))
    decreases |s|
  {
    if |s| > 0 && IsTrimChar(s[|s| - 1]) {
      TrimRightSpec(s[..|s| - 1]);
    }
  }

  /** `empty($s)` for a string: true of `""` and of `"0"` only. */
  predicate Empty(s: string) {
    s == "" || s == "0"
  }

  /** `empty(trim($s))`: the test both constructors apply to a value. */
  predicate Blank(s: string) {
    Empty(Trim(s))
  }

  /** `trim` leaves nothing exactly when every character is a trim character. */
  lemma TrimEmptyIff(s: string)
    ensures Trim(s) == "" <==> forall i :: 0 <= i < |s| ==> IsTrimChar(s[i])
  {
    TrimLeftSpec(s);
    var l := TrimLeft(s);
    TrimRightSpec(l);
    if |l| > 0 {
      assert s[|s| - |l|] == l[0];
    }
  }

  /** `empty(trim($s))`: the value is made only of trim characters, or is
      `"0"` once they are stripped. */
  lemma BlankIff(s: string)
    ensures Blank(s) <==> (forall i :: 0 <= i < |s| ==> IsTrimChar(s[i])) || Trim(s) == "0"
  {
    TrimEmptyIff(s);
  }

  /** `strtolower` on one character: ASCII letters only. */
  function LowerChar(c: char): char {
    if 'A' <= c <= 'Z' then (c as int - 'A' as int + 'a' as int) as char else c
  }

  /** `strtolower(s)`. */
  function Lower(s: string): (r: string)
    ensures |r| == |s|
    ensures forall i :: 0 <= i < |s| ==> r[i] == LowerChar(s[i])
  {
    if |s| == 0 then "" else [LowerChar(s[0])] + Lower(s[1..])
  }

  /** A string without any trim character at either end is its own `trim`. */
  lemma TrimOfTrimmed(s: string)
    requires |s| == 0 || (!IsTrimChar(s[0]) && !IsTrimChar(s[|s| - 1]))
    ensures Trim(s) == s
  {
    assert TrimLeft(s) == s;
  }

  /** `trim` is idempotent. */
  lemma TrimIdempotent(s: string)
    ensures Trim(Trim(s)) == Trim(s)
  {
    var l := TrimLeft(s);
    var t := Trim(s);
    TrimLeftSpec(s);
    TrimRightSpec(l);
    if |t| > 0 {
      assert t == l[..|t|];
      assert !IsTrimChar(t[0]) by { assert t[0] == l[0]; }
    }
    TrimOfTrimmed(t);
  }

  /** A string with no trim character at either end and other than `"0"` passes `empty(trim(s))`. */
  lemma NotBlankPlain(s: string)
    requires |s| > 0 && !IsTrimChar(s[0]) && !IsTrimChar(s[|s| - 1]) && s != "0"
    ensures !Blank(s)
  {
    TrimOfTrimmed(s);
  }

  /** A string without upper-case ASCII letters is its own `strtolower`. */
  lemma LowerOfLowercase(s: string)
    requires forall i :: 0 <= i < |s| ==> !('A' <= s[i] <= 'Z')
    ensures Lower(s) == s
  {
  }

  /** `strtolower` is idempotent. */
  lemma LowerIdempotent(s: string)
    ensures Lower(Lower(s)) == Lower(s)
  {
  }

  /** `strtolower` neither adds nor removes trim characters. */
  lemma LowerKeepsTrimChars(c: char)
    ensures IsTrimChar(LowerChar(c)) <==> IsTrimChar(c)
  {
  }

  lemma {:induction false} TrimLeftLower(s: string)
    ensures TrimLeft(Lower(s)) == Lower(TrimLeft(s))
    decreases |s|
  {
    if |s| > 0 {
      LowerKeepsTrimChars(s[0]);
      if IsTrimChar(s[0]) {
        assert Lower(s)[1..] == Lower(s[1..]);
        TrimLeftLower(s[1..]);
      }
    }
  }

  lemma {:induction false} TrimRightLower(s: string)
    ensures TrimRight(Lower(s)) == Lower(TrimRight(s))
    decreases |s|
  {
    if |s| > 0 {
      LowerKeepsTrimChars(s[|s| - 1]);
      if IsTrimChar(s[|s| - 1]) {
        assert Lower(s)[..|s| - 1] == Lower(s[..|s| - 1]);
        TrimRightLower(s[..|s| - 1]);
      }
    }
  }

  /** Lower-casing and trimming commute: `strtolower(trim(s)) == trim(strtolower(s))`. */
  lemma TrimLowerCommute(s: string)
    ensures Trim(Lower(s)) == Lower(Trim(s))
  {
    TrimLeftLower(s);
    TrimRightLower(TrimLeft(s));
  }

  /** Lower-casing does not change whether a string is PHP-empty. */
  lemma LowerKeepsEmpty(s: string)
    ensures Empty(Lower(s)) <==> Empty(s)
  {
    if Lower(s) == "0" {
      assert LowerChar(s[0]) == '0';
      assert s == "0";
    }
  }

  /** A value that passes `empty(trim(v))` is not PHP-empty itself, nor once
      lower-cased: the stored `strtolower(v)` is always truthy. */
  lemma NotBlankStoredNotEmpty(s: string)
    ensures !Blank(s) ==> !Empty(s) && !Empty(Lower(s))
  {
    LowerKeepsEmpty(s);
    if s == "0" {
      assert Trim(s) == "0";
    }
  }

  /** Blankness survives normalisation: `strtolower(trim(s))` is blank exactly when `s` is. */
  lemma BlankNormalised(s: string)
    ensures Blank(Lower(Trim(s))) <==> Blank(s)
  {
    TrimLowerCommute(Trim(s));
    TrimIdempotent(s);
    LowerKeepsEmpty(Trim(s));
  }

  // ---------------------------------------------------------------------------
  // Ordered arrays with string keys
  // ---------------------------------------------------------------------------

  /** A PHP array with string keys: key/value pairs in insertion order. */
  type Pairs = seq<(string, string)>

  /** The keys of an array. */
  function Keys(a: Pairs): set<string> {
    set i | 0 <= i < |a| :: a[i].0
  }

  lemma KeysConcat(a: Pairs, b: Pairs)
    ensures Keys(a + b) == Keys(a) + Keys(b)
  {
    var ab := a + b;
    forall k | k in Keys(a) + Keys(b) ensures k in Keys(ab) {
      if k in Keys(a) {
        var i :| 0 <= i < |a| && a[i].0 == k;
        assert ab[i].0 == k;
      } else {
        var i :| 0 <= i < |b| && b[i].0 == k;
        assert ab[|a| + i].0 == k;
      }
    }
  }

  lemma KeysSingle(p: (string, string))
    ensures Keys([p]) == {p.0}
  {
    assert [p][0].0 == p.0;
  }

  lemma KeysCons(p: (string, string), a: Pairs)
    ensures Keys([p] + a) == {p.0} + Keys(a)
  {
    KeysConcat([p], a);
    KeysSingle(p);
  }

  /** No key occurs twice, as in every PHP array. */
  predicate UniqueKeys(a: Pairs) {
    forall i, j :: 0 <= i < j < |a| ==> a[i].0 != a[j].0
  }

  /** `$a[$k]` when set: the value of the entry with key `k` (the last one
      in a sequence that repeats `k`, which no PHP array does). */
  function Find(a: Pairs, k: string): (r: Option<string>)
    ensures r.Some? <==> k in Keys(a)
  {
    if |a| == 0 then None
    else
      var later := Find(a[1..], k);
      if later.Some? then later
      else if a[0].0 == k then Some(a[0].1)
      else None
  }

  /** The value found for `k` is the value of an entry with key `k` that no later entry overrides. */
  lemma {:induction false} FindIsEntry(a: Pairs, k: string) returns (i: nat)
    requires k in Keys(a)
    ensures i < |a| && a[i] == (k, Find(a, k).value)
    ensures forall j :: i < j < |a| ==> a[j].0 != k
    decreases |a|
  {
    assert a == [a[0]] + a[1..];
    KeysCons(a[0], a[1..]);
    if k in Keys(a[1..]) {
      var i' := FindIsEntry(a[1..], k);
      i := i' + 1;
    } else {
      i := 0;
    }
  }

  /** In an array with unique keys, the value found under an entry's key is that entry's value. */
  lemma {:induction false} FindUnique(a: Pairs, i: nat)
    requires UniqueKeys(a) && i < |a|
    ensures Find(a, a[i].0) == Some(a[i].1)
    decreases |a|
  {
    if i == 0 {
      assert a[0].0 !in Keys(a[1..]);
    } else {
      FindUnique(a[1..], i - 1);
    }
  }

  /** The array without the entry for `k`. */
  function Without(a: Pairs, k: string): (r: Pairs)
    ensures Keys(r) == Keys(a) - {k}
  {
    if |a| == 0 then []
    else (
      assert a == [a[0]] + a[1..];
      KeysCons(a[0], a[1..]);
      if a[0].0 == k then Without(a[1..], k)
      else KeysCons(a[0], Without(a[1..], k)); [a[0]] + Without(a[1..], k))
  }

  /** Each entry of `Without(a, k)` is an entry of `a`. */
  lemma {:induction false} WithoutEntry(a: Pairs, k: string, i: nat) returns (j: nat)
    requires i < |Without(a, k)|
    ensures j < |a| && a[j] == Without(a, k)[i] && a[j].0 != k
    decreases |a|
  {
    if a[0].0 == k {
      var j' := WithoutEntry(a[1..], k, i);
      j := j' + 1;
    } else if i == 0 {
      j := 0;
    } else {
      var j' := WithoutEntry(a[1..], k, i - 1);
      j := j' + 1;
    }
  }

  /** Each entry of `a` whose key is not `k` stays in `Without(a, k)`. */
  lemma {:induction false} WithoutKeeps(a: Pairs, k: string, j: nat) returns (i: nat)
    requires j < |a| && a[j].0 != k
    ensures i < |Without(a, k)| && Without(a, k)[i] == a[j]
    decreases |a|
  {
    if j == 0 {
      i := 0;
    } else if a[0].0 == k {
      i := WithoutKeeps(a[1..], k, j - 1);
    } else {
      var i' := WithoutKeeps(a[1..], k, j - 1);
      i := i' + 1;
    }
  }

  /** Removing one key does not change what is found under another. */
  lemma {:induction false} FindWithout(a: Pairs, k: string, n: string)
    requires n != k
    ensures Find(Without(a, k), n) == Find(a, n)
    decreases |a|
  {
    if |a| > 0 {
      FindWithout(a[1..], k, n);
    }
  }

  /** `$a[$k] = $v`: overwrites the entry for `k` in place, or appends one. */
  function Put(a: Pairs, k: string, v: string): (r: Pairs)
    ensures Keys(r) == Keys(a) + {k}
  {
    if |a| == 0 then KeysSingle((k, v)); [(k, v)]
    else (
      assert a == [a[0]] + a[1..];
      KeysCons(a[0], a[1..]);
      if a[0].0 == k then KeysCons((k, v), a[1..]); [(k, v)] + a[1..]
      else KeysCons(a[0], Put(a[1..], k, v)); [a[0]] + Put(a[1..], k, v))
  }

  /** Assigning to a new key appends it at the end. */
  lemma {:induction false} PutNewKeyAppends(a: Pairs, k: string, v: string)
    requires k !in Keys(a)
    ensures Put(a, k, v) == a + [(k, v)]
    decreases |a|
  {
    if |a| > 0 {
      assert a[0].0 != k;
      assert Keys(a[1..]) <= Keys(a);
      PutNewKeyAppends(a[1..], k, v);
      assert a == [a[0]] + a[1..];
    }
  }

  /** `array_merge($a, $b)` for string keys: each entry of `b`, in order, is
      assigned into `a`, so equal keys take `b`'s value at `a`'s position and
      new keys are appended. */
  function Merge(a: Pairs, b: Pairs): (r: Pairs)
    ensures Keys(r) == Keys(a) + Keys(b)
    decreases |b|
  {
    if |b| == 0 then a
    else (
      assert b == [b[0]] + b[1..];
      KeysCons(b[0], b[1..]);
      Merge(Put(a, b[0].0, b[0].1), b[1..])
    )
  }

  /** The first entry of `b` overwrites the head entry of the accumulated array. */
  lemma MergeStepSameKey(k: string, x: string, rest: Pairs, b: Pairs)
    requires |b| > 0 && b[0].0 == k
    ensures Merge([(k, x)] + rest, b) == Merge([(k, b[0].1)] + rest, b[1..])
  {
    assert ([(k, x)] + rest)[1..] == rest;
  }

  /** The first entry of `b`, with a key not yet present, is appended to the accumulated array. */
  lemma MergeStepNewKey(k: string, x: string, rest: Pairs, b: Pairs)
    requires |b| > 0 && b[0].0 != k && b[0].0 !in Keys(rest)
    ensures Merge([(k, x)] + rest, b) == Merge([(k, x)] + (rest + [b[0]]), b[1..])
  {
    KeysCons((k, x), rest);
    PutNewKeyAppends([(k, x)] + rest, b[0].0, b[0].1);
    assert ([(k, x)] + rest) + [b[0]] == [(k, x)] + (rest + [b[0]]);
  }

  /** Dropping the first entry keeps keys unique and removes that entry's key. */
  lemma UniqueTail(b: Pairs)
    requires UniqueKeys(b) && |b| > 0
    ensures UniqueKeys(b[1..])
    ensures Keys(b) == {b[0].0} + Keys(b[1..])
    ensures b[0].0 !in Keys(b[1..])
  {
    assert b == [b[0]] + b[1..];
    KeysCons(b[0], b[1..]);
  }

  lemma {:induction false} MergeAfterHead(k: string, x: string, rest: Pairs, b: Pairs)
    requires UniqueKeys(b)
    requires Keys(rest) !! Keys(b)
    ensures Merge([(k, x)] + rest, b) == [(k, Find(b, k).GetOr(x))] + rest + Without(b, k)
    decreases |b|
  {
    if |b| > 0 {
      UniqueTail(b);
      if b[0].0 == k {
        MergeSameKeyCase(k, x, rest, b);
      } else {
        MergeNewKeyCase(k, x, rest, b);
      }
    }
  }

  lemma {:induction false} MergeSameKeyCase(k: string, x: string, rest: Pairs, b: Pairs)
    requires UniqueKeys(b) && |b| > 0 && b[0].0 == k
    requires Keys(rest) !! Keys(b)
    requires UniqueKeys(b[1..]) && Keys(b) == {k} + Keys(b[1..]) && k !in Keys(b[1..])
    ensures Merge([(k, x)] + rest, b) == [(k, Find(b, k).GetOr(x))] + rest + Without(b, k)
    decreases |b|, 0
  {
    MergeStepSameKey(k, x, rest, b);
    MergeAfterHead(k, b[0].1, rest, b[1..]);
  }

  lemma {:induction false} MergeNewKeyCase(k: string, x: string, rest: Pairs, b: Pairs)
    requires UniqueKeys(b) && |b| > 0 && b[0].0 != k
    requires Keys(rest) !! Keys(b)
    requires UniqueKeys(b[1..]) && Keys(b) == {b[0].0} + Keys(b[1..]) && b[0].0 !in Keys(b[1..])
    ensures Merge([(k, x)] + rest, b) == [(k, Find(b, k).GetOr(x))] + rest + Without(b, k)
    decreases |b|, 0
  {
    var tail := b[1..];
    MergeStepNewKey(k, x, rest, b);
    AppendedDisjoint(rest, b);
    MergeAfterHead(k, x, rest + [b[0]], tail);
    OtherHead(b, k);
    Regroup([(k, Find(b, k).GetOr(x))], rest, b[0], Without(tail, k));
  }

  /** Appending the first entry of `b` to `rest` keeps it apart from the rest of `b`. */
  lemma AppendedDisjoint(rest: Pairs, b: Pairs)
    requires |b| > 0 && Keys(rest) !! Keys(b)
    requires Keys(b) == {b[0].0} + Keys(b[1..]) && b[0].0 !in Keys(b[1..])
    ensures Keys(rest + [b[0]]) !! Keys(b[1..])
  {
    KeysConcat(rest, [b[0]]);
    KeysSingle(b[0]);
  }

  /** A first entry with another key does not affect `Find` and survives `Without`. */
  lemma OtherHead(b: Pairs, k: string)
    requires |b| > 0 && b[0].0 != k
    ensures Find(b, k) == Find(b[1..], k)
    ensures Without(b, k) == [b[0]] + Without(b[1..], k)
  {
  }

  /** Moves one entry across a concatenation. Kept as a lemma of its own so
      that `MergeNewKeyCase` proves it outside its larger context. */
  lemma Regroup(head: Pairs, rest: Pairs, e: (string, string), tail: Pairs)
    ensures head + (rest + [e]) + tail == head + rest + ([e] + tail)
  {
  }

  /** `array_merge([$k => $x], $b)`: the entry for `k` stays first and takes
      `b`'s value for `k` if `b` has one; the other entries of `b` follow in
      their order. */
  lemma MergeOntoSingle(k: string, x: string, b: Pairs)
    requires UniqueKeys(b)
    ensures Merge([(k, x)], b) == [(k, Find(b, k).GetOr(x))] + Without(b, k)
  {
    MergeAfterHead(k, x, [], b);
    assert [(k, x)] + [] == [(k, x)];
  }
}
