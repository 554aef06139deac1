/**
 * The Python 2 built-ins on byte strings and lists that the MARI helpers
 * call: `sub in s`, `s.index(sub)`, `s.split(c)`, `c.join(xs)`,
 * `s.replace(pat, "")`, `filter(None, xs)`, `int(s)`, `xs.insert(i, x)`
 * and `xs.index(x)`. Strings are sequences of characters; Python's
 * exceptions become `None`.
 */
module PyStr {
  import opened Wrappers

  // ---------------------------------------------------------------------
  // Substring search: `sub in s` and `s.index(sub)`
  // ---------------------------------------------------------------------

  /**
   * `sub[k..]` matches `s` at index `i + k`, compared one character at a
   * time.
   */
  predicate MatchesFrom(s: string, sub: string, i: nat, k: nat)
    decreases |sub| - k
  {
    k >= |sub| || (i + k < |s| && s[i + k] == sub[k] && MatchesFrom(s, sub, i, k + 1))
  }

  /** The character-wise comparison is the comparison of slices. */
  lemma {:induction false} MatchesFromIff(s: string, sub: string, i: nat, k: nat)
    requires i + |sub| <= |s| && k <= |sub|
    decreases |sub| - k
    ensures MatchesFrom(s, sub, i, k) <==> s[i + k..i + |sub|] == sub[k..]
  {
    if k < |sub| {
      MatchesFromIff(s, sub, i, k + 1);
      assert s[i + k..i + |sub|] == [s[i + k]] + s[i + k + 1..i + |sub|];
      assert sub[k..] == [sub[k]] + sub[k + 1..];
    }
  }

  /** `sub` occurs in `s` starting at index `i`. */
  predicate OccursAt(s: string, sub: string, i: nat) {
    i + |sub| <= |s| && MatchesFrom(s, sub, i, 0)
  }

  /** An occurrence is a slice equal to `sub`. */
  lemma OccursAtIff(s: string, sub: string, i: nat)
    ensures OccursAt(s, sub, i) <==> i + |sub| <= |s| && s[i..i + |sub|] == sub
  {
    if i + |sub| <= |s| {
      MatchesFromIff(s, sub, i, 0);
    }
  }

  /** The first occurrence of `sub` in `s` at or after index `i`. */
  function FindFrom(s: string, sub: string, i: nat): (r: Option<nat>)
    decreases |s| + 1 - i
    ensures r.Some? ==> i <= r.value && OccursAt(s, sub, r.value)
    ensures r.Some? ==> forall j :: i <= j < r.value ==> !OccursAt(s, sub, j)
    ensures r.None? ==> forall j :: i <= j ==> !OccursAt(s, sub, j)
  {
    if i + |sub| > |s| then None
    else if OccursAt(s, sub, i) then Some(i)
    else FindFrom(s, sub, i + 1)
  }

  /** `s.index(sub)`: the first occurrence; `None` where Python raises ValueError. */
  function IndexOf(s: string, sub: string): Option<nat> {
    FindFrom(s, sub, 0)
  }

  /** An occurrence with none before it is the one `s.index(sub)` finds. */
  lemma IndexOfFirst(s: string, sub: string, j: nat)
    requires OccursAt(s, sub, j)
    requires forall k :: 0 <= k < j ==> !OccursAt(s, sub, k)
    ensures IndexOf(s, sub) == Some(j)
  {
    var r := FindFrom(s, sub, 0);
    assert r.Some?;
  }

  /**
   * An occurrence is the first one when the character at offset `m` of
   * `sub` appears nowhere in the stretch any earlier occurrence would put it.
   */
  lemma IndexOfAfterGap(s: string, sub: string, j: nat, m: nat)
    requires OccursAt(s, sub, j) && m < |sub|
    requires sub[m] !in s[m..j + m]
    ensures IndexOf(s, sub) == Some(j)
  {
    forall k | 0 <= k < j ensures !OccursAt(s, sub, k) {
      OccursAtIff(s, sub, k);
      assert s[m..j + m][k] == s[k + m];
      if k + |sub| <= |s| {
        assert s[k..k + |sub|][m] == s[k + m];
      }
    }
    IndexOfFirst(s, sub, j);
  }

  /** `sub` does not occur where one of its characters is missing. */
  lemma AbsentByChar(s: string, sub: string, m: nat)
    requires m < |sub| && sub[m] !in s
    ensures IndexOf(s, sub) == None
  {
    forall k: nat ensures !OccursAt(s, sub, k) {
      OccursAtIff(s, sub, k);
      if k + |sub| <= |s| {
        assert s[k..k + |sub|][m] == s[k + m];
      }
    }
  }

  /** `sub in s`. */
  predicate Contains(s: string, sub: string) {
    IndexOf(s, sub).Some?
  }

  // ---------------------------------------------------------------------
  // `s.split(c)`, `c.join(xs)` and `filter(None, xs)`
  // ---------------------------------------------------------------------

  /** `s.split(c)` for a one-character separator: every piece, empty ones included. */
  function Split(s: string, c: char): (r: seq<string>)
    ensures |r| >= 1
    ensures forall k :: 0 <= k < |r| ==> c !in r[k]
  {
    if s == "" then [""]
    else
      var rest := Split(s[1..], c);
      if s[0] == c then [""] + rest else [[s[0]] + rest[0]] + rest[1..]
  }

  /** `c.join(xs)`. */
  function Join(xs: seq<string>, c: char): string {
    if |xs| == 0 then ""
    else if |xs| == 1 then xs[0]
    else xs[0] + [c] + Join(xs[1..], c)
  }

  /** Splitting a string free of the separator gives the string alone. */
  lemma {:induction false} SplitWithout(s: string, c: char)
    requires c !in s
    ensures Split(s, c) == [s]
  {
    if s != "" {
      SplitWithout(s[1..], c);
      assert [s[0]] + s[1..] == s;
    }
  }

  /** A separator character cuts the split in two. */
  lemma {:induction false} SplitAround(a: string, b: string, c: char)
    ensures Split(a + [c] + b, c) == Split(a, c) + Split(b, c)
  {
    if a == "" {
      assert a + [c] + b == [c] + b;
      assert ([c] + b)[1..] == b;
    } else {
      assert (a + [c] + b)[1..] == a[1..] + [c] + b;
      SplitAround(a[1..], b, c);
    }
  }

  /** Exactly one piece comes back when, and only when, the separator is absent. */
  lemma {:induction false} SplitSingle(s: string, c: char)
    ensures |Split(s, c)| == 1 <==> c !in s
  {
    if c in s {
      var i :| 0 <= i < |s| && s[i] == c;
      assert s == s[..i] + [c] + s[i + 1..];
      SplitAround(s[..i], s[i + 1..], c);
    } else {
      SplitWithout(s, c);
    }
  }

  /** `c.join(s.split(c)) == s`. */
  lemma {:induction false} JoinSplit(s: string, c: char)
    ensures Join(Split(s, c), c) == s
  {
    if s != "" {
      JoinSplit(s[1..], c);
      var rest := Split(s[1..], c);
      if s[0] == c {
        assert ([""] + rest)[1..] == rest;
      } else if |rest| > 1 {
        assert Join(rest, c) == rest[0] + [c] + Join(rest[1..], c);
      }
      assert s == [s[0]] + s[1..];
    }
  }

  /** `c.join(xs).split(c) == xs` when no piece holds the separator. */
  lemma {:induction false} SplitJoin(xs: seq<string>, c: char)
    requires |xs| >= 1
    requires forall k :: 0 <= k < |xs| ==> c !in xs[k]
    ensures Split(Join(xs, c), c) == xs
  {
    if |xs| == 1 {
      SplitWithout(xs[0], c);
    } else {
      SplitJoin(xs[1..], c);
      SplitAround(xs[0], Join(xs[1..], c), c);
      SplitWithout(xs[0], c);
      assert xs == [xs[0]] + xs[1..];
    }
  }

  /** `filter(None, xs)`: the non-empty strings of `xs`, in order. */
  function NonEmpty(xs: seq<string>): (r: seq<string>)
    ensures |r| <= |xs|
    ensures forall k :: 0 <= k < |r| ==> r[k] != ""
    ensures forall x :: x in r <==> x in xs && x != ""
  {
    if xs == [] then []
    else (if xs[0] == "" then [] else [xs[0]]) + NonEmpty(xs[1..])
  }

  /** Filtering distributes over concatenation. */
  lemma {:induction false} NonEmptyAppend(a: seq<string>, b: seq<string>)
    ensures NonEmpty(a + b) == NonEmpty(a) + NonEmpty(b)
  {
    if a == [] {
      assert a + b == b;
    } else {
      assert (a + b)[0] == a[0];
      assert (a + b)[1..] == a[1..] + b;
      NonEmptyAppend(a[1..], b);
    }
  }

  // ---------------------------------------------------------------------
  // `s.replace(pat, "")`
  // ---------------------------------------------------------------------

  /** `s.startswith(pat)`, in the character-wise form. */
  predicate StartsWith(s: string, pat: string) {
    OccursAt(s, pat, 0)
  }

  /** A string starts with `pat` when its first `|pat|` characters are `pat`. */
  lemma StartsWithIff(s: string, pat: string)
    ensures StartsWith(s, pat) <==> |pat| <= |s| && s[..|pat|] == pat
  {
    OccursAtIff(s, pat, 0);
  }

  /**
   * `s.replace(pat, "")`: every occurrence of `pat`, scanned left to right
   * without overlap, is deleted. An empty `pat` leaves `s` as it is.
   */
  function RemoveAll(s: string, pat: string): (r: string)
    decreases |s|
    ensures |r| <= |s|
    ensures forall ch :: ch in r ==> ch in s
  {
    if |pat| == 0 || |s| < |pat| then s
    else if StartsWith(s, pat) then
      var r := RemoveAll(s[|pat|..], pat);
      assert forall ch :: ch in r ==> ch in s by {
        forall ch | ch in r ensures ch in s {
          var i :| 0 <= i < |s[|pat|..]| && s[|pat|..][i] == ch;
          assert s[|pat| + i] == ch;
        }
      }
      r
    else
      [s[0]] + RemoveAll(s[1..], pat)
  }

  // ---------------------------------------------------------------------
  // `int(s)` on a byte string
  // ---------------------------------------------------------------------

  /** The C-locale `isspace` that Python 2 uses when it parses an integer. */
  predicate IsSpace(ch: char) {
    ch == ' ' || ch == '\t' || ch == '\n' || ch == '\r' || ch == '\U{B}' || ch == '\U{C}'
  }

  predicate IsDigit(ch: char) {
    '0' <= ch <= '9'
  }

  /** One or more decimal digits. */
  predicate IsNumeral(s: string) {
    |s| > 0 && forall k :: 0 <= k < |s| ==> IsDigit(s[k])
  }

  function DigitValue(ch: char): (d: nat)
    requires IsDigit(ch)
    ensures d <= 9
  {
    (ch as int) - ('0' as int)
  }

  /** The value of a string of decimal digits, most significant first. */
  function DigitsValue(s: string): nat
    requires forall k :: 0 <= k < |s| ==> IsDigit(s[k])
  {
    if |s| == 0 then 0 else 10 * DigitsValue(s[..|s| - 1]) + DigitValue(s[|s| - 1])
  }

  function TrimStart(s: string): (r: string)
    ensures |r| <= |s|
    ensures |r| > 0 ==> !IsSpace(r[0])
  {
    if |s| > 0 && IsSpace(s[0]) then TrimStart(s[1..]) else s
  }

  /** What TrimStart keeps is a suffix of the string. */
  lemma {:induction false} TrimStartSuffix(s: string)
    ensures TrimStart(s) == s[|s| - |TrimStart(s)|..]
  {
    if |s| > 0 && IsSpace(s[0]) {
      TrimStartSuffix(s[1..]);
    }
  }

  function TrimEnd(s: string): (r: string)
    ensures |r| <= |s|
    ensures |r| > 0 ==> !IsSpace(r[|r| - 1])
  {
    if |s| > 0 && IsSpace(s[|s| - 1]) then TrimEnd(s[..|s| - 1]) else s
  }

  /** What TrimEnd keeps is a prefix of the string. */
  lemma {:induction false} TrimEndPrefix(s: string)
    ensures TrimEnd(s) == s[..|TrimEnd(s)|]
  {
    if |s| > 0 && IsSpace(s[|s| - 1]) {
      TrimEndPrefix(s[..|s| - 1]);
    }
  }

  /**
   * Python 2 `int(s)` in base 10: optional white space, an optional sign
   * (Python 2 lets white space follow the sign), one or more digits,
   * optional white space. `None` where Python raises ValueError.
   */
  function ParseInt(s: string): Option<int> {
    ParseTrimmed(TrimEnd(TrimStart(s)))
  }

  /** `int()` once the surrounding white space is gone. */
  function ParseTrimmed(t: string): Option<int> {
    if |t| > 0 && (t[0] == '+' || t[0] == '-') then
      var body := TrimStart(t[1..]);
      if IsNumeral(body) then
        var n: int := DigitsValue(body);
        Some(if t[0] == '-' then -n else n)
      else None
    else if IsNumeral(t) then Some(DigitsValue(t))
    else None
  }

  /** A plain numeral parses to its digit value. */
  lemma ParseNumeral(s: string)
    requires IsNumeral(s)
    ensures ParseInt(s) == Some(DigitsValue(s))
  {
    assert IsDigit(s[0]) && IsDigit(s[|s| - 1]);
    assert TrimStart(s) == s;
    assert TrimEnd(s) == s;
    assert s[0] != '+' && s[0] != '-';
  }

  /** A single character parses exactly when it is a digit, to that digit. */
  lemma ParseOneChar(s: string)
    requires |s| == 1
    ensures ParseInt(s).Some? <==> IsDigit(s[0])
    ensures ParseInt(s).Some? ==> ParseInt(s).value == DigitValue(s[0])
  {
    if IsDigit(s[0]) {
      ParseNumeral(s);
    } else if IsSpace(s[0]) {
      assert s[1..] == "";
      assert TrimStart(s) == "";
      assert TrimEnd("") == "";
    } else {
      assert TrimStart(s) == s;
      assert TrimEnd(s) == s;
      assert !IsNumeral(s);
      if s[0] == '+' || s[0] == '-' {
        assert s[1..] == "";
        assert TrimStart(s[1..]) == "";
      }
    }
  }

  /** A digit string of length n stays below 10^n. */
  lemma {:induction false} DigitsValueBelow(s: string)
    requires forall k :: 0 <= k < |s| ==> IsDigit(s[k])
    ensures DigitsValue(s) < Pow10(|s|)
  {
    if |s| > 0 {
      DigitsValueBelow(s[..|s| - 1]);
    }
  }

  function Pow10(n: nat): (p: nat)
    ensures p >= 1
  {
    if n == 0 then 1 else 10 * Pow10(n - 1)
  }

  /** Whatever two characters parse to lies between -9 and 99. */
  lemma ParseTwoChars(s: string)
    requires |s| == 2 && ParseInt(s).Some?
    ensures -9 <= ParseInt(s).value <= 99
  {
    var t := TrimEnd(TrimStart(s));
    assert |t| <= 2;
    assert Pow10(0) == 1 && Pow10(1) == 10 && Pow10(2) == 100;
    if |t| > 0 && (t[0] == '+' || t[0] == '-') {
      var body := TrimStart(t[1..]);
      assert |body| <= 1;
      DigitsValueBelow(body);
      assert DigitsValue(body) < 10;
    } else {
      DigitsValueBelow(t);
      assert DigitsValue(t) < 100;
    }
  }

  // ---------------------------------------------------------------------
  // `xs.insert(i, x)` and `xs.index(x)`
  // ---------------------------------------------------------------------

  /** `xs.insert(i, x)` for a non-negative `i`: an index past the end appends. */
  function Insert<T>(xs: seq<T>, i: nat, x: T): (r: seq<T>)
    ensures |r| == |xs| + 1
    ensures multiset(r) == multiset(xs) + multiset{x}
    ensures r[if i <= |xs| then i else |xs|] == x
  {
    var j := if i <= |xs| then i else |xs|;
    assert xs == xs[..j] + xs[j..];
    xs[..j] + [x] + xs[j..]
  }

  /** Before the insertion point the list is unchanged; after it, shifted by one. */
  lemma InsertShape<T>(xs: seq<T>, i: nat, x: T)
    ensures var j := if i <= |xs| then i else |xs|;
      && (forall k :: 0 <= k < j ==> Insert(xs, i, x)[k] == xs[k])
      && (forall k :: j < k <= |xs| ==> Insert(xs, i, x)[k] == xs[k - 1])
  {
  }

  /** `xs.index(x)`: the first position of `x`; `None` where Python raises ValueError. */
  function ListIndex<T(==)>(xs: seq<T>, x: T): (r: Option<nat>)
    ensures r.Some? ==> r.value < |xs| && xs[r.value] == x
    ensures r.Some? ==> forall j :: 0 <= j < r.value ==> xs[j] != x
    ensures r.None? ==> x !in xs
  {
    if xs == [] then None
    else if xs[0] == x then Some(0)
    else match ListIndex(xs[1..], x)
      case None => None
      case Some(j) => Some(j + 1)
  }

  /** The list has no repeated element. */
  predicate Distinct<T(==)>(xs: seq<T>) {
    forall i, j :: 0 <= i < j < |xs| ==> xs[i] != xs[j]
  }
}
