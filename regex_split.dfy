/**
 * Python 2.7 `re.split(pattern, s)` for the two patterns the filename
 * template parser builds: an alternation of literal branches (every branch
 * passed through `re.escape`), and the token pattern whose last branch,
 * `\$[METADATA VALUE]`, is a dollar sign followed by one character of a
 * character class.
 *
 * The engine looks for the leftmost index where some branch matches and
 * takes the first branch, in pattern order, that matches there. A non-empty
 * match cuts the string; an empty match (a branch with no text) cuts
 * nothing, and the search moves on by one character.
 */
module RegexSplit {
  import opened Wrappers
  import opened PyStr

  datatype Branch = Literal(text: string) | DollarThenOneOf(chars: set<char>)

  /** The length of the text branch `b` matches at index `p` of `s`. */
  function MatchAt(b: Branch, s: string, p: nat): (r: Option<nat>)
    ensures r.Some? ==> p + r.value <= |s|
  {
    match b
    case Literal(text) =>
      if OccursAt(s, text, p) then Some(|text|) else None
    case DollarThenOneOf(chars) =>
      if p + 2 <= |s| && s[p] == '$' && s[p + 1] in chars then Some(2) else None
  }

  /** The match the pattern makes at `p`: that of its first branch matching there. */
  function FirstMatch(branches: seq<Branch>, s: string, p: nat): (r: Option<nat>)
    ensures r.Some? ==> p + r.value <= |s|
  {
    if branches == [] then None
    else match MatchAt(branches[0], s, p)
      case Some(n) => Some(n)
      case None => FirstMatch(branches[1..], s, p)
  }

  /** `re.split` cuts at `p` when the pattern matches a non-empty text there. */
  predicate CutsAt(branches: seq<Branch>, s: string, p: nat) {
    var m := FirstMatch(branches, s, p);
    m.Some? && m.value > 0
  }

  /** Scanning from `p`, with the current field starting at `last`. */
  function SplitFrom(s: string, branches: seq<Branch>, last: nat, p: nat): (r: seq<string>)
    requires last <= p <= |s|
    decreases |s| - p
    ensures |r| >= 1
  {
    if p == |s| then [s[last..]]
    else if CutsAt(branches, s, p) then
      var q := p + FirstMatch(branches, s, p).value;
      [s[last..p]] + SplitFrom(s, branches, q, q)
    else SplitFrom(s, branches, last, p + 1)
  }

  /** `re.split(pattern, s)` (no capturing groups, no maxsplit). */
  function ReSplit(s: string, branches: seq<Branch>): seq<string> {
    SplitFrom(s, branches, 0, 0)
  }

  /** The pattern cuts nowhere in `[lo, hi)`. */
  predicate Quiet(branches: seq<Branch>, s: string, lo: nat, hi: nat)
    decreases hi - lo
  {
    lo >= hi || (!CutsAt(branches, s, lo) && Quiet(branches, s, lo + 1, hi))
  }

  /**
   * `s[q..]` reads `fields[0] seps[0] fields[1] ... fields[n]` where each
   * separator is exactly what the pattern matches at its place and the
   * pattern cuts nowhere inside a field.
   */
  predicate Layout(branches: seq<Branch>, s: string, q: nat, fields: seq<string>, seps: seq<string>)
    decreases |seps|
  {
    && |fields| == |seps| + 1
    && q + |fields[0]| <= |s|
    && s[q..q + |fields[0]|] == fields[0]
    && Quiet(branches, s, q, q + |fields[0]|)
    && var e := q + |fields[0]|;
    if seps == [] then e == |s|
    else
      && |seps[0]| > 0
      && e + |seps[0]| <= |s|
      && s[e..e + |seps[0]|] == seps[0]
      && FirstMatch(branches, s, e) == Some(|seps[0]|)
      && Layout(branches, s, e + |seps[0]|, fields[1..], seps[1..])
  }

  /** The pattern matches nothing where each of its branches fails. */
  lemma {:induction false} FirstMatchNone(branches: seq<Branch>, s: string, p: nat)
    requires forall k :: 0 <= k < |branches| ==> MatchAt(branches[k], s, p).None?
    ensures FirstMatch(branches, s, p).None?
  {
    if branches != [] {
      FirstMatchNone(branches[1..], s, p);
    }
  }

  /** The match at `p` is that of the first branch matching there. */
  lemma {:induction false} FirstMatchIs(branches: seq<Branch>, s: string, p: nat, k: nat)
    requires k < |branches| && MatchAt(branches[k], s, p).Some?
    requires forall j :: 0 <= j < k ==> MatchAt(branches[j], s, p).None?
    ensures FirstMatch(branches, s, p) == MatchAt(branches[k], s, p)
  {
    if k > 0 {
      FirstMatchIs(branches[1..], s, p, k - 1);
    }
  }

  /** A stretch where the pattern cuts at no index is quiet. */
  lemma {:induction false} QuietOf(branches: seq<Branch>, s: string, lo: nat, hi: nat)
    requires forall i :: lo <= i < hi ==> !CutsAt(branches, s, i)
    decreases hi - lo
    ensures Quiet(branches, s, lo, hi)
  {
    if lo < hi {
      QuietOf(branches, s, lo + 1, hi);
    }
  }

  /** Scanning over a stretch where nothing cuts changes nothing. */
  lemma {:induction false} SkipQuiet(s: string, branches: seq<Branch>, last: nat, p: nat, hi: nat)
    requires last <= p <= hi <= |s|
    requires Quiet(branches, s, p, hi)
    decreases hi - p
    ensures SplitFrom(s, branches, last, p) == SplitFrom(s, branches, last, hi)
  {
    if p < hi {
      SkipQuiet(s, branches, last, p + 1, hi);
    }
  }

  /** A quiet stretch can be extended by one index where nothing cuts. */
  lemma {:induction false} QuietExtend(branches: seq<Branch>, s: string, lo: nat, hi: nat)
    requires lo <= hi
    requires Quiet(branches, s, lo, hi) && !CutsAt(branches, s, hi)
    decreases hi - lo
    ensures Quiet(branches, s, lo, hi + 1)
  {
    if lo < hi {
      QuietExtend(branches, s, lo + 1, hi);
    }
  }

  /** Soundness: a layout of `s[q..]` is what the split returns. */
  lemma {:induction false} SplitOfLayout(branches: seq<Branch>, s: string, q: nat, fields: seq<string>, seps: seq<string>)
    requires Layout(branches, s, q, fields, seps)
    decreases |seps|
    ensures SplitFrom(s, branches, q, q) == fields
  {
    var e := q + |fields[0]|;
    SkipQuiet(s, branches, q, q, e);
    if seps == [] {
      assert SplitFrom(s, branches, q, e) == [s[q..]];
      assert s[q..] == fields[0];
    } else {
      var d := |seps[0]|;
      SplitOfLayout(branches, s, e + d, fields[1..], seps[1..]);
      assert SplitFrom(s, branches, q, e) == [s[q..e]] + SplitFrom(s, branches, e + d, e + d);
      assert fields == [fields[0]] + fields[1..];
    }
  }

  /** The last field of a layout. */
  lemma LayoutLast(branches: seq<Branch>, s: string, q: nat)
    requires q <= |s| && Quiet(branches, s, q, |s|)
    ensures Layout(branches, s, q, [s[q..]], [])
  {
  }

  /** A field, then a separator the pattern matches, then a layout of the rest. */
  lemma LayoutCons(branches: seq<Branch>, s: string, q: nat, p: nat, n: nat, fields: seq<string>, seps: seq<string>)
    requires q <= p && p + n <= |s| && n > 0
    requires Quiet(branches, s, q, p) && FirstMatch(branches, s, p) == Some(n)
    requires Layout(branches, s, p + n, fields, seps)
    ensures Layout(branches, s, q, [s[q..p]] + fields, [s[p..p + n]] + seps)
  {
    var fs, ds := [s[q..p]] + fields, [s[p..p + n]] + seps;
    assert fs[0] == s[q..p] && fs[1..] == fields;
    assert ds[0] == s[p..p + n] && ds[1..] == seps;
  }

  /**
   * Completeness: whatever the split returns, read with the texts the
   * pattern matched, is a layout of the string. With SplitOfLayout: the
   * split is the one list of fields that lays out `s`.
   */
  lemma {:induction false} LayoutOfSplit(s: string, branches: seq<Branch>, last: nat, p: nat)
    returns (seps: seq<string>)
    requires last <= p <= |s|
    requires Quiet(branches, s, last, p)
    decreases |s| - p
    ensures Layout(branches, s, last, SplitFrom(s, branches, last, p), seps)
  {
    if p == |s| {
      seps := [];
      LayoutLast(branches, s, last);
    } else if CutsAt(branches, s, p) {
      var n := FirstMatch(branches, s, p).value;
      var rest := LayoutOfSplit(s, branches, p + n, p + n);
      assert SplitFrom(s, branches, last, p) == [s[last..p]] + SplitFrom(s, branches, p + n, p + n);
      LayoutCons(branches, s, last, p, n, SplitFrom(s, branches, p + n, p + n), rest);
      seps := [s[p..p + n]] + rest;
    } else {
      QuietExtend(branches, s, last, p);
      assert SplitFrom(s, branches, last, p) == SplitFrom(s, branches, last, p + 1);
      seps := LayoutOfSplit(s, branches, last, p + 1);
    }
  }
}
