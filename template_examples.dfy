/**
 * Worked templates for `parseFileName`: the variable list the parser
 * builds for templates that hold `$ENTITY`, `$CHANNEL` and `$UDIM`, and
 * what the corrected ordering gives instead.
 */
module TemplateExamples {
  import opened Wrappers
  import opened PyStr
  import opened RegexSplit
  import opened Template

  // ---------------------------------------------------------------------
  // The insertion ignores the order of the template
  // ---------------------------------------------------------------------

  /** A template that starts with `$ENTITY` has no other variable at index 0 or 1. */
  lemma AfterEntity(t: string, v: string)
    requires IndexOf(t, Entity) == Some(0)
    requires v in MariVars && v != Entity && Contains(t, v)
    ensures IndexOf(t, v).value >= 2
  {
    var p := IndexOf(t, v).value;
    if p == 0 {
      SameStartSameVariable(t, 0, Entity, v);
    }
  }

  /**
   * When the template starts with `$ENTITY` and holds `$CHANNEL` and
   * `$UDIM` and no other variable, the parser's list is
   * [$ENTITY, $CHANNEL, $UDIM] wherever in the template the other two
   * stand: each index is past the end of the list built so far, so
   * `insert` appends.
   */
  lemma EntityChannelUdim(t: string)
    requires IndexOf(t, Entity) == Some(0) && Contains(t, Channel) && Contains(t, UdimVar)
    requires forall k :: 3 <= k < |MariVars| ==> !Contains(t, MariVars[k])
    ensures FoundVariables(t) == [Entity, Channel, UdimVar]
  {
    AfterEntity(t, Channel);
    AfterEntity(t, UdimVar);
    MariVarsAt();
    FoundFirst(t);
    FoundAppends(t, 2);
    FoundAppends(t, 3);
    FoundUnchanged(t, 3, |MariVars|);
    ThreeAppended(FoundUpTo(t, 1), FoundUpTo(t, 2), FoundUpTo(t, 3), Entity, Channel, UdimVar);
  }

  lemma FoundFirst(t: string)
    requires IndexOf(t, Entity) == Some(0)
    ensures FoundUpTo(t, 1) == [Entity]
  {
    FoundStep(t, 1);
    InsertPastEnd([], 0, Entity);
  }

  /** A variable whose index is past the end of the list so far is appended. */
  lemma FoundAppends(t: string, n: nat)
    requires 0 < n <= |MariVars| && Contains(t, MariVars[n - 1])
    requires IndexOf(t, MariVars[n - 1]).value >= |FoundUpTo(t, n - 1)|
    ensures FoundUpTo(t, n) == FoundUpTo(t, n - 1) + [MariVars[n - 1]]
  {
    FoundStep(t, n);
    InsertPastEnd(FoundUpTo(t, n - 1), IndexOf(t, MariVars[n - 1]).value, MariVars[n - 1]);
  }

  lemma MariVarsAt()
    ensures MariVars[0] == Entity && MariVars[1] == Channel && MariVars[2] == UdimVar
    ensures MariVars[3] == Layer && MariVars[4] == Frame && MariVars[5] == Number
    ensures MariVars[6] == Count && MariVars[7] == Metadata
  {
  }

  /**
   * A template without the characters 'R', 'F', 'B', 'O' and '[' holds
   * none of the other five variables: each of them has one of these.
   */
  lemma OthersAbsent(t: string)
    requires forall i :: 0 <= i < |t| ==> t[i] != 'R' && t[i] != 'F' && t[i] != 'B' && t[i] != 'O' && t[i] != '['
    ensures forall k :: 3 <= k < |MariVars| ==> !Contains(t, MariVars[k])
  {
    AbsentByChar(t, Layer, 5);
    AbsentByChar(t, Frame, 1);
    AbsentByChar(t, Number, 4);
    AbsentByChar(t, Count, 2);
    AbsentByChar(t, Metadata, 1);
    MariVarsAt();
  }

  /** An occurrence given as a slice. */
  lemma OccursHere(s: string, sub: string, i: nat)
    requires i + |sub| <= |s| && s[i..i + |sub|] == sub
    ensures OccursAt(s, sub, i)
  {
    OccursAtIff(s, sub, i);
  }

  lemma ThreeAppended(f1: seq<string>, f2: seq<string>, f3: seq<string>, x: string, y: string, z: string)
    requires f1 == [x] && f2 == f1 + [y] && f3 == f2 + [z]
    ensures f3 == [x, y, z]
  {
  }

  /** One step of the parser's first loop. */
  lemma FoundStep(t: string, n: nat)
    requires 0 < n <= |MariVars|
    ensures var v := MariVars[n - 1];
      FoundUpTo(t, n) == if Contains(t, v) then Insert(FoundUpTo(t, n - 1), IndexOf(t, v).value, v) else FoundUpTo(t, n - 1)
  {
  }

  /** Variables the template does not hold leave the list as it is. */
  lemma {:induction false} FoundUnchanged(t: string, n: nat, m: nat)
    requires n <= m <= |MariVars|
    requires forall k :: n <= k < m ==> !Contains(t, MariVars[k])
    decreases m - n
    ensures FoundUpTo(t, m) == FoundUpTo(t, n)
  {
    if n < m {
      FoundUnchanged(t, n, m - 1);
    }
  }

  /** `insert` past the end of a list appends. */
  lemma InsertPastEnd(xs: seq<string>, i: nat, x: string)
    requires i >= |xs|
    ensures Insert(xs, i, x) == xs + [x]
  {
  }

  // ---------------------------------------------------------------------
  // `$ENTITY_$UDIM_$CHANNEL`: the list is out of template order
  // ---------------------------------------------------------------------

  lemma UdimLastIndices(t: string)
    requires t == "$ENTITY_$UDIM_$CHANNEL"
    ensures IndexOf(t, Entity) == Some(0) && IndexOf(t, UdimVar) == Some(8) && IndexOf(t, Channel) == Some(14)
  {
    UdimLastEntity(t);
    UdimLastUdim(t);
    UdimLastChannel(t);
  }

  lemma UdimLastEntity(t: string)
    requires t == "$ENTITY_$UDIM_$CHANNEL"
    ensures IndexOf(t, Entity) == Some(0)
  {
    assert t[0..7] == Entity;
    OccursHere(t, Entity, 0);
    IndexOfFirst(t, Entity, 0);
  }

  lemma UdimLastUdim(t: string)
    requires t == "$ENTITY_$UDIM_$CHANNEL"
    ensures IndexOf(t, UdimVar) == Some(8)
  {
    assert t[8..13] == UdimVar;
    OccursHere(t, UdimVar, 8);
    assert 'U' !in t[1..9];
    IndexOfAfterGap(t, UdimVar, 8, 1);
  }

  lemma UdimLastChannel(t: string)
    requires t == "$ENTITY_$UDIM_$CHANNEL"
    ensures IndexOf(t, Channel) == Some(14)
  {
    assert t[14..22] == Channel;
    OccursHere(t, Channel, 14);
    assert 'C' !in t[1..15];
    IndexOfAfterGap(t, Channel, 14, 1);
  }

  lemma UdimLastChars(t: string)
    requires t == "$ENTITY_$UDIM_$CHANNEL"
    ensures forall i :: 0 <= i < |t| ==> t[i] != 'R' && t[i] != 'F' && t[i] != 'B' && t[i] != 'O' && t[i] != '['
  {
  }

  /**
   * For the template `$ENTITY_$UDIM_$CHANNEL` the parser's list is
   * [$ENTITY, $CHANNEL, $UDIM], which is not the template's order:
   * `$CHANNEL` (index 14) is listed before `$UDIM` (index 8), so the second
   * field of a file name goes to `$CHANNEL` and the third to `$UDIM`.
   */
  lemma UdimBeforeChannel(t: string)
    requires t == "$ENTITY_$UDIM_$CHANNEL"
    ensures FoundVariables(t) == [Entity, Channel, UdimVar]
    ensures Position(t, UdimVar) == 8 && Position(t, Channel) == 14
    ensures !InTemplateOrder(t, FoundVariables(t))
  {
    UdimLastIndices(t);
    UdimLastChars(t);
    OthersAbsent(t);
    EntityChannelUdim(t);
    var found := FoundVariables(t);
    assert PositionKey(t)(found[1]) == 14 && PositionKey(t)(found[2]) == 8;
  }

  /** The corrected list for the same template follows the template: [$ENTITY, $UDIM, $CHANNEL]. */
  lemma UdimBeforeChannelCorrected(t: string)
    requires t == "$ENTITY_$UDIM_$CHANNEL"
    ensures TemplateOrder(t) == [Entity, UdimVar, Channel]
  {
    UdimLastIndices(t);
    UdimLastChars(t);
    OthersAbsent(t);
    EntityUdimChannelOrdered(t);
  }

  /**
   * When the template starts with `$ENTITY`, has `$UDIM` before `$CHANNEL`
   * and no other variable, the corrected list is [$ENTITY, $UDIM, $CHANNEL].
   */
  lemma EntityUdimChannelOrdered(t: string)
    requires IndexOf(t, Entity) == Some(0) && Contains(t, UdimVar) && Contains(t, Channel)
    requires IndexOf(t, UdimVar).value < IndexOf(t, Channel).value
    requires forall k :: 3 <= k < |MariVars| ==> !Contains(t, MariVars[k])
    ensures TemplateOrder(t) == [Entity, UdimVar, Channel]
  {
    MariVarsAt();
    AfterEntity(t, UdimVar);
    var key := PositionKey(t);
    OrderedFirst(t);
    CountBelowOne(Entity, key, Position(t, Channel));
    OrderedAt(t, 2, [Entity], 1);
    InsertAtOne([Entity], Channel);
    CountBelowTwo(Entity, Channel, key, Position(t, UdimVar));
    OrderedAt(t, 3, [Entity, Channel], 1);
    InsertAtOne([Entity, Channel], UdimVar);
    OrderedUnchanged(t, 3, |MariVars|);
  }

  lemma CountBelowOne(a: string, key: string -> nat, p: nat)
    requires key(a) < p
    ensures CountBelow([a], key, p) == 1
  {
    assert [a][1..] == [];
  }

  lemma CountBelowTwo(a: string, b: string, key: string -> nat, p: nat)
    requires key(a) < p <= key(b)
    ensures CountBelow([a, b], key, p) == 1
  {
    assert [a, b][1..] == [b];
    assert [b][1..] == [];
  }

  lemma OrderedFirst(t: string)
    requires Contains(t, Entity)
    ensures OrderedUpTo(t, 1) == [Entity]
  {
    MariVarsAt();
    InsertPastEnd([], CountBelow([], PositionKey(t), Position(t, Entity)), Entity);
  }

  /** A step of the corrected loop that inserts the variable at rank `c`. */
  lemma OrderedAt(t: string, n: nat, xs: seq<string>, c: nat)
    requires 0 < n <= |MariVars| && Contains(t, MariVars[n - 1])
    requires OrderedUpTo(t, n - 1) == xs
    requires CountBelow(xs, PositionKey(t), Position(t, MariVars[n - 1])) == c
    ensures OrderedUpTo(t, n) == Insert(xs, c, MariVars[n - 1])
  {
  }

  /** Variables the template does not hold leave the corrected list as it is. */
  lemma {:induction false} OrderedUnchanged(t: string, n: nat, m: nat)
    requires n <= m <= |MariVars|
    requires forall k :: n <= k < m ==> !Contains(t, MariVars[k])
    decreases m - n
    ensures OrderedUpTo(t, m) == OrderedUpTo(t, n)
  {
    if n < m {
      OrderedUnchanged(t, n, m - 1);
    }
  }

  lemma InsertAtOne(xs: seq<string>, x: string)
    requires 1 <= |xs| <= 2
    ensures |xs| == 1 ==> Insert(xs, 1, x) == [xs[0], x]
    ensures |xs| == 2 ==> Insert(xs, 1, x) == [xs[0], x, xs[1]]
  {
  }

  // ---------------------------------------------------------------------
  // `$ENTITY-$CHANNEL.$UDIM`: splitting the template
  // ---------------------------------------------------------------------

  lemma PatternAt()
    ensures |VariablePattern| == 8
    ensures forall j :: 0 <= j < 7 ==> VariablePattern[j] == Literal(MariVars[j])
  {
  }

  lemma MariVarsDistinct()
    ensures Distinct(MariVars)
  {
  }

  /**
   * Where one of the first seven variables occurs, the token pattern
   * matches exactly that variable: no branch before it can match there.
   */
  lemma VariableMatch(s: string, p: nat, k: nat)
    requires k < 7 && OccursAt(s, MariVars[k], p)
    ensures FirstMatch(VariablePattern, s, p) == Some(|MariVars[k]|)
  {
    PatternAt();
    MariVarsDistinct();
    forall j | 0 <= j < k ensures MatchAt(VariablePattern[j], s, p).None? {
      if OccursAt(s, MariVars[j], p) {
        SameStartSameVariable(s, p, MariVars[j], MariVars[k]);
      }
    }
    FirstMatchIs(VariablePattern, s, p, k);
  }

  /** Where the template has no '$', the token pattern cuts nowhere. */
  lemma QuietWithoutDollar(s: string, lo: nat, hi: nat)
    requires lo <= hi <= |s|
    requires forall i :: lo <= i < hi ==> s[i] != '$'
    ensures Quiet(VariablePattern, s, lo, hi)
  {
    forall i | lo <= i < hi ensures !CutsAt(VariablePattern, s, i) {
      if CutsAt(VariablePattern, s, i) {
        CutsOnlyAtDollar(s, i);
      }
    }
    QuietOf(VariablePattern, s, lo, hi);
  }

  /**
   * The split of a text made of three matches of lengths `n0`, `n1` and
   * `n2` with one character between each two where the pattern does not
   * cut: the outer pieces are empty and the two inner ones are the
   * separating characters.
   */
  lemma SplitThree(s: string, b: seq<Branch>, n0: nat, n1: nat, n2: nat)
    requires |s| == n0 + n1 + n2 + 2 && n0 > 0 && n1 > 0 && n2 > 0
    requires !CutsAt(b, s, n0) && !CutsAt(b, s, n0 + n1 + 1)
    requires FirstMatch(b, s, 0) == Some(n0)
    requires FirstMatch(b, s, n0 + 1) == Some(n1)
    requires FirstMatch(b, s, n0 + n1 + 2) == Some(n2)
    ensures ReSplit(s, b) == ["", [s[n0]], [s[n0 + n1 + 1]], ""]
  {
    var p1, p2 := n0 + 1, n0 + n1 + 2;
    SplitTail(s, b, |s|);
    var r2 := SplitCut(s, b, p2 - 1, p2, n2, [s[|s|..]]);
    var r1 := SplitCut(s, b, n0, p1, n1, r2);
    var r0 := SplitCut(s, b, 0, 0, n0, r1);
    SeparatorPieces(s, n0, p2 - 1);
  }

  /** The token pattern does not cut where the text has no '$'. */
  lemma NoCutWithoutDollar(s: string, p: nat)
    requires p < |s| && s[p] != '$'
    ensures !CutsAt(VariablePattern, s, p)
  {
    if CutsAt(VariablePattern, s, p) {
      CutsOnlyAtDollar(s, p);
    }
  }

  lemma SeparatorPieces(s: string, i: nat, j: nat)
    requires i < j < |s|
    ensures s[0..0] == "" && s[|s|..] == ""
    ensures s[i..i + 1] == [s[i]] && s[j..j + 1] == [s[j]]
  {
  }

  /** The split of a quiet tail is the tail. */
  lemma SplitTail(s: string, b: seq<Branch>, q: nat)
    requires q <= |s| && Quiet(b, s, q, |s|)
    ensures SplitFrom(s, b, q, q) == [s[q..]]
  {
    SkipQuiet(s, b, q, q, |s|);
  }

  /**
   * A quiet field from `last` to `p`, a match of length `n` at `p`, and
   * whatever the split gives after the match.
   */
  lemma SplitCut(s: string, b: seq<Branch>, last: nat, p: nat, n: nat, rest: seq<string>)
    returns (r: seq<string>)
    requires last <= p < |s| && n > 0
    requires Quiet(b, s, last, p) && FirstMatch(b, s, p) == Some(n)
    requires SplitFrom(s, b, p + n, p + n) == rest
    ensures r == [s[last..p]] + rest && SplitFrom(s, b, last, last) == r
  {
    SkipQuiet(s, b, last, last, p);
    r := [s[last..p]] + rest;
  }

  // ---------------------------------------------------------------------
  // `Hero-diffuse.1002`: splitting the file name
  // ---------------------------------------------------------------------

  /** The pattern `\-|\.` matches one character exactly where the text holds either. */
  lemma TwoCharPattern(a: char, c: char, s: string, p: nat)
    ensures FirstMatch([Literal([a]), Literal([c])], s, p) ==
      if p < |s| && (s[p] == a || s[p] == c) then Some(1) else None
  {
    OccursAtIff(s, [a], p);
    OccursAtIff(s, [c], p);
    var b := [Literal([a]), Literal([c])];
    if p < |s| {
      assert s[p..p + 1] == [s[p]];
    }
    assert MatchAt(Literal([a]), s, p) == if p < |s| && s[p] == a then Some(1) else None;
    assert MatchAt(Literal([c]), s, p) == if p < |s| && s[p] == c then Some(1) else None;
    if p < |s| && s[p] == a {
      FirstMatchIs(b, s, p, 0);
    } else if p < |s| && s[p] == c {
      FirstMatchIs(b, s, p, 1);
    } else {
      FirstMatchNone(b, s, p);
    }
  }

  /**
   * The split of a text cut at exactly two indices `i` and `j`, each by a
   * one-character match: the three stretches around the two cuts.
   */
  lemma SplitTwice(s: string, b: seq<Branch>, i: nat, j: nat)
    requires i < j < |s|
    requires FirstMatch(b, s, i) == Some(1) && FirstMatch(b, s, j) == Some(1)
    requires Quiet(b, s, 0, i) && Quiet(b, s, i + 1, j) && Quiet(b, s, j + 1, |s|)
    ensures ReSplit(s, b) == [s[..i], s[i + 1..j], s[j + 1..]]
  {
    SplitTail(s, b, j + 1);
    var r1 := SplitCut(s, b, i + 1, j, 1, [s[j + 1..]]);
    var r0 := SplitCut(s, b, 0, i, 1, r1);
    assert s[0..i] == s[..i];
  }

  /** A stretch holding neither character is quiet for the pattern `\-|\.`. */
  lemma QuietTwoChar(a: char, c: char, s: string, lo: nat, hi: nat)
    requires lo <= hi <= |s|
    requires forall k :: lo <= k < hi ==> s[k] != a && s[k] != c
    ensures Quiet([Literal([a]), Literal([c])], s, lo, hi)
  {
    forall k | lo <= k < hi ensures !CutsAt([Literal([a]), Literal([c])], s, k) {
      TwoCharPattern(a, c, s, k);
    }
    QuietOf([Literal([a]), Literal([c])], s, lo, hi);
  }

  // ---------------------------------------------------------------------
  // Whole examples
  // ---------------------------------------------------------------------

  /**
   * A template of three of the first seven variables with one character
   * (not '$') between each two has those two characters as delimiters.
   */
  lemma ThreeVariableTemplate(t: string, k0: nat, k1: nat, k2: nat)
    requires k0 < 7 && k1 < 7 && k2 < 7
    requires var n0, n1, n2 := |MariVars[k0]|, |MariVars[k1]|, |MariVars[k2]|;
      && |t| == n0 + n1 + n2 + 2
      && OccursAt(t, MariVars[k0], 0) && OccursAt(t, MariVars[k1], n0 + 1) && OccursAt(t, MariVars[k2], n0 + n1 + 2)
      && t[n0] != '$' && t[n0 + n1 + 1] != '$'
    ensures var n0, n1 := |MariVars[k0]|, |MariVars[k1]|;
      Delimiters(t) == [[t[n0]], [t[n0 + n1 + 1]]]
  {
    var n0, n1, n2 := |MariVars[k0]|, |MariVars[k1]|, |MariVars[k2]|;
    MariVarsAt();
    VariableMatch(t, 0, k0);
    VariableMatch(t, n0 + 1, k1);
    VariableMatch(t, n0 + n1 + 2, k2);
    NoCutWithoutDollar(t, n0);
    NoCutWithoutDollar(t, n0 + n1 + 1);
    SplitThree(t, VariablePattern, n0, n1, n2);
    NonEmptyOfFour("", [t[n0]], [t[n0 + n1 + 1]], "");
  }

  lemma NonEmptyOfFour(a: string, b: string, c: string, d: string)
    requires a == "" && b != "" && c != "" && d == ""
    ensures NonEmpty([a, b, c, d]) == [b, c]
  {
    assert [d][1..] == [];
    assert NonEmpty([d]) == [];
    assert [c, d][1..] == [d];
    assert NonEmpty([c, d]) == [c];
    assert [b, c, d][1..] == [c, d];
    assert NonEmpty([b, c, d]) == [b, c];
    assert [a, b, c, d][1..] == [b, c, d];
  }

  lemma NonEmptyOfThree(a: string, b: string, c: string)
    requires a != "" && b != "" && c != ""
    ensures NonEmpty([a, b, c]) == [a, b, c]
  {
    assert [c][1..] == [];
    assert NonEmpty([c]) == [c];
    assert [b, c][1..] == [c];
    assert NonEmpty([b, c]) == [b, c];
    assert [a, b, c][1..] == [b, c];
  }

  /** Two one-character delimiters give the pattern of two one-character branches. */
  lemma TwoCharDelimiters(a: char, c: char)
    requires a != '|' && c != '|'
    ensures DelimiterPattern([[a], [c]]) == [Literal([a]), Literal([c])]
  {
    DelimiterPatternOfPlain([[a], [c]]);
  }

  /**
   * A file name cut at exactly two indices by the delimiters `a` and `c`
   * has the three stretches around them as its fields, when none is empty.
   */
  lemma FieldsOfTwoCuts(t: string, fileName: string, a: char, c: char, i: nat, j: nat)
    requires Delimiters(t) == [[a], [c]] && a != '|' && c != '|'
    requires 0 < i && i + 1 < j && j + 1 < |fileName|
    requires fileName[i] in {a, c} && fileName[j] in {a, c}
    requires forall k :: 0 <= k < |fileName| && k != i && k != j ==> fileName[k] != a && fileName[k] != c
    ensures Fields(t, fileName) == [fileName[..i], fileName[i + 1..j], fileName[j + 1..]]
  {
    TwoCharDelimiters(a, c);
    var b := [Literal([a]), Literal([c])];
    TwoCharPattern(a, c, fileName, i);
    TwoCharPattern(a, c, fileName, j);
    QuietTwoChar(a, c, fileName, 0, i);
    QuietTwoChar(a, c, fileName, i + 1, j);
    QuietTwoChar(a, c, fileName, j + 1, |fileName|);
    SplitTwice(fileName, b, i, j);
    NonEmptyOfThree(fileName[..i], fileName[i + 1..j], fileName[j + 1..]);
  }

  /** Three distinct variables and three fields make a three-entry dictionary. */
  lemma BindListOfThree(u: string, v: string, w: string, fields: seq<string>)
    requires u != v && v != w && u != w && |fields| == 3
    ensures BindList([u, v, w], fields) == Success(map[u := fields[0], v := fields[1], w := fields[2]])
  {
    var found := [u, v, w];
    assert ListIndex(found, u) == Some(0);
    assert ListIndex(found, v) == Some(1);
    assert ListIndex(found, w) == Some(2);
    var m := BindList(found, fields).value;
    var e := map[u := fields[0], v := fields[1], w := fields[2]];
    assert m.Keys == {u, v, w} == e.Keys;
    assert m[u] == e[u] && m[v] == e[v] && m[w] == e[w];
    assert m == e;
  }

  lemma VariablesDiffer()
    ensures Entity != Channel && Channel != UdimVar && Entity != UdimVar
  {
  }

  // The template of the parser's documentation, `$ENTITY-$CHANNEL.$UDIM`.

  lemma DocEntity(t: string)
    requires t == "$ENTITY-$CHANNEL.$UDIM"
    ensures IndexOf(t, Entity) == Some(0)
  {
    assert t[0..7] == Entity;
    OccursHere(t, Entity, 0);
    IndexOfFirst(t, Entity, 0);
  }

  lemma DocChannel(t: string)
    requires t == "$ENTITY-$CHANNEL.$UDIM"
    ensures IndexOf(t, Channel) == Some(8)
  {
    assert t[8..16] == Channel;
    OccursHere(t, Channel, 8);
    assert 'C' !in t[1..9];
    IndexOfAfterGap(t, Channel, 8, 1);
  }

  lemma DocUdim(t: string)
    requires t == "$ENTITY-$CHANNEL.$UDIM"
    ensures IndexOf(t, UdimVar) == Some(17)
  {
    assert t[17..22] == UdimVar;
    OccursHere(t, UdimVar, 17);
    assert 'U' !in t[1..18];
    IndexOfAfterGap(t, UdimVar, 17, 1);
  }

  lemma DocShape(t: string)
    requires t == "$ENTITY-$CHANNEL.$UDIM"
    ensures |t| == 22 && t[7] == '-' && t[16] == '.'
    ensures forall i :: 0 <= i < |t| ==> t[i] != 'R' && t[i] != 'F' && t[i] != 'B' && t[i] != 'O' && t[i] != '['
  {
  }

  /** The parser's list and delimiters for `$ENTITY-$CHANNEL.$UDIM`. */
  lemma DocTemplate(t: string)
    requires t == "$ENTITY-$CHANNEL.$UDIM"
    ensures FoundVariables(t) == [Entity, Channel, UdimVar]
    ensures Delimiters(t) == ["-", "."]
  {
    DocEntity(t);
    DocChannel(t);
    DocUdim(t);
    DocShape(t);
    DocTemplateOfFacts(t);
  }

  lemma DocTemplateOfFacts(t: string)
    requires IndexOf(t, Entity) == Some(0) && IndexOf(t, Channel) == Some(8) && IndexOf(t, UdimVar) == Some(17)
    requires |t| == 22 && t[7] == '-' && t[16] == '.'
    requires forall i :: 0 <= i < |t| ==> t[i] != 'R' && t[i] != 'F' && t[i] != 'B' && t[i] != 'O' && t[i] != '['
    ensures FoundVariables(t) == [Entity, Channel, UdimVar]
    ensures Delimiters(t) == ["-", "."]
  {
    OthersAbsent(t);
    EntityChannelUdim(t);
    MariVarsAt();
    ThreeVariableTemplate(t, 0, 1, 2);
  }

  lemma DocFileName(f: string)
    requires f == "Hero-diffuse.1002"
    ensures |f| == 17 && f[4] == '-' && f[12] == '.'
    ensures forall k :: 0 <= k < |f| && k != 4 && k != 12 ==> f[k] != '-' && f[k] != '.'
    ensures f[..4] == "Hero" && f[5..12] == "diffuse" && f[13..] == "1002"
  {
  }

  /**
   * The example of the parser's documentation: with the template
   * `$ENTITY-$CHANNEL.$UDIM`, the name `Hero-diffuse.1002` gives
   * {$ENTITY: Hero, $CHANNEL: diffuse, $UDIM: 1002}.
   */
  lemma DocExample(t: string, f: string)
    requires t == "$ENTITY-$CHANNEL.$UDIM" && f == "Hero-diffuse.1002"
    ensures Binding(t, f) == Success(map[Entity := "Hero", Channel := "diffuse", UdimVar := "1002"])
  {
    DocTemplate(t);
    DocFileName(f);
    FieldsOfTwoCuts(t, f, '-', '.', 4, 12);
    VariablesDiffer();
    BindListOfThree(Entity, Channel, UdimVar, Fields(t, f));
  }

  // The template `$ENTITY_$UDIM_$CHANNEL`, where the parser's order is not the template's.

  lemma UdimLastShape(t: string)
    requires t == "$ENTITY_$UDIM_$CHANNEL"
    ensures |t| == 22 && t[7] == '_' && t[13] == '_'
  {
  }

  /** The delimiters of `$ENTITY_$UDIM_$CHANNEL` are the two underscores. */
  lemma UdimLastDelimiters(t: string)
    requires t == "$ENTITY_$UDIM_$CHANNEL"
    ensures Delimiters(t) == ["_", "_"]
  {
    UdimLastIndices(t);
    UdimLastShape(t);
    UdimLastDelimitersOfFacts(t);
  }

  lemma UdimLastDelimitersOfFacts(t: string)
    requires IndexOf(t, Entity) == Some(0) && IndexOf(t, UdimVar) == Some(8) && IndexOf(t, Channel) == Some(14)
    requires |t| == 22 && t[7] == '_' && t[13] == '_'
    ensures Delimiters(t) == ["_", "_"]
  {
    MariVarsAt();
    ThreeVariableTemplate(t, 0, 2, 1);
  }

  lemma UdimLastFileName(f: string)
    requires f == "Hero_1001_diffuse"
    ensures |f| == 17 && f[4] == '_' && f[9] == '_'
    ensures forall k :: 0 <= k < |f| && k != 4 && k != 9 ==> f[k] != '_'
    ensures f[..4] == "Hero" && f[5..9] == "1001" && f[10..] == "diffuse"
  {
  }

  lemma UdimLastFields(t: string, f: string)
    requires t == "$ENTITY_$UDIM_$CHANNEL" && f == "Hero_1001_diffuse"
    ensures Fields(t, f) == ["Hero", "1001", "diffuse"]
  {
    UdimLastDelimiters(t);
    UdimLastFileName(f);
    FieldsOfTwoCuts(t, f, '_', '_', 4, 9);
  }

  /**
   * With the template `$ENTITY_$UDIM_$CHANNEL`, the name
   * `Hero_1001_diffuse` binds `$CHANNEL` to the tile number 1001 and
   * `$UDIM` to `diffuse`.
   */
  lemma UdimLastExample(t: string, f: string)
    requires t == "$ENTITY_$UDIM_$CHANNEL" && f == "Hero_1001_diffuse"
    ensures Binding(t, f) == Success(map[Entity := "Hero", Channel := "1001", UdimVar := "diffuse"])
  {
    UdimBeforeChannel(t);
    UdimLastFields(t, f);
    VariablesDiffer();
    BindListOfThree(Entity, Channel, UdimVar, Fields(t, f));
  }

  /** The corrected binding of the same name gives `$UDIM` the tile number 1001. */
  lemma UdimLastExampleCorrected(t: string, f: string)
    requires t == "$ENTITY_$UDIM_$CHANNEL" && f == "Hero_1001_diffuse"
    ensures CorrectedBinding(t, f) == Success(map[Entity := "Hero", UdimVar := "1001", Channel := "diffuse"])
  {
    UdimBeforeChannelCorrected(t);
    UdimLastFields(t, f);
    VariablesDiffer();
    BindListOfThree(Entity, UdimVar, Channel, Fields(t, f));
  }
}
