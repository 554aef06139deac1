/**
 * `parseFileName`: reads the values of MARI's filename variables out of a
 * texture file name, given the user's filename template such as
 * `$ENTITY-$CHANNEL.$UDIM`.
 *
 * 1. Every MARI variable that occurs in the template is put into a list
 *    with `list.insert(template.index(var), var)`.
 * 2. The template is split on the variables; its non-empty pieces are the
 *    delimiters.
 * 3. The file name is split on any of the delimiters; empty fields are
 *    dropped.
 * 4. The k-th variable of the list gets the k-th field.
 */
module Template {
  import opened Wrappers
  import opened PyStr
  import opened RegexSplit

  const Entity: string := "$ENTITY"
  const Channel: string := "$CHANNEL"
  const UdimVar: string := "$UDIM"
  const Layer: string := "$LAYER"
  const Frame: string := "$FRAME"
  const Number: string := "$NUMBER"
  const Count: string := "$COUNT"
  const Metadata: string := "$[METADATA VALUE]"

  /** `MARI_vars`, in the order the parser visits them. */
  const MariVars: seq<string> := [Entity, Channel, UdimVar, Layer, Frame, Number, Count, Metadata]

  /**
   * The pattern `"\\" + "|\\".join(MARI_vars)`. Its last branch,
   * `\$[METADATA VALUE]`, is not the literal variable: the brackets make a
   * character class, so it matches '$' followed by one of those letters
   * or a space.
   */
  const VariablePattern: seq<Branch> := [
    Literal(Entity), Literal(Channel), Literal(UdimVar), Literal(Layer),
    Literal(Frame), Literal(Number), Literal(Count),
    DollarThenOneOf({'M', 'E', 'T', 'A', 'D', ' ', 'V', 'L', 'U'})
  ]

  /** The error `parseFileName` raises: an IndexError on the field of this variable. */
  datatype ParseError = MissingField(variable: string)

  // ---------------------------------------------------------------------
  // Step 1: the variables found in the template
  // ---------------------------------------------------------------------

  /** `foundMARI_vars` once the loop has visited the first `n` variables. */
  function FoundUpTo(template: string, n: nat): seq<string>
    requires n <= |MariVars|
  {
    if n == 0 then []
    else
      var found := FoundUpTo(template, n - 1);
      var v := MariVars[n - 1];
      if Contains(template, v) then Insert(found, IndexOf(template, v).value, v) else found
  }

  /** `foundMARI_vars` after the loop. */
  function FoundVariables(template: string): seq<string> {
    FoundUpTo(template, |MariVars|)
  }

  /** Inserting a new element keeps a list free of repeats. */
  lemma InsertDistinct(xs: seq<string>, i: nat, x: string)
    requires Distinct(xs) && x !in xs
    ensures Distinct(Insert(xs, i, x))
  {
    var j := if i <= |xs| then i else |xs|;
    var r := Insert(xs, i, x);
    assert r == xs[..j] + [x] + xs[j..];
    forall a, b | 0 <= a < b < |r| ensures r[a] != r[b] {
      if a < j && b == j {
        assert r[a] == xs[a];
      } else if a == j {
        assert r[b] == xs[b - 1];
      } else if a < j && b > j {
        assert r[a] == xs[a] && r[b] == xs[b - 1];
      } else if a > j {
        assert r[a] == xs[a - 1] && r[b] == xs[b - 1];
      }
    }
  }

  /** The variable the loop visits n-th is new among those visited before it. */
  lemma MariVarsStep(n: nat)
    requires 0 < n <= |MariVars|
    ensures MariVars[..n] == MariVars[..n - 1] + [MariVars[n - 1]]
    ensures MariVars[n - 1] !in MariVars[..n - 1]
  {
    assert MariVars[..n] == MariVars[..n - 1] + [MariVars[n - 1]];
  }

  /**
   * One step of either variable loop: a variable not visited before is
   * inserted (anywhere) when the template holds it.
   */
  lemma ContentsStep(template: string, xs: seq<string>, visited: seq<string>, v: string, i: nat)
    requires Distinct(xs) && v !in visited
    requires forall w :: w in xs <==> w in visited && Contains(template, w)
    ensures var r := if Contains(template, v) then Insert(xs, i, v) else xs;
      && Distinct(r)
      && forall w :: w in r <==> w in visited + [v] && Contains(template, w)
  {
    if Contains(template, v) {
      InsertDistinct(xs, i, v);
      var r := Insert(xs, i, v);
      forall w ensures w in r <==> w in xs || w == v {
        assert w in r <==> w in multiset(r);
      }
    }
  }

  /**
   * The list holds, once each, exactly the visited variables that occur in
   * the template.
   */
  lemma {:induction false} FoundUpToContents(template: string, n: nat)
    requires n <= |MariVars|
    ensures Distinct(FoundUpTo(template, n))
    ensures forall v :: v in FoundUpTo(template, n) <==> v in MariVars[..n] && Contains(template, v)
    ensures |FoundUpTo(template, n)| <= n
  {
    if n > 0 {
      FoundUpToContents(template, n - 1);
      MariVarsStep(n);
      var v := MariVars[n - 1];
      ContentsStep(template, FoundUpTo(template, n - 1), MariVars[..n - 1], v, if Contains(template, v) then IndexOf(template, v).value else 0);
    }
  }

  /**
   * The variables the parser finds are exactly the MARI variables that
   * occur in the template, each once, so there are at most eight.
   */
  lemma FoundVariablesExact(template: string)
    ensures Distinct(FoundVariables(template))
    ensures forall v :: v in FoundVariables(template) <==> v in MariVars && Contains(template, v)
    ensures |FoundVariables(template)| <= |MariVars|
  {
    FoundUpToContents(template, |MariVars|);
    assert MariVars[..|MariVars|] == MariVars;
  }

  // ---------------------------------------------------------------------
  // Steps 2 and 3: delimiters and fields
  // ---------------------------------------------------------------------

  /** `d`: the non-empty pieces of the template between variables. */
  function Delimiters(template: string): (d: seq<string>)
    ensures forall k :: 0 <= k < |d| ==> d[k] != ""
  {
    NonEmpty(ReSplit(template, VariablePattern))
  }

  /**
   * The pattern `re.escape("|".join(d)).replace('\\|', '|')`. Escaping makes
   * every character literal; the only `\|` left to unescape are the
   * escaped bars, so each '|' (a joining one, or one inside a delimiter)
   * separates two literal branches. With no delimiters the pattern is
   * empty: a single branch matching the empty text.
   */
  function DelimiterPattern(delimiters: seq<string>): (p: seq<Branch>)
    ensures |p| >= 1
    ensures forall k :: 0 <= k < |p| ==> p[k].Literal?
  {
    var pieces := Split(Join(delimiters, '|'), '|');
    seq(|pieces|, k requires 0 <= k < |pieces| => Literal(pieces[k]))
  }

  /** `filter(None, re.split(pattern, fileName))`: the fields of the file name. */
  function Fields(template: string, fileName: string): (fields: seq<string>)
    ensures forall k :: 0 <= k < |fields| ==> fields[k] != ""
  {
    NonEmpty(ReSplit(fileName, DelimiterPattern(Delimiters(template))))
  }

  // ---------------------------------------------------------------------
  // Step 4: pairing variables with fields
  // ---------------------------------------------------------------------

  /**
   * What `parseFileName` returns: each found variable mapped to the field
   * at its position in the list (`fileName[foundMARI_vars.index(var)]`), or
   * the IndexError raised for the first variable left without a field.
   */
  function Binding(template: string, fileName: string): Result<map<string, string>, ParseError> {
    BindList(FoundVariables(template), Fields(template, fileName))
  }

  /** Each variable of `found` mapped to the field at its first index in `found`. */
  function BindList(found: seq<string>, fields: seq<string>): Result<map<string, string>, ParseError> {
    if |fields| < |found| then Failure(MissingField(found[|fields|]))
    else Success(map v | v in found :: fields[ListIndex(found, v).value])
  }

  /**
   * For a list without repeats: success exactly when there are enough
   * fields, the keys are the list's variables and the k-th variable gets
   * the k-th field; otherwise the error names the first variable without
   * a field.
   */
  lemma BindListMeaning(found: seq<string>, fields: seq<string>)
    requires Distinct(found)
    ensures BindList(found, fields).Success? <==> |found| <= |fields|
    ensures BindList(found, fields).Failure? ==> BindList(found, fields).error == MissingField(found[|fields|])
    ensures BindList(found, fields).Success? ==>
      var m := BindList(found, fields).value;
      && (forall v :: v in m <==> v in found)
      && (forall k :: 0 <= k < |found| ==> m[found[k]] == fields[k])
  {
    if |found| <= |fields| {
      var m := BindList(found, fields).value;
      forall k | 0 <= k < |found| ensures found[k] in m && m[found[k]] == fields[k] {
        IndexInDistinct(found, k);
      }
    }
  }

  /** The dictionary once the variables `found[..k]` have been given their fields. */
  function BindPrefix(found: seq<string>, fields: seq<string>, k: nat): map<string, string>
    requires k <= |found| && k <= |fields|
  {
    map v | v in found[..k] :: fields[ListIndex(found, v).value]
  }

  /** Giving the next variable of a repeat-free list its field extends the dictionary by that entry. */
  lemma BindPrefixStep(found: seq<string>, fields: seq<string>, k: nat)
    requires Distinct(found) && k < |found| && k < |fields|
    ensures ListIndex(found, found[k]) == Some(k)
    ensures BindPrefix(found, fields, k + 1) == BindPrefix(found, fields, k)[found[k] := fields[k]]
  {
    IndexInDistinct(found, k);
    PrefixStep(found, k);
  }

  /** The first `k + 1` elements are the first `k` and one more. */
  lemma PrefixStep(xs: seq<string>, k: nat)
    requires k < |xs|
    ensures forall v :: v in xs[..k + 1] <==> v in xs[..k] || v == xs[k]
  {
    assert xs[..k + 1] == xs[..k] + [xs[k]];
  }

  /** In a list without repeats, each element's first index is its only one. */
  lemma IndexInDistinct(xs: seq<string>, k: nat)
    requires Distinct(xs) && k < |xs|
    ensures ListIndex(xs, xs[k]) == Some(k)
  {
    assert xs[k] in xs;
  }

  /**
   * parseFileName, with its two loops: the one that builds the variable
   * list by insertion and the one that fills the dictionary.
   */
  method ParseFileName(template: string, fileName: string)
    returns (r: Result<map<string, string>, ParseError>)
    ensures r == Binding(template, fileName)
  {
    var found: seq<string> := [];
    for i := 0 to |MariVars|
      invariant found == FoundUpTo(template, i)
    {
      var v := MariVars[i];
      if Contains(template, v) {
        found := Insert(found, IndexOf(template, v).value, v);
      }
    }
    FoundVariablesExact(template);

    var fields := Fields(template, fileName);
    var fileVars: map<string, string> := map[];
    for k := 0 to |found|
      invariant k <= |fields|
      invariant fileVars == BindPrefix(found, fields, k)
    {
      var v := found[k];
      var j := ListIndex(found, v).value;
      if j >= |fields| {
        assert ListIndex(found, v) == Some(k);
        return Failure(MissingField(v));
      }
      BindPrefixStep(found, fields, k);
      fileVars := fileVars[v := fields[j]];
    }
    assert found[..|found|] == found;
    r := Success(fileVars);
  }

  /**
   * parseFileName returns normally exactly when the file name has at least
   * as many fields as the template has variables. Its keys are then the
   * MARI variables occurring in the template, and the k-th variable of the
   * list is bound to the k-th field, a non-empty piece of the file name.
   * Otherwise it fails on the first variable without a field.
   */
  lemma BindingMeaning(template: string, fileName: string)
    ensures var found, fields := FoundVariables(template), Fields(template, fileName);
      && (Binding(template, fileName).Success? <==> |found| <= |fields|)
      && (Binding(template, fileName).Failure? ==>
            Binding(template, fileName).error == MissingField(found[|fields|]))
      && (Binding(template, fileName).Success? ==>
            var m := Binding(template, fileName).value;
            && (forall v :: v in m <==> v in MariVars && Contains(template, v))
            && (forall k :: 0 <= k < |found| ==> found[k] in m && m[found[k]] == fields[k])
            && (forall v :: v in m ==> m[v] != "" && m[v] in fields))
  {
    var found, fields := FoundVariables(template), Fields(template, fileName);
    FoundVariablesExact(template);
    BindListMeaning(found, fields);
    if |found| <= |fields| {
      var m := Binding(template, fileName).value;
      forall k | 0 <= k < |found| ensures found[k] in m {
        assert found[k] in found;
      }
    }
  }

  /** The binding has at most eight keys. */
  lemma BindingSize(template: string, fileName: string)
    requires Binding(template, fileName).Success?
    ensures |Binding(template, fileName).value| <= |MariVars|
  {
    var found := FoundVariables(template);
    FoundVariablesExact(template);
    var m := Binding(template, fileName).value;
    assert m.Keys == set v | v in found;
    SetOfSeqSize(found);
  }

  /** One variable and one field make a one-entry dictionary. */
  lemma BindingOfOne(template: string, fileName: string, v: string)
    requires FoundVariables(template) == [v] && Fields(template, fileName) == [fileName]
    ensures Binding(template, fileName) == Success(map[v := fileName])
  {
    assert ListIndex([v], v) == Some(0);
    var m := Binding(template, fileName).value;
    assert m == map w | w in [v] :: [fileName][ListIndex([v], w).value];
    assert m.Keys == {v} && m[v] == fileName;
    assert m == map[v := fileName];
    assert Binding(template, fileName).Success?;
  }

  lemma HeadIn(xs: seq<string>)
    ensures xs != [] ==> xs[0] in xs
  {
  }

  /** A list has at least as many entries as it has distinct elements. */
  lemma {:induction false} SetOfSeqSize(xs: seq<string>)
    ensures |set v | v in xs| <= |xs|
  {
    if xs != [] {
      SetOfSeqSize(xs[1..]);
      assert (set v | v in xs) == (set v | v in xs[1..]) + {xs[0]};
    }
  }

  // ---------------------------------------------------------------------
  // What the two splits do
  // ---------------------------------------------------------------------

  /** The template is cut only where it has a '$'. */
  lemma CutsOnlyAtDollar(s: string, p: nat)
    requires CutsAt(VariablePattern, s, p)
    ensures p < |s| && s[p] == '$'
  {
    if p >= |s| || s[p] != '$' {
      assert forall k :: 0 <= k < |VariablePattern| ==> MatchAt(VariablePattern[k], s, p).None?;
      FirstMatchNone(VariablePattern, s, p);
    }
  }

  /** Every MARI variable starts with '$', so none occurs in a text without one. */
  lemma VariablesNeedDollar(s: string)
    requires '$' !in s
    ensures forall v :: v in MariVars ==> !Contains(s, v)
  {
    forall v | v in MariVars && Contains(s, v) ensures false {
    }
  }

  /** A template without a '$' has no variables and is its own single delimiter (when non-empty). */
  lemma TemplateWithoutDollar(template: string)
    requires '$' !in template
    ensures FoundVariables(template) == []
    ensures Delimiters(template) == NonEmpty([template])
  {
    FoundVariablesExact(template);
    VariablesNeedDollar(template);
    HeadIn(FoundVariables(template));
    forall p | 0 <= p < |template| ensures !CutsAt(VariablePattern, template, p) {
      if CutsAt(VariablePattern, template, p) {
        CutsOnlyAtDollar(template, p);
      }
    }
    QuietOf(VariablePattern, template, 0, |template|);
    SkipQuiet(template, VariablePattern, 0, 0, |template|);
    assert template[0..] == template;
  }

  /**
   * When no delimiter holds a '|', the filename pattern has one literal
   * branch per delimiter, in order.
   */
  lemma DelimiterPatternOfPlain(delimiters: seq<string>)
    requires |delimiters| >= 1
    requires forall k :: 0 <= k < |delimiters| ==> '|' !in delimiters[k]
    ensures |DelimiterPattern(delimiters)| == |delimiters|
    ensures forall k :: 0 <= k < |delimiters| ==> DelimiterPattern(delimiters)[k] == Literal(delimiters[k])
  {
    SplitJoin(delimiters, '|');
  }

  /**
   * A template with no delimiter between or around its variables (such as
   * `$UDIM`) gives one field: the whole file name, if it is not empty.
   */
  lemma NoDelimitersWholeName(template: string, fileName: string)
    requires Delimiters(template) == []
    ensures Fields(template, fileName) == NonEmpty([fileName])
  {
    var pattern := DelimiterPattern([]);
    assert pattern == [Literal("")];
    forall p | 0 <= p < |fileName| ensures !CutsAt(pattern, fileName, p) {
      assert FirstMatch(pattern, fileName, p) == MatchAt(Literal(""), fileName, p);
    }
    QuietOf(pattern, fileName, 0, |fileName|);
    SkipQuiet(fileName, pattern, 0, 0, |fileName|);
    assert fileName[0..] == fileName;
  }

  /**
   * So with such a template the one variable it holds is bound to the whole
   * file name, whatever delimiters the name itself contains.
   */
  lemma SingleVariableTemplate(template: string, fileName: string, v: string)
    requires Delimiters(template) == [] && FoundVariables(template) == [v]
    requires fileName != ""
    ensures Binding(template, fileName) == Success(map[v := fileName])
  {
    NoDelimitersWholeName(template, fileName);
    assert NonEmpty([fileName]) == [fileName];
    BindingOfOne(template, fileName, v);
  }

  // ---------------------------------------------------------------------
  // The variable list in template order (corrected step 1)
  // ---------------------------------------------------------------------

  /** Where `v` first occurs in the template; the template's length when it does not. */
  function Position(template: string, v: string): (p: nat)
    ensures Contains(template, v) ==> OccursAt(template, v, p)
  {
    match IndexOf(template, v)
    case Some(i) => i
    case None => |template|
  }

  /** `Position` as a key function on variables. */
  function PositionKey(template: string): string -> nat {
    v => Position(template, v)
  }

  /** How many elements of `xs` have a key below `p`. */
  function CountBelow(xs: seq<string>, key: string -> nat, p: nat): (c: nat)
    ensures c <= |xs|
  {
    if xs == [] then 0
    else (if key(xs[0]) < p then 1 else 0) + CountBelow(xs[1..], key, p)
  }

  /** The keys strictly increase along the list. */
  predicate OrderedBy(xs: seq<string>, key: string -> nat) {
    forall i, j :: 0 <= i < j < |xs| ==> key(xs[i]) < key(xs[j])
  }

  /** The list is ordered by where its variables occur in the template. */
  predicate InTemplateOrder(template: string, xs: seq<string>) {
    OrderedBy(xs, PositionKey(template))
  }

  /**
   * The variable list built as the comment in the source intends: each
   * variable is inserted after the variables already found that occur
   * before it in the template, rather than at its character index.
   */
  function OrderedUpTo(template: string, n: nat): seq<string>
    requires n <= |MariVars|
  {
    if n == 0 then []
    else
      var xs := OrderedUpTo(template, n - 1);
      var v := MariVars[n - 1];
      if Contains(template, v) then Insert(xs, CountBelow(xs, PositionKey(template), Position(template, v)), v) else xs
  }

  function TemplateOrder(template: string): seq<string> {
    OrderedUpTo(template, |MariVars|)
  }

  /**
   * No two MARI variables can start at the same index: they already differ
   * in their second or third character.
   */
  lemma SameStartSameVariable(s: string, i: nat, a: string, b: string)
    requires a in MariVars && b in MariVars
    requires OccursAt(s, a, i) && OccursAt(s, b, i)
    ensures a == b
  {
    OccursAtIff(s, a, i);
    OccursAtIff(s, b, i);
    assert s[i..i + |a|][1] == a[1] && s[i..i + |a|][2] == a[2];
    assert s[i..i + |b|][1] == b[1] && s[i..i + |b|][2] == b[2];
  }

  /** On an ordered list, the elements with a key below `p` are exactly a prefix. */
  lemma {:induction false} CountBelowOrdered(xs: seq<string>, key: string -> nat, p: nat)
    requires OrderedBy(xs, key)
    ensures forall k :: 0 <= k < CountBelow(xs, key, p) ==> key(xs[k]) < p
    ensures forall k :: CountBelow(xs, key, p) <= k < |xs| ==> key(xs[k]) >= p
  {
    if xs != [] {
      CountBelowOrdered(xs[1..], key, p);
    }
  }

  /** Inserting an element with a fresh key at its rank keeps the list ordered. */
  lemma InsertOrdered(xs: seq<string>, key: string -> nat, v: string)
    requires OrderedBy(xs, key)
    requires forall k :: 0 <= k < |xs| ==> key(xs[k]) != key(v)
    ensures OrderedBy(Insert(xs, CountBelow(xs, key, key(v)), v), key)
  {
    var p := key(v);
    var c := CountBelow(xs, key, p);
    CountBelowOrdered(xs, key, p);
    var r := Insert(xs, c, v);
    InsertShape(xs, c, v);
    forall i, j | 0 <= i < j < |r| ensures key(r[i]) < key(r[j]) {
      if j < c {
        assert r[i] == xs[i] && r[j] == xs[j];
      } else if j == c {
        assert r[i] == xs[i];
      } else if i < c {
        assert r[i] == xs[i] && r[j] == xs[j - 1];
      } else if i == c {
        assert r[j] == xs[j - 1];
      } else {
        assert r[i] == xs[i - 1] && r[j] == xs[j - 1];
      }
    }
  }

  /**
   * The ordered list holds, once each, the same variables as the list the
   * parser builds, in the order they occur in the template.
   */
  lemma {:induction false} OrderedUpToContents(template: string, n: nat)
    requires n <= |MariVars|
    ensures Distinct(OrderedUpTo(template, n))
    ensures forall v :: v in OrderedUpTo(template, n) <==> v in MariVars[..n] && Contains(template, v)
    ensures InTemplateOrder(template, OrderedUpTo(template, n))
  {
    if n > 0 {
      OrderedUpToContents(template, n - 1);
      MariVarsStep(n);
      var xs := OrderedUpTo(template, n - 1);
      var v := MariVars[n - 1];
      var key := PositionKey(template);
      ContentsStep(template, xs, MariVars[..n - 1], v, CountBelow(xs, key, key(v)));
      if Contains(template, v) {
        OrderedStep(template, xs, v);
      }
    }
  }

  /** A variable of the template at its own position keeps a list of other variables ordered. */
  lemma OrderedStep(template: string, xs: seq<string>, v: string)
    requires v in MariVars && Contains(template, v) && v !in xs
    requires forall w :: w in xs ==> w in MariVars && Contains(template, w)
    requires InTemplateOrder(template, xs)
    ensures InTemplateOrder(template, Insert(xs, CountBelow(xs, PositionKey(template), Position(template, v)), v))
  {
    var key := PositionKey(template);
    forall k | 0 <= k < |xs| ensures key(xs[k]) != key(v) {
      assert xs[k] in xs;
      if Position(template, xs[k]) == Position(template, v) {
        SameStartSameVariable(template, Position(template, v), xs[k], v);
      }
    }
    InsertOrdered(xs, key, v);
  }

  /**
   * The corrected list has the same variables as the parser's, each once,
   * and lists them in the order they occur in the template.
   */
  lemma TemplateOrderMeaning(template: string)
    ensures Distinct(TemplateOrder(template))
    ensures forall v :: v in TemplateOrder(template) <==> v in FoundVariables(template)
    ensures InTemplateOrder(template, TemplateOrder(template))
  {
    OrderedUpToContents(template, |MariVars|);
    FoundVariablesExact(template);
    assert MariVars[..|MariVars|] == MariVars;
  }

  /**
   * The dictionary as the source's comment intends it: the variables
   * paired with the fields in the order they occur in the template.
   */
  function CorrectedBinding(template: string, fileName: string): Result<map<string, string>, ParseError> {
    BindList(TemplateOrder(template), Fields(template, fileName))
  }

  /**
   * The corrected dictionary has the parser's keys and fails exactly when
   * the parser does; on success, a variable occurring earlier in the
   * template than another is given an earlier field.
   */
  lemma CorrectedBindingMeaning(template: string, fileName: string)
    ensures CorrectedBinding(template, fileName).Success? <==> Binding(template, fileName).Success?
    ensures CorrectedBinding(template, fileName).Success? ==>
      var m, order, fields := CorrectedBinding(template, fileName).value, TemplateOrder(template), Fields(template, fileName);
      && (forall v :: v in m <==> v in MariVars && Contains(template, v))
      && (forall k :: 0 <= k < |order| ==> m[order[k]] == fields[k])
      && (forall i, j :: 0 <= i < j < |order| ==> Position(template, order[i]) < Position(template, order[j]))
  {
    var order, found, fields := TemplateOrder(template), FoundVariables(template), Fields(template, fileName);
    TemplateOrderMeaning(template);
    FoundVariablesExact(template);
    BindListMeaning(order, fields);
    BindListMeaning(found, fields);
    SameLength(order, found);
    if |order| <= |fields| {
      forall i, j | 0 <= i < j < |order| ensures Position(template, order[i]) < Position(template, order[j]) {
        assert PositionKey(template)(order[i]) < PositionKey(template)(order[j]);
      }
    }
  }

  /** Two repeat-free lists with the same elements have the same length. */
  lemma SameLength(xs: seq<string>, ys: seq<string>)
    requires Distinct(xs) && Distinct(ys)
    requires forall v :: v in xs <==> v in ys
    ensures |xs| == |ys|
  {
    DistinctSetSize(xs);
    DistinctSetSize(ys);
    assert (set v | v in xs) == (set v | v in ys);
  }

  /** A repeat-free list has as many elements as its set. */
  lemma {:induction false} DistinctSetSize(xs: seq<string>)
    requires Distinct(xs)
    ensures |set v | v in xs| == |xs|
  {
    if xs != [] {
      DistinctSetSize(xs[1..]);
      assert (set v | v in xs) == (set v | v in xs[1..]) + {xs[0]};
      assert xs[0] !in xs[1..];
    }
  }
}
