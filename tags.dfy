/**
 * `dict2str` and `tagStr2Dict`: the dictionary of template variables is
 * stored on the texture as a comment tag `key:value;key:value;...` and read
 * back from it.
 */
module Tags {
  import opened Wrappers
  import opened PyStr

  /** The IndexError `tagStr2Dict` raises on a segment without ':'. */
  datatype TagError = NoColon(segment: string)

  /** One entry of a tag: `key:value`. */
  function Entry(key: string, value: string): (e: string)
    ensures |e| == |key| + 1 + |value|
  {
    key + ":" + value
  }

  /** What dict2str builds when the dictionary hands out its keys in `order`. */
  function EncodeInOrder(d: map<string, string>, order: seq<string>): string
    requires forall k :: 0 <= k < |order| ==> order[k] in d
  {
    if order == [] then ""
    else Entry(order[0], d[order[0]]) + ";" + EncodeInOrder(d, order[1..])
  }

  /** `order` lists every key of `d` exactly once: an iteration order of the dictionary. */
  predicate IsKeyOrder(d: map<string, string>, order: seq<string>) {
    Distinct(order) && (forall k :: k in order ==> k in d) && (forall k :: k in d ==> k in order)
  }

  /** Appending one more key appends its entry and a ';'. */
  lemma {:induction false} EncodeSnoc(d: map<string, string>, order: seq<string>, k: string)
    requires forall i :: 0 <= i < |order| ==> order[i] in d
    requires k in d
    ensures EncodeInOrder(d, order + [k]) == EncodeInOrder(d, order) + Entry(k, d[k]) + ";"
  {
    if order == [] {
      assert [k][1..] == [];
    } else {
      assert (order + [k])[1..] == order[1..] + [k];
      EncodeSnoc(d, order[1..], k);
    }
  }

  /**
   * dict2str: every entry followed by ';', in the order the dictionary
   * yields its keys. That order is not specified by the language, so the
   * method picks any key still left and returns the order it used.
   */
  method DictToStr(d: map<string, string>) returns (s: string, ghost order: seq<string>)
    ensures IsKeyOrder(d, order)
    ensures s == EncodeInOrder(d, order)
    ensures Storable(d) ==> DecodeTag(s) == Success(d)
  {
    s, order := "", [];
    var rest := d.Keys;
    while rest != {}
      invariant rest <= d.Keys
      invariant Distinct(order)
      invariant forall k :: k in order ==> k in d && k !in rest
      invariant forall k :: k in d ==> k in order || k in rest
      invariant s == EncodeInOrder(d, order)
      decreases |rest|
    {
      var key :| key in rest;
      EncodeSnoc(d, order, key);
      s := s + Entry(key, d[key]) + ";";
      order := order + [key];
      rest := rest - {key};
    }
    if Storable(d) {
      RoundTrip(d, order);
    }
  }

  /** The loop of tagStr2Dict over the segments still to read, from the dictionary so far. */
  function DecodeFrom(segs: seq<string>, data: map<string, string>): Result<map<string, string>, TagError> {
    if segs == [] then Success(data)
    else
      var parts := Split(segs[0], ':');
      if |parts| < 2 then Failure(NoColon(segs[0]))
      else DecodeFrom(segs[1..], data[parts[0] := parts[1]])
  }

  /**
   * tagStr2Dict: the non-empty `;`-separated segments, each split at ':'
   * into the key (the first piece) and the value (the second piece).
   */
  function DecodeTag(tag: string): Result<map<string, string>, TagError> {
    DecodeFrom(Segments(tag), map[])
  }

  /** `filter(None, tagStr.split(";"))`. */
  function Segments(tag: string): (segs: seq<string>)
    ensures forall k :: 0 <= k < |segs| ==> segs[k] != ""
  {
    NonEmpty(Split(tag, ';'))
  }

  /** tagStr2Dict with its loop. */
  method TagStrToDict(tagStr: string) returns (r: Result<map<string, string>, TagError>)
    ensures r == DecodeTag(tagStr)
  {
    var segs := Segments(tagStr);
    var data: map<string, string> := map[];
    for i := 0 to |segs|
      invariant DecodeFrom(segs[i..], data) == DecodeTag(tagStr)
    {
      var parts := Split(segs[i], ':');
      if |parts| < 2 {
        return Failure(NoColon(segs[i]));
      }
      assert segs[i..][1..] == segs[i + 1..];
      data := data[parts[0] := parts[1]];
    }
    assert segs[|segs|..] == [];
    r := Success(data);
  }

  // ---------------------------------------------------------------------
  // Properties
  // ---------------------------------------------------------------------

  /** Neither separator occurs in a key or a value of `d`. */
  predicate Storable(d: map<string, string>) {
    forall k :: k in d ==> ';' !in k && ':' !in k && ';' !in d[k] && ':' !in d[k]
  }

  /** The segments of an encoded dictionary: its entries and the empty text after the last ';'. */
  function Entries(d: map<string, string>, order: seq<string>): (r: seq<string>)
    requires forall k :: 0 <= k < |order| ==> order[k] in d
    ensures |r| == |order|
  {
    if order == [] then []
    else [Entry(order[0], d[order[0]])] + Entries(d, order[1..])
  }

  lemma {:induction false} SplitEncoded(d: map<string, string>, order: seq<string>)
    requires forall k :: 0 <= k < |order| ==> order[k] in d
    requires Storable(d)
    ensures Split(EncodeInOrder(d, order), ';') == Entries(d, order) + [""]
    ensures NonEmpty(Split(EncodeInOrder(d, order), ';')) == Entries(d, order)
  {
    if order == [] {
      assert NonEmpty([""]) == [];
    } else {
      var k := order[0];
      var e, rest := Entry(k, d[k]), EncodeInOrder(d, order[1..]);
      SplitEncoded(d, order[1..]);
      assert ';' !in e by {
        assert e == k + [':'] + d[k];
      }
      SplitWithout(e, ';');
      assert EncodeInOrder(d, order) == e + [';'] + rest;
      SplitAround(e, rest, ';');
      assert e[|k|] == ':';
      assert NonEmpty([e] + Entries(d, order[1..])) == [e] + NonEmpty(Entries(d, order[1..])) by {
        NonEmptyAppend([e], Entries(d, order[1..]));
        assert [e][1..] == [];
      }
      NonEmptyAppend(Entries(d, order[1..]), [""]);
      assert NonEmpty([""]) == [];
    }
  }

  /** An entry splits at ':' into its key and value. */
  lemma SplitEntry(k: string, v: string)
    requires ':' !in k && ':' !in v
    ensures Split(Entry(k, v), ':') == [k, v]
  {
    SplitAround(k, v, ':');
    SplitWithout(k, ':');
    SplitWithout(v, ':');
  }

  /**
   * Reading the entries of `order` over `data` sets each key of `order` to
   * its value in `d` and keeps the other entries of `data`.
   */
  lemma {:induction false} DecodeEntries(d: map<string, string>, order: seq<string>, data: map<string, string>)
    requires forall k :: k in order ==> k in d
    requires Storable(d)
    ensures DecodeFrom(Entries(d, order), data).Success?
    ensures var m := DecodeFrom(Entries(d, order), data).value;
      && (forall k :: k in m <==> k in data || k in order)
      && (forall k :: k in order ==> m[k] == d[k])
      && (forall k :: k in data && k !in order ==> m[k] == data[k])
  {
    if order != [] {
      var k := order[0];
      assert k in order;
      SplitEntry(k, d[k]);
      assert Entries(d, order)[1..] == Entries(d, order[1..]);
      forall j | j in order[1..] ensures j in d {
        assert j in order;
      }
      DecodeEntries(d, order[1..], data[k := d[k]]);
      assert forall j :: j in order <==> j == k || j in order[1..];
    }
  }

  /**
   * Round trip: a dictionary whose keys and values hold neither ';' nor ':'
   * is read back from its tag unchanged, whatever order dict2str used.
   */
  lemma RoundTrip(d: map<string, string>, order: seq<string>)
    requires IsKeyOrder(d, order) && Storable(d)
    ensures DecodeTag(EncodeInOrder(d, order)) == Success(d)
  {
    forall i | 0 <= i < |order| ensures order[i] in d {
      assert order[i] in order;
    }
    SplitEncoded(d, order);
    DecodeEntries(d, order, map[]);
    var m := DecodeFrom(Entries(d, order), map[]).value;
    assert m.Keys == d.Keys;
    assert forall k :: k in m ==> m[k] == d[k];
    assert m == d;
  }

  /**
   * Reading fails exactly when some segment has no ':'; the error names the
   * first such segment.
   */
  lemma {:induction false} DecodeFailure(segs: seq<string>, data: map<string, string>)
    ensures DecodeFrom(segs, data).Failure? <==> exists i :: 0 <= i < |segs| && ':' !in segs[i]
    ensures DecodeFrom(segs, data).Failure? ==>
      exists i :: 0 <= i < |segs| && segs[i] == DecodeFrom(segs, data).error.segment && ':' !in segs[i]
        && forall j :: 0 <= j < i ==> ':' in segs[j]
  {
    if segs != [] {
      SplitSingle(segs[0], ':');
      var parts := Split(segs[0], ':');
      if |parts| >= 2 {
        DecodeFailure(segs[1..], data[parts[0] := parts[1]]);
        if DecodeFrom(segs, data).Failure? {
          var i :| 0 <= i < |segs[1..]| && segs[1..][i] == DecodeFrom(segs, data).error.segment && ':' !in segs[1..][i]
            && forall j :: 0 <= j < i ==> ':' in segs[1..][j];
          assert segs[i + 1] == segs[1..][i];
          forall j | 0 <= j < i + 1 ensures ':' in segs[j] {
            if j > 0 {
              assert segs[j] == segs[1..][j - 1];
            }
          }
        }
        forall i | 0 < i < |segs| && ':' !in segs[i] ensures ':' !in segs[1..][i - 1] {
        }
      }
    }
  }

  /** A tag fails to read exactly when one of its non-empty segments has no ':'. */
  lemma TagFailure(tag: string)
    ensures DecodeTag(tag).Failure? <==> exists i :: 0 <= i < |Segments(tag)| && ':' !in Segments(tag)[i]
  {
    DecodeFailure(Segments(tag), map[]);
  }

  /** Reading one more segment with a ':' sets its key to its value, over whatever was read before. */
  lemma {:induction false} DecodeSnoc(segs: seq<string>, seg: string, data: map<string, string>)
    requires DecodeFrom(segs, data).Success? && ':' in seg
    ensures var parts := Split(seg, ':');
      |parts| >= 2 && DecodeFrom(segs + [seg], data) == Success(DecodeFrom(segs, data).value[parts[0] := parts[1]])
  {
    SplitSingle(seg, ':');
    if segs == [] {
      assert [seg][1..] == [];
    } else {
      var parts := Split(segs[0], ':');
      assert (segs + [seg])[1..] == segs[1..] + [seg];
      DecodeSnoc(segs[1..], seg, data[parts[0] := parts[1]]);
    }
  }

  /**
   * The last entry for a key wins: appending `;seg`, where `seg` holds a
   * ':', sets the key before its first ':' to the text up to the next ':'.
   */
  lemma LaterEntryWins(tag: string, seg: string)
    requires DecodeTag(tag).Success? && ':' in seg && ';' !in seg
    ensures var parts := Split(seg, ':');
      |parts| >= 2 && DecodeTag(tag + ";" + seg) == Success(DecodeTag(tag).value[parts[0] := parts[1]])
  {
    SplitAround(tag, seg, ';');
    assert tag + ";" + seg == tag + [';'] + seg;
    SplitWithout(seg, ';');
    NonEmptyAppend(Split(tag, ';'), [seg]);
    assert seg != "";
    assert NonEmpty([seg]) == [seg] by {
      assert [seg][1..] == [];
    }
    DecodeSnoc(NonEmpty(Split(tag, ';')), seg, map[]);
  }

  /** Empty segments are skipped: an extra ';' at the end changes nothing. */
  lemma TrailingSeparator(tag: string)
    ensures DecodeTag(tag + ";") == DecodeTag(tag)
  {
    assert tag + ";" == tag + [';'] + "";
    SplitAround(tag, "", ';');
    assert Split("", ';') == [""];
    NonEmptyAppend(Split(tag, ';'), [""]);
    assert NonEmpty([""]) == [];
    assert NonEmpty(Split(tag + ";", ';')) == NonEmpty(Split(tag, ';'));
  }

  /** Likewise an extra ';' at the start. */
  lemma LeadingSeparator(tag: string)
    ensures DecodeTag(";" + tag) == DecodeTag(tag)
  {
    assert ";" + tag == "" + [';'] + tag;
    SplitAround("", tag, ';');
    assert Split("", ';') == [""];
    NonEmptyAppend([""], Split(tag, ';'));
    assert NonEmpty([""]) == [];
    assert NonEmpty(Split(";" + tag, ';')) == NonEmpty(Split(tag, ';'));
  }
}
