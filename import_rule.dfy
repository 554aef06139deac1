/**
 * The host-independent part of `createTextures`: which files of a
 * selection are imported, which are reported as badly named, which are
 * skipped because their clip is already loaded, and when the whole import
 * stops with the "no UDIM" warning.
 */
module ImportRule {
  import opened Wrappers
  import opened PyStr
  import opened Paths
  import opened Template
  import Udim

  /** What createTextures does with one file path. */
  datatype FileOutcome =
    | InScene(name: string)
      // a clip of that name is already loaded: the file is skipped
    | Rejected(name: string)
      // the name goes to the error list
    | NoUdim
      // the warning dialog is shown and createTextures returns False
    | Imported(name: string, vars: map<string, string>, u: int, v: int)
      // an image map is created, offset by (u, v) and tagged with `vars`

  /**
   * One pass of the loop body, given the clip name and what parseFileName
   * made of it: a loaded clip is skipped; the variables must include a
   * four-character `$UDIM` (any exception here sends the name to the error
   * list); then the UV offset of that UDIM must not be False.
   */
  function Decide(name: string, loaded: seq<string>, b: Result<map<string, string>, ParseError>): FileOutcome {
    if name in loaded then InScene(name)
    else match b
      case Failure(_) => Rejected(name)
      case Success(vars) =>
        if UdimVar !in vars || |vars[UdimVar]| != 4 then Rejected(name)
        else match Udim.GetUVOffset(vars[UdimVar])
          case Offset(u, v) => Imported(name, vars, u, v)
          case _ => NoUdim
  }

  /** The loop body for one path: the clip name of the path, and its variables under the template. */
  function Classify(template: string, path: string, loaded: seq<string>): FileOutcome {
    Decide(GetFilename(path), loaded, Binding(template, GetFilename(path)))
  }

  /** A name is rejected exactly when it is not loaded and yields no four-character `$UDIM`. */
  lemma RejectedIff(name: string, loaded: seq<string>, b: Result<map<string, string>, ParseError>)
    ensures Decide(name, loaded, b).Rejected? <==>
      name !in loaded && (b.Failure? || UdimVar !in b.value || |b.value[UdimVar]| != 4)
    ensures Decide(name, loaded, b).InScene? <==> name in loaded
  {
  }

  /**
   * An imported file was not loaded, its variables are those the parser
   * gives, its `$UDIM` has four characters ending in a digit, and its
   * offset is getUVoffSet's, with U in -8..1 and V in -99..9.
   */
  lemma ImportedMeans(name: string, loaded: seq<string>, b: Result<map<string, string>, ParseError>)
    requires Decide(name, loaded, b).Imported?
    ensures var r := Decide(name, loaded, b);
      && r.name == name && name !in loaded && b == Success(r.vars)
      && UdimVar in r.vars && |r.vars[UdimVar]| == 4 && IsDigit(r.vars[UdimVar][3])
      && Udim.GetUVOffset(r.vars[UdimVar]) == Udim.Offset(r.u, r.v)
      && -8 <= r.u <= 1 && -99 <= r.v <= 9
  {
    Udim.OffsetBounds(b.value[UdimVar]);
  }

  /** A new file whose `$UDIM` is four digits is imported, at the offset its digits give. */
  lemma FourDigitsImported(name: string, loaded: seq<string>, vars: map<string, string>)
    requires name !in loaded
    requires UdimVar in vars && |vars[UdimVar]| == 4 && IsNumeral(vars[UdimVar])
    ensures var d := vars[UdimVar];
      Decide(name, loaded, Success(vars))
        == Imported(name, vars, 1 - DigitValue(d[3]), -(10 * DigitValue(d[1]) + DigitValue(d[2])))
  {
    Udim.OffsetOfDigits(vars[UdimVar]);
  }

  /**
   * The import stops only on a four-character `$UDIM` that is not four
   * digits and so does not give an offset; getUVoffSet's IndexError cannot
   * happen here.
   */
  lemma NoUdimMeans(name: string, loaded: seq<string>, b: Result<map<string, string>, ParseError>)
    requires Decide(name, loaded, b).NoUdim?
    ensures b.Success? && UdimVar in b.value && |b.value[UdimVar]| == 4
    ensures Udim.GetUVOffset(b.value[UdimVar]) == Udim.NotAnInteger && !IsNumeral(b.value[UdimVar])
  {
    if IsNumeral(b.value[UdimVar]) {
      Udim.OffsetOfDigits(b.value[UdimVar]);
    }
  }

  /** The image maps made so far and the error list, in the order of the file list. */
  datatype Batch = Batch(imported: seq<FileOutcome>, errors: seq<string>)

  /**
   * The loop over a list of outcomes: None once a file has stopped the
   * import, otherwise what has been imported and reported.
   */
  function BatchOf(outcomes: seq<FileOutcome>): Option<Batch> {
    if outcomes == [] then Some(Batch([], []))
    else
      var last := outcomes[|outcomes| - 1];
      match BatchOf(outcomes[..|outcomes| - 1])
      case None => None
      case Some(b) =>
        match last
        case NoUdim => None
        case Rejected(name) => Some(b.(errors := b.errors + [name]))
        case Imported(_, _, _, _) => Some(b.(imported := b.imported + [last]))
        case InScene(_) => Some(b)
  }

  /** The outcome of every path; the clip list is read once, before the loop. */
  function Outcomes(template: string, paths: seq<string>, loaded: seq<string>): (r: seq<FileOutcome>)
    ensures |r| == |paths|
  {
    seq(|paths|, i requires 0 <= i < |paths| => Classify(template, paths[i], loaded))
  }

  /** Once stopped, the loop stays stopped. */
  lemma {:induction false} StoppedStays(outcomes: seq<FileOutcome>, n: nat)
    requires n <= |outcomes| && BatchOf(outcomes[..n]).None?
    decreases |outcomes| - n
    ensures BatchOf(outcomes).None?
  {
    if n < |outcomes| {
      assert outcomes[..n + 1][..n] == outcomes[..n];
      StoppedStays(outcomes, n + 1);
    } else {
      assert outcomes[..n] == outcomes;
    }
  }

  /**
   * createTextures over `paths`, with `loaded` the clip names already in the
   * scene: None where it returns False.
   */
  method CreateTextures(template: string, paths: seq<string>, loaded: seq<string>) returns (r: Option<Batch>)
    ensures r == BatchOf(Outcomes(template, paths, loaded))
  {
    r := RunBatch(Outcomes(template, paths, loaded));
  }

  /**
   * The loop of createTextures over the files' outcomes: image maps and
   * error names are appended in file order, a loaded clip is passed over,
   * and the first file without a usable UDIM ends the import.
   */
  method RunBatch(outcomes: seq<FileOutcome>) returns (r: Option<Batch>)
    ensures r == BatchOf(outcomes)
  {
    var data: seq<FileOutcome> := [];
    var errorList: seq<string> := [];
    for i := 0 to |outcomes|
      invariant BatchOf(outcomes[..i]) == Some(Batch(data, errorList))
    {
      var outcome := outcomes[i];
      assert outcomes[..i + 1][..i] == outcomes[..i];
      match outcome
      case NoUdim =>
        StoppedStays(outcomes, i + 1);
        return None;
      case Rejected(name) =>
        errorList := errorList + [name];
      case Imported(_, _, _, _) =>
        data := data + [outcome];
      case InScene(_) =>
    }
    assert outcomes[..|outcomes|] == outcomes;
    r := Some(Batch(data, errorList));
  }

  /** The import returns False exactly when some file stops it. */
  lemma {:induction false} StoppedIff(outcomes: seq<FileOutcome>)
    ensures BatchOf(outcomes).None? <==> exists i :: 0 <= i < |outcomes| && outcomes[i].NoUdim?
  {
    if outcomes != [] {
      var init := outcomes[..|outcomes| - 1];
      StoppedIff(init);
      if exists i :: 0 <= i < |init| && init[i].NoUdim? {
        var i :| 0 <= i < |init| && init[i].NoUdim?;
        assert outcomes[i] == init[i];
      }
      if exists i :: 0 <= i < |outcomes| && outcomes[i].NoUdim? {
        var i :| 0 <= i < |outcomes| && outcomes[i].NoUdim?;
        if i < |init| {
          assert init[i] == outcomes[i];
        }
      }
    }
  }

  /** The imported outcomes, in file order. */
  function ImportedOnes(outcomes: seq<FileOutcome>): (r: seq<FileOutcome>)
    ensures |r| <= |outcomes|
    ensures forall o :: o in r <==> o in outcomes && o.Imported?
  {
    if outcomes == [] then []
    else
      var init := ImportedOnes(outcomes[..|outcomes| - 1]);
      var last := outcomes[|outcomes| - 1];
      assert outcomes == outcomes[..|outcomes| - 1] + [last];
      if last.Imported? then init + [last] else init
  }

  /** The names of the rejected outcomes, in file order. */
  function RejectedNames(outcomes: seq<FileOutcome>): (r: seq<string>)
    ensures |r| <= |outcomes|
    ensures forall n :: n in r <==> Rejected(n) in outcomes
  {
    if outcomes == [] then []
    else
      var init := RejectedNames(outcomes[..|outcomes| - 1]);
      var last := outcomes[|outcomes| - 1];
      assert outcomes == outcomes[..|outcomes| - 1] + [last];
      if last.Rejected? then init + [last.name] else init
  }

  /**
   * On a normal return the image maps are exactly the imported outcomes and
   * the error list exactly the names of the rejected ones, each once per
   * file and in file order.
   */
  lemma {:induction false} BatchContents(outcomes: seq<FileOutcome>)
    requires BatchOf(outcomes).Some?
    ensures BatchOf(outcomes) == Some(Batch(ImportedOnes(outcomes), RejectedNames(outcomes)))
  {
    if outcomes != [] {
      BatchContents(outcomes[..|outcomes| - 1]);
    }
  }

  /** Between them the two lists hold at most one entry per file. */
  lemma {:induction false} OneEntryPerFile(outcomes: seq<FileOutcome>)
    ensures |ImportedOnes(outcomes)| + |RejectedNames(outcomes)| <= |outcomes|
  {
    if outcomes != [] {
      OneEntryPerFile(outcomes[..|outcomes| - 1]);
    }
  }

  // ---------------------------------------------------------------------
  // The rule with the corrected steps
  // ---------------------------------------------------------------------

  /**
   * The same per-file rule with the corrected offset; the corrected clip
   * name (`Paths.ClipName`) and binding (`Template.CorrectedBinding`) are
   * what a caller passes as `name` and `b`.
   */
  function CorrectedDecide(name: string, loaded: seq<string>, b: Result<map<string, string>, ParseError>): FileOutcome {
    if name in loaded then InScene(name)
    else match b
      case Failure(_) => Rejected(name)
      case Success(vars) =>
        if UdimVar !in vars || |vars[UdimVar]| != 4 then Rejected(name)
        else match Udim.CorrectedUVOffset(vars[UdimVar])
          case Offset(u, v) => Imported(name, vars, u, v)
          case _ => NoUdim
  }

  /** The corrected offset changes no decision: only the offset of an imported file. */
  lemma CorrectedDecideSameKind(name: string, loaded: seq<string>, b: Result<map<string, string>, ParseError>)
    ensures CorrectedDecide(name, loaded, b).Imported? <==> Decide(name, loaded, b).Imported?
    ensures !Decide(name, loaded, b).Imported? ==> CorrectedDecide(name, loaded, b) == Decide(name, loaded, b)
  {
    if b.Success? && UdimVar in b.value {
      Udim.CorrectedBounds(b.value[UdimVar]);
    }
  }

  /**
   * A corrected import of a tile `1vvu` numbered n >= 1001 is offset by
   * minus the tile's column and row.
   */
  lemma CorrectedImportIsTile(name: string, loaded: seq<string>, b: Result<map<string, string>, ParseError>, n: int)
    requires CorrectedDecide(name, loaded, b).Imported?
    requires var d := CorrectedDecide(name, loaded, b).vars[UdimVar];
      IsNumeral(d) && d[0] == '1' && n == DigitsValue(d) && n >= 1001
    ensures var r := CorrectedDecide(name, loaded, b);
      r.u == -((n - 1001) % 10) && r.v == -((n - 1001) / 10) && -9 <= r.u <= 0
  {
    var d := CorrectedDecide(name, loaded, b).vars[UdimVar];
    Udim.CorrectedOffsetIsTile(d, n);
  }
}
