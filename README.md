# MARI texture import helpers, modelled in Dafny

The MARI toolkit for Modo imports texture files that MARI exported under a
user-chosen filename template such as `$ENTITY-$CHANNEL.$UDIM`. The model
covers the part of `scripts/MARI_Tools.py` that does not talk to the host
application:

- the path helpers `get_file_extension` and `get_filename`;
- the filename-template parser `parseFileName`. It finds the variables of the
  template, takes the text between them as delimiters, splits the file name
  on those delimiters and pairs the variables with the fields;
- `getUVoffSet`, which turns a four-character UDIM tile number into the UV
  offset of its texture;
- the tag codec `dict2str` / `tagStr2Dict`, which stores the variables of a
  texture in a comment tag and reads them back;
- the decision `createTextures` makes for each file: import it, add it to
  the error list, skip it because its clip is loaded, or stop the import.

Python 2 semantics are modelled where the code relies on them. These
include:

- `re.split`, which takes the leftmost match and the first matching branch
  in pattern order, and does not cut on an empty match;
- `filter(None, …)`;
- `int()` on byte strings, which allows white space around the number and
  after its sign;
- `list.insert` with an index past the end;
- `str.replace` removing every occurrence.

Modules:

| file | module | contents |
|---|---|---|
| wrappers.dfy | Wrappers | `Option`, `Result` |
| pystr.dfy | PyStr | the Python built-ins the helpers call |
| regex_split.dfy | RegexSplit | `re.split` for the two pattern shapes the parser builds |
| paths.dfy | Paths | `get_file_extension`, `get_filename`, the corrected clip name |
| template.dfy | Template | `parseFileName` and the corrected variable order |
| template_examples.dfy | TemplateExamples | worked templates: the docstring example and the out-of-order example |
| udim.dfy | Udim | `getUVoffSet` and the corrected offset |
| tags.dfy | Tags | `dict2str`, `tagStr2Dict` |
| import_rule.dfy | ImportRule | the per-file rule and the file loop of `createTextures` |

Three behaviours of the code worth knowing:

- **Order of the variables.** The comment at `scripts/MARI_Tools.py:134`
  says the insert index keeps the variables in the order of the template.
  The code inserts each variable at its character index in the template,
  not at its position among the variables found so far, which does not
  always give template order (Findings).
- **A template with a single variable.** A template such as `$UDIM` has no
  delimiters, so the pattern built from them is empty and never cuts: the
  variable is bound to the whole file name whenever that name is non-empty
  (`Template.SingleVariableTemplate`).
- **Separators in the tag.** `dict2str` writes a `;` after every pair, the
  last one included; reading drops the empty piece it leaves
  (`Tags.TrailingSeparator`). The program's docstrings disagree among
  themselves here: those at `scripts/MARI_Tools.py:30`
  (`$UDIM:1001;$CHANNEL:diffuse`) and `scripts/MARI_Tools.py:574`
  (`'key2:value2;key2:value2'`) show no `;` after the last pair, while the
  one at `scripts/MARI_Tools.py:584` (`'$UDIM:1002;$CHANNEL:DIFFUSE;'`)
  shows it.

## Model

| member | source | states |
|---|---|---|
| Paths.ExtensionTail | scripts/MARI_Tools.py:104-114 | the text after the last '.' is a suffix of the name free of '.', and it reaches the start of the name or a '.' |
| Paths.ExtensionTailUnique | scripts/MARI_Tools.py:104-114 | any suffix free of '.' that reaches the start or a '.' is that tail: the extension is uniquely determined |
| Paths.GetFileExtension | scripts/MARI_Tools.py:104-114 | the loop's result starts with '.', the rest has no '.' and is a suffix of the name, preceded by a '.' or the start; it equals `FileExtension` |
| Paths.ExtensionEndsName | scripts/MARI_Tools.py:104-114 | a name that contains '.' ends with its extension |
| Paths.BaseName | scripts/MARI_Tools.py:119 | the last `/` component holds no '/' |
| Paths.GetFilename | scripts/MARI_Tools.py:117-120 | the clip name has no '/' and is no longer than the last component |
| Paths.GetFilenameWithoutDot | scripts/MARI_Tools.py:117-120 | a component without '.' comes back unchanged |
| Paths.GetFilenameStem | scripts/MARI_Tools.py:117-120 | for `stem + extension` where the extension occurs nowhere in the stem, the result is the stem |
| Paths.RemoveTrailingExtension | scripts/MARI_Tools.py:120 | removing every copy of an extension from `stem + ext` is removing them from the stem; the trailing copy cannot overlap the stem |
| Paths.RemoveAbsent | scripts/MARI_Tools.py:120 | `replace` of a text that never occurs changes nothing |
| Paths.RemovesInnerCopy | scripts/MARI_Tools.py:120 | from `a.ext` + `b.ext` every copy of `.ext` is removed, giving `a + b` |
| Paths.InnerCopyClipName | scripts/MARI_Tools.py:117-120 | for a component `a.ext` + `b.ext`, get_filename gives `a + b` while the clip name without its extension is `a.ext` + `b` |
| Paths.InnerExtensionExample | scripts/MARI_Tools.py:117-120 | `Hero.tif_v1.tif` gives `Hero_v1`; the corrected clip name is `Hero.tif_v1` |
| Paths.ClipName | scripts/MARI_Tools.py:117-120 | corrected clip name: appending the extension gives back the component; without '.', the component itself |
| Paths.ClipNameAgrees | scripts/MARI_Tools.py:117-120 | where the extension occurs only at the end, get_filename and the corrected clip name agree |
| PyStr.FindFrom | scripts/MARI_Tools.py:133-134 | `in` / `str.index`: the first occurrence at or after a point, or none anywhere |
| PyStr.IndexOfFirst | scripts/MARI_Tools.py:134 | an occurrence with none before it is what `index` returns |
| PyStr.Split | scripts/MARI_Tools.py:119 | `split` gives at least one piece and no piece holds the separator |
| PyStr.SplitSingle | scripts/MARI_Tools.py:589-590 | `split` gives one piece exactly when the separator is absent |
| PyStr.SplitAround | scripts/MARI_Tools.py:586 | a separator cuts the split into the splits of both sides |
| PyStr.JoinSplit | scripts/MARI_Tools.py:146 | joining the pieces of a split with the separator gives the string back |
| PyStr.SplitJoin | scripts/MARI_Tools.py:146 | splitting a join of pieces free of the separator gives the pieces back |
| PyStr.NonEmpty | scripts/MARI_Tools.py:142 | `filter(None, xs)` keeps exactly the non-empty elements, no more of them than there were |
| PyStr.NonEmptyAppend | scripts/MARI_Tools.py:151 | filtering distributes over concatenation |
| PyStr.RemoveAll | scripts/MARI_Tools.py:120 | `replace(pat, "")` never lengthens the text and adds no character |
| PyStr.ParseNumeral | scripts/MARI_Tools.py:174 | `int()` of a string of digits is its decimal value |
| PyStr.ParseOneChar | scripts/MARI_Tools.py:175 | `int()` of one character succeeds exactly on a digit, giving its value |
| PyStr.ParseTwoChars | scripts/MARI_Tools.py:176 | whatever two characters parse to lies in -9..99 |
| PyStr.ParseInt | scripts/MARI_Tools.py:174-176 | `int()` on a byte string: optional white space, an optional sign with white space after it, decimal digits, optional white space; what it gives is stated by `ParseNumeral`, `ParseOneChar` and `ParseTwoChars` |
| PyStr.Insert | scripts/MARI_Tools.py:134 | `list.insert` adds the one element at the index clamped to the length, keeping the other elements |
| PyStr.InsertShape | scripts/MARI_Tools.py:134 | elements before the insertion point stay, those after move up by one |
| PyStr.ListIndex | scripts/MARI_Tools.py:154 | `list.index`: the first position holding the element, or absence |
| RegexSplit.FirstMatchIs | scripts/MARI_Tools.py:141 | the pattern's match is that of the first branch in pattern order that matches |
| RegexSplit.FirstMatchNone | scripts/MARI_Tools.py:141 | where no branch matches, the pattern does not match |
| RegexSplit.ReSplit | scripts/MARI_Tools.py:141-151 | `re.split` with a pattern of alternative branches: cut at the leftmost match, first branch in pattern order, no cut on an empty match; its meaning is stated by `SplitOfLayout` and `LayoutOfSplit` |
| RegexSplit.SplitOfLayout | scripts/MARI_Tools.py:141-151 | a layout of fields and matched separators is what `re.split` returns |
| RegexSplit.LayoutOfSplit | scripts/MARI_Tools.py:141-151 | whatever `re.split` returns lays out the string with the texts it matched |
| Template.FoundUpToContents | scripts/MARI_Tools.py:131-134 | after visiting n variables, the list holds each visited variable that occurs in the template exactly once |
| Template.FoundVariables | scripts/MARI_Tools.py:131-134 | the list the insert loop builds over all eight MARI variables; `FoundVariablesExact` states what it holds |
| Template.FoundVariablesExact | scripts/MARI_Tools.py:131-134 | the found variables are exactly the MARI variables occurring in the template, without repeats, at most eight |
| Template.Delimiters | scripts/MARI_Tools.py:140-142 | every delimiter is non-empty; the delimiters are `filter(None, …)` of `re.split` over the variable pattern, whose cuts `RegexSplit.SplitOfLayout` and `LayoutOfSplit` characterise |
| Template.DelimiterPattern | scripts/MARI_Tools.py:146 | the escaped pattern is a non-empty list of literal branches |
| Template.DelimiterPatternOfPlain | scripts/MARI_Tools.py:146 | with no '\|' in the delimiters, there is one literal branch per delimiter, in order |
| Template.Fields | scripts/MARI_Tools.py:149-151 | the fields of the file name are non-empty |
| Template.ParseFileName | scripts/MARI_Tools.py:123-156 | both loops together compute the binding function: the insert loop builds the found list, the fill loop the dictionary or the IndexError |
| Template.Binding | scripts/MARI_Tools.py:123-156 | the result of parseFileName: the found variables bound to the fields of the file name; `BindingMeaning` states it |
| Template.BindList | scripts/MARI_Tools.py:153-154 | the fill loop as a value: IndexError on the first variable without a field, else each variable bound to the field at its index; `BindListMeaning` states it |
| Template.BindListMeaning | scripts/MARI_Tools.py:153-154 | on a list without repeats: success iff enough fields; keys are the list's variables; k-th variable gets the k-th field; else the error names the first variable without a field |
| Template.BindingMeaning | scripts/MARI_Tools.py:123-156 | parseFileName succeeds iff there are at least as many fields as variables; keys are exactly the variables in the template; each value is a non-empty field, the k-th variable getting the k-th field; otherwise IndexError on the first unmatched variable |
| Template.BindingSize | scripts/MARI_Tools.py:153-154 | the dictionary has at most eight keys |
| Template.BindPrefixStep | scripts/MARI_Tools.py:153-154 | each pass of the fill loop adds exactly the next variable with its field |
| Template.CutsOnlyAtDollar | scripts/MARI_Tools.py:141 | the template is only cut where it has a '$' |
| Template.TemplateWithoutDollar | scripts/MARI_Tools.py:131-142 | a template without '$' has no variables and is its own delimiter |
| Template.NoDelimitersWholeName | scripts/MARI_Tools.py:146-151 | with no delimiters the pattern is empty and the only field is the whole name |
| Template.SingleVariableTemplate | scripts/MARI_Tools.py:123-156 | a template that is one variable binds it to the whole file name |
| Template.SameStartSameVariable | scripts/MARI_Tools.py:129 | no two MARI variables start at the same index of a template |
| Template.InsertOrdered | scripts/MARI_Tools.py:134 | inserting at the count of smaller keys keeps a list ordered |
| Template.OrderedUpToContents | scripts/MARI_Tools.py:131-134 | the corrected list holds the same variables as the found list, once each, in template order |
| Template.TemplateOrder | scripts/MARI_Tools.py:131-134 | corrected variable list, in the order the variables appear in the template; `TemplateOrderMeaning` states it |
| Template.TemplateOrderMeaning | scripts/MARI_Tools.py:134 | the corrected list has the found variables, without repeats, ordered by their position in the template |
| Template.CorrectedBinding | scripts/MARI_Tools.py:123-156 | corrected parseFileName: the fields bound to the variables in template order; `CorrectedBindingMeaning` states it |
| Template.CorrectedBindingMeaning | scripts/MARI_Tools.py:153-154 | the corrected binding fails exactly when parseFileName does; a variable earlier in the template gets an earlier field |
| TemplateExamples.EntityChannelUdim | scripts/MARI_Tools.py:131-134 | a template beginning with `$ENTITY` that holds `$CHANNEL` and `$UDIM` only gives the list [$ENTITY, $CHANNEL, $UDIM], whatever their order |
| TemplateExamples.ThreeVariableTemplate | scripts/MARI_Tools.py:140-142 | three variables with one non-'$' character between each give those two characters as delimiters |
| TemplateExamples.FieldsOfTwoCuts | scripts/MARI_Tools.py:146-151 | a name with two delimiter characters gives the three stretches between them |
| TemplateExamples.DocTemplate | scripts/MARI_Tools.py:131-146 | `$ENTITY-$CHANNEL.$UDIM` gives the list [$ENTITY, $CHANNEL, $UDIM] and the delimiters `-` and `.` |
| TemplateExamples.DocExample | scripts/MARI_Tools.py:123-156 | `$ENTITY-$CHANNEL.$UDIM` with `Hero-diffuse.1002` gives {$ENTITY: Hero, $CHANNEL: diffuse, $UDIM: 1002} |
| TemplateExamples.UdimBeforeChannel | scripts/MARI_Tools.py:131-134 | `$ENTITY_$UDIM_$CHANNEL` gives [$ENTITY, $CHANNEL, $UDIM], which is not in template order |
| TemplateExamples.UdimBeforeChannelCorrected | scripts/MARI_Tools.py:131-134 | the corrected list for that template is [$ENTITY, $UDIM, $CHANNEL] |
| TemplateExamples.UdimLastExample | scripts/MARI_Tools.py:123-156 | `$ENTITY_$UDIM_$CHANNEL` with `Hero_1001_diffuse` binds $CHANNEL to 1001 and $UDIM to diffuse |
| TemplateExamples.UdimLastExampleCorrected | scripts/MARI_Tools.py:123-156 | the corrected binding of that name gives $UDIM 1001 and $CHANNEL diffuse |
| Udim.GetUVOffset | scripts/MARI_Tools.py:171-181 | the text must parse as an integer; IndexError exactly when it does but has fewer than four characters |
| Udim.OffsetBounds | scripts/MARI_Tools.py:175-176 | on success the fourth character is a digit, U = 1 - that digit in -8..1, V in -99..9 |
| Udim.OffsetOfDigits | scripts/MARI_Tools.py:171-177 | four digits d0 d1 d2 d3 give (1 - d3, -(10 d1 + d2)); d0 plays no part |
| Udim.OffsetIsTile | scripts/MARI_Tools.py:175-176 | for tile `1vvu` with u ≠ 0, the offset is minus the tile's column and row counted from 1001, and -U is in 0..8 |
| Udim.LastDigitZero | scripts/MARI_Tools.py:175 | a last digit 0 gives U = 1, a column outside 0..9 |
| Udim.Tile1010 | scripts/MARI_Tools.py:175-176 | tile 1010 gets (1, -1) |
| Udim.CorrectedUVOffset | scripts/MARI_Tools.py:171-181 | corrected offset: a last digit 0 is the tenth column of the row below; `CorrectedBounds` and `CorrectedOffsetIsTile` state it |
| Udim.CorrectedBounds | scripts/MARI_Tools.py:171-181 | the corrected offset fails exactly where getUVoffSet does, and U is always in -9..0 |
| Udim.CorrectedOffsetIsTile | scripts/MARI_Tools.py:175-176 | the corrected offset is minus the tile's column and row for every tile from 1001 |
| Tags.EncodeSnoc | scripts/MARI_Tools.py:576-577 | one more key appends `key:value;` to the text |
| Tags.EncodeInOrder | scripts/MARI_Tools.py:572-578 | the text dict2str writes when it visits the keys in a given order: `key:value;` per key; `EncodeSnoc` and `RoundTrip` state it |
| Tags.DictToStr | scripts/MARI_Tools.py:572-578 | the loop writes `key:value;` for every key exactly once, in the order it took them; when no key or value holds `;` or `:`, the text reads back through tagStr2Dict as the same dictionary |
| Tags.TagStrToDict | scripts/MARI_Tools.py:580-592 | the loop reads the non-empty segments in order, setting key to value, failing on the first segment without ':' |
| Tags.DecodeTag | scripts/MARI_Tools.py:580-592 | tagStr2Dict as a value: the non-empty `;` segments read in order; `TagFailure`, `LaterEntryWins` and `RoundTrip` state it |
| Tags.DecodeFrom | scripts/MARI_Tools.py:586-592 | the read loop from a dictionary so far; `DecodeFailure`, `DecodeSnoc` and `DecodeEntries` state it |
| Tags.SplitEncoded | scripts/MARI_Tools.py:572-592 | splitting an encoded dictionary on ';' gives its entries and a final empty piece, which is filtered out |
| Tags.SplitEntry | scripts/MARI_Tools.py:589-590 | `key:value` splits into key and value when neither holds ':' |
| Tags.DecodeEntries | scripts/MARI_Tools.py:588-590 | reading the entries sets each listed key to its value and keeps the rest |
| Tags.RoundTrip | scripts/MARI_Tools.py:572-592 | a dictionary whose keys and values hold neither ';' nor ':' is read back unchanged, whatever order dict2str used |
| Tags.DecodeFailure | scripts/MARI_Tools.py:588-590 | reading fails exactly when a segment has no ':', naming the first one |
| Tags.TagFailure | scripts/MARI_Tools.py:580-592 | a tag fails to read exactly when one of its non-empty segments has no ':' |
| Tags.DecodeSnoc | scripts/MARI_Tools.py:588-590 | one more segment sets its key to its value over what was read |
| Tags.LaterEntryWins | scripts/MARI_Tools.py:580-592 | a later segment for a key overrides the earlier value with the text between its first and second ':' |
| Tags.TrailingSeparator | scripts/MARI_Tools.py:586 | an extra ';' at the end changes nothing |
| Tags.LeadingSeparator | scripts/MARI_Tools.py:586 | an extra ';' at the start changes nothing |
| ImportRule.RejectedIff | scripts/MARI_Tools.py:248-256 | a file is listed as an error exactly when it is new and parsing fails or gives no four-character $UDIM; skipped exactly when loaded |
| ImportRule.ImportedMeans | scripts/MARI_Tools.py:245-262 | an imported file is new, its variables are the parser's, its $UDIM has four characters ending in a digit, and its offset is getUVoffSet's, U in -8..1, V in -99..9 |
| ImportRule.FourDigitsImported | scripts/MARI_Tools.py:249-262 | a new file with a four-digit $UDIM is imported at (1 - d3, -(10 d1 + d2)) |
| ImportRule.NoUdimMeans | scripts/MARI_Tools.py:259-297 | the import stops only on a four-character $UDIM that is not four digits; IndexError cannot occur |
| ImportRule.RunBatch | scripts/MARI_Tools.py:241-303 | the loop appends image maps and error names in file order and returns None at the first file that stops it |
| ImportRule.CreateTextures | scripts/MARI_Tools.py:235-303 | the result is the batch over every path's outcome |
| ImportRule.Decide | scripts/MARI_Tools.py:248-297 | the loop body for one file: skip a loaded clip, list a bad name, stop on an unusable UDIM, else import; `RejectedIff`, `ImportedMeans`, `FourDigitsImported` and `NoUdimMeans` state it |
| ImportRule.Outcomes | scripts/MARI_Tools.py:245-248 | one outcome per selected path, in order |
| ImportRule.BatchOf | scripts/MARI_Tools.py:241-303 | the file loop as a value over the outcomes; `BatchContents` and `StoppedIff` state it |
| ImportRule.StoppedStays | scripts/MARI_Tools.py:297 | once the import stops it stays stopped |
| ImportRule.StoppedIff | scripts/MARI_Tools.py:295-297 | createTextures returns False exactly when some file stops it |
| ImportRule.BatchContents | scripts/MARI_Tools.py:241-303 | on a normal return the image maps are exactly the imported outcomes and the error list exactly the rejected names, each once per file, in file order |
| ImportRule.ImportedOnes | scripts/MARI_Tools.py:262-283 | the imported outcomes in file order: an outcome is listed iff it is an import among the outcomes |
| ImportRule.RejectedNames | scripts/MARI_Tools.py:249-256 | the rejected names in file order: a name is listed iff that name was rejected |
| ImportRule.OneEntryPerFile | scripts/MARI_Tools.py:241-303 | the two lists together hold no more entries than there are files |
| ImportRule.CorrectedDecideSameKind | scripts/MARI_Tools.py:259-261 | with the corrected offset the same files are imported, rejected, skipped or stop the import |
| ImportRule.CorrectedImportIsTile | scripts/MARI_Tools.py:259-262 | a corrected import of tile n ≥ 1001 is offset by minus its column and row, U in -9..0 |

## Left out

- Host calls: selection, clip and image-map creation, gamma, the UV map,
  channel values and tag writing (`lx.eval`, `sceneservice`). They act on
  the Modo scene, which is not part of this model. The loaded-clip list is
  a parameter of `ImportRule.CreateTextures`.
- The 8x8-pixel check in `createTextures` (scripts/MARI_Tools.py:266-270),
  which deletes the clip and ends the loop. It depends on the image the
  host loaded and on a global flag.
- Dialogs and log output (`warning_msg`, `lx.out`). A warning is the
  `NoUdim` outcome.
- The global `fileNameUser`, set outside the functions. It is the
  `template` parameter.
- ImportRule.Decide: the image-map ID that `createTextures` appends is a host value; the model
  appends the outcome (name, variables, offset), and the tag text is
  `Tags.DictToStr` of those variables.
- ImportRule.CreateTextures: each path's outcome is computed before the loop rather than inside it.
  The outcome depends only on the path, the template and the clip list
  read before the loop, so the loop sees the same values.
- Tags.DictToStr: Python 2 dictionary order comes from hashing. The method may take any key
  order and returns the one it used.
- Paths.GetFileExtension: the source appends characters and reverses the result. The loop here
  prepends each character, which gives the same text.
- PyStr.ParseInt: models `int()` on byte strings in base 10, with the C-locale white space.
  Unicode strings and other bases are not modelled.
- Regular expressions in general. `RegexSplit` covers only the two pattern
  shapes the parser builds: literal alternatives, and the template pattern
  whose `\$[METADATA VALUE]` branch is a character class.

## Findings

| source | as written | input that shows it | evidently intended | confidence | as-written member | corrected member |
|---|---|---|---|---|---|---|
| scripts/MARI_Tools.py:175 | U offset `-(int(UDIM[3]) - 1)` | UDIM `1010` gives (1, -1) | the tenth column of the first row, (-9, 0) | not executed | Udim.Tile1010 | Udim.CorrectedOffsetIsTile |
| scripts/MARI_Tools.py:134 | `insert(fileNameUser.index(i), i)` puts a variable at its character index | `$ENTITY_$UDIM_$CHANNEL` with `Hero_1001_diffuse` binds $CHANNEL to 1001 | variables listed in template order, as the comment on that line says | not executed | TemplateExamples.UdimLastExample | TemplateExamples.UdimLastExampleCorrected |
| scripts/MARI_Tools.py:120 | `replace` removes every copy of the extension | `Hero.tif_v1.tif` gives `Hero_v1` | the name without its trailing extension, `Hero.tif_v1` | not executed | Paths.InnerExtensionExample | Paths.ClipName |
