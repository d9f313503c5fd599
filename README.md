# exps: experiment generator, modelled in Dafny

`exps` turns a Go struct into a list of experiments. Each exported field carries a `vals` tag that lists the values it may take. `Template` builds the Cartesian product of these domains in odometer order: the first domain field varies slowest, the last fastest. Unexported fields are result slots. They must be zero in the template and are copied unchanged into every experiment. `ToCSVWriter` writes the experiments as CSV: a header with every field name, then one row per experiment.

This project models the three parts of `lib.go` that do the work:

- The domain parser: the field loop of `Template` and `parseNumber`.
- The expander `fieldPerm` and the count check after it.
- The CSV serialiser `ToCSVWriter`.

Go reflection is replaced by an explicit schema. A struct type becomes a `Schema`: a list of `Field(name, kind, exported, tag)`. A struct value becomes a `Record`: a list of `Value`s, one per field.

Modules:

- `Wrappers`: `Option` and `Result`.
- `Strings`: the `\s` class and the regular-expression edits the parser uses: delete all `\s`, trim one `\s` at each end, and split on `\s*,\s*`. Also `strings.Split`, `Join` and the trims.
- `Numbers`: `strconv.ParseInt`/`ParseUint` with base 0, a decimal reading of `ParseFloat`, and the `%v` text of numbers.
- `Values`: values, kinds, fields, zero values and `%v`.
- `Domain`: the per-field rules, the field loop (`ParseDomains`) and its specification `Domains`.
- `Engine`: the pure specification `Expand` of `fieldPerm`, its laws, and the two procedures. `FieldPermValue` works on a struct: one working record is updated in place and a copy of it is appended. `FieldPermPointer` works on a pointer: the object is copied before every update and the fresh objects are appended.
- `Generate`: `Template` for a struct and for a pointer, with its specification `TemplateSpec` and the laws about its result.
- `Csv`: the writer's encoding, `ToCSVWriter` as loops over a `Sink`, and an RFC 4180 reader that proves the output reads back.

Eight panics of the source become `Err` values, so these error paths are part of each contract: a non-zero unexported field, an unsupported type, a missing tag, a `range` tag, a non-numeric kind, an unparsable number, no domain field at all, and a count mismatch. The other panics of the core are not modelled; "## Left out" lists them (the `Set` type mismatch, a nil template or element, a float out of range).

Where the documentation and the code disagree, the model follows `lib.go`:

- **Domain fields:** `Template` only indexes `fieldVals[0]`, so a struct without exported fields panics. It does not return a single experiment.
- **String tags:** only ONE whitespace character is removed at each end of the tag. After that, whitespace is removed only around commas.
- **Int and uint widths:** the widths 8/16/32 are parsed as 64-bit numbers, and a 64-bit kind makes `parseNumber` panic.

## Model

| member | source | states |
|---|---|---|
| Strings.IsSpace | lib.go:104 | defines the RE2 `\s` class: tab, LF, form feed, CR and space (vertical tab excluded); RemoveSpaces, TrimOneSpace and the trims are stated in terms of it |
| Strings.RemoveSpaces | lib.go:104-105 | the result holds no `\s` and is no longer than the input |
| Strings.RemoveSpacesKeeps | lib.go:135-136 | a tag without whitespace is left as it is |
| Strings.RemoveSpacesAppend | lib.go:135-136 | deleting whitespace distributes over concatenation |
| Strings.RemoveSpacesInsert | lib.go:104-105 | whitespace inserted anywhere in a tag changes nothing after the deletion |
| Strings.AllSpacesVanish | lib.go:135-136 | a run of whitespace deletes to nothing |
| Strings.TrimOneSpace | lib.go:113-115 | `^\s\|\s$` removal: exactly one whitespace character goes at each end that has one, a single whitespace character becomes empty, and a string without whitespace at its ends is unchanged |
| Strings.TrimLeft | lib.go:112 | the result is no longer than the input and does not start with whitespace |
| Strings.TrimLeftDropsSpaces | lib.go:112 | the left trim keeps a suffix and drops only whitespace |
| Strings.TrimLeftSpaces | lib.go:112 | whitespace before a token that does not start with whitespace is removed exactly |
| Strings.TrimRight | lib.go:112 | the result is no longer than the input and does not end with whitespace |
| Strings.TrimRightDropsSpaces | lib.go:112 | the right trim keeps a prefix and drops only whitespace |
| Strings.TrimRightKeeps | lib.go:112 | a string that ends in a non-empty trimmed token is kept whole |
| Strings.Contains | lib.go:106-107 | defines `strings.Contains`: the pattern occurs at some position; BoolDomain states the bool rule per value through it |
| Strings.HasPrefix | lib.go:137 | defines `strings.HasPrefix`; NumericDomain and JoinedNumbers state the `range` test through it |
| Strings.Join | lib.go:248-252 | defines joining pieces with a separator between them; JoinSplit, SplitJoin and JoinSnoc pin it against Split and the cell loop |
| Strings.Split | lib.go:140 | splitting gives at least one piece |
| Strings.SplitPieces | lib.go:140 | no piece contains the separator |
| Strings.JoinSplit | lib.go:140 | joining the pieces with the separator gives the input back |
| Strings.SplitWithout | lib.go:140 | a string without the separator is one piece |
| Strings.SplitAt | lib.go:140 | the text before the first separator is the first piece |
| Strings.SplitJoin | lib.go:140 | splitting a join of separator-free pieces gives the pieces back |
| Strings.JoinSnoc | lib.go:248-252 | appending a piece appends the separator and the piece |
| Strings.SplitAroundCommas | lib.go:112-116 | `\s*,\s*` split: one token per comma-separated piece |
| Strings.SplitAroundCommasPieces | lib.go:112-116 | no token holds a comma |
| Strings.SplitJoinSpaced | lib.go:112-116 | a ", "-join splits on commas into the tokens, each after the first with its space in front |
| Strings.SplitAroundCommasJoin | lib.go:112-116 | the split reads back the trimmed, comma-free tokens of a ", "-join |
| Strings.TrimToken | lib.go:112-116 | trimming a piece next to a comma gives back the trimmed token it came from |
| Strings.TrimKeepsOut | lib.go:112-116 | trimming adds no character |
| Numbers.NatText | lib.go:249 | `%v` of an unsigned number is non-empty decimal digits with no leading zero |
| Numbers.IntText | lib.go:255 | `%v` of a signed number starts with `-` or a digit |
| Numbers.NatTextValue | lib.go:255 | the printed digits have the number's value |
| Numbers.LeadingZeros | lib.go:39 | leading zeros do not change a digit string's value |
| Numbers.ZerosValue | lib.go:39 | a run of zeros has value 0 |
| Numbers.ParseUint64 | lib.go:42 | a parsed unsigned value is at most 2^64 - 1 |
| Numbers.ParseInt64 | lib.go:39 | a parsed signed value lies in the 64-bit signed range |
| Numbers.UnsignedSyntax | lib.go:39-42 | defines the base-0 syntax: decimal digits, or a leading `0` followed by octal digits; UnsignedSyntaxText pins it, and the prefixes it refuses are under Left out |
| Numbers.UnsignedSyntaxText | lib.go:39-42 | base-0 syntax reads back the printed digits of every natural number |
| Numbers.ParseUint64Text | lib.go:42 | every 64-bit unsigned value survives printing and parsing |
| Numbers.ParseInt64Text | lib.go:39-40 | every 64-bit signed value survives printing and parsing |
| Numbers.Normalize | lib.go:45-46 | dropping trailing fractional zeros gives the canonical spelling of the same value |
| Numbers.NormalizeCanonical | lib.go:45-46 | a canonical decimal is its own normal form |
| Numbers.ParseDecimal | lib.go:45-46 | a parsed decimal is canonical |
| Numbers.ParseDecimalSign | lib.go:45 | a sign in front only negates the unsigned reading |
| Numbers.ParseDecimalInteger | lib.go:45 | a digit string reads as the integer it spells |
| Numbers.ParseDecimalPoint | lib.go:45 | digits with a point read as the decimal they spell |
| Numbers.DecimalTextRoundTrip | lib.go:45-46 | the printed text of any decimal reads back as its canonical form |
| Numbers.DecimalText | lib.go:249 | `%v` of a float32 value is non-empty: the text of its canonical form; DecimalTextRoundTrip pins it against ParseDecimal |
| Numbers.CanonicalText | lib.go:249 | `%v` of a canonical decimal is non-empty: the integer text, or the sign, integer part, point and fraction digits; CanonicalTextRoundTrip, IntegerTextRoundTrip and PointTextRoundTrip pin it |
| Numbers.CanonicalTextRoundTrip | lib.go:45-46 | a canonical decimal survives printing and parsing |
| Numbers.IntegerTextRoundTrip | lib.go:45-46 | a whole decimal survives printing and parsing |
| Numbers.PointTextRoundTrip | lib.go:45-46 | a fractional decimal survives printing and parsing |
| Numbers.DecimalOfParts | lib.go:45-46 | cutting a canonical decimal's digits at the point and reading them back gives it again |
| Numbers.PaddedValue | lib.go:45-46 | zero padding keeps the value of the digits |
| Domain.ParseNumber | lib.go:31-55 | a kind `parseNumber` does not handle gives `NotNumeric`, and only such a kind does; a success has a handled kind and a value of that kind; every other failure is `IllegalNumber` |
| Domain.ParseNumberText | lib.go:31-55 | the `%v` text of every value of a handled kind parses back to the value |
| Domain.BoolDomain | lib.go:101-110 | no tag gives `[true, false]`; otherwise `true` is in the domain iff the tag, after deleting whitespace, mentions `true`, and `false` is in it iff the tag does not mention `true` or mentions `false` |
| Domain.BoolDomainSpaces | lib.go:103-105 | whitespace anywhere in a bool tag does not change the domain |
| Domain.StrValues | lib.go:120-123 | one string value per token, in order |
| Domain.StringDomain | lib.go:111-125 | fails iff the tag is missing, with `MissingTag`; otherwise the domain is non-empty and every value is a comma-free string |
| Domain.StringDomainJoin | lib.go:111-125 | a ", "-join of trimmed comma-free strings (the last one non-empty) parses to exactly those strings |
| Domain.NumberValues | lib.go:140-144 | succeeds iff every token parses; then the values are the parsed tokens in order; otherwise the error is that of the first token that fails |
| Domain.NumberValuesParsed | lib.go:140-144 | when every token parses, the loop returns exactly the parsed values |
| Domain.NumericDomain | lib.go:127-146 | a missing tag gives `MissingTag`; a tag that starts with `range` after deleting whitespace gives `RangeUnsupported`; a success has a handled kind and is a non-empty domain of that kind |
| Domain.NumericDomainSpaces | lib.go:135-136 | whitespace anywhere in a numeric tag does not change the domain |
| Domain.NumericDomainText | lib.go:127-146 | a tag listing the `%v` texts of values, separated by ", ", parses back to exactly those values |
| Domain.NumericDomainRange | lib.go:137-138 | a `range` tag, after leading whitespace, is refused |
| Domain.JoinedNumbers | lib.go:135-140 | a ", "-list of number texts loses only its spaces and never starts with `range` |
| Domain.NumberValuesTexts | lib.go:140-144 | the token loop reads back the `%v` texts of values of a handled kind |
| Domain.SpacedJoin | lib.go:135-136 | deleting whitespace from a ", "-join of space-free texts gives the ","-join |
| Values.IsZero | lib.go:87 | defines `reflect.Value.IsZero`: false, 0, the empty string and a nil slice or interface are zero, a non-nil empty slice is not, an array is zero when all its elements are; DomainsOutcome and TemplateOpaque state the opaque-field rule through it |
| Domain.FieldDomain | lib.go:97-147 | a kind outside numeric, string and bool gives `UnsupportedType`; a domain is non-empty and of the field's kind |
| Domain.DomainsFromOk | lib.go:77-148 | the field loop succeeds iff every field it visits passes |
| Domain.DomainsFromFirstError | lib.go:77-148 | a failing field loop reports the error of the first failing field, and every field before it passed |
| Domain.DomainsFromDescribes | lib.go:77-148 | a successful field loop lists the exported fields in declaration order, each with its name, position and domain |
| Domain.FieldOutcome | lib.go:79-147 | defines one turn of the field loop: an unexported field is skipped when IsZero and is `NonZeroOpaque` otherwise, an exported field yields its FieldDomain; DomainsFromOk and DomainsFromFirstError pin it |
| Domain.DomainsFrom | lib.go:77-148 | defines the field loop from field i on, stopping at the first error; DomainsFromOk, DomainsFromFirstError and DomainsFromDescribes pin it |
| Domain.Domains | lib.go:76-148 | defines the whole field loop; DomainsOutcome states when it succeeds and what it lists, and ParseDomains computes it |
| Domain.DomainsOutcome | lib.go:76-148 | the field loop succeeds iff every exported field has a domain and every unexported field is zero; its entries then describe the exported fields; on failure its error is that of some field |
| Domain.ParseDomains | lib.go:76-148 | the imperative field loop returns what `Domains` specifies, error paths included |
| Domain.StringVals | lib.go:120-123 | the loop copies each token into a string value, in order |
| Domain.NumberVals | lib.go:140-145 | the loop parses each token in turn and stops at the first failure, as `NumberValues` specifies |
| Domain.ExampleNreq | example_test.go:11 | the tag with tabs inside `30` and `00` gives the domain `[3000]` |
| Domain.ExampleNsender | example_test.go:13 | `"1, 5"` gives `[1, 5]` |
| Domain.ExampleGetRatio | example_test.go:14 | `" 0, 4.3"` for a `float32` gives `[0, 4.3]` |
| Domain.ExampleReqType | example_test.go:15 | `" GET me,<tab> POST, PUT"` gives `["GET me", "POST", "PUT"]`: the inner space of `GET me` is kept |
| Domain.ZeroText | example_test.go:22 | the float 0 prints as `0` |
| Domain.PointText43 | example_test.go:28 | the float 4.3 prints as `4.3` |
| Engine.Expand | lib.go:185-206 | defines the records `fieldPerm` appends, in order; ExpandSize, ExpandIndex, ExpandKeeps and ExpandMembers pin it, and FieldPermValue and FieldPermPointer compute it |
| Engine.ExpandVals | lib.go:187-204 | defines one level of `fieldPerm`: the records for each value of the field in turn; ExpandValsSize and ExpandAt pin it |
| Engine.ExpandSize | lib.go:149-154 | the expansion has as many records as the product of the domain sizes |
| Engine.ExpandValsSize | lib.go:187-204 | one loop level yields its values' count times the product of the sizes of the levels below |
| Engine.ProductPositive | lib.go:149-152 | with non-empty domains the product is at least one |
| Engine.ProductSplit | lib.go:149-152 | the product splits at any point into the products of the two parts |
| Engine.ExpandAt | lib.go:185-206 | record `k` comes from value `k / S` of the first domain, where `S` is the product of the later sizes, and is record `k % S` of that value's sub-expansion |
| Engine.ExpandIndex | lib.go:185-206 | odometer law: in record `k`, domain field `a` holds value `(k / S) % n` of its domain, where `n` is the domain's size and `S` the product of the later sizes |
| Engine.ExpandKeeps | lib.go:185-206 | every record agrees with the template on every field that is not a domain field |
| Engine.ExpandIgnores | lib.go:198 | the expansion depends only on the template's non-domain fields |
| Engine.ExpandMembers | lib.go:185-206 | a record is generated iff it agrees with the template outside the domain fields and holds a value of its domain in each domain field |
| Engine.ExpandSound | lib.go:185-206 | every generated record is such a member |
| Engine.ExpandComplete | lib.go:185-206 | every such member is generated |
| Engine.ExpandLast | lib.go:198-203 | the working record ends as the last generated record |
| Engine.FinalKeeps | lib.go:198 | the working record's non-domain fields never change |
| Engine.Put | lib.go:198 | `FieldByName(name).Set(v)`: the record keeps its length; ExpandIndex and ExpandKeeps state which positions the sets change, and PutTwice that a second set wins |
| Engine.PutTwice | lib.go:198 | setting a field twice keeps the second value |
| Engine.Experiment.constructor | lib.go:68-71 | a new experiment object holding a copy of the given record |
| Engine.FieldPermValue | lib.go:185-206 | on a struct, the result is the accumulator followed by the expansion of the working record from level `i`, and the working record is left as the last record generated |
| Engine.ValueTurn | lib.go:198-203 | one iteration on a struct sets the field and appends that value's sub-expansion |
| Engine.FieldPermPointer | lib.go:185-206 | on a pointer, the accumulator is kept; the new objects are fresh and pairwise distinct, and they hold the expansion of the object's record, in order |
| Engine.PointerTurn | lib.go:188-203 | one iteration on a pointer copies the object, sets the field on the copy only, and appends fresh distinct objects holding that value's sub-expansion |
| Engine.HoldsAppend | lib.go:200-202 | appended objects keep holding their records |
| Engine.DistinctAppend | lib.go:200-202 | appending fresh objects keeps all objects distinct |
| Generate.DescribesPositions | lib.go:76-148 | the parsed domains name real fields, are non-empty, and name no field twice |
| Generate.DescribesEmpty | lib.go:76-148 | the domain list is empty iff no field is exported |
| Generate.FieldOutcomeError | lib.go:77-148 | no field raises the error that only the expander raises |
| Generate.TemplateSpec | lib.go:57-160 | defines `Template`'s outcome: the field loop's error, `NoDomainFields` for no exported field, otherwise Expand of the template; TemplateOutcome, TemplateSize, TemplateIndex, TemplateMembers and TemplateOpaque pin it |
| Generate.TemplateOutcome | lib.go:76-160 | `Template` succeeds iff every exported field has a domain, every unexported field is zero and some field is exported; it fails with `NoDomainFields` iff no field is exported and all are zero |
| Generate.TemplateSize | lib.go:149-157 | the number of experiments is the product of the domain sizes, at least one |
| Generate.TemplateIndex | lib.go:185-206 | odometer law for `Template`: experiment `k` holds value `(k / S) % n` of domain field `a` |
| Generate.TemplateMembers | lib.go:76-160 | an experiment is generated iff it agrees with the template outside the domain fields and holds a domain value in each domain field |
| Generate.TemplateOpaque | lib.go:79-96 | every unexported field of every experiment equals the template's, which is zero |
| Generate.CountExperiments | lib.go:149-152 | `numExps` is the product of the domain sizes |
| Generate.Template | lib.go:57-160 | on a struct, the result is `TemplateSpec`: the first field error, `NoDomainFields`, or every combination in odometer order; the count check never fails |
| Generate.TemplatePointer | lib.go:64-74 | on a pointer, the caller's object is unchanged; the outcome and error are those of the struct case; every experiment is a fresh, distinct object holding the struct case's record in the same order |
| Csv.UnicodeSpace | lib.go:241 | defines `unicode.IsSpace`, which decides the leading-space quoting rule of NeedsQuotes |
| Csv.NeedsQuotes | lib.go:241 | defines `fieldNeedsQuotes`: a non-empty cell holding LF, CR, `"` or `,`, starting with a Unicode space, or equal to `\.`; EncodeCellVerbatim pins it |
| Csv.Escape | lib.go:241 | the inside of a quoted cell, every `"` doubled, never shorter than the cell; QuotedEscape reads it back |
| Csv.EncodeCell | lib.go:241 | defines one written cell: quoted and escaped when NeedsQuotes, verbatim otherwise; ReadEncodedCell and EncodeCellVerbatim pin it |
| Csv.Line | lib.go:241 | defines `csv.Writer.Write`: the encoded cells separated by `,`, ended by LF; ReadLine reads it back |
| Csv.Lines | lib.go:242-261 | defines the lines of several records in order; ReadLines and LinesSnoc pin it |
| Csv.EncodeCells | lib.go:241 | one encoded cell per cell |
| Values.Text | lib.go:249-255 | defines `%v`: numbers in decimal, booleans as `true`/`false`, strings verbatim, a nil interface as `<nil>`, a slice or array as `[a b]`; ParseNumberText and NumericDomainText pin it for the domain kinds |
| Values.Texts | lib.go:249 | the `%v` text of each element, one per element |
| Csv.CellText | lib.go:246-256 | defines one CSV cell: a slice or array is its element texts joined by `,`, any other value its `%v`; SliceCells and RowAt pin it |
| Csv.Header | lib.go:237-240 | the header has one name per field |
| Csv.HeaderAt | lib.go:237-240 | header name `i` is the name of field `i`, exported or not |
| Csv.Row | lib.go:243-259 | a row has one cell per field |
| Csv.RowAt | lib.go:244-258 | cell `i` is the text of field `i` |
| Csv.Rows | lib.go:242-261 | one row per record |
| Csv.RowsAt | lib.go:242-261 | row `k` is the row of record `k` |
| Csv.Quoted | lib.go:241 | the reader consumes at least the closing quote of a quoted cell; the reader is the writer's RFC 4180 partner and has no counterpart in lib.go |
| Csv.Unquoted | lib.go:241 | an unquoted cell and what follows make up the input; the reader is the writer's RFC 4180 partner and has no counterpart in lib.go |
| Csv.QuotedEscape | lib.go:241 | section 2 rule 7 of RFC 4180: a cell with doubled quotes, followed by the closing quote, reads back as the cell; the reader is the writer's RFC 4180 partner and has no counterpart in lib.go |
| Csv.UnquotedPlain | lib.go:241 | a cell without comma or LF, written as it is, reads back up to the next delimiter; the reader is the writer's RFC 4180 partner and has no counterpart in lib.go |
| Csv.ReadQuotedCell | lib.go:241 | a quoted cell reads back as itself; the reader is the writer's RFC 4180 partner and has no counterpart in lib.go |
| Csv.ReadPlainCell | lib.go:241 | a cell written as it is reads back as itself; the reader is the writer's RFC 4180 partner and has no counterpart in lib.go |
| Csv.ReadEncodedCell | lib.go:241 | every cell the writer encodes reads back as itself; the reader is the writer's RFC 4180 partner and has no counterpart in lib.go |
| Csv.ReadLine | lib.go:241 | a written line reads back as its cells, whatever they contain; the reader is the writer's RFC 4180 partner and has no counterpart in lib.go |
| Csv.ReadLines | lib.go:241-261 | written lines read back as their records, in order; the reader is the writer's RFC 4180 partner and has no counterpart in lib.go |
| Csv.DocumentRoundTrip | lib.go:229-263 | reading the output back gives the header, then exactly one row per record, in order, each cell the text of its field |
| Csv.EncodeCellVerbatim | lib.go:241 | a cell is written as it is iff it needs no quotes |
| Csv.SliceCells | lib.go:247-253 | a slice cell is empty for no elements, the element's text for one (no trailing comma), and the texts joined by `,` for more |
| Csv.LinesSnoc | lib.go:260 | writing one more record appends its line |
| Csv.Sink.constructor | lib.go:229 | an empty writer |
| Csv.Sink.Write | lib.go:241 | `csv.Writer.Write` appends the record's line and nothing else |
| Csv.HeaderNames | lib.go:237-240 | the heading loop builds the header |
| Csv.HeaderAppend | lib.go:239 | one more field appends its name |
| Csv.FormatCell | lib.go:245-256 | the cell loop builds the field's cell |
| Csv.FormatRow | lib.go:243-259 | the row loop builds the record's row |
| Csv.RowsAppend | lib.go:258-260 | one more record appends its row |
| Csv.Document | lib.go:237-261 | defines what `ToCSVWriter` writes: the header line, then one line per record; DocumentRoundTrip reads it back and ToCSVWriter computes it |
| Csv.ToCSVWriter | lib.go:229-263 | the writer ends up holding what it held before, followed by the document: the header line, then one line per record |
| Csv.ExampleSliceRow | example_test.go:112 | `["3", "0,1"]` is written `3,"0,1"`: the cell with a comma is quoted |
| Csv.ExampleSliceDocument | example_test.go:104-126 | the slice-result example is written as `Nreq,result`, `1,`, `2,0`, `3,"0,1"`, one per line |

## Left out

- Reflection: types and struct values are given as a `Schema` and `Record`s. Field lookup by name (`FieldByName`) is lookup by position, since the exported field names of a Go struct are unique (only blank `_` fields may repeat, and they are unexported, so never looked up by name).
- The struct-or-pointer kind checks at lib.go:59-61 and lib.go:233-235 are not modelled: a schema is always a struct.
- The debug printing before the panic for a non-zero unexported field (lib.go:88-90), and the panic messages' wording: each panic is an `Error` constructor.
- `TemplateType` (lib.go:162-172) is not modelled. It only allocates a zero template and calls `Template`.
- `ToCSV` and `ToCSVPath` (lib.go:208-227) are file I/O. `ToCSVWriter`'s destination is the in-memory `Sink`.
- Write errors and the buffering of `csv.Writer` are not modelled: every write succeeds, and `Flush` adds nothing.
- Domain.ParseNumber: `float32` tokens use a decimal grammar (optional sign, digits, at most one point). Exponents, `inf`/`nan`, hex floats and `_` are rejected, though Go accepts them. Values are kept exact, without rounding to `float32`. `%v` prints them exactly, never in e-notation.
- Numbers.UnsignedSyntax: base-0 parsing covers decimal and leading-zero octal only. The `0x`, `0b` and `0o` prefixes and `_` digit separators are rejected, though Go accepts them.
- Domain.ParseNumber: the type of the parsed value is not checked against the field's type. `parseNumber` returns an `int` for every signed kind and a `uint64` for every unsigned kind (lib.go:37-42), and `Set` at lib.go:198 panics unless the types are identical. So in the source every domain field of kind `int8`, `int16` or `int32`, and every unsigned domain field (`uint`, `uint8`, `uint16`, `uint32`), makes `Template` panic. The model accepts all of them and sets the parsed number.
- Domain.ParseNumber: a float token beyond the `float64` range, such as `1` followed by 400 zeros, makes `ParseFloat` return a range error, and lib.go:50-51 panics. The model returns the exact value. A value beyond the `float32` range but within `float64` does not panic: the conversion to `float32` gives an infinity on common platforms, while the model keeps the exact value.
- Domain.ParseNumber: Go keeps the sign of a negative zero, so `-0` is stored as `float32` negative zero and `%v` prints it as `-0`. The model has one zero, which prints as `0`.
- Generate.TemplatePointer: a nil pointer template panics at lib.go:71. The model's `Experiment` is never null, so this case does not arise.
- Csv.ToCSVWriter: a nil pointer element of `arr` panics at lib.go:245. The model's records are values, so this case does not arise.
- Generate.CountExperiments: `numExps` is an unbounded natural number. Go's `int` multiplication can wrap around for very large products.
- Values.Text: `%v` of structs, maps, pointers and named types other than those in `Value` is not modelled.
- Csv.NeedsQuotes: the writer's other options (a custom separator, `UseCRLF`) are not modelled. Its defaults are.
- Csv.DocumentRoundTrip: stated for schemas with at least one field; an empty schema writes empty lines, which RFC 4180 reads as one empty cell.
