# A verified model of the rust-wasm exercises

This project models in Dafny the sequential logic of six exercises of the
rust-wasm repository and proves properties of that model:

1. **The infix expression compiler** (`rust-enums`): `tokenize` turns a text
   into `Number`, `Variable`, `Operator` and bracket tokens; `parse` runs
   Dijkstra's shunting-yard algorithm over an operand stack and an operator
   stack and builds a binary `Expression` tree. `*` and `/` rank 2, `+` and
   `-` rank 1, and a stacked operator is reduced when its rank is at least
   the incoming one, so equal ranks group to the left. Every `panic!` and
   failing `unwrap` of the source is an error value (`LexError`,
   `ParseError`). `main.rs` holds a second copy of the compiler whose end of
   input is written differently; the two are proved to agree, and the
   assertions of its `main` are proved as lemmas.
2. **String and slice utilities** (`rust-refs-pointers`): word counting,
   tag appending, domain extraction, keyword redaction, summary truncation
   and the two contiguous-run intersections.
3. **Record helpers** (`rust-struct`): available copies, books by author,
   the oldest book and adding a tag without duplicates.
4. **The saturating calculator and string templates** (`data-types`).
5. **The tiny CSV-backed table** (`rust-modules/src/tinycsv_db`): writing a
   table as CSV, reading one back with value-type detection, exact and
   substring queries, insertion and predicate deletion.
6. **The binary struct layout engine** (`wasm-intro/data-structures.js`):
   alignment padding, struct schemes and byte lengths, typed arrays laid
   out by stride, and the `U8`, `U16` and fixed-length ASCII string
   accessors writing into a byte buffer.

Code that mutates state in the source is modelled imperatively: the
tokenizer's character loop, the two-stack token loop, the final reduction
loop, `append_tag`, `redact_sensitive`, `build_summary`, the two
intersection loops, `add_tag` on a `Book` class, `to_csv`, `from_csv`,
`insert` and `delete` on a `Database` class, the `Struct` constructor loop,
and the byte-writing loops of `create` and `FixedASCIIString.set` over an
`array`. Each such method is proved to compute a specification function,
and the properties the source promises are proved about those functions.
The parser's stacks are a cons-list datatype `Stack<T>`, used only through
push, pop and top, as the source uses its `Vec`s.

Files: `wrappers.dfy` (Option, Result), `chars.dfy` (character classes,
UTF-8 byte lengths), `decimal.dfy` (decimal notation, `i64` parsing),
`seqs.dfy` (order-preserving filter), `text.dfy` (`split`, `join`, `lines`,
`trim`), `expr_lexer.dfy`, `expr_parser.dfy`, `expr_main.dfy`,
`expr_strict.dfy`, `expr_examples.dfy`, `refs_pointers.dfy`,
`refs_examples.dfy`, `library.dfy`, `data_types.dfy`, `tinycsv_types.dfy`,
`tinycsv_database.dfy`, `tinycsv_csv.dfy`, `tinycsv_query.dfy`,
`tinycsv_operations.dfy`, `tinycsv_examples.dfy`, `binary_layout.dfy`,
`binary_access.dfy`, `binary_create.dfy`, `binary_examples.dfy`.

## Model

| member | source | states |
|---|---|---|
| `ExprLexer.RunEnd` | rust-enums/src/lib.rs:30-37 | the inner digit loop stops at the first non-digit: every character before the returned index is a digit and the one at it is not |
| `ExprLexer.Tokenize` | rust-enums/src/lib.rs:20-52 | the character loop returns exactly `Lex(input)`: the token grammar, or the first unknown symbol or over-long number as an error |
| `ExprLexer.LexNumber` | rust-enums/src/lib.rs:26-41 | a maximal run of ASCII digits whose value fits an `i32` becomes exactly one `Number` token holding its decimal value |
| `ExprLexer.LexLetter` | rust-enums/src/lib.rs:42 | each letter is its own `Variable` token; there are no multi-letter names |
| `ExprLexer.LexSingleChar` | rust-enums/src/lib.rs:42-47 | a non-digit character is tokenized on its own, independently of what follows |
| `ExprLexer.LexWhitespace` | rust-enums/src/lib.rs:46 | a text of whitespace alone yields no token |
| `ExprLexer.LexUnknownFails` | rust-enums/src/lib.rs:47 | a character no arm accepts, anywhere in the input, makes the whole tokenization fail; no partial token list is returned |
| `ExprLexer.LexFailureSymbol` | rust-enums/src/lib.rs:47 | an unknown-symbol failure names a character of the input that no arm accepts |
| `ExprLexer.LexAppend` | rust-enums/src/lib.rs:20-52 | two texts that do not glue two digits together tokenize independently, the first failure winning |
| `ExprParser.Precedence` | rust-enums/src/lib.rs:71-77 | `*` and `/` rank 2, `+` and `-` rank 1, every other character 0 |
| `ExprParser.Build` | rust-enums/src/lib.rs:101-113 | `build_operation` pops the operator; for a pending operator it needs two operands, pops right then left, and pushes one `Operation(left, op, right)`, so the operand stack shrinks by one; too few operands is `MissingOperand` |
| `ExprParser.Reduce` | rust-enums/src/lib.rs:121-134 | the reduction loop pops only pending operators, stops at a bracket marker, an empty stack or a lower rank, and removes as many operands as operators |
| `ExprParser.Finish` | rust-enums/src/lib.rs:163-179 | the end of input fails whenever a `(` marker is left, and succeeds only with exactly one more operand than pending operators |
| `ExprParser.RightBracketMatches` | rust-enums/src/lib.rs:139-158 | a `)` with no open marker below fails; otherwise it removes exactly the topmost marker and the operators above it |
| `ExprParser.Grouping` | rust-enums/src/lib.rs:121-136 | `x p y q z` groups as `(x p y) q z` exactly when `p` ranks at least as high as `q`, and as `x p (y q z)` otherwise |
| `ExprParser.Shunt` | rust-enums/src/lib.rs:115-160 | the token loop over the two stacks computes the specification `Run` over the tokens, failures included |
| `ExprParser.Parse` | rust-enums/src/lib.rs:89-180 | `parse` of lib.rs returns exactly `Parsed(input)`: tokenize, the token loop, the final reduction and the single-root check |
| `ExprMain.FinishMainAgrees` | rust-enums/src/main.rs:148-165 | main.rs's end of input (reduce to the first bracket, then check) gives the same result as lib.rs's, failures included |
| `ExprMain.ParsedMainAgrees` | rust-enums/src/main.rs:78-166 | the `parse` of main.rs and that of lib.rs agree on every input |
| `ExprMain.ParseMain` | rust-enums/src/main.rs:78-166 | the imperative `parse` of main.rs computes `ParsedMain(input)` |
| `ExprExamples.TokenizeExamples` | rust-enums/src/lib.rs:16-18 | the three documented token lists of `tokenize` |
| `ExprExamples.ParseExamples` | rust-enums/src/lib.rs:85-87 | the three documented trees of `parse`, `(a + b) * c` included |
| `ExprExamples.Atoms` | rust-enums/src/main.rs:170-172 | `x`, `4` and `  3  ` parse to leaves |
| `ExprExamples.BinaryOperations` | rust-enums/src/main.rs:175-191 | `a + b` and `x*y` parse to one operation |
| `ExprExamples.ProductOnTheRight` | rust-enums/src/main.rs:194-205 | `a + b * c` groups the product |
| `ExprExamples.ProductOnTheLeft` | rust-enums/src/main.rs:207-218 | `a * b + c` groups the product |
| `ExprExamples.BracketsOverridePrecedence` | rust-enums/src/main.rs:221-232 | `(a + b) * c` groups the sum |
| `ExprExamples.NestedBrackets` | rust-enums/src/main.rs:235-250 | `((a + b) * c) + d` gives the nested tree |
| `ExprExamples.ComplexChain` | rust-enums/src/main.rs:253-280 | `a + b + c * d * e - f / g` groups left within each rank |
| `ExprExamples.SpacesIgnored` | rust-enums/src/main.rs:283 | spacing does not change the tree of `a+(x*3)` |
| `ExprExamples.IncompleteInputs` | rust-enums/src/main.rs:294-305 | `""` and `"   "` fail with no root, `"a +"` with a missing operand |
| `ExprExamples.TrailingOperator` | rust-enums/src/main.rs:296 | `a + b +` fails |
| `ExprExamples.UnclosedBracket` | rust-enums/src/main.rs:297 | `(a + b` fails with an unmatched opening bracket |
| `ExprExamples.ExtraBracket` | rust-enums/src/main.rs:298 | `a + b)` fails with no opening bracket |
| `ExprExamples.TwoOperatorsInARow` | rust-enums/src/main.rs:299 | `a + * b` fails |
| `ExprExamples.LeadingOperators` | rust-enums/src/main.rs:300 | `++a` fails |
| `ExprExamples.AdjacentVariables` | rust-enums/src/main.rs:301 | `a b` fails with two roots |
| `ExprExamples.NumberNextToLetters` | rust-enums/src/main.rs:302 | `123abc` is four tokens and fails with four roots |
| `ExprExamples.UnknownSymbols` | rust-enums/src/main.rs:303-304 | `a! + b` and `@` fail on the unknown symbol |
| `ExprStrict.PrefixOperatorAccepted` | rust-enums/src/lib.rs:115-179 | the parser as written accepts `+ a b` as `a + b`; the corrected parser rejects it |
| `ExprStrict.PostfixOperatorAccepted` | rust-enums/src/lib.rs:115-179 | the parser as written accepts `a b +` as `a + b`; the corrected parser rejects it |
| `ExprStrict.AsWrittenUnsound` | rust-enums/src/lib.rs:115-179 | as written, a returned tree need not read as the input's tokens |
| `ExprStrict.StrictAgrees` | rust-enums/src/lib.rs:89-180 | wherever the corrected parser succeeds, the parser as written returns the same tree |
| `ExprStrict.StrictSound` | rust-enums/src/lib.rs:115-179 | every tree the corrected parser returns lists the input's non-bracket tokens, in order |
| `ExprStrict.StrictRoundTrip` | rust-enums/src/lib.rs:89-180 | the corrected parser reads a fully bracketed rendering of any tree the tokenizer can produce back as that tree |
| `ExprStrict.RoundTrip` | rust-enums/src/lib.rs:89-180 | so does the parser as written |
| `RefsPointers.CountWords` | rust-refs-pointers/src/main.rs:1-3 | the number of maximal non-whitespace runs, at most the length |
| `RefsPointers.CountWordsZero` | rust-refs-pointers/src/main.rs:1-3 | a text has no word exactly when it is all whitespace |
| `RefsPointers.CountWordsOfWord` | rust-refs-pointers/src/main.rs:1-3 | a non-empty run without whitespace is one word |
| `RefsPointers.CountWordsSplit` | rust-refs-pointers/src/main.rs:1-3 | words on either side of a whitespace character are counted separately and add up |
| `RefsPointers.TagAppended` | rust-refs-pointers/src/main.rs:5-11 | the buffer is kept as a prefix, the tag ends the result, with one separating space exactly when the buffer was non-empty |
| `RefsPointers.TagAppendedWords` | rust-refs-pointers/src/main.rs:5-11 | appending a tag adds exactly the tag's words |
| `RefsPointers.AppendTag` | rust-refs-pointers/src/main.rs:5-11 | the buffer becomes `TagAppended(old buffer, tag)` |
| `RefsPointers.Find` | rust-refs-pointers/src/main.rs:14 | `str::find`: the first position where the pattern occurs, or none when it occurs nowhere |
| `RefsPointers.ExtractDomain` | rust-refs-pointers/src/main.rs:13-18 | the slice from just after the first `://` (or from 0) up to the next `/` or the end, holding no `/` |
| `RefsPointers.ExtractDomainUnique` | rust-refs-pointers/src/main.rs:13-18 | any slice with those properties is the extracted domain |
| `RefsPointers.ReplaceWithItself` | rust-refs-pointers/src/main.rs:24-31 | replacing every occurrence of the keyword by itself gives the text back, so all other text is kept in order |
| `RefsPointers.ReplaceKeepsPrefix` | rust-refs-pointers/src/main.rs:24-31 | the text before the first occurrence of the keyword is kept |
| `RefsPointers.Preview` | rust-refs-pointers/src/main.rs:35 | the prefix of the text that is `min(10, byte length)` bytes long |
| `RefsPointers.RedactAll` | rust-refs-pointers/src/main.rs:21-31 | the `find` loop over the rest of the text returns exactly `Replace(text, keyword, [REDACTED])` |
| `RefsPointers.RedactSensitive` | rust-refs-pointers/src/main.rs:20-36 | the text becomes every non-overlapping, left-to-right occurrence of the keyword replaced by `[REDACTED]`, and the result is its first ten bytes |
| `RefsPointers.SummaryOfLongBody` | rust-refs-pointers/src/main.rs:41-46 | a body longer than `max_len` bytes keeps exactly its first `max_len` bytes, then `... [SUMMARY]` |
| `RefsPointers.SummaryOfShortBody` | rust-refs-pointers/src/main.rs:41-46 | a body within the limit is kept whole, followed by ` [SUMMARY]` (or is `[SUMMARY]` when empty) |
| `RefsPointers.BuildSummary` | rust-refs-pointers/src/main.rs:38-51 | the word count of the body before it changes, the domain of the title, and the body becomes its summary |
| `RefsPointers.Position` | rust-refs-pointers/src/main.rs:68-71 | the first index of `a` whose element is in `b`, or none when no element is |
| `RefsPointers.RunEndIn` | rust-refs-pointers/src/main.rs:74-81 | the run of elements of `b` starting at an index ends at the first element not in `b` |
| `RefsPointers.Intersection` | rust-refs-pointers/src/main.rs:62-84 | empty exactly when no element of `a` is in `b`; otherwise the slice of `a` from the first element in `b` through the run of elements in `b` that follows it |
| `RefsPointers.FindIntersection` | rust-refs-pointers/src/main.rs:62-84 | on a sorted `b` the loop computes `Intersection(a, b)`, the empty result for an empty input included |
| `RefsPointers.GetIntersection` | rust-refs-pointers/src/main.rs:86-119 | the two-pointer walk returns a contiguous slice of `a` whose elements are all in `b`, and `Intersection(a, b)` when both are strictly increasing |
| `RefsExamples.CountWordsExamples` | rust-refs-pointers/src/main.rs:127-131 | `hello world` has two words, the example content four |
| `RefsExamples.DomainExample` | rust-refs-pointers/src/main.rs:132 | the domain of `https://example.com/article` is `example.com` |
| `RefsExamples.SummaryExample` | rust-refs-pointers/src/main.rs:130-133 | the summary of the example content ends with `... [SUMMARY]` |
| `RefsExamples.RedactExample` | rust-refs-pointers/src/main.rs:135-136 | redacting `  Secret` in the summary gives the preview `[REDACTED]` |
| `RefsExamples.IntersectionOfOverlap` | rust-refs-pointers/src/main.rs:138-140 | `[1..5]` and `[3..7]` give `[3, 4, 5]` |
| `RefsExamples.IntersectionOfLastElement` | rust-refs-pointers/src/main.rs:142-144 | gives `[30]` |
| `RefsExamples.IntersectionWithDuplicates` | rust-refs-pointers/src/main.rs:146-148 | gives `[2, 2]` |
| `RefsExamples.IntersectionStopsAtGap` | rust-refs-pointers/src/main.rs:150-152 | gives `[2]`: the run stops at the first element not in `b` |
| `RefsExamples.IntersectionOfEmpty` | rust-refs-pointers/src/main.rs:154-155 | an empty `a` gives the empty slice |
| `RefsExamples.IntersectionOfTail` | rust-refs-pointers/src/main.rs:157-160 | gives `[15, 20]` |
| `RefsExamples.SummaryThenRedact` | rust-refs-pointers/src/main.rs:122-136 | the calls of `main` in order return 4 words, `example.com` and `[REDACTED]` |
| `Library.CountAvailableCopies` | rust-struct/src/main.rs:24-26 | the number of copies whose flag is true, at most the number of copies |
| `Library.AvailableExtremes` | rust-struct/src/main.rs:24-26 | the count is 0 exactly when no copy is available and the number of copies exactly when all are |
| `Library.AvailableAppend` | rust-struct/src/main.rs:24-26 | counting over two lists of copies adds up |
| `Library.BooksBy` | rust-struct/src/main.rs:41-43 | exactly the books whose author has the name, as a subsequence of the library (library order), one entry per matching position, so a book listed twice is found twice |
| `Library.BooksByAppend` | rust-struct/src/main.rs:41-43 | a library of two shelves is searched shelf by shelf |
| `Library.BooksByIdempotent` | rust-struct/src/main.rs:41-43 | searching the result again by the same name finds all of it |
| `Library.OldestIndex` | rust-struct/src/main.rs:58-60 | none exactly for an empty library; otherwise an index of least year with every earlier book strictly younger (ties go to the first) |
| `Library.OldestBook` | rust-struct/src/main.rs:58-60 | none exactly for an empty library; otherwise a book of the library whose year is minimal, and every book before it is strictly newer (`min_by_key` keeps the first of equal years) |
| `Library.OldestIndexUnique` | rust-struct/src/main.rs:58-60 | the first book of least year is the only index with those properties |
| `Library.TagAdded` | rust-struct/src/main.rs:70-74 | the tag is appended at the end when absent; otherwise the tags are unchanged |
| `Library.TagAddedIdempotent` | rust-struct/src/main.rs:70-74 | adding the same tag twice is adding it once |
| `Library.TagAddedNoDuplicates` | rust-struct/src/main.rs:70-74 | adding a tag never creates a duplicate and loses no tag |
| `Library.AddTag` | rust-struct/src/main.rs:70-74 | the book's tags become `TagAdded`; title, year, author and copies are untouched |
| `Library.SearchExample` | rust-struct/src/main.rs:100-106 | each author of `main` has exactly its one book |
| `Library.CopiesExample` | rust-struct/src/main.rs:112 | the first book has two available copies |
| `Library.TagsExample` | rust-struct/src/main.rs:85-86 | `classic` is appended, `sci-fi` is already there |
| `Library.LibraryExample` | rust-struct/src/main.rs:76-115 | the checks of `main`: the titles found, the oldest title, two copies, the tags |
| `DataTypes.Saturate` | data-types/src/main.rs:33-35 | the `i32` nearest to the exact result: the result itself when in range |
| `DataTypes.SaturateEnds` | data-types/src/main.rs:33-35 | above `i32::MAX` gives `MAX`, below `i32::MIN` gives `MIN`; the result is at most the value exactly when the value is at least `MIN`, and at least the value exactly when it is at most `MAX` |
| `DataTypes.Calculate` | data-types/src/main.rs:31-38 | `+`, `-` and `*` saturate the exact sum, difference and product into the `i32` range; any other operation gives 0 |
| `DataTypes.CalculateExact` | data-types/src/main.rs:31-38 | without overflow the result is the exact one |
| `DataTypes.CalculateExamples` | data-types/src/main.rs:4-14 | the assertions of `main`, `MAX + 1`, `MIN - 1`, `MAX * 2` and `/` included |
| `DataTypes.FormatMessage` | data-types/src/main.rs:40-42 | the message is as long as the template with the name and both numbers filled in |
| `DataTypes.FormatMessageShape` | data-types/src/main.rs:40-42 | the message is `Hello, {name}! Your account: {score}, level: {level}.` piece by piece |
| `DataTypes.FormatMessageNumbers` | data-types/src/main.rs:40-42 | the numbers in the message read back as the score and the level |
| `DataTypes.AlexMessage` | data-types/src/main.rs:18-19 | the first message of `main` |
| `DataTypes.MariaMessage` | data-types/src/main.rs:21-23 | the second message of `main` |
| `DataTypes.BuildGreeting` | data-types/src/main.rs:44-46 | the name, one space, then the suffix |
| `DataTypes.GreetingExample` | data-types/src/main.rs:25-26 | `Ivan Welcome!` |
| `TinycsvTypes.FloatEqCases` | rust-modules/src/tinycsv_db/types.rs:8-12 | `f64`'s `==`: NaN equals nothing, itself included; any other float equals itself; the relation is symmetric; a non-zero float equals exactly its own bit pattern |
| `TinycsvTypes.FloatEqExamples` | rust-modules/src/tinycsv_db/types.rs:8-12 | a quiet NaN is not equal to itself, and `0.0` and `-0.0` differ in their bits but are equal |
| `TinycsvTypes.ValueEqCases` | rust-modules/src/tinycsv_db/types.rs:8-14 | the derived `PartialEq`: values of different variants differ, integers, texts and booleans compare by value, floats by `f64`'s `==`; it is symmetric |
| `TinycsvTypes.Row.New` | rust-modules/src/tinycsv_db/row.rs:8-10 | stores the values unchanged |
| `TinycsvTypes.Row.GetValues` | rust-modules/src/tinycsv_db/row.rs:12-14 | returns the stored values |
| `TinycsvTypes.Row.GetValue` | rust-modules/src/tinycsv_db/row.rs:16-18 | `Some(values[i])` for an index in range and `None` past the end |
| `TinycsvDatabase.Database.constructor` | rust-modules/src/tinycsv_db/database.rs:11-16 | the given schema and no rows |
| `TinycsvDatabase.ParseBool` | rust-modules/src/tinycsv_db/database.rs:69 | exactly `true` and `false` parse as booleans |
| `Decimal.ParseI64` | rust-modules/src/tinycsv_db/database.rs:72 | `str::parse::<i64>` (an optional sign, then decimal digits) yields only values in the `i64` range |
| `Decimal.IntToStringParse` | rust-modules/src/tinycsv_db/database.rs:72 | the decimal notation of every `i64` parses back as that integer |
| `TinycsvDatabase.DetectValueType` | rust-modules/src/tinycsv_db/database.rs:68-79 | a boolean if the text is one, else an `i64` if it is one, else a float if it parses as one, else the text itself |
| `TinycsvDatabase.DetectBoolean` | rust-modules/src/tinycsv_db/database.rs:68-71 | `true` and `false` are detected as booleans |
| `TinycsvDatabase.DetectInteger` | rust-modules/src/tinycsv_db/database.rs:68-74 | the decimal notation of an `i64` is detected as that integer |
| `TinycsvDatabase.KnownColumn` | rust-modules/src/tinycsv_db/database.rs:43-48 | exactly `id`, `name`, `score` and `active` are known |
| `TinycsvDatabase.HeaderColumns` | rust-modules/src/tinycsv_db/database.rs:42-50 | the header names map to Integer, Text, Float, Boolean in header order; any other header fails, naming it |
| `TinycsvDatabase.HeaderColumnsFailure` | rust-modules/src/tinycsv_db/database.rs:42-50 | the first unknown header fails the whole header line |
| `TinycsvDatabase.RowOf` | rust-modules/src/tinycsv_db/database.rs:53-58 | one value per comma-separated field, each field trimmed and then typed |
| `TinycsvDatabase.ParsedCsv` | rust-modules/src/tinycsv_db/database.rs:36-65 | an input without lines fails; otherwise one row per line after the header |
| `TinycsvDatabase.ReadRows` | rust-modules/src/tinycsv_db/database.rs:52-59 | the loop gives the row of every line after the header, in order |
| `TinycsvDatabase.FromCsv` | rust-modules/src/tinycsv_db/database.rs:36-65 | a new database with the schema and rows of `ParsedCsv`, or its error |
| `Text.Split` | rust-modules/src/tinycsv_db/database.rs:42 | `split(',')`: at least one piece, none holding the separator |
| `Text.SplitJoin` | rust-modules/src/tinycsv_db/database.rs:55 | splitting what was joined gives the pieces back when none holds the separator |
| `Text.LinesTerminated` | rust-modules/src/tinycsv_db/database.rs:52 | `lines()` of lines each followed by `\n` gives the lines back |
| `Text.Trim` | rust-modules/src/tinycsv_db/database.rs:56 | `trim()`: the text without leading and trailing whitespace |
| `Text.TrimIdempotent` | rust-modules/src/tinycsv_db/database.rs:56 | trimming twice is trimming once |
| `TinycsvCsv.Pop` | rust-modules/src/tinycsv_db/csv.rs:19 | `String::pop`: drops the last character; the empty string stays empty |
| `TinycsvCsv.ToCsv` | rust-modules/src/tinycsv_db/csv.rs:11-37 | the nested loops build exactly `CsvText(schema, rows)` |
| `TinycsvCsv.ColumnsTextJoin` | rust-modules/src/tinycsv_db/csv.rs:14-20 | the header loop writes the column names joined by `,`, plus a comma that `pop` removes |
| `TinycsvCsv.ValuesTextJoin` | rust-modules/src/tinycsv_db/csv.rs:22-34 | each row writes its values joined by `,`, plus a comma that `pop` removes |
| `TinycsvCsv.CsvTextLines` | rust-modules/src/tinycsv_db/csv.rs:11-37 | for a non-empty schema and non-empty rows the text is the header line and then one line per row, in order, each ended by `\n` |
| `TinycsvCsv.EmptyRowWritesNoLine` | rust-modules/src/tinycsv_db/csv.rs:32-33 | a row without values pops the previous `\n` and writes no line of its own |
| `TinycsvCsv.EmptySchemaHeader` | rust-modules/src/tinycsv_db/csv.rs:19-20 | an empty schema writes a lone `\n` |
| `TinycsvCsv.RowReadsBack` | rust-modules/src/tinycsv_db/csv.rs:22-34 | a row whose values read back is read by `from_csv` as the same row |
| `TinycsvCsv.CsvRoundTrip` | rust-modules/src/tinycsv_db/csv.rs:11-37 | reading back what `to_csv` writes gives the schema and the rows, for a known schema and values whose text reads back as themselves |
| `TinycsvQuery.ColumnIndex` | rust-modules/src/tinycsv_db/query.rs:15-20 | the first column with that name, or none when no column has it |
| `TinycsvQuery.FindExact` | rust-modules/src/tinycsv_db/query.rs:14-26 | an unknown column fails; otherwise exactly the rows whose value in the column is `==` to the value under the derived `PartialEq` (floats compared as IEEE 754 numbers), in table order |
| `TinycsvQuery.FindContains` | rust-modules/src/tinycsv_db/query.rs:37-55 | an unknown column fails; otherwise exactly the rows whose value in the column is a text containing the substring, in table order |
| `TinycsvQuery.ExactWithinContains` | rust-modules/src/tinycsv_db/query.rs:22-54 | the exact query for a text finds a subsequence of the substring query for it |
| `TinycsvOperations.Insert` | rust-modules/src/tinycsv_db/operations.rs:9-11 | the row is appended after the previous rows, which are unchanged; the schema is untouched |
| `TinycsvOperations.Retained` | rust-modules/src/tinycsv_db/operations.rs:18-20 | exactly the rows the predicate does not pick are kept |
| `TinycsvOperations.Delete` | rust-modules/src/tinycsv_db/operations.rs:18-20 | the rows become `Retained(old rows, predicate)`; the schema is untouched |
| `TinycsvOperations.RetainedInOrder` | rust-modules/src/tinycsv_db/operations.rs:19 | the survivors keep their order |
| `TinycsvOperations.RetainedIdempotent` | rust-modules/src/tinycsv_db/operations.rs:19 | deleting twice with the same predicate is deleting once |
| `TinycsvOperations.RetainedCount` | rust-modules/src/tinycsv_db/operations.rs:19 | survivors and picked rows add up to the table |
| `TinycsvOperations.RetainedNone` | rust-modules/src/tinycsv_db/operations.rs:19 | a predicate that picks nothing keeps the table |
| `TinycsvOperations.DeleteAfterInsert` | rust-modules/src/tinycsv_db/operations.rs:9-20 | deleting after an insert keeps the new row exactly when the predicate does not pick it |
| `TinycsvExamples.CsvOfAlice` | rust-modules/src/main.rs:43-45 | the example table is written as `id,name,score,active\n1,Alice,95.5,true\n` |
| `TinycsvExamples.QueriesOfAlice` | rust-modules/src/main.rs:35-41 | both queries of `main` find one row |
| `TinycsvExamples.FloatQueries` | rust-modules/src/tinycsv_db/query.rs:22-26 | a query for NaN finds no row, not even one whose score is NaN, and a query for `0.0` finds the row whose score is `-0.0` |
| `TinycsvExamples.RestoredAlice` | rust-modules/src/main.rs:47-55 | reading the text back gives the example schema and row |
| `TinycsvExamples.DeleteAlice` | rust-modules/src/main.rs:57-59 | deleting the rows with id 1 empties the table |
| `TinycsvExamples.TinycsvSession` | rust-modules/src/main.rs:3-62 | the checks of `main`, step by step |
| `BinaryLayout.Alignment` | wasm-intro/data-structures.js:96 | `alignment ?? 1`: 2 for `U16`, 1 for everything else |
| `BinaryLayout.GetAlignment` | wasm-intro/data-structures.js:194-202 | the least padding, below `size`, that moves the offset to a multiple of `size`; 0 exactly when it is one already |
| `BinaryLayout.FieldOffset` | wasm-intro/data-structures.js:95-126 | each field starts at a multiple of its alignment, less than one alignment after the bytes before it |
| `BinaryLayout.FieldPlacement` | wasm-intro/data-structures.js:95-126 | every field has an entry in the scheme, and the entries before it cover exactly `FieldOffset` bytes |
| `BinaryLayout.NewStruct` | wasm-intro/data-structures.js:92-130 | the constructor loop builds `SchemeOf(fields)` and `TotalLength(fields)`, and a struct of well-formed fields is well formed |
| `BinaryLayout.SchemeCovers` | wasm-intro/data-structures.js:123-128 | `byteLength` is what the scheme covers: the field sizes plus the inserted padding |
| `BinaryLayout.SchemeFields` | wasm-intro/data-structures.js:95-126 | the scheme holds every field in order and nothing but padding besides |
| `BinaryLayout.PaddingBeforeU16` | wasm-intro/data-structures.js:96-113 | every padding entry is one byte in front of a `U16` |
| `BinaryLayout.FieldsInOrder` | wasm-intro/data-structures.js:95-126 | fields follow one another without overlapping |
| `BinaryLayout.NoTrailingPadding` | wasm-intro/data-structures.js:123-128 | the struct ends where its last field ends |
| `BinaryLayout.TupleFields` | wasm-intro/data-structures.js:237-244 | field `i` of a tuple is keyed by the decimal `i`, and the keys are distinct |
| `BinaryLayout.Tuple` | wasm-intro/data-structures.js:237-244 | a struct whose fields are the data types in order, keyed `0`, `1`, … |
| `BinaryLayout.ElementOffsetFormula` | wasm-intro/data-structures.js:308-310 | element `i` lives at `byteOffset + i * BYTES_PER_ELEMENT` |
| `BinaryLayout.ElementsInside` | wasm-intro/data-structures.js:248 | the elements lie one after another inside `element byteLength * length` bytes |
| `BinaryAccess.WriteU8` | wasm-intro/data-structures.js:10-20 | a `Uint8Array` store changes exactly its byte, to the value modulo 256 |
| `BinaryAccess.U16Offset` | wasm-intro/data-structures.js:33-36 | the offset rounded down to an even one, one byte earlier exactly when it is odd |
| `BinaryAccess.WriteU16` | wasm-intro/data-structures.js:33-48 | the value modulo 2^16, low byte first, at the rounded offset; nothing else changes |
| `BinaryAccess.U16RoundTrip` | wasm-intro/data-structures.js:40-48 | `get` after `set` gives the value modulo 2^16 |
| `BinaryAccess.U16OddReachesBack` | wasm-intro/data-structures.js:33-36 | at an odd offset the store writes into the byte before the field and leaves its second byte as it was |
| `BinaryAccess.WriteU16Exact` | wasm-intro/data-structures.js:38-48 | the corrected store: two bytes at exactly the field's offset, nothing else changed |
| `BinaryAccess.U16ExactRoundTrip` | wasm-intro/data-structures.js:38-48 | the corrected store reads back at every offset |
| `BinaryAccess.U16ExactAgrees` | wasm-intro/data-structures.js:33-48 | at an even offset the source's accessor is the corrected one |
| `BinaryAccess.AsciiBytes` | wasm-intro/data-structures.js:78-86 | the window holds the code units of the value modulo 256 as far as they go, then zeros |
| `BinaryAccess.WriteAscii` | wasm-intro/data-structures.js:78-86 | `set` changes only its `maxLength`-byte window |
| `BinaryAccess.SetAscii` | wasm-intro/data-structures.js:78-86 | the loop leaves exactly `WriteAscii`'s bytes in the buffer |
| `BinaryAccess.AsciiText` | wasm-intro/data-structures.js:65-76 | the bytes of the window up to the first 0, or all of them |
| `BinaryAccess.GetAscii` | wasm-intro/data-structures.js:65-76 | the loop returns `AsciiText` of the window |
| `BinaryAccess.AsciiRoundTrip` | wasm-intro/data-structures.js:65-86 | `get` after `set(s)` gives `s` cut to `maxLength`, when every code unit of `s` is in 1..255 |
| `BinaryAccess.AsciiStopsAtZero` | wasm-intro/data-structures.js:68-71 | a code unit that is 0 modulo 256 ends the text early |
| `BinaryCreate.FieldEntryOffset` | wasm-intro/data-structures.js:144-159 | `create` writes field `i` of a struct at `offset + FieldOffset(fields, i)` |
| `BinaryCreate.Create` | wasm-intro/data-structures.js:141-162 | `init(buffer, offset).set(value)` leaves exactly `Write`'s bytes |
| `BinaryCreate.CreateStruct` | wasm-intro/data-structures.js:144-159 | the scheme walk sets each named field at consecutive offsets and skips padding, leaving exactly `Write`'s bytes |
| `BinaryCreate.CreateArray` | wasm-intro/data-structures.js:262-270 | the loop sets element `i` for `i` below both lengths, leaving exactly `Write`'s bytes |
| `BinaryCreate.SetElement` | wasm-intro/data-structures.js:308-318 | `set(i, value)` writes the element at its stride offset |
| `BinaryCreate.CreateNew` | wasm-intro/data-structures.js:141 | with the default buffer: a fresh zeroed buffer of `byteLength` bytes, then written |
| `BinaryCreate.ArrayCreateStops` | wasm-intro/data-structures.js:265 | bytes past the first `min(length, data.length)` elements keep what they held |
| `BinaryCreate.RoundTrip` | wasm-intro/data-structures.js:141-192 | the view gives back the value it was created from, when the layout holds the value and no field writes into another |
| `BinaryCreate.GetAfterCreate` | wasm-intro/data-structures.js:262-318 | `get(i)` after `TypedArray.create` gives element `i` of the data |
| `BinaryCreate.EvenSeparated` | wasm-intro/data-structures.js:33-36 | when every `U16` sits at an even address, no field writes into another |
| `BinaryCreate.PaddingUntouched` | wasm-intro/data-structures.js:144-159 | when every `U16` sits at an even address, `Struct.create` leaves every byte of a padding entry as it was |
| `BinaryExamples.ColorLayout` | wasm-intro/data-structures.js:321 | `Color` is three bytes keyed `0`, `1`, `2`, without padding |
| `BinaryExamples.PersonLayout` | wasm-intro/data-structures.js:323-329 | `Person` has one padding byte before `id` and is 23 bytes long |
| `BinaryExamples.PersonSeparated` | wasm-intro/data-structures.js:323-329 | wherever a `Person` starts, no field writes into another |
| `BinaryExamples.ThirdPerson` | wasm-intro/data-structures.js:331-360 | the demo array is 2300000 bytes and `data.get(2)` gives back Jim Beam, 35, id 3 |
| `BinaryExamples.OuterClobbered` | wasm-intro/data-structures.js:33-36 | as written, a `U16` inside a struct at an odd offset overwrites the field before it, so the round trip fails |
| `BinaryExamples.OuterWithExactU16` | wasm-intro/data-structures.js:38-48 | with the corrected store the neighbouring field keeps its value |
| `BinaryExamples.PaddedLayout` | wasm-intro/data-structures.js:95-126 | `new Struct({ a: U8, b: U16 })` has one padding byte in front of `b` and is 4 bytes long |
| `BinaryExamples.PaddingWrittenAtOddOffset` | wasm-intro/data-structures.js:33-36 | as written, `{ a: U8, b: U16 }` created at the odd offset 1 leaves the low byte of `b` in its padding byte, whatever that byte held |
| `BinaryExamples.PaddedWithExactU16` | wasm-intro/data-structures.js:38-48 | with the corrected store the padding byte stays 0 |

## Left out

- `char::is_alphabetic` is modelled for the ASCII letters only; other Unicode letters are treated as unknown symbols. `char::is_whitespace` is the full Unicode White_Space list.
- Rust panics, `catch_unwind` and the `should_panic!` macro of rust-enums/src/main.rs are not modelled as such: every panic is a failure value, and the examples state which failure each input reaches.
- `ExprLexer.Tokenize` adds one failure the source has as a panic: a digit run above `i32::MAX` is `NumberTooLarge` instead of a failing `unwrap`.
- The byte-index panics of Rust strings are preconditions, not modelled behaviour: `RefsPointers.BuildSummary` requires `max_len` to fall on a character boundary (`truncate`), and `RefsPointers.RedactSensitive` requires the tenth byte of the result to fall on one.
- `RefsPointers.RedactSensitive` requires a non-empty keyword: with an empty one the source's loop never advances and does not terminate.
- `RefsPointers.FindIntersection` requires `b` to be sorted, as `binary_search` does; on an unsorted `b` the source's result is unspecified.
- `RefsPointers.GetIntersection` is proved equal to `Intersection` only for strictly increasing inputs; for other inputs the model states only that it returns a slice of `a` whose elements are in `b`.
- Lifetimes and borrows in rust-struct and rust-refs-pointers have no behavioural content and are not modelled; returned slices and references are values.
- Floating point in the CSV table: an `f64` is its IEEE 754 bit pattern, compared with `==` as IEEE 754 does (NaN equals nothing, `0.0 == -0.0`) but without arithmetic; `f64::to_string` and `str::parse::<f64>` are parameters of the operations that need them, and the round trip holds for values whose text reads back as themselves. A general CSV round trip does not hold (a text `1` comes back as an integer) and is not claimed.
- `TinycsvQuery.FindExact` and `TinycsvQuery.FindContains` turn the out-of-bounds `row.values[column_index]` panic into a `ShortRow` failure.
- `Database::get_schema` and `get_rows` are field reads with nothing to state; `Schema::new` and the `DataType`/`Value` enums are plain datatypes.
- The lazy accessor plumbing of `Struct.from` (`Object.defineProperty`) is modelled only as what its getters read (`BinaryCreate.Read`), not as property objects; `StructDataView.get`/`set` are not modelled.
- `U16` stores are little-endian; the host endianness of `Uint16Array` is not modelled.
- `BinaryCreate.Write` and `BinaryCreate.Create` require the buffer to hold the whole layout at `offset`. In the source a `Uint8Array` or `Uint16Array` view that runs past the buffer (wasm-intro/data-structures.js:11, 38, 62) throws a `RangeError`, and `TypedArrayDataView.set(index, value)` (line 317) reaches it with an index past the array's length; the model has no failure result for that path. `Data.Num` holds integers only: the fractional, NaN and infinite numbers that the typed-array stores convert with ToUint8 and ToUint16 (3.7 is stored as 3, NaN as 0) are not modelled.
- JavaScript values given to `create` must have the shape the layout asks for (a number for a number field, a string for a string field, an object for a struct); other values are not modelled.
- The `console.log` lines of the demo in wasm-intro/data-structures.js are I/O; `ThirdPerson` states the values they print.
- The wasm-bridge tree, rust-wasm-build, wasm-intro/index.js and node.js, rust-intro and intro are not part of this model: foreign calls, allocation shims, module loading and printing.

## Findings

| source | as written | input that shows it | evidently intended | confidence | as-written member | corrected member |
|---|---|---|---|---|---|---|
| rust-enums/src/lib.rs:115-179 | the token loop never checks that operands and operators alternate, so an operator before or after both of its operands is accepted | `+ a b` and `a b +` both parse as `a + b` | inputs with an operator out of place fail, as `++a` and `a + * b` do | high; not executed | `ExprStrict.PrefixOperatorAccepted` | `ExprStrict.StrictSound` |
| wasm-intro/data-structures.js:33-36 | `U16.init` rounds an odd offset down, so a `U16` inside a struct that starts at an odd offset writes its low byte into the field before it | `new Struct({ a: U8, b: Tuple(U16) })` created from `{ a: 7, b: [0x0102] }` reads back `a` as 2; the same rounding lets `{ a: U8, b: U16 }` created at offset 1 write `b`'s low byte into its padding byte (`BinaryExamples.PaddingWrittenAtOddOffset`), as every `Person` at an odd offset of the demo's `PersonArray` does with `id` | each field is stored in its own bytes, padding stays untouched, and each field reads back what was set | medium; not executed | `BinaryExamples.OuterClobbered` | `BinaryAccess.U16ExactRoundTrip` |
