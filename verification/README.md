# LeakSignal: verified models

LeakSignal watches the traffic of an Envoy proxy for sensitive data. Bytes of a response arrive through a
segmented pipe; a streaming JSON parser or a chunked HTML scanner consumes them; an evaluator finds matches and
correlates them; a path policy decides which matchers apply; and one collector hands that policy to all filters of
the proxy. This project models these six parts in Dafny and proves what they promise each other.

| part | modules | main results |
|---|---|---|
| pipe | `Bytes`, `Pipe`, `PipeRuns`, `Body` | the reader is a byte FIFO in every run of appends, reads and drops, with every limit, except for reads characterised exactly (`Harmful`), which panic or leave a reader that does |
| JSON | `Unicode`, `JsonString`, `JsonNumber`, `JsonSpec`, `JsonGrammar`, `JsonTheorems`, `JsonDocument`, `JsonSpans`, `JsonErrors`, `JsonContinuation`, `JsonEarlyReturn`, `JsonParser`, `JsonReports` | the parser accepts exactly a relaxed grammar; every layout and spelling of every tree is read back; reported ranges are exact for every input, refused ones included; every error is true of the input, and final unless it is the end of the input, which is reported only where more input changes the result; every key and value is reported for; nothing depends on how the bytes are cut into buffers or where reads are suspended |
| evaluator | `RawSearch`, `Correlation`, `CorrelationLoss`, `CorrelationOrder`, `ReportStyle`, `Evaluator`, `Matcher`, `MatchReports` | the raw search is the leftmost-greedy choice; the correlation sweep emits the only list of pairs of which each is the next possible one, detects whether there is a near pair, ends within the sum of the group sizes, and loses nothing exactly when no two emissions would have neighbouring second matches; every match of every raw and every regular expression is reported, or goes to its group, in order and with the fields that its metadata and the interest of its correlation say |
| HTML | `ChunkedScan`, `ChunkedRuns`, `HtmlText`, `HtmlScan`, `HtmlNeedles`, `HtmlReports`, `HtmlExactness` | in a body whose windows are decoded intact, as those of every ASCII body are, every report quotes the body at its global position, and a needle, among any other matchers, is reported at occurrences only and nowhere twice; an ASCII needle is reported wherever it occurs, and where one scan of the whole body finds it, for all ASCII bodies and reads, if and only if it has no border and is at most 513 bytes long; the windows of a UTF-8 body are decoded intact if and only if none is cut inside a character |
| policy | `PathGlob`, `GlobMatching`, `GlobText`, `PolicyResolution`, `PolicyTerms` | a glob means what its text says, and is matched as it is meant, on every path, if and only if it is tame or means no path; the most specific matching pair wins for every category |
| distribution | `Distribution`, `DistributionEffects`, `DistributionFaults` | in every interleaving of host calls each registered live filter converges on the collector's policy and upstream, which are those last configured or received; outside the protocol, exactly when it still does |

How it is built: code that changes state is a class or a method with loops (`Pipe`, `Body`, `JsonParser`, `RawSearch`,
`Correlation`, `Matcher`, `HtmlScan`, `GlobMatching`, `PolicyResolution`, `Distribution`), proved equal to a
specification function; what the code promises is proved about that function. Loop bodies that the source writes in
line are separate methods where that keeps a proof short. Automatic induction is off in every lemma to which Dafny
would apply it, so that each induction is the one that is written. Strings of the JSON reader and the evaluator are
sequences of Unicode scalars with explicit UTF-8 and UTF-16; positions are byte positions; shifts and masks are
written as multiplications, divisions and remainders.

Where the obvious claim is false of the code, the code is kept and the exact condition is proved:

- A number at the root of a JSON text is an error when only white space follows it (`NumberAtRoot`); numbers, escapes
  and malformed UTF-8 are read leniently, and what follows the root value is ignored (`ParsesExactlyDocuments`).
- The range of a key starts before the white space in front of it (`IsSpan`).
- The clean-up loop of the pipe takes an offset inside a segment for a segment index (`Harmful`, `HarmfulExample`). The
  production pipe has limit 0, where no read is harmful.
- After the writer is dropped and everything is read, a read gives 0 bytes; the test at leaksignal/src/pipe.rs:243-246
  expects an error instead. The model follows lines 171-173.
- Two stars commit to the first component their follower matches (`ExactIffTame`, `SingleSkip`, `CommitsTooEarly`), and
  of two such globs in a row the second takes exactly one component. A documentation comment calls this lazy.
- A chunked scan misses overlapping occurrences and needles longer than the overlap and one byte (`ReportsAllIff`), and
  for the same needles finds other occurrences than one scan of the whole body (`ReportsAsOneIff`). Both are about all
  ASCII bodies. In other bodies a window may be cut inside a character (`IntactIff`); it is then decoded with loss, and
  a match may be reported twice and outside the body (`CutCharacterMisplaces`).
- After an emission the sweep advances the second index twice: it skips one group-2 match, which may be half of a near
  pair (`SecondPairIsLost`), and may emit the same group-1 match again (`SameFirstMatchTwice`), which it does exactly
  when a group-2 match behind the skipped one starts within reach (`SameFirstIff`). It emits what advancing once would
  exactly when that has no two neighbouring second matches in a row (`LosesNothingIff`), for which it is enough that of
  two neighbouring group-2 matches that do not overlap only one is near any of group 1 (`LonelyLosesNothing`).
- The matches in a JSON string are reported one byte early, at the opening quote for the first character, and in a key
  earlier still by the white space before it (`ReportsAreOff`, `ReportsTheQuote`). A reported value quotes its own
  position only inside a run of one byte (`ValueReportsAreOff`), and a needle does only if it is such a run and the byte
  before it is the same (`NeedleIsThereIff`).
- The report style of an endpoint is shadowed: it is lost unless the category sets one, the endpoint sets none, or the
  endpoint's is the policy's (`ShadowedStyleIff`, `StyleIsShadowed`).
- A shared queue that refuses a message with a status other than not-found, in a broadcast or at a registration, leaves
  a filter behind exactly when no other registration brings the message and the message would have changed what the
  filter arrives at (`RefusalIff`). With any number of refusals and any filter steps in between, a filter converges
  exactly when the last policy and the last upstream accepted for it are the collector's (`ConvergesIffDelivered`).
- A filter that is configured itself and then registers converges exactly when its configuration brings no policy or the
  collector has one (`OwnConfigurationFirstIff`); one that is configured after that, exactly when its policy and
  upstream are the collector's or a message that waits overrides them (`OwnConfigurationIff`).
  `RefusedMessagesDiverge`, `RefusedRegistrationDiverges`, `OwnUpstreamDiverges` and `OwnPolicyDiverges` are runs.

## Model

| member | source | states |
|---|---|---|
| `Pipe.PipeWriter.Append` | leaksignal/src/pipe.rs:54-60 | one buffer goes to the end of the list, unless the reader is gone |
| `Pipe.PipeReader.PollRead` | leaksignal/src/pipe.rs:116-183 | a poll copies the next unread bytes, as many as fit, is pending exactly when drained and open, and gives 0 exactly when drained and closed; a harmful read panics or breaks the reader, and a broken reader panics |
| `Pipe.PipeReader.PollStep` | leaksignal/src/pipe.rs:129-168 | one segment of a read: the read goes wrong at exactly its last step, and only if it is harmful |
| `Pipe.PipeReader.TakeSegment` | leaksignal/src/pipe.rs:139-161 | one segment is copied, the cursor moved and old segments cleared; nothing is cleared while the total read stays below the limit |
| `Pipe.PipeReader.RemoveOldData` | leaksignal/src/pipe.rs:153-160 | the clean-up loop is harmless exactly when the offset in the segment does not exceed the segment's index |
| `Pipe.PipeReader.SkipSegment` | leaksignal/src/pipe.rs:131-138 | stepping over a finished or empty segment changes nothing that is unread |
| `Pipe.PipeReader.Advance` | leaksignal/src/pipe.rs:144-152 | moving the cursor drops exactly the copied bytes from what is unread |
| `Pipe.HarmfulTake` | leaksignal/src/pipe.rs:153-160 | whether a read is harmful can be seen at its last segment |
| `Pipe.HarmfulExample` | leaksignal/src/pipe.rs:157-159 | limit 2, one segment of five bytes, a read of three: harmful |
| `Pipe.CursorOffset` | leaksignal/src/pipe.rs:128-152 | the cursor's offset and the unread bytes make up the whole list |
| `Pipe.AppendIsFaithful` | leaksignal/src/pipe.rs:54-60 | an append keeps what the reader has still to read, with any limit |
| `Pipe.PipeReader.FetchFullContent` | leaksignal/src/pipe.rs:97-108 | below the limit a drained reader gives exactly the appended bytes and one that is not drained fails the length assertion; at the limit there is no content |
| `PipeRuns.Run` | leaksignal/src/pipe.rs:52-183 | with any limit, every run of appends, reads and drops in which no read is harmful gives what a FIFO gives; an append is refused exactly when the reader is gone; and at the end the full content is everything appended if it was read below the limit |
| `PipeRuns.ReadsInOrder` | leaksignal/src/pipe.rs:52-183 | in every such run what was read is a prefix of what was accepted |
| `Body.Body.Read` | leaksignal/src/pipe.rs:116-183 | an awaited read gives some of the next bytes of the content, at least one unless it is at the end, however the writer's turns cut and delay them |
| `Body.Body.ReadU8` | leaksignal/src/parsers/json/parse.rs:10-24 | the next byte of the content, or none exactly at the end |
| `Unicode.DecodeCharInvertsUtf8` | leaksignal/src/parsers/json/parse.rs:84-110 | decoding the UTF-8 bytes of a scalar gives the scalar (section 3 of RFC 3629) |
| `Unicode.DecodeUtf16Prefix` | leaksignal/src/parsers/json/parse.rs:119-122 | decoding the UTF-16 code units of a text gives the text, whatever follows (section 2.2 of RFC 2781) |
| `Unicode.LoneSurrogate` | leaksignal/src/parsers/json/parse.rs:119-122 | a surrogate without its partner becomes one replacement character, and nothing around it changes |
| `Unicode.LeadIs` | leaksignal/src/parsers/json/parse.rs:84-107 | which bytes lead a character of how many bytes |
| `Unicode.DecodeCharIsBits` | leaksignal/src/parsers/json/parse.rs:84-110 | in malformed UTF-8 the bits of the lead byte and the low six of each byte after it count; only values that are no scalar and bytes that cannot lead are replaced |
| `JsonString.HexIsDigits` | leaksignal/src/parsers/json/parse.rs:61-76 | four bytes denote a code unit exactly when they are its four hexadecimal digits, of either case |
| `JsonString.NoHexIff` | leaksignal/src/parsers/json/parse.rs:61-76 | they denote nothing exactly when one of them is no hexadecimal digit |
| `JsonString.KnownEscape` | leaksignal/src/parsers/json/parse.rs:140-155 | the escapes of one letter are read as the characters of section 7 of RFC 8259 |
| `JsonString.UnknownEscape` | leaksignal/src/parsers/json/parse.rs:166 | any other escaped character is read as itself |
| `JsonString.StrayByte` | leaksignal/src/parsers/json/parse.rs:104-107 | a byte that cannot lead a character is read as one replacement character, alone |
| `JsonString.MalformedHex` | leaksignal/src/parsers/json/parse.rs:156-165 | four bytes that are no hexadecimal digits are read as one replacement character |
| `JsonString.NextPieceInverts` | leaksignal/src/parsers/json/parse.rs:124-175 | every character, escape and `\u` escape is taken off the input as one piece |
| `JsonString.NextPieceSplits` | leaksignal/src/parsers/json/parse.rs:124-175 | what is taken off is such a piece and nothing is lost |
| `JsonString.RunIsOneUtf16String` | leaksignal/src/parsers/json/parse.rs:115-132 | adjacent `\u` escapes are decoded as one UTF-16 string |
| `JsonString.ReadStringComplete` | leaksignal/src/parsers/json/parse.rs:113-184 | every sequence of pieces is read up to the quote, and gives its meaning |
| `JsonString.ReadStringSound` | leaksignal/src/parsers/json/parse.rs:113-184 | whatever is read was such a sequence and a quote |
| `JsonString.SpellingMeaning` | leaksignal/src/parsers/json/parse.rs:118-175 | any spelling of any text, per character raw, as a short escape, as a `\u` escape or as a surrogate pair, means that text |
| `JsonString.StringRoundTrip` | leaksignal/src/parsers/json/parse.rs:113-184 | reading any spelling of any text gives the text and stops right after the closing quote |
| `JsonNumber.ReadNumberComplete` | leaksignal/src/parsers/json/parse.rs:194-240 | every relaxed number is read to its end and one byte further |
| `JsonNumber.ReadNumberSound` | leaksignal/src/parsers/json/parse.rs:194-240 | whatever is read was a relaxed number that the next byte does not continue |
| `JsonGrammar.TokensAre` | leaksignal/src/parsers/json/parse.rs:26-49 | white space, digits, structural characters and keywords are those of sections 2, 3 and 6 of RFC 8259 |
| `JsonTheorems.NodeComplete` | leaksignal/src/parsers/json/parse.rs:250-366 | every value of the relaxed grammar is read, with exactly its events |
| `JsonTheorems.NodeSound` | leaksignal/src/parsers/json/parse.rs:250-366 | whatever is read was such a value |
| `JsonTheorems.ItemsComplete` | leaksignal/src/parsers/json/parse.rs:298-316 | items separated by commas up to a bracket are read, with their events in order |
| `JsonTheorems.ItemsSound` | leaksignal/src/parsers/json/parse.rs:298-316 | an accepted array has balanced brackets and no trailing comma |
| `JsonTheorems.MembersComplete` | leaksignal/src/parsers/json/parse.rs:259-296 | members separated by commas up to a brace are read, with their events in order |
| `JsonTheorems.MembersSound` | leaksignal/src/parsers/json/parse.rs:259-296 | in an accepted object every key has a colon and a value, and there is no trailing comma |
| `JsonDocument.ParsesExactlyDocuments` | leaksignal/src/parsers/json/parse.rs:368-384 | an input is accepted with certain events if and only if it starts with white space and a relaxed value with those events |
| `JsonDocument.RoundTrip` | leaksignal/src/parsers/json/parse.rs:250-384 | for every tree that is not a number, every layout and every spelling: reading succeeds and reports exactly the keys and strings in document order |
| `JsonDocument.NumberAtRoot` | leaksignal/src/parsers/json/parse.rs:325-332 | a number at the root is accepted exactly when no white space follows it |
| `JsonSpans.SpansAreExact` | leaksignal/src/parsers/json/parse.rs:256-323 | for every input, accepted or not, and any callbacks, every reported range runs from quote to quote (a key's after leading white space), decodes to the reported text, and lies after the one before it |
| `JsonSpans.ValueReports` | leaksignal/src/parsers/json/parse.rs:250-366 | reading one value adds only such ranges, between its first byte and where it ends |
| `JsonSpans.QuotedSpan` | leaksignal/src/parsers/json/parse.rs:318-323 | where the range of one string lies |
| `JsonErrors.ErrorsAreTrue` | leaksignal/src/parsers/json/parse.rs:250-366 | every error an input is refused with is true of it: the unexpected byte is at the offset given, or is the next one behind the key or the white space there, and is not what was expected |
| `JsonContinuation.EofIffContinuable` | leaksignal/src/parsers/json/parse.rs:250-384 | a refused input is refused for its end if and only if more input can lead to something else; any other error and the calls before it stay the same |
| `JsonContinuation.ReadStringMore` | leaksignal/src/parsers/json/parse.rs:113-184 | a string that was read is read the same from a longer input |
| `JsonEarlyReturn.EarlyReturnIsACut` | leaksignal/src/parsers/json/parse.rs:269-271 | a run with early returns is the run without, cut at the first call that returns early |
| `JsonParser.ReadNonWhitespace` | leaksignal/src/parsers/json/parse.rs:26-49 | the next byte that is not white space, if there is one |
| `JsonParser.RereadNonWhitespace` | leaksignal/src/parsers/json/parse.rs:51-59 | the given byte, unless it is white space |
| `JsonParser.ReadExact` | leaksignal/src/parsers/json/parse.rs:334-352 | exactly the next bytes, if there are enough |
| `JsonParser.ReadCharWith` | leaksignal/src/parsers/json/parse.rs:84-110 | one character, decoded from its first byte and the continuation bytes that it announces |
| `JsonParser.ReadEscape` | leaksignal/src/parsers/json/parse.rs:133-166 | a short escape, or leniently the character after the backslash |
| `JsonParser.ReadHex4` | leaksignal/src/parsers/json/parse.rs:78-82 | four bytes as a code unit, the replacement character if they are not hexadecimal |
| `JsonParser.ReadBackslash` | leaksignal/src/parsers/json/parse.rs:125-168 | an escape continues or ends the run of code units as specified |
| `JsonParser.ReadJsonString` | leaksignal/src/parsers/json/parse.rs:113-184 | the loop computes the string specification; the flush after it never has anything to do |
| `JsonParser.ReadJsonNumber` | leaksignal/src/parsers/json/parse.rs:194-240 | the loops compute the number specification |
| `JsonParser.ReadUnsigned` | leaksignal/src/parsers/json/parse.rs:203-216 | the integer part, a zero being a whole one |
| `JsonParser.ReadFractionAndExponent` | leaksignal/src/parsers/json/parse.rs:217-239 | the fraction and what follows it |
| `JsonParser.ReadExponent` | leaksignal/src/parsers/json/parse.rs:226-238 | the exponent, which may lack digits |
| `JsonParser.ParseKeyword` | leaksignal/src/parsers/json/parse.rs:333-356 | a keyword, or an error that names what was read |
| `JsonParser.ParseNumeral` | leaksignal/src/parsers/json/parse.rs:325-332 | white space after a number must not run to the end |
| `JsonParser.ParseStringValue` | leaksignal/src/parsers/json/parse.rs:318-323 | a string value and its call, with exact positions |
| `JsonParser.ParseArray` | leaksignal/src/parsers/json/parse.rs:298-316 | the array loop computes its specification, errors and their positions included |
| `JsonParser.ParseObject` | leaksignal/src/parsers/json/parse.rs:259-296 | the object loop computes its specification, errors and their positions included |
| `JsonParser.ParseInternal` | leaksignal/src/parsers/json/parse.rs:250-366 | a value is read as specified, from any segmentation |
| `JsonParser.ParseBody` | leaksignal/src/parsers/json/parse.rs:368-384 | result, calls and positions depend on the concatenated content only, not on buffers, empty buffers or suspended reads |
| `JsonReports.ReportsAreOff` | leaksignal/src/parsers/json/mod.rs:97-123 | every report for a JSON body is that of one key or value; for a string without escapes, in any UTF-8 text, it quotes the body one byte behind its position, for a key also behind the white space before it, and at its own position exactly when it shows no text or the body repeats with that period from there to the end of the quoted text |
| `JsonReports.ValueReportsAreOff` | leaksignal/src/parsers/json/mod.rs:115 | a report of such a value quotes its own position exactly when it shows no text or lies in a run of one byte, so never at the first character |
| `JsonReports.NeedleIsThereIff` | leaksignal/src/parsers/json/mod.rs:115 | the needle of such a report is one byte behind its position; it is also at the position if and only if it is a run of one byte and the byte there is the same |
| `JsonReports.ReportsTheQuote` | leaksignal/src/parsers/json/mod.rs:115 | in the body "ab" the letter a is reported at the quote |
| `JsonReports.PlainText` | leaksignal/src/parsers/json/parse.rs:113-184 | if the bytes between the quotes are those of a text without quotes and backslashes, that text is reported |
| `JsonReports.JsonMatchesAre` | leaksignal/src/parsers/json/mod.rs:97-123 | the reports are those of the value matchers for every value, in order, and behind them, unless the body is refused, those of the key matchers for every key, in order, each at the position where the range starts |
| `JsonReports.NothingIsDropped` | leaksignal/src/parsers/json/mod.rs:97-123 | whatever the matchers report for a key or a value is reported for the body, for a key unless the body is refused |
| `RawSearch.OccursAtCharacter` | leaksignal/src/evaluator.rs:170-177 | UTF-8 is self-synchronising: an occurrence of a string starts at a character |
| `RawSearch.GreedyIsTheChoice` | leaksignal/src/evaluator.rs:171-191 | the greedy choice is the only one that is separate and covers every occurrence |
| `RawSearch.GreedySkips` | leaksignal/src/evaluator.rs:183-190 | positions without an occurrence can be skipped |
| `RawSearch.SkipTo` | leaksignal/src/evaluator.rs:183-190 | skipping to the first character behind a match loses no occurrence |
| `RawSearch.SearchStep` | leaksignal/src/evaluator.rs:171-191 | one round takes the occurrence at its position or shows that there is none |
| `RawSearch.FindRaw` | leaksignal/src/evaluator.rs:164-193 | stepping from character to character finds exactly the leftmost-greedy occurrences |
| `Correlation.SweepIsSound` | leaksignal/src/evaluator.rs:284-361 | every emitted pair is near, group-2 matches are disjoint and increasing, and ranges of different group-1 matches do not overlap |
| `Correlation.SweepIsComplete` | leaksignal/src/evaluator.rs:284-361 | something is emitted if and only if some pair is near |
| `CorrelationOrder.EachIsNext` | leaksignal/src/evaluator.rs:284-361 | each emitted pair has the earliest first and the earliest second match of all near pairs that can still be emitted, and the sweep ends only when there are none |
| `CorrelationOrder.SweepIsTheList` | leaksignal/src/evaluator.rs:284-361 | it emits the only list of pairs with that property |
| `Correlation.Sweep` | leaksignal/src/evaluator.rs:278-361 | the loops compute the sweep in at most as many inner rounds as both groups have members; the branches that skip duplicates are unreachable |
| `CorrelationLoss.SecondPairIsLost` | leaksignal/src/evaluator.rs:312-360 | two near pairs that do not overlap, of which the second is not reported |
| `CorrelationLoss.SameFirstMatchTwice` | leaksignal/src/evaluator.rs:312-360 | one group-1 match in two reports |
| `CorrelationLoss.SameFirstIff` | leaksignal/src/evaluator.rs:312-360 | after an emission the same group-1 match is emitted again if and only if a group-2 match behind the skipped one starts within the distance of its end and not inside the emitted range |
| `CorrelationLoss.LosesNothingIff` | leaksignal/src/evaluator.rs:312-360 | the sweep emits what it would with one advance per emission if and only if that has no neighbouring second matches in a row |
| `CorrelationLoss.OnceCovers` | leaksignal/src/evaluator.rs:284-361 | with one advance per emission every near pair is accounted for by an emission |
| `CorrelationLoss.LonelyLosesNothing` | leaksignal/src/evaluator.rs:284-361 | if of two neighbouring second matches that do not overlap only one is near any first match, the sweep emits what it would with one advance, and every near pair is accounted for |
| `Evaluator.SortSorts` | leaksignal/src/evaluator.rs:275-276 | sorting by start orders, keeps all matches, and keeps the order of equal starts |
| `Evaluator.EmitRangeInBounds` | leaksignal/src/evaluator.rs:313-337 | the emitted slice is in bounds for each of the three interests |
| `Evaluator.CorrelationIsDetected` | leaksignal/src/evaluator.rs:273-363 | a pair of groups yields a match if and only if two of their members are near |
| `Matcher.MatcherState.PrepareMatchGroup` | leaksignal/src/evaluator.rs:64-96 | all raws and regexes of a group are appended in order |
| `Matcher.MatcherState.PrepareMatches` | leaksignal/src/evaluator.rs:98-159 | a correlate category gets one fresh index for both groups, and an unresolved one changes nothing; indices stay coherent with their distances |
| `MatchReports.EvaluatedIs` | leaksignal/src/evaluator.rs:162-214 | what is found in a string: for every raw the greedy occurrences of its needle, and then for every regular expression its spans whose text is not ignored, each without `strip` bytes at either end, in order of matchers and of positions, and nothing else |
| `MatchReports.RegexIsReported` | leaksignal/src/evaluator.rs:196-271 | every match of every regular expression outside the correlations is reported at its position with its text, unless that is ignored or an earlier window has it |
| `MatchReports.PreparedGroupFinds` | leaksignal/src/evaluator.rs:64-91 | the needles and regular expressions of a prepared group are all run, with its strip, and with the ignored texts of the group and of the configured category |
| `MatchReports.ResolveIff` | leakpolicy/src/lib.rs:193-203 | a reference gives the group itself or the group of the category it names, if that has one |
| `Matcher.Evaluate` | leaksignal/src/evaluator.rs:162-214 | the loops compute that |
| `Matcher.EvaluateRegex` | leaksignal/src/evaluator.rs:196-210 | the oracle's spans, without ignored texts, shortened at both ends |
| `Matcher.RegexHitIff` | leaksignal/src/evaluator.rs:196-210 | which matches a regular expression gives: its spans whose text is not ignored, stripped |
| `Matcher.Partition` | leaksignal/src/evaluator.rs:232-272 | duplicates are dropped, direct matches reported in order, and the others grouped by index and side |
| `Matcher.GroupHas` | leaksignal/src/evaluator.rs:232-247 | a group holds exactly the surviving matches of its correlation and side |
| `MatchReports.CorrelatedAre` | leaksignal/src/evaluator.rs:273-358 | report k of a correlation belongs to emitted pair k: category, path and action of its group-1 match; for interest Group1 the range and style of the group-1 match, for Group2 those of the group-2 match, for All the smallest range that holds both and the style of the one that reveals less |
| `MatchReports.DirectIs` | leaksignal/src/evaluator.rs:232-271 | the direct reports are those of exactly the matches in no correlation that end behind what earlier windows reported, each once, in order, with its fields and text |
| `MatchReports.GroupIs` | leaksignal/src/evaluator.rs:237-247 | each side of a correlation gets exactly its matches that end behind that, each once, in order |
| `MatchReports.MatchedIs` | leaksignal/src/evaluator.rs:218-370 | all reports of a string: the direct ones of what is found in it, and then those of each correlation by ascending index |
| `ReportStyle.StricterIsLeast` | leakpolicy/src/lib.rs:119-139 | styles are totally ordered by what they reveal, and the stricter of two is the one that reveals no more than the other |
| `Matcher.SweepGroups` | leaksignal/src/evaluator.rs:275-361 | the code for one correlation computes the reports that `MatchReports.CorrelatedAre` tells |
| `Matcher.RunMatchers` | leaksignal/src/evaluator.rs:218-370 | all reports of one string, direct ones first and then by correlation index |
| `Matcher.ReportsNearMatches` | leaksignal/src/evaluator.rs:232-363 | a configured correlation reports something if and only if surviving matches of its two groups are within its distance |
| `Matcher.HitsInBounds` | leaksignal/src/evaluator.rs:202-208 | every match lies in the string, if the regex oracle's do and are twice as long as what is stripped |
| `ChunkedScan.WindowIsExact` | leaksignal/src/parsers/html.rs:101-119 | for an unbordered needle a window of bytes shows exactly the occurrences that end in its read |
| `ChunkedScan.NothingTwice` | leaksignal/src/parsers/html.rs:101-123 | for any needle and any reads the windows of bytes show only occurrences, in increasing order, none twice; `HtmlNeedles.NeedleScan` says which bodies that is reported of |
| `ChunkedScan.ScannableIsExact` | leaksignal/src/parsers/html.rs:101-123 | for a needle without border of at most 513 bytes and any reads the windows of bytes show every occurrence once, in order |
| `ChunkedScan.BorderedIsMissed` | leaksignal/src/parsers/html.rs:101-123 | a needle with a border is not scanned exactly |
| `ChunkedScan.LongIsMissed` | leaksignal/src/parsers/html.rs:101-123 | a longer needle is in no window when the reads are short |
| `ChunkedScan.ScanIsExactIff` | leaksignal/src/parsers/html.rs:82-123 | the windows of all ASCII bodies and reads show an ASCII needle exactly if and only if it has no border and fits |
| `ChunkedRuns.ScanIsAsOneIff` | leaksignal/src/parsers/html.rs:82-123 | they show of an ASCII needle what one scan of the whole body finds, for all ASCII bodies and reads, if and only if it has no border and fits |
| `ChunkedRuns.RunIsScannedDifferently` | leaksignal/src/parsers/html.rs:101-123 | for every needle with a border, a run of it and two reads whose second window starts off the first occurrence |
| `HtmlExactness.ReportsAllIff` | leaksignal/src/parsers/html.rs:82-123 | among any other matchers, an ASCII needle whose category is its own is reported wherever it occurs, once and in order, for all ASCII bodies and reads, if and only if it has no border and fits |
| `HtmlExactness.ReportsAsOneIff` | leaksignal/src/parsers/html.rs:82-123 | and it is reported where one scan of the whole body finds it, for all ASCII bodies and reads, under the same condition |
| `HtmlExactness.CutCharacterMisplaces` | leaksignal/src/parsers/html.rs:112-119 | a valid body of 514 bytes and two reads, of which the second window starts inside a character: one occurrence is reported at 512 and at 514 |
| `HtmlText.IntactIff` | leaksignal/src/parsers/html.rs:101-119 | the windows of a UTF-8 body are decoded without loss if and only if none is cut inside a character |
| `HtmlText.PartIsUtf8Iff` | leaksignal/src/parsers/html.rs:112-119 | a part of a UTF-8 body that is not empty is UTF-8 if and only if it is cut at characters at both ends |
| `HtmlText.AsciiIsIntact` | leaksignal/src/parsers/html.rs:101-119 | the windows of an ASCII body are, however it is read |
| `HtmlScan.FillChunk` | leaksignal/src/parsers/html.rs:102-110 | the chunk then holds the overlap and the bytes read |
| `HtmlScan.NextWindow` | leaksignal/src/parsers/html.rs:102-112 | the window handed on is the right slice of the content, and its end is the next overlap |
| `HtmlScan.ScanBody` | leaksignal/src/parsers/html.rs:101-123 | the loop reports what the windows of some valid reads of the whole content report |
| `HtmlScan.ParseHtml` | leaksignal/src/parsers/html.rs:87-125 | the reports are those of the prepared matchers over the windows of the content |
| `HtmlScan.OneNeedleScan` | leaksignal/src/parsers/html.rs:101-123 | for a body whose windows are decoded intact and one raw needle: only occurrences, at global positions, increasing; and all of them if the needle is scannable |
| `HtmlNeedles.NeedleScan` | leaksignal/src/parsers/html.rs:101-123 | the same of every raw needle outside a correlation, among any other raws, regular expressions and correlations: its reports are among all reports in order, and are all of its category if no other matcher has that |
| `HtmlReports.ReportsQuoteTheBody` | leaksignal/src/evaluator.rs:248-271 | for a body whose windows are decoded intact every report, direct or correlated, lies in the body and quotes it at its global position |
| `HtmlReports.ScanIsByWindow` | leaksignal/src/parsers/html.rs:101-123 | the reports are those of all matchers for each window, window after window, and a window is a read with up to 512 bytes before it |
| `HtmlReports.CorrelatedQuotes` | leaksignal/src/evaluator.rs:313-357 | the reports of a correlation, for each interest, quote the string at the reported position |
| `PathGlob.GlobRoundTrip` | leakpolicy/src/path_glob.rs:190-228 | parsing the printed form of a parsed glob gives the same glob, and everything that matching slices is long enough |
| `PathGlob.ParsedComponent` | leakpolicy/src/path_glob.rs:199-211 | a component prints as the piece it was parsed from |
| `GlobText.ComponentMeans` | leakpolicy/src/path_glob.rs:66-83 | a parsed component accepts just the path components that its text says: the text without its stars, with anything in place of a star before or behind it |
| `GlobText.WrittenForms` | leakpolicy/src/path_glob.rs:66-83 | for p without stars: p accepts p only, p* what starts with p, *p what ends with p, and *p* what contains p |
| `GlobText.GlobMeans` | leakpolicy/src/path_glob.rs:190-217 | the meaning of a parsed glob is that of its text, component by component |
| `GlobText.LiteralGlob` | leakpolicy/src/path_glob.rs:231-281 | a glob without stars and regular expressions is matched by exactly the paths with the same components |
| `GlobText.TrimIs` | leakpolicy/src/path_glob.rs:234-236 | a component is its piece without the white space around it |
| `GlobText.WhiteIs` | leakpolicy/src/path_glob.rs:194-195 | white space is what has the property White_Space in Unicode |
| `GlobText.ComponentsAre` | leakpolicy/src/path_glob.rs:231-281 | components are what is between slashes, trimmed, and left out if nothing is left |
| `GlobText.PrintedText` | leakpolicy/src/path_glob.rs:219-228 | a parsed glob prints as its components with slashes between them |
| `GlobMatching.MatchesComponents` | leakpolicy/src/path_glob.rs:231-277 | the loop over glob and path computes the committing semantics on the cleaned components |
| `GlobMatching.FindFollower` | leakpolicy/src/path_glob.rs:251-260 | the inner loop stops behind the first component that the follower of a double star matches, to which it commits |
| `GlobMatching.MatchesPath` | leakpolicy/src/path_glob.rs:279-281 | a path text is matched by its components |
| `GlobMatching.LazyIsSound` | leakpolicy/src/path_glob.rs:231-277 | whatever is accepted, the glob means |
| `GlobMatching.TameIsComplete` | leakpolicy/src/path_glob.rs:248-265 | a tame glob accepts all it means |
| `GlobMatching.UntamedMisses` | leakpolicy/src/path_glob.rs:248-265 | every other glob whose components each accept something refuses a path that it means |
| `GlobMatching.ExactIffTame` | leakpolicy/src/path_glob.rs:231-277 | a parsed glob, whatever its regular expressions match, is matched as it is meant on every path if and only if it is tame or means no path |
| `GlobMatching.WrittenAccepts` | leakpolicy/src/path_glob.rs:66-83 | every parsed component other than a regular expression accepts some path component, and only the single star accepts all |
| `GlobMatching.SingleSkip` | leakpolicy/src/path_glob.rs:248-265 | with one interior double star a path is accepted if and only if it is meant and the follower matches nothing before the place it has to take |
| `GlobMatching.CommitsTooEarly` | leakpolicy/src/path_glob.rs:250-260 | double star and then a, on the path a/a |
| `GlobMatching.RefusesSome` | leakpolicy/src/path_glob.rs:66-83 | every parsed literal, prefix, suffix and contains component refuses some component |
| `PolicyResolution.CompareIsByRank` | leakpolicy/src/path_glob.rs:116-170 | the comparison is that of four counts, and equal globs are those of one rank |
| `PolicyResolution.AboveIsStrictAndTotal` | leakpolicy/src/path_glob.rs:166-170 | the ranks are strictly and totally ordered |
| `PolicyTerms.RankFromText` | leakpolicy/src/path_glob.rs:116-165 | how specific a parsed glob is can be told from its text: its number of components, and how many of them are `**`, are `*`, and are other patterns |
| `PolicyResolution.PushFinds` | leakpolicy/src/lib.rs:366-374 | pushing changes exactly the entry of one rank, and keeps the key that was there first |
| `PolicyResolution.PushSorts` | leakpolicy/src/lib.rs:366-374 | the map stays sorted |
| `PolicyResolution.GroupedIsByClass` | leakpolicy/src/lib.rs:366-374 | the map holds, per rank, the endpoints of its pairs in policy order under the first pair's glob |
| `PolicyResolution.GroupEndpoints` | leakpolicy/src/lib.rs:368-374 | the loops group exactly the matching pairs |
| `PolicyTerms.HitsAre` | leakpolicy/src/lib.rs:366-374 | the pairs grouped are those of every endpoint with each of its globs that matches the path, in policy order |
| `PolicyTerms.LookupIs` | leakpolicy/src/lib.rs:380-392 | of several entries for a category the last counts |
| `PolicyResolution.ApplyConfig` | leakpolicy/src/lib.rs:380-392 | later entries override, and the others stay |
| `PolicyResolution.ApplyBuckets` | leakpolicy/src/lib.rs:376-397 | what remains for a category is the value of the first group that offers one |
| `PolicyResolution.WinnerIsFinal` | leakpolicy/src/lib.rs:376-397 | the pair of minimal rank, the last of its rank in policy order, provides the value that remains, under its class's name |
| `PolicyResolution.SomethingWins` | leakpolicy/src/lib.rs:352-398 | as soon as some pair offers a value there is a winner |
| `PolicyResolution.GetPathConfig` | leakpolicy/src/lib.rs:352-408 | for the path before its first question mark: exactly the union of the matching endpoints' categories is configured, each with the action of its winner, the printed glob of the winner's class, and the style of the category or of the policy; the token extractor follows the same rule; the policy path is the most specific glob |
| `PolicyResolution.BeforeQueryIs` | leakpolicy/src/lib.rs:353-357 | what is left has no question mark, and the path is that, or that and a question mark and more |
| `PolicyResolution.QueryIsIgnored` | leakpolicy/src/lib.rs:352-408 | a path with a query gets what the path gets without it |
| `PolicyResolution.OneAnswer` | leakpolicy/src/lib.rs:352-408 | that determines the whole result |
| `PolicyResolution.ShadowedStyleIff` | leakpolicy/src/lib.rs:386-389 | the style is that of category, endpoint or policy, in this order, if and only if the category sets one, the endpoint sets none, or the endpoint's is the policy's |
| `PolicyResolution.StyleIsShadowed` | leakpolicy/src/lib.rs:386-389 | an endpoint that reports raw values reports none on any path |
| `Distribution.FirstMessagesSuffice` | leaksignal/src/root.rs:475-490 | the first messages bring a new filter to the collector's view |
| `Distribution.StepKeeps` | leaksignal/src/root.rs:167-208 | every step of the protocol keeps the invariant on all queues |
| `Distribution.Converges` | leaksignal/src/root.rs:443-531 | in every reachable state the collector can go on, and between callbacks each registered live filter's queue leads to the collector's policy and upstream, all others being as they started |
| `Distribution.NoMixture` | leaksignal/src/root.rs:185-198 | within a broadcast each registered filter is bound for the state before or after it, according to whether it was reached |
| `Distribution.Drains` | leaksignal/src/root.rs:503-530 | handling the whole queue brings a filter where the queue leads, and changes nothing else |
| `Distribution.RegisteredFiltersCatchUp` | leaksignal/src/root.rs:503-530 | left alone, a registered filter gets the collector's policy and upstream |
| `DistributionEffects.ConfigurationTakesEffect` | leaksignal/src/root.rs:282-339 | a later configuration of the collector: its local policy, if any, and its upstream, if cluster and deployment are given, become those of the collector, all registered filters are bound for them, and none is dropped |
| `DistributionEffects.FirstConfiguration` | leaksignal/src/root.rs:282-372 | the first configuration is stored in the same way, and there is no filter yet to be told |
| `DistributionEffects.OtherModeIsIgnored` | leaksignal/src/root.rs:289-298 | a configuration with another mode or group changes nothing |
| `DistributionEffects.PolicyTakesEffect` | leaksignal/src/root.rs:167-174 | a policy that arrives becomes that of the collector, and all registered filters are bound for it |
| `DistributionEffects.RegistrationTakesEffect` | leaksignal/src/root.rs:448-502 | a registration is taken off the queue, and its filter joins those that are told and is bound for the collector's view |
| `DistributionEffects.FilterStartsBlank` | leaksignal/src/root.rs:341-366 | a filter that starts is blank, has an empty queue of its own, and waits to be registered behind all others if the collector runs |
| `DistributionEffects.FilterDiesAlone` | leaksignal/src/root.rs:443-531 | a filter that dies takes its queue and its name with it and nothing else |
| `DistributionEffects.FiltersGoOn` | leaksignal/src/root.rs:443-531 | filters start, handle messages and die at any time |
| `DistributionEffects.CollectorGoesOn` | leaksignal/src/root.rs:167-208 | the collector always goes on with its callback, and between callbacks takes registrations, policies and configurations |
| `DistributionFaults.RefusalIff` | leaksignal/src/root.rs:185-198 | from every reachable state: when a message of a broadcast or of a registration (lines 475-490) is refused and the callback ends, a live filter that is or gets registered converges if and only if the message was not for it, a later registration brings it, or it changes nothing for the filter |
| `DistributionFaults.OwnConfigurationIff` | leaksignal/src/root.rs:301-314 | between callbacks: a registered filter that is configured itself converges if and only if the policy and the upstream it was given are the collector's or are overridden by a message in its queue; no other filter is concerned |
| `DistributionFaults.OwnConfigurationFirstIff` | leaksignal/src/root.rs:301-369 | a filter that takes its own configuration and then registers converges if and only if that brings no policy or the collector has one |
| `DistributionFaults.DeliveredDecides` | leaksignal/src/root.rs:475-530 | in every run a filter that is left alone arrives where it was bound for and then whatever the host accepted for it |
| `DistributionFaults.ConvergesIffDelivered` | leaksignal/src/root.rs:475-530 | with any number of refusals, and filters handling messages in between: a filter converges if and only if the last policy and the last upstream accepted for it are the collector's |
| `DistributionFaults.RefusedRegistrationDiverges` | leaksignal/src/root.rs:475-490 | a run in which a filter is registered without the policy, and nothing more is sent |
| `DistributionFaults.AnnouncementEnds` | leaksignal/src/root.rs:185-206 | what the rest of a callback makes of the collector's view and of each filter |
| `DistributionFaults.RefusedMessagesDiverge` | leaksignal/src/root.rs:193-195 | a run in which a status other than not-found loses a policy for good |
| `DistributionFaults.OwnUpstreamDiverges` | leaksignal/src/root.rs:301-310 | a run in which a filter's own upstream is not the collector's |
| `DistributionFaults.OwnPolicyDiverges` | leaksignal/src/root.rs:312-314 | a run in which a filter's own policy is not the collector's |
| `Distribution.RemoveAllKeeps` | leaksignal/src/root.rs:204-206 | removing the last index first removes just the marked queues |
| `Distribution.BroadcastMeans` | leaksignal/src/root.rs:176-208 | a broadcast adds the message once per registration to every queue that exists, and keeps exactly those registered |
| `Distribution.RegistrationMeans` | leaksignal/src/root.rs:475-490 | a registration delivers the policy, if there is one, and then the upstream, and adds the queue |
| `Distribution.Uninterrupted` | leaksignal/src/root.rs:167-208 | a callback that nothing interrupts ends, with the effect of the callback as a whole |
| `Distribution.Collector.BroadcastToWorkers` | leaksignal/src/root.rs:176-208 | the loops have the effect of an uninterrupted broadcast |
| `Distribution.Collector.DoPolicyUpdate` | leaksignal/src/root.rs:167-174 | the broadcast, and then the policy is stored |
| `Distribution.Collector.OnConfigure` | leaksignal/src/root.rs:282-372 | a change of mode or group is ignored, the first configuration announces nothing, and a later one announces its local policy and a changed upstream |
| `Distribution.Collector.OnQueueReady` | leaksignal/src/root.rs:448-502 | one registration is taken: its filter gets the policy, if any, and the upstream, and is registered |
| `Distribution.Worker.OnQueueReady` | leaksignal/src/root.rs:503-530 | one message is taken and applied, and where the queue leads does not change |

## Left out

- Regular expressions: an engine is an oracle that lists spans of a string, or says which components it matches; where a bound is claimed the spans are in the string and at least twice as long as what is stripped.
- HtmlNeedles.NeedleScan: stated for bodies whose windows are decoded intact, HtmlExactness.ReportsAllIff for ASCII bodies; what else a window that cuts a character does to the reports is not claimed. The lossy decoding itself is an arbitrary function that keeps valid UTF-8.
- HtmlScan.ParseHtml: correlations across windows are not claimed, since a window drops the earlier half of such a pair; selection of categories by content type and action (html.rs:42-58) is not part of this model.
- GlobMatching.ExactIffTame: which path components a regular expression matches is up to the engine, so whether it counts as universal, or as matching none, is not decided from its text.
- Body.Body.Read: the pipe has limit 0, as the production pipe does; other limits are covered by runs of polls (PipeRuns.Run). The writer is dropped after its last turn; a writer that is never dropped leaves a reader pending for ever. Wakers and polling order are not modelled.
- Matcher.Evaluate: an error of the regex engine, which the source unwraps, and an empty needle, which it indexes before the start of a string, are excluded.
- Matcher.HitsInBounds: bounds are on bytes; that a range also starts and ends at characters, which the source's slices need, is not claimed for stripped regular expressions.
- Matcher.MatcherState.PrepareMatchGroup: the `direct` list, whose handling is a `todo!`, is assumed empty.
- Matcher.RunMatchers: a slice that is out of range, on which the source panics, is empty here; Matcher.HitsInBounds and Evaluator.EmitRangeInBounds say when none is. Positions are unbounded and every match end is assumed to fit a 32-bit usize, which the source adds without checks; how a reported value is hashed is left to an opaque style.
- JsonReports.ReportsAreOff: strings with escapes, whose text is not in the body, are not located; it states the reports as a function of the parsed events; the two closures that append to the lists are not modelled as such, and the selection of matchers for keys and values (json/mod.rs:31-93) is taken as two prepared states.
- PolicyResolution.GetPathConfig: the order of the resulting IndexMap is not modelled; two configurations with the same entries are equal.
- Distribution.Converges: assumes that an enqueue is answered with found or not-found, that filters have no local policy or upstream of their own (DistributionFaults gives the condition for both), that queue ids are not reused and that no two live filters share a uuid; that every filter registers is not claimed, since a filter looks for the collector only once.
- Distribution.Collector.OnConfigure: the gRPC stream, tick period, ping and error logging are I/O; serialisation of messages is taken to lose nothing; a callback of a filter is one step.
- Error messages are constructors with the offending byte and position, not their wording.
- SHA-256 and low_entropy_hash.rs, gzip, protobuf, Envoy host calls other than the shared queues, metrics, clocks and logging.
- parsers/jpeg.rs, which is disabled, replace_matches, which is unused, config defaults and the lattice of report styles, which would add easy members only.
