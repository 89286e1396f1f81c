# Verified models of code bundled in sipx-externals

Dafny models of the parts of the bundled packages that compute something hard:
the argument scanner and the C99 formatter that cfengine ships for systems
without them, cfengine's knowledge map, class index, SMTP reader and bounded
string copies, and the table loader of ruby-postgres.  `dafny verify
dfyconfig.toml` checks everything.

**getopt** (`Getopt*.dfy`).  GNU getopt keeps its state between calls and
permutes argv while it scans.  `GetoptMachine.Next` is one call and `Run` the
calls up to EOF, in all three ordering modes, with short clusters, required and
optional arguments, abbreviated long names, `getopt_long_only` and `--`.
`GetoptParse.Parse` is a single left-to-right pass over the original arguments
that moves nothing.  The main theorem is that the machine reports exactly what
the pass reports and leaves argv sorted as the pass predicts.  From it follow
stable sorting, what a second scan does, how the modes relate, what a leading
mark of optstring does, and that every command line written from a list of
intended options, good ones and ones to be refused, is read back.
`GetoptScanner` is the imperative program, with the rotation by unequal block
swaps, proved equal to the machine.

**snprintf** (`Snprintf*.dfy`).  `SnprintfFormat.Interpret` is a recursive
grammar for formats; `SnprintfText` says what the integer and string
conversions print, how long it is and what it denotes; `SnprintfBuffer` and
`SnprintfLoop` are the truncating writer, the formatters and the seven-state
loop.  The loop prints what the grammar says into any buffer of any size.
`SnprintfStandard` states the integer and character conversions as the C
standard does, and exactly where the code parts from it; `SnprintfDirective`
does so for directives as they are written, character by character.

**Knowledge map** (`Topic*.dfy`).  Topics in a hash table, and associations
entered together with their inverses: which edges every insertion adds, when
the inverses are complete, the symmetry that every run with paired names
keeps between different topics, and which names every stored association has.

**COPY rows** (`Copy*.dfy`).  What `insert_table` sends, read by an independent
reader of PostgreSQL's COPY text format.  Escaping edits string objects in
place, so the model has objects and sharing.

**Smaller**: `AlphaLists` (class index and its iterator), `SmtpDialogue`
(replies as in section 4.2.1 of RFC 5321), `BoundedStrings` (`strlcpy`,
`strlcat`).

## Where the code does not do what one would expect

Each of these comes with the exact condition and with an input that shows it.

- A leading `-` or `+` of optstring is skipped on the first call only.  A scan
  goes as without it if and only if no later call meets it (`ScanUnmarked`; a
  check before the scan is `QuietMark`; `PlusTaken`, `PlusTakesArgument`).
- A second PERMUTE scan of the sorted argv differs exactly when the first ended
  in a missing argument with non-options left over (`RescanStable`,
  `RescanDiffers`).
- The field width is missed exactly when digits are both grouped by `'` and
  extended by zeros (`FieldWidthMet`, `FieldWidthMissed`).
- The integer conversions print what section 7.19.6.1 of ISO C99 lays down
  except for a zero with precision zero, `%#o` apart, which should have no
  digits (`StandardText`, `StandardConversion`, `DirectivePrints`, `ZeroPrecision`).
- `%c` ignores the field width, so it agrees with the standard exactly for
  widths up to one (`StandardCharacter`, `WideCharacter`).
- An associate that is listed already gets no inverse, whatever backward name
  comes with it, because `AssociationExists` accepts any.  A turn or an
  insertion is complete exactly when each associate is new or answered anyway
  (`AddBothAnswers`, `AssociateAnswers`, `SecondBackwardName`, `NeverRelatedBack`).
- A topic becomes related to itself, over any run, exactly by an associate that
  names it in another spelling, and that edge has no inverse (`SelfEdges`,
  `SelfReference`, `BareSelfReference`).
- A string object used in two cells of a table is escaped twice, an empty row
  arrives as a row with one empty cell, and a carriage return is not escaped
  (`TableArrives`, `SharedTab`, `TableArrivesStrictly`, `OneReturn`).
- An SMTP reply whose last line is a bare code is read as if more lines
  followed (`ReplyTakenExactly`, `StaysInStep`, `BareCode`).

## Model

| member | source | states |
|---|---|---|
| `GetoptDecode.KindMeaning` | cfengine-3.3.8/pub/getopt.c:558-593 | the colons after a character's first place in optstring decide whether it takes no, a required or an optional argument; ':' is never an option |
| `GetoptDecode.ShortOption` | cfengine-3.3.8/pub/getopt.c:558-625 | for a declared character, by the colons after it in optstring, the whole result: value, optarg, optopt, complaint and how much of argv is used |
| `GetoptDecode.InvalidOption` | cfengine-3.3.8/pub/getopt.c:558-576 | a character that is not declared, or a ':', is reported as invalid and takes nothing else |
| `GetoptDecode.FindMeaning` | cfengine-3.3.8/pub/getopt.c:442-477 | lookup finds the first exact match, else the sole abbreviation, else reports ambiguity or nothing |
| `GetoptDecode.LookupUnique` | cfengine-3.3.8/pub/getopt.c:442-477 | that description fits only one answer |
| `GetoptDecode.LongOptionMeaning` | cfengine-3.3.8/pub/getopt.c:469-554 | by what the table says of its name, the whole result of a long option: value, optarg, index and elements used if it is accepted; '?' or ':', the complaint and nothing else if it is ambiguous, unrecognised, has an unwanted argument or lacks one; and when the call goes on with short options |
| `GetoptDecode.DecodeLocal` | cfengine-3.3.8/pub/getopt.c:430-625 | decoding depends on no element beyond those it uses up, except that a missing argument means none is left |
| `GetoptDecode.MissingTakesNext` | cfengine-3.3.8/pub/getopt.c:508-520 | given one more element, the option that lacked its argument takes it |
| `GetoptMachine.PositionBounds` | cfengine-3.3.8/pub/getopt.c:344-383 | advancing keeps 1 <= first <= last <= optind <= argc and never touches the unscanned tail |
| `GetoptMachine.NextReady` | cfengine-3.3.8/pub/getopt.c:344-625 | every call that reports something keeps the invariant and strictly reduces the unscanned text |
| `GetoptMachine.RunBound` | cfengine-3.3.8/pub/getopt.c:330-626 | EOF comes within a number of calls fixed by argv |
| `GetoptParse.ExchangeView` | cfengine-3.3.8/pub/getopt.c:173-236 | exchanging changes neither the finished elements, nor the skipped ones, nor the tail, as sequences |
| `GetoptParse.GatherView` | cfengine-3.3.8/pub/getopt.c:348-365 | skipping moves exactly the next block of non-options to the skipped ones |
| `GetoptParse.TerminateView` | cfengine-3.3.8/pub/getopt.c:367-383 | "--" joins the finished elements and everything after it the skipped ones |
| `GetoptParse.TakeInStep` | cfengine-3.3.8/pub/getopt.c:415-625 | decoding one option advances machine and pass alike |
| `GetoptParse.NextInStep` | cfengine-3.3.8/pub/getopt.c:330-626 | one call of the machine is one step of the pass, in every mode and state |
| `GetoptParse.RunIsParse` | cfengine-3.3.8/pub/getopt.c:330-626 | from every reachable state the remaining calls report what a pass over the untouched tail reports, and EOF leaves argv sorted with optind on the boundary |
| `GetoptParse.ScanIsParse` | cfengine-3.3.8/pub/getopt.c:330-626 | the same for a whole scan from optind == 0, for every argv, optstring, table and mode |
| `GetoptProperties.ParseSplits` | cfengine-3.3.8/pub/getopt.c:344-395 | the pass splits the arguments in two without reordering either part |
| `GetoptProperties.PermuteLeftover` | cfengine-3.3.8/pub/getopt.c:344-395 | what PERMUTE leaves is the skipped non-options and then, if "--" ended the options, exactly what follows it |
| `GetoptProperties.ScanSorts` | cfengine-3.3.8/pub/getopt.c:344-406 | at EOF argv is a stable partition of the original with optind on the boundary; the other modes change nothing |
| `GetoptProperties.ParseInPlace` | cfengine-3.3.8/pub/getopt.c:397-406 | outside PERMUTE finished and remaining elements together are the original |
| `GetoptProperties.Replay` | cfengine-3.3.8/pub/getopt.c:348-395 | passing again over the finished elements and any suitable rest reproduces the pass exactly unless a missing argument finds one |
| `GetoptProperties.RescanStable` | cfengine-3.3.8/pub/getopt.c:348-395 | a second scan reports, stops and leaves argv the same if and only if the first did not end in a missing argument with elements left over |
| `GetoptProperties.PermuteVersusRequireOrder` | cfengine-3.3.8/pub/getopt.c:348-406 | PERMUTE and REQUIRE_ORDER agree if and only if no option element follows the first non-option or "--" came first |
| `GetoptProperties.ScansAgree` | cfengine-3.3.8/pub/getopt.c:348-406 | the same for whole scans: same events, same argv and same optind at EOF |
| `GetoptProperties.InOrderVersusPermute` | cfengine-3.3.8/pub/getopt.c:142-151 | RETURN_IN_ORDER reports PERMUTE's options interleaved with exactly the non-options PERMUTE moves |
| `GetoptMark.MarkDeclares` | cfengine-3.3.8/pub/getopt.c:256-271 | the mark hides a leading ':' and declares itself with the colons that follow it; every other character is declared as before |
| `GetoptMark.CallUnmarked` | cfengine-3.3.8/pub/getopt.c:430-625 | a later call decodes with the mark as it would without if and only if it neither answers a missing argument with ':' nor scans the mark as an option that acts in another way |
| `GetoptMark.ParseUnmarked` | cfengine-3.3.8/pub/getopt.c:256-271 | from any point on, the passes with and without the mark are equal, or differ in their events, according to whether a call after the first meets the mark |
| `GetoptMark.ScanUnmarked` | cfengine-3.3.8/pub/getopt.c:256-271 | a whole scan reports, sorts and stops as if no call were given the mark if and only if no call after the first meets it |
| `GetoptMark.MarkedScan` | cfengine-3.3.8/pub/getopt.c:254-271 | the same for a scan as it is started, with the mode the mark chooses |
| `GetoptMark.QuietMark` | cfengine-3.3.8/pub/getopt.c:256-271 | that is so when no ':' follows the mark and no argument holds the mark after its first character |
| `GetoptExamples.PlusTaken` | cfengine-3.3.8/pub/getopt.c:256-271 | "-a -+" with optstring "+a": '+' is taken for an option where it should be refused |
| `GetoptExamples.PlusTakesArgument` | cfengine-3.3.8/pub/getopt.c:256-271 | with optstring "+:a" it even takes the next element as its argument |
| `GetoptExamples.RescanDiffers` | cfengine-3.3.8/pub/getopt.c:348-395 | "x -a" with optstring "a:": the second scan finds an argument that the first lacked |
| `GetoptExamples.BogusRefused` | cfengine-3.3.8/pub/getopt.c:545-554 | "--bogus" with a table of "verbose" alone gives '?' |
| `GetoptRender.ShortUnderstood` | cfengine-3.3.8/pub/getopt.c:277-301 | a cluster of short options, undeclared ones reported with '?' among them, with glued, separate or no value is read as written, under `getopt_long_only` if nothing in it looks like a long name |
| `GetoptRender.LongUnderstood` | cfengine-3.3.8/pub/getopt.c:307-314 | a long option, possibly abbreviated, after two dashes or one, with its value in either notation is read as written; an ambiguous or unknown one, or one with an unwanted value, is reported with '?' and passed over |
| `GetoptRender.EndUnderstood` | cfengine-3.3.8/pub/getopt.c:367-406 | what a command line may end with: nothing, "--" and operands, a short or long option that lacks its argument, or, without permutation, operands |
| `GetoptRender.WrittenIsUnderstood` | cfengine-3.3.8/pub/getopt.c:274-328 | in every mode, every list of options, refused options and operands, however spelled and interleaved, with any of those endings is read back |
| `GetoptRender.ScanUnderstands` | cfengine-3.3.8/pub/getopt.c:274-328 | the same through a whole scan, permuting or under POSIXLY_CORRECT: the events, argv sorted and the operands at optind |
| `GetoptRender.RefusedScan` | cfengine-3.3.8/pub/getopt.c:469-554 | a scan of one refused long option reports '?' with no argument, index or optopt, and leaves it behind |
| `GetoptScanner.LowTraded` | cfengine-3.3.8/pub/getopt.c:198-213 | swapping a short lower block with the top of the upper one leaves a smaller rotation with the same result |
| `GetoptScanner.HighTraded` | cfengine-3.3.8/pub/getopt.c:214-229 | the same for a short upper block |
| `GetoptScanner.SwapBlocks` | cfengine-3.3.8/pub/getopt.c:205-210 | two equal blocks are traded and nothing else changes |
| `GetoptScanner.TradeShorter` | cfengine-3.3.8/pub/getopt.c:196-229 | one turn keeps the rotation still to do and shrinks top - bottom |
| `GetoptScanner.RotateInPlace` | cfengine-3.3.8/pub/getopt.c:186-230 | the loop turns A ++ B into B ++ A in place for all lengths |
| `GetoptScanner.Scanner.Exchange` | cfengine-3.3.8/pub/getopt.c:182-236 | argv is rotated and both indices relocated to the new place of the non-options |
| `GetoptScanner.Scanner.Initialize` | cfengine-3.3.8/pub/getopt.c:240-272 | mode and optstring of the first call |
| `GetoptScanner.Scanner.AdvancePermuting` | cfengine-3.3.8/pub/getopt.c:348-365 | the permuting block refines the machine |
| `GetoptScanner.Scanner.Advance` | cfengine-3.3.8/pub/getopt.c:344-383 | the whole advance refines the machine |
| `GetoptScanner.Scanner.FindLong` | cfengine-3.3.8/pub/getopt.c:442-467 | the two loops compute the lookup and meet its description |
| `GetoptScanner.Scanner.TakeShort` | cfengine-3.3.8/pub/getopt.c:558-625 | the short path refines the decoding, with optind, nextchar, optarg and optopt |
| `GetoptScanner.Scanner.TakeLong` | cfengine-3.3.8/pub/getopt.c:430-554 | the long path refines the decoding or falls through untouched |
| `GetoptScanner.Scanner.TakeOption` | cfengine-3.3.8/pub/getopt.c:430-625 | both paths together |
| `GetoptScanner.Scanner.Proceed` | cfengine-3.3.8/pub/getopt.c:385-413 | EOF, in-order report or a fresh option element |
| `GetoptScanner.Scanner.Resume` | cfengine-3.3.8/pub/getopt.c:344-626 | a call after initialisation is one step of the machine |
| `GetoptScanner.Scanner.GetoptInternal` | cfengine-3.3.8/pub/getopt.c:330-626 | any call, with initialisation when optind is 0 |
| `GetoptScanner.Scanner.ScanAll` | cfengine-3.3.8/pub/getopt.c:655-709 | the caller's loop terminates, collects the events of the reference pass over the original argv and leaves argv sorted |
| `SnprintfText.ConvertLengthSuffices` | cfengine-3.3.8/pub/snprintf.c:448-455 | 43 places hold every value below 2^128 in bases 8, 10 and 16 |
| `SnprintfText.NumeralReads` | cfengine-3.3.8/pub/snprintf.c:1408-1421 | the digits denote the value |
| `SnprintfText.GroupedLength` | cfengine-3.3.8/pub/snprintf.c:1369-1385 | the number of separators computed is the number printed |
| `SnprintfText.IntTextLength` | cfengine-3.3.8/pub/snprintf.c:1016-1063 | without grouping exactly max(width, sign + prefix + max(precision, digits)) characters are printed |
| `SnprintfText.FieldWidthMet` | cfengine-3.3.8/pub/snprintf.c:1013-1026 | the text is shorter than the width if and only if digits are grouped and zero-extended and the width exceeds what is needed |
| `SnprintfText.FieldWidthMissed` | cfengine-3.3.8/pub/snprintf.c:1013-1026 | a value, width and precision for which that happens |
| `SnprintfText.IntTextReads` | cfengine-3.3.8/pub/snprintf.c:964-1063 | for every value, base, width, precision and flags the text reads back as the value |
| `SnprintfText.Justified` | cfengine-3.3.8/pub/snprintf.c:1028-1062 | padding follows the unpadded text with '-' and precedes it otherwise |
| `SnprintfText.ZeroFilled` | cfengine-3.3.8/pub/snprintf.c:1035-1052 | with '0' and no precision the text is sign, prefix, as many zeros as fill the width (one at least for '#' and octal) and digits, with no space |
| `SnprintfText.StrTextMeaning` | cfengine-3.3.8/pub/snprintf.c:930-962 | the string text has length max(width, admitted part), holds that part at the proper side and spaces elsewhere |
| `SnprintfStandard.StandardText` | cfengine-3.3.8/pub/snprintf.c:964-1063 | for every value, base, width, precision and flags without `'` the text is the one C99 prescribes if and only if it is not a zero with precision zero, '#' with octal apart |
| `SnprintfStandard.StandardConversion` | cfengine-3.3.8/pub/snprintf.c:695-773 | the same for the conversions with their length modifiers |
| `SnprintfStandard.StandardCharacter` | cfengine-3.3.8/pub/snprintf.c:826-829 | "%c" prints what C99 prescribes if and only if the width is at most one |
| `SnprintfStandard.ZeroPrecision` | cfengine-3.3.8/pub/snprintf.c:964-1063 | "%.0d" of 0 prints "0" and should print nothing |
| `SnprintfStandard.WideCharacter` | cfengine-3.3.8/pub/snprintf.c:826-829 | "%2c" of 65 prints "A" and should print " A" |
| `SnprintfDirective.DirectiveRead` | cfengine-3.3.8/pub/snprintf.c:572-694 | every directive written from flag characters, width, precision, length modifier and conversion, with numerals, "*" or neither, is read as meant, and the format goes on behind it |
| `SnprintfDirective.DirectiveDefined` | cfengine-3.3.8/pub/snprintf.c:695-834 | such a directive prints something exactly when its argument has the kind its conversion takes; the conversions left out are exactly aAeEfFgGpn |
| `SnprintfDirective.DirectivePrints` | cfengine-3.3.8/pub/snprintf.c:572-834 | without `'` it prints the text C99 prescribes for its characters if and only if it is neither a zero with precision zero, "%#o" apart, nor a character in a field wider than one; and which arguments it uses |
| `SnprintfDirective.ConversionPrints` | cfengine-3.3.8/pub/snprintf.c:695-834 | the same for a conversion whose width and precision are known |
| `SnprintfDirective.FiguresRead` | cfengine-3.3.8/pub/snprintf.c:603-644 | a decimal numeral is read as its value |
| `SnprintfDirective.GroupedPlaces` | cfengine-3.3.8/pub/snprintf.c:1053-1058 | with `'` a comma stands in every fourth place from the right and nowhere else |
| `SnprintfDirective.GroupedDigits` | cfengine-3.3.8/pub/snprintf.c:1053-1058 | without the commas the digits are left |
| `SnprintfDirective.QuotedText` | cfengine-3.3.8/pub/snprintf.c:1013-1062 | a number with `'` and neither width nor precision is its sign and its grouped digits |
| `SnprintfDirective.TwoDigits` | cfengine-3.3.8/pub/snprintf.c:572-611 | "%02d" of 5 prints "05" |
| `SnprintfFormat.ConversionReadsBack` | cfengine-3.3.8/pub/snprintf.c:695-773 | every value of the type the length modifier names is printed so that it reads back, in the base of the conversion |
| `SnprintfFormat.FlagStep` | cfengine-3.3.8/pub/snprintf.c:572-602 | flags read one at a time are the set of flags of the run, which `DirectiveRead` names character by character |
| `SnprintfFormat.WidthStep` | cfengine-3.3.8/pub/snprintf.c:603-611 | stopping at the first digit past INT_MAX is stopping exactly for numerals above INT_MAX |
| `SnprintfFormat.PrecisionStep` | cfengine-3.3.8/pub/snprintf.c:634-644 | the same for the precision |
| `SnprintfFormat.FormatsCompose` | cfengine-3.3.8/pub/snprintf.c:563-916 | no state leaks between directives: f followed by g means f and then g, for every complete f |
| `SnprintfBuffer.Output.OutChar` | cfengine-3.3.8/pub/snprintf.c:507-512 | one more character of ideal text, written only if it fits |
| `SnprintfBuffer.Output.Finish` | cfengine-3.3.8/pub/snprintf.c:917-921 | the buffer holds the first min(L, size-1) characters and a NUL, and nothing else changed |
| `SnprintfBuffer.ConvertDigits` | cfengine-3.3.8/pub/snprintf.c:1408-1421 | the array holds the numeral backwards, no digit lost |
| `SnprintfBuffer.FmtStr` | cfengine-3.3.8/pub/snprintf.c:930-962 | the loops print the string text |
| `SnprintfBuffer.PlanMarks` | cfengine-3.3.8/pub/snprintf.c:978-1011 | sign, prefix and adjusted precision |
| `SnprintfBuffer.PlanPadding` | cfengine-3.3.8/pub/snprintf.c:1013-1038 | zeros, spaces and grouping |
| `SnprintfBuffer.Plan` | cfengine-3.3.8/pub/snprintf.c:978-1038 | both together are the layout of the integer text |
| `SnprintfBuffer.PutDigits` | cfengine-3.3.8/pub/snprintf.c:1053-1058 | the digits with a separator before each group of three |
| `SnprintfBuffer.PutLayout` | cfengine-3.3.8/pub/snprintf.c:1039-1062 | the writing loops print the layout |
| `SnprintfBuffer.FmtInt` | cfengine-3.3.8/pub/snprintf.c:964-1063 | `fmtint` prints the integer text |
| `SnprintfLoop.GuardExact` | cfengine-3.3.8/pub/snprintf.c:606-610 | the overflow test is true exactly when the next value would exceed INT_MAX |
| `SnprintfLoop.FlagsTurn` | cfengine-3.3.8/pub/snprintf.c:572-602 | a turn in this state keeps the meaning of the rest and advances |
| `SnprintfLoop.WidthTurn` | cfengine-3.3.8/pub/snprintf.c:603-626 | the same, or the grammar says overflow |
| `SnprintfLoop.DotTurn` | cfengine-3.3.8/pub/snprintf.c:627-633 | the same |
| `SnprintfLoop.PrecisionTurn` | cfengine-3.3.8/pub/snprintf.c:634-657 | the same, or the grammar says overflow |
| `SnprintfLoop.ModTurn` | cfengine-3.3.8/pub/snprintf.c:658-694 | the same |
| `SnprintfLoop.Emit` | cfengine-3.3.8/pub/snprintf.c:695-834 | the conversion prints its text and consumes its argument |
| `SnprintfLoop.PrintingTurn` | cfengine-3.3.8/pub/snprintf.c:565-571 | printing moves text from the meaning of the rest to the output |
| `SnprintfLoop.Format` | cfengine-3.3.8/pub/snprintf.c:563-916 | the loop terminates, prints the grammar's text and sets overflow exactly when the grammar does |
| `SnprintfLoop.Vsnprintf` | cfengine-3.3.8/pub/snprintf.c:527-928 | for every format, arguments and size the buffer holds the truncated ideal text and a NUL, nothing outside changes, and the result does not depend on the size |
| `SnprintfLoop.Vasprintf` | cfengine-3.3.8/pub/snprintf.c:1487-1500 | the second pass never truncates |
| `BoundedStrings.Strlcpy` | cfengine-3.3.8/pub/strlcpy.c:29-53 | the buffer holds the truncated copy, nothing beyond siz changes, and the length of src is returned |
| `BoundedStrings.Strlcat` | cfengine-3.3.8/pub/strlcat.c:31-57 | the same for appending, and an unterminated dst is left alone |
| `BoundedStrings.CopyThenAppend` | cfengine-3.3.8/pub/strlcat.c:24-30 | copying a and appending b leaves the buffer as copying a + b |
| `BoundedStrings.CopyAndAppend` | cfengine-3.3.8/pub/strlcat.c:31-57 | the two calls together, with both return values |
| `BoundedStrings.HoldsUnique` | cfengine-3.3.8/pub/strlcpy.c:24-28 | the contents described are unique |
| `BoundedStrings.PercentS` | cfengine-3.3.8/pub/snprintf.c:830-834 | "%s" prints the string |
| `BoundedStrings.PercentSIsCopy` | cfengine-3.3.8/pub/snprintf.c:830-834 | snprintf with "%s" and `strlcpy` leave two equal buffers equal, with the return values of both |
| `TopicNames.NormalizeTopic` | cfengine-3.3.8/src/cf-know.c:1533-1555 | names with a special character keep their case, others are lower-cased |
| `TopicNames.NormalMeaning` | cfengine-3.3.8/src/cf-know.c:1533-1555 | a name with a slash, backslash, ampersand, bar, equals, dollar or at sign is left alone; in any other A to Z become a to z |
| `TopicNames.KeyMeaning` | cfengine-3.3.8/src/cf-know.c:1380-1399 | the empty context is the context "any"; names that differ in capitals only are one topic unless they hold a special character |
| `TopicNames.LowerNormal` | cfengine-3.3.8/src/cf-know.c:1154-1159 | the hash slot does not depend on the spelling of the name |
| `TopicNames.DeClassifyMeaning` | cfengine-3.3.8/src/ontology.c:37-69 | context and topic of every name, from its split at the first ':' |
| `TopicNames.ClassifiedNormal` | cfengine-3.3.8/src/cf-know.c:1207-1209 | a name built from normal parts is in normal form |
| `TopicNames.ClassifiedNamed` | cfengine-3.3.8/src/cf-know.c:1286-1291 | declassifying a classified name gives back its topic |
| `TopicNames.ClassifiedInjective` | cfengine-3.3.8/src/cf-know.c:1259-1263 | equal classified names are the same topic |
| `TopicWeb.InsertOk` | cfengine-3.3.8/src/cf-know.c:1163-1194 | inserting keeps ids distinct and 1 to the number of topics, and keeps every topic with its id |
| `TopicWeb.FindAssoc` | cfengine-3.3.8/src/cf-know.c:1425-1500 | the association found is the last with the forward name in some capitalisation; none is found only if there is none or the name is empty |
| `TopicEdges.BackEdge` | cfengine-3.3.8/src/cf-know.c:1280-1293 | the inverse call relates the associate back to the topic, unless it is the topic itself |
| `TopicEdges.AddBothEdges` | cfengine-3.3.8/src/cf-know.c:1252-1301 | a turn with a new associate adds exactly its edge and the inverse; any other turn adds nothing |
| `TopicEdges.AddBothAnswers` | cfengine-3.3.8/src/cf-know.c:1252-1301 | a turn adds exactly the edge and its inverse if and only if the associate is new, names the topic itself or nothing, or is answered already |
| `TopicEdges.AssociateEdges` | cfengine-3.3.8/src/cf-know.c:1198-1311 | whatever names it is given, an insertion adds exactly the edges of the associates not yet listed, and their inverses |
| `TopicEntries.RunEntries` | cfengine-3.3.8/src/cf-know.c:1198-1311 | over any run, an association a topic gains carries the forward and backward names of an operation on it, or, swapped, those of an operation that names it |
| `TopicEntries.PartnersStored` | cfengine-3.3.8/src/cf-know.c:1226-1237 | with paired names every association stored carries its partner as its backward name |
| `TopicEntries.RunExtends` | cfengine-3.3.8/src/cf-know.c:1198-1311 | a run removes no topic, association, name or associate and changes no id |
| `TopicEntries.RunIds` | cfengine-3.3.8/src/cf-know.c:1276-1278 | over any run the id kept with an associate is that of the topic it names |
| `TopicListed.AssociateLists` | cfengine-3.3.8/src/cf-know.c:1198-1311 | after an insertion everything it asked for is listed under its forward name |
| `TopicSymmetry.AssociateAnswers` | cfengine-3.3.8/src/cf-know.c:1198-1311 | an insertion adds exactly the edges asked for and their inverses if and only if every associate is unlisted, answered already or entered now in another spelling |
| `TopicSymmetry.RelatedAgain` | cfengine-3.3.8/src/cf-know.c:1218-1301 | the same insertion made again, with any backward name, adds no edge |
| `TopicSymmetry.SecondBackwardName` | cfengine-3.3.8/src/cf-know.c:1218-1301 | so a second backward name given for the same associate is never used |
| `TopicSymmetry.NeverRelatedBack` | cfengine-3.3.8/src/cf-know.c:1218-1301 | concretely: t related to u by f/b and then by f/c |
| `TopicSymmetry.ApplySymmetric` | cfengine-3.3.8/src/cf-know.c:1198-1311 | an insertion into a symmetric graph keeps it symmetric if and only if the edges it is about to add have their partners among themselves and those there; paired names always do |
| `TopicSymmetry.RunSymmetric` | cfengine-3.3.8/src/cf-know.c:1198-1311 | every run of insertions with paired names keeps the graph symmetric between different topics |
| `TopicSymmetry.SelfEdges` | cfengine-3.3.8/src/cf-know.c:1259-1263 | over any run a topic becomes related to itself if and only if an operation on it names it in another spelling |
| `TopicSymmetry.CanonicalRuns` | cfengine-3.3.8/src/cf-know.c:1198-1311 | with canonical names no self edge ever arises and the graph is symmetric without exception, as an if-and-only-if |
| `TopicSymmetry.SelfReference` | cfengine-3.3.8/src/cf-know.c:1259-1293 | such a self edge has no inverse under a different backward name |
| `TopicSymmetry.BareSelfReference` | cfengine-3.3.8/src/cf-know.c:1259-1293 | a concrete topic for which that happens |
| `TopicMap.FindTopic` | cfengine-3.3.8/src/cf-know.c:1380-1399 | the loop finds the topic with the normalised name and context, empty meaning "any" |
| `TopicMap.NoTwinsMeaning` | cfengine-3.3.8/src/cf-know.c:1163-1194 | no slot holds two topics with the same name and context |
| `TopicMap.TableInsert` | cfengine-3.3.8/src/cf-know.c:1186-1190 | prepending a new topic keeps every topic findable, in its slot and without twin |
| `TopicMap.Map.TopicExists` | cfengine-3.3.8/src/cf-know.c:1373-1400 | a topic is found if and only if it was inserted, with its id |
| `TopicMap.Map.InsertTopic` | cfengine-3.3.8/src/cf-know.c:1154-1194 | the existing topic is returned or a new one added; table, ids and counters stay consistent |
| `TopicMap.Map.Install` | cfengine-3.3.8/src/cf-know.c:1171-1191 | the branch for a new topic |
| `TopicMap.Map.IdempInsertTopic` | cfengine-3.3.8/src/cf-know.c:1140-1150 | the same by classified name |
| `TopicMap.Map.AssociationExists` | cfengine-3.3.8/src/cf-know.c:1425-1500 | the loop computes the lookup by forward name |
| `TopicMap.Map.EnsureAssociation` | cfengine-3.3.8/src/cf-know.c:1218-1237 | the association is found, or created with both names and kept where the next search comes first |
| `TopicMap.Map.AddAssociate` | cfengine-3.3.8/src/cf-know.c:1252-1301 | one turn refines the model of the turn |
| `TopicMap.Map.AddTopicAssociation` | cfengine-3.3.8/src/cf-know.c:1198-1311 | the recursive method, two deep, refines the insertion of which the edges are proved |
| `CopyFormat.UnescapeEscape` | ruby-postgres-0.7.1/postgres.c:1400-1404 | the reader undoes the escaping of any text |
| `CopyFormat.CellReads` | ruby-postgres-0.7.1/postgres.c:479-486 | each cell is delimited and read back, and a null stays apart from every text |
| `CopyFormat.LineIsNotTerminator` | ruby-postgres-0.7.1/postgres.c:475-492 | no data line is taken for the terminator |
| `CopyFormat.RowReads` | ruby-postgres-0.7.1/postgres.c:477-489 | each row is read back |
| `CopyFormat.RowsArrive` | ruby-postgres-0.7.1/postgres.c:475-492 | the server reads exactly the texts the cells had when they were written |
| `CopyFormat.CellsIntact` | ruby-postgres-0.7.1/postgres.c:480-486 | those are the texts the caller passed if and only if no shared string holds a character to escape |
| `CopyFormat.TableArrives` | ruby-postgres-0.7.1/postgres.c:475-492 | the server reads the caller's table if and only if every row has a cell and sharing is harmless |
| `CopyReturns.StreamReturns` | ruby-postgres-0.7.1/postgres.c:475-492 | what is sent holds an unescaped carriage return if and only if some cell holds one |
| `CopyReturns.TableArrivesStrictly` | ruby-postgres-0.7.1/postgres.c:475-492 | a server that refuses carriage returns reads the caller's table if and only if besides no cell holds one |
| `CopyReturns.SharedTab` | ruby-postgres-0.7.1/postgres.c:480-486 | one string object with a tab in two cells: the second arrives with a backslash |
| `CopyReturns.OneReturn` | ruby-postgres-0.7.1/postgres.c:480-486 | one cell with a carriage return: data to one server, refused by the other |
| `CopyTable.RString.EscapeInPlace` | ruby-postgres-0.7.1/postgres.c:1400-1404 | the substitution pattern, in place |
| `CopyTable.PutCell` | ruby-postgres-0.7.1/postgres.c:479-486 | one cell, editing its object |
| `CopyTable.PutRow` | ruby-postgres-0.7.1/postgres.c:477-489 | the inner loop writes the line |
| `CopyTable.InsertTable` | ruby-postgres-0.7.1/postgres.c:475-492 | the whole loop sends the lines and terminator, with the round trip for both kinds of server |
| `SmtpDialogue.Dialogue` | cfengine-3.3.8/src/cf-execd-runner.c:593-639 | the loop consumes as the byte-by-byte reader; given a well-formed reply it takes exactly that and says yes exactly if its code starts with 2 or 3 |
| `SmtpDialogue.TakeLine` | cfengine-3.3.8/src/cf-execd-runner.c:612-636 | a line ends the call exactly if the latest fourth character is a space |
| `SmtpDialogue.ReplyTaken` | cfengine-3.3.8/src/cf-execd-runner.c:610-638 | a call takes exactly one well-formed reply |
| `SmtpDialogue.CallsMatchReplies` | cfengine-3.3.8/src/cf-execd-runner.c:593-639 | the k-th call takes exactly the k-th reply, and the digit its answer rests on is the first of that reply's code |
| `SmtpDialogue.ReplyTakenExactly` | cfengine-3.3.8/src/cf-execd-runner.c:610-638 | a call takes a reply with any last line and nothing more if and only if that line leaves a space as the line type, and never less than the reply |
| `SmtpDialogue.StaysInStep` | cfengine-3.3.8/src/cf-execd-runner.c:593-639 | a session of calls stays in step with its replies if and only if each of them ends so |
| `SmtpDialogue.BareCode` | cfengine-3.3.8/src/cf-execd-runner.c:621-635 | "250" with CR and LF, before more text, is not taken alone |
| `AlphaLists.BucketSuffices` | cfengine-3.3.8/src/alphalist.c:78-83 | looking in one bucket is looking everywhere |
| `AlphaLists.ApplyAgrees` | cfengine-3.3.8/src/alphalist.c:123-145 | each operation keeps items in their buckets and does to the index what it does to a plain collection |
| `AlphaLists.RunAgrees` | cfengine-3.3.8/src/alphalist.c:123-145 | the same for every sequence of operations |
| `AlphaLists.MatchInAlphaList` | cfengine-3.3.8/src/alphalist.c:87-117 | the loops look for a match among the items with the pattern's first character if that is a letter, a digit or an underscore, and among all items otherwise |
| `AlphaLists.IndexedMatchMeaning` | cfengine-3.3.8/src/alphalist.c:87-117 | the same of the indexed answer, for every index |
| `AlphaLists.VaguePattern` | cfengine-3.3.8/src/alphalist.c:102-116 | ".*" finds the only item, in whatever bucket it is |
| `AlphaLists.MatchIsFullScan` | cfengine-3.3.8/src/alphalist.c:87-117 | the answer is that of a full scan for every content if and only if a pattern that starts with a letter, a digit or an underscore matches only names with that first character |
| `AlphaLists.AlphaList.InAlphaList` | cfengine-3.3.8/src/alphalist.c:78-83 | membership in the collection |
| `AlphaLists.AlphaList.PrependAlphaList` | cfengine-3.3.8/src/alphalist.c:123-128 | the operation in place |
| `AlphaLists.AlphaList.IdempPrependAlphaList` | cfengine-3.3.8/src/alphalist.c:132-138 | the operation in place |
| `AlphaLists.AlphaList.DeleteFromAlphaList` | cfengine-3.3.8/src/alphalist.c:142-145 | the operation in place |
| `AlphaLists.AlphaListIterator.Next` | cfengine-3.3.8/src/alphalist.c:156-175 | the next item of those remaining, or nothing when none remains |
| `AlphaLists.AlphaListIterator.Drain` | cfengine-3.3.8/src/alphalist.c:149-175 | iterating yields every item exactly once before the first null |

## Left out

- getopt: the text of the messages (their kind is modelled), long options with a non-null `flag`, calls after EOF, and argc == 0, for which the C code reads past argv.
- snprintf: floating-point conversions, `%p` and `%n`, and locale separators; `Interpret` says `Undefined` for them, as for arguments missing or of the wrong kind, for a `*` width of INT_MIN, and for precisions so large that `fmtint` leaves the range of int.
- snprintf: `size_t` is unbounded in the model, types have the widths of LP64 systems, and negating INTMAX_MIN, undefined in C, takes the two's-complement result.
- getopt: option characters above 127.  C returns them through a signed char, so that they come out negative and 0xFF as EOF; the model returns the code of the character.
- TopicMap.Map.AddTopicAssociation: does not count CF_EDGES and keeps the association lists in a map from topics instead of behind pointers, so that aliasing of list nodes is not captured.
- TopicSymmetry.RunSymmetric: is stated for well-formed contexts and names, those that survive being classified and declassified, and for forward and backward names that are each other's partners.  Without the pairing a new associate's inverse goes under the name just given, and an associate that is listed already gets no inverse at all; `AssociateAnswers` and `ApplySymmetric` say exactly when an insertion is complete all the same.
- Knowledge map: truncation in fixed buffers, null contexts, occurrences, inferences and the output formats of cf-know.
- GetHash, the full-text match and the connection are parameters of the model.
- postgres.c: everything but the row encoding, and strings with NUL.  How a server that knows several styles of line end reads a carriage return is simplified to refusing the input.
- SmtpDialogue.Dialogue: the line sent first, and receive errors, on which the C loop does not stop.
- AlphaLists: names that start with a byte above 127, which a signed char makes a negative index.
- Everything else in the repository: process control, files, databases and wrappers over foreign libraries.
