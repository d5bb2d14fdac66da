# Verified models of the Rye base library

This project models five parts of the Rye database's base code and proves what they compute, for
all inputs. Imperative code stays imperative: loops with invariants, arrays and objects changed in
place, each proved against a specification whose own properties are lemmas.

**Regular expressions** (`Regex*.dfy`, from `external/libregex38a`). The compiler reads an extended
regular expression and emits a strip of operators with relative offsets. The engine runs the strip
as a set of states over a 32-bit mask or over a vector. The model goes the whole way: the grammar as
trees down to the items of a bracket expression, the parser proved to accept exactly the texts of
valid trees, the emitter with its in-place insertion, copying and back-patching, the strip's moves,
the rescanning `step`, the two searches, the prescreen and the choice of representation. The results
meet in the RLIKE operator of `src/query/string_opfunc1.c`, `RegexLike.Like.RLike`, with the
expression that it keeps from call to call: the answer says whether some part of the string is in the
language of the expression that the pattern is the text of, or which fault refuses the pattern.

**Decimal conversion** (`Dtoa*.dfy`, from `src/base/dtoa.c`). One digit of a long division on limbs
in place, with both limb widths the source can be built with, and the two digit loops. The shortest
loop is shown to produce a decimal inside the given interval, that none with fewer digits lies in
it, and that of all in it of its length it is the nearest, a tie going to the even one, unless the
decimal just above lies exactly on the end of the interval. Only one decimal is like that.

**Exchange of argument blocks** (`GetoptPermute.dfy`, from `src/base/getopt_long.c`). The exchange
along gcd-many cycles, with the number theory that it rests on.

**UTF-8 and collation** (`Utf8*.dfy`, `Collation*.dfy`, from `src/base/intl_support.c` and
`src/base/language_support.c`). Validation, decoding, stepping and reversal of UTF-8 as section 4 of
RFC 3629 defines it. Comparison by weights as a total preorder, the byte-by-byte comparison that
agrees with it, and the separator keys of an index.

**Base64** (`Base64*.dfy`, from `src/base/base64.c`). Encoding with lines of 76 characters and the
decoder that undoes it, as section 6.8 of RFC 2045 has it.

Two promises turn out not to hold in general, and their exact conditions are proved.

- A reported match need not be the leftmost one. `RegexLeftmost.NotLeftmost` shows it for `(a*|b)c`
  on `bc`. `RegexLeftmost.LeftmostExactly` says when it is: just when the states do not fall back to
  those of a fresh start while the leftmost match is under way.
- A separator key need not be below the second string. `CollationEnglish.LostExample` shows it for
  "aa" and "b ". `Collation.SplitKey` says when it is: just when the second string, after the
  character that differs, has nothing left or something with a weight.

Two loops can look outside their buffers, and the exact conditions are proved.

- The removal of spaces before decoding looks at a byte before it tests the index.
  `Base64Codec.RemoveSpace` and `Base64Codec.StaysInside` say that it looks past a string that fills
  its buffer just when the string ends in a space; `Base64Codec.SpaceAlone` is the smallest example.
- The search for the previous character looks in front of the buffer just when fewer than six bytes
  come before the position and all of them are continuation bytes: `Utf8Text.SearchStaysInside`.

The comment in `external/libregex38a/regex2.h` on the operands of parentheses speaks of offsets; the
code stores the number of the group, and so does the model. `intl_check_utf8` is described as
returning 1 or 2 for two kinds of error; its type is `bool`, so both arrive as true, as in the model.

`dafny verify dfyconfig.toml` checks everything.

## Model

| member | source | states |
|---|---|---|
| RegexMeaning.BlockAcceptsMeaning | external/libregex38a/regex2.h:20-68 | the strings accepted by following the offsets of a laid-out block are exactly the meaning of its code |
| RegexMeaning.WalkInMeaning | external/libregex38a/regex2.h:20-68 | every walk through a block spells a word of its meaning |
| RegexMeaning.WordLeads | external/libregex38a/regex2.h:20-68 | every word of a block's meaning has a walk through the block, wherever the block lies in the strip |
| RegexNesting.FlatNested | external/libregex38a/regex2.h:20-38 | in emitted code every offset lands on its partner operator inside its own block |
| RegexCode.FlatClosed | external/libregex38a/regex2.h:20-38 | no move leaves an emitted block except to just past its end |
| RegexCode.ChoiceEndFound | external/libregex38a/engine.c:898-906 | the chain of OOR2 offsets from any branch ends at the choice's own O_CH |
| RegexStates.ScanKept | external/libregex38a/engine.c:812-924 | one operator of the scan, a move backwards included, keeps the states sound and the part scanned complete |
| RegexStates.MissingShrinks | external/libregex38a/engine.c:872-881 | every rescan of a loop body adds a state that was missing, so the scan ends |
| RegexStates.ScanDone | external/libregex38a/engine.c:812-924 | a finished scan holds exactly the closure of the seeds |
| RegexStates.StepUnique | external/libregex38a/engine.c:812-924 | only one set of states is the result of a step |
| RegexSearch.BoundaryStep | external/libregex38a/engine.c:669-673 | without anchors a further step over no character leaves a closed set of states unchanged |
| RegexSearch.StepReached | external/libregex38a/engine.c:716-795 | a step turns the states reached by a word into those reached by the word and one more byte |
| RegexSearch.StepBegun | external/libregex38a/engine.c:625-709 | with the fresh states added before each byte, the states are those of all walks begun so far |
| RegexSearch.ColdStart | external/libregex38a/engine.c:653-654 | where the states equal the fresh ones, any match under way gives one that begins there or later |
| RegexSearch.FoundUnique | external/libregex38a/engine.c:123-143 | the span that the start search reports is determined by the strip and the text |
| RegexLarge.Execute | external/libregex38a/engine.c:829-920 | one operator over the vector marks exactly its successors and moves back only for a new loop entry |
| RegexLarge.Step | external/libregex38a/engine.c:812-924 | over the vector, `aft` becomes the closure of itself and the successors of `bef` on the character |
| RegexLarge.LargeMatch.Slow | external/libregex38a/engine.c:716-795 | the largest end of a match from `start`, or none just when there is none, on any well-nested block |
| RegexLarge.LargeMatch.Fast | external/libregex38a/engine.c:625-709 | finds an end just when some match lies in the range, and leaves `coldp` at the last cold place before it |
| RegexLarge.Matcher | external/libregex38a/engine.c:65-225 | over the vector, the outcome is right for the whole text or, if the caller named a part of it, for that part, and a reversed part is refused |
| RegexMask.ForwardMask | external/libregex38a/regexec.c:21-42 | shifting the mask forward marks just the state at that distance if the present one is set |
| RegexMask.BackMask | external/libregex38a/regexec.c:21-42 | shifting the mask back marks just the state at that distance if the present one is set |
| RegexMask.MaskInjective | external/libregex38a/regexec.c:21-42 | masks with the same states are equal, so comparing them compares the sets |
| RegexSmall.Execute | external/libregex38a/engine.c:829-920 | one operator over the mask marks exactly what the specification of a scan asks for |
| RegexSmall.Step | external/libregex38a/engine.c:812-924 | over the mask, the result stands for the closure of `aft` and the successors of `bef` |
| RegexSmall.SmallMatch.Slow | external/libregex38a/engine.c:716-795 | over the mask, the largest end of a match from `start`, or none just when there is none |
| RegexSmall.SmallMatch.Fast | external/libregex38a/engine.c:625-709 | over the mask, finds an end just when some match lies in the range, and the last cold place before it |
| RegexSmall.Matcher | external/libregex38a/engine.c:65-225 | over the mask, the outcome is right for the whole text or for the part named, and a reversed part is refused |
| RegexExec.RegExec | external/libregex38a/regexec.c:112-141 | for every strip size the outcome is right for the whole text or for the part named, whichever representation is chosen; a bad strip and a reversed part are refused |
| RegexExec.Agree | external/libregex38a/regexec.c:137-140 | where both matchers can run they give the same outcome |
| RegexExec.StepsAgree | external/libregex38a/regexec.c:21-91 | from the same states, a step over the mask and one over the vector lead to the same states |
| RegexExec.RunsAgree | external/libregex38a/engine.c:812-924 | the same first states give the same states after every byte of any text, whatever the representation |
| RegexGuts.CorrectUnique | external/libregex38a/engine.c:65-225 | only one outcome is right |
| RegexGuts.Prescreen | external/libregex38a/engine.c:97-105 | the search for the mandatory string finds it just when the text contains it |
| RegexGuts.ScreenedOut | external/libregex38a/engine.c:97-105 | text without the mandatory string contains no match |
| RegexMust.ScanHolds | external/libregex38a/regcomp.c:1494-1569 | the longest literal run found in a block's code occurs in every word of its meaning |
| RegexMust.ScanBlock | external/libregex38a/regcomp.c:1494-1569 | scanning the strip of a block is scanning its code: options and choices are skipped whole |
| RegexMust.FindMust | external/libregex38a/regcomp.c:1494-1569 | on a well-nested strip the scan never fails and yields what the longest stretch of operators that every match passes spells, outside all options and choices, and of several the first; nothing just when no such stretch has a character |
| RegexMust.ScanLongest | external/libregex38a/regcomp.c:1494-1569 | from any place where no option or choice is open, the scan ends with the first longest run of the whole strip |
| RegexRuns.LongestUnique | external/libregex38a/regcomp.c:1541-1544 | only one string is the first longest run of a strip |
| RegexRuns.OutsideAfter | external/libregex38a/regcomp.c:1519-1536 | behind an outermost option or choice nothing is open |
| RegexMust.BlockCounted | external/libregex38a/regcomp.c:1575-1605 | over a block the plus count comes back to where it was, with the block's loop depth as its maximum |
| RegexMust.PlusCount | external/libregex38a/regcomp.c:1575-1605 | computes the count of the whole strip and is bad just when it does not come back to zero |
| RegexEmit.RepeatMeaning | external/libregex38a/regcomp.c:911-977 | the code for a repetition means the union of the powers from `from` to `to`, without end for INFINITY |
| RegexEmit.Parse.SetError | external/libregex38a/regcomp.c:983-993 | the first error stays and the input is used up |
| RegexEmit.Parse.Emit | external/libregex38a/regcomp.c:1364-1384 | appends one operator unless an error has been met |
| RegexEmit.Parse.Insert | external/libregex38a/regcomp.c:1390-1424 | puts an operator before a block whose own operators stay as they are |
| RegexEmit.Parse.Ahead | external/libregex38a/regcomp.c:1430-1442 | sets the forward offset of an operator to the end of the strip and changes nothing else |
| RegexEmit.Parse.Dupl | external/libregex38a/regcomp.c:1336-1354 | appends a copy of a part of the strip |
| RegexEmit.Parse.Repeat | external/libregex38a/regcomp.c:911-977 | for every block and from <= to, ends and leaves the code of the repetition in the block's place |
| RegexGrammar.EreMeaning | external/libregex38a/regcomp.c:191-380 | the code of an expression means its language, with groups, choices and repetitions |
| RegexGrammar.DupMeaning | external/libregex38a/regcomp.c:332-371 | the code of a repetition means: any number of words of the atom for `*`, one or more for `+`, one or none for `?`, and for bounds exactly, at least, or between as many as they say |
| RegexGrammar.CountedWords | external/libregex38a/regcomp.c:353-370 | a word is in a bounded repetition just when it is so many words of the atom in a row, for a number that the bounds allow |
| RegexGrammar.ByteMatched | external/libregex38a/regcomp.c:267-318 | a period matches every byte but a newline that ends lines, and a list the bytes in it, or those not in it but that newline |
| RegexGrammar.CountIs | external/libregex38a/regcomp.c:558-572 | a count is a string of decimal digits for a number up to 255 |
| RegexGrammar.ValueIs | external/libregex38a/regcomp.c:558-572 | the value of digits is decimal: one more digit makes it ten times as much and adds the digit |
| RegexGrammar.SetMeaning | external/libregex38a/regcomp.c:644-648 | a set laid out as a single byte or as a set means the bytes in it |
| RegexReader.EreSound | external/libregex38a/regcomp.c:191-231 | what is read is a valid tree whose text is exactly the part consumed |
| RegexReader.EreComplete | external/libregex38a/regcomp.c:191-231 | the text of every valid tree, followed by what may follow it, is read as that tree |
| RegexReader.ReadExactly | external/libregex38a/regcomp.c:191-380 | a pattern is accepted as a tree if and only if it is the text of that valid tree, brackets included |
| RegexErrors.RefusedExactly | external/libregex38a/regcomp.c:191-380 | a pattern is refused with an error if and only if it is the front of a valid expression, with groups left open, up to a place where the fault of that error stands: for BADRPT a repetition operator at the start of a branch or after another one, for EPAREN a group that is not closed or not open, for EMPTY a branch of which nothing remains, for EESCAPE a backslash at the end |
| RegexErrors.ListRefused | external/libregex38a/regcomp.c:581-715 | a list is refused with EBRACK only if no right bracket follows its start, and with ERANGE only for a range that runs backwards or a dash between items |
| RegexErrors.BoundsRefused | external/libregex38a/regcomp.c:353-370 | bounds are refused with EBRACE only if no right brace follows, and with BADBR only if one follows out of place, a number is above 255 or the second below the first |
| RegexBracket.BracketSound | external/libregex38a/regcomp.c:581-610 | what is read as a bracket expression is a valid list whose text is exactly the part consumed |
| RegexBracket.BracketComplete | external/libregex38a/regcomp.c:581-610 | the text of every valid list is read as that list, wherever it stands |
| RegexBracket.BracketExactly | external/libregex38a/regcomp.c:581-610 | a text is accepted as a list if and only if it is the text of that valid list: circumflex, leading bracket or dash, bytes and ranges, dash at the end |
| RegexBracket.RangeBytes | external/libregex38a/regcomp.c:700-712 | a range of bytes below 128, or from there on, runs as they are numbered, one from a byte past 127 to one below runs through 255, and no other is allowed |
| RegexParse.PCount | external/libregex38a/regcomp.c:558-572 | reads the number the grammar reads or fails as it does |
| RegexParse.PDup | external/libregex38a/regcomp.c:322-380 | after an atom's code, reads a repetition and leaves the code of the repeated atom |
| RegexParse.PCounted | external/libregex38a/regcomp.c:353-370 | reads bounds and leaves, in place of the block, the code that DupMeaning says means that many words of it |
| RegexParse.PTerm | external/libregex38a/regcomp.c:655-715 | reads one byte or range, or fails as the grammar does; the bytes gathered are those that the item denotes |
| RegexParse.AddRange | external/libregex38a/regcomp.c:710-712 | the loop gathers exactly the bytes of the range, in signed order |
| RegexParse.PTerms | external/libregex38a/regcomp.c:606-607 | the loop over the terms gathers the union of what they denote |
| RegexParse.PList | external/libregex38a/regcomp.c:602-610 | reads the list with its literal bracket and dashes and gathers what it denotes |
| RegexParse.Invert | external/libregex38a/regcomp.c:628-637 | the loop over all bytes leaves the complement, without the newline where that ends lines |
| RegexParse.PBracket | external/libregex38a/regcomp.c:581-649 | reads a bracket expression and emits the code of the bytes that it denotes |
| RegexParse.PAtom | external/libregex38a/regcomp.c:237-320 | reads an atom, or reports the grammar's error, and emits its code |
| RegexParse.PExp | external/libregex38a/regcomp.c:237-380 | reads an atom with its repetition and emits its code |
| RegexParse.PConcatenation | external/libregex38a/regcomp.c:204-207 | reads the pieces of a branch one after another and emits their code |
| RegexParse.Bar | external/libregex38a/regcomp.c:209-222 | after a branch, inserts or chains the operators of the choice so that every offset meets its partner |
| RegexParse.CloseChoice | external/libregex38a/regcomp.c:225-228 | closes the choice, and the strip is then the code of all its branches |
| RegexParse.PEre | external/libregex38a/regcomp.c:191-231 | reads an expression up to its end and emits its code after what was there |
| RegexCompile.MustContained | external/libregex38a/regcomp.c:1494-1569 | every string accepted by a compiled strip contains the mandatory string |
| RegexCompile.CountOfBlock | external/libregex38a/regcomp.c:1575-1605 | on a compiled strip the count ends at zero with the nesting depth of plus loops as its maximum |
| RegexCompile.RegComp | external/libregex38a/regcomp.c:84-185 | a pattern is refused with the grammar's error, or compiled to a well-nested strip that accepts its language, with its first longest run of literals as the mandatory string, its loop depth, and never marked bad |
| RegexCompile.Scanned | external/libregex38a/regcomp.c:166-170 | the scans over the strip of an accepted pattern make the result right: mandatory string, loop depth, and not bad |
| RegexCompile.OutcomeByLanguage | external/libregex38a/regexec.c:112-141 | a right outcome says that no substring is in the pattern's language, or that the span is and is the longest from its start |
| RegexLike.Like.RLike | src/query/string_opfunc1.c:4234-4420 | whatever calls came before, the answer is true just when some part of the string is in the language of the expression that the pattern, up to its first zero byte, is the text of, false just when none is, an error just when it is the text of none, and unknown just for a NULL; the expression kept is that of the pattern |
| RegexLike.MatchedAnswer | src/query/string_opfunc1.c:4370-4392 | a right outcome for the whole string is the right answer for the pattern |
| RegexLike.RefusedAnswer | src/query/string_opfunc1.c:4353-4367 | a pattern that the compiler refuses is the text of no expression and has the fault reported |
| RegexLeftmost.LeftmostExactly | external/libregex38a/engine.c:123-143 | the reported match is the leftmost just when no cold place lies between its start and the first end |
| RegexLeftmost.NotLeftmost | external/libregex38a/engine.c:653-654 | on "bc" the strip of the example expression has the span 1..2 reported although a match begins at 0 |
| RegexLeftmost.PatternOfExpression | external/libregex38a/regcomp.c:191-380 | the example pattern is read as the example expression |
| RegexLeftmost.StripOfExpression | external/libregex38a/regcomp.c:191-380 | that strip is the one the expression compiles to |
| DtoaQuorem.Cmp | src/base/mprec.c:553-581 | the sign is that of the comparison of the two numbers |
| DtoaQuorem.StepPlain | src/base/dtoa.c:81-86 | one limb of the subtraction, with one half-word to a limb, is exact with its carry and borrow |
| DtoaQuorem.StepPacked | src/base/dtoa.c:69-79 | one limb of the subtraction, with two half-words to a limb, satisfies the same equation |
| DtoaQuorem.SubtractMultiple | src/base/dtoa.c:64-89 | takes a multiple of the divisor off in place, exactly, at either limb width |
| DtoaQuorem.Trim | src/base/dtoa.c:90-96 | drops leading zero limbs and keeps the number |
| DtoaQuorem.Estimate | src/base/dtoa.c:57 | the quotient of the top limbs never exceeds the true quotient and misses it by at most one |
| DtoaQuorem.Corrected | src/base/dtoa.c:98-137 | the one correction leaves a remainder below the divisor |
| DtoaQuorem.Quorem | src/base/dtoa.c:34-139 | returns the quotient and leaves the remainder in place, trimmed, with the divisor unchanged |
| DtoaQuorem.ExtraShift | src/base/dtoa.c:698-726 | the shift brings the count of significant bits to four below a whole number of limbs, and is the only one below 32 to do so with 32 bits to a limb, or below 12 or from 28 on with 16 |
| DtoaQuorem.LimbSize | src/base/mprec.h:278-293 | a limb has 32 bits when two half-words are packed in it, else 16 |
| DtoaQuorem.Normalised | src/base/dtoa.c:698-726 | a divisor of such a length has a large enough top limb, and ten times a remainder needs no further limb |
| DtoaQuorem.BitLength | src/base/dtoa.c:698-705 | the bits of a number are those of its top limb and of the whole limbs below |
| DtoaQuorem.Prepared | src/base/dtoa.c:698-728 | after the planned and the extra shift the divisor has exactly four leading zero bits, a top limb as the division needs it, and room for ten times a remainder |
| DtoaDigits.Roundoff | src/base/dtoa.c:855-863 | adds one to the last digit; the place moves exactly when all digits are nines |
| DtoaDigits.DropZeros | src/base/dtoa.c:865-869 | drops zeros at the end and shows the same value |
| DtoaDigits.RoundLast | src/base/dtoa.c:849-869 | rounds the digits half-to-even by the remainder |
| DtoaDigits.HalfEvenUnique | src/base/dtoa.c:849-869 | only one integer is the half-to-even rounding |
| DtoaDigits.FixedDigits | src/base/dtoa.c:841-869 | prints b/S rounded half-to-even to `ilim` digits, the place moved just when rounding gives ten, without zeros at the end |
| DtoaShortest.Decide | src/base/dtoa.c:783-825 | goes on just when neither neighbour is close enough; ends only with one that is; with both, the nearer, ties to even |
| DtoaShortest.NoneHere | src/base/dtoa.c:783-825 | when neither neighbour is close enough, no decimal of that length is |
| DtoaShortest.NineIsFirst | src/base/dtoa.c:814-821 | a nine is carried on only from the first digit |
| DtoaShortest.NoZeroAtEnd | src/base/dtoa.c:777-838 | a shortest decimal of several digits does not end in zero |
| DtoaShortest.ShortestDigits | src/base/dtoa.c:777-838 | ends with a decimal no more than mlo below and mhi above, strictly unless the interval is closed, none shorter, and no other of its length in the interval nearer, a tie going to the even one, unless the decimal just above b/S is on the very end; that is taken only where the lower one is too far or ends in nine; or, at the digit limit, the rounded one |
| DtoaShortest.ShortestUnique | src/base/dtoa.c:777-838 | only one string of digits with its place is shortest in that sense |
| DtoaShortest.NearestPicked | src/base/dtoa.c:783-825 | the neighbour that the choice picks is nearer than any other decimal of that length in the interval, or as near and even |
| DtoaShortest.NearerOfTwo | src/base/dtoa.c:802-813 | where both neighbours will do, the upper not just barely, the shortest decimal is b/S rounded half-to-even |
| GetoptPermute.Gcd | src/base/getopt_long.c:112-128 | a common divisor that is a combination of the two |
| GetoptPermute.GcdIsGreatest | src/base/getopt_long.c:112-128 | every common divisor divides it |
| GetoptPermute.OrbitDistinct | src/base/getopt_long.c:153-169 | no position comes twice in a cycle |
| GetoptPermute.OrbitCloses | src/base/getopt_long.c:153-169 | after its length a cycle is back at its start |
| GetoptPermute.OrbitResidue | src/base/getopt_long.c:153-169 | a cycle stays in one residue class of the number of cycles |
| GetoptPermute.OrbitCovers | src/base/getopt_long.c:153-169 | a cycle visits every position of its class |
| GetoptPermute.MoveCycle | src/base/getopt_long.c:155-168 | one inner loop rotates its class and leaves all else alone |
| GetoptPermute.PermuteArgs | src/base/getopt_long.c:131-170 | exchanges two adjacent blocks in place, keeping the order in each and everything outside; an empty first block changes nothing |
| Utf8.DecodeEncode | src/base/intl_support.c:1884-1937 | decoding undoes encoding for every code point up to 0x10FFFF, whatever follows |
| Utf8.EncodingIs | src/base/intl_support.c:1787-1826 | an encoding is the shortest form of its code point, six bits to each byte after the first |
| Utf8.EncodingIsGood | src/base/intl_support.c:2107-2349 | the encoding of every scalar passes the check at its own length |
| Utf8.GoodIsEncoding | src/base/intl_support.c:2107-2349 | what passes the check is the encoding of the scalar it decodes to |
| Utf8Text.UniqueCharacters | src/base/intl_support.c:1787-1826 | the bytes of a text determine its characters |
| Utf8Text.CheckUtf8 | src/base/intl_support.c:2107-2349 | accepts exactly the concatenated encodings of scalars; otherwise `pos` ends the longest valid prefix |
| Utf8Text.EncodingShape | src/base/intl_support.c:911-924 | the length table gives every encoding its length, and only its first byte is no continuation byte |
| Utf8Text.ByteClasses | src/base/intl_support.c:911-924 | the length table counts the ones that a byte begins with, from two to six, and a continuation byte begins with just one |
| Utf8Text.StepForward | src/base/intl_support.c:935-940 | stepping over a character ends where its bytes end |
| Utf8Text.ForwardAndBack | src/base/intl_support.c:928-967 | stepping over a character and back again returns to its start |
| Utf8Text.SearchStaysInside | src/base/intl_support.c:957-963 | the search backwards stays in the buffer if and only if there are six bytes, or one that is no continuation byte, before the position |
| Utf8Text.PrevChar | src/base/intl_support.c:950-967 | steps back to the nearest of the last six bytes that is no continuation byte, else by one byte |
| Utf8Text.LastCharacter | src/base/intl_support.c:950-967 | after any whole character the length found is that of the character |
| Utf8Text.ReverseString | src/base/intl_support.c:792-822 | writes the first characters in the opposite order at the end of the destination, touches nothing else, and counts them |
| Utf8Text.ReversedTwice | src/base/intl_support.c:784-822 | reversing twice gives the text back |
| CollationChars.CharsOfText | src/base/intl_support.c:1884-1937 | the characters that repeated decoding finds in valid text are the ones encoded |
| CollationChars.CharsBefore | src/base/intl_support.c:1884-1937 | bytes cut at a character boundary decode to the characters before it |
| CollationChars.DecodeShape | src/base/intl_support.c:1884-1937 | of any bytes, one that starts no character or starts one that is cut short is bad by itself, else the first byte gives the length |
| CollationOrder.OrderIsLess | src/base/language_support.c:1687-1796 | the comparison is the lexicographic order of the weights padded with zeros |
| CollationOrder.OrderTurned | src/base/language_support.c:1687-1796 | exchanging the strings turns the order around |
| CollationOrder.OrderChain | src/base/language_support.c:1687-1796 | the order is transitive |
| CollationOrder.ZerosIgnored | src/base/language_support.c:2016-2037 | zero weights at the end make no difference on either side |
| Collation.TrailZeroWeights | src/base/language_support.c:2016-2037 | zero just when no remaining character has a weight |
| Collation.StrCmp | src/base/language_support.c:1662-1796 | for any bytes, the order of their characters' weights |
| Collation.SplitAscending | src/base/language_support.c:2143-2179 | the first string just when the second goes on from it or no proper part of the second is above it, else the shortest part of the second that is above the first; not above the second, and below it just when nothing is lost |
| Collation.SplitDescending | src/base/language_support.c:2180-2206 | the shortest part of the first string that is above the second, and not above the first |
| Collation.SplitKey | src/base/language_support.c:2100-2211 | str1 <= key < str2 ascending just when nothing is lost, with str1 itself or the shortest part of str2 above it; str1 >= key > str2 with the shortest such key descending; and an error just for a bad byte in the part looked at |
| Collation.NotLost | src/base/language_support.h:163 | a second string that ends in a character with a weight is strictly above its key |
| CollationEnglish.InitCaseSensitive | src/base/language_support.c:2226-2247 | fills the weights: 0 for the space, and every other code point below 256 weighs what it is |
| CollationEnglish.InitCaseInsensitive | src/base/language_support.c:2254-2284 | fills the weights: 0 for the space, 32 less than itself for each of the 26 small letters, and every other code point below 256 weighs what it is |
| CollationEnglish.CaseIgnored | src/base/language_support.c:2254-2284 | with the insensitive weights a text compares equal to itself with every letter in the other case |
| CollationEnglish.OnlyCaseIgnored | src/base/language_support.c:2254-2284 | with them two ASCII characters compare equal just when they are the same, the same letter in two cases, or a space and a NUL |
| CollationEnglish.CaseMatters | src/base/language_support.c:2226-2247 | with the sensitive weights two ASCII characters compare equal just when they are the same, or a space and a NUL |
| CollationEnglish.BuiltInIsEnglish | src/base/language_support.c:2226-2284 | with both tables ASCII weighs below 128 and every byte past it weighs what it is |
| CollationEnglish.FastCmp | src/base/language_support.c:2372-2417 | the sign is that of the order of the bytes' weights |
| CollationEnglish.EncodeOrder | src/base/intl_support.c:1787-1826 | encodings differ first at a byte that both have, and there as the code points do |
| CollationEnglish.FastAgrees | src/base/language_support.c:2372-2417 | on valid texts the order by bytes is the order by characters |
| CollationEnglish.CompareBoth | src/base/language_support.c:2372-2417 | with the built-in weights the byte-by-byte comparison and the comparison by characters have the same sign on valid texts |
| CollationEnglish.ValidNotMalformed | src/base/language_support.c:2121-2131 | valid texts never make a separation fail |
| CollationEnglish.LostExample | src/base/language_support.c:2168-2178 | for "aa" and "b " the key "b" compares equal to the second string |
| Base64.LinesLength | src/base/base64.c:575-627 | the encoding's length, counting from any column |
| Base64.LengthIsExact | src/base/base64.c:490-509 | the length set aside is the encoding's length for every source but the empty one, for which it is -1 |
| Base64.NoLongLine | src/base/base64.c:592-597 | no stretch without a line break is longer than 76 |
| Base64.RoundTrip | src/base/base64.c:401-483 | decoding an encoding gives the bytes back, and the empty-input error for no bytes |
| Base64Laws.SymbolIs | src/base/base64.c:55-59 | the symbol for a number is the character at that place of the alphabet, written out |
| Base64Laws.FindIs | src/base/base64.c:61-92 | the table takes just the characters of the alphabet for symbols, each for its place |
| Base64Laws.IgnoredExactly | src/base/base64.c:61-92 | decoding ignores a byte wherever it stands just when it is one of the seven: 9 to 13, 32 and 160 |
| Base64Laws.BreaksExactly | src/base/base64.c:592-597 | a line break stands just after every 76 characters that are followed by more |
| Base64Laws.WellFormedExactly | src/base/base64.c:158-291 | what is accepted without spaces is whole groups of symbols of which the last one or two may be equals signs |
| Base64Laws.DecodedLength | src/base/base64.c:158-291 | three bytes are decoded for every group, less one for every equals sign |
| Base64Codec.EncodeLocal | src/base/base64.c:575-627 | writes the encoding, of just the length set aside, and nothing after it |
| Base64Codec.EncodeGroup | src/base/base64.c:599-621 | up to three bytes become four characters with the padding they need |
| Base64Codec.RemoveSpace | src/base/base64.c:305-337 | copies exactly what is not a space, in order, and looks at one byte past the string just when that ends in a space |
| Base64Codec.StaysInside | src/base/base64.c:318-323 | it stays in its buffer if and only if the buffer is longer than the string, or the string is empty or does not end in a space |
| Base64Codec.SpaceAlone | src/base/base64.c:318-323 | a single space that fills its buffer is the example |
| Base64Codec.EncodingStaysInside | src/base/base64.c:575-627 | an encoding never ends in a space |
| Base64Codec.PartitionIntoChunks | src/base/base64.c:158-291 | succeeds just on whole groups of which only the last is padded, and precomputes exactly the number of bytes decoded |
| Base64Codec.DecodeChunks | src/base/base64.c:350-386 | writes the bytes of the chunks one after another and nothing after them |
| Base64Codec.DecodeString | src/base/base64.c:401-483 | the decoded bytes, or which error, for any string whose buffer the removal of spaces stays in |

## Left out

- Anchors, word boundaries and back references of the regular expressions, and the offsets of subexpressions: the strip operators are there and the engine steps over boundaries, but the compiler model refuses patterns with anchors.
- Character classes, equivalence classes and collating elements in brackets, the case-insensitive flag, patterns with an explicit end, and basic regular expressions: the model's parser refuses `[:`, `[=` and `[.` where they would begin one.
- RegexLike.Like.RLike: the case-sensitive operator on two strings of the same kind; a pattern with a construct that the compiler model refuses is answered with its error. That the expression kept is used again when only the case flag differs is outside the model.
- The numbering and sharing of character sets: a set operand is the set itself.
- The packing of operator and operand into one word, growth of the strip, and failed allocations: the strip is a sequence of unbounded length and operands are unbounded.
- The table of character categories that speeds up set handling: it has no effect on what matches.
- The estimate of the decimal exponent, the floating-point quick path of the decimal conversion, and its preparation of b, S, mlo and mhi except the final shift of S: they depend on rounding in hardware.
- The digit loops use natural numbers for the big integers, and a sequence of digit values for the output buffer; only the division of one digit is on limbs.
- Widths of the machine words in the division: its intermediate values stay below ten times a limb, so they are unbounded integers, and a negative value shifted right rounds down as compilers do.
- The parsing of options around the exchange of argument blocks.
- Contractions, hashing of strings, the next character in a collation, and the pattern mode of the comparison.
- A string compared or separated is a sequence with positions; the key of a separation is a value rather than a pointer into a string.
- Base64Codec.EncodeLocal: the empty source is encoded as nothing, while the length set aside for it comes out as -1.
- GetoptPermute.PermuteArgs: the second block is not empty, as at every call in the source; `gcd` would divide by its length.
- RegexExec.RegExec: fills in the span of the whole match only, not those of the groups that `nmatch` above 1 asks for.
- RegexLarge.Matcher: fills in the span of the whole match only, as RegexExec.RegExec.
- RegexSmall.Matcher: fills in the span of the whole match only, as RegexExec.RegExec.
- Containers, file handling, logging and the remaining text conversions of the base library: they would add easier members only.
