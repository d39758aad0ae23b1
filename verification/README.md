# Verified models of CPython 3.13.1 library algorithms

A Dafny project about the algorithms in CPython's pure-Python library whose correctness is least
obvious from reading them. `dafny verify dfyconfig.toml` checks everything.

- **Big integers** (`Bits`, `LongDivision`, `PowerTable`, `Spelling`, `DecimalText`): the
  Burnikel-Ziegler division of `_pylong.py` with its base-2**n digits, the table of powers, and the
  conversions between integers and decimal text.
- **Abstract base classes** (`ClassGraph`, `AbcMeta`): the caches of `_py_abc.py` against the walk
  over inheritance and registration that they stand for. The runtime's invariant holds in every state
  that class creation, registration and checks can reach.
- **Declaration scanner** (`MarkupScan`, `MarkupStability`, `MarkupParser`): the incremental scanner of
  `_markupbase.py`. Its decisions are functions of the buffer; the methods, which loop over the buffer
  as the source does, are proved to compute them, and the functions are proved never to change a
  decision when more input arrives.
- **Dates and times** (`Calendar`, `TimeArithmetic`, `MkTime`, `IsoText`, `IsoNotations`): the proleptic Gregorian and
  ISO week calendars, exact arithmetic, local-time solving and ISO 8601 text of `_pydatetime.py`.
- **Stateful objects** (`DecompressReader`, `WeakSet`, `ThreadLocal`, `GdbRepr`, `Logcat`): random
  access over a forward-only decoder, removals delayed during iteration, thread-local dictionaries
  under any interleaving, the repr of a cyclic object graph with a bounded output, and a token bucket.

`Wrappers` and `Chars` hold results, options and the character classes the others use.

Code that the source writes as expressions and recursion is functions with lemmas about them; code that
updates variables, lists or fields is methods and classes. Where a method is specified by a function
(`IntOf`, `Declaration`, `FromIsoFormat`, `Render`), the lemmas listed with it say what that function
means.

Where the code does less than its comments or callers suggest, the model follows the code:

- `compute_powers` fails `assert lo in d` exactly for an odd limit of at least 5 that some `w >> i`
  equals while dropping one-bits; the comment that some path provides the half is true for even limits.
- `parse_declaration` never recognises a comment: the buffer-boundary test in front of it answers -1 on
  the first `-`.
- `fromisoformat` fails an assertion, not with `ValueError`, exactly on nine-character texts such as
  `YYYY-MM-D`.
- `_mktime` is always right for local times shown once or skipped. Of two seconds it can miss the wanted
  one when the clock jumps by more than 24 hours; `ExactlyRight` says exactly when.
- The fallback of `int_to_decimal_string` would print zero as many zeros if its estimate of the digits
  were above 1000; the estimate it computes for zero is 1.

## Model

| member | source | states |
|---|---|---|
| LongDivision.EstimateBounds | Python-3.13.1/Lib/_pylong.py:274-284 | The estimate of a three-by-two-halves division satisfies the division equation, its remainder lies below `b`, and it misses the valid range by at most `2 * b`. |
| LongDivision.Estimate | Python-3.13.1/Lib/_pylong.py:276-279 | Both ways of estimating give a quotient below `2**n` and a non-negative remainder of `a12` by `b1`; the remainder is below `b1` unless the quotient was capped at `2**n - 1`. |
| LongDivision.Div3n2n | Python-3.13.1/Lib/_pylong.py:274-284 | Quotient and remainder of `a12 * 2**n + a3` by `b` are exact, the quotient stays below `2**n`, and the correction loop runs at most twice. |
| LongDivision.Div2n1n | Python-3.13.1/Lib/_pylong.py:244-271 | For every `b` of exactly `n` bits and `0 <= a < 2**n * b` the mutual recursion ends with `a == b*q + r`, `0 <= r < b` and `q < 2**n`. |
| LongDivision.PadAndDivide | Python-3.13.1/Lib/_pylong.py:259-270 | Padding an odd width and undoing it at the end leaves the quotient and remainder of the unpadded operands. |
| LongDivision.HalveAndDivide | Python-3.13.1/Lib/_pylong.py:264-271 | The two half-width steps joined by shift and bitwise or give the quotient and remainder of the whole: the halves of the quotient do not overlap. |
| LongDivision.UndoPadding | Python-3.13.1/Lib/_pylong.py:259-270 | The remainder of doubled operands is even, and halving it gives the remainder of the originals with the same quotient. |
| LongDivision.LongNeedsWideDivisor | Python-3.13.1/Lib/_pylong.py:257-264 | Whenever the base case is not taken the divisor has more than `_DIV_LIMIT` bits, so the halved width is positive and smaller: the recursion terminates. |
| LongDivision.DigitsAreUnique | Python-3.13.1/Lib/_pylong.py:287-315 | Only one digit list is canonical for a given number, so the specification of `_int2digits` determines its result. |
| LongDivision.Int2Digits | Python-3.13.1/Lib/_pylong.py:287-315 | The list filled in place holds base-`2**n` digits in range, most significant last and non-zero, empty for zero, whose value is `a`. |
| LongDivision.Int2DigitsInner | Python-3.13.1/Lib/_pylong.py:302-311 | One call fills exactly the digits `L` to `R` with the value of `x` and leaves the rest of the list alone. |
| LongDivision.Digits2IntInnerValue | Python-3.13.1/Lib/_pylong.py:323-328 | The halving recursion computes the positional value of the digits it covers. |
| LongDivision.Digits2IntInverts | Python-3.13.1/Lib/_pylong.py:318-330 | `_digits2int` undoes `_int2digits` and computes the positional value of any digit list. |
| LongDivision.DivmodPos | Python-3.13.1/Lib/_pylong.py:333-347 | The grade-school loop over digits, reversal and joining included, gives the exact quotient and remainder. |
| LongDivision.FloorDivModUnique | Python-3.13.1/Lib/_pylong.py:350-363 | Python's floor division has one answer for every sign of the operands, so the contract of `int_divmod` determines it. |
| LongDivision.IntDivmod | Python-3.13.1/Lib/_pylong.py:350-363 | Floor quotient and remainder for all integers, through `-a, -b` and `~a`; a zero divisor raises `ZeroDivisionError`. |
| PowerTable.ReachedClosed | Python-3.13.1/Lib/_pylong.py:51-65 | The widths reached are closed under both halves of the recursion. |
| PowerTable.ReachedLeast | Python-3.13.1/Lib/_pylong.py:51-65 | They are the least such set: nothing is collected that a halving recursion does not meet. |
| PowerTable.Spread | Python-3.13.1/Lib/_pylong.py:67-94 | Two reached widths are neighbours or one is about half of the other or less, which is why each needed power is one multiplication or one squaring away. |
| PowerTable.MissingHalfTrips | Python-3.13.1/Lib/_pylong.py:75-83 | An exponent with neither its predecessor nor its half in the table exists only if some right shift of `w` is exactly an odd limit of at least 5, dropping one-bits. |
| PowerTable.TripsAtLimit | Python-3.13.1/Lib/_pylong.py:75-83 | In that case the limit itself is the exponent whose half is missing. |
| PowerTable.StuckMeansTrips | Python-3.13.1/Lib/_pylong.py:75-83 | The table cannot be filled exactly when that arithmetic condition on `w` and the limit holds. |
| PowerTable.EvenLimitNeverTrips | Python-3.13.1/Lib/_pylong.py:75-83 | With an even limit, as all callers in the module pass, the internal assertion never fails. |
| PowerTable.OddLimitTrips | Python-3.13.1/Lib/_pylong.py:83 | `w == 23` with limit 11 does fail it: 11 is needed and 5 is not there. |
| PowerTable.CollectNeeded | Python-3.13.1/Lib/_pylong.py:52-65 | Whatever element `ws.pop()` returns, the loop ends with exactly the exponents the halving recursion looks up. |
| PowerTable.FillTable | Python-3.13.1/Lib/_pylong.py:67-95 | Going up through the needed exponents stores the right power of each, and fails exactly when one has no support among the others. |
| PowerTable.ComputePowers | Python-3.13.1/Lib/_pylong.py:51-95 | Fails its assertion exactly on the calls described by `Trips`; otherwise the table has the needed exponents as keys and `base**k` at each. |
| DecimalText.InnerText | Python-3.13.1/Lib/_pylong.py:157-162 | Whatever width is estimated, the text has the value of `n`; if `n` fits in `w` digits so does the text, so each low half is filled to exactly its width. |
| DecimalText.StripToCanonical | Python-3.13.1/Lib/_pylong.py:181-185 | Stripping surplus zeros gives the canonical digits of a non-zero number; a zero is canonical only if it was one digit. |
| DecimalText.InnerDecimalValue | Python-3.13.1/Lib/_pylong.py:121-127 | Splitting by bits and recombining with powers of two gives back `n`. |
| DecimalText.IntToDecimal | Python-3.13.1/Lib/_pylong.py:103-140 | The result denotes `n`, for either sign. |
| DecimalText.ShiftTable | Python-3.13.1/Lib/_pylong.py:172-174 | Shifting the table of powers of five in place turns it into the table of powers of ten. |
| DecimalText.IntToDecimalString | Python-3.13.1/Lib/_pylong.py:142-185 | The text is the canonical decimal of `n` for every non-zero `n` and every digit estimate; for zero exactly when the estimate is at most 1000. Always the text reads back as `n`. |
| DecimalText.InnerIntValue | Python-3.13.1/Lib/_pylong.py:202-208 | The divide-and-conquer reader computes the positional value of the digits between its bounds. |
| DecimalText.StrToIntInner | Python-3.13.1/Lib/_pylong.py:187-211 | A non-empty digit string is read as its positional value; the empty string raises `ValueError`. |
| DecimalText.StrToInt | Python-3.13.1/Lib/_pylong.py:224-233 | Returns what the text spells or raises, as the specification `IntOf` says for every string. |
| DecimalText.ReadsSpelling | Python-3.13.1/Lib/_pylong.py:224-233 | White space, an optional sign and digits with underscores are read as the signed number of the digits, whatever follows; only underscores raise `ValueError`. |
| DecimalText.RoundTrip | Python-3.13.1/Lib/_pylong.py:142-233 | Reading back the decimal text of any integer gives the integer. |
| Bits.OrIsPlus | Python-3.13.1/Lib/_pylong.py:271-280 | Bitwise or of a number shifted by `k` and one below `2**k` is their sum. |
| Bits.XorClearsTop | Python-3.13.1/Lib/_pylong.py:307-309 | `x ^ (x >> k << k)` is `x % 2**k`. |
| Bits.AndMask | Python-3.13.1/Lib/_pylong.py:265-267 | Masking with `2**k - 1` is the remainder by `2**k`. |
| Bits.PowFiveShifted | Python-3.13.1/Lib/_pylong.py:173-174 | `5**k << k == 10**k`. |
| ClassGraph.WithEdgeReaches | Python-3.13.1/Lib/_py_abc.py:68-69 | A new edge makes reachable exactly what a path may now cross it for. |
| ClassGraph.WithEdgeAcyclic | Python-3.13.1/Lib/_py_abc.py:63-68 | A new edge keeps an acyclic graph acyclic exactly when its head does not already reach its tail. |
| ClassGraph.BelowShrinks | Python-3.13.1/Lib/_py_abc.py:135-144 | Along every edge of an acyclic graph the set of classes still reachable shrinks: the measure on which the recursive check terminates. |
| ClassGraph.WithLeafReaches | Python-3.13.1/Lib/_py_abc.py:35-52 | A new class without successors closes no cycle and changes nothing among the old ones. |
| AbcMeta.WalkIsSubclass | Python-3.13.1/Lib/_py_abc.py:131-147 | The uncached recursive walk over MRO, registries and subclasses answers exactly reachability of a class in the MRO. |
| AbcMeta.IsSubclassStep | Python-3.13.1/Lib/_py_abc.py:131-147 | A class is a subclass exactly if it inherits from the ABC or is a subclass of one of its registered classes or subclasses. |
| AbcMeta.RegistrationEffect | Python-3.13.1/Lib/_py_abc.py:61-70 | A registration makes exactly those pairs subclasses whose path crosses the new edge. |
| AbcMeta.LeafKeepsSubclass | Python-3.13.1/Lib/_py_abc.py:35-52 | Creating a class leaves every answer about older classes as it was. |
| AbcMeta.AbcRuntime.NewClass | Python-3.13.1/Lib/_py_abc.py:35-52 | The new class gets empty caches at the current version; the runtime stays valid and no older answer changes. |
| AbcMeta.AbcRuntime.SubclassCheck | Python-3.13.1/Lib/_py_abc.py:108-147 | With any cache contents a valid runtime can hold, the answer is that of the uncached walk, and the runtime stays valid. |
| AbcMeta.AbcRuntime.UncachedCheck | Python-3.13.1/Lib/_py_abc.py:131-147 | The walk below the caches answers by reachability, caching only answers that stay right. |
| AbcMeta.AbcRuntime.AnyIssubclass | Python-3.13.1/Lib/_py_abc.py:136-144 | A loop over registered classes or subclasses, in any order, finds one exactly if one exists. |
| AbcMeta.AbcRuntime.IssubclassOf | Python-3.13.1/Lib/_py_abc.py:108-147 | `issubclass` through the metaclass or the plain MRO test agrees with reachability. |
| AbcMeta.AbcRuntime.Register | Python-3.13.1/Lib/_py_abc.py:54-70 | No-op for a subclass, `RuntimeError` for a cycle, `TypeError` for a non-class, else exactly one new edge and one new version; the graph stays acyclic and every cache stays sound. |
| AbcMeta.AbcRuntime.AddRegistration | Python-3.13.1/Lib/_py_abc.py:68-69 | The new edge with the counter step keeps every positive answer right and makes every negative cache out of date. |
| AbcMeta.AbcRuntime.Invalidate | Python-3.13.1/Lib/_py_abc.py:116-119 | A negative cache from before the last registration is replaced by an empty current one. |
| AbcMeta.AbcRuntime.InstanceCheck | Python-3.13.1/Lib/_py_abc.py:92-106 | The inlined cache lookups of `isinstance` give the walk's answer for the class or the type of the instance. |
| MarkupScan.Search | Python-3.13.1/Lib/_markupbase.py:12-18 | A search result is a match at or behind the start, inside the buffer. |
| MarkupScan.SearchLeftmost | Python-3.13.1/Lib/_markupbase.py:147-152 | The match found is the leftmost, and none is reported only when there is none. |
| MarkupScan.DoctypeSubset | Python-3.13.1/Lib/_markupbase.py:179-246 | The scan of the internal subset is incomplete, raises, or ends past its start and inside the buffer. |
| MarkupScan.MarkedSection | Python-3.13.1/Lib/_markupbase.py:141-162 | A decided marked section ends past its start and inside the buffer. |
| MarkupScan.Declaration | Python-3.13.1/Lib/_markupbase.py:60-137 | A decided declaration ends past its start and inside the buffer. |
| MarkupStability.CloserStable | Python-3.13.1/Lib/_markupbase.py:12-18 | More input neither moves a match of a closing pattern nor adds one that ends inside the old buffer. |
| MarkupStability.SearchStable | Python-3.13.1/Lib/_markupbase.py:147-171 | The leftmost match is the same on every longer buffer. |
| MarkupStability.NameStable | Python-3.13.1/Lib/_markupbase.py:376-392 | A scanned name or a failure does not change with more input. |
| MarkupStability.ElementStable | Python-3.13.1/Lib/_markupbase.py:249-257 | A decided element declaration is decided the same on every longer buffer. |
| MarkupStability.AttlistStable | Python-3.13.1/Lib/_markupbase.py:260-314 | A decided attribute list declaration is decided the same on every longer buffer. |
| MarkupStability.NotationStable | Python-3.13.1/Lib/_markupbase.py:317-337 | A decided notation declaration is decided the same on every longer buffer. |
| MarkupStability.EntityStable | Python-3.13.1/Lib/_markupbase.py:340-372 | A decided entity declaration is decided the same on every longer buffer. |
| MarkupStability.SubsetStable | Python-3.13.1/Lib/_markupbase.py:179-246 | A decided internal subset is decided the same on every longer buffer. |
| MarkupStability.CommentStable | Python-3.13.1/Lib/_markupbase.py:165-175 | A decided comment, its handler call included, is the same on every longer buffer. |
| MarkupStability.MarkedSectionStable | Python-3.13.1/Lib/_markupbase.py:141-162 | A decided marked section, its handler call included, is the same on every longer buffer. |
| MarkupStability.DeclarationStable | Python-3.13.1/Lib/_markupbase.py:60-137 | Prefix stability of the whole scanner: same end, same handler call, same failure on every longer buffer. |
| MarkupStability.DecisionsAgree | Python-3.13.1/Lib/_markupbase.py:60-137 | Two buffers that both begin the same input never give different decisions. |
| MarkupStability.CommentsNeverDecided | Python-3.13.1/Lib/_markupbase.py:77-85 | On `<!-` the scanner always answers -1, so its comment branch cannot be reached. |
| MarkupParser.AdvanceConcat | Python-3.13.1/Lib/_markupbase.py:40-55 | Positions of consecutive pieces of text add up. |
| MarkupParser.CountedPosition | Python-3.13.1/Lib/_markupbase.py:44-55 | Counting line breaks and finding the last one gives the position that reading character by character gives. |
| MarkupParser.ConsecutiveUpdates | Python-3.13.1/Lib/_markupbase.py:40-55 | Two adjacent updates equal one update over both pieces. |
| MarkupParser.ParserBase.UpdatePos | Python-3.13.1/Lib/_markupbase.py:44-55 | Line and column become those behind the text between `i` and `j`; an empty range changes nothing. |
| MarkupParser.ParserBase.ScanName | Python-3.13.1/Lib/_markupbase.py:376-392 | Returns what the pure scanner decides; the position moves only when it raises. |
| MarkupParser.ParserBase.ParseDoctypeElement | Python-3.13.1/Lib/_markupbase.py:249-257 | Returns what the pure scanner decides; the position moves only when it raises. |
| MarkupParser.ParserBase.ParseDoctypeAttlist | Python-3.13.1/Lib/_markupbase.py:260-314 | The loop over attributes ends and returns what the pure scanner decides. |
| MarkupParser.ParserBase.ParseDoctypeNotation | Python-3.13.1/Lib/_markupbase.py:317-337 | The loop over names and literals ends and returns what the pure scanner decides. |
| MarkupParser.ParserBase.ParseDoctypeEntity | Python-3.13.1/Lib/_markupbase.py:340-372 | Both loops end and return what the pure scanner decides. |
| MarkupParser.ParserBase.ParseDoctypeSubset | Python-3.13.1/Lib/_markupbase.py:179-246 | The loop over the internal subset ends and returns what the pure scanner decides. |
| MarkupParser.ParserBase.ParseComment | Python-3.13.1/Lib/_markupbase.py:165-175 | Returns what the pure scanner decides and calls the handler exactly when it does. |
| MarkupParser.ParserBase.ParseMarkedSection | Python-3.13.1/Lib/_markupbase.py:141-162 | Returns what the pure scanner decides and calls the handler exactly when it does. |
| MarkupParser.ParserBase.ParseDeclaration | Python-3.13.1/Lib/_markupbase.py:60-137 | The whole loop ends, returns what the pure scanner decides, makes exactly its handler call, and moves the position only on failure. |
| Calendar.TablesAgree | Python-3.13.1/Lib/_pydatetime.py:39-47 | The days-before-month table is the running sum of the month lengths. |
| Calendar.CycleLengths | Python-3.13.1/Lib/_pydatetime.py:79-93 | The cycle constants are the days of 400, 100 and 4 years. |
| Calendar.OrdinalOfNextDay | Python-3.13.1/Lib/_pydatetime.py:70-77 | Going to the next day by the calendar's own rules adds one to the ordinal, for every date of every year. |
| Calendar.OrdinalOfDayBefore | Python-3.13.1/Lib/_pydatetime.py:70-77 | Going back one day subtracts one. |
| Calendar.FirstOrdinal | Python-3.13.1/Lib/_pydatetime.py:70-77 | 1 January of year 1 has ordinal 1. |
| Calendar.YearLength | Python-3.13.1/Lib/_pydatetime.py:49-56 | Consecutive years are 365 or 366 days apart, by the leap-year rule. |
| Calendar.OrdinalOrder | Python-3.13.1/Lib/_pydatetime.py:70-77 | Comparing dates as tuples is comparing ordinals, so `_ymd2ord` is injective and monotone. |
| Calendar.DateOfIsInverse | Python-3.13.1/Lib/_pydatetime.py:70-77 | Every date is the one its ordinal stands for. |
| Calendar.CyclesToYear | Python-3.13.1/Lib/_pydatetime.py:118-136 | The year assembled from 400-, 100-, 4- and 1-year cycles starts where the cycles end, and the leap test on the quotients is `_is_leap`. |
| Calendar.CycleQuotients | Python-3.13.1/Lib/_pydatetime.py:127-144 | A quotient of four centuries or four years can occur only on the last day of a cycle. |
| Calendar.MonthEstimate | Python-3.13.1/Lib/_pydatetime.py:141-149 | `(n + 50) >> 5` is the right month or one too large, for every day of both kinds of year. |
| Calendar.Ord2Ymd | Python-3.13.1/Lib/_pydatetime.py:95-155 | For every integer, negative ones included, the result is the date with that ordinal, and every internal assertion holds. |
| Calendar.MaxOrdinal | Python-3.13.1/Lib/_pydatetime.py:28 | `_MAXORDINAL` is the ordinal of 31 December 9999. |
| Calendar.Week1HasFirstThursday | Python-3.13.1/Lib/_pydatetime.py:2307-2316 | The week-1 Monday is a Monday whose week holds the year's first Thursday. |
| Calendar.IsoYearLength | Python-3.13.1/Lib/_pydatetime.py:474-486 | ISO years have 364 or 371 days, and week 53 is accepted exactly in the years of 371. |
| Calendar.AcceptedMeansInside | Python-3.13.1/Lib/_pydatetime.py:474-496 | A week date is accepted exactly when the day it names lies before the next ISO year. |
| Calendar.IsoUnique | Python-3.13.1/Lib/_pydatetime.py:469-498 | Two accepted week dates of the same day are equal. |
| Calendar.IsoRoundTrip | Python-3.13.1/Lib/_pydatetime.py:1185-1211 | For every date, of any year, `isocalendar` gives an accepted week date that stands for the same day. |
| Calendar.IsoInverse | Python-3.13.1/Lib/_pydatetime.py:469-498 | For every accepted week date, of any year, `isocalendar` of the day it names gives it back. |
| Calendar.IsoWeekToGregorian | Python-3.13.1/Lib/_pydatetime.py:469-498 | Raises for a year, week or weekday out of range; otherwise gives the date whose ISO week date was asked for. |
| TimeArithmetic.NormalFormIsUnique | Python-3.13.1/Lib/_pydatetime.py:689-700 | Normalized triples are equal exactly when their totals are. |
| TimeArithmetic.NewDelta | Python-3.13.1/Lib/_pydatetime.py:601-700 | On integers the carries give the unique normal form of the same total, and `OverflowError` exactly when it has too many days. |
| TimeArithmetic.AddDeltas | Python-3.13.1/Lib/_pydatetime.py:749-756 | Adding timedeltas adds totals, or overflows. |
| TimeArithmetic.SubtractDeltas | Python-3.13.1/Lib/_pydatetime.py:760-767 | Subtracting timedeltas subtracts totals, or overflows. |
| TimeArithmetic.NegateDelta | Python-3.13.1/Lib/_pydatetime.py:774-779 | Negation negates the total, or overflows. |
| TimeArithmetic.DateTimeIsUnique | Python-3.13.1/Lib/_pydatetime.py:2185-2191 | Valid datetimes of the same offset are equal exactly when their totals are. |
| TimeArithmetic.AddDelta | Python-3.13.1/Lib/_pydatetime.py:2203-2220 | `dt + d` has the sum of the totals and the same offset; the only error is leaving the years 1 to 9999. |
| TimeArithmetic.SubtractDelta | Python-3.13.1/Lib/_pydatetime.py:2224-2229 | `dt - d` is the same with the difference. |
| TimeArithmetic.Subtract | Python-3.13.1/Lib/_pydatetime.py:2224-2246 | `dt1 - dt2` is the exact difference of the instants; mixing naive and aware raises `TypeError`. |
| TimeArithmetic.AddThenSubtract | Python-3.13.1/Lib/_pydatetime.py:2203-2246 | `(dt + d) - dt == d` whenever `dt + d` is in range. |
| TimeArithmetic.AddIsAssociative | Python-3.13.1/Lib/_pydatetime.py:2203-2220 | Adding one delta after the other is adding their sum. |
| TimeArithmetic.FieldsCompareTotals | Python-3.13.1/Lib/_pydatetime.py:2185-2191 | Comparing the seven fields as tuples is comparing totals. |
| TimeArithmetic.Compare | Python-3.13.1/Lib/_pydatetime.py:2166-2201 | The result is the chronological order of the instants; naive against aware is an error, or 2 where equality allows it. |
| MkTime.AssertionHolds | Python-3.13.1/Lib/_pydatetime.py:1916-1918 | `assert a != b` holds for every clock whatsoever. |
| MkTime.Solutions | Python-3.13.1/Lib/_pydatetime.py:1904-1927 | A clock with one transition shows a local second at most twice, once for each offset. |
| MkTime.WantedIsRight | Python-3.13.1/Lib/_pydatetime.py:1904-1927 | The specified answer shows `t` if any second does, the earlier one for fold 0 and the later for fold 1; for a skipped `t` it is the larger candidate for fold 0 and the smaller for fold 1. |
| MkTime.ExactlyRight | Python-3.13.1/Lib/_pydatetime.py:1895-1927 | For every local time, fold and transition of any size, `_mktime` is right if and only if the time is not shown twice or the 24-hour probe reaches: times shown once or skipped are always right. |
| MkTime.SmallJumpIsRight | Python-3.13.1/Lib/_pydatetime.py:1898-1915 | With a jump of at most 24 hours it is right for every local time and fold. |
| MkTime.LargeJumpMissesEarlier | Python-3.13.1/Lib/_pydatetime.py:1898-1915 | With a larger jump the earlier second can be missed. |
| MkTime.OnlyNearbyMatters | Python-3.13.1/Lib/_pydatetime.py:1904-1927 | With offsets under 24 hours the clock is consulted only within two days of `t`, so one transition nearby is all that matters. |
| MkTime.SolvesNearby | Python-3.13.1/Lib/_pydatetime.py:1895-1927 | For such a clock with any transitions farther away, the answer is the right one among all seconds. |
| IsoText.FieldsOfFormatted | Python-3.13.1/Lib/_pydatetime.py:374-420 | Parsing a formatted time restores every field the timespec kept, on all hours, minutes, seconds and microseconds. |
| IsoText.ParseHhMmSsFf | Python-3.13.1/Lib/_pydatetime.py:374-420 | The loop filling the component list returns the fields or the error of the recursive specification. |
| IsoText.OffsetIsSignedTime | Python-3.13.1/Lib/_pydatetime.py:189-205 | An offset is written as a sign and a time with as many parts as it needs, losing nothing. |
| IsoText.ZoneRead | Python-3.13.1/Lib/_pydatetime.py:439-462 | Parsing a formatted offset restores it, of either sign and down to microseconds. |
| IsoText.TimeRead | Python-3.13.1/Lib/_pydatetime.py:422-466 | Parsing time and offset together restores both. |
| IsoText.DateRead | Python-3.13.1/Lib/_pydatetime.py:335-371 | Parsing a formatted date restores it. |
| IsoText.SeparatorExactly | Python-3.13.1/Lib/_pydatetime.py:278-332 | For a text that begins with a date in any of six notations, exactly when the end of that date is found, by what stands behind it. |
| IsoText.FindDateTimeSeparator | Python-3.13.1/Lib/_pydatetime.py:278-332 | The branches and the digit-counting loop find the end of a date in each notation exactly when it is recognisable, and raise `ValueError` exactly for nine characters ending in a dash behind a dashed week. |
| IsoText.ParseIsoWeekDate | Python-3.13.1/Lib/_pydatetime.py:343-358 | The date returned is the one whose own ISO year, week and weekday are the numbers read, Monday if no weekday was given. |
| IsoNotations.WeekDateRead | Python-3.13.1/Lib/_pydatetime.py:335-358 | Every accepted week date of the years 1 to 9999 is read, in four notations, as the day that `isocalendar` names so. |
| IsoNotations.PlainDateRead | Python-3.13.1/Lib/_pydatetime.py:359-368 | Every date is read from its eight digits. |
| IsoNotations.IsoYearInRange | Python-3.13.1/Lib/_pydatetime.py:469-472 | The days of the years 1 to 9999 have ISO years 1 to 9999, so every one of them can be written as a week date. |
| IsoNotations.DateTextRead | Python-3.13.1/Lib/_pydatetime.py:335-368 | Every day is read back from each of its six notations, as the Monday where the weekday is left out. |
| IsoNotations.ReadsDate | Python-3.13.1/Lib/_pydatetime.py:1852-1880 | A day alone, in any notation, is read as its midnight. |
| IsoNotations.ReadsNotation | Python-3.13.1/Lib/_pydatetime.py:1852-1880 | A day in any notation, any separator and a written time and offset are read back; the date's end is missed exactly for a digit as separator behind a dashed weekday. |
| IsoText.ParseIsoformatTime | Python-3.13.1/Lib/_pydatetime.py:422-466 | The method returns what the specification of the time parser says on every string. |
| IsoText.FromIsoformat | Python-3.13.1/Lib/_pydatetime.py:1852-1880 | The method returns what the specification of the whole parser says on every string. |
| IsoText.PartsRead | Python-3.13.1/Lib/_pydatetime.py:1860-1880 | A date whose end is found, a separator and a time are parsed separately. |
| IsoText.ReadsFormatted | Python-3.13.1/Lib/_pydatetime.py:1852-1880 | For every separator and timespec, reading back restores the date, the offset and the part of the time that was written. |
| IsoText.RoundTrip | Python-3.13.1/Lib/_pydatetime.py:2041-2066 | With 'auto' or 'microseconds' `fromisoformat` undoes `isoformat`: all fields and the offset, for every separator. |
| IsoText.ShortDateFailsAssertion | Python-3.13.1/Lib/_pydatetime.py:1852-1880 | The only error besides `ValueError` is a failed assertion, exactly on nine-character texts with a dash after the year that are no week dates. |
| DecompressReader.DecodeConcat | Python-3.13.1/Lib/_compression.py:82-94 | Decoding whole streams followed by more input is decoding one after the other. |
| DecompressReader.ConcatenatedFiles | Python-3.13.1/Lib/_compression.py:82-94 | Concatenated files decompress to the concatenation of their contents. |
| DecompressReader.FreshStart | Python-3.13.1/Lib/_compression.py:82-94 | A fresh decompressor continues a finished one exactly where a new stream begins. |
| DecompressReader.Decompressor.Decompress | Python-3.13.1/Lib/_compression.py:91-103 | However far the decoder works ahead, what it returns and what it still holds add up to the decoded input. |
| DecompressReader.Reader.Pump | Python-3.13.1/Lib/_compression.py:81-105 | One pass of the loop hands out the next bytes of the file, or stops at its end, or makes progress on the input. |
| DecompressReader.Reader.ReadSome | Python-3.13.1/Lib/_compression.py:72-111 | The bytes returned are the next slice of the decompressed file, empty only at its end; a truncated file raises `EOFError`. |
| DecompressReader.Reader.ReadAll | Python-3.13.1/Lib/_compression.py:113-121 | Everything from the position to the end, or `EOFError` for a truncated file. |
| DecompressReader.Reader.Read | Python-3.13.1/Lib/_compression.py:72-111 | All sizes: positive, zero and negative. |
| DecompressReader.Reader.Rewind | Python-3.13.1/Lib/_compression.py:124-128 | Back at position 0 with a fresh decompressor and the known size kept. |
| DecompressReader.Reader.SkipTo | Python-3.13.1/Lib/_compression.py:151-158 | Reading and discarding ends at the target, or at the end of the data before it. |
| DecompressReader.Reader.FindSize | Python-3.13.1/Lib/_compression.py:136-141 | Reading to the end finds the true size. |
| DecompressReader.Reader.Seek | Python-3.13.1/Lib/_compression.py:130-158 | For all three `whence` modes, in any state, the position becomes the target clamped to the data; a truncated file raises where its end is needed. |
| DecompressReader.Reader.Tell | Python-3.13.1/Lib/_compression.py:160-162 | The position lies inside the decompressed data. |
| WeakSets.DistinctCount | Python-3.13.1/Lib/_weakrefset.py:72-73 | A list of distinct removals has as many members as entries: the arithmetic behind `len`. |
| WeakSets.WeakSet.Die | Python-3.13.1/Lib/_weakrefset.py:39-45 | A death removes the object from the live members, and changes `data` only when no iteration runs. |
| WeakSets.WeakSet.CommitRemovals | Python-3.13.1/Lib/_weakrefset.py:53-61 | Exactly the dead references are removed, each once. |
| WeakSets.WeakSet.ExitIteration | Python-3.13.1/Lib/_weakrefset.py:27-33 | The last iteration to end leaves no dead reference; an earlier one leaves `data` alone. |
| WeakSets.WeakSet.Len | Python-3.13.1/Lib/_weakrefset.py:72-73 | The difference of the two lengths is the number of live members, in every reachable state. |
| WeakSets.WeakSet.Contains | Python-3.13.1/Lib/_weakrefset.py:75-80 | True exactly for live members; false for an object without weak references. |
| WeakSets.WeakSet.Add | Python-3.13.1/Lib/_weakrefset.py:85-88 | One more live member; an object without weak references raises `TypeError` after the pending removals. |
| WeakSets.WeakSet.Discard | Python-3.13.1/Lib/_weakrefset.py:115-118 | One live member fewer, if it was one; no error for a non-member, `TypeError` for an object without weak references. |
| WeakSets.WeakSet.Remove | Python-3.13.1/Lib/_weakrefset.py:110-113 | Removes a live member; an error exactly for a non-member or an object without weak references. |
| WeakSets.WeakSet.Clear | Python-3.13.1/Lib/_weakrefset.py:90-93 | Nothing is left, live or dead. |
| WeakSets.WeakSet.Pop | Python-3.13.1/Lib/_weakrefset.py:98-108 | `KeyError` exactly when no member is alive; otherwise some live member, removed. |
| WeakSets.NextAlive | Python-3.13.1/Lib/_weakrefset.py:65-70 | The loop skips dead references and yields a member that is alive and was not yielded before, or ends with nothing left to look at. |
| WeakSets.Completed | Python-3.13.1/Lib/_weakrefset.py:63-70 | A completed iteration yielded every member that survived it, and only members that were alive at its start. |
| WeakSets.Iterations.Collect | Python-3.13.1/Lib/_weakrefset.py:39-45 | Deaths while any iterations are suspended disturb none of them and keep the set's size. |
| WeakSets.Iterations.Resume | Python-3.13.1/Lib/_weakrefset.py:63-70 | With iterations started, stepped, ended and given up in any overlap and deaths in between: each yields no member twice and none after its death, misses no survivor, never sees the set change size, and leaves no dead reference if it is the last to end. |
| WeakSets.Iterations.Close | Python-3.13.1/Lib/_weakrefset.py:27-33 | An iteration given up before its end releases its guard and disturbs no other. |
| ThreadLocal.RunInv | Python-3.13.1/Lib/_threading_local.py:190-201 | Every state any interleaving reaches gives each thread its own dictionary with its own attributes, used by all its activations, and the lock to at most one. |
| ThreadLocal.ReadsOwnWrites | Python-3.13.1/Lib/_threading_local.py:221-239 | An access finds the running thread's own dictionary installed, and a read returns that thread's last write. |
| ThreadLocal.OneThreadInside | Python-3.13.1/Lib/_threading_local.py:199-201 | Never are two threads between acquiring and releasing the lock. |
| ThreadLocal.OthersDoNotInterfere | Python-3.13.1/Lib/_threading_local.py:190-201 | In every run, however many steps other threads take, a thread's activations, its dictionary and the attributes in it stay as they were. |
| ThreadLocal.NewThreadStartsEmpty | Python-3.13.1/Lib/_threading_local.py:164-187 | A new thread has no attributes, even with the id of one that died. |
| GdbRepr.TruncatedStringIO.Write | Python-3.13.1/python.exe-gdb.py:133-142 | The value is the concatenation cut at the limit, and truncation is reported exactly when something was cut. |
| GdbRepr.CutStaysCut | Python-3.13.1/python.exe-gdb.py:206-219 | Once cut, no later text can change the output, so ending the traversal early is harmless. |
| GdbRepr.RenderExpandsOnce | Python-3.13.1/python.exe-gdb.py:789-805 | No container's body is written twice, on any graph, cyclic ones included. |
| GdbRepr.ExpandsWhatIsReachable | Python-3.13.1/python.exe-gdb.py:789-805 | The full text writes out the body of every container that can be reached, exactly once, and of nothing else. |
| GdbRepr.ListText | Python-3.13.1/python.exe-gdb.py:850-863 | A list met for the first time, whatever it contains, is written as the joined texts of its first 1000 elements in square brackets, each rendered with what was visited before it. |
| GdbRepr.TupleText | Python-3.13.1/python.exe-gdb.py:1357-1373 | The same for a tuple in round brackets, with a comma behind a single element. |
| GdbRepr.DictText | Python-3.13.1/python.exe-gdb.py:789-805 | The same for the used entries of a dict, key before value, in braces; unused ones leave no trace. |
| GdbRepr.SetText | Python-3.13.1/python.exe-gdb.py:1262-1293 | The same for the used slots of a set in braces, another set type with its name around them, and an empty one as a call. |
| GdbRepr.LeafTexts | Python-3.13.1/python.exe-gdb.py:850-863 | Elements that are leaves are written as they are. |
| GdbRepr.LeafEntryTexts | Python-3.13.1/python.exe-gdb.py:789-805 | Entries of leaves are written as key, colon and value. |
| GdbRepr.WriteRepr | Python-3.13.1/python.exe-gdb.py:850-863 | The traversal terminates; either all of the object's text is written and the shared visited set brought up to date, or the output is the limit's prefix of it. |
| GdbRepr.WriteBody | Python-3.13.1/python.exe-gdb.py:1262-1293 | The same for the brackets, separators and elements of a container in order. |
| GdbRepr.GetTruncatedRepr | Python-3.13.1/python.exe-gdb.py:206-219 | The full text if it fits or there is no limit, otherwise exactly its first `maxlen` characters and the marker. |
| Logcat.EncodeIsReversible | Python-3.13.1/Lib/_android_support.py:163-165 | The encoded message has no null byte, and UTF-8 text is recovered from it. |
| Logcat.LogcatStream.Write | Python-3.13.1/Lib/_android_support.py:162-181 | The message is encoded before it is paid for; the bucket is refilled, capped, charged, and the pause is the debt at the allowed rate. |
| Logcat.Balance | Python-3.13.1/Lib/_android_support.py:167-181 | The books balance for any clock and any sleeps: what a block pays is what was there, what came in and what the resets forgave, less what overflowed and what is left over. |
| Logcat.CostForAnyClock | Python-3.13.1/Lib/_android_support.py:167-181 | Whatever the clock does, a block costs at most the level it started with, the bytes allowed during it and the debt forgiven in it. |
| Logcat.NeverReset | Python-3.13.1/Lib/_android_support.py:172-174 | When sleeps are honoured and the clock does not run back, the reset to zero never changes anything. |
| Logcat.NothingForgiven | Python-3.13.1/Lib/_android_support.py:172-174 | So no debt is forgiven in a run of that kind. |
| Logcat.CostFromStart | Python-3.13.1/Lib/_android_support.py:167-181 | A block of writes in such a run costs at most the level it started with and the bytes allowed during it. |
| Logcat.RateBound | Python-3.13.1/Lib/_android_support.py:138-181 | Any consecutive block of messages costs at most one full bucket and the bytes allowed between the start of its first and the hand-over of its last. |
| Logcat.WithinRateExactly | Python-3.13.1/Lib/_android_support.py:167-181 | Exactly when a block keeps that bound under any clock and any sleeps: the forgiven debt is at most what the bucket lacked, what overflowed and what is left over. |
| Logcat.ForgivenDebt | Python-3.13.1/Lib/_android_support.py:172-174 | For two writes from a full bucket that use up all there is, with the second sleep exact, the bound is kept if and only if the level before the reset was not negative. |
| Logcat.ClockSteppedBack | Python-3.13.1/Lib/_android_support.py:172-174 | A clock that steps back one second between two writes breaks the bound. |

## Left out

Parameters and simplifications:

- The `decimal` library: a `Decimal` is represented by the integer it denotes, and its own text conversion is taken to be exact.
- The floating-point estimate of the number of digits in `int_to_decimal_string` is a parameter, any integer.
- `int()` in the ISO parsers is a parameter that may accept or raise as it likes; the round trip asks only that it reads strings of ASCII digits.
- `time.localtime` is a function from seconds to local seconds; it is described near the wanted time by one transition.
- Characters are modelled without Unicode beyond the white space that `isspace` and `\s` share; the five patterns of the scanner are functions, not a regular-expression engine.
- The raw file of `DecompressReader` and its codec are a byte sequence and a deterministic step function per byte; how much a raw read or a `decompress` call returns is left open within the library's promises.
- A weak reference's death and its callback are one step between two operations of `WeakSet`; an iteration is suspended between any two of its steps. Adding to or removing from a set while it is iterated over, which the interpreter's iterator may refuse, is not followed into the iterations.
- The clock of `Logcat` is exact; rounding of floating-point seconds is not modelled.

Parts of the modelled files that are not in the model:

- `_py_abc.py`: results of `__subclasshook__` other than `NotImplemented`, abstract-method collection, class garbage collection, assignment to `__bases__`, and the debug methods. The registry and caches are plain sets, since no class dies.
- AbcMeta.AbcRuntime.AnyIssubclass: the order in which registered classes and subclasses are tried is left open, because no answer depends on it.
- `_markupbase.py`: what happens to the parser after it raised, beyond the position it leaves, and the texts of its errors.
- `_pydatetime.py`: floating-point timedelta arguments, multiplication and division of timedeltas, `time` objects, `strftime`, pickling, and user-defined tzinfo classes. Datetimes have `fold` 0 and no or a fixed offset.
- TimeArithmetic.Compare: the test whether an offset depends on `fold`, because a fixed offset does not.
- `_compression.py`: `trailing_error`, `readinto`, `close` and I/O errors.
- WeakSets.WeakSet.Pop: the retry for a reference that dies between being popped and being followed, because a death is one step between two operations.
- `_weakrefset.py`: `update` and the other bulk operators, a guard that outlives its set, comparison, copying and pickling, and equality of distinct objects.
- `_threading_local.py`: arguments of a subclass's `__init__`, slots, the `__dict__` guard, and the death of the local object itself.
- `python.exe-gdb.py`: gdb values, casts and symbol lookup; memory is a finite map from addresses to objects. `proxyval`, and the `write_repr` of other types, which are leaves with a fixed text here.
- GdbRepr.WriteBody: the statements of the four container types are laid out as a sequence of texts and elements and written by one loop, so that the order of writing and the updates of the visited set are modelled once.
- `_android_support.py`: the text and binary stream wrappers and the lock, which orders the writes.
- `_strptime.py`, the C headers and the constant tables of the repository, which would add only easy members.
