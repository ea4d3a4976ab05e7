# utilisation: reversed-reading ingest and percentage usage, in Dafny

utilisation.c reads a text file of vibration readings whose characters were
written back to front. It reverses each token in place with its own
`strrev`, parses the result into the next slot of the fixed store
`INPUT_DATA` (255 doubles and a count), and computes the percentage of
readings at or above a trigger level of 10.0.

The model has two modules:

- `CString` (cstring.dfy) covers NUL-terminated buffers of `bv8` characters.
  It has C's `strlen` as `StrLen`, the text of a buffer as `Text`, and a
  reference reversal `Reversed`. `ReverseCString` is the buffer that `strrev`
  leaves. `StrRev` is the in-place two-index loop. `XorExchange` is its
  three-step XOR body, and it also states what those three statements do
  when both indices name the same slot.
- `Utilisation` (utilisation.dfy) covers the rest.
  - The class `InputData` is the store: an `array<real>` of 255 slots and a
    `count`.
  - `IngestReversed` is the `REVERSED_FLOAT_IMPLEMENTATION` loop of `main`.
  - `CalculatePercentageUsage` is the counting loop, with the post-increment
    of the count.
  - `Run` is `main` from the memset to the calculation.
  - `CountAtLeast` and `UsagePercent` are the specification functions that
    the loops are proved against.
  - `ReversedText` is the text `sscanf` receives for a token (lines 202-203):
    the token's characters up to its first NUL, reversed.
  - `Stored` is the slot after the `sscanf` into it (line 203): the parsed
    value, or the slot's previous value when the parse fails.
  - `TriggeredIndices` is an independent definition of the count, as a set
    of positions.

Parsing (`sscanf("%lf")`) is a function-typed parameter
`decode: seq<Char> -> Option<real>`. Nothing about decimal syntax is assumed.

The model follows the code, including where it behaves in ways a reader
might not expect:

- The store has no capacity check. More than 255 tokens, or a token of 64 or
  more characters, is a precondition, not an error result.
- A token that does not parse still takes a slot. The count moves on, and
  the slot keeps the zero from the memset.
- The calculation is not read-only. It increments the stored count
  (`iCount++` inside the division).
- With no readings, the code divides `0.0` by `0`. ISO C alone leaves that
  undefined; under IEC 60559 arithmetic (Annex F of the C standard, which
  gcc on Linux provides) it yields NaN. The model returns `Percentage.NaN`
  and does not require a non-empty store.

## Model

| member | source | states |
|---|---|---|
| `CString.StrLen` | utilisation.c:127 | strlen is the index of the first NUL: the byte there is NUL and none before it is |
| `CString.Text` | utilisation.c:127 | the string's characters are NUL-free and, followed by the terminator, are exactly the start of the buffer |
| `CString.ReversedAt` | utilisation.c:127-132 | in the reversal of a sequence, position k holds the character from position n-1-k |
| `CString.ReversedTwice` | utilisation.c:127-132 | reversing twice returns the original sequence |
| `CString.ReverseCStringAt` | utilisation.c:127-132 | after strrev, index i < strlen holds the old character at strlen-1-i, and every index from the terminator on holds its old character |
| `CString.ReverseCStringKeepsLength` | utilisation.c:127 | strrev leaves the terminator in place: strlen is unchanged and the new text is the reversed old text |
| `CString.ReverseCStringTwice` | utilisation.c:121-134 | applying strrev twice restores the whole buffer |
| `CString.ReverseCStringEmpty` | utilisation.c:125-126 | the empty string is returned untouched |
| `CString.ReverseCStringMiddle` | utilisation.c:127 | in an odd-length string the middle character does not move |
| `CString.XorCancels` | utilisation.c:129-131 | XOR with the same character twice cancels, and a character XORed with itself is NUL |
| `CString.XorExchange` | utilisation.c:129-131 | on two distinct slots the three `^=` statements swap the characters; on one slot they clear it; no other slot changes |
| `CString.StrRev` | utilisation.c:121-134 | returns its argument; a null pointer is left alone; otherwise the buffer becomes its C-string reversal (text reversed, terminator and tail unchanged) |
| `Utilisation.CountAtLeast` | utilisation.c:145-148 | the number of readings at or above the level never exceeds the number of readings |
| `Utilisation.CountIsTriggeredIndices` | utilisation.c:145-148 | the count equals the number of positions whose reading is >= the level |
| `Utilisation.CountAllIff` | utilisation.c:145-148 | the count equals the number of readings exactly when every reading is >= the level |
| `Utilisation.CountNoneIff` | utilisation.c:145-148 | the count is zero exactly when every reading is below the level |
| `Utilisation.CountAntitone` | utilisation.c:146 | raising the trigger level never increases the count |
| `Utilisation.UsageInRange` | utilisation.c:149 | for a non-empty store the percentage is finite and lies in [0, 100] |
| `Utilisation.UsageFullIff` | utilisation.c:149 | the percentage is 100 exactly when every reading triggers |
| `Utilisation.UsageZeroIff` | utilisation.c:149 | the percentage is 0 exactly when no reading triggers |
| `Utilisation.RepeatCallDilutes` | utilisation.c:149 | adding a zero reading to readings with at least one trigger, at a positive level, gives a strictly lower percentage |
| `Utilisation.InclusiveBoundaryExample` | utilisation.c:146 | a reading equal to the level triggers: 10.0, 9.9, 10.0 against 10.0 give 2 triggers and 200/3 percent |
| `Utilisation.HalfUsedExample` | utilisation.c:145-151 | readings 1.0, 20.0, 15.0, 5.0 against the default level 10.0 give 50 percent |
| `Utilisation.ReversedTextOfPlainToken` | utilisation.c:202-203 | a token without NUL bytes reaches the parser fully reversed |
| `Utilisation.ReversedTextExample` | utilisation.c:202-203 | the token "52.0" reaches the parser as "0.25" |
| `Utilisation.Readings` | utilisation.c:193-204 | each token takes exactly one slot, which holds the token's parsed value, or 0.0 when it does not parse |
| `Utilisation.ScanToken` | utilisation.c:202 | fscanf writes the token and a terminating NUL at the start of sTmp and leaves the rest of sTmp alone |
| `Utilisation.ScannedTextReversed` | utilisation.c:202-203 | after the scan and strrev, the NUL-terminated text in sTmp is the reversed token |
| `Utilisation.ScanAndDecode` | utilisation.c:202-203 | the parser is given the reversed token text |
| `Utilisation.InputData.constructor` | utilisation.c:101-110 | the store starts with 255 slots, all zero, and a count of 0 |
| `Utilisation.InputData.Clear` | utilisation.c:193-197 | after the memset and `iCount = 0` every slot is 0.0 and the count is 0 |
| `Utilisation.InputData.IngestReversed` | utilisation.c:201-204 | the count grows by exactly the number of tokens; the k-th token's slot holds its parsed value, or its old value when the parse fails; every other slot is unchanged |
| `Utilisation.InputData.CalculatePercentageUsage` | utilisation.c:140-152 | returns 100 * (readings >= level in slots [0, count)) / count, or NaN for count 0; the stored count becomes old count + 1; the readings are not modified |
| `Utilisation.Run` | utilisation.c:192-221 | the utilisation of a run equals UsagePercent of the per-token readings (failed parses as 0.0) against the default level 10.0 |
| `Utilisation.RunAndRecalculate` | utilisation.c:145-151 | with fewer than 255 tokens, a second calculation on the same store sees the readings plus the zero slot past the old end, because the first call post-incremented the count; with at least one trigger its percentage is strictly lower (with 255 readings the second C call would read past the array) |

## Left out

- File handling in `main` is not modelled. This covers `fopen`, `fclose`,
  the output `fprintf`, the error messages and the exit codes. It also covers
  the check at line 182, which tests the input handle instead of the output
  handle. All of this is I/O.
- Debug and dump printing is output only.
- `fscanf("%s")` tokenising is not modelled. `Run` and `IngestReversed`
  take the tokens as a sequence of byte sequences.
- `sscanf("%lf")` is not modelled. It is the `decode` parameter, so the
  model does not say which texts parse or to what value. For example, it
  does not say whether a trailing sign is accepted.
- IEEE-754 doubles are not modelled. Readings, the trigger level and the
  percentage are reals. Only the NaN of an empty store is kept.
- `Utilisation.InputData.CalculatePercentageUsage`: the result is exact
  real arithmetic, so double rounding of `100.0 * (t / n)` is not captured.
- The `STANDARD_FLOAT_IMPLEMENTATION` branch is not modelled. The build
  compiles it out.
- Writing past `sTmp` (tokens of 64 or more characters) or past the 255
  slots is undefined behaviour in the code. The model states both limits as
  preconditions of `IngestReversed` and `Run`.
- `CalculatePercentageUsage` requires count <= 255, since a larger count
  would read past the array. That happens only after an earlier call has
  raised the count past 255.
- `int` overflow of the count cannot happen within these bounds, so it is
  not modelled.
