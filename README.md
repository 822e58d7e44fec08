# Placeholder parentheses of a wildcard pattern

A Dafny model of the placeholder-parentheses utility of jfrog-client-go
(`utils/parenthesesutils.go`), with proofs about it.

A wildcard `pattern` may group parts of itself in parentheses. A `target`
refers to those groups by number, as `{1}`, `{2}`, and so on. The utility
works in three steps:

1. It collects the numbers written between braces in the target, then sorts
   them and drops repeats in place (`getPlaceHoldersValue`,
   `inPlaceRemoveDuplicate`).
2. It pairs every `)` of the pattern with the nearest `(` before it that is
   still open. It then drops the `(` that were never closed and keeps the
   `v`-th remaining pair for every placeholder `{v}` (`getParenthesesIndex`).
3. It rewrites the pattern in one of two ways:
   - `RemovePlaceholderParentheses` deletes the parentheses of the kept pairs.
   - `AddEscapingParentheses` puts a backslash in front of every other
     parenthesis.

Both rewrites append each byte they keep as `string(pattern[i])`. Go reads
that byte as a code point, so a byte from 0x80 on is written as the two
bytes of its UTF-8 encoding (see "## Findings"). The model states both
behaviours. `Removed` and `Escaped` are the byte-preserving rewrites. The
two methods are proved to return `Encode` of them, where `Encode` writes
every byte through `string(b)`.

The project has these modules:

- `Bytes` holds the byte type and the characters the utility looks at.
- `Strconv` models `strconv.Atoi`, including its `int64` range.
- `Runes` models `string(b)` for a byte `b`, and `Encode`, its byte-by-byte
  use, with the inverse `Decode`.
- `BraceScan` models the `{([^}]*)}` match scan.
- `Sorting` holds the contracts of `sort.Ints` and of the sorted,
  duplicate-free form.
- `Pairs` holds the `Parentheses` record, `IsPresent`, and the specification
  of the pairing and selection.
- `Rewrite` holds the two position-wise rewrites `Strip` and `Escape`, and
  where each byte lands once the result is encoded.
- `ParenthesesUtils` holds the operations themselves.

Each loop of the source is a `method` with a loop. It is proved equal to a
specification function: `Present`, `Scan`, `CloseNearest`, `Closed`, `Select`,
`Numbers`, `Dedup`, or `Encode` of `Strip` or `Escape`. The properties the utility promises are lemmas about
those functions.

The target's bytes come in as parameters. The model has no I/O.

## Model

| member | source | states |
|---|---|---|
| Pairs.ParenthesesSlice.IsPresent | utils/parenthesesutils.go:18-25 | returns true exactly when some stored pair opens or closes at `index`, and false otherwise |
| ParenthesesUtils.RemovePlaceholderParentheses | utils/parenthesesutils.go:27-41 | the result is the pattern with exactly the parentheses at positions of associated pairs deleted (`Strip` under the `Deletions` flags), each kept byte written through `string(b)` (`Encode`) |
| ParenthesesUtils.RemovedKeeps | utils/parenthesesutils.go:32-37 | every byte that is not an associated parenthesis is kept, at its position less the number of deletions before it, so the kept bytes stay in order; in the written output its encoding starts one place further for every high byte before it |
| ParenthesesUtils.DeletionsAscii | utils/parenthesesutils.go:33 | only '(' and ')' are ever deleted, so no byte from 0x80 on is |
| ParenthesesUtils.DeletionsCount | utils/parenthesesutils.go:27-41 | well-formed pairs that share no index mark exactly two positions each for deletion |
| ParenthesesUtils.RemovedLength | utils/parenthesesutils.go:27-41 | the byte-wise removal is shorter than the pattern by two for every associated pair, one per deleted index; the written output is longer than that by the number of bytes from 0x80 on |
| ParenthesesUtils.AddEscapingParentheses | utils/parenthesesutils.go:44-55 | the result is the pattern with a backslash put in front of exactly the parentheses that belong to no associated pair (`Escape` under the `Escapes` flags), each byte written through `string(b)` (`Encode`) |
| ParenthesesUtils.EscapedAt | utils/parenthesesutils.go:47-53 | in the byte-wise escaping, each pattern byte lands after the backslashes inserted before it; a backslash sits right in front of it exactly when it is a parenthesis outside every associated pair |
| ParenthesesUtils.EscapedWrittenAt | utils/parenthesesutils.go:47-53 | in the written output, each pattern byte's encoding starts after the backslashes before it plus one place per high byte before it; an escaped byte has its backslash right in front |
| ParenthesesUtils.EscapedLength | utils/parenthesesutils.go:44-55 | the byte-wise escaping grows by the number of parentheses that are not associated (the parenthesis count less two per associated pair); the written output by that plus the number of high bytes |
| ParenthesesUtils.EscapedRoundTrip | utils/parenthesesutils.go:48-51 | deleting the inserted backslashes gives the pattern back, from the byte-wise escaping and from the decoded written output alike |
| ParenthesesUtils.RewritesComplement | utils/parenthesesutils.go:33 | every '(' or ')' is deleted by the one rewrite or escaped by the other, never both; no other byte is touched by either; the escaped text is longer than the stripped one by the number of parentheses |
| ParenthesesUtils.NoPlaceholders | utils/parenthesesutils.go:67-70 | with no numeric placeholder in the target, no pair is associated, the byte-wise removal is the pattern, and escaping escapes every parenthesis; the written removal is the pattern, and the written escaping is the byte-wise one, exactly when the pattern has no byte from 0x80 on |
| ParenthesesUtils.HighByteWidened | utils/parenthesesutils.go:36 | for the pattern "é" (bytes C3 A9) and a target without placeholders, both rewrites change nothing byte-wise, yet both write C3 83 C2 A9 |
| ParenthesesUtils.GetPlaceHoldersValue | utils/parenthesesutils.go:57-71 | the result is strictly increasing and holds exactly the integers captured between braces, or is empty when there are none |
| ParenthesesUtils.InPlaceRemoveDuplicate | utils/parenthesesutils.go:109-123 | for a non-empty slice, the kept prefix is non-empty, no longer than the input, strictly increasing, and holds exactly the input's values |
| ParenthesesUtils.SortInts | utils/parenthesesutils.go:110 | the array ends up an ascending permutation of its old contents |
| ParenthesesUtils.Compact | utils/parenthesesutils.go:111-122 | the loop with a separate write index leaves in the first `len` places the array with every element equal to its predecessor dropped (on a sorted array, every repeat) |
| ParenthesesUtils.CloseNearestInPlace | utils/parenthesesutils.go:81-87 | a ')' at `i` sets the close index of the last pair still open and changes nothing else; with no open pair, nothing changes |
| ParenthesesUtils.PairParentheses | utils/parenthesesutils.go:76-89 | the pairing loop computes `Scan(pattern)`, which records each '(' and lets each ')' close the nearest open pair |
| ParenthesesUtils.DropUnclosed | utils/parenthesesutils.go:91-97 | the filter loop keeps, in order, exactly the pairs that found a ')' |
| ParenthesesUtils.SelectPairs | utils/parenthesesutils.go:98-104 | the selection loop lists the `v`-th closed pair for each value `v` in turn, skipping values beyond the number of closed pairs |
| ParenthesesUtils.GetParenthesesIndex | utils/parenthesesutils.go:74-106 | the result is the associated pairs: the closed pairs of the pattern selected by the target's placeholder values |
| ParenthesesUtils.AssociatedMembers | utils/parenthesesutils.go:99-104 | a pair is associated exactly when it is the `v`-th closed pair for some placeholder value `v` of the target |
| ParenthesesUtils.AssociatedPairs | utils/parenthesesutils.go:74-106 | the associated pairs are each a '(' and a later ')', ordered by opening position, properly nested, and no index belongs to two of them |
| ParenthesesUtils.ValuesPositive | utils/parenthesesutils.go:100-102 | when every number in the target is at least 1, so is every placeholder value passed to the selection |
| Pairs.LastUnclosed | utils/parenthesesutils.go:82-86 | finds the last pair whose close index is still 0, or -1 when there is none; every pair after it is closed |
| Pairs.ScanMatches | utils/parenthesesutils.go:77-89 | after the pairing loop: every '(' is recorded once, in position order; each close is a ')' after its '('; pairs nest; a ')' closing nothing has every earlier '(' closed before it; every ')' after a '(' left open closes a later '(' |
| Pairs.PairingComplete | utils/parenthesesutils.go:77-97 | among the closed pairs, a ')' that is paired with nothing comes after the ')' of every earlier '('; a '(' that is paired with nothing has every later ')' paired with a '(' opened after it |
| Pairs.ClosedPairs | utils/parenthesesutils.go:77-97 | the closed pairs are each a '(' with a later ')', ordered by opening position, and properly nested |
| Pairs.ClosedMembers | utils/parenthesesutils.go:93-96 | the filter keeps exactly the pairs whose close index is not 0 |
| Pairs.ClosedKeeps | utils/parenthesesutils.go:93-96 | a pair with a close index other than 0 survives the filter |
| Pairs.ClosedOrdered | utils/parenthesesutils.go:93-96 | filtering keeps the pairs ordered by opening position |
| Pairs.SelectMembers | utils/parenthesesutils.go:100-104 | the selection holds exactly the `vs[k]`-th closed pairs whose index is in range |
| Pairs.SelectHas | utils/parenthesesutils.go:100-104 | the same, stated by value: a pair is selected exactly when some value `v` names it |
| Pairs.SelectSameValues | utils/parenthesesutils.go:100-104 | two value sequences with the same set of values select the same pairs |
| Pairs.SelectOrdered | utils/parenthesesutils.go:100-104 | for strictly increasing values, the selected pairs stay ordered by opening position |
| Pairs.SelectedPairs | utils/parenthesesutils.go:100-104 | for strictly increasing values of at least 1, the selected pairs are well formed, ordered, nested and share no index |
| Strconv.Atoi | utils/parenthesesutils.go:63 | a parsed value lies in the `int64` range; it comes from a non-empty text that is a digit or a sign followed by digits only, and it is negative only after a '-' |
| Strconv.AtoiFormatInt | utils/parenthesesutils.go:63 | Atoi accepts the decimal spelling of an integer, with '-' when negative and optionally '+' when not, exactly when the integer fits in `int64`, and returns that integer |
| Strconv.AtoiLeadingZero | utils/parenthesesutils.go:63 | a '0' put in front of a non-empty run of digits does not change what Atoi returns, so "000000000000000000001" is read as 1 |
| Strconv.AtoiRejectsNonDigit | utils/parenthesesutils.go:63 | text with a byte that is neither a digit nor a leading sign is an error |
| Strconv.DigitsValueOfDigits | utils/parenthesesutils.go:63 | the decimal digits of `n` have the value `n` |
| BraceScan.Groups | utils/parenthesesutils.go:60-61 | no captured group holds a '}', and each group is shorter than the target by at least its two braces |
| BraceScan.GroupsOfBraced | utils/parenthesesutils.go:60-61 | scanning `{g0}{g1}...` gives back exactly the groups `g0, g1, ...` when none of them holds a '}' |
| BraceScan.NoCloseBraceNoGroups | utils/parenthesesutils.go:60-61 | a target without '}' has no match |
| BraceScan.IndexOf | utils/parenthesesutils.go:60 | the first position at or after `from` that holds the byte, or the end |
| Sorting.Sort | utils/parenthesesutils.go:110 | the result is ascending and a permutation of the input |
| Sorting.InsertSorted | utils/parenthesesutils.go:110 | inserting into an ascending sequence keeps it ascending |
| Sorting.InsertMultiset | utils/parenthesesutils.go:110 | insertion adds the value and loses none |
| Sorting.SortedSet | utils/parenthesesutils.go:109-123 | the result is strictly increasing and holds exactly the input's values |
| Sorting.StrictlyIncreasingUnique | utils/parenthesesutils.go:109-123 | two strictly increasing sequences with the same values are equal, so the deduplicated slice is determined by its values |
| Sorting.DedupSorted | utils/parenthesesutils.go:111-122 | on a sorted sequence, dropping elements equal to their predecessor gives the strictly increasing sequence of its values |
| Sorting.InsertUniqueIncreasing | utils/parenthesesutils.go:109-123 | adding a value to a strictly increasing sequence keeps it strictly increasing |
| Sorting.InsertUniqueElems | utils/parenthesesutils.go:109-123 | adding a value adds exactly that value to the set of values |
| Sorting.PermutationElems | utils/parenthesesutils.go:110 | sorting does not change the set of values |
| Rewrite.StripKeeps | utils/parenthesesutils.go:32-37 | every unflagged byte survives deletion, at its position less the deletions before it |
| Rewrite.StripNothing | utils/parenthesesutils.go:32-37 | with no flag raised, deletion returns its input |
| Rewrite.EscapeAt | utils/parenthesesutils.go:47-53 | each byte lands after the bytes and backslashes written for the positions before it, one place further when its own flag is raised |
| Rewrite.EscapeBackslash | utils/parenthesesutils.go:47-53 | a flagged byte has a backslash written right in front of it |
| Rewrite.UnescapeEscape | utils/parenthesesutils.go:47-53 | deleting the inserted backslashes inverts escaping |
| Rewrite.CountSplit | utils/parenthesesutils.go:33 | two flag sequences that split one set of positions between them raise as many flags together as the set has |
| Rewrite.StripStep | utils/parenthesesutils.go:32-37 | one more pattern byte adds nothing to the deletion when flagged and adds itself otherwise |
| Rewrite.EscapeStep | utils/parenthesesutils.go:47-53 | one more pattern byte adds a backslash and itself to the escaping when flagged and itself otherwise |
| Rewrite.StripUpTo | utils/parenthesesutils.go:32-37 | the deletion of a prefix of the pattern is a prefix of the deletion of the pattern |
| Rewrite.EscapeUpTo | utils/parenthesesutils.go:47-53 | the escaping of a prefix of the pattern is a prefix of the escaping of the pattern |
| Rewrite.StripHigh | utils/parenthesesutils.go:33-36 | deleting only ASCII bytes keeps the number of bytes from 0x80 on |
| Rewrite.EscapeHigh | utils/parenthesesutils.go:48-51 | inserting backslashes keeps the number of bytes from 0x80 on |
| Rewrite.StripLanding | utils/parenthesesutils.go:32-37 | a kept byte sits at its position less the deletions before it, with as many high bytes before it as in the pattern |
| Rewrite.EscapeLandingKept | utils/parenthesesutils.go:50-51 | an unescaped byte sits after the bytes and backslashes before it, with as many high bytes before it as in the pattern |
| Rewrite.EscapeLandingFlagged | utils/parenthesesutils.go:48-49 | an escaped byte sits one place after that, behind its backslash, with as many high bytes before it as in the pattern |
| Rewrite.EscapeBackslashLanding | utils/parenthesesutils.go:48-49 | the backslash of an escaped byte sits after the bytes and backslashes before it |
| Rewrite.StripEncodedKeeps | utils/parenthesesutils.go:32-37 | in the encoded deletion, a kept byte's encoding starts at its position less the deletions before it plus one per high byte before it |
| Rewrite.EscapeEncodedKept | utils/parenthesesutils.go:50-51 | in the encoded escaping, an unescaped byte's encoding starts after the bytes and backslashes before it plus one per high byte before it |
| Rewrite.EscapeEncodedFlagged | utils/parenthesesutils.go:48-49 | in the encoded escaping, an escaped byte's encoding starts one place after that |
| Rewrite.EscapeEncodedBackslash | utils/parenthesesutils.go:48-49 | in the encoded escaping, an escaped byte's backslash sits right in front of its encoding |
| Runes.AsRune | utils/parenthesesutils.go:36 | `string(b)` is `b` itself below 0x80, and otherwise a lead byte C2 or C3 followed by a continuation byte |
| Runes.AsRuneDecodes | utils/parenthesesutils.go:36 | the two bytes written for a byte from 0x80 on stand for that byte |
| Runes.Encode | utils/parenthesesutils.go:31-37 | appending `string(b)` for every byte grows the text by one extra byte per byte from 0x80 on |
| Runes.EncodeSnoc | utils/parenthesesutils.go:36 | one more byte appends its `string(b)` to the output |
| Runes.DecodeEncode | utils/parenthesesutils.go:36 | decoding gives back every byte that was written through `string(b)`: no information is lost |
| Runes.EncodeAscii | utils/parenthesesutils.go:36 | writing every byte through `string(b)` leaves the text unchanged exactly when it has no byte from 0x80 on |
| Runes.EncodeAt | utils/parenthesesutils.go:36 | the encoding of the `j`-th byte starts at `j` plus the number of high bytes before it |
| Runes.EncodeAcute | utils/parenthesesutils.go:36 | "é" (bytes C3 A9) is written as C3 83 C2 A9 |

## Left out

- `utils/io/content/contentreader.go` is not part of this model. It is a goroutine and channel pipeline under `sync.Once`, over `os` file I/O, `encoding/json` and `log.Fatal`. None of that is sequential text logic.
- UTF-8 decoding by `range pattern` is not modelled. The pattern is a byte sequence. `range pattern` visits runes at their byte offsets, but '(' and ')' are single ASCII bytes and never occur inside a multi-byte rune or as the start of an invalid one. So byte-wise scanning finds the same positions.
- `regexp` is not modelled as a library. `BraceScan.Groups` writes the `{([^}]*)}` scan out by hand: each match runs from a '{' to the next '}', and the next search resumes after that '}'.
- `sort.Ints` internals are not modelled. Its contract, an ascending permutation, is met by an insertion-sort specification function that `SortInts` writes back into the array.
- Strconv.Atoi: models `int` as 64 bits wide, as on the 64-bit platforms Go targets; on a 32-bit platform Go's range is smaller.
- ParenthesesUtils.GetParenthesesIndex: requires every placeholder number to be at least 1. In Go, a placeholder `{0}` or `{-3}` passes the guard `len(temp) > v-1` and then indexes `temp` below 0, which panics. For `{-9223372036854775808}`, `v-1` wraps around to the largest `int64`, so the guard is false and Go skips the value without a panic. The model excludes all of these inputs instead of modelling the panic and the wrap-around.
- Rewrite.StripKeeps: states the byte-wise deletion. The program writes each kept byte through `string(b)`; Rewrite.StripEncodedKeeps and ParenthesesUtils.RemovedKeeps place each kept byte in that output.
- Rewrite.StripNothing: states the byte-wise deletion. For the written output, ParenthesesUtils.NoPlaceholders states that it equals the pattern exactly when the pattern is ASCII.
- Rewrite.EscapeAt: states the byte-wise escaping. Rewrite.EscapeEncodedKept, Rewrite.EscapeEncodedFlagged and ParenthesesUtils.EscapedWrittenAt place each byte in the written output.
- Rewrite.UnescapeEscape: inverts the byte-wise escaping. For the written output, Runes.DecodeEncode undoes the encoding first, as ParenthesesUtils.EscapedRoundTrip states.
- ParenthesesUtils.EscapedAt: states the byte-wise escaping. ParenthesesUtils.EscapedWrittenAt states the positions in the written output.
- Go's distinction between a nil slice and an empty slice is not modelled. Both are the empty sequence.
- `inPlaceRemoveDuplicate` shortens the caller's slice through its address (`*[]int`). `InPlaceRemoveDuplicate` keeps the array and returns the new length instead.

## Findings

| source | as written | input that shows it | evidently intended | confidence | as-written member | corrected member |
|---|---|---|---|---|---|---|
| utils/parenthesesutils.go:36 | `temp + string(pattern[i])` converts the byte to the code point of that value, so a byte from 0x80 on is written as two bytes | pattern "é" (bytes C3 A9), target "": the result is C3 83 C2 A9 | the kept bytes are copied unchanged, giving the pattern without the associated parentheses | high; not executed | ParenthesesUtils.RemovePlaceholderParentheses, ParenthesesUtils.HighByteWidened | ParenthesesUtils.Removed, ParenthesesUtils.RemovedKeeps |
| utils/parenthesesutils.go:51 | `temp + string(pattern[i])` widens every byte from 0x80 on in the same way | pattern "é" (bytes C3 A9), target "": the result is C3 83 C2 A9 | the bytes are copied unchanged, with a backslash in front of each escaped parenthesis | high; not executed | ParenthesesUtils.AddEscapingParentheses, ParenthesesUtils.HighByteWidened | ParenthesesUtils.Escaped, ParenthesesUtils.EscapedAt |
