# haklib core, modelled in Dafny

haklib is a small Python library of helpers for breaking and inspecting data. This project models its core and proves what it promises:

- **xor** (`xor.dfy`, on top of `bytes.dfy`): repeating-key XOR encryption (`xorcrypt`), the index of coincidence of a buffer against itself (`ioc`), the smallest key length whose coincidence rate beats a limit (`keylen_ioc`), XOR differentials at a period (`xordiff`), and the known-plaintext attack (`xorattack_kpt`). The attack finds the places where a plaintext fragment's differentials occur in the ciphertext's differentials. It recovers and re-phases the key at each such place, and yields every key once with the decryption it gives.
- **c** (`c.dfy`): C-style integer helpers. These are division truncating toward zero (`c_div`), the signed and unsigned char casts, a 32-bit left rotation, and 32-bit wrapping addition and sums.
- **cpdict** (`cpdict.dfy`): `CasePreservingDict`, an ordered dictionary that looks keys up without regard to ASCII case and keeps the casing of the first write. It is a class whose fields are the insertion order of the lower-cased keys and a map from each lower-cased key to its preserved key and value. Every method is proved against a value-level model, a sequence of items.
- **iter** (`iter.dfy`): `pairwise`, `chunkwise` and `blockwise` over a finite sequence.
- **hexdump** (`hexdump.dfy`): `hexdumpify`, lowercase hex pairs separated by spaces and wrapped at 48 characters (16 bytes) per line.
- **ascii** (`ascii.dfy`, with `strings.dfy` for `sep.join`): `asciibox`, a message framed in a `+--+` / `| |` box with an optional title and minimum width.
- **isodt** (`isodt.dfy`): `tzs2td`, the time-zone offset of a zone name or `±hhmm`. Also `parse_iso8601`: the split of a timestamp into stamp and zone, the six numeric fields of the stamp, datetime's range checks, and the shift to UTC. The result is counted in seconds since 0001-01-01 00:00:00 UTC, the first instant datetime can represent.

Integers are unbounded. The source's 8- and 32-bit truncations are written out as `% 256` and `% 2^32`, or as a bitwise model of `&`, `|` and `^` on naturals. Most errors the source raises become `Option` values or error constructors: division by zero, a rotation amount Python's shifts reject, a missing key, an unparsable field, an unknown zone and an out-of-range date. A few become preconditions instead, each listed under "Left out": `ioc`'s `assert shift > 0`, `keylen_ioc`'s division by the buffer length and its range starting above zero, the attack's need for a positive or detectable key length, and a natural `mindiffs`.

## Model

| member | source | states |
|---|---|---|
| Bytes.XorZeroIff | xor.py:54 | `a ^ b == 0` exactly when the two bytes are equal, so the coincidence test compares bytes |
| Bytes.XorInvolution | xor.py:40 | XORing twice with the same key byte gives the byte back |
| Bytes.XorCancel | xor.py:82 | a key byte XORed into both operands cancels out of their XOR |
| Bytes.XorTransfer | xor.py:118-119 | when two ciphertext bytes and two plaintext bytes have the same XOR, a key byte that decrypts the first also decrypts the second |
| Xor.KeyAtMod | xor.py:40 | the key byte used at position `i` is `key[i % len(key)]` |
| Xor.XorCrypt | xor.py:27-41 | an empty key returns `buf` unchanged; otherwise the loop computes byte `i` as `buf[i] ^ key[i % len(key)]`, with the same length as `buf` |
| Xor.CryptInvolution | xor.py:27-41 | encrypting twice with the same key gives the buffer back |
| Xor.CryptBlock | xor.py:39-40 | a buffer whose first block is one key length long encrypts block by block |
| Xor.CryptExamples | xor.py:31-34 | the shape of `xorcrypt`'s doctests for any bytes: a key equal to the first two bytes zeroes them and XORs the rest with it |
| Xor.CryptDoctest | xor.py:31-34 | `xorcrypt(b'1234', b'12')` is `00 00 02 06` and `xorcrypt(b'12345', b'12')` is `00 00 02 06 04` |
| Xor.XorDiff | xor.py:73-83 | `max(0, len(buf) - period)` bytes; byte `i` is `buf[i] ^ buf[i + period]` |
| Xor.DiffKeyInvariant | xor.py:109-115 | the differential at the key length is the same for the ciphertext and the plaintext, which is why the attack can match on it |
| Xor.DiffExamples | xor.py:77-78 | the shape of `xordiff`'s doctest for any seven bytes; no bytes when the period is at least the length |
| Xor.DiffDoctest | xor.py:77-78 | `xordiff(b'abcdefg', 3)` is `05 07 05 03` |
| Xor.Ioc | xor.py:43-56 | the loop counts the zero XORs over the `len(buf) - shift` pairs, never more than that; `shift > 0` is required as the source asserts |
| Xor.CoincidencesAreDiffZeroes | xor.py:45-46 | the index of coincidence is the number of zero bytes in the differential at that shift |
| Xor.CoincidencesCountEqualPairs | xor.py:53-55 | it equals the number of positions `i` with `buf[i] == buf[i + shift]` |
| Xor.IocExample | xor.py:48-49 | the doctest of `ioc`, for any two bytes |
| Xor.NoCoincidences | xor.py:51-56 | no equal pair `shift` apart means an index of coincidence of 0 |
| Xor.SomeCoincidence | xor.py:51-56 | one equal pair `shift` apart means an index of coincidence of at least 1 |
| Xor.SmallestKeyLen | xor.py:67-71 | a result lies in the range and beats the limit, and no smaller shift in the range does; no result means no shift in the range beats it |
| Xor.KeyLenIoc | xor.py:58-71 | the loop returns the smallest qualifying shift, or none |
| Xor.DetectsThree | xor.py:58-71 | a buffer shorter than 100 bytes with no equal bytes 1 or 2 apart and an equal pair 3 apart has key length 3 |
| Xor.KeyLenDoctest | xor.py:64-65 | `keylen_ioc(b'abxabcabcwbcabc')` is 3 |
| Xor.KeyLength | xor.py:107-108 | a given key length is used as is; otherwise the length detected on the first MiB beats the limit |
| Xor.MatchOffsets | xor.py:115 | exactly the offsets where the pattern starts, in increasing order |
| Xor.FragmentMatches | xor.py:114-115 | every match offset is in range, and there the fragment's differential starts in the ciphertext's differential, in increasing order |
| Xor.MatchDiffs | xor.py:115 | at a match, every ciphertext byte pair `L` apart has the XOR of the matching fragment byte pair |
| Xor.PhaseKeyPhases | xor.py:117-122 | the rotated key puts `buf[m+j] ^ kpt[j]` at key position `(m + j) % L` |
| Xor.RecoverKey | xor.py:116-123 | the loop and rotation give a key of length `L` whose byte at `(m + j) % L` is `buf[m+j] ^ kpt[j]` |
| Xor.DecryptsFrom | xor.py:115-122 | a key that decrypts the first `L` fragment bytes at a match decrypts the whole fragment there |
| Xor.PhaseKeyDecrypts | xor.py:116-126 | decrypting the ciphertext with the recovered key reproduces the fragment at the match offset |
| Xor.DedupStepConsistent | xor.py:124-126 | a key already seen is skipped; a new key is remembered and its candidate appended |
| Xor.DedupAppends | xor.py:110-126 | the candidates found so far are kept and only candidates met are added |
| Xor.DedupFirst | xor.py:124-126 | each yielded candidate is the first one met with its key |
| Xor.AllCandidatesSound | xor.py:111-126 | every candidate is a decryption of the ciphertext with its key and reproduces some long-enough fragment at its offset |
| Xor.AllCandidatesComplete | xor.py:111-119 | every match of every fragment of at least `keylen + mindiffs` bytes gives a candidate |
| Xor.AttackSound | xor.py:85-126 | the yielded keys are distinct and each candidate is sound as above |
| Xor.AttackComplete | xor.py:111-126 | the key recovered at every match of every long-enough fragment is among the yielded keys |
| Xor.XorAttackKpt | xor.py:85-126 | the loops yield exactly the attack's candidates: each a decryption that reproduces a long-enough fragment, with no key twice |
| Xor.AttackSampleKeyLength | xor.py:107-108 | the doctest's ciphertext `b'abxabcabcwbcab'` has detected key length 3 |
| Xor.SampleWrongMisses | xor.py:111-115 | `b'wrong'` matches nowhere in it |
| Xor.SampleFragmentMatches | xor.py:114-115 | the second fragment matches at offsets 5 and 8 and nowhere else |
| Xor.SampleKeys | xor.py:116-123 | the keys recovered there are `b'abx'` and `b'wbx'` |
| Xor.SamplePlaintextWbx | xor.py:103 | decrypting with `b'wbx'` gives the plaintext the doctest prints |
| Xor.SamplePlaintextAbx | xor.py:96-98 | decrypting with `b'abx'` gives a plaintext starting with two zero bytes, which the doctest skips |
| Xor.AttackDoctest | xor.py:94-105 | the attack yields key `b'abx'` at offset 5 and then key `b'wbx'` at offset 8 with the printed plaintext, and nothing else |
| C.Sign | c.py:40 | `copysign(1, x)` for an integer: 1 for `x >= 0`, otherwise -1 |
| C.CDiv | c.py:29-41 | `ZeroDivisionError` exactly when `d == 0`; otherwise the quotient truncates toward zero (`q = t*d + r` with `abs(r) < abs(d)` and `r` of the sign of `q`) |
| C.SignedQuotient | c.py:40-41 | sign times `abs(q) // abs(d)` is a truncated quotient |
| C.TruncationUnique | c.py:29-41 | the truncated quotient is unique |
| C.CDivExamples | c.py:33-38 | the doctests of `c_div` |
| C.CUchar | c.py:54-63 | the result is in `[0, 256)` and congruent to `i` modulo 256 |
| C.CSchar | c.py:43-52 | the result is in `[-128, 128)` and congruent to `i` modulo 256 |
| C.SignedIsTwosComplement | c.py:43-63 | the signed char is the unsigned one read in two's complement, and casting it back to unsigned gives the same value |
| C.CharExamples | c.py:47-61 | the doctests of `c_schar` and `c_uchar` |
| C.OrDisjoint | c.py:76 | bitwise or of a value shifted left by `m` and a value below `2^m` is their sum |
| C.OrOfShifts | c.py:76 | the masked left shift or-ed with the right shift is the rotation |
| C.CRot32 | c.py:65-76 | defined exactly for `-32 <= n <= 32` (Python rejects negative shift counts); then the value rotated left by `n` (by `32 + n` when `n < 0`) |
| C.RotInverse | c.py:65-76 | rotating by `n` and then by `-n` gives the value back |
| C.Rot32Examples | c.py:69-72 | the doctests of `c_rot32` |
| C.CAdd32 | c.py:78-87 | the result is in `[0, 2^32)` and congruent to `a + b` modulo `2^32` |
| C.CSum32 | c.py:89-96 | the result is in `[0, 2^32)` and congruent to the sum modulo `2^32` |
| C.Sum32Snoc | c.py:78-96 | the 32-bit sum of one more argument is `c_add32` of the shorter sum and it |
| C.Sum32Pair | c.py:78-96 | `c_sum32(a, b) == c_add32(a, b)` |
| C.Add32Examples | c.py:82-94 | the doctests of `c_add32` and `c_sum32` |
| CpDict.LowerChar | cpdict.py:44 | ASCII upper-case letters map to lower case and every other character is kept |
| CpDict.LowerIdempotent | cpdict.py:44-51 | lower-casing a lower-cased key changes nothing |
| CpDict.IndexOf | cpdict.py:44-51 | a found index holds the lower-cased key; none exactly when no item holds it |
| CpDict.PutWellFormed | cpdict.py:43-45 | setting a key keeps the lower-cased keys distinct |
| CpDict.PutThenGet | cpdict.py:43-48 | after setting a key, every casing of it reads the new value, and every other key reads as before |
| CpDict.PutShape | cpdict.py:43-45 | an existing key keeps its position and first casing and nothing else changes; a new key is appended with its own casing |
| CpDict.RemoveSpec | cpdict.py:50-51 | deleting succeeds exactly when the key is present; then no casing of it is found, the length drops by one and every other key reads as before |
| CpDict.DictOfLowerPairs | cpdict.py:59-69 | `dict(lower_items())` has exactly the lower-cased keys, each mapped to its value |
| CpDict.LenIsDistinctKeys | cpdict.py:53-54 | the length is the number of distinct lower-cased keys |
| CpDict.SameDictSameLookups | cpdict.py:62-69 | two dictionaries have equal `dict(lower_items())` exactly when every key reads the same in both |
| CpDict.EqualIgnoresCaseAndOrder | cpdict.py:62-69 | two dictionaries built from the same two entries, in either order and either casing, keep their own key casings and compare equal |
| CpDict.RebuildFromPairs | cpdict.py:40-41 | re-inserting the preserved `(key, value)` pairs in order rebuilds the same items |
| CpDict.CasePreservingDict.constructor | cpdict.py:34-38 | the new dictionary holds the items of inserting the pairs in order |
| CpDict.CasePreservingDict.Update | cpdict.py:38 | the loop inserts the pairs in order |
| CpDict.CasePreservingDict.SetItem | cpdict.py:43-45 | the new state is the old items with the key set |
| CpDict.CasePreservingDict.GetItem | cpdict.py:47-48 | the value under any casing of the key, or none (Python's `KeyError`) |
| CpDict.CasePreservingDict.DelItem | cpdict.py:50-51 | reports whether the key was present (absent is Python's `KeyError`); if so the entry is removed, otherwise nothing changes |
| CpDict.CasePreservingDict.Len | cpdict.py:53-54 | the number of entries, which is the number of distinct lower-cased keys |
| CpDict.CasePreservingDict.Iter | cpdict.py:56-57 | the preserved keys in insertion order |
| CpDict.CasePreservingDict.LowerItems | cpdict.py:59-60 | the lower-cased keys with their values, in insertion order |
| CpDict.CasePreservingDict.Equals | cpdict.py:62-69 | true exactly when every key reads the same in both dictionaries |
| CpDict.CasePreservingDict.EqualsMapping | cpdict.py:62-69 | against a mapping: true exactly when every key reads the same as in the dictionary built from it |
| CpDict.CasePreservingDict.Copy | cpdict.py:40-41 | a fresh dictionary with the same items |
| Iter.Pairwise | iter.py:31-37 | `len // 2` pairs, pair `i` being elements `2i` and `2i+1`; an odd last element is dropped |
| Iter.Chunkwise | iter.py:40-46 | no chunks for a non-positive chunk size, as `zip()` of no iterators |
| Iter.ChunkwiseAt | iter.py:40-46 | `len // n` chunks; chunk `i` is `s[n*i : n*i + n]` |
| Iter.ChunkSizes | iter.py:40-46 | every chunk holds `n` elements |
| Iter.ChunkwiseFlatten | iter.py:40-46 | the chunks concatenate to `s` without its last `len % n` elements |
| Iter.PairwiseIsChunkwise | iter.py:31-46 | `pairwise` is `chunkwise` with chunks of two |
| Iter.Blockwise | iter.py:49-56 | no blocks for a non-positive block size, as with `zip_longest()` of no iterators |
| Iter.BlockwiseCount | iter.py:49-56 | `ceil(len / n)` blocks |
| Iter.BlockSizes | iter.py:49-56 | every block holds `n` elements |
| Iter.BlockwiseFlatten | iter.py:49-56 | the blocks concatenate to `s` followed by `n - len % n` fill values when `len % n != 0`, none otherwise |
| Strings.JoinLength | ascii.py:52 | a join is the parts plus one separator per gap |
| Strings.JoinAvoids | ascii.py:52 | a character in neither the parts nor the separator is not in the join |
| Hexdump.HexDigit | hexdump.py:33 | a lowercase hex digit |
| Hexdump.HexEncode | hexdump.py:33 | two characters per byte |
| Hexdump.HexEncodeAt | hexdump.py:33 | byte `i` is encoded at `2i` and `2i + 1`: the high nibble's digit, then the low nibble's |
| Hexdump.SpacedShape | hexdump.py:33-34 | `3n - 1` characters for `n > 0` bytes; byte `i`'s hex pair at `3i`; a space after each pair but the last |
| Hexdump.LinesShape | hexdump.py:35 | `ceil(len / 48)` lines, each of 1 to 48 characters, concatenating to the spaced string |
| Hexdump.LineCount | hexdump.py:32-35 | one line per 16 bytes, the last possibly shorter |
| Hexdump.LineStartsWithByte | hexdump.py:32-35 | line `j` begins with the hex pair of byte `16j` |
| Hexdump.Hexdumpify | hexdump.py:32-35 | `3n - 1 + (n - 1) // 16` characters for `n > 0` bytes, none for no bytes; a newline appears exactly when there are more than 16 bytes |
| Hexdump.HexdumpifyShape | hexdump.py:32-35 | the output is its lines joined by newlines; no line holds a newline, none exceeds 48 characters, and together they are the spaced string |
| Ascii.SplitLines | ascii.py:34 | a non-empty message has at least one line, the empty one none |
| Ascii.SplitLinesNoNewline | ascii.py:34 | no line holds a newline |
| Ascii.JoinSplitLines | ascii.py:34 | the lines joined by newlines give the message back, less one final newline |
| Ascii.SplitJoinLines | ascii.py:34-52 | lines without newlines whose last is non-empty split back out of their join |
| Ascii.LongestLine | ascii.py:35-37 | the loop finds the longest line length, 0 for no lines |
| Ascii.AppendRows | ascii.py:47-50 | the loop appends one row per message line |
| Ascii.AsciiBox | ascii.py:27-52 | the result is the header, one row per line and the footer, joined by newlines |
| Ascii.WidthBounds | ascii.py:35-41 | the width covers every line, `minwidth` and the title plus six, and is the least width that does |
| Ascii.BoxLineCount | ascii.py:33-52 | the box has two more lines than the message |
| Ascii.HeaderShape | ascii.py:43-46 | the header is the footer without a title; with one it starts `+--[ title ]--` and ends in a corner |
| Ascii.FooterShape | ascii.py:42 | the footer is a corner, `width + 2` dashes and a corner |
| Ascii.RowShape | ascii.py:47-50 | a row is a bar and a space, the line left-justified in `width` columns, then a space and a bar |
| Ascii.BoxLinesSameWidth | ascii.py:42-51 | every line of the box is `width + 4` characters |
| Ascii.BoxSplitsIntoLines | ascii.py:42-52 | when the title holds no newline, splitting the box on newlines gives back exactly its lines |
| Isodt.ParseInt | isodt.py:58-66 | `int()` of a string succeeds exactly when it is a non-empty run of ASCII digits |
| Isodt.TzMinutes | isodt.py:51-60 | a named zone gives its table offset; any other result comes from at least four characters and lies between -99 hours and +99 hours 99 minutes; a zone too short for `int(tzs[3:5])`, such as `+1`, gives none, as Python's `ValueError` |
| Isodt.NamedZoneOffsets | isodt.py:41-53 | the fixed offsets of `Z`, `GMT`, `UTC`, `CET` and `CEST` |
| Isodt.NumericZone | isodt.py:54-60 | `±hhmm` is `sign*hh*60 + mm` minutes, with the sign applied to the hours only |
| Isodt.ZoneSignAsymmetry | isodt.py:54-60 | `-hhmm` is the negation of `+hhmm` exactly when the minutes are zero |
| Isodt.HalfHourZones | isodt.py:58-60 | `-0130` is -30 minutes while `+0130` is +90 |
| Isodt.Slice | isodt.py:58-59 | Python slicing: clipped to the string, empty past its end |
| Isodt.TokenStart | isodt.py:64-65 | a found start is in range, and the rest of the string from it matches the zone pattern |
| Isodt.TokenStartFirst | isodt.py:64-65 | no earlier position matches: the regular expression's first match from the left |
| Isodt.Stamp | isodt.py:64 | the stamp is a prefix of the timestamp |
| Isodt.Zone | isodt.py:65 | the zone is a suffix of the timestamp, and the whole timestamp when it holds a newline |
| Isodt.StampZoneSplit | isodt.py:64-65 | the stamp pattern matches exactly when the zone pattern does; without a newline the timestamp is the stamp, the spaces and the zone; with one the zone is the whole timestamp |
| Isodt.StampZoneOf | isodt.py:64-65 | for a newline-free stamp ending in a digit, spaces and a zone token, the two substitutions give back the stamp and the zone |
| Isodt.SplitNonDigitsAppend | isodt.py:66 | `re.split('\D')` of a join on a non-digit is the split of each side |
| Isodt.ParseAll | isodt.py:66 | `map(int, ...)` succeeds exactly when every field parses |
| Isodt.Take | isodt.py:66 | the first (at most) six fields |
| Isodt.MakeDateTime | isodt.py:66 | `datetime(...)` succeeds exactly with at least three fields forming a valid date and time |
| Isodt.SixFields | isodt.py:66 | six digit runs joined by non-digits split into those six fields |
| Isodt.ExtraFieldsIgnored | isodt.py:66 | fields after the sixth, such as a fraction of a second, do not change the local time |
| Isodt.SplitNonDigits | isodt.py:66 | `re.split('\D', stamp)`: at least one field, and every field is a run of digits |
| Isodt.SplitNonDigitsCount | isodt.py:66 | one field more than the stamp has non-digit characters |
| Isodt.LocalTime | isodt.py:66 | a result is a date and time within datetime's ranges |
| Isodt.LocalTimeSpec | isodt.py:66 | the local time is `d` exactly when `d` is valid and the stamp has at least three fields, each of the first six reading as `d`'s field in that place, with the hour, minute and second not given being 0 |
| Isodt.Ordinal | isodt.py:66-67 | datetime's day number, 0001-01-01 being day 1, lies between 1 and 3652059 |
| Isodt.Seconds | isodt.py:66-67 | the seconds since 0001-01-01 00:00:00 lie between 0 and the last representable second |
| Isodt.YearStep | isodt.py:66-67 | the days before year `y + 1` are those before `y` plus 366 in a leap year and 365 otherwise |
| Isodt.RangeEnds | isodt.py:67 | 0001-01-01 00:00:00 is second 0 and 9999-12-31 23:59:59 is the largest second, the bound at which `dt - td` overflows |
| Isodt.ToUtc | isodt.py:67 | the instant plus the zone offset is the local time, and lies in datetime's range; given a local time and an offset, a result exists exactly when the shifted instant is in range, otherwise `OverflowError` |
| Isodt.ParseIso8601 | isodt.py:63-68 | a result exists exactly when the stamp gives a local time, the zone an offset, and the local time less the offset is in datetime's range; it is that instant |
| Isodt.ParseComposed | isodt.py:63-68 | a newline-free stamp ending in a digit, spaces and a zone token parse as the stamp's local time minus the zone's offset |
| Isodt.NewlineStampRejected | isodt.py:63-68 | `2016-01-06\n08:02:04 UTC` fails: the zone is the whole text, which `tzs2td` cannot parse |
| Isodt.NewlineStampAccepted | isodt.py:63-68 | `02016\n01\n06 UTC` parses: the zone is the whole text, read as +20:16, and the stamp as 2016-01-06, giving 2016-01-05 03:44 UTC |
| Isodt.SampleLocalTime | isodt.py:66-80 | the stamps of the sample inputs give 2016-01-06 at the written hour, 02:04 |
| Isodt.SampleSeconds | isodt.py:72 | those local times are the reference instant shifted by their hour's distance from 08 |
| Isodt.SamplePlusOne | isodt.py:75 | `2016-01-06 09:02:04 +0100` is 2016-01-06 08:02:04 UTC |
| Isodt.SampleMinusOne | isodt.py:76 | `2016-01-06 07:02:04 -0100` is 2016-01-06 08:02:04 UTC |
| Isodt.SampleUtc | isodt.py:77 | `2016-01-06 08:02:04 UTC` is 2016-01-06 08:02:04 UTC |
| Isodt.SampleZulu | isodt.py:78 | `2016-01-06T08:02:04Z` is 2016-01-06 08:02:04 UTC |
| Isodt.SampleCest | isodt.py:79 | `2016-01-06 10:02:04 CEST` is 2016-01-06 08:02:04 UTC |
| Isodt.SampleCetFraction | isodt.py:80 | `2016-01-06 09:02:04.123 CET` is 2016-01-06 08:02:04 UTC, the fraction ignored |

## Left out

- Xor.XorAttackKpt: the source is a generator that yields lazily; the model returns the whole list the generator would yield.
- Xor.KeyLenIoc: the float limit `0.01` is an exact fraction (`freq > num/den` is compared as `zeroes * den > num * len`). Float rounding is not modelled.
- Xor.KeyLenIoc: an empty buffer with a non-empty shift range divides by zero in the source, and a range starting at 0 or below fails `ioc`'s `assert shift > 0`. Both are excluded by a precondition rather than modelled as errors.
- Xor.Ioc: `assert shift > 0` is a precondition; the `AssertionError` is not modelled.
- Xor.KeyLength: the attack's precondition requires a usable key length, which excludes three cases the source accepts. When `keylen_ioc` finds no key length, the source continues with `None` and fails later. A given `keylen` of 0 raises `ZeroDivisionError` at `match % keylen` on the first match, or yields nothing when nothing matches. A negative `keylen` makes `xordiff` index past the buffer and raise `IndexError`.
- Xor.XorAttackKpt: shares that precondition, and `mindiffs` is a natural number. A negative `mindiffs` in the source lets a fragment shorter than the key through, and `kpt[i]` then raises `IndexError`.
- C.CDiv: the source divides in floating point (`abs(q) / abs(d)`), which loses precision beyond 2^53. The model is the exact truncated quotient the doctests describe.
- C.CRot32: `i` is restricted to the uint32 range. The source's behaviour for wider or negative `i` is not modelled.
- CpDict.LowerChar: `str.lower` is modelled on ASCII letters only. Unicode case mapping is not modelled.
- CpDict.CasePreservingDict.EqualsMapping: `__eq__` against a non-mapping returns `NotImplemented`. That case, and other mappings' own lookup semantics, are not modelled; a mapping is given as its list of pairs.
- CpDict.CasePreservingDict.constructor: the keyword arguments of `__init__` are not modelled; the data is given as a list of pairs.
- `CasePreservingDict.__repr__` (cpdict.py:71-72) formats through `str(dict(...))` and is not modelled.
- Iter: the generators' laziness and infinite inputs are not modelled; inputs are finite sequences and results are lists.
- Hexdump: `hexdump` only prints `hexdumpify`'s result, so it is not modelled.
- Ascii.SplitLines: `str.splitlines` also breaks at `\r`, `\r\n`, `\v`, `\f`, `\x1c`-`\x1e`, `\x85`, `\u2028` and `\u2029`. The model breaks at `\n` only.
- Isodt.ParseInt: `int()` also accepts surrounding whitespace, a sign, underscores and non-ASCII digits. The model accepts ASCII digits only.
- Isodt.TokenStart: the regular expressions' `$` also matches before a final newline. That match is not modelled; the model treats the final newline as part of the text.
- Isodt.StampZoneOf: promised only for a stamp without a newline. With a newline anywhere, `.*?` cannot reach the zone, so the zone is the whole timestamp and the offset is read from its characters 1 to 4. That usually fails (Isodt.NewlineStampRejected), but not always (Isodt.NewlineStampAccepted).
- Isodt.ParseComposed: promised only for a stamp without a newline, for the same reason.
- Isodt.ToUtc: the result is an instant in seconds. The `tzinfo=UTC()` tag (isodt.py:68) and the `UTC` tzinfo class (isodt.py:31-37) are not modelled, nor are microseconds.
- The `__main__` test harnesses, `retry.py` and `__init__.py` are not part of this model.
