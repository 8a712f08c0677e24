# five-wordle in Dafny

A model of the solver for the "five five-letter words with twenty-five
distinct letters" puzzle. The program reads a word list, keeps the words of
five distinct letters that contain one of `aeiouy`, groups anagrams under
the bit mask of their letters, and runs a backtracking search that emits
every set of five masks no two of which share a letter.

The model follows `src/main.rs` piece by piece:

- `letter_set.dfy` (module `LetterSets`): `LetterSet`, a `bv32` mask. Its
  abstract value `Members` is the set of bit positions that are set, and every
  operation (`empty`, `from_str`, `len`, `is_empty`, `overlaps`, `|`, `&`) is
  specified through it. `from_str` returns `Failure(c)` where the source
  panics: `c` is the first character outside `a`..`z`.
- `letter_set_set.dfy` (module `LetterSetSets`): `LetterSetSet`, a class
  holding a five-slot array, the number of slots in use and the cached union.
  `Valid()` ties `union` to the OR of the used slots. Rust copies the struct
  when `stack.push(set)` takes `self` by value; that copy is the `Clone`
  constructor, and `Push` then updates the copy in place. A push on a full
  buffer, which panics in the source, is `ok == false` with nothing changed.
- `search.dfy` (module `CombinationSearch`): `find_results` as the recursive
  method `FindResults`. The sink `out` is the sequence of combinations handed
  to it so far. The method is proved to emit exactly `Search(sets, stack)`,
  a function that states the search one call and one loop iteration at a time.
  The lemmas then say what that sequence is:
  - soundness: every emitted combination has five members, no two sharing a
    letter, taken from `sets` at strictly increasing positions;
  - completeness: every such choice is emitted;
  - no duplicates: over distinct keys, no two emitted combinations hold the
    same sets in any order;
  - degenerate input: with fewer than five keys nothing is emitted;
  - coverage: the union of a combination of five-letter keys has 25 letters.
- `anagrams.dfy` (module `Anagrams`): the iterator chain that filters the
  lines, stated against a character-level definition of an admissible word.
  The `for` loop that fills the `HashMap` becomes `GroupAnagrams`, over a
  Dafny `map`. `KeyList` collects the keys in an order the model leaves open.
- `solver.dfy` (module `Solver`): `main` without its printing, tying the
  pieces together.
- `wrappers.dfy`: the `Result` type used for the panics.

## Model

| member | source | states |
|---|---|---|
| LetterSets.Empty | src/main.rs:95-97 | the empty mask holds no letter |
| LetterSets.LetterBit | src/main.rs:103 | the single bit `1 << (ch - 'a')` of a lowercase letter holds exactly that letter's offset |
| LetterSets.FromStr | src/main.rs:99-109 | succeeds exactly when every character is in `a`..`z`; then the set bits are exactly the offsets `ch - 'a'` of the characters, all below 26; otherwise the error is the first character outside `a`..`z` |
| LetterSets.Len | src/main.rs:111-113 | the popcount equals the number of letters in the set |
| LetterSets.IsEmpty | src/main.rs:115-117 | true exactly when the set holds no letter |
| LetterSets.Overlaps | src/main.rs:119-121 | true exactly when the two sets share a letter |
| LetterSets.Union | src/main.rs:135-141 | the letters of `a \| b` are those of `a` and those of `b` |
| LetterSets.Intersection | src/main.rs:143-149 | the letters of `a & b` are those in both |
| LetterSets.SameMembersSameSet | src/main.rs:91-92 | two masks are equal (the derived `Eq` and `Hash` key) exactly when they hold the same letters |
| LetterSets.FromStrDependsOnCharSet | src/main.rs:99-109 | strings with the same characters, in any order and repetition, both fail or give the same mask |
| LetterSets.FromStrLen | src/main.rs:111-113 | for a lowercase string, `len` of its mask is the number of distinct characters |
| LetterSets.OffsetsCount | src/main.rs:103 | distinct lowercase letters get distinct bits, so a string has as many letter offsets as distinct characters |
| LetterSets.OverlapsSymmetricNotEmpty | src/main.rs:115-121 | `overlaps` is symmetric, never holds against the empty set, and implies both sides are non-empty |
| LetterSetSets.UnionAll | src/main.rs:181 | the OR of a sequence of sets holds exactly the letters of its members |
| LetterSetSets.OverlapsUnionAll | src/main.rs:171-173 | a set overlaps the union of a sequence exactly when it overlaps one of its members |
| LetterSetSets.LetterSetSet.constructor | src/main.rs:159-165 | a fresh buffer of five empty slots, none in use, empty union; the invariant holds |
| LetterSetSets.LetterSetSet.Clone | src/main.rs:151 | the implicit copy has the same size, slots and union, in a fresh array |
| LetterSetSets.LetterSetSet.Len | src/main.rs:167-169 | the number of sets pushed, at most five |
| LetterSetSets.LetterSetSet.Overlaps | src/main.rs:171-173 | testing the cached union answers whether the set overlaps some set pushed so far |
| LetterSetSets.LetterSetSet.Push | src/main.rs:175-185 | fails exactly on a full buffer, changing nothing; otherwise writes slot `size`, appends the set to the contents, leaves the other slots alone, and keeps `union` the OR of the contents |
| CombinationSearch.Search | src/main.rs:57-68 | defines what one call passes to `out`, in order: the stack itself when it holds five sets, otherwise the loop's combinations from index 0 |
| CombinationSearch.SearchFrom | src/main.rs:63-67 | defines the loop from index `i` on: the combinations of the recursive call on `sets[i + 1..]` with `sets[i]` pushed, when `sets[i]` misses the stack's union, followed by those of the later iterations |
| CombinationSearch.FindResults | src/main.rs:57-68 | appends to the sink exactly `Search(sets, stack)`; never pushes onto a full buffer |
| CombinationSearch.ExtendDisjoint | src/main.rs:64-65 | pushing a set that misses the running union keeps the stack pairwise disjoint, and a set that hits it would break that |
| CombinationSearch.SearchSound | src/main.rs:57-68 | whatever a call emits is its stack followed by members of `sets` at strictly increasing positions, five in all, pairwise disjoint when the stack is |
| CombinationSearch.SearchFromSound | src/main.rs:63-67 | the same for the loop iterations from index `i` on, with positions from `i` on |
| CombinationSearch.TakenSound | src/main.rs:64-65 | the same for the recursive call on the suffix after index `i` |
| CombinationSearch.FindResultsSound | src/main.rs:57-68 | from an empty buffer, every emitted combination has exactly five members, pairwise disjoint, at strictly increasing positions of `sets` |
| CombinationSearch.SearchComplete | src/main.rs:57-68 | every filling of the stack up to five by increasing positions of `sets`, pairwise disjoint, is emitted |
| CombinationSearch.SearchFromComplete | src/main.rs:63-67 | the same for the loop iterations from index `i` on |
| CombinationSearch.TakenComplete | src/main.rs:64-65 | a choice that starts at index `i` passes the overlap test there and is emitted by the recursive call on the suffix |
| CombinationSearch.FindResultsComplete | src/main.rs:57-68 | from an empty buffer, every pairwise disjoint choice of five members at strictly increasing positions is emitted |
| CombinationSearch.ChoiceBound | src/main.rs:63-65 | strictly increasing positions below `n` starting at `lo` number at most `n - lo` |
| CombinationSearch.FindResultsTooFew | src/main.rs:57-68 | with fewer than five keys, empty input included, nothing is emitted |
| CombinationSearch.SearchDistinct | src/main.rs:57-68 | over distinct keys none of which is on the stack, no two emitted combinations hold the same sets |
| CombinationSearch.SearchFromDistinct | src/main.rs:63-67 | the same for the loop iterations from index `i` on |
| CombinationSearch.SkippedLacks | src/main.rs:63-67 | over distinct keys, a combination emitted after skipping `sets[i]` does not contain it |
| CombinationSearch.FindResultsNoDuplicates | src/main.rs:57-68 | from an empty buffer over distinct keys, no combination is emitted twice, not even in another order |
| CombinationSearch.DisjointUnionLen | src/main.rs:181 | the union of pairwise disjoint sets of `per` letters each has `per` times as many letters as there are sets |
| Anagrams.Utf8Length | src/main.rs:11 | defines the UTF-8 byte count that `str::len` measures: one to four bytes per character by code point range |
| Anagrams.LowerUtf8Length | src/main.rs:11 | a lowercase line has as many bytes as characters |
| Anagrams.WordOf | src/main.rs:76-83 | fails exactly when `from_str` does; otherwise pairs the text with the letters it contains |
| Anagrams.Vowels | src/main.rs:14 | the mask of `aeiouy` holds exactly those six letters |
| Anagrams.OverlapsVowels | src/main.rs:14 | a word's mask overlaps that of `aeiouy` exactly when the word contains one of those letters |
| Anagrams.KeepIffAdmissible | src/main.rs:11-14 | a five-byte lowercase line passes the popcount and vowel tests exactly when it has five distinct letters and a vowel |
| Anagrams.DroppedNotAdmissible | src/main.rs:11 | a line that is not five bytes long is never admissible |
| Anagrams.Candidates | src/main.rs:8-15 | defines the lazy filter chain line by line: skip a line that is not five bytes, abort on the first five-byte line with a character outside `a`..`z`, and keep a word of popcount 5 that overlaps `aeiouy` |
| Anagrams.CandidatesFail | src/main.rs:8-15 | the filter chain aborts exactly when a five-byte line has a character outside `a`..`z`, with a character of such a line |
| Anagrams.CandidatesKeep | src/main.rs:8-15 | otherwise it keeps exactly the admissible lines, in input order |
| Anagrams.CandidatesLetters | src/main.rs:12-14 | each kept word is `Kept`: it carries the mask of its own text, with five letters, overlapping `aeiouy` |
| Anagrams.GroupAnagrams | src/main.rs:19-23 | the map's keys are exactly the distinct letter sets of the words, and each key maps to the words with that letter set, in input order |
| Anagrams.GroupStep | src/main.rs:21-23 | one `entry(...).or_default().push(word)` turns the groups of the words seen into the groups of those words plus `word` |
| Anagrams.WithLettersMembers | src/main.rs:21-23 | every word of a group has the group's key, and a group is non-empty exactly when some word has that key |
| Anagrams.KeyList | src/main.rs:27 | the key list holds every key of the map once and nothing else |
| Anagrams.GroupsPartition | src/main.rs:19-27 | the groups of the listed keys, put together, are a permutation of the words, so their sizes add up to the number of words |
| Solver.KeysHaveFiveLetters | src/main.rs:13-22 | every key of the grouping has five letters |
| Solver.Solve | src/main.rs:7-29 | aborts exactly when `from_str` would panic, returning an offending character of a five-byte line; otherwise the words, groups and keys are as above, each kept word carrying `from_str` of its own text with 5 letters and a vowel (`Kept`), the combinations are exactly those `find_results` emits, each of five pairwise disjoint keys of the map covering 25 letters, and no two alike |

## Left out

- Loading the word list with `include_str!` and splitting and trimming its lines (src/main.rs:8-10): the model takes the trimmed lines as its input.
- All printing: the counts, the rendering of each combination with its anagram groups (src/main.rs:17, 25, 29-54), and the `Display` impls of `Word` and `LetterSet` (src/main.rs:85-89, 124-133).
- `HashMap` hashing and iteration order: the map is a Dafny `map`, and `KeyList` picks the keys in an order it leaves open.
- The `&'static str` lifetime of `Word`: a word is a `string` with its `LetterSet`.
- A character outside `a`..`z` in a five-byte line aborts the whole run, because `from_str` panics; `Candidates` and `Solve` return that character as `Failure`.
- Panics are values: `Failure` from `FromStr`, `WordOf`, `Candidates` and `Solve`, and `ok == false` from `Push`. The model does not capture the unwinding itself.
- The `u8` width of `size`: it never exceeds 5, so no overflow can arise.
- The target size and the per-word letter count are the constant 5, as in the source; they are not parameters.
- Concrete runs on sample word lists are not modelled; the search is stated for all inputs by the lemmas instead.
- Whether the `aeiouy` filter can drop a word that belongs to some solution is not modelled: the filter is stated as written.
