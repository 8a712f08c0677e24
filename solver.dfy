/**
 * `main` (src/main.rs) without its printing: filter the word list, group
 * the words by letter set, list the keys and run `find_results` over them
 * from an empty buffer.
 */
module Solver {
  import opened Wrappers
  import opened LetterSets
  import opened LetterSetSets
  import opened CombinationSearch
  import opened Anagrams

  /** Everything `main` computes before it prints. */
  datatype Solution = Solution(
    words: seq<Word>,
    anagrams: map<LetterSet, seq<Word>>,
    keys: seq<LetterSet>,
    combinations: seq<seq<LetterSet>>)

  /** Each key of the grouping is the letter set of a kept word, so it has five letters. */
  lemma KeysHaveFiveLetters(words: seq<Word>, key: LetterSet)
    requires forall w :: w in words ==> Len(w.letters) == WordLength
    requires key in LetterSetsOf(words)
    ensures Len(key) == WordLength
  {
    var w :| w in words && w.letters == key;
  }

  method Solve(lines: seq<string>) returns (r: Result<Solution, char>)
    ensures r.Failure? <==> exists l :: l in lines && Utf8Length(l) == WordLength && !AllLower(l)
    ensures r.Failure? ==>
      exists l :: l in lines && Utf8Length(l) == WordLength && r.error in l && !IsLower(r.error)
    ensures r.Success? ==> Texts(r.value.words) == KeepAdmissible(lines)
    ensures r.Success? ==> forall w :: w in r.value.words ==> Kept(w)
    ensures r.Success? ==> r.value.anagrams.Keys == LetterSetsOf(r.value.words)
    ensures r.Success? ==> forall key :: key in r.value.anagrams ==>
      r.value.anagrams[key] == WithLetters(r.value.words, key)
    ensures r.Success? ==> NoRepeats(r.value.keys)
    ensures r.Success? ==> forall key :: key in r.value.keys <==> key in r.value.anagrams
    ensures r.Success? ==> r.value.combinations == Search(r.value.keys, [])
    ensures r.Success? ==> forall c :: c in r.value.combinations ==>
      |c| == Capacity && PairwiseDisjoint(c) && Len(UnionAll(c)) == Capacity * WordLength &&
      forall x :: x in c ==> x in r.value.anagrams
    ensures r.Success? ==> DistinctAsSets(r.value.combinations)
  {
    CandidatesFail(lines);
    match Candidates(lines)
    case Failure(c) =>
      r := Failure(c);
    case Success(words) =>
      CandidatesKeep(lines);
      CandidatesLetters(lines);
      var anagrams := GroupAnagrams(words);
      var keys := KeyList(anagrams);
      var stack := new LetterSetSet();
      var combinations := FindResults(keys, stack, []);
      forall c | c in combinations
        ensures |c| == Capacity && PairwiseDisjoint(c) && Len(UnionAll(c)) == Capacity * WordLength
        ensures forall x :: x in c ==> x in anagrams
      {
        FindResultsSound(keys, c);
        var idx :| IsChoice(idx, 0, |keys|) && |idx| == Capacity && c == Pick(keys, idx);
        forall k | 0 <= k < |c|
          ensures c[k] in anagrams && Len(c[k]) == WordLength
        {
          assert c[k] == keys[idx[k]];
          KeysHaveFiveLetters(words, c[k]);
        }
        DisjointUnionLen(c, WordLength);
      }
      FindResultsNoDuplicates(keys);
      r := Success(Solution(words, anagrams, keys, combinations));
  }
}
