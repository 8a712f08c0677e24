/**
 * The candidate filter and the anagram grouping of `main` (src/main.rs):
 * keep the five-letter words of five distinct letters with a vowel, then
 * collect them into a map from letter set to the words with those letters.
 */
module Anagrams {
  import opened Wrappers
  import opened LetterSets

  /** `struct Word`: the text and its letter set. */
  datatype Word = Word(word: string, letters: LetterSet)

  /** The length, in bytes, the filter requires, and the number of distinct letters. */
  const WordLength: nat := 5

  /** The number of bytes of the UTF-8 encoding of `c`. */
  function Utf8Width(c: char): nat
  {
    if c as int < 0x80 then 1
    else if c as int < 0x800 then 2
    else if c as int < 0x1_0000 then 3
    else 4
  }

  /** `str::len`: the number of bytes of the UTF-8 encoding. */
  function Utf8Length(s: string): nat
  {
    if s == [] then 0 else Utf8Width(s[0]) + Utf8Length(s[1..])
  }

  lemma {:induction false} LowerUtf8Length(s: string)
    requires AllLower(s)
    ensures Utf8Length(s) == |s|
  {
    if s != [] {
      assert s[0] in s;
      LowerUtf8Length(s[1..]);
    }
  }

  /** `Word::from_str`: the text with `LetterSet::from_str` of it. */
  function WordOf(s: string): (r: Result<Word, char>)
    ensures r.Success? <==> AllLower(s)
    ensures r.Success? ==> r.value.word == s && Members(r.value.letters) == Offsets(s)
    ensures r.Failure? ==> !IsLower(r.error) && r.error in s
  {
    match FromStr(s)
    case Success(letters) => Success(Word(s, letters))
    case Failure(c) => Failure(c)
  }

  /** `LetterSet::from_str("aeiouy")`. */
  function Vowels(): (r: LetterSet)
    ensures Members(r) == Offsets("aeiouy")
  {
    assert AllLower("aeiouy");
    FromStr("aeiouy").value
  }

  /** A word shares a letter with `aeiouy` exactly when it contains one of those letters. */
  lemma OverlapsVowels(s: string)
    requires AllLower(s)
    ensures Overlaps(FromStr(s).value, Vowels()) <==> exists c :: c in s && c in "aeiouy"
  {
    var letters, vowels := FromStr(s).value, Vowels();
    var common := Members(letters) * Members(vowels);
    assert Overlaps(letters, vowels) <==> common != {};
    if common != {} {
      var i :| i in common;
      var c :| c in s && IsLower(c) && Offset(c) == i;
      var v :| v in "aeiouy" && IsLower(v) && Offset(v) == i;
      assert c == v;
      assert c in s && c in "aeiouy";
    }
    if c :| c in s && c in "aeiouy" {
      assert Offset(c) in common;
    }
  }

  /**
   * What the filter keeps, stated on characters: five lowercase letters,
   * all different, one of them in `aeiouy`.
   */
  ghost predicate Admissible(s: string)
  {
    |s| == WordLength && AllLower(s) && |CharSet(s)| == WordLength &&
    exists c :: c in s && c in "aeiouy"
  }

  /** The lines a run of the filter would keep, in input order. */
  ghost function KeepAdmissible(lines: seq<string>): seq<string>
  {
    if lines == [] then []
    else (if Admissible(lines[0]) then [lines[0]] else []) + KeepAdmissible(lines[1..])
  }

  /** The texts of a sequence of words. */
  ghost function Texts(words: seq<Word>): seq<string>
  {
    if words == [] then [] else [words[0].word] + Texts(words[1..])
  }

  /** A line the length test lets through is kept exactly when it is admissible. */
  lemma KeepIffAdmissible(line: string)
    requires Utf8Length(line) == WordLength && AllLower(line)
    ensures (Len(FromStr(line).value) == WordLength && Overlaps(FromStr(line).value, Vowels())) == Admissible(line)
  {
    LowerUtf8Length(line);
    FromStrLen(line);
    OverlapsVowels(line);
  }

  /** A line the length test drops is not admissible. */
  lemma DroppedNotAdmissible(line: string)
    requires Utf8Length(line) != WordLength
    ensures !Admissible(line)
  {
    if |line| == WordLength && AllLower(line) {
      LowerUtf8Length(line);
    }
  }

  /**
   * The iterator chain at the start of `main`: keep lines of five bytes,
   * make each a `Word` (a line with a character outside `a`..`z` panics),
   * keep those with five distinct letters and a letter of `aeiouy`.
   * The chain is lazy, so the first offending line, in order, aborts.
   */
  function Candidates(lines: seq<string>): Result<seq<Word>, char>
  {
    if lines == [] then Success([])
    else if Utf8Length(lines[0]) != WordLength then Candidates(lines[1..])
    else
      match WordOf(lines[0])
      case Failure(c) => Failure(c)
      case Success(w) =>
        match Candidates(lines[1..])
        case Failure(c) => Failure(c)
        case Success(ws) =>
          if Len(w.letters) == WordLength && Overlaps(w.letters, Vowels()) then Success([w] + ws)
          else Success(ws)
  }

  /**
   * The filter aborts exactly when some line of five bytes has a character
   * outside `a`..`z`, and reports a character of such a line.
   */
  lemma {:induction false} CandidatesFail(lines: seq<string>)
    ensures Candidates(lines).Failure? <==> exists l :: l in lines && Utf8Length(l) == WordLength && !AllLower(l)
    ensures Candidates(lines).Failure? ==>
      exists l :: l in lines && Utf8Length(l) == WordLength && Candidates(lines).error in l && !IsLower(Candidates(lines).error)
    decreases |lines|
  {
    if lines != [] {
      assert forall l :: l in lines <==> l == lines[0] || l in lines[1..];
      CandidatesFail(lines[1..]);
    }
  }

  /**
   * When it does not abort, the filter keeps, in input order, exactly the
   * admissible lines.
   */
  lemma {:induction false} CandidatesKeep(lines: seq<string>)
    requires Candidates(lines).Success?
    ensures Texts(Candidates(lines).value) == KeepAdmissible(lines)
    decreases |lines|
  {
    if lines != [] {
      var line := lines[0];
      CandidatesKeep(lines[1..]);
      var ws := Candidates(lines[1..]).value;
      if Utf8Length(line) != WordLength {
        DroppedNotAdmissible(line);
        assert KeepAdmissible(lines) == KeepAdmissible(lines[1..]);
      } else {
        var w := WordOf(line).value;
        var keep := Len(w.letters) == WordLength && Overlaps(w.letters, Vowels());
        assert keep == Admissible(line) by {
          KeepIffAdmissible(line);
        }
        if keep {
          assert Candidates(lines).value == [w] + ws;
          assert KeepAdmissible(lines) == [line] + KeepAdmissible(lines[1..]);
          assert ([w] + ws)[1..] == ws;
        } else {
          assert Candidates(lines).value == ws;
          assert KeepAdmissible(lines) == KeepAdmissible(lines[1..]);
        }
      }
    }
  }

  /**
   * What a kept word carries: the letter set of its own text, of five
   * letters, sharing a letter with `aeiouy`.
   */
  ghost predicate Kept(w: Word)
  {
    FromStr(w.word) == Success(w.letters) && Len(w.letters) == WordLength && Overlaps(w.letters, Vowels())
  }

  /** Every word the filter keeps is `Kept`. */
  lemma {:induction false} CandidatesLetters(lines: seq<string>)
    requires Candidates(lines).Success?
    ensures forall w :: w in Candidates(lines).value ==> Kept(w)
    decreases |lines|
  {
    if lines != [] {
      CandidatesStep(lines);
      CandidatesLetters(lines[1..]);
    }
  }

  /** A word kept from a non-empty input is the first line's word, passing the tests, or one kept from the rest. */
  lemma CandidatesStep(lines: seq<string>)
    requires lines != [] && Candidates(lines).Success?
    ensures Candidates(lines[1..]).Success?
    ensures forall w :: w in Candidates(lines).value ==> w in Candidates(lines[1..]).value || Kept(w)
  {
    if Utf8Length(lines[0]) == WordLength {
      var w := WordOf(lines[0]).value;
      assert FromStr(w.word) == Success(w.letters);
    }
  }

  // ---------------------------------------------------------------------
  // Grouping

  /** The words with letter set `key`, in input order. */
  ghost function WithLetters(words: seq<Word>, key: LetterSet): seq<Word>
  {
    if words == [] then []
    else
      var last := words[|words| - 1];
      WithLetters(words[..|words| - 1], key) + (if last.letters == key then [last] else [])
  }

  /** The distinct letter sets of some words. */
  ghost function LetterSetsOf(words: seq<Word>): set<LetterSet>
  {
    set w | w in words :: w.letters
  }

  lemma WithLettersSnoc(words: seq<Word>, w: Word, key: LetterSet)
    ensures WithLetters(words + [w], key) == WithLetters(words, key) + (if w.letters == key then [w] else [])
  {
    assert (words + [w])[..|words|] == words;
  }

  lemma LetterSetsOfSnoc(words: seq<Word>, w: Word)
    ensures LetterSetsOf(words + [w]) == LetterSetsOf(words) + {w.letters}
  {
    assert forall v :: v in words + [w] <==> v in words || v == w;
  }

  /**
   * The `for` loop over `words` that does
   * `anagrams.entry(word.letters).or_default().push(*word)`.
   */
  method GroupAnagrams(words: seq<Word>) returns (anagrams: map<LetterSet, seq<Word>>)
    ensures anagrams.Keys == LetterSetsOf(words)
    ensures forall key :: key in anagrams ==> anagrams[key] == WithLetters(words, key)
  {
    anagrams := map[];
    ghost var seen: seq<Word> := [];
    for i := 0 to |words|
      invariant seen == words[..i]
      invariant Grouped(anagrams, seen)
    {
      var word := words[i];
      var group := if word.letters in anagrams then anagrams[word.letters] else [];
      ghost var before := anagrams;
      anagrams := anagrams[word.letters := group + [word]];
      GroupStep(seen, word, before, anagrams);
      seen := seen + [word];
    }
    assert words[..|words|] == words;
  }

  /** `groups` maps the letter sets of `seen`, and only those, to their words in order. */
  ghost predicate Grouped(groups: map<LetterSet, seq<Word>>, seen: seq<Word>)
  {
    groups.Keys == LetterSetsOf(seen) &&
    forall key :: key in groups ==> groups[key] == WithLetters(seen, key)
  }

  /** One step of the grouping loop keeps the map equal to the groups of the words seen. */
  lemma GroupStep(seen: seq<Word>, word: Word, before: map<LetterSet, seq<Word>>, after: map<LetterSet, seq<Word>>)
    requires Grouped(before, seen)
    requires after == before[word.letters := (if word.letters in before then before[word.letters] else []) + [word]]
    ensures Grouped(after, seen + [word])
  {
    LetterSetsOfSnoc(seen, word);
    forall key | key in after
      ensures after[key] == WithLetters(seen + [word], key)
    {
      GroupStepAt(seen, word, before, after, key);
    }
  }

  /** The same step, for one key. */
  lemma GroupStepAt(seen: seq<Word>, word: Word, before: map<LetterSet, seq<Word>>, after: map<LetterSet, seq<Word>>, key: LetterSet)
    requires before.Keys == LetterSetsOf(seen)
    requires key in before ==> before[key] == WithLetters(seen, key)
    requires after == before[word.letters := (if word.letters in before then before[word.letters] else []) + [word]]
    requires key in after
    ensures after[key] == WithLetters(seen + [word], key)
  {
    WithLettersSnoc(seen, word, key);
    if key != word.letters {
      assert after[key] == before[key];
    } else if key !in before {
      WithLettersMembers(seen, key);
      assert WithLetters(seen, key) == [];
    }
  }

  /** Every group holds words with its key, is a part of the input, and is empty only for a key no word has. */
  lemma {:induction false} WithLettersMembers(words: seq<Word>, key: LetterSet)
    ensures forall w :: w in WithLetters(words, key) ==> w in words && w.letters == key
    ensures WithLetters(words, key) != [] <==> key in LetterSetsOf(words)
    decreases |words|
  {
    if words != [] {
      var init, last := words[..|words| - 1], words[|words| - 1];
      assert words == init + [last];
      WithLettersMembers(init, key);
      assert LetterSetsOf(words) == LetterSetsOf(init) + {last.letters};
    }
  }

  /** `anagrams.keys().copied().collect()`: every key once, in an order the model leaves open. */
  method KeyList(anagrams: map<LetterSet, seq<Word>>) returns (keys: seq<LetterSet>)
    ensures forall key :: key in keys <==> key in anagrams
    ensures NoRepeats(keys)
  {
    keys := [];
    var rest := anagrams.Keys;
    while rest != {}
      invariant forall key :: key in anagrams <==> key in keys || key in rest
      invariant forall key :: key in keys ==> key !in rest
      invariant NoRepeats(keys)
      decreases |rest|
    {
      var key :| key in rest;
      keys := keys + [key];
      rest := rest - {key};
    }
  }

  /** The groups of `keys`, one after another. */
  ghost function Regroup(words: seq<Word>, keys: seq<LetterSet>): seq<Word>
  {
    if keys == [] then [] else WithLetters(words, keys[0]) + Regroup(words, keys[1..])
  }

  lemma {:induction false} RegroupSnoc(words: seq<Word>, w: Word, keys: seq<LetterSet>)
    requires NoRepeats(keys)
    ensures multiset(Regroup(words + [w], keys)) ==
      multiset(Regroup(words, keys)) + (if w.letters in keys then multiset{w} else multiset{})
    decreases |keys|
  {
    if keys != [] {
      var key, others := keys[0], keys[1..];
      assert NoRepeats(others);
      RegroupSnoc(words, w, others);
      WithLettersSnoc(words, w, key);
      var group, rest, rest' := WithLetters(words, key), Regroup(words, others), Regroup(words + [w], others);
      var extra := if w.letters == key then [w] else [];
      assert Regroup(words + [w], keys) == (group + extra) + rest';
      assert w.letters in keys <==> w.letters == key || w.letters in others;
      OneMore(multiset(group), multiset(rest), multiset(rest'), w, w.letters == key, w.letters in others);
    }
  }

  /**
   * Adding `w` to one of two parts of a sum adds it to the sum. Stated apart
   * so that the solver does this multiset algebra without `Regroup` in view.
   */
  lemma OneMore(group: multiset<Word>, rest: multiset<Word>, rest': multiset<Word>, w: Word, inGroup: bool, inRest: bool)
    requires !(inGroup && inRest)
    requires rest' == rest + (if inRest then multiset{w} else multiset{})
    ensures (group + multiset(if inGroup then [w] else [])) + rest' ==
      (group + rest) + (if inGroup || inRest then multiset{w} else multiset{})
  {
    if inGroup {
      assert multiset([w]) == multiset{w};
    }
  }

  /**
   * The groups of distinct keys that cover every word's letter set are a
   * permutation of the words: each word lands in exactly one group, so the
   * group sizes add up to the number of words.
   */
  lemma {:induction false} GroupsPartition(words: seq<Word>, keys: seq<LetterSet>)
    requires NoRepeats(keys)
    requires forall w :: w in words ==> w.letters in keys
    ensures multiset(Regroup(words, keys)) == multiset(words)
    ensures |Regroup(words, keys)| == |words|
    decreases |words|
  {
    if words == [] {
      RegroupEmpty(keys);
    } else {
      var init, last := words[..|words| - 1], words[|words| - 1];
      assert words == init + [last];
      GroupsPartition(init, keys);
      RegroupSnoc(init, last, keys);
    }
    assert |multiset(Regroup(words, keys))| == |Regroup(words, keys)|;
  }

  lemma {:induction false} RegroupEmpty(keys: seq<LetterSet>)
    ensures Regroup([], keys) == []
    decreases |keys|
  {
    if keys != [] {
      RegroupEmpty(keys[1..]);
    }
  }
}
