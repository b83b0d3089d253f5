/** The tokenizer and counter of the word index: `build_word_frequencies`.

    A word is a maximal run of ASCII letters (the pattern `(?![0-9])[a-z]+`
    matched case-insensitively; the look-ahead can never fail in front of a
    letter). Each run is lower-cased and tallied in a dictionary, and the
    `MaxWords` most frequent words are returned as (word, count) pairs, counts
    descending. Equal counts come out in an unspecified order. */
module Tokenizer {
  import opened Ranking

  /** How many of the most frequent words one text contributes. */
  const MaxWords := 100

  /** A (word, count) pair, as the Python code passes them around. */
  type WordCount = (string, nat)

  predicate IsAsciiLetter(c: char)
  {
    'a' <= c <= 'z' || 'A' <= c <= 'Z'
  }

  predicate IsLowerLetter(c: char)
  {
    'a' <= c <= 'z'
  }

  /** `str.lower()` on one character: only ASCII capitals change. */
  function LowerChar(c: char): (r: char)
    ensures IsAsciiLetter(r) <==> IsAsciiLetter(c)
    ensures IsAsciiLetter(c) ==> IsLowerLetter(r)
    ensures !('A' <= c <= 'Z') ==> r == c
  {
    if 'A' <= c <= 'Z' then (c as int - 'A' as int + 'a' as int) as char else c
  }

  /** `str.lower()`: letters become lower-case, every other character stays. */
  function Lower(s: string): (r: string)
    ensures |r| == |s|
    ensures forall i :: 0 <= i < |s| ==> (IsAsciiLetter(s[i]) ==> IsLowerLetter(r[i]))
    ensures forall i :: 0 <= i < |s| ==> (!IsAsciiLetter(s[i]) ==> r[i] == s[i])
  {
    seq(|s|, i requires 0 <= i < |s| => LowerChar(s[i]))
  }

  /** What the tokenizer can produce: a non-empty run of lower-case letters. */
  predicate IsWord(w: string)
  {
    |w| > 0 && forall i :: 0 <= i < |w| ==> IsLowerLetter(w[i])
  }

  function Min(a: int, b: int): int
  {
    if a <= b then a else b
  }

  /** Length of the run of letters at the front of `s`; the run is maximal. */
  function LetterRunLength(s: string): (n: nat)
    ensures n <= |s|
    ensures forall k :: 0 <= k < n ==> IsAsciiLetter(s[k])
    ensures n < |s| ==> !IsAsciiLetter(s[n])
  {
    if s == [] || !IsAsciiLetter(s[0]) then 0 else 1 + LetterRunLength(s[1..])
  }

  /** The words of `text`, in order: what `finditer` finds, each lower-cased.
      Scanning skips a character that cannot start a match and otherwise
      takes the longest run of letters there. */
  function Words(text: string): (ws: seq<string>)
    ensures forall w :: w in ws ==> IsWord(w)
    decreases |text|
  {
    if text == [] then []
    else if !IsAsciiLetter(text[0]) then Words(text[1..])
    else
      var n := LetterRunLength(text);
      [Lower(text[..n])] + Words(text[n..])
  }

  /** How often `w` occurs among the words of `text`. */
  ghost function Count(text: string, w: string): nat
  {
    multiset(Words(text))[w]
  }

  /** The distinct words of `text`. */
  ghost function Vocabulary(text: string): set<string>
  {
    set w | w in Words(text)
  }

  /** The dictionary `build_word_frequencies` tallies: each distinct word of
      `text` with its number of occurrences. */
  ghost function Frequencies(text: string): map<string, nat>
  {
    map w | w in Vocabulary(text) :: Count(text, w)
  }

  /** `top` is what `build_word_frequencies(text)` may return: the
      min(MaxWords, #distinct words) most frequent words of `text`, each once
      and with its exact count, at least 1, counts descending. */
  ghost predicate IsTopTable(text: string, top: seq<WordCount>)
  {
    && IsTopOf(top, Frequencies(text))
    && (forall i :: 0 <= i < |top| ==> IsWord(top[i].0) && top[i].1 >= 1)
  }

  /** The counting loop: one dictionary entry per distinct word, holding the
      number of its occurrences. */
  method CountWords(text: string) returns (freq: map<string, nat>)
    ensures freq.Keys == Vocabulary(text)
    ensures forall w :: w in freq ==> freq[w] == Count(text, w)
  {
    freq := map[];
    ghost var seen: seq<string> := [];
    var i := 0;
    while i < |text|
      invariant 0 <= i <= |text|
      invariant Words(text) == seen + Words(text[i..])
      invariant forall w :: w in freq <==> w in seen
      invariant forall w :: w in freq ==> freq[w] == multiset(seen)[w]
    {
      if !IsAsciiLetter(text[i]) {
        SeparatorStartsWords(text, i);
        i := i + 1;
      } else {
        var j := i + 1;
        while j < |text| && IsAsciiLetter(text[j])
          invariant i < j <= |text|
          invariant forall k :: i <= k < j ==> IsAsciiLetter(text[k])
        {
          j := j + 1;
        }
        var word := Lower(text[i..j]);
        RunStartsWords(text, i, j);
        freq := freq[word := (if word in freq then freq[word] else 0) + 1];
        seen := seen + [word];
        i := j;
      }
    }
    assert text[|text|..] == [];
  }

  /** A maximal run of letters at `i` is the next word. */
  lemma RunStartsWords(text: string, i: nat, j: nat)
    requires i < j <= |text|
    requires forall k :: i <= k < j ==> IsAsciiLetter(text[k])
    requires j < |text| ==> !IsAsciiLetter(text[j])
    ensures Words(text[i..]) == [Lower(text[i..j])] + Words(text[j..])
  {
    var rest := text[i..];
    assert LetterRunLength(rest) == j - i;
    assert rest[..j - i] == text[i..j] && rest[j - i..] == text[j..];
  }

  /** A character that is not a letter starts no word. */
  lemma SeparatorStartsWords(text: string, i: nat)
    requires i < |text| && !IsAsciiLetter(text[i])
    ensures Words(text[i..]) == Words(text[i + 1..])
  {
    assert text[i..][1..] == text[i + 1..];
  }

  function EntryCount(e: WordCount): int
  {
    e.1
  }

  /** `top` holds the min(MaxWords, |freq|) entries of `freq` with the largest
      counts, each once, counts descending: any entry left out counts no more
      than the last one kept. */
  ghost predicate IsTopOf(top: seq<WordCount>, freq: map<string, nat>)
  {
    IsRankedPrefix(top, freq) && KeepsMostFrequent(top, freq)
  }

  /** `top` has min(MaxWords, |freq|) entries of `freq`, each word once,
      counts descending. */
  ghost predicate IsRankedPrefix(top: seq<WordCount>, freq: map<string, nat>)
  {
    && |top| == Min(MaxWords, |freq|)
    && (forall i :: 0 <= i < |top| ==> top[i].0 in freq && top[i].1 == freq[top[i].0])
    && (forall i, j :: 0 <= i < j < |top| ==> top[i].0 != top[j].0)
    && (forall i, j :: 0 <= i < j < |top| ==> top[i].1 >= top[j].1)
  }

  /** Any word of `freq` left out of `top` counts no more than the last one kept,
      and can only be left out when `top` is full. */
  ghost predicate KeepsMostFrequent(top: seq<WordCount>, freq: map<string, nat>)
  {
    forall w :: w in freq && (forall i :: 0 <= i < |top| ==> top[i].0 != w) ==>
      |top| == MaxWords && freq[w] <= top[MaxWords - 1].1
  }

  /** `sorted(frequencies.items(), key=count, reverse=True)[:MaxWords]`. */
  method TopCounts(freq: map<string, nat>) returns (top: seq<WordCount>)
    ensures IsTopOf(top, freq)
  {
    var items := Entries(freq);
    var ranked := SortDesc(items, EntryCount);
    SortingKeepsListing(items, freq, EntryCount);
    top := ranked[..Min(MaxWords, |ranked|)];
    TopOfRanking(ranked, freq);
  }

  /** Cutting a ranked listing of `freq` after `MaxWords` entries keeps its
      most frequent words. */
  lemma TopOfRanking(ranked: seq<WordCount>, freq: map<string, nat>)
    requires ListsMap(ranked, freq) && NonIncreasing(ranked, EntryCount)
    ensures IsTopOf(ranked[..Min(MaxWords, |ranked|)], freq)
  {
    PrefixOfRanking(ranked, freq);
    CutOfRanking(ranked, freq);
  }

  /** The entries kept are entries of `freq`, each word once, counts descending. */
  lemma PrefixOfRanking(ranked: seq<WordCount>, freq: map<string, nat>)
    requires ListsMap(ranked, freq) && NonIncreasing(ranked, EntryCount)
    ensures IsRankedPrefix(ranked[..Min(MaxWords, |ranked|)], freq)
  {
    var top := ranked[..Min(MaxWords, |ranked|)];
    forall i, j | 0 <= i < j < |top|
      ensures top[i].1 >= top[j].1
    {
      assert EntryCount(ranked[i]) >= EntryCount(ranked[j]);
    }
  }

  /** No entry cut off counts more than the last entry kept. */
  lemma CutOfRanking(ranked: seq<WordCount>, freq: map<string, nat>)
    requires ListsMap(ranked, freq) && NonIncreasing(ranked, EntryCount)
    ensures KeepsMostFrequent(ranked[..Min(MaxWords, |ranked|)], freq)
  {
    forall w | w in freq && (forall i :: 0 <= i < |ranked[..Min(MaxWords, |ranked|)]| ==> ranked[..Min(MaxWords, |ranked|)][i].0 != w)
    {
      LeftOutIsNoMoreFrequent(ranked, freq, w);
    }
  }

  /** A word of `freq` missing from the ranked listing cut after `MaxWords`
      entries is no more frequent than the last entry kept, and can only be
      missing if the cut removed something. */
  lemma LeftOutIsNoMoreFrequent(ranked: seq<WordCount>, freq: map<string, nat>, w: string)
    requires ListsMap(ranked, freq) && NonIncreasing(ranked, EntryCount)
    requires var top := ranked[..Min(MaxWords, |ranked|)];
      w in freq && forall i :: 0 <= i < |top| ==> top[i].0 != w
    ensures var top := ranked[..Min(MaxWords, |ranked|)];
      |top| == MaxWords && freq[w] <= top[MaxWords - 1].1
  {
    var n := Min(MaxWords, |ranked|);
    forall i | 0 <= i < n
      ensures ranked[i].0 != w
    {
      assert ranked[..n][i] == ranked[i];
    }
    var k :| 0 <= k < |ranked| && ranked[k].0 == w;
    assert EntryCount(ranked[n - 1]) >= EntryCount(ranked[k]);
  }

  /** `build_word_frequencies`: count the words of `text`, keep the top ones. */
  method BuildWordFrequencies(text: string) returns (top: seq<WordCount>)
    ensures IsTopTable(text, top)
    ensures (forall k :: 0 <= k < |text| ==> !IsAsciiLetter(text[k])) ==> top == []
  {
    var freq := CountWords(text);
    top := TopCounts(freq);
    assert freq == Frequencies(text);
    forall i | 0 <= i < |top|
      ensures IsWord(top[i].0) && top[i].1 >= 1
    {
      assert top[i].0 in Words(text);
    }
    if forall k :: 0 <= k < |text| ==> !IsAsciiLetter(text[k]) {
      NoLettersNoWords(text);
      assert Vocabulary(text) == {};
    }
  }

  /** Text without letters (the empty text among them) has no words. */
  lemma {:induction false} NoLettersNoWords(text: string)
    requires forall k :: 0 <= k < |text| ==> !IsAsciiLetter(text[k])
    ensures Words(text) == []
  {
    if text != [] {
      NoLettersNoWords(text[1..]);
    }
  }

  /** The run of letters at the front of `a` ends where it ends in `a`, or at
      the separator that follows `a`. */
  lemma RunStopsAtSeparator(a: string, sep: char, b: string)
    requires !IsAsciiLetter(sep)
    ensures LetterRunLength(a + [sep] + b) == LetterRunLength(a)
  {
    var s := a + [sep] + b;
    assert s[|a|] == sep;
    assert forall k :: 0 <= k < |a| ==> s[k] == a[k];
  }

  /** A character that is not a letter (a digit, a blank, punctuation) ends
      the word before it: the words of `a`, `sep`, `b` are those of `a` followed
      by those of `b`. */
  lemma {:induction false} SeparatorSplitsWords(a: string, sep: char, b: string)
    requires !IsAsciiLetter(sep)
    ensures Words(a + [sep] + b) == Words(a) + Words(b)
    decreases |a|
  {
    var s := a + [sep] + b;
    if a == [] {
      assert s[1..] == b;
    } else if !IsAsciiLetter(a[0]) {
      assert s[1..] == a[1..] + [sep] + b;
      SeparatorSplitsWords(a[1..], sep, b);
    } else {
      var n := LetterRunLength(a);
      RunStopsAtSeparator(a, sep, b);
      assert s[..n] == a[..n];
      assert Words(s) == [Lower(a[..n])] + Words(s[n..]);
      assert Words(a) == [Lower(a[..n])] + Words(a[n..]);
      if n < |a| {
        assert s[n..] == a[n..] + [sep] + b;
        SeparatorSplitsWords(a[n..], sep, b);
      } else {
        assert s[n..] == [sep] + b;
        assert ([sep] + b)[1..] == b;
        assert a[n..] == [];
      }
    }
  }

  /** Matching ignores case and every match is lower-cased, so lower-casing the
      text first changes none of its words. */
  lemma {:induction false} WordsIgnoreCase(text: string)
    ensures Words(Lower(text)) == Words(text)
    decreases |text|
  {
    var low := Lower(text);
    if text != [] {
      assert IsAsciiLetter(low[0]) == IsAsciiLetter(text[0]);
      if !IsAsciiLetter(text[0]) {
        assert low[1..] == Lower(text[1..]);
        WordsIgnoreCase(text[1..]);
      } else {
        var n := LetterRunLength(text);
        assert forall k :: 0 <= k < |text| ==> IsAsciiLetter(low[k]) == IsAsciiLetter(text[k]);
        assert LetterRunLength(low) == n;
        assert Lower(low[..n]) == Lower(text[..n]);
        assert low[n..] == Lower(text[n..]);
        WordsIgnoreCase(text[n..]);
      }
    }
  }

  /** A lower-case word on its own is its only word. */
  lemma WordAlone(w: string)
    requires IsWord(w)
    ensures Words(w) == [w]
  {
    assert forall k :: 0 <= k < |w| ==> IsAsciiLetter(w[k]);
    assert LetterRunLength(w) == |w|;
    assert Lower(w) == w;
    assert w[..|w|] == w && w[|w|..] == [];
  }

  /** Words written out with one blank between each two. */
  function Sentence(ws: seq<string>): string
  {
    if |ws| == 0 then ""
    else if |ws| == 1 then ws[0]
    else ws[0] + [' '] + Sentence(ws[1..])
  }

  /** Tokenizing a sentence of lower-case words gives back those words. */
  lemma {:induction false} SentenceRoundTrip(ws: seq<string>)
    requires forall i :: 0 <= i < |ws| ==> IsWord(ws[i])
    ensures Words(Sentence(ws)) == ws
  {
    if |ws| == 1 {
      WordAlone(ws[0]);
    } else if |ws| > 1 {
      WordAlone(ws[0]);
      SentenceRoundTrip(ws[1..]);
      SeparatorSplitsWords(ws[0], ' ', Sentence(ws[1..]));
    }
  }

  /** The counts of a text whose words are those of "cat dog cat bird cat dog". */
  lemma ExampleCounts(text: string, cat: string, dog: string, bird: string)
    requires cat != dog && dog != bird && bird != cat
    requires Words(text) == [cat, dog, cat, bird, cat, dog]
    ensures Vocabulary(text) == {cat, dog, bird}
    ensures Count(text, cat) == 3 && Count(text, dog) == 2 && Count(text, bird) == 1
  {
  }

  /** Such a text, where every count differs, has exactly one table:
      [(cat, 3), (dog, 2), (bird, 1)]. */
  lemma ExampleTable(text: string, cat: string, dog: string, bird: string, top: seq<WordCount>)
    requires cat != dog && dog != bird && bird != cat
    requires Words(text) == [cat, dog, cat, bird, cat, dog]
    requires IsTopTable(text, top)
    ensures top == [(cat, 3), (dog, 2), (bird, 1)]
  {
    ExampleCounts(text, cat, dog, bird);
    TableOfThree(text, cat, dog, bird, top);
  }

  /** The table of a text with three words counted 3, 2 and 1. */
  lemma TableOfThree(text: string, cat: string, dog: string, bird: string, top: seq<WordCount>)
    requires cat != dog && dog != bird && bird != cat
    requires Vocabulary(text) == {cat, dog, bird}
    requires Count(text, cat) == 3 && Count(text, dog) == 2 && Count(text, bird) == 1
    requires IsTopTable(text, top)
    ensures top == [(cat, 3), (dog, 2), (bird, 1)]
  {
    var freq := Frequencies(text);
    assert freq.Keys == {cat, dog, bird};
    TopOfThree(freq, cat, dog, bird, top);
  }

  /** The top table of a dictionary of three words counted 3, 2 and 1. */
  lemma TopOfThree(freq: map<string, nat>, cat: string, dog: string, bird: string, top: seq<WordCount>)
    requires cat != dog && dog != bird && bird != cat
    requires freq.Keys == {cat, dog, bird}
    requires freq[cat] == 3 && freq[dog] == 2 && freq[bird] == 1
    requires IsRankedPrefix(top, freq)
    ensures top == [(cat, 3), (dog, 2), (bird, 1)]
  {
    ThreeDistinct(cat, dog, bird);
    assert |freq| == |freq.Keys| == 3;
    forall i | 0 <= i < 3
      ensures top[i].0 in {cat, dog, bird}
      ensures top[i].1 == (if top[i].0 == cat then 3 else if top[i].0 == dog then 2 else 1)
    {
      assert top[i].0 in freq.Keys;
    }
    RankedThree(top, cat, dog, bird);
  }

  lemma ThreeDistinct(a: string, b: string, c: string)
    requires a != b && b != c && c != a
    ensures |{a, b, c}| == 3
  {
  }

  /** Three distinct words ranked by the counts 3, 2, 1 can only come in one order. */
  lemma RankedThree(top: seq<WordCount>, cat: string, dog: string, bird: string)
    requires cat != dog && dog != bird && bird != cat
    requires |top| == 3
    requires forall i :: 0 <= i < 3 ==> top[i].0 in {cat, dog, bird}
    requires forall i :: 0 <= i < 3 ==> top[i].1 == (if top[i].0 == cat then 3 else if top[i].0 == dog then 2 else 1)
    requires forall i, j :: 0 <= i < j < 3 ==> top[i].0 != top[j].0
    requires forall i, j :: 0 <= i < j < 3 ==> top[i].1 >= top[j].1
    ensures top == [(cat, 3), (dog, 2), (bird, 1)]
  {
    assert top[0].0 == cat && top[1].0 == dog && top[2].0 == bird;
    assert top[0] == (cat, 3) && top[1] == (dog, 2) && top[2] == (bird, 1);
  }

  /** "cat dog cat bird cat dog", spelled with any three distinct words. */
  lemma ExampleSentence(cat: string, dog: string, bird: string)
    requires IsWord(cat) && IsWord(dog) && IsWord(bird)
    ensures Words(Sentence([cat, dog, cat, bird, cat, dog])) == [cat, dog, cat, bird, cat, dog]
  {
    SentenceRoundTrip([cat, dog, cat, bird, cat, dog]);
  }
}
