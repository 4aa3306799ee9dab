/** Preparation of the scraped reviews for analysis: text cleaning (case,
    punctuation, the possessive "’s", stop words, non-alphabetic and short
    words), the sentiment label, the stop-word list, and the bag-of-words
    counters and feature matrix. */
module PrepareEmpireData {
  import opened Base
  import opened PyStr

  // ----------------------------------------------------------------------
  // Character-level cleaning
  // ----------------------------------------------------------------------

  /** `text.lower()`, on ASCII letters. */
  function Lowercase(text: string): (r: string)
    ensures |r| == |text|
    ensures forall i :: 0 <= i < |r| ==> !('A' <= r[i] <= 'Z')
    ensures forall i :: 0 <= i < |r| ==>
      r[i] == text[i] || ('A' <= text[i] <= 'Z' && r[i] as int == text[i] as int + 32)
  {
    MapChars(text, LowerChar)
  }

  /** Lower-casing twice is lower-casing once. */
  lemma LowercaseIdempotent(text: string)
    ensures Lowercase(Lowercase(text)) == Lowercase(text)
  {
    var once := Lowercase(text);
    assert forall i :: 0 <= i < |once| ==> LowerChar(once[i]) == once[i];
  }

  /** Lower-casing neither joins nor splits words. */
  lemma LowercaseWords(text: string)
    ensures |Words(Lowercase(text))| == |Words(text)|
  {
    TokensCount(text, NotSpace);
    TokensCount(Lowercase(text), NotSpace);
    RunCountMap(text, NotSpace, LowerChar, false);
  }

  /** A character of `string.punctuation` (the printable ASCII characters
      that are neither letters, digits nor space: codes 33-47, 58-64, 91-96
      and 123-126) or one of the typographic quotes ’‘“”. */
  predicate IsPunctuation(c: char)
  {
    (33 <= c as int <= 47) || (58 <= c as int <= 64) || (91 <= c as int <= 96) ||
    (123 <= c as int <= 126) ||
    c == '\U{2019}' || c == '\U{2018}' || c == '\U{201C}' || c == '\U{201D}'
  }

  predicate NotPunctuation(c: char) { !IsPunctuation(c) }

  /** `remove_punctuation`: `text.translate` with a table deleting every
      punctuation character. Every other character is kept, as often as it
      occurs, and words can only disappear, never appear. */
  function RemovePunctuation(text: string): (r: string)
    ensures forall c :: multiset(r)[c] == if IsPunctuation(c) then 0 else multiset(text)[c]
    ensures |Words(r)| <= |Words(text)|
  {
    var r := Keep(text, NotPunctuation);
    forall c ensures multiset(r)[c] == if IsPunctuation(c) then 0 else multiset(text)[c] {
      KeepCounts(text, NotPunctuation, c);
    }
    TokensCount(text, NotSpace);
    TokensCount(r, NotSpace);
    RunCountKeep(text, NotSpace, NotPunctuation, false);
    r
  }

  /** Deleting punctuation from a text is deleting it from each part:
      the characters that remain keep their order. */
  lemma RemovePunctuationAppend(a: string, b: string)
    ensures RemovePunctuation(a + b) == RemovePunctuation(a) + RemovePunctuation(b)
  {
    KeepAppend(a, b, NotPunctuation);
  }

  // ----------------------------------------------------------------------
  // replace_text
  // ----------------------------------------------------------------------

  /** The possessive suffix written with a typographic apostrophe. */
  const Possessive: string := "\U{2019}s"

  /** `replace_text`'s table of (old, new) pairs. */
  const ReplaceTable: seq<(string, string)> := [(Possessive, "")]

  /** The text after applying each replacement of `table` in turn. */
  function ApplyTable(text: string, table: seq<(string, string)>): string
    requires forall k :: 0 <= k < |table| ==> table[k].0 != []
    decreases |table|
  {
    if table == [] then text
    else ApplyTable(Replace(text, table[0].0, table[0].1), table[1..])
  }

  /** `replace_text`: applies each entry of the table to the text. */
  method ReplaceText(text: string) returns (r: string)
    ensures r == ApplyTable(text, ReplaceTable)
  {
    var table := ReplaceTable;
    r := text;
    var k := 0;
    while k < |table|
      invariant 0 <= k <= |table|
      invariant ApplyTable(r, table[k..]) == ApplyTable(text, table)
    {
      assert table[k..][1..] == table[k + 1..];
      r := Replace(r, table[k].0, table[k].1);
      k := k + 1;
    }
  }

  /** Pieces without a possessive "’s", apostrophes of their own allowed
      ("don’t", "I’m"), joined by "’s" come back concatenated: every
      possessive is removed and nothing else is. */
  lemma ReplaceTableJoin(pieces: seq<string>)
    requires forall k, i :: 0 <= k < |pieces| ==> !OccursAt(pieces[k], Possessive, i)
    ensures ApplyTable(Join(pieces, Possessive), ReplaceTable) == Join(pieces, "")
  {
    assert Possessive[1..] != Possessive[..1];
    ReplaceJoin(pieces, Possessive, "");
  }

  /** A text without an apostrophe is left as it is. */
  lemma ReplaceTableAbsent(text: string)
    requires '\U{2019}' !in text
    ensures ApplyTable(text, ReplaceTable) == text
  {
    forall i ensures !OccursAt(text, Possessive, i) {
      if 0 <= i && i + 2 <= |text| {
        assert text[i..i + 2][0] == text[i];
      }
    }
    ReplaceAbsent(text, Possessive, "");
  }

  // ----------------------------------------------------------------------
  // Word filters
  // ----------------------------------------------------------------------

  /** `[word for word in words if keep(word)]`. */
  function Filter(words: seq<string>, keep: string -> bool): (r: seq<string>)
    ensures |r| <= |words|
    ensures forall k :: 0 <= k < |r| ==> keep(r[k])
  {
    if words == [] then []
    else
      var rest := Filter(words[1..], keep);
      if keep(words[0]) then [words[0]] + rest else rest
  }

  /** A filter drops exactly the words that fail the test: a kept word
      occurs as often as in the input. */
  lemma {:induction false} FilterCounts(words: seq<string>, keep: string -> bool)
    ensures forall w :: multiset(Filter(words, keep))[w] == if keep(w) then multiset(words)[w] else 0
  {
    if words != [] {
      FilterCounts(words[1..], keep);
      assert words == [words[0]] + words[1..];
    }
  }

  /** Filtering a concatenation filters each part: the kept words stay in
      their original order. */
  lemma {:induction false} FilterAppend(a: seq<string>, b: seq<string>, keep: string -> bool)
    ensures Filter(a + b, keep) == Filter(a, keep) + Filter(b, keep)
  {
    if a != [] {
      assert (a + b)[0] == a[0];
      assert (a + b)[1..] == a[1..] + b;
      FilterAppend(a[1..], b, keep);
    } else {
      assert a + b == b;
    }
  }

  /** Two filters in a row keep the words that pass both. */
  lemma {:induction false} FilterCompose(words: seq<string>, p: string -> bool, q: string -> bool, both: string -> bool)
    requires forall w :: both(w) <==> p(w) && q(w)
    ensures Filter(Filter(words, p), q) == Filter(words, both)
  {
    if words != [] {
      FilterCompose(words[1..], p, q, both);
    }
  }

  /** `str.isalpha()` on ASCII: a non-empty word of letters. */
  predicate IsAlphaWord(w: string) { w != [] && All(w, IsAlpha) }

  /** `remove_non_alphabet`. */
  function RemoveNonAlphabet(words: seq<string>): (r: seq<string>)
    ensures forall k :: 0 <= k < |r| ==> IsAlphaWord(r[k])
    ensures forall w :: multiset(r)[w] == if IsAlphaWord(w) then multiset(words)[w] else 0
  {
    FilterCounts(words, IsAlphaWord);
    Filter(words, IsAlphaWord)
  }

  /** `remove_stop_words`. */
  function RemoveStopWords(words: seq<string>, stopWords: seq<string>): (r: seq<string>)
    ensures forall k :: 0 <= k < |r| ==> r[k] !in stopWords
    ensures forall w :: multiset(r)[w] == if w in stopWords then 0 else multiset(words)[w]
  {
    var notStop := w => w !in stopWords;
    FilterCounts(words, notStop);
    Filter(words, notStop)
  }

  /** `remove_short_words`. */
  function RemoveShortWords(words: seq<string>, minLetters: nat): (r: seq<string>)
    ensures forall k :: 0 <= k < |r| ==> |r[k]| >= minLetters
    ensures forall w :: multiset(r)[w] == if |w| >= minLetters then multiset(words)[w] else 0
  {
    var long := w => |w| >= minLetters;
    FilterCounts(words, long);
    Filter(words, long)
  }

  /** A word `clean_text` keeps: alphabetic, not a stop word, long enough. */
  predicate IsKept(w: string, stopWords: seq<string>, minLetters: nat)
  {
    IsAlphaWord(w) && w !in stopWords && |w| >= minLetters
  }

  /** The words `clean_text` keeps, in order: the words of the lower-cased
      text without punctuation that are alphabetic, not stop words and long
      enough. */
  function CleanWords(text: string, stopWords: seq<string>, minLetters: nat): seq<string>
  {
    var words := Words(RemovePunctuation(Lowercase(text)));
    RemoveShortWords(RemoveStopWords(RemoveNonAlphabet(words), stopWords), minLetters)
  }

  /** The three filters together keep exactly the words that pass all
      three tests, in their order. */
  lemma CleanWordsFilter(text: string, stopWords: seq<string>, minLetters: nat)
    ensures CleanWords(text, stopWords, minLetters) ==
      Filter(Words(RemovePunctuation(Lowercase(text))),
             w => IsKept(w, stopWords, minLetters))
  {
    var words := Words(RemovePunctuation(Lowercase(text)));
    var notStop := w => w !in stopWords;
    var long := w => |w| >= minLetters;
    var alphaNotStop := w => IsAlphaWord(w) && w !in stopWords;
    FilterCompose(words, IsAlphaWord, notStop, alphaNotStop);
    FilterCompose(words, alphaNotStop, long, w => IsKept(w, stopWords, minLetters));
  }

  /** Cleaning never adds words. */
  lemma CleanWordsCount(text: string, stopWords: seq<string>, minLetters: nat)
    ensures |CleanWords(text, stopWords, minLetters)| <= |Words(text)|
  {
    LowercaseWords(text);
  }

  /** Each kept word passes the three tests, and joining the kept words
      with spaces gives a text whose words are exactly them. */
  lemma CleanWordsJoin(text: string, stopWords: seq<string>, minLetters: nat)
    ensures forall k :: 0 <= k < |CleanWords(text, stopWords, minLetters)| ==>
      IsKept(CleanWords(text, stopWords, minLetters)[k], stopWords, minLetters)
    ensures Words(Join(CleanWords(text, stopWords, minLetters), " ")) == CleanWords(text, stopWords, minLetters)
  {
    CleanWordsFilter(text, stopWords, minLetters);
    JoinKept(CleanWords(text, stopWords, minLetters), stopWords, minLetters);
  }

  /** Kept words are non-empty and hold no space, so they survive being
      joined with spaces and split again. */
  lemma JoinKept(kept: seq<string>, stopWords: seq<string>, minLetters: nat)
    requires forall k :: 0 <= k < |kept| ==> IsKept(kept[k], stopWords, minLetters)
    ensures Words(Join(kept, " ")) == kept
  {
    forall k | 0 <= k < |kept|
      ensures kept[k] != [] && All(kept[k], NotSpace)
    {
      assert IsKept(kept[k], stopWords, minLetters);
    }
    TokensJoin(kept, NotSpace, ' ');
  }

  /** A cell of the review column: a string, or a missing value (NaN). */
  datatype Cell = Text(text: string) | Missing

  /** `clean_text`'s result without the floating-point cleaning ratio:
      four NaNs, or the cleaned text and the word counts before and
      after cleaning. */
  datatype Cleaning = NaNs | Cleaned(text: string, before: nat, after: nat)

  /** `clean_text`: a missing review gives NaNs; a review without words
      raises ZeroDivisionError when the ratio is computed; otherwise the
      cleaned text holds exactly the kept words, at most as many as the
      review had. */
  function CleanText(review: Cell, stopWords: seq<string>, minLetters: nat): (r: Result<Cleaning>)
    ensures review.Missing? ==> r == Ok(NaNs)
    ensures review.Text? ==> (r.Err? <==> Words(review.text) == [])
    ensures r.Ok? && review.Text? ==>
      r.value.Cleaned? && r.value.before == |Words(review.text)| &&
      r.value.after <= r.value.before &&
      r.value.text == Join(CleanWords(review.text, stopWords, minLetters), " ") &&
      Words(r.value.text) == CleanWords(review.text, stopWords, minLetters) &&
      |Words(r.value.text)| == r.value.after
    ensures r.Ok? && review.Text? ==> forall k :: 0 <= k < |Words(r.value.text)| ==>
      IsKept(Words(r.value.text)[k], stopWords, minLetters)
  {
    match review
    case Missing => Ok(NaNs)
    case Text(text) =>
      var before := |Words(text)|;
      var kept := CleanWords(text, stopWords, minLetters);
      var cleaned := Join(kept, " ");
      var after := |kept|;
      CleanWordsCount(text, stopWords, minLetters);
      CleanWordsJoin(text, stopWords, minLetters);
      if before == 0 then Err("ZeroDivisionError")
      else Ok(Cleaned(cleaned, before, after))
  }

  /** `sentiment`: 0 for a rating of at most 2, otherwise 1. */
  function Sentiment(rating: int): (s: nat)
    ensures s <= 1
    ensures s == 0 <==> rating <= 2
  {
    if rating <= 2 then 0 else 1
  }

  // ----------------------------------------------------------------------
  // Stop words
  // ----------------------------------------------------------------------

  predicate NoDuplicates(ws: seq<string>)
  {
    forall i, j :: 0 <= i < j < |ws| ==> ws[i] != ws[j]
  }

  /** The distinct words of `ws` in order of first occurrence. */
  function Unique(ws: seq<string>): (u: seq<string>)
    ensures NoDuplicates(u)
    ensures forall w :: w in u <==> w in ws
  {
    if ws == [] then []
    else
      var init := ws[..|ws| - 1];
      var last := ws[|ws| - 1];
      var u := Unique(init);
      assert ws == init + [last];
      if last in u then u else u + [last]
  }

  /** `list(set(ws))`, keeping first occurrences in order. */
  method Deduplicate(ws: seq<string>) returns (u: seq<string>)
    ensures u == Unique(ws)
  {
    u := [];
    for k := 0 to |ws|
      invariant u == Unique(ws[..k])
    {
      assert ws[..k + 1][..k] == ws[..k];
      if ws[k] !in u {
        u := u + [ws[k]];
      }
    }
    assert ws[..|ws|] == ws;
  }

  /** `''.join(re.findall(r'([\w]+)', word))`. */
  function WordPart(word: string): string
  {
    Join(Tokens(word, IsWordChar), "")
  }

  /** Joining a word's `\w` runs is deleting its other characters. */
  lemma {:induction false} WordPartKeep(word: string)
    ensures WordPart(word) == Keep(word, IsWordChar)
  {
    if word != [] {
      var rest := Tokens(word[1..], IsWordChar);
      WordPartKeep(word[1..]);
      if IsWordChar(word[0]) {
        if |word| > 1 && IsWordChar(word[1]) {
          var first := [word[0]] + rest[0];
          if |rest| > 1 {
            JoinCons(first, rest[1..], "");
            JoinCons(rest[0], rest[1..], "");
          }
          assert [rest[0]] + rest[1..] == rest;
        } else if |rest| > 0 {
          JoinCons([word[0]], rest, "");
        }
      }
    }
  }

  /** The words `define_stop_words` collects: every listed word, and every
      listed word with its non-word characters deleted. */
  function StopWordSet(english: seq<string>, nltk: seq<string>): set<string>
  {
    (set w | w in english + nltk) + (set v | v in english + nltk :: Keep(v, IsWordChar))
  }

  /** `define_stop_words`: the distinct words of both lists, together with
      each of them with its non-word characters deleted. */
  method DefineStopWords(english: seq<string>, nltk: seq<string>) returns (stopWords: seq<string>)
    ensures NoDuplicates(stopWords)
    ensures forall w :: w in stopWords <==> w in StopWordSet(english, nltk)
  {
    var listed := Deduplicate(english + nltk);
    var other: seq<string> := [];
    for k := 0 to |listed|
      invariant |other| == k
      invariant forall j :: 0 <= j < k ==> other[j] == WordPart(listed[j])
    {
      other := other + [WordPart(listed[k])];
    }
    var unlisted := w => w !in listed;
    var extra := Filter(Unique(other), unlisted);
    FilterCounts(Unique(other), unlisted);
    stopWords := Deduplicate(listed + extra);
    OtherWords(english + nltk, listed, other);
    ghost var parts := set v | v in english + nltk :: Keep(v, IsWordChar);
    forall w ensures w in stopWords <==> w in StopWordSet(english, nltk) {
      assert w in stopWords <==> w in listed || w in extra;
      assert multiset(extra)[w] == if w !in listed then multiset(Unique(other))[w] else 0;
      assert w in extra <==> w in other && w !in listed;
      assert w in StopWordSet(english, nltk) <==> w in english + nltk || w in parts;
    }
  }

  /** The `\w` parts of the distinct listed words are the `\w` parts of the
      listed words. */
  lemma OtherWords(all: seq<string>, listed: seq<string>, other: seq<string>)
    requires forall w :: w in listed <==> w in all
    requires |other| == |listed|
    requires forall j :: 0 <= j < |listed| ==> other[j] == WordPart(listed[j])
    ensures forall w :: w in other <==> w in (set v | v in all :: Keep(v, IsWordChar))
  {
    forall w | w in other
      ensures w in (set v | v in all :: Keep(v, IsWordChar))
    {
      var j :| 0 <= j < |other| && other[j] == w;
      WordPartKeep(listed[j]);
    }
    forall w | w in (set v | v in all :: Keep(v, IsWordChar))
      ensures w in other
    {
      var v :| v in all && w == Keep(v, IsWordChar);
      var j :| 0 <= j < |listed| && listed[j] == v;
      WordPartKeep(v);
      assert other[j] == w;
    }
  }

  // ----------------------------------------------------------------------
  // Bags of words
  // ----------------------------------------------------------------------

  /** A `collections.Counter`: its words in insertion order and their counts. */
  datatype Counter = Counter(words: seq<string>, count: map<string, nat>)

  /** `counter[word]`, which is 0 for a word never counted. */
  function Get(c: Counter, w: string): nat
  {
    if w in c.count then c.count[w] else 0
  }

  /** `Counter(words)`. */
  function CounterOf(words: seq<string>): (c: Counter)
    ensures NoDuplicates(c.words)
    ensures forall w :: w in c.words <==> w in c.count
    ensures forall w :: Get(c, w) == multiset(words)[w]
  {
    Counter(Unique(words), map w | w in words :: multiset(words)[w])
  }

  /** The words of `ws` not counted in `seen`, in order. */
  function Unseen(ws: seq<string>, seen: map<string, nat>): seq<string>
  {
    if ws == [] then []
    else if ws[0] in seen then Unseen(ws[1..], seen)
    else [ws[0]] + Unseen(ws[1..], seen)
  }

  lemma {:induction false} UnseenAppend(a: seq<string>, b: seq<string>, seen: map<string, nat>)
    ensures Unseen(a + b, seen) == Unseen(a, seen) + Unseen(b, seen)
  {
    if a != [] {
      assert (a + b)[0] == a[0];
      assert (a + b)[1..] == a[1..] + b;
      UnseenAppend(a[1..], b, seen);
    } else {
      assert a + b == b;
    }
  }

  /** `a + b` on counters with positive counts: the counts add up, the
      words of `a` come first, then those only `b` has. */
  function AddCounters(a: Counter, b: Counter): (c: Counter)
    ensures forall w :: Get(c, w) == Get(a, w) + Get(b, w)
  {
    Counter(a.words + Unseen(b.words, a.count),
            map w | w in a.count.Keys + b.count.Keys :: Get(a, w) + Get(b, w))
  }

  /** `sum(counters, Counter())`: the counters added from left to right. */
  function SumCounters(counters: seq<Counter>): (total: Counter)
    ensures forall w :: Get(total, w) == TotalCount(counters, w)
  {
    if counters == [] then Counter([], map[])
    else AddCounters(SumCounters(counters[..|counters| - 1]), counters[|counters| - 1])
  }

  /** The count of `w` summed over all counters. */
  function TotalCount(counters: seq<Counter>, w: string): nat
  {
    if counters == [] then 0
    else TotalCount(counters[..|counters| - 1], w) + Get(counters[|counters| - 1], w)
  }

  /** All the token lists, one after the other. */
  function Concat(lists: seq<seq<string>>): seq<string>
  {
    if lists == [] then []
    else Concat(lists[..|lists| - 1]) + lists[|lists| - 1]
  }

  /** The first occurrences of a concatenation: those of the first part,
      then the new ones of the second. */
  lemma {:induction false} UniqueAppend(xs: seq<string>, ys: seq<string>, seen: map<string, nat>)
    requires forall w :: w in seen <==> w in xs
    ensures Unique(xs + ys) == Unique(xs) + Unseen(Unique(ys), seen)
  {
    if ys == [] {
      assert xs + ys == xs;
    } else {
      var init := ys[..|ys| - 1];
      var y := ys[|ys| - 1];
      assert (xs + ys)[..|xs + ys| - 1] == xs + init;
      assert (xs + ys)[|xs + ys| - 1] == y;
      UniqueAppend(xs, init, seen);
      UnseenAppend(Unique(init), [y], seen);
      assert ys == init + [y];
      assert y in xs + ys;
    }
  }

  /** Two counters that count the same words the same number of times have
      the same counts. */
  lemma SameCounts(c1: Counter, c2: Counter)
    requires c1.count.Keys == c2.count.Keys
    requires forall w :: Get(c1, w) == Get(c2, w)
    ensures c1.count == c2.count
  {
    forall w | w in c1.count
      ensures c1.count[w] == c2.count[w]
    {
      assert Get(c1, w) == Get(c2, w);
    }
  }

  /** Adding the counters of two token lists counts every word of the two
      lists together. */
  lemma AddCountsOf(xs: seq<string>, ys: seq<string>)
    ensures AddCounters(CounterOf(xs), CounterOf(ys)).count == CounterOf(xs + ys).count
  {
    var sum := AddCounters(CounterOf(xs), CounterOf(ys));
    var whole := CounterOf(xs + ys);
    forall w ensures Get(sum, w) == Get(whole, w) {
      assert multiset(xs + ys)[w] == multiset(xs)[w] + multiset(ys)[w];
    }
    assert sum.count.Keys == whole.count.Keys by {
      forall w ensures w in sum.count <==> w in whole.count {
        assert w in xs + ys <==> w in xs || w in ys;
      }
    }
    SameCounts(sum, whole);
  }

  /** Adding the counters of two token lists gives the counter of the two
      lists together, words in the same order. */
  lemma AddCounterOf(xs: seq<string>, ys: seq<string>)
    ensures AddCounters(CounterOf(xs), CounterOf(ys)) == CounterOf(xs + ys)
  {
    UniqueAppend(xs, ys, CounterOf(xs).count);
    AddCountsOf(xs, ys);
  }

  /** The counters of each review's tokens. */
  function Bags(tokens: seq<seq<string>>): seq<Counter>
  {
    seq(|tokens|, i requires 0 <= i < |tokens| => CounterOf(tokens[i]))
  }

  /** Summing the reviews' counters gives the counter of all their tokens:
      each word's total count across the reviews, the words in order of
      first appearance. */
  lemma {:induction false} SumBags(tokens: seq<seq<string>>)
    ensures SumCounters(Bags(tokens)) == CounterOf(Concat(tokens))
  {
    if tokens != [] {
      var n := |tokens|;
      var init := tokens[..n - 1];
      assert Bags(tokens)[..n - 1] == Bags(init);
      SumBags(init);
      AddCounterOf(Concat(init), tokens[n - 1]);
    }
  }

  /** The `\w` runs of a cleaned review. */
  function ReviewTokens(reviews: seq<string>): seq<seq<string>>
  {
    seq(|reviews|, i requires 0 <= i < |reviews| => Tokens(reviews[i], IsWordChar))
  }

  /** The state `CleanData` keeps between its steps. */
  class CleanData {
    const minLetters: nat
    const stopWords: seq<string>
    var bagOfWords: seq<Counter>
    var sumOfBagsOfWords: Counter
    var features: array2<int>

    constructor(minLetters: nat, english: seq<string>, nltk: seq<string>)
      ensures this.minLetters == minLetters
      ensures NoDuplicates(stopWords)
      ensures forall w :: w in english ==> w in stopWords
      ensures forall w :: w in nltk ==> w in stopWords
      ensures forall w :: w in stopWords <==> w in StopWordSet(english, nltk)
      ensures bagOfWords == []
    {
      this.minLetters := minLetters;
      var s := DefineStopWords(english, nltk);
      stopWords := s;
      bagOfWords := [];
      sumOfBagsOfWords := Counter([], map[]);
      features := new int[0, 0];
    }

    /** `tokenize_text`: a counter per review and their sum. */
    method TokenizeText(reviews: seq<string>)
      modifies this
      ensures bagOfWords == Bags(ReviewTokens(reviews))
      ensures sumOfBagsOfWords == CounterOf(Concat(ReviewTokens(reviews)))
      ensures features == old(features)
    {
      bagOfWords := Bags(ReviewTokens(reviews));
      sumOfBagsOfWords := SumCounters(bagOfWords);
      SumBags(ReviewTokens(reviews));
    }

    /** `make_features`: a zero matrix with a row per review and a column
        per word of the summed counter, filled with each review's count of
        each word. */
    method MakeFeatures()
      modifies this
      ensures bagOfWords == old(bagOfWords) && sumOfBagsOfWords == old(sumOfBagsOfWords)
      ensures fresh(features)
      ensures features.Length0 == |bagOfWords| && features.Length1 == |sumOfBagsOfWords.words|
      ensures forall i, j :: 0 <= i < features.Length0 && 0 <= j < features.Length1 ==>
        features[i, j] == Get(bagOfWords[i], sumOfBagsOfWords.words[j])
    {
      features := FillFeatures(bagOfWords, sumOfBagsOfWords.words);
    }

    /** The matrix of `make_features`: `zeros` overwritten by the count of
        each word a review's counter holds. */
    static method FillFeatures(bags: seq<Counter>, vocabulary: seq<string>) returns (m: array2<int>)
      ensures fresh(m)
      ensures m.Length0 == |bags| && m.Length1 == |vocabulary|
      ensures forall i, j :: 0 <= i < |bags| && 0 <= j < |vocabulary| ==>
        m[i, j] == Get(bags[i], vocabulary[j])
    {
      m := new int[|bags|, |vocabulary|]((i, j) => 0);
      for i := 0 to |bags|
        invariant forall i', j :: 0 <= i' < i && 0 <= j < |vocabulary| ==>
          m[i', j] == Get(bags[i'], vocabulary[j])
        invariant forall i', j :: i <= i' < |bags| && 0 <= j < |vocabulary| ==> m[i', j] == 0
      {
        var counter := bags[i];
        for j := 0 to |vocabulary|
          invariant forall i', j' :: 0 <= i' < i && 0 <= j' < |vocabulary| ==>
            m[i', j'] == Get(bags[i'], vocabulary[j'])
          invariant forall j' :: 0 <= j' < j ==> m[i, j'] == Get(counter, vocabulary[j'])
          invariant forall i', j' :: i <= i' < |bags| && 0 <= j' < |vocabulary| && (i' != i || j' >= j) ==>
            m[i', j'] == 0
        {
          var word := vocabulary[j];
          if word in counter.count {
            m[i, j] := counter.count[word];
          }
        }
      }
    }
  }

  /** Each column of the feature matrix sums to the word's total count
      across the reviews, which is the count the summed counter holds. */
  lemma FeatureColumnTotal(reviews: seq<string>, w: string)
    ensures TotalCount(Bags(ReviewTokens(reviews)), w) == Get(CounterOf(Concat(ReviewTokens(reviews))), w)
  {
    SumBags(ReviewTokens(reviews));
  }
}
