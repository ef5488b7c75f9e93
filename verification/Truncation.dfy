/**
 Truncation at a token target: the recount loop, the incremental character loop, and the
 extractive pass that falls back on them.
 */
module Truncation {
  import opened Basics
  import opened Texts
  import opened Counting
  import opened TextPasses

  // ----- The recount loop -----

  /** Where the recount loop stops: the first prefix past `n` characters that does not fit. */
  function FitLength(t: Text, target: int, counts: Counter, n: nat): (k: nat)
    requires counts.multiplier >= 1.0 && n <= |t|
    ensures n <= k <= |t|
    ensures forall j :: n < j <= k ==> counts.CountText(t[..j]) <= target
    ensures k < |t| ==> counts.CountText(t[..k + 1]) > target
    decreases |t| - n
  {
    if n < |t| && counts.CountText(t[..n + 1]) <= target then FitLength(t, target, counts, n + 1)
    else n
  }

  function RecountTruncated(t: Text, target: int, counts: Counter): Text
    requires counts.multiplier >= 1.0
  {
    if target <= 0 then [] else TrimEnd(t[..FitLength(t, target, counts, 0)])
  }

  // ----- The incremental loop -----

  /** Where the incremental loop stops, `n` characters and two running totals in. */
  function CharFitLength(t: Text, target: int, n: nat, cjk: nat, other: nat): (k: nat)
    requires n <= |t|
    ensures n <= k <= |t|
    decreases |t| - n
  {
    if n == |t| then n
    else
      var nextCjk := if IsCjk(t[n]) then cjk + 1 else cjk;
      var nextOther := if IsCjk(t[n]) then other else other + Utf16Length(t[n]);
      if nextCjk + (nextOther + 3) / 4 > target then n
      else CharFitLength(t, target, n + 1, nextCjk, nextOther)
  }

  function CharTruncated(t: Text, target: int): Text {
    if target <= 0 then [] else TrimEnd(t[..CharFitLength(t, target, 0, 0, 0)])
  }

  method TruncateCharEstimator(t: Text, target: int) returns (r: Text)
    ensures r == CharTruncated(t, target)
  {
    if target <= 0 {
      return [];
    }
    var out: Text := [];
    var cjk: nat, other: nat := 0, 0;
    for i := 0 to |t|
      invariant out == t[..i]
      invariant CharFitLength(t, target, 0, 0, 0) == CharFitLength(t, target, i, cjk, other)
    {
      var nextCjk := if IsCjk(t[i]) then cjk + 1 else cjk;
      var nextOther := if IsCjk(t[i]) then other else other + Utf16Length(t[i]);
      if nextCjk + (nextOther + 3) / 4 > target {
        break;
      }
      cjk, other := nextCjk, nextOther;
      out := out + [t[i]];
    }
    r := TrimEnd(out);
  }

  /** The kernel's truncation: incremental for the character estimator, recounting otherwise. */
  function Truncated(t: Text, target: int, counts: Counter): Text
    requires counts.multiplier >= 1.0
  {
    if counts.CountsCharacters() then CharTruncated(t, target)
    else RecountTruncated(t, target, counts)
  }

  method Truncate(t: Text, target: int, counts: Counter) returns (r: Text)
    requires counts.multiplier >= 1.0
    ensures r == Truncated(t, target, counts)
  {
    if counts.CountsCharacters() {
      r := TruncateCharEstimator(t, target);
      return;
    }
    if target <= 0 {
      return [];
    }
    var out := [];
    for i := 0 to |t|
      invariant out == t[..i]
      invariant FitLength(t, target, counts, 0) == FitLength(t, target, counts, i)
    {
      var candidate := out + [t[i]];
      assert candidate == t[..i + 1];
      if counts.CountText(candidate) > target {
        break;
      }
      out := candidate;
    }
    r := TrimEnd(out);
  }

  // ----- Properties -----

  /** With a built-in estimator the stopping point is the longest prefix that fits. */
  lemma FitLengthIsLongest(t: Text, target: int, counts: Counter, n: nat)
    requires counts.multiplier >= 1.0 && counts.external.None?
    requires target >= 0 && n <= |t|
    ensures counts.CountText(t[..n]) <= target <==> n <= FitLength(t, target, counts, 0)
  {
    var k := FitLength(t, target, counts, 0);
    CountOfEmpty(counts);
    if n > k {
      CountOfPrefix(t[..k + 1], t[..n], counts);
    }
  }

  lemma {:induction false} CharFitIsFit(t: Text, target: int, n: nat)
    requires n <= |t|
    ensures CharFitLength(t, target, n, Cjk(t[..n]), Other(t[..n]))
            == FitLength(t, target, Counter(None, CharEstimator, 1.0), n)
    decreases |t| - n
  {
    if n < |t| {
      var counts := Counter(None, CharEstimator, 1.0);
      var p := t[..n + 1];
      assert p == t[..n] + [t[n]];
      CharsOfConcat(t[..n], [t[n]]);
      assert Cjk([t[n]][1..]) == 0 && Other([t[n]][1..]) == 0;
      ScaledByOne(CharTokens(p));
      assert counts.CountText(p) == CharTokens(p);
      CharFitIsFit(t, target, n + 1);
    }
  }

  /** The incremental loop agrees with recounting every prefix at multiplier one. */
  lemma CharTruncationIsRecount(t: Text, target: int)
    ensures CharTruncated(t, target) == RecountTruncated(t, target, Counter(None, CharEstimator, 1.0))
  {
    CharFitIsFit(t, target, 0);
    assert t[..0] == [];
  }

  /**
   Under any counter at all, the recount loop meets any target that the empty text meets: what it
   returns is a prefix it has counted, or empty.
   */
  lemma RecountMeetsTarget(t: Text, target: int, counts: Counter)
    requires counts.multiplier >= 1.0 && counts.CountText([]) <= target
    ensures counts.CountText(RecountTruncated(t, target, counts)) <= target
  {
    if target > 0 {
      var k := FitLength(t, target, counts, 0);
      var r := TrimEnd(t[..k]);
      assert r == t[..|r|];
    }
  }

  /** `n` copies of one CJK ideograph: `n` tokens for the character estimator. */
  function Ideographs(n: nat): Text {
    if n == 0 then [] else [Letter(0x4E00, WordChar)] + Ideographs(n - 1)
  }

  lemma {:induction false} IdeographsCount(n: nat)
    ensures Cjk(Ideographs(n)) == n && Other(Ideographs(n)) == 0
    ensures |Ideographs(n)| == n && forall c :: c in Ideographs(n) ==> IsWord(c)
  {
    if n > 0 {
      IdeographsCount(n - 1);
      assert Ideographs(n)[1..] == Ideographs(n - 1);
    }
  }

  /** A text that fits and ends in a word is kept whole. */
  lemma FittingTextKept(t: Text, target: int, counts: Counter)
    requires counts.multiplier >= 1.0 && counts.external.None?
    requires target > 0 && counts.CountText(t) <= target
    requires t != [] && IsWord(t[|t| - 1])
    ensures RecountTruncated(t, target, counts) == t
  {
    assert t[..|t|] == t;
    FitLengthIsLongest(t, target, counts, |t|);
  }

  lemma IdeographsKept(target: nat)
    requires target > 0
    ensures CharTruncated(Ideographs(target), target) == Ideographs(target)
  {
    var t := Ideographs(target);
    var counts := Counter(None, CharEstimator, 1.0);
    IdeographsCount(target);
    CharTruncationIsRecount(t, target);
    assert t[|t| - 1] in t;
    ScaledByOne(target);
    assert CharTokens(t) == target;
    FittingTextKept(t, target, counts);
  }

  /** Above multiplier one, a full house of ideographs counts past the target it was cut to. */
  lemma IdeographsMissTarget(target: nat, counts: Counter)
    requires counts.multiplier > 1.0 && counts.CountsCharacters() && target > 0
    ensures counts.CountText(Truncated(Ideographs(target), target, counts)) > target
  {
    hide CharTruncated, RecountTruncated, Ideographs, IsCjk;
    var t := Ideographs(target);
    IdeographsCount(target);
    IdeographsKept(target);
    assert counts.RawCount(t) == CharTokens(t) == target;
    ScaleStrict(target as real, 1.0, counts.multiplier);
    CeilBounds(target as real * counts.multiplier);
    assert Ceil(target as real * counts.multiplier) > target;
  }

  /**
   The character path ignores the multiplier, so it meets its target on every text exactly when
   there is nothing to ignore: multiplier one, or a target of zero.
   */
  lemma CharTruncationMeetsTargetIff(target: nat, counts: Counter)
    requires counts.multiplier >= 1.0 && counts.CountsCharacters()
    ensures (forall t: Text :: counts.CountText(Truncated(t, target, counts)) <= target)
            <==> counts.multiplier == 1.0 || target == 0
  {
    hide CharTruncated, RecountTruncated, Ideographs, CharTokens;
    if counts.multiplier == 1.0 || target == 0 {
      forall t: Text ensures counts.CountText(Truncated(t, target, counts)) <= target {
        CharTruncationMeetsTarget(t, target, counts);
      }
    } else {
      IdeographsMissTarget(target, counts);
    }
  }

  lemma CharTruncationMeetsTarget(t: Text, target: nat, counts: Counter)
    requires counts.CountsCharacters() && (counts.multiplier == 1.0 || (target == 0 && counts.multiplier >= 1.0))
    ensures counts.CountText(Truncated(t, target, counts)) <= target
  {
    CharTruncationIsRecount(t, target);
    CountOfEmpty(counts);
    RecountMeetsTarget(t, target, counts);
  }

  // ----- The extractive pass -----

  function Extend(result: Text, sentence: Text): Text {
    if result == [] then Trim(sentence) else result + [SPACE] + Trim(sentence)
  }

  function SelectFrom(sentences: seq<Text>, result: Text, target: int, counts: Counter): Text
    requires counts.multiplier >= 1.0
  {
    if sentences == [] || counts.CountText(Extend(result, sentences[0])) > target then result
    else SelectFrom(sentences[1..], Extend(result, sentences[0]), target, counts)
  }

  function SelectedSentences(t: Text, target: int, counts: Counter): Text
    requires counts.multiplier >= 1.0
  {
    var result := SelectFrom(Sentences(t), [], target, counts);
    if result == [] then Truncated(t, target, counts) else result
  }

  method SelectSentences(t: Text, target: int, counts: Counter) returns (r: Text)
    requires counts.multiplier >= 1.0
    ensures r == SelectedSentences(t, target, counts)
  {
    r := [];
    var sentences := Sentences(t);
    for i := 0 to |sentences|
      invariant SelectFrom(sentences, [], target, counts) == SelectFrom(sentences[i..], r, target, counts)
    {
      assert sentences[i..][1..] == sentences[i + 1..];
      var next := if r == [] then Trim(sentences[i]) else r + [SPACE] + Trim(sentences[i]);
      if counts.CountText(next) > target {
        break;
      }
      r := next;
    }
    if r == [] {
      r := Truncate(t, target, counts);
    }
  }

  lemma {:induction false} SelectFromFits(sentences: seq<Text>, result: Text, target: int, counts: Counter)
    requires counts.multiplier >= 1.0
    requires counts.CountText(result) <= target
    ensures counts.CountText(SelectFrom(sentences, result, target, counts)) <= target
    decreases sentences
  {
    if sentences != [] && counts.CountText(Extend(result, sentences[0])) <= target {
      SelectFromFits(sentences[1..], Extend(result, sentences[0]), target, counts);
    }
  }

  /** The extractive pass meets every target that the empty text and its truncation meet. */
  lemma SelectedSentencesMeetTarget(t: Text, target: int, counts: Counter)
    requires counts.multiplier >= 1.0
    requires counts.CountText([]) <= target && counts.CountText(Truncated(t, target, counts)) <= target
    ensures counts.CountText(SelectedSentences(t, target, counts)) <= target
  {
    hide Truncated;
    SelectFromFits(Sentences(t), [], target, counts);
  }

  lemma WordsOfExtend(result: Text, sentence: Text)
    ensures Words(Extend(result, sentence)) == Words(result) + Words(sentence)
  {
    WordsOfTrim(sentence);
    if result != [] {
      WordsAcrossBlanks(result, [SPACE], Trim(sentence));
    }
  }

  lemma NextCounts(next: Text, counts: Counter)
    requires counts.multiplier >= 1.0 && counts.CountsWords()
    ensures counts.CountText(next) == Scaled(Words(next), counts.multiplier)
  {
  }

  /** How many of the sentences the extractive loop takes. */
  function TakenFrom(sentences: seq<Text>, result: Text, target: int, counts: Counter): (k: nat)
    requires counts.multiplier >= 1.0
    ensures k <= |sentences|
  {
    if sentences == [] || counts.CountText(Extend(result, sentences[0])) > target then 0
    else 1 + TakenFrom(sentences[1..], Extend(result, sentences[0]), target, counts)
  }

  /** The loop's text holds the words of the sentences it took, and the next would not have fitted. */
  lemma {:induction false} SelectFromTakes(sentences: seq<Text>, result: Text, target: int, counts: Counter)
    requires counts.multiplier >= 1.0 && counts.CountsWords()
    ensures var k := TakenFrom(sentences, result, target, counts);
            && Words(SelectFrom(sentences, result, target, counts)) == Words(result) + TotalWords(sentences[..k])
            && (k < |sentences| ==>
                  Scaled(Words(result) + TotalWords(sentences[..k]) + Words(sentences[k]), counts.multiplier) > target)
    decreases sentences
  {
    hide Words, Extend, Scaled;
    if sentences == [] {
      assert sentences[..0] == [];
    } else {
      var next := Extend(result, sentences[0]);
      NextCounts(next, counts);
      WordsOfExtend(result, sentences[0]);
      if counts.CountText(next) <= target {
        SelectFromTakes(sentences[1..], next, target, counts);
        var k := TakenFrom(sentences[1..], next, target, counts);
        assert sentences[..k + 1][1..] == sentences[1..][..k];
      }
    }
  }

  lemma WordsOfNothing()
    ensures Words([]) == 0
  {
  }

  /**
   The extractive pass takes the longest run of leading sentences that fits, whole, as the word
   estimator counts them; only if that leaves nothing does it cut inside a sentence.
   */
  lemma SelectedWordsAreLeading(t: Text, target: int, counts: Counter)
    requires counts.multiplier >= 1.0 && counts.CountsWords()
    ensures var k := TakenFrom(Sentences(t), [], target, counts);
            var taken := SelectFrom(Sentences(t), [], target, counts);
            && SelectedSentences(t, target, counts) == (if taken == [] then Truncated(t, target, counts) else taken)
            && Words(taken) == TotalWords(Sentences(t)[..k])
            && (k < |Sentences(t)| ==> Scaled(TotalWords(Sentences(t)[..k]) + Words(Sentences(t)[k]),
                                              counts.multiplier) > target)
  {
    hide Words, TotalWords, Scaled, SelectFrom, TakenFrom, Sentences;
    assert Words([]) == 0 by {
      WordsOfNothing();
    }
    SelectFromTakes(Sentences(t), [], target, counts);
  }

  // ----- The selected text itself -----

  /** Sentence terminators are not white space; the host's tables agree. */
  predicate VisibleTerminators(t: Text) {
    forall i | 0 <= i < |t| && EndsSentence(t[i]) :: !IsBlank(t[i])
  }

  function Trimmed(parts: seq<Text>): seq<Text> {
    seq(|parts|, i requires 0 <= i < |parts| => Trim(parts[i]))
  }

  /** The first `n` sentences, trimmed, with single spaces between them. */
  function Lead(sentences: seq<Text>, n: nat): Text
    requires n <= |sentences|
  {
    Join(Trimmed(sentences[..n]), [SPACE])
  }

  lemma TrimKeepsVisible(t: Text)
    requires t != [] && !IsBlank(t[|t| - 1])
    ensures Trim(t) != []
  {
    var r := TrimStart(t);
    assert t[..|t|] == t && !AllBlank(t);
    assert r[|r| - 1] == t[|t| - 1];
  }

  lemma {:induction false} FirstSentenceIsVisible(t: Text)
    requires VisibleTerminators(t) && |Sentences(t)| > 1
    ensures Trim(Sentences(t)[0]) != []
  {
    var n := SentenceLength(t);
    assert |Sentences(t)| == 1 + |Sentences(t[n..])|;
    assert t[n..] != [];
    TrimKeepsVisible(t[..n]);
  }

  lemma LeadExtends(sentences: seq<Text>, n: nat)
    requires n < |sentences| && (n > 0 ==> Trim(sentences[0]) != [])
    ensures Lead(sentences, n + 1) == Extend(Lead(sentences, n), sentences[n])
    ensures Lead(sentences, n) <= Lead(sentences, n + 1)
  {
    hide Trim;
    var parts, last := Trimmed(sentences[..n]), Trim(sentences[n]);
    assert Trimmed(sentences[..n + 1]) == parts + [last];
    assert Join([last], [SPACE]) == last;
    if n > 0 {
      assert parts[0] == Trim(sentences[0]);
      JoinOfConcat(parts, [last], [SPACE]);
      assert Join(parts, [SPACE]) != [];
    } else {
      assert parts + [last] == [last];
    }
  }

  lemma {:induction false} LeadGrows(sentences: seq<Text>, m: nat, n: nat)
    requires m <= n <= |sentences| && (|sentences| > 1 ==> Trim(sentences[0]) != [])
    ensures Lead(sentences, m) <= Lead(sentences, n)
    decreases n - m
  {
    hide Lead, Trim;
    if m < n {
      LeadExtends(sentences, m);
      LeadGrows(sentences, m + 1, n);
    }
  }

  lemma {:induction false} SelectFromLeads(sentences: seq<Text>, n: nat, target: int, counts: Counter)
    requires counts.multiplier >= 1.0 && n <= |sentences| && (|sentences| > 1 ==> Trim(sentences[0]) != [])
    ensures var k := n + TakenFrom(sentences[n..], Lead(sentences, n), target, counts);
            && SelectFrom(sentences[n..], Lead(sentences, n), target, counts) == Lead(sentences, k)
            && (n < k ==> counts.CountText(Lead(sentences, k)) <= target)
            && (k < |sentences| ==> counts.CountText(Lead(sentences, k + 1)) > target)
    decreases |sentences| - n
  {
    hide Lead, Trim, Extend;
    if n < |sentences| {
      LeadExtends(sentences, n);
      assert sentences[n..][0] == sentences[n] && sentences[n..][1..] == sentences[n + 1..];
      if counts.CountText(Lead(sentences, n + 1)) <= target {
        SelectFromLeads(sentences, n + 1, target, counts);
      }
    }
  }

  /**
   The extractive pass, under a built-in estimator: the text is the longest run of leading
   sentences that fits, trimmed and joined by single spaces, or a truncation if none does.
   */
  lemma SelectedSentencesAreLeading(t: Text, target: int, counts: Counter) returns (k: nat)
    requires counts.multiplier >= 1.0 && counts.external.None? && target >= 0 && VisibleTerminators(t)
    ensures k <= |Sentences(t)|
    ensures forall j: nat | j <= |Sentences(t)| :: counts.CountText(Lead(Sentences(t), j)) <= target <==> j <= k
    ensures var taken := Lead(Sentences(t), k);
            SelectedSentences(t, target, counts) == if taken == [] then Truncated(t, target, counts) else taken
  {
    var sentences := Sentences(t);
    if |sentences| > 1 {
      FirstSentenceIsVisible(t);
    }
    NothingLeads(sentences);
    hide Lead, Trim, Extend, Sentences, VisibleTerminators, SelectFrom, TakenFrom, Truncated;
    assert sentences[0..] == sentences;
    SelectFromLeads(sentences, 0, target, counts);
    CountOfEmpty(counts);
    k := TakenFrom(sentences, [], target, counts);
    forall j: nat | j <= |sentences| ensures counts.CountText(Lead(sentences, j)) <= target <==> j <= k {
      LeadFitsIff(sentences, target, counts, k, j);
    }
  }

  lemma LeadFitsIff(sentences: seq<Text>, target: int, counts: Counter, k: nat, j: nat)
    requires counts.multiplier >= 1.0 && counts.external.None? && k <= |sentences| && j <= |sentences|
    requires |sentences| > 1 ==> Trim(sentences[0]) != []
    requires counts.CountText(Lead(sentences, k)) <= target
    requires k < |sentences| ==> counts.CountText(Lead(sentences, k + 1)) > target
    ensures counts.CountText(Lead(sentences, j)) <= target <==> j <= k
  {
    hide *;
    if j <= k {
      LeadGrows(sentences, j, k);
      CountOfPrefix(Lead(sentences, j), Lead(sentences, k), counts);
    } else {
      LeadGrows(sentences, k + 1, j);
      CountOfPrefix(Lead(sentences, k + 1), Lead(sentences, j), counts);
    }
  }

  lemma NothingLeads(sentences: seq<Text>)
    ensures Lead(sentences, 0) == []
  {
  }
}
