/**
 Host-side truncation in Python: a binary search for the longest fitting prefix (or suffix) under
 any token counter, then a rollback to a word boundary.
 */
module PythonTruncation {
  import opened Texts

  type TokenCount = Text -> int

  datatype Keep = Head | Tail

  /** Python slices: `text[:n]`, and `text[-n:]`, where a zero `n` keeps everything. */
  function Part(text: Text, n: nat, keep: Keep): Text
    requires n <= |text|
  {
    match keep
    case Head => text[..n]
    case Tail => if n == 0 then text else text[|text| - n..]
  }

  ghost predicate PrefixMonotone(count: TokenCount) {
    forall a: Text, b: Text | a <= b :: count(a) <= count(b)
  }

  ghost predicate SuffixMonotone(count: TokenCount) {
    forall a: Text, k: nat | k <= |a| :: count(a[k..]) <= count(a)
  }

  /** Longer parts never count less, from one character on. */
  ghost predicate PartsGrow(text: Text, keep: Keep, count: TokenCount) {
    forall m: nat, n: nat | 1 <= m <= n <= |text| :: count(Part(text, m, keep)) <= count(Part(text, n, keep))
  }

  /** The linear scan: the longest part, of at least `n` characters, before the first that fails. */
  function ScanFit(text: Text, target: int, keep: Keep, count: TokenCount, n: nat): (k: nat)
    requires n <= |text|
    ensures n <= k <= |text|
    decreases |text| - n
  {
    if n < |text| && count(Part(text, n + 1, keep)) <= target then ScanFit(text, target, keep, count, n + 1) else n
  }

  lemma {:induction false} ScanFitIs(text: Text, target: int, keep: Keep, count: TokenCount, n: nat, k: nat)
    requires n <= k <= |text|
    requires forall j: nat | n < j <= k :: count(Part(text, j, keep)) <= target
    requires k < |text| ==> count(Part(text, k + 1, keep)) > target
    ensures ScanFit(text, target, keep, count, n) == k
    decreases k - n
  {
    if n < k {
      ScanFitIs(text, target, keep, count, n + 1, k);
    }
  }

  lemma GrowingPartsScan(text: Text, target: int, keep: Keep, count: TokenCount, k: nat)
    requires PartsGrow(text, keep, count) && k <= |text|
    requires k > 0 ==> count(Part(text, k, keep)) <= target
    requires k < |text| ==> count(Part(text, k + 1, keep)) > target
    ensures ScanFit(text, target, keep, count, 0) == k
  {
    forall j: nat | 0 < j <= k ensures count(Part(text, j, keep)) <= target {
      assert count(Part(text, j, keep)) <= count(Part(text, k, keep));
    }
    ScanFitIs(text, target, keep, count, 0, k);
  }

  /**
   The binary search stops, under any counter, at a part that fits while one character more does
   not; when longer parts never count less, that is what the linear scan finds.
   */
  method SearchFit(text: Text, target: int, keep: Keep, count: TokenCount) returns (low: nat)
    ensures low <= |text|
    ensures low > 0 ==> count(Part(text, low, keep)) <= target
    ensures low < |text| ==> count(Part(text, low + 1, keep)) > target
    ensures PartsGrow(text, keep, count) ==> low == ScanFit(text, target, keep, count, 0)
  {
    var high: nat := |text|;
    low := 0;
    while low < high
      invariant low <= high <= |text|
      invariant low > 0 ==> count(Part(text, low, keep)) <= target
      invariant high < |text| ==> count(Part(text, high + 1, keep)) > target
    {
      var mid := (low + high + 1) / 2;
      if count(Part(text, mid, keep)) <= target {
        low := mid;
      } else {
        high := mid - 1;
      }
    }
    if PartsGrow(text, keep, count) {
      GrowingPartsScan(text, target, keep, count, low);
    }
  }

  /** The last position of a space or newline, or -1. */
  function LastBoundary(t: Text): (k: int)
    ensures -1 <= k < |t|
  {
    if t == [] then -1
    else if t[|t| - 1] == SPACE || t[|t| - 1] == NEWLINE then |t| - 1
    else LastBoundary(t[..|t| - 1])
  }

  function FirstBlank(t: Text): (k: nat)
    ensures k <= |t|
    ensures k < |t| ==> IsBlank(t[k])
    ensures forall i | 0 <= i < k :: !IsBlank(t[i])
  {
    if t == [] || IsBlank(t[0]) then 0 else 1 + FirstBlank(t[1..])
  }

  function RolledBack(candidate: Text, keep: Keep): Text {
    match keep
    case Tail => if FirstBlank(candidate) < |candidate| then candidate[FirstBlank(candidate) + 1..] else candidate
    case Head => if LastBoundary(candidate) > |candidate| / 2 then candidate[..LastBoundary(candidate)] else candidate
  }

  predicate IsBoundary(c: Letter) {
    c == SPACE || c == NEWLINE
  }

  /**
   The result against the part of `n` characters it was cut from. A head ends before the last space
   or newline of its part's second half, if there is one; a tail starts after the part's first blank.
   */
  ghost predicate EndsAtWord(text: Text, n: nat, keep: Keep, r: Text)
    requires n <= |text|
  {
    match keep
    case Head =>
      && |r| <= n && r == text[..|r|]
      && (|r| < n ==> 2 * |r| > n && IsBoundary(text[|r|]))
      && (forall i | |r| < i < n && 2 * i > n :: !IsBoundary(text[i]))
      && (|r| == n ==> forall i | 0 <= i < n && 2 * i > n :: !IsBoundary(text[i]))
    case Tail =>
      var part := if n == 0 then text else text[|text| - n..];
      if forall i | 0 <= i < |part| :: !IsBlank(part[i]) then r == part
      else exists word: Text, gap: Letter ::
             part == word + [gap] + r && IsBlank(gap) && forall i | 0 <= i < |word| :: !IsBlank(word[i])
  }

  lemma {:induction false} LastBoundaryIsLast(t: Text)
    ensures var k := LastBoundary(t);
            && (k >= 0 ==> IsBoundary(t[k]))
            && forall i | k < i < |t| :: !IsBoundary(t[i])
  {
    if t != [] && !IsBoundary(t[|t| - 1]) {
      LastBoundaryIsLast(t[..|t| - 1]);
    }
  }

  lemma RollingBackEndsAtWord(text: Text, n: nat, keep: Keep)
    requires n <= |text|
    ensures EndsAtWord(text, n, keep, RolledBack(Part(text, n, keep), keep))
  {
    var part := Part(text, n, keep);
    var r := RolledBack(part, keep);
    match keep {
      case Head =>
        LastBoundaryIsLast(part);
        var k := LastBoundary(part);
        assert 2 * k > n <==> k > n / 2;
        assert forall i | 0 <= i < n :: part[i] == text[i];
      case Tail =>
        var k := FirstBlank(part);
        if k < |part| {
          assert part == part[..k] + [part[k]] + r;
        }
    }
  }

  /** The outcome when the text is too long: the longest fitting part, rolled back to a word. */
  function Result(text: Text, target: int, count: TokenCount, keep: Keep): Text {
    RolledBack(Part(text, ScanFit(text, target, keep, count, 0), keep), keep)
  }

  lemma {:induction false} ScanFitFits(text: Text, target: int, keep: Keep, count: TokenCount, n: nat)
    requires n <= |text| && (n > 0 ==> count(Part(text, n, keep)) <= target)
    ensures var k := ScanFit(text, target, keep, count, n);
            && (k > 0 ==> count(Part(text, k, keep)) <= target)
            && (k < |text| ==> count(Part(text, k + 1, keep)) > target)
    decreases |text| - n
  {
    hide Part;
    if n < |text| && count(Part(text, n + 1, keep)) <= target {
      ScanFitFits(text, target, keep, count, n + 1);
    }
  }

  lemma PrefixMonotoneParts(text: Text, count: TokenCount)
    requires PrefixMonotone(count)
    ensures PartsGrow(text, Head, count)
  {
    forall m: nat, n: nat | 1 <= m <= n <= |text| ensures count(Part(text, m, Head)) <= count(Part(text, n, Head)) {
      assert text[..m] <= text[..n];
    }
  }

  lemma SuffixMonotoneParts(text: Text, count: TokenCount)
    requires SuffixMonotone(count)
    ensures PartsGrow(text, Tail, count)
  {
    forall m: nat, n: nat | 1 <= m <= n <= |text| ensures count(Part(text, m, Tail)) <= count(Part(text, n, Tail)) {
      var t := text[|text| - n..];
      assert t[n - m..] == text[|text| - m..];
    }
  }

  /** Keeping the head always fits, and before the rollback it is the longest prefix that does. */
  lemma HeadFits(text: Text, target: int, count: TokenCount)
    requires PrefixMonotone(count) && count([]) <= target
    ensures count(Result(text, target, count, Head)) <= target
    ensures forall n: nat | n <= |text| ::
              count(text[..n]) <= target <==> n <= ScanFit(text, target, Head, count, 0)
  {
    var k := ScanFit(text, target, Head, count, 0);
    ScanFitFits(text, target, Head, count, 0);
    assert Result(text, target, count, Head) <= text[..k];
    assert text[..0] == [];
    forall n: nat | n <= |text| ensures count(text[..n]) <= target <==> n <= k {
      if n <= k {
        assert text[..n] <= text[..k];
      } else {
        assert text[..k + 1] <= text[..n];
      }
    }
  }

  /** The last character of a text fits alone, or is also its first blank. */
  predicate EndsLightly(text: Text, target: int, count: TokenCount) {
    text != [] && (count(text[|text| - 1..]) <= target || FirstBlank(text) == |text| - 1)
  }

  /**
   Keeping the tail of a text that is too long fits exactly when its last character fits alone, or
   that character is also its first blank: otherwise the search ends at zero characters, and a
   slice of the last zero characters is the whole text.
   */
  lemma TailFitsIff(text: Text, target: int, count: TokenCount)
    requires SuffixMonotone(count) && count([]) <= target && count(text) > target
    ensures count(Result(text, target, count, Tail)) <= target
            <==> EndsLightly(text, target, count)
  {
    assert text != [];
    var last := text[|text| - 1..];
    var k := ScanFit(text, target, Tail, count, 0);
    ScanFitFits(text, target, Tail, count, 0);
    assert Part(text, 1, Tail) == last;
    var candidate := Part(text, k, Tail);
    var r := Result(text, target, count, Tail);
    var cut := |candidate| - |r|;
    assert r == candidate[cut..];
    if count(last) <= target {
      assert k > 0;
    } else {
      assert k == 0 && candidate == text;
      if r != [] {
        assert r[|r| - 1..] == last;
        assert count(r[|r| - 1..]) <= count(r);
      }
    }
  }

  /** The whole truncation: nothing for no budget, the text if it fits, else the fitting part. */
  method TruncateTextToTokens(text: Text, target: int, count: TokenCount, keep: Keep) returns (r: Text)
    ensures target <= 0 ==> r == []
    ensures target > 0 && count(text) <= target ==> r == text
    ensures target > 0 && count(text) > target && PartsGrow(text, keep, count) ==>
              r == Result(text, target, count, keep)
    ensures target > 0 && count(text) > target ==>
              exists n: nat | n <= |text| ::
                && r == RolledBack(Part(text, n, keep), keep) && (n > 0 ==> count(Part(text, n, keep)) <= target)
                && EndsAtWord(text, n, keep, r)
    ensures keep == Head && PrefixMonotone(count) && count([]) <= target ==> count(r) <= target
    ensures keep == Tail && SuffixMonotone(count) && count([]) <= target ==>
              (count(r) <= target <==> target <= 0 || count(text) <= target || EndsLightly(text, target, count))
  {
    if target <= 0 {
      return [];
    }
    if count(text) <= target {
      return text;
    }
    var low := SearchFit(text, target, keep, count);
    r := RolledBack(Part(text, low, keep), keep);
    RollingBackEndsAtWord(text, low, keep);
    hide EndsAtWord, LastBoundary;
    if keep == Head && PrefixMonotone(count) && count([]) <= target {
      PrefixMonotoneParts(text, count);
      HeadFits(text, target, count);
    }
    if keep == Tail && SuffixMonotone(count) && count([]) <= target {
      SuffixMonotoneParts(text, count);
      TailFitsIff(text, target, count);
    }
  }

  // ----- Which counters the tail is safe for -----

  /** Cutting to a tail meets the target on every text exactly when no single character exceeds it. */
  lemma TailIsSafeIff(target: int, count: TokenCount)
    requires SuffixMonotone(count) && count([]) <= target
    ensures (forall text: Text | count(text) > target :: count(Result(text, target, count, Tail)) <= target)
            <==> forall c: Letter :: count([c]) <= target
  {
    if forall c: Letter :: count([c]) <= target {
      forall text: Text | count(text) > target ensures count(Result(text, target, count, Tail)) <= target {
        TailFitsIff(text, target, count);
        assert text[|text| - 1..] == [text[|text| - 1]];
      }
    } else {
      var c: Letter :| count([c]) > target;
      HeavyCharacterOverflows(c, target, count);
    }
  }

  /** Twice a character that exceeds the target alone: the tail comes out over the target. */
  lemma HeavyCharacterOverflows(c: Letter, target: int, count: TokenCount)
    requires SuffixMonotone(count) && count([]) <= target && count([c]) > target
    ensures count([c, c]) > target && count(Result([c, c], target, count, Tail)) > target
  {
    var text := [c, c];
    assert text[1..] == [c];
    assert count(text[1..]) <= count(text);
    TailFitsIff(text, target, count);
  }

  /** The repository's own counters: tokens of the word pattern, and characters. */
  function CountsPattern(): TokenCount {
    (t: Text) => Words(t)
  }

  function CountsCharacters(): TokenCount {
    (t: Text) => |t|
  }

  lemma WordsOfSuffix(t: Text, k: nat)
    requires k <= |t|
    ensures Words(t[k..]) <= Words(t)
  {
    var head, rest := t[..k], t[k..];
    assert t == head + rest;
    ScanOfConcat(head, rest, false);
    ScanFromWord(rest);
    if EndsInWord(head, false) {
      var init := head[..k - 1];
      assert head == init + [head[k - 1]];
      ScanOfConcat(init, [head[k - 1]], false);
      WordThenScan(init, head[k - 1]);
    }
  }

  lemma {:induction false} WordThenScan(init: Text, c: Letter)
    requires IsWord(c)
    ensures Words(init + [c]) >= 1
  {
    ScanOfConcat(init, [c], false);
    if init != [] {
      var n := |init| - 1;
      assert init == init[..n] + [init[n]];
      if IsWord(init[n]) {
        WordThenScan(init[..n], init[n]);
      }
    }
    assert [c][1..] == [];
  }

  lemma OneLetterCounts(c: Letter)
    ensures Words([c]) <= 1
  {
    assert [c][0] == c && [c][1..] == [];
    assert Scan([c][1..], IsWord(c)) == 0;
  }

  /** Both meet every premise above, and cost at most one token a character. */
  lemma OwnCountersAreMonotone()
    ensures PrefixMonotone(CountsPattern()) && SuffixMonotone(CountsPattern()) && CountsPattern()([]) == 0
    ensures PrefixMonotone(CountsCharacters()) && SuffixMonotone(CountsCharacters()) && CountsCharacters()([]) == 0
    ensures forall c: Letter :: CountsPattern()([c]) <= 1 && CountsCharacters()([c]) <= 1
  {
    forall a: Text, b: Text | a <= b ensures CountsPattern()(a) <= CountsPattern()(b) {
      WordsOfPrefix(a, b[|a|..]);
      assert a + b[|a|..] == b;
    }
    forall a: Text, k: nat | k <= |a| ensures CountsPattern()(a[k..]) <= CountsPattern()(a) {
      WordsOfSuffix(a, k);
    }
    forall c: Letter ensures CountsPattern()([c]) <= 1 {
      OneLetterCounts(c);
    }
  }

  /** With its own counters the repository's truncation meets every positive target, head or tail. */
  lemma OwnCountersMeetTarget(text: Text, target: int, keep: Keep, count: TokenCount)
    requires target > 0 && count(text) > target && (count == CountsPattern() || count == CountsCharacters())
    ensures count(Result(text, target, count, keep)) <= target
  {
    OwnCountersAreMonotone();
    hide CountsPattern, CountsCharacters;
    match keep
    case Head => HeadFits(text, target, count);
    case Tail =>
      assert count([]) <= target && forall c: Letter :: count([c]) <= target;
      TailIsSafeIff(target, count);
  }

  /** A counter of two tokens a character, as byte-level tokenizers charge for some characters. */
  function CountsPairs(): TokenCount {
    (t: Text) => 2 * |t|
  }

  /** Such a counter misses a target of one. */
  lemma PairsOverflow(c: Letter)
    ensures SuffixMonotone(CountsPairs()) && CountsPairs()([]) == 0
    ensures CountsPairs()(Result([c, c], 1, CountsPairs(), Tail)) > 1
  {
    assert SuffixMonotone(CountsPairs());
    HeavyCharacterOverflows(c, 1, CountsPairs());
  }
}
