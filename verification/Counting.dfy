/** Token counting: the two built-in estimators, calibrated by a multiplier, and host counters. */
module Counting {
  import opened Basics
  import opened Texts

  datatype Estimator = WordEstimator | CharEstimator

  /** What one prepare counts with. A host counter returns a negative number when it fails. */
  datatype Counter = Counter(external: Option<Text -> int>, estimator: Estimator, multiplier: real) {

    function RawCount(t: Text): int {
      match external
      case Some(count) => count(t)
      case None => Estimate(t, estimator)
    }

    function CountText(t: Text): (n: nat)
      requires multiplier >= 1.0
    {
      var raw := RawCount(t);
      if raw < 0 then 0
      else if external.Some? then raw
      else Scaled(raw, multiplier)
    }

    /** A built-in estimate by words: the default when the host supplies no counter. */
    predicate CountsWords() {
      external.None? && estimator.WordEstimator?
    }

    predicate CountsCharacters() {
      external.None? && estimator.CharEstimator?
    }
  }

  /** A raw count under a calibration multiplier, rounded up. */
  function Scaled(raw: nat, m: real): (n: nat)
    requires m >= 1.0
    ensures n >= raw
  {
    ScaleMonotone(1.0, m, raw as real);
    assert 1.0 * raw as real == raw as real && m * raw as real == raw as real * m;
    CeilMonotone(raw as real, raw as real * m);
    Ceil(raw as real * m)
  }

  lemma ScaledMonotone(a: nat, b: nat, m: real)
    requires m >= 1.0 && a <= b
    ensures Scaled(a, m) <= Scaled(b, m)
  {
    ScaleMonotone(a as real, b as real, m);
    CeilMonotone(a as real * m, b as real * m);
  }

  lemma ScaledSubadditive(a: nat, b: nat, m: real)
    requires m >= 1.0
    ensures Scaled(a + b, m) <= Scaled(a, m) + Scaled(b, m)
  {
    assert (a + b) as real * m == a as real * m + b as real * m;
    CeilSubadditive(a as real * m, b as real * m);
  }

  lemma ScaledByOne(a: nat)
    ensures Scaled(a, 1.0) == a
  {
    assert a as real * 1.0 == a as real;
  }

  lemma ScaledZero(m: real)
    requires m >= 1.0
    ensures Scaled(0, m) == 0
  {
    assert 0.0 * m == 0.0;
  }

  /** A counter as a prepare builds it: the safety multiplier is never below one. */
  type Calibrated = c: Counter | c.multiplier >= 1.0 witness Counter(None, WordEstimator, 1.0)

  /** A host's count stands as it is, whatever the multiplier; a failed one stands for nothing. */
  lemma HostCountsStand(counts: Calibrated, t: Text)
    requires counts.external.Some?
    ensures var answer := counts.external.value(t); counts.CountText(t) == if answer >= 0 then answer else 0
  {
  }

  // ----- The character estimator -----

  predicate IsCjk(c: Letter) {
    || 0x3400 <= c.code <= 0x4DBF
    || 0x4E00 <= c.code <= 0x9FFF
    || 0x3000 <= c.code <= 0x30FF
    || 0xFF00 <= c.code <= 0xFFEF
    || 0xAC00 <= c.code <= 0xD7AF
  }

  function Utf16Length(c: Letter): nat {
    if c.code < 0x1_0000 then 1 else 2
  }

  function Cjk(t: Text): nat {
    if t == [] then 0 else (if IsCjk(t[0]) then 1 else 0) + Cjk(t[1..])
  }

  function Other(t: Text): nat {
    if t == [] then 0 else (if IsCjk(t[0]) then 0 else Utf16Length(t[0])) + Other(t[1..])
  }

  /** One token per CJK character, one per four UTF-16 units of the rest, rounded up. */
  function CharTokens(t: Text): nat {
    Cjk(t) + (Other(t) + 3) / 4
  }

  function Estimate(t: Text, estimator: Estimator): nat {
    match estimator
    case WordEstimator => Words(t)
    case CharEstimator => CharTokens(t)
  }

  method CountCharEstimator(t: Text) returns (tokens: nat)
    ensures tokens == CharTokens(t)
  {
    var cjk, other := 0, 0;
    for i := 0 to |t|
      invariant Cjk(t) == cjk + Cjk(t[i..])
      invariant Other(t) == other + Other(t[i..])
    {
      assert t[i..][1..] == t[i + 1..];
      if IsCjk(t[i]) {
        cjk := cjk + 1;
      } else {
        other := other + Utf16Length(t[i]);
      }
    }
    tokens := cjk + (other + 3) / 4;
  }

  lemma {:induction false} CharsOfConcat(a: Text, b: Text)
    ensures Cjk(a + b) == Cjk(a) + Cjk(b)
    ensures Other(a + b) == Other(a) + Other(b)
  {
    if a == [] {
      assert a + b == b;
    } else {
      assert (a + b)[1..] == a[1..] + b;
      CharsOfConcat(a[1..], b);
    }
  }

  /** What one character is worth: a token of its own in the CJK blocks, else a quarter per UTF-16 unit. */
  lemma CharacterCosts(c: Letter)
    ensures var inBlock := 0x3400 <= c.code <= 0x4DBF || 0x4E00 <= c.code <= 0x9FFF || 0x3000 <= c.code <= 0x30FF
                           || 0xFF00 <= c.code <= 0xFFEF || 0xAC00 <= c.code <= 0xD7AF;
            && Cjk([c]) == (if inBlock then 1 else 0)
            && Other([c]) == (if inBlock then 0 else if c.code >= 0x1_0000 then 2 else 1)
  {
    var t := [c];
    assert t[0] == c && t[1..] == [];
    assert Cjk(t[1..]) == 0 && Other(t[1..]) == 0;
  }

  lemma QuartersRoundUp(t: Text)
    ensures Other(t) <= 4 * (CharTokens(t) - Cjk(t)) < Other(t) + 4
  {
  }

  // ----- Laws shared by the estimators -----

  /** Built-in counts never drop when text is appended, whatever the multiplier. */
  lemma EstimateOfPrefix(a: Text, b: Text, estimator: Estimator)
    ensures Estimate(a, estimator) <= Estimate(a + b, estimator)
  {
    match estimator
    case WordEstimator => WordsOfPrefix(a, b);
    case CharEstimator => CharsOfConcat(a, b);
  }

  lemma CountFollowsEstimate(a: Text, b: Text, counts: Counter)
    requires counts.multiplier >= 1.0 && counts.external.None?
    requires Estimate(a, counts.estimator) <= Estimate(b, counts.estimator)
    ensures counts.CountText(a) <= counts.CountText(b)
  {
    ScaledMonotone(counts.RawCount(a), counts.RawCount(b), counts.multiplier);
  }

  lemma CountOfEmpty(counts: Counter)
    requires counts.multiplier >= 1.0 && counts.external.None?
    ensures counts.CountText([]) == 0
  {
    ScaledZero(counts.multiplier);
  }

  /** A prefix of a text never counts more than the text. */
  lemma CountOfPrefix(a: Text, b: Text, counts: Counter)
    requires counts.multiplier >= 1.0 && counts.external.None?
    requires a <= b
    ensures counts.CountText(a) <= counts.CountText(b)
  {
    EstimateOfPrefix(a, b[|a|..], counts.estimator);
    assert a + b[|a|..] == b;
    CountFollowsEstimate(a, b, counts);
  }
}
