/**
 Text as the kernel sees it: a sequence of characters, each a code point with the class the
 host's Unicode tables give it. Word counting, trimming, splitting and joining.
 */
module Texts {
  /** Alphanumerics and '_' are word characters; the remaining characters are blank or symbols. */
  datatype Kind = WordChar | Blank | Symbol

  /** Any classification of code points is allowed: a theorem over all texts covers the real one. */
  datatype Letter = Letter(code: nat, kind: Kind)

  type Text = seq<Letter>

  const NEWLINE := Letter(0x0A, Blank)
  const SPACE := Letter(0x20, Blank)
  const BREAK: Text := [NEWLINE, NEWLINE]

  predicate IsWord(c: Letter) {
    c.kind == WordChar
  }

  predicate IsBlank(c: Letter) {
    c.kind == Blank
  }

  predicate AllBlank(t: Text) {
    forall i :: 0 <= i < |t| ==> IsBlank(t[i])
  }

  /** A number in decimal digits. */
  function Decimal(n: nat): Text {
    (if n < 10 then [] else Decimal(n / 10)) + [Letter(0x30 + n % 10, WordChar)]
  }

  /** What a row of decimal digits denotes. */
  function Reading(digits: Text): int {
    if digits == [] then 0 else 10 * Reading(digits[..|digits| - 1]) + digits[|digits| - 1].code - 0x30
  }

  predicate AllDigits(t: Text) {
    forall i | 0 <= i < |t| :: 0x30 <= t[i].code <= 0x39
  }

  /** A number's decimal text is digits that read back as the number. */
  lemma {:induction false} DecimalReadsBack(n: nat)
    ensures Decimal(n) != [] && AllDigits(Decimal(n)) && Reading(Decimal(n)) == n
    decreases n
  {
    var t := Decimal(n);
    if n >= 10 {
      DecimalReadsBack(n / 10);
      assert t[..|t| - 1] == Decimal(n / 10);
    } else {
      assert t[..|t| - 1] == [];
    }
  }

  // ----- The counting automaton -----

  /** Does `c` open a token, given whether the automaton is inside a word? */
  predicate Opens(c: Letter, inWord: bool) {
    (IsWord(c) && !inWord) || c.kind == Symbol
  }

  function Scan(t: Text, inWord: bool): nat {
    if t == [] then 0
    else (if Opens(t[0], inWord) then 1 else 0) + Scan(t[1..], IsWord(t[0]))
  }

  function Words(t: Text): nat {
    Scan(t, false)
  }

  /** The automaton's state after reading `t`. */
  predicate EndsInWord(t: Text, inWord: bool) {
    if t == [] then inWord else IsWord(t[|t| - 1])
  }

  method CountText(t: Text) returns (tokens: nat)
    ensures tokens == Words(t)
  {
    tokens := 0;
    var inWord := false;
    for i := 0 to |t|
      invariant Words(t) == tokens + Scan(t[i..], inWord)
    {
      assert t[i..][1..] == t[i + 1..];
      var word := IsWord(t[i]);
      if (word && !inWord) || (!word && !IsBlank(t[i])) {
        tokens := tokens + 1;
      }
      inWord := word;
    }
  }

  lemma {:induction false} ScanOfConcat(a: Text, b: Text, inWord: bool)
    ensures Scan(a + b, inWord) == Scan(a, inWord) + Scan(b, EndsInWord(a, inWord))
  {
    if a == [] {
      assert a + b == b;
    } else {
      assert (a + b)[1..] == a[1..] + b;
      ScanOfConcat(a[1..], b, IsWord(a[0]));
    }
  }

  lemma ScanFromWord(t: Text)
    ensures Scan(t, true) <= Scan(t, false) <= Scan(t, true) + 1
  {
  }

  lemma {:induction false} BlankScan(t: Text, inWord: bool)
    requires AllBlank(t)
    ensures Scan(t, inWord) == 0
    ensures t != [] ==> !EndsInWord(t, inWord)
  {
    if t != [] {
      BlankScan(t[1..], false);
    }
  }

  /** Counts never drop when text is appended. */
  lemma WordsOfPrefix(a: Text, b: Text)
    ensures Words(a) <= Words(a + b)
  {
    ScanOfConcat(a, b, false);
  }

  lemma WordsOfConcat(a: Text, b: Text)
    ensures Words(a + b) <= Words(a) + Words(b)
    ensures !EndsInWord(a, false) || b == [] || !IsWord(b[0]) ==> Words(a + b) == Words(a) + Words(b)
  {
    ScanOfConcat(a, b, false);
    ScanFromWord(b);
  }

  /** Joining with blanks adds the counts: nothing merges across the separator. */
  lemma WordsAcrossBlanks(a: Text, gap: Text, b: Text)
    requires AllBlank(gap) && gap != []
    ensures Words(a + gap + b) == Words(a) + Words(b)
  {
    BlankScan(gap, EndsInWord(a, false));
    BlankScan(gap, false);
    ScanOfConcat(a, gap, false);
    ScanOfConcat(a + gap, b, false);
  }

  // ----- The declarative token definition: \w+ | [^\w\s] -----

  /** Length of the longest run of word characters at the front of `t`. */
  function WordRun(t: Text): (n: nat)
    ensures n <= |t|
    ensures forall i :: 0 <= i < n ==> IsWord(t[i])
    ensures n < |t| ==> !IsWord(t[n])
  {
    if t == [] || !IsWord(t[0]) then 0 else 1 + WordRun(t[1..])
  }

  /** The non-overlapping leftmost-longest matches of `\w+|[^\w\s]`, in order. */
  function Tokens(t: Text): seq<Text>
    decreases |t|
  {
    if t == [] then []
    else if IsWord(t[0]) then [t[..WordRun(t)]] + Tokens(t[WordRun(t)..])
    else if t[0].kind == Symbol then [t[..1]] + Tokens(t[1..])
    else Tokens(t[1..])
  }

  lemma {:induction false} WordRunScan(t: Text)
    ensures Scan(t, true) == Scan(t[WordRun(t)..], true)
  {
    if t == [] || !IsWord(t[0]) {
      assert t[0..] == t;
    } else {
      WordRunScan(t[1..]);
      assert t[1..][WordRun(t[1..])..] == t[WordRun(t)..];
    }
  }

  /** The automaton counts exactly the tokens of the pattern. */
  lemma {:induction false} WordsCountsTokens(t: Text)
    ensures Words(t) == |Tokens(t)|
    decreases |t|
  {
    if t == [] {
    } else if IsWord(t[0]) {
      var n := WordRun(t);
      WordRunScan(t);
      assert Scan(t, false) == 1 + Scan(t[1..], true) == 1 + Scan(t, true);
      var rest := t[n..];
      assert Scan(rest, true) == Scan(rest, false);
      WordsCountsTokens(rest);
    } else {
      WordsCountsTokens(t[1..]);
    }
  }

  // ----- Trimming -----

  function TrimEnd(t: Text): (r: Text)
    ensures r <= t && AllBlank(t[|r|..])
    ensures r != [] ==> !IsBlank(r[|r| - 1])
  {
    if t == [] then []
    else if IsBlank(t[|t| - 1]) then TrimEnd(t[..|t| - 1])
    else t
  }

  function TrimStart(t: Text): (r: Text)
    ensures |r| <= |t| && r == t[|t| - |r|..] && AllBlank(t[..|t| - |r|])
    ensures r != [] ==> !IsBlank(r[0])
  {
    if t == [] then []
    else if IsBlank(t[0]) then TrimStart(t[1..])
    else t
  }

  function Trim(t: Text): Text {
    TrimEnd(TrimStart(t))
  }

  lemma WordsOfTrimEnd(t: Text)
    ensures Words(TrimEnd(t)) == Words(t)
  {
    var r := TrimEnd(t);
    assert t == r + t[|r|..];
    BlankScan(t[|r|..], EndsInWord(r, false));
    ScanOfConcat(r, t[|r|..], false);
  }

  lemma WordsOfTrim(t: Text)
    ensures Words(Trim(t)) == Words(t)
  {
    var r := TrimStart(t);
    var lead := t[..|t| - |r|];
    assert t == lead + r;
    BlankScan(lead, false);
    ScanOfConcat(lead, r, false);
    WordsOfTrimEnd(r);
  }

  // ----- Joining and searching -----

  function Join(parts: seq<Text>, sep: Text): Text {
    if parts == [] then []
    else if |parts| == 1 then parts[0]
    else parts[0] + sep + Join(parts[1..], sep)
  }

  function TotalWords(parts: seq<Text>): nat {
    if parts == [] then 0 else Words(parts[0]) + TotalWords(parts[1..])
  }

  lemma {:induction false} WordsOfJoin(parts: seq<Text>, sep: Text)
    requires AllBlank(sep) && sep != []
    ensures Words(Join(parts, sep)) == TotalWords(parts)
  {
    if |parts| == 1 {
      assert TotalWords(parts[1..]) == 0;
    } else if |parts| > 1 {
      WordsOfJoin(parts[1..], sep);
      WordsAcrossBlanks(parts[0], sep, Join(parts[1..], sep));
    }
  }

  lemma {:induction false} JoinOfConcat(a: seq<Text>, b: seq<Text>, sep: Text)
    requires a != [] && b != []
    ensures Join(a + b, sep) == Join(a, sep) + sep + Join(b, sep)
  {
    assert (a + b)[1..] == a[1..] + b;
    if |a| > 1 {
      JoinOfConcat(a[1..], b, sep);
      var rest, last := Join(a[1..], sep), Join(b, sep);
      assert a[0] + sep + (rest + sep + last) == a[0] + sep + rest + sep + last;
    } else {
      assert a[1..] + b == b;
    }
  }

  predicate OccursAt(t: Text, term: Text, i: nat) {
    i + |term| <= |t| && t[i..i + |term|] == term
  }

  predicate Contains(t: Text, term: Text) {
    exists i | 0 <= i <= |t| :: OccursAt(t, term, i)
  }

  predicate ContainsAll(t: Text, terms: set<Text>) {
    forall term | term in terms :: Contains(t, term)
  }

  predicate BreakAt(t: Text, i: nat) {
    i + 1 < |t| && t[i] == NEWLINE && t[i + 1] == NEWLINE
  }

  /** Position of the first blank line break at or after `i`, or the length of the text. */
  function NextBreak(t: Text, i: nat): (k: nat)
    requires i <= |t|
    ensures i <= k <= |t|
    ensures k < |t| ==> BreakAt(t, k)
    ensures forall j :: i <= j < k ==> !BreakAt(t, j)
    decreases |t| - i
  {
    if i == |t| || BreakAt(t, i) then i else NextBreak(t, i + 1)
  }
}
