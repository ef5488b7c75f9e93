/**
 The lossless text passes: whitespace normalisation and block deduplication, and the sentence
 split used by the extractive pass.
 */
module TextPasses {
  import opened Texts

  // ----- Whitespace normalisation -----

  /** Length of the longest run of non-blank characters at the front of `t`. */
  function FieldRun(t: Text): (n: nat)
    ensures n <= |t|
    ensures forall i :: 0 <= i < n ==> !IsBlank(t[i])
    ensures n < |t| ==> IsBlank(t[n])
  {
    if t == [] || IsBlank(t[0]) then 0 else 1 + FieldRun(t[1..])
  }

  predicate IsField(t: Text) {
    t != [] && forall i :: 0 <= i < |t| ==> !IsBlank(t[i])
  }

  /** The maximal runs of non-blank characters, in order. */
  function Fields(t: Text): (fields: seq<Text>)
    ensures forall f :: f in fields ==> IsField(f)
    decreases |t|
  {
    if t == [] then []
    else if IsBlank(t[0]) then Fields(t[1..])
    else [t[..FieldRun(t)]] + Fields(t[FieldRun(t)..])
  }

  function NormalizeWhitespace(t: Text): Text {
    Join(Fields(t), [SPACE])
  }

  lemma {:induction false} WordsOfFields(t: Text)
    ensures Words(t) == TotalWords(Fields(t))
    decreases |t|
  {
    if t == [] {
    } else if IsBlank(t[0]) {
      WordsOfFields(t[1..]);
    } else {
      var n := FieldRun(t);
      WordsOfFields(t[n..]);
      assert t == t[..n] + t[n..];
      WordsOfConcat(t[..n], t[n..]);
    }
  }

  /** Normalisation keeps the word count, so its guard never rejects it for the word estimator. */
  lemma NormalizeKeepsWords(t: Text)
    ensures Words(NormalizeWhitespace(t)) == Words(t)
  {
    WordsOfFields(t);
    WordsOfJoin(Fields(t), [SPACE]);
  }

  lemma FieldThenGap(f: Text, rest: Text)
    requires IsField(f) && (rest == [] || IsBlank(rest[0]))
    ensures Fields(f + rest) == [f] + Fields(rest)
  {
    var t := f + rest;
    var n := FieldRun(t);
    assert forall i :: 0 <= i < |f| ==> t[i] == f[i];
    assert rest != [] ==> t[|f|] == rest[0];
    assert n == |f|;
    assert t[..n] == f && t[n..] == rest;
  }

  lemma {:induction false} FieldsOfJoin(fields: seq<Text>)
    requires forall f :: f in fields ==> IsField(f)
    ensures Fields(Join(fields, [SPACE])) == fields
  {
    if |fields| == 1 {
      FieldThenGap(fields[0], []);
      assert fields[0] + [] == fields[0];
    } else if |fields| > 1 {
      var rest := [SPACE] + Join(fields[1..], [SPACE]);
      FieldsOfJoin(fields[1..]);
      FieldThenGap(fields[0], rest);
      assert rest[1..] == Join(fields[1..], [SPACE]);
      assert fields[0] + [SPACE] + Join(fields[1..], [SPACE]) == fields[0] + rest;
    }
  }

  /** Normalising twice is normalising once, and no two fields are lost or merged. */
  lemma NormalizeIsIdempotent(t: Text)
    ensures Fields(NormalizeWhitespace(t)) == Fields(t)
    ensures NormalizeWhitespace(NormalizeWhitespace(t)) == NormalizeWhitespace(t)
  {
    FieldsOfJoin(Fields(t));
  }

  // ----- Block deduplication -----

  /** The blocks between blank line breaks. */
  function Blocks(t: Text): (blocks: seq<Text>)
    ensures blocks != []
    decreases |t|
  {
    var k := NextBreak(t, 0);
    if k == |t| then [t] else [t[..k]] + Blocks(t[k + 2..])
  }

  /** Keeps the first block of each trimmed key. */
  function KeepFirst(blocks: seq<Text>, seen: set<Text>): seq<Text> {
    if blocks == [] then []
    else if Trim(blocks[0]) in seen then KeepFirst(blocks[1..], seen)
    else [blocks[0]] + KeepFirst(blocks[1..], seen + {Trim(blocks[0])})
  }

  function DeduplicateBlocks(t: Text): Text {
    Join(KeepFirst(Blocks(t), {}), BREAK)
  }

  predicate NoBreak(t: Text) {
    forall i: nat :: i < |t| ==> !BreakAt(t, i)
  }

  predicate EndsInNewline(t: Text) {
    t != [] && t[|t| - 1] == NEWLINE
  }

  /** What a split on blank lines can produce: no block holds a break, and only the last one may
      end in a newline, or else the break would have been found one character earlier. */
  predicate Separable(blocks: seq<Text>) {
    && (forall i :: 0 <= i < |blocks| ==> NoBreak(blocks[i]))
    && (forall i :: 0 <= i < |blocks| - 1 ==> !EndsInNewline(blocks[i]))
  }

  lemma FirstBlock(t: Text)
    requires NextBreak(t, 0) < |t|
    ensures var b := t[..NextBreak(t, 0)]; NoBreak(b) && !EndsInNewline(b)
  {
    var k := NextBreak(t, 0);
    var b := t[..k];
    forall i: nat | i < |b| ensures !BreakAt(b, i) {
      assert !BreakAt(t, i);
    }
    assert k > 0 ==> !BreakAt(t, k - 1);
  }

  lemma SeparableCons(b: Text, blocks: seq<Text>)
    requires NoBreak(b) && Separable(blocks)
    requires blocks != [] ==> !EndsInNewline(b)
    ensures Separable([b] + blocks)
  {
    var all := [b] + blocks;
    assert forall i :: 0 < i < |all| ==> all[i] == blocks[i - 1];
  }

  lemma {:induction false} BlocksAreSeparable(t: Text)
    ensures Separable(Blocks(t))
    decreases |t|
  {
    var k := NextBreak(t, 0);
    if k < |t| {
      BlocksAreSeparable(t[k + 2..]);
      FirstBlock(t);
      SeparableCons(t[..k], Blocks(t[k + 2..]));
    } else {
      assert NoBreak(t);
    }
  }

  /** The break after a block is the first one of the text. */
  lemma FirstBreak(b: Text, rest: Text)
    requires NoBreak(b) && !EndsInNewline(b)
    ensures var t := b + BREAK + rest;
            NextBreak(t, 0) == |b| && t[..|b|] == b && t[|b| + 2..] == rest
  {
    var t := b + BREAK + rest;
    assert BreakAt(t, |b|);
    forall j: nat | j < |b| ensures !BreakAt(t, j) {
      assert !BreakAt(b, j);
      assert t[j] == b[j];
    }
  }

  lemma {:induction false} BlocksOfJoin(blocks: seq<Text>)
    requires blocks != [] && Separable(blocks)
    ensures Blocks(Join(blocks, BREAK)) == blocks
  {
    if |blocks| == 1 {
      var t := blocks[0];
      assert NoBreak(t);
      assert NextBreak(t, 0) == |t|;
    } else {
      var rest := blocks[1..];
      BlocksOfJoin(rest);
      FirstBreak(blocks[0], Join(rest, BREAK));
      assert blocks == [blocks[0]] + rest;
    }
  }

  /** Keeping first occurrences keeps a separable list separable: the last block stays last. */
  lemma {:induction false} KeepFirstSeparable(blocks: seq<Text>, seen: set<Text>)
    requires Separable(blocks)
    ensures var kept := KeepFirst(blocks, seen);
            && Separable(kept)
            && (forall b :: b in kept ==> b in blocks)
            && (forall b :: b in kept ==> Trim(b) !in seen)
            && KeepFirst(kept, seen) == kept
            && TotalWords(kept) <= TotalWords(blocks)
    decreases blocks
  {
    if blocks != [] {
      var rest := blocks[1..];
      assert Separable(rest) by {
        assert forall i :: 0 <= i < |rest| ==> rest[i] == blocks[i + 1];
      }
      if Trim(blocks[0]) in seen {
        KeepFirstSeparable(rest, seen);
      } else {
        var more := seen + {Trim(blocks[0])};
        KeepFirstSeparable(rest, more);
        var tail := KeepFirst(rest, more);
        var kept := [blocks[0]] + tail;
        assert kept[1..] == tail;
        if tail != [] {
          assert tail[0] in rest;
        }
        SeparableCons(blocks[0], tail);
      }
    }
  }

  /** Every trimmed key among the blocks is still there among those kept. */
  lemma {:induction false} DistinctKeysKept(blocks: seq<Text>, seen: set<Text>, key: Text)
    ensures key in seen || (exists b :: b in blocks && Trim(b) == key)
            <==> key in seen || (exists b :: b in KeepFirst(blocks, seen) && Trim(b) == key)
    decreases blocks
  {
    if blocks != [] {
      var rest := blocks[1..];
      assert forall b :: b in blocks <==> b == blocks[0] || b in rest;
      if Trim(blocks[0]) in seen {
        DistinctKeysKept(rest, seen, key);
      } else {
        var more := seen + {Trim(blocks[0])};
        DistinctKeysKept(rest, more, key);
        var kept := KeepFirst(blocks, seen);
        assert forall b :: b in kept <==> b == blocks[0] || b in KeepFirst(rest, more);
      }
    }
  }

  /** Splitting a deduplicated text gives back exactly the kept blocks. */
  lemma DeduplicateRoundTrip(t: Text)
    ensures Blocks(DeduplicateBlocks(t)) == KeepFirst(Blocks(t), {})
  {
    BlocksAreSeparable(t);
    KeepFirstSeparable(Blocks(t), {});
    BlocksOfJoin(KeepFirst(Blocks(t), {}));
  }

  /** The block is the first of its kind: no earlier one trims to the same. */
  ghost predicate IsFirst(blocks: seq<Text>, b: Text) {
    exists p | 0 <= p < |blocks| :: blocks[p] == b && forall q | 0 <= q < p :: Trim(blocks[q]) != Trim(b)
  }

  lemma FirstOfCons(b: Text, rest: seq<Text>, c: Text)
    requires IsFirst(rest, c) && Trim(c) != Trim(b)
    ensures IsFirst([b] + rest, c)
  {
    hide Trim;
    var p :| 0 <= p < |rest| && rest[p] == c && forall q | 0 <= q < p :: Trim(rest[q]) != Trim(c);
    var all := [b] + rest;
    assert all[p + 1] == c;
    assert forall q | 0 < q < p + 1 :: all[q] == rest[q - 1];
  }

  /** What is kept: the first block of every kind, and each kind once. */
  lemma {:induction false} KeepFirstMeans(blocks: seq<Text>, seen: set<Text>)
    ensures var kept := KeepFirst(blocks, seen);
            && (forall i, j | 0 <= i < j < |kept| :: Trim(kept[i]) != Trim(kept[j]))
            && (forall b | b in kept :: Trim(b) !in seen && IsFirst(blocks, b))
            && (forall b | b in blocks :: Trim(b) in seen || exists c :: c in kept && Trim(c) == Trim(b))
  {
    hide Trim, IsFirst;
    if blocks != [] {
      var b, rest := blocks[0], blocks[1..];
      assert blocks == [b] + rest;
      if Trim(b) in seen {
        KeepFirstMeans(rest, seen);
        forall c | c in KeepFirst(rest, seen) ensures IsFirst(blocks, c) {
          FirstOfCons(b, rest, c);
        }
      } else {
        var more := KeepFirst(rest, seen + {Trim(b)});
        KeepFirstMeans(rest, seen + {Trim(b)});
        forall c | c in more ensures IsFirst(blocks, c) {
          FirstOfCons(b, rest, c);
        }
        HeadIsFirst(blocks);
        var kept := [b] + more;
        assert forall j | 0 < j < |kept| :: kept[j] == more[j - 1] && more[j - 1] in more;
        forall x | x in blocks ensures Trim(x) in seen || exists c :: c in kept && Trim(c) == Trim(x) {
          if x in rest && Trim(x) != Trim(b) && Trim(x) !in seen {
            var c :| c in more && Trim(c) == Trim(x);
            assert c in kept;
          } else {
            assert b in kept;
          }
        }
      }
    }
  }

  lemma HeadIsFirst(blocks: seq<Text>)
    requires blocks != []
    ensures IsFirst(blocks, blocks[0])
  {
    hide Trim;
  }

  function Lengths(parts: seq<Text>): nat {
    if parts == [] then 0 else |parts[0]| + Lengths(parts[1..])
  }

  lemma {:induction false} LengthOfJoin(parts: seq<Text>, sep: Text)
    ensures |Join(parts, sep)| == Lengths(parts) + (if parts == [] then 0 else |sep| * (|parts| - 1))
  {
    if |parts| == 1 {
      assert Lengths(parts[1..]) == 0;
    } else if |parts| > 1 {
      LengthOfJoin(parts[1..], sep);
      assert |sep| * (|parts| - 1) == |sep| + |sep| * (|parts| - 2);
    }
  }

  lemma {:induction false} WordsOfBlocks(t: Text)
    ensures TotalWords(Blocks(t)) == Words(t)
    decreases |t|
  {
    var k := NextBreak(t, 0);
    if k < |t| {
      WordsOfBlocks(t[k + 2..]);
      assert t == t[..k] + BREAK + t[k + 2..];
      WordsAcrossBlanks(t[..k], BREAK, t[k + 2..]);
    } else {
      assert TotalWords([t][1..]) == 0;
    }
  }

  /** Deduplication is idempotent, never raises the word count, and loses no distinct block. */
  lemma DeduplicateCorrect(t: Text)
    ensures DeduplicateBlocks(DeduplicateBlocks(t)) == DeduplicateBlocks(t)
    ensures Words(DeduplicateBlocks(t)) <= Words(t)
    ensures forall b :: b in Blocks(t)
              ==> exists c :: c in Blocks(DeduplicateBlocks(t)) && Trim(c) == Trim(b)
  {
    var kept := KeepFirst(Blocks(t), {});
    DeduplicateRoundTrip(t);
    BlocksAreSeparable(t);
    KeepFirstSeparable(Blocks(t), {});
    WordsOfBlocks(t);
    WordsOfJoin(kept, BREAK);
    forall b | b in Blocks(t) ensures exists c :: c in kept && Trim(c) == Trim(b) {
      DistinctKeysKept(Blocks(t), {}, Trim(b));
    }
  }

  // ----- Sentences -----

  predicate EndsSentence(c: Letter) {
    c.code in {0x2E, 0x21, 0x3F, 0x3002, 0xFF01, 0xFF1F}
  }

  /** Length of the first sentence, its terminator included. */
  function SentenceLength(t: Text): (n: nat)
    requires t != []
    ensures 1 <= n <= |t|
    ensures forall i :: 0 <= i < n - 1 ==> !EndsSentence(t[i])
    ensures n < |t| ==> EndsSentence(t[n - 1])
  {
    if EndsSentence(t[0]) || |t| == 1 then 1 else 1 + SentenceLength(t[1..])
  }

  function Sentences(t: Text): seq<Text>
    decreases |t|
  {
    if t == [] then [] else [t[..SentenceLength(t)]] + Sentences(t[SentenceLength(t)..])
  }

  /** Splitting into sentences loses no character. */
  lemma {:induction false} SentencesPartition(t: Text)
    ensures Join(Sentences(t), []) == t && forall s | s in Sentences(t) :: s != []
    decreases |t|
  {
    if t != [] {
      var n := SentenceLength(t);
      var rest := Sentences(t[n..]);
      SentencesPartition(t[n..]);
      hide Sentences, SentenceLength;
      assert t == t[..n] + t[n..];
      var all := [t[..n]] + rest;
      assert all[1..] == rest;
      if rest == [] {
        assert t[n..] == [];
      } else {
        assert Join(all, []) == t[..n] + [] + Join(rest, []);
      }
    }
  }

  /** One of the six characters that end a sentence. */
  predicate IsTerminator(c: Letter) {
    || c.code == 0x2E || c.code == 0x21 || c.code == 0x3F
    || c.code == 0x3002 || c.code == 0xFF01 || c.code == 0xFF1F
  }

  /** A sentence ends at its first terminator, and only the last may have none. */
  lemma {:induction false} SentencesEnd(t: Text, i: nat)
    requires i < |Sentences(t)|
    ensures var s := Sentences(t)[i];
            && s != [] && (forall j | 0 <= j < |s| - 1 :: !IsTerminator(s[j]))
            && (i < |Sentences(t)| - 1 ==> IsTerminator(s[|s| - 1]))
    decreases |t|
  {
    var n := SentenceLength(t);
    if i > 0 {
      SentencesEnd(t[n..], i - 1);
    } else if n == |t| {
      assert Sentences(t[n..]) == [];
    }
  }
}
