/** The bitmap in which pb_decode_noinit records the required fields it has seen. */
module RequiredFields {
  import opened Bits
  import opened Config
  import opened Schema
  import opened FieldIterator

  type Word = x: int | 0 <= x < 0x1_0000_0000 witness 0

  const ALL_BITS: Word := 0xFFFF_FFFF

  /** The words hold exactly the set. */
  ghost predicate Represents(words: seq<Word>, seen: set<nat>) {
    && 32 * |words| >= MAX_REQUIRED
    && forall r: nat | r < 32 * |words| :: Bit(words[r / 32], r % 32) <==> r in seen
  }

  /** The required fields that can have been seen. */
  predicate Tracked(schema: seq<Field>, seen: set<nat>) {
    forall r | r in seen :: r < ReqIndex(schema, |schema|) && r < MAX_REQUIRED
  }

  predicate AllSeen(schema: seq<Field>, seen: set<nat>) {
    forall r: nat | r < ReqIndex(schema, |schema|) && r < MAX_REQUIRED :: r in seen
  }

  lemma WordBound(x: Word)
    ensures x < Pow2(32)
  {
    Pow2Small();
    assert Pow2(32) == 128 * Pow2(25) by { ThirtyTwo(); }
  }

  lemma ThirtyTwo()
    ensures Pow2(32) == 128 * Pow2(25)
  {
    assert Pow2(28) == 8 * Pow2(25) && Pow2(31) == 8 * Pow2(28);
  }

  lemma NoBits(k: nat)
    ensures !Bit(0, k)
  {}

  lemma Empty(n: nat)
    requires 32 * n >= MAX_REQUIRED
    ensures Represents(seq(n, i => 0), {})
  {
    forall r: nat | r < 32 * n ensures !Bit(seq(n, i => 0)[r / 32], r % 32) {
      NoBits(r % 32);
    }
  }

  method NoneSeen() returns (words: array<Word>)
    ensures fresh(words) && Represents(words[..], {})
  {
    words := new Word[(MAX_REQUIRED + 31) / 32](i => 0);
    Empty((MAX_REQUIRED + 31) / 32);
    assert words[..] == seq((MAX_REQUIRED + 31) / 32, i => 0);
  }

  lemma SetBit(words: seq<Word>, seen: set<nat>, r: nat, word: Word)
    requires Represents(words, seen) && r < 32 * |words|
    requires word == BitOr(words[r / 32], Shl(1, r % 32))
    ensures Represents(words[r / 32 := word], seen + {r})
  {
    ShlOne(r % 32);
    forall q: nat | q < 32 * |words| ensures Bit(words[r / 32 := word][q / 32], q % 32) <==> q in seen + {r} {
      if q / 32 == r / 32 {
        OrBit(words[r / 32], Pow2(r % 32), q % 32);
        PowerBit(r % 32, q % 32);
        assert q % 32 == r % 32 <==> q == r;
      }
    }
  }

  lemma SetBitBound(word: Word, k: nat)
    requires k < 32
    ensures BitOr(word, Shl(1, k)) < 0x1_0000_0000
  {
    ShlOne(k);
    WordBound(word);
    PowerBound(k, 32);
    OrBound(word, Pow2(k), 32);
    ThirtyTwo();
    Pow2Small();
  }

  /** The required fields before position `i`. */
  ghost function RequiredBefore(schema: seq<Field>, i: nat): set<nat>
    requires i <= |schema|
  {
    set j: nat | j < i && schema[j].htype.REQUIRED?
  }

  /** The index of a required field is their number. */
  lemma {:induction false} ReqIndexCounts(schema: seq<Field>, i: nat)
    requires i <= |schema|
    ensures ReqIndex(schema, i) == |RequiredBefore(schema, i)|
  {
    if i > 0 {
      ReqIndexCounts(schema, i - 1);
      if schema[i - 1].htype.REQUIRED? {
        assert RequiredBefore(schema, i) == RequiredBefore(schema, i - 1) + {i - 1};
      } else {
        assert RequiredBefore(schema, i) == RequiredBefore(schema, i - 1);
      }
    } else {
      assert RequiredBefore(schema, 0) == {};
    }
  }

  lemma {:induction false} ReqIndexBelow(schema: seq<Field>, i: nat)
    requires i < |schema| && schema[i].htype.REQUIRED?
    ensures ReqIndex(schema, i) < ReqIndex(schema, |schema|)
  {
    ReqIndexMonotone(schema, i + 1, |schema|);
  }

  lemma {:induction false} ReqIndexMonotone(schema: seq<Field>, i: nat, j: nat)
    requires i <= j <= |schema|
    ensures ReqIndex(schema, i) <= ReqIndex(schema, j)
    decreases j
  {
    if i < j {
      ReqIndexMonotone(schema, i, j - 1);
    }
  }

  /** Records the field that the iterator stands on, if it is required and has a bit. */
  method MarkSeen(iter: FieldIter, words: array<Word>, ghost seen: set<nat>) returns (ghost seen': set<nat>)
    requires iter.Valid() && iter.pos < |iter.start| && Represents(words[..], seen) && Tracked(iter.start, seen)
    modifies words
    ensures Represents(words[..], seen') && Tracked(iter.start, seen')
    ensures var r := ReqIndex(iter.start, iter.pos);
            seen' == if iter.start[iter.pos].htype.REQUIRED? && r < MAX_REQUIRED then seen + {r} else seen
  {
    seen' := seen;
    if iter.start[iter.pos].htype.REQUIRED? && iter.requiredFieldIndex < MAX_REQUIRED {
      var r := iter.requiredFieldIndex;
      SetBitBound(words[r / 32], r % 32);
      SetBit(words[..], seen, r, BitOr(words[r / 32], Shl(1, r % 32)));
      words[r / 32] := BitOr(words[r / 32], Shl(1, r % 32));
      ReqIndexBelow(iter.start, iter.pos);
      seen' := seen + {r};
    }
  }

  lemma {:induction false} PowerBound(k: nat, n: nat)
    requires k < n
    ensures Pow2(k) < Pow2(n)
    decreases n
  {
    if k < n - 1 {
      PowerBound(k, n - 1);
    }
  }

  lemma WordBit(words: seq<Word>, seen: set<nat>, i: nat, b: nat)
    requires Represents(words, seen) && i < |words| && b < 32
    ensures Bit(words[i], b) <==> 32 * i + b in seen
  {
    var r := 32 * i + b;
    assert r / 32 == i && r % 32 == b;
  }

  /** The whole-word test. */
  lemma WholeWord(words: seq<Word>, seen: set<nat>, i: nat)
    requires Represents(words, seen) && i < |words|
    ensures words[i] == ALL_BITS <==> forall r: nat | 32 * i <= r < 32 * i + 32 :: r in seen
  {
    WordBound(words[i]);
    ThirtyTwo();
    Pow2Small();
    AllOnes(words[i], 32);
    forall k: nat | k < 32 ensures Bit(words[i], k) <==> 32 * i + k in seen {
      WordBit(words, seen, i, k);
    }
    if forall r: nat | 32 * i <= r < 32 * i + 32 :: r in seen {
      assert AllSet(words[i], 32);
    }
    if AllSet(words[i], 32) {
      forall r: nat | 32 * i <= r < 32 * i + 32 ensures r in seen {
        assert Bit(words[i], r - 32 * i);
      }
    }
  }

  /** The remaining-bits test, when no field from `n` on can have been seen. */
  lemma RemainingBits(words: seq<Word>, seen: set<nat>, n: nat)
    requires Represents(words, seen) && n / 32 < |words| && n % 32 != 0 && forall r | r in seen :: r < n
    ensures words[n / 32] == ALL_BITS / Pow2(32 - n % 32)
            <==> forall r: nat | 32 * (n / 32) <= r < n :: r in seen
  {
    var i, k := n / 32, n % 32;
    var word := words[i];
    forall b: nat | b < 32 ensures Bit(word, b) <==> 32 * i + b in seen {
      WordBit(words, seen, i, b);
    }
    assert word < Pow2(k) by {
      WordBound(word);
      HighBitsClear(word, k, 32);
    }
    AllOnes(word, k);
    Shifted(k);
    if forall r: nat | 32 * i <= r < n :: r in seen {
      assert AllSet(word, k);
    }
    if AllSet(word, k) {
      forall r: nat | 32 * i <= r < n ensures r in seen {
        assert Bit(word, r - 32 * i);
      }
    }
  }

  /** All bits shifted right by `32 - k`. */
  lemma Shifted(k: nat)
    requires k <= 32
    ensures ALL_BITS / Pow2(32 - k) == Pow2(k) - 1
  {
    ThirtyTwo();
    Pow2Small();
    HalveOnes(32, 32 - k);
  }

  lemma {:induction false} HalveOnes(n: nat, k: nat)
    requires k <= n
    ensures (Pow2(n) - 1) / Pow2(k) == Pow2(n - k) - 1
  {
    ProductOfPowers(n - k, k);
    OneBelowProduct(Pow2(n - k), Pow2(k));
  }

  lemma {:induction false} OneBelowProduct(p: nat, q: nat)
    requires p >= 1 && q >= 1
    ensures (p * q - 1) / q == p - 1
  {
    assert p * q - 1 == (p - 1) * q + (q - 1);
    DivUnique(p * q - 1, q, p - 1, q - 1);
  }

  lemma {:induction false} ProductOfPowers(a: nat, b: nat)
    ensures Pow2(a + b) == Pow2(a) * Pow2(b)
  {
    if b > 0 {
      ProductOfPowers(a, b - 1);
      assert Pow2(a) * Pow2(b) == 2 * (Pow2(a) * Pow2(b - 1));
    }
  }

  /** The end of pb_decode_noinit: the number of required fields is found by walking the iterator to its end
      from wherever it stands, and the bitmap is compared word by word. */
  method CheckRequired(iter: FieldIter, words: array<Word>, ghost seen: set<nat>) returns (ok: bool)
    requires iter.Valid() && Represents(words[..], seen) && Tracked(iter.start, seen)
    modifies iter
    ensures ok == AllSeen(iter.start, seen)
  {
    var reqFieldCount := iter.requiredFieldIndex;
    var lastRequired := iter.start != [] && iter.start[iter.pos].htype.REQUIRED?;
    var more := iter.Next();
    while more
      invariant iter.Valid()
      invariant more ==> 0 < iter.pos < |iter.start|
      invariant more ==> reqFieldCount == ReqIndex(iter.start, iter.pos - 1)
      invariant more ==> lastRequired == iter.start[iter.pos - 1].htype.REQUIRED?
      invariant !more ==> if iter.start == [] then reqFieldCount == 0 && !lastRequired
                          else
                            && reqFieldCount == ReqIndex(iter.start, |iter.start| - 1)
                            && lastRequired == iter.start[|iter.start| - 1].htype.REQUIRED?
      decreases more, |iter.start| - iter.pos
    {
      reqFieldCount := iter.requiredFieldIndex;
      lastRequired := iter.start[iter.pos].htype.REQUIRED?;
      more := iter.Next();
    }
    // The terminator of an empty message type reads as a required field, which is not counted.
    if lastRequired {
      reqFieldCount := reqFieldCount + 1;
    }
    assert reqFieldCount == ReqIndex(iter.start, |iter.start|);
    if reqFieldCount > MAX_REQUIRED {
      reqFieldCount := MAX_REQUIRED;
    }
    ok := CheckWords(words, seen, reqFieldCount);
  }

  method CheckWords(words: array<Word>, ghost seen: set<nat>, count: nat) returns (ok: bool)
    requires Represents(words[..], seen) && count <= MAX_REQUIRED && forall r | r in seen :: r < count
    ensures ok == forall r: nat | r < count :: r in seen
  {
    for i := 0 to count / 32
      invariant forall r: nat | r < 32 * i :: r in seen
    {
      WholeWord(words[..], seen, i);
      if words[i] != ALL_BITS {
        return false;
      }
    }
    if count % 32 != 0 {
      RemainingBits(words[..], seen, count);
      if words[count / 32] != ALL_BITS / Pow2(32 - count % 32) {
        return false;
      }
    }
    return true;
  }
}
