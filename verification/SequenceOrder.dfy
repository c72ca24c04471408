/** The order that CompareSequenceID puts on Teams sequence ids. */
module SequenceOrder {
  import opened Decimal

  /** strings.Compare, as "is at most". */
  predicate LexLe(a: string, b: string) {
    a == "" || (b != "" && (a[0] < b[0] || (a[0] == b[0] && LexLe(a[1..], b[1..]))))
  }

  function LexCompare(a: string, b: string): int {
    if a == b then 0 else if LexLe(a, b) then -1 else 1
  }

  predicate IsNumber(s: string) {
    ParseUint(s).Some?
  }

  function Number(s: string): nat
    requires IsNumber(s)
  {
    ParseUint(s).value
  }

  function CompareSequenceID(a: string, b: string): int {
    var (x, y) := (ParseUint(a), ParseUint(b));
    if x.Some? && y.Some? then
      if x.value < y.value then -1 else if x.value > y.value then 1 else 0
    else
      LexCompare(a, b)
  }

  predicate Le(a: string, b: string) {
    CompareSequenceID(a, b) <= 0
  }

  // ----- the lexical order

  lemma {:induction false} LexTotal(a: string, b: string)
    ensures LexLe(a, b) || LexLe(b, a)
    ensures LexLe(a, a)
  {
    if a != "" {
      LexTotal(a[1..], if b == "" then a[1..] else b[1..]);
    }
  }

  lemma {:induction false} LexAntisymmetric(a: string, b: string)
    requires LexLe(a, b) && LexLe(b, a)
    ensures a == b
  {
    if a != "" {
      LexAntisymmetric(a[1..], b[1..]);
      assert a == [a[0]] + a[1..] && b == [b[0]] + b[1..];
    }
  }

  lemma {:induction false} LexTransitive(a: string, b: string, c: string)
    requires LexLe(a, b) && LexLe(b, c)
    ensures LexLe(a, c)
  {
    if a != "" && a[0] == b[0] == c[0] {
      LexTransitive(a[1..], b[1..], c[1..]);
    }
  }

  // ----- the whole comparison

  /** The comparison is antisymmetric in its sign and every pair of ids is comparable. */
  lemma CompareFlips(a: string, b: string)
    ensures CompareSequenceID(a, b) == -CompareSequenceID(b, a)
    ensures CompareSequenceID(a, a) == 0
  {
    LexTotal(a, b);
    if LexLe(a, b) && LexLe(b, a) {
      LexAntisymmetric(a, b);
    }
  }

  /** On numerals below 2^64 the comparison is exactly the numeric one. */
  lemma CompareIsNumeric(a: string, b: string)
    requires IsNumber(a) && IsNumber(b)
    ensures CompareSequenceID(a, b) < 0 <==> Number(a) < Number(b)
    ensures CompareSequenceID(a, b) == 0 <==> Number(a) == Number(b)
    ensures CompareSequenceID(a, b) > 0 <==> Number(a) > Number(b)
  {
  }

  /** Ids printed from 64-bit numbers compare as the numbers do. */
  lemma PrintedIdsCompare(m: nat, n: nat)
    requires m < 0x1_0000_0000_0000_0000 && n < 0x1_0000_0000_0000_0000
    ensures CompareSequenceID(FormatUint(m), FormatUint(n)) == if m < n then -1 else if m > n then 1 else 0
  {
    ParseUintOfFormat(m);
    ParseUintOfFormat(n);
    hide ParseUint, FormatUint;
  }

  lemma MixedIsLexical(a: string, b: string)
    requires !IsNumber(a) || !IsNumber(b)
    ensures Le(a, b) <==> LexLe(a, b)
  {
    LexTotal(a, b);
  }

  /** Three ids of one kind, all numerals or none of them, are transitively ordered. */
  lemma HomogeneousTransitive(a: string, b: string, c: string)
    requires IsNumber(a) == IsNumber(b) == IsNumber(c)
    requires Le(a, b) && Le(b, c)
    ensures Le(a, c)
  {
    if !IsNumber(a) {
      MixedIsLexical(a, b);
      MixedIsLexical(b, c);
      LexTransitive(a, b, c);
      MixedIsLexical(a, c);
    }
  }

  /** Ids that are all unparseable are totally ordered: equal only when identical. */
  lemma UnparseableAntisymmetric(a: string, b: string)
    requires !IsNumber(a) && !IsNumber(b)
    requires Le(a, b) && Le(b, a)
    ensures a == b
  {
    MixedIsLexical(a, b);
    MixedIsLexical(b, a);
    LexAntisymmetric(a, b);
  }

  ghost predicate TransitiveOn(ids: set<string>) {
    forall a, b, c | a in ids && b in ids && c in ids && Le(a, b) && Le(b, c) :: Le(a, c)
  }

  /** Two numerals that are in numeric order but not in lexical order, and a non-numeral lexically between them. */
  predicate Wedged(low: string, high: string, word: string) {
    && IsNumber(low) && IsNumber(high) && !IsNumber(word)
    && Number(low) <= Number(high)
    && LexLe(high, word) && LexLe(word, low)
  }

  /** The comparison is transitive on a set of ids exactly when no non-numeral is wedged between
      two numerals whose numeric and lexical orders disagree. */
  lemma TransitiveIffNothingWedged(ids: set<string>)
    ensures TransitiveOn(ids)
       <==> !exists low, high, word | low in ids && high in ids && word in ids :: Wedged(low, high, word)
  {
    forall low, high, word | low in ids && high in ids && word in ids && Wedged(low, high, word)
      ensures !TransitiveOn(ids)
    {
      WedgeBreaksTransitivity(low, high, word);
    }
    forall a, b, c | a in ids && b in ids && c in ids && Le(a, b) && Le(b, c) && !Le(a, c)
      ensures exists low, high, word | low in ids && high in ids && word in ids :: Wedged(low, high, word)
    {
      var low, high, word := BrokenTripleIsWedged(a, b, c);
    }
  }

  lemma WedgeBreaksTransitivity(low: string, high: string, word: string)
    requires Wedged(low, high, word)
    ensures Le(low, high) && Le(high, word) && !Le(low, word)
  {
    MixedIsLexical(high, word);
    MixedIsLexical(low, word);
    if LexLe(low, word) {
      LexAntisymmetric(low, word);
    }
  }

  lemma BrokenTripleIsWedged(a: string, b: string, c: string) returns (low: string, high: string, word: string)
    requires Le(a, b) && Le(b, c) && !Le(a, c)
    ensures {low, high, word} == {a, b, c}
    ensures Wedged(low, high, word)
  {
    CompareFlips(a, c);
    CompareFlips(a, b);
    CompareFlips(b, c);
    if IsNumber(a) == IsNumber(b) == IsNumber(c) {
      HomogeneousTransitive(a, b, c);
    } else if IsNumber(a) && IsNumber(b) {
      // c < a numerically kept, b <= c and c < a lexically
      low, high, word := a, b, c;
      MixedIsLexical(b, c);
      MixedIsLexical(c, a);
    } else if IsNumber(b) && IsNumber(c) {
      low, high, word := b, c, a;
      MixedIsLexical(a, b);
      MixedIsLexical(c, a);
    } else if IsNumber(a) && IsNumber(c) {
      low, high, word := c, a, b;
      MixedIsLexical(a, b);
      MixedIsLexical(b, c);
    } else {
      MixedIsLexical(a, b);
      MixedIsLexical(b, c);
      MixedIsLexical(a, c);
      LexTransitive(a, b, c);
    }
  }

  /** A cycle the code can meet: "2" < "10" < "1A" < "2". */
  lemma MixedIdsCycle()
    ensures CompareSequenceID("2", "10") < 0
    ensures CompareSequenceID("10", "1A") < 0
    ensures CompareSequenceID("1A", "2") < 0
  {
    assert Value("") == 0;
    assert "2"[..0] == "" && "10"[..1] == "1" && "1"[..0] == "";
    assert Value("1") == 1 && Value("2") == 2 && Value("10") == 10;
    assert !IsDigit("1A"[1]);
    assert "10"[1..] == "0" && "1A"[1..] == "A";
    assert LexLe("10", "1A") && LexLe("1A", "2");
  }

  /** When the ids are not both numerals, the first character in which they differ decides, and an id comes before its
      own continuations. */
  lemma {:induction false} FirstDifferenceDecides(same: string, x: char, a: string, y: char, b: string)
    requires x != y
    ensures var s, t := same + [x] + a, same + [y] + b;
            !IsNumber(s) || !IsNumber(t) ==> CompareSequenceID(s, t) == if x < y then -1 else 1
    ensures !IsNumber(same) || !IsNumber(same + [x] + a) ==> CompareSequenceID(same, same + [x] + a) == -1
  {
    hide ParseUint;
    LexDecides(same, x, a, y, b);
    hide LexLe;
    assert (same + [x] + a)[|same|] == x && (same + [y] + b)[|same|] == y;
  }

  lemma {:induction false} LexDecides(same: string, x: char, a: string, y: char, b: string)
    requires x != y
    ensures LexLe(same + [x] + a, same + [y] + b) <==> x < y
    ensures LexLe(same, same + [x] + a)
  {
    var s, t := same + [x] + a, same + [y] + b;
    if same == "" {
      assert s[0] == x && t[0] == y;
    } else {
      LexDecides(same[1..], x, a, y, b);
      assert s[1..] == same[1..] + [x] + a && t[1..] == same[1..] + [y] + b;
      assert s[0] == t[0] == same[0];
    }
  }
}
