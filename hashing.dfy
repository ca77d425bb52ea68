/**
 The five successive definitions of `hash_function` in the hash-design script,
 each as its own function, with the claims the script's comments make about
 them stated and proved as lemmas.

 Python's `ord` of a character is its code point; a Dafny `char` is a Unicode
 scalar value, so the code points of lone surrogates are out of reach here.
 Every hash is a sum of non-negative terms, hence a `nat`.
 */
module Hashing {
  import opened PyStrings

  function Ord(c: char): nat {
    c as nat
  }

  /** `sum(ord(character) for character in text)` */
  function OrdSum(text: string): nat {
    if text == [] then 0 else Ord(text[0]) + OrdSum(text[1..])
  }

  /** `sum(index * ord(character) for index, character in enumerate(text, start))` */
  function WeightedSum(text: string, start: nat): nat {
    if text == [] then 0 else start * Ord(text[0]) + WeightedSum(text[1..], start + 1)
  }

  /** An independent definition of the position-weighted sum, built from the
      last character: the sum over i of (i + 1) * ord(text[i]). */
  function PositionSum(text: string): nat {
    if text == [] then 0 else PositionSum(text[..|text| - 1]) + |text| * Ord(text[|text| - 1])
  }

  /** Version 1: the plain character-code sum of a string. */
  function SumHash(text: string): nat {
    OrdSum(text)
  }

  /** Version 2: the character-code sum of `str(key)`. */
  function StrSumHash(key: Key): nat {
    OrdSum(Str(key))
  }

  /** Version 3: the character-code sum of `repr(key)`. */
  function ReprSumHash(key: Key): nat
    requires HasPlainRepr(key)
  {
    OrdSum(Repr(key))
  }

  /** Version 4: the position-weighted sum of `repr(key)`, positions counted from 1. */
  function WeightedReprHash(key: Key): nat
    requires HasPlainRepr(key)
  {
    WeightedSum(Repr(key), 1)
  }

  /** The number of buckets the script reduces version 4 to. */
  const Buckets: nat := 100

  /** Version 4 reduced `% 100`. The hash is non-negative, so Python's floored
      `%` and Dafny's Euclidean `%` agree here. */
  function BoundedHash(key: Key): (r: nat)
    requires HasPlainRepr(key)
    ensures r < Buckets
    ensures WeightedReprHash(key) < Buckets ==> r == WeightedReprHash(key)
  {
    WeightedReprHash(key) % Buckets
  }

  /** Version 5: the position-weighted sum of `repr(key).lstrip("'")`. */
  function StrippedHash(key: Key): nat
    requires HasPlainRepr(key)
  {
    WeightedSum(LStrip(Repr(key), Quote), 1)
  }

  /** Swapping the characters at positions i and j. */
  function Swap(s: string, i: nat, j: nat): (r: string)
    requires i < j < |s|
    ensures |r| == |s| && r[i] == s[j] && r[j] == s[i]
    ensures forall k :: 0 <= k < |s| && k != i && k != j ==> r[k] == s[k]
  {
    s[i := s[j]][j := s[i]]
  }

  // ---------------------------------------------------------------------------
  // The character-code sum (versions 1 to 3)

  lemma {:induction false} OrdSumConcat(s: string, t: string)
    ensures OrdSum(s + t) == OrdSum(s) + OrdSum(t)
  {
    if s == [] {
      assert s + t == t;
    } else {
      assert (s + t)[1..] == s[1..] + t;
      OrdSumConcat(s[1..], t);
    }
  }

  /** Version 1 ignores character order: any rearrangement of the text
      (an anagram such as "Loren" and "Loner") hashes to the same value. */
  lemma {:induction false} SumHashIgnoresOrder(s: string, t: string)
    requires multiset(s) == multiset(t)
    ensures SumHash(s) == SumHash(t)
  {
    if s == [] {
      assert |t| == |multiset(t)| == 0;
    } else {
      assert s[0] in multiset(t);
      var i :| 0 <= i < |t| && t[i] == s[0];
      var rest := t[..i] + t[i + 1..];
      RemoveAtCharacters(t, i);
      RemoveAtSum(t, i);
      assert s == [s[0]] + s[1..];
      assert multiset(s[1..]) == multiset(s) - multiset{s[0]};
      SumHashIgnoresOrder(s[1..], rest);
    }
  }

  /** Taking out the character at position i takes one copy of it out of the text's characters. */
  lemma RemoveAtCharacters(t: string, i: nat)
    requires i < |t|
    ensures multiset(t[..i] + t[i + 1..]) == multiset(t) - multiset{t[i]}
  {
    var front, back := t[..i], t[i + 1..];
    assert t == front + [t[i]] + back;
    assert multiset(t) == multiset(front) + multiset{t[i]} + multiset(back);
  }

  /** Taking out the character at position i takes its code out of the sum. */
  lemma RemoveAtSum(t: string, i: nat)
    requires i < |t|
    ensures OrdSum(t) == Ord(t[i]) + OrdSum(t[..i] + t[i + 1..])
  {
    var front, back := t[..i], t[i + 1..];
    assert t == front + ([t[i]] + back);
    OrdSumConcat(front, [t[i]] + back);
    assert ([t[i]] + back)[1..] == back;
    OrdSumConcat(front, back);
  }

  /** Version 1 is barely sensitive to a change in the input: replacing one
      character moves the hash by exactly the difference of the two codes. */
  lemma {:induction false} SumHashReplace(s: string, k: nat, d: char)
    requires k < |s|
    ensures SumHash(s[k := d]) == SumHash(s) - Ord(s[k]) + Ord(d)
  {
    if k > 0 {
      assert s[k := d][1..] == s[1..][k - 1 := d];
      SumHashReplace(s[1..], k - 1, d);
    } else {
      assert s[k := d][1..] == s[1..];
    }
  }

  /** The script's examples: "Lorem" and "Loren" differ in one character by one
      code point and hash one apart; "Loren" and "Loner" are anagrams and collide. */
  lemma LoremLorenLoner()
    ensures SumHash("Loren") == SumHash("Lorem") + 1
    ensures SumHash("Loner") == SumHash("Loren")
  {
    assert "Loren" == "Lorem"[4 := 'n'];
    SumHashReplace("Lorem", 4, 'n');
    assert Swap("Loren", 2, 4) == "Loner";
    SwapPermutes("Loren", 2, 4);
    SumHashIgnoresOrder("Loner", "Loren");
  }

  /** On a string key, version 2 is version 1, because `str` is the identity on strings. */
  lemma StrSumHashOfText(s: string)
    ensures StrSumHash(Text(s)) == SumHash(s)
  {
  }

  /** Version 2 makes the string "True" and the boolean `True` collide;
      version 3 separates them by the two apostrophes of the string's `repr`. */
  lemma StrCollidesReprSeparates()
    ensures StrSumHash(Text("True")) == StrSumHash(Flag(true))
    ensures ReprSumHash(Text("True")) == ReprSumHash(Flag(true)) + 78
  {
    ReprSumHashOfText("True");
  }

  /** On a string key, version 3 is version 1 plus the codes of the two
      apostrophes that `repr` adds (2 * 39 = 78). */
  lemma ReprSumHashOfText(s: string)
    requires PlainText(s)
    ensures ReprSumHash(Text(s)) == SumHash(s) + 78
  {
    OrdSumConcat([Quote] + s, [Quote]);
    OrdSumConcat([Quote], s);
  }

  // ---------------------------------------------------------------------------
  // The position-weighted sum (versions 4 and 5)

  /** Appending a character adds it with weight start + (its position). */
  lemma {:induction false} WeightedSumAppend(s: string, c: char, start: nat)
    ensures WeightedSum(s + [c], start) == WeightedSum(s, start) + (start + |s|) * Ord(c)
  {
    if s != [] {
      assert (s + [c])[1..] == s[1..] + [c];
      WeightedSumAppend(s[1..], c, start + 1);
    }
  }

  /** The weighted sum counting from 1 is the sum over i of (i + 1) * ord(s[i]);
      in particular it is 0 on the empty text. */
  lemma {:induction false} WeightedSumIsPositionSum(s: string)
    ensures WeightedSum(s, 1) == PositionSum(s)
  {
    if s != [] {
      var init := s[..|s| - 1];
      assert s == init + [s[|s| - 1]];
      WeightedSumAppend(init, s[|s| - 1], 1);
      WeightedSumIsPositionSum(init);
    }
  }

  /** Counting positions from one further adds the plain sum once more. */
  lemma {:induction false} WeightedSumShift(s: string, start: nat)
    ensures WeightedSum(s, start + 1) == WeightedSum(s, start) + OrdSum(s)
  {
    if s != [] {
      WeightedSumShift(s[1..], start + 1);
    }
  }

  /** Every weight is at least 1, so the weighted sum never falls below the plain sum. */
  lemma WeightedSumAtLeastOrdSum(s: string)
    ensures WeightedSum(s, 1) >= OrdSum(s)
  {
    WeightedSumShift(s, 0);
  }

  /** Replacing the character at position k changes the weighted sum by its
      weight start + k times the change of code. */
  lemma {:induction false} WeightedSumReplace(s: string, start: nat, k: nat, d: char)
    requires k < |s|
    ensures WeightedSum(s[k := d], start) == WeightedSum(s, start) + (start + k) * (Ord(d) - Ord(s[k]))
  {
    if k > 0 {
      assert s[k := d][1..] == s[1..][k - 1 := d];
      WeightedSumReplace(s[1..], start + 1, k - 1, d);
    } else {
      assert s[k := d][1..] == s[1..];
    }
  }

  /** Swapping two characters changes the weighted sum by their distance
      times the difference of their codes. */
  lemma WeightedSumSwap(s: string, start: nat, i: nat, j: nat)
    requires i < j < |s|
    ensures WeightedSum(Swap(s, i, j), start) == WeightedSum(s, start) + (j - i) * (Ord(s[i]) - Ord(s[j]))
  {
    var a: int, b: int := Ord(s[i]), Ord(s[j]);
    var s1 := s[i := s[j]];
    WeightedSumReplace(s, start, i, s[j]);
    WeightedSumReplace(s1, start, j, s[i]);
    assert WeightedSum(Swap(s, i, j), start) == WeightedSum(s, start) + (start + i) * (b - a) + (start + j) * (a - b);
    assert (start + i) * (b - a) + (start + j) * (a - b) == (j - i) * (a - b);
  }

  lemma ProductNonZero(m: int, n: int)
    requires m > 0 && n != 0
    ensures m * n != 0
  {
    if n > 0 {
      assert m * n >= m;
    } else {
      assert m * n <= -m;
    }
  }

  /** A swap rearranges the text: it keeps the same characters. */
  lemma SwapPermutes(s: string, i: nat, j: nat)
    requires i < j < |s|
    ensures multiset(Swap(s, i, j)) == multiset(s)
  {
    var s1 := s[i := s[j]];
    assert multiset(s1) == multiset(s) - multiset{s[i]} + multiset{s[j]};
    assert multiset(s1[j := s[i]]) == multiset(s1) - multiset{s[j]} + multiset{s[i]};
  }

  /** Version 4 on a string key: the text's characters weighted from 2, plus
      the two apostrophes at positions 1 and |s| + 2. */
  lemma WeightedReprHashOfText(s: string)
    requires PlainText(s)
    ensures WeightedReprHash(Text(s)) == WeightedSum(s, 2) + 39 * (|s| + 3)
  {
    assert Ord(Quote) == 39;
    var r := [Quote] + s + [Quote];
    assert r[1..] == s + [Quote];
    WeightedSumAppend(s, Quote, 2);
  }

  /** Swapping two distinct characters always changes the weighted sum. */
  lemma WeightedSumSeparatesSwaps(s: string, start: nat, i: nat, j: nat)
    requires i < j < |s| && s[i] != s[j]
    ensures WeightedSum(Swap(s, i, j), start) != WeightedSum(s, start)
  {
    WeightedSumSwap(s, start, i, j);
    ProductNonZero(j - i, Ord(s[i]) - Ord(s[j]));
  }

  /** A swap of plain characters leaves a plain text. */
  lemma SwapPlain(s: string, i: nat, j: nat)
    requires PlainText(s) && i < j < |s|
    ensures PlainText(Swap(s, i, j))
  {
    var t := Swap(s, i, j);
    forall k | 0 <= k < |t|
      ensures PlainChar(t[k])
    {
      if k != i && k != j {
        assert t[k] == s[k];
      }
    }
  }

  /** Version 4 separates a text from the one with two distinct characters
      swapped, which the plain sums of versions 1 to 3 cannot. */
  lemma WeightedReprHashSeparatesSwaps(s: string, i: nat, j: nat)
    requires PlainText(s) && i < j < |s| && s[i] != s[j]
    ensures PlainText(Swap(s, i, j))
    ensures WeightedReprHash(Text(Swap(s, i, j))) != WeightedReprHash(Text(s))
    ensures ReprSumHash(Text(Swap(s, i, j))) == ReprSumHash(Text(s))
  {
    var t := Swap(s, i, j);
    SwapPlain(s, i, j);
    WeightedReprHashOfText(s);
    WeightedReprHashOfText(t);
    WeightedSumSeparatesSwaps(s, 2, i, j);
    SwapPermutes(s, i, j);
    SumHashIgnoresOrder(t, s);
    ReprSumHashOfText(s);
    ReprSumHashOfText(t);
  }

  /** In particular the two-character anagrams "ab" and "ba" hash apart under version 4. */
  lemma WeightedReprHashSeparatesPairs(a: char, b: char)
    requires PlainChar(a) && PlainChar(b) && a != b
    ensures WeightedReprHash(Text([a, b])) != WeightedReprHash(Text([b, a]))
  {
    assert Swap([a, b], 0, 1) == [b, a];
    WeightedReprHashSeparatesSwaps([a, b], 0, 1);
  }

  /** Weighting by position does not separate every anagram: the rotation
      xyz -> yzx of three characters collides under version 4 exactly when
      ord(y) + ord(z) == 2 * ord(x). */
  lemma WeightedReprHashRotation(x: char, y: char, z: char)
    requires PlainChar(x) && PlainChar(y) && PlainChar(z)
    ensures WeightedReprHash(Text([x, y, z])) == WeightedReprHash(Text([y, z, x])) <==> Ord(y) + Ord(z) == 2 * Ord(x)
  {
    assert PlainText([x, y, z]) && PlainText([y, z, x]);
    WeightedReprHashOfText([x, y, z]);
    WeightedReprHashOfText([y, z, x]);
    assert [x, y, z][1..] == [y, z] && [y, z][1..] == [z] && [z][1..] == [];
    assert [y, z, x][1..] == [z, x] && [z, x][1..] == [x] && [x][1..] == [];
    assert WeightedSum([z], 4) == 4 * Ord(z) && WeightedSum([x], 4) == 4 * Ord(x);
    assert WeightedSum([y, z], 3) == 3 * Ord(y) + 4 * Ord(z);
    assert WeightedSum([z, x], 3) == 3 * Ord(z) + 4 * Ord(x);
    assert WeightedSum([x, y, z], 2) == 2 * Ord(x) + 3 * Ord(y) + 4 * Ord(z);
    assert WeightedSum([y, z, x], 2) == 2 * Ord(y) + 3 * Ord(z) + 4 * Ord(x);
  }

  /** An instance: the anagrams "bac" and "acb" collide under version 4. */
  lemma WeightedReprHashAnagramCollision()
    ensures multiset("bac") == multiset("acb")
    ensures WeightedReprHash(Text("bac")) == WeightedReprHash(Text("acb"))
  {
    assert multiset("bac") == multiset{'a', 'b', 'c'} == multiset("acb");
    assert "bac" == ['b', 'a', 'c'] && "acb" == ['a', 'c', 'b'];
    WeightedReprHashRotation('b', 'a', 'c');
  }

  /** The script's short example, reduced to its bucket. */
  lemma BoundedHashTiny()
    ensures WeightedReprHash(Text("Tiny")) == 1801
    ensures BoundedHash(Text("Tiny")) == 1
  {
    WeightedReprHashOfText("Tiny");
    assert "Tiny"[1..] == "iny" && "iny"[1..] == "ny" && "ny"[1..] == "y" && "y"[1..] == [];
    assert WeightedSum("y", 5) == 605;
    assert WeightedSum("ny", 4) == 1045;
    assert WeightedSum("iny", 3) == 1360;
    assert WeightedSum("Tiny", 2) == 1528;
  }

  /** Under version 4, a single character's `repr` 'c' hashes to
      39 + 2 * ord(c) + 3 * 39. */
  lemma WeightedReprHashSingle(c: char)
    requires PlainChar(c)
    ensures WeightedReprHash(Text([c])) == 156 + 2 * Ord(c)
  {
    WeightedReprHashOfText([c]);
    assert [c][1..] == [];
  }

  /** The skew the script observes: under version 4 every single character
      hashes to an even number. */
  lemma WeightedReprHashSingleIsEven(c: char)
    requires PlainChar(c)
    ensures WeightedReprHash(Text([c])) % 2 == 0
  {
    WeightedReprHashSingle(c);
  }

  /** `lstrip("'")` on the `repr` of a string drops exactly the opening apostrophe,
      except on the empty string, whose `repr` '' loses both. */
  lemma LStripReprOfText(s: string)
    requires PlainText(s)
    ensures s != [] ==> LStrip(Repr(Text(s)), Quote) == s + [Quote]
    ensures s == [] ==> LStrip(Repr(Text(s)), Quote) == []
  {
    var r := [Quote] + s + [Quote];
    assert r[1..] == s + [Quote];
    if s != [] {
      assert (s + [Quote])[0] == s[0] != Quote;
    } else {
      assert r[1..][1..] == [];
    }
  }

  /** Version 5 on a non-empty string key: the text weighted from 1, followed by
      one apostrophe at position |s| + 1. */
  lemma StrippedHashOfText(s: string)
    requires PlainText(s) && s != []
    ensures StrippedHash(Text(s)) == WeightedSum(s, 1) + 39 * (|s| + 1)
  {
    LStripReprOfText(s);
    assert StrippedHash(Text(s)) == WeightedSum(s + [Quote], 1);
    assert Ord(Quote) == 39;
    WeightedSumAppend(s, Quote, 1);
  }

  /** Dropping the opening apostrophe moves every character one place forward,
      which takes off exactly the version-3 hash: on a non-empty string key,
      version 4 is version 5 plus version 3. */
  lemma WeightedIsStrippedPlusRepr(s: string)
    requires PlainText(s) && s != []
    ensures WeightedReprHash(Text(s)) == StrippedHash(Text(s)) + ReprSumHash(Text(s))
  {
    StrippedHashOfText(s);
    WeightedReprHashOfText(s);
    WeightedSumShift(s, 1);
    ReprSumHashOfText(s);
  }

  /** Version 5 still separates a text from the one with two distinct
      characters swapped: it differs from version 4 by version 3, which a swap
      leaves unchanged. */
  lemma StrippedHashSeparatesSwaps(s: string, i: nat, j: nat)
    requires PlainText(s) && i < j < |s| && s[i] != s[j]
    ensures PlainText(Swap(s, i, j))
    ensures StrippedHash(Text(Swap(s, i, j))) != StrippedHash(Text(s))
  {
    WeightedReprHashSeparatesSwaps(s, i, j);
    WeightedIsStrippedPlusRepr(s);
    WeightedIsStrippedPlusRepr(Swap(s, i, j));
  }

  /** The empty string's `repr` is stripped to nothing, so version 5 gives it 0. */
  lemma StrippedHashOfEmpty()
    ensures StrippedHash(Text("")) == 0
    ensures WeightedReprHash(Text("")) == 117
  {
    LStripReprOfText("");
  }

  /** A boolean's `repr` has no apostrophe, so version 5 agrees with version 4 on it. */
  lemma StrippedHashOfFlag(b: bool)
    ensures StrippedHash(Flag(b)) == WeightedReprHash(Flag(b))
  {
  }

  /** After stripping, a single character hashes to ord(c) + 2 * 39. */
  lemma StrippedHashSingle(c: char)
    requires PlainChar(c)
    ensures StrippedHash(Text([c])) == Ord(c) + 78
  {
    StrippedHashOfText([c]);
    assert [c][1..] == [];
  }

  /** Parity after stripping follows the character's code, so odd hashes appear again. */
  lemma StrippedHashSingleParity(c: char)
    requires PlainChar(c)
    ensures StrippedHash(Text([c])) % 2 == Ord(c) % 2
  {
    StrippedHashSingle(c);
  }

  /** The script's example before stripping: "a", "b", "c" hash to 350, 352, 354
      under version 4. */
  lemma WeightedReprHashAbc()
    ensures WeightedReprHash(Text("a")) == 350 && WeightedReprHash(Text("b")) == 352 && WeightedReprHash(Text("c")) == 354
  {
    assert "a" == ['a'] && "b" == ['b'] && "c" == ['c'];
    WeightedReprHashSingle('a');
    WeightedReprHashSingle('b');
    WeightedReprHashSingle('c');
  }

  /** The same example after stripping: the consecutive 175, 176, 177 under version 5. */
  lemma StrippedHashAbc()
    ensures StrippedHash(Text("a")) == 175 && StrippedHash(Text("b")) == 176 && StrippedHash(Text("c")) == 177
  {
    assert "a" == ['a'] && "b" == ['b'] && "c" == ['c'];
    StrippedHashSingle('a');
    StrippedHashSingle('b');
    StrippedHashSingle('c');
  }
}
