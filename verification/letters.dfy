/**
 The letter statistics of 01_P/P_3_1_3_03/sketch.js: the sorted set of
 distinct upper-case characters of a text (`getUniqCharacters`), the zeroed
 counters `setup` prepares, and the count of each character
 (`countCharacters`).

 `toUpperCase` is a parameter: for each code unit it yields a non-empty
 string (one code unit for most letters, more for a few such as the sharp s).
 JavaScript upper-cases a string one code unit at a time, so the upper-cased
 text is the concatenation of the parts.
 */
module Letters {
  import opened Text

  /** `toUpperCase` of a single code unit. */
  type Upper = f: char -> string | forall c :: |f(c)| > 0 witness (c: char) => [c]

  /** `text.toUpperCase()`. */
  function UpperText(text: string, upper: Upper): string
    decreases |text|
  {
    if |text| == 0 then "" else UpperText(text[..|text| - 1], upper) + upper(text[|text| - 1])
  }

  /** Every character of the upper-cased text comes from the upper-cased form of some character of the text. */
  lemma {:induction false} InUpperText(text: string, upper: Upper, c: char)
    ensures c in UpperText(text, upper) <==> exists j :: 0 <= j < |text| && c in upper(text[j])
    decreases |text|
  {
    if |text| > 0 {
      var init := text[..|text| - 1];
      InUpperText(init, upper, c);
      assert forall j :: 0 <= j < |init| ==> init[j] == text[j];
    }
  }

  predicate NoDuplicates(s: string) {
    forall i, j :: 0 <= i < j < |s| ==> s[i] != s[j]
  }

  /** Ascending by code unit and free of repeats. */
  predicate StrictlyAscending(s: string) {
    forall i, j :: 0 <= i < j < |s| ==> s[i] < s[j]
  }

  predicate Ascending(s: string) {
    forall i, j :: 0 <= i < j < |s| ==> s[i] <= s[j]
  }

  // ---------------------------------------------------------------------------
  // getUniqCharacters
  // ---------------------------------------------------------------------------

  /** `filter((char, index) => chars.indexOf(char) == index)` from position `i` on. */
  function KeepFirst(s: string, i: nat): (r: string)
    requires i <= |s|
    ensures forall c :: c in r <==> c in s[i..] && c !in s[..i]
    ensures NoDuplicates(r)
    decreases |s| - i
  {
    if i == |s| then []
    else
      var rest := KeepFirst(s, i + 1);
      assert s[i..] == [s[i]] + s[i + 1..];
      assert s[..i + 1] == s[..i] + [s[i]];
      if IndexOf(s, [s[i]], 0) == i then
        assert s[i] !in s[..i] by {
          forall k | 0 <= k < i
            ensures s[k] != s[i]
          {
            assert !LiteralAt(s, k, [s[i]]);
            assert s[k..k + 1] == [s[k]];
          }
        }
        assert s[i] !in rest by {
          assert s[..i + 1][i] == s[i];
        }
        [s[i]] + rest
      else
        assert s[i] in s[..i] by {
          assert LiteralAt(s, i, [s[i]]);
          var k := IndexOf(s, [s[i]], 0);
          assert s[k..k + 1] == [s[k]];
          assert s[..i][k] == s[k];
        }
        rest
  }

  /** Inserts `c` into an ascending string. */
  function Insert(c: char, s: string): (r: string)
    requires Ascending(s)
    ensures Ascending(r)
    ensures multiset(r) == multiset(s) + multiset{c}
    ensures |r| == |s| + 1 && (r[0] == c || (|s| > 0 && r[0] == s[0]))
    decreases |s|
  {
    if |s| == 0 then [c]
    else if c <= s[0] then [c] + s
    else
      var rest := Insert(c, s[1..]);
      assert s == [s[0]] + s[1..];
      assert s[0] <= rest[0];
      [s[0]] + rest
  }

  /** `Array.prototype.sort` with no comparator on single code units: ascending code unit order. */
  function Sort(s: string): (r: string)
    ensures Ascending(r)
    ensures multiset(r) == multiset(s)
    decreases |s|
  {
    if |s| == 0 then []
    else
      assert s == [s[0]] + s[1..];
      Insert(s[0], Sort(s[1..]))
  }

  /**
   `getUniqCharacters`: the distinct characters of the upper-cased text,
   sorted. The result is strictly ascending and holds exactly the characters
   of the upper-cased text.
   */
  function GetUniqCharacters(text: string, upper: Upper): (r: string)
    ensures StrictlyAscending(r)
    ensures forall c :: c in r <==> c in UpperText(text, upper)
  {
    var chars := UpperText(text, upper);
    var uniq := KeepFirst(chars, 0);
    assert chars[0..] == chars && chars[..0] == [];
    var r := Sort(uniq);
    SortingUniqueIsStrict(uniq, r);
    r
  }

  /** Sorting a string without repeats gives a strictly ascending one with the same characters. */
  lemma SortingUniqueIsStrict(uniq: string, r: string)
    requires NoDuplicates(uniq) && Ascending(r) && multiset(r) == multiset(uniq)
    ensures StrictlyAscending(r)
    ensures forall c :: c in r <==> c in uniq
  {
    assert forall c :: c in r <==> c in multiset(r);
    assert forall c :: c in uniq <==> c in multiset(uniq);
    forall i, j | 0 <= i < j < |r|
      ensures r[i] < r[j]
    {
      if r[i] == r[j] {
        MultiplicityOfRepeat(r, i, j);
        NoDuplicatesMultiplicity(uniq, r[i]);
      }
    }
  }

  /** Two positions holding one character make it occur at least twice. */
  lemma MultiplicityOfRepeat(s: string, i: nat, j: nat)
    requires i < j < |s| && s[i] == s[j]
    ensures multiset(s)[s[i]] >= 2
  {
    assert s == s[..i] + [s[i]] + s[i + 1..j] + [s[j]] + s[j + 1..];
  }

  /** In a string without repeats every character occurs at most once. */
  lemma {:induction false} NoDuplicatesMultiplicity(s: string, c: char)
    requires NoDuplicates(s)
    ensures multiset(s)[c] <= 1
    decreases |s|
  {
    if |s| > 0 {
      assert s == [s[0]] + s[1..];
      NoDuplicatesMultiplicity(s[1..], c);
      if s[0] == c {
        assert c !in s[1..];
      }
    }
  }

  /**
   The sorted set of characters is determined by its characters: two strictly
   ascending strings with the same characters are equal, so
   `getUniqCharacters` is the only string with its two properties.
   */
  lemma {:induction false} StrictlyAscendingIsUnique(a: string, b: string)
    requires StrictlyAscending(a) && StrictlyAscending(b)
    requires forall c :: c in a <==> c in b
    ensures a == b
    decreases |a|
  {
    if |a| > 0 {
      assert a[0] in b;
    }
    if |b| > 0 {
      assert b[0] in a;
    }
    if |a| > 0 {
      assert a[0] == b[0] by {
        assert a[0] in b && b[0] in a;
      }
      forall c
        ensures c in a[1..] <==> c in b[1..]
      {
        assert c in a[1..] <==> c in a && c != a[0];
        assert c in b[1..] <==> c in b && c != b[0];
      }
      StrictlyAscendingIsUnique(a[1..], b[1..]);
      assert a == [a[0]] + a[1..] && b == [b[0]] + b[1..];
    }
  }

  // ---------------------------------------------------------------------------
  // countCharacters
  // ---------------------------------------------------------------------------

  /** `charSet.indexOf(text.charAt(j).toUpperCase())`: the counter the `j`-th character feeds. */
  function Slot(charSet: string, upper: Upper, c: char): int {
    IndexOf(charSet, upper(c), 0)
  }

  /** How many characters of `text` feed counter `i`. */
  function Hits(text: string, upper: Upper, charSet: string, i: nat): nat
    decreases |text|
  {
    if |text| == 0 then 0
    else Hits(text[..|text| - 1], upper, charSet, i) + (if Slot(charSet, upper, text[|text| - 1]) == i then 1 else 0)
  }

  function Sum(s: seq<nat>): nat {
    if |s| == 0 then 0 else s[0] + Sum(s[1..])
  }

  lemma {:induction false} SumBump(s: seq<nat>, i: nat)
    requires i < |s|
    ensures Sum(s[i := s[i] + 1]) == Sum(s) + 1
    decreases |s|
  {
    if i > 0 {
      SumBump(s[1..], i - 1);
      assert s[i := s[i] + 1][1..] == s[1..][i - 1 := s[i] + 1];
    }
  }

  /** The zero counters `setup` prepares, one per character of the set. */
  function Zeros(n: nat): (r: seq<nat>)
    ensures |r| == n && Sum(r) == 0
    ensures forall i :: 0 <= i < n ==> r[i] == 0
  {
    if n == 0 then [] else [0] + Zeros(n - 1)
  }

  /**
   `countCharacters` on counters that `setup` zeroed: each character of the
   text adds one to the counter of the set position its upper-cased form is
   found at, and nothing when it is not found. The total never exceeds the
   length of the text.
   */
  method CountCharacters(text: string, upper: Upper, charSet: string) returns (counters: seq<nat>)
    ensures |counters| == |charSet|
    ensures forall i :: 0 <= i < |charSet| ==> counters[i] == Hits(text, upper, charSet, i)
    ensures Sum(counters) <= |text|
    ensures (forall j :: 0 <= j < |text| ==> Slot(charSet, upper, text[j]) >= 0) ==> Sum(counters) == |text|
  {
    counters := Zeros(|charSet|);
    var j := 0;
    while j < |text|
      invariant 0 <= j <= |text|
      invariant |counters| == |charSet|
      invariant forall i :: 0 <= i < |charSet| ==> counters[i] == Hits(text[..j], upper, charSet, i)
      invariant Sum(counters) <= j
      invariant (forall k :: 0 <= k < j ==> Slot(charSet, upper, text[k]) >= 0) ==> Sum(counters) == j
    {
      assert text[..j + 1][..j] == text[..j];
      var index := IndexOf(charSet, upper(text[j]), 0);
      if index >= 0 {
        SumBump(counters, index);
        counters := counters[index := counters[index] + 1];
      }
      j := j + 1;
    }
    assert text[..j] == text;
  }

  /**
   The part of `setup` this model covers: the character set of the joined
   text and its counters, first zeroed and then filled by `countCharacters`.
   */
  method Setup(text: string, upper: Upper) returns (charSet: string, counters: seq<nat>)
    ensures StrictlyAscending(charSet)
    ensures forall c :: c in charSet <==> c in UpperText(text, upper)
    ensures |counters| == |charSet|
    ensures forall i :: 0 <= i < |charSet| ==> counters[i] == Hits(text, upper, charSet, i)
    ensures Sum(counters) <= |text|
    ensures (forall c :: |upper(c)| == 1) ==> Sum(counters) == |text|
    ensures (forall c :: |upper(c)| == 1) ==>
      forall i :: 0 <= i < |charSet| ==> counters[i] == CountChar(UpperText(text, upper), charSet[i])
  {
    charSet := GetUniqCharacters(text, upper);
    counters := CountCharacters(text, upper, charSet);
    if forall c :: |upper(c)| == 1 {
      forall j | 0 <= j < |text|
        ensures Slot(charSet, upper, text[j]) >= 0
      {
        EveryCharacterCounted(text, upper, charSet, j);
      }
      forall i | 0 <= i < |charSet|
        ensures counters[i] == CountChar(UpperText(text, upper), charSet[i])
      {
        HitsCountOccurrences(text, upper, charSet, i);
      }
    }
  }

  /** In a string without repeats, a one-character search finds the position holding that character. */
  lemma SlotOfSingle(charSet: string, c: char, i: nat)
    requires NoDuplicates(charSet) && i < |charSet|
    ensures IndexOf(charSet, [c], 0) == i <==> charSet[i] == c
  {
    var k := IndexOf(charSet, [c], 0);
    assert charSet[i..i + 1] == [charSet[i]];
    if k >= 0 {
      assert charSet[k..k + 1] == [charSet[k]];
    }
    if charSet[i] == c {
      assert LiteralAt(charSet, i, [c]);
      assert 0 <= k <= i;
      assert charSet[k] == c;
    }
  }

  /**
   When every character upper-cases to a single one, counter `i` of the set
   `getUniqCharacters` builds is the number of times `charSet[i]` occurs in
   the upper-cased text.
   */
  lemma {:induction false} HitsCountOccurrences(text: string, upper: Upper, charSet: string, i: nat)
    requires forall c :: |upper(c)| == 1
    requires NoDuplicates(charSet) && i < |charSet|
    ensures Hits(text, upper, charSet, i) == CountChar(UpperText(text, upper), charSet[i])
    decreases |text|
  {
    if |text| > 0 {
      var init := text[..|text| - 1];
      var c := text[|text| - 1];
      HitsCountOccurrences(init, upper, charSet, i);
      CountCharAppend(UpperText(init, upper), upper(c), charSet[i]);
      assert upper(c) == [upper(c)[0]];
      SlotOfSingle(charSet, upper(c)[0], i);
      assert CountChar(upper(c), charSet[i]) == (if upper(c)[0] == charSet[i] then 1 else 0) by {
        assert upper(c)[1..] == [];
      }
    }
  }

  /** The upper-cased form of each character of the text is part of the upper-cased text. */
  lemma UpperOfEachInText(text: string, upper: Upper, j: nat)
    requires j < |text|
    ensures upper(text[j])[0] in UpperText(text, upper)
  {
    var c := upper(text[j])[0];
    assert c in upper(text[j]);
    InUpperText(text, upper, c);
  }

  /** A one-character search finds a character that the string holds. */
  lemma SlotOfMember(charSet: string, u: string)
    requires |u| == 1 && u[0] in charSet
    ensures IndexOf(charSet, u, 0) >= 0
  {
    var k :| 0 <= k < |charSet| && charSet[k] == u[0];
    assert charSet[k..k + 1] == u;
    assert LiteralAt(charSet, k, u);
  }

  /**
   When every character upper-cases to a single one, every character of the
   text is found in a set holding the characters of the upper-cased text, so
   the counters `setup` ends with add up to the length of the text.
   */
  lemma EveryCharacterCounted(text: string, upper: Upper, charSet: string, j: nat)
    requires forall c :: |upper(c)| == 1
    requires forall c :: c in charSet <==> c in UpperText(text, upper)
    requires j < |text|
    ensures Slot(charSet, upper, text[j]) >= 0
  {
    UpperOfEachInText(text, upper, j);
    SlotOfMember(charSet, upper(text[j]));
  }
}
