/** The frequency table of Greedy/Huffman_coding.py: every distinct character
    of the text mapped to its number of occurrences. */
module Frequency {

  /** Occurrences of c in s, counted as the text's own `count` counts a
      one-character string. */
  function Count(s: string, c: char): (n: nat)
    ensures n == multiset(s)[c]
    ensures n <= |s|
  {
    if s == [] then 0
    else
      assert s == [s[0]] + s[1..];
      (if s[0] == c then 1 else 0) + Count(s[1..], c)
  }

  /** The table built by the dictionary comprehension over the set of the
      text's characters. */
  function Frequencies(text: string): (freq: map<char, nat>)
    ensures forall c :: c in freq <==> c in text
    ensures forall c | c in freq :: freq[c] == multiset(text)[c] && freq[c] >= 1
  {
    map c | c in text :: Count(text, c)
  }

  /** The table's entries as (character, count) pairs, as the table's
      `items()` yields them. */
  function Items(freq: map<char, nat>): multiset<(char, nat)>
  {
    multiset(ItemsOver(freq, freq.Keys))
  }

  /** The entries of the table whose character is in cs. */
  function ItemsOver(freq: map<char, nat>, cs: set<char>): set<(char, nat)>
    requires cs <= freq.Keys
  {
    set c | c in cs :: (c, freq[c])
  }

  /** Adding one more character adds exactly its own entry, once. */
  lemma ItemsOverAdd(freq: map<char, nat>, cs: set<char>, k: char)
    requires cs <= freq.Keys && k in freq && k !in cs
    ensures multiset(ItemsOver(freq, cs + {k})) == multiset(ItemsOver(freq, cs)) + multiset{(k, freq[k])}
    ensures multiset(cs + {k}) == multiset(cs) + multiset{k}
  {
    var before, after := ItemsOver(freq, cs), ItemsOver(freq, cs + {k});
    assert (k, freq[k]) !in before;
    assert after == before + {(k, freq[k])};
  }

  /** The number of positions of t whose character is in ms, each counted
      with that character's multiplicity in ms. */
  function CountIn(t: string, ms: multiset<char>): nat
  {
    if t == [] then 0 else ms[t[0]] + CountIn(t[1..], ms)
  }

  lemma {:induction false} CountInNothing(t: string)
    ensures CountIn(t, multiset{}) == 0
  {
    if t != [] {
      CountInNothing(t[1..]);
    }
  }

  lemma {:induction false} CountInAdd(t: string, c: char, ms: multiset<char>)
    ensures CountIn(t, multiset{c} + ms) == Count(t, c) + CountIn(t, ms)
  {
    if t != [] {
      CountInAdd(t[1..], c, ms);
    }
  }

  /** When every character of t is counted exactly once, the counts add up
      to the length of t. */
  lemma {:induction false} CountInOnce(t: string, ms: multiset<char>)
    requires forall c | c in t :: ms[c] == 1
    ensures CountIn(t, ms) == |t|
  {
    if t != [] {
      assert forall c | c in t[1..] :: c in t;
      CountInOnce(t[1..], ms);
    }
  }
}
