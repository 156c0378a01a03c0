/** Frequency counting: one pass over the text building an insertion-ordered
    dictionary from each character to its number of occurrences. The order of
    the keys matters downstream, because it fixes the order in which leaves
    enter the priority queue. */
module Frequency {

  /** A character and how often it occurs. */
  type Entry = (char, nat)

  /** An insertion-ordered dictionary: `keys` lists the keys in the order
      they were first inserted, `counts` maps each key to its value. */
  datatype Dict = Dict(keys: seq<char>, counts: map<char, nat>)

  ghost predicate Valid(d: Dict) {
    && (forall i, j :: 0 <= i < j < |d.keys| ==> d.keys[i] != d.keys[j])
    && (forall c :: c in d.counts <==> c in d.keys)
  }

  /** The dictionary's (key, value) pairs in key order. */
  function Items(d: Dict): (s: seq<Entry>)
    requires forall c :: c in d.keys ==> c in d.counts
    ensures |s| == |d.keys|
    ensures forall i :: 0 <= i < |s| ==> s[i] == (d.keys[i], d.counts[d.keys[i]])
  {
    seq(|d.keys|, i requires 0 <= i < |d.keys| => (d.keys[i], d.counts[d.keys[i]]))
  }

  /** The sum of the counts of a list of entries. */
  function Total(s: seq<Entry>): nat {
    if |s| == 0 then 0 else Total(s[..|s| - 1]) + s[|s| - 1].1
  }

  /** The distinct characters of a text. */
  function Alphabet(text: string): set<char> {
    set c | c in text
  }

  /** The position of the first occurrence of `c` in `text`. */
  function FirstIndex(text: string, c: char): (i: nat)
    requires c in text
    ensures i < |text| && text[i] == c && c !in text[..i]
  {
    if text[0] == c then 0
    else
      assert c in text[1..];
      var j := FirstIndex(text[1..], c);
      assert text[..j + 1] == [text[0]] + text[1..][..j];
      j + 1
  }

  /** The first occurrence is the only occurrence with none before it. */
  lemma FirstIndexUnique(text: string, c: char, i: nat)
    requires i < |text| && text[i] == c && c !in text[..i]
    ensures FirstIndex(text, c) == i
  {
    var j := FirstIndex(text, c);
    assert forall k :: 0 <= k < i ==> text[..i][k] == text[k];
    assert forall k :: 0 <= k < j ==> text[..j][k] == text[k];
  }

  /** Raising one entry's count by one raises the total by one. */
  lemma {:induction false} TotalIncrement(s: seq<Entry>, k: nat)
    requires k < |s|
    ensures Total(s[k := (s[k].0, s[k].1 + 1)]) == Total(s) + 1
    decreases |s|
  {
    var s' := s[k := (s[k].0, s[k].1 + 1)];
    if k == |s| - 1 {
      assert s'[..|s'| - 1] == s[..|s| - 1];
    } else {
      var p := s[..|s| - 1];
      TotalIncrement(p, k);
      assert s'[..|s'| - 1] == p[k := (p[k].0, p[k].1 + 1)];
    }
  }

  /** `d` is the dictionary the counting loop holds after reading `seen`:
      its keys are the distinct characters of `seen` in order of first
      occurrence, each mapped to its number of occurrences. */
  ghost predicate Counts(d: Dict, seen: string) {
    && Valid(d)
    && (forall c :: c in d.counts <==> c in seen)
    && (forall c :: c in d.counts ==> d.counts[c] == multiset(seen)[c])
    && (forall i, j :: 0 <= i < j < |d.keys| ==>
          FirstIndex(seen, d.keys[i]) < FirstIndex(seen, d.keys[j]))
    && Total(Items(d)) == |seen|
  }

  /** One step of the counting loop: bump an existing key, else insert it
      with count 1 at the end of the key order. */
  function Tally(d: Dict, c: char): Dict {
    if c in d.counts then Dict(d.keys, d.counts[c := d.counts[c] + 1])
    else Dict(d.keys + [c], d.counts[c := 1])
  }

  /** Appending a character does not move the first occurrence of one
      already seen. */
  lemma FirstIndexAppend(seen: string, c: char, k: char)
    requires k in seen
    ensures FirstIndex(seen + [c], k) == FirstIndex(seen, k)
  {
    var i := FirstIndex(seen, k);
    assert (seen + [c])[..i] == seen[..i];
    FirstIndexUnique(seen + [c], k, i);
  }

  lemma TallyOrder(d: Dict, seen: string, c: char)
    requires Counts(d, seen)
    ensures forall i, j :: 0 <= i < j < |Tally(d, c).keys| ==>
              FirstIndex(seen + [c], Tally(d, c).keys[i]) < FirstIndex(seen + [c], Tally(d, c).keys[j])
  {
    var d' := Tally(d, c);
    forall k | k in seen
      ensures FirstIndex(seen + [c], k) == FirstIndex(seen, k)
    {
      FirstIndexAppend(seen, c, k);
    }
    if c !in d.counts {
      assert (seen + [c])[..|seen|] == seen;
      FirstIndexUnique(seen + [c], c, |seen|);
      forall i | 0 <= i < |d.keys|
        ensures FirstIndex(seen + [c], d'.keys[i]) < |seen|
      {
        assert d.keys[i] in d.counts;
      }
    }
  }

  lemma BumpTotal(d: Dict, k: nat)
    requires Valid(d) && k < |d.keys|
    ensures Total(Items(Tally(d, d.keys[k]))) == Total(Items(d)) + 1
  {
    var c := d.keys[k];
    var s := Items(d);
    var s' := Items(Tally(d, c));
    assert c in d.counts;
    forall i | 0 <= i < |s|
      ensures s'[i] == s[k := (c, d.counts[c] + 1)][i]
    {
      if i != k {
        assert d.keys[i] != c;
      }
    }
    assert s' == s[k := (s[k].0, s[k].1 + 1)];
    TotalIncrement(s, k);
  }

  lemma InsertTotal(d: Dict, c: char)
    requires Valid(d) && c !in d.counts
    ensures Total(Items(Tally(d, c))) == Total(Items(d)) + 1
  {
    var s := Items(d);
    var s' := Items(Tally(d, c));
    forall i | 0 <= i < |s|
      ensures s'[i] == s[i]
    {
      assert d.keys[i] != c;
    }
    assert s'[..|s'| - 1] == s;
  }

  lemma TallyTotal(d: Dict, seen: string, c: char)
    requires Counts(d, seen)
    ensures Total(Items(Tally(d, c))) == |seen| + 1
  {
    if c in d.counts {
      var k :| 0 <= k < |d.keys| && d.keys[k] == c;
      BumpTotal(d, k);
    } else {
      InsertTotal(d, c);
    }
  }

  lemma {:induction false} TallyCounts(d: Dict, seen: string, c: char)
    requires Counts(d, seen)
    ensures Counts(Tally(d, c), seen + [c])
  {
    TallyOrder(d, seen, c);
    TallyTotal(d, seen, c);
    assert multiset(seen + [c]) == multiset(seen) + multiset{c};
  }

  /** One pass over the text, incrementing the count of a character already
      seen and inserting a new key with count 1 otherwise. The keys are
      exactly the distinct characters, in order of first occurrence, each
      with its number of occurrences; so the counts add up to the length. */
  method CalculateFrequencies(text: string) returns (d: Dict)
    ensures Valid(d)
    ensures forall c :: c in d.counts <==> c in text
    ensures forall c :: c in d.counts ==> d.counts[c] == multiset(text)[c]
    ensures forall i, j :: 0 <= i < j < |d.keys| ==>
              FirstIndex(text, d.keys[i]) < FirstIndex(text, d.keys[j])
    ensures Total(Items(d)) == |text|
  {
    d := Dict([], map[]);
    for n := 0 to |text|
      invariant Counts(d, text[..n])
    {
      assert text[..n + 1] == text[..n] + [text[n]];
      TallyCounts(d, text[..n], text[n]);
      d := Tally(d, text[n]);
    }
    assert text[..|text|] == text;
  }
}
