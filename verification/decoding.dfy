/** Decoding: the code table is inverted, then the bits are read one at a
    time into a buffer that is flushed to its character as soon as it
    equals a known code. Bits still in the buffer when the input ends are
    dropped without an error. */
module Decoding {
  import opened Bits
  import opened CodeTable
  import opened Encoding

  /** No two characters share a code. */
  ghost predicate Injective(codes: map<char, Code>) {
    forall a, b :: a in codes && b in codes && a != b ==> codes[a] != codes[b]
  }

  /** The reversed table: each code mapped to a character that has it. When
      two characters share a code only one of them can be kept, and which
      one is not determined here. */
  ghost function Reverse(codes: map<char, Code>): (rev: map<Code, char>)
    ensures rev.Keys == codes.Values
    ensures forall v :: v in rev ==> rev[v] in codes && codes[rev[v]] == v
  {
    map v | v in codes.Values :: var c :| c in codes && codes[c] == v; c
  }

  /** Reversing loses nothing exactly when no two characters share a code. */
  lemma ReverseLossless(codes: map<char, Code>)
    ensures Injective(codes) <==> forall c :: c in codes ==> Reverse(codes)[codes[c]] == c
  {
    var rev := Reverse(codes);
    if Injective(codes) {
      forall c | c in codes
        ensures rev[codes[c]] == c
      {
        assert codes[c] in codes.Values;
      }
    } else {
      var a, b :| a in codes && b in codes && a != b && codes[a] == codes[b];
      assert codes[a] in codes.Values;
      assert rev[codes[a]] != a || rev[codes[b]] != b;
    }
  }

  /** A prefix-free table has no shared codes, since every code is a prefix
      of itself. */
  lemma PrefixFreeInjective(codes: map<char, Code>)
    requires PrefixFree(codes)
    ensures Injective(codes)
  {
    forall a, b | a in codes && b in codes && a != b
      ensures codes[a] != codes[b]
    {
      assert !IsPrefix(codes[a], codes[b]);
    }
  }

  /** The buffer loop. Returns the decoded text and the bits left in the
      buffer at the end. Each decoded character consumes at least one bit,
      the leftover is a suffix of the input, and once a bit has been read a
      non-empty leftover is not itself a code. */
  function DecodeLoop(bits: Code, rev: map<Code, char>, buffer: Code): (r: (string, Code))
    ensures |r.0| <= |bits|
    ensures |r.1| <= |buffer + bits| && r.1 == (buffer + bits)[|buffer + bits| - |r.1|..]
    ensures 0 < |bits| && 0 < |r.1| ==> r.1 !in rev
    decreases |bits|
  {
    if |bits| == 0 then ("", buffer)
    else
      var b := buffer + [bits[0]];
      assert buffer + bits == b + bits[1..];
      if b in rev then
        var (text, left) := DecodeLoop(bits[1..], rev, []);
        ([rev[b]] + text, left)
      else
        DecodeLoop(bits[1..], rev, b)
  }

  /** The code words laid end to end. */
  ghost function Concat(ws: seq<Code>): Code {
    if |ws| == 0 then [] else ws[0] + Concat(ws[1..])
  }

  /** Each word is a code of the reversed table, and the character it maps
      to is the matching character of `text`. */
  ghost predicate Words(ws: seq<Code>, rev: map<Code, char>, text: string) {
    |ws| == |text| && forall i :: 0 <= i < |ws| ==> ws[i] in rev && rev[ws[i]] == text[i]
  }

  /** Every word is the shortest code it starts with: no proper non-empty
      prefix of a word is a code, except that the first `skip` bits of the
      first word (those already in the buffer) were never looked up. */
  ghost predicate Shortest(ws: seq<Code>, rev: map<Code, char>, skip: nat) {
    forall i, j :: 0 <= i < |ws| && 0 < j < |ws[i]| && (i == 0 ==> skip < j) ==> ws[i][..j] !in rev
  }

  /** No prefix of `left` longer than `skip` bits is a code: the loop
      would have flushed it. */
  ghost predicate NoCodeStarts(left: Code, rev: map<Code, char>, skip: nat) {
    forall j :: skip < j <= |left| ==> left[..j] !in rev
  }

  /** `input` is the words laid end to end followed by `left`. The words
      decode to `text`; each is non-empty, the first is longer than the
      `skip` bits it started with, and each is the shortest code at its
      position. No code starts the leftover either, beyond the `skip` bits
      when there is no word. */
  ghost predicate Decoded(ws: seq<Code>, rev: map<Code, char>, text: string, left: Code, input: Code, skip: nat) {
    Words(ws, rev, text) && Concat(ws) + left == input
      && Shortest(ws, rev, skip)
      && (forall i :: 0 <= i < |ws| ==> (if i == 0 then skip else 0) < |ws[i]|)
      && NoCodeStarts(left, rev, if |ws| == 0 then skip else 0)
  }

  /** A code found in the buffer, put in front of the words decoded after
      it, keeps the words' properties: it has no proper prefix longer than
      the buffer was. */
  lemma WordFound(b: Code, ws: seq<Code>, text: string, rest: Code, left: Code, rev: map<Code, char>, skip: nat)
    requires b in rev && |b| == skip + 1
    requires Decoded(ws, rev, text, left, rest, 0)
    ensures Decoded([b] + ws, rev, [rev[b]] + text, left, b + rest, skip)
  {
    var ws' := [b] + ws;
    assert ws'[1..] == ws;
    assert Concat(ws') + left == b + (Concat(ws) + left);
    forall i | 0 < i < |ws'|
      ensures ws'[i] == ws[i - 1] && ([rev[b]] + text)[i] == text[i - 1]
    {
    }
    forall i, j | 0 < i < |ws'| && 0 < j < |ws'[i]|
      ensures ws'[i][..j] !in rev
    {
      assert ws'[i] == ws[i - 1];
    }
  }

  /** A buffer that is not a code, extended by one bit: the first word
      decoded after it, or the leftover when there is no word, starts with
      that buffer, so its prefix as long as the buffer is not a code
      either. */
  lemma BufferNotWord(ws: seq<Code>, b: Code, text: string, rest: Code, left: Code, rev: map<Code, char>)
    requires 0 < |b| && b !in rev
    requires Decoded(ws, rev, text, left, b + rest, |b|)
    ensures Decoded(ws, rev, text, left, b + rest, |b| - 1)
  {
    if 0 < |ws| {
      assert ws[0][..|b|] == b by {
        assert Concat(ws) + left == ws[0] + (Concat(ws[1..]) + left);
        assert (b + rest)[..|b|] == b;
        assert (ws[0] + (Concat(ws[1..]) + left))[..|b|] == ws[0][..|b|];
      }
    } else {
      assert left == b + rest;
      assert left[..|b|] == b;
    }
  }

  /** What the buffer loop decodes: the bits it consumes (the buffer and
      the input, without the leftover) split into consecutive code words,
      each the shortest code at its position, and the decoded text is their
      characters in order. */
  lemma {:induction false} DecodeLoopWords(bits: Code, rev: map<Code, char>, buffer: Code)
    ensures exists ws :: Decoded(ws, rev, DecodeLoop(bits, rev, buffer).0,
                                 DecodeLoop(bits, rev, buffer).1, buffer + bits, |buffer|)
    decreases |bits|
  {
    var r := DecodeLoop(bits, rev, buffer);
    if |bits| == 0 {
      var ws: seq<Code> := [];
      assert Decoded(ws, rev, r.0, r.1, buffer + bits, |buffer|);
    } else {
      var b := buffer + [bits[0]];
      assert buffer + bits == b + bits[1..];
      if b in rev {
        DecodeLoopWords(bits[1..], rev, []);
        var r' := DecodeLoop(bits[1..], rev, []);
        assert r == ([rev[b]] + r'.0, r'.1);
        var ws' :| Decoded(ws', rev, r'.0, r'.1, [] + bits[1..], 0);
        assert [] + bits[1..] == bits[1..];
        WordFound(b, ws', r'.0, bits[1..], r'.1, rev, |buffer|);
        var ws := [b] + ws';
        assert Decoded(ws, rev, r.0, r.1, buffer + bits, |buffer|);
      } else {
        DecodeLoopWords(bits[1..], rev, b);
        assert r == DecodeLoop(bits[1..], rev, b);
        var ws :| Decoded(ws, rev, r.0, r.1, b + bits[1..], |b|);
        BufferNotWord(ws, b, r.0, bits[1..], r.1, rev);
        assert Decoded(ws, rev, r.0, r.1, buffer + bits, |buffer|);
      }
    }
  }

  /** The first word opens the input, and the rest of the input is the
      remaining words followed by the leftover. */
  lemma FirstWord(ws: seq<Code>, rev: map<Code, char>, text: string, left: Code, input: Code, skip: nat)
    requires Decoded(ws, rev, text, left, input, skip) && 0 < |ws|
    ensures skip < |ws[0]| <= |input| && ws[0] in rev
    ensures input[..|ws[0]|] == ws[0] && input[|ws[0]|..] == Concat(ws[1..]) + left
  {
    assert input == ws[0] + (Concat(ws[1..]) + left);
  }

  /** Dropping the first word leaves a decoding of the rest of the input,
      with nothing skipped. */
  lemma RestDecoded(ws: seq<Code>, rev: map<Code, char>, text: string, left: Code, input: Code, skip: nat)
    requires Decoded(ws, rev, text, left, input, skip) && 0 < |ws|
    ensures Decoded(ws[1..], rev, text[1..], left, input[|ws[0]|..], 0)
  {
    FirstWord(ws, rev, text, left, input, skip);
    var ws' := ws[1..];
    forall i | 0 <= i < |ws'|
      ensures ws'[i] == ws[i + 1] && text[1..][i] == text[i + 1]
    {
    }
    forall i, j | 0 <= i < |ws'| && 0 < j < |ws'[i]|
      ensures ws'[i][..j] !in rev
    {
      assert ws'[i] == ws[i + 1];
    }
  }

  /** Without words the whole input is the leftover, so no code starts it
      beyond the skipped bits. */
  lemma NoWords(ws: seq<Code>, rev: map<Code, char>, text: string, left: Code, input: Code, skip: nat)
    requires Decoded(ws, rev, text, left, input, skip) && |ws| == 0
    ensures left == input && NoCodeStarts(input, rev, skip)
  {
    assert Concat(ws) + left == [] + left == left;
  }

  /** Two decodings of one input either both have words or both have none,
      and then start with the same word: a shorter first word would be a
      code starting the other's first word or its leftover. */
  lemma SameFirstWord(ws1: seq<Code>, text1: string, left1: Code,
                      ws2: seq<Code>, text2: string, left2: Code,
                      rev: map<Code, char>, input: Code, skip: nat)
    requires Decoded(ws1, rev, text1, left1, input, skip)
    requires Decoded(ws2, rev, text2, left2, input, skip)
    ensures |ws1| == 0 <==> |ws2| == 0
    ensures 0 < |ws1| ==> ws1[0] == ws2[0] && text1[0] == text2[0]
  {
    if 0 < |ws1| {
      FirstWord(ws1, rev, text1, left1, input, skip);
    } else {
      NoWords(ws1, rev, text1, left1, input, skip);
    }
    if 0 < |ws2| {
      FirstWord(ws2, rev, text2, left2, input, skip);
    } else {
      NoWords(ws2, rev, text2, left2, input, skip);
    }
    if 0 < |ws1| && 0 < |ws2| {
      var w1, w2 := ws1[0], ws2[0];
      assert |w1| <= |w2| ==> w2[..|w1|] == w1;
      assert |w2| <= |w1| ==> w1[..|w2|] == w2;
      assert |w1| == |w2|;
      assert text1[0] == rev[w1] && text2[0] == rev[w2];
    }
  }

  /** At most one decoding fits an input: the words, the text and the
      leftover are determined by the input, the table and `skip`. */
  lemma {:induction false} DecodedUnique(ws1: seq<Code>, text1: string, left1: Code,
                                          ws2: seq<Code>, text2: string, left2: Code,
                                          rev: map<Code, char>, input: Code, skip: nat)
    requires Decoded(ws1, rev, text1, left1, input, skip)
    requires Decoded(ws2, rev, text2, left2, input, skip)
    ensures ws1 == ws2 && text1 == text2 && left1 == left2
    decreases |ws1|
  {
    SameFirstWord(ws1, text1, left1, ws2, text2, left2, rev, input, skip);
    if 0 < |ws1| {
      RestDecoded(ws1, rev, text1, left1, input, skip);
      RestDecoded(ws2, rev, text2, left2, input, skip);
      DecodedUnique(ws1[1..], text1[1..], left1, ws2[1..], text2[1..], left2, rev, input[|ws1[0]|..], 0);
      assert ws1 == [ws1[0]] + ws1[1..] && ws2 == [ws2[0]] + ws2[1..];
      assert text1 == [text1[0]] + text1[1..] && text2 == [text2[0]] + text2[1..];
    } else {
      NoWords(ws1, rev, text1, left1, input, skip);
      NoWords(ws2, rev, text2, left2, input, skip);
    }
  }

  /** The characterisation is exact: any decoding of the buffer and the
      input is the one the loop computes. */
  lemma DecodeLoopDetermined(bits: Code, rev: map<Code, char>, buffer: Code,
                             ws: seq<Code>, text: string, left: Code)
    requires Decoded(ws, rev, text, left, buffer + bits, |buffer|)
    ensures DecodeLoop(bits, rev, buffer) == (text, left)
  {
    DecodeLoopWords(bits, rev, buffer);
    var r := DecodeLoop(bits, rev, buffer);
    var ws' :| Decoded(ws', rev, r.0, r.1, buffer + bits, |buffer|);
    DecodedUnique(ws, text, left, ws', r.0, r.1, rev, buffer + bits, |buffer|);
  }

  /** The text the decoder writes out: the buffer loop over the bits with
      the reversed table, its leftover dropped. Every character it writes
      has a code in the table, and it writes at most one per bit. */
  ghost function Decode(bits: Code, codes: map<char, Code>): (text: string)
    ensures |text| <= |bits|
    ensures forall i :: 0 <= i < |text| ==> text[i] in codes
  {
    DecodeLoopWords(bits, Reverse(codes), []);
    DecodeLoop(bits, Reverse(codes), []).0
  }

  /** Reading the rest of a code that is already partly in the buffer
      yields its character and leaves the buffer empty, provided no shorter
      non-empty prefix of the code is itself a code. */
  lemma {:induction false} DecodeOneCode(code: Code, k: nat, rest: Code, rev: map<Code, char>, c: char)
    requires k < |code|
    requires code in rev && rev[code] == c
    requires forall j :: k < j < |code| ==> code[..j] !in rev
    ensures DecodeLoop(code[k..] + rest, rev, code[..k]) ==
              ([c] + DecodeLoop(rest, rev, []).0, DecodeLoop(rest, rev, []).1)
    decreases |code| - k
  {
    var bits := code[k..] + rest;
    assert bits[0] == code[k];
    assert code[..k] + [bits[0]] == code[..k + 1];
    if k + 1 == |code| {
      assert code[..k + 1] == code;
      assert bits[1..] == rest;
    } else {
      assert bits[1..] == code[k + 1..] + rest;
      DecodeOneCode(code, k + 1, rest, rev, c);
    }
  }

  /** In a prefix-free table, a proper non-empty prefix of a code is not a
      code, and the reversed table maps each code back to its character. */
  lemma ReverseOfPrefixFree(codes: map<char, Code>, c: char)
    requires PrefixFree(codes) && c in codes
    ensures Reverse(codes)[codes[c]] == c
    ensures forall j :: 0 < j < |codes[c]| ==> codes[c][..j] !in Reverse(codes)
  {
    PrefixFreeInjective(codes);
    ReverseLossless(codes);
    var code := codes[c];
    forall j | 0 < j < |code|
      ensures code[..j] !in Reverse(codes)
    {
      forall d | d in codes && codes[d] == code[..j]
        ensures false
      {
        assert d != c;
        assert IsPrefix(codes[d], code);
      }
    }
  }

  /** Decoding inverts encoding: for a prefix-free table of non-empty codes
      that covers the text, the buffer loop over the encoded bits gives back
      the text exactly, with nothing left in the buffer. */
  lemma {:induction false} DecodeEncode(text: string, codes: map<char, Code>)
    requires PrefixFree(codes)
    requires forall c :: c in codes ==> 0 < |codes[c]|
    requires forall i :: 0 <= i < |text| ==> text[i] in codes
    ensures Encode(text, codes).Ok?
    ensures DecodeLoop(Encode(text, codes).value, Reverse(codes), []) == (text, [])
    decreases |text|
  {
    if 0 < |text| {
      var c := text[0];
      var code := codes[c];
      var rest := Encode(text[1..], codes).value;
      var rev := Reverse(codes);
      assert Encode(text, codes).value == code + rest;
      ReverseOfPrefixFree(codes, c);
      DecodeOneCode(code, 0, rest, rev, c);
      assert code[0..] == code && code[..0] == [];
      DecodeEncode(text[1..], codes);
      assert [c] + text[1..] == text;
    }
  }
}
