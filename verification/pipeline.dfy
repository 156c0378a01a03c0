/** The whole coder: build the tree from the text, derive the code table,
    encode the text and pack the bits; what is saved is the packed bytes,
    the table and the bit length. Decompression unpacks the bytes to that
    length and runs the decoder with the saved table. */
module Pipeline {
  import opened Results
  import opened Bits
  import opened Frequency
  import opened HuffmanTree
  import opened TreeBuilder
  import opened CodeTable
  import opened Encoding
  import opened Packing
  import opened Decoding

  /** What compression saves: the packed bytes, the code table and the
      number of meaningful bits. */
  datatype Saved = Saved(data: seq<Byte>, codes: map<char, Code>, length: nat)

  /** The text recovered from what was saved: only characters of the saved
      table, at most one per unpacked bit. */
  ghost function Decompress(s: Saved): (text: string)
    ensures |text| <= |Unpack(s.data, s.length)|
    ensures forall i :: 0 <= i < |text| ==> text[i] in s.codes
  {
    Decode(Unpack(s.data, s.length), s.codes)
  }

  /** What is saved for an encodable text with a prefix-free table of
      non-empty codes decompresses to that text. */
  lemma SavedRoundTrip(text: string, codes: map<char, Code>)
    requires PrefixFree(codes)
    requires forall c :: c in codes ==> 0 < |codes[c]|
    requires forall i :: 0 <= i < |text| ==> text[i] in codes
    requires 0 < |text|
    ensures Encode(text, codes).Ok? && Pack(Encode(text, codes).value).Ok?
    ensures var bits := Encode(text, codes).value;
      Decompress(Saved(Pack(bits).value, codes, |bits|)) == text
  {
    DecodeEncode(text, codes);
    PackRoundTrip(Encode(text, codes).value);
  }

  /** Compresses a text. An empty text fails when the last tree is popped
      from the empty queue; a text of one distinct character gets the empty
      code, so its bit string is empty and cannot be packed. A text of two
      or more distinct characters is saved, and decompressing what was saved
      gives the text back. */
  method Compress(text: string) returns (r: Result<Saved>)
    ensures |text| == 0 ==> r == Err(EmptyQueue)
    ensures |Alphabet(text)| == 1 ==> r == Err(EmptyBitString)
    ensures 2 <= |Alphabet(text)| <==> r.Ok?
    ensures r.Ok? ==> Decompress(r.value) == text
    ensures r.Ok? ==> |r.value.data| == (r.value.length + 7) / 8
    ensures r.Ok? ==> r.value.codes.Keys == Alphabet(text) && PrefixFree(r.value.codes)
  {
    var tree := BuildHuffmanTree(text);
    if tree.Err? {
      assert Alphabet(text) == {};
      return Err(tree.error);
    }
    var t := tree.value;
    var codes := Codes(t);
    CodesArePaths(t);
    CodesPrefixFree(t);
    CodesNonEmpty(t);
    NodeHasTwoChars(t);
    assert forall i :: 0 <= i < |text| ==> text[i] in codes by {
      forall i | 0 <= i < |text|
        ensures text[i] in codes
      {
        assert text[i] in Alphabet(text);
      }
    }
    assert 1 <= |Alphabet(text)| by {
      assert text[0] in Alphabet(text);
    }
    var encoded := Encode(text, codes);
    var bits := encoded.value;
    if t.Leaf? {
      EncodeEmptyCodes(text, codes);
    }
    var packed := Pack(bits);
    if packed.Err? {
      return Err(packed.error);
    }
    SavedRoundTrip(text, codes);
    r := Ok(Saved(packed.value, codes, |bits|));
  }
}
