/** Encoding: the code of each character of the text, concatenated in text
    order. A character without a code stops the encoding at its first
    occurrence. */
module Encoding {
  import opened Results
  import opened Bits
  import opened Frequency

  function Encode(text: string, codes: map<char, Code>): (r: Result<Code>)
    ensures r.Ok? <==> forall i :: 0 <= i < |text| ==> text[i] in codes
    ensures r.Err? ==> r.error.UnknownSymbol? && r.error.symbol in text && r.error.symbol !in codes
    ensures r.Err? ==> forall j :: 0 <= j < FirstIndex(text, r.error.symbol) ==> text[j] in codes
    ensures r.Ok? && (forall c :: c in codes ==> 0 < |codes[c]|) ==> |text| <= |r.value|
  {
    if |text| == 0 then Ok([])
    else if text[0] !in codes then Err(UnknownSymbol(text[0]))
    else match Encode(text[1..], codes)
      case Ok(rest) => Ok(codes[text[0]] + rest)
      case Err(e) =>
        assert e.symbol in text[1..];
        assert FirstIndex(text, e.symbol) == FirstIndex(text[1..], e.symbol) + 1 by {
          var i := FirstIndex(text[1..], e.symbol);
          assert text[..i + 1] == [text[0]] + text[1..][..i];
          FirstIndexUnique(text, e.symbol, i + 1);
        }
        Err(e)
  }

  /** Encoding is a homomorphism from texts to bit strings: a single
      character encodes to its code, and the encoding of a concatenation is
      the concatenation of the encodings. */
  lemma {:induction false} EncodeConcat(a: string, b: string, codes: map<char, Code>)
    requires Encode(a, codes).Ok? && Encode(b, codes).Ok?
    ensures Encode(a + b, codes) == Ok(Encode(a, codes).value + Encode(b, codes).value)
    ensures forall c :: c in codes ==> Encode([c], codes) == Ok(codes[c])
    decreases |a|
  {
    if |a| == 0 {
      assert a + b == b;
      assert [] + Encode(b, codes).value == Encode(b, codes).value;
    } else {
      assert (a + b)[0] == a[0];
      assert (a + b)[1..] == a[1..] + b;
      EncodeConcat(a[1..], b, codes);
      var x, y := Encode(a[1..], codes).value, Encode(b, codes).value;
      assert codes[a[0]] + (x + y) == (codes[a[0]] + x) + y;
    }
    forall c | c in codes
      ensures Encode([c], codes) == Ok(codes[c])
    {
      assert [c][1..] == [];
      assert codes[c] + [] == codes[c];
    }
  }

  /** When every code is empty the encoding is empty. */
  lemma {:induction false} EncodeEmptyCodes(text: string, codes: map<char, Code>)
    requires forall i :: 0 <= i < |text| ==> text[i] in codes
    requires forall c :: c in codes ==> codes[c] == []
    ensures Encode(text, codes) == Ok([])
    decreases |text|
  {
    if 0 < |text| {
      EncodeEmptyCodes(text[1..], codes);
    }
  }
}
