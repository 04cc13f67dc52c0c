/**
 * `huffmanCompress` and `huffmanDecompress`: count the symbols, build the
 * tree and its code table, encode the text behind a one-character symmetry
 * flag; then strip the flag and decode greedily through the inverted table.
 */
module HuffmanCoder {
  import opened Wrappers
  import opened Text
  import opened Symmetry
  import opened ObjectOrder
  import opened HuffmanTree
  import opened HuffmanCodes

  // ---------------------------------------------------------------------
  // Frequency counting

  /** How often `c` occurs according to the table (absent means zero). */
  function Count(frequencies: map<char, nat>, c: char): nat {
    if c in frequencies then frequencies[c] else 0
  }

  /** The frequency table after counting the characters of `s` one by one. */
  function Frequencies(s: string): map<char, nat> {
    if s == [] then map[]
    else
      var before := Frequencies(s[..|s| - 1]);
      var c := s[|s| - 1];
      before[c := Count(before, c) + 1]
  }

  /**
   * Exactly the characters of `s` are counted, each with its number of
   * occurrences, which is positive.
   */
  lemma {:induction false} FrequenciesCount(s: string)
    ensures Frequencies(s).Keys == Symbols(s)
    ensures forall c :: c in Frequencies(s) ==> Frequencies(s)[c] == multiset(s)[c] && Frequencies(s)[c] > 0
  {
    if s != [] {
      var front, c := s[..|s| - 1], s[|s| - 1];
      FrequenciesCount(front);
      assert s == front + [c];
      assert Symbols(s) == Symbols(front) + {c} by {
        forall x | x in Symbols(s) ensures x in Symbols(front) + {c} {
          var i :| 0 <= i < |s| && s[i] == x;
          if i < |s| - 1 {
            assert front[i] == x;
          }
        }
        forall x | x in Symbols(front) ensures x in Symbols(s) {
          var i :| 0 <= i < |front| && front[i] == x;
          assert s[i] == x;
        }
      }
    }
  }

  /** The counting loop of `huffmanCompress`. */
  method CountFrequencies(input: string) returns (frequencies: map<char, nat>)
    ensures frequencies == Frequencies(input)
  {
    frequencies := map[];
    for i := 0 to |input|
      invariant frequencies == Frequencies(input[..i])
    {
      var ch := input[i];
      FrequenciesSnoc(input[..i], ch);
      assert input[..i + 1] == input[..i] + [ch];
      frequencies := frequencies[ch := (if ch in frequencies then frequencies[ch] else 0) + 1];
    }
    assert input[..|input|] == input;
  }

  /** Counting one more character increments its count and nothing else. */
  lemma FrequenciesSnoc(s: string, c: char)
    ensures Frequencies(s + [c]) == Frequencies(s)[c := Count(Frequencies(s), c) + 1]
  {
    assert (s + [c])[..|s|] == s;
  }

  /** Only characters of the alphabet are counted in a sanitised text. */
  lemma FrequenciesInAlphabet(s: string)
    requires Sanitized(s)
    ensures Frequencies(s).Keys <= Alphabet
  {
    FrequenciesCount(s);
  }

  /** The counts of a sanitised text add up to its length. */
  lemma {:induction false} CountsSum(s: string)
    requires Sanitized(s)
    ensures Count(Frequencies(s), '0') + Count(Frequencies(s), '1') + Count(Frequencies(s), '\n') == |s|
  {
    if s != [] {
      var front := s[..|s| - 1];
      assert Sanitized(front);
      CountsSum(front);
    }
  }

  /** The sum of the counts of the keys listed in `ks`, a missing key counting 0. */
  function SumCounts(ks: seq<char>, frequencies: map<char, nat>): nat {
    if ks == [] then 0 else Count(frequencies, ks[0]) + SumCounts(ks[1..], frequencies)
  }

  lemma {:induction false} KeysFromSum(order: seq<char>, frequencies: map<char, nat>)
    ensures SumCounts(KeysFrom(order, frequencies), frequencies) == SumCounts(order, frequencies)
  {
    if order != [] {
      KeysFromSum(order[1..], frequencies);
      if order[0] in frequencies {
        assert ([order[0]] + KeysFrom(order[1..], frequencies))[1..] == KeysFrom(order[1..], frequencies);
      }
    }
  }

  lemma {:induction false} LeafSeqWeight(ks: seq<char>, frequencies: map<char, nat>)
    requires forall i :: 0 <= i < |ks| ==> ks[i] in frequencies
    ensures TotalWeight(seq(|ks|, i requires 0 <= i < |ks| => Leaf(ks[i], frequencies[ks[i]]))) == SumCounts(ks, frequencies)
  {
    var nodes := seq(|ks|, i requires 0 <= i < |ks| => Leaf(ks[i], frequencies[ks[i]]));
    if ks != [] {
      LeafSeqWeight(ks[1..], frequencies);
      assert nodes[1..] == seq(|ks[1..]|, i requires 0 <= i < |ks[1..]| => Leaf(ks[1..][i], frequencies[ks[1..][i]]));
    }
  }

  /** The work list built from a table weighs the sum of its counts. */
  lemma LeafNodesWeight(frequencies: map<char, nat>)
    requires frequencies.Keys <= Alphabet
    ensures TotalWeight(LeafNodes(frequencies)) == Count(frequencies, '0') + Count(frequencies, '1') + Count(frequencies, '\n')
  {
    var ks := KeysInOrder(frequencies);
    assert ks == KeysFrom(KeyOrder, frequencies);
    LeafSeqWeight(ks, frequencies);
    KeysFromSum(KeyOrder, frequencies);
    calc {
      SumCounts(KeyOrder, frequencies);
      Count(frequencies, '0') + SumCounts(['1', '\n'], frequencies);
      Count(frequencies, '0') + Count(frequencies, '1') + SumCounts(['\n'], frequencies);
      { assert ['\n'][1..] == []; }
      Count(frequencies, '0') + Count(frequencies, '1') + Count(frequencies, '\n');
    }
  }

  // ---------------------------------------------------------------------
  // Encoding

  /** `codes[char]`, where a character without a code contributes nothing to the join. */
  function CodeOf(codes: map<char, string>, c: char): string {
    if c in codes then codes[c] else []
  }

  /** `input.split('').map(char => codes[char]).join('')`. */
  function Encode(text: string, codes: map<char, string>): string {
    if text == [] then [] else CodeOf(codes, text[0]) + Encode(text[1..], codes)
  }

  /** With bit-string codes, the encoding is a bit string. */
  lemma {:induction false} EncodeBits(text: string, codes: map<char, string>)
    requires forall c :: c in codes ==> Bits(codes[c])
    ensures Bits(Encode(text, codes))
  {
    if text != [] {
      EncodeBits(text[1..], codes);
      var head := CodeOf(codes, text[0]);
      var rest := Encode(text[1..], codes);
      assert Encode(text, codes) == head + rest;
      assert forall i :: 0 <= i < |head + rest| ==> (head + rest)[i] == if i < |head| then head[i] else rest[i - |head|];
    }
  }

  /** The compressor's codes are bit strings, and so is its encoding of the input. */
  lemma CompressBits(input: string)
    requires Sanitized(input)
    ensures forall c :: c in CompressCodes(input) ==> Bits(CompressCodes(input)[c])
    ensures Bits(Encode(input, CompressCodes(input)))
  {
    FrequenciesInAlphabet(input);
    CodesOfBits(HuffmanTreeOf(Frequencies(input)));
    EncodeBits(input, CompressCodes(input));
  }

  /** The encoding of a text is the encoding of its parts, one after the other. */
  lemma {:induction false} EncodeAppend(a: string, b: string, codes: map<char, string>)
    ensures Encode(a + b, codes) == Encode(a, codes) + Encode(b, codes)
  {
    if a == [] {
      assert a + b == b;
    } else {
      assert (a + b)[0] == a[0] && (a + b)[1..] == a[1..] + b;
      EncodeAppend(a[1..], b, codes);
    }
  }

  /** The code table `huffmanCompress` builds for `input`. */
  function CompressCodes(input: string): (codes: map<char, string>)
    requires Sanitized(input)
    ensures codes.Keys == Symbols(input)
  {
    FrequenciesInAlphabet(input);
    CompressKeys(input);
    CodesOf(HuffmanTreeOf(Frequencies(input)))
  }

  /** Exactly the characters of the input get a code. */
  lemma CompressKeys(input: string)
    requires Sanitized(input)
    ensures Frequencies(input).Keys <= Alphabet
    ensures CodesOf(HuffmanTreeOf(Frequencies(input))).Keys == Symbols(input)
  {
    var frequencies := Frequencies(input);
    FrequenciesCount(input);
    FrequenciesInAlphabet(input);
    if input == [] {
      assert HuffmanTreeOf(frequencies) == None;
    } else {
      assert input[0] in Symbols(input);
      HuffmanTreeShape(frequencies);
      var t := HuffmanTreeOf(frequencies).value;
      ShapeSyms(t, frequencies);
      CodeTableKeys(t, []);
    }
  }

  /**
   * `huffmanCompress(input, symmetry)`: the flag chosen from the symmetries
   * followed by the code of every character of the input, in order.
   */
  method HuffmanCompress(input: string, symmetry: Symmetries) returns (encoded: string, codes: map<char, string>)
    requires Sanitized(input)
    ensures codes == CompressCodes(input)
    ensures encoded == [SymmetryFlag(symmetry)] + Encode(input, codes)
  {
    var frequencies := CountFrequencies(input);
    FrequenciesInAlphabet(input);
    var tree := BuildHuffmanTree(frequencies);
    codes := BuildHuffmanCodes(tree);
    var bits := Encode(input, codes);
    var symmetryFlag := SymmetryFlag(symmetry);
    encoded := [symmetryFlag] + bits;
  }

  lemma ShapeSyms(t: Tree, frequencies: map<char, nat>)
    requires frequencies.Keys <= Alphabet && HuffmanShape(t, frequencies)
    ensures Syms(Leaves(t)) == frequencies.Keys
  {
    var ls := Leaves(t);
    forall c | c in frequencies ensures c in Syms(ls) {
      var i :| 0 <= i < |ls| && ls[i] == Leaf(c, frequencies[c]);
    }
  }

  /**
   * The table built for a sanitised input: a code for exactly the input's
   * characters, prefix-free; every code non-empty once there are two or more
   * distinct characters; the empty code for the only character otherwise;
   * no code at all for the empty input. The tree's root weighs the length
   * of the input.
   */
  lemma CompressCodesFacts(input: string)
    requires Sanitized(input)
    ensures var codes := CompressCodes(input);
      && codes.Keys == Symbols(input)
      && PrefixFree(codes)
      && (|Symbols(input)| >= 2 ==> forall c :: c in codes ==> |codes[c]| > 0)
      && (|Symbols(input)| == 1 ==> forall c :: c in codes ==> codes[c] == [])
      && (input == [] ==> codes == map[])
      && (input != [] ==> HuffmanTreeOf(Frequencies(input)).Some? && HuffmanTreeOf(Frequencies(input)).value.w == |input|)
  {
    var frequencies := Frequencies(input);
    FrequenciesCount(input);
    FrequenciesInAlphabet(input);
    var codes := CompressCodes(input);
    var root := HuffmanTreeOf(frequencies);
    assert |frequencies| == |Symbols(input)| by {
      assert frequencies.Keys == Symbols(input);
    }
    if input == [] {
      assert |frequencies| == 0;
      assert root == None;
    } else {
      assert input[0] in Symbols(input);
      HuffmanTreeShape(frequencies);
      var t := root.value;
      ShapeSyms(t, frequencies);
      CodeTableKeys(t, []);
      CodeTablePrefixFree(t, []);
      CodeTableExtends(t, []);
      CountsSum(input);
      LeafNodesWeight(frequencies);
      if |Symbols(input)| == 1 {
        assert InternalCount(t) == 0;
        assert t.Leaf?;
      }
    }
  }

  // ---------------------------------------------------------------------
  // Decoding

  /** Distinct symbols have distinct codes. */
  predicate Injective(codes: map<char, string>) {
    forall a, b :: a in codes && b in codes && a != b ==> codes[a] != codes[b]
  }

  lemma PrefixFreeInjective(codes: map<char, string>)
    requires PrefixFree(codes)
    ensures Injective(codes)
  {
    forall a, b | a in codes && b in codes && a != b ensures codes[a] != codes[b] {
      assert !IsPrefix(codes[a], codes[b]);
    }
  }

  /**
   * `Object.fromEntries` over the entries of `codes` with key and value
   * swapped, for the keys `ks` in entry order: a later entry replaces an
   * earlier one with the same code.
   */
  function InvertFrom(ks: seq<char>, codes: map<char, string>): (reversed: map<string, char>)
    requires forall i :: 0 <= i < |ks| ==> ks[i] in codes
    ensures forall i :: 0 <= i < |ks| ==> codes[ks[i]] in reversed
    ensures forall w :: w in reversed ==> reversed[w] in codes && codes[reversed[w]] == w
  {
    if ks == [] then map[]
    else
      var last := ks[|ks| - 1];
      InvertFrom(ks[..|ks| - 1], codes)[codes[last] := last]
  }

  /**
   * `reversedCodes`: the inverted table, built in `Object.entries` order.
   * Every code is a key, and every key is the code of the symbol it maps to.
   */
  function Invert(codes: map<char, string>): (reversed: map<string, char>)
    requires codes.Keys <= Alphabet
    ensures forall c :: c in codes ==> codes[c] in reversed
    ensures forall w :: w in reversed ==> reversed[w] in codes && codes[reversed[w]] == w
  {
    var ks := KeysInOrder(codes);
    assert forall c :: c in codes ==> exists i :: 0 <= i < |ks| && ks[i] == c;
    InvertFrom(ks, codes)
  }

  /** The two halves of "inverse": decoding a code gives its symbol, and every key is a code. */
  predicate Inverts(reversed: map<string, char>, codes: map<char, string>) {
    && (forall c :: c in codes ==> codes[c] in reversed && reversed[codes[c]] == c)
    && (forall w :: w in reversed ==> reversed[w] in codes && codes[reversed[w]] == w)
  }

  lemma {:induction false} InvertFromInverts(ks: seq<char>, codes: map<char, string>)
    requires forall i :: 0 <= i < |ks| ==> ks[i] in codes
    requires Injective(codes)
    ensures forall i :: 0 <= i < |ks| ==> codes[ks[i]] in InvertFrom(ks, codes) && InvertFrom(ks, codes)[codes[ks[i]]] == ks[i]
    ensures forall w :: w in InvertFrom(ks, codes) ==> InvertFrom(ks, codes)[w] in codes && codes[InvertFrom(ks, codes)[w]] == w
  {
    if ks != [] {
      InvertFromInverts(ks[..|ks| - 1], codes);
    }
  }

  /** For an injective table the inverted table is its exact inverse. */
  lemma InvertInverts(codes: map<char, string>)
    requires codes.Keys <= Alphabet && Injective(codes)
    ensures Inverts(Invert(codes), codes)
  {
    var ks := KeysInOrder(codes);
    InvertFromInverts(ks, codes);
    forall c | c in codes ensures codes[c] in Invert(codes) && Invert(codes)[codes[c]] == c {
      var i :| 0 <= i < |ks| && ks[i] == c;
    }
  }

  /**
   * The decoding loop from a given buffer: each bit is appended to the
   * buffer; when the buffer is a key of the inverted table its symbol is
   * emitted and the buffer cleared. Whatever is left in the buffer at the
   * end is dropped.
   */
  function DecodeBits(reversed: map<string, char>, bits: string, buffer: string): string {
    if bits == [] then []
    else
      var grown := buffer + [bits[0]];
      if grown in reversed then [reversed[grown]] + DecodeBits(reversed, bits[1..], [])
      else DecodeBits(reversed, bits[1..], grown)
  }

  /** Every emitted symbol consumes at least one bit. */
  lemma {:induction false} DecodeBitsLength(reversed: map<string, char>, bits: string, buffer: string)
    ensures |DecodeBits(reversed, bits, buffer)| <= |bits|
  {
    if bits != [] {
      DecodeBitsLength(reversed, bits[1..], []);
      DecodeBitsLength(reversed, bits[1..], buffer + [bits[0]]);
    }
  }

  /** The text after the one-character flag: `encoded.slice(1)`. */
  function Payload(encoded: string): (payload: string)
    ensures encoded != [] ==> [encoded[0]] + payload == encoded
    ensures encoded == [] ==> payload == []
  {
    if encoded == [] then [] else encoded[1..]
  }

  /** `encoded[0]`, absent for the empty text. */
  function FlagOf(encoded: string): (flag: Option<char>)
    ensures flag.Some? <==> encoded != []
    ensures flag.Some? ==> encoded == [flag.value] + Payload(encoded)
  {
    if encoded == [] then None else Some(encoded[0])
  }

  /**
   * `huffmanDecompress(encoded, codes)`: the first character is the flag,
   * the rest is decoded through the inverted table.
   */
  method HuffmanDecompress(encoded: string, codes: map<char, string>) returns (decoded: string, symmetryFlag: Option<char>)
    requires codes.Keys <= Alphabet
    ensures symmetryFlag == FlagOf(encoded)
    ensures decoded == DecodeBits(Invert(codes), Payload(encoded), [])
  {
    var reversedCodes := Invert(codes);
    decoded := [];
    var buffer := [];
    symmetryFlag := if |encoded| > 0 then Some(encoded[0]) else None;
    var encodedData := if |encoded| > 0 then encoded[1..] else [];
    for i := 0 to |encodedData|
      invariant decoded + DecodeBits(reversedCodes, encodedData[i..], buffer) == DecodeBits(reversedCodes, encodedData, [])
    {
      assert encodedData[i..][1..] == encodedData[i + 1..];
      buffer := buffer + [encodedData[i]];
      if buffer in reversedCodes {
        decoded := decoded + [reversedCodes[buffer]];
        buffer := [];
      }
    }
  }

  /**
   * Feeding the rest of the code of `c` after its first `j` bits are in the
   * buffer emits exactly `c`: no shorter part of a code is a key, because
   * the table is prefix-free.
   */
  lemma {:induction false} DecodeOneCode(reversed: map<string, char>, codes: map<char, string>, c: char, j: nat, tail: string)
    requires Inverts(reversed, codes) && PrefixFree(codes)
    requires c in codes && j < |codes[c]|
    ensures DecodeBits(reversed, codes[c][j..] + tail, codes[c][..j]) == [c] + DecodeBits(reversed, tail, [])
    decreases |codes[c]| - j
  {
    var w := codes[c];
    var bits := w[j..] + tail;
    assert bits[0] == w[j];
    assert bits[1..] == w[j + 1..] + tail;
    assert w[..j] + [w[j]] == w[..j + 1];
    if j + 1 == |w| {
      assert w[..j + 1] == w;
      assert bits[1..] == tail;
    } else {
      if w[..j + 1] in reversed {
        var d := reversed[w[..j + 1]];
        assert codes[d] == w[..j + 1];
        assert IsPrefix(codes[d], w);
        assert false;
      }
      DecodeOneCode(reversed, codes, c, j + 1, tail);
    }
  }

  /**
   * Decoding the encoding of `text` emits `text` and leaves the decoder
   * with an empty buffer for what follows.
   */
  lemma {:induction false} DecodeEncode(reversed: map<string, char>, codes: map<char, string>, text: string, tail: string)
    requires Inverts(reversed, codes) && PrefixFree(codes)
    requires forall c :: c in codes ==> |codes[c]| > 0
    requires forall i :: 0 <= i < |text| ==> text[i] in codes
    ensures DecodeBits(reversed, Encode(text, codes) + tail, []) == text + DecodeBits(reversed, tail, [])
  {
    if text != [] {
      var c := text[0];
      var rest := Encode(text[1..], codes) + tail;
      var after := DecodeBits(reversed, tail, []);
      assert text[0] in codes;
      assert Encode(text, codes) + tail == codes[c][0..] + rest;
      assert codes[c][..0] == [];
      DecodeOneCode(reversed, codes, c, 0, rest);
      DecodeEncode(reversed, codes, text[1..], tail);
      calc {
        DecodeBits(reversed, Encode(text, codes) + tail, []);
        [c] + DecodeBits(reversed, rest, []);
        [c] + (text[1..] + after);
        { assert text == [c] + text[1..]; }
        text + after;
      }
    } else {
      assert Encode(text, codes) + tail == tail;
    }
  }

  /** A proper beginning of a code in the buffer never reaches a key: those bits are lost. */
  lemma {:induction false} PartialCodeDropped(reversed: map<string, char>, codes: map<char, string>, c: char, i: nat, j: nat)
    requires Inverts(reversed, codes) && PrefixFree(codes)
    requires c in codes && i <= j < |codes[c]|
    ensures DecodeBits(reversed, codes[c][i..j], codes[c][..i]) == []
    decreases j - i
  {
    var w := codes[c];
    if i < j {
      assert w[i..j][0] == w[i] && w[i..j][1..] == w[i + 1..j];
      assert w[..i] + [w[i]] == w[..i + 1];
      if w[..i + 1] in reversed {
        var d := reversed[w[..i + 1]];
        assert codes[d] == w[..i + 1];
        assert IsPrefix(codes[d], w);
        assert false;
      }
      PartialCodeDropped(reversed, codes, c, i + 1, j);
    }
  }

  /**
   * Round trip: for a sanitised input with at least two distinct
   * characters, decompressing its compression with the same table gives
   * back the input and the flag. Bits of an unfinished code appended after
   * it are dropped.
   */
  lemma CompressDecompress(input: string, symmetry: Symmetries)
    requires Sanitized(input) && |Symbols(input)| >= 2
    ensures var codes := CompressCodes(input);
      var encoded := [SymmetryFlag(symmetry)] + Encode(input, codes);
      && FlagOf(encoded) == Some(SymmetryFlag(symmetry))
      && DecodeBits(Invert(codes), Payload(encoded), []) == input
      && forall c, j :: c in codes && 0 <= j < |codes[c]| ==>
           DecodeBits(Invert(codes), Payload(encoded) + codes[c][..j], []) == input
  {
    var codes := CompressCodes(input);
    CompressCodesFacts(input);
    forall i | 0 <= i < |input| ensures input[i] in codes {
      assert input[i] in Symbols(input);
    }
    DecodeWithTable(codes, input, SymmetryFlag(symmetry));
  }

  /** The round trip for any prefix-free table of non-empty codes covering the text. */
  lemma DecodeWithTable(codes: map<char, string>, input: string, flag: char)
    requires codes.Keys <= Alphabet && PrefixFree(codes)
    requires forall c :: c in codes ==> |codes[c]| > 0
    requires forall i :: 0 <= i < |input| ==> input[i] in codes
    ensures var encoded := [flag] + Encode(input, codes);
      && FlagOf(encoded) == Some(flag)
      && DecodeBits(Invert(codes), Payload(encoded), []) == input
      && forall c, j :: c in codes && 0 <= j < |codes[c]| ==>
           DecodeBits(Invert(codes), Payload(encoded) + codes[c][..j], []) == input
  {
    var encoded := [flag] + Encode(input, codes);
    PrefixFreeInjective(codes);
    InvertInverts(codes);
    var reversed := Invert(codes);
    assert Payload(encoded) == Encode(input, codes);
    DecodeEncode(reversed, codes, input, []);
    assert Encode(input, codes) + [] == Encode(input, codes);
    assert input + [] == input;
    forall c, j | c in codes && 0 <= j < |codes[c]|
      ensures DecodeBits(reversed, Payload(encoded) + codes[c][..j], []) == input
    {
      DecodeEncode(reversed, codes, input, codes[c][..j]);
      PartialCodeDropped(reversed, codes, c, 0, j);
      assert codes[c][0..j] == codes[c][..j] && codes[c][..0] == [];
    }
  }

  /** Every character of the text has the empty code, so the encoding is empty. */
  lemma {:induction false} EncodeAllEmpty(text: string, codes: map<char, string>)
    requires forall c :: c in codes ==> codes[c] == []
    ensures Encode(text, codes) == []
  {
    if text != [] {
      EncodeAllEmpty(text[1..], codes);
    }
  }

  /**
   * With a single distinct character (or none) the payload is empty, so
   * the input is lost: decompression yields the empty text and the flag.
   */
  lemma SingleSymbolLoss(input: string, symmetry: Symmetries)
    requires Sanitized(input) && |Symbols(input)| <= 1
    ensures var codes := CompressCodes(input);
      var encoded := [SymmetryFlag(symmetry)] + Encode(input, codes);
      && encoded == [SymmetryFlag(symmetry)]
      && FlagOf(encoded) == Some(SymmetryFlag(symmetry))
      && DecodeBits(Invert(codes), Payload(encoded), []) == []
  {
    var codes := CompressCodes(input);
    CompressCodesFacts(input);
    if input != [] {
      assert input[0] in Symbols(input);
    }
    EncodeAllEmpty(input, codes);
    var encoded := [SymmetryFlag(symmetry)] + Encode(input, codes);
    assert encoded == [SymmetryFlag(symmetry)];
    assert Payload(encoded) == [];
  }

}
