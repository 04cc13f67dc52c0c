/**
 * The input handler's pipeline on an already sanitised text: detect the
 * symmetries, reduce, compress, decompress with the same table, and expand
 * with the flag read back from the compressed text.
 */
module Pipeline {
  import opened Wrappers
  import opened Text
  import opened Symmetry
  import opened Reduction
  import opened HuffmanCoder

  /** The text the compressor is handed for `value`: sanitised again. */
  function Reduced(value: string): (reduced: string)
    requires Sanitized(value)
    ensures Sanitized(reduced)
  {
    ReduceSanitized(value, DetectSymmetry(value));
    Reduce(value, DetectSymmetry(value))
  }

  /** The compressed text: the flag, then the codes of the reduced text. */
  function Compressed(value: string): (encoded: string)
    requires Sanitized(value)
    ensures |encoded| >= 1 && FlagOf(encoded) == Some(SymmetryFlag(DetectSymmetry(value)))
  {
    [SymmetryFlag(DetectSymmetry(value))] + Encode(Reduced(value), CompressCodes(Reduced(value)))
  }

  /**
   * The compressed text's format: a flag '0', '1' or '2' (never '3'), then
   * a bit string.
   */
  lemma CompressedFormat(value: string)
    requires Sanitized(value)
    ensures Compressed(value)[0] in {'0', '1', '2'}
    ensures forall i :: 1 <= i < |Compressed(value)| ==> Compressed(value)[i] == '0' || Compressed(value)[i] == '1'
  {
    DiagonalFlagUnreachable(value);
    CompressBits(Reduced(value));
    var payload := Encode(Reduced(value), CompressCodes(Reduced(value)));
    assert forall i :: 1 <= i < |Compressed(value)| ==> Compressed(value)[i] == payload[i - 1];
  }

  /** The matrix shown after decompressing and expanding. */
  function Displayed(value: string): string
    requires Sanitized(value)
  {
    var codes := CompressCodes(Reduced(value));
    var encoded := Compressed(value);
    ApplySymmetry(DecodeBits(Invert(codes), Payload(encoded), []), FlagOf(encoded))
  }

  /**
   * `handleInputChange` after sanitising: the symmetries, the compressed
   * text and its table, the flag read back, and the expanded matrix.
   */
  method HandleInputChange(value: string)
    returns (symmetries: Symmetries, encoded: string, codes: map<char, string>, symmetryFlag: Option<char>, fullMatrix: string)
    requires Sanitized(value)
    ensures symmetries == DetectSymmetry(value)
    ensures encoded == Compressed(value) && encoded[0] == SymmetryFlag(symmetries)
    ensures codes == CompressCodes(Reduced(value)) && codes.Keys == Symbols(Reduced(value))
    ensures symmetryFlag == Some(SymmetryFlag(symmetries)) && symmetryFlag != Some('3')
    ensures fullMatrix == Displayed(value)
  {
    symmetries := DetectSymmetry(value);
    var matrixToCompress := Reduce(value, symmetries);
    ReduceSanitized(value, symmetries);
    encoded, codes := HuffmanCompress(matrixToCompress, symmetries);
    var decoded;
    decoded, symmetryFlag := HuffmanDecompress(encoded, codes);
    fullMatrix := ApplySymmetry(decoded, symmetryFlag);
    DiagonalFlagUnreachable(value);
  }

  /**
   * When the reduced text has two or more distinct characters, the
   * decompressed text is exactly the reduced text, so the displayed matrix
   * is its expansion under the detected flag.
   */
  lemma DisplayedExpandsReduced(value: string)
    requires Sanitized(value) && |Symbols(Reduced(value))| >= 2
    ensures Displayed(value) == ApplySymmetry(Reduced(value), Some(SymmetryFlag(DetectSymmetry(value))))
  {
    ReduceSanitized(value, DetectSymmetry(value));
    CompressDecompress(Reduced(value), DetectSymmetry(value));
  }

  /**
   * When the reduced text has at most one distinct character, nothing is
   * decoded and the displayed matrix is the expansion of the empty text.
   */
  lemma DisplayedLosesSingleSymbol(value: string)
    requires Sanitized(value) && |Symbols(Reduced(value))| <= 1
    ensures Displayed(value) == ApplySymmetry([], Some(SymmetryFlag(DetectSymmetry(value))))
  {
    ReduceSanitized(value, DetectSymmetry(value));
    SingleSymbolLoss(Reduced(value), DetectSymmetry(value));
  }

  /** A vertically symmetric matrix with rows of even length is shown unchanged. */
  lemma VerticalShownExactly(value: string)
    requires Sanitized(value) && |Symbols(Reduced(value))| >= 2
    requires DetectSymmetry(value).vertical
    requires forall row :: row in Split(value) ==> |row| % 2 == 0
    ensures Displayed(value) == value
  {
    DisplayedExpandsReduced(value);
    VerticalRoundTrip(value);
  }

  /**
   * A horizontally (and not vertically) symmetric matrix with an even number
   * of rows is shown unchanged: such a matrix always has a row holding both
   * characters in its top half, so nothing is lost to a one-symbol code.
   */
  lemma HorizontalShownExactly(value: string)
    requires Sanitized(value)
    requires !DetectSymmetry(value).vertical && DetectSymmetry(value).horizontal
    requires |Split(value)| % 2 == 0
    ensures Displayed(value) == value
  {
    HorizontalReducedBoth(value);
    BothSymbols(Reduced(value));
    DisplayedExpandsReduced(value);
    HorizontalRoundTrip(value);
  }

  /**
   * A matrix without any symmetry is shown with its row separators removed:
   * some row holds both characters, so nothing is lost to a one-symbol code.
   */
  lemma NoSymmetryShownFlattened(value: string)
    requires Sanitized(value)
    requires var d := DetectSymmetry(value); !d.vertical && !d.horizontal && !d.diagonal
    ensures Displayed(value) == DropNewlines(value)
  {
    NoSymmetryReducedBoth(value);
    BothSymbols(Reduced(value));
    DisplayedExpandsReduced(value);
    NoSymmetryFlattens(value);
  }

}
