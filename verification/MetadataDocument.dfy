/** The limits on a metadata document. */
module MetadataDocument {
  import opened Common
  import opened Json

  const MAX_METADATA_BYTES := 65536
  const MAX_METADATA_DEPTH := 64

  datatype Verdict = Accepted | TooLarge | Invalid

  /** `document` is what the bytes parse to, if they are valid JSON. The loop only counts
      delimiters; it accepts exactly the documents that are small and nested at most 64 deep. */
  method ValidateMetadata(size: nat, document: Option<Tree>) returns (verdict: Verdict)
    ensures verdict == if size > 65536 then TooLarge
                       else if document.None? || Depth(document.value) > 64 then Invalid
                       else Accepted
  {
    if size > MAX_METADATA_BYTES {
      return TooLarge;
    }
    if document.None? {
      return Invalid;
    }
    var tokens := Tokens(document.value);
    DocumentPeaksAtDepth(document.value, 0);
    var depth, i := 0, 0;
    assert tokens[0..] == tokens;
    while i < |tokens|
      invariant 0 <= i <= |tokens| && depth <= MAX_METADATA_DEPTH
      invariant Depth(document.value) <= MAX_METADATA_DEPTH <==> Peak(tokens[i..], depth) <= MAX_METADATA_DEPTH
    {
      var token := tokens[i];
      i := i + 1;
      if token.Open? {
        depth := depth + 1;
      } else if token.Close? {
        depth := depth - 1;
      }
      assert tokens[i - 1..][1..] == tokens[i..];
      if depth > MAX_METADATA_DEPTH {
        PeakAtLeast(tokens[i..], depth);
        return Invalid;
      }
    }
    verdict := Accepted;
  }
}
