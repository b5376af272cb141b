/**
 * The Gemini embedding adapter (src/infrastructure/adapters/gemini-embedding.adapter.ts): every
 * vector the service returns is brought to the dimension of the vector column by truncating
 * or zero-padding. The client call itself is outside the model; its response enters as
 * the list of raw embedding items.
 */
module GeminiEmbedding {
  import opened Domain

  /** Dimension of the stored vectors. */
  const TargetDim: nat := 1536

  /** A response item: either a bare number array or an object carrying `values`. */
  datatype RawEmbedding =
    | Bare(numbers: seq<real>)
    | Wrapped(values: seq<real>)

  /** The number array an item carries, whichever shape it has. */
  function Numbers(item: RawEmbedding): seq<real>
  {
    match item
    case Bare(numbers) => numbers
    case Wrapped(values) => values
  }

  /** Reference definition: `arr` cut to, or zero-padded up to, `TargetDim` components. */
  function Normalized(arr: seq<real>): (r: Vector)
    ensures |r| == TargetDim
    ensures |arr| == TargetDim ==> r == arr
    ensures |arr| > TargetDim ==> r == arr[..TargetDim]
    ensures |arr| < TargetDim ==> r[..|arr|] == arr && forall i :: |arr| <= i < TargetDim ==> r[i] == 0.0
  {
    if |arr| >= TargetDim then arr[..TargetDim]
    else arr + seq(TargetDim - |arr|, _ => 0.0)
  }

  /** Copies a short vector into a buffer of `TargetDim` slots and fills the rest with zeros. */
  method PadWithZeros(arr: seq<real>) returns (padded: Vector)
    requires |arr| < TargetDim
    ensures padded == Normalized(arr)
  {
    var buffer := new real[TargetDim];
    forall i | 0 <= i < |arr| {
      buffer[i] := arr[i];
    }
    for i := |arr| to TargetDim
      invariant buffer[..|arr|] == arr
      invariant forall j :: |arr| <= j < i ==> buffer[j] == 0.0
    {
      buffer[i] := 0.0;
    }
    padded := buffer[..];
    assert padded[..|arr|] == arr;
  }

  /** One item of the response, normalized. */
  method NormalizeItem(item: RawEmbedding) returns (v: Vector)
    ensures v == Normalized(Numbers(item))
  {
    var arr := Numbers(item);
    var len := |arr|;
    if len == TargetDim {
      return arr;
    }
    if len > TargetDim {
      return arr[..TargetDim];
    }
    v := PadWithZeros(arr);
  }

  /** The adapter's result for a response: every item normalized, count and order kept. */
  method NormalizeResponse(embeddingsRaw: seq<RawEmbedding>) returns (normalized: seq<Vector>)
    ensures |normalized| == |embeddingsRaw|
    ensures forall i :: 0 <= i < |embeddingsRaw| ==> normalized[i] == Normalized(Numbers(embeddingsRaw[i]))
  {
    normalized := [];
    for i := 0 to |embeddingsRaw|
      invariant |normalized| == i
      invariant forall j :: 0 <= j < i ==> normalized[j] == Normalized(Numbers(embeddingsRaw[j]))
    {
      var v := NormalizeItem(embeddingsRaw[i]);
      normalized := normalized + [v];
    }
  }

  // ---- properties of the normalization ----

  /** Normalizing a normalized vector changes nothing. */
  lemma NormalizedIdempotent(arr: seq<real>)
    ensures Normalized(Normalized(arr)) == Normalized(arr)
  {
  }

  /** Components below the target dimension survive normalization unchanged. */
  lemma NormalizedKeepsPrefix(arr: seq<real>, i: nat)
    requires i < |arr| && i < TargetDim
    ensures Normalized(arr)[i] == arr[i]
  {
    if |arr| < TargetDim {
      assert Normalized(arr)[..|arr|][i] == arr[i];
    }
  }

  /** Two vectors that agree on their first `TargetDim` components normalize alike once both are long enough. */
  lemma NormalizedIgnoresTail(a: seq<real>, b: seq<real>)
    requires |a| >= TargetDim && |b| >= TargetDim && a[..TargetDim] == b[..TargetDim]
    ensures Normalized(a) == Normalized(b)
  {
  }
}
