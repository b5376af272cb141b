/**
 * The deterministic test embedder (src/infrastructure/adapters/mock-embedding.adapter.ts):
 * a fixed-size vector whose few non-zero components depend on the topic words the text
 * mentions, ignoring letter case.
 */
module MockEmbedding {
  import opened Domain

  /** Size of every mock vector. */
  const MockDim: nat := 1536

  /** ASCII lower-casing of one character. */
  function LowerChar(c: char): (l: char)
    ensures 'A' <= c <= 'Z' ==> l as int == c as int + 32
    ensures !('A' <= c <= 'Z') ==> l == c
    ensures !('A' <= l <= 'Z')
  {
    if 'A' <= c <= 'Z' then (c as int + 32) as char else c
  }

  function ToLower(s: string): (r: string)
    ensures |r| == |s| && forall i :: 0 <= i < |s| ==> r[i] == LowerChar(s[i])
  {
    seq(|s|, i requires 0 <= i < |s| => LowerChar(s[i]))
  }

  /** `part` occurs in `s` starting at position `i`. */
  predicate OccursAt(s: string, part: string, i: nat)
  {
    i + |part| <= |s| && s[i..i + |part|] == part
  }

  /** Substring test, scanning start positions from the left. */
  function Includes(s: string, part: string): (b: bool)
    ensures b <==> exists i: nat :: OccursAt(s, part, i)
    decreases |s|
  {
    if |part| > |s| then
      assert forall i: nat :: !OccursAt(s, part, i);
      false
    else if s[..|part|] == part then
      assert OccursAt(s, part, 0);
      true
    else
      var rest := Includes(s[1..], part);
      ShiftOccurrence(s, part);
      rest
  }

  /** An occurrence in `s` past position 0 is one in `s[1..]`, and back. */
  lemma ShiftOccurrence(s: string, part: string)
    requires |s| > 0 && !OccursAt(s, part, 0)
    ensures (exists i: nat :: OccursAt(s, part, i)) <==> (exists i: nat :: OccursAt(s[1..], part, i))
  {
    if i: nat :| OccursAt(s, part, i) {
      assert i > 0;
      assert s[1..][i - 1..i - 1 + |part|] == s[i..i + |part|];
      assert OccursAt(s[1..], part, i - 1);
    }
    if i: nat :| OccursAt(s[1..], part, i) {
      assert s[i + 1..i + 1 + |part|] == s[1..][i..i + |part|];
      assert OccursAt(s, part, i + 1);
    }
  }

  /** The topic a text is classified under; the first matching rule wins. */
  datatype Topic = VectorTopic | ProtocolTopic | NodeTopic | OtherTopic

  function TopicOf(text: string): Topic
  {
    var lowerText := ToLower(text);
    if Includes(lowerText, "vetorial") || Includes(lowerText, "vector") then VectorTopic
    else if Includes(lowerText, "mcp") || Includes(lowerText, "protocol") then ProtocolTopic
    else if Includes(lowerText, "nest") || Includes(lowerText, "node") then NodeTopic
    else OtherTopic
  }

  /** The value Array#fill(0) leaves in every slot. */
  function Zeros(n: nat): (z: Vector)
    ensures |z| == n && forall i :: 0 <= i < n ==> z[i] == 0.0
  {
    seq(n, _ => 0.0)
  }

  /** The fallback component: the text length's last decimal digit, as tenths. */
  function LengthDigit(text: string): (x: real)
    ensures 0.0 <= x <= 0.9
  {
    (|text| % 10) as real / 10.0
  }

  /** Reference definition of the mock vector of one text. */
  function MockVector(text: string): (v: Vector)
    ensures |v| == MockDim
    ensures TopicOf(text) == VectorTopic ==>
      v[0] == 0.9 && v[1] == 0.1 && forall i :: 2 <= i < MockDim ==> v[i] == 0.0
    ensures TopicOf(text) == ProtocolTopic ==>
      v[0] == 0.1 && v[1] == 0.9 && forall i :: 2 <= i < MockDim ==> v[i] == 0.0
    ensures TopicOf(text) == NodeTopic ==>
      v[2] == 0.9 && forall i :: 0 <= i < MockDim && i != 2 ==> v[i] == 0.0
    ensures TopicOf(text) == OtherTopic ==>
      v[3] == LengthDigit(text) && forall i :: 0 <= i < MockDim && i != 3 ==> v[i] == 0.0
  {
    var vector := Zeros(MockDim);
    match TopicOf(text)
    case VectorTopic => vector[0 := 0.9][1 := 0.1]
    case ProtocolTopic => vector[0 := 0.1][1 := 0.9]
    case NodeTopic => vector[2 := 0.9]
    case OtherTopic => vector[3 := LengthDigit(text)]
  }

  /** Builds one text's vector in a zero-filled buffer, the way the adapter writes its slots. */
  method BuildVector(text: string) returns (v: Vector)
    ensures v == MockVector(text)
  {
    var vector := new real[MockDim](_ => 0.0);
    var lowerText := ToLower(text);
    if Includes(lowerText, "vetorial") || Includes(lowerText, "vector") {
      vector[0] := 0.9;
      vector[1] := 0.1;
    } else if Includes(lowerText, "mcp") || Includes(lowerText, "protocol") {
      vector[0] := 0.1;
      vector[1] := 0.9;
    } else if Includes(lowerText, "nest") || Includes(lowerText, "node") {
      vector[2] := 0.9;
    } else {
      vector[3] := (|text| % 10) as real / 10.0;
    }
    v := vector[..];
  }

  /** The mock provider: one vector per text, in order; it never fails. */
  method MockEmbed(texts: seq<string>) returns (vectors: seq<Vector>)
    ensures |vectors| == |texts|
    ensures forall i :: 0 <= i < |texts| ==> vectors[i] == MockVector(texts[i])
  {
    vectors := [];
    for i := 0 to |texts|
      invariant |vectors| == i
      invariant forall j :: 0 <= j < i ==> vectors[j] == MockVector(texts[j])
    {
      var v := BuildVector(texts[i]);
      vectors := vectors + [v];
    }
  }

  // ---- properties of the mock ----

  /** Dot product, the similarity the store ranks by (cosine distance on these vectors). */
  function Dot(u: Vector, w: Vector): real
    requires |u| == |w|
  {
    if u == [] then 0.0 else Dot(u[..|u| - 1], w[..|w| - 1]) + u[|u| - 1] * w[|w| - 1]
  }

  /** Vectors that are never both non-zero in the same component are orthogonal. */
  lemma {:induction false} DotDisjoint(u: Vector, w: Vector)
    requires |u| == |w|
    requires forall i :: 0 <= i < |u| ==> u[i] == 0.0 || w[i] == 0.0
    ensures Dot(u, w) == 0.0
    decreases |u|
  {
    if u != [] {
      DotDisjoint(u[..|u| - 1], w[..|w| - 1]);
    }
  }

  /** Letter case does not matter: a text and its lower-cased form get the same vector. */
  lemma CaseInsensitive(text: string)
    ensures MockVector(ToLower(text)) == MockVector(text)
  {
    assert ToLower(ToLower(text)) == ToLower(text);
  }

  /** Texts of the same named topic get identical vectors, whatever else they say. */
  lemma SameTopicSameVector(a: string, b: string)
    requires TopicOf(a) == TopicOf(b) && TopicOf(a) != OtherTopic
    ensures MockVector(a) == MockVector(b)
  {
  }

  /** A node-topic text is orthogonal to a text of the vector or protocol topic. */
  lemma NodeOrthogonal(a: string, b: string)
    requires TopicOf(a) == NodeTopic && TopicOf(b) in {VectorTopic, ProtocolTopic}
    ensures Dot(MockVector(a), MockVector(b)) == 0.0
  {
    DotDisjoint(MockVector(a), MockVector(b));
  }

  /** The rule order decides ties: "vector" wins over "protocol" and "node" in the same text. */
  lemma FirstRuleWins()
    ensures TopicOf("Vector protocol on node") == VectorTopic
  {
    var lowerText := ToLower("Vector protocol on node");
    assert lowerText == "vector protocol on node";
    assert OccursAt(lowerText, "vector", 0);
  }
}
