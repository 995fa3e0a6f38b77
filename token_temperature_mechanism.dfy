/**
 * The Token Temperature Mechanism: per-token salience scores computed from a
 * deterministic pseudo-embedding, a fixed set of attention-head weights and a
 * logistic squashing function, and the clamp that keeps them bounded.
 *
 * The random draws of the weights and biases, and the exponential inside the
 * logistic function, are supplied to the constructor.
 */
module TemperatureMechanism {

  /** Smallest distance a regulated temperature keeps from 0 and from 1. */
  const Epsilon: real := 0.01

  const TwoTo31: int := 0x8000_0000
  const TwoTo32: int := 0x1_0000_0000

  function Min(a: real, b: real): real { if a <= b then a else b }

  function Max(a: real, b: real): real { if a >= b then a else b }

  // ---------------------------------------------------------------------
  // Regulation
  // ---------------------------------------------------------------------

  /** One temperature clamped into [Epsilon, 1 - Epsilon]. */
  function Regulate(t: real): (r: real)
    ensures Epsilon <= r <= 1.0 - Epsilon
    ensures Epsilon <= t <= 1.0 - Epsilon ==> r == t
    ensures t < Epsilon ==> r == Epsilon
    ensures t > 1.0 - Epsilon ==> r == 1.0 - Epsilon
  {
    Min(Max(t, Epsilon), 1.0 - Epsilon)
  }

  /**
   * Clamps every temperature, slot by slot: values already in range are
   * kept, values below go to Epsilon, values above go to 1 - Epsilon.
   */
  function RegulateTemperatures(temps: seq<real>): (r: seq<real>)
    ensures |r| == |temps|
    ensures forall i :: 0 <= i < |r| ==> Epsilon <= r[i] <= 1.0 - Epsilon
    ensures forall i :: 0 <= i < |r| && Epsilon <= temps[i] <= 1.0 - Epsilon ==> r[i] == temps[i]
    ensures forall i :: 0 <= i < |r| && temps[i] < Epsilon ==> r[i] == Epsilon
    ensures forall i :: 0 <= i < |r| && temps[i] > 1.0 - Epsilon ==> r[i] == 1.0 - Epsilon
  {
    seq(|temps|, i requires 0 <= i < |temps| => Regulate(temps[i]))
  }

  /** Regulating an already regulated vector changes nothing. */
  lemma {:induction false} RegulateIdempotent(temps: seq<real>)
    ensures RegulateTemperatures(RegulateTemperatures(temps)) == RegulateTemperatures(temps)
  {
    var once := RegulateTemperatures(temps);
    var twice := RegulateTemperatures(once);
    assert |twice| == |once|;
    forall i | 0 <= i < |once| ensures twice[i] == once[i] {
      assert Epsilon <= once[i] <= 1.0 - Epsilon;
    }
  }

  /** Both ends are clamped and a mid-range value is left alone. */
  lemma RegulateExample()
    ensures RegulateTemperatures([0.0, 1.0, 0.5]) == [0.01, 0.99, 0.5]
  {
    var r := RegulateTemperatures([0.0, 1.0, 0.5]);
    assert r[0] == 0.01 && r[1] == 0.99 && r[2] == 0.5;
  }

  // ---------------------------------------------------------------------
  // 32-bit rolling hash
  // ---------------------------------------------------------------------

  /** Two's-complement truncation of an integer to a signed 32-bit value. */
  function Wrap32(x: int): (r: int)
    ensures -TwoTo31 <= r < TwoTo31
    ensures (x - r) % TwoTo32 == 0
  {
    (x + TwoTo31) % TwoTo32 - TwoTo31
  }

  /** Truncating an intermediate value first does not change the truncated sum. */
  lemma Wrap32Absorbs(x: int, y: int)
    ensures Wrap32(Wrap32(x) + y) == Wrap32(x + y)
  {
    var q := (x + TwoTo31) / TwoTo32;
    assert Wrap32(x) == x - q * TwoTo32;
    ModuloShift(x + y + TwoTo31, q);
  }

  lemma ModuloShift(z: int, q: int)
    ensures (z - q * TwoTo32) % TwoTo32 == z % TwoTo32
  {
    var m := z % TwoTo32;
    var d := z / TwoTo32;
    assert z == d * TwoTo32 + m;
    assert z - q * TwoTo32 == (d - q) * TwoTo32 + m;
  }

  /**
   * The hash as a left fold over the characters: starting from 0, each
   * character code c turns h into the 32-bit truncation of h * 31 + c.
   */
  function HashFold(s: string): (h: int)
    ensures -TwoTo31 <= h < TwoTo31
  {
    if s == [] then 0 else Wrap32(HashFold(s[..|s| - 1]) * 31 + s[|s| - 1] as int)
  }

  /** The hash of a token: the absolute value of the fold, taken without truncation. */
  function HashValue(s: string): (h: nat)
    ensures h <= TwoTo31
    ensures s == [] ==> h == 0
  {
    var f := HashFold(s);
    if f < 0 then -f else f
  }

  /** The upper bound 2^31 is reached: "GydZG_" folds to -2^31. */
  lemma {:induction false} HashReachesUpperBound()
    ensures HashFold("GydZG_") == -TwoTo31
    ensures HashValue("GydZG_") == TwoTo31
  {
    var s := "GydZG_";
    assert s[..0] == [] && s[..1][..0] == [];
    assert HashFold(s[..1]) == 71;
    assert s[..2][..1] == s[..1];
    assert HashFold(s[..2]) == 2322;
    assert s[..3][..2] == s[..2];
    assert HashFold(s[..3]) == 72082;
    assert s[..4][..3] == s[..3];
    assert HashFold(s[..4]) == 2234632;
    assert s[..5][..4] == s[..4];
    assert HashFold(s[..5]) == 69273663;
    assert s[..6][..5] == s[..5];
    assert s[..6] == s;
  }

  // ---------------------------------------------------------------------
  // Pseudo-embeddings
  // ---------------------------------------------------------------------

  /** Entry `i` of the embedding of a token whose hash is `hash`. */
  function EmbeddingEntry(hash: nat, i: nat): (v: real)
    ensures 0.0 <= v <= 0.99
  {
    ((hash + i) % 100) as real / 100.0
  }

  /** The embedding of a token whose hash is `hash`, `modelDim` entries wide. */
  function Embedding(hash: nat, modelDim: nat): (e: seq<real>)
    ensures |e| == modelDim
    ensures forall i :: 0 <= i < modelDim ==> 0.0 <= e[i] <= 0.99
  {
    seq(modelDim, i requires 0 <= i < modelDim => EmbeddingEntry(hash, i))
  }

  /**
   * Consecutive entries climb by 0.01 and wrap from 0.99 back to 0, so an
   * embedding is a saw-tooth fixed by its first entry.
   */
  lemma EmbeddingSawTooth(hash: nat, modelDim: nat, i: nat)
    requires i + 1 < modelDim
    ensures var e := Embedding(hash, modelDim);
      e[i + 1] == if e[i] == 0.99 then 0.0 else e[i] + 0.01
  {
    var e := Embedding(hash, modelDim);
    NextResidue(hash + i);
    assert e[i] == EmbeddingEntry(hash, i);
    assert e[i + 1] == EmbeddingEntry(hash, i + 1);
  }

  /** The residue modulo 100 of a successor climbs by one and wraps after 99. */
  lemma NextResidue(n: nat)
    ensures (n + 1) % 100 == if n % 100 == 99 then 0 else n % 100 + 1
  {
    var q, m := n / 100, n % 100;
    assert n == q * 100 + m;
    if m == 99 {
      assert n + 1 == (q + 1) * 100;
    } else {
      assert n + 1 == q * 100 + (m + 1);
    }
  }

  /**
   * Two tokens get the same embedding exactly when their hashes agree
   * modulo 100: the embedding sees nothing else of the token.
   */
  lemma EmbeddingsCollideModulo100(hash1: nat, hash2: nat, modelDim: nat)
    requires modelDim >= 1
    ensures Embedding(hash1, modelDim) == Embedding(hash2, modelDim) <==> hash1 % 100 == hash2 % 100
  {
    var e1, e2 := Embedding(hash1, modelDim), Embedding(hash2, modelDim);
    if hash1 % 100 == hash2 % 100 {
      forall i | 0 <= i < modelDim ensures e1[i] == e2[i] {
        ShiftedResidues(hash1, hash2, i);
      }
    } else {
      var m1, m2 := hash1 % 100, hash2 % 100;
      assert e1[0] == m1 as real / 100.0 && e2[0] == m2 as real / 100.0;
      assert (m1 as real / 100.0) * 100.0 == m1 as real;
      assert (m2 as real / 100.0) * 100.0 == m2 as real;
    }
  }

  lemma ShiftedResidues(a: nat, b: nat, i: nat)
    requires a % 100 == b % 100
    ensures (a + i) % 100 == (b + i) % 100
  {
    var r := a % 100;
    assert a == (a / 100) * 100 + r;
    assert b == (b / 100) * 100 + r;
    var s := (r + i) % 100;
    assert r + i == ((r + i) / 100) * 100 + s;
    assert a + i == (a / 100 + (r + i) / 100) * 100 + s;
    assert b + i == (b / 100 + (r + i) / 100) * 100 + s;
  }

  // ---------------------------------------------------------------------
  // Scoring
  // ---------------------------------------------------------------------

  /** Adding one more value from [lo, hi] to a sum of `k` such values. */
  lemma BoundedStep(sum: real, s: real, k: real, next: real, lo: real, hi: real)
    requires next == k + 1.0
    requires k * lo <= sum <= k * hi && lo <= s <= hi
    ensures next * lo <= sum + s <= next * hi
  {
    assert next * lo == k * lo + lo;
    assert next * hi == k * hi + hi;
  }

  /** A sum of `n` values from [lo, hi] has a mean in [lo, hi]. */
  lemma MeanWithin(sum: real, n: real, lo: real, hi: real)
    requires n > 0.0
    ensures n * lo <= sum <= n * hi ==> lo <= sum / n <= hi
  {
    if n * lo <= sum <= n * hi {
      assert sum / n >= lo by {
        assert sum - n * lo >= 0.0;
        assert (sum - n * lo) / n >= 0.0;
        assert (sum - n * lo) / n == sum / n - lo;
      }
      assert sum / n <= hi by {
        assert n * hi - sum >= 0.0;
        assert (n * hi - sum) / n >= 0.0;
        assert (n * hi - sum) / n == hi - sum / n;
      }
    }
  }

  /** The first `n` terms of the dot product of `w` and `e`. */
  function Dot(w: seq<real>, e: seq<real>, n: nat): (d: real)
    requires n <= |w| && n <= |e|
    ensures (forall i :: 0 <= i < n ==> w[i] >= 0.0 && e[i] >= 0.0) ==> d >= 0.0
  {
    if n == 0 then 0.0 else Dot(w, e, n - 1) + w[n - 1] * e[n - 1]
  }

  /**
   * The shape of a mechanism's parameters: at least one head, one weight per
   * head and embedding dimension, one bias per head, each drawn from
   * [0.49, 0.51).
   */
  ghost predicate WellFormedParameters(modelDim: nat, numHeads: nat, weights: seq<seq<real>>, biases: seq<real>)
  {
    && numHeads > 0
    && |weights| == numHeads
    && |biases| == numHeads
    && (forall h :: 0 <= h < numHeads ==> |weights[h]| == modelDim)
    && (forall h, d :: 0 <= h < numHeads && 0 <= d < |weights[h]| ==> 0.49 <= weights[h][d] < 0.51)
    && (forall h :: 0 <= h < numHeads ==> 0.49 <= biases[h] < 0.51)
  }

  class TokenTemperatureMechanism {
    const modelDim: nat
    const numHeads: nat
    const weights: seq<seq<real>>
    const biases: seq<real>
    /** The logistic function 1 / (1 + e^-x). */
    const sigmoid: real -> real

    ghost predicate Valid()
    {
      WellFormedParameters(modelDim, numHeads, weights, biases)
    }

    /** `weights` and `biases` are the values drawn at random when the mechanism is made. */
    constructor (modelDim: nat, numHeads: nat, weights: seq<seq<real>>, biases: seq<real>, sigmoid: real -> real)
      requires WellFormedParameters(modelDim, numHeads, weights, biases)
      ensures Valid()
      ensures this.modelDim == modelDim && this.numHeads == numHeads
      ensures this.weights == weights && this.biases == biases && this.sigmoid == sigmoid
    {
      this.modelDim := modelDim;
      this.numHeads := numHeads;
      this.weights := weights;
      this.biases := biases;
      this.sigmoid := sigmoid;
    }

    /** Whether the squashing function keeps every score within [0, 1], as the logistic function does. */
    ghost predicate SquashesIntoUnit()
    {
      forall x :: 0.0 <= sigmoid(x) <= 1.0
    }

    /**
     * Head `h`'s pre-activation score for one embedding: its bias plus the
     * weighted sum. Weights are positive, so on an embedding without
     * negative entries the score is at least the smallest bias, 0.49.
     */
    function HeadScore(h: nat, embedding: seq<real>): (score: real)
      requires Valid() && h < numHeads && |embedding| == modelDim
      ensures (forall i :: 0 <= i < modelDim ==> embedding[i] >= 0.0) ==> score >= 0.49
    {
      biases[h] + Dot(weights[h], embedding, modelDim)
    }

    /**
     * The sum of the squashed scores of the first `n` heads: between 0 and
     * `n` when the squashing function keeps to [0, 1], as the logistic
     * function does.
     */
    function SigmoidSum(embedding: seq<real>, n: nat): (sum: real)
      requires Valid() && n <= numHeads && |embedding| == modelDim
      ensures SquashesIntoUnit() ==> 0.0 <= sum <= n as real
    {
      if n == 0 then 0.0 else SigmoidSum(embedding, n - 1) + sigmoid(HeadScore(n - 1, embedding))
    }

    /**
     * A token's raw temperature: the mean over all heads of the squashed
     * score, so within [0, 1] when the squashing function is.
     */
    function TokenTemperature(token: string): (t: real)
      requires Valid()
      ensures SquashesIntoUnit() ==> 0.0 <= t <= 1.0
    {
      var sum := SigmoidSum(Embedding(HashValue(token), modelDim), numHeads);
      MeanWithin(sum, numHeads as real, 0.0, 1.0);
      sum / numHeads as real
    }

    /** Raw temperatures, one per token and index-aligned with the tokens. */
    function Temperatures(tokens: seq<string>): (r: seq<real>)
      requires Valid()
      ensures |r| == |tokens|
      ensures forall i, j :: 0 <= i < |tokens| && 0 <= j < |tokens| && tokens[i] == tokens[j] ==> r[i] == r[j]
    {
      seq(|tokens|, i requires 0 <= i < |tokens| => TokenTemperature(tokens[i]))
    }

    lemma {:induction false} SigmoidSumBounds(embedding: seq<real>, n: nat, lo: real, hi: real)
      requires Valid() && n <= numHeads && |embedding| == modelDim
      requires forall x :: lo <= sigmoid(x) <= hi
      ensures n as real * lo <= SigmoidSum(embedding, n) <= n as real * hi
    {
      if n > 0 {
        SigmoidSumBounds(embedding, n - 1, lo, hi);
        var s := sigmoid(HeadScore(n - 1, embedding));
        assert lo <= s <= hi;
        BoundedStep(SigmoidSum(embedding, n - 1), s, (n - 1) as real, n as real, lo, hi);
      }
    }

    /**
     * A raw temperature is a mean of squashed scores, so it lies within
     * whatever bounds the squashing function keeps; for the logistic
     * function, within [0, 1].
     */
    lemma TemperatureWithinSigmoidBounds(token: string, lo: real, hi: real)
      requires Valid()
      requires forall x :: lo <= sigmoid(x) <= hi
      ensures lo <= TokenTemperature(token) <= hi
    {
      var e := Embedding(HashValue(token), modelDim);
      SigmoidSumBounds(e, numHeads, lo, hi);
      MeanWithin(SigmoidSum(e, numHeads), numHeads as real, lo, hi);
    }

    /** The 32-bit rolling hash of a string, made non-negative. */
    method HashString(str: string) returns (hash: nat)
      ensures hash == HashValue(str)
      ensures hash <= TwoTo31
    {
      var h := 0;
      for i := 0 to |str|
        invariant h == HashFold(str[..i])
      {
        assert str[..i + 1][..i] == str[..i];
        // (h << 5) - h + c, then truncated to 32 bits
        Wrap32Absorbs(h * 32, -h + str[i] as int);
        h := Wrap32(Wrap32(h * 32) - h + str[i] as int);
      }
      assert str[..|str|] == str;
      hash := if h < 0 then -h else h;
    }

    /** One embedding per token; equal tokens get equal embeddings. */
    method SimulateEmbeddings(tokens: seq<string>) returns (embeddings: seq<seq<real>>)
      ensures |embeddings| == |tokens|
      ensures forall k :: 0 <= k < |tokens| ==> embeddings[k] == Embedding(HashValue(tokens[k]), modelDim)
      ensures forall j, k :: 0 <= j < |tokens| && 0 <= k < |tokens| && tokens[j] == tokens[k] ==> embeddings[j] == embeddings[k]
    {
      embeddings := [];
      for k := 0 to |tokens|
        invariant |embeddings| == k
        invariant forall j :: 0 <= j < k ==> embeddings[j] == Embedding(HashValue(tokens[j]), modelDim)
      {
        var embedding := new real[modelDim](_ => 0.0);
        var hashCode := HashString(tokens[k]);
        for i := 0 to modelDim
          invariant forall j :: 0 <= j < i ==> embedding[j] == EmbeddingEntry(hashCode, j)
        {
          embedding[i] := ((hashCode + i) % 100) as real / 100.0;
        }
        embeddings := embeddings + [embedding[..]];
      }
    }

    /** Raw temperatures: for each token, the mean over heads of the squashed head score. */
    method CalculateTemperatures(tokens: seq<string>) returns (temperatures: seq<real>)
      requires Valid()
      ensures |temperatures| == |tokens|
      ensures temperatures == Temperatures(tokens)
    {
      var tokenEmbeddings := SimulateEmbeddings(tokens);
      temperatures := [];
      for i := 0 to |tokens|
        invariant |temperatures| == i
        invariant forall j :: 0 <= j < i ==> temperatures[j] == TokenTemperature(tokens[j])
      {
        var temperature := MeanHeadActivation(tokenEmbeddings[i]);
        temperatures := temperatures + [temperature];
      }
      ghost var spec := Temperatures(tokens);
      assert forall j :: 0 <= j < |tokens| ==> temperatures[j] == spec[j];
    }

    /** The temperature of one embedded token: the squashed head scores, summed and averaged. */
    method MeanHeadActivation(embedding: seq<real>) returns (temperature: real)
      requires Valid() && |embedding| == modelDim
      ensures temperature == SigmoidSum(embedding, numHeads) / numHeads as real
    {
      var tempSum := 0.0;
      for h := 0 to numHeads
        invariant tempSum == SigmoidSum(embedding, h)
      {
        assert |weights[h]| == modelDim;
        var headTemp := biases[h];
        for d := 0 to modelDim
          invariant headTemp == biases[h] + Dot(weights[h], embedding, d)
        {
          headTemp := headTemp + weights[h][d] * embedding[d];
        }
        tempSum := tempSum + sigmoid(headTemp);
      }
      temperature := tempSum / numHeads as real;
    }
  }
}
