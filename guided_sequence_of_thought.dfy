/**
 * The Guided Step Controller: tokenises a problem sentence, reads the hot
 * tokens of each step as an arithmetic instruction, boosts and decays the
 * temperatures, and builds the trace of reasoning steps until a step is
 * terminal or the step budget runs out.
 */
module GuidedSequence {
  import opened Types
  import opened NumberParsing
  import opened TemperatureMechanism

  const InitialDescription: string := "Initial problem analysis"
  const FinalDescription: string := "Final result calculation"

  // ---------------------------------------------------------------------
  // Tokenising
  // ---------------------------------------------------------------------

  /** The punctuation the tokenizer turns into spaces; `%` and `$` are not among it. */
  predicate IsPunctuation(c: char)
  {
    c == '.' || c == ',' || c == '?' || c == '!' || c == ';' || c == '(' || c == ')'
  }

  /** The characters of the JavaScript regular-expression class `\s`. */
  predicate IsWhitespace(c: char)
  {
    || c == ' ' || ('\t' <= c <= '\r') || c == '\U{00A0}' || c == '\U{1680}'
    || ('\U{2000}' <= c <= '\U{200A}') || c == '\U{2028}' || c == '\U{2029}'
    || c == '\U{202F}' || c == '\U{205F}' || c == '\U{3000}' || c == '\U{FEFF}'
  }

  predicate IsSeparator(c: char)
  {
    IsPunctuation(c) || IsWhitespace(c)
  }

  /** The text with every punctuation character replaced by a space. */
  function ReplacePunctuation(text: string): (r: string)
    ensures |r| == |text|
    ensures forall i :: 0 <= i < |r| ==> !IsPunctuation(r[i])
    ensures forall i :: 0 <= i < |r| ==> (IsWhitespace(r[i]) <==> IsSeparator(text[i]))
    ensures forall i :: 0 <= i < |r| && !IsSeparator(text[i]) ==> r[i] == text[i]
  {
    seq(|text|, i requires 0 <= i < |text| => if IsPunctuation(text[i]) then ' ' else text[i])
  }

  /**
   * The pieces of `s` between whitespace characters, empty pieces included.
   * The source splits at runs of whitespace instead; the two differ only in
   * empty pieces, which the tokenizer drops.
   */
  function SplitOnWhitespace(s: string): (pieces: seq<string>)
    ensures |pieces| >= 1
  {
    if s == [] then [""] else Push(s[0], SplitOnWhitespace(s[1..]))
  }

  /**
   * The pieces of `[c] + t` from those of `t`: a whitespace character opens
   * a new piece, any other joins the first piece.
   */
  function Push(c: char, rest: seq<string>): (pieces: seq<string>)
    requires |rest| >= 1
    ensures |pieces| >= 1
  {
    if IsWhitespace(c) then [""] + rest else [[c] + rest[0]] + rest[1..]
  }

  /** Pushing a character only touches the first piece. */
  lemma PushAppend(c: char, rest: seq<string>, tail: seq<string>)
    requires |rest| >= 1
    ensures Push(c, rest + tail) == Push(c, rest) + tail
  {
    var all := rest + tail;
    if IsWhitespace(c) {
      assert ([""] + rest) + tail == [""] + all;
    } else {
      var head := [[c] + rest[0]];
      assert all[0] == rest[0] && all[1..] == rest[1..] + tail;
      assert (head + rest[1..]) + tail == head + all[1..];
    }
  }

  /** No piece holds whitespace, and every character of a piece comes from the input. */
  lemma {:induction false} SplitPiecesFromInput(s: string)
    ensures forall k, j :: 0 <= k < |SplitOnWhitespace(s)| && 0 <= j < |SplitOnWhitespace(s)[k]| ==>
      !IsWhitespace(SplitOnWhitespace(s)[k][j]) && SplitOnWhitespace(s)[k][j] in s
  {
    if s != [] {
      SplitPiecesFromInput(s[1..]);
      var rest := SplitOnWhitespace(s[1..]);
      var pieces := SplitOnWhitespace(s);
      forall k, j | 0 <= k < |pieces| && 0 <= j < |pieces[k]|
        ensures !IsWhitespace(pieces[k][j]) && pieces[k][j] in s
      {
        if IsWhitespace(s[0]) {
          assert pieces[k] == ([""] + rest)[k];
          if k > 0 {
            assert pieces[k] == rest[k - 1];
            assert pieces[k][j] in s[1..];
          }
        } else if k == 0 {
          assert pieces[0] == [s[0]] + rest[0];
          if j > 0 {
            assert pieces[0][j] == rest[0][j - 1];
            assert rest[0][j - 1] in s[1..];
          }
        } else {
          assert pieces[k] == rest[k];
          assert pieces[k][j] in s[1..];
        }
      }
    }
  }

  /** The non-empty pieces, in order. */
  function NonEmpty(pieces: seq<string>): (r: seq<string>)
    ensures |r| <= |pieces|
    ensures forall k :: 0 <= k < |r| ==> r[k] != [] && r[k] in pieces
  {
    if pieces == [] then []
    else (if pieces[0] == [] then [] else [pieces[0]]) + NonEmpty(pieces[1..])
  }

  /**
   * The tokens of a problem sentence: no token is empty, and none holds
   * whitespace or any of `. , ? ! ; ( )`.
   */
  function Tokenize(text: string): (tokens: seq<string>)
    ensures forall k :: 0 <= k < |tokens| ==> tokens[k] != []
    ensures forall k, j :: 0 <= k < |tokens| && 0 <= j < |tokens[k]| ==> !IsSeparator(tokens[k][j])
  {
    var spaced := ReplacePunctuation(text);
    var tokens := NonEmpty(SplitOnWhitespace(spaced));
    SplitPiecesFromInput(spaced);
    assert forall k, j :: 0 <= k < |tokens| && 0 <= j < |tokens[k]| ==> tokens[k][j] in spaced;
    tokens
  }

  /** All the strings of a sequence, joined. */
  function Concat(pieces: seq<string>): string
  {
    if pieces == [] then [] else pieces[0] + Concat(pieces[1..])
  }

  /** The characters of `s` that are not whitespace, in order. */
  function DropWhitespace(s: string): string
  {
    if s == [] then [] else (if IsWhitespace(s[0]) then [] else [s[0]]) + DropWhitespace(s[1..])
  }

  /** The characters of `s` that are neither whitespace nor punctuation, in order. */
  function DropSeparators(s: string): string
  {
    if s == [] then [] else (if IsSeparator(s[0]) then [] else [s[0]]) + DropSeparators(s[1..])
  }

  lemma {:induction false} ConcatNonEmpty(pieces: seq<string>)
    ensures Concat(NonEmpty(pieces)) == Concat(pieces)
  {
    if pieces != [] {
      ConcatNonEmpty(pieces[1..]);
      if pieces[0] != [] {
        assert NonEmpty(pieces) == [pieces[0]] + NonEmpty(pieces[1..]);
        assert ([pieces[0]] + NonEmpty(pieces[1..]))[1..] == NonEmpty(pieces[1..]);
      } else {
        assert NonEmpty(pieces) == NonEmpty(pieces[1..]);
        assert Concat(pieces) == pieces[0] + Concat(pieces[1..]) == Concat(pieces[1..]);
      }
    }
  }

  lemma {:induction false} ConcatSplit(s: string)
    ensures Concat(SplitOnWhitespace(s)) == DropWhitespace(s)
  {
    if s != [] {
      var rest := SplitOnWhitespace(s[1..]);
      ConcatSplit(s[1..]);
      if IsWhitespace(s[0]) {
        assert ([""] + rest)[1..] == rest;
      } else {
        var pieces := [[s[0]] + rest[0]] + rest[1..];
        assert pieces[1..] == rest[1..];
        assert Concat(rest) == rest[0] + Concat(rest[1..]);
        assert Concat(pieces) == [s[0]] + rest[0] + Concat(rest[1..]);
      }
    }
  }

  lemma {:induction false} DropWhitespaceReplaced(text: string)
    ensures DropWhitespace(ReplacePunctuation(text)) == DropSeparators(text)
  {
    if text != [] {
      DropWhitespaceReplaced(text[1..]);
      assert ReplacePunctuation(text)[1..] == ReplacePunctuation(text[1..]);
    }
  }

  /**
   * Tokenising loses nothing but separators: the tokens, joined, are the
   * characters of the text other than whitespace and `. , ? ! ; ( )`, in
   * their original order. In particular `%` and `$` stay inside their
   * tokens.
   */
  lemma TokenizeKeepsNonSeparators(text: string)
    ensures Concat(Tokenize(text)) == DropSeparators(text)
  {
    var spaced := ReplacePunctuation(text);
    ConcatNonEmpty(SplitOnWhitespace(spaced));
    ConcatSplit(spaced);
    DropWhitespaceReplaced(text);
  }

  /** Splitting at a whitespace character splits the pieces exactly there. */
  lemma {:induction false} SplitAtWhitespace(x: string, c: char, y: string)
    requires IsWhitespace(c)
    ensures SplitOnWhitespace(x + [c] + y) == SplitOnWhitespace(x) + SplitOnWhitespace(y)
  {
    if x == [] {
      assert x + [c] + y == [c] + y;
      assert ([c] + y)[1..] == y;
    } else {
      SplitAtWhitespace(x[1..], c, y);
      SplitConsStep(x, c, y);
    }
  }

  /** One character in front: the induction step of `SplitAtWhitespace`. */
  lemma SplitConsStep(x: string, c: char, y: string)
    requires x != [] && IsWhitespace(c)
    requires SplitOnWhitespace(x[1..] + [c] + y) == SplitOnWhitespace(x[1..]) + SplitOnWhitespace(y)
    ensures SplitOnWhitespace(x + [c] + y) == SplitOnWhitespace(x) + SplitOnWhitespace(y)
  {
    var s := x + [c] + y;
    assert s[0] == x[0];
    assert s[1..] == x[1..] + [c] + y;
    PushAppend(x[0], SplitOnWhitespace(x[1..]), SplitOnWhitespace(y));
  }

  /** A string without whitespace is one piece. */
  lemma {:induction false} SplitWithoutWhitespace(w: string)
    requires forall i :: 0 <= i < |w| ==> !IsWhitespace(w[i])
    ensures SplitOnWhitespace(w) == [w]
  {
    if w != [] {
      SplitWithoutWhitespace(w[1..]);
      assert [w[0]] + w[1..] == w;
    }
  }

  /** Dropping empty pieces distributes over concatenation. */
  lemma {:induction false} NonEmptyAppend(p: seq<string>, q: seq<string>)
    ensures NonEmpty(p + q) == NonEmpty(p) + NonEmpty(q)
  {
    if p == [] {
      assert p + q == q;
    } else {
      assert (p + q)[0] == p[0] && (p + q)[1..] == p[1..] + q;
      NonEmptyAppend(p[1..], q);
    }
  }

  /** Text with no character at all has no token. */
  lemma TokenizeEmpty()
    ensures Tokenize("") == []
  {
    assert SplitOnWhitespace("") == [""];
    assert [""][1..] == [];
  }

  /** A non-empty string without whitespace or punctuation. */
  predicate IsWord(w: string)
  {
    w != [] && forall i :: 0 <= i < |w| ==> !IsSeparator(w[i])
  }

  /** A word is exactly one token. */
  lemma TokenizeWord(w: string)
    requires IsWord(w)
    ensures Tokenize(w) == [w]
  {
    assert ReplacePunctuation(w) == w;
    SplitWithoutWhitespace(w);
    assert [w][1..] == [];
  }

  /**
   * Every whitespace or punctuation character is a token boundary: the
   * tokens of the text around it are the tokens of each side.
   */
  lemma TokenizeAtSeparator(a: string, c: char, b: string)
    requires IsSeparator(c)
    ensures Tokenize(a + [c] + b) == Tokenize(a) + Tokenize(b)
  {
    var ra, rb := ReplacePunctuation(a), ReplacePunctuation(b);
    var r := if IsPunctuation(c) then ' ' else c;
    assert ReplacePunctuation(a + [c] + b) == ra + [r] + rb;
    SplitAtWhitespace(ra, r, rb);
    NonEmptyAppend(SplitOnWhitespace(ra), SplitOnWhitespace(rb));
  }

  /** A separator followed by a word adds that word as the last token. */
  lemma TokenizeTrailingWord(prefix: string, c: char, w: string)
    requires IsWord(w)
    requires IsSeparator(c)
    ensures Tokenize(prefix + [c] + w) == Tokenize(prefix) + [w]
  {
    TokenizeAtSeparator(prefix, c, w);
    TokenizeWord(w);
  }

  /** A trailing separator adds no token. */
  lemma TokenizeTrailingSeparator(prefix: string, c: char)
    requires IsSeparator(c)
    ensures Tokenize(prefix + [c]) == Tokenize(prefix)
  {
    assert prefix + [c] + [] == prefix + [c];
    TokenizeAtSeparator(prefix, c, []);
    TokenizeEmpty();
  }

  /**
   * The first sentence of the demonstration problem "A store has a 30% discount on an $80 item,
   * then adds 8% tax.", spelled out word by word: full stops and commas go,
   * while `30%`, `$80` and `8%` stay whole tokens.
   */
  lemma TokenizeDiscountProblem()
    ensures Tokenize("A" + " " + "store" + " " + "has" + " " + "a" + " " + "30%" + " " + "discount" + " " + "on" + " " + "an" + " " + "$80" + " " + "item" + "," + " " + "then" + " " + "adds" + " " + "8%" + " " + "tax" + ".")
      == ["A", "store", "has", "a", "30%", "discount", "on", "an", "$80", "item", "then", "adds", "8%", "tax"]
  {
    DiscountClosingWords();
    TokenizeDiscountItem();
    TokenizeTrailingSeparator("A" + " " + "store" + " " + "has" + " " + "a" + " " + "30%" + " " + "discount" + " " + "on" + " " + "an" + " " + "$80" + " " + "item", ',');
    TokenizeTrailingWord("A" + " " + "store" + " " + "has" + " " + "a" + " " + "30%" + " " + "discount" + " " + "on" + " " + "an" + " " + "$80" + " " + "item" + ",", ' ', "then");
    TokenizeTrailingWord("A" + " " + "store" + " " + "has" + " " + "a" + " " + "30%" + " " + "discount" + " " + "on" + " " + "an" + " " + "$80" + " " + "item" + "," + " " + "then", ' ', "adds");
    TokenizeTrailingWord("A" + " " + "store" + " " + "has" + " " + "a" + " " + "30%" + " " + "discount" + " " + "on" + " " + "an" + " " + "$80" + " " + "item" + "," + " " + "then" + " " + "adds", ' ', "8%");
    TokenizeTrailingWord("A" + " " + "store" + " " + "has" + " " + "a" + " " + "30%" + " " + "discount" + " " + "on" + " " + "an" + " " + "$80" + " " + "item" + "," + " " + "then" + " " + "adds" + " " + "8%", ' ', "tax");
    TokenizeTrailingSeparator("A" + " " + "store" + " " + "has" + " " + "a" + " " + "30%" + " " + "discount" + " " + "on" + " " + "an" + " " + "$80" + " " + "item" + "," + " " + "then" + " " + "adds" + " " + "8%" + " " + "tax", '.');
  }

  /** The demonstration problem up to "an $80 item". */
  lemma TokenizeDiscountItem()
    ensures Tokenize("A" + " " + "store" + " " + "has" + " " + "a" + " " + "30%" + " " + "discount" + " " + "on" + " " + "an" + " " + "$80" + " " + "item") == ["A", "store", "has", "a", "30%", "discount", "on", "an", "$80", "item"]
  {
    DiscountItemWords();
    TokenizeDiscountOpening();
    TokenizeTrailingWord("A" + " " + "store" + " " + "has" + " " + "a" + " " + "30%", ' ', "discount");
    TokenizeTrailingWord("A" + " " + "store" + " " + "has" + " " + "a" + " " + "30%" + " " + "discount", ' ', "on");
    TokenizeTrailingWord("A" + " " + "store" + " " + "has" + " " + "a" + " " + "30%" + " " + "discount" + " " + "on", ' ', "an");
    TokenizeTrailingWord("A" + " " + "store" + " " + "has" + " " + "a" + " " + "30%" + " " + "discount" + " " + "on" + " " + "an", ' ', "$80");
    TokenizeTrailingWord("A" + " " + "store" + " " + "has" + " " + "a" + " " + "30%" + " " + "discount" + " " + "on" + " " + "an" + " " + "$80", ' ', "item");
  }

  /** The demonstration problem up to "a 30%". */
  lemma TokenizeDiscountOpening()
    ensures Tokenize("A" + " " + "store" + " " + "has" + " " + "a" + " " + "30%") == ["A", "store", "has", "a", "30%"]
  {
    DiscountOpeningWords();
    TokenizeWord("A");
    TokenizeTrailingWord("A", ' ', "store");
    TokenizeTrailingWord("A" + " " + "store", ' ', "has");
    TokenizeTrailingWord("A" + " " + "store" + " " + "has", ' ', "a");
    TokenizeTrailingWord("A" + " " + "store" + " " + "has" + " " + "a", ' ', "30%");
  }

  /** The words of "A store has a 30%" in the demonstration problem. */
  lemma DiscountOpeningWords()
    ensures IsWord("A")
      && IsWord("store")
      && IsWord("has")
      && IsWord("a")
      && IsWord("30%")
  {
  }

  /** The words of "discount on an $80 item" in the demonstration problem. */
  lemma DiscountItemWords()
    ensures IsWord("discount")
      && IsWord("on")
      && IsWord("an")
      && IsWord("$80")
      && IsWord("item")
  {
  }

  /** The words of "then adds 8% tax" in the demonstration problem. */
  lemma DiscountClosingWords()
    ensures IsWord("then")
      && IsWord("adds")
      && IsWord("8%")
      && IsWord("tax")
  {
  }

  // ---------------------------------------------------------------------
  // Hot tokens
  // ---------------------------------------------------------------------

  /**
   * The positions whose temperature is strictly above the threshold, in
   * increasing order.
   */
  function HotTokenIndices(temps: seq<real>, threshold: real): (r: seq<nat>)
    ensures forall j :: 0 <= j < |r| ==> r[j] < |temps| && temps[r[j]] > threshold
    ensures forall j, k :: 0 <= j < k < |r| ==> r[j] < r[k]
    ensures forall i :: 0 <= i < |temps| && temps[i] > threshold ==> i in r
  {
    if temps == [] then []
    else
      var n := |temps| - 1;
      HotTokenIndices(temps[..n], threshold) + (if temps[n] > threshold then [n] else [])
  }

  /** The tokens at the hot positions, in token order. */
  function HotTokens(tokens: seq<string>, temps: seq<real>, threshold: real): (hot: seq<string>)
    requires |tokens| == |temps|
    ensures |hot| == |HotTokenIndices(temps, threshold)| <= |tokens|
    ensures forall j :: 0 <= j < |hot| ==> hot[j] == tokens[HotTokenIndices(temps, threshold)[j]]
  {
    var indices := HotTokenIndices(temps, threshold);
    IndicesFit(indices, |tokens|);
    seq(|indices|, j requires 0 <= j < |indices| => tokens[indices[j]])
  }

  /**
   * The hot tokens are exactly the tokens whose temperature is above the
   * threshold, each hot slot contributing one entry.
   */
  lemma HotTokensExactly(tokens: seq<string>, temps: seq<real>, threshold: real)
    requires |tokens| == |temps|
    ensures |HotTokens(tokens, temps, threshold)| <= |tokens|
    ensures forall t :: t in HotTokens(tokens, temps, threshold) <==>
      exists i :: 0 <= i < |tokens| && temps[i] > threshold && tokens[i] == t
  {
    forall t | t in HotTokens(tokens, temps, threshold)
      ensures exists i :: 0 <= i < |tokens| && temps[i] > threshold && tokens[i] == t
    {
      HotTokenHasHotSlot(tokens, temps, threshold, t);
    }
    forall t | exists i :: 0 <= i < |tokens| && temps[i] > threshold && tokens[i] == t
      ensures t in HotTokens(tokens, temps, threshold)
    {
      var i :| 0 <= i < |tokens| && temps[i] > threshold && tokens[i] == t;
      HotSlotGivesHotToken(tokens, temps, threshold, i);
    }
  }

  /**
   * Hot tokens are collected in sentence order: one more token adds itself
   * at the end of the hot list exactly when its temperature is above the
   * threshold, and leaves the earlier hot tokens as they were.
   */
  lemma HotTokensSnoc(tokens: seq<string>, temps: seq<real>, threshold: real, t: string, x: real)
    requires |tokens| == |temps|
    ensures HotTokens(tokens + [t], temps + [x], threshold)
      == HotTokens(tokens, temps, threshold) + (if x > threshold then [t] else [])
  {
    var n := |temps|;
    assert (temps + [x])[..n] == temps;
    var indices := HotTokenIndices(temps, threshold);
    var longer := HotTokens(tokens + [t], temps + [x], threshold);
    var hot := HotTokens(tokens, temps, threshold);
    var tail: seq<string> := if x > threshold then [t] else [];
    assert HotTokenIndices(temps + [x], threshold) == indices + (if x > threshold then [n] else []);
    forall j | 0 <= j < |longer| ensures longer[j] == (hot + tail)[j] {
      if j < |indices| {
        assert longer[j] == (tokens + [t])[indices[j]] == tokens[indices[j]];
      }
    }
  }

  /** Every hot token stands in a slot above the threshold. */
  lemma HotTokenHasHotSlot(tokens: seq<string>, temps: seq<real>, threshold: real, t: string)
    requires |tokens| == |temps|
    requires t in HotTokens(tokens, temps, threshold)
    ensures exists i :: 0 <= i < |tokens| && temps[i] > threshold && tokens[i] == t
  {
    var indices := HotTokenIndices(temps, threshold);
    var hot := HotTokens(tokens, temps, threshold);
    var j :| 0 <= j < |hot| && hot[j] == t;
    assert temps[indices[j]] > threshold && tokens[indices[j]] == t;
  }

  /** The token in a slot above the threshold is hot. */
  lemma HotSlotGivesHotToken(tokens: seq<string>, temps: seq<real>, threshold: real, i: nat)
    requires |tokens| == |temps|
    requires i < |tokens| && temps[i] > threshold
    ensures tokens[i] in HotTokens(tokens, temps, threshold)
  {
    var indices := HotTokenIndices(temps, threshold);
    var hot := HotTokens(tokens, temps, threshold);
    var j :| 0 <= j < |indices| && indices[j] == i;
    assert hot[j] == tokens[i];
  }

  /** A strictly increasing sequence of positions below `n` has at most `n` entries. */
  lemma {:induction false} IndicesFit(indices: seq<nat>, n: nat)
    requires forall j :: 0 <= j < |indices| ==> indices[j] < n
    requires forall j, k :: 0 <= j < k < |indices| ==> indices[j] < indices[k]
    ensures |indices| <= n
  {
    if indices != [] {
      var last := |indices| - 1;
      IndicesFit(indices[..last], indices[last]);
    }
  }

  // ---------------------------------------------------------------------
  // Operation detection and execution
  // ---------------------------------------------------------------------

  /** The words that name each operation. */
  predicate IsKeyword(op: Operation, token: string)
  {
    match op
    case Addition => token == "add" || token == "plus" || token == "sum"
    case Subtraction => token == "subtract" || token == "minus"
    case Multiplication => token == "multiply" || token == "times"
    case Division => token == "divide" || token == "divided"
    case Percentage => token == "percent" || token == "%"
  }

  /** Whether some hot token names `op`. */
  predicate Detected(op: Operation, hot: seq<string>)
  {
    exists k :: 0 <= k < |hot| && IsKeyword(op, hot[k])
  }

  /** Whether `token` names one of the five operations. */
  predicate AnyKeyword(token: string)
  {
    || IsKeyword(Addition, token) || IsKeyword(Subtraction, token) || IsKeyword(Multiplication, token)
    || IsKeyword(Division, token) || IsKeyword(Percentage, token)
  }

  /** Whether `token` names addition, subtraction, multiplication or division. */
  predicate IsArithmeticWord(token: string)
  {
    AnyKeyword(token) && !IsKeyword(Percentage, token)
  }

  /** Whether any of the five operations is named by a hot token. */
  predicate AnyDetected(hot: seq<string>)
  {
    || Detected(Addition, hot) || Detected(Subtraction, hot) || Detected(Multiplication, hot)
    || Detected(Division, hot) || Detected(Percentage, hot)
  }

  /**
   * Whether an operation that comes before `op` in the priority order
   * addition, subtraction, multiplication, division, percentage was detected.
   */
  predicate HigherPriorityDetected(op: Operation, hot: seq<string>)
  {
    match op
    case Addition => false
    case Subtraction => Detected(Addition, hot)
    case Multiplication => Detected(Addition, hot) || Detected(Subtraction, hot)
    case Division => Detected(Addition, hot) || Detected(Subtraction, hot) || Detected(Multiplication, hot)
    case Percentage =>
      Detected(Addition, hot) || Detected(Subtraction, hot) || Detected(Multiplication, hot) || Detected(Division, hot)
  }

  /** Each hot token read as a number, or None where it does not parse. */
  function Parsed(hot: seq<string>): (parsed: seq<Option<real>>)
    ensures |parsed| == |hot|
  {
    seq(|hot|, k requires 0 <= k < |hot| => ParseNumber(hot[k]))
  }

  /** The values present in `parsed`, in order. */
  function Values(parsed: seq<Option<real>>): (values: seq<real>)
    ensures |values| <= |parsed|
  {
    if parsed == [] then []
    else
      var n := |parsed| - 1;
      Values(parsed[..n]) + (match parsed[n] case Some(x) => [x] case None => [])
  }

  /** The positions of `parsed` that hold a value, in increasing order. */
  function Present(parsed: seq<Option<real>>): (r: seq<nat>)
    ensures forall j :: 0 <= j < |r| ==> r[j] < |parsed| && parsed[r[j]].Some?
    ensures forall j, k :: 0 <= j < k < |r| ==> r[j] < r[k]
    ensures forall k :: 0 <= k < |parsed| && parsed[k].Some? ==> k in r
  {
    if parsed == [] then []
    else
      var n := |parsed| - 1;
      Present(parsed[..n]) + (if parsed[n].Some? then [n] else [])
  }

  /** The j-th value is the one held at the j-th present position. */
  lemma {:induction false} ValuesInOrder(parsed: seq<Option<real>>)
    ensures |Values(parsed)| == |Present(parsed)|
    ensures forall j :: 0 <= j < |Values(parsed)| ==> parsed[Present(parsed)[j]] == Some(Values(parsed)[j])
  {
    if parsed != [] {
      var n := |parsed| - 1;
      var front := parsed[..n];
      ValuesInOrder(front);
      var values, present := Values(parsed), Present(parsed);
      var vf, pf := Values(front), Present(front);
      forall j | 0 <= j < |values| ensures parsed[present[j]] == Some(values[j]) {
        if j < |vf| {
          assert values[j] == vf[j] && present[j] == pf[j];
          assert parsed[pf[j]] == front[pf[j]];
        } else {
          assert values[j] == parsed[n].value && present[j] == n;
        }
      }
    } else {
      assert Values(parsed) == [];
    }
  }

  /** The hot tokens that parse as numbers, as numbers, in order. */
  function Numbers(hot: seq<string>): (numbers: seq<real>)
    ensures |numbers| <= |hot|
  {
    Values(Parsed(hot))
  }

  /** The positions of the hot tokens that parse as numbers, in increasing order. */
  function NumericIndices(hot: seq<string>): (r: seq<nat>)
    ensures forall j :: 0 <= j < |r| ==> r[j] < |hot| && ParseNumber(hot[r[j]]).Some?
    ensures forall j, k :: 0 <= j < k < |r| ==> r[j] < r[k]
    ensures forall k :: 0 <= k < |hot| && ParseNumber(hot[k]).Some? ==> k in r
  {
    var r := Present(Parsed(hot));
    assert forall k :: 0 <= k < |hot| ==> Parsed(hot)[k] == ParseNumber(hot[k]);
    r
  }

  /**
   * There is one number per numeric hot token, and the j-th number is the
   * value of the j-th numeric hot token.
   */
  lemma NumbersInOrder(hot: seq<string>)
    ensures |Numbers(hot)| == |NumericIndices(hot)|
    ensures forall j :: 0 <= j < |Numbers(hot)| ==>
      ParseNumber(hot[NumericIndices(hot)[j]]) == Some(Numbers(hot)[j])
  {
    var parsed := Parsed(hot);
    ValuesInOrder(parsed);
    forall j | 0 <= j < |Numbers(hot)| ensures ParseNumber(hot[NumericIndices(hot)[j]]) == Some(Numbers(hot)[j]) {
      assert parsed[Present(parsed)[j]] == Some(Values(parsed)[j]);
    }
  }

  /**
   * There are at least two numbers exactly when two hot tokens parse; the
   * first two numbers are then the values of the first two such tokens, and
   * no other token before the second one parses.
   */
  lemma OperandsAreFirstNumericHotTokens(hot: seq<string>)
    ensures |Numbers(hot)| >= 2 <==>
      exists k0, k1 :: 0 <= k0 < k1 < |hot| && ParseNumber(hot[k0]).Some? && ParseNumber(hot[k1]).Some?
    ensures |Numbers(hot)| >= 2 ==>
      exists k0, k1 :: && 0 <= k0 < k1 < |hot|
                       && ParseNumber(hot[k0]) == Some(Numbers(hot)[0])
                       && ParseNumber(hot[k1]) == Some(Numbers(hot)[1])
                       && forall k :: 0 <= k < k1 && k != k0 ==> ParseNumber(hot[k]).None?
  {
    NumbersInOrder(hot);
    var parsed := Parsed(hot);
    TwoPresent(parsed);
    assert forall k :: 0 <= k < |hot| ==> parsed[k] == ParseNumber(hot[k]);
    if |Numbers(hot)| >= 2 {
      FirstTwoPresent(parsed);
      var r := NumericIndices(hot);
      assert r == Present(parsed);
      var k0, k1 := r[0], r[1];
      assert ParseNumber(hot[k0]) == Some(Numbers(hot)[0]);
      assert ParseNumber(hot[k1]) == Some(Numbers(hot)[1]);
      forall k | 0 <= k < k1 && k != k0 ensures ParseNumber(hot[k]).None? {
        assert parsed[k].None?;
      }
    }
  }

  /** At least two positions hold a value exactly when two values are present. */
  lemma TwoPresent(parsed: seq<Option<real>>)
    ensures |Present(parsed)| >= 2 <==>
      exists k0, k1 :: 0 <= k0 < k1 < |parsed| && parsed[k0].Some? && parsed[k1].Some?
  {
    var r := Present(parsed);
    if |r| >= 2 {
      assert r[0] < r[1] && parsed[r[0]].Some? && parsed[r[1]].Some?;
    }
    if exists k0, k1 :: 0 <= k0 < k1 < |parsed| && parsed[k0].Some? && parsed[k1].Some? {
      var k0, k1 :| 0 <= k0 < k1 < |parsed| && parsed[k0].Some? && parsed[k1].Some?;
      TwoValuesPresent(parsed, k0, k1);
    }
  }

  lemma TwoValuesPresent(parsed: seq<Option<real>>, k0: nat, k1: nat)
    requires k0 < k1 < |parsed| && parsed[k0].Some? && parsed[k1].Some?
    ensures |Present(parsed)| >= 2
  {
    var r := Present(parsed);
    assert k0 in r && k1 in r;
    var m0 :| 0 <= m0 < |r| && r[m0] == k0;
    var m1 :| 0 <= m1 < |r| && r[m1] == k1;
    assert m0 != m1;
  }

  /** Before the second present position, only the first one holds a value. */
  lemma FirstTwoPresent(parsed: seq<Option<real>>)
    requires |Present(parsed)| >= 2
    ensures var r := Present(parsed);
      forall k :: 0 <= k < r[1] && k != r[0] ==> parsed[k].None?
  {
    var r := Present(parsed);
    forall k | 0 <= k < r[1] && k != r[0] ensures parsed[k].None? {
      forall m | 0 <= m < |r| ensures r[m] != k {
        if m > 1 {
          assert r[1] < r[m];
        }
      }
    }
  }

  /**
   * The calculation a step performs: none with fewer than two numbers or no
   * operation word; otherwise the detected operation that comes first in
   * the order addition, subtraction, multiplication, division, percentage,
   * applied to the first two numbers.
   */
  function ChooseOperation(hot: seq<string>): (c: Option<Calculation>)
    ensures c.Some? <==> |Numbers(hot)| >= 2 && AnyDetected(hot)
    ensures c.Some? ==> c.value.left == Numbers(hot)[0] && c.value.right == Numbers(hot)[1]
  {
    var numbers := Numbers(hot);
    if |numbers| < 2 then None
    else if Detected(Addition, hot) then Some(Calculation(Addition, numbers[0], numbers[1]))
    else if Detected(Subtraction, hot) then Some(Calculation(Subtraction, numbers[0], numbers[1]))
    else if Detected(Multiplication, hot) then Some(Calculation(Multiplication, numbers[0], numbers[1]))
    else if Detected(Division, hot) then Some(Calculation(Division, numbers[0], numbers[1]))
    else if Detected(Percentage, hot) then Some(Calculation(Percentage, numbers[0], numbers[1]))
    else None
  }

  /**
   * The operation chosen is a detected one, and no operation of higher
   * priority was detected.
   */
  lemma OperationChoice(hot: seq<string>)
    ensures var c := ChooseOperation(hot);
      c.Some? ==> Detected(c.value.op, hot) && !HigherPriorityDetected(c.value.op, hot)
  {
  }

  /**
   * The value of a calculation. Only a division by zero has no finite
   * value; each finite result undoes back to its left operand.
   */
  function Evaluate(c: Calculation): (r: Number)
    ensures r == NonFinite <==> c.op == Division && c.right == 0.0
    ensures c.op == Addition ==> r.Finite? && r.value - c.right == c.left
    ensures c.op == Subtraction ==> r.Finite? && r.value + c.right == c.left
    ensures c.op == Division && r.Finite? ==> r.value * c.right == c.left
    ensures c.op == Multiplication ==>
      && r.Finite?
      && (c.right != 0.0 ==> r.value / c.right == c.left)
      && (c.right == 0.0 ==> r.value == 0.0)
    ensures c.op == Percentage ==> r.Finite? && r.value * 100.0 == c.left * c.right
  {
    match c.op
    case Addition => Finite(c.left + c.right)
    case Subtraction => Finite(c.left - c.right)
    case Multiplication => Finite(c.left * c.right)
    case Division => if c.right == 0.0 then NonFinite else Finite(c.left / c.right)
    case Percentage => Finite(c.left * c.right / 100.0)
  }

  /**
   * The description of an intermediate step that performed `op`; it names
   * the operation and never reads like the first or the final step.
   */
  function OperationDescription(op: Operation): (d: string)
    ensures |d| > 0
  {
    match op
    case Addition => "Addition step"
    case Subtraction => "Subtraction step"
    case Multiplication => "Multiplication step"
    case Division => "Division step"
    case Percentage => "Percentage calculation"
  }

  /**
   * Different operations give different descriptions, and none of them is
   * the description of the first or of the final step.
   */
  lemma OperationDescriptionsDiffer(a: Operation, b: Operation)
    ensures a != b ==> OperationDescription(a) != OperationDescription(b)
    ensures OperationDescription(a) != InitialDescription && OperationDescription(a) != FinalDescription
  {
  }

  // ---------------------------------------------------------------------
  // Temperature update
  // ---------------------------------------------------------------------

  /**
   * Whether `token` is a word of a detected addition, subtraction,
   * multiplication or division. Percentage words are never boosted, and
   * the word itself need not be hot: another word of its operation may be.
   */
  predicate IsBoosted(token: string, hot: seq<string>): (b: bool)
    ensures b ==> IsArithmeticWord(token)
    ensures b <==> exists op :: op != Percentage && Detected(op, hot) && IsKeyword(op, token)
    ensures token in hot && IsArithmeticWord(token) ==> b
  {
    || (Detected(Addition, hot) && IsKeyword(Addition, token))
    || (Detected(Subtraction, hot) && IsKeyword(Subtraction, token))
    || (Detected(Multiplication, hot) && IsKeyword(Multiplication, token))
    || (Detected(Division, hot) && IsKeyword(Division, token))
  }

  /**
   * One slot's new temperature: boosted by 0.2 (capped at 0.95) if the
   * token is a word of a detected addition, subtraction, multiplication or
   * division, and then, from that value, decayed
   * by 0.1 (floored at 0.05) if the token string was hot. The result never
   * leaves the range spanned by the old value and the two limits.
   */
  function UpdatedTemperature(t: real, token: string, hot: seq<string>): (r: real)
    ensures !IsBoosted(token, hot) && token !in hot ==> r == t
    ensures token in hot ==> r >= 0.05
    ensures Min(t, 0.05) <= r <= Max(t, 0.95)
  {
    var boosted := if IsBoosted(token, hot) then Min(t + 0.2, 0.95) else t;
    if token in hot then Max(boosted - 0.1, 0.05) else boosted
  }

  function UpdatedTemperatures(prev: ReasoningStep): (r: seq<real>)
    requires |prev.temperatures| == |prev.tokens|
    ensures |r| == |prev.tokens|
  {
    seq(|prev.tokens|, i requires 0 <= i < |prev.tokens| =>
      UpdatedTemperature(prev.temperatures[i], prev.tokens[i], prev.hotTokens))
  }

  /**
   * The net effect of the two sequential writes to a slot holding a
   * regulated temperature: a token both boosted and decayed ends up 0.1
   * higher, capped at 0.85; a boost alone can lower a value above 0.95.
   * Every outcome stays within the regulated range.
   */
  lemma SlotUpdateNetEffect(t: real, token: string, hot: seq<string>)
    requires Epsilon <= t <= 1.0 - Epsilon
    ensures var r := UpdatedTemperature(t, token, hot);
      && Epsilon <= r <= 1.0 - Epsilon
      && (!IsBoosted(token, hot) && token !in hot ==> r == t)
      && (IsBoosted(token, hot) && token !in hot ==> r == Min(t + 0.2, 0.95))
      && (!IsBoosted(token, hot) && token in hot ==> r == Max(t - 0.1, 0.05))
      && (IsBoosted(token, hot) && token in hot ==> r == Min(t + 0.1, 0.85))
  {
  }

  /** No operation word belongs to two operations, so a percentage word is never boosted. */
  lemma PercentWordsNeverBoosted(token: string, hot: seq<string>)
    requires IsKeyword(Percentage, token)
    ensures !IsBoosted(token, hot)
    ensures forall t :: Epsilon <= t <= 1.0 - Epsilon && token !in hot ==> UpdatedTemperature(t, token, hot) == t
  {
  }

  // ---------------------------------------------------------------------
  // One step
  // ---------------------------------------------------------------------

  /**
   * Whether the step with this index is the last one: from index 3 on, or
   * when a result was produced although no addition, subtraction,
   * multiplication or division word was hot.
   */
  predicate IsTerminal(stepIndex: nat, result: Option<Number>, hot: seq<string>): (b: bool)
    ensures stepIndex >= 3 ==> b
    ensures b && stepIndex < 3 ==> result.Some? && !exists k :: 0 <= k < |hot| && IsArithmeticWord(hot[k])
  {
    || stepIndex >= 3
    || (&& result.Some?
        && !Detected(Addition, hot) && !Detected(Subtraction, hot)
        && !Detected(Multiplication, hot) && !Detected(Division, hot))
  }

  /** Every temperature lies in [Epsilon, 1 - Epsilon]. */
  ghost predicate Regulated(temps: seq<real>)
  {
    forall i :: 0 <= i < |temps| ==> Epsilon <= temps[i] <= 1.0 - Epsilon
  }

  /** A step whose tokens are `tokens` and whose temperatures are aligned with them and regulated. */
  ghost predicate Aligned(step: ReasoningStep, tokens: seq<string>)
  {
    && step.tokens == tokens
    && |step.temperatures| == |tokens|
    && Regulated(step.temperatures)
  }

  /** The first step of every trace. */
  function InitialStep(tokens: seq<string>, temps: seq<real>, threshold: real): (step: ReasoningStep)
    requires |temps| == |tokens|
    ensures step.description == "Initial problem analysis"
    ensures step.calculation == None && step.result == None && step.isComplete == None
    ensures forall t :: t in step.hotTokens <==> exists i :: 0 <= i < |tokens| && temps[i] > threshold && tokens[i] == t
  {
    HotTokensExactly(tokens, temps, threshold);
    ReasoningStep(tokens, temps, HotTokens(tokens, temps, threshold), InitialDescription, None, None, None)
  }

  /**
   * The step computed from the previous one, as it is returned, before any
   * adaptation of its temperatures.
   */
  function NextStep(prev: ReasoningStep, stepIndex: nat, threshold: real): (next: ReasoningStep)
    requires |prev.temperatures| == |prev.tokens|
    ensures Aligned(next, prev.tokens)
    ensures next.isComplete.Some?
    ensures next.result.Some? <==> next.calculation.Some?
    ensures stepIndex >= 3 ==> next.isComplete == Some(true)
    ensures next.isComplete == Some(true) ==> next.description == "Final result calculation"
  {
    var hot := prev.hotTokens;
    var calculation := ChooseOperation(hot);
    var result := if calculation.Some? then Some(Evaluate(calculation.value)) else None;
    var complete := IsTerminal(stepIndex, result, hot);
    var description :=
      if complete then FinalDescription
      else if calculation.Some? then OperationDescription(calculation.value.op)
      else "";
    var temperatures := RegulateTemperatures(UpdatedTemperatures(prev));
    ReasoningStep(prev.tokens, temperatures, HotTokens(prev.tokens, temperatures, threshold),
                  description, calculation, result, Some(complete))
  }

  /**
   * Before the step budget forces it, a step completes exactly when it
   * performed a percentage calculation: the result-based rule fires only
   * when the chosen operation was the percentage.
   */
  lemma CompletionRule(prev: ReasoningStep, stepIndex: nat, threshold: real)
    requires |prev.temperatures| == |prev.tokens|
    ensures var next := NextStep(prev, stepIndex, threshold);
      next.isComplete == Some(true) <==>
        stepIndex >= 3 || (next.calculation.Some? && next.calculation.value.op == Percentage)
  {
    var hot := prev.hotTokens;
    var c := ChooseOperation(hot);
    OperationChoice(hot);
    if c.Some? && c.value.op != Percentage {
      assert Detected(c.value.op, hot);
    }
  }

  /** With fewer than two numeric hot tokens a step computes nothing. */
  lemma NoCalculationWithoutTwoNumbers(prev: ReasoningStep, stepIndex: nat, threshold: real)
    requires |prev.temperatures| == |prev.tokens|
    requires |Numbers(prev.hotTokens)| < 2
    ensures NextStep(prev, stepIndex, threshold).calculation == None
    ensures NextStep(prev, stepIndex, threshold).result == None
    ensures NextStep(prev, stepIndex, threshold).isComplete == Some(stepIndex >= 3)
  {
  }

  /** Hot tokens "30", "percent", "80" give the percentage 30 x 0.8 = 24. */
  lemma PercentExample()
    ensures ChooseOperation(["30", "percent", "80"]) == Some(Calculation(Percentage, 30.0, 80.0))
    ensures Evaluate(Calculation(Percentage, 30.0, 80.0)) == Finite(24.0)
  {
    ExampleNumbers();
    ExampleKeywords();
  }

  lemma ExampleNumbers()
    ensures Numbers(["30", "percent", "80"]) == [30.0, 80.0]
  {
    ExampleParsed();
    ExampleValues();
  }

  lemma ExampleParsed()
    ensures Parsed(["30", "percent", "80"]) == [Some(30.0), None, Some(80.0)]
  {
    ParsedThree("30", "percent", "80");
    ParseThirty();
    ParseCurrencyAndWords();
    ParseEighty();
  }

  /** Three hot tokens are read one by one. */
  lemma ParsedThree(a: string, b: string, c: string)
    ensures Parsed([a, b, c]) == [ParseNumber(a), ParseNumber(b), ParseNumber(c)]
  {
    var parsed := Parsed([a, b, c]);
    assert parsed[0] == ParseNumber(a) && parsed[1] == ParseNumber(b) && parsed[2] == ParseNumber(c);
  }

  lemma ExampleValues()
    ensures Values([Some(30.0), None, Some(80.0)]) == [30.0, 80.0]
  {
    var parsed := [Some(30.0), None, Some(80.0)];
    assert parsed[..2][..1][..0] == [];
    assert parsed[..2][..1] == [Some(30.0)];
    assert parsed[..2] == [Some(30.0), None];
  }

  lemma ExampleKeywords()
    ensures Detected(Percentage, ["30", "percent", "80"])
    ensures !Detected(Addition, ["30", "percent", "80"]) && !Detected(Subtraction, ["30", "percent", "80"])
    ensures !Detected(Multiplication, ["30", "percent", "80"]) && !Detected(Division, ["30", "percent", "80"])
  {
    var hot := ["30", "percent", "80"];
    assert IsKeyword(Percentage, hot[1]);
    forall k | 0 <= k < |hot| ensures hot[k] == "30" || hot[k] == "percent" || hot[k] == "80" {
    }
  }

  /**
   * Decay compares strings, not positions: a slot is decayed when its word
   * was hot anywhere, even if its own temperature was not above the
   * threshold.
   */
  lemma DecayMatchesByString(prev: ReasoningStep, threshold: real, i: nat, j: nat)
    requires |prev.temperatures| == |prev.tokens|
    requires prev.hotTokens == HotTokens(prev.tokens, prev.temperatures, threshold)
    requires i < |prev.tokens| && j < |prev.tokens|
    requires prev.tokens[i] == prev.tokens[j] && prev.temperatures[j] > threshold
    requires !IsBoosted(prev.tokens[i], prev.hotTokens)
    ensures UpdatedTemperatures(prev)[i] == Max(prev.temperatures[i] - 0.1, 0.05)
  {
    HotTokensExactly(prev.tokens, prev.temperatures, threshold);
    assert prev.tokens[i] in prev.hotTokens;
  }

  // ---------------------------------------------------------------------
  // Adaptation and the trace
  // ---------------------------------------------------------------------

  /**
   * When no calculation was made, every temperature is pulled 10% of the
   * way towards 0.5; otherwise the temperatures are kept.
   */
  function AdaptTemperatures(temps: seq<real>, calculation: Option<Calculation>): (r: seq<real>)
    ensures |r| == |temps|
    ensures calculation.Some? ==> r == temps
    ensures calculation.None? ==> forall i :: 0 <= i < |r| ==> r[i] - 0.5 == 0.9 * (temps[i] - 0.5)
  {
    if calculation.None? then seq(|temps|, i requires 0 <= i < |temps| => temps[i] * 0.9 + 0.05)
    else temps
  }

  /** Adapting regulated temperatures keeps them regulated; adapted values lie in [0.059, 0.941]. */
  lemma AdaptKeepsRegulatedRange(temps: seq<real>, calculation: Option<Calculation>)
    requires Regulated(temps)
    ensures var r := AdaptTemperatures(temps, calculation);
      && Regulated(r)
      && (calculation.None? ==> forall i :: 0 <= i < |r| ==> 0.059 <= r[i] <= 0.941)
  {
  }

  /**
   * What the trace holds for a step: the generator overwrites the
   * temperatures of a non-terminal step with their adaptation after
   * appending it, while its hot tokens stay those computed before.
   */
  function Recorded(step: ReasoningStep): (r: ReasoningStep)
    ensures r.tokens == step.tokens && r.hotTokens == step.hotTokens && r.description == step.description
    ensures r.calculation == step.calculation && r.result == step.result && r.isComplete == step.isComplete
    ensures |r.temperatures| == |step.temperatures|
    ensures Regulated(step.temperatures) ==> Regulated(r.temperatures)
  {
    if step.isComplete == Some(true) then step
    else
      var adapted := AdaptTemperatures(step.temperatures, step.calculation);
      assert Regulated(step.temperatures) ==> Regulated(adapted) by {
        if Regulated(step.temperatures) {
          AdaptKeepsRegulatedRange(step.temperatures, step.calculation);
        }
      }
      step.(temperatures := adapted)
  }

  function MaxInt(a: int, b: int): int { if a >= b then a else b }

  /**
   * A trace over `tokens`: every step aligned with the tokens and
   * regulated, and every step after the first the recorded form of the step
   * computed from its predecessor with its own index.
   */
  ghost predicate TraceFollows(steps: seq<ReasoningStep>, tokens: seq<string>, threshold: real)
  {
    AllAligned(steps, tokens) && Chained(steps, threshold)
  }

  ghost predicate AllAligned(steps: seq<ReasoningStep>, tokens: seq<string>)
  {
    forall k :: 0 <= k < |steps| ==> Aligned(steps[k], tokens)
  }

  ghost predicate Chained(steps: seq<ReasoningStep>, threshold: real)
  {
    forall k :: 1 <= k < |steps| ==> StepFollows(steps[k - 1], steps[k], k, threshold)
  }

  /** `step` is the recorded form of the step computed from `prev` with index `k`. */
  ghost predicate StepFollows(prev: ReasoningStep, step: ReasoningStep, k: nat, threshold: real)
  {
    |prev.temperatures| == |prev.tokens| && step == Recorded(NextStep(prev, k, threshold))
  }

  /** Appending the recorded successor of its last step extends a trace. */
  lemma TraceExtend(steps: seq<ReasoningStep>, tokens: seq<string>, threshold: real, next: ReasoningStep)
    requires |steps| >= 1 && TraceFollows(steps, tokens, threshold)
    requires next == Recorded(NextStep(steps[|steps| - 1], |steps|, threshold))
    ensures TraceFollows(steps + [next], tokens, threshold)
  {
    var last := steps[|steps| - 1];
    assert Aligned(last, tokens);
    AlignedExtend(steps, tokens, next);
    ChainExtend(steps, threshold, next);
  }

  lemma AlignedExtend(steps: seq<ReasoningStep>, tokens: seq<string>, next: ReasoningStep)
    requires AllAligned(steps, tokens) && Aligned(next, tokens)
    ensures AllAligned(steps + [next], tokens)
  {
    var longer := steps + [next];
    forall k | 0 <= k < |longer| ensures Aligned(longer[k], tokens) {
      if k < |steps| {
        assert longer[k] == steps[k];
      }
    }
  }

  lemma ChainExtend(steps: seq<ReasoningStep>, threshold: real, next: ReasoningStep)
    requires |steps| >= 1 && Chained(steps, threshold)
    requires StepFollows(steps[|steps| - 1], next, |steps|, threshold)
    ensures Chained(steps + [next], threshold)
  {
    var longer := steps + [next];
    forall k | 1 <= k < |longer| ensures StepFollows(longer[k - 1], longer[k], k, threshold) {
      if k < |steps| {
        assert longer[k - 1] == steps[k - 1] && longer[k] == steps[k];
      } else {
        assert longer[k - 1] == steps[|steps| - 1] && longer[k] == next;
      }
    }
  }

  class GuidedSequenceOfThought {
    const ttm: TokenTemperatureMechanism
    const temperatureThreshold: real

    constructor (ttm: TokenTemperatureMechanism, threshold: real := 0.5)
      ensures this.ttm == ttm && temperatureThreshold == threshold
    {
      this.ttm := ttm;
      temperatureThreshold := threshold;
    }

    /**
     * The trace for a problem: the initial step, then one step per index
     * until a step is terminal (it is appended, then the loop stops) or the
     * budget of `maxSteps` entries is used up. Every non-terminal step after
     * the first is recorded with adapted temperatures. A trace never holds
     * more than four entries, and only its last entry can be complete.
     */
    method GenerateReasoningPath(problem: string, maxSteps: int := 10) returns (steps: seq<ReasoningStep>)
      requires ttm.Valid()
      ensures |steps| >= 1
      ensures steps[0] == InitialStep(Tokenize(problem), RegulateTemperatures(ttm.Temperatures(Tokenize(problem))), temperatureThreshold)
      ensures TraceFollows(steps, Tokenize(problem), temperatureThreshold)
      ensures forall k :: 0 <= k < |steps| - 1 ==> steps[k].isComplete != Some(true)
      ensures steps[|steps| - 1].isComplete == Some(true) || |steps| == MaxInt(maxSteps, 1)
      ensures maxSteps <= 1 ==> |steps| == 1
      ensures |steps| <= 4 && |steps| <= MaxInt(maxSteps, 1)
    {
      var tokens := Tokenize(problem);
      var initialTemps := ttm.CalculateTemperatures(tokens);
      var regulatedTemps := RegulateTemperatures(initialTemps);
      var hotTokens := HotTokens(tokens, regulatedTemps, temperatureThreshold);
      var currentState := ReasoningStep(tokens, regulatedTemps, hotTokens, InitialDescription, None, None, None);
      assert Aligned(currentState, tokens);
      steps := ContinueTrace(currentState, maxSteps);
    }

    /**
     * The step loop of the generator, from the initial step: each step is
     * computed from the current state with its own index; a terminal step is
     * appended and ends the loop, any other is appended and then has its
     * temperatures adapted in the trace as well as in the current state.
     */
    method ContinueTrace(initial: ReasoningStep, maxSteps: int) returns (steps: seq<ReasoningStep>)
      requires Aligned(initial, initial.tokens) && initial.isComplete != Some(true)
      ensures |steps| >= 1 && steps[0] == initial
      ensures TraceFollows(steps, initial.tokens, temperatureThreshold)
      ensures forall k :: 0 <= k < |steps| - 1 ==> steps[k].isComplete != Some(true)
      ensures steps[|steps| - 1].isComplete == Some(true) || |steps| == MaxInt(maxSteps, 1)
      ensures maxSteps <= 1 ==> |steps| == 1
      ensures |steps| <= 4 && |steps| <= MaxInt(maxSteps, 1)
    {
      var tokens := initial.tokens;
      var currentState := initial;
      steps := [currentState];
      var i := 1;
      while i < maxSteps
        invariant 1 <= i <= MaxInt(maxSteps, 1) && i <= 3
        invariant |steps| == i && currentState == steps[i - 1]
        invariant steps[0] == initial
        invariant TraceFollows(steps, tokens, temperatureThreshold)
        invariant forall k :: 0 <= k < |steps| ==> steps[k].isComplete != Some(true)
      {
        var done;
        ghost var before := steps;
        steps, currentState, done := AdvanceTrace(steps, currentState, tokens);
        forall k | 0 <= k < |before| ensures steps[k].isComplete != Some(true) {
          assert steps[k] == steps[..|before|][k];
        }
        if done {
          break;
        }
        i := i + 1;
      }
    }

    /**
     * One pass of the generator's loop: the next step is computed from the
     * current state with index `|steps|` and appended; unless it is
     * terminal, its temperatures are then adapted, in the trace and in the
     * new current state alike.
     */
    method AdvanceTrace(steps: seq<ReasoningStep>, currentState: ReasoningStep, ghost tokens: seq<string>)
      returns (extended: seq<ReasoningStep>, nextState: ReasoningStep, done: bool)
      requires |steps| >= 1 && currentState == steps[|steps| - 1]
      requires TraceFollows(steps, tokens, temperatureThreshold)
      ensures |extended| == |steps| + 1 && extended[..|steps|] == steps
      ensures TraceFollows(extended, tokens, temperatureThreshold)
      ensures nextState == extended[|steps|]
      ensures done <==> nextState.isComplete == Some(true)
      ensures |steps| >= 3 ==> done
    {
      assert Aligned(currentState, tokens);
      nextState := SimulateNextReasoningStep(currentState, |steps|);
      done := nextState.isComplete == Some(true);
      if done {
        TraceExtend(steps, tokens, temperatureThreshold, nextState);
        extended := steps + [nextState];
        assert extended[..|steps|] == steps;
        return;
      }
      extended := steps + [nextState];
      // The record just appended is the same object as the current state,
      // so overwriting the current state's temperatures rewrites it too.
      nextState := nextState.(temperatures := AdaptTemperatures(nextState.temperatures, nextState.calculation));
      extended := extended[..|extended| - 1] + [nextState];
      assert extended == steps + [nextState];
      TraceExtend(steps, tokens, temperatureThreshold, nextState);
      assert extended[..|steps|] == steps;
    }

    /**
     * One reasoning step from the previous one: the calculation chosen from
     * its hot tokens, its temperatures boosted and decayed, regulated, and
     * the new hot tokens read from them.
     */
    method SimulateNextReasoningStep(prevState: ReasoningStep, stepIndex: nat) returns (next: ReasoningStep)
      requires |prevState.temperatures| == |prevState.tokens|
      ensures next == NextStep(prevState, stepIndex, temperatureThreshold)
    {
      var hot := prevState.hotTokens;
      var calculation := ChooseOperation(hot);
      var result := if calculation.Some? then Some(Evaluate(calculation.value)) else None;
      var description := if calculation.Some? then OperationDescription(calculation.value.op) else "";
      var newTemperatures := AdjustTemperatures(prevState);
      var isComplete := IsTerminal(stepIndex, result, hot);
      if isComplete {
        description := FinalDescription;
      }
      var regulatedTemps := RegulateTemperatures(newTemperatures);
      var hotTokens := HotTokens(prevState.tokens, regulatedTemps, temperatureThreshold);
      next := ReasoningStep(prevState.tokens, regulatedTemps, hotTokens, description, calculation, result, Some(isComplete));
    }

    /**
     * The boost-then-decay pass over a copy of the previous temperatures:
     * two sequential writes to the same slot, the decay reading the value
     * the boost wrote.
     */
    method AdjustTemperatures(prevState: ReasoningStep) returns (adjusted: seq<real>)
      requires |prevState.temperatures| == |prevState.tokens|
      ensures adjusted == UpdatedTemperatures(prevState)
    {
      var hot := prevState.hotTokens;
      var n := |prevState.temperatures|;
      ghost var updated := UpdatedTemperatures(prevState);
      var newTemperatures := new real[n](i requires 0 <= i < n => prevState.temperatures[i]);
      for i := 0 to |prevState.tokens|
        invariant newTemperatures[..i] == updated[..i]
        invariant newTemperatures[i..] == prevState.temperatures[i..]
      {
        var token := prevState.tokens[i];
        assert newTemperatures[i] == prevState.temperatures[i..][0];
        ghost var tail := newTemperatures[i + 1..];
        assert tail == prevState.temperatures[i + 1..];
        if IsBoosted(token, hot) {
          newTemperatures[i] := Min(newTemperatures[i] + 0.2, 0.95);
        }
        if token in hot {
          newTemperatures[i] := Max(newTemperatures[i] - 0.1, 0.05);
        }
        assert newTemperatures[i] == updated[i];
        assert newTemperatures[i + 1..] == tail;
        assert newTemperatures[..i + 1] == newTemperatures[..i] + [newTemperatures[i]];
        assert updated[..i + 1] == updated[..i] + [updated[i]];
      }
      assert newTemperatures[..] == newTemperatures[..n];
      adjusted := newTemperatures[..];
    }
  }
}
