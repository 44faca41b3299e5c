/** `preprocess_text` with the spaCy pipeline abstracted away: the pipeline's
    output is a sequence of token records whose attributes the model takes as
    given, and the function is an order-preserving filter-map over them. */
module Preprocess {

  /** One spaCy token, reduced to the attributes `preprocess_text` reads:
      `is_stop`, `is_alpha`, `like_num`, `pos_`, `lemma_` (here `lemmaForm`,
      since `lemma` is a Dafny keyword) and `text`. */
  datatype Token = Token(
    isStop: bool,
    isAlpha: bool,
    likeNum: bool,
    pos: string,
    lemmaForm: string,
    text: string)

  /** A token survives when it is not a stop word and is purely alphabetic. */
  predicate Keep(t: Token) {
    !t.isStop && t.isAlpha
  }

  /** The string a surviving token contributes: its surface text when it looks
      like a number or is a proper noun, its lemma otherwise. Neither is
      lower-cased. */
  function Term(t: Token): string {
    if !t.likeNum && t.pos != "PROPN" then t.lemmaForm else t.text
  }

  /** What a single token contributes to the output. */
  function Emit(t: Token): seq<string> {
    if Keep(t) then [Term(t)] else []
  }

  /** The reference definition: every token's contribution, in input order. */
  function Normalise(ts: seq<Token>): (r: seq<string>)
    ensures |r| <= |ts|
  {
    if ts == [] then [] else Emit(ts[0]) + Normalise(ts[1..])
  }

  /** Normalise distributes over concatenation of token sequences. */
  lemma {:induction false} NormaliseAppend(a: seq<Token>, b: seq<Token>)
    ensures Normalise(a + b) == Normalise(a) + Normalise(b)
    decreases |a|
  {
    if a == [] {
      assert a + b == b;
    } else {
      var ab := a + b;
      assert ab[0] == a[0];
      assert ab[1..] == a[1..] + b;
      NormaliseAppend(a[1..], b);
      var e, na, nb := Emit(a[0]), Normalise(a[1..]), Normalise(b);
      assert Normalise(ab) == e + (na + nb);
      assert Normalise(a) == e + na;
      assert e + (na + nb) == (e + na) + nb;
    }
  }

  /** A one-token input yields exactly that token's contribution. */
  lemma NormaliseSingleton(t: Token)
    ensures Normalise([t]) == Emit(t)
  {
    assert [t][1..] == [];
  }

  /** Appending one token appends exactly that token's contribution. */
  lemma NormaliseSnoc(s: seq<Token>, t: Token)
    ensures Normalise(s + [t]) == Normalise(s) + Emit(t)
  {
    NormaliseAppend(s, [t]);
    NormaliseSingleton(t);
  }

  /** `preprocess_text`: the loop over the tokens with its nested tests,
      appending to a list that starts empty. */
  method PreprocessText(doc: seq<Token>) returns (tokens: seq<string>)
    ensures tokens == Normalise(doc)
  {
    tokens := [];
    var i := 0;
    while i < |doc|
      invariant i <= |doc|
      invariant tokens == Normalise(doc[..i])
    {
      var token := doc[i];
      var emitted: seq<string> := [];
      if !token.isStop {
        var lemmatized := token.lemmaForm;
        if token.isAlpha {
          if !token.likeNum && !(token.pos == "PROPN") {
            emitted := [lemmatized];
          } else {
            emitted := [token.text];
          }
        }
      }
      assert emitted == Emit(token);
      tokens := tokens + emitted;
      assert doc[..i + 1] == doc[..i] + [token];
      NormaliseSnoc(doc[..i], token);
      i := i + 1;
    }
    assert doc[..i] == doc;
  }

  /** A dropped token (stop word or not alphabetic) leaves no trace: removing
      it from anywhere in the input does not change the output. */
  lemma DroppedTokenEmitsNothing(a: seq<Token>, t: Token, b: seq<Token>)
    requires !Keep(t)
    ensures Normalise(a + [t] + b) == Normalise(a + b)
  {
    NormaliseAppend(a + [t], b);
    NormaliseAppend(a, [t]);
    NormaliseAppend(a, b);
    NormaliseSingleton(t);
    assert Normalise(a + [t]) == Normalise(a);
  }

  /** A kept token contributes exactly its term, at the place it occupies
      between what the tokens before and after it contribute. */
  lemma KeptTokenEmitsItsTerm(a: seq<Token>, t: Token, b: seq<Token>)
    requires Keep(t)
    ensures Normalise(a + [t] + b) == Normalise(a) + [Term(t)] + Normalise(b)
  {
    NormaliseAppend(a + [t], b);
    NormaliseAppend(a, [t]);
    NormaliseSingleton(t);
  }

  /** The position at which token `i`'s term appears in the output: the
      number of strings emitted by the tokens before it. */
  function Slot(ts: seq<Token>, i: nat): nat
    requires i <= |ts|
  {
    |Normalise(ts[..i])|
  }

  /** Every kept token's term appears in the output at its slot. */
  lemma KeptTokenAtItsSlot(ts: seq<Token>, i: nat)
    requires i < |ts| && Keep(ts[i])
    ensures Slot(ts, i) < |Normalise(ts)|
    ensures Normalise(ts)[Slot(ts, i)] == Term(ts[i])
  {
    assert ts == ts[..i] + [ts[i]] + ts[i + 1..];
    KeptTokenEmitsItsTerm(ts[..i], ts[i], ts[i + 1..]);
  }

  /** Slots grow with the input position, strictly past a kept token, so
      kept tokens keep their relative order and two kept tokens never share
      an output position (duplicates are not merged). */
  lemma SlotsIncrease(ts: seq<Token>, i: nat, j: nat)
    requires i < j <= |ts|
    ensures Slot(ts, i) <= Slot(ts, j)
    ensures Keep(ts[i]) ==> Slot(ts, i) < Slot(ts, j)
  {
    assert ts[..j] == ts[..i] + [ts[i]] + ts[i + 1..j];
    NormaliseAppend(ts[..i] + [ts[i]], ts[i + 1..j]);
    NormaliseAppend(ts[..i], [ts[i]]);
    NormaliseSingleton(ts[i]);
  }

  /** Conversely, every output position holds the term of one kept token,
      the one whose slot it is. */
  lemma {:induction false} EveryOutputFromAKeptToken(ts: seq<Token>, k: nat)
    requires k < |Normalise(ts)|
    ensures exists i: nat :: i < |ts| && Keep(ts[i]) && Slot(ts, i) == k
                             && Normalise(ts)[k] == Term(ts[i])
    decreases |ts|
  {
    var n := |ts| - 1;
    var front := ts[..n];
    assert ts == front + [ts[n]];
    NormaliseSnoc(front, ts[n]);
    if k < |Normalise(front)| {
      EveryOutputFromAKeptToken(front, k);
      var i: nat :| i < n && Keep(front[i]) && Slot(front, i) == k
                   && Normalise(front)[k] == Term(front[i]);
      assert front[..i] == ts[..i];
      assert Slot(ts, i) == k;
    } else {
      assert Slot(ts, n) == k;
    }
  }

  /** A string occurs in the output exactly when some kept token has it as
      its term. */
  lemma OutputMembership(ts: seq<Token>, w: string)
    ensures w in Normalise(ts) <==> exists i: nat :: i < |ts| && Keep(ts[i]) && Term(ts[i]) == w
  {
    if w in Normalise(ts) {
      var k :| 0 <= k < |Normalise(ts)| && Normalise(ts)[k] == w;
      EveryOutputFromAKeptToken(ts, k);
    }
    if exists i: nat :: i < |ts| && Keep(ts[i]) && Term(ts[i]) == w {
      var i: nat :| i < |ts| && Keep(ts[i]) && Term(ts[i]) == w;
      KeptTokenAtItsSlot(ts, i);
    }
  }

  /** The positions of `ts` that hold a kept token. */
  function KeptPositions(ts: seq<Token>): set<nat> {
    set i: nat | i < |ts| && Keep(ts[i])
  }

  /** Appending a token adds its position to the kept positions exactly
      when it is kept. */
  lemma KeptPositionsSnoc(s: seq<Token>, t: Token)
    ensures KeptPositions(s + [t]) == KeptPositions(s) + (if Keep(t) then {|s|} else {})
  {
    var l := s + [t];
    var rhs := KeptPositions(s) + (if Keep(t) then {|s|} else {});
    forall i: nat | i in KeptPositions(l)
      ensures i in rhs
    {
      if i < |s| {
        assert l[i] == s[i];
      }
    }
    forall i: nat | i in rhs
      ensures i in KeptPositions(l)
    {
      if i < |s| {
        assert l[i] == s[i];
      }
    }
  }

  /** The output has one entry per kept token: its length is the number of
      positions holding a kept token. */
  lemma {:induction false} OutputLengthCountsKeptTokens(ts: seq<Token>)
    ensures |Normalise(ts)| == |KeptPositions(ts)|
    decreases |ts|
  {
    if ts != [] {
      var n := |ts| - 1;
      var front := ts[..n];
      assert ts == front + [ts[n]];
      NormaliseSnoc(front, ts[n]);
      OutputLengthCountsKeptTokens(front);
      KeptPositionsSnoc(front, ts[n]);
      assert n !in KeptPositions(front);
    }
  }

  /** A sentence with a stop word, a proper noun, a digit string, a spelled-out
      number and a noun that occurs twice: the stop word and the digit string
      (not alphabetic) are dropped, the proper noun and the number keep their
      surface text, nothing is lower-cased, and both occurrences of the noun
      survive. */
  lemma WorkedExample()
    ensures Normalise([
      Token(false, true, false, "NOUN", "cat", "Cats"),
      Token(true, true, false, "DET", "the", "the"),
      Token(false, true, false, "PROPN", "paris", "Paris"),
      Token(false, false, true, "NUM", "1978", "1978"),
      Token(false, true, true, "NUM", "three", "Three"),
      Token(false, true, false, "NOUN", "cat", "cat")
    ]) == ["cat", "Paris", "Three", "cat"]
  {
  }
}
