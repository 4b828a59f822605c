/** Masking the tokens that would complete a forbidden word. */
module BadWords {
  import opened Options

  datatype Logit = NegInf | Fin(value: real)

  function Plus(a: Logit, b: Logit): Logit {
    if a.NegInf? || b.NegInf? then NegInf else Fin(a.value + b.value)
  }

  type Word = seq<int>

  ghost predicate EndsWith(tokens: seq<int>, word: Word) {
    |word| <= |tokens| && tokens[|tokens| - |word|..] == word
  }

  /** Appending `token` would complete one of the first `upTo` words. */
  ghost predicate Completes(words: seq<Word>, upTo: nat, past: seq<int>, token: int)
    requires upTo <= |words|
  {
    exists i :: 0 <= i < upTo && words[i] != [] && EndsWith(past + [token], words[i])
  }

  /** The same, looking only at words of more than one token, or only at single-token words. */
  ghost predicate CompletesLong(words: seq<Word>, upTo: nat, past: seq<int>, token: int)
    requires upTo <= |words|
  {
    exists i :: 0 <= i < upTo && |words[i]| > 1 && EndsWith(past + [token], words[i])
  }

  ghost predicate IsShort(words: seq<Word>, upTo: nat, token: int)
    requires upTo <= |words|
  {
    exists i :: 0 <= i < upTo && words[i] == [token]
  }

  lemma SomeWordEnds(words: seq<Word>, past: seq<int>, token: int)
    requires forall i :: 0 <= i < |words| ==> words[i] != []
    ensures Completes(words, |words|, past, token) <==> exists w :: w in words && EndsWith(past + [token], w)
  {
    hide EndsWith;
    assert forall i :: 0 <= i < |words| ==> words[i] in words;
  }

  lemma ShortOrLong(words: seq<Word>, past: seq<int>, token: int)
    ensures Completes(words, |words|, past, token)
            <==> IsShort(words, |words|, token) || CompletesLong(words, |words|, past, token)
  {
    forall i | 0 <= i < |words| && |words[i]| == 1
      ensures EndsWith(past + [token], words[i]) <==> words[i] == [token]
    {
      assert (past + [token])[|past|..] == [token];
    }
  }

  /** Matching the prefix against the end of the past is matching the word against the end of past and token. */
  lemma PrefixMatch(word: Word, past: seq<int>, token: int)
    requires 1 < |word| <= |past| + 1
    ensures EndsWith(past + [token], word)
            <==> word[|word| - 1] == token && past[|past| - (|word| - 1)..] == word[..|word| - 1]
  {
    var n := |word| - 1;
    assert (past + [token])[|past| + 1 - |word|..] == past[|past| - n..] + [token];
    assert word == word[..n] + [word[n]];
  }

  /** Every token id of every word is in the vocabulary. */
  predicate InVocabulary(words: seq<Word>, vocabulary: nat) {
    forall i, j :: 0 <= i < |words| && 0 <= j < |words[i]| ==> 0 <= words[i][j] < vocabulary
  }

  datatype Outcome = Processed(logits: seq<Logit>) | InvalidTokenIds | EmptyWord

  /** What the processor returns: the logits, with exactly the completing tokens masked. */
  ghost function Expected(words: seq<Word>, past: seq<int>, logits: seq<Logit>): Outcome {
    if !InVocabulary(words, |logits|) then InvalidTokenIds
    else if exists i :: 0 <= i < |words| && words[i] == [] then EmptyWord
    else Processed(seq(|logits|, t requires 0 <= t < |logits| =>
                     if Completes(words, |words|, past, t) then NegInf else logits[t]))
  }

  class NoBadWords {
    const badWords: seq<Word>
    var wordBias: Option<seq<Logit>>

    /** The cached bias, once there, masks the single-token words of a checked vocabulary. */
    ghost predicate Valid(vocabulary: nat)
      reads this
    {
      wordBias.Some? ==>
        && InVocabulary(badWords, vocabulary) && |wordBias.value| == vocabulary
        && (forall t :: 0 <= t < vocabulary ==>
              wordBias.value[t] == if IsShort(badWords, |badWords|, t) then NegInf else Fin(0.0))
    }

    constructor (badWords: seq<Word>)
      ensures this.badWords == badWords && wordBias.None?
    {
      this.badWords := badWords;
      wordBias := None;
    }

    method InitWordBias(vocabulary: nat) returns (ok: bool)
      requires wordBias.None?
      modifies this
      ensures ok <==> InVocabulary(badWords, vocabulary)
      ensures Valid(vocabulary) && (ok <==> wordBias.Some?)
    {
      if !InVocabulary(badWords, vocabulary) {
        return false;
      }
      var bias: seq<Logit> := seq(vocabulary, t => Fin(0.0));
      for i := 0 to |badWords|
        invariant |bias| == vocabulary
        invariant forall t :: 0 <= t < vocabulary ==> bias[t] == if IsShort(badWords, i, t) then NegInf else Fin(0.0)
      {
        var word := badWords[i];
        if |word| == 1 {
          assert 0 <= word[0] < vocabulary;
          assert word == [word[0]];
          bias := bias[word[0] := NegInf];
        }
      }
      wordBias := Some(bias);
      return true;
    }

    method Call(past: seq<int>, logits: seq<Logit>) returns (r: Outcome)
      requires Valid(|logits|)
      modifies this
      ensures Valid(|logits|)
      ensures r == Expected(badWords, past, logits)
      ensures r.Processed? ==> |r.logits| == |logits| && forall t :: 0 <= t < |logits| && logits[t].Fin? ==>
                (r.logits[t].NegInf? <==> exists w :: w in badWords && EndsWith(past + [t], w))
    {
      if wordBias.None? {
        var ok := InitWordBias(|logits|);
        if !ok {
          return InvalidTokenIds;
        }
      }
      var bias := LongWordBias(past, |logits|);
      if bias.None? {
        return EmptyWord;
      }
      var short, long := wordBias.value, bias.value;
      r := Processed(seq(|logits|, t requires 0 <= t < |logits| && |logits| == |short| == |long| =>
                       Plus(Plus(logits[t], short[t]), long[t])));
      forall t | 0 <= t < |logits|
        ensures r.logits[t] == Expected(badWords, past, logits).logits[t]
      {
        hide Completes, IsShort, CompletesLong;
        ShortOrLong(badWords, past, t);
      }
      forall t | 0 <= t < |logits|
        ensures Completes(badWords, |badWords|, past, t) <==> exists w :: w in badWords && EndsWith(past + [t], w)
      {
        SomeWordEnds(badWords, past, t);
      }
    }

    /** Masks the last token of every longer word whose prefix the past ends with; `None` on an empty word. */
    method LongWordBias(past: seq<int>, vocabulary: nat) returns (r: Option<seq<Logit>>)
      requires InVocabulary(badWords, vocabulary)
      ensures r.None? <==> exists i :: 0 <= i < |badWords| && badWords[i] == []
      ensures r.Some? ==> LongBias(r.value, badWords, |badWords|, past, vocabulary)
    {
      hide LongBias, CompletesLong;
      var bias: seq<Logit> := seq(vocabulary, t => Fin(0.0));
      NoLongBias(badWords, past, vocabulary);
      for i := 0 to |badWords|
        invariant forall j :: 0 <= j < i ==> badWords[j] != []
        invariant |bias| == vocabulary && LongBias(bias, badWords, i, past, vocabulary)
      {
        var word := badWords[i];
        if |word| == 0 {
          return None;
        }
        if |word| == 1 || |word| > |past| + 1 {
          LongBiasSkip(bias, badWords, i, past, vocabulary);
        } else {
          var n := |word| - 1;
          var last := word[n];
          assert 0 <= badWords[i][n] < vocabulary;
          var matches := past[|past| - n..] == word[..n];
          LongBiasStep(bias, badWords, i, past, vocabulary, last, matches);
          bias := bias[last := Plus(bias[last], if matches then NegInf else Fin(0.0))];
        }
      }
      r := Some(bias);
    }
  }

  /** The bias masks exactly the tokens that complete one of the first `upTo` longer words. */
  ghost predicate LongBias(bias: seq<Logit>, words: seq<Word>, upTo: nat, past: seq<int>, vocabulary: nat)
  {
    && |bias| == vocabulary && upTo <= |words|
    && (forall t :: 0 <= t < vocabulary ==> bias[t] == if CompletesLong(words, upTo, past, t) then NegInf else Fin(0.0))
  }

  lemma NoLongBias(words: seq<Word>, past: seq<int>, vocabulary: nat)
    ensures LongBias(seq(vocabulary, t => Fin(0.0)), words, 0, past, vocabulary)
  {
  }

  lemma CompletesNext(words: seq<Word>, i: nat, past: seq<int>, token: int)
    requires i < |words|
    ensures CompletesLong(words, i + 1, past, token)
            <==> CompletesLong(words, i, past, token) || (|words[i]| > 1 && EndsWith(past + [token], words[i]))
  {
    hide EndsWith;
  }

  lemma LongBiasSkip(bias: seq<Logit>, words: seq<Word>, i: nat, past: seq<int>, vocabulary: nat)
    requires LongBias(bias, words, i, past, vocabulary) && i < |words| && (|words[i]| <= 1 || |words[i]| > |past| + 1)
    ensures LongBias(bias, words, i + 1, past, vocabulary)
  {
    hide CompletesLong;
    forall t | 0 <= t < vocabulary
      ensures bias[t] == if CompletesLong(words, i + 1, past, t) then NegInf else Fin(0.0)
    {
      CompletesNext(words, i, past, t);
    }
  }

  lemma CompletesStep(words: seq<Word>, i: nat, past: seq<int>, token: int, last: int, matches: bool)
    requires i < |words| && 1 < |words[i]| <= |past| + 1
    requires last == words[i][|words[i]| - 1] && matches == (past[|past| - (|words[i]| - 1)..] == words[i][..|words[i]| - 1])
    ensures CompletesLong(words, i + 1, past, token) <==> CompletesLong(words, i, past, token) || (token == last && matches)
  {
    hide CompletesLong, EndsWith;
    CompletesNext(words, i, past, token);
    PrefixMatch(words[i], past, token);
  }

  lemma LongBiasStep(bias: seq<Logit>, words: seq<Word>, i: nat, past: seq<int>, vocabulary: nat, last: int, matches: bool)
    requires LongBias(bias, words, i, past, vocabulary) && i < |words| && 1 < |words[i]| <= |past| + 1
    requires last == words[i][|words[i]| - 1] && matches == (past[|past| - (|words[i]| - 1)..] == words[i][..|words[i]| - 1])
    requires 0 <= last < vocabulary
    ensures LongBias(bias[last := Plus(bias[last], if matches then NegInf else Fin(0.0))], words, i + 1, past, vocabulary)
  {
    hide CompletesLong;
    var next := i + 1;
    var after := bias[last := Plus(bias[last], if matches then NegInf else Fin(0.0))];
    forall t | 0 <= t < vocabulary
      ensures after[t] == if CompletesLong(words, next, past, t) then NegInf else Fin(0.0)
    {
      CompletesStep(words, i, past, t, last, matches);
    }
  }

  // ----- Whole generations

  /** Each token was chosen with a logit that the processor left finite. */
  ghost predicate Generated(words: seq<Word>, logits: seq<seq<Logit>>, tokens: seq<int>) {
    && |logits| == |tokens|
    && (forall k :: 0 <= k < |tokens| ==>
          var r := Expected(words, tokens[..k], logits[k]);
          r.Processed? && 0 <= tokens[k] < |r.logits| && r.logits[tokens[k]] != NegInf)
  }

  /** No forbidden word ever occurs in what is generated. */
  lemma NoBadWordIsGenerated(words: seq<Word>, logits: seq<seq<Logit>>, tokens: seq<int>, i: nat, word: nat)
    requires Generated(words, logits, tokens)
    requires word < |words| && words[word] != [] && i + |words[word]| <= |tokens|
    ensures tokens[i..i + |words[word]|] != words[word]
  {
    var w := words[word];
    var k := i + |w| - 1;
    var past := tokens[..k];
    assert Expected(words, past, logits[k]).Processed?;
    assert !EndsWith(past + [tokens[k]], w);
    assert past + [tokens[k]] == tokens[..k + 1];
    assert tokens[..k + 1][k + 1 - |w|..] == tokens[i..i + |w|];
  }
}
