/** The local half of the secret-word source: parsing the generator's
    comma-separated reply into candidate words and choosing one of them,
    with the two fixed fall-back words of `gemini_api_call`. The generator
    itself and the random choice are outside the model: the reply arrives as
    a `Reply` value and the choice as an index. */
module Words {
  import opened Text

  /** What the generator call produced: its reply text, or a failure (any
      exception raised inside the call's `try` block, including one raised
      by the debug output after a word was chosen). */
  datatype Reply = Answer(text: string) | Failed

  /** Returned when the call fails. */
  const FallbackWord: string := "Apple"

  /** Returned when the reply holds no usable word. */
  const NoWordsMessage: string := "Error: No words found"

  /** The list comprehension `[w.strip() for w in pieces if w.strip()]`:
      each non-blank piece, stripped, in order. What survives is non-empty
      and already stripped. */
  function CleanPieces(pieces: seq<string>): (options: seq<string>)
    ensures |options| <= |pieces|
    ensures forall o :: o in options ==> o != "" && Strip(o) == o
  {
    if pieces == [] then []
    else
      var w := Strip(pieces[0]);
      StripIdempotent(pieces[0]);
      if w != "" then [w] + CleanPieces(pieces[1..]) else CleanPieces(pieces[1..])
  }

  /** No non-blank piece is lost. */
  lemma {:induction false} CleanPiecesComplete(pieces: seq<string>, p: string)
    requires p in pieces && Strip(p) != ""
    ensures Strip(p) in CleanPieces(pieces)
  {
    if p != pieces[0] {
      CleanPiecesComplete(pieces[1..], p);
    }
  }

  /** Every option comes from some piece, so it holds only characters that
      piece holds. */
  lemma {:induction false} CleanPiecesSound(pieces: seq<string>, o: string)
    requires o in CleanPieces(pieces)
    ensures exists p :: p in pieces && Strip(p) == o && forall c :: c in o ==> c in p
  {
    StripKeepsOnlyCharactersOf(pieces[0]);
    if o != Strip(pieces[0]) {
      CleanPiecesSound(pieces[1..], o);
      var p :| p in pieces[1..] && Strip(p) == o && forall c :: c in o ==> c in p;
      assert p in pieces;
    }
  }

  /** The candidate words of a reply: split at the commas, each piece
      stripped, blank pieces dropped. Every candidate is non-empty, has no
      white space at either end and holds no comma; there are none exactly
      when every piece is blank. */
  function Options(text: string): (options: seq<string>)
    ensures forall o :: o in options ==> o != "" && Strip(o) == o && ',' !in o
    ensures options == [] <==> forall p :: p in Split(Strip(text)) ==> Strip(p) == ""
  {
    var pieces := Split(Strip(text));
    var options := CleanPieces(pieces);
    OptionsHaveNoComma(pieces);
    OptionsEmptyIffBlank(pieces);
    options
  }

  lemma OptionsHaveNoComma(pieces: seq<string>)
    requires forall p :: p in pieces ==> ',' !in p
    ensures forall o :: o in CleanPieces(pieces) ==> ',' !in o
  {
    forall o | o in CleanPieces(pieces) ensures ',' !in o {
      CleanPiecesSound(pieces, o);
    }
  }

  lemma OptionsEmptyIffBlank(pieces: seq<string>)
    ensures CleanPieces(pieces) == [] <==> forall p :: p in pieces ==> Strip(p) == ""
  {
    if CleanPieces(pieces) != [] {
      CleanPiecesSound(pieces, CleanPieces(pieces)[0]);
    }
    forall p | p in pieces && Strip(p) != "" ensures CleanPieces(pieces) != [] {
      CleanPiecesComplete(pieces, p);
    }
  }

  /** The word index the random choice may return for this reply. */
  predicate ChoiceInRange(reply: Reply, choice: nat)
  {
    reply.Answer? && Options(reply.text) != [] ==> choice < |Options(reply.text)|
  }

  /** The word `gemini_api_call` returns: the chosen candidate of the reply,
      the no-words message when the reply has no candidate, and the fixed
      fall-back word when the call failed. Never empty. */
  function PickWord(reply: Reply, choice: nat): (word: string)
    requires ChoiceInRange(reply, choice)
    ensures word != ""
    ensures reply.Failed? ==> word == FallbackWord
    ensures reply.Answer? && Options(reply.text) == [] ==> word == NoWordsMessage
    ensures reply.Answer? && Options(reply.text) != [] ==> word in Options(reply.text)
  {
    match reply
    case Failed => FallbackWord
    case Answer(text) =>
      var options := Options(text);
      if options == [] then NoWordsMessage else options[choice]
  }

  /** Every candidate can be drawn: for each word of a reply's candidate
      list some choice picks it. */
  lemma EveryOptionCanBePicked(text: string, word: string)
    requires word in Options(text)
    ensures exists choice: nat :: ChoiceInRange(Answer(text), choice) && PickWord(Answer(text), choice) == word
  {
    var options := Options(text);
    var k :| 0 <= k < |options| && options[k] == word;
    assert ChoiceInRange(Answer(text), k) && PickWord(Answer(text), k) == word;
  }

  /** A reply that is one bare word (non-empty, no surrounding white space,
      no comma) has exactly that word as its only candidate. */
  lemma SingleWordReply(word: string)
    requires word != "" && IsStripped(word) && ',' !in word
    ensures Options(word) == [word]
  {
    assert word[0..|word|] == word;
    StripCharacterized(word, 0, |word|);
    SplitJoinCommas([word]);
    assert Split(word) == [word];
  }
}
