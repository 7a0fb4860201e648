/** The single shared game session: a roster of joined players, a phase
    (lobby or playing), and for the round in play a category, a secret word
    and one imposter drawn from the roster. The four request handlers
    (join, status, start, reset) become the methods and the one function of
    `GameState`; each runs as one atomic step. */
module Game {
  import opened Text
  import opened Words

  datatype Option<T> = None | Some(value: T)

  datatype Result<T, E> = Success(value: T) | Failure(error: E)

  /** The session's `status`: "lobby" or "playing". */
  datatype Phase = Lobby | Playing

  /** The role a status request is answered with. */
  datatype Role = Spectator | Civilian | Imposter

  datatype JoinError = NameRequired | NameTaken
  {
    /** The error text sent back with the 400 response. */
    function Message(): string
    {
      match this
      case NameRequired => "Name required"
      case NameTaken => "Name taken"
    }
  }

  datatype StartError = NotEnoughPlayers
  {
    function Message(): string
    {
      "Need at least 2 players"
    }
  }

  /** Fewest players a round can start with. */
  const MinPlayers: nat := 2

  /** What the imposter is shown in place of the secret word. */
  const Mask: string := "???"

  /** The status response: the public session fields, the requester's role,
      and the word shown to the requester, if any. */
  datatype StatusView = StatusView(
    status: Phase,
    players: seq<string>,
    playerCount: nat,
    category: string,
    role: Role,
    secretWord: Option<string>)

  predicate NoDuplicates(s: seq<string>)
  {
    forall i, j :: 0 <= i < j < |s| ==> s[i] != s[j]
  }

  /** How many entries of `s` equal `x`. */
  function Occurrences(s: seq<string>, x: string): nat
  {
    if s == [] then 0 else (if s[0] == x then 1 else 0) + Occurrences(s[1..], x)
  }

  lemma {:induction false} AbsentOccursNever(s: seq<string>, x: string)
    requires x !in s
    ensures Occurrences(s, x) == 0
  {
    if s != [] {
      assert forall y :: y in s[1..] ==> y in s;
      AbsentOccursNever(s[1..], x);
    }
  }

  /** In a roster without duplicates a member occurs exactly once. */
  lemma {:induction false} DistinctOccursOnce(s: seq<string>, x: string)
    requires NoDuplicates(s) && x in s
    ensures Occurrences(s, x) == 1
  {
    assert NoDuplicates(s[1..]) by {
      forall i, j | 0 <= i < j < |s| - 1 ensures s[1..][i] != s[1..][j] {
        assert s[1..][i] == s[i + 1] && s[1..][j] == s[j + 1];
      }
    }
    if s[0] == x {
      assert x !in s[1..] by {
        forall k | 0 <= k < |s| - 1 ensures s[1..][k] != x {
          assert s[1..][k] == s[k + 1];
        }
      }
      AbsentOccursNever(s[1..], x);
    } else {
      DistinctOccursOnce(s[1..], x);
    }
  }

  /** A name as the join handler stores it: non-empty, no white space at
      either end, no lower-case letter. */
  predicate IsStoredName(p: string)
  {
    p != "" && IsStripped(p) && !HasLower(p)
  }

  /** Stored names are exactly the non-empty fixed points of the
      normalisation. */
  lemma StoredNameIsNormal(p: string)
    ensures IsStoredName(p) <==> p != "" && Normalize(p) == p
  {
    if IsStoredName(p) {
      assert p[0..|p|] == p;
      StripCharacterized(p, 0, |p|);
      assert Upper(p) == p;
    }
  }

  /** A roster as the join handler builds it: distinct stored names. */
  predicate IsRoster(players: seq<string>)
  {
    NoDuplicates(players) && forall p :: p in players ==> IsStoredName(p)
  }

  /** A present and non-empty requester name (Python truthiness of the
      `X-Player-Name` header). */
  predicate Named(requester: Option<string>)
  {
    requester.Some? && requester.value != ""
  }

  class GameState {
    var status: Phase
    var players: seq<string>
    var imposter: string
    var category: string
    var word: string

    /** The session invariant: distinct stored names; while playing the
        imposter is on the roster and a word is set; in the lobby the round
        fields are blank. */
    ghost predicate Valid()
      reads this
    {
      IsRoster(players) &&
      (status == Playing ==> imposter in players && word != "") &&
      (status == Lobby ==> imposter == "" && category == "" && word == "")
    }

    /** The session as the process starts: lobby, nobody joined. */
    constructor ()
      ensures Valid()
      ensures status == Lobby && players == [] && imposter == "" && category == "" && word == ""
    {
      status := Lobby;
      players := [];
      imposter := "";
      category := "";
      word := "";
    }

    /** Join: normalise the name; refuse it when blank or already on the
        roster; otherwise append it and return it. Only the roster changes,
        and the invariant (no duplicates in particular) is kept. */
    method Join(name: string) returns (r: Result<string, JoinError>)
      requires Valid()
      modifies this
      ensures Valid()
      ensures Normalize(name) == "" ==> r == Failure(NameRequired)
      ensures Normalize(name) != "" && Normalize(name) in old(players) ==> r == Failure(NameTaken)
      ensures Normalize(name) != "" && Normalize(name) !in old(players) ==>
        r == Success(Normalize(name)) && players == old(players) + [Normalize(name)]
      ensures r.Failure? ==> players == old(players)
      ensures status == old(status) && imposter == old(imposter)
      ensures category == old(category) && word == old(word)
    {
      var normalized := Normalize(name);
      if normalized == "" {
        return Failure(NameRequired);
      }
      if normalized in players {
        return Failure(NameTaken);
      }
      players := players + [normalized];
      r := Success(normalized);
    }

    /** Status: a read-only snapshot. The roster, its size and the category
        are always reported. While playing, a named requester equal to the
        imposter gets the imposter role and the mask, never the word itself
        (unless the word is literally the mask); any other roster member gets
        the civilian role and the exact word; everyone else, and everyone in
        the lobby, is a spectator and sees no word. The requester name is
        compared exactly as given. */
    function Status(requester: Option<string>): (v: StatusView)
      reads this
      ensures v.status == status && v.players == players && v.playerCount == |players|
      ensures v.category == category
      ensures v.role == Imposter <==> status == Playing && Named(requester) && requester.value == imposter
      ensures v.role == Civilian <==>
        status == Playing && Named(requester) && requester.value != imposter && requester.value in players
      ensures v.role == Imposter ==> v.secretWord == Some(Mask)
      ensures v.role == Imposter && word != Mask ==> v.secretWord != Some(word)
      ensures v.role == Civilian ==> v.secretWord == Some(word)
      ensures v.role == Spectator ==> v.secretWord == None
    {
      var role :=
        if status == Playing && Named(requester) then
          if requester.value == imposter then Imposter
          else if requester.value in players then Civilian
          else Spectator
        else Spectator;
      var secretWord :=
        match role
        case Imposter => Some(Mask)
        case Civilian => Some(word)
        case Spectator => None;
      StatusView(status, players, |players|, category, role, secretWord)
    }

    /** Start: with fewer than two players, refuse and change nothing.
        Otherwise resolve the word from the generator's reply, take the
        roster entry at `imposterChoice` as imposter, and enter the playing
        phase with the given category; the roster is untouched and the word
        is returned to the host. `wordChoice` and `imposterChoice` stand for
        the two random choices. */
    method Start(category: string, reply: Reply, wordChoice: nat, imposterChoice: nat)
      returns (r: Result<string, StartError>)
      requires Valid()
      requires |players| >= MinPlayers ==> ChoiceInRange(reply, wordChoice) && imposterChoice < |players|
      modifies this
      ensures Valid()
      ensures players == old(players)
      ensures |players| < MinPlayers ==> r == Failure(NotEnoughPlayers)
      ensures |players| < MinPlayers ==>
        status == old(status) && imposter == old(imposter) &&
        this.category == old(this.category) && word == old(word)
      ensures |players| >= MinPlayers ==>
        r == Success(PickWord(reply, wordChoice)) && status == Playing &&
        this.category == category && word == r.value && imposter == players[imposterChoice]
    {
      if |players| < MinPlayers {
        return Failure(NotEnoughPlayers);
      }
      var chosen := PickWord(reply, wordChoice);
      var picked := players[imposterChoice];
      assert chosen != "" && picked in players;
      status, this.category, word, imposter := Playing, category, chosen, picked;
      r := Success(chosen);
    }

    /** Reset: from any state, back to the lobby with an empty roster and
        blank round fields. The new state does not depend on the old one, so
        a second reset changes nothing. */
    method Reset()
      modifies this
      ensures Valid()
      ensures status == Lobby && players == []
      ensures imposter == "" && category == "" && word == ""
    {
      status := Lobby;
      players := [];
      imposter := "";
      category := "";
      word := "";
    }

    /** While playing, exactly one roster entry is the imposter: that member
        alone is answered with the imposter role, and every other member is
        shown the real word. */
    lemma ImposterIsUnique()
      requires Valid() && status == Playing
      ensures Occurrences(players, imposter) == 1
      ensures forall p :: p in players ==> (Status(Some(p)).role == Imposter <==> p == imposter)
      ensures forall p :: p in players && p != imposter ==>
        Status(Some(p)).role == Civilian && Status(Some(p)).secretWord == Some(word)
    {
      DistinctOccursOnce(players, imposter);
    }

    /** In the lobby every requester is a spectator, sees no word and an
        empty category. */
    lemma LobbyShowsNoRound(requester: Option<string>)
      requires Valid() && status == Lobby
      ensures Status(requester).role == Spectator
      ensures Status(requester).secretWord == None && Status(requester).category == ""
    {
    }

    /** The requester name is not normalised: a name with an ASCII
        lower-case letter never matches a stored (upper-cased) name, so it is always
        answered as a spectator with no word. */
    lemma LowercaseRequesterIsSpectator(requester: string)
      requires Valid() && HasLower(requester)
      ensures Status(Some(requester)).role == Spectator
      ensures Status(Some(requester)).secretWord == None
    {
      assert requester !in players;
    }
  }

  /** The two sample names of the walkthrough below, normalised. */
  lemma SampleNames()
    ensures Normalize("alice") == "ALICE" && Normalize("Bob") == "BOB"
  {
    StripCharacterized("alice", 0, 5);
    assert "alice"[0..5] == "alice";
    StripCharacterized("Bob", 0, 3);
    assert "Bob"[0..3] == "Bob";
  }

  /** Start when the generator answers with the single word `secret`: that
      word becomes the secret word. */
  method StartOnSingleWord(game: GameState, category: string, secret: string, imposterChoice: nat)
    returns (r: Result<string, StartError>)
    requires game.Valid() && |game.players| >= MinPlayers && imposterChoice < |game.players|
    requires secret != "" && IsStripped(secret) && ',' !in secret
    modifies game
    ensures game.Valid() && game.players == old(game.players)
    ensures r == Success(secret) && game.status == Playing && game.word == secret
    ensures game.category == category && game.imposter == game.players[imposterChoice]
  {
    SingleWordReply(secret);
    r := game.Start(category, Answer(secret), 0, imposterChoice);
  }

  /** The opening of the round below: two players join, the first joins
      again and is refused as taken, and a round starts on a generator reply
      that is the single word `secret`, with either player as imposter. */
  method OpenRound(first: string, second: string, secret: string, imposterChoice: nat)
    returns (game: GameState, again: Result<string, JoinError>)
    requires Normalize(first) != "" && Normalize(second) != "" && Normalize(first) != Normalize(second)
    requires secret != "" && IsStripped(secret) && ',' !in secret
    requires imposterChoice < 2
    ensures fresh(game) && game.Valid()
    ensures again == Failure(NameTaken)
    ensures game.players == [Normalize(first), Normalize(second)]
    ensures game.status == Playing && game.word == secret && game.imposter == game.players[imposterChoice]
  {
    var name1, name2 := Normalize(first), Normalize(second);
    game := new GameState();
    var joined1 := game.Join(first);
    assert game.players == [name1];
    var joined2 := game.Join(second);
    assert game.players == [name1, name2];
    again := game.Join(first);
    var started := StartOnSingleWord(game, "fruit", secret, imposterChoice);
  }

  /** One full round: the opening above, both players poll their status
      under the names the join returned, and a reset empties the session
      again. "alice", "Bob" and "Mango" are one instance (see `SampleNames`). */
  method RoundWalkthrough(first: string, second: string, secret: string, imposterChoice: nat)
    returns (again: Result<string, JoinError>, view1: StatusView, view2: StatusView, afterReset: StatusView)
    requires Normalize(first) != "" && Normalize(second) != "" && Normalize(first) != Normalize(second)
    requires secret != "" && IsStripped(secret) && ',' !in secret
    requires imposterChoice < 2
    ensures again == Failure(NameTaken)
    ensures view1.role == (if imposterChoice == 0 then Imposter else Civilian)
    ensures view2.role == (if imposterChoice == 1 then Imposter else Civilian)
    ensures view1.role == Imposter ==> view1.secretWord == Some(Mask) && view2.secretWord == Some(secret)
    ensures view2.role == Imposter ==> view2.secretWord == Some(Mask) && view1.secretWord == Some(secret)
    ensures afterReset.role == Spectator && afterReset.players == [] && afterReset.secretWord == None
  {
    var game;
    game, again := OpenRound(first, second, secret, imposterChoice);
    var name1, name2 := game.players[0], game.players[1];
    view1 := game.Status(Some(name1));
    view2 := game.Status(Some(name2));
    assert view1.role == Imposter <==> game.imposter == name1;
    assert view2.role == Imposter <==> game.imposter == name2;
    game.Reset();
    afterReset := game.Status(Some(name1));
  }
}
