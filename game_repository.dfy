/** The in-memory table of games: a list that every update replaces wholesale. */
module GameRepository {
  import opened Lists
  import opened Models

  /** The three games the table starts with. Each record reads the clock for its own
      `createdAt`, so each gets its own timestamp. */
  function SeedGames(t0: int, t1: int, t2: int): seq<Game>
  {
    [ Game("snake", "Snake Classic",
           "El clásico juego de la serpiente. Come manzanas y crece sin chocar contigo mismo.",
           Medium, true, t0),
      Game("memory", "Memoria", "Juego de memoria con cartas. Encuentra las parejas.",
           Easy, false, t1),
      Game("puzzle", "Puzzle Numérico",
           "Ordena los números del 1 al 15 en el menor tiempo posible.",
           Hard, false, t2) ]
  }

  /** The list after updateGame: every game with the id of `game` is replaced by it. */
  function ReplaceGame(games: seq<Game>, game: Game): seq<Game>
  {
    Map(games, (g: Game) => if g.id == game.id then game else g)
  }

  /** The list after deleteGame. */
  function WithoutGame(games: seq<Game>, gameId: string): seq<Game>
  {
    Filter(games, (g: Game) => g.id != gameId)
  }

  /** getGameById: the first game with that id. */
  function FindGame(games: seq<Game>, gameId: string): Option<Game>
  {
    Find(games, (g: Game) => g.id == gameId)
  }

  /** getActiveGames. */
  function ActiveGames(games: seq<Game>): seq<Game>
  {
    Filter(games, (g: Game) => g.isActive)
  }

  /** updateGame replaces exactly the games with the given id and keeps the length and
      every other game; ids stay where they were. */
  lemma ReplaceGameSpec(games: seq<Game>, game: Game)
    ensures |ReplaceGame(games, game)| == |games|
    ensures forall i :: 0 <= i < |games| ==>
      ReplaceGame(games, game)[i] == if games[i].id == game.id then game else games[i]
    ensures forall i :: 0 <= i < |games| ==> ReplaceGame(games, game)[i].id == games[i].id
  {
  }

  /** After updateGame, looking the id up yields the new game, if the id was present. */
  lemma FindAfterReplace(games: seq<Game>, game: Game)
    ensures FindGame(ReplaceGame(games, game), game.id) ==
      if FindGame(games, game.id).Some? then Some(game) else None
  {
    var p := (g: Game) => g.id == game.id;
    FindMap(games, (g: Game) => if g.id == game.id then game else g, p, p);
  }

  /** After deleteGame the id is gone; every other game stays, in order. */
  lemma WithoutGameSpec(games: seq<Game>, gameId: string)
    ensures FindGame(WithoutGame(games, gameId), gameId) == None
    ensures forall g :: g in WithoutGame(games, gameId) <==> g in games && g.id != gameId
    ensures IsSubsequence(WithoutGame(games, gameId), games)
  {
    var r := WithoutGame(games, gameId);
    assert forall i :: 0 <= i < |r| ==> r[i] in r;
  }

  /** addGame does not check ids: a game added under an id already present is never
      returned by getGameById, which keeps finding the earlier one. */
  lemma AddedDuplicateIsShadowed(games: seq<Game>, game: Game)
    requires FindGame(games, game.id).Some?
    ensures FindGame(games + [game], game.id) == FindGame(games, game.id)
  {
    FindAppend(games, game, (g: Game) => g.id == game.id);
  }

  /** A game added under a new id is found again. */
  lemma AddedNewIdIsFound(games: seq<Game>, game: Game)
    requires FindGame(games, game.id).None?
    ensures FindGame(games + [game], game.id) == Some(game)
  {
    FindAppend(games, game, (g: Game) => g.id == game.id);
  }

  /** The source's `SimpleGameRepository`. */
  class GameRepo {
    var games: seq<Game>

    constructor (t0: int, t1: int, t2: int)
      ensures games == SeedGames(t0, t1, t2)
    {
      games := SeedGames(t0, t1, t2);
    }

    /** addGame: append, with no check of the id. */
    method AddGame(game: Game)
      modifies this
      ensures games == old(games) + [game]
    {
      games := games + [game];
    }

    method UpdateGame(game: Game)
      modifies this
      ensures games == ReplaceGame(old(games), game)
      ensures |games| == |old(games)|
    {
      games := ReplaceGame(games, game);
    }

    method DeleteGame(gameId: string)
      modifies this
      ensures games == WithoutGame(old(games), gameId)
      ensures forall g :: g in games <==> g in old(games) && g.id != gameId
    {
      games := WithoutGame(games, gameId);
    }

    /** getGameById: the first game with that id, or null. */
    function GetGameById(gameId: string): (r: Option<Game>)
      reads this
      ensures r.None? <==> forall i :: 0 <= i < |games| ==> games[i].id != gameId
      ensures r.Some? ==> r.value in games && r.value.id == gameId
      ensures r.Some? ==> exists k :: 0 <= k < |games| && games[k] == r.value &&
                                      forall i :: 0 <= i < k ==> games[i].id != gameId
    {
      FindGame(games, gameId)
    }

    /** getActiveGames: exactly the active games, in stored order. */
    function GetActiveGames(): (r: seq<Game>)
      reads this
      ensures forall g :: g in r <==> g in games && g.isActive
      ensures IsSubsequence(r, games)
      ensures forall g :: multiset(r)[g] == if g.isActive then multiset(games)[g] else 0
    {
      FilterMultiset(games, (g: Game) => g.isActive);
      ActiveGames(games)
    }
  }
}
