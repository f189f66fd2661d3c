# Snake game core, modelled in Dafny

This project models the logic of the snake1 Android app:

- **The rules engine**, `SnakeGameState` (`SnakeEngine`). It is an immutable game record with pure transitions: `moveSnake`, `changeDirection`, `startGame`, `pauseGame`, `resetGame`, plus the food placement they use.
- **The view model**, `SnakeGameViewModel` (`SnakeViewModel.GameViewModel`). It holds one current-state slot that every command replaces wholesale. It also holds the tick interval and runs the game loop's iterations.
- **The three in-memory repositories** (`UserRepository`, `GameRepository`, `ScoreRepository`). Each is a class whose list field every operation replaces.
- **The register button's validation chain** in `RegisterScreen` (`Registration`).

Shared pieces:

- `Lists` holds the Kotlin collection operations the repositories use: `filter`, `map` and `find`, with the order and multiplicity facts proved about them.
- The stable `sortedByDescending { it.score }` is `ScoreRepository.SortDesc`, an insertion sort on score entries.
- `KotlinLang` holds the pieces of Kotlin semantics the core depends on. These are 32-bit `Int` addition, `isBlank`, `String.length` counted in UTF-16 units, and the decimal rendering of a timestamp.

The food draw is the engine's only source of randomness. `Moved(s, draw)` is the pure meaning of `moveSnake` when `generateNewFood` returns `draw`. The method `MoveSnake` follows the source step by step and picks the food with a nondeterministic choice of a free cell.

Every phase keeps the game invariant `Inv`:

- the body is non-empty, on the board, free of repeats and made of adjacent cells;
- the food is on the board and off the body;
- the score is ten times the growth.

Two behaviours of the engine and its driver are worth knowing:

- **`pauseGame` is not a PLAYING/PAUSED toggle.** It also sends IDLE and GAME_OVER to PLAYING (`SnakeEngine.PauseGameSpec`).
- **A pause during the tick delay ends the loop.** A later resume leaves a PLAYING game with no loop, so nothing moves until `startGame` is called again (`SnakeViewModel.PauseDuringDelayFreezes`).

## Model

| member | source | states |
|---|---|---|
| SnakeEngine.Opposite | app/src/main/java/com/example/snake1/game/SnakeGameState.kt:66-71 | the direction a turn may not take is never the current direction |
| SnakeEngine.Step | app/src/main/java/com/example/snake1/game/SnakeGameState.kt:30-35 | the new head is one cell from the old head; UP and DOWN keep the column; UP and LEFT lower a coordinate |
| SnakeEngine.StepUndo | app/src/main/java/com/example/snake1/game/SnakeGameState.kt:30-35 | a step followed by a step in the opposite direction returns to the start cell |
| SnakeEngine.DefaultStateInv | app/src/main/java/com/example/snake1/game/SnakeGameState.kt:17-25 | the default game satisfies the invariant |
| SnakeEngine.GenerateNewFood | app/src/main/java/com/example/snake1/game/SnakeGameState.kt:80-89 | the food it picks is on the board and not on the body it is given |
| SnakeEngine.MoveSnake | app/src/main/java/com/example/snake1/game/SnakeGameState.kt:26-62 | the result is the pure move under the food it picked; when the snake eats, that food is on the board and off the grown snake |
| SnakeEngine.MoveWhenNotPlaying | app/src/main/java/com/example/snake1/game/SnakeGameState.kt:27 | outside PLAYING a move changes nothing |
| SnakeEngine.MoveGameOver | app/src/main/java/com/example/snake1/game/SnakeGameState.kt:38-46 | the game ends exactly when the new head is off the board or on the body, and then only the phase changes; otherwise it stays PLAYING |
| SnakeEngine.MoveEatsFood | app/src/main/java/com/example/snake1/game/SnakeGameState.kt:48-56 | eating prepends the head, adds 10 points, places the drawn food off the new body, and changes nothing else |
| SnakeEngine.MoveWithoutFood | app/src/main/java/com/example/snake1/game/SnakeGameState.kt:57-61 | a move without food prepends the head, drops the tail, keeps the length and changes nothing else |
| SnakeEngine.MoveSlides | app/src/main/java/com/example/snake1/game/SnakeGameState.kt:48-61 | a move that keeps PLAYING puts the head next to the old head, and the rest of the body is a prefix of the old body, one segment longer at most |
| SnakeEngine.MovePreservesInv | app/src/main/java/com/example/snake1/game/SnakeGameState.kt:26-62 | every move, whatever free cell the food lands on, keeps the game invariant |
| SnakeEngine.TailCellCountsAsCollision | app/src/main/java/com/example/snake1/game/SnakeGameState.kt:44-46 | a head moving onto the tail cell ends the game, although the body after the slide would be valid |
| SnakeEngine.ChangeDirectionSpec | app/src/main/java/com/example/snake1/game/SnakeGameState.kt:64-78 | a reversal is ignored and any other direction is taken with nothing else changed; the direction changes to the requested one exactly when it is not a reversal |
| SnakeEngine.ChangeDirectionPreservesInv | app/src/main/java/com/example/snake1/game/SnakeGameState.kt:64-78 | turning keeps the game invariant |
| SnakeEngine.TwoTurnsReverse | app/src/main/java/com/example/snake1/game/SnakeGameState.kt:64-78 | the guard looks only at the current heading: two turns between ticks reverse the snake, and its next move hits its own neck |
| SnakeEngine.StartGameSpec | app/src/main/java/com/example/snake1/game/SnakeGameState.kt:91-99 | startGame from any phase gives snake [(10,10)], food (5,5), heading RIGHT, PLAYING and score 0, and keeps the board size |
| SnakeEngine.StartGameInv | app/src/main/java/com/example/snake1/game/SnakeGameState.kt:91-99 | on a board larger than 10 x 10 the started game satisfies the invariant |
| SnakeEngine.StartGameOnNarrowBoard | app/src/main/java/com/example/snake1/game/SnakeGameState.kt:91-99 | on a board at most 11 wide the started game is lost on its first move |
| SnakeEngine.PauseGameSpec | app/src/main/java/com/example/snake1/game/SnakeGameState.kt:101-103 | the result is PAUSED exactly when the phase was PLAYING and is PLAYING otherwise; only the phase changes |
| SnakeEngine.PauseGameTwice | app/src/main/java/com/example/snake1/game/SnakeGameState.kt:101-103 | pausing twice restores the game exactly when it was PLAYING or PAUSED |
| SnakeEngine.PauseGamePreservesInv | app/src/main/java/com/example/snake1/game/SnakeGameState.kt:101-103 | pausing keeps the game invariant |
| SnakeEngine.ResetGameSpec | app/src/main/java/com/example/snake1/game/SnakeGameState.kt:105-107 | reset gives the default game from any game; it is IDLE and satisfies the invariant |
| SnakeEngine.DefaultState | app/src/main/java/com/example/snake1/game/SnakeGameState.kt:17-25 | the record with the constructor defaults: snake [(10,10)], food (5,5), RIGHT, IDLE, score 0, 20 x 20; no contract of its own, `DefaultStateInv` proves it valid |
| SnakeEngine.Moved | app/src/main/java/com/example/snake1/game/SnakeGameState.kt:26-62 | moveSnake when the food draw is `draw`; no contract of its own, its meaning is stated by `MoveWhenNotPlaying`, `MoveGameOver`, `MoveEatsFood`, `MoveWithoutFood`, `MoveSlides` and `MovePreservesInv` |
| SnakeEngine.ChangeDirection | app/src/main/java/com/example/snake1/game/SnakeGameState.kt:64-78 | changeDirection; no contract of its own, stated by `ChangeDirectionSpec` and `ChangeDirectionPreservesInv` |
| SnakeEngine.StartGame | app/src/main/java/com/example/snake1/game/SnakeGameState.kt:91-99 | startGame; no contract of its own, stated by `StartGameSpec`, `StartGameInv` and `StartGameOnNarrowBoard` |
| SnakeEngine.PauseGame | app/src/main/java/com/example/snake1/game/SnakeGameState.kt:101-103 | pauseGame; no contract of its own, stated by `PauseGameSpec`, `PauseGameTwice` and `PauseGamePreservesInv` |
| SnakeEngine.ResetGame | app/src/main/java/com/example/snake1/game/SnakeGameState.kt:105-107 | resetGame; no contract of its own, stated by `ResetGameSpec` |
| SnakeViewModel.GameViewModel.constructor | app/src/main/java/com/example/snake1/game/SnakeGameViewModel.kt:12-15 | it starts with the default game, an interval of 300 and no loop |
| SnakeViewModel.GameViewModel.StartGame | app/src/main/java/com/example/snake1/game/SnakeGameViewModel.kt:17-20 | the slot becomes the engine's started game and a loop runs; the view-model invariant holds |
| SnakeViewModel.GameViewModel.PauseGame | app/src/main/java/com/example/snake1/game/SnakeGameViewModel.kt:22-24 | the slot becomes the engine's pause of it; the loop and the interval are unchanged |
| SnakeViewModel.GameViewModel.ResetGame | app/src/main/java/com/example/snake1/game/SnakeGameViewModel.kt:26-28 | the slot becomes the default game; the loop and the interval are unchanged |
| SnakeViewModel.GameViewModel.ChangeDirection | app/src/main/java/com/example/snake1/game/SnakeGameViewModel.kt:30-32 | the slot becomes the engine's turn of it; the loop and the interval are unchanged |
| SnakeViewModel.GameViewModel.Tick | app/src/main/java/com/example/snake1/game/SnakeGameViewModel.kt:34-43 | one loop iteration moves the snake only while PLAYING, keeps the invariant, and leaves the loop running exactly when the phase is still PLAYING |
| SnakeViewModel.GameViewModel.IncreaseSpeed | app/src/main/java/com/example/snake1/game/SnakeGameViewModel.kt:45-49 | the interval drops by 20 unless already at 100 and never goes below 100; the game is unchanged |
| SnakeViewModel.GameViewModel.GetCurrentScore | app/src/main/java/com/example/snake1/game/SnakeGameViewModel.kt:51 | it returns the score of the current game |
| SnakeViewModel.NextSpeedKeepsReachable | app/src/main/java/com/example/snake1/game/SnakeGameViewModel.kt:45-49 | from a reachable interval one call yields a reachable interval that is no larger |
| SnakeViewModel.SpeedAfterCalls | app/src/main/java/com/example/snake1/game/SnakeGameViewModel.kt:45-49 | n calls take 20 off per call until the floor of 100 is reached |
| SnakeViewModel.SpeedFloor | app/src/main/java/com/example/snake1/game/SnakeGameViewModel.kt:45-49 | starting from 300 the interval never goes below 100 and reaches it after ten calls |
| SnakeViewModel.PauseDuringDelayFreezes | app/src/main/java/com/example/snake1/game/SnakeGameViewModel.kt:34-43 | a pause during the delay ends the loop, and resuming leaves a PLAYING game with no loop |
| SnakeViewModel.NextSpeed | app/src/main/java/com/example/snake1/game/SnakeGameViewModel.kt:45-49 | the interval after one increaseSpeed; no contract of its own, stated by `NextSpeedKeepsReachable` |
| SnakeViewModel.SpeedAfter | app/src/main/java/com/example/snake1/game/SnakeGameViewModel.kt:45-49 | the interval after n calls of increaseSpeed; no contract of its own, stated by `SpeedAfterCalls` and `SpeedFloor` |
| GameRepository.GameRepo.constructor | app/src/main/java/com/example/snake1/data/repository/SimpleGameRepository.kt:10-33 | the table starts with the three seed games, each with its own creation timestamp |
| GameRepository.GameRepo.AddGame | app/src/main/java/com/example/snake1/data/repository/SimpleGameRepository.kt:36-38 | the game is appended with no id check |
| GameRepository.GameRepo.UpdateGame | app/src/main/java/com/example/snake1/data/repository/SimpleGameRepository.kt:40-44 | the table becomes the replaced list, of the same length |
| GameRepository.GameRepo.DeleteGame | app/src/main/java/com/example/snake1/data/repository/SimpleGameRepository.kt:46-48 | exactly the games with another id remain |
| GameRepository.GameRepo.GetGameById | app/src/main/java/com/example/snake1/data/repository/SimpleGameRepository.kt:50-52 | null exactly when no game has the id; otherwise the first game with it |
| GameRepository.GameRepo.GetActiveGames | app/src/main/java/com/example/snake1/data/repository/SimpleGameRepository.kt:54-56 | exactly the active games, each as often as stored, in stored order |
| GameRepository.ReplaceGameSpec | app/src/main/java/com/example/snake1/data/repository/SimpleGameRepository.kt:40-44 | each entry with the game's id is replaced by the game, every other entry is kept, and ids stay in place |
| GameRepository.FindAfterReplace | app/src/main/java/com/example/snake1/data/repository/SimpleGameRepository.kt:40-52 | after updateGame, getGameById returns the new game exactly when the id was present |
| GameRepository.WithoutGameSpec | app/src/main/java/com/example/snake1/data/repository/SimpleGameRepository.kt:46-48 | after deleteGame the id is not found, and every other game stays in order |
| GameRepository.AddedDuplicateIsShadowed | app/src/main/java/com/example/snake1/data/repository/SimpleGameRepository.kt:36-52 | a game added under an id already present is never returned by getGameById |
| GameRepository.AddedNewIdIsFound | app/src/main/java/com/example/snake1/data/repository/SimpleGameRepository.kt:36-52 | a game added under a new id is returned by getGameById |
| GameRepository.SeedGames | app/src/main/java/com/example/snake1/data/repository/SimpleGameRepository.kt:10-33 | the three seed games with their names, descriptions, difficulties and active flags, each with its own timestamp; no contract of its own |
| GameRepository.ReplaceGame | app/src/main/java/com/example/snake1/data/repository/SimpleGameRepository.kt:40-44 | the list after updateGame; no contract of its own, stated by `ReplaceGameSpec` and `FindAfterReplace` |
| GameRepository.WithoutGame | app/src/main/java/com/example/snake1/data/repository/SimpleGameRepository.kt:46-48 | the list after deleteGame; no contract of its own, stated by `WithoutGameSpec` |
| GameRepository.FindGame | app/src/main/java/com/example/snake1/data/repository/SimpleGameRepository.kt:50-52 | the lookup of getGameById; no contract of its own, its meaning is `Lists.Find` and `GameRepo.GetGameById` states it |
| GameRepository.ActiveGames | app/src/main/java/com/example/snake1/data/repository/SimpleGameRepository.kt:54-56 | the list getActiveGames returns; no contract of its own, `GameRepo.GetActiveGames` states it |
| ScoreRepository.Insert | app/src/main/java/com/example/snake1/data/repository/SimpleScoreRepository.kt:33 | inserting into a sorted list gives a sorted list with one more entry and the same entries otherwise |
| ScoreRepository.SortDesc | app/src/main/java/com/example/snake1/data/repository/SimpleScoreRepository.kt:33 | the sort yields a list sorted highest first that is a permutation of its input |
| ScoreRepository.InsertStable | app/src/main/java/com/example/snake1/data/repository/SimpleScoreRepository.kt:33 | insertion puts the new entry ahead of the entries with an equal score and keeps their order |
| ScoreRepository.SortDescStable | app/src/main/java/com/example/snake1/data/repository/SimpleScoreRepository.kt:33 | the sort is stable: equal scores keep their input order |
| ScoreRepository.SortDescOfSorted | app/src/main/java/com/example/snake1/data/repository/SimpleScoreRepository.kt:33 | sorting a sorted list leaves it as it is |
| ScoreRepository.TopScores | app/src/main/java/com/example/snake1/data/repository/SimpleScoreRepository.kt:45 | it takes min(limit, size) entries, sorted, drawn from the table, each at least as high as every entry left out |
| ScoreRepository.ScoreIdsDiffer | app/src/main/java/com/example/snake1/data/repository/SimpleScoreRepository.kt:32 | entries added at different milliseconds get different ids |
| ScoreRepository.SubsequenceKeepsSorted | app/src/main/java/com/example/snake1/data/repository/SimpleScoreRepository.kt:48-50 | removing entries from a sorted list keeps it sorted |
| ScoreRepository.OfUser | app/src/main/java/com/example/snake1/data/repository/SimpleScoreRepository.kt:37 | the filter of getScoresByUser; no contract of its own, `ScoreRepo.GetScoresByUser` states it |
| ScoreRepository.OfGame | app/src/main/java/com/example/snake1/data/repository/SimpleScoreRepository.kt:41 | the filter-then-sort of getScoresByGame; no contract of its own, `ScoreRepo.GetScoresByGame` states it |
| ScoreRepository.WithoutScore | app/src/main/java/com/example/snake1/data/repository/SimpleScoreRepository.kt:49 | the list after deleteScore; no contract of its own, `ScoreRepo.DeleteScore` states it |
| ScoreRepository.ScoreId | app/src/main/java/com/example/snake1/data/repository/SimpleScoreRepository.kt:32 | the new entry's id is "score_" followed by the decimal millisecond, which reads back as that millisecond |
| ScoreRepository.SeedScores | app/src/main/java/com/example/snake1/data/repository/SimpleScoreRepository.kt:9-28 | the two seed entries (150 and 89 points), each with its own timestamp; no contract of its own |
| ScoreRepository.ScoreRepo.constructor | app/src/main/java/com/example/snake1/data/repository/SimpleScoreRepository.kt:9-28 | the table starts with the two seed entries, sorted |
| ScoreRepository.ScoreRepo.AddScore | app/src/main/java/com/example/snake1/data/repository/SimpleScoreRepository.kt:31-34 | the entry joins under a timestamp id and the table is re-sorted: still sorted, a permutation of the old table plus the entry |
| ScoreRepository.ScoreRepo.DeleteScore | app/src/main/java/com/example/snake1/data/repository/SimpleScoreRepository.kt:48-50 | exactly the entries with another id remain, still sorted |
| ScoreRepository.ScoreRepo.GetScoresByUser | app/src/main/java/com/example/snake1/data/repository/SimpleScoreRepository.kt:36-38 | exactly the user's entries, each as often as stored, in stored order |
| ScoreRepository.ScoreRepo.GetScoresByGame | app/src/main/java/com/example/snake1/data/repository/SimpleScoreRepository.kt:40-42 | exactly the game's entries, each as often as stored, highest first |
| ScoreRepository.ScoreRepo.GetTopScores | app/src/main/java/com/example/snake1/data/repository/SimpleScoreRepository.kt:44-46 | with the default limit of 10: min(limit, size) entries, sorted, drawn from the table, none lower than an entry left out |
| UserRepository.UserRepo.constructor | app/src/main/java/com/example/snake1/data/repository/SimpleUserRepository.kt:10-31 | the table starts with the two seed accounts and no one signed in |
| UserRepository.UserRepo.Login | app/src/main/java/com/example/snake1/data/repository/SimpleUserRepository.kt:33-41 | it succeeds exactly when some account has the username, signing in the first such account; the password is not checked |
| UserRepository.UserRepo.Register | app/src/main/java/com/example/snake1/data/repository/SimpleUserRepository.kt:43-58 | it succeeds exactly when no account shares the username or the email, then appends a new PLAYER and signs it in; otherwise nothing changes |
| UserRepository.UserRepo.Logout | app/src/main/java/com/example/snake1/data/repository/SimpleUserRepository.kt:60-62 | no one is signed in and the table is unchanged |
| UserRepository.UserRepo.UpdateUserScore | app/src/main/java/com/example/snake1/data/repository/SimpleUserRepository.kt:64-81 | matching accounts are credited; a signed-in account with that id is re-read from the new table; any other session is kept |
| UserRepository.UserRepo.DeleteUser | app/src/main/java/com/example/snake1/data/repository/SimpleUserRepository.kt:83-85 | the accounts with that id are removed and the session is kept, even when it is theirs |
| UserRepository.UserRepo.UpdateUser | app/src/main/java/com/example/snake1/data/repository/SimpleUserRepository.kt:87-95 | matching accounts are replaced, and so is the session when it has that id |
| UserRepository.Credit | app/src/main/java/com/example/snake1/data/repository/SimpleUserRepository.kt:67-70 | the total grows by the score and the game count by one, both with 32-bit wrap-around; the other fields are kept |
| UserRepository.CreditScoreSpec | app/src/main/java/com/example/snake1/data/repository/SimpleUserRepository.kt:64-74 | exactly the accounts with the id are credited, the rest are kept, ids stay in place, and without overflow the total grows by exactly the score |
| UserRepository.ReplaceUserSpec | app/src/main/java/com/example/snake1/data/repository/SimpleUserRepository.kt:87-90 | exactly the accounts with the id are replaced and the length is kept |
| UserRepository.WithoutUserSpec | app/src/main/java/com/example/snake1/data/repository/SimpleUserRepository.kt:83-85 | after deleteUser the id is not found, and every other account stays in order |
| UserRepository.FindAfterCredit | app/src/main/java/com/example/snake1/data/repository/SimpleUserRepository.kt:64-80 | the lookup after crediting gives the credited first match, or nothing if there was none |
| UserRepository.UserIdsDiffer | app/src/main/java/com/example/snake1/data/repository/SimpleUserRepository.kt:47 | accounts registered at different milliseconds get different ids |
| UserRepository.RegisteredUserLogsIn | app/src/main/java/com/example/snake1/data/repository/SimpleUserRepository.kt:33-58 | after a successful register, login under that username finds the new account |
| UserRepository.RegisterKeepsUnique | app/src/main/java/com/example/snake1/data/repository/SimpleUserRepository.kt:43-58 | register keeps usernames and emails unique in the table |
| UserRepository.DeletedCurrentUserIsSignedOutByCredit | app/src/main/java/com/example/snake1/data/repository/SimpleUserRepository.kt:76-85 | deleting the signed-in account and then crediting it signs the session out |
| UserRepository.SeedUsers | app/src/main/java/com/example/snake1/data/repository/SimpleUserRepository.kt:10-27 | the admin and the player seed accounts, each with its own timestamp; no contract of its own |
| UserRepository.FindByUsername | app/src/main/java/com/example/snake1/data/repository/SimpleUserRepository.kt:34 | login's lookup; no contract of its own, its meaning is `Lists.Find` and `UserRepo.Login` states it |
| UserRepository.FindClash | app/src/main/java/com/example/snake1/data/repository/SimpleUserRepository.kt:44 | register's lookup by username or email; no contract of its own, `UserRepo.Register` states it |
| UserRepository.FindById | app/src/main/java/com/example/snake1/data/repository/SimpleUserRepository.kt:78 | updateUserScore's re-read of the session; no contract of its own, stated by `FindAfterCredit` |
| UserRepository.UserId | app/src/main/java/com/example/snake1/data/repository/SimpleUserRepository.kt:47 | the new account's id is "user_" followed by the decimal millisecond, which reads back as that millisecond |
| UserRepository.NewPlayer | app/src/main/java/com/example/snake1/data/repository/SimpleUserRepository.kt:46-51 | the account register creates: a PLAYER with zero score and games; no contract of its own, stated by `UserRepo.Register` and `RegisteredUserLogsIn` |
| UserRepository.CreditScore | app/src/main/java/com/example/snake1/data/repository/SimpleUserRepository.kt:65-74 | the list after updateUserScore; no contract of its own, stated by `CreditScoreSpec` and `FindAfterCredit` |
| UserRepository.ReplaceUser | app/src/main/java/com/example/snake1/data/repository/SimpleUserRepository.kt:88-90 | the list after updateUser; no contract of its own, stated by `ReplaceUserSpec` |
| UserRepository.WithoutUser | app/src/main/java/com/example/snake1/data/repository/SimpleUserRepository.kt:84 | the list after deleteUser; no contract of its own, stated by `WithoutUserSpec` |
| Registration.CheckFields | app/src/main/java/com/example/snake1/ui/Screens/RegisterScreen.kt:127-143 | each error is reported exactly when the checks before it pass and its own fails (blank field, mismatch, fewer than 6 UTF-16 units, no '@'); no error exactly when all pass |
| Registration.Decide | app/src/main/java/com/example/snake1/ui/Screens/RegisterScreen.kt:127-155 | a field error wins; otherwise registration succeeds exactly when register does, and it fails with the duplicate error exactly when register refuses |
| Registration.Submit | app/src/main/java/com/example/snake1/ui/Screens/RegisterScreen.kt:127-155 | the repository is untouched on a field error; otherwise, with no clash, the new PLAYER is appended and signed in, and with a clash nothing changes; the outcome follows register's answer |
| Registration.ThreeAstralCharactersAreEnough | app/src/main/java/com/example/snake1/ui/Screens/RegisterScreen.kt:136-139 | three characters outside the Basic Multilingual Plane pass the length check |
| Registration.BlankBeatsMismatch | app/src/main/java/com/example/snake1/ui/Screens/RegisterScreen.kt:128-135 | a field of spaces counts as empty, and that check comes before the password comparison |
| Registration.Message | app/src/main/java/com/example/snake1/ui/Screens/RegisterScreen.kt:127-155 | the five texts the screen shows; no contract of its own, stated by `MessagesDiffer` and `RejectionMessage` |
| Registration.MessagesDiffer | app/src/main/java/com/example/snake1/ui/Screens/RegisterScreen.kt:127-155 | different errors show different texts |
| Registration.RejectionMessage | app/src/main/java/com/example/snake1/ui/Screens/RegisterScreen.kt:127-155 | a rejected submit shows the first failing check's text, or "El usuario o correo ya existe" when only register refused |
| KotlinLang.AddInt32 | app/src/main/java/com/example/snake1/data/repository/SimpleUserRepository.kt:68-69 | Kotlin `Int` addition: exact in range, off by 2^32 on overflow in either direction |
| KotlinLang.DecimalRoundTrip | app/src/main/java/com/example/snake1/data/repository/SimpleUserRepository.kt:47 | the decimal rendering of a timestamp reads back as the same number |
| KotlinLang.WrapInt32 | app/src/main/java/com/example/snake1/data/repository/SimpleUserRepository.kt:68-69 | the value of a Kotlin `Int` expression: congruent to the exact value modulo 2^32, and equal to it in range |
| KotlinLang.IsWhitespace | app/src/main/java/com/example/snake1/ui/Screens/RegisterScreen.kt:128 | `Char.isWhitespace` on the JVM: TAB to CR, FS to space, and the Unicode space and separator characters; no contract of its own |
| KotlinLang.IsBlank | app/src/main/java/com/example/snake1/ui/Screens/RegisterScreen.kt:128 | `isBlank`: every character is whitespace, so the empty string is blank; no contract of its own |
| KotlinLang.Utf16Length | app/src/main/java/com/example/snake1/ui/Screens/RegisterScreen.kt:136 | `String.length` in UTF-16 units: between the character count and twice it, and equal to it on the Basic Multilingual Plane |
| KotlinLang.DecimalString | app/src/main/java/com/example/snake1/data/repository/SimpleUserRepository.kt:47 | the decimal rendering in a string template: non-empty and all digits |
| Lists.Filter | app/src/main/java/com/example/snake1/data/repository/SimpleGameRepository.kt:47 | Kotlin `filter`: exactly the elements that satisfy the predicate, in order, never longer than the input |
| Lists.Map | app/src/main/java/com/example/snake1/data/repository/SimpleGameRepository.kt:41-43 | Kotlin `map`: same length, the function applied at every index |
| Lists.FirstIndex | app/src/main/java/com/example/snake1/data/repository/SimpleGameRepository.kt:51 | where `find` stops: -1 exactly when nothing matches, otherwise a match with none before it |
| Lists.Find | app/src/main/java/com/example/snake1/data/repository/SimpleGameRepository.kt:51 | Kotlin `find`: null exactly when nothing matches, otherwise the first match |

## Left out

- The game loop's coroutine and `delay`. `Tick` is one iteration of the loop after its delay, and `loopRunning` stands for a live loop. Each `startGame` while a loop is alive launches one more loop; those concurrent loops, and their interleaving with commands, are not modelled.
- The `StateFlow` wrappers around each repository list and the current game. Reassigning a class field stands for publishing the value; subscribers are not modelled.
- `Random.nextInt`. `GenerateNewFood` picks any free cell nondeterministically, so every property holds for every draw. The distribution is not modelled.
- `System.currentTimeMillis`. The timestamps and the millisecond used in new ids are parameters of the operations that read the clock.
- SnakeEngine.GenerateNewFood: requires a free cell. When the board is full, the source's rejection loop never ends, and the model excludes that case instead of describing it.
- SnakeEngine.Moved: requires a non-empty snake while PLAYING. On an empty snake `snake.first()` throws; a game record with an empty snake cannot be built by any operation of the engine.
- ScoreRepository.TopScores, ScoreRepository.ScoreRepo.GetTopScores: require a limit that is not negative. `take` throws on a negative count. The default limit of 10 is kept.
- The engine's score, board size and coordinates are unbounded integers. Kotlin's `Int` cannot overflow there for any board the app builds; the repository fields that can overflow are modelled as `Int32`.
- The password typed at registration is passed on but never stored. Neither `login` nor `register` reads it, and the model does the same.
- The Compose screens, navigation, haptics and every other UI element. The registration screen is modelled only from its submit handler on; the navigation to home is the `Registered` outcome.
