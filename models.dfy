/** The records the repositories store. Every `Long` timestamp is an `int` supplied by
    the caller; every Kotlin `Int` is an `Int32`. */
module Models {
  import opened KotlinLang

  datatype UserRole = Player | Admin

  datatype User = User(
    id: string,
    username: string,
    email: string,
    role: UserRole,
    totalScore: Int32,
    gamesPlayed: Int32,
    createdAt: int)

  datatype Score = Score(
    id: string,
    userId: string,
    username: string,
    gameId: string,
    gameName: string,
    score: Int32,
    playedAt: int)

  datatype GameDifficulty = Easy | Medium | Hard

  datatype Game = Game(
    id: string,
    name: string,
    description: string,
    difficulty: GameDifficulty,
    isActive: bool,
    createdAt: int)
}
