/**
 * The global application state of `context/app-provider.tsx` and its reducer: topic and
 * lesson navigation, practice mode, XP with levelling, and the console panel's content.
 * The reducer never mutates its argument; every case returns a new state.
 */
module AppProvider {
  import opened Arith

  datatype TopicKey = Arithmetic | Algebra | Geometry | Calculus | Logic

  /** The number of lessons each topic has in the topic table (`data/topics.ts`). */
  function LessonCount(t: TopicKey): nat {
    match t
    case Arithmetic => 2
    case Algebra => 2
    case Geometry => 2
    case Calculus => 1
    case Logic => 1
  }

  datatype ConsoleContent = ConsoleContent(title: string, lines: seq<string>)

  datatype AppState = AppState(
    currentTopicKey: TopicKey,
    currentLessonIndex: int,
    isPracticing: bool,
    xp: int,
    level: int,
    streak: int,
    consoleContent: ConsoleContent)

  /** The six action kinds, plus any other `type` tag, which the reducer ignores. */
  datatype AppAction =
    | SetTopic(topic: TopicKey)
    | SetLessonIndex(index: int)
    | AddXp(amount: int, reason: string)
    | SetPracticing(practicing: bool)
    | SetConsole(content: ConsoleContent)
    | ClearConsole
    | Other(kind: string)

  const InitialState := AppState(Arithmetic, 0, false, 0, 1, 0,
                                 ConsoleContent("Console", ["Respostas e passos aparecerão aqui."]))

  /** `appReducer(state, action)`. */
  function AppReducer(state: AppState, action: AppAction): AppState {
    match action
    case SetTopic(t) =>
      state.(currentTopicKey := t, currentLessonIndex := 0, isPracticing := false)
    case SetLessonIndex(i) =>
      if 0 <= i < LessonCount(state.currentTopicKey) then state.(currentLessonIndex := i) else state
    case SetPracticing(p) =>
      state.(isPracticing := p)
    case AddXp(amount, _) =>
      var newXp := state.xp + amount;
      var nextLevelXp := state.level * 50;
      if newXp >= nextLevelXp then
        state.(level := state.level + 1, xp := newXp - nextLevelXp, streak := state.streak + 1)
      else
        state.(xp := newXp, streak := state.streak + 1)
    case SetConsole(content) =>
      state.(consoleContent := content)
    case ClearConsole =>
      state.(consoleContent := ConsoleContent("Console", ["Limpo."]))
    case Other(_) =>
      state
  }

  /** The state after dispatching `actions` in order. */
  function Run(state: AppState, actions: seq<AppAction>): AppState
    decreases |actions|
  {
    if actions == [] then state else Run(AppReducer(state, actions[0]), actions[1..])
  }

  // ---------------------------------------------------------------------------
  // Navigation
  // ---------------------------------------------------------------------------

  /** Choosing a topic opens its first lesson outside practice mode and keeps progress and console. */
  lemma SetTopicEffect(state: AppState, t: TopicKey)
    ensures var r := AppReducer(state, SetTopic(t));
      r.currentTopicKey == t && r.currentLessonIndex == 0 && !r.isPracticing
      && r.xp == state.xp && r.level == state.level && r.streak == state.streak
      && r.consoleContent == state.consoleContent
  {
  }

  /** A lesson index is taken exactly when it names a lesson of the current topic. */
  lemma SetLessonIndexEffect(state: AppState, i: int)
    ensures var r := AppReducer(state, SetLessonIndex(i));
      (0 <= i < LessonCount(state.currentTopicKey) ==> r == state.(currentLessonIndex := i))
      && (!(0 <= i < LessonCount(state.currentTopicKey)) ==> r == state)
    ensures AppReducer(state, SetLessonIndex(i)).currentLessonIndex == i
            <==> (0 <= i < LessonCount(state.currentTopicKey) || state.currentLessonIndex == i)
  {
  }

  /** The lesson index names a lesson of the current topic. */
  predicate ValidLesson(state: AppState) {
    0 <= state.currentLessonIndex < LessonCount(state.currentTopicKey)
  }

  /** No action moves the lesson index off the current topic's lessons. */
  lemma ReducerKeepsValidLesson(state: AppState, action: AppAction)
    requires ValidLesson(state)
    ensures ValidLesson(AppReducer(state, action))
  {
    match action
    case SetTopic(t) =>
      assert LessonCount(t) >= 1;
    case _ =>
  }

  lemma {:induction false} RunKeepsValidLesson(state: AppState, actions: seq<AppAction>)
    requires ValidLesson(state)
    ensures ValidLesson(Run(state, actions))
    decreases |actions|
  {
    if actions != [] {
      ReducerKeepsValidLesson(state, actions[0]);
      RunKeepsValidLesson(AppReducer(state, actions[0]), actions[1..]);
    }
  }

  /** Single-field actions: practice mode and console content change nothing else. */
  lemma SingleFieldActions(state: AppState, p: bool, content: ConsoleContent, kind: string)
    ensures AppReducer(state, SetPracticing(p)).isPracticing == p
            && AppReducer(state, SetPracticing(p)).(isPracticing := state.isPracticing) == state
    ensures AppReducer(state, SetConsole(content)).consoleContent == content
            && AppReducer(state, SetConsole(content)).(consoleContent := state.consoleContent) == state
    ensures AppReducer(state, ClearConsole) == state.(consoleContent := ConsoleContent("Console", ["Limpo."]))
    ensures AppReducer(state, Other(kind)) == state
  {
  }

  // ---------------------------------------------------------------------------
  // XP and levels
  // ---------------------------------------------------------------------------

  /** Every XP award extends the streak by one and raises the level by at most one. */
  lemma AddXpStreakAndLevel(state: AppState, amount: int, reason: string)
    ensures var r := AppReducer(state, AddXp(amount, reason));
      r.streak == state.streak + 1 && state.level <= r.level <= state.level + 1
  {
  }

  /** The level rises exactly when the award reaches level*50, which it then costs. */
  lemma AddXpLevelUp(state: AppState, amount: int, reason: string)
    ensures var r := AppReducer(state, AddXp(amount, reason));
      (state.xp + amount >= state.level * 50 <==>
        (r.level == state.level + 1 && r.xp == state.xp + amount - state.level * 50))
      && (state.xp + amount < state.level * 50 <==>
        (r.level == state.level && r.xp == state.xp + amount))
  {
  }

  /** XP progress within a level: at least level 1, and xp below the next threshold. */
  predicate ValidXp(state: AppState) {
    state.level >= 1 && 0 <= state.xp < state.level * 50 && state.streak >= 0
  }

  /** Awards of at most 50 XP keep the progress within the level. */
  lemma ReducerKeepsValidXp(state: AppState, action: AppAction)
    requires ValidXp(state)
    requires action.AddXp? ==> 0 <= action.amount <= 50
    ensures ValidXp(AppReducer(state, action))
  {
  }

  /** The XP earned to reach the current progress: 50 + 100 + ... + (level-1)*50 plus xp. */
  function EarnedXp(state: AppState): int {
    state.xp + 25 * state.level * (state.level - 1)
  }

  /** Whatever the amount, an award adds exactly that amount to the XP earned. */
  lemma AddXpConservesEarned(state: AppState, amount: int, reason: string)
    ensures EarnedXp(AppReducer(state, AddXp(amount, reason))) == EarnedXp(state) + amount
  {
    TriangularStep(state.level);
  }

  function TotalAwarded(actions: seq<AppAction>): int {
    if actions == [] then 0
    else (if actions[0].AddXp? then actions[0].amount else 0) + TotalAwarded(actions[1..])
  }

  /** After any run, the XP earned has grown by the sum of all the awards. */
  lemma {:induction false} RunEarnedXp(state: AppState, actions: seq<AppAction>)
    ensures EarnedXp(Run(state, actions)) == EarnedXp(state) + TotalAwarded(actions)
    decreases |actions|
  {
    if actions != [] {
      var next := AppReducer(state, actions[0]);
      if actions[0].AddXp? {
        AddXpConservesEarned(state, actions[0].amount, actions[0].reason);
      }
      RunEarnedXp(next, actions[1..]);
    }
  }

  /** The initial state is valid in both senses. */
  lemma InitialStateValid()
    ensures ValidLesson(InitialState) && ValidXp(InitialState) && EarnedXp(InitialState) == 0
  {
  }
}
