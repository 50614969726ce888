/** The game's state enumeration, its difficulty presets, and the state
    transition rule of Game.changeState (igra.js). */
module GameStates {
  import opened Errors

  datatype GameState = Playing | Win | Lost | Stopped

  /** The outcome of changeState: the new state, and whether the board must
      reveal its mines (which the game asks of its board on a loss). */
  datatype Transition = Transition(state: GameState, revealMines: bool)

  /** changeState: asking for the current state does nothing; any other state
      is taken, and entering Lost reveals the mines. Timers and messages are
      presentation and not modelled. */
  function ChangeState(current: GameState, next: GameState): (t: Transition)
    ensures next == current ==> t == Transition(current, false)
    ensures next != current ==> t.state == next
    ensures t.revealMines <==> next != current && next == Lost
  {
    if current == next then Transition(current, false)
    else Transition(next, next == Lost)
  }

  /** Asking twice for the same state acts once: the second request is a no-op,
      so the mines are revealed at most once per loss. */
  lemma ChangeStateSettles(current: GameState, next: GameState)
    ensures ChangeState(current, next).state == next
    ensures ChangeState(ChangeState(current, next).state, next) == Transition(next, false)
  {
  }

  /** A difficulty preset: board side length and configured mine count. */
  datatype Level = Level(name: string, size: int, mines: int)

  /** GameLevels, in declaration order. */
  const Levels: seq<Level> := [
    Level("beginner", 8, 10),
    Level("intermediate", 16, 40),
    Level("expert", 25, 99)
  ]

  /** The preset lookup of prepareBoard: the first preset with that name, or an
      error for an unknown name. */
  function FindLevel(name: string): (r: Result<Level>)
    ensures r.Ok? <==> exists k :: 0 <= k < |Levels| && Levels[k].name == name
    ensures r.Ok? ==> r.value in Levels && r.value.name == name
    ensures r.Err? ==> r.error == UnknownLevel
  {
    FindLevelFrom(name, 0)
  }

  function FindLevelFrom(name: string, k: nat): (r: Result<Level>)
    requires k <= |Levels|
    ensures r.Ok? <==> exists i :: k <= i < |Levels| && Levels[i].name == name
    ensures r.Ok? ==> exists i :: (k <= i < |Levels| && Levels[i] == r.value && Levels[i].name == name
                                   && forall i' :: k <= i' < i ==> Levels[i'].name != name)
    ensures r.Err? ==> r.error == UnknownLevel
    decreases |Levels| - k
  {
    if k == |Levels| then Err(UnknownLevel)
    else if Levels[k].name == name then Ok(Levels[k])
    else FindLevelFrom(name, k + 1)
  }

  /** Every preset is found under its own name. */
  lemma LevelsRoundTrip()
    ensures forall k :: 0 <= k < |Levels| ==> FindLevel(Levels[k].name) == Ok(Levels[k])
  {
    assert Levels[0].name != Levels[1].name && Levels[0].name != Levels[2].name && Levels[1].name != Levels[2].name by {
      assert Levels[0].name[0] == 'b' && Levels[1].name[0] == 'i' && Levels[2].name[0] == 'e';
    }
    forall k | 0 <= k < |Levels| ensures FindLevel(Levels[k].name) == Ok(Levels[k]) {
      var r := FindLevel(Levels[k].name);
      var i :| (0 <= i < |Levels| && Levels[i] == r.value && Levels[i].name == Levels[k].name
                && forall i' :: 0 <= i' < i ==> Levels[i'].name != Levels[k].name);
    }
  }

  /** The three names and what they select. */
  lemma LevelTable()
    ensures FindLevel("beginner") == Ok(Level("beginner", 8, 10))
    ensures FindLevel("intermediate") == Ok(Level("intermediate", 16, 40))
    ensures FindLevel("expert") == Ok(Level("expert", 25, 99))
    ensures forall name :: name != "beginner" && name != "intermediate" && name != "expert" ==>
      FindLevel(name) == Err(UnknownLevel)
  {
    LevelsRoundTrip();
  }

  /** Every preset describes a board that setMines accepts. */
  lemma LevelsPlayable(lv: Level)
    requires lv in Levels
    ensures lv.size > 0 && 0 <= lv.mines <= lv.size * lv.size
  {
  }
}
