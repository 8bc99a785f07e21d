/**
 * The three difficulty presets and the manager that selects one of them.
 * Score multipliers are counted in halves: 0.5 is 1, 1.0 is 2, 2.0 is 4.
 */
module Difficulty {

  datatype Level = Easy | Medium | Hard

  datatype Settings = Settings(
    initialSpeed: int,
    maxSpeed: int,
    speedIncrement: int,
    bombEnabled: bool,
    wallWrapAround: bool,
    scoreMultHalves: nat)

  /** The preset table. */
  function Preset(level: Level): Settings {
    match level
    case Easy => Settings(6, 15, 1, false, true, 1)
    case Medium => Settings(10, 25, 2, true, false, 2)
    case Hard => Settings(15, 35, 3, true, false, 4)
  }

  /** Wrap-around is offered exactly where bombs are not. */
  lemma PresetsAreSane(level: Level)
    ensures Preset(level).initialSpeed <= Preset(level).maxSpeed
    ensures Preset(level).speedIncrement > 0
    ensures Preset(level).wallWrapAround <==> !Preset(level).bombEnabled
    ensures Preset(level).wallWrapAround <==> level == Easy
    ensures Preset(level).scoreMultHalves in {1, 2, 4}
  {
  }

  /** The enumeration value string each level carries. */
  function Value(level: Level): string {
    match level
    case Easy => "easy"
    case Medium => "medium"
    case Hard => "hard"
  }

  function UpperAscii(c: char): char {
    if 'a' <= c <= 'z' then (c as int - 32) as char else c
  }

  function LowerAscii(c: char): char {
    if 'A' <= c <= 'Z' then (c as int + 32) as char else c
  }

  function LowerAll(s: string): (r: string)
    ensures |r| == |s|
    ensures forall i :: 0 <= i < |s| ==> r[i] == LowerAscii(s[i])
  {
    if s == [] then [] else [LowerAscii(s[0])] + LowerAll(s[1..])
  }

  /** First character upper-cased, the rest lower-cased (ASCII letters only). */
  function Capitalize(s: string): (r: string)
    ensures |r| == |s|
    ensures |s| > 0 ==> r[0] == UpperAscii(s[0])
    ensures forall i :: 1 <= i < |s| ==> r[i] == LowerAscii(s[i])
  {
    if s == [] then [] else [UpperAscii(s[0])] + LowerAll(s[1..])
  }

  /** The order in which `list(DifficultyLevel)` enumerates the levels. */
  function Index(level: Level): (i: nat)
    ensures i < 3
  {
    match level
    case Easy => 0
    case Medium => 1
    case Hard => 2
  }

  function LevelAt(i: nat): (level: Level)
    requires i < 3
    ensures Index(level) == i
  {
    if i == 0 then Easy else if i == 1 then Medium else Hard
  }

  lemma IndexRoundTrip(level: Level)
    ensures LevelAt(Index(level)) == level
  {
  }

  datatype Manager = Manager(current: Level)

  function NewManager(): (m: Manager)
    ensures m.current == Medium
  {
    Manager(Medium)
  }

  function GetSettings(m: Manager): Settings {
    Preset(m.current)
  }

  function SetDifficulty(m: Manager, level: Level): (r: Manager)
    ensures r.current == level
  {
    m.(current := level)
  }

  function GetName(m: Manager): string {
    Capitalize(Value(m.current))
  }

  /** The displayed names. */
  lemma NamesAre(m: Manager)
    ensures m.current == Easy ==> GetName(m) == "Easy"
    ensures m.current == Medium ==> GetName(m) == "Medium"
    ensures m.current == Hard ==> GetName(m) == "Hard"
  {
    assert UpperAscii('e') == 'E';
    assert UpperAscii('m') == 'M';
    assert UpperAscii('h') == 'H';
    assert LowerAll("asy") == "asy";
    assert LowerAll("edium") == "edium";
    assert LowerAll("ard") == "ard";
  }

  /** Different levels show different names, so the name identifies the level. */
  lemma NamesAreDistinct(m1: Manager, m2: Manager)
    ensures GetName(m1) == GetName(m2) <==> m1.current == m2.current
  {
    NamesAre(m1);
    NamesAre(m2);
  }

  datatype Cycled = Cycled(manager: Manager, name: string)

  /** Advances to the next level, wrapping after the last, and reports the new name. */
  function CycleDifficulty(m: Manager): (r: Cycled)
    ensures Index(r.manager.current) == (Index(m.current) + 1) % 3
    ensures r.name == GetName(r.manager)
  {
    var next := LevelAt((Index(m.current) + 1) % 3);
    var m' := m.(current := next);
    Cycled(m', GetName(m'))
  }

  lemma CycleOrder()
    ensures CycleDifficulty(Manager(Easy)).manager.current == Medium
    ensures CycleDifficulty(Manager(Medium)).manager.current == Hard
    ensures CycleDifficulty(Manager(Hard)).manager.current == Easy
  {
  }

  /** Three cycles return to the starting level. */
  lemma CycleThriceIsIdentity(m: Manager)
    ensures CycleDifficulty(CycleDifficulty(CycleDifficulty(m).manager).manager).manager == m
  {
    CycleOrder();
    assert m == Manager(m.current);
  }
}
