/**
 * The colour themes and the manager that switches and cycles between them.
 * A theme's colour table is kept as an opaque palette tag.
 */
module Themes {
  import opened Options

  datatype Palette = DarkTechColors | KidsBrightColors | OceanColors | CandyColors

  datatype Theme = Theme(name: string, palette: Palette)

  datatype Manager = Manager(themes: map<string, Theme>, order: seq<string>, currentKey: string)

  /** Keys are listed once each in `order`, every listed key has a theme and every theme is listed. */
  predicate Valid(m: Manager) {
    && |m.order| > 0
    && (forall i, j :: 0 <= i < j < |m.order| ==> m.order[i] != m.order[j])
    && (forall i :: 0 <= i < |m.order| ==> m.order[i] in m.themes)
    && (forall k :: k in m.themes ==> k in m.order)
    && m.currentKey in m.order
  }

  function NewManager(): (m: Manager)
    ensures Valid(m)
    ensures m.currentKey == "dark_tech"
    ensures |m.order| == 4
  {
    Manager(
      map[
        "dark_tech" := Theme("Dark Tech", DarkTechColors),
        "kids_bright" := Theme("Kids Bright", KidsBrightColors),
        "ocean" := Theme("Ocean", OceanColors),
        "candy" := Theme("Candy", CandyColors)],
      ["dark_tech", "kids_bright", "ocean", "candy"],
      "dark_tech")
  }

  /** The current theme; always defined for a valid manager. */
  function CurrentTheme(m: Manager): (t: Theme)
    requires Valid(m)
    ensures m.currentKey in m.themes && t == m.themes[m.currentKey]
  {
    m.themes[m.currentKey]
  }

  datatype Switched = Switched(manager: Manager, ok: bool)

  /** Selects the theme with key `key` when there is one; otherwise reports failure. */
  function SwitchTheme(m: Manager, key: string): (r: Switched)
    ensures r.ok <==> key in m.themes
    ensures r.ok ==> r.manager == m.(currentKey := key)
    ensures !r.ok ==> r.manager == m
    ensures Valid(m) ==> Valid(r.manager)
  {
    if key in m.themes then Switched(m.(currentKey := key), true) else Switched(m, false)
  }

  /** Position of the first occurrence of `x` in `s`. */
  function IndexOf(s: seq<string>, x: string): (i: nat)
    requires x in s
    ensures i < |s| && s[i] == x
    ensures forall j :: 0 <= j < i ==> s[j] != x
  {
    if s[0] == x then 0 else 1 + IndexOf(s[1..], x)
  }

  /** In a list without repeats, the first occurrence of `s[k]` is at `k`. */
  lemma IndexOfDistinct(s: seq<string>, k: nat)
    requires k < |s|
    requires forall i, j :: 0 <= i < j < |s| ==> s[i] != s[j]
    ensures IndexOf(s, s[k]) == k
  {
  }

  datatype Cycled = Cycled(manager: Manager, name: string)

  /** The index after `i` in a list of length `n`, wrapping to 0: `(i + 1) % n` for `i < n`. */
  function NextIndex(i: nat, n: nat): (j: nat)
    requires i < n
    ensures j < n
  {
    if i + 1 < n then i + 1 else 0
  }

  /** Moves to the next key of `order`, wrapping after the last, and reports that theme's name. */
  function CycleTheme(m: Manager): (r: Cycled)
    requires Valid(m)
    ensures Valid(r.manager)
    ensures r.manager.themes == m.themes && r.manager.order == m.order
    ensures IndexOf(m.order, r.manager.currentKey) == NextIndex(IndexOf(m.order, m.currentKey), |m.order|)
    ensures r.name == CurrentTheme(r.manager).name
  {
    var next := NextIndex(IndexOf(m.order, m.currentKey), |m.order|);
    IndexOfDistinct(m.order, next);
    var m' := m.(currentKey := m.order[next]);
    Cycled(m', CurrentTheme(m').name)
  }

  function CycleTimes(m: Manager, n: nat): (r: Manager)
    requires Valid(m)
    ensures Valid(r)
    decreases n
  {
    if n == 0 then m else CycleTimes(CycleTheme(m).manager, n - 1)
  }

  /**
   * After `k <= |order|` cycles the current key sits `k` places further
   * along `order`, wrapping once past the end.
   */
  lemma {:induction false} CycleTimesIndex(m: Manager, k: nat)
    requires Valid(m)
    requires k <= |m.order|
    ensures CycleTimes(m, k).themes == m.themes && CycleTimes(m, k).order == m.order
    ensures var i := IndexOf(m.order, m.currentKey);
      IndexOf(m.order, CycleTimes(m, k).currentKey) == if i + k < |m.order| then i + k else i + k - |m.order|
    decreases k
  {
    if k > 0 {
      var m0 := CycleTimes(m, k - 1);
      CycleTimesIndex(m, k - 1);
      CycleTimesShift(m, k - 1);
      assert CycleTimes(m, k) == CycleTheme(m0).manager;
    }
  }

  /** One more cycle is one more step from where `k` cycles left off. */
  lemma {:induction false} CycleTimesShift(m: Manager, k: nat)
    requires Valid(m)
    ensures CycleTimes(m, k + 1) == CycleTheme(CycleTimes(m, k)).manager
    decreases k
  {
    if k > 0 {
      CycleTimesShift(CycleTheme(m).manager, k - 1);
    }
  }

  /** Cycling once per theme returns to the starting theme; for the shipped table that is four cycles. */
  lemma CycleAllThemesIsIdentity(m: Manager)
    requires Valid(m)
    ensures CycleTimes(m, |m.order|) == m
  {
    CycleTimesIndex(m, |m.order|);
    var r := CycleTimes(m, |m.order|);
    assert r.order[IndexOf(m.order, m.currentKey)] == r.currentKey;
  }

  /** The names of all themes in `order` order. */
  function AllThemeNames(m: Manager): (names: seq<string>)
    requires Valid(m)
    ensures |names| == |m.order|
    ensures forall i :: 0 <= i < |m.order| ==> names[i] == m.themes[m.order[i]].name
  {
    seq(|m.order|, i requires 0 <= i < |m.order| => m.themes[m.order[i]].name)
  }

  lemma ShippedNames()
    ensures AllThemeNames(NewManager()) == ["Dark Tech", "Kids Bright", "Ocean", "Candy"]
  {
    var m := NewManager();
    var names := AllThemeNames(m);
    assert names[0] == "Dark Tech";
    assert names[1] == "Kids Bright";
    assert names[2] == "Ocean";
    assert names[3] == "Candy";
  }

  /** From the initial theme, one cycle shows "Kids Bright". */
  lemma ShippedFirstCycle()
    ensures CycleTheme(NewManager()).manager.currentKey == "kids_bright"
    ensures CycleTheme(NewManager()).name == "Kids Bright"
  {
    var m := NewManager();
    assert IndexOf(m.order, m.currentKey) == 0;
    assert NextIndex(0, |m.order|) == 1;
  }

  /** Four cycles from the initial theme come back to it. */
  lemma ShippedFourCycles()
    ensures CycleTimes(NewManager(), 4) == NewManager()
  {
    CycleAllThemesIsIdentity(NewManager());
  }
}
