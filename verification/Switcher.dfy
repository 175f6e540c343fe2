// The theme switcher of the page (initTheme in web/static/application.js).
module Switchers {
  import opened Text
  import opened Themes

  // THEMES: the attribute, or the base theme when it is missing or empty.
  function ThemeList(attr: string): seq<string> {
    Split(if attr == "" then BASE_THEME else attr, ',')
  }

  function InitialChoice(themes: seq<string>, saved: Option<string>, deflt: string): string {
    if saved.Some? && saved.value in themes then saved.value
    else if deflt == "" then BASE_THEME
    else deflt
  }

  // The entry after cur, round the list; IndexOf is -1 for a theme not in it.
  function NextTheme(themes: seq<string>, cur: string): string
    requires |themes| > 0
  {
    themes[(IndexOf(themes, cur) + 1) % |themes|]
  }

  // The theme shown after k clicks.
  function Clicked(themes: seq<string>, cur: string, k: nat): string
    requires |themes| > 0
  {
    if k == 0 then cur else NextTheme(themes, Clicked(themes, cur, k - 1))
  }

  class Switcher {
    const themes: seq<string>
    const locked: bool
    // The theme of the page and the one left in local storage.
    var cur: string
    var saved: Option<string>

    // The data-* attributes of the page, and the choice found in local storage. A
    // forced theme is shown and nothing saved; else what was saved is shown if the
    // list has it, and what is shown is saved.
    constructor (themesAttr: string, defaultAttr: string, forcedAttr: string, stored: Option<string>)
      ensures themes == ThemeList(themesAttr)
      ensures locked <==> forcedAttr != ""
      ensures locked ==> cur == forcedAttr && saved == stored
      ensures !locked ==> saved == Some(cur)
      ensures !locked && stored.Some? && stored.value in themes ==> cur == stored.value
      ensures !locked && (stored.None? || stored.value !in themes) ==>
                cur == if defaultAttr == "" then BASE_THEME else defaultAttr
    {
      themes := ThemeList(themesAttr);
      locked := forcedAttr != "";
      if forcedAttr != "" {
        cur := forcedAttr;
        saved := stored;
      } else {
        cur := InitialChoice(ThemeList(themesAttr), stored, defaultAttr);
        saved := Some(InitialChoice(ThemeList(themesAttr), stored, defaultAttr));
      }
    }

    // The handler of the button; a locked page has none.
    method Click()
      requires !locked && |themes| > 0
      modifies this
      ensures cur == NextTheme(themes, old(cur)) && saved == Some(cur)
      ensures cur in themes
    {
      var i := IndexOf(themes, cur);
      cur := themes[(i + 1) % |themes|];
      saved := Some(cur);
    }

    // k clicks in a row.
    method ClickTimes(k: nat)
      requires !locked && |themes| > 0
      modifies this
      ensures cur == Clicked(themes, old(cur), k)
      ensures saved == if k == 0 then old(saved) else Some(cur)
    {
      for done := 0 to k
        invariant cur == Clicked(themes, old(cur), done)
        invariant saved == if done == 0 then old(saved) else Some(cur)
      {
        Click();
      }
    }
  }

  // Opening the page, clicking k times and opening it again, without a theme forced:
  // the page comes back with the theme it was left with, whatever was saved before
  // and whatever the default.
  method Revisit(themesAttr: string, defaultAttr: string, stored: Option<string>, k: nat)
      returns (left: string, found: string)
    ensures found == left
    ensures left in ThemeList(themesAttr) <==>
            k > 0 || InitialChoice(ThemeList(themesAttr), stored, defaultAttr) in ThemeList(themesAttr)
    ensures stored.Some? && stored.value in ThemeList(themesAttr) ==>
              left == Clicked(ThemeList(themesAttr), stored.value, k)
  {
    var page := new Switcher(themesAttr, defaultAttr, "", stored);
    page.ClickTimes(k);
    left := page.cur;
    var again := new Switcher(themesAttr, defaultAttr, "", page.saved);
    found := again.cur;
  }

  predicate Distinct(themes: seq<string>) {
    forall i, j :: 0 <= i < j < |themes| ==> themes[i] != themes[j]
  }

  lemma SmallMod(p: nat, n: nat)
    requires p <= n && n > 0
    ensures p % n == if p == n then 0 else p
  {
  }

  // A click moves one position on, from the last back to the first.
  lemma NextPosition(themes: seq<string>, i: nat)
    requires Distinct(themes) && i < |themes|
    ensures NextTheme(themes, themes[i]) == themes[if i + 1 == |themes| then 0 else i + 1]
  {
    var j := IndexOf(themes, themes[i]);
    assert themes[i] in themes;
    assert themes[j] == themes[i] && j == i;
    SmallMod(i + 1, |themes|);
  }

  // The position k clicks after i, k up to one full turn.
  function Turn(i: nat, k: nat, n: nat): nat
    requires i < n && k <= n
  {
    if i + k < n then i + k else i + k - n
  }

  // k clicks lead k places on, from the last place back to the first.
  lemma {:induction false} ClickedPosition(themes: seq<string>, i: nat, k: nat)
    requires Distinct(themes) && i < |themes| && k <= |themes|
    ensures Clicked(themes, themes[i], k) == themes[if i + k < |themes| then i + k else i + k - |themes|]
    decreases k
  {
    hide NextTheme, Distinct;
    if k > 0 {
      var p := Turn(i, k - 1, |themes|);
      ClickedPosition(themes, i, k - 1);
      NextPosition(themes, p);
      assert Turn(i, k, |themes|) == if p + 1 == |themes| then 0 else p + 1;
    }
  }

  lemma ReachesAll(themes: seq<string>, i: nat, j: nat)
    requires Distinct(themes) && i < |themes| && j < |themes|
    ensures exists k :: 1 <= k <= |themes| && Clicked(themes, themes[i], k) == themes[j]
  {
    hide NextTheme, Clicked;
    var k := if j > i then j - i else j + |themes| - i;
    ClickedPosition(themes, i, k);
  }

  lemma NeverTwice(themes: seq<string>, i: nat, a: nat, b: nat)
    requires Distinct(themes) && i < |themes| && 1 <= a < b <= |themes|
    ensures Clicked(themes, themes[i], a) != Clicked(themes, themes[i], b)
  {
    var x, y := Turn(i, a, |themes|), Turn(i, b, |themes|);
    ClickedPosition(themes, i, a);
    ClickedPosition(themes, i, b);
    assert x != y;
  }

  // From any theme of the list, as many clicks as there are themes visit each
  // theme exactly once and end where they began.
  lemma FullCycle(themes: seq<string>, cur: string, theme: string)
    requires Distinct(themes) && cur in themes && theme in themes
    ensures Clicked(themes, cur, |themes|) == cur
    ensures exists k :: 1 <= k <= |themes| && Clicked(themes, cur, k) == theme
    ensures forall a: nat, b: nat :: 1 <= a < b <= |themes| ==> Clicked(themes, cur, a) != Clicked(themes, cur, b)
  {
    var i :| 0 <= i < |themes| && themes[i] == cur;
    var j :| 0 <= j < |themes| && themes[j] == theme;
    ClickedPosition(themes, i, |themes|);
    ReachesAll(themes, i, j);
    forall a: nat, b: nat | 1 <= a < b <= |themes|
      ensures Clicked(themes, cur, a) != Clicked(themes, cur, b)
    {
      NeverTwice(themes, i, a, b);
    }
  }

  // A theme that is not in the list leads to its first entry.
  lemma UnknownThemeRestarts(themes: seq<string>, cur: string)
    requires |themes| > 0 && cur !in themes
    ensures NextTheme(themes, cur) == themes[0]
  {
    SmallMod(0, |themes|);
  }

  // Without the attribute the list is the base theme alone.
  lemma NoThemesAttribute()
    ensures ThemeList("") == ["rake"]
  {
    assert ',' !in BASE_THEME;
  }

  // With what the server renders, the page's list is the server's, without
  // duplicates, and the theme it opens with is in it whatever was saved.
  lemma PageAgrees(cfg: ThemeConfig, ts: ThemeState, saved: Option<string>)
    requires Resolved(cfg, ts) && forall n <- ts.names :: ValidName(n)
    ensures ThemeList(Join(ts.names, ',')) == ts.names && Distinct(ts.names)
    ensures InitialChoice(ts.names, saved, ts.defaultTheme) in ts.names
  {
    ClientSeesNames(ts);
    ResolvedThemes(cfg, ts);
    assert ValidName(ts.defaultTheme);
  }
}
