// Themes from directory listing to browser: names and files
// (internal/config/config.go, internal/handler/themes.go) and the list the page gets.
module Themes {
  import opened Text

  const BASE_THEME := "rake"

  // What a directory holds under a name: a listing tells directories from the rest,
  // but only following a link shows where it leads.
  datatype Kind = Plain | Directory | Link(target: Target)

  datatype Target = ToFile | ToDirectory | Nowhere

  datatype Entry = Entry(name: string, kind: Kind)

  datatype ThemeConfig = ThemeConfig(deflt: string, forced: string, dir: string)

  datatype ThemeState = ThemeState(
    names: seq<string>, files: seq<string>, initial: string, defaultTheme: string, forcedTheme: string)

  predicate StartChar(c: char) {
    'a' <= c <= 'z' || '0' <= c <= '9'
  }

  predicate NameChar(c: char) {
    StartChar(c) || c == '_' || c == '-'
  }

  // ^[a-z0-9][a-z0-9_-]*$
  predicate ValidName(name: string) {
    name != "" && StartChar(name[0]) && forall i :: 1 <= i < |name| ==> NameChar(name[i])
  }

  // [a-z0-9_-]*\.css$
  predicate FileTail(s: string) {
    s == ".css" || (s != "" && NameChar(s[0]) && FileTail(s[1..]))
  }

  // ^[a-z0-9][a-z0-9_-]*\.css$
  predicate ThemeFile(s: string) {
    s != "" && StartChar(s[0]) && FileTail(s[1..])
  }

  predicate NameChars(s: string, n: nat)
    requires n <= |s|
  {
    forall i :: 0 <= i < n ==> NameChar(s[i])
  }

  lemma NameCharsStep(s: string, n: nat)
    requires 1 <= n <= |s|
    ensures NameChars(s, n) <==> NameChar(s[0]) && NameChars(s[1..], n - 1)
  {
    assert forall i :: 1 <= i < n ==> s[i] == s[1..][i - 1];
  }

  lemma {:induction false} FileTailMeaning(s: string)
    ensures FileTail(s) <==> |s| >= 4 && s[|s| - 4..] == ".css" && NameChars(s, |s| - 4)
    decreases |s|
  {
    assert NameChars(s, 0);
    hide NameChar, NameChars;
    if s != "" {
      FileTailMeaning(s[1..]);
      if |s| > 4 {
        assert s[1..][|s| - 5..] == s[|s| - 4..];
        NameCharsStep(s, |s| - 4);
      } else if |s| == 4 {
        assert s[0..] == s;
      }
    }
  }

  // The files accepted are exactly the valid names with ".css" behind.
  lemma ThemeFileMeaning(s: string)
    ensures ThemeFile(s) <==> |s| > 4 && s == s[..|s| - 4] + ".css" && ValidName(s[..|s| - 4])
    ensures ThemeFile(s) <==>
            && |s| > 4 && s[|s| - 4..] == ".css"
            && forall i :: 0 <= i < |s| - 4 ==>
                 'a' <= s[i] <= 'z' || '0' <= s[i] <= '9' || (i > 0 && (s[i] == '_' || s[i] == '-'))
  {
    if s != "" {
      FileTailMeaning(s[1..]);
      if |s| > 4 {
        var base := s[..|s| - 4];
        assert s[1..][|s| - 5..] == s[|s| - 4..];
        assert s == base + s[|s| - 4..];
        assert forall i :: 1 <= i < |base| ==> base[i] == s[1..][i - 1];
        assert forall i :: 0 <= i < |s| - 5 ==> s[1..][i] == base[i + 1];
      }
    }
  }

  lemma NamePlusCss(name: string)
    ensures ThemeFile(name + ".css") <==> ValidName(name)
  {
    var s := name + ".css";
    ThemeFileMeaning(s);
    assert s[..|s| - 4] == name;
    if name == "" {
      assert !StartChar(s[0]);
    }
  }

  // No separator and no dot segment survives the file pattern.
  lemma ThemeFileIsPlain(s: string)
    requires ThemeFile(s)
    ensures '/' !in s && '\\' !in s && s[0] != '.' && ',' !in s
  {
    ThemeFileMeaning(s);
    var base := s[..|s| - 4];
    assert forall i :: 0 <= i < |s| ==> s[i] == (base + ".css")[i];
    assert forall i :: 0 <= i < |base| ==> NameChar(base[i]);
  }

  // themeName
  function ThemeName(e: Entry): Option<string> {
    if !e.kind.Directory? && ThemeFile(e.name) && |e.name| >= 4 then Some(e.name[..|e.name| - 4]) else None
  }

  lemma ThemeNameMeaning(e: Entry, name: string)
    ensures ThemeName(e) == Some(name) <==> !e.kind.Directory? && ValidName(name) && e.name == name + ".css"
  {
    ThemeFileMeaning(e.name);
    NamePlusCss(name);
    assert (name + ".css")[..|name + ".css"| - 4] == name;
  }

  // ---------------------------------------------------------------------------
  // Order

  // Byte order of strings.
  predicate Less(a: string, b: string) {
    b != "" && (a == "" || a[0] < b[0] || (a[0] == b[0] && Less(a[1..], b[1..])))
  }

  // At the first difference the smaller byte, or the end, comes first.
  lemma {:induction false} LessMeaning(a: string, b: string, k: nat)
    requires k <= |a| && k <= |b| && a[..k] == b[..k]
    requires k < |a| && k < |b| ==> a[k] != b[k]
    requires k == |a| || k == |b| || a[k] != b[k]
    ensures Less(a, b) <==> k < |b| && (k == |a| || a[k] < b[k])
    decreases k
  {
    if k > 0 {
      assert a[0] == a[..k][0] == b[..k][0] == b[0];
      assert a[1..][..k - 1] == a[..k][1..] && b[1..][..k - 1] == b[..k][1..];
      LessMeaning(a[1..], b[1..], k - 1);
    }
  }

  lemma {:induction false} LessTotal(a: string, b: string)
    ensures a == b || Less(a, b) || Less(b, a)
    decreases |a|
  {
    if a != "" && b != "" && a[0] == b[0] {
      LessTotal(a[1..], b[1..]);
      assert a == [a[0]] + a[1..] && b == [b[0]] + b[1..];
    }
  }

  lemma {:induction false} LessTransitive(a: string, b: string, c: string)
    requires Less(a, b) && Less(b, c)
    ensures Less(a, c)
    decreases |a|
  {
    if a != "" && a[0] == b[0] == c[0] {
      LessTransitive(a[1..], b[1..], c[1..]);
    }
  }

  lemma {:induction false} LessIrreflexive(a: string)
    ensures !Less(a, a)
    decreases |a|
  {
    if a != "" {
      LessIrreflexive(a[1..]);
    }
  }

  predicate Sorted(names: seq<string>) {
    forall i, j :: 0 <= i < j < |names| ==> Less(names[i], names[j])
  }

  // A strictly sorted list is determined by its members.
  lemma {:induction false} SortedUnique(a: seq<string>, b: seq<string>)
    requires Sorted(a) && Sorted(b) && forall n :: n in a <==> n in b
    ensures a == b
    decreases |a|
  {
    assert b != [] ==> b[0] in b;
    if a != [] {
      assert a[0] in a && b != [];
      assert b[0] in a && a[0] in b;
      var i :| 0 <= i < |a| && a[i] == b[0];
      var j :| 0 <= j < |b| && b[j] == a[0];
      if i > 0 && j > 0 {
        LessTransitive(a[0], a[i], b[j]);
        LessIrreflexive(a[0]);
      }
      assert a[0] == b[0];
      forall n
        ensures n in a[1..] <==> n in b[1..]
      {
        LessIrreflexive(a[0]);
        assert n in a <==> n == a[0] || n in a[1..];
        assert n in b <==> n == b[0] || n in b[1..];
      }
      SortedUnique(a[1..], b[1..]);
      assert a == [a[0]] + a[1..] && b == [b[0]] + b[1..];
    }
  }

  lemma InsertedSorted(sorted: seq<string>, i: nat, name: string)
    requires Sorted(sorted) && i <= |sorted|
    requires forall k :: 0 <= k < i ==> Less(sorted[k], name)
    requires forall k :: i <= k < |sorted| ==> Less(name, sorted[k])
    ensures Sorted(sorted[..i] + [name] + sorted[i..])
  {
    var r := sorted[..i] + [name] + sorted[i..];
    forall x, y | 0 <= x < y < |r|
      ensures Less(r[x], r[y])
    {
      var u := if x < i then x else x - 1;
      var v := if y < i then y else y - 1;
      assert x != i ==> r[x] == sorted[u];
      assert y != i ==> r[y] == sorted[v];
    }
  }

  lemma InsertedMembers<T>(s: seq<T>, i: nat, x: T)
    requires i <= |s|
    ensures forall n :: n in s[..i] + [x] + s[i..] <==> n == x || n in s
  {
    assert s == s[..i] + s[i..];
  }

  // The place of a new name in a strictly sorted list.
  method Insert(sorted: seq<string>, name: string) returns (r: seq<string>)
    requires Sorted(sorted) && name !in sorted
    ensures Sorted(r) && forall n :: n in r <==> n == name || n in sorted
  {
    var i := 0;
    while i < |sorted| && Less(sorted[i], name)
      invariant i <= |sorted|
      invariant forall k :: 0 <= k < i ==> Less(sorted[k], name)
    {
      i := i + 1;
    }
    forall k | i <= k < |sorted|
      ensures Less(name, sorted[k])
    {
      assert sorted[i] in sorted;
      LessTotal(sorted[i], name);
      if i < k {
        LessTransitive(name, sorted[i], sorted[k]);
      }
    }
    InsertedSorted(sorted, i, name);
    InsertedMembers(sorted, i, name);
    r := sorted[..i] + [name] + sorted[i..];
  }

  // The names of a set, from its iteration in any order, then sorted.
  method SortedNames(names: set<string>) returns (files: seq<string>)
    ensures Sorted(files) && forall n :: n in files <==> n in names
  {
    files := [];
    var todo := names;
    while todo != {}
      invariant todo <= names && Sorted(files)
      invariant forall n :: n in files <==> n in names && n !in todo
      decreases todo
    {
      var name :| name in todo;
      files := Insert(files, name);
      todo := todo - {name};
    }
  }

  // ---------------------------------------------------------------------------
  // Discovery

  // The listings looked at: the embedded themes, then the overlay when configured.
  // None is an unreadable directory.
  function Listed(cfg: ThemeConfig, embedded: Option<seq<Entry>>, overlay: Option<seq<Entry>>): seq<Entry> {
    (if embedded.Some? then embedded.value else [])
    + (if cfg.dir != "" && overlay.Some? then overlay.value else [])
  }

  predicate HasTheme(entries: seq<Entry>, name: string) {
    exists i :: 0 <= i < |entries| && ThemeName(entries[i]) == Some(name)
  }

  // Which theme is shown to whom.
  ghost predicate Resolved(cfg: ThemeConfig, ts: ThemeState) {
    && ts.names == [BASE_THEME] + ts.files
    && BASE_THEME !in ts.files && Sorted(ts.files)
    && ts.defaultTheme == (if cfg.deflt in ts.names then cfg.deflt else BASE_THEME)
    && ts.forcedTheme == (if cfg.forced in ts.names then cfg.forced else "")
    && ts.initial == (if cfg.forced in ts.names then cfg.forced else ts.defaultTheme)
  }

  method Discover(cfg: ThemeConfig, embedded: Option<seq<Entry>>, overlay: Option<seq<Entry>>) returns (ts: ThemeState)
    ensures Resolved(cfg, ts)
    ensures forall n :: n in ts.files <==> n != BASE_THEME && HasTheme(Listed(cfg, embedded, overlay), n)
    ensures forall n :: n in ts.names ==> ValidName(n)
  {
    var entries := Listed(cfg, embedded, overlay);
    var fileSet: set<string> := {};
    var known := {BASE_THEME};
    for i := 0 to |entries|
      invariant known == {BASE_THEME} + fileSet && BASE_THEME !in fileSet
      invariant forall n :: n in fileSet <==> n != BASE_THEME && HasTheme(entries[..i], n)
      invariant forall n :: n in fileSet ==> ValidName(n)
    {
      var found := ThemeName(entries[i]);
      assert entries[..i + 1] == entries[..i] + [entries[i]];
      ghost var before := entries[..i];
      assert forall n :: HasTheme(entries[..i + 1], n) <==> HasTheme(before, n) || found == Some(n) by {
        HasThemeSnoc(before, entries[i]);
      }
      if found.Some? {
        var name := found.value;
        ThemeNameMeaning(entries[i], name);
        if name != BASE_THEME && ValidName(name) {
          known := known + {name};
          fileSet := fileSet + {name};
        }
      }
    }
    assert entries[..|entries|] == entries;
    var files := SortedNames(fileSet);
    var names := [BASE_THEME] + files;
    assert forall n :: n in names <==> n in known;
    var defaultTheme := if cfg.deflt in known then cfg.deflt else BASE_THEME;
    var forcedTheme := "";
    if cfg.forced != "" && cfg.forced in known {
      forcedTheme := cfg.forced;
    }
    var initial := defaultTheme;
    if forcedTheme != "" {
      initial := forcedTheme;
    }
    ts := ThemeState(names, files, initial, defaultTheme, forcedTheme);
  }

  // A theme is listed when the program has it or, if configured, the overlay.
  lemma ListedIn(cfg: ThemeConfig, embedded: Option<seq<Entry>>, overlay: Option<seq<Entry>>)
    ensures forall n :: HasTheme(Listed(cfg, embedded, overlay), n) <==>
              || (embedded.Some? && HasTheme(embedded.value, n))
              || (cfg.dir != "" && overlay.Some? && HasTheme(overlay.value, n))
  {
    var entries := Listed(cfg, embedded, overlay);
    var k := if embedded.Some? then |embedded.value| else 0;
    assert forall i :: 0 <= i < k ==> entries[i] == embedded.value[i];
    assert forall i :: k <= i < |entries| ==> entries[i] == overlay.value[i - k];
    forall n | cfg.dir != "" && overlay.Some? && HasTheme(overlay.value, n)
      ensures HasTheme(entries, n)
    {
      var i :| 0 <= i < |overlay.value| && ThemeName(overlay.value[i]) == Some(n);
      assert entries[k + i] == overlay.value[i];
    }
  }

  lemma HasThemeSnoc(entries: seq<Entry>, e: Entry)
    ensures forall n :: HasTheme(entries + [e], n) <==> HasTheme(entries, n) || ThemeName(e) == Some(n)
  {
    var all := entries + [e];
    assert all[|entries|] == e;
    assert forall i :: 0 <= i < |entries| ==> all[i] == entries[i];
  }

  // What the page relies on: the list has no duplicates, and every theme it names
  // or starts with is in it.
  lemma ResolvedThemes(cfg: ThemeConfig, ts: ThemeState)
    requires Resolved(cfg, ts)
    ensures |ts.names| > 0 && ts.names[0] == "rake"
    ensures forall i, j :: 0 <= i < j < |ts.names| ==> ts.names[i] != ts.names[j]
    ensures ts.defaultTheme in ts.names && ts.initial in ts.names
    ensures ts.forcedTheme == "" || (ts.forcedTheme in ts.names && ts.initial == ts.forcedTheme)
  {
    assert ts.names[0] == BASE_THEME;
    forall i, j | 0 <= i < j < |ts.names|
      ensures ts.names[i] != ts.names[j]
    {
      if i > 0 {
        LessIrreflexive(ts.names[i]);
        assert ts.files[i - 1] == ts.names[i] && ts.files[j - 1] == ts.names[j];
      } else {
        assert ts.files[j - 1] == ts.names[j];
      }
    }
  }

  // The browser's split of the attribute the server joined gives the names back.
  lemma ClientSeesNames(ts: ThemeState)
    requires |ts.names| > 0 && forall n <- ts.names :: ValidName(n)
    ensures Join(ts.names, ',') != "" && Split(Join(ts.names, ','), ',') == ts.names
  {
    assert ts.names[0] in ts.names;
    forall n | n in ts.names
      ensures ',' !in n
    {
      assert forall i :: 0 <= i < |n| ==> NameChar(n[i]);
    }
    SplitJoin(ts.names, ',');
  }

  // ---------------------------------------------------------------------------
  // Serving

  datatype Served = FromOverlay | FromEmbedded | AppShell

  // os.Stat finds a file.
  predicate ReachesFile(e: Entry) {
    e.kind == Plain || e.kind == Link(ToFile)
  }

  predicate HasFile(entries: Option<seq<Entry>>, name: string) {
    entries.Some? && exists e <- entries.value :: e.name == name && ReachesFile(e)
  }

  // A request for /themes/<base>: the overlay first, then the embedded file.
  function Serve(cfg: ThemeConfig, embedded: Option<seq<Entry>>, overlay: Option<seq<Entry>>, base: string): Served {
    if cfg.dir != "" && ThemeFile(base) && HasFile(overlay, base) then FromOverlay
    else if HasFile(embedded, base) then FromEmbedded
    else AppShell
  }

  // The overlay has precedence, but for names of theme files only.
  lemma OverlayFirst(cfg: ThemeConfig, embedded: Option<seq<Entry>>, overlay: Option<seq<Entry>>, base: string)
    ensures Serve(cfg, embedded, overlay, base) == FromOverlay <==>
            && cfg.dir != "" && (exists name :: ValidName(name) && base == name + ".css") && overlay.Some?
            && exists e <- overlay.value :: e.name == base && e.kind in {Plain, Link(ToFile)}
    ensures Serve(cfg, embedded, overlay, base) != FromOverlay ==>
              (Serve(cfg, embedded, overlay, base) == FromEmbedded <==>
               embedded.Some? && exists e <- embedded.value :: e.name == base && e.kind in {Plain, Link(ToFile)})
  {
    ThemeFileMeaning(base);
    if name :| ValidName(name) && base == name + ".css" {
      NamePlusCss(name);
    }
  }

  // A link that discovery takes for a file and serving does not.
  predicate IsDeadLink(e: Entry, name: string) {
    e.name == name + ".css" && (e.kind == Link(ToDirectory) || e.kind == Link(Nowhere))
  }

  // A valid theme name that has a stylesheet to serve is listed at that moment,
  // whether or not the directories are as they were at discovery; and one that is
  // listed has a stylesheet unless all there is under its name are dead links.
  lemma ListedThemesAreServed(cfg: ThemeConfig, embedded: Option<seq<Entry>>, overlay: Option<seq<Entry>>, name: string)
    requires ValidName(name)
    ensures var entries := Listed(cfg, embedded, overlay);
            Serve(cfg, embedded, overlay, name + ".css") != AppShell <==>
            && HasTheme(entries, name)
            && !forall e <- entries :: ThemeName(e) == Some(name) ==> IsDeadLink(e, name)
  {
    NamePlusCss(name);
    var entries := Listed(cfg, embedded, overlay);
    var n := if embedded.Some? then |embedded.value| else 0;
    assert forall i :: 0 <= i < n ==> entries[i] == embedded.value[i];
    assert forall i :: n <= i < |entries| ==> entries[i] == overlay.value[i - n];
    FileAmong(entries, name);
    assert (exists e <- entries :: e.name == name + ".css" && ReachesFile(e)) <==>
      HasFile(embedded, name + ".css") || (cfg.dir != "" && HasFile(overlay, name + ".css"));
  }

  lemma FileAmong(entries: seq<Entry>, name: string)
    requires ValidName(name)
    ensures (exists e <- entries :: e.name == name + ".css" && ReachesFile(e)) <==>
            && HasTheme(entries, name)
            && !forall e <- entries :: ThemeName(e) == Some(name) ==> IsDeadLink(e, name)
  {
    forall i | 0 <= i < |entries|
      ensures ThemeName(entries[i]) == Some(name) <==>
              entries[i].name == name + ".css" && (ReachesFile(entries[i]) || IsDeadLink(entries[i], name))
    {
      ThemeNameMeaning(entries[i], name);
      match entries[i].kind {
        case Link(ToFile) =>
        case Link(ToDirectory) =>
        case Link(Nowhere) =>
        case _ =>
      }
    }
  }

  // The one way a listed theme has nothing behind its URL: the page is told of a
  // theme whose stylesheet is a broken link, and gets the application shell for it.
  lemma DeadLinkListed(cfg: ThemeConfig)
    requires cfg.dir != ""
    ensures var overlay := Some([Entry("a.css", Link(Nowhere))]);
            HasTheme(Listed(cfg, None, overlay), "a") && Serve(cfg, None, overlay, "a.css") == AppShell
  {
    var overlay := Some([Entry("a.css", Link(Nowhere))]);
    assert "a" + ".css" == "a.css";
    ThemeNameMeaning(overlay.value[0], "a");
    assert Listed(cfg, None, overlay)[0] == overlay.value[0];
  }

  // Themes found in the program itself stay listed and served whatever becomes of
  // the overlay.
  lemma EmbeddedThemesStay(cfg: ThemeConfig, embedded: Option<seq<Entry>>, overlay: Option<seq<Entry>>,
                           later: Option<seq<Entry>>, name: string)
    requires ValidName(name) && HasFile(embedded, name + ".css")
    ensures HasTheme(Listed(cfg, embedded, overlay), name)
    ensures Serve(cfg, embedded, later, name + ".css") != AppShell
  {
    ListedThemesAreServed(cfg, embedded, overlay, name);
  }
}
