// Pronounceable paste keys (Phonetic in internal/keygen/keygen.go). Randomness is
// a tape of draws: the k-th call randInt(n) returns rand(k) % n.
module PhoneticKeys {

  // Letters and syllable templates; 'c' marks a consonant slot.
  datatype Alphabet = Alphabet(vowels: string, consonants: string, templates: seq<string>)

  predicate Usable(g: Alphabet) {
    |g.vowels| > 0 && |g.consonants| > 0 && |g.templates| > 0
    && forall i :: 0 <= i < |g.templates| ==> |g.templates[i]| > 0
  }

  type Grammar = g: Alphabet | Usable(g) witness Alphabet("a", "b", ["c"])

  const VOWELS := "aeiou"
  const CONSONANTS := "bcdfghjklmnpqrstvwxyz"
  const TEMPLATES := ["cv", "cvc", "vc", "cvv", "ccv"]

  const ENGLISH: Grammar := Alphabet(VOWELS, CONSONANTS, TEMPLATES)

  type Tape = nat -> nat

  // randInt(n) on a draw.
  function Pick(draw: nat, n: nat): (i: nat)
    requires n > 0
    ensures i < n
    ensures draw < n ==> i == draw
  {
    draw % n
  }

  // The letter a draw puts into a template slot.
  function Letter(g: Grammar, slot: char, draw: nat): char {
    if slot == 'c' then g.consonants[Pick(draw, |g.consonants|)] else g.vowels[Pick(draw, |g.vowels|)]
  }

  function Template(g: Grammar, draw: nat): (t: string)
    ensures |t| > 0
  {
    g.templates[Pick(draw, |g.templates|)]
  }

  // A template filled from draw number pos on, cut off after room letters.
  function Fill(g: Grammar, rand: Tape, pos: nat, template: string, room: nat): (s: string)
    ensures |s| == if |template| < room then |template| else room
    decreases |template|
  {
    if template == "" || room == 0 then ""
    else [Letter(g, template[0], rand(pos))] + Fill(g, rand, pos + 1, template[1..], room - 1)
  }

  function Phonetic(g: Grammar, rand: Tape, pos: nat, room: nat): (key: string)
    ensures |key| == room
    decreases room
  {
    if room == 0 then ""
    else
      var s := Fill(g, rand, pos + 1, Template(g, rand(pos)), room);
      s + Phonetic(g, rand, pos + 1 + |s|, room - |s|)
  }

  // The inner loop of Phonetic.CreateKey: one syllable, as far as there is room.
  method AppendSyllable(g: Grammar, rand: Tape, first: nat, template: string, start: string, length: nat)
      returns (key: string, pos: nat)
    requires |start| <= length
    ensures key == start + Fill(g, rand, first, template, length - |start|)
    ensures pos == first + |key| - |start|
  {
    key, pos := start, first;
    var i := 0;
    while i < |template| && |key| < length
      invariant i <= |template| && |key| == |start| + i <= length && pos == first + i
      invariant key + Fill(g, rand, pos, template[i..], length - |key|)
                == start + Fill(g, rand, first, template, length - |start|)
    {
      assert template[i..][1..] == template[i + 1..];
      key := key + [Letter(g, template[i], rand(pos))];
      pos := pos + 1;
      i := i + 1;
    }
  }

  // Phonetic.CreateKey
  method CreatePhonetic(g: Grammar, rand: Tape, length: nat) returns (key: string)
    ensures key == Phonetic(g, rand, 0, length)
    ensures |key| == length
  {
    key := "";
    var pos := 0;
    while |key| < length
      invariant |key| <= length
      invariant key + Phonetic(g, rand, pos, length - |key|) == Phonetic(g, rand, 0, length)
      decreases length - |key|
    {
      ghost var start, first := key, pos;
      key, pos := AppendSyllable(g, rand, pos + 1, Template(g, rand(pos)), key, length);
      PhoneticStep(g, rand, start, first, key, pos, length);
    }
  }

  lemma PhoneticStep(g: Grammar, rand: Tape, start: string, first: nat, key: string, pos: nat, length: nat)
    requires |start| < length
    requires key == start + Fill(g, rand, first + 1, Template(g, rand(first)), length - |start|)
    requires pos == first + 1 + |key| - |start|
    ensures |start| < |key| <= length
    ensures start + Phonetic(g, rand, first, length - |start|) == key + Phonetic(g, rand, pos, length - |key|)
  {
    var s := Fill(g, rand, first + 1, Template(g, rand(first)), length - |start|);
    assert first + 1 + |s| == pos && length - |start| - |s| == length - |key|;
    assert Phonetic(g, rand, first, length - |start|) == s + Phonetic(g, rand, pos, length - |key|);
  }

  // ---------------------------------------------------------------------------
  // The grammar

  predicate Fits(g: Grammar, c: char, slot: char) {
    if slot == 'c' then c in g.consonants else c in g.vowels
  }

  predicate Matches(g: Grammar, s: string, template: string) {
    |s| == |template| && forall i :: 0 <= i < |s| ==> Fits(g, s[i], template[i])
  }

  predicate IsSyllable(g: Grammar, s: string) {
    exists t <- g.templates :: Matches(g, s, t)
  }

  predicate Syllables(g: Grammar, parts: seq<string>) {
    forall s <- parts :: IsSyllable(g, s)
  }

  function Flatten(parts: seq<string>): string {
    if parts == [] then "" else parts[0] + Flatten(parts[1..])
  }

  lemma {:induction false} FillMatches(g: Grammar, rand: Tape, pos: nat, template: string, room: nat)
    requires room >= |template|
    ensures Matches(g, Fill(g, rand, pos, template, room), template)
    decreases |template|
  {
    if template != "" {
      FillMatches(g, rand, pos + 1, template[1..], room - 1);
      var s := Fill(g, rand, pos, template, room);
      assert Fits(g, s[0], template[0]);
      assert forall i :: 1 <= i < |s| ==> s[i] == s[1..][i - 1] && template[i] == template[1..][i - 1];
    }
  }

  lemma {:induction false} FillPrefix(g: Grammar, rand: Tape, pos: nat, template: string, room: nat)
    ensures Fill(g, rand, pos, template, room) <= Fill(g, rand, pos, template, |template|)
    decreases |template|
  {
    if template != "" && room > 0 {
      FillPrefix(g, rand, pos + 1, template[1..], room - 1);
    }
  }

  lemma TakeConcat(a: string, b: string, n: nat)
    requires n <= |a| + |b|
    ensures (a + b)[..n] == if n <= |a| then a[..n] else a + b[..n - |a|]
  {
  }

  lemma PrefixGoesOn(whole: string, s: string, text: string, next: string, room: nat)
    requires s <= whole && |s| + |next| == room && next <= text
    requires |s| == if |whole| < room then |whole| else room
    ensures room <= |whole + text| && s + next == (whole + text)[..room]
  {
    TakeConcat(whole, text, room);
  }

  lemma FlattenCons(s: string, parts: seq<string>)
    ensures Flatten([s] + parts) == s + Flatten(parts)
  {
    assert ([s] + parts)[1..] == parts;
  }

  // The syllable a draw picks, in full.
  function Syllable(g: Grammar, rand: Tape, pos: nat): string {
    var t := Template(g, rand(pos));
    Fill(g, rand, pos + 1, t, |t|)
  }

  lemma SyllableSound(g: Grammar, rand: Tape, pos: nat, room: nat)
    ensures IsSyllable(g, Syllable(g, rand, pos))
    ensures Fill(g, rand, pos + 1, Template(g, rand(pos)), room) <= Syllable(g, rand, pos)
  {
    var t := Template(g, rand(pos));
    FillMatches(g, rand, pos + 1, t, |t|);
    FillPrefix(g, rand, pos + 1, t, room);
    assert t in g.templates;
  }

  // Whatever the draws, the key is a prefix of a concatenation of syllables.
  lemma {:induction false} PhoneticSound(g: Grammar, rand: Tape, pos: nat, room: nat) returns (parts: seq<string>)
    ensures Syllables(g, parts) && room <= |Flatten(parts)|
    ensures Phonetic(g, rand, pos, room) == Flatten(parts)[..room]
    decreases room
  {
    if room == 0 {
      parts := [];
    } else {
      var s, whole := Fill(g, rand, pos + 1, Template(g, rand(pos)), room), Syllable(g, rand, pos);
      SyllableSound(g, rand, pos, room);
      var next := Phonetic(g, rand, pos + 1 + |s|, room - |s|);
      assert Phonetic(g, rand, pos, room) == s + next;
      var rest := PhoneticSound(g, rand, pos + 1 + |s|, room - |s|);
      parts := [whole] + rest;
      FlattenCons(whole, rest);
      PrefixGoesOn(whole, s, Flatten(rest), next, room);
    }
  }

  predicate Vowel(c: char) {
    c == 'a' || c == 'e' || c == 'i' || c == 'o' || c == 'u'
  }

  predicate Consonant(c: char) {
    'b' <= c <= 'z' && !Vowel(c)
  }

  // The syllables: consonant and vowel, with a letter before or behind, or a vowel
  // and a consonant.
  lemma SyllableMeaning(s: string)
    ensures IsSyllable(ENGLISH, s) <==>
            || (|s| == 2 && Consonant(s[0]) && Vowel(s[1]))
            || (|s| == 3 && Consonant(s[0]) && Vowel(s[1]) && Consonant(s[2]))
            || (|s| == 2 && Vowel(s[0]) && Consonant(s[1]))
            || (|s| == 3 && Consonant(s[0]) && Vowel(s[1]) && Vowel(s[2]))
            || (|s| == 3 && Consonant(s[0]) && Consonant(s[1]) && Vowel(s[2]))
  {
    forall i, slot | 0 <= i < |s|
      ensures Fits(ENGLISH, s[i], slot) <==> if slot == 'c' then Consonant(s[i]) else Vowel(s[i])
    {
      VowelKinds(s[i]);
      ConsonantKinds(s[i]);
    }
    hide Fits, Vowel, Consonant;
    assert TEMPLATES[0] == "cv" && TEMPLATES[1] == "cvc" && TEMPLATES[2] == "vc";
    assert TEMPLATES[3] == "cvv" && TEMPLATES[4] == "ccv";
    assert IsSyllable(ENGLISH, s) <==> exists k :: 0 <= k < 5 && Matches(ENGLISH, s, TEMPLATES[k]);
  }

  lemma VowelKinds(c: char)
    ensures c in VOWELS <==> Vowel(c)
  {
    assert VOWELS[0] == 'a' && VOWELS[1] == 'e' && VOWELS[2] == 'i' && VOWELS[3] == 'o' && VOWELS[4] == 'u';
  }

  lemma ConsonantKinds(c: char)
    ensures c in CONSONANTS <==> Consonant(c)
  {
    if Consonant(c) {
      var n := c as int - 'a' as int;
      var before := if n < 4 then 1 else if n < 8 then 2 else if n < 14 then 3 else if n < 20 then 4 else 5;
      assert CONSONANTS[n - before] == c;
    }
  }

  // ---------------------------------------------------------------------------
  // Every such prefix can come out

  // The draws that spell a syllable: its template, then its letters.
  lemma DrawsFor(g: Grammar, s: string) returns (k: nat, letters: seq<nat>)
    requires IsSyllable(g, s)
    ensures k < |g.templates| && Spells(g, g.templates[k], letters, s)
  {
    var t :| t in g.templates && Matches(g, s, t);
    k :| 0 <= k < |g.templates| && g.templates[k] == t;
    letters := LettersFor(g, t, s);
  }

  lemma LettersFor(g: Grammar, t: string, s: string) returns (letters: seq<nat>)
    requires Matches(g, s, t)
    ensures Spells(g, t, letters, s)
  {
    letters := [];
    for i := 0 to |s|
      invariant |letters| == i
      invariant forall j :: 0 <= j < i ==> Letter(g, t[j], letters[j]) == s[j]
    {
      assert Fits(g, s[i], t[i]);
      var d := DrawFor(g, t[i], s[i]);
      letters := letters + [d];
    }
  }

  lemma DrawFor(g: Grammar, slot: char, c: char) returns (d: nat)
    requires Fits(g, c, slot)
    ensures Letter(g, slot, d) == c
  {
    if slot == 'c' {
      d :| 0 <= d < |g.consonants| && g.consonants[d] == c;
    } else {
      d :| 0 <= d < |g.vowels| && g.vowels[d] == c;
    }
  }

  function TapeOf(draws: seq<nat>): Tape {
    (i: nat) => if i < |draws| then draws[i] else 0
  }

  // From draw number pos on the tape reads like draws.
  predicate Follows(rand: Tape, pos: nat, draws: seq<nat>) {
    forall i :: 0 <= i < |draws| ==> rand(pos + i) == draws[i]
  }

  lemma FollowsSplit(rand: Tape, pos: nat, draws: seq<nat>, n: nat)
    requires Follows(rand, pos, draws) && 1 <= n <= |draws|
    ensures rand(pos) == draws[0]
    ensures Follows(rand, pos + 1, draws[1..n]) && Follows(rand, pos + n, draws[n..])
  {
    assert rand(pos + 0) == draws[0];
    assert forall i :: 0 <= i < n - 1 ==> draws[1..n][i] == draws[i + 1] == rand(pos + (i + 1));
    assert forall i :: 0 <= i < |draws| - n ==> draws[n..][i] == draws[i + n] == rand(pos + (i + n));
  }

  predicate Spells(g: Grammar, template: string, draws: seq<nat>, s: string) {
    |template| == |draws| == |s| && forall i :: 0 <= i < |s| ==> Letter(g, template[i], draws[i]) == s[i]
  }

  function Front(s: string, n: nat): string {
    if n < |s| then s[..n] else s
  }

  lemma {:induction false} FillAt(g: Grammar, rand: Tape, pos: nat, template: string, room: nat, i: nat)
    requires i < |template| && i < room
    ensures Fill(g, rand, pos, template, room)[i] == Letter(g, template[i], rand(pos + i))
    decreases i
  {
    if i > 0 {
      FillAt(g, rand, pos + 1, template[1..], room - 1, i - 1);
    }
  }

  lemma FillSpells(g: Grammar, rand: Tape, pos: nat, template: string, draws: seq<nat>, s: string, room: nat)
    requires Spells(g, template, draws, s) && Follows(rand, pos, draws)
    ensures Fill(g, rand, pos, template, room) == Front(s, room)
  {
    forall i | 0 <= i < |Front(s, room)|
      ensures Fill(g, rand, pos, template, room)[i] == Front(s, room)[i]
    {
      FillAt(g, rand, pos, template, room, i);
      assert rand(pos + i) == draws[i];
    }
  }

  // One syllable: the draw for its template k, then those for its letters.
  lemma SpellFirst(g: Grammar, rand: Tape, pos: nat, room: nat, s: string, k: nat, letters: seq<nat>)
    requires k < |g.templates| && Spells(g, g.templates[k], letters, s)
    requires rand(pos) == k && Follows(rand, pos + 1, letters)
    ensures room <= |s| ==> Phonetic(g, rand, pos, room) == s[..room]
    ensures room > |s| ==> Phonetic(g, rand, pos, room) == s + Phonetic(g, rand, pos + 1 + |s|, room - |s|)
  {
    assert Template(g, k) == g.templates[k];
    FillSpells(g, rand, pos + 1, g.templates[k], letters, s, room);
    if room <= |s| {
      assert Phonetic(g, rand, pos + 1 + room, 0) == "";
    }
  }

  // A syllable in front of a text that the draws behind it spell.
  lemma SpellOnward(g: Grammar, rand: Tape, pos: nat, room: nat, s: string, k: nat, letters: seq<nat>, text: string)
    requires k < |g.templates| && Spells(g, g.templates[k], letters, s)
    requires rand(pos) == k && Follows(rand, pos + 1, letters)
    requires room <= |s| + |text|
    requires room > |s| ==> Phonetic(g, rand, pos + 1 + |s|, room - |s|) == text[..room - |s|]
    ensures Phonetic(g, rand, pos, room) == (s + text)[..room]
  {
    SpellFirst(g, rand, pos, room, s, k, letters);
    TakeConcat(s, text, room);
  }

  // Draws that spell the syllables one after the other.
  predicate Encodes(g: Grammar, draws: seq<nat>, parts: seq<string>)
    decreases |parts|
  {
    if parts == [] then draws == []
    else
      var n := 1 + |parts[0]|;
      && n <= |draws| && draws[0] < |g.templates|
      && Spells(g, g.templates[draws[0]], draws[1..n], parts[0])
      && Encodes(g, draws[n..], parts[1..])
  }

  lemma {:induction false} DrawsForAll(g: Grammar, parts: seq<string>) returns (draws: seq<nat>)
    requires Syllables(g, parts)
    ensures Encodes(g, draws, parts)
    decreases |parts|
  {
    if parts == [] {
      draws := [];
    } else {
      assert IsSyllable(g, parts[0]);
      var k, letters := DrawsFor(g, parts[0]);
      var rest := DrawsForAll(g, parts[1..]);
      draws := [k] + letters + rest;
      assert draws[1..1 + |letters|] == letters && draws[1 + |letters|..] == rest;
    }
  }

  lemma {:induction false} EncodedIsSpelled(g: Grammar, rand: Tape, pos: nat, draws: seq<nat>,
                                            parts: seq<string>, room: nat)
    requires Encodes(g, draws, parts) && Follows(rand, pos, draws) && room <= |Flatten(parts)|
    ensures Phonetic(g, rand, pos, room) == Flatten(parts)[..room]
    decreases |parts|
  {
    if parts != [] {
      var s, n := parts[0], 1 + |parts[0]|;
      FollowsSplit(rand, pos, draws, n);
      if room > |s| {
        EncodedIsSpelled(g, rand, pos + n, draws[n..], parts[1..], room - |s|);
      }
      SpellOnward(g, rand, pos, room, s, draws[0], draws[1..n], Flatten(parts[1..]));
    }
  }

  // Every prefix of every concatenation of syllables is the key for some draws:
  // the generator reaches exactly the grammar.
  lemma PhoneticComplete(g: Grammar, parts: seq<string>, length: nat) returns (draws: seq<nat>)
    requires Syllables(g, parts) && length <= |Flatten(parts)|
    ensures Phonetic(g, TapeOf(draws), 0, length) == Flatten(parts)[..length]
  {
    draws := DrawsForAll(g, parts);
    EncodedIsSpelled(g, TapeOf(draws), 0, draws, parts, length);
  }

  // ---------------------------------------------------------------------------
  // No long runs

  // The run of vowels or of consonants a string ends in.
  datatype Streak = Streak(vowel: bool, len: nat)

  function Extend(r: Streak, c: char): Streak {
    var vowel := c in VOWELS;
    Streak(vowel, if r.vowel == vowel then r.len + 1 else 1)
  }

  function End(s: string, r: Streak): Streak {
    if s == "" then r else End(s[1..], Extend(r, s[0]))
  }

  // No run longer than three, continuing from r.
  predicate Calm(s: string, r: Streak) {
    s == "" || (Extend(r, s[0]).len <= 3 && Calm(s[1..], Extend(r, s[0])))
  }

  lemma {:induction false} CalmAppend(a: string, b: string, r: Streak)
    ensures Calm(a + b, r) <==> Calm(a, r) && Calm(b, End(a, r))
    decreases |a|
  {
    if a == "" {
      assert a + b == b;
    } else {
      assert (a + b)[1..] == a[1..] + b;
      CalmAppend(a[1..], b, Extend(r, a[0]));
    }
  }

  // Between syllables: at most one consonant or two vowels are trailing.
  predicate Relaxed(r: Streak) {
    r.len <= (if r.vowel then 2 else 1)
  }

  lemma LettersApart(c: char)
    ensures c in VOWELS ==> c !in CONSONANTS
  {
    if c in VOWELS {
      assert c == 'a' || c == 'e' || c == 'i' || c == 'o' || c == 'u';
      forall i | 0 <= i < |CONSONANTS|
        ensures CONSONANTS[i] != c
      {
        var d := CONSONANTS[i];
        assert d != 'a' && d != 'e' && d != 'i' && d != 'o' && d != 'u';
      }
    }
  }

  lemma EndCons(s: string, r: Streak)
    requires s != ""
    ensures End(s, r) == End(s[1..], Extend(r, s[0]))
    ensures Calm(s, r) <==> Extend(r, s[0]).len <= 3 && Calm(s[1..], Extend(r, s[0]))
  {
  }

  lemma TwoCalm(s: string, r: Streak)
    requires |s| == 2 && Relaxed(r) && (s[0] in VOWELS) != (s[1] in VOWELS)
    ensures Calm(s, r) && Relaxed(End(s, r))
  {
    EndCons(s, r);
    EndCons(s[1..], Extend(r, s[0]));
  }

  lemma ThreeCalm(s: string, r: Streak)
    requires |s| == 3 && Relaxed(r) && s[0] !in VOWELS && (s[1] in VOWELS || s[2] in VOWELS)
    ensures Calm(s, r) && Relaxed(End(s, r))
  {
    EndCons(s, r);
    EndCons(s[1..], Extend(r, s[0]));
    EndCons(s[1..][1..], Extend(Extend(r, s[0]), s[1]));
  }

  lemma SyllableCalm(s: string, r: Streak)
    requires IsSyllable(ENGLISH, s) && Relaxed(r)
    ensures Calm(s, r) && Relaxed(End(s, r))
  {
    var t :| t in TEMPLATES && Matches(ENGLISH, s, t);
    forall i | 0 <= i < |s|
      ensures s[i] in VOWELS <==> t[i] != 'c'
    {
      assert Fits(ENGLISH, s[i], t[i]);
      LettersApart(s[i]);
    }
    if |s| == 2 {
      TwoCalm(s, r);
    } else {
      ThreeCalm(s, r);
    }
  }

  lemma {:induction false} FlattenCalm(parts: seq<string>, r: Streak)
    requires Syllables(ENGLISH, parts) && Relaxed(r)
    ensures Calm(Flatten(parts), r)
    decreases |parts|
  {
    if parts != [] {
      SyllableCalm(parts[0], r);
      FlattenCalm(parts[1..], End(parts[0], r));
      CalmAppend(parts[0], Flatten(parts[1..]), r);
    }
  }

  lemma {:induction false} CalmHasNoFour(s: string, r: Streak, k: nat)
    requires Calm(s, r) && k + 4 <= |s|
    ensures exists i :: k <= i < k + 4 && s[i] in VOWELS
    ensures exists i :: k <= i < k + 4 && s[i] !in VOWELS
    decreases k
  {
    if k > 0 {
      CalmHasNoFour(s[1..], Extend(r, s[0]), k - 1);
      var i :| k - 1 <= i < k + 3 && s[1..][i] in VOWELS;
      var j :| k - 1 <= j < k + 3 && s[1..][j] !in VOWELS;
      assert s[i + 1] in VOWELS && s[j + 1] !in VOWELS;
    } else {
      var r1 := Extend(r, s[0]);
      var r2 := Extend(r1, s[1]);
      var r3 := Extend(r2, s[2]);
      var r4 := Extend(r3, s[3]);
      var s1 := s[1..];
      var s2 := s1[1..];
      var s3 := s2[1..];
      assert s1[0] == s[1] && s2[0] == s[2] && s3[0] == s[3];
      assert Calm(s1, r1) && Calm(s2, r2) && Calm(s3, r3) && r4.len <= 3;
    }
  }

  // Four letters in a row of any phonetic key are never all vowels nor all
  // consonants.
  lemma NoFourInARow(rand: Tape, length: nat, k: nat)
    requires k + 4 <= length
    ensures var key := Phonetic(ENGLISH, rand, 0, length);
            && (exists i :: k <= i < k + 4 && key[i] in VOWELS)
            && (exists i :: k <= i < k + 4 && key[i] !in VOWELS)
  {
    var key := Phonetic(ENGLISH, rand, 0, length);
    var parts := PhoneticSound(ENGLISH, rand, 0, length);
    var r := Streak(true, 0);
    FlattenCalm(parts, r);
    assert Flatten(parts) == key + Flatten(parts)[length..];
    CalmAppend(key, Flatten(parts)[length..], r);
    CalmHasNoFour(key, r, k);
  }
}
