// How many keys the phonetic generator can produce, counted without a key's being
// counted twice for the ways it falls into syllables, and so why choosing one
// (chooseKey in internal/handler/handler.go) need not go on for ever with it either.
module PhoneticCount {
  import opened Pastes
  import opened PhoneticKeys
  import opened RandomKeys

  predicate IsLetter(c: char) {
    c in VOWELS || c in CONSONANTS
  }

  // The kind of slot a letter goes into.
  function SlotOf(c: char): char {
    if c in VOWELS then 'v' else 'c'
  }

  lemma FitsBySlot(c: char, slot: char)
    requires slot == 'c' || slot == 'v'
    ensures Fits(ENGLISH, c, slot) <==> IsLetter(c) && SlotOf(c) == slot
  {
    LettersApart(c);
  }

  // ---------------------------------------------------------------------------
  // Reading a key letter by letter

  predicate Slots(r: string) {
    forall i :: 0 <= i < |r| ==> r[i] == 'c' || r[i] == 'v'
  }

  // The key reads on where r of the current syllable is still to come.
  predicate Reads(r: string, key: string)
    decreases |key|
  {
    key == ""
    || (r != "" && Fits(ENGLISH, key[0], r[0]) && Reads(r[1..], key[1..]))
    || (r == "" && exists t <- TEMPLATES :: Fits(ENGLISH, key[0], t[0]) && Reads(t[1..], key[1..]))
  }

  lemma {:induction false} PrefixReads(r: string, s: string, parts: seq<string>, key: string)
    requires Matches(ENGLISH, s, r) && Syllables(ENGLISH, parts) && key <= s + Flatten(parts)
    ensures Reads(r, key)
    decreases |key|
  {
    if key != "" {
      if r != "" {
        assert key[0] == s[0] && Fits(ENGLISH, s[0], r[0]);
        assert (s + Flatten(parts))[1..] == s[1..] + Flatten(parts);
        PrefixReads(r[1..], s[1..], parts, key[1..]);
      } else {
        var first, rest := parts[0], parts[1..];
        assert IsSyllable(ENGLISH, first);
        var t :| t in TEMPLATES && Matches(ENGLISH, first, t);
        assert key <= first + Flatten(rest);
        assert key[0] == first[0] && Fits(ENGLISH, first[0], t[0]);
        assert (first + Flatten(rest))[1..] == first[1..] + Flatten(rest);
        PrefixReads(t[1..], first[1..], rest, key[1..]);
      }
    }
  }

  // Letters for the slots still open.
  function Filler(r: string): (s: string)
    ensures Matches(ENGLISH, s, r)
  {
    if r == "" then ""
    else
      var c := if r[0] == 'c' then 'b' else 'a';
      assert VOWELS[0] == 'a' && CONSONANTS[0] == 'b';
      [c] + Filler(r[1..])
  }

  lemma MatchesCons(c: char, s: string, r: string)
    requires r != "" && Fits(ENGLISH, c, r[0]) && Matches(ENGLISH, s, r[1..])
    ensures Matches(ENGLISH, [c] + s, r)
  {
  }

  lemma PrefixCons(key: string, s: string, text: string)
    requires key != "" && key[1..] <= s + text
    ensures key <= ([key[0]] + s) + text
  {
    assert key == [key[0]] + key[1..];
    assert ([key[0]] + s) + text == [key[0]] + (s + text);
  }

  lemma {:induction false} ReadsPrefix(r: string, key: string) returns (s: string, parts: seq<string>)
    requires Reads(r, key)
    ensures Matches(ENGLISH, s, r) && Syllables(ENGLISH, parts) && key <= s + Flatten(parts)
    decreases |key|
  {
    assert Matches(ENGLISH, "", "");
    hide Matches, Flatten, Fits;
    if key == "" {
      s, parts := Filler(r), [];
    } else if r != "" {
      s, parts := ReadsPrefix(r[1..], key[1..]);
      MatchesCons(key[0], s, r);
      PrefixCons(key, s, Flatten(parts));
      s := [key[0]] + s;
    } else {
      var t :| t in TEMPLATES && Fits(ENGLISH, key[0], t[0]) && Reads(t[1..], key[1..]);
      s, parts := ReadsPrefix(t[1..], key[1..]);
      MatchesCons(key[0], s, t);
      PrefixCons(key, s, Flatten(parts));
      FlattenCons([key[0]] + s, parts);
      s, parts := "", [[key[0]] + s] + parts;
      assert s + Flatten(parts) == Flatten(parts);
    }
  }

  // The keys that come out are those that read through.
  lemma ProducedReads(rand: Tape, n: nat)
    ensures Reads("", Phonetic(ENGLISH, rand, 0, n))
  {
    var parts := PhoneticSound(ENGLISH, rand, 0, n);
    PrefixReads("", "", parts, Phonetic(ENGLISH, rand, 0, n));
  }

  lemma ReadsProduced(key: string) returns (draws: seq<nat>)
    requires Reads("", key)
    ensures Phonetic(ENGLISH, TapeOf(draws), 0, |key|) == key
  {
    var s, parts := ReadsPrefix("", key);
    assert s + Flatten(parts) == Flatten(parts);
    draws := PhoneticComplete(ENGLISH, parts, |key|);
  }

  // ---------------------------------------------------------------------------
  // All ways to read a key at once

  // Where each of the places r can be after a letter for the slot.
  function Derive(places: set<string>, slot: char): set<string> {
    (set r | r in places && r != "" && r[0] == slot :: r[1..])
    + (if "" in places then set t | t in TEMPLATES && t[0] == slot :: t[1..] else {})
  }

  // The key reads on from one of the places, decided letter by letter.
  predicate Accepts(places: set<string>, key: string)
    decreases |key|
  {
    if key == "" then places != {}
    else IsLetter(key[0]) && Accepts(Derive(places, SlotOf(key[0])), key[1..])
  }

  predicate AllSlots(places: set<string>) {
    forall r <- places :: Slots(r)
  }

  lemma TemplateSlots(t: string)
    requires t in TEMPLATES
    ensures t != "" && Slots(t) && Slots(t[1..])
  {
  }

  lemma DeriveSlots(places: set<string>, slot: char)
    requires AllSlots(places)
    ensures AllSlots(Derive(places, slot))
  {
    forall t | t in TEMPLATES
      ensures Slots(t[1..])
    {
      TemplateSlots(t);
    }
  }

  lemma ReadsStep(places: set<string>, key: string)
    requires AllSlots(places) && key != ""
    ensures (exists r <- places :: Reads(r, key)) <==>
            IsLetter(key[0]) && exists r <- Derive(places, SlotOf(key[0])) :: Reads(r, key[1..])
  {
    var slot := SlotOf(key[0]);
    FitsBySlot(key[0], 'c');
    FitsBySlot(key[0], 'v');
    if r :| r in places && Reads(r, key) {
      if r != "" {
        assert r[1..] in Derive(places, slot);
      } else {
        var t :| t in TEMPLATES && Fits(ENGLISH, key[0], t[0]) && Reads(t[1..], key[1..]);
        TemplateSlots(t);
        assert t[1..] in Derive(places, slot);
      }
    }
    if IsLetter(key[0]) {
      if r' :| r' in Derive(places, slot) && Reads(r', key[1..]) {
        if r :| r in places && r != "" && r[0] == slot && r[1..] == r' {
          assert Reads(r, key);
        } else {
          var t :| t in TEMPLATES && t[0] == slot && t[1..] == r';
          assert Reads("", key);
        }
      }
    }
  }

  lemma {:induction false} AcceptsIsReads(places: set<string>, key: string)
    requires AllSlots(places)
    ensures Accepts(places, key) <==> exists r <- places :: Reads(r, key)
    decreases |key|
  {
    if key == "" {
      if r :| r in places {
        assert Reads(r, key);
      }
    } else {
      ReadsStep(places, key);
      DeriveSlots(places, SlotOf(key[0]));
      AcceptsIsReads(Derive(places, SlotOf(key[0])), key[1..]);
    }
  }

  // The generator produces precisely the keys accepted.
  lemma AcceptedIsProduced(key: string)
    ensures Accepts({""}, key) <==> exists draws: seq<nat> :: Phonetic(ENGLISH, TapeOf(draws), 0, |key|) == key
  {
    AcceptsIsReads({""}, key);
    if Accepts({""}, key) {
      var draws := ReadsProduced(key);
    }
    forall draws: seq<nat> | Phonetic(ENGLISH, TapeOf(draws), 0, |key|) == key
      ensures Accepts({""}, key)
    {
      ProducedReads(TapeOf(draws), |key|);
      assert "" in {""};
    }
  }

  // ---------------------------------------------------------------------------
  // Counting

  // How many keys of length n read on from the places: 21 consonants or 5 vowels
  // come first.
  function Count(places: set<string>, n: nat): nat
    decreases n
  {
    if n == 0 then if places == {} then 0 else 1
    else |CONSONANTS| * Count(Derive(places, 'c'), n - 1) + |VOWELS| * Count(Derive(places, 'v'), n - 1)
  }

  function Prefixed(c: char, keys: set<string>): set<string> {
    set k | k in keys :: [c] + k
  }

  // The keys with one of the letters put in front.
  function Headed(letters: string, keys: set<string>): set<string> {
    if letters == "" then {} else Prefixed(letters[0], keys) + Headed(letters[1..], keys)
  }

  // A consonant before a key of one set, or a vowel before a key of the other.
  function Lettered(a: set<string>, b: set<string>): set<string> {
    Headed(CONSONANTS, a) + Headed(VOWELS, b)
  }

  function Accepted(places: set<string>, n: nat): set<string>
    decreases n
  {
    if n == 0 then if places == {} then {} else {""}
    else Lettered(Accepted(Derive(places, 'c'), n - 1), Accepted(Derive(places, 'v'), n - 1))
  }

  lemma {:induction false} HeadedMembers(letters: string, keys: set<string>, key: string)
    ensures key in Headed(letters, keys) <==> key != "" && key[0] in letters && key[1..] in keys
    decreases |letters|
  {
    if letters != "" {
      HeadedMembers(letters[1..], keys, key);
      assert key in Prefixed(letters[0], keys) <==> key != "" && key[0] == letters[0] && key[1..] in keys by {
        if key != "" {
          assert key == [key[0]] + key[1..];
        }
      }
    }
  }

  lemma {:induction false} PrefixedSize(c: char, keys: set<string>)
    ensures |Prefixed(c, keys)| == |keys|
    decreases |keys|
  {
    if keys != {} {
      var k :| k in keys;
      PrefixedSize(c, keys - {k});
      assert Prefixed(c, keys) == Prefixed(c, keys - {k}) + {[c] + k};
      forall j | j in keys - {k}
        ensures [c] + j != [c] + k
      {
        assert ([c] + j)[1..] == j && ([c] + k)[1..] == k;
      }
    }
  }

  predicate Unrepeated(letters: string) {
    forall i, j :: 0 <= i < j < |letters| ==> letters[i] != letters[j]
  }

  lemma {:induction false} HeadedSize(letters: string, keys: set<string>)
    requires Unrepeated(letters)
    ensures |Headed(letters, keys)| == |letters| * |keys|
    decreases |letters|
  {
    if letters != "" {
      HeadedSize(letters[1..], keys);
      PrefixedSize(letters[0], keys);
      forall k | k in Prefixed(letters[0], keys)
        ensures k !in Headed(letters[1..], keys)
      {
        HeadedMembers(letters[1..], keys, k);
      }
      assert Prefixed(letters[0], keys) !! Headed(letters[1..], keys);
      assert |letters| * |keys| == |keys| + (|letters| - 1) * |keys|;
    }
  }

  lemma LetteredMembers(a: set<string>, b: set<string>, key: string)
    ensures key in Lettered(a, b) <==>
            key != "" && IsLetter(key[0]) && key[1..] in (if SlotOf(key[0]) == 'c' then a else b)
  {
    HeadedMembers(CONSONANTS, a, key);
    HeadedMembers(VOWELS, b, key);
    if key != "" {
      LettersApart(key[0]);
    }
  }

  lemma LetteredSize(a: set<string>, b: set<string>)
    ensures |Lettered(a, b)| == |CONSONANTS| * |a| + |VOWELS| * |b|
  {
    hide Unrepeated, Headed;
    HeadedSize(CONSONANTS, a);
    HeadedSize(VOWELS, b);
    forall k | k in Headed(VOWELS, b)
      ensures k !in Headed(CONSONANTS, a)
    {
      HeadedMembers(CONSONANTS, a, k);
      HeadedMembers(VOWELS, b, k);
      LettersApart(k[0]);
    }
    assert Headed(CONSONANTS, a) !! Headed(VOWELS, b);
  }

  lemma {:induction false} AcceptedMembers(places: set<string>, n: nat, key: string)
    ensures key in Accepted(places, n) <==> |key| == n && Accepts(places, key)
    decreases n
  {
    hide Derive, Lettered, IsLetter;
    if n > 0 {
      LetteredMembers(Accepted(Derive(places, 'c'), n - 1), Accepted(Derive(places, 'v'), n - 1), key);
      if key != "" {
        AcceptedMembers(Derive(places, SlotOf(key[0])), n - 1, key[1..]);
      }
    }
  }

  lemma {:induction false} AcceptedCount(places: set<string>, n: nat)
    ensures |Accepted(places, n)| == Count(places, n)
    decreases n
  {
    hide Derive, Lettered;
    if n > 0 {
      AcceptedCount(Derive(places, 'c'), n - 1);
      AcceptedCount(Derive(places, 'v'), n - 1);
      LetteredSize(Accepted(Derive(places, 'c'), n - 1), Accepted(Derive(places, 'v'), n - 1));
    }
  }

  lemma TimesOrder(k: nat, a: nat, b: nat)
    requires a <= b
    ensures k * a <= k * b
  {
  }

  // More places, more keys.
  lemma {:induction false} CountMonotone(a: set<string>, b: set<string>, n: nat)
    requires a <= b
    ensures Count(a, n) <= Count(b, n)
    decreases n
  {
    if n > 0 {
      CountMonotone(Derive(a, 'c'), Derive(b, 'c'), n - 1);
      CountMonotone(Derive(a, 'v'), Derive(b, 'v'), n - 1);
      TimesOrder(|CONSONANTS|, Count(Derive(a, 'c'), n - 1), Count(Derive(b, 'c'), n - 1));
      TimesOrder(|VOWELS|, Count(Derive(a, 'v'), n - 1), Count(Derive(b, 'v'), n - 1));
    }
  }

  lemma AfterPair()
    ensures "" in Derive(Derive({""}, 'c'), 'v')
  {
    assert "cv" in TEMPLATES && "cv"[1..] == "v" && "v"[1..] == "";
    assert "v" in Derive({""}, 'c');
  }

  lemma CountByFirst(places: set<string>, n: nat)
    requires n > 0
    ensures Count(places, n) >= |CONSONANTS| * Count(Derive(places, 'c'), n - 1)
    ensures Count(places, n) >= |VOWELS| * Count(Derive(places, 'v'), n - 1)
  {
  }

  lemma PairCount(n: nat)
    ensures Count({""}, n + 2) >= |CONSONANTS| * (|VOWELS| * Count({""}, n))
  {
    hide Derive, Count;
    var one := Derive({""}, 'c');
    var two := Derive(one, 'v');
    AfterPair();
    CountMonotone({""}, two, n);
    CountByFirst({""}, n + 2);
    CountByFirst(one, n + 1);
    TimesOrder(|VOWELS|, Count({""}, n), Count(two, n));
    TimesOrder(|CONSONANTS|, |VOWELS| * Count({""}, n), Count(one, n + 1));
  }

  // The consonant-vowel syllables alone give 21 * 5 keys for every two letters.
  lemma {:induction false} ManyKeys(m: nat)
    ensures Count({""}, 2 * m) >= Pow(105, m)
    decreases m
  {
    if m > 0 {
      ManyKeys(m - 1);
      PairCount(2 * m - 2);
      assert |CONSONANTS| == 21 && |VOWELS| == 5;
    }
  }

  // ---------------------------------------------------------------------------
  // Getting out of the loop

  // While fewer keys are live than the generator has, some draws make the probe of
  // chooseKey come back empty.
  lemma FreePhoneticKey(t: Table, now: int, n: nat) returns (draws: seq<nat>)
    requires Valid(t) && |LiveSlugs(t, now)| < Count({""}, n)
    ensures Select(t, Phonetic(ENGLISH, TapeOf(draws), 0, n), now).None?
  {
    AcceptedCount({""}, n);
    SomeLeft(Accepted({""}, n), LiveSlugs(t, now));
    var key :| key in Accepted({""}, n) && key !in LiveSlugs(t, now);
    AcceptedMembers({""}, n, key);
    AcceptedIsProduced(key);
    draws :| Phonetic(ENGLISH, TapeOf(draws), 0, |key|) == key;
    assert forall id <- t.rows :: Live(t.rows[id], now) ==> t.rows[id].slug in LiveSlugs(t, now);
  }

  // Conversely, with all of them live every probe finds a paste.
  lemma NoPhoneticKeyLeft(t: Table, now: int, n: nat, rand: Tape)
    requires Valid(t) && Accepted({""}, n) <= LiveSlugs(t, now)
    ensures Select(t, Phonetic(ENGLISH, rand, 0, n), now).Some?
  {
    var key := Phonetic(ENGLISH, rand, 0, n);
    ProducedReads(rand, n);
    AcceptsIsReads({""}, key);
    assert "" in {""};
    AcceptedMembers({""}, n, key);
    var id :| id in t.rows && Live(t.rows[id], now) && t.rows[id].slug == key;
    SelectMeaning(t, key, now, id);
  }
}
