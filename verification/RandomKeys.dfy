// Random paste keys (Random in internal/keygen/keygen.go), which of them there are,
// and why choosing one (chooseKey in internal/handler/handler.go) need not go on for
// ever.
module RandomKeys {
  import opened Pastes
  import ClientAddress

  const UPPER := "ABCDEFGHIJKLMNOPQRSTUVWXYZ"
  const LOWER := "abcdefghijklmnopqrstuvwxyz"
  const DIGITS := "0123456789"
  const KEYSPACE := UPPER + LOWER + DIGITS
  const KEYSPACE_SIZE := 62

  // A-Z, a-z, 0-9, in this order.
  function Symbol(i: nat): char
    requires i < KEYSPACE_SIZE
  {
    if i < 26 then 'A' + i as char else if i < 52 then 'a' + (i - 26) as char else '0' + (i - 52) as char
  }

  predicate Draws(draws: seq<nat>) {
    forall i :: 0 <= i < |draws| ==> draws[i] < KEYSPACE_SIZE
  }

  function Spell(draws: seq<nat>): (key: string)
    requires Draws(draws)
    ensures |key| == |draws|
    ensures forall i :: 0 <= i < |draws| ==> key[i] == Symbol(draws[i])
  {
    if draws == [] then "" else Spell(draws[..|draws| - 1]) + [Symbol(draws[|draws| - 1])]
  }

  // Random.CreateKey with the default keyspace.
  method CreateRandom(draws: seq<nat>) returns (key: string)
    requires Draws(draws)
    ensures key == Spell(draws)
    ensures |key| == |draws|
    ensures forall i :: 0 <= i < |key| ==> key[i] == KEYSPACE[draws[i]]
  {
    key := "";
    for i := 0 to |draws|
      invariant key == Spell(draws[..i])
    {
      assert draws[..i + 1][..i] == draws[..i];
      key := key + [Symbol(draws[i])];
    }
    assert draws[..|draws|] == draws;
    forall i | 0 <= i < |key|
      ensures key[i] == KEYSPACE[draws[i]]
    {
      SymbolsInOrder(draws[i]);
    }
  }

  lemma SymbolsInOrder(d: nat)
    requires d < KEYSPACE_SIZE
    ensures Symbol(d) == KEYSPACE[d]
  {
    if d < 26 {
      assert UPPER[d] == 'A' + d as char;
    } else if d < 52 {
      assert LOWER[d - 26] == 'a' + (d - 26) as char;
    }
  }

  function Pow(b: nat, n: nat): nat {
    if n == 0 then 1 else b * Pow(b, n - 1)
  }

  function Suffixed(keys: set<string>, c: char): set<string> {
    set k | k in keys :: k + [c]
  }

  // The keys extended by one of the first m symbols.
  function Extended(keys: set<string>, m: nat): set<string>
    requires m <= KEYSPACE_SIZE
  {
    if m == 0 then {} else Extended(keys, m - 1) + Suffixed(keys, Symbol(m - 1))
  }

  function AllKeys(n: nat): set<string> {
    if n == 0 then {""} else Extended(AllKeys(n - 1), KEYSPACE_SIZE)
  }

  lemma {:induction false} SuffixedSize(keys: set<string>, c: char)
    ensures |Suffixed(keys, c)| == |keys|
    decreases |keys|
  {
    if keys != {} {
      var k :| k in keys;
      SuffixedSize(keys - {k}, c);
      assert Suffixed(keys, c) == Suffixed(keys - {k}, c) + {k + [c]};
      forall j | j in keys - {k}
        ensures j + [c] != k + [c]
      {
        assert (j + [c])[..|j|] == j && (k + [c])[..|k|] == k;
      }
    }
  }

  lemma {:induction false} ExtendedMembers(keys: set<string>, m: nat, key: string)
    requires m <= KEYSPACE_SIZE
    ensures key in Extended(keys, m) <==>
            key != "" && key[..|key| - 1] in keys && exists i :: 0 <= i < m && key[|key| - 1] == Symbol(i)
  {
    if m > 0 {
      ExtendedMembers(keys, m - 1, key);
      assert key in Suffixed(keys, Symbol(m - 1)) <==>
          key != "" && key[..|key| - 1] in keys && key[|key| - 1] == Symbol(m - 1) by {
        if key != "" {
          assert key == key[..|key| - 1] + [key[|key| - 1]];
        }
      }
    }
  }

  lemma SuffixesApart(keys: set<string>, m: nat)
    requires m < KEYSPACE_SIZE
    ensures Extended(keys, m) !! Suffixed(keys, Symbol(m))
  {
    forall k | k in Suffixed(keys, Symbol(m))
      ensures k !in Extended(keys, m)
    {
      ExtendedMembers(keys, m, k);
      assert k[|k| - 1] == Symbol(m);
      assert forall i :: 0 <= i < m ==> Symbol(i) != Symbol(m);
    }
  }

  lemma {:induction false} ExtendedSize(keys: set<string>, m: nat)
    requires m <= KEYSPACE_SIZE
    ensures |Extended(keys, m)| == m * |keys|
  {
    if m > 0 {
      ExtendedSize(keys, m - 1);
      SuffixedSize(keys, Symbol(m - 1));
      SuffixesApart(keys, m - 1);
      assert m * |keys| == (m - 1) * |keys| + |keys|;
    }
  }

  lemma {:induction false} DrawnKeyProducible(draws: seq<nat>)
    requires Draws(draws)
    ensures Spell(draws) in AllKeys(|draws|)
    decreases |draws|
  {
    var n := |draws|;
    if n > 0 {
      DrawnKeyProducible(draws[..n - 1]);
      ExtendedMembers(AllKeys(n - 1), KEYSPACE_SIZE, Spell(draws));
      assert Spell(draws)[..n - 1] == Spell(draws[..n - 1]);
    }
  }

  lemma LastDraw(n: nat, key: string) returns (d: nat)
    requires n > 0 && key in AllKeys(n)
    ensures key != "" && key[..|key| - 1] in AllKeys(n - 1)
    ensures d < KEYSPACE_SIZE && key[|key| - 1] == Symbol(d)
  {
    ExtendedMembers(AllKeys(n - 1), KEYSPACE_SIZE, key);
    d :| 0 <= d < KEYSPACE_SIZE && key[|key| - 1] == Symbol(d);
  }

  lemma {:induction false} DrawsOf(n: nat, key: string) returns (draws: seq<nat>)
    requires key in AllKeys(n)
    ensures Draws(draws) && |draws| == n && Spell(draws) == key
  {
    if n == 0 {
      draws := [];
    } else {
      var d := LastDraw(n, key);
      var front := DrawsOf(n - 1, key[..|key| - 1]);
      draws := front + [d];
    }
  }

  // AllKeys(n) are the keys of length n that can be drawn.
  lemma ProducibleKeys(n: nat, key: string)
    ensures key in AllKeys(n) <==> exists draws: seq<nat> :: Draws(draws) && |draws| == n && Spell(draws) == key
  {
    if key in AllKeys(n) {
      var draws := DrawsOf(n, key);
    }
    forall draws: seq<nat> | Draws(draws) && |draws| == n && Spell(draws) == key
      ensures key in AllKeys(n)
    {
      DrawnKeyProducible(draws);
    }
  }

  // There are 62^n of them.
  lemma {:induction false} KeyCount(n: nat)
    ensures |AllKeys(n)| == Pow(KEYSPACE_SIZE, n)
  {
    if n > 0 {
      KeyCount(n - 1);
      ExtendedSize(AllKeys(n - 1), KEYSPACE_SIZE);
    }
  }

  function LiveSlugs(t: Table, now: int): set<string> {
    set id | id in t.rows && Live(t.rows[id], now) :: t.rows[id].slug
  }

  lemma SubsetSize<T>(a: set<T>, b: set<T>)
    requires a <= b
    ensures |a| <= |b|
  {
    assert b == a + (b - a);
  }

  lemma SomeLeft<T>(all: set<T>, taken: set<T>)
    requires |taken| < |all|
    ensures exists x :: x in all && x !in taken
  {
    if all <= taken {
      SubsetSize(all, taken);
    }
  }

  // chooseKey can always get out of its loop while fewer than 62^n keys are live:
  // some draw makes its probe come back empty.
  lemma FreeKeyCanBeDrawn(t: Table, now: int, n: nat) returns (draws: seq<nat>)
    requires Valid(t) && |LiveSlugs(t, now)| < Pow(KEYSPACE_SIZE, n)
    ensures Draws(draws) && |draws| == n && Select(t, Spell(draws), now).None?
  {
    KeyCount(n);
    SomeLeft(AllKeys(n), LiveSlugs(t, now));
    var key :| key in AllKeys(n) && key !in LiveSlugs(t, now);
    draws := DrawsOf(n, key);
    assert forall id <- t.rows :: Live(t.rows[id], now) ==> t.rows[id].slug in LiveSlugs(t, now);
  }

  // Conversely, with every drawable key live the loop goes on for ever.
  lemma NoKeyLeft(t: Table, now: int, n: nat, draws: seq<nat>)
    requires Valid(t) && AllKeys(n) <= LiveSlugs(t, now)
    requires Draws(draws) && |draws| == n
    ensures Select(t, Spell(draws), now).Some?
  {
    DrawnKeyProducible(draws);
    assert Spell(draws) in LiveSlugs(t, now);
    var id :| id in t.rows && Live(t.rows[id], now) && t.rows[id].slug == Spell(draws);
    SelectMeaning(t, Spell(draws), now, id);
  }

  // A drawn key has no dot, so it names its paste with any display extension.
  lemma DrawnKeyWithExtension(draws: seq<nat>, ext: string)
    requires Draws(draws)
    ensures ClientAddress.KeyParam(Spell(draws) + "." + ext) == Spell(draws)
  {
    assert forall i :: 0 <= i < |draws| ==> Spell(draws)[i] != '.';
    ClientAddress.ExtensionIgnored(Spell(draws), ext);
  }
}
