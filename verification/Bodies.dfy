// When a body is blank, in characters and UTF-8 (readBody in internal/handler/handler.go).
module Bodies {
  import opened Text
  import opened Pastes
  import opened Serving

  // The bytes of a character, section 3 of RFC 3629.
  function Utf8(c: char): (b: Body)
    ensures 1 <= |b| <= 4
  {
    var n := c as int;
    if n < 0x80 then [n as byte]
    else if n < 0x800 then [(0xC0 + n / 64) as byte, (0x80 + n % 64) as byte]
    else if n < 0x1_0000 then [(0xE0 + n / 4096) as byte, (0x80 + n / 64 % 64) as byte, (0x80 + n % 64) as byte]
    else
      [(0xF0 + n / 262144) as byte, (0x80 + n / 4096 % 64) as byte,
       (0x80 + n / 64 % 64) as byte, (0x80 + n % 64) as byte]
  }

  function Utf8Text(s: string): Body {
    if s == "" then [] else Utf8(s[0]) + Utf8Text(s[1..])
  }

  // A body that is white space from end to end, the empty one included.
  ghost predicate BlankText(b: Body) {
    exists s: string :: Blank(s) && b == Utf8Text(s)
  }

  lemma SpaceIsSpace(c: char, rest: Body)
    requires IsSpace(c)
    ensures SpaceAt(Utf8(c) + rest) == |Utf8(c)|
  {
  }

  // The character a white space at the front of b stands for.
  lemma SpaceFound(b: Body) returns (c: char)
    requires SpaceAt(b) > 0
    ensures IsSpace(c) && SpaceAt(b) == |Utf8(c)| && b[..SpaceAt(b)] == Utf8(c)
  {
    if SpaceAt(b) == 1 {
      c := b[0] as char;
    } else if SpaceAt(b) == 2 {
      c := b[1] as char;
    } else if b[0] == 0xE1 {
      c := '\U{1680}';
    } else if b[0] == 0xE3 {
      c := '\U{3000}';
    } else if b[1] == 0x81 {
      c := '\U{205F}';
    } else {
      c := SpaceIn2000(b[2]);
    }
  }

  // The characters from U+2000 on, by their last byte.
  lemma SpaceIn2000(last: byte) returns (c: char)
    requires 0x80 <= last <= 0x8A || last in {0xA8, 0xA9, 0xAF}
    ensures IsSpace(c) && Utf8(c) == [0xE2, 0x80, last]
  {
    c := (0x2000 + last as int - 0x80) as char;
  }

  lemma BlankCons(c: char, s: string)
    ensures Blank([c] + s) <==> IsSpace(c) && Blank(s)
    ensures Utf8Text([c] + s) == Utf8(c) + Utf8Text(s)
  {
    assert ([c] + s)[0] == c && ([c] + s)[1..] == s;
    assert forall x <- s :: x in [c] + s;
  }

  lemma {:induction false} BlankIsText(b: Body) returns (s: string)
    requires BlankBody(b)
    ensures Blank(s) && b == Utf8Text(s)
    decreases |b|
  {
    if b == [] {
      s := "";
    } else {
      hide Blank, Utf8Text, Utf8, IsSpace, SpaceAt;
      var c := SpaceFound(b);
      var rest := BlankIsText(b[SpaceAt(b)..]);
      BlankCons(c, rest);
      s := [c] + rest;
      assert b == b[..SpaceAt(b)] + b[SpaceAt(b)..];
    }
  }

  lemma {:induction false} TextIsBlank(s: string)
    requires Blank(s)
    ensures BlankBody(Utf8Text(s))
    decreases |s|
  {
    if s != "" {
      hide Utf8, IsSpace, SpaceAt;
      TextIsBlank(s[1..]);
      SpaceIsSpace(s[0], Utf8Text(s[1..]));
      assert Utf8Text(s)[|Utf8(s[0])|..] == Utf8Text(s[1..]);
    }
  }

  // The server finds a body blank exactly when it is a text of white space.
  lemma BlankMeaning(b: Body)
    ensures BlankBody(b) <==> BlankText(b)
  {
    if BlankBody(b) {
      var s := BlankIsText(b);
    }
    forall s: string | Blank(s) && b == Utf8Text(s)
      ensures BlankBody(b)
    {
      TextIsBlank(s);
    }
  }

  // So is a body of ASCII bytes exactly when each of them is a tab, a line break or
  // a space, and a body with a printable byte in it, among whatever others, is not.
  lemma {:induction false} BlankAscii(b: Body)
    requires forall x <- b :: x < 0x80
    ensures BlankBody(b) <==> forall x <- b :: 9 <= x <= 13 || x == 32
    decreases |b|
  {
    if b != [] {
      var rest := b[1..];
      assert b == [b[0]] + rest;
      assert forall x :: x in b <==> x == b[0] || x in rest;
      assert b[0] in b && b[0] < 0x80;
      assert |b| >= 3 ==> b[..3][0] == b[0];
      var e: Body := [0xE1, 0x9A, 0x80];
      assert |b| >= 3 ==> b[..3] != e;
      assert SpaceAt(b) == if 9 <= b[0] <= 13 || b[0] == 32 then 1 else 0;
      BlankAscii(rest);
    }
  }

  lemma {:induction false} PrintableIsNotBlank(b: Body, k: nat)
    requires k < |b| && 33 <= b[k] < 127
    ensures !BlankBody(b)
    decreases |b|
  {
    var n := SpaceAt(b);
    if 0 < n {
      assert forall i :: 0 <= i < n ==> !(33 <= b[i] < 127) by {
        SpaceBytes(b);
      }
      PrintableIsNotBlank(b[n..], k - n);
    }
  }

  lemma SpaceBytes(b: Body)
    ensures forall i :: 0 <= i < SpaceAt(b) ==> !(33 <= b[i] < 127)
  {
  }

  // White space in front changes nothing: an indented text is no blank one.
  lemma {:induction false} BlankInFront(a: Body, b: Body)
    requires BlankBody(a)
    ensures BlankBody(a + b) <==> BlankBody(b)
    decreases |a|
  {
    if a == [] {
      assert a + b == b;
    } else {
      var n := SpaceAt(a);
      SpaceInFront(a, b);
      assert (a + b)[n..] == a[n..] + b;
      BlankInFront(a[n..], b);
    }
  }

  lemma SpaceInFront(a: Body, b: Body)
    requires SpaceAt(a) > 0
    ensures SpaceAt(a + b) == SpaceAt(a)
  {
    assert forall i :: 0 <= i < |a| ==> (a + b)[i] == a[i];
    assert |a| >= 3 ==> (a + b)[..3] == a[..3];
  }
}
