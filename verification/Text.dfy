// String operations the server and the browser code rely on: splitting, joining
// and trimming, with the laws the other modules use. A string is a sequence of
// characters; blanks are those the trimming of header values removes.
module Text {

  datatype Option<+T> = None | Some(value: T)

  // Position of the first c in s, or -1 (strings.IndexByte, Array.indexOf).
  function IndexOf<T(==)>(s: seq<T>, c: T): (i: int)
    ensures -1 <= i < |s|
    ensures i == -1 <==> c !in s
    ensures i >= 0 ==> s[i] == c && c !in s[..i]
  {
    if |s| == 0 then -1
    else if s[0] == c then 0
    else
      var j := IndexOf(s[1..], c);
      assert j >= 0 ==> s[..j + 1] == [s[0]] + s[1..][..j];
      if j < 0 then -1 else j + 1
  }

  // Position of the last c in s, or -1 (strings.LastIndexByte).
  function LastIndexOf(s: string, c: char): (i: int)
    ensures -1 <= i < |s|
    ensures i == -1 <==> c !in s
    ensures i >= 0 ==> s[i] == c && c !in s[i + 1..]
  {
    if |s| == 0 then -1
    else if s[|s| - 1] == c then |s| - 1
    else
      var j := LastIndexOf(s[..|s| - 1], c);
      assert j >= 0 ==> s[j + 1..] == s[..|s| - 1][j + 1..] + [s[|s| - 1]];
      j
  }

  function Split(s: string, c: char): (parts: seq<string>)
    ensures |parts| >= 1
    decreases |s|
  {
    var i := IndexOf(s, c);
    if i < 0 then [s] else [s[..i]] + Split(s[i + 1..], c)
  }

  function Join(parts: seq<string>, c: char): string {
    if |parts| == 0 then ""
    else if |parts| == 1 then parts[0]
    else parts[0] + [c] + Join(parts[1..], c)
  }

  // IndexOf is the only position with its property.
  lemma FirstIndex(s: string, i: nat, c: char)
    requires i < |s| && s[i] == c && c !in s[..i]
    ensures IndexOf(s, c) == i
  {
    assert forall k :: 0 <= k < i ==> s[k] == s[..i][k];
    assert s[i] in s;
    var j := IndexOf(s, c);
    assert forall k :: 0 <= k < j ==> s[k] == s[..j][k];
  }

  lemma SplitAtJoint(head: string, tail: string, c: char)
    requires c !in head
    ensures Split(head + [c] + tail, c) == [head] + Split(tail, c)
  {
    var s := head + [c] + tail;
    assert s[..|head|] == head && s[|head| + 1..] == tail;
    FirstIndex(s, |head|, c);
  }

  lemma {:induction false} SplitAppend(a: string, b: string, c: char)
    ensures Split(a + [c] + b, c) == Split(a, c) + Split(b, c)
    decreases |a|
  {
    var i := IndexOf(a, c);
    if i < 0 {
      SplitAtJoint(a, b, c);
    } else {
      var head, rest := a[..i], a[i + 1..];
      calc {
        Split(a + [c] + b, c);
        { assert a + [c] + b == head + [c] + (rest + [c] + b); }
        Split(head + [c] + (rest + [c] + b), c);
        { SplitAtJoint(head, rest + [c] + b, c); }
        [head] + Split(rest + [c] + b, c);
        { SplitAppend(rest, b, c); }
        [head] + (Split(rest, c) + Split(b, c));
        [head] + Split(rest, c) + Split(b, c);
        Split(a, c) + Split(b, c);
      }
    }
  }

  lemma JoinCons(first: string, rest: seq<string>, c: char)
    requires |rest| >= 1
    ensures Join([first] + rest, c) == first + [c] + Join(rest, c)
  {
    assert ([first] + rest)[1..] == rest;
  }

  // Splitting undoes joining, for separator-free parts.
  lemma {:induction false} SplitJoin(parts: seq<string>, c: char)
    requires |parts| >= 1
    requires forall p <- parts :: c !in p
    ensures Split(Join(parts, c), c) == parts
  {
    if |parts| > 1 {
      var first, rest := parts[0], parts[1..];
      assert parts == [first] + rest;
      assert forall p <- rest :: p in parts;
      SplitJoin(rest, c);
      SplitAppend(first, Join(rest, c), c);
      JoinCons(first, rest, c);
    } else {
      assert parts == [parts[0]];
    }
  }

  // Joining undoes splitting, and every part is separator-free.
  lemma {:induction false} JoinSplit(s: string, c: char)
    ensures Join(Split(s, c), c) == s
    ensures forall p <- Split(s, c) :: c !in p
    decreases |s|
  {
    var i := IndexOf(s, c);
    if i >= 0 {
      var first, rest := s[..i], Split(s[i + 1..], c);
      JoinSplit(s[i + 1..], c);
      JoinCons(first, rest, c);
      assert s == first + [c] + s[i + 1..];
      forall p | p in [first] + rest
        ensures c !in p
      {
        assert p == first || p in rest;
      }
    }
  }

  // unicode.IsSpace.
  predicate IsSpace(c: char) {
    c in ['\t', '\n', '\U{000B}', '\U{000C}', '\r', ' ', '\U{0085}', '\U{00A0}',
          '\U{1680}', '\U{2028}', '\U{2029}', '\U{202F}', '\U{205F}', '\U{3000}']
    || '\U{2000}' <= c <= '\U{200A}'
  }

  predicate Blank(s: string) {
    forall c <- s :: IsSpace(c)
  }

  function TrimLeft(s: string): string {
    if |s| > 0 && IsSpace(s[0]) then TrimLeft(s[1..]) else s
  }

  function TrimRight(s: string): string {
    if |s| > 0 && IsSpace(s[|s| - 1]) then TrimRight(s[..|s| - 1]) else s
  }

  // strings.TrimSpace.
  function Trim(s: string): string {
    TrimRight(TrimLeft(s))
  }

  lemma {:induction false} TrimLeftSplits(s: string) returns (pre: string)
    ensures s == pre + TrimLeft(s) && Blank(pre)
    ensures |TrimLeft(s)| > 0 ==> !IsSpace(TrimLeft(s)[0])
  {
    if |s| > 0 && IsSpace(s[0]) {
      pre := TrimLeftSplits(s[1..]);
      pre := [s[0]] + pre;
    } else {
      pre := "";
    }
  }

  lemma {:induction false} TrimRightSplits(s: string) returns (post: string)
    ensures s == TrimRight(s) + post && Blank(post)
    ensures |TrimRight(s)| > 0 ==> !IsSpace(TrimRight(s)[|TrimRight(s)| - 1])
  {
    if |s| > 0 && IsSpace(s[|s| - 1]) {
      post := TrimRightSplits(s[..|s| - 1]);
      post := post + [s[|s| - 1]];
    } else {
      post := "";
    }
  }

  // What TrimSpace means: s with blank ends cut off, nothing else removed.
  lemma TrimMeaning(s: string) returns (pre: string, post: string)
    ensures s == pre + Trim(s) + post && Blank(pre) && Blank(post)
    ensures Trim(s) == "" <==> Blank(s)
    ensures Trim(s) != "" ==> !IsSpace(Trim(s)[0]) && !IsSpace(Trim(s)[|Trim(s)| - 1])
  {
    pre := TrimLeftSplits(s);
    var mid := TrimLeft(s);
    post := TrimRightSplits(mid);
    assert s == pre + Trim(s) + post;
    if Trim(s) != "" {
      assert mid[0] == Trim(s)[0];
      assert s[|pre|] == mid[0];
    }
  }

  // Letters, digits and punctuation of ASCII.
  predicate Printable(s: string) {
    forall c <- s :: '!' <= c <= '~'
  }

  lemma AsciiSpaces(c: char)
    ensures '!' <= c <= '~' ==> !IsSpace(c)
    ensures c == ' ' || c == '\t' ==> IsSpace(c)
  {
  }

  // A printable text loses the spaces and tabs around it, and nothing of its own.
  lemma {:induction false} TrimPrintable(pre: string, s: string, post: string)
    requires Printable(s) && s != "" && forall c <- pre + post :: c == ' ' || c == '\t'
    ensures Trim(pre + s + post) == s
    decreases |pre|
  {
    hide IsSpace;
    var all := pre + s + post;
    AsciiSpaces(all[0]);
    if pre == "" {
      assert all == s + post && s[0] in s && all[0] == s[0];
      assert forall c <- post :: c in pre + post;
      TrimRightPrintable(s, post);
    } else {
      assert pre[0] in pre + post && all[0] == pre[0];
      assert all[1..] == pre[1..] + s + post;
      assert forall c <- pre[1..] + post :: c in pre + post;
      TrimPrintable(pre[1..], s, post);
    }
  }

  lemma {:induction false} TrimRightPrintable(s: string, post: string)
    requires Printable(s) && s != "" && forall c <- post :: c == ' ' || c == '\t'
    ensures TrimRight(s + post) == s
    decreases |post|
  {
    hide IsSpace;
    var all := s + post;
    AsciiSpaces(all[|all| - 1]);
    if post == "" {
      assert all == s && s[|s| - 1] in s;
    } else {
      var front := post[..|post| - 1];
      assert post == front + [post[|post| - 1]];
      assert all[|all| - 1] == post[|post| - 1] && post[|post| - 1] in post;
      assert forall c <- front :: c in post;
      assert all[..|all| - 1] == s + front;
      TrimRightPrintable(s, front);
    }
  }
}
