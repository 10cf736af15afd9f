/** The bracket checker: a string is valid when every opening bracket is closed
    by the bracket of the same kind, in the right order. */
module Brackets {

  predicate IsOpener(c: char) {
    c == '{' || c == '(' || c == '['
  }

  predicate IsCloser(c: char) {
    c == '}' || c == ')' || c == ']'
  }

  /** The closing bracket of an opening one. */
  function CloserOf(o: char): (c: char)
    requires IsOpener(o)
    ensures IsCloser(c)
  {
    match o
    case '{' => '}'
    case '(' => ')'
    case '[' => ']'
  }

  predicate AllBrackets(s: seq<char>) {
    forall i :: 0 <= i < |s| ==> IsOpener(s[i]) || IsCloser(s[i])
  }

  /** The three guards of the checker: `c` closes a bracket other than `top`.
      A character that is neither an opener nor a closer is never rejected. */
  predicate Rejects(top: char, c: char) {
    (c == '}' && top != '{') || (c == ')' && top != '(') || (c == ']' && top != '[')
  }

  /** What the checker decides on the rest `s` of the input when its stack holds
      `st` (top last). */
  function Run(s: seq<char>, st: seq<char>): bool
    decreases |s|
  {
    if s == [] then st == []
    else if IsOpener(s[0]) then Run(s[1..], st + [s[0]])
    else if st == [] then false
    else if Rejects(st[|st| - 1], s[0]) then false
    else Run(s[1..], st[..|st| - 1])
  }

  /** The grammar of well-nested bracket strings: empty, or an opener, a
      well-nested string, the matching closer and another well-nested string. */
  ghost predicate WellNested(s: seq<char>)
    decreases |s|, 1
  {
    s == [] || exists k :: 0 < k < |s| && SplitsAt(s, k)
  }

  /** `s` is the opener `s[0]`, a well-nested string, its closer at `k`, and
      another well-nested string. */
  ghost predicate SplitsAt(s: seq<char>, k: int)
    requires 0 < k < |s|
    decreases |s|, 0
  {
    IsOpener(s[0]) && s[k] == CloserOf(s[0]) && WellNested(s[1..k]) && WellNested(s[k + 1..])
  }

  /** A matching closer is accepted: the checker pops the opener. */
  lemma CloserIsAccepted(s: seq<char>, st: seq<char>, o: char)
    requires IsOpener(o) && s != [] && s[0] == CloserOf(o)
    ensures Run(s, st + [o]) == Run(s[1..], st)
  {
    assert (st + [o])[..|st|] == st;
  }

  /** `isValid(s)`, the active variant: push openers; on any other character
      fail on an empty stack or a mismatched closer, otherwise pop; accept
      when the stack ends empty. */
  method IsValid(s: string) returns (b: bool)
    ensures b == Run(s, [])
    ensures AllBrackets(s) ==> (b <==> WellNested(s))
  {
    ValidIffWellNested(s);
    var stack: seq<char> := [];
    var i := 0;
    while i < |s|
      invariant 0 <= i <= |s|
      invariant Run(s, []) == Run(s[i..], stack)
    {
      assert s[i..][1..] == s[i + 1..];
      var word := s[i];
      if IsOpener(word) {
        stack := stack + [word];
      } else {
        if stack == [] {
          return false;
        }
        if word == '}' && stack[|stack| - 1] != '{' {
          return false;
        }
        if word == ')' && stack[|stack| - 1] != '(' {
          return false;
        }
        if word == ']' && stack[|stack| - 1] != '[' {
          return false;
        }
        stack := stack[..|stack| - 1];
      }
      i := i + 1;
    }
    b := stack == [];
  }

  /** `isMatch(s, stack)`: pops the top when it equals `s`; the flag says
      whether it did. */
  function IsMatch(s: char, stack: seq<char>): (r: (bool, seq<char>))
    ensures r.0 <==> stack != [] && stack[|stack| - 1] == s
    ensures r.0 ==> r.1 + [s] == stack
    ensures !r.0 ==> r.1 == stack
  {
    if stack == [] then (false, stack)
    else if stack[|stack| - 1] == s then (true, stack[..|stack| - 1])
    else (false, stack)
  }

  /** A well-nested prefix leaves the checker's stack as it found it. */
  lemma {:induction false} WellNestedIsTransparent(a: seq<char>, b: seq<char>, st: seq<char>)
    requires WellNested(a)
    ensures Run(a + b, st) == Run(b, st)
    decreases |a|
  {
    if a != [] {
      var k :| 0 < k < |a| && SplitsAt(a, k);
      var o := a[0];
      var rest := a[k + 1..] + b;
      var inner := [a[k]] + rest;
      assert (a + b)[0] == o && (a + b)[1..] == a[1..k] + inner;
      calc {
        Run(a + b, st);
        Run(a[1..k] + inner, st + [o]);
        { WellNestedIsTransparent(a[1..k], inner, st + [o]); }
        Run(inner, st + [o]);
        { CloserIsAccepted(inner, st, o); assert inner[1..] == rest; }
        Run(rest, st);
        { WellNestedIsTransparent(a[k + 1..], b, st); }
        Run(b, st);
      }
    } else {
      assert a + b == b;
    }
  }

  /** Soundness of the checker: a well-nested string is accepted. */
  lemma WellNestedIsAccepted(s: seq<char>)
    requires WellNested(s)
    ensures Run(s, [])
  {
    WellNestedIsTransparent(s, [], []);
    assert s + [] == s;
  }

  /** With `o` on top of the stack, an accepted bracket string holds the closer
      of `o` after a well-nested segment, and the checker goes on from there
      with `o` popped. */
  lemma {:induction false} OpenerIsClosed(s: seq<char>, st: seq<char>, o: char)
    requires IsOpener(o) && AllBrackets(s) && Run(s, st + [o])
    ensures exists k :: 0 <= k < |s| && ClosedAt(s, k, st, o)
    decreases |s|, 1
  {
    assert s != [];
    if IsOpener(s[0]) {
      NestedOpenerIsClosed(s, st, o);
    } else {
      assert IsCloser(s[0]);
      assert (st + [o])[|st|] == o;
      assert !Rejects(o, s[0]);
      CloserIsAccepted(s, st, o);
      assert s[..0] == [];
      assert ClosedAt(s, 0, st, o);
    }
  }

  /** `s[k]` closes `o`, what precedes it is well nested, and the checker
      accepts the rest with `o` popped. */
  ghost predicate ClosedAt(s: seq<char>, k: int, st: seq<char>, o: char)
    requires 0 <= k < |s| && IsOpener(o)
  {
    s[k] == CloserOf(o) && WellNested(s[..k]) && Run(s[k + 1..], st)
  }

  lemma AllBracketsSuffix(s: seq<char>, i: nat)
    requires AllBrackets(s) && i <= |s|
    ensures AllBrackets(s[i..])
  {
    forall j | 0 <= j < |s[i..]| ensures IsOpener(s[i..][j]) || IsCloser(s[i..][j]) {
      assert s[i..][j] == s[i + j];
    }
  }

  /** The case of `OpenerIsClosed` where the string starts with another
      opener: its own closer comes first, then the closer of `o`. */
  lemma {:induction false} NestedOpenerIsClosed(s: seq<char>, st: seq<char>, o: char)
    requires IsOpener(o) && AllBrackets(s) && Run(s, st + [o])
    requires s != [] && IsOpener(s[0])
    ensures exists k :: 0 <= k < |s| && ClosedAt(s, k, st, o)
    decreases |s|, 0
  {
    var t := s[1..];
    AllBracketsSuffix(s, 1);
    OpenerIsClosed(t, st + [o], s[0]);
    var j :| 0 <= j < |t| && ClosedAt(t, j, st + [o], s[0]);
    var r := t[j + 1..];
    assert r == s[j + 2..];
    AllBracketsSuffix(s, j + 2);
    OpenerIsClosed(r, st, o);
    var m :| 0 <= m < |r| && ClosedAt(r, m, st, o);
    NestedJoin(s, j, m, st, o);
  }

  /** An opener, the well-nested segment up to its closer at `j + 1`, and the
      well-nested segment from `j + 2` up to the closer of `o` at `j + 2 + m`:
      the closer of `o` comes after a well-nested prefix. */
  lemma NestedJoin(s: seq<char>, j: nat, m: nat, st: seq<char>, o: char)
    requires IsOpener(o) && 0 < |s| && IsOpener(s[0]) && j + 2 + m < |s|
    requires ClosedAt(s[1..], j, st + [o], s[0]) && ClosedAt(s[j + 2..], m, st, o)
    ensures ClosedAt(s, j + 2 + m, st, o)
  {
    var k := j + 2 + m;
    var p := s[..k];
    assert p[1..j + 1] == s[1..][..j];
    assert p[j + 2..] == s[j + 2..][..m];
    WellNestedJoin(p, j + 1);
    assert s[k + 1..] == s[j + 2..][m + 1..];
  }

  /** The grammar's second rule: an opener, a well-nested string, the matching
      closer at `k` and a well-nested string make a well-nested string. */
  lemma WellNestedJoin(p: seq<char>, k: nat)
    requires 0 < k < |p| && IsOpener(p[0]) && p[k] == CloserOf(p[0])
    requires WellNested(p[1..k]) && WellNested(p[k + 1..])
    ensures WellNested(p)
  {
    assert SplitsAt(p, k);
  }

  /** Completeness of the checker on bracket strings: what it accepts is
      well nested. */
  lemma {:induction false} AcceptedIsWellNested(s: seq<char>)
    requires AllBrackets(s) && Run(s, [])
    ensures WellNested(s)
    decreases |s|
  {
    if s != [] {
      assert IsOpener(s[0]);
      var t := s[1..];
      AllBracketsSuffix(s, 1);
      assert [] + [s[0]] == [s[0]];
      OpenerIsClosed(t, [], s[0]);
      var j :| 0 <= j < |t| && ClosedAt(t, j, [], s[0]);
      var r := t[j + 1..];
      assert r == s[j + 2..];
      AllBracketsSuffix(s, j + 2);
      AcceptedIsWellNested(r);
      assert s[j + 1] == CloserOf(s[0]);
      assert s[1..j + 1] == t[..j];
      assert s[j + 2..] == r;
      assert SplitsAt(s, j + 1);
    }
  }

  /** On strings made only of the six brackets, the checker accepts exactly
      the well-nested ones. */
  lemma ValidIffWellNested(s: seq<char>)
    ensures WellNested(s) ==> Run(s, [])
    ensures AllBrackets(s) && Run(s, []) ==> WellNested(s)
  {
    if WellNested(s) {
      WellNestedIsAccepted(s);
    }
    if AllBrackets(s) && Run(s, []) {
      AcceptedIsWellNested(s);
    }
  }

  /** A string that starts with a closer is rejected at once, on an empty
      stack; so a lone `]` is invalid while the empty string is valid. */
  lemma LeadingCloserRejected(s: seq<char>)
    requires s != [] && IsCloser(s[0])
    ensures !Run(s, [])
    ensures !Run("]", []) && Run("", [])
  {
  }
}
