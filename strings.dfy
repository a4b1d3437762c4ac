/** String helpers used by the request handler: `Array.prototype.join`,
    `String.prototype.includes`, ASCII `toLowerCase`, and the small readers
    that serve as independent partners of the string-building code. */
module Strings {

  newtype byte = x: int | 0 <= x < 256

  /** `xs.join(sep)`. */
  function Join(xs: seq<string>, sep: string): string
  {
    if xs == [] then ""
    else if |xs| == 1 then xs[0]
    else xs[0] + sep + Join(xs[1..], sep)
  }

  /** Splits a header value at every occurrence of the two characters "; "
      (how a server separates the cookies of a `Cookie` header). */
  function SplitCookieHeader(s: string): (r: seq<string>)
    ensures |r| > 0
    decreases |s|
  {
    if s == [] then [""]
    else if |s| >= 2 && s[0] == ';' && s[1] == ' ' then [""] + SplitCookieHeader(s[2..])
    else
      var t := SplitCookieHeader(s[1..]);
      [[s[0]] + t[0]] + t[1..]
  }

  /** A prefix without ';' is glued onto the first piece of what follows. */
  lemma {:induction false} SplitCookieHeaderPrefix(x: string, rest: string)
    requires ';' !in x
    ensures SplitCookieHeader(x + rest)
         == [x + SplitCookieHeader(rest)[0]] + SplitCookieHeader(rest)[1..]
  {
    if x == [] {
      var t := SplitCookieHeader(rest);
      assert x + rest == rest && x + t[0] == t[0];
      assert t == [t[0]] + t[1..];
    } else {
      var s := x + rest;
      assert s[0] == x[0] && s[1..] == x[1..] + rest;
      SplitCookieHeaderPrefix(x[1..], rest);
      assert [x[0]] + (x[1..] + SplitCookieHeader(rest)[0]) == x + SplitCookieHeader(rest)[0];
    }
  }

  /** Joining cookies with "; " loses nothing: as long as no cookie holds a
      ';', splitting the joined value gives the list back. */
  lemma {:induction false} SplitJoinCookies(cs: seq<string>)
    requires cs != []
    requires forall i :: 0 <= i < |cs| ==> ';' !in cs[i]
    ensures SplitCookieHeader(Join(cs, "; ")) == cs
  {
    if |cs| == 1 {
      SplitCookieHeaderPrefix(cs[0], "");
      assert cs[0] + "" == cs[0];
    } else {
      var tail := Join(cs[1..], "; ");
      SplitJoinCookies(cs[1..]);
      var s := "; " + tail;
      assert s[2..] == tail;
      assert SplitCookieHeader(s) == [""] + cs[1..];
      assert Join(cs, "; ") == cs[0] + s;
      SplitCookieHeaderPrefix(cs[0], s);
      assert cs[0] + "" == cs[0];
    }
  }

  /** ASCII `toLowerCase` of one character. */
  function LowerChar(c: char): char {
    if 'A' <= c <= 'Z' then (c as int + 32) as char else c
  }

  /** `s.toLowerCase()` for header names, which are ASCII tokens. */
  function Lower(s: string): string {
    seq(|s|, i requires 0 <= i < |s| => LowerChar(s[i]))
  }

  /** `sub` occurs in `s` starting at index `i`. */
  predicate OccursAt(s: string, sub: string, i: nat) {
    i + |sub| <= |s| && s[i..i + |sub|] == sub
  }

  /** `s.includes(sub)`. */
  function Includes(s: string, sub: string): bool
    decreases |s|
  {
    |sub| <= |s| && (s[..|sub|] == sub || (|s| > 0 && Includes(s[1..], sub)))
  }

  /** `Includes` agrees with the positional definition of an occurrence. */
  lemma {:induction false} IncludesIffOccurs(s: string, sub: string)
    ensures Includes(s, sub) <==> exists i: nat :: OccursAt(s, sub, i)
    decreases |s|
  {
    if |sub| <= |s| && s[..|sub|] == sub {
      assert OccursAt(s, sub, 0);
    } else if |sub| <= |s| && |s| > 0 {
      IncludesIffOccurs(s[1..], sub);
      if Includes(s[1..], sub) {
        var i: nat :| OccursAt(s[1..], sub, i);
        assert s[i + 1..i + 1 + |sub|] == s[1..][i..i + |sub|];
        assert OccursAt(s, sub, i + 1);
      } else {
        forall i: nat | OccursAt(s, sub, i) ensures false {
          if i > 0 {
            var j: nat := i - 1;
            assert j + |sub| <= |s[1..]|;
            assert s[1..][j..j + |sub|] == s[i..i + |sub|];
            assert OccursAt(s[1..], sub, j);
          }
        }
      }
    } else {
      assert forall i: nat :: !OccursAt(s, sub, i);
    }
  }

  /** The longest prefix of `s` holding none of the `stops`. */
  function TakeUntil(s: string, stops: set<char>): string
  {
    if s == [] || s[0] in stops then [] else [s[0]] + TakeUntil(s[1..], stops)
  }

  /** What is left of `s` from its first character in `stops` on. */
  function DropUntil(s: string, stops: set<char>): string
  {
    if s == [] || s[0] in stops then s else DropUntil(s[1..], stops)
  }

  /** Cutting `a + b` at the first stop gives `a` and `b` back when `a` holds
      no stop and `b` is empty or starts with one. */
  lemma {:induction false} CutAtStop(a: string, b: string, stops: set<char>)
    requires forall i :: 0 <= i < |a| ==> a[i] !in stops
    requires b == [] || b[0] in stops
    ensures TakeUntil(a + b, stops) == a
    ensures DropUntil(a + b, stops) == b
  {
    if a == [] {
      assert a + b == b;
    } else {
      assert (a + b)[0] == a[0] && (a + b)[1..] == a[1..] + b;
      CutAtStop(a[1..], b, stops);
    }
  }
}
