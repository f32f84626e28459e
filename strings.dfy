/** The JavaScript string built-ins that the table parser relies on:
    `trim`, `split` on a one-character separator, `includes` and the
    global `replace` of one character, over strings of characters. */
module Strings {

  /** JavaScript's WhiteSpace and LineTerminator code points, which is what
      `String.prototype.trim` removes from both ends. */
  predicate IsWhitespace(c: char) {
    var n := c as int;
    n == 0x09 || n == 0x0A || n == 0x0B || n == 0x0C || n == 0x0D || n == 0x20
    || n == 0xA0 || n == 0x1680 || (0x2000 <= n <= 0x200A)
    || n == 0x2028 || n == 0x2029 || n == 0x202F || n == 0x205F
    || n == 0x3000 || n == 0xFEFF
  }

  predicate AllWhitespace(s: string) {
    forall i | 0 <= i < |s| :: IsWhitespace(s[i])
  }

  /** Neither end of `s` is whitespace. */
  predicate IsTrimmed(s: string) {
    s == [] || (!IsWhitespace(s[0]) && !IsWhitespace(s[|s| - 1]))
  }

  /** Drops the longest whitespace prefix. */
  function TrimStart(s: string): (r: string)
    ensures |r| <= |s| && r == s[|s| - |r|..]
    ensures AllWhitespace(s[..|s| - |r|])
    ensures r == [] || !IsWhitespace(r[0])
    decreases |s|
  {
    if |s| > 0 && IsWhitespace(s[0]) then
      var r := TrimStart(s[1..]);
      assert s[1..][|s| - 1 - |r|..] == s[|s| - |r|..];
      assert forall i | 0 <= i < |s| - 1 - |r| :: s[1..][i] == s[i + 1];
      r
    else s
  }

  /** Drops the longest whitespace suffix. */
  function TrimEnd(s: string): (r: string)
    ensures |r| <= |s| && r == s[..|r|]
    ensures AllWhitespace(s[|r|..])
    ensures r == [] || !IsWhitespace(r[|r| - 1])
    decreases |s|
  {
    if |s| > 0 && IsWhitespace(s[|s| - 1]) then
      var init := s[..|s| - 1];
      var r := TrimEnd(init);
      assert init[..|r|] == s[..|r|];
      assert forall i | |r| <= i < |s| - 1 :: init[|r|..][i - |r|] == s[i];
      assert forall i | |r| <= i < |s| :: IsWhitespace(s[i]);
      r
    else s
  }

  /** `s.trim()`: the whitespace at both ends removed. */
  function Trim(s: string): (r: string)
    ensures |r| <= |s| && IsTrimmed(r)
  {
    var t := TrimStart(s);
    var r := TrimEnd(t);
    assert r != [] ==> r[0] == t[0];
    r
  }

  /** What `Trim` leaves is an infix of `s`, starting at `i`, between a
      whitespace prefix and a whitespace suffix. */
  lemma TrimIsInfix(s: string) returns (i: nat)
    ensures i + |Trim(s)| <= |s| && Trim(s) == s[i..i + |Trim(s)|]
    ensures AllWhitespace(s[..i]) && AllWhitespace(s[i + |Trim(s)|..])
  {
    var t := TrimStart(s);
    var r := TrimEnd(t);
    assert Trim(s) == r;
    i := |s| - |t|;
    PrefixOfSuffix(s, i, r);
  }

  /** A prefix `r` of `s[i..]` whose rest is whitespace is the infix of `s`
      at `i`, followed by whitespace only. */
  lemma PrefixOfSuffix(s: string, i: nat, r: string)
    requires i <= |s| && |r| <= |s| - i && r == s[i..][..|r|]
    requires AllWhitespace(s[i..][|r|..])
    ensures r == s[i..i + |r|] && AllWhitespace(s[i + |r|..])
  {
    assert s[i + |r|..] == s[i..][|r|..];
  }

  /** The number of occurrences of `d` in `s`. */
  function Count(s: string, d: char): (n: nat)
    ensures n <= |s|
    ensures n == 0 <==> d !in s
  {
    if s == [] then 0
    else (if s[0] == d then 1 else 0) + Count(s[1..], d)
  }

  /** `s.split(d)` for a one-character separator: the pieces between
      consecutive separators, including the empty ones at the ends. */
  function Split(s: string, d: char): (pieces: seq<string>)
    ensures |pieces| == Count(s, d) + 1
    ensures forall j | 0 <= j < |pieces| :: d !in pieces[j]
    decreases |s|
  {
    if s == [] then [""]
    else
      var rest := Split(s[1..], d);
      if s[0] == d then [""] + rest
      else [[s[0]] + rest[0]] + rest[1..]
  }

  /** `pieces.join(d)`: the inverse of `Split`. */
  function Join(pieces: seq<string>, d: char): string
    requires |pieces| > 0
  {
    if |pieces| == 1 then pieces[0]
    else pieces[0] + [d] + Join(pieces[1..], d)
  }

  /** `s.replace(/d/g, '')`: every occurrence of `d` removed, the other
      characters kept in order. */
  function RemoveAll(s: string, d: char): (r: string)
    ensures |r| == |s| - Count(s, d)
    ensures forall c :: c in r <==> c in s && c != d
  {
    if s == [] then []
    else if s[0] == d then RemoveAll(s[1..], d)
    else [s[0]] + RemoveAll(s[1..], d)
  }

  lemma JoinCons(a: string, b: string, rest: seq<string>, d: char)
    ensures Join([a + b] + rest, d) == a + Join([b] + rest, d)
  {
    if rest != [] {
      assert ([a + b] + rest)[1..] == rest;
      assert ([b] + rest)[1..] == rest;
    }
  }

  /** Joining the pieces of a split gives back the original string. */
  lemma {:induction false} JoinSplit(s: string, d: char)
    ensures Join(Split(s, d), d) == s
    decreases |s|
  {
    if s != [] {
      var rest := Split(s[1..], d);
      JoinSplit(s[1..], d);
      if s[0] == d {
        assert ([""] + rest)[1..] == rest;
        assert Join([""] + rest, d) == [d] + Join(rest, d);
      } else {
        assert rest == [rest[0]] + rest[1..];
        JoinCons([s[0]], rest[0], rest[1..], d);
      }
      assert s == [s[0]] + s[1..];
    }
  }

  lemma {:induction false} SplitNoSeparator(p: string, d: char)
    requires d !in p
    ensures Split(p, d) == [p]
    decreases |p|
  {
    if p != [] {
      SplitNoSeparator(p[1..], d);
      assert p == [p[0]] + p[1..];
    }
  }

  lemma {:induction false} SplitAfterPiece(p: string, rest: string, d: char)
    requires d !in p
    ensures Split(p + [d] + rest, d) == [p] + Split(rest, d)
    decreases |p|
  {
    if p == [] {
      assert ([d] + rest)[1..] == rest;
    } else {
      var s := p + [d] + rest;
      assert s[0] == p[0] != d;
      assert s[1..] == p[1..] + [d] + rest;
      SplitAfterPiece(p[1..], rest, d);
      var tail := Split(s[1..], d);
      assert tail == [p[1..]] + Split(rest, d);
      assert Split(s, d) == [[p[0]] + tail[0]] + tail[1..];
      assert [p[0]] + p[1..] == p;
    }
  }

  /** Splitting a join of separator-free pieces gives back the pieces. */
  lemma {:induction false} SplitJoin(pieces: seq<string>, d: char)
    requires |pieces| > 0
    requires forall j | 0 <= j < |pieces| :: d !in pieces[j]
    ensures Split(Join(pieces, d), d) == pieces
    decreases |pieces|
  {
    if |pieces| == 1 {
      SplitNoSeparator(pieces[0], d);
    } else {
      SplitJoin(pieces[1..], d);
      SplitAfterPiece(pieces[0], Join(pieces[1..], d), d);
      assert [pieces[0]] + pieces[1..] == pieces;
    }
  }

  /** A trimmed string holds only characters of the original. */
  lemma TrimChars(s: string, c: char)
    requires c in Trim(s)
    ensures c in s
  {
    var t := TrimStart(s);
    var r := TrimEnd(t);
    var k :| 0 <= k < |r| && r[k] == c;
    assert t[k] == c;
    assert s[|s| - |t| + k] == c;
  }
}
