/**
 * The few string operations of JavaScript the core relies on:
 * `String.prototype.split` with a one-character separator, `trim`,
 * `toLowerCase`, `includes`, and `Number(...)` applied to a time field.
 */
module Text {
  import opened Wrappers

  /** The characters `trim` removes in this model (a subset of JavaScript's white space and line terminators). */
  predicate IsWhitespace(c: char) {
    c == ' ' || c == '\t' || c == '\n' || c == '\r' || c == '\U{000B}' || c == '\U{000C}'
    || c == '\U{00A0}' || c == '\U{FEFF}'
  }

  // ---------------------------------------------------------------- split

  /** `s.split(sep)`: the pieces of `s` between occurrences of `sep`; never empty. */
  function Split(s: string, sep: char): (parts: seq<string>)
    ensures |parts| >= 1
    ensures forall k :: 0 <= k < |parts| ==> sep !in parts[k]
  {
    if s == [] then [""]
    else
      var rest := Split(s[1..], sep);
      if s[0] == sep then [""] + rest
      else [[s[0]] + rest[0]] + rest[1..]
  }

  /** `parts.join(sep)`, the inverse of `Split`. */
  function Join(parts: seq<string>, sep: char): string
    requires |parts| >= 1
  {
    if |parts| == 1 then parts[0] else parts[0] + [sep] + Join(parts[1..], sep)
  }

  /** Splitting loses nothing: joining the pieces gives back the string. */
  lemma {:induction false} JoinSplit(s: string, sep: char)
    ensures Join(Split(s, sep), sep) == s
  {
    if s != [] {
      JoinSplit(s[1..], sep);
      var rest := Split(s[1..], sep);
      if s[0] != sep && |rest| > 1 {
        assert Join(rest, sep) == rest[0] + [sep] + Join(rest[1..], sep);
        assert rest[1..][1..] == rest[2..];
      }
    }
  }

  /** The position of the first occurrence of `c` in `s`. */
  function IndexOf(s: string, c: char): (i: nat)
    requires c in s
    ensures i < |s| && s[i] == c && c !in s[..i]
  {
    if s[0] == c then 0
    else
      assert c in s[1..] by { assert s == [s[0]] + s[1..]; }
      var k := IndexOf(s[1..], c);
      assert s[..k + 1] == [s[0]] + s[1..][..k];
      k + 1
  }

  /** With no separator in it, a string splits into itself alone. */
  lemma {:induction false} SplitWithoutSeparator(s: string, sep: char)
    requires sep !in s
    ensures Split(s, sep) == [s]
  {
    if s != [] {
      assert sep !in s[1..] by { assert forall k :: 0 <= k < |s[1..]| ==> s[1..][k] == s[k + 1]; }
      SplitWithoutSeparator(s[1..], sep);
      assert s == [s[0]] + s[1..];
    }
  }

  /**
   * With a separator in it, a string splits into the text before the first
   * separator, followed by the pieces of the text after it.
   */
  lemma {:induction false} SplitAtFirst(s: string, sep: char)
    requires sep in s
    ensures var i := IndexOf(s, sep);
      Split(s, sep) == [s[..i]] + Split(s[i + 1..], sep)
  {
    var i := IndexOf(s, sep);
    if i > 0 {
      assert sep in s[1..] by { assert s[1..][i - 1] == s[i]; }
      assert IndexOf(s[1..], sep) == i - 1;
      SplitAtFirst(s[1..], sep);
      assert s[1..][i..] == s[i + 1..];
      assert s[..i] == [s[0]] + s[1..][..i - 1];
    }
  }

  /** Splitting at the first separator: the text before it, then the pieces of the text after it. */
  lemma {:induction false} SplitAfter(pre: string, sep: char, post: string)
    requires sep !in pre
    ensures Split(pre + [sep] + post, sep) == [pre] + Split(post, sep)
  {
    var s := pre + [sep] + post;
    if pre == [] {
      assert s == [sep] + post;
    } else {
      assert s[1..] == pre[1..] + [sep] + post;
      assert sep !in pre[1..] by { assert forall k :: 0 <= k < |pre[1..]| ==> pre[1..][k] == pre[k + 1]; }
      SplitAfter(pre[1..], sep, post);
      assert s[0] == pre[0] && pre[0] != sep;
      assert [pre[0]] + pre[1..] == pre;
    }
  }

  /** There are at least two pieces exactly when the separator occurs. */
  lemma SplitHasTwoPieces(s: string, sep: char)
    ensures |Split(s, sep)| >= 2 <==> sep in s
  {
    if sep in s {
      SplitAtFirst(s, sep);
    } else {
      SplitWithoutSeparator(s, sep);
    }
  }

  // ---------------------------------------------------------------- trim

  function TrimStart(s: string): (r: string)
    ensures |r| <= |s| && r == s[|s| - |r|..]
    ensures r == [] || !IsWhitespace(r[0])
    ensures forall k :: 0 <= k < |s| - |r| ==> IsWhitespace(s[k])
  {
    if s != [] && IsWhitespace(s[0]) then
      var r := TrimStart(s[1..]);
      assert s[1..][|s| - 1 - |r|..] == s[|s| - |r|..];
      assert forall k :: 1 <= k < |s| - |r| ==> s[k] == s[1..][k - 1];
      r
    else s
  }

  function TrimEnd(s: string): (r: string)
    ensures |r| <= |s| && r == s[..|r|]
    ensures r == [] || !IsWhitespace(r[|r| - 1])
    ensures forall k :: |r| <= k < |s| ==> IsWhitespace(s[k])
  {
    if s != [] && IsWhitespace(s[|s| - 1]) then
      var r := TrimEnd(s[..|s| - 1]);
      assert s[..|s| - 1][..|r|] == s[..|r|];
      assert forall k :: |r| <= k < |s| - 1 ==> s[k] == s[..|s| - 1][k];
      r
    else s
  }

  /** `s.trim()`: `s` without its leading and trailing white space. */
  function Trim(s: string): (r: string)
    ensures r == [] || (!IsWhitespace(r[0]) && !IsWhitespace(r[|r| - 1]))
  {
    TrimEnd(TrimStart(s))
  }

  /** Every character of `w` is white space. */
  predicate AllWhitespace(w: string) {
    forall k :: 0 <= k < |w| ==> IsWhitespace(w[k])
  }

  /** `trim` gives back text whose first and last characters are not white space, whatever white space surrounds it. */
  lemma TrimSurrounded(w1: string, c: string, w2: string)
    requires AllWhitespace(w1) && AllWhitespace(w2)
    requires c != [] && !IsWhitespace(c[0]) && !IsWhitespace(c[|c| - 1])
    ensures Trim(w1 + c + w2) == c
  {
    assert w1 + c + w2 == w1 + (c + w2);
    TrimStartDrops(w1, c + w2);
    TrimEndDrops(c, w2);
  }

  /** Leading white space in front of a non-blank first character is all `trimStart` removes. */
  lemma TrimStartDrops(w: string, s: string)
    requires AllWhitespace(w) && s != [] && !IsWhitespace(s[0])
    ensures TrimStart(w + s) == s
  {
    var u := w + s;
    var r := TrimStart(u);
    assert u[|w|] == s[0];
    assert |u| - |r| <= |w|;
    assert r[0] == u[|u| - |r|];
    assert |u| - |r| == |w|;
    assert u[|w|..] == s;
  }

  /** Trailing white space behind a non-blank last character is all `trimEnd` removes. */
  lemma TrimEndDrops(s: string, w: string)
    requires AllWhitespace(w) && s != [] && !IsWhitespace(s[|s| - 1])
    ensures TrimEnd(s + w) == s
  {
    var u := s + w;
    var r := TrimEnd(u);
    assert u[|s| - 1] == s[|s| - 1];
    assert |r| >= |s|;
    assert r[|r| - 1] == u[|r| - 1];
    assert |r| == |s|;
    assert u[..|s|] == s;
  }

  /** Trimming brings in no character. */
  lemma TrimKeepsOut(s: string, c: char)
    requires c !in s
    ensures c !in Trim(s)
  {
    var r := TrimStart(s);
    var t := TrimEnd(r);
    forall k | 0 <= k < |t| ensures t[k] != c {
      assert t[k] == r[k] == s[|s| - |r| + k];
    }
  }

  // ---------------------------------------------------------------- numbers

  predicate IsDigit(c: char) { '0' <= c <= '9' }

  predicate IsDigits(s: string) { forall k :: 0 <= k < |s| ==> IsDigit(s[k]) }

  /** The decimal value of a digit string; the empty string has value 0, as `Number('')` does. */
  function DigitsValue(s: string): nat
    requires IsDigits(s)
  {
    if s == [] then 0 else 10 * DigitsValue(s[..|s| - 1]) + (s[|s| - 1] - '0') as nat
  }

  /**
   * `Number(s)` for the strings a time field holds: surrounding white space
   * is ignored and a string of decimal digits gives its value; anything else
   * is `NaN` (None).
   */
  function NumberOf(s: string): (n: Option<nat>)
    ensures n.Some? <==> IsDigits(Trim(s))
  {
    var t := Trim(s);
    if IsDigits(t) then Some(DigitsValue(t)) else None
  }

  /** The decimal digits of `n`, without leading zeros ("0" for zero). */
  function NatToString(n: nat): (s: string)
    ensures |s| >= 1 && IsDigits(s)
  {
    if n < 10 then [('0' as int + n) as char]
    else NatToString(n / 10) + [('0' as int + n % 10) as char]
  }

  /** Reading back the digits of `n` gives `n`. */
  lemma {:induction false} NatToStringValue(n: nat)
    ensures DigitsValue(NatToString(n)) == n
  {
    var s := NatToString(n);
    if n >= 10 {
      NatToStringValue(n / 10);
      assert s[..|s| - 1] == NatToString(n / 10);
    }
  }

  // ---------------------------------------------------------------- case and search

  /** `toLowerCase` on one character; only the ASCII letters are mapped in this model. */
  function LowerChar(c: char): char {
    if 'A' <= c <= 'Z' then (c as int + 32) as char else c
  }

  function ToLower(s: string): (r: string)
    ensures |r| == |s| && forall k :: 0 <= k < |s| ==> r[k] == LowerChar(s[k])
  {
    if s == [] then [] else [LowerChar(s[0])] + ToLower(s[1..])
  }

  /** `sub` occurs in `s` starting at position `i`. */
  predicate OccursAt(s: string, sub: string, i: int) {
    0 <= i <= |s| - |sub| && s[i..i + |sub|] == sub
  }

  /** `s.includes(sub)`: `sub` occurs somewhere in `s`. */
  function Contains(s: string, sub: string): (b: bool)
    ensures b <==> exists i :: OccursAt(s, sub, i)
  {
    if |sub| > |s| then false
    else if s[..|sub|] == sub then
      assert OccursAt(s, sub, 0);
      true
    else
      var b := Contains(s[1..], sub);
      assert forall i :: OccursAt(s[1..], sub, i) <==> OccursAt(s, sub, i + 1) by {
        forall i ensures OccursAt(s[1..], sub, i) <==> OccursAt(s, sub, i + 1) {
          if 0 <= i <= |s[1..]| - |sub| {
            assert s[1..][i..i + |sub|] == s[i + 1..i + 1 + |sub|];
          }
        }
      }
      assert !OccursAt(s, sub, 0);
      assert (exists i :: OccursAt(s, sub, i)) ==> exists i :: OccursAt(s[1..], sub, i) by {
        if exists i :: OccursAt(s, sub, i) {
          var i :| OccursAt(s, sub, i);
          assert OccursAt(s[1..], sub, i - 1);
        }
      }
      b
  }
}
