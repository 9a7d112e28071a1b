/**
 * The JavaScript string operations the deck-list parser uses, on strings as
 * sequences of characters: `trim`, `split` and `join` with a one-character
 * separator, `indexOf`, `slice(0, end)`, `replace` of a one-character
 * pattern, the decimal-digit subset of `Number(...)`, and the `<` order on
 * strings.
 */
module Strings {

  /** The characters `String.prototype.trim` strips: ECMAScript WhiteSpace and LineTerminator. */
  predicate IsWhite(c: char) {
    c == '\t' || c == '\U{000B}' || c == '\U{000C}' || c == ' ' || c == '\U{00A0}' || c == '\U{FEFF}'
    || c == '\U{1680}' || ('\U{2000}' <= c <= '\U{200A}') || c == '\U{202F}' || c == '\U{205F}'
    || c == '\U{3000}' || c == '\n' || c == '\r' || c == '\U{2028}' || c == '\U{2029}'
  }

  /** The number of white-space characters `s` starts with. */
  function LeadingWhite(s: string): (n: nat)
    ensures n <= |s| && (n < |s| ==> !IsWhite(s[n]))
    ensures forall k :: 0 <= k < n ==> IsWhite(s[k])
  {
    if s != [] && IsWhite(s[0]) then 1 + LeadingWhite(s[1..]) else 0
  }

  function TrimEnd(s: string): (r: string)
    ensures |r| <= |s| && r == s[..|r|]
    ensures forall k :: |r| <= k < |s| ==> IsWhite(s[k])
    ensures r == [] || !IsWhite(r[|r| - 1])
  {
    if s != [] && IsWhite(s[|s| - 1]) then TrimEnd(s[..|s| - 1]) else s
  }

  /**
   * `s.trim()`: what is left after the leading and the trailing white space;
   * it neither starts nor ends with white space.
   */
  function Trim(s: string): (r: string)
    ensures LeadingWhite(s) + |r| <= |s| && r == s[LeadingWhite(s)..LeadingWhite(s) + |r|]
    ensures forall k :: LeadingWhite(s) + |r| <= k < |s| ==> IsWhite(s[k])
    ensures r == [] || (!IsWhite(r[0]) && !IsWhite(r[|r| - 1]))
    ensures r == [] <==> forall k :: 0 <= k < |s| ==> IsWhite(s[k])
    ensures forall c :: c in r ==> c in s
  {
    var i := LeadingWhite(s);
    var r := TrimEnd(s[i..]);
    assert forall k :: i + |r| <= k < |s| ==> IsWhite(s[k]) by {
      forall k | i + |r| <= k < |s| ensures IsWhite(s[k]) {
        assert s[k] == s[i..][k - i];
      }
    }
    r
  }

  /** `s.indexOf(c)`: the position of the first `c`, or -1. */
  function IndexOf(s: string, c: char): (r: int)
    ensures -1 <= r < |s|
    ensures r == -1 <==> c !in s
    ensures 0 <= r ==> s[r] == c && c !in s[..r]
  {
    if s == [] then -1
    else if s[0] == c then 0
    else
      var k := IndexOf(s[1..], c);
      if k == -1 then -1 else k + 1
  }

  /** `s.slice(0, end)` for a non-negative `end`: the slice is clamped to the string. */
  function SliceTo(s: string, end: int): (r: string)
    requires 0 <= end
    ensures r == s[..if end < |s| then end else |s|]
  {
    if end < |s| then s[..end] else s
  }

  /** `s.replace(c, '')` with a one-character string pattern: only the first `c` goes. */
  function RemoveFirst(s: string, c: char): (r: string)
    ensures c !in s ==> r == s
    ensures c in s ==> |r| == |s| - 1 && multiset(r) + multiset{c} == multiset(s)
    ensures c in s ==> r[..IndexOf(s, c)] == s[..IndexOf(s, c)] && c !in r[..IndexOf(s, c)]
    ensures c in s ==> r[IndexOf(s, c)..] == s[IndexOf(s, c) + 1..]
  {
    var i := IndexOf(s, c);
    if i == -1 then s
    else
      assert s == s[..i] + [s[i]] + s[i + 1..];
      s[..i] + s[i + 1..]
  }

  /** `parts.join([sep])`. */
  function Join(parts: seq<string>, sep: char): string {
    if |parts| == 0 then ""
    else if |parts| == 1 then parts[0]
    else parts[0] + [sep] + Join(parts[1..], sep)
  }

  /**
   * The first piece leads the join, and pieces free of the separator are
   * glued with exactly one separator between neighbours.
   */
  lemma {:induction false} JoinSeparators(parts: seq<string>, sep: char)
    requires |parts| >= 1
    ensures parts[0] <= Join(parts, sep)
    ensures (forall p :: p in parts ==> sep !in p) ==> multiset(Join(parts, sep))[sep] == |parts| - 1
  {
    assert sep !in parts[0] ==> multiset(parts[0])[sep] == 0;
    if |parts| > 1 {
      var rest := Join(parts[1..], sep);
      JoinSeparators(parts[1..], sep);
      assert forall p :: p in parts[1..] ==> p in parts;
      assert Join(parts, sep) == parts[0] + [sep] + rest;
      assert multiset(parts[0] + [sep] + rest) == multiset(parts[0]) + multiset{sep} + multiset(rest);
    }
  }

  /** `parts.join('')`. */
  function Concat(parts: seq<string>): string {
    if parts == [] then "" else parts[0] + Concat(parts[1..])
  }

  /** The pieces glued without a separator give empty text exactly when every piece is empty. */
  lemma {:induction false} ConcatEmpty(parts: seq<string>)
    ensures Concat(parts) == "" <==> forall p :: p in parts ==> p == ""
  {
    if parts != [] {
      var rest := parts[1..];
      ConcatEmpty(rest);
      assert Concat(parts) == parts[0] + Concat(rest);
      assert forall p :: p in parts <==> p == parts[0] || p in rest by {
        assert parts == [parts[0]] + rest;
      }
      if Concat(parts) == "" {
        assert |parts[0]| == 0 && |Concat(rest)| == 0;
        assert parts[0] == "" && Concat(rest) == "";
      } else if parts[0] == "" {
        assert Concat(parts) == Concat(rest);
        var q :| q in rest && q != "";
        assert q in parts;
      } else {
        assert parts[0] in parts;
      }
    }
  }

  /** `s.split(sep)` for a one-character separator: every piece, empty ones included. */
  function Split(s: string, sep: char): (parts: seq<string>)
    ensures |parts| >= 1
    ensures forall p :: p in parts ==> sep !in p
    ensures Join(parts, sep) == s
    decreases |s|
  {
    var i := IndexOf(s, sep);
    if i == -1 then [s]
    else
      var rest := Split(s[i + 1..], sep);
      var parts := [s[..i]] + rest;
      assert parts[0] == s[..i] && parts[1..] == rest;
      assert s == s[..i] + [sep] + s[i + 1..];
      parts
  }

  lemma {:induction false} JoinAppend(p: seq<string>, q: seq<string>, sep: char)
    requires |p| >= 1 && |q| >= 1
    ensures Join(p + q, sep) == Join(p, sep) + [sep] + Join(q, sep)
  {
    if |p| == 1 {
      assert p + q == [p[0]] + q;
      assert (p + q)[1..] == q;
    } else {
      assert (p + q)[1..] == p[1..] + q;
      JoinAppend(p[1..], q, sep);
    }
  }

  /** A text with no white space at either end is its own trim. */
  lemma TrimUntouched(s: string)
    requires s != [] && !IsWhite(s[0]) && !IsWhite(s[|s| - 1])
    ensures Trim(s) == s
  {
    assert LeadingWhite(s) == 0;
    assert s[0..] == s;
  }

  /** The converse of `Split`'s round trip: pieces free of the separator come back out of `Split(Join(...))`. */
  lemma {:induction false} SplitJoin(parts: seq<string>, sep: char)
    requires |parts| >= 1
    requires forall p :: p in parts ==> sep !in p
    ensures Split(Join(parts, sep), sep) == parts
  {
    if |parts| == 1 {
      assert IndexOf(parts[0], sep) == -1;
    } else {
      SplitCons(parts[0], sep, Join(parts[1..], sep));
      SplitJoin(parts[1..], sep);
      assert parts == [parts[0]] + parts[1..];
    }
  }

  /** A first part free of the separator comes off as the first piece. */
  lemma SplitCons(p: string, sep: char, tail: string)
    requires sep !in p
    ensures Split(p + [sep] + tail, sep) == [p] + Split(tail, sep)
  {
    var s := p + [sep] + tail;
    IndexOfAfterFree(p, sep, tail);
    assert s[..|p|] == p;
    assert s[|p| + 1..] == tail;
  }

  lemma {:induction false} IndexOfAfterFree(a: string, c: char, b: string)
    requires c !in a
    ensures IndexOf(a + [c] + b, c) == |a|
  {
    if a != [] {
      assert (a + [c] + b)[1..] == a[1..] + [c] + b;
      IndexOfAfterFree(a[1..], c, b);
    }
  }

  /** Splitting two texts glued by the separator splits each of them. */
  lemma SplitAppend(a: string, b: string, sep: char)
    ensures Split(a + [sep] + b, sep) == Split(a, sep) + Split(b, sep)
  {
    var pa, pb := Split(a, sep), Split(b, sep);
    JoinAppend(pa, pb, sep);
    SplitJoin(pa + pb, sep);
  }

  /** `tokens.slice(1).join(sep)` after `s.split(sep)` is everything after the first separator. */
  lemma TailAfterFirst(s: string, sep: char)
    ensures Join(Split(s, sep)[1..], sep) == if sep in s then s[IndexOf(s, sep) + 1..] else ""
    ensures Split(s, sep)[0] == if sep in s then s[..IndexOf(s, sep)] else s
  {
    var i := IndexOf(s, sep);
    if i != -1 {
      assert Split(s, sep)[1..] == Split(s[i + 1..], sep);
    }
  }

  predicate IsDigit(c: char) {
    '0' <= c <= '9'
  }

  predicate AllDigits(s: string) {
    forall i :: 0 <= i < |s| ==> IsDigit(s[i])
  }

  /** The value of a string of decimal digits; "" is 0, and so is any run of zeros. */
  function ParseDecimal(s: string): (n: nat)
    requires AllDigits(s)
    ensures n > 0 <==> exists i :: 0 <= i < |s| && s[i] != '0'
  {
    if s == [] then 0
    else
      var init := s[..|s| - 1];
      var m := ParseDecimal(init);
      assert forall i :: 0 <= i < |init| ==> init[i] == s[i];
      assert (exists i :: 0 <= i < |s| && s[i] != '0') <==>
        (exists i :: 0 <= i < |init| && init[i] != '0') || s[|s| - 1] != '0';
      10 * m + (s[|s| - 1] as int - '0' as int)
  }

  /** The decimal numeral of `n`, without leading zeros. */
  function ShowDecimal(n: nat): (s: string)
    ensures AllDigits(s) && s != []
  {
    if n < 10 then ['0' + n as char]
    else ShowDecimal(n / 10) + ['0' + (n % 10) as char]
  }

  /** Every count can be written as an amount that parses back to it. */
  lemma {:induction false} ParseShowDecimal(n: nat)
    ensures ParseDecimal(ShowDecimal(n)) == n
  {
    var s := ShowDecimal(n);
    if n >= 10 {
      assert s[..|s| - 1] == ShowDecimal(n / 10);
      ParseShowDecimal(n / 10);
    }
  }

  /** A leading zero does not change the amount: `04` reads as 4, as `+"04"` does. */
  lemma {:induction false} ParseDecimalLeadingZero(s: string)
    requires AllDigits(s)
    ensures AllDigits(['0'] + s) && ParseDecimal(['0'] + s) == ParseDecimal(s)
  {
    var t := ['0'] + s;
    assert forall i :: 0 < i < |t| ==> t[i] == s[i - 1];
    if s != [] {
      assert t[..|t| - 1] == ['0'] + s[..|s| - 1];
      ParseDecimalLeadingZero(s[..|s| - 1]);
    }
  }

  /** A numeral without a leading zero is the decimal numeral of the number it reads as. */
  lemma {:induction false} ShowParseDecimal(s: string)
    requires AllDigits(s) && s != [] && (s[0] != '0' || |s| == 1)
    ensures ShowDecimal(ParseDecimal(s)) == s
  {
    var n := ParseDecimal(s);
    if |s| > 1 {
      var init := s[..|s| - 1];
      assert init[0] == s[0];
      ShowParseDecimal(init);
      assert ParseDecimal(init) > 0;
      assert n / 10 == ParseDecimal(init) && n % 10 == s[|s| - 1] as int - '0' as int;
      assert s == init + [s[|s| - 1]];
    }
  }

  /** JavaScript's `a < b` on strings: lexicographic, a proper prefix first. */
  predicate StrLt(a: string, b: string) {
    if a == [] then b != []
    else if b == [] then false
    else if a[0] != b[0] then a[0] < b[0]
    else StrLt(a[1..], b[1..])
  }

  /**
   * The order spelled out: `a` sorts first exactly when it is a proper
   * prefix of `b`, or when at the first position where the two differ `a`
   * holds the smaller character.
   */
  lemma {:induction false} StrLtCharacterized(a: string, b: string)
    ensures StrLt(a, b) <==>
      (|a| < |b| && a == b[..|a|]) ||
      exists i :: 0 <= i < |a| && i < |b| && a[..i] == b[..i] && a[i] < b[i]
  {
    if a == [] || b == [] {
    } else if a[0] != b[0] {
      if a[0] < b[0] {
        assert a[..0] == b[..0];
      }
      if |a| < |b| {
        assert b[..|a|][0] == b[0];
      }
    } else {
      var a', b' := a[1..], b[1..];
      StrLtCharacterized(a', b');
      assert (|a| < |b| && a == b[..|a|]) <==> (|a'| < |b'| && a' == b'[..|a'|]) by {
        if |a| < |b| && a == b[..|a|] {
          assert b[..|a|][1..] == b'[..|a'|];
        }
        if |a'| < |b'| && a' == b'[..|a'|] {
          assert a == [a[0]] + a';
          assert b[..|a|] == [b[0]] + b'[..|a'|];
        }
      }
      if i :| 0 <= i < |a| && i < |b| && a[..i] == b[..i] && a[i] < b[i] {
        assert i > 0;
        assert a'[..i - 1] == a[..i][1..] && b'[..i - 1] == b[..i][1..];
        assert a'[i - 1] < b'[i - 1];
      }
      if j :| 0 <= j < |a'| && j < |b'| && a'[..j] == b'[..j] && a'[j] < b'[j] {
        assert a[..j + 1] == [a[0]] + a'[..j] && b[..j + 1] == [b[0]] + b'[..j];
        assert a[j + 1] < b[j + 1];
      }
    }
  }

  lemma {:induction false} StrLtIrreflexive(a: string)
    ensures !StrLt(a, a)
  {
    if a != [] { StrLtIrreflexive(a[1..]); }
  }

  lemma {:induction false} StrLtTransitive(a: string, b: string, c: string)
    requires StrLt(a, b) && StrLt(b, c)
    ensures StrLt(a, c)
  {
    if a != [] && b != [] && c != [] && a[0] == b[0] == c[0] {
      StrLtTransitive(a[1..], b[1..], c[1..]);
    }
  }

  lemma {:induction false} StrLtTotal(a: string, b: string)
    ensures a == b || StrLt(a, b) || StrLt(b, a)
  {
    if a != [] && b != [] && a[0] == b[0] {
      StrLtTotal(a[1..], b[1..]);
      if a[1..] == b[1..] {
        assert a == [a[0]] + a[1..] && b == [b[0]] + b[1..];
      }
    }
  }
}
