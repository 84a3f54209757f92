/** The Python string operations the backend relies on, with the semantics of
    CPython's `str` methods: `lower`, `split(sep)`, `sep.join`, `replace`,
    `rfind`, `str(int)`, `isspace`/`strip` and slicing `s[:n]`. */
module PyStr {

  // ---------------------------------------------------------------------------
  // str.lower (on ASCII letters)
  // ---------------------------------------------------------------------------

  function LowerChar(c: char): char
  {
    if 'A' <= c <= 'Z' then (c as int - 'A' as int + 'a' as int) as char else c
  }

  function Lower(s: string): (r: string)
    ensures |r| == |s|
  {
    seq(|s|, i requires 0 <= i < |s| => LowerChar(s[i]))
  }

  /** No upper-case ASCII letter occurs in `s`. */
  predicate IsLower(s: string)
  {
    forall i :: 0 <= i < |s| ==> !('A' <= s[i] <= 'Z')
  }

  lemma LowerIsLower(s: string)
    ensures IsLower(Lower(s))
  {
  }

  /** Lower-casing changes nothing in a string that is already lower case. */
  lemma LowerOfLower(s: string)
    requires IsLower(s)
    ensures Lower(s) == s
  {
  }

  /** Lower-casing neither creates nor removes a character that is not a
      letter: a string without `c` stays without it. */
  lemma LowerKeepsAbsent(s: string, c: char)
    requires !('A' <= c <= 'Z') && !('a' <= c <= 'z') && c !in s
    ensures c !in Lower(s)
  {
    forall i | 0 <= i < |s|
      ensures Lower(s)[i] != c
    {
      assert s[i] != c;
    }
  }

  /** Lower-casing works character by character, so it distributes over concatenation. */
  lemma LowerAppend(a: string, b: string)
    ensures Lower(a + b) == Lower(a) + Lower(b)
  {
  }

  lemma LowerIdempotent(s: string)
    ensures Lower(Lower(s)) == Lower(s)
  {
    LowerIsLower(s);
    LowerOfLower(Lower(s));
  }

  // ---------------------------------------------------------------------------
  // str.split(sep) and sep.join(parts), for a one-character separator
  // ---------------------------------------------------------------------------

  /** `s.split(c)`: the pieces between occurrences of `c`; k separators give
      k + 1 pieces, and the empty string gives `['']`. */
  function Split(s: string, c: char): (r: seq<string>)
    ensures |r| >= 1
    decreases |s|
  {
    if s == [] then [""]
    else
      var rest := Split(s[1..], c);
      if s[0] == c then [""] + rest else [[s[0]] + rest[0]] + rest[1..]
  }

  /** `sep.join(parts)`. */
  function Join(sep: string, parts: seq<string>): string
    decreases |parts|
  {
    if |parts| == 0 then ""
    else if |parts| == 1 then parts[0]
    else parts[0] + sep + Join(sep, parts[1..])
  }

  lemma JoinCons(sep: string, a: string, b: string, ys: seq<string>)
    ensures Join(sep, [a + b] + ys) == a + Join(sep, [b] + ys)
  {
    if ys != [] {
      assert ([a + b] + ys)[1..] == ys;
      assert ([b] + ys)[1..] == ys;
    }
  }

  /** Joining the pieces of a split with the same separator gives the string
      back: `c.join(s.split(c)) == s`. */
  lemma {:induction false} JoinSplit(s: string, c: char)
    ensures Join([c], Split(s, c)) == s
    decreases |s|
  {
    if s != [] {
      var rest := Split(s[1..], c);
      JoinSplit(s[1..], c);
      if s[0] == c {
        assert ([""] + rest)[1..] == rest;
      } else {
        assert rest == [rest[0]] + rest[1..];
        JoinCons([c], [s[0]], rest[0], rest[1..]);
      }
      assert s == [s[0]] + s[1..];
    }
  }

  /** Splitting a string that starts with a separator-free prefix `a`. */
  lemma {:induction false} SplitPrefix(a: string, t: string, c: char)
    requires c !in a
    ensures Split(a + t, c) == [a + Split(t, c)[0]] + Split(t, c)[1..]
    decreases |a|
  {
    if a != [] {
      var rest := Split(a[1..] + t, c);
      SplitPrefix(a[1..], t, c);
      assert (a + t)[1..] == a[1..] + t;
      assert (a + t)[0] == a[0] != c;
      assert Split(a + t, c) == [[a[0]] + rest[0]] + rest[1..];
      assert rest[0] == a[1..] + Split(t, c)[0];
      assert rest[1..] == Split(t, c)[1..];
      assert [a[0]] + (a[1..] + Split(t, c)[0]) == a + Split(t, c)[0];
    } else {
      assert a + t == t;
      assert a + Split(t, c)[0] == Split(t, c)[0];
      assert Split(t, c) == [Split(t, c)[0]] + Split(t, c)[1..];
    }
  }

  /** The pieces of a join come back out of a split when no piece holds the
      separator: `c.join(xs).split(c) == xs`. */
  lemma {:induction false} SplitJoin(xs: seq<string>, c: char)
    requires |xs| >= 1
    requires forall i :: 0 <= i < |xs| ==> c !in xs[i]
    ensures Split(Join([c], xs), c) == xs
    decreases |xs|
  {
    if |xs| == 1 {
      SplitPrefix(xs[0], "", c);
      assert xs[0] + "" == xs[0];
      assert Split("", c) == [""];
      assert Split("", c)[1..] == [];
      assert Join([c], xs) == xs[0];
      assert xs == [xs[0]];
    } else {
      var tail := Join([c], xs[1..]);
      SplitJoin(xs[1..], c);
      SplitPrefix(xs[0], [c] + tail, c);
      assert xs[0] + [c] + tail == xs[0] + ([c] + tail);
      assert ([c] + tail)[1..] == tail;
      assert Split([c] + tail, c) == [""] + Split(tail, c);
      assert ([""] + Split(tail, c))[1..] == Split(tail, c);
      assert xs[0] + "" == xs[0];
      assert xs == [xs[0]] + xs[1..];
    }
  }

  // ---------------------------------------------------------------------------
  // str.replace(c, r) for a one-character pattern
  // ---------------------------------------------------------------------------

  function ReplaceChar(s: string, c: char, r: string): string
    decreases |s|
  {
    if s == [] then ""
    else (if s[0] == c then r else [s[0]]) + ReplaceChar(s[1..], c, r)
  }

  /** Python's identity `s.replace(c, r) == r.join(s.split(c))`: the replacement
      agrees with an independent definition through split and join. */
  lemma {:induction false} ReplaceIsJoinOfSplit(s: string, c: char, r: string)
    ensures ReplaceChar(s, c, r) == Join(r, Split(s, c))
    decreases |s|
  {
    if s != [] {
      var rest := Split(s[1..], c);
      ReplaceIsJoinOfSplit(s[1..], c, r);
      if s[0] == c {
        assert ([""] + rest)[1..] == rest;
      } else {
        assert rest == [rest[0]] + rest[1..];
        JoinCons(r, [s[0]], rest[0], rest[1..]);
      }
    }
  }

  /** Every occurrence of `c` is gone after replacing it with a string without `c`. */
  lemma {:induction false} ReplaceRemoves(s: string, c: char, r: string)
    requires c !in r
    ensures c !in ReplaceChar(s, c, r)
    decreases |s|
  {
    if s != [] {
      ReplaceRemoves(s[1..], c, r);
    }
  }

  /** Replacing a character that does not occur changes nothing. */
  lemma {:induction false} ReplaceAbsent(s: string, c: char, r: string)
    requires c !in s
    ensures ReplaceChar(s, c, r) == s
    decreases |s|
  {
    if s != [] {
      ReplaceAbsent(s[1..], c, r);
      assert s == [s[0]] + s[1..];
    }
  }

  /** Replacement keeps letters' case: a lower-case string stays lower case
      when the replacement is lower case. */
  lemma {:induction false} ReplaceKeepsLower(s: string, c: char, r: string)
    requires IsLower(s) && IsLower(r)
    ensures IsLower(ReplaceChar(s, c, r))
    decreases |s|
  {
    if s != [] {
      ReplaceKeepsLower(s[1..], c, r);
      var head := if s[0] == c then r else [s[0]];
      var tail := ReplaceChar(s[1..], c, r);
      assert ReplaceChar(s, c, r) == head + tail;
      assert forall i :: 0 <= i < |head + tail| ==>
        (head + tail)[i] == if i < |head| then head[i] else tail[i - |head|];
    }
  }

  // ---------------------------------------------------------------------------
  // str.rfind(c)
  // ---------------------------------------------------------------------------

  /** `s.rfind(c)`: the index of the last `c`, or -1 when there is none. */
  function LastIndexOf(s: string, c: char): (i: int)
    ensures -1 <= i < |s|
    ensures i >= 0 ==> s[i] == c && forall j :: i < j < |s| ==> s[j] != c
    ensures i < 0 ==> c !in s
    decreases |s|
  {
    if s == [] then -1
    else if s[|s| - 1] == c then |s| - 1
    else LastIndexOf(s[..|s| - 1], c)
  }

  // ---------------------------------------------------------------------------
  // str(n) for a natural number
  // ---------------------------------------------------------------------------

  function DigitChar(d: nat): char
    requires d < 10
  {
    "0123456789"[d]
  }

  predicate IsDigit(c: char)
  {
    '0' <= c <= '9'
  }

  /** The decimal spelling of `n`, without leading zeros. */
  function Decimal(n: nat): (r: string)
    ensures |r| >= 1
    ensures forall i :: 0 <= i < |r| ==> IsDigit(r[i])
    decreases n
  {
    if n < 10 then [DigitChar(n)] else Decimal(n / 10) + [DigitChar(n % 10)]
  }

  /** Different numbers are spelled differently, so `page_1`, `page_2`, ... are
      distinct names. */
  lemma {:induction false} DecimalInjective(a: nat, b: nat)
    requires Decimal(a) == Decimal(b)
    ensures a == b
    decreases a
  {
    var da, db := Decimal(a), Decimal(b);
    if a < 10 && b < 10 {
      assert DigitChar(a) == da[0] == DigitChar(b);
    } else if a < 10 || b < 10 {
      // one spelling has a single digit, the other at least two
    } else {
      assert da[..|da| - 1] == Decimal(a / 10);
      assert db[..|db| - 1] == Decimal(b / 10);
      DecimalInjective(a / 10, b / 10);
      assert DigitChar(a % 10) == da[|da| - 1] == DigitChar(b % 10);
    }
  }

  // ---------------------------------------------------------------------------
  // str.isspace / str.strip
  // ---------------------------------------------------------------------------

  /** The characters CPython's `str.isspace` accepts. */
  predicate IsSpace(c: char)
  {
    var n := c as int;
    n == 0x20 || 0x09 <= n <= 0x0D || 0x1C <= n <= 0x1F || n == 0x85 || n == 0xA0
    || n == 0x1680 || 0x2000 <= n <= 0x200A || n == 0x2028 || n == 0x2029
    || n == 0x202F || n == 0x205F || n == 0x3000
  }

  /** `s.strip()` is empty exactly when every character of `s` is white space. */
  predicate IsBlank(s: string)
  {
    forall i :: 0 <= i < |s| ==> IsSpace(s[i])
  }

  // ---------------------------------------------------------------------------
  // s[:n]
  // ---------------------------------------------------------------------------

  /** `s[:n]`: at most the first `n` characters. */
  function Truncate(s: string, n: nat): (r: string)
    ensures |r| <= n && r <= s
    ensures |s| <= n ==> r == s
    ensures n <= |s| ==> |r| == n
  {
    if |s| <= n then s else s[..n]
  }
}
