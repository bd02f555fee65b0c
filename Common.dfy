/** Shared vocabulary: optional values, results, order-preserving filtering,
    decimal text as JavaScript's String(n) writes it, and the BINARY text
    collation SQLite uses to compare and sort TEXT columns. */
module Common {

  datatype Option<+T> = None | Some(value: T)

  datatype Result<+T, +E> = Ok(value: T) | Err(error: E)

  /** JavaScript `s || null` for a string: the empty string is falsy. */
  function StrOrNull(s: Option<string>): Option<string>
  {
    if s.Some? && s.value != "" then s else None
  }

  /** JavaScript `n || null` for a number: zero is falsy. */
  function IntOrNull(n: Option<int>): Option<int>
  {
    if n.Some? && n.value != 0 then n else None
  }

  /** JavaScript `s || fallback` for a string. */
  function StrOr(s: Option<string>, fallback: string): string
  {
    if s.Some? && s.value != "" then s.value else fallback
  }

  /** JavaScript `n || 0` for a number. */
  function IntOr0(n: Option<int>): int
  {
    if n.Some? then n.value else 0
  }

  /** The elements of `s` that satisfy `p`, in their original order.
      Defined from the end so that appending one element unfolds directly. */
  function Filter<T(!new)>(s: seq<T>, p: T -> bool): (r: seq<T>)
    ensures |r| <= |s|
    ensures forall x :: x in r <==> x in s && p(x)
    ensures forall x :: multiset(r)[x] == if p(x) then multiset(s)[x] else 0
    decreases |s|
  {
    if s == [] then []
    else
      var init := s[..|s| - 1];
      var last := s[|s| - 1];
      assert s == init + [last];
      var rest := Filter(init, p);
      if p(last) then rest + [last] else rest
  }

  lemma {:induction false} FilterAppend<T(!new)>(a: seq<T>, b: seq<T>, p: T -> bool)
    ensures Filter(a + b, p) == Filter(a, p) + Filter(b, p)
    decreases |b|
  {
    if b == [] {
      assert a + b == a;
    } else {
      var b' := b[..|b| - 1];
      assert (a + b)[..|a + b| - 1] == a + b';
      FilterAppend(a, b', p);
    }
  }

  /** The index of the first element satisfying `p`, if any. */
  function IndexWhere<T>(s: seq<T>, p: T -> bool): (r: Option<nat>)
    ensures r.Some? ==> r.value < |s| && p(s[r.value]) && forall i :: 0 <= i < r.value ==> !p(s[i])
    ensures r.None? ==> forall i :: 0 <= i < |s| ==> !p(s[i])
  {
    if s == [] then None
    else if p(s[0]) then Some(0)
    else match IndexWhere(s[1..], p)
      case None => None
      case Some(k) => Some(k + 1)
  }

  lemma AppendAssoc<T>(a: seq<T>, b: seq<T>, c: seq<T>)
    ensures (a + b) + c == a + (b + c)
  {
  }

  lemma FilterNone<T(!new)>(s: seq<T>, p: T -> bool)
    requires forall x :: x in s ==> !p(x)
    ensures Filter(s, p) == []
  {
    if Filter(s, p) != [] {
      assert Filter(s, p)[0] in Filter(s, p);
    }
  }

  lemma {:induction false} FilterAll<T(!new)>(s: seq<T>, p: T -> bool)
    requires forall x :: x in s ==> p(x)
    ensures Filter(s, p) == s
    decreases |s|
  {
    if s != [] {
      assert s == s[..|s| - 1] + [s[|s| - 1]];
      FilterAll(s[..|s| - 1], p);
    }
  }

  // ---- decimal text ----

  predicate IsDigit(c: char) { '0' <= c <= '9' }

  /** Every character is a decimal digit. */
  predicate IsDigits(s: string)
  {
    s == [] || (IsDigit(s[0]) && IsDigits(s[1..]))
  }

  lemma {:induction false} DigitsSnoc(s: string, c: char)
    ensures IsDigits(s + [c]) <==> IsDigits(s) && IsDigit(c)
  {
    if s != [] {
      assert (s + [c])[1..] == s[1..] + [c];
      DigitsSnoc(s[1..], c);
    }
  }

  function DigitChar(d: nat): (c: char)
    requires d < 10
    ensures IsDigit(c)
  {
    ['0', '1', '2', '3', '4', '5', '6', '7', '8', '9'][d]
  }

  function DigitValue(c: char): nat
    requires IsDigit(c)
  {
    (c as int) - ('0' as int)
  }

  /** The decimal digits of `n`, without leading zeros (JavaScript String(n)). */
  function NatStr(n: nat): (r: string)
    ensures |r| >= 1 && IsDigits(r)
    ensures n < 10 <==> |r| == 1
  {
    if n < 10 then [DigitChar(n)]
    else
      DigitsSnoc(NatStr(n / 10), DigitChar(n % 10));
      NatStr(n / 10) + [DigitChar(n % 10)]
  }

  /** JavaScript String(i) for an integer. */
  function IntStr(i: int): string
  {
    if i < 0 then "-" + NatStr(-i) else NatStr(i)
  }

  /** The value of a string of decimal digits (leading zeros allowed). */
  function ParseNat(s: string): nat
    requires IsDigits(s)
  {
    if s == [] then 0
    else
      assert s == s[..|s| - 1] + [s[|s| - 1]];
      DigitsSnoc(s[..|s| - 1], s[|s| - 1]);
      ParseNat(s[..|s| - 1]) * 10 + DigitValue(s[|s| - 1])
  }

  lemma {:induction false} ParseNatStr(n: nat)
    ensures ParseNat(NatStr(n)) == n
  {
    if n >= 10 {
      var s := NatStr(n);
      assert s[..|s| - 1] == NatStr(n / 10);
      ParseNatStr(n / 10);
    } else {
      assert DigitValue(DigitChar(n)) == n;
    }
  }

  /** JavaScript String(s).padStart(2, '0'). */
  function Pad2(s: string): string
  {
    if |s| == 0 then "00" else if |s| == 1 then "0" + s else s
  }

  lemma Pad2NatStr(n: nat)
    requires n < 100
    ensures |Pad2(NatStr(n))| == 2 && IsDigits(Pad2(NatStr(n)))
    ensures ParseNat(Pad2(NatStr(n))) == n
  {
    ParseNatStr(n);
    var s := NatStr(n);
    if n < 10 {
      assert Pad2(s) == ['0', s[0]];
      assert Pad2(s)[..1] == ['0'];
      assert ParseNat(['0']) == 0 by {
        assert ['0'][..0] == [];
      }
      assert ParseNat(Pad2(s)) == DigitValue(s[0]);
      assert s[..0] == [];
    } else {
      assert NatStr(n / 10) == [DigitChar(n / 10)];
    }
  }

  /** The longest prefix of decimal digits, and what follows it. */
  function TakeDigits(s: string): (r: (string, string))
    ensures IsDigits(r.0)
  {
    if s == [] || !IsDigit(s[0]) then ([], s)
    else
      var rest := TakeDigits(s[1..]);
      ([s[0]] + rest.0, rest.1)
  }

  /** TakeDigits cuts `s` in two, after the last digit of its first run. */
  lemma {:induction false} TakeDigitsCuts(s: string)
    ensures var (d, rest) := TakeDigits(s);
      d + rest == s && (rest != [] ==> !IsDigit(rest[0]))
  {
    if s != [] && IsDigit(s[0]) {
      TakeDigitsCuts(s[1..]);
      assert s == [s[0]] + s[1..];
    }
  }

  lemma {:induction false} TakeDigitsSplit(d: string, rest: string)
    requires IsDigits(d)
    requires rest != [] ==> !IsDigit(rest[0])
    ensures TakeDigits(d + rest) == (d, rest)
  {
    if d != [] {
      assert (d + rest)[1..] == d[1..] + rest;
      TakeDigitsSplit(d[1..], rest);
      assert [d[0]] + d[1..] == d;
    } else {
      assert d + rest == rest;
    }
  }

  // ---- SQLite BINARY collation on TEXT ----

  /** Three-way comparison of two strings, character by character; a proper
      prefix sorts first. Code-point order is the byte order of UTF-8. */
  function CmpStr(a: string, b: string): (c: int)
    ensures -1 <= c <= 1
  {
    if a == [] && b == [] then 0
    else if a == [] then -1
    else if b == [] then 1
    else if a[0] < b[0] then -1
    else if a[0] > b[0] then 1
    else CmpStr(a[1..], b[1..])
  }

  lemma {:induction false} CmpStrAntisym(a: string, b: string)
    ensures CmpStr(a, b) == -CmpStr(b, a)
  {
    if a != [] && b != [] && a[0] == b[0] {
      CmpStrAntisym(a[1..], b[1..]);
    }
  }

  lemma {:induction false} CmpStrZero(a: string, b: string)
    ensures CmpStr(a, b) == 0 <==> a == b
  {
    if a != [] && b != [] && a[0] == b[0] {
      CmpStrZero(a[1..], b[1..]);
      if a[1..] == b[1..] {
        assert a == [a[0]] + a[1..] && b == [b[0]] + b[1..];
      }
    }
  }

  lemma {:induction false} CmpStrTrans(a: string, b: string, c: string)
    requires CmpStr(a, b) < 0 && CmpStr(b, c) < 0
    ensures CmpStr(a, c) < 0
  {
    if a != [] && b != [] && c != [] && a[0] == b[0] && b[0] == c[0] {
      CmpStrTrans(a[1..], b[1..], c[1..]);
    }
  }
}
