/** The parts of Go's `strings`, `strconv` and `fmt` packages that the file
    system and the handler use, on `string` = `seq<char>`. These are models
    of the Go standard library, not repository code. */
module Strs {

  predicate HasPrefix(s: string, prefix: string)
  {
    |prefix| <= |s| && s[..|prefix|] == prefix
  }

  predicate HasSuffix(s: string, suffix: string)
  {
    |suffix| <= |s| && s[|s| - |suffix|..] == suffix
  }

  /** `strings.TrimRight(s, "/")`: drops every trailing slash. */
  function TrimRightSlash(s: string): (r: string)
    ensures |r| <= |s| && r == s[..|r|]
    ensures r == [] || r[|r| - 1] != '/'
    ensures forall i :: |r| <= i < |s| ==> s[i] == '/'
  {
    if s != [] && s[|s| - 1] == '/' then TrimRightSlash(s[..|s| - 1]) else s
  }

  /** `strings.TrimLeft(s, "/")`: drops every leading slash. */
  function TrimLeftSlash(s: string): (r: string)
    ensures |r| <= |s| && r == s[|s| - |r|..]
    ensures r == [] || r[0] != '/'
    ensures forall i :: 0 <= i < |s| - |r| ==> s[i] == '/'
  {
    if s != [] && s[0] == '/' then TrimLeftSlash(s[1..]) else s
  }

  /** `sub` occurs in `s` starting at index `i`. */
  predicate OccursAt(s: string, sub: string, i: int)
  {
    0 <= i <= |s| - |sub| && s[i..i + |sub|] == sub
  }

  /** `strings.Contains(s, sub)`. */
  function Contains(s: string, sub: string): (r: bool)
    ensures r <==> exists i :: OccursAt(s, sub, i)
    decreases |s|
  {
    if HasPrefix(s, sub) then
      assert OccursAt(s, sub, 0);
      true
    else if |s| <= |sub| then
      assert |s| == |sub| ==> s[0..|sub|] == s[..|sub|];
      false
    else
      var r := Contains(s[1..], sub);
      assert forall i :: OccursAt(s[1..], sub, i) <==> OccursAt(s, sub, i + 1) by {
        forall i ensures OccursAt(s[1..], sub, i) <==> OccursAt(s, sub, i + 1) {
          if 0 <= i <= |s| - 1 - |sub| { assert s[1..][i..i + |sub|] == s[i + 1..i + 1 + |sub|]; }
        }
      }
      assert !OccursAt(s, sub, 0) by { assert s[0..|sub|] == s[..|sub|]; }
      assert (exists i :: OccursAt(s, sub, i)) ==> exists i :: OccursAt(s[1..], sub, i) by {
        if exists i :: OccursAt(s, sub, i) {
          var i :| OccursAt(s, sub, i);
          assert i != 0;
          assert OccursAt(s[1..], sub, i - 1);
        }
      }
      r
  }

  // ---------------------------------------------------------------------
  // Unsigned integers as text: fmt's "%d" and "%x", strconv.FormatUint.

  const DigitChars: string := "0123456789abcdef"

  predicate ValidBase(base: nat) { 2 <= base <= 16 }

  /** The value of one lower-case digit, or `base` when `c` is not a digit of `base`. */
  function DigitValue(c: char, base: nat): (v: nat)
    requires ValidBase(base)
    ensures v <= base
    ensures v < base ==> DigitChars[v] == c
  {
    if '0' <= c <= '9' && (c as int - '0' as int) < base then c as int - '0' as int
    else if 'a' <= c <= 'f' && (c as int - 'a' as int + 10) < base then c as int - 'a' as int + 10
    else base
  }

  /** `DigitChars[v]` is read back as `v`. */
  lemma DigitOf(v: nat, base: nat)
    requires ValidBase(base) && v < base
    ensures DigitValue(DigitChars[v], base) == v
  {
  }

  predicate IsDigits(s: string, base: nat)
    requires ValidBase(base)
  {
    forall i :: 0 <= i < |s| ==> DigitValue(s[i], base) < base
  }

  /** `strconv.FormatUint(n, base)`: lower-case digits, no leading zeros, "0" for zero. */
  function FormatUint(n: nat, base: nat): (r: string)
    requires ValidBase(base)
    ensures |r| >= 1 && IsDigits(r, base)
    ensures r[0] == '0' ==> n == 0 && r == "0"
    decreases n
  {
    var d := DigitChars[n % base];
    DigitOf(n % base, base);
    if n < base then [d]
    else
      DivMod(n, base);
      var prefix := FormatUint(n / base, base);
      assert prefix[0] != '0';
      prefix + [d]
  }

  /** Reads a string of digits of `base` back as a number (`strconv.ParseUint`
      on text that `IsDigits` accepts). */
  function ParseUint(s: string, base: nat): (n: nat)
    requires ValidBase(base) && IsDigits(s, base)
  {
    if s == [] then 0 else ParseUint(s[..|s| - 1], base) * base + DigitValue(s[|s| - 1], base)
  }

  lemma DivMod(n: nat, base: nat)
    requires ValidBase(base)
    ensures (n / base) * base + n % base == n
    ensures n >= base ==> 1 <= n / base < n
    ensures n < base ==> n % base == n && n / base == 0
  {
    var q := n / base;
    assert q * base + n % base == n;
    if n >= base {
      assert q >= 1;
      assert q * base >= q * 2;
    }
  }

  lemma {:induction false} ParseAppend(s: string, c: char, base: nat)
    requires ValidBase(base) && IsDigits(s, base) && DigitValue(c, base) < base
    ensures IsDigits(s + [c], base)
    ensures ParseUint(s + [c], base) == ParseUint(s, base) * base + DigitValue(c, base)
  {
    assert (s + [c])[..|s|] == s;
  }

  /** Formatting then parsing gives the number back, so distinct numbers
      always have distinct renderings. */
  lemma {:induction false} ParseFormat(n: nat, base: nat)
    requires ValidBase(base)
    ensures ParseUint(FormatUint(n, base), base) == n
    decreases n
  {
    var d := DigitChars[n % base];
    DigitOf(n % base, base);
    DivMod(n, base);
    if n < base {
      ParseAppend([], d, base);
      assert [] + [d] == FormatUint(n, base);
    } else {
      var q := n / base;
      var prefix := FormatUint(q, base);
      assert FormatUint(n, base) == prefix + [d];
      ParseFormat(q, base);
      ParseAppend(prefix, d, base);
      assert ParseUint(prefix + [d], base) == q * base + n % base;
    }
  }

  lemma FormatUintInjective(m: nat, n: nat, base: nat)
    requires ValidBase(base)
    ensures FormatUint(m, base) == FormatUint(n, base) ==> m == n
  {
    ParseFormat(m, base);
    ParseFormat(n, base);
  }

  /** fmt's "%d" of an unsigned value. */
  function Decimal(n: nat): (r: string)
    ensures |r| >= 1 && IsDigits(r, 10)
  {
    FormatUint(n, 10)
  }

  /** fmt's "%x" of an unsigned value. */
  function Hex(n: nat): (r: string)
    ensures |r| >= 1 && IsDigits(r, 16)
  {
    FormatUint(n, 16)
  }

  // ---------------------------------------------------------------------
  // strings.Compare(a, b) < 0: lexicographic order. Go compares the bytes;
  // for valid UTF-8, byte order agrees with code point order, which is the
  // order on Dafny's `char`.

  predicate Less(a: string, b: string)
    decreases |a|
  {
    if a == [] then b != []
    else if b == [] then false
    else if a[0] != b[0] then a[0] < b[0]
    else Less(a[1..], b[1..])
  }

  lemma {:induction false} LessIrreflexive(a: string)
    ensures !Less(a, a)
    decreases |a|
  {
    if a != [] { LessIrreflexive(a[1..]); }
  }

  lemma {:induction false} LessTransitive(a: string, b: string, c: string)
    requires Less(a, b) && Less(b, c)
    ensures Less(a, c)
    decreases |a|
  {
    if a != [] && b != [] && c != [] && a[0] == b[0] == c[0] {
      LessTransitive(a[1..], b[1..], c[1..]);
    }
  }

  lemma {:induction false} LessTotal(a: string, b: string)
    ensures a == b || Less(a, b) || Less(b, a)
    decreases |a|
  {
    if a != [] && b != [] && a[0] == b[0] {
      LessTotal(a[1..], b[1..]);
      if a[1..] == b[1..] {
        assert a == [a[0]] + a[1..] && b == [b[0]] + b[1..];
      }
    }
  }

  lemma {:induction false} LessAsymmetric(a: string, b: string)
    requires Less(a, b)
    ensures !Less(b, a)
    decreases |a|
  {
    if a != [] && b != [] && a[0] == b[0] {
      LessAsymmetric(a[1..], b[1..]);
    }
  }
}
