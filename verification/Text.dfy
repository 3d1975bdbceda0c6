/** The string operations the key printer and parser are built from. */
module Text {
  import opened Domain

  /** Unicode white space, as a trim removes it. */
  predicate IsSpace(c: char) {
    || '\U{9}' <= c <= '\U{D}' || c == ' ' || c == '\U{85}' || c == '\U{A0}' || c == '\U{1680}'
    || '\U{2000}' <= c <= '\U{200A}' || c == '\U{2028}' || c == '\U{2029}' || c == '\U{202F}'
    || c == '\U{205F}' || c == '\U{3000}'
  }

  function TrimLeftSpace(s: string): string {
    if s != "" && IsSpace(s[0]) then TrimLeftSpace(s[1..]) else s
  }

  function TrimRightSpace(s: string): string {
    if s != "" && IsSpace(s[|s| - 1]) then TrimRightSpace(s[..|s| - 1]) else s
  }

  function TrimSpace(s: string): string {
    TrimRightSpace(TrimLeftSpace(s))
  }

  /** Drops every trailing c. */
  function TrimRight(s: string, c: char): string {
    if s != "" && s[|s| - 1] == c then TrimRight(s[..|s| - 1], c) else s
  }

  function TrimSuffix(s: string, suffix: string): string {
    if |suffix| <= |s| && s[|s| - |suffix|..] == suffix then s[..|s| - |suffix|] else s
  }

  predicate HasPrefix(s: string, prefix: string) {
    prefix <= s
  }

  function TrimPrefix(s: string, prefix: string): string {
    if HasPrefix(s, prefix) then s[|prefix|..] else s
  }

  function Split(s: string, sep: char): (parts: seq<string>)
    ensures |parts| >= 1
  {
    if s == "" then [""]
    else
      var rest := Split(s[1..], sep);
      if s[0] == sep then [""] + rest else [[s[0]] + rest[0]] + rest[1..]
  }

  function Join(parts: seq<string>, sep: char): string {
    if parts == [] then ""
    else if |parts| == 1 then parts[0]
    else parts[0] + [sep] + Join(parts[1..], sep)
  }

  function Reversed<T>(s: seq<T>): (r: seq<T>)
    ensures |r| == |s|
  {
    if s == [] then [] else Reversed(s[1..]) + [s[0]]
  }

  lemma {:induction false} ReversedAt<T>(s: seq<T>, k: nat)
    requires k < |s|
    ensures Reversed(s)[k] == s[|s| - 1 - k]
  {
    if k < |s| - 1 {
      ReversedAt(s[1..], k);
    }
  }

  lemma ReversedTwice<T>(s: seq<T>)
    ensures Reversed(Reversed(s)) == s
  {
    var r := Reversed(s);
    forall k | 0 <= k < |s|
      ensures Reversed(r)[k] == s[k]
    {
      ReversedAt(r, k);
      ReversedAt(s, |s| - 1 - k);
    }
  }

  /** A slice filled from the far end. */
  method Reverse<T(0)>(slice: array<T>) returns (reversed: array<T>)
    ensures fresh(reversed)
    ensures reversed[..] == Reversed(slice[..])
  {
    reversed := new T[slice.Length];
    var length := slice.Length;
    for i := 0 to length
      invariant forall k :: 0 <= k < i ==> reversed[length - 1 - k] == slice[k]
    {
      reversed[length - 1 - i] := slice[i];
    }
    forall k | 0 <= k < length
      ensures reversed[k] == Reversed(slice[..])[k]
    {
      ReversedAt(slice[..], k);
      assert reversed[length - 1 - (length - 1 - k)] == slice[length - 1 - k];
    }
  }

  predicate AllFree(parts: seq<string>, c: char) {
    forall i :: 0 <= i < |parts| ==> c !in parts[i]
  }

  lemma {:induction false} SplitIsFree(s: string, sep: char, c: char)
    requires c == sep || c !in s
    ensures AllFree(Split(s, sep), c)
  {
    if s != "" {
      SplitIsFree(s[1..], sep, c);
    }
  }

  lemma {:induction false} JoinSplit(s: string, sep: char)
    ensures Join(Split(s, sep), sep) == s
  {
    if s != "" {
      var rest := Split(s[1..], sep);
      JoinSplit(s[1..], sep);
      if s[0] == sep {
        assert ([""] + rest)[1..] == rest;
      } else {
        var parts := [[s[0]] + rest[0]] + rest[1..];
        assert parts[1..] == rest[1..];
        assert Join(parts, sep) == [s[0]] + Join(rest, sep);
      }
    }
  }

  lemma {:induction false} SplitPart(part: string, rest: string, sep: char)
    requires sep !in part
    ensures Split(part + [sep] + rest, sep) == [part] + Split(rest, sep)
  {
    var s := part + [sep] + rest;
    if part == "" {
      assert s[1..] == rest;
    } else {
      assert s[1..] == part[1..] + [sep] + rest;
      SplitPart(part[1..], rest, sep);
      assert [part[0]] + part[1..] == part;
    }
  }

  lemma {:induction false} SplitConcat(a: string, b: string, sep: char)
    ensures Split(a + [sep] + b, sep) == Split(a, sep) + Split(b, sep)
  {
    var s := a + [sep] + b;
    if a == "" {
      assert s[1..] == b;
    } else {
      assert s[1..] == a[1..] + [sep] + b;
      SplitConcat(a[1..], b, sep);
    }
  }

  lemma {:induction false} JoinConcat(p: seq<string>, q: seq<string>, sep: char)
    requires p != [] && q != []
    ensures Join(p + q, sep) == Join(p, sep) + [sep] + Join(q, sep)
  {
    if |p| == 1 {
      assert (p + q)[1..] == q;
    } else {
      assert (p + q)[1..] == p[1..] + q;
      JoinConcat(p[1..], q, sep);
    }
  }

  lemma {:induction false} ReversedConcat<T>(p: seq<T>, q: seq<T>)
    ensures Reversed(p + q) == Reversed(q) + Reversed(p)
  {
    if p == [] {
      assert p + q == q;
    } else {
      assert (p + q)[1..] == p[1..] + q && (p + q)[0] == p[0];
      ReversedConcat(p[1..], q);
    }
  }

  lemma {:induction false} SplitFree(part: string, sep: char)
    requires sep !in part
    ensures Split(part, sep) == [part]
  {
    if part != "" {
      SplitFree(part[1..], sep);
      assert [part[0]] + part[1..] == part;
    }
  }

  lemma {:induction false} SplitJoin(parts: seq<string>, sep: char)
    requires parts != [] && AllFree(parts, sep)
    ensures Split(Join(parts, sep), sep) == parts
  {
    if |parts| == 1 {
      SplitFree(parts[0], sep);
    } else {
      SplitJoin(parts[1..], sep);
      SplitPart(parts[0], Join(parts[1..], sep), sep);
      assert [parts[0]] + parts[1..] == parts;
    }
  }

  lemma {:induction false} JoinAppend(parts: seq<string>, last: string, sep: char)
    requires parts != []
    ensures Join(parts + [last], sep) == Join(parts, sep) + [sep] + last
  {
    if |parts| == 1 {
      assert (parts + [last])[1..] == [last];
    } else {
      JoinAppend(parts[1..], last, sep);
      assert (parts + [last])[1..] == parts[1..] + [last];
    }
  }

  lemma {:induction false} JoinFree(parts: seq<string>, sep: char, c: char)
    requires c != sep && AllFree(parts, c)
    ensures c !in Join(parts, sep)
  {
    if |parts| > 1 {
      JoinFree(parts[1..], sep, c);
    }
  }

  lemma ReversedFree(parts: seq<string>, c: char)
    requires AllFree(parts, c)
    ensures AllFree(Reversed(parts), c)
  {
    forall k | 0 <= k < |parts|
      ensures c !in Reversed(parts)[k]
    {
      ReversedAt(parts, k);
    }
  }

  predicate IsDigit(c: char) {
    '0' <= c <= '9'
  }

  function Digit(n: nat): char
    requires n < 10
  {
    '0' + n as char
  }

  function DigitValue(c: char): nat
    requires IsDigit(c)
  {
    c as int - '0' as int
  }

  /** Decimal text, as %d prints it. */
  function Itoa(n: nat): string {
    if n < 10 then [Digit(n)] else Itoa(n / 10) + [Digit(n % 10)]
  }

  const MAX_INT := 0x7FFF_FFFF_FFFF_FFFF
  const MIN_INT := -0x8000_0000_0000_0000

  function ParseDigits(s: string): Option<nat> {
    if s == "" || !IsDigit(s[|s| - 1]) then None
    else
      var d := DigitValue(s[|s| - 1]);
      if |s| == 1 then Some(d)
      else
        var high := ParseDigits(s[..|s| - 1]);
        if high == None then None else Some(10 * high.value + d)
  }

  /** The integer a text denotes: an optional sign, then digits, within a 64-bit int. */
  function Atoi(s: string): Option<int> {
    var sign := if s != "" && s[0] == '-' then -1 else 1;
    var body := if s != "" && (s[0] == '-' || s[0] == '+') then s[1..] else s;
    var n := ParseDigits(body);
    if n.Some? && MIN_INT <= sign * n.value <= MAX_INT then Some(sign * n.value) else None
  }

  lemma {:induction false} ItoaParses(n: nat)
    ensures ParseDigits(Itoa(n)) == Some(n)
    ensures Itoa(n) != "" && forall i :: 0 <= i < |Itoa(n)| ==> IsDigit(Itoa(n)[i])
  {
    if n >= 10 {
      ItoaParses(n / 10);
      var s := Itoa(n);
      assert s[..|s| - 1] == Itoa(n / 10);
    }
  }

  /** What is printed reads back if it fits, a sign before it counts, and zeros before it do not. */
  lemma AtoiItoa(n: nat)
    ensures Atoi(Itoa(n)) == Atoi("+" + Itoa(n)) == Atoi("0" + Itoa(n)) ==
            if n <= 0x7FFF_FFFF_FFFF_FFFF then Some(n) else None
    ensures Atoi("-" + Itoa(n)) == if n <= 0x8000_0000_0000_0000 then Some(0 - n) else None
  {
    var s := Itoa(n);
    ItoaParses(n);
    ZerosBefore(s, n);
    assert s != "" && IsDigit(s[0]);
    PlainText(s, n);
    PlainText("0" + s, n);
    SignedText(s, n);
  }

  lemma PlainText(s: string, n: nat)
    requires ParseDigits(s) == Some(n) && s != "" && IsDigit(s[0])
    ensures Atoi(s) == if n <= 0x7FFF_FFFF_FFFF_FFFF then Some(n) else None
  {
  }

  lemma SignedText(s: string, n: nat)
    requires ParseDigits(s) == Some(n)
    ensures Atoi("+" + s) == if n <= 0x7FFF_FFFF_FFFF_FFFF then Some(n) else None
    ensures Atoi("-" + s) == if n <= 0x8000_0000_0000_0000 then Some(0 - n) else None
  {
    assert ("+" + s)[1..] == s && ("-" + s)[1..] == s;
  }

  lemma {:induction false} ZerosBefore(s: string, n: nat)
    requires ParseDigits(s) == Some(n)
    ensures ParseDigits("0" + s) == Some(n)
  {
    var t := "0" + s;
    assert t[..|t| - 1] == "0" + s[..|s| - 1];
    if |s| > 1 {
      ZerosBefore(s[..|s| - 1], ParseDigits(s[..|s| - 1]).value);
    } else {
      assert s[..|s| - 1] == "" && t[..|t| - 1] == "0";
      assert ParseDigits("0") == Some(0);
    }
  }

  lemma {:induction false} LongerThanAll(used: set<string>) returns (n: nat)
    ensures forall x :: x in used ==> |x| < n
  {
    n := 0;
    if x :| x in used {
      var m := LongerThanAll(used - {x});
      n := if |x| < m then m else |x| + 1;
    }
  }

  function Ones(n: nat): (s: string)
    ensures |s| == n && '/' !in s
  {
    if n == 0 then "" else Ones(n - 1) + "1"
  }

  lemma Fresh(used: set<string>) returns (x: string)
    ensures x !in used
  {
    var n := LongerThanAll(used);
    x := Ones(n);
  }
}
