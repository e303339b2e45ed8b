/** The pieces of Rust's standard library that the identity model leans on, written out:
    `i64` and its decimal text form (`to_string` and `str::parse::<i64>`), `rfind` on a
    character, `str::split` on a character, `str::contains`, and the byte-wise order of
    `String` (for UTF-8 text this is the order of the code points). */
module Text {
  import opened Wrappers

  const MinI64: int := -0x8000_0000_0000_0000
  const MaxI64: int := 0x7fff_ffff_ffff_ffff

  /** Rust's `i64`: the integer type of every surrogate key and of an EVR epoch. */
  type i64 = x: int | MinI64 <= x <= MaxI64

  predicate IsDigit(ch: char) { '0' <= ch <= '9' }

  predicate AllDigits(s: string) { forall i | 0 <= i < |s| :: IsDigit(s[i]) }

  function DigitChar(d: nat): (ch: char)
    requires d < 10
    ensures IsDigit(ch) && ch as int - '0' as int == d
  {
    ('0' as int + d) as char
  }

  /** The value of a run of decimal digits, most significant first. */
  function DigitsToNat(s: string): nat
    requires AllDigits(s)
  {
    if s == [] then 0
    else DigitsToNat(s[..|s| - 1]) * 10 + (s[|s| - 1] as int - '0' as int)
  }

  /** The shortest decimal text of `n` (no sign, no leading zero). */
  function NatToString(n: nat): (s: string)
    ensures |s| > 0 && AllDigits(s) && DigitsToNat(s) == n
    ensures n > 0 ==> s[0] != '0'
  {
    if n < 10 then [DigitChar(n)]
    else
      var p := NatToString(n / 10);
      var s := p + [DigitChar(n % 10)];
      assert s[..|s| - 1] == p;
      s
  }

  /** `i64::to_string`: a leading `-` for negative values, then the digits. */
  function IntToString(x: int): (s: string)
    ensures ':' !in s && '+' !in s
    ensures |s| > 0 && (s[0] == '-' <==> x < 0)
  {
    if x < 0 then "-" + NatToString(-x) else NatToString(x)
  }

  function InRange(v: int): Option<i64> {
    if MinI64 <= v <= MaxI64 then Some(v) else None
  }

  /** `str::parse::<i64>`: an optional `+` or `-`, then at least one decimal digit, and
      the value must fit in 64 bits; anything else is `None` (the source's `Err`). */
  function ParseI64(s: string): (r: Option<i64>)
    ensures r.Some? ==> |s| > 0
  {
    if |s| == 0 then None
    else if s[0] == '-' || s[0] == '+' then
      var digits := s[1..];
      if |digits| == 0 || !AllDigits(digits) then None
      else if s[0] == '-' then InRange(-(DigitsToNat(digits) as int))
      else InRange(DigitsToNat(digits))
    else if AllDigits(s) then InRange(DigitsToNat(s))
    else None
  }

  /** Parsing the text `to_string` prints gives the number back. */
  lemma ParseIntToString(x: i64)
    ensures ParseI64(IntToString(x)) == Some(x)
  {
    var s := IntToString(x);
    if x < 0 {
      assert s[1..] == NatToString(-(x as int));
    } else {
      assert IsDigit(s[0]);
    }
  }

  /** An unsigned run of digits parses to its decimal value whenever that fits. */
  lemma ParseDigits(s: string)
    requires |s| > 0 && AllDigits(s) && DigitsToNat(s) <= MaxI64
    ensures ParseI64(s) == Some(DigitsToNat(s))
  {
    assert IsDigit(s[0]);
  }

  /** Rust's `rfind(c)`: the last position holding `c`, or -1 when there is none. */
  function LastIndexOf(s: string, c: char): (r: int)
    ensures -1 <= r < |s|
    ensures r >= 0 ==> s[r] == c
    ensures forall j | r < j < |s| :: s[j] != c
  {
    if s == [] then -1
    else if s[|s| - 1] == c then |s| - 1
    else LastIndexOf(s[..|s| - 1], c)
  }

  /** `a`, then the character `c`, then `b`. */
  function Joined(a: string, c: char, b: string): (s: string)
    ensures |s| == |a| + 1 + |b|
    ensures s[..|a|] == a && s[|a|] == c && s[|a| + 1..] == b
  {
    a + [c] + b
  }

  /** A text is its part before position `i`, the character there, and the rest. */
  lemma JoinedAt(s: string, i: nat)
    requires i < |s|
    ensures s == Joined(s[..i], s[i], s[i + 1..])
  {
    assert s == s[..i] + [s[i]] + s[i + 1..];
  }

  /** The last `c` of `Joined(a, c, b)` is the one between them when `b` holds none. */
  lemma LastIndexOfJoined(a: string, c: char, b: string)
    requires c !in b
    ensures LastIndexOf(Joined(a, c, b), c) == |a|
  {
    assert Joined(a, c, b)[|a|] == c;
  }

  /** The text before and after the last `c` (`rfind` and two slices), if there is one. */
  function SplitLast(s: string, c: char): (r: Option<(string, string)>)
    ensures r.None? <==> c !in s
    ensures r.Some? ==> s == Joined(r.value.0, c, r.value.1) && c !in r.value.1
  {
    var i := LastIndexOf(s, c);
    if i < 0 then None
    else
      JoinedAt(s, i);
      Some((s[..i], s[i + 1..]))
  }

  /** Splitting at the last `c` undoes `Joined` when `b` holds no `c`. */
  lemma SplitLastJoined(a: string, c: char, b: string)
    requires c !in b
    ensures SplitLast(Joined(a, c, b), c) == Some((a, b))
  {
    LastIndexOfJoined(a, c, b);
  }

  /** `str::split(sep)`: the pieces between separators, at least one (possibly empty). */
  function Split(s: string, sep: char): (parts: seq<string>)
    ensures |parts| >= 1
    ensures forall i | 0 <= i < |parts| :: sep !in parts[i]
  {
    if |s| == 0 then [""]
    else
      var rest := Split(s[1..], sep);
      if s[0] == sep then [""] + rest
      else [[s[0]] + rest[0]] + rest[1..]
  }

  /** Text without the separator is a single piece. */
  lemma {:induction false} SplitNoSeparator(s: string, sep: char)
    requires sep !in s
    ensures Split(s, sep) == [s]
  {
    if |s| > 0 {
      assert s[1..] == s[1..] && sep !in s[1..];
      SplitNoSeparator(s[1..], sep);
      assert [s[0]] + s[1..] == s;
    }
  }

  /** Splitting at one separator splits the two sides independently. */
  lemma {:induction false} SplitAppend(a: string, sep: char, b: string)
    ensures Split(a + [sep] + b, sep) == Split(a, sep) + Split(b, sep)
  {
    var s := a + [sep] + b;
    if |a| == 0 {
      assert s[1..] == b;
    } else {
      assert s[1..] == a[1..] + [sep] + b;
      SplitAppend(a[1..], sep, b);
    }
  }

  /** `str::contains` on a substring: `sub` starts at some position of `s` (the empty
      text is found everywhere). */
  predicate Contains(s: string, sub: string) {
    sub <= s || (|s| > 0 && Contains(s[1..], sub))
  }

  /** `sub` sits in `s` at position `i`. */
  predicate OccursAt(s: string, sub: string, i: int) {
    0 <= i && i + |sub| <= |s| && s[i..i + |sub|] == sub
  }

  /** `sub` occurs in `s` exactly when it sits at some position of `s`. */
  lemma {:induction false} ContainsAt(s: string, sub: string)
    ensures Contains(s, sub) <==> exists i :: OccursAt(s, sub, i)
  {
    if sub <= s {
      assert OccursAt(s, sub, 0);
    } else if |s| == 0 {
      assert forall i :: !OccursAt(s, sub, i);
    } else {
      ContainsAt(s[1..], sub);
      if Contains(s[1..], sub) {
        var i :| OccursAt(s[1..], sub, i);
        assert s[i + 1..i + 1 + |sub|] == s[1..][i..i + |sub|];
        assert OccursAt(s, sub, i + 1);
      } else {
        forall i ensures !OccursAt(s, sub, i) {
          if i == 0 {
            assert !(sub <= s);
          } else if 0 < i && i + |sub| <= |s| {
            assert s[i..i + |sub|] == s[1..][i - 1..i - 1 + |sub|];
            assert !OccursAt(s[1..], sub, i - 1);
          }
        }
      }
    }
  }

  /** The derived order on `String`: lexicographic on characters, a proper prefix first. */
  predicate StringLess(a: string, b: string) {
    if a == [] then b != []
    else if b == [] then false
    else a[0] < b[0] || (a[0] == b[0] && StringLess(a[1..], b[1..]))
  }

  lemma {:induction false} StringLessIrreflexive(a: string)
    ensures !StringLess(a, a)
  {
    if a != [] { StringLessIrreflexive(a[1..]); }
  }

  lemma {:induction false} StringLessTransitive(a: string, b: string, c: string)
    requires StringLess(a, b) && StringLess(b, c)
    ensures StringLess(a, c)
  {
    if a != [] && a[0] == b[0] && b[0] == c[0] {
      StringLessTransitive(a[1..], b[1..], c[1..]);
    }
  }

  lemma {:induction false} StringLessTotal(a: string, b: string)
    requires a != b
    ensures StringLess(a, b) || StringLess(b, a)
  {
    if a != [] && b != [] && a[0] == b[0] {
      assert a == [a[0]] + a[1..] && b == [b[0]] + b[1..];
      StringLessTotal(a[1..], b[1..]);
    }
  }
}
