/** The handful of Python string and list operations the core relies on
    (`str.strip`, `str.lower`, `str.split`, `str.join`, `str.startswith`,
    `in`, `list.index`, `str(int)`), each stated once with the facts the rest
    of the model uses about it. Only ASCII case mapping and ASCII whitespace
    are modelled. */
module Text {
  import opened Wrappers

  /** The ASCII characters that `str.strip()` and `str.split()` treat as
      whitespace: space, tab, line feed, vertical tab, form feed, carriage
      return and the four separators 0x1C-0x1F. */
  const Whitespace: set<char> :=
    {' ', '\t', '\n', '\U{000B}', '\U{000C}', '\r', '\U{001C}', '\U{001D}', '\U{001E}', '\U{001F}'}

  predicate IsSpace(c: char) {
    c in Whitespace
  }

  /** The position of the first character of `s` at or after `i` that is
      not in `cs`, or `|s|` when there is none. */
  function StripStart(s: string, cs: set<char>, i: nat): (lo: nat)
    requires i <= |s|
    ensures i <= lo <= |s|
    ensures forall k :: i <= k < lo ==> s[k] in cs
    ensures lo < |s| ==> s[lo] !in cs
    decreases |s| - i
  {
    if i < |s| && s[i] in cs then StripStart(s, cs, i + 1) else i
  }

  /** The end of `s[..j]` once the trailing characters in `cs` are dropped,
      never going below `lo`. */
  function StripStop(s: string, cs: set<char>, lo: nat, j: nat): (hi: nat)
    requires lo <= j <= |s|
    ensures lo <= hi <= j
    ensures forall k :: hi <= k < j ==> s[k] in cs
    ensures hi > lo ==> s[hi - 1] !in cs
    decreases j
  {
    if j > lo && s[j - 1] in cs then StripStop(s, cs, lo, j - 1) else j
  }

  /** Python's `s.strip(chars)`: removes every leading and trailing character
      that belongs to `cs`, and nothing else. */
  function StripChars(s: string, cs: set<char>): (r: string)
    ensures |r| <= |s|
    ensures r != [] ==> r[0] !in cs && r[|r| - 1] !in cs
  {
    var lo := StripStart(s, cs, 0);
    s[lo..StripStop(s, cs, lo, |s|)]
  }

  /** Stripping is exactly Python's: the result is one stretch `s[lo..hi]`
      of the text, everything before `lo` and from `hi` on is in `cs`, and the
      stretch neither starts nor ends with a character of `cs`. */
  lemma StripCharsExact(s: string, cs: set<char>)
    ensures exists lo, hi ::
      && 0 <= lo <= hi <= |s|
      && StripChars(s, cs) == s[lo..hi]
      && (forall k :: 0 <= k < lo ==> s[k] in cs)
      && (forall k :: hi <= k < |s| ==> s[k] in cs)
    ensures StripChars(s, cs) != [] ==> StripChars(s, cs)[0] !in cs && StripChars(s, cs)[|StripChars(s, cs)| - 1] !in cs
  {
    var lo := StripStart(s, cs, 0);
    var hi := StripStop(s, cs, lo, |s|);
    assert StripChars(s, cs) == s[lo..hi];
    assert forall k :: 0 <= k < lo ==> s[k] in cs;
    assert forall k :: hi <= k < |s| ==> s[k] in cs;
  }

  /** What is left after stripping is a stretch of the original text. */
  lemma StripCharsWithin(s: string, cs: set<char>)
    ensures forall k :: 0 <= k < |StripChars(s, cs)| ==> StripChars(s, cs)[k] in s
  {
    var lo := StripStart(s, cs, 0);
    var hi := StripStop(s, cs, lo, |s|);
    forall k | 0 <= k < |StripChars(s, cs)| ensures StripChars(s, cs)[k] in s {
      assert StripChars(s, cs)[k] == s[lo + k];
    }
  }

  /** Stripping removes exactly one enclosing character from each end when
      the text inside starts and ends with characters outside `cs`. */
  lemma StripCharsEnclosed(s: string, cs: set<char>, first: char, last: char)
    requires first in cs && last in cs
    requires s != [] && s[0] !in cs && s[|s| - 1] !in cs
    ensures StripChars([first] + s + [last], cs) == s
  {
    var v := [first] + s + [last];
    assert v[1] == s[0] && v[|v| - 2] == s[|s| - 1];
    assert StripStart(v, cs, 1) == 1;
    assert StripStart(v, cs, 0) == 1;
    assert StripStop(v, cs, 1, |v| - 1) == |v| - 1;
    assert StripStop(v, cs, 1, |v|) == |v| - 1;
    assert v[1..|v| - 1] == s;
  }

  /** Text that neither starts nor ends with a stripped character is left as it is. */
  lemma StripCharsUntouched(s: string, cs: set<char>)
    requires s != [] && s[0] !in cs && s[|s| - 1] !in cs
    ensures StripChars(s, cs) == s
  {
    assert StripStart(s, cs, 0) == 0;
    assert StripStop(s, cs, 0, |s|) == |s|;
    assert s[0..|s|] == s;
  }

  /** One leading stripped character in front of such text is removed. */
  lemma StripCharsLeading(c: char, s: string, cs: set<char>)
    requires c in cs
    requires s != [] && s[0] !in cs && s[|s| - 1] !in cs
    ensures StripChars([c] + s, cs) == s
  {
    var v := [c] + s;
    assert v[1] == s[0] && v[|v| - 1] == s[|s| - 1];
    assert StripStart(v, cs, 1) == 1;
    assert StripStart(v, cs, 0) == 1;
    assert StripStop(v, cs, 1, |v|) == |v|;
    assert v[1..|v|] == s;
  }

  /** Python's `s.strip()` (ASCII whitespace). */
  function Strip(s: string): string {
    StripChars(s, Whitespace)
  }

  predicate IsUpper(c: char) {
    'A' <= c <= 'Z'
  }

  function LowerChar(c: char): char {
    if IsUpper(c) then (c as int - 'A' as int + 'a' as int) as char else c
  }

  predicate IsLowerCase(s: string) {
    forall i :: 0 <= i < |s| ==> !IsUpper(s[i])
  }

  /** Python's `s.lower()` on ASCII letters. */
  function Lower(s: string): (r: string)
    ensures |r| == |s| && IsLowerCase(r)
    ensures forall i :: 0 <= i < |s| && !IsUpper(s[i]) ==> r[i] == s[i]
    ensures forall i :: 0 <= i < |s| && IsUpper(s[i]) ==> r[i] as int == s[i] as int + 32
  {
    seq(|s|, i requires 0 <= i < |s| => LowerChar(s[i]))
  }

  /** Python's `s.startswith(p)`. */
  predicate StartsWith(s: string, p: string) {
    |p| <= |s| && s[..|p|] == p
  }

  /** Python's `sub in s` for strings. */
  predicate Contains(s: string, sub: string)
    decreases |s|
  {
    StartsWith(s, sub) || (s != [] && Contains(s[1..], sub))
  }

  /** Python's `sep.join(xs)`. */
  function Join(sep: string, xs: seq<string>): string
    decreases |xs|
  {
    if |xs| == 0 then ""
    else if |xs| == 1 then xs[0]
    else xs[0] + sep + Join(sep, xs[1..])
  }

  /** Joining one more element adds the separator and that element at the end. */
  lemma {:induction false} JoinAppend(sep: string, xs: seq<string>, x: string)
    requires xs != []
    ensures Join(sep, xs + [x]) == Join(sep, xs) + sep + x
    decreases |xs|
  {
    if |xs| == 1 {
      assert xs + [x] == [xs[0], x];
      assert (xs + [x])[1..] == [x];
    } else {
      assert (xs + [x])[1..] == xs[1..] + [x];
      JoinAppend(sep, xs[1..], x);
    }
  }

  /** Joining two texts puts the separator between them (a local solver aid
      for proofs about two-element joins). */
  lemma JoinTwo(sep: string, x: string, y: string)
    ensures Join(sep, [x, y]) == x + sep + y
  {
    assert [x, y][1..] == [y];
  }

  // A local solver aid: regrouping a concatenation stated on its own keeps
  // the larger proofs that need it cheap.
  lemma ConcatAssoc<T>(a: seq<T>, b: seq<T>, c: seq<T>)
    ensures a + (b + c) == (a + b) + c
  {
  }

  // A local solver aid: a non-empty sequence is its front and its last element.
  lemma LastSplit<T>(s: seq<T>)
    requires s != []
    ensures s == s[..|s| - 1] + [s[|s| - 1]]
  {
  }

  /** Putting a character in front of the first element puts it in front of the joined text. */
  lemma JoinPrepend(sep: string, c: char, xs: seq<string>)
    requires xs != []
    ensures Join(sep, [[c] + xs[0]] + xs[1..]) == [c] + Join(sep, xs)
  {
    var ys := [[c] + xs[0]] + xs[1..];
    if |xs| > 1 {
      assert ys[1..] == xs[1..];
      assert ([c] + xs[0]) + sep + Join(sep, xs[1..]) == [c] + (xs[0] + sep + Join(sep, xs[1..]));
    }
  }

  /** Python's `s.split(sep)` for a one-character separator: the pieces between
      consecutive separators, empty pieces included. */
  function Split(s: string, sep: char): (r: seq<string>)
    ensures |r| >= 1
    ensures forall i :: 0 <= i < |r| ==> sep !in r[i]
    ensures Join([sep], r) == s
    decreases |s|
  {
    if s == [] then [""]
    else
      var rest := Split(s[1..], sep);
      if s[0] == sep then
        assert ([""] + rest)[1..] == rest;
        [""] + rest
      else
        JoinPrepend([sep], s[0], rest);
        assert s == [s[0]] + s[1..];
        [[s[0]] + rest[0]] + rest[1..]
  }

  lemma {:induction false} SplitWithoutSeparator(a: string, sep: char)
    requires sep !in a
    ensures Split(a, sep) == [a]
    decreases |a|
  {
    if a != [] {
      assert sep !in a[1..] by {
        forall k | 0 <= k < |a| - 1 ensures a[1..][k] != sep { assert a[1..][k] == a[k + 1]; }
      }
      SplitWithoutSeparator(a[1..], sep);
      assert [a[0]] + a[1..] == a;
    }
  }

  lemma {:induction false} SplitAtSeparator(a: string, sep: char, b: string)
    requires sep !in a
    ensures Split(a + [sep] + b, sep) == [a] + Split(b, sep)
    decreases |a|
  {
    if a == [] {
      assert a + [sep] + b == [sep] + b;
      assert ([sep] + b)[1..] == b;
    } else {
      assert (a + [sep] + b)[1..] == a[1..] + [sep] + b;
      assert sep !in a[1..] by {
        forall k | 0 <= k < |a| - 1 ensures a[1..][k] != sep { assert a[1..][k] == a[k + 1]; }
      }
      SplitAtSeparator(a[1..], sep, b);
      assert [a[0]] + a[1..] == a;
    }
  }

  /** Text made of characters of lower-case text is lower-case. */
  lemma LowerCaseWithin(x: string, y: string)
    requires IsLowerCase(y)
    requires forall i :: 0 <= i < |x| ==> x[i] in y
    ensures IsLowerCase(x)
  {
  }

  /** The pieces of lower-case text are lower-case. */
  lemma {:induction false} SplitLowerCase(s: string, sep: char)
    requires IsLowerCase(s)
    ensures forall i :: 0 <= i < |Split(s, sep)| ==> IsLowerCase(Split(s, sep)[i])
    decreases |s|
  {
    if s != [] {
      assert IsLowerCase(s[1..]) by {
        forall k | 0 <= k < |s| - 1 ensures !IsUpper(s[1..][k]) { assert s[1..][k] == s[k + 1]; }
      }
      SplitLowerCase(s[1..], sep);
      var rest := Split(s[1..], sep);
      if s[0] != sep {
        var first := [s[0]] + rest[0];
        assert IsLowerCase(first) by {
          forall k | 0 <= k < |first| ensures !IsUpper(first[k]) {
            if k > 0 { assert first[k] == rest[0][k - 1]; }
          }
        }
      }
    }
  }

  /** `split` undoes `join` when no piece contains the separator. */
  lemma {:induction false} SplitJoin(xs: seq<string>, sep: char)
    requires |xs| >= 1
    requires forall i :: 0 <= i < |xs| ==> sep !in xs[i]
    ensures Split(Join([sep], xs), sep) == xs
    decreases |xs|
  {
    if |xs| == 1 {
      SplitWithoutSeparator(xs[0], sep);
    } else {
      SplitJoin(xs[1..], sep);
      SplitAtSeparator(xs[0], sep, Join([sep], xs[1..]));
      assert [xs[0]] + xs[1..] == xs;
    }
  }

  /** The first whitespace-delimited word of `s`; for a stripped, non-empty
      string this is Python's `s.split()[0]`. */
  function FirstWord(s: string): (r: string)
    ensures |r| <= |s| && r == s[..|r|]
    ensures forall i :: 0 <= i < |r| ==> !IsSpace(r[i])
    ensures |r| < |s| ==> IsSpace(s[|r|])
    decreases |s|
  {
    if s == [] || IsSpace(s[0]) then "" else [s[0]] + FirstWord(s[1..])
  }

  /** The first word ends at the first whitespace character, or at the end. */
  lemma FirstWordAt(s: string, n: nat)
    requires n <= |s| && (n < |s| ==> IsSpace(s[n]))
    requires forall i :: 0 <= i < n ==> !IsSpace(s[i])
    ensures FirstWord(s) == s[..n]
  {
  }

  /** A word followed by whitespace is the first word of the text. */
  lemma FirstWordBefore(w: string, rest: string)
    requires forall i :: 0 <= i < |w| ==> !IsSpace(w[i])
    requires rest != [] && IsSpace(rest[0])
    ensures FirstWord(w + rest) == w
  {
    var s := w + rest;
    assert s[..|w|] == w;
    assert s[|w|] == rest[0];
    FirstWordAt(s, |w|);
  }

  /** Python's `xs.index(x)`, with None where Python raises. */
  function IndexOf<T(==)>(xs: seq<T>, x: T): (r: Option<nat>)
    ensures r.None? <==> x !in xs
    ensures r.Some? ==> r.value < |xs| && xs[r.value] == x && x !in xs[..r.value]
    decreases |xs|
  {
    if xs == [] then None
    else if xs[0] == x then Some(0)
    else match IndexOf(xs[1..], x)
      case None => None
      case Some(i) =>
        assert xs[..i + 1] == [xs[0]] + xs[1..][..i];
        Some(i + 1)
  }

  /** A position holding `x` with no `x` before it is the one `index` finds. */
  lemma IndexOfFirst<T>(xs: seq<T>, x: T, i: nat)
    requires i < |xs| && xs[i] == x && x !in xs[..i]
    ensures IndexOf(xs, x) == Some(i)
  {
  }

  predicate IsDigit(c: char) {
    '0' <= c <= '9'
  }

  function DigitChar(d: nat): char
    requires d < 10
  {
    ('0' as int + d) as char
  }

  /** Python's `str(n)` for a natural number: its decimal digits, most significant first. */
  function NatToString(n: nat): (r: string)
    ensures |r| >= 1
    ensures forall i :: 0 <= i < |r| ==> IsDigit(r[i])
    decreases n
  {
    if n < 10 then [DigitChar(n)] else NatToString(n / 10) + [DigitChar(n % 10)]
  }

  /** Python's `str(i)` for an integer. */
  function IntToString(i: int): string {
    if i < 0 then "-" + NatToString(-i) else NatToString(i)
  }

  predicate AllDigits(s: string) {
    forall i :: 0 <= i < |s| ==> IsDigit(s[i])
  }

  /** Reads a string of decimal digits back as a number (Python's `int(s)`). */
  function ParseNat(s: string): nat
    requires AllDigits(s)
    decreases |s|
  {
    if s == [] then 0 else 10 * ParseNat(s[..|s| - 1]) + (s[|s| - 1] as int - '0' as int)
  }

  predicate IsIntText(s: string) {
    AllDigits(s) || (s != [] && s[0] == '-' && AllDigits(s[1..]))
  }

  function ParseInt(s: string): int
    requires IsIntText(s)
  {
    if s != [] && s[0] == '-' then -(ParseNat(s[1..]) as int) else ParseNat(s)
  }

  lemma {:induction false} NatToStringRoundTrip(n: nat)
    ensures ParseNat(NatToString(n)) == n
    decreases n
  {
    if n >= 10 {
      var s := NatToString(n / 10);
      NatToStringRoundTrip(n / 10);
      assert (s + [DigitChar(n % 10)])[..|s|] == s;
    }
  }

  /** The text `str(i)` gives for an integer reads back as that integer. */
  lemma {:induction false} IntToStringRoundTrip(i: int)
    ensures IsIntText(IntToString(i))
    ensures ParseInt(IntToString(i)) == i
  {
    if i < 0 {
      var t := NatToString(-i);
      assert ("-" + t)[1..] == t;
      NatToStringRoundTrip(-i);
    } else {
      NatToStringRoundTrip(i);
    }
  }
}
