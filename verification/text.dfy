/**
 * String helpers with Python's semantics: `str.strip()`, `str.split(sep)`,
 * `str.split()` (runs of whitespace), `in` on strings, `str.startswith`, and
 * the built-in `int()` applied to a decoded payload.
 */
module Text {
  import opened Wrappers

  /**
   * The characters Python's `str.isspace()` accepts, which `str.strip()` and
   * `str.split()` treat as whitespace: the ASCII controls \t..\r and
   * \x1c..\x1f, the space, and the Unicode separators.
   */
  predicate IsSpace(c: char) {
    || ('\t' <= c <= '\r')
    || ('\U{001C}' <= c <= '\U{001F}')
    || c == ' ' || c == '\U{0085}' || c == '\U{00A0}' || c == '\U{1680}'
    || ('\U{2000}' <= c <= '\U{200A}')
    || c == '\U{2028}' || c == '\U{2029}' || c == '\U{202F}' || c == '\U{205F}' || c == '\U{3000}'
  }

  /**
   * The whitespace `int()` skips around its digits. An all-ASCII text is
   * trimmed with C's `isspace`, which leaves out the separators \x1c..\x1f;
   * in any other text those stay as they are too, while the non-ASCII
   * separators become spaces first. So it is `str.isspace()` without
   * \x1c..\x1f.
   */
  predicate IsIntSpace(c: char) {
    IsSpace(c) && !('\U{001C}' <= c <= '\U{001F}')
  }

  /** Which whitespace a trim drops: that of `strip()`, or the narrower set `int()` skips. */
  datatype Blanks = StrBlanks | IntBlanks

  predicate IsBlank(b: Blanks, c: char) {
    match b
    case StrBlanks => IsSpace(c)
    case IntBlanks => IsIntSpace(c)
  }

  predicate IsDigit(c: char) {
    '0' <= c <= '9'
  }

  /** Drops leading whitespace characters: the result is the suffix after the longest such prefix. */
  function TrimStart(s: string, b: Blanks): (r: string)
    ensures |r| <= |s| && r == s[|s| - |r|..]
    ensures r == [] || !IsBlank(b, r[0])
    ensures forall i :: 0 <= i < |s| - |r| ==> IsBlank(b, s[i])
  {
    if |s| > 0 && IsBlank(b, s[0]) then
      var r := TrimStart(s[1..], b);
      assert forall i :: 1 <= i < |s| - |r| ==> s[i] == s[1..][i - 1];
      r
    else s
  }

  /** Drops trailing whitespace characters: the result is the prefix before the longest such suffix. */
  function TrimEnd(s: string, b: Blanks): (r: string)
    ensures |r| <= |s| && r == s[..|r|]
    ensures r == [] || !IsBlank(b, r[|r| - 1])
    ensures forall i :: |r| <= i < |s| ==> IsBlank(b, s[i])
  {
    if |s| > 0 && IsBlank(b, s[|s| - 1]) then TrimEnd(s[..|s| - 1], b) else s
  }

  /** Python's `s.strip()`: `s` is the result with whitespace around it, and none at its ends. */
  function Strip(s: string): (r: string)
    ensures r == [] || (!IsSpace(r[0]) && !IsSpace(r[|r| - 1]))
    ensures exists i :: Padded(s, r, i, StrBlanks)
  {
    TrimPadded(s, StrBlanks);
    TrimEnd(TrimStart(s, StrBlanks), StrBlanks)
  }

  /** `s` is `r`, found at index `i`, with nothing but whitespace of kind `b` before and after it. */
  predicate Padded(s: string, r: string, i: int, b: Blanks) {
    && 0 <= i && i + |r| <= |s| && r == s[i..i + |r|]
    && (forall k :: 0 <= k < i ==> IsBlank(b, s[k]))
    && (forall k :: i + |r| <= k < |s| ==> IsBlank(b, s[k]))
  }

  /** Trimming both ends leaves text that the trimmed whitespace pads. */
  lemma TrimPadded(s: string, b: Blanks)
    ensures Padded(s, TrimEnd(TrimStart(s, b), b), |s| - |TrimStart(s, b)|, b)
  {
    var u := TrimStart(s, b);
    PaddedOfTrims(s, |s| - |u|, u, TrimEnd(u, b), b);
  }

  /** Blanks before a suffix `u` of `s`, and blanks after a prefix `r` of `u`, pad `r` inside `s`. */
  lemma PaddedOfTrims(s: string, i: nat, u: string, r: string, b: Blanks)
    requires i <= |s| && u == s[i..] && (forall k :: 0 <= k < i ==> IsBlank(b, s[k]))
    requires |r| <= |u| && r == u[..|r|] && (forall j :: |r| <= j < |u| ==> IsBlank(b, u[j]))
    ensures Padded(s, r, i, b)
  {
    SliceOfSuffix(s, i, |r|);
    BlankTail(s, i, u, |r|, b);
  }

  /** Blanks at the end of a suffix of `s` are blanks at the end of `s`. */
  lemma BlankTail(s: string, i: nat, u: string, n: nat, b: Blanks)
    requires i <= |s| && u == s[i..] && n <= |u|
    requires forall j :: n <= j < |u| ==> IsBlank(b, u[j])
    ensures forall k :: i + n <= k < |s| ==> IsBlank(b, s[k])
  {
    forall k | i + n <= k < |s|
      ensures IsBlank(b, s[k])
    {
      assert s[k] == u[k - i];
    }
  }

  lemma SliceOfSuffix<T>(s: seq<T>, i: nat, n: nat)
    requires i + n <= |s|
    ensures s[i..][..n] == s[i..i + n]
  {
  }

  /** The text `int()` reads digits from: `s` without the whitespace `int()` skips at either end. */
  function IntStrip(s: string): (r: string)
    ensures r == [] || (!IsIntSpace(r[0]) && !IsIntSpace(r[|r| - 1]))
    ensures exists i :: Padded(s, r, i, IntBlanks)
  {
    TrimPadded(s, IntBlanks);
    TrimEnd(TrimStart(s, IntBlanks), IntBlanks)
  }

  lemma {:induction false} TrimStartKeeps(s: string, c: char, b: Blanks)
    requires !IsBlank(b, c)
    ensures c in s <==> c in TrimStart(s, b)
    decreases |s|
  {
    if |s| > 0 && IsBlank(b, s[0]) {
      assert s == [s[0]] + s[1..];
      TrimStartKeeps(s[1..], c, b);
    }
  }

  lemma {:induction false} TrimEndKeeps(s: string, c: char, b: Blanks)
    requires !IsBlank(b, c)
    ensures c in s <==> c in TrimEnd(s, b)
    decreases |s|
  {
    if |s| > 0 && IsBlank(b, s[|s| - 1]) {
      assert s == s[..|s| - 1] + [s[|s| - 1]];
      TrimEndKeeps(s[..|s| - 1], c, b);
    }
  }

  /** `strip()` removes only whitespace: every other character is kept, and nothing is added. */
  lemma StripKeeps(s: string, c: char)
    requires !IsSpace(c)
    ensures c in s <==> c in Strip(s)
  {
    TrimStartKeeps(s, c, StrBlanks);
    TrimEndKeeps(TrimStart(s, StrBlanks), c, StrBlanks);
  }

  /** A string with no whitespace at either end is left alone by `strip()`. */
  lemma StripUnpadded(s: string)
    requires s == [] || (!IsSpace(s[0]) && !IsSpace(s[|s| - 1]))
    ensures Strip(s) == s
  {
  }

  /** Number of occurrences of `c` in `s`. */
  function Count(s: string, c: char): nat {
    if |s| == 0 then 0 else (if s[0] == c then 1 else 0) + Count(s[1..], c)
  }

  /** Python's `s.split(sep)` for a one-character separator: never empty, one more part than separators. */
  function SplitOn(s: string, sep: char): (r: seq<string>)
    ensures |r| == Count(s, sep) + 1
    ensures forall i :: 0 <= i < |r| ==> sep !in r[i]
  {
    if |s| == 0 then [""]
    else
      var rest := SplitOn(s[1..], sep);
      if s[0] == sep then [""] + rest
      else [[s[0]] + rest[0]] + rest[1..]
  }

  /** Python's `sep.join(parts)`. */
  function Join(parts: seq<string>, sep: char): string
    requires |parts| > 0
  {
    if |parts| == 1 then parts[0] else parts[0] + [sep] + Join(parts[1..], sep)
  }

  /** Splitting and re-joining at the same separator gives back the original text. */
  lemma {:induction false} JoinSplit(s: string, sep: char)
    ensures Join(SplitOn(s, sep), sep) == s
    decreases |s|
  {
    if |s| > 0 {
      var rest := SplitOn(s[1..], sep);
      JoinSplit(s[1..], sep);
      if s[0] != sep {
        JoinExtendFirst(s[0], rest, sep);
        assert s == [s[0]] + s[1..];
      } else {
        assert ([""] + rest)[1..] == rest;
        assert s == [sep] + s[1..];
      }
    }
  }

  /** Adding a character in front of the first part adds it in front of the joined text. */
  lemma JoinExtendFirst(c: char, parts: seq<string>, sep: char)
    requires |parts| > 0
    ensures Join([[c] + parts[0]] + parts[1..], sep) == [c] + Join(parts, sep)
  {
    var ps := [[c] + parts[0]] + parts[1..];
    assert ps[1..] == parts[1..];
    if |parts| > 1 {
      AppendAssoc([c], parts[0] + [sep], Join(parts[1..], sep));
      AppendAssoc([c] + parts[0], [sep], Join(parts[1..], sep));
      AppendAssoc(parts[0], [sep], Join(parts[1..], sep));
    }
  }

  /** Joining separator-free parts and splitting again gives back the parts. */
  lemma {:induction false} SplitJoin(parts: seq<string>, sep: char)
    requires |parts| > 0
    requires forall i :: 0 <= i < |parts| ==> sep !in parts[i]
    ensures SplitOn(Join(parts, sep), sep) == parts
  {
    if |parts| == 1 {
      SplitNoSeparator(parts[0], sep);
    } else {
      SplitJoin(parts[1..], sep);
      SplitPrefix(parts[0], Join(parts[1..], sep), sep);
      assert [parts[0]] + parts[1..] == parts;
    }
  }

  /** Text without the separator splits into itself. */
  lemma {:induction false} SplitNoSeparator(s: string, sep: char)
    requires sep !in s
    ensures SplitOn(s, sep) == [s]
  {
    if |s| > 0 {
      SplitNoSeparator(s[1..], sep);
      assert s == [s[0]] + s[1..];
    }
  }

  /** A separator-free head followed by the separator becomes the first part. */
  lemma {:induction false} SplitPrefix(head: string, tail: string, sep: char)
    requires sep !in head
    ensures SplitOn(head + [sep] + tail, sep) == [head] + SplitOn(tail, sep)
  {
    if |head| == 0 {
      assert head + [sep] + tail == [sep] + tail;
      assert ([sep] + tail)[1..] == tail;
    } else {
      var s := head + [sep] + tail;
      assert s[1..] == head[1..] + [sep] + tail;
      SplitPrefix(head[1..], tail, sep);
      assert [head[0]] + head[1..] == head;
    }
  }

  /** The final `sep`-separated segment of `s`, i.e. Python's `s.split(sep)[-1]`. */
  function LastSegment(s: string, sep: char): (r: string)
    ensures sep !in r
    ensures |r| <= |s| && r == s[|s| - |r|..]
    ensures |r| == |s| || s[|s| - |r| - 1] == sep
  {
    LastPartIsSuffix(s, sep);
    var parts := SplitOn(s, sep);
    parts[|parts| - 1]
  }

  /** A character occurs nowhere exactly when it is counted zero times. */
  lemma {:induction false} CountZero(s: string, c: char)
    ensures Count(s, c) == 0 <==> c !in s
    decreases |s|
  {
    if |s| > 0 {
      CountZero(s[1..], c);
      assert s == [s[0]] + s[1..];
    }
  }

  /** The last part of `s.split(sep)` is the suffix of `s` after its last separator, or all of `s`. */
  lemma {:induction false} LastPartIsSuffix(s: string, sep: char)
    ensures var parts := SplitOn(s, sep); var r := parts[|parts| - 1];
      && |r| <= |s| && r == s[|s| - |r|..]
      && (|r| == |s| || s[|s| - |r| - 1] == sep)
    decreases |s|
  {
    if |s| > 0 {
      var parts := SplitOn(s, sep);
      var rest := SplitOn(s[1..], sep);
      var last := rest[|rest| - 1];
      LastPartIsSuffix(s[1..], sep);
      assert last == s[|s| - |last|..];
      if s[0] != sep && |rest| == 1 {
        CountZero(s[1..], sep);
        assert last == s[1..];
        assert parts[|parts| - 1] == [s[0]] + s[1..] == s;
      } else {
        assert parts[|parts| - 1] == last;
        CountZero(s[1..], sep);
      }
    }
  }

  /** Every non-whitespace character of `s`, in order. */
  function NonSpace(s: string): string {
    if |s| == 0 then [] else (if IsSpace(s[0]) then [] else [s[0]]) + NonSpace(s[1..])
  }

  /** Concatenation of a list of strings. */
  function Concat(parts: seq<string>): string {
    if |parts| == 0 then [] else parts[0] + Concat(parts[1..])
  }

  /** A field of `str.split()`: non-empty and free of whitespace. */
  predicate IsWord(w: string) {
    |w| > 0 && forall k :: 0 <= k < |w| ==> !IsSpace(w[k])
  }

  /**
   * Python's `s.split()` with no argument: the maximal runs of non-whitespace.
   * The fields are non-empty, hold no whitespace, and together are exactly the
   * non-whitespace characters of `s` in order.
   */
  function Fields(s: string): (r: seq<string>)
    ensures forall i :: 0 <= i < |r| ==> IsWord(r[i])
    ensures Concat(r) == NonSpace(s)
    ensures |s| > 0 && !IsSpace(s[0]) ==> |r| > 0 && |r[0]| > 0 && r[0][0] == s[0]
  {
    if |s| == 0 then []
    else if IsSpace(s[0]) then Fields(s[1..])
    else
      var rest := Fields(s[1..]);
      assert NonSpace(s) == [s[0]] + NonSpace(s[1..]);
      if |s| > 1 && !IsSpace(s[1]) then
        var w := [s[0]] + rest[0];
        WordCons(s[0], rest[0]);
        ConcatCons(w, rest[1..]);
        AppendAssoc([s[0]], rest[0], Concat(rest[1..]));
        [w] + rest[1..]
      else
        ConcatCons([s[0]], rest);
        [[s[0]]] + rest
  }

  /** A non-whitespace character in front of a word keeps it a word. */
  lemma WordCons(c: char, w: string)
    requires !IsSpace(c) && IsWord(w)
    ensures IsWord([c] + w)
  {
    assert forall k :: 1 <= k < |w| + 1 ==> ([c] + w)[k] == w[k - 1];
  }

  /** Concatenating a list with one more string in front. */
  lemma ConcatCons(x: string, parts: seq<string>)
    ensures Concat([x] + parts) == x + Concat(parts)
  {
    assert ([x] + parts)[1..] == parts;
  }

  /** A single word is split into itself. */
  lemma {:induction false} FieldsWord(w: string)
    requires IsWord(w)
    ensures Fields(w) == [w]
    decreases |w|
  {
    assert !IsSpace(w[0]);
    if |w| > 1 {
      assert !IsSpace(w[1]);
      assert IsWord(w[1..]) by {
        assert forall k :: 0 <= k < |w| - 1 ==> w[1..][k] == w[k + 1];
      }
      FieldsWord(w[1..]);
      assert Fields(w) == [[w[0]] + w[1..]] + [w[1..]][1..];
      assert [w[0]] + w[1..] == w;
    } else {
      assert Fields(w) == [[w[0]]] + Fields(w[1..]);
      assert w == [w[0]];
    }
  }

  /** A whitespace character always separates fields: what lies on either side is split on its own. */
  lemma {:induction false} FieldsAtSpace(a: string, c: char, b: string)
    requires IsSpace(c)
    ensures Fields(a + [c] + b) == Fields(a) + Fields(b)
    decreases |a|
  {
    var s := a + [c] + b;
    if |a| == 0 {
      assert s == [c] + b && s[1..] == b;
    } else {
      assert s[0] == a[0] && s[1] == (if |a| > 1 then a[1] else c);
      assert s[1..] == a[1..] + [c] + b;
      FieldsAtSpace(a[1..], c, b);
      FieldsSameStart(a, s, Fields(b));
    }
  }

  /**
   * Two texts that agree on their first character, and on whether the second
   * one is whitespace, split alike once their tails do.
   */
  lemma FieldsSameStart(a: string, s: string, tail: seq<string>)
    requires |a| > 0 && |s| > 1 && s[0] == a[0]
    requires |a| > 1 ==> s[1] == a[1]
    requires |a| == 1 ==> IsSpace(s[1])
    requires Fields(s[1..]) == Fields(a[1..]) + tail
    ensures Fields(s) == Fields(a) + tail
  {
    if IsSpace(a[0]) {
      FieldsOpenSpace(a);
      FieldsOpenSpace(s);
    } else if |a| > 1 && !IsSpace(a[1]) {
      FieldsJoinWord(a, s, tail);
    } else {
      FieldsOpenSingle(a);
      FieldsOpenSingle(s);
      AppendAssoc([[a[0]]], Fields(a[1..]), tail);
    }
  }

  /** Concatenation is associative. */
  lemma AppendAssoc<T>(x: seq<T>, y: seq<T>, z: seq<T>)
    ensures x + (y + z) == x + y + z
  {
  }

  /** Text opening with whitespace splits as the rest does. */
  lemma FieldsOpenSpace(s: string)
    requires |s| > 0 && IsSpace(s[0])
    ensures Fields(s) == Fields(s[1..])
  {
  }

  /** Text opening with a one-character word: that word is the first field. */
  lemma FieldsOpenSingle(s: string)
    requires |s| > 0 && !IsSpace(s[0]) && (|s| == 1 || IsSpace(s[1]))
    ensures Fields(s) == [[s[0]]] + Fields(s[1..])
  {
  }

  /** The case of `FieldsSameStart` where both texts open with a word of two or more characters. */
  lemma FieldsJoinWord(a: string, s: string, tail: seq<string>)
    requires |a| > 1 && |s| > 1 && s[0] == a[0] && s[1] == a[1]
    requires !IsSpace(a[0]) && !IsSpace(a[1])
    requires Fields(s[1..]) == Fields(a[1..]) + tail
    ensures Fields(s) == Fields(a) + tail
  {
    FieldsOpenWord(a);
    FieldsOpenWord(s);
    PrependToFirst([a[0]], Fields(a[1..]), tail);
  }

  /** Extending the first of a list of strings commutes with appending more strings. */
  lemma PrependToFirst(x: string, parts: seq<string>, tail: seq<string>)
    requires |parts| > 0
    ensures [x + (parts + tail)[0]] + (parts + tail)[1..] == ([x + parts[0]] + parts[1..]) + tail
  {
    assert (parts + tail)[1..] == parts[1..] + tail;
  }

  /** Text opening with two word characters: its first character joins the first field of the rest. */
  lemma FieldsOpenWord(s: string)
    requires |s| > 1 && !IsSpace(s[0]) && !IsSpace(s[1])
    ensures |Fields(s[1..])| > 0
    ensures Fields(s) == [[s[0]] + Fields(s[1..])[0]] + Fields(s[1..])[1..]
  {
  }

  /** Whitespace in front of a text adds no field. */
  lemma {:induction false} FieldsSpacePrefix(pad: string, x: string)
    requires forall i :: 0 <= i < |pad| ==> IsSpace(pad[i])
    ensures Fields(pad + x) == Fields(x)
    decreases |pad|
  {
    if |pad| > 0 {
      assert (pad + x)[0] == pad[0] && IsSpace(pad[0]);
      assert (pad + x)[1..] == pad[1..] + x;
      FieldsSpacePrefix(pad[1..], x);
      assert Fields(pad + x) == Fields((pad + x)[1..]);
    } else {
      assert pad + x == x;
    }
  }

  /** Whitespace after a text adds no field. */
  lemma FieldsSpaceSuffix(x: string, pad: string)
    requires forall i :: 0 <= i < |pad| ==> IsSpace(pad[i])
    ensures Fields(x + pad) == Fields(x)
  {
    if |pad| == 0 {
      assert x + pad == x;
    } else {
      var rest := pad[1..];
      assert Fields(rest) == [] by {
        assert forall i :: 0 <= i < |rest| ==> IsSpace(rest[i]) by {
          assert forall i :: 0 <= i < |rest| ==> rest[i] == pad[i + 1];
        }
        FieldsSpacePrefix(rest, []);
        assert rest + [] == rest;
      }
      assert x + pad == x + [pad[0]] + rest;
      FieldsAtSpace(x, pad[0], rest);
      AppendEmpty(Fields(x));
    }
  }

  /** The empty sequence is the unit of concatenation. */
  lemma AppendEmpty<T>(x: seq<T>)
    ensures x + [] == x && [] + x == x
  {
  }

  /** `s.strip().split()` is `s.split()`: the whitespace `strip()` drops never makes a field. */
  lemma FieldsOfStrip(s: string)
    ensures Fields(Strip(s)) == Fields(s)
  {
    FieldsOfTrimStart(s);
    FieldsOfTrimEnd(TrimStart(s, StrBlanks));
  }

  /** Leading whitespace never makes a field. */
  lemma FieldsOfTrimStart(s: string)
    ensures Fields(TrimStart(s, StrBlanks)) == Fields(s)
  {
    var t := TrimStart(s, StrBlanks);
    var pad := s[..|s| - |t|];
    assert forall i :: 0 <= i < |pad| ==> IsSpace(pad[i]);
    assert s == pad + t;
    FieldsSpacePrefix(pad, t);
  }

  /** Trailing whitespace never makes a field. */
  lemma FieldsOfTrimEnd(t: string)
    ensures Fields(TrimEnd(t, StrBlanks)) == Fields(t)
  {
    var u := TrimEnd(t, StrBlanks);
    var pad := t[|u|..];
    assert forall i :: 0 <= i < |pad| ==> IsSpace(pad[i]) by {
      assert forall i :: 0 <= i < |pad| ==> pad[i] == t[|u| + i] && IsBlank(StrBlanks, t[|u| + i]);
    }
    assert t == u + pad;
    FieldsSpaceSuffix(u, pad);
  }

  /** `sub` occurs in `s` starting at index `i`. */
  predicate OccursAt(s: string, sub: string, i: int) {
    0 <= i && i + |sub| <= |s| && s[i..i + |sub|] == sub
  }

  /** Python's `sub in s` for strings: `sub` occurs somewhere in `s`. */
  function Contains(s: string, sub: string): (r: bool)
    ensures r <==> exists i :: OccursAt(s, sub, i)
    decreases |s|
  {
    if sub <= s then
      assert OccursAt(s, sub, 0);
      true
    else if |s| == 0 then
      false
    else
      var rest := Contains(s[1..], sub);
      assert forall j :: OccursAt(s[1..], sub, j) ==> OccursAt(s, sub, j + 1) by {
        forall j | OccursAt(s[1..], sub, j) ensures OccursAt(s, sub, j + 1) {
          assert s[1..][j..j + |sub|] == s[j + 1..j + 1 + |sub|];
        }
      }
      assert forall i :: OccursAt(s, sub, i) && i > 0 ==> OccursAt(s[1..], sub, i - 1) by {
        forall i | OccursAt(s, sub, i) && i > 0 ensures OccursAt(s[1..], sub, i - 1) {
          assert s[1..][i - 1..i - 1 + |sub|] == s[i..i + |sub|];
        }
      }
      rest
  }

  /** Python's `s.startswith(prefix)`: `s` is `prefix` followed by the rest of `s`. */
  function StartsWith(s: string, prefix: string): (r: bool)
    ensures r <==> prefix <= s
    ensures r ==> s == prefix + s[|prefix|..]
  {
    |prefix| <= |s| && s[..|prefix|] == prefix
  }

  predicate AllDigits(s: string) {
    forall i :: 0 <= i < |s| ==> IsDigit(s[i])
  }

  /** The value of a string of decimal digits (most significant first). */
  function DigitsValue(d: string): nat
    requires AllDigits(d)
  {
    if |d| == 0 then 0 else DigitsValue(d[..|d| - 1]) * 10 + (d[|d| - 1] as int - '0' as int)
  }

  /** A non-empty run of ASCII digits read as a number; anything else is rejected. */
  function ParseDigits(d: string): (r: Option<nat>)
    ensures r.Some? ==> '.' !in d
    ensures r.Some? <==> |d| > 0 && forall c :: c in d ==> IsDigit(c)
  {
    if |d| > 0 && AllDigits(d) then Some(DigitsValue(d)) else None
  }

  /** One optional sign followed by digits. */
  function ParseSigned(t: string): (r: Option<int>)
    ensures r.Some? ==> '.' !in t
    ensures r.Some? ==> forall c :: c in t ==> IsDigit(c) || c == '+' || c == '-'
  {
    if |t| > 0 && (t[0] == '-' || t[0] == '+') then
      match ParseDigits(t[1..])
      case None => None
      case Some(v) =>
        assert t == [t[0]] + t[1..];
        var n: int := v;
        Some(if t[0] == '-' then -n else n)
    else
      match ParseDigits(t)
      case None => None
      case Some(v) => Some(v)
  }

  /**
   * Python's `int(text)`: surrounding whitespace in the sense of `IsIntSpace`,
   * one optional sign, then at least one ASCII digit and nothing else;
   * anything else raises ValueError, rendered as `None`.
   */
  function ParseInt(text: string): (r: Option<int>)
    ensures r.Some? ==> '.' !in text
    ensures r.Some? ==> forall c :: c in text ==> IsIntSpace(c) || IsDigit(c) || c == '+' || c == '-'
  {
    TrimStartKeeps(text, '.', IntBlanks);
    TrimEndKeeps(TrimStart(text, IntBlanks), '.', IntBlanks);
    var r := ParseSigned(IntStrip(text));
    assert r.Some? ==> forall c :: c in text ==> IsIntSpace(c) || IsDigit(c) || c == '+' || c == '-' by {
      forall c | c in text && !IsIntSpace(c)
        ensures c in IntStrip(text)
      {
        TrimStartKeeps(text, c, IntBlanks);
        TrimEndKeeps(TrimStart(text, IntBlanks), c, IntBlanks);
      }
    }
    r
  }

  /**
   * `int()` does not skip the separators \x1c..\x1f, although `strip()` drops
   * them: a number behind one is rejected.
   */
  lemma ParseIntRejectsSeparator(c: char, n: int)
    requires '\U{001C}' <= c <= '\U{001F}'
    ensures Strip([c] + ShowInt(n)) == ShowInt(n)
    ensures ParseInt([c] + ShowInt(n)) == None
  {
    var x := ShowInt(n);
    var d := ShowNat(if n < 0 then -n else n);
    assert x[|x| - 1] == d[|d| - 1];
    assert IsDigit(x[0]) || x[0] == '-';
    SeparatorStripped(c, x);
    SeparatorRejected(c, x);
  }

  /** `strip()` drops a separator in front of unpadded text. */
  lemma SeparatorStripped(c: char, x: string)
    requires '\U{001C}' <= c <= '\U{001F}'
    requires |x| > 0 && !IsSpace(x[0]) && !IsSpace(x[|x| - 1])
    ensures Strip([c] + x) == x
  {
    TrimStartPadded([c], x, StrBlanks);
  }

  /** `int()` keeps a leading separator, and no sign or digit can start the text then. */
  lemma SeparatorRejected(c: char, x: string)
    requires '\U{001C}' <= c <= '\U{001F}'
    requires |x| > 0 && !IsIntSpace(x[|x| - 1])
    ensures ParseInt([c] + x) == None
  {
    var t := [c] + x;
    assert IntStrip(t) == t by {
      assert t[0] == c && t[|t| - 1] == x[|x| - 1];
      assert TrimStart(t, IntBlanks) == t;
    }
    assert ParseSigned(t) == None by {
      assert t[0] == c;
      assert ParseDigits(t) == None;
    }
  }

  /** Leading whitespace characters in front of text that does not start with one are all dropped. */
  lemma {:induction false} TrimStartPadded(pad: string, x: string, b: Blanks)
    requires forall i :: 0 <= i < |pad| ==> IsBlank(b, pad[i])
    requires x == [] || !IsBlank(b, x[0])
    ensures TrimStart(pad + x, b) == x
    decreases |pad|
  {
    if |pad| > 0 {
      assert (pad + x)[1..] == pad[1..] + x;
      TrimStartPadded(pad[1..], x, b);
    }
  }

  /** Trailing whitespace characters after text that does not end with one are all dropped. */
  lemma {:induction false} TrimEndPadded(x: string, pad: string, b: Blanks)
    requires forall i :: 0 <= i < |pad| ==> IsBlank(b, pad[i])
    requires x == [] || !IsBlank(b, x[|x| - 1])
    ensures TrimEnd(x + pad, b) == x
    decreases |pad|
  {
    if |pad| > 0 {
      assert (x + pad)[..|x + pad| - 1] == x + pad[..|pad| - 1];
      TrimEndPadded(x, pad[..|pad| - 1], b);
    }
  }

  /** `int()` reads an integer's printed form back through any whitespace it skips on either side. */
  lemma ParseIntPadded(before: string, n: int, after: string)
    requires forall i :: 0 <= i < |before| ==> IsIntSpace(before[i])
    requires forall i :: 0 <= i < |after| ==> IsIntSpace(after[i])
    ensures ParseInt(before + ShowInt(n) + after) == Some(n)
  {
    var s := ShowInt(n);
    var d := ShowNat(if n < 0 then -n else n);
    assert s[|s| - 1] == d[|d| - 1];
    assert before + s + after == before + (s + after);
    TrimStartPadded(before, s + after, IntBlanks);
    TrimEndPadded(s, after, IntBlanks);
    ParseShowSigned(n);
  }

  /** The decimal digits of `n`, without leading zeros. */
  function ShowNat(n: nat): (r: string)
    ensures |r| > 0 && AllDigits(r)
  {
    if n < 10 then [('0' as int + n) as char]
    else ShowNat(n / 10) + [('0' as int + n % 10) as char]
  }

  /** Python's `str(n)` for an integer. */
  function ShowInt(n: int): string {
    if n < 0 then "-" + ShowNat(-n) else ShowNat(n)
  }

  lemma {:induction false} DigitsOfShowNat(n: nat)
    ensures DigitsValue(ShowNat(n)) == n
  {
    if n >= 10 {
      var d := ShowNat(n);
      assert d[..|d| - 1] == ShowNat(n / 10);
      DigitsOfShowNat(n / 10);
    }
  }

  /** `int()` reads back every integer as Python prints it. */
  lemma ParseShowInt(n: int)
    ensures ParseInt(ShowInt(n)) == Some(n)
  {
    var x := ShowInt(n);
    ParseIntPadded([], n, []);
    AppendEmpty(x);
    AppendEmpty([] + x);
  }

  lemma ParseShowSigned(n: int)
    ensures ParseSigned(ShowInt(n)) == Some(n)
  {
    if n < 0 {
      var d := ShowNat(-n);
      assert ShowInt(n)[1..] == d;
      DigitsOfShowNat(-n);
    } else {
      DigitsOfShowNat(n);
    }
  }
}
