/** The Python string built-ins the plugin relies on (`str.isspace`,
    `str.split()`, `str.split(sep)`, `str.splitlines`, `str.strip`,
    `str.join`, decimal digits and zero padding), over code points. */
module PyStr {
  import opened Common

  /** `str.isspace()` for one code point: the characters that `str.split()`
      and `str.strip()` without arguments treat as whitespace. */
  predicate IsSpace(c: char) {
    ('\t' <= c <= '\r') || ('\U{1C}' <= c <= '\U{1F}') || c == ' '
    || c == '\U{85}' || c == '\U{A0}' || c == '\U{1680}'
    || ('\U{2000}' <= c <= '\U{200A}') || c == '\U{2028}' || c == '\U{2029}'
    || c == '\U{202F}' || c == '\U{205F}' || c == '\U{3000}'
  }

  /** The line boundaries of `str.splitlines()`. */
  predicate IsLineBreak(c: char) {
    ('\n' <= c <= '\r') || ('\U{1C}' <= c <= '\U{1E}')
    || c == '\U{85}' || c == '\U{2028}' || c == '\U{2029}'
  }

  predicate IsBar(c: char) { c == '|' }

  predicate IsUnderscore(c: char) { c == '_' }

  predicate IsDigit(c: char) { '0' <= c <= '9' }

  predicate IsNonEmpty(w: string) { w != [] }

  /** A word as `str.split()` yields it: non-empty, no whitespace. */
  predicate IsWord(w: string) {
    w != [] && forall i :: 0 <= i < |w| ==> !IsSpace(w[i])
  }

  predicate HasNonSpace(s: string) {
    exists i :: 0 <= i < |s| && !IsSpace(s[i])
  }

  /** A list comprehension `[x for x in s if keep(x)]`. */
  function Filter<T(==)>(keep: T -> bool, s: seq<T>): (r: seq<T>)
    ensures |r| <= |s|
    ensures forall i :: 0 <= i < |r| ==> keep(r[i])
    ensures forall x :: x in r ==> x in s
  {
    if s == [] then []
    else (if keep(s[0]) then [s[0]] else []) + Filter(keep, s[1..])
  }

  lemma {:induction false} FilterAppend<T>(keep: T -> bool, a: seq<T>, b: seq<T>)
    ensures Filter(keep, a + b) == Filter(keep, a) + Filter(keep, b)
  {
    if a != [] {
      assert (a + b)[1..] == a[1..] + b;
      FilterAppend(keep, a[1..], b);
    } else {
      assert a + b == b;
    }
  }

  /** The characters of `s` for which `drop` is false, in order. */
  function Erase(s: string, drop: char -> bool): (r: string)
    ensures |r| <= |s|
    ensures forall i :: 0 <= i < |r| ==> !drop(r[i])
    ensures forall c :: c in r ==> c in s
  {
    if s == [] then ""
    else (if drop(s[0]) then "" else [s[0]]) + Erase(s[1..], drop)
  }

  lemma {:induction false} EraseAppend(a: string, b: string, drop: char -> bool)
    ensures Erase(a + b, drop) == Erase(a, drop) + Erase(b, drop)
  {
    if a != [] {
      assert (a + b)[0] == a[0] && (a + b)[1..] == a[1..] + b;
      EraseAppend(a[1..], b, drop);
      var head := if drop(a[0]) then "" else [a[0]];
      assert Erase(a + b, drop) == head + Erase(a[1..] + b, drop);
      assert Erase(a, drop) == head + Erase(a[1..], drop);
    } else {
      assert a + b == b;
    }
  }

  lemma {:induction false} EraseAllDropped(s: string, drop: char -> bool)
    requires forall i :: 0 <= i < |s| ==> drop(s[i])
    ensures Erase(s, drop) == ""
  {
    if s != [] {
      EraseAllDropped(s[1..], drop);
    }
  }

  /** Erasing nothing keeps the text. */
  lemma {:induction false} EraseNoneDropped(s: string, drop: char -> bool)
    requires forall i :: 0 <= i < |s| ==> !drop(s[i])
    ensures Erase(s, drop) == s
  {
    if s != [] {
      EraseNoneDropped(s[1..], drop);
    }
  }

  /** Concatenation of the pieces, `"".join(pieces)`. */
  function Flatten(pieces: seq<string>): string {
    if pieces == [] then "" else pieces[0] + Flatten(pieces[1..])
  }

  /** `sep.join(pieces)`. */
  function JoinWith(pieces: seq<string>, sep: string): string {
    if |pieces| == 0 then ""
    else if |pieces| == 1 then pieces[0]
    else pieces[0] + sep + JoinWith(pieces[1..], sep)
  }

  /** The pieces of `s` between separator characters, empty pieces kept:
      `s.split(sep)` for a one-character separator. */
  function SplitWhere(s: string, isSep: char -> bool): (pieces: seq<string>)
    ensures |pieces| >= 1
    ensures forall i, j :: 0 <= i < |pieces| && 0 <= j < |pieces[i]| ==> !isSep(pieces[i][j])
  {
    if s == [] then [""]
    else
      var rest := SplitWhere(s[1..], isSep);
      if isSep(s[0]) then [""] + rest
      else
        assert forall j :: 1 <= j < |[s[0]] + rest[0]| ==> ([s[0]] + rest[0])[j] == rest[0][j - 1];
        [[s[0]] + rest[0]] + rest[1..]
  }

  /** `s.split()`: the maximal runs of non-whitespace characters. */
  function Words(s: string): (ws: seq<string>)
    ensures forall i :: 0 <= i < |ws| ==> IsWord(ws[i])
  {
    var pieces := SplitWhere(s, IsSpace);
    var ws := Filter(IsNonEmpty, pieces);
    assert forall i :: 0 <= i < |ws| ==> ws[i] in pieces;
    ws
  }

  /** The pieces keep every non-separator character of `s`, in order. */
  lemma {:induction false} FlattenSplit(s: string, isSep: char -> bool)
    ensures Flatten(SplitWhere(s, isSep)) == Erase(s, isSep)
  {
    if s != [] {
      FlattenSplit(s[1..], isSep);
      var rest := SplitWhere(s[1..], isSep);
      assert Flatten(rest) == rest[0] + Flatten(rest[1..]);
      if isSep(s[0]) {
        assert ([""] + rest)[1..] == rest;
      } else {
        var ps := [[s[0]] + rest[0]] + rest[1..];
        assert ps[1..] == rest[1..];
        calc {
          Flatten(ps);
          ([s[0]] + rest[0]) + Flatten(rest[1..]);
          [s[0]] + (rest[0] + Flatten(rest[1..]));
        }
      }
    }
  }

  /** Splitting on a single separator character and joining the pieces
      back with it gives the original string. */
  lemma {:induction false} JoinSplit(s: string, isSep: char -> bool, sep: char)
    requires forall c :: isSep(c) <==> c == sep
    ensures JoinWith(SplitWhere(s, isSep), [sep]) == s
  {
    if s != [] {
      JoinSplit(s[1..], isSep, sep);
      var rest := SplitWhere(s[1..], isSep);
      if isSep(s[0]) {
        var ps := [""] + rest;
        assert ps[1..] == rest;
        assert JoinWith(ps, [sep]) == "" + [sep] + JoinWith(rest, [sep]);
        assert s == [s[0]] + s[1..];
      } else {
        var ps := [[s[0]] + rest[0]] + rest[1..];
        assert s == [s[0]] + s[1..];
        if |rest| == 1 {
          assert JoinWith(ps, [sep]) == [s[0]] + rest[0];
        } else {
          assert ps[1..] == rest[1..];
          calc {
            JoinWith(ps, [sep]);
            ([s[0]] + rest[0]) + [sep] + JoinWith(rest[1..], [sep]);
            [s[0]] + (rest[0] + [sep] + JoinWith(rest[1..], [sep]));
            [s[0]] + JoinWith(rest, [sep]);
          }
        }
      }
    }
  }

  /** A text without a separator is one piece: `split(sep)` cuts nowhere
      else than at a separator. */
  lemma {:induction false} SplitNoSeparator(a: string, isSep: char -> bool)
    requires forall i :: 0 <= i < |a| ==> !isSep(a[i])
    ensures SplitWhere(a, isSep) == [a]
  {
    if a != [] {
      SplitNoSeparator(a[1..], isSep);
      assert [a[0]] + a[1..] == a;
    }
  }

  /** The first piece ends at the first separator, and the split goes on
      after it: `split(sep)` cuts at every separator. */
  lemma {:induction false} SplitAround(a: string, c: char, b: string, isSep: char -> bool)
    requires isSep(c)
    requires forall i :: 0 <= i < |a| ==> !isSep(a[i])
    ensures SplitWhere(a + [c] + b, isSep) == [a] + SplitWhere(b, isSep)
  {
    var s := a + [c] + b;
    if a == [] {
      assert s[1..] == b;
    } else {
      assert s[1..] == a[1..] + [c] + b;
      SplitAround(a[1..], c, b, isSep);
      assert [a[0]] + a[1..] == a;
    }
  }

  /** Joining words with single spaces and splitting again on whitespace
      gives back exactly those words. */
  lemma {:induction false} WordsOfJoin(ws: seq<string>)
    requires forall i :: 0 <= i < |ws| ==> IsWord(ws[i])
    ensures Words(JoinWith(ws, " ")) == ws
  {
    if |ws| == 1 {
      SplitNoSeparator(ws[0], IsSpace);
    } else if |ws| > 1 {
      WordsOfJoin(ws[1..]);
      var rest := JoinWith(ws[1..], " ");
      assert JoinWith(ws, " ") == ws[0] + [' '] + rest;
      SplitAround(ws[0], ' ', rest, IsSpace);
      FilterAppend(IsNonEmpty, [ws[0]], SplitWhere(rest, IsSpace));
      assert [ws[0]] + ws[1..] == ws;
    }
  }

  lemma {:induction false} FlattenDropsEmpty(ps: seq<string>)
    ensures Flatten(Filter(IsNonEmpty, ps)) == Flatten(ps)
  {
    if ps != [] {
      FlattenDropsEmpty(ps[1..]);
      var head := if IsNonEmpty(ps[0]) then [ps[0]] else [];
      assert Filter(IsNonEmpty, ps) == head + Filter(IsNonEmpty, ps[1..]);
      FlattenAppend(head, Filter(IsNonEmpty, ps[1..]));
    }
  }

  lemma {:induction false} FlattenAppend(a: seq<string>, b: seq<string>)
    ensures Flatten(a + b) == Flatten(a) + Flatten(b)
  {
    if a != [] {
      assert (a + b)[1..] == a[1..] + b;
      FlattenAppend(a[1..], b);
    } else {
      assert a + b == b;
    }
  }

  /** `str.split()` loses whitespace only: its words hold every other
      character of the input, in order. */
  lemma WordsKeepText(s: string)
    ensures Flatten(Words(s)) == Erase(s, IsSpace)
  {
    FlattenDropsEmpty(SplitWhere(s, IsSpace));
    FlattenSplit(s, IsSpace);
  }

  /** The index of the first character at or after `i` that is not
      whitespace, or `|s|`. */
  function SkipSpaces(s: string, i: nat): (j: nat)
    requires i <= |s|
    ensures i <= j <= |s|
    ensures forall k :: i <= k < j ==> IsSpace(s[k])
    ensures j == |s| || !IsSpace(s[j])
    decreases |s| - i
  {
    if i < |s| && IsSpace(s[i]) then SkipSpaces(s, i + 1) else i
  }

  /** The index just past the last character before `j`, and at or after
      `lo`, that is not whitespace, or `lo`. */
  function SkipSpacesBack(s: string, lo: nat, j: nat): (e: nat)
    requires lo <= j <= |s|
    ensures lo <= e <= j
    ensures forall k :: e <= k < j ==> IsSpace(s[k])
    ensures e == lo || !IsSpace(s[e - 1])
  {
    if lo < j && IsSpace(s[j - 1]) then SkipSpacesBack(s, lo, j - 1) else j
  }

  /** `s.strip()`: the slice of `s` left once the whitespace at both ends is
      cut off; the result neither starts nor ends with whitespace, and it is
      empty exactly when `s` holds no other character. */
  function Strip(s: string): (r: string)
    ensures exists a, e ::
              && 0 <= a <= e <= |s| && r == s[a..e]
              && (forall i :: 0 <= i < a ==> IsSpace(s[i]))
              && (forall i :: e <= i < |s| ==> IsSpace(s[i]))
    ensures r == [] || (!IsSpace(r[0]) && !IsSpace(r[|r| - 1]))
    ensures r == [] <==> !HasNonSpace(s)
  {
    var a := SkipSpaces(s, 0);
    s[a..SkipSpacesBack(s, a, |s|)]
  }

  /** Stripping removes only whitespace: every other character survives, in order. */
  lemma StripKeepsText(s: string)
    ensures Erase(Strip(s), IsSpace) == Erase(s, IsSpace)
  {
    var a := SkipSpaces(s, 0);
    var e := SkipSpacesBack(s, a, |s|);
    SliceThree(s, a, e);
    EraseMiddle(s[..a], s[a..e], s[e..], IsSpace);
  }

  /** Solver aid: a sequence is its three slices at two cut points. */
  lemma SliceThree<T>(s: seq<T>, a: nat, e: nat)
    requires a <= e <= |s|
    ensures s == s[..a] + s[a..e] + s[e..]
  {
  }

  /** Erasing from a text whose ends hold only erased characters keeps what
      the middle keeps. */
  lemma EraseMiddle(lead: string, kept: string, trail: string, drop: char -> bool)
    requires forall i :: 0 <= i < |lead| ==> drop(lead[i])
    requires forall i :: 0 <= i < |trail| ==> drop(trail[i])
    ensures Erase(lead + kept + trail, drop) == Erase(kept, drop)
  {
    EraseAppend(lead + kept, trail, drop);
    EraseAppend(lead, kept, drop);
    EraseAllDropped(lead, drop);
    EraseAllDropped(trail, drop);
  }

  /** `s.lstrip(c)`. */
  function StripLeading(s: string, c: char): (r: string)
    ensures |r| <= |s| && r == s[|s| - |r|..]
    ensures forall k :: 0 <= k < |s| - |r| ==> s[k] == c
    ensures r == [] || r[0] != c
  {
    s[SkipChar(s, c, 0)..]
  }

  /** The index of the first character at or after `i` that is not `c`, or
      `|s|`. */
  function SkipChar(s: string, c: char, i: nat): (j: nat)
    requires i <= |s|
    ensures i <= j <= |s|
    ensures forall k :: i <= k < j ==> s[k] == c
    ensures j == |s| || s[j] != c
    decreases |s| - i
  {
    if i < |s| && s[i] == c then SkipChar(s, c, i + 1) else i
  }

  /** The first index at which `p` holds, as `str.find` returns it. */
  function IndexWhere(s: string, p: char -> bool): (r: Option<nat>)
    ensures r.Some? ==> r.value < |s| && p(s[r.value]) && forall k :: 0 <= k < r.value ==> !p(s[k])
    ensures r.None? ==> forall k :: 0 <= k < |s| ==> !p(s[k])
  {
    if s == [] then None
    else if p(s[0]) then Some(0)
    else match IndexWhere(s[1..], p)
      case None => None
      case Some(i) => Some(i + 1)
  }

  /** ASCII lower-casing, as far as Python's case-insensitive matching of
      "inf" and "nan" needs it. */
  function LowerAscii(s: string): (r: string)
    ensures |r| == |s|
    ensures forall i :: 0 <= i < |s| && !('A' <= s[i] <= 'Z') ==> r[i] == s[i]
  {
    if s == [] then ""
    else [if 'A' <= s[0] <= 'Z' then (s[0] as int + 32) as char else s[0]] + LowerAscii(s[1..])
  }

  predicate AllDigitsOrUnderscores(s: string) {
    forall i :: 0 <= i < |s| ==> IsDigit(s[i]) || IsUnderscore(s[i])
  }

  /** The value of a run of decimal digits; underscores, which Python's
      `int()` and `float()` accept between digits, are skipped. */
  function DigitsValue(s: string): nat
    requires AllDigitsOrUnderscores(s)
  {
    if s == [] then 0
    else
      var last := s[|s| - 1];
      if IsUnderscore(last) then DigitsValue(s[..|s| - 1])
      else 10 * DigitsValue(s[..|s| - 1]) + (last as int - '0' as int)
  }

  function DigitChar(d: nat): (c: char)
    requires d < 10
    ensures IsDigit(c) && c as int - '0' as int == d
  {
    ('0' as int + d) as char
  }

  /** `str(n)` for a natural number. */
  function Decimal(n: nat): (s: string)
    ensures |s| >= 1
    ensures forall i :: 0 <= i < |s| ==> IsDigit(s[i])
    ensures s[0] == '0' <==> n == 0
    ensures n == 0 ==> s == "0"
  {
    if n < 10 then [DigitChar(n)] else Decimal(n / 10) + [DigitChar(n % 10)]
  }

  lemma {:induction false} DecimalValue(n: nat)
    ensures DigitsValue(Decimal(n)) == n
  {
    if n >= 10 {
      DecimalValue(n / 10);
      var s := Decimal(n);
      assert s[..|s| - 1] == Decimal(n / 10);
    }
  }

  /** `c * k`: `k` copies of the character `c`. */
  function Repeat(c: char, k: nat): (r: string)
    ensures |r| == k && forall i :: 0 <= i < k ==> r[i] == c
  {
    if k == 0 then "" else [c] + Repeat(c, k - 1)
  }

  /** Solver aid: one more copy goes at the end. */
  lemma RepeatGrows(c: char, k: nat)
    ensures Repeat(c, k) + [c] == Repeat(c, k + 1)
  {
  }

  /** The digits of `n` left-padded with zeros to at least `width`
      characters: Python's format spec `0{width}d` for a natural number. */
  function ZeroPadded(n: nat, width: nat): (s: string)
    ensures |s| == if |Decimal(n)| >= width then |Decimal(n)| else width
    ensures forall i :: 0 <= i < |s| ==> IsDigit(s[i])
  {
    var d := Decimal(n);
    if |d| >= width then d else Repeat('0', width - |d|) + d
  }

  /** The padded text is zeros, then the digits of `n`. */
  lemma ZeroPaddedShape(n: nat, width: nat)
    ensures var s := ZeroPadded(n, width);
      && s[|s| - |Decimal(n)|..] == Decimal(n)
      && forall i :: 0 <= i < |s| - |Decimal(n)| ==> s[i] == '0'
  {
  }

  lemma {:induction false} LeadingZerosValue(k: nat, s: string)
    requires forall i :: 0 <= i < |s| ==> IsDigit(s[i])
    ensures AllDigitsOrUnderscores(Repeat('0', k) + s)
    ensures DigitsValue(Repeat('0', k) + s) == DigitsValue(s)
  {
    var z := Repeat('0', k) + s;
    if s == [] {
      assert z == Repeat('0', k);
      ZerosValue(k);
    } else {
      var n := |s| - 1;
      LeadingZerosValue(k, s[..n]);
      assert z[..|z| - 1] == Repeat('0', k) + s[..n];
    }
  }

  lemma {:induction false} ZerosValue(k: nat)
    ensures AllDigitsOrUnderscores(Repeat('0', k))
    ensures DigitsValue(Repeat('0', k)) == 0
  {
    if k > 0 {
      ZerosValue(k - 1);
      assert Repeat('0', k)[..k - 1] == Repeat('0', k - 1) by {
        assert forall i :: 0 <= i < k - 1 ==> Repeat('0', k)[i] == '0' == Repeat('0', k - 1)[i];
      }
    }
  }

  /** Zero padding is undone by reading the digits back. */
  lemma ZeroPaddedValue(n: nat, width: nat)
    ensures DigitsValue(ZeroPadded(n, width)) == n
  {
    var d := Decimal(n);
    DecimalValue(n);
    if |d| < width {
      LeadingZerosValue(width - |d|, d);
    }
  }
}
