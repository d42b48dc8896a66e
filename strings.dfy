/** The Python `str` operations the service relies on: `isspace`, `strip`,
    `split(sep)`, `split()`, `sep.join(...)` and decimal formatting of a
    non-negative integer (as an f-string prints it). */
module Strings {

  function Min(a: int, b: int): int
  {
    if a <= b then a else b
  }

  /** Python's `str.isspace()` on one character; it is also the class that
      `\s` matches in a `str` regular expression. */
  predicate IsSpace(c: char)
  {
    ('\t' <= c <= '\r') || ('\U{1C}' <= c <= '\U{1F}') || c == ' '
    || c == '\U{85}' || c == '\U{A0}' || c == '\U{1680}'
    || ('\U{2000}' <= c <= '\U{200A}') || c == '\U{2028}' || c == '\U{2029}'
    || c == '\U{202F}' || c == '\U{205F}' || c == '\U{3000}'
  }

  ghost predicate AllSpace(s: string)
  {
    forall k :: 0 <= k < |s| ==> IsSpace(s[k])
  }

  /** `x` occurs in `y` as a contiguous piece. */
  ghost predicate IsInfix(x: string, y: string)
  {
    exists i, j :: 0 <= i <= j <= |y| && y[i..j] == x
  }

  /** Number of whitespace characters at the start of `s`. */
  function LeadingSpaces(s: string): (n: nat)
    ensures n <= |s|
    ensures forall k :: 0 <= k < n ==> IsSpace(s[k])
    ensures n < |s| ==> !IsSpace(s[n])
  {
    if s == [] || !IsSpace(s[0]) then 0 else 1 + LeadingSpaces(s[1..])
  }

  /** Number of whitespace characters at the end of `s`. */
  function TrailingSpaces(s: string): (n: nat)
    ensures n <= |s|
    ensures forall k :: |s| - n <= k < |s| ==> IsSpace(s[k])
    ensures n < |s| ==> !IsSpace(s[|s| - 1 - n])
  {
    if s == [] || !IsSpace(s[|s| - 1]) then 0 else 1 + TrailingSpaces(s[..|s| - 1])
  }

  /** Python's `s.strip()`: the leading whitespace and the trailing whitespace
      are removed and nothing else. */
  function Strip(s: string): (r: string)
    ensures r == "" <==> AllSpace(s)
    ensures r != "" ==> !IsSpace(r[0]) && !IsSpace(r[|r| - 1])
    ensures LeadingSpaces(s) + |r| <= |s|
    ensures r == s[LeadingSpaces(s)..LeadingSpaces(s) + |r|]
    ensures forall k :: LeadingSpaces(s) + |r| <= k < |s| ==> IsSpace(s[k])
  {
    var lead := LeadingSpaces(s);
    if lead == |s| then "" else s[lead..|s| - TrailingSpaces(s)]
  }

  /** The strip of `s` is `s[a..b]` as soon as everything outside `a..b` is
      whitespace and `s[a..b]` has no whitespace at its ends. */
  lemma StripUnique(s: string, a: nat, b: nat)
    requires a <= b <= |s|
    requires forall k :: 0 <= k < a ==> IsSpace(s[k])
    requires forall k :: b <= k < |s| ==> IsSpace(s[k])
    requires a < b ==> !IsSpace(s[a]) && !IsSpace(s[b - 1])
    ensures Strip(s) == s[a..b]
  {
    if a < b {
      var r, l := Strip(s), LeadingSpaces(s);
      assert l == a;
      assert s[l + |r| - 1] == r[|r| - 1];
    } else {
      assert AllSpace(s);
    }
  }

  /** Length of the run of non-whitespace characters at the start of `s`. */
  function WordLength(s: string): (n: nat)
    ensures n <= |s|
    ensures forall k :: 0 <= k < n ==> !IsSpace(s[k])
    ensures n < |s| ==> IsSpace(s[n])
  {
    if s == [] || IsSpace(s[0]) then 0 else 1 + WordLength(s[1..])
  }

  /** Python's `s.split()` with no argument: the maximal runs of
      non-whitespace characters, in order. */
  function Words(s: string): seq<string>
    decreases |s|
  {
    var t := s[LeadingSpaces(s)..];
    if t == "" then []
    else
      assert t[0] == s[LeadingSpaces(s)];
      var n := WordLength(t);
      assert n >= 1;
      [t[..n]] + Words(t[n..])
  }

  /** Whitespace in front of a string does not change its words. */
  lemma WordsAfterSpaces(w: string, s: string)
    requires AllSpace(w)
    ensures Words(w + s) == Words(s)
  {
    var ws := w + s;
    SameRestAfterSpaces(w, s);
    calc {
      Words(ws);
    == { WordsSkip(ws); }
      Words(ws[LeadingSpaces(ws)..]);
    ==
      Words(s[LeadingSpaces(s)..]);
    == { WordsSkip(s); }
      Words(s);
    }
  }

  /** What follows the leading whitespace of `w + s` is what follows the
      leading whitespace of `s`. */
  lemma SameRestAfterSpaces(w: string, s: string)
    requires AllSpace(w)
    ensures (w + s)[LeadingSpaces(w + s)..] == s[LeadingSpaces(s)..]
  {
    var l := LeadingSpaces(s);
    LeadingSpacesAfter(w, s);
    var x, y := (w + s)[|w| + l..], s[l..];
    assert |x| == |y|;
    forall k | 0 <= k < |y|
      ensures x[k] == y[k]
    {
      assert x[k] == (w + s)[|w| + l + k];
    }
  }

  /** `split()` only looks at what follows the leading whitespace. */
  lemma WordsSkip(s: string)
    ensures Words(s) == Words(s[LeadingSpaces(s)..])
  {
    var t := s[LeadingSpaces(s)..];
    assert t == "" || !IsSpace(t[0]);
    assert LeadingSpaces(t) == 0;
    assert t[0..] == t;
  }

  lemma {:induction false} LeadingSpacesAfter(w: string, s: string)
    requires AllSpace(w)
    ensures LeadingSpaces(w + s) == |w| + LeadingSpaces(s)
    decreases |w|
  {
    if w != "" {
      var ws := w + s;
      assert ws[0] == w[0] && IsSpace(w[0]);
      assert ws[1..] == w[1..] + s;
      assert AllSpace(w[1..]) by {
        forall k | 0 <= k < |w[1..]|
          ensures IsSpace(w[1..][k])
        {
          assert w[1..][k] == w[k + 1];
        }
      }
      LeadingSpacesAfter(w[1..], s);
    } else {
      assert w + s == s;
    }
  }

  /** A word followed by whitespace, or by nothing, is the first word. */
  lemma WordsCons(w: string, s: string)
    requires w != "" && forall k :: 0 <= k < |w| ==> !IsSpace(w[k])
    requires s == "" || IsSpace(s[0])
    ensures Words(w + s) == [w] + Words(s)
  {
    var t := w + s;
    assert t[0] == w[0];
    assert t[LeadingSpaces(t)..] == t;
    assert forall k :: 0 <= k < |w| ==> t[k] == w[k];
    assert |w| < |t| ==> t[|w|] == s[0];
    assert WordLength(t) == |w|;
    assert t[..|w|] == w && t[|w|..] == s;
  }

  /** A blank string has no words. */
  lemma BlankWords(s: string)
    requires AllSpace(s)
    ensures Words(s) == []
  {
    assert LeadingSpaces(s) == |s|;
  }

  /** Whitespace after a string does not change its words. */
  lemma {:induction false} WordsBeforeSpaces(s: string, w: string)
    requires AllSpace(w)
    ensures Words(s + w) == Words(s)
    decreases |s|
  {
    var l := LeadingSpaces(s);
    var pad, t := s[..l], s[l..];
    assert s == pad + t;
    assert AllSpace(pad) by {
      forall k | 0 <= k < l
        ensures IsSpace(pad[k])
      {
        assert pad[k] == s[k];
      }
    }
    assert s + w == pad + (t + w);
    WordsAfterSpaces(pad, t + w);
    WordsAfterSpaces(pad, t);
    if t == "" {
      assert t + w == w;
      BlankWords(w);
    } else {
      WordsBeforeSpacesStep(t, w);
    }
  }

  /** The inductive step of `WordsBeforeSpaces`, for a string that starts with a word. */
  lemma {:induction false} WordsBeforeSpacesStep(t: string, w: string)
    requires AllSpace(w) && t != "" && !IsSpace(t[0])
    ensures Words(t + w) == Words(t)
    decreases |t|, 0
  {
    var n := WordLength(t);
    var word, rest := t[..n], t[n..];
    assert t == word + rest;
    assert t + w == word + (rest + w);
    assert rest == "" ==> rest + w == w;
    assert rest != "" ==> (rest + w)[0] == rest[0];
    WordsCons(word, rest + w);
    WordsCons(word, rest);
    WordsBeforeSpaces(rest, w);
  }

  /** Stripping does not change the words. */
  lemma WordsOfStrip(x: string)
    ensures Words(Strip(x)) == Words(x)
  {
    var l, r := LeadingSpaces(x), Strip(x);
    var pad, trail := x[..l], x[l + |r|..];
    assert x == pad + (r + trail);
    assert AllSpace(pad) by {
      forall k | 0 <= k < |pad|
        ensures IsSpace(pad[k])
      {
        assert pad[k] == x[k];
      }
    }
    assert AllSpace(trail) by {
      forall k | 0 <= k < |trail|
        ensures IsSpace(trail[k])
      {
        assert trail[k] == x[l + |r| + k];
      }
    }
    WordsAfterSpaces(pad, r + trail);
    WordsBeforeSpaces(r, trail);
  }

  /** A non-empty run of non-whitespace characters. */
  ghost predicate IsWord(w: string)
  {
    w != "" && forall k :: 0 <= k < |w| ==> !IsSpace(w[k])
  }

  /** Words joined by single spaces, a space and more text split back into
      those words followed by the words of the text. */
  lemma {:induction false} WordsOfJoin(ws: seq<string>, p: string)
    requires forall i :: 0 <= i < |ws| ==> IsWord(ws[i])
    ensures Words(Join(ws, " ") + " " + p) == ws + Words(p)
    decreases |ws|
  {
    if ws == [] {
      assert Join(ws, " ") + " " + p == " " + p;
      assert AllSpace(" ");
      WordsAfterSpaces(" ", p);
    } else {
      var rest := JoinSpaceFront(ws, p);
      if |ws| > 1 {
        WordsOfJoin(ws[1..], p);
      } else {
        assert ws[1..] + Words(p) == Words(p);
      }
      WordThenSpace(ws[0], rest);
      ConsAppend(ws, Words(p));
    }
  }

  lemma ConsAppend<T>(a: seq<T>, b: seq<T>)
    requires a != []
    ensures [a[0]] + (a[1..] + b) == a + b
    ensures (a + b)[0] == a[0] && (a + b)[1..] == a[1..] + b
  {
    var left := [a[0]] + (a[1..] + b);
    assert |left| == |a + b|;
    forall k | 0 <= k < |left|
      ensures left[k] == (a + b)[k]
    {
      if k == 0 {
      } else if k < |a| {
        assert left[k] == a[1..][k - 1];
      } else {
        assert left[k] == b[k - |a|];
      }
    }
  }

  /** The join of non-empty `ws`, a space and `p` is the first word, a space
      and the rest. */
  lemma JoinSpaceFront(ws: seq<string>, p: string) returns (rest: string)
    requires ws != []
    ensures rest == if |ws| == 1 then p else Join(ws[1..], " ") + " " + p
    ensures Join(ws, " ") + " " + p == ws[0] + (" " + rest)
  {
    rest := if |ws| == 1 then p else Join(ws[1..], " ") + " " + p;
  }

  /** A word, a space and more text: the word comes first. */
  lemma WordThenSpace(w: string, rest: string)
    requires IsWord(w)
    ensures Words(w + (" " + rest)) == [w] + Words(rest)
  {
    assert AllSpace(" ");
    WordsCons(w, " " + rest);
    WordsAfterSpaces(" ", rest);
  }

  /** Every word is non-empty and holds no whitespace character. */
  lemma {:induction false} WordsHaveNoSpace(s: string)
    ensures forall i :: 0 <= i < |Words(s)| ==> IsWord(Words(s)[i])
    decreases |s|
  {
    var t := s[LeadingSpaces(s)..];
    if t != "" {
      var n := WordLength(t);
      assert !IsSpace(t[0]) && n >= 1;
      WordsHaveNoSpace(t[n..]);
      var words, rest := Words(s), Words(t[n..]);
      assert words == [t[..n]] + rest;
      forall i | 0 <= i < |words|
        ensures IsWord(words[i])
      {
        if i > 0 {
          assert words[i] == rest[i - 1];
        }
      }
    }
  }

  /** Python's `s.split(sep)` for a non-empty separator: the pieces between
      the non-overlapping occurrences of `sep`, found from left to right. */
  function Split(s: string, sep: string): (parts: seq<string>)
    requires sep != ""
    ensures parts != []
    decreases |s|
  {
    if |s| < |sep| then [s]
    else if s[..|sep|] == sep then [""] + Split(s[|sep|..], sep)
    else
      var rest := Split(s[1..], sep);
      [[s[0]] + rest[0]] + rest[1..]
  }

  /** Python's `sep.join(parts)`. */
  function Join(parts: seq<string>, sep: string): string
    decreases |parts|
  {
    if parts == [] then ""
    else if |parts| == 1 then parts[0]
    else parts[0] + sep + Join(parts[1..], sep)
  }

  function DigitChar(d: nat): char
    requires d < 10
  {
    (('0' as int) + d) as char
  }

  /** The decimal digits of `n`, as `str(n)` or `f"{n}"` prints them. */
  function NatToString(n: nat): (r: string)
    ensures r != []
    ensures n < 10 <==> |r| == 1
    decreases n
  {
    if n < 10 then [DigitChar(n)] else NatToString(n / 10) + [DigitChar(n % 10)]
  }

  /** The number a string of decimal digits denotes. */
  function DecimalValue(s: string): nat
    requires forall k :: 0 <= k < |s| ==> '0' <= s[k] <= '9'
    decreases |s|
  {
    if s == "" then 0 else 10 * DecimalValue(s[..|s| - 1]) + ((s[|s| - 1] as int) - ('0' as int))
  }

  /** `str(n)` is made of decimal digits, has no leading zero, and reads back
      as `n`. */
  lemma {:induction false} NatToStringDigits(n: nat)
    ensures forall k :: 0 <= k < |NatToString(n)| ==> '0' <= NatToString(n)[k] <= '9'
    ensures DecimalValue(NatToString(n)) == n
    ensures |NatToString(n)| > 1 ==> NatToString(n)[0] != '0'
    decreases n
  {
    var r := NatToString(n);
    if n >= 10 {
      NatToStringDigits(n / 10);
      var p := NatToString(n / 10);
      assert r == p + [DigitChar(n % 10)];
      assert r[..|r| - 1] == p;
      assert r[0] == p[0];
      if |p| == 1 {
        assert p[0] == DigitChar(n / 10);
      }
    }
  }

  /** Distinct numbers print differently. */
  lemma {:induction false} NatToStringInjective(a: nat, b: nat)
    requires NatToString(a) == NatToString(b)
    ensures a == b
    decreases a
  {
    var s := NatToString(a);
    if a < 10 {
      assert DigitChar(a) == s[0] == DigitChar(b);
    } else {
      assert b >= 10;
      assert DigitChar(a % 10) == s[|s| - 1] == DigitChar(b % 10);
      assert NatToString(a / 10) == s[..|s| - 1] == NatToString(b / 10);
      NatToStringInjective(a / 10, b / 10);
    }
  }

  lemma JoinConsChar(c: char, parts: seq<string>, sep: string)
    requires parts != []
    ensures Join([[c] + parts[0]] + parts[1..], sep) == [c] + Join(parts, sep)
  {
    var q := [[c] + parts[0]] + parts[1..];
    assert q[1..] == parts[1..];
  }

  /** Joining the pieces of a split with the same separator gives the input back. */
  lemma {:induction false} JoinSplit(s: string, sep: string)
    requires sep != ""
    ensures Join(Split(s, sep), sep) == s
    decreases |s|
  {
    if |s| < |sep| {
    } else if s[..|sep|] == sep {
      var tail := s[|sep|..];
      var rest := Split(tail, sep);
      JoinSplit(tail, sep);
      var parts := [""] + rest;
      assert Split(s, sep) == parts;
      assert parts[1..] == rest;
      assert Join(parts, sep) == "" + sep + Join(rest, sep);
      assert s == s[..|sep|] + tail;
    } else {
      var rest := Split(s[1..], sep);
      JoinSplit(s[1..], sep);
      assert Split(s, sep) == [[s[0]] + rest[0]] + rest[1..];
      JoinConsChar(s[0], rest, sep);
      assert s == [s[0]] + s[1..];
    }
  }

  /** Joining three parts puts the separator between each neighbouring pair. */
  lemma JoinThree(a: string, b: string, c: string, sep: string)
    ensures Join([a, b, c], sep) == a + sep + b + sep + c
  {
    assert [a, b, c][1..] == [b, c];
    assert [b, c][1..] == [c];
    assert Join([b, c], sep) == b + sep + c;
    assert a + sep + (b + sep + c) == a + sep + b + sep + c;
  }

  /** A string in which the separator does not occur is one piece. */
  lemma {:induction false} SplitWithoutSeparator(s: string, sep: string)
    requires sep != "" && !IsInfix(sep, s)
    ensures Split(s, sep) == [s]
    decreases |s|
  {
    if |s| >= |sep| {
      assert s[0..|sep|] != sep;
      NoInfixInTail(sep, s);
      SplitWithoutSeparator(s[1..], sep);
      assert [s[0]] + s[1..] == s;
    }
  }

  /** `x` occurs in `s` starting at index `i`. */
  ghost predicate OccursAt(s: string, i: nat, x: string)
  {
    i + |x| <= |s| && s[i..i + |x|] == x
  }

  /** The piece before the leftmost occurrence of the separator comes first,
      followed by the split of what follows that occurrence. */
  lemma {:induction false} SplitAtSeparator(a: string, sep: string, b: string)
    requires sep != ""
    requires forall i :: 0 <= i < |a| ==> !OccursAt(a + sep + b, i, sep)
    ensures Split(a + sep + b, sep) == [a] + Split(b, sep)
    decreases |a|
  {
    var s := a + sep + b;
    if a == "" {
      assert s[..|sep|] == sep && s[|sep|..] == b;
    } else {
      assert !OccursAt(s, 0, sep);
      var t := a[1..] + sep + b;
      assert s[1..] == t;
      forall i | 0 <= i < |a[1..]|
        ensures !OccursAt(t, i, sep)
      {
        assert !OccursAt(s, i + 1, sep);
        assert i + |sep| <= |t| ==> t[i..i + |sep|] == s[i + 1..i + 1 + |sep|];
      }
      SplitAtSeparator(a[1..], sep, b);
      var rest := Split(t, sep);
      assert rest[0] == a[1..] && rest[1..] == Split(b, sep);
      assert [a[0]] + a[1..] == a;
    }
  }

  /** No piece of a split contains the separator, and the first piece is a
      prefix of the string. */
  lemma {:induction false} SplitPiecesFree(s: string, sep: string)
    requires sep != ""
    ensures forall i :: 0 <= i < |Split(s, sep)| ==> !IsInfix(sep, Split(s, sep)[i])
    ensures |Split(s, sep)[0]| <= |s| && Split(s, sep)[0] == s[..|Split(s, sep)[0]|]
    decreases |s|
  {
    var parts := Split(s, sep);
    if |s| < |sep| {
      assert parts == [s];
      forall p, q | 0 <= p <= q <= |s|
        ensures s[p..q] != sep
      {
      }
    } else if s[..|sep|] == sep {
      SplitPiecesFree(s[|sep|..], sep);
      SeparatorFirstFree(s, sep, Split(s[|sep|..], sep));
    } else {
      SplitPiecesFree(s[1..], sep);
      ExtendedFirstFree(s, sep, Split(s[1..], sep));
    }
  }

  /** The inductive step of `SplitPiecesFree` when `s` starts with `sep`. */
  lemma SeparatorFirstFree(s: string, sep: string, rest: seq<string>)
    requires sep != "" && |sep| <= |s| && s[..|sep|] == sep
    requires rest == Split(s[|sep|..], sep)
    requires forall i :: 0 <= i < |rest| ==> !IsInfix(sep, rest[i])
    ensures forall i :: 0 <= i < |Split(s, sep)| ==> !IsInfix(sep, Split(s, sep)[i])
    ensures Split(s, sep)[0] == ""
  {
    var parts := Split(s, sep);
    assert parts == [""] + rest;
    forall i | 0 <= i < |parts|
      ensures !IsInfix(sep, parts[i])
    {
      if i == 0 {
        NoInfixOfEmpty(sep);
      } else {
        assert parts[i] == rest[i - 1];
      }
    }
  }

  lemma NoInfixOfEmpty(x: string)
    requires x != ""
    ensures !IsInfix(x, "")
  {
    forall i, j | 0 <= i <= j <= 0
      ensures ""[i..j] != x
    {
      assert |""[i..j]| == 0;
    }
  }

  /** The inductive step of `SplitPiecesFree` when `s` does not start with
      `sep`: the first piece grows by one character. */
  lemma ExtendedFirstFree(s: string, sep: string, rest: seq<string>)
    requires sep != "" && |sep| <= |s| && s[..|sep|] != sep
    requires rest == Split(s[1..], sep)
    requires forall i :: 0 <= i < |rest| ==> !IsInfix(sep, rest[i])
    requires |rest[0]| <= |s[1..]| && rest[0] == s[1..][..|rest[0]|]
    ensures forall i :: 0 <= i < |Split(s, sep)| ==> !IsInfix(sep, Split(s, sep)[i])
    ensures |Split(s, sep)[0]| <= |s| && Split(s, sep)[0] == s[..|Split(s, sep)[0]|]
  {
    var parts := Split(s, sep);
    var first := [s[0]] + rest[0];
    assert parts == [first] + rest[1..];
    assert first == s[..|first|];
    forall p, q | 0 <= p <= q <= |first|
      ensures first[p..q] != sep
    {
      if p == 0 {
        if q == |sep| {
          assert first[p..q] == s[..|sep|];
        }
      } else {
        assert first[p..q] == rest[0][p - 1..q - 1];
      }
    }
    forall i | 1 <= i < |parts|
      ensures !IsInfix(sep, parts[i])
    {
      assert parts[i] == rest[i];
    }
  }

  lemma NoInfixInTail(x: string, s: string)
    requires s != "" && !IsInfix(x, s)
    ensures !IsInfix(x, s[1..])
  {
    forall i, j | 0 <= i <= j <= |s[1..]|
      ensures s[1..][i..j] != x
    {
      assert s[1..][i..j] == s[i + 1..j + 1];
    }
  }

  /** A string that lacks the first character of `x` does not contain `x`. */
  lemma NoInfixWithoutFirstChar(x: string, s: string)
    requires x != "" && forall k :: 0 <= k < |s| ==> s[k] != x[0]
    ensures !IsInfix(x, s)
  {
    forall i, j | 0 <= i <= j <= |s|
      ensures s[i..j] != x
    {
      if i < j {
        assert s[i..j][0] == s[i];
      }
    }
  }

  lemma {:induction false} JoinAppend(a: seq<string>, b: seq<string>, sep: string)
    requires a != [] && b != []
    ensures Join(a + b, sep) == Join(a, sep) + sep + Join(b, sep)
    decreases |a|
  {
    assert (a + b)[0] == a[0];
    if |a| == 1 {
      assert (a + b)[1..] == b;
    } else {
      assert (a + b)[1..] == a[1..] + b;
      JoinAppend(a[1..], b, sep);
    }
  }

  lemma InfixOfSelf(x: string)
    ensures IsInfix(x, x)
  {
    assert x[0..|x|] == x;
  }

  lemma InfixExtend(x: string, y: string, a: string, b: string)
    requires IsInfix(x, y)
    ensures IsInfix(x, a + y + b)
  {
    var i, j :| 0 <= i <= j <= |y| && y[i..j] == x;
    assert (a + y + b)[|a| + i..|a| + j] == x;
  }

  lemma SliceOfSlice(z: string, p: nat, q: nat, i: nat, j: nat)
    requires p <= q <= |z| && i <= j <= q - p
    ensures z[p..q][i..j] == z[p + i..p + j]
  {
    forall k | 0 <= k < j - i
      ensures z[p..q][i..j][k] == z[p + i..p + j][k]
    {
    }
  }

  lemma InfixTransitive(x: string, y: string, z: string)
    requires IsInfix(x, y) && IsInfix(y, z)
    ensures IsInfix(x, z)
  {
    var i, j :| 0 <= i <= j <= |y| && y[i..j] == x;
    var p, q :| 0 <= p <= q <= |z| && z[p..q] == y;
    SliceOfSlice(z, p, q, i, j);
  }

  /** Every piece of a join occurs in the joined string. */
  lemma {:induction false} JoinHasPart(parts: seq<string>, i: nat, sep: string)
    requires i < |parts|
    ensures IsInfix(parts[i], Join(parts, sep))
    decreases |parts|
  {
    if |parts| == 1 {
      InfixOfSelf(parts[0]);
    } else if i == 0 {
      InfixOfSelf(parts[0]);
      InfixExtend(parts[0], parts[0], "", sep + Join(parts[1..], sep));
      assert "" + parts[0] + (sep + Join(parts[1..], sep)) == Join(parts, sep);
    } else {
      JoinHasPart(parts[1..], i - 1, sep);
      InfixExtend(parts[i], Join(parts[1..], sep), parts[0] + sep, "");
      assert parts[0] + sep + Join(parts[1..], sep) + "" == Join(parts, sep);
    }
  }

  /** Stripping keeps an infix that is not blank: its stripped form occurs in
      the stripped whole. */
  lemma StripInfix(x: string, y: string)
    requires IsInfix(x, y) && Strip(x) != ""
    ensures IsInfix(Strip(x), Strip(y))
  {
    var i, j :| 0 <= i <= j <= |y| && y[i..j] == x;
    var first, end := StrippedPiece(x, y, i, j, Strip(x));
    var p, q := StripCovers(y, first, end, Strip(y));
  }

  /** Where the strip of the piece `y[i..j]` lies in `y`. */
  lemma StrippedPiece(x: string, y: string, i: nat, j: nat, sx: string) returns (first: nat, end: nat)
    requires i <= j <= |y| && y[i..j] == x
    requires sx == Strip(x) && sx != ""
    ensures first < end <= |y| && y[first..end] == sx && !IsSpace(y[first]) && !IsSpace(y[end - 1])
  {
    var lx := LeadingSpaces(x);
    assert lx + |sx| <= |x| && x[lx..lx + |sx|] == sx;
    first, end := i + lx, i + lx + |sx|;
    PieceOfInfix(y, i, j, x, lx, lx + |sx|);
    assert y[first..end] == sx;
    SliceEnds(y, first, end, sx);
  }

  lemma SliceEnds(y: string, a: nat, b: nat, s: string)
    requires a < b <= |y| && y[a..b] == s
    ensures y[a] == s[0] && y[b - 1] == s[|s| - 1]
  {
  }

  /** A piece of `y` with non-blank ends lies within the strip of `y`. */
  lemma StripCovers(y: string, first: nat, end: nat, sy: string) returns (p: nat, q: nat)
    requires first < end <= |y| && !IsSpace(y[first]) && !IsSpace(y[end - 1])
    requires sy == Strip(y)
    ensures p <= q <= |sy| && sy[p..q] == y[first..end]
  {
    var ly := LeadingSpaces(y);
    assert ly <= first && end <= ly + |sy|;
    p, q := first - ly, end - ly;
    PieceOfInfix(y, ly, ly + |sy|, sy, p, q);
  }

  lemma PieceOfInfix(y: string, i: nat, j: nat, x: string, a: nat, b: nat)
    requires i <= j <= |y| && y[i..j] == x && a <= b <= |x|
    ensures x[a..b] == y[i + a..i + b]
  {
    SliceOfSlice(y, i, j, a, b);
  }

  /** Whitespace in front of a string does not change what it strips to. */
  lemma StripAfterSpaces(w: string, s: string)
    requires AllSpace(w)
    ensures Strip(w + s) == Strip(s)
  {
    var ws, r, l := w + s, Strip(s), LeadingSpaces(s);
    var a, b := |w| + l, |w| + l + |r|;
    assert ws[a..b] == s[l..l + |r|] == r;
    if r != "" {
      SliceEnds(ws, a, b, r);
    }
    PaddedSpaces(w, s, l, l + |r|);
    StripUnique(ws, a, b);
  }

  /** Whitespace outside `s[a..b]` stays whitespace once `w` is put in front. */
  lemma PaddedSpaces(w: string, s: string, a: nat, b: nat)
    requires AllSpace(w) && a <= b <= |s|
    requires forall k :: 0 <= k < a ==> IsSpace(s[k])
    requires forall k :: b <= k < |s| ==> IsSpace(s[k])
    ensures forall k :: 0 <= k < |w| + a ==> IsSpace((w + s)[k])
    ensures forall k :: |w| + b <= k < |w + s| ==> IsSpace((w + s)[k])
  {
    var ws := w + s;
    forall k | 0 <= k < |w| + a
      ensures IsSpace(ws[k])
    {
      if k < |w| {
        assert ws[k] == w[k];
      } else {
        assert ws[k] == s[k - |w|];
      }
    }
    forall k | |w| + b <= k < |ws|
      ensures IsSpace(ws[k])
    {
      assert ws[k] == s[k - |w|];
    }
  }

  /** A string with no whitespace at its ends is its own strip. */
  lemma StripUnpadded(s: string)
    requires s == "" || (!IsSpace(s[0]) && !IsSpace(s[|s| - 1]))
    ensures Strip(s) == s
  {
    StripUnique(s, 0, |s|);
  }
}
