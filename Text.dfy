/** The few Python string operations the core relies on (`str.isdigit`,
    `str.lstrip`, `str.strip`, `str.split`, `re.search` with a character
    class), restricted to ASCII character classes. */
module Text {
  import opened Wrappers

  /** `str.isspace` on the ASCII range: space, \t \n \v \f \r and \x1c-\x1f. */
  predicate IsSpace(c: char) {
    c == ' ' || 9 <= c as int <= 13 || 28 <= c as int <= 31
  }

  /** An ASCII decimal digit (what `\d` and `isdigit` accept on ASCII). */
  predicate IsDigit(c: char) {
    '0' <= c <= '9'
  }

  /** Member of the regular-expression class `[a-zA-Z0-9]`. */
  predicate IsAlnum(c: char) {
    'a' <= c <= 'z' || 'A' <= c <= 'Z' || '0' <= c <= '9'
  }

  predicate AllDigits(s: string) {
    forall i :: 0 <= i < |s| ==> IsDigit(s[i])
  }

  /** `str.isdigit`: non-empty and every character a digit. */
  predicate IsDigits(s: string) {
    |s| > 0 && AllDigits(s)
  }

  /** Length of the longest prefix of `s` whose characters satisfy `p`. */
  function Span(s: string, p: char -> bool): (n: nat)
    ensures n <= |s|
    ensures forall i :: 0 <= i < n ==> p(s[i])
    ensures n < |s| ==> !p(s[n])
  {
    if s != [] && p(s[0]) then 1 + Span(s[1..], p) else 0
  }

  /** Length of the longest suffix of `s` whose characters satisfy `p`. */
  function SpanEnd(s: string, p: char -> bool): (n: nat)
    ensures n <= |s|
    ensures forall i :: |s| - n <= i < |s| ==> p(s[i])
    ensures n < |s| ==> !p(s[|s| - 1 - n])
  {
    if s != [] && p(s[|s| - 1]) then 1 + SpanEnd(s[..|s| - 1], p) else 0
  }

  /** `s.lstrip(c)`: the suffix left after removing every leading `c`. */
  function LStrip(s: string, c: char): (r: string)
    ensures |r| <= |s| && r == s[|s| - |r|..]
    ensures forall i :: 0 <= i < |s| - |r| ==> s[i] == c
    ensures r == [] || r[0] != c
  {
    s[Span(s, x => x == c)..]
  }

  /** `s.strip()`: `s` without its leading and trailing whitespace. */
  function Strip(s: string): (r: string)
    ensures exists a, b ::
              && 0 <= a <= b <= |s| && r == s[a..b]
              && (forall i :: 0 <= i < a ==> IsSpace(s[i]))
              && (forall i :: b <= i < |s| ==> IsSpace(s[i]))
    ensures r != [] ==> !IsSpace(r[0]) && !IsSpace(r[|r| - 1])
  {
    var a := Span(s, IsSpace);
    var b := |s| - SpanEnd(s[a..], IsSpace);
    assert forall i :: b <= i < |s| ==> s[i] == s[a..][i - a];
    s[a..b]
  }

  predicate NotSpace(c: char) {
    !IsSpace(c)
  }

  predicate AllSpace(s: string) {
    forall i :: 0 <= i < |s| ==> IsSpace(s[i])
  }

  /** A word as `str.split()` returns it: non-empty, without whitespace. */
  predicate IsWord(w: string) {
    w != [] && forall i :: 0 <= i < |w| ==> !IsSpace(w[i])
  }

  /** `seps` can surround `words`: one more separator than words, all of
      whitespace, and those strictly between two words non-empty. */
  predicate Separates(seps: seq<string>, words: seq<string>) {
    && |seps| == |words| + 1
    && (forall k :: 0 <= k < |seps| ==> AllSpace(seps[k]))
    && (forall k :: 0 < k < |words| ==> seps[k] != [])
  }

  /** `seps[0] + words[0] + seps[1] + ... + words[n-1] + seps[n]`. */
  function Interleave(seps: seq<string>, words: seq<string>): string
    requires |seps| == |words| + 1
    decreases |words|
  {
    if words == [] then seps[0]
    else seps[0] + words[0] + Interleave(seps[1..], words[1..])
  }

  /** `s.split()` with no separator: the maximal runs of non-whitespace. */
  function Split(s: string): (words: seq<string>)
    ensures forall k :: 0 <= k < |words| ==> IsWord(words[k])
    ensures words == [] <==> AllSpace(s)
    decreases |s|
  {
    var a := Span(s, IsSpace);
    if a == |s| then []
    else
      var rest := s[a..];
      var n := Span(rest, NotSpace);
      [rest[..n]] + Split(rest[n..])
  }

  /** Leading whitespace before a word (or before nothing) is dropped. */
  lemma SplitSkipsSpace(sp: string, t: string)
    requires AllSpace(sp)
    requires t == [] || !IsSpace(t[0])
    ensures Split(sp + t) == Split(t)
  {
    var s := sp + t;
    assert forall i :: 0 <= i < |sp| ==> s[i] == sp[i];
    assert t != [] ==> s[|sp|] == t[0];
    assert Span(s, IsSpace) == |sp|;
    assert s[|sp|..] == t;
    if t != [] {
      assert Span(t, IsSpace) == 0;
      assert t[0..] == t;
    }
  }

  /** A word followed by whitespace (or by nothing) comes out first. */
  lemma SplitTakesWord(w: string, t: string)
    requires IsWord(w)
    requires t == [] || IsSpace(t[0])
    ensures Split(w + t) == [w] + Split(t)
  {
    var s := w + t;
    assert Span(s, IsSpace) == 0 by { assert s[0] == w[0]; }
    assert s[0..] == s;
    assert forall i :: 0 <= i < |w| ==> s[i] == w[i];
    assert t != [] ==> s[|w|] == t[0];
    assert Span(s, NotSpace) == |w|;
    assert s[..|w|] == w && s[|w|..] == t;
  }

  lemma InterleaveCons(sp: string, w: string, seps: seq<string>, words: seq<string>)
    requires |seps| == |words| + 1
    ensures Interleave([sp] + seps, [w] + words) == sp + w + Interleave(seps, words)
  {
    assert ([sp] + seps)[1..] == seps;
    assert ([w] + words)[1..] == words;
  }

  lemma SeparatesCons(sp: string, w: string, seps: seq<string>, words: seq<string>)
    requires AllSpace(sp) && Separates(seps, words)
    requires words != [] ==> seps[0] != []
    ensures Separates([sp] + seps, [w] + words)
  {
    var all := [sp] + seps;
    assert forall k :: 0 < k < |all| ==> all[k] == seps[k - 1];
  }

  /** What an interleaving starts with: whitespace when its first
      separator is non-empty, and the first word otherwise. */
  lemma InterleaveStart(seps: seq<string>, words: seq<string>)
    requires Separates(seps, words)
    requires forall k :: 0 <= k < |words| ==> IsWord(words[k])
    ensures var s := Interleave(seps, words);
              && (seps[0] != [] ==> s != [] && IsSpace(s[0]))
              && (words != [] && seps[0] == [] ==> s != [] && words[0] != [] && s[0] == words[0][0])
              && (words == [] ==> AllSpace(s))
  {
    if words != [] {
      assert Interleave(seps, words) == seps[0] + words[0] + Interleave(seps[1..], words[1..]);
    }
  }

  lemma SplitAfterSpace(sp: string, w: string, tail: string)
    requires AllSpace(sp) && IsWord(w) && (tail == [] || IsSpace(tail[0]))
    ensures Split(sp + w + tail) == [w] + Split(tail)
  {
    SplitTakesWord(w, tail);
    assert (w + tail)[0] == w[0];
    assert sp + w + tail == sp + (w + tail);
    SplitSkipsSpace(sp, w + tail);
  }

  /** A string that is not all whitespace is leading whitespace, its
      first word and a remainder that is empty or starts with whitespace;
      `Split` yields that word and then splits the remainder. */
  lemma SplitFirst(s: string) returns (lead: string, w: string, tail: string)
    requires !AllSpace(s)
    ensures AllSpace(lead) && IsWord(w) && (tail == [] || IsSpace(tail[0]))
    ensures s == lead + w + tail
    ensures Split(s) == [w] + Split(tail)
  {
    var a := Span(s, IsSpace);
    var rest := s[a..];
    var n := Span(rest, NotSpace);
    lead, w, tail := s[..a], rest[..n], rest[n..];
    assert rest[0] == s[a];
    assert s == lead + w + tail;
    SplitAfterSpace(lead, w, tail);
  }

  /** Words surrounded by any whitespace separators split back into
      exactly those words. */
  lemma {:induction false} SplitInterleave(seps: seq<string>, words: seq<string>)
    requires Separates(seps, words)
    requires forall k :: 0 <= k < |words| ==> IsWord(words[k])
    ensures Split(Interleave(seps, words)) == words
    decreases |words|
  {
    if words == [] {
      InterleaveStart(seps, words);
    } else {
      var rs, rw := seps[1..], words[1..];
      assert Separates(rs, rw);
      assert forall k :: 0 <= k < |rw| ==> rw[k] == words[k + 1];
      var tail := Interleave(rs, rw);
      InterleaveStart(rs, rw);
      SplitInterleave(rs, rw);
      SplitAfterSpace(seps[0], words[0], tail);
      assert [words[0]] + rw == words;
    }
  }

  /** Every string is its own words surrounded by whitespace separators,
      so `Split` keeps all non-whitespace text, in order. */
  lemma {:induction false} SplitCovers(s: string) returns (seps: seq<string>)
    ensures Separates(seps, Split(s))
    ensures Interleave(seps, Split(s)) == s
    decreases |s|
  {
    if AllSpace(s) {
      seps := [s];
    } else {
      var lead, w, tail := SplitFirst(s);
      var more := SplitCovers(tail);
      var words := Split(tail);
      InterleaveStart(more, words);
      SeparatesCons(lead, w, more, words);
      InterleaveCons(lead, w, more, words);
      seps := [lead] + more;
    }
  }

  /** `Split` of two words joined by one space gives back the two words. */
  lemma SplitTwoWords(w1: string, w2: string)
    requires IsWord(w1) && IsWord(w2)
    ensures Split(w1 + " " + w2) == [w1, w2]
  {
    InterleaveCons(" ", w2, [""], []);
    InterleaveCons("", w1, [" ", ""], [w2]);
    assert [""] + [" ", ""] == ["", " ", ""] && [w1] + [w2] == [w1, w2];
    assert "" + w1 + (" " + w2 + "") == w1 + " " + w2;
    SplitInterleave(["", " ", ""], [w1, w2]);
  }

  /** `re.search` with a one-character class: the index of the first match. */
  function Search(s: string, cls: char -> bool): (r: Option<nat>)
    ensures r.Some? ==> r.value < |s| && cls(s[r.value])
    ensures r.Some? ==> forall j :: 0 <= j < r.value ==> !cls(s[j])
    ensures r.None? <==> forall j :: 0 <= j < |s| ==> !cls(s[j])
  {
    if s == [] then None
    else if cls(s[0]) then Some(0)
    else match Search(s[1..], cls)
      case None => None
      case Some(i) => Some(i + 1)
  }

  function DigitValue(c: char): nat
    requires IsDigit(c)
  {
    c as int - '0' as int
  }

  function DigitChar(d: nat): (c: char)
    requires d < 10
    ensures IsDigit(c) && DigitValue(c) == d
  {
    ('0' as int + d) as char
  }

  /** The number a string of decimal digits denotes (Python's `int` on it). */
  function DigitsValue(s: string): (r: nat)
    requires AllDigits(s)
    ensures r == 0 <==> forall i :: 0 <= i < |s| ==> s[i] == '0'
    decreases |s|
  {
    if s == [] then 0 else DigitsValue(s[..|s| - 1]) * 10 + DigitValue(s[|s| - 1])
  }

  /** Leading zeros do not change the value: `int("007") == 7`. */
  lemma {:induction false} LeadingZeros(z: string, s: string)
    requires forall i :: 0 <= i < |z| ==> z[i] == '0'
    requires AllDigits(s)
    ensures AllDigits(z + s) && DigitsValue(z + s) == DigitsValue(s)
    decreases |s|
  {
    var t := z + s;
    if s == [] {
      assert t == z;
    } else {
      LeadingZeros(z, s[..|s| - 1]);
      assert t[..|t| - 1] == z + s[..|s| - 1];
    }
  }

  /** The decimal representation of `n` (Python's `str` on a non-negative int). */
  function Decimal(n: nat): string
    decreases n
  {
    if n < 10 then [DigitChar(n)] else Decimal(n / 10) + [DigitChar(n % 10)]
  }

  /** `Decimal` is a digit string that reads back as the number it came from. */
  lemma {:induction false} DecimalRoundTrip(n: nat)
    ensures IsDigits(Decimal(n)) && DigitsValue(Decimal(n)) == n
  {
    if n >= 10 {
      DecimalRoundTrip(n / 10);
      var s := Decimal(n);
      assert s[..|s| - 1] == Decimal(n / 10);
    }
  }
}
