/** The text the triangle printer writes: Python's decimal rendering of a
    non-negative int, strings of blanks, and pieces each followed by a
    separator (what `print(x, end=" ")` and `print()` leave on stdout).
    The digits and the separated pieces come with the reading that undoes
    them. */
module Strings {

  predicate IsDigit(c: char) {
    '0' <= c <= '9'
  }

  predicate AllDigits(s: string) {
    forall i :: 0 <= i < |s| ==> IsDigit(s[i])
  }

  /** The character of one decimal digit. */
  function DigitChar(d: nat): (c: char)
    requires d < 10
    ensures IsDigit(c)
  {
    ('0' as int + d) as char
  }

  /** The numeric value of one decimal digit character. */
  function DigitValue(c: char): (d: nat)
    requires IsDigit(c)
    ensures d < 10
  {
    c as int - '0' as int
  }

  /** `str(v)` for a non-negative Python int: its decimal digits, most
      significant first, with no leading zero. */
  function DecimalString(v: nat): (s: string)
    ensures |s| >= 1 && AllDigits(s)
    ensures s[0] == '0' <==> v == 0
  {
    if v < 10 then [DigitChar(v)] else DecimalString(v / 10) + [DigitChar(v % 10)]
  }

  /** Reads a string of decimal digits back as a number. */
  function DecimalValue(s: string): nat
    requires AllDigits(s)
  {
    if s == [] then 0 else DecimalValue(s[..|s| - 1]) * 10 + DigitValue(s[|s| - 1])
  }

  /** Reading back what `DecimalString` wrote gives the number again. */
  lemma {:induction false} DecimalRoundTrip(v: nat)
    ensures DecimalValue(DecimalString(v)) == v
  {
    var s := DecimalString(v);
    if v < 10 {
      assert s[..|s| - 1] == [];
    } else {
      DecimalRoundTrip(v / 10);
      assert s[..|s| - 1] == DecimalString(v / 10);
      assert DigitValue(DigitChar(v % 10)) == v % 10;
    }
  }

  /** `" " * width` for a non-negative width: exactly `width` blanks. */
  function Spaces(width: nat): (s: string)
    ensures |s| == width && forall i :: 0 <= i < width ==> s[i] == ' '
  {
    if width == 0 then "" else " " + Spaces(width - 1)
  }

  /** Every piece, each followed by `sep`: the text left by printing the
      pieces one after another with `end=sep`. */
  function Terminated(pieces: seq<string>, sep: char): string {
    if pieces == [] then [] else pieces[0] + [sep] + Terminated(pieces[1..], sep)
  }

  /** Index of the first `c` in `s`, or `|s|` when there is none. */
  function IndexOf(s: string, c: char): (i: nat)
    ensures i <= |s|
    ensures forall j :: 0 <= j < i ==> s[j] != c
    ensures i < |s| ==> s[i] == c
  {
    if s == [] || s[0] == c then 0 else 1 + IndexOf(s[1..], c)
  }

  /** Cuts a text into the pieces that `sep` ends; a last piece without a
      separator after it is kept as it is. */
  function Split(s: string, sep: char): (pieces: seq<string>)
    ensures forall p :: p in pieces ==> sep !in p
    decreases |s|
  {
    if s == [] then []
    else
      var i := IndexOf(s, sep);
      if i == |s| then [s] else [s[..i]] + Split(s[i + 1..], sep)
  }

  /** Appending one more piece appends it and one separator to the text. */
  lemma {:induction false} TerminatedSnoc(pieces: seq<string>, last: string, sep: char)
    ensures Terminated(pieces + [last], sep) == Terminated(pieces, sep) + last + [sep]
  {
    if pieces != [] {
      assert (pieces + [last])[1..] == pieces[1..] + [last];
      TerminatedSnoc(pieces[1..], last, sep);
    }
  }

  /** Splitting the text at the separator gives the pieces back, as long as
      no piece holds the separator itself. */
  lemma {:induction false} SplitTerminated(pieces: seq<string>, sep: char)
    requires forall p :: p in pieces ==> sep !in p
    ensures Split(Terminated(pieces, sep), sep) == pieces
  {
    if pieces != [] {
      var first := pieces[0];
      var rest := Terminated(pieces[1..], sep);
      var s := Terminated(pieces, sep);
      assert s == first + [sep] + rest;
      assert s[|first|] == sep;
      assert forall j :: 0 <= j < |first| ==> s[j] == first[j];
      assert sep !in first;
      var i := IndexOf(s, sep);
      assert i == |first|;
      assert s[..i] == first;
      assert s[i + 1..] == rest;
      SplitTerminated(pieces[1..], sep);
    }
  }
}
