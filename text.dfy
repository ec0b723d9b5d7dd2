/**
 * Python string primitives used by the pipeline: `isspace`, `strip`, `rstrip`,
 * whitespace `split()`, `' '.join`, and `int()` on a string.
 */
module Text {
  import opened Values

  /** Python's `str.isspace()` for one character. */
  predicate IsSpace(c: char) {
    c == ' ' || ('\t' <= c <= '\r') || ('\U{1c}' <= c <= '\U{1f}')
    || c == '\U{85}' || c == '\U{a0}' || c == '\U{1680}'
    || ('\U{2000}' <= c <= '\U{200a}') || c == '\U{2028}' || c == '\U{2029}'
    || c == '\U{202f}' || c == '\U{205f}' || c == '\U{3000}'
  }

  predicate IsDigit(c: char) {
    '0' <= c <= '9'
  }

  /** `str.isalnum()` restricted to ASCII letters and digits. */
  predicate IsAlnum(c: char) {
    IsDigit(c) || ('a' <= c <= 'z') || ('A' <= c <= 'Z')
  }

  predicate NoSpace(s: string) {
    forall i :: 0 <= i < |s| ==> !IsSpace(s[i])
  }

  /** Neither the first nor the last character is whitespace. */
  predicate Trimmed(s: string) {
    s == [] || (!IsSpace(s[0]) && !IsSpace(s[|s| - 1]))
  }

  /** `s.lstrip()`: the suffix of `s` left after dropping leading whitespace. */
  function LStrip(s: string): (r: string)
    ensures |r| <= |s|
    ensures r == [] || !IsSpace(r[0])
  {
    if s != [] && IsSpace(s[0]) then LStrip(s[1..]) else s
  }

  /** `lstrip` removes exactly the leading whitespace and keeps the rest as it is. */
  lemma {:induction false} LStripSpec(s: string)
    ensures LStrip(s) == s[|s| - |LStrip(s)|..]
    ensures forall i :: 0 <= i < |s| - |LStrip(s)| ==> IsSpace(s[i])
  {
    if s != [] && IsSpace(s[0]) {
      LStripSpec(s[1..]);
      forall i | 1 <= i < |s| - |LStrip(s)| ensures IsSpace(s[i]) {
        assert s[i] == s[1..][i - 1];
      }
    }
  }

  /** `s.rstrip()`: the prefix of `s` left after dropping trailing whitespace. */
  function RStrip(s: string): (r: string)
    ensures |r| <= |s|
    ensures r == [] || !IsSpace(r[|r| - 1])
  {
    if s != [] && IsSpace(s[|s| - 1]) then RStrip(s[..|s| - 1]) else s
  }

  /** `rstrip` removes exactly the trailing whitespace and keeps the rest as it is. */
  lemma {:induction false} RStripSpec(s: string)
    ensures RStrip(s) == s[..|RStrip(s)|]
    ensures forall i :: |RStrip(s)| <= i < |s| ==> IsSpace(s[i])
  {
    if s != [] && IsSpace(s[|s| - 1]) {
      var p := s[..|s| - 1];
      RStripSpec(p);
      assert RStrip(s) == RStrip(p);
      forall i | |RStrip(s)| <= i < |s| - 1 ensures IsSpace(s[i]) {
        assert s[i] == p[i];
      }
    }
  }

  /** `s.strip()`. */
  function Strip(s: string): string {
    RStrip(LStrip(s))
  }

  /** Where `strip` starts cutting: the number of leading whitespace characters. */
  function StripStart(s: string): (i: nat)
    ensures i <= |s|
  {
    |s| - |LStrip(s)|
  }

  /** `strip` keeps a contiguous run of `s`, trimmed, and drops only whitespace around it. */
  lemma {:induction false} StripSpec(s: string)
    ensures Trimmed(Strip(s))
    ensures StripStart(s) + |Strip(s)| <= |s|
    ensures Strip(s) == s[StripStart(s)..StripStart(s) + |Strip(s)|]
    ensures forall k :: 0 <= k < StripStart(s) ==> IsSpace(s[k])
    ensures forall k :: StripStart(s) + |Strip(s)| <= k < |s| ==> IsSpace(s[k])
  {
    var l := LStrip(s);
    var r := RStrip(l);
    LStripSpec(s);
    RStripSpec(l);
    PrefixOfSuffix(s, |s| - |l|, l, r);
    assert r == [] || (r[0] == l[0] && !IsSpace(r[0]));
  }

  /** A prefix `r` of the suffix `l` of `s` starting at `i` is a slice of `s`, and what follows it in `s` is what follows it in `l`. */
  lemma {:induction false} PrefixOfSuffix(s: string, i: nat, l: string, r: string)
    requires i <= |s| && l == s[i..]
    requires |r| <= |l| && r == l[..|r|]
    requires forall k :: |r| <= k < |l| ==> IsSpace(l[k])
    ensures r == s[i..i + |r|]
    ensures forall k :: i + |r| <= k < |s| ==> IsSpace(s[k])
  {
    forall k | i + |r| <= k < |s| ensures IsSpace(s[k]) {
      assert s[k] == l[k - i];
    }
  }

  /** `strip` leaves nothing exactly when the string is all whitespace. */
  lemma {:induction false} StripEmpty(s: string)
    ensures Strip(s) == [] <==> forall k :: 0 <= k < |s| ==> IsSpace(s[k])
  {
    StripSpec(s);
    var i := StripStart(s);
    if Strip(s) != [] {
      assert Strip(s)[0] == s[i];
    }
  }

  /** Length of the leading run of non-whitespace characters of `t`. */
  function WordLen(t: string): (n: nat)
    ensures n <= |t|
    ensures t != [] && !IsSpace(t[0]) ==> n > 0
  {
    if t == [] || IsSpace(t[0]) then 0 else 1 + WordLen(t[1..])
  }

  /** The leading run ends at the first whitespace character (or the end). */
  lemma {:induction false} WordLenSpec(t: string)
    ensures forall i :: 0 <= i < WordLen(t) ==> !IsSpace(t[i])
    ensures WordLen(t) < |t| ==> IsSpace(t[WordLen(t)])
  {
    if t != [] && !IsSpace(t[0]) {
      WordLenSpec(t[1..]);
      forall i | 1 <= i < WordLen(t) ensures !IsSpace(t[i]) {
        assert t[i] == t[1..][i - 1];
      }
    }
  }

  /** Python's `s.split()` with no separator: the maximal runs of non-whitespace. */
  function Words(s: string): (ws: seq<string>)
    decreases |s|
  {
    var t := LStrip(s);
    if t == [] then []
    else
      var n := WordLen(t);
      [t[..n]] + Words(t[n..])
  }

  /** Every word is non-empty and free of whitespace. */
  lemma {:induction false} WordsProper(s: string)
    ensures forall k :: 0 <= k < |Words(s)| ==> Words(s)[k] != [] && NoSpace(Words(s)[k])
    decreases |s|
  {
    var t := LStrip(s);
    if t != [] {
      var n := WordLen(t);
      WordLenSpec(t);
      WordsProper(t[n..]);
      assert NoSpace(t[..n]);
    }
  }

  /** `' '.join(ws)`. */
  function Join(ws: seq<string>): string {
    if ws == [] then []
    else if |ws| == 1 then ws[0]
    else ws[0] + " " + Join(ws[1..])
  }

  /** Splitting a single-space join of proper words gives the words back. */
  lemma {:induction false} WordsOfJoin(ws: seq<string>)
    requires forall k :: 0 <= k < |ws| ==> ws[k] != [] && NoSpace(ws[k])
    ensures Words(Join(ws)) == ws
  {
    if ws == [] {
    } else if |ws| == 1 {
      WordsOfWord(ws[0]);
      assert [ws[0]] == ws;
    } else {
      WordsOfJoin(ws[1..]);
      WordsOfJoinStep(ws[0], ws[1..]);
      assert [ws[0]] + ws[1..] == ws;
    }
  }

  lemma {:induction false} WordsOfWord(w: string)
    requires w != [] && NoSpace(w)
    ensures Words(w) == [w]
  {
    WordsCons(w, []);
    assert w + [] == w;
    assert Words([]) == [];
  }

  lemma {:induction false} WordsOfJoinStep(w: string, rest: seq<string>)
    requires w != [] && NoSpace(w) && rest != []
    requires Words(Join(rest)) == rest
    ensures Words(Join([w] + rest)) == [w] + rest
  {
    var tail := " " + Join(rest);
    assert ([w] + rest)[1..] == rest;
    assert Join([w] + rest) == w + tail;
    WordsCons(w, tail);
    WordsLeadingSpace(Join(rest));
  }

  /** A word followed by whitespace (or nothing) is split off as the first word. */
  lemma {:induction false} WordsCons(w: string, tail: string)
    requires w != [] && NoSpace(w)
    requires tail == [] || IsSpace(tail[0])
    ensures Words(w + tail) == [w] + Words(tail)
  {
    var t := w + tail;
    assert t[0] == w[0];
    assert LStrip(t) == t;
    WordLenOfWord(w, tail);
    assert t[..|w|] == w;
    assert t[|w|..] == tail;
  }

  lemma {:induction false} WordsLeadingSpace(r: string)
    ensures Words(" " + r) == Words(r)
  {
    assert (" " + r)[1..] == r;
    assert LStrip(" " + r) == LStrip(r);
  }

  lemma {:induction false} WordLenOfWord(w: string, tail: string)
    requires NoSpace(w)
    requires tail == [] || IsSpace(tail[0])
    ensures WordLen(w + tail) == |w|
  {
    if w != [] {
      assert (w + tail)[1..] == w[1..] + tail;
      WordLenOfWord(w[1..], tail);
    }
  }

  /** A join of proper words begins and ends with a non-whitespace character. */
  lemma {:induction false} JoinTrimmed(ws: seq<string>)
    requires forall k :: 0 <= k < |ws| ==> ws[k] != [] && NoSpace(ws[k])
    ensures Trimmed(Join(ws))
    ensures ws != [] ==> Join(ws) != []
  {
    if |ws| > 1 {
      JoinTrimmed(ws[1..]);
      var j := ws[0] + " " + Join(ws[1..]);
      assert j[0] == ws[0][0];
      assert j[|j| - 1] == Join(ws[1..])[|Join(ws[1..])| - 1];
    }
  }

  function DigitValue(c: char): (d: nat)
    requires IsDigit(c)
    ensures d < 10
  {
    (c as int) - ('0' as int)
  }

  predicate AllDigits(s: string) {
    forall i :: 0 <= i < |s| ==> IsDigit(s[i])
  }

  /** The number a run of decimal digits denotes. */
  function DigitsValue(s: string): nat
    requires AllDigits(s)
  {
    if s == [] then 0 else 10 * DigitsValue(s[..|s| - 1]) + DigitValue(s[|s| - 1])
  }

  /**
   * Python's `int(s)` on a string: surrounding whitespace is ignored, then an optional
   * sign and at least one decimal digit; anything else raises ValueError (None here).
   */
  function ParseInt(s: string): (r: Option<int>)
    ensures r.Some? ==> Strip(s) != []
  {
    var t := Strip(s);
    if t == [] then None
    else if t[0] == '-' || t[0] == '+' then
      var ds := t[1..];
      if ds != [] && AllDigits(ds) then
        var v: int := DigitsValue(ds);
        Some(if t[0] == '-' then -v else v)
      else None
    else if AllDigits(t) then Some(DigitsValue(t))
    else None
  }

  /** `str(n)` for an integer. */
  function IntToString(n: int): (s: string)
    ensures s != []
  {
    if n < 0 then "-" + NatToString(-n) else NatToString(n)
  }

  /** `str(n)` for a natural number: its decimal digits, with no leading zero. */
  function NatToString(n: nat): (s: string)
    ensures s != [] && AllDigits(s)
    ensures DigitsValue(s) == n
    ensures s[0] != '0' || s == "0"
  {
    var last := ['0' + ((n % 10) as char)];
    assert DigitValue(last[0]) == n % 10;
    if n < 10 then
      assert last[..0] == [];
      last
    else
      var r := NatToString(n / 10) + last;
      assert r[..|r| - 1] == NatToString(n / 10);
      r
  }

  /** A run of digits with no leading zero is exactly how `str` writes the number it denotes. */
  lemma {:induction false} NatToStringCanonical(s: string)
    requires s != [] && AllDigits(s) && (s[0] != '0' || s == "0")
    ensures NatToString(DigitsValue(s)) == s
    decreases |s|
  {
    var init := s[..|s| - 1];
    var d := DigitValue(s[|s| - 1]);
    var n := DigitsValue(s);
    assert n == 10 * DigitsValue(init) + d;
    assert '0' + (d as char) == s[|s| - 1];
    if init == [] {
      assert s == [s[0]];
    } else {
      assert init[0] == s[0];
      NatToStringCanonical(init);
      assert DigitsValue(init) != 0;
      assert n / 10 == DigitsValue(init) && n % 10 == d;
      assert s == init + [s[|s| - 1]];
    }
  }

  /** A run of digits read back gives the number it was printed from. */
  lemma {:induction false} NatToStringParses(n: nat)
    ensures ParseInt(NatToString(n)) == Some(n)
  {
    ParseDigits(NatToString(n));
  }

  /** `int()` of a non-empty run of digits is the number the digits denote. */
  lemma {:induction false} ParseDigits(s: string)
    requires s != [] && AllDigits(s)
    ensures ParseInt(s) == Some(DigitsValue(s))
  {
    assert !IsSpace(s[0]) && !IsSpace(s[|s| - 1]);
    assert LStrip(s) == s;
    assert RStrip(s) == s;
    assert s[0] != '-' && s[0] != '+';
  }
}
