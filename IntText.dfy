/**
 * Python's `int(text)` on a decimal string, as the loader applies it to the
 * age, time and count columns: surrounding spaces, tabs, line breaks,
 * vertical tabs and form feeds are ignored, one sign is allowed, and single
 * underscores may separate digits.  Anything else is rejected (the
 * ValueError that makes the loader roll back).
 *
 * The definitions are recursive and free of quantifiers so that the loader's
 * proofs, which meet `int()` seven times per row, stay cheap; the quantified
 * facts about them are lemmas.
 */
module IntText {
  import opened Wrappers

  /**
   * The whitespace `int()` skips around an ASCII numeral: space, tab, line
   * feed, vertical tab, form feed and carriage return.  The separators 0x1C to
   * 0x1F, which `str.strip` would remove, are not skipped and make `int()` fail.
   */
  predicate IsSpace(c: char) {
    c == ' ' || 9 <= c as int <= 13
  }

  predicate IsDigit(c: char) {
    '0' <= c <= '9'
  }

  function DigitValue(c: char): nat
    requires IsDigit(c)
  {
    c as int - '0' as int
  }

  function DigitChar(d: nat): (c: char)
    requires d < 10
    ensures IsDigit(c) && DigitValue(c) == d
  {
    ('0' as int + d) as char
  }

  /** `s` with its leading whitespace removed. */
  function TrimLeft(s: string): string {
    if s != [] && IsSpace(s[0]) then TrimLeft(s[1..]) else s
  }

  /** `s` with its trailing whitespace removed. */
  function TrimRight(s: string): string {
    if s != [] && IsSpace(s[|s| - 1]) then TrimRight(s[..|s| - 1]) else s
  }

  function Strip(s: string): string {
    TrimRight(TrimLeft(s))
  }

  /** What may follow a digit inside a group: more digits, each optionally after one underscore. */
  predicate IsGroupTail(s: string) {
    if s == [] then true
    else if IsDigit(s[0]) then IsGroupTail(s[1..])
    else s[0] == '_' && |s| >= 2 && IsDigit(s[1]) && IsGroupTail(s[2..])
  }

  /** Digits, with single underscores allowed only between two digits. */
  predicate IsDigitGroup(s: string) {
    |s| > 0 && IsDigit(s[0]) && IsGroupTail(s[1..])
  }

  /** The decimal value of the digits of `s`, anything else skipped. */
  function GroupValue(s: string): nat {
    if s == [] then 0
    else if IsDigit(s[|s| - 1]) then GroupValue(s[..|s| - 1]) * 10 + DigitValue(s[|s| - 1])
    else GroupValue(s[..|s| - 1])
  }

  /** `int(s)`: the integer a decimal string denotes, or None where Python raises ValueError. */
  function ParseInt(s: string): Option<int> {
    var t := Strip(s);
    if |t| > 0 && (t[0] == '+' || t[0] == '-') then
      if IsDigitGroup(t[1..]) then
        var v: int := GroupValue(t[1..]);
        Some(if t[0] == '-' then -v else v)
      else None
    else if IsDigitGroup(t) then Some(GroupValue(t))
    else None
  }

  /** The canonical decimal text of a natural number (Python's `str`). */
  function ShowNat(n: nat): (s: string)
    ensures |s| > 0
  {
    if n < 10 then [DigitChar(n)] else ShowNat(n / 10) + [DigitChar(n % 10)]
  }

  function Show(n: int): string {
    if n < 0 then "-" + ShowNat(-n) else ShowNat(n)
  }

  lemma {:induction false} TrimLeftFacts(s: string)
    ensures |TrimLeft(s)| <= |s| && TrimLeft(s) == s[|s| - |TrimLeft(s)|..]
    ensures TrimLeft(s) == [] || !IsSpace(TrimLeft(s)[0])
    ensures forall i :: 0 <= i < |s| - |TrimLeft(s)| ==> IsSpace(s[i])
  {
    if s != [] && IsSpace(s[0]) {
      var rest := s[1..];
      TrimLeftFacts(rest);
      var k := |s| - |TrimLeft(s)|;
      assert rest[k - 1..] == s[k..];
      forall i | 1 <= i < k
        ensures IsSpace(s[i])
      {
        assert s[i] == rest[i - 1];
      }
    }
  }

  lemma {:induction false} TrimRightFacts(s: string)
    ensures |TrimRight(s)| <= |s| && TrimRight(s) == s[..|TrimRight(s)|]
    ensures TrimRight(s) == [] || !IsSpace(TrimRight(s)[|TrimRight(s)| - 1])
    ensures forall i :: |TrimRight(s)| <= i < |s| ==> IsSpace(s[i])
  {
    if s != [] && IsSpace(s[|s| - 1]) {
      var rest := s[..|s| - 1];
      TrimRightFacts(rest);
      var k := |TrimRight(s)|;
      assert rest[..k] == s[..k];
      forall i | k <= i < |s| - 1
        ensures IsSpace(s[i])
      {
        assert s[i] == rest[i];
      }
    }
  }

  lemma {:induction false} ShowNatFacts(n: nat)
    ensures IsDigitGroup(ShowNat(n))
    ensures GroupValue(ShowNat(n)) == n
  {
    if n >= 10 {
      var s := ShowNat(n);
      ShowNatFacts(n / 10);
      assert s[..|s| - 1] == ShowNat(n / 10);
      AppendDigitKeepsGroup(ShowNat(n / 10), DigitChar(n % 10));
    }
  }

  lemma {:induction false} AppendDigitKeepsGroup(s: string, d: char)
    requires IsDigitGroup(s) && IsDigit(d)
    ensures IsDigitGroup(s + [d])
  {
    TailAppendDigit(s[1..], d);
    assert (s + [d])[1..] == s[1..] + [d];
  }

  lemma {:induction false} TailAppendDigit(s: string, d: char)
    requires IsGroupTail(s) && IsDigit(d)
    ensures IsGroupTail(s + [d])
  {
    if s != [] {
      if IsDigit(s[0]) {
        TailAppendDigit(s[1..], d);
        assert (s + [d])[1..] == s[1..] + [d];
      } else {
        TailAppendDigit(s[2..], d);
        assert (s + [d])[2..] == s[2..] + [d];
      }
    }
  }

  /** Every integer's decimal text parses back to that integer. */
  lemma ParseShow(n: int)
    ensures ParseInt(Show(n)) == Some(n)
  {
    var m: nat := if n < 0 then -n else n;
    var digits := ShowNat(m);
    ShowNatFacts(m);
    var s := Show(n);
    assert IsDigit(digits[0]) && IsDigit(digits[|digits| - 1]);
    assert s[|s| - 1] == digits[|digits| - 1];
    assert TrimLeft(s) == s;
    assert TrimRight(s) == s;
    if n < 0 {
      assert s[1..] == digits;
    } else {
      assert s == digits;
    }
  }

  /** Text made only of whitespace (including the empty string) is not an integer. */
  lemma BlankIsNotAnInteger(s: string)
    requires forall i :: 0 <= i < |s| ==> IsSpace(s[i])
    ensures ParseInt(s) == None
  {
    TrimLeftFacts(s);
  }

  /** Every character of a digit group is a digit or an underscore. */
  lemma {:induction false} GroupTailCharacters(s: string, k: nat)
    requires IsGroupTail(s) && k < |s|
    ensures IsDigit(s[k]) || s[k] == '_'
  {
    if k > 0 {
      if IsDigit(s[0]) {
        GroupTailCharacters(s[1..], k - 1);
      } else if k > 1 {
        GroupTailCharacters(s[2..], k - 2);
      }
    }
  }

  /** A character other than a digit, a sign, an underscore or whitespace makes the text not an integer. */
  lemma ForeignCharacterIsNotAnInteger(s: string, k: nat)
    requires k < |s|
    requires !IsDigit(s[k]) && !IsSpace(s[k]) && s[k] != '+' && s[k] != '-' && s[k] != '_'
    ensures ParseInt(s) == None
  {
    var l := TrimLeft(s);
    TrimLeftFacts(s);
    var t := TrimRight(l);
    TrimRightFacts(l);
    var a := |s| - |l|;
    assert a <= k;
    assert k - a < |t|;
    assert t[k - a] == s[k];
    if |t| > 0 && (t[0] == '+' || t[0] == '-') {
      var u := t[1..];
      if IsDigitGroup(u) {
        assert u[k - a - 1] == s[k];
        if k - a - 1 > 0 {
          GroupTailCharacters(u[1..], k - a - 2);
        }
      }
    } else if IsDigitGroup(t) && k - a > 0 {
      GroupTailCharacters(t[1..], k - a - 1);
    }
  }
}
