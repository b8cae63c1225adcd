/**
 * The Python 2 string operations that web.py relies on, over strings as
 * sequences of characters: str.split(sep), str.split(), str.strip(),
 * str.rstrip(), str.upper(), str.replace(), str.endswith(), int() and str()
 * on integers.
 */
module Text {
  import opened Common

  /** The characters Python 2 treats as whitespace in strip() and split(). */
  predicate IsSpace(c: char) {
    c == ' ' || c == '\t' || c == '\n' || c == '\r' || c == '\U{0B}' || c == '\U{0C}'
  }

  predicate StartsWith(s: string, prefix: string) {
    |prefix| <= |s| && s[..|prefix|] == prefix
  }

  predicate EndsWith(s: string, suffix: string) {
    |suffix| <= |s| && s[|s| - |suffix|..] == suffix
  }

  /** s.split(sep) for a non-empty separator: left to right, non-overlapping, empty fields kept. */
  function Split(s: string, sep: string): (parts: seq<string>)
    requires sep != []
    ensures |parts| >= 1
    decreases |s|
  {
    if |s| < |sep| then [s]
    else if s[..|sep|] == sep then [""] + Split(s[|sep|..], sep)
    else
      var rest := Split(s[1..], sep);
      [[s[0]] + rest[0]] + rest[1..]
  }

  /** sep.join(parts): the inverse of Split. */
  function Join(parts: seq<string>, sep: string): string {
    if |parts| == 0 then ""
    else if |parts| == 1 then parts[0]
    else parts[0] + sep + Join(parts[1..], sep)
  }

  /** Joining the fields of a split with the same separator gives back the string. */
  lemma {:induction false} JoinSplit(s: string, sep: string)
    requires sep != []
    ensures Join(Split(s, sep), sep) == s
    decreases |s|
  {
    if |s| < |sep| {
    } else if s[..|sep|] == sep {
      var rest := Split(s[|sep|..], sep);
      JoinSplit(s[|sep|..], sep);
      assert Join([""] + rest, sep) == "" + sep + Join(rest, sep);
      assert s == s[..|sep|] + s[|sep|..];
    } else {
      var rest := Split(s[1..], sep);
      JoinSplit(s[1..], sep);
      var parts := [[s[0]] + rest[0]] + rest[1..];
      if |rest| == 1 {
        assert parts == [[s[0]] + rest[0]];
      } else {
        assert parts[1..] == rest[1..];
        assert Join(rest, sep) == rest[0] + sep + Join(rest[1..], sep);
      }
      assert s == [s[0]] + s[1..];
    }
  }

  /** A string in which the separator's first character never occurs is one field. */
  lemma {:induction false} SplitWithout(s: string, sep: string)
    requires sep != []
    requires sep[0] !in s
    ensures Split(s, sep) == [s]
    decreases |s|
  {
    if |s| >= |sep| {
      assert s[0] != sep[0];
      SplitWithout(s[1..], sep);
      assert [s[0]] + s[1..] == s;
    }
  }

  /** The first field of a split ends at the first separator. */
  lemma {:induction false} SplitAfter(a: string, sep: string, b: string)
    requires sep != []
    requires sep[0] !in a
    ensures Split(a + sep + b, sep) == [a] + Split(b, sep)
    decreases |a|
  {
    var s := a + sep + b;
    if a == [] {
      assert s[..|sep|] == sep;
      assert s[|sep|..] == b;
    } else {
      assert s[0] == a[0] != sep[0];
      assert s[1..] == a[1..] + sep + b;
      SplitAfter(a[1..], sep, b);
      assert [a[0]] + a[1..] == a;
    }
  }

  /** pattern occurs in s starting at index i. */
  predicate OccursAt(pattern: string, s: string, i: int) {
    0 <= i && i + |pattern| <= |s| && s[i..i + |pattern|] == pattern
  }

  /** pattern occurs somewhere in s. */
  predicate Occurs(pattern: string, s: string) {
    exists i | 0 <= i <= |s| :: OccursAt(pattern, s, i)
  }

  /** A string in which the separator never occurs is one field. */
  lemma {:induction false} SplitNotOccurring(s: string, sep: string)
    requires sep != []
    requires !Occurs(sep, s)
    ensures Split(s, sep) == [s]
    decreases |s|
  {
    if |s| >= |sep| {
      assert !OccursAt(sep, s, 0);
      forall i | 0 <= i <= |s[1..]| && OccursAt(sep, s[1..], i) ensures false {
        assert s[1..][i..i + |sep|] == s[i + 1..i + 1 + |sep|];
        assert OccursAt(sep, s, i + 1);
      }
      SplitNotOccurring(s[1..], sep);
      assert [s[0]] + s[1..] == s;
    }
  }

  /** A string in which the separator occurs splits into at least two fields. */
  lemma {:induction false} SplitOccurring(s: string, sep: string)
    requires sep != []
    requires Occurs(sep, s)
    ensures |Split(s, sep)| >= 2
    decreases |s|
  {
    var i :| 0 <= i <= |s| && OccursAt(sep, s, i);
    if s[..|sep|] != sep {
      assert i != 0;
      assert s[1..][i - 1..i - 1 + |sep|] == s[i..i + |sep|];
      assert OccursAt(sep, s[1..], i - 1);
      SplitOccurring(s[1..], sep);
    }
  }

  /** No field of a split on one character contains that character. */
  lemma {:induction false} SplitFieldsFree(s: string, c: char)
    ensures forall i | 0 <= i < |Split(s, [c])| :: c !in Split(s, [c])[i]
    decreases |s|
  {
    if |s| >= 1 {
      if s[..1] == [c] {
        SplitFieldsFree(s[1..], c);
      } else {
        SplitFieldsFree(s[1..], c);
        var rest := Split(s[1..], [c]);
        assert s[0] != c;
        assert c !in rest[0];
        assert c !in [s[0]] + rest[0];
      }
    }
  }

  /** s.rstrip() */
  function RStrip(s: string): string
    decreases |s|
  {
    if s != [] && IsSpace(s[|s| - 1]) then RStrip(s[..|s| - 1]) else s
  }

  /** rstrip keeps the longest prefix that does not end in whitespace: what it drops is all whitespace. */
  lemma {:induction false} RStripSpec(s: string)
    ensures |RStrip(s)| <= |s| && RStrip(s) == s[..|RStrip(s)|]
    ensures RStrip(s) == [] || !IsSpace(RStrip(s)[|RStrip(s)| - 1])
    ensures forall i | |RStrip(s)| <= i < |s| :: IsSpace(s[i])
    decreases |s|
  {
    if s != [] && IsSpace(s[|s| - 1]) {
      RStripSpec(s[..|s| - 1]);
    }
  }

  /** s.lstrip() */
  function LStrip(s: string): string
    decreases |s|
  {
    if s != [] && IsSpace(s[0]) then LStrip(s[1..]) else s
  }

  /** lstrip keeps the longest suffix that does not start with whitespace: what it drops is all whitespace. */
  lemma {:induction false} LStripSpec(s: string)
    ensures |LStrip(s)| <= |s| && LStrip(s) == s[|s| - |LStrip(s)|..]
    ensures LStrip(s) == [] || !IsSpace(LStrip(s)[0])
    ensures forall i | 0 <= i < |s| - |LStrip(s)| :: IsSpace(s[i])
    decreases |s|
  {
    if s != [] && IsSpace(s[0]) {
      LStripSpec(s[1..]);
    }
  }

  /** s.strip() */
  function Strip(s: string): string {
    LStrip(RStrip(s))
  }

  /** Stripping a string that neither starts nor ends with whitespace leaves it alone. */
  lemma StripUnspaced(s: string)
    requires s != [] ==> !IsSpace(s[0]) && !IsSpace(s[|s| - 1])
    ensures Strip(s) == s
  {
  }

  /** The longest prefix of s that holds no whitespace. */
  function LeadingWord(s: string): (w: string)
    ensures |w| <= |s|
    ensures s != [] && !IsSpace(s[0]) ==> w != []
    decreases |s|
  {
    if s == [] || IsSpace(s[0]) then [] else [s[0]] + LeadingWord(s[1..])
  }

  lemma {:induction false} LeadingWordSpec(s: string)
    ensures LeadingWord(s) == s[..|LeadingWord(s)|]
    ensures forall j | 0 <= j < |LeadingWord(s)| :: !IsSpace(LeadingWord(s)[j])
    ensures |LeadingWord(s)| < |s| ==> IsSpace(s[|LeadingWord(s)|])
    decreases |s|
  {
    if s != [] && !IsSpace(s[0]) {
      LeadingWordSpec(s[1..]);
      assert LeadingWord(s) == [s[0]] + LeadingWord(s[1..]);
    }
  }

  /** s.split() with no argument: the maximal runs of non-whitespace characters. */
  function Words(s: string): seq<string>
    decreases |s|
  {
    if s == [] then []
    else if IsSpace(s[0]) then Words(s[1..])
    else
      var w := LeadingWord(s);
      [w] + Words(s[|w|..])
  }

  /** Every word is non-empty and holds no whitespace. */
  lemma {:induction false} WordsAreWords(s: string)
    ensures forall i | 0 <= i < |Words(s)| :: Words(s)[i] != []
    ensures forall i, j | 0 <= i < |Words(s)| && 0 <= j < |Words(s)[i]| :: !IsSpace(Words(s)[i][j])
    decreases |s|
  {
    if s != [] {
      if IsSpace(s[0]) {
        WordsAreWords(s[1..]);
      } else {
        var w := LeadingWord(s);
        LeadingWordSpec(s);
        WordsAreWords(s[|w|..]);
        var ws := Words(s);
        assert ws == [w] + Words(s[|w|..]);
        forall i | 0 <= i < |ws| ensures ws[i] != [] && forall j | 0 <= j < |ws[i]| :: !IsSpace(ws[i][j]) {
          if i > 0 {
            assert ws[i] == Words(s[|w|..])[i - 1];
          }
        }
      }
    }
  }

  /** A word followed by a space is split off whole. */
  lemma {:induction false} WordsAfter(w: string, rest: string)
    requires w != []
    requires forall j | 0 <= j < |w| :: !IsSpace(w[j])
    ensures Words(w + " " + rest) == [w] + Words(rest)
  {
    var s := w + " " + rest;
    LeadingWordOf(w, rest);
    assert s[|w|..] == " " + rest;
    assert (" " + rest)[1..] == rest;
  }

  lemma {:induction false} LeadingWordOf(w: string, rest: string)
    requires forall j | 0 <= j < |w| :: !IsSpace(w[j])
    ensures LeadingWord(w + " " + rest) == w
    decreases |w|
  {
    if w != [] {
      LeadingWordOf(w[1..], rest);
      assert (w + " " + rest)[1..] == w[1..] + " " + rest;
    }
  }

  /** split() recovers the words that " ".join put together. */
  lemma {:induction false} WordsJoin(ws: seq<string>)
    requires forall i | 0 <= i < |ws| :: ws[i] != []
    requires forall i, j | 0 <= i < |ws| && 0 <= j < |ws[i]| :: !IsSpace(ws[i][j])
    ensures Words(Join(ws, " ")) == ws
    decreases |ws|
  {
    if |ws| == 1 {
      var w := ws[0];
      var lw := LeadingWord(w);
      LeadingWordSpec(w);
      assert forall j | 0 <= j < |w| :: !IsSpace(w[j]);
      assert lw == w && w[|w|..] == [];
      assert !IsSpace(w[0]);
      assert Words(w) == [lw] + Words(w[|lw|..]);
    } else if |ws| > 1 {
      WordsAfter(ws[0], Join(ws[1..], " "));
      WordsJoin(ws[1..]);
    }
  }

  function UpperChar(c: char): char {
    if 'a' <= c <= 'z' then (c as int - 32) as char else c
  }

  /** s.upper() on ASCII letters. */
  function Upper(s: string): string {
    seq(|s|, i requires 0 <= i < |s| => UpperChar(s[i]))
  }

  /** s.replace(pattern, with): every non-overlapping occurrence, left to right. */
  function Replace(s: string, pattern: string, with: string): string
    requires pattern != []
    decreases |s|
  {
    if |s| < |pattern| then s
    else if s[..|pattern|] == pattern then with + Replace(s[|pattern|..], pattern, with)
    else [s[0]] + Replace(s[1..], pattern, with)
  }

  /** Replacing a pattern whose first character never occurs changes nothing. */
  lemma {:induction false} ReplaceWithout(s: string, pattern: string, with: string)
    requires pattern != []
    requires pattern[0] !in s
    ensures Replace(s, pattern, with) == s
    decreases |s|
  {
    if |s| >= |pattern| {
      assert s[0] != pattern[0];
      ReplaceWithout(s[1..], pattern, with);
      assert [s[0]] + s[1..] == s;
    }
  }

  predicate IsDigit(c: char) {
    '0' <= c <= '9'
  }

  predicate AllDigits(s: string) {
    forall i | 0 <= i < |s| :: IsDigit(s[i])
  }

  function Digit(d: nat): char
    requires d < 10
  {
    ('0' as int + d) as char
  }

  /** The value of a string of decimal digits. */
  function DigitsValue(s: string): nat
    requires AllDigits(s)
  {
    if s == [] then 0 else DigitsValue(s[..|s| - 1]) * 10 + (s[|s| - 1] as int - '0' as int)
  }

  /** str(n) for n >= 0. */
  function NatToString(n: nat): (s: string)
    ensures s != [] && AllDigits(s)
  {
    if n < 10 then [Digit(n)] else NatToString(n / 10) + [Digit(n % 10)]
  }

  /** str(n) */
  function IntToString(n: int): string {
    if n < 0 then "-" + NatToString(-n) else NatToString(n)
  }

  /** int(s): optional surrounding whitespace, an optional sign, then decimal digits. */
  function ParseInt(s: string): Option<int> {
    var t := Strip(s);
    if |t| >= 2 && (t[0] == '+' || t[0] == '-') && AllDigits(t[1..]) then
      var v: int := DigitsValue(t[1..]);
      Some(if t[0] == '-' then -v else v)
    else if t != [] && AllDigits(t) then Some(DigitsValue(t))
    else None
  }

  lemma {:induction false} DigitsOfNat(n: nat)
    ensures DigitsValue(NatToString(n)) == n
  {
    if n >= 10 {
      DigitsOfNat(n / 10);
      var s := NatToString(n);
      assert s[..|s| - 1] == NatToString(n / 10);
    }
  }

  /** int(str(n)) == n */
  lemma ParseIntOfString(n: int)
    ensures ParseInt(IntToString(n)) == Some(n)
  {
    var s := IntToString(n);
    var d := NatToString(if n < 0 then -n else n);
    DigitsOfNat(if n < 0 then -n else n);
    assert !IsSpace(d[|d| - 1]) && !IsSpace(d[0]);
    StripUnspaced(s);
    if n < 0 {
      assert s[1..] == d;
    }
  }
}
