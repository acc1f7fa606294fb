/** The handful of Python `str` operations the editor core relies on:
    `lower()`, `strip()`, the substring test `a in b`, `split(sep)`,
    `sep.join(parts)`, whitespace `split()`, `str(n)` and `int(text)`. */
module Text {
  import opened Wrappers

  // ---------------------------------------------------------------------------
  // lower()

  /** Lower-casing of one character. Python folds every cased Unicode letter;
      this model folds ASCII A-Z and the basic Cyrillic capitals (including Ё),
      which is what the editor's Russian and Latin data use. */
  function LowerChar(c: char): char {
    if 'A' <= c <= 'Z' then (c as int + 32) as char
    else if '\U{0410}' <= c <= '\U{042F}' then (c as int + 32) as char
    else if c == '\U{0401}' then '\U{0451}'
    else c
  }

  /** `s.lower()`: folds each character and keeps the length. */
  function Lower(s: string): (r: string)
    ensures |r| == |s|
    ensures forall i :: 0 <= i < |s| ==> r[i] == LowerChar(s[i])
  {
    seq(|s|, i requires 0 <= i < |s| => LowerChar(s[i]))
  }

  lemma LowerConcat(a: string, b: string)
    ensures Lower(a + b) == Lower(a) + Lower(b)
  {
    assert forall i :: 0 <= i < |a + b| ==> Lower(a + b)[i] == (Lower(a) + Lower(b))[i];
  }

  /** Lower-casing twice is lower-casing once, so lowering a query that is
      already lower-case leaves it alone. */
  lemma LowerIdempotent(s: string)
    ensures Lower(Lower(s)) == Lower(s)
  {
    forall i | 0 <= i < |s| ensures Lower(Lower(s))[i] == Lower(s)[i] {
      var c := s[i];
      if '\U{0410}' <= c <= '\U{042F}' {
        assert '\U{0430}' <= LowerChar(c) <= '\U{044F}';
      }
    }
  }

  // ---------------------------------------------------------------------------
  // strip()

  /** The characters `str.isspace()` accepts among the first 256 code points. */
  predicate IsSpace(c: char) {
    c == ' ' || ('\t' <= c <= '\r') || ('\U{1C}' <= c <= '\U{1F}') || c == '\U{85}' || c == '\U{A0}'
  }

  /** `s.lstrip()`: drops the leading whitespace run. */
  function TrimLeft(s: string): (r: string)
    ensures |r| <= |s|
    ensures r == [] || !IsSpace(r[0])
    decreases |s|
  {
    if |s| > 0 && IsSpace(s[0]) then TrimLeft(s[1..]) else s
  }

  /** What `lstrip()` keeps is a suffix, and all it drops is whitespace. */
  lemma {:induction false} TrimLeftSuffix(s: string)
    ensures TrimLeft(s) == s[|s| - |TrimLeft(s)|..]
    ensures forall i :: 0 <= i < |s| - |TrimLeft(s)| ==> IsSpace(s[i])
    decreases |s|
  {
    if |s| > 0 && IsSpace(s[0]) {
      TrimLeftSuffix(s[1..]);
      assert forall i :: 1 <= i < |s| - |TrimLeft(s)| ==> s[1..][i - 1] == s[i];
    }
  }

  /** `s.rstrip()`: drops the trailing whitespace run. */
  function TrimRight(s: string): (r: string)
    ensures |r| <= |s|
    ensures r == [] || !IsSpace(r[|r| - 1])
    ensures r != [] ==> r[0] == s[0]
    ensures s != [] && !IsSpace(s[0]) ==> r != []
    decreases |s|
  {
    if |s| > 0 && IsSpace(s[|s| - 1]) then TrimRight(s[..|s| - 1]) else s
  }

  /** What `rstrip()` keeps is a prefix, and all it drops is whitespace. */
  lemma {:induction false} TrimRightPrefixOf(s: string)
    ensures TrimRight(s) == s[..|TrimRight(s)|]
    ensures forall i :: |TrimRight(s)| <= i < |s| ==> IsSpace(s[i])
    decreases |s|
  {
    if |s| > 0 && IsSpace(s[|s| - 1]) {
      TrimRightPrefixOf(s[..|s| - 1]);
      assert forall i :: |TrimRight(s)| <= i < |s| - 1 ==> s[..|s| - 1][i] == s[i];
    }
  }

  /** `s.strip()`: `s` without its leading and trailing whitespace runs. */
  function Strip(s: string): (r: string)
    ensures r == [] || (!IsSpace(r[0]) && !IsSpace(r[|r| - 1]))
  {
    TrimRight(TrimLeft(s))
  }

  /** What `strip()` keeps is a piece of the text. */
  lemma StripPiece(s: string)
    ensures Contains(s, Strip(s))
  {
    var t := TrimLeft(s);
    var r := TrimRight(t);
    TrimLeftSuffix(s);
    TrimRightPrefixOf(t);
    var a := |s| - |t|;
    assert s[a..a + |r|] == s[a..][..|r|];
    assert OccursAt(s, r, a);
  }

  /** `strip()` leaves nothing exactly when the text is all whitespace. */
  lemma StripEmpty(s: string)
    ensures Strip(s) == [] <==> forall k :: 0 <= k < |s| ==> IsSpace(s[k])
  {
    var t := TrimLeft(s);
    TrimLeftSuffix(s);
    assert t != [] ==> !IsSpace(t[0]) && TrimRight(t) != [];
  }

  /** Text that neither starts nor ends with whitespace is left alone by `strip()`. */
  lemma StripUnchanged(s: string)
    requires s == [] || (!IsSpace(s[0]) && !IsSpace(s[|s| - 1]))
    ensures Strip(s) == s
  {
    assert TrimLeft(s) == s;
  }

  /** `lower()` maps whitespace to whitespace and nothing else to whitespace,
      so it commutes with `lstrip()`. */
  lemma {:induction false} LowerTrimLeft(s: string)
    ensures TrimLeft(Lower(s)) == Lower(TrimLeft(s))
    decreases |s|
  {
    if |s| > 0 {
      assert Lower(s)[1..] == Lower(s[1..]);
      if IsSpace(s[0]) {
        LowerTrimLeft(s[1..]);
      }
    }
  }

  /** `lower()` commutes with `rstrip()`. */
  lemma {:induction false} LowerTrimRight(s: string)
    ensures TrimRight(Lower(s)) == Lower(TrimRight(s))
    decreases |s|
  {
    if |s| > 0 {
      assert Lower(s)[..|s| - 1] == Lower(s[..|s| - 1]);
      if IsSpace(s[|s| - 1]) {
        LowerTrimRight(s[..|s| - 1]);
      }
    }
  }

  /** `s.strip().lower() == s.lower().strip()`. */
  lemma LowerStrip(s: string)
    ensures Lower(Strip(s)) == Strip(Lower(s))
  {
    LowerTrimLeft(s);
    LowerTrimRight(TrimLeft(s));
  }

  lemma {:induction false} TrimLeftConcat(x: string, y: string)
    ensures (forall k :: 0 <= k < |x| ==> IsSpace(x[k])) ==> TrimLeft(x + y) == TrimLeft(y)
    ensures (exists k :: 0 <= k < |x| && !IsSpace(x[k])) ==> TrimLeft(x + y) == TrimLeft(x) + y
    decreases |x|
  {
    if |x| > 0 {
      assert (x + y)[1..] == x[1..] + y;
      TrimLeftConcat(x[1..], y);
      if !IsSpace(x[0]) {
        assert TrimLeft(x + y) == x + y;
      } else {
        assert forall k :: 0 <= k < |x[1..]| ==> x[1..][k] == x[k + 1];
      }
    } else {
      assert x + y == y;
    }
  }

  lemma {:induction false} TrimRightPrefix(z: string, y: string)
    ensures |TrimRight(z)| <= |TrimRight(z + y)| && TrimRight(z + y)[..|TrimRight(z)|] == TrimRight(z)
    decreases |y|
  {
    if |y| == 0 {
      assert z + y == z;
    } else if IsSpace(y[|y| - 1]) {
      assert (z + y)[..|z + y| - 1] == z + y[..|y| - 1];
      TrimRightPrefix(z, y[..|y| - 1]);
    } else {
      assert TrimRight(z + y) == z + y;
      TrimRightPrefixOf(z);
      assert (z + y)[..|TrimRight(z)|] == z[..|TrimRight(z)|];
    }
  }

  /** Typing more characters at the end of a text can only extend its stripped
      form: `strip(x)` is a prefix of `strip(x + y)`. */
  lemma StripPrefix(x: string, y: string)
    ensures |Strip(x)| <= |Strip(x + y)| && Strip(x + y)[..|Strip(x)|] == Strip(x)
  {
    TrimLeftConcat(x, y);
    if forall k :: 0 <= k < |x| ==> IsSpace(x[k]) {
      StripEmpty(x);
      assert TrimLeft(x) == [];
    } else {
      TrimRightPrefix(TrimLeft(x), y);
    }
  }

  // ---------------------------------------------------------------------------
  // pattern in text

  /** `pat` occurs in `text` starting at position `i`. */
  predicate OccursAt(text: string, pat: string, i: int) {
    0 <= i && i + |pat| <= |text| && text[i..i + |pat|] == pat
  }

  /** Python's `pat in text`. */
  predicate Contains(text: string, pat: string) {
    exists i | 0 <= i <= |text| - |pat| :: OccursAt(text, pat, i)
  }

  lemma ContainsEmpty(text: string)
    ensures Contains(text, "")
  {
    assert OccursAt(text, "", 0);
  }

  /** A text containing a pattern contains every prefix of that pattern. */
  lemma ContainsPrefix(text: string, pat: string, pre: string)
    requires |pre| <= |pat| && pat[..|pre|] == pre
    requires Contains(text, pat)
    ensures Contains(text, pre)
  {
    var i :| 0 <= i <= |text| - |pat| && OccursAt(text, pat, i);
    assert text[i..i + |pre|] == text[i..i + |pat|][..|pre|];
    assert OccursAt(text, pre, i);
  }

  /** A character absent from a text is absent from every piece of it. */
  lemma NoCharInPiece(s: string, piece: string, c: char)
    requires c !in s && Contains(s, piece)
    ensures c !in piece
  {
    var i :| 0 <= i <= |s| - |piece| && OccursAt(s, piece, i);
    forall j | 0 <= j < |piece| ensures piece[j] != c {
      assert piece[j] == s[i + j];
    }
  }

  // ---------------------------------------------------------------------------
  // split(sep) and sep.join(parts)

  /** `s.split(sep)` for a one-character separator: never empty, and no
      part contains the separator. */
  function Split(s: string, sep: char): (r: seq<string>)
    ensures |r| >= 1
    ensures forall k :: 0 <= k < |r| ==> sep !in r[k]
    decreases |s|
  {
    if |s| == 0 then [""]
    else
      var rest := Split(s[1..], sep);
      if s[0] == sep then [""] + rest
      else [[s[0]] + rest[0]] + rest[1..]
  }

  /** `sep.join(parts)`. */
  function Join(parts: seq<string>, sep: char): string
    decreases |parts|
  {
    if |parts| == 0 then ""
    else if |parts| == 1 then parts[0]
    else parts[0] + [sep] + Join(parts[1..], sep)
  }

  lemma JoinCons(head: string, tail: seq<string>, sep: char)
    requires |tail| >= 1
    ensures Join([head] + tail, sep) == head + [sep] + Join(tail, sep)
  {
    assert ([head] + tail)[1..] == tail;
  }

  /** Joining the parts of a split gives back the original text. */
  lemma {:induction false} JoinSplit(s: string, sep: char)
    ensures Join(Split(s, sep), sep) == s
    decreases |s|
  {
    if |s| > 0 {
      var rest := Split(s[1..], sep);
      JoinSplit(s[1..], sep);
      if s[0] == sep {
        JoinCons("", rest, sep);
      } else if |rest| == 1 {
        assert Split(s, sep) == [[s[0]] + rest[0]];
      } else {
        JoinCons([s[0]] + rest[0], rest[1..], sep);
        JoinCons(rest[0], rest[1..], sep);
        assert [rest[0]] + rest[1..] == rest;
        assert Split(s, sep) == [[s[0]] + rest[0]] + rest[1..];
        assert s == [s[0]] + s[1..];
      }
    }
  }

  /** Text without the separator splits into itself. */
  lemma {:induction false} SplitWithoutSep(s: string, sep: char)
    requires sep !in s
    ensures Split(s, sep) == [s]
    decreases |s|
  {
    if |s| > 0 {
      assert sep !in s[1..] by {
        assert forall k :: 0 <= k < |s[1..]| ==> s[1..][k] == s[k + 1];
      }
      SplitWithoutSep(s[1..], sep);
      assert [s[0]] + s[1..] == s;
    }
  }

  /** How `Split` extends the parts of the rest by one leading character. */
  function ConsPart(c: char, rest: seq<string>, sep: char): seq<string>
    requires |rest| >= 1
  {
    if c == sep then [""] + rest else [[c] + rest[0]] + rest[1..]
  }

  /** One step of `Split`, on a text written as its first character and the rest. */
  lemma SplitCons(c: char, t: string, sep: char)
    ensures Split([c] + t, sep) == ConsPart(c, Split(t, sep), sep)
  {
    assert ([c] + t)[1..] == t;
  }

  /** Extending the first part commutes with appending more parts. */
  lemma ConsPartAppend(c: char, rt: seq<string>, ry: seq<string>, sep: char)
    requires |rt| >= 1
    ensures ConsPart(c, rt + ry, sep) == ConsPart(c, rt, sep) + ry
  {
    assert (rt + ry)[0] == rt[0];
    assert (rt + ry)[1..] == rt[1..] + ry;
  }

  /** A separator between two texts splits them apart. */
  lemma {:induction false} SplitAround(x: string, y: string, sep: char)
    ensures Split(x + [sep] + y, sep) == Split(x, sep) + Split(y, sep)
    decreases |x|
  {
    if |x| == 0 {
      assert x + [sep] + y == [sep] + y;
      SplitCons(sep, y, sep);
    } else {
      var t := x[1..];
      SplitAround(t, y, sep);
      SplitCons(x[0], t + [sep] + y, sep);
      SplitCons(x[0], t, sep);
      ConsPartAppend(x[0], Split(t, sep), Split(y, sep), sep);
      assert [x[0]] + (t + [sep] + y) == x + [sep] + y;
      assert [x[0]] + t == x;
    }
  }

  /** Splitting a join of separator-free parts gives back the parts. */
  lemma {:induction false} SplitJoin(parts: seq<string>, sep: char)
    requires |parts| >= 1
    requires forall k :: 0 <= k < |parts| ==> sep !in parts[k]
    ensures Split(Join(parts, sep), sep) == parts
    decreases |parts|
  {
    SplitWithoutSep(parts[0], sep);
    if |parts| > 1 {
      SplitJoin(parts[1..], sep);
      SplitAround(parts[0], Join(parts[1..], sep), sep);
      assert [parts[0]] + parts[1..] == parts;
    }
  }

  // ---------------------------------------------------------------------------
  // whitespace split()

  /** Length of the run of non-whitespace characters that starts `t`. */
  function WordLength(t: string): (n: nat)
    ensures n <= |t|
    ensures forall j :: 0 <= j < n ==> !IsSpace(t[j])
    ensures n == |t| || IsSpace(t[n])
    decreases |t|
  {
    if |t| == 0 || IsSpace(t[0]) then 0 else 1 + WordLength(t[1..])
  }

  /** A non-empty text without whitespace. */
  predicate IsWord(w: string) {
    w != [] && forall j :: 0 <= j < |w| ==> !IsSpace(w[j])
  }

  /** `s.split()` with no argument: the maximal runs of non-whitespace
      characters, in order; each is a word. */
  function Words(s: string): (r: seq<string>)
    ensures forall k :: 0 <= k < |r| ==> IsWord(r[k])
    decreases |s|
  {
    var t := TrimLeft(s);
    if t == [] then []
    else
      var n := WordLength(t);
      assert n > 0 by { assert !IsSpace(t[0]); }
      assert IsWord(t[..n]) by { assert forall j :: 0 <= j < n ==> t[..n][j] == t[j]; }
      [t[..n]] + Words(t[n..])
  }

  /** `split()` finds no word exactly in a text that is all whitespace. */
  lemma WordsEmpty(s: string)
    ensures Words(s) == [] <==> forall k :: 0 <= k < |s| ==> IsSpace(s[k])
  {
    TrimLeftSuffix(s);
    var t := TrimLeft(s);
    if t != [] {
      assert s[|s| - |t|] == t[0];
    }
  }

  /** A word followed by whitespace or by nothing is one run. */
  lemma {:induction false} WordLengthOfWord(a: string, rest: string)
    requires IsWord(a) && (rest == [] || IsSpace(rest[0]))
    ensures WordLength(a + rest) == |a|
    decreases |a|
  {
    if |a| == 1 {
      assert (a + rest)[1..] == rest;
    } else {
      assert (a + rest)[1..] == a[1..] + rest;
      assert IsWord(a[1..]) by { assert forall j :: 0 <= j < |a| - 1 ==> a[1..][j] == a[j + 1]; }
      WordLengthOfWord(a[1..], rest);
    }
  }

  /** A word, a whitespace character and any text: the word comes first and
      the text gives the remaining words. */
  lemma WordsCons(a: string, c: char, rest: string)
    requires IsWord(a) && IsSpace(c)
    ensures Words(a + [c] + rest) == [a] + Words(rest)
  {
    var s := a + [c] + rest;
    assert s[0] == a[0];
    assert TrimLeft(s) == s;
    assert s == a + ([c] + rest);
    WordLengthOfWord(a, [c] + rest);
    assert s[..|a|] == a;
    assert s[|a|..] == [c] + rest;
    assert ([c] + rest)[1..] == rest;
    assert TrimLeft([c] + rest) == TrimLeft(rest);
  }

  /** A single word is its own only word. */
  lemma WordsOfWord(a: string)
    requires IsWord(a)
    ensures Words(a) == [a]
  {
    assert a + [] == a;
    WordLengthOfWord(a, []);
    assert a[..|a|] == a && a[|a|..] == [];
  }

  /** Leading whitespace yields no word: `split()` skips it. */
  lemma WordsSkipSpace(c: char, s: string)
    requires IsSpace(c)
    ensures Words([c] + s) == Words(s)
  {
    assert ([c] + s)[1..] == s;
    assert TrimLeft([c] + s) == TrimLeft(s);
  }

  /** Three words separated by single spaces split back into those words. */
  lemma ThreeWords(x: string, y: string, z: string)
    requires IsWord(x) && IsWord(y) && IsWord(z)
    ensures Words(x + " " + y + " " + z) == [x, y, z]
  {
    assert x + " " + y + " " + z == x + [' '] + (y + [' '] + z);
    WordsCons(x, ' ', y + [' '] + z);
    WordsCons(y, ' ', z);
    WordsOfWord(z);
  }

  // ---------------------------------------------------------------------------
  // str(n) and int(text)

  predicate IsDigit(c: char) {
    '0' <= c <= '9'
  }

  predicate IsDigits(s: string) {
    |s| > 0 && forall i :: 0 <= i < |s| ==> IsDigit(s[i])
  }

  function DigitChar(d: int): (c: char)
    requires 0 <= d < 10
    ensures IsDigit(c)
  {
    ('0' as int + d) as char
  }

  /** Decimal digits of a natural number, most significant first. */
  function NatToString(n: nat): (r: string)
    ensures IsDigits(r)
    decreases n
  {
    if n < 10 then [DigitChar(n)] else NatToString(n / 10) + [DigitChar(n % 10)]
  }

  /** `str(i)` for a Python `int`. */
  function IntToString(i: int): (r: string)
    ensures |r| > 0 && !IsSpace(r[0]) && !IsSpace(r[|r| - 1])
    ensures r[0] == '-' <==> i < 0
  {
    if i < 0 then "-" + NatToString(-i) else NatToString(i)
  }

  /** The value of a run of decimal digits. */
  function DigitsValue(s: string): nat
    requires forall i :: 0 <= i < |s| ==> IsDigit(s[i])
    decreases |s|
  {
    if |s| == 0 then 0
    else
      assert IsDigit(s[|s| - 1]);
      DigitsValue(s[..|s| - 1]) * 10 + (s[|s| - 1] as int - '0' as int)
  }

  /** `int(text)` for ASCII input: surrounding whitespace, an optional sign and
      at least one decimal digit; anything else is Python's `ValueError`, here
      `None`. */
  function ParseInt(text: string): Option<int> {
    var t := Strip(text);
    if |t| > 0 && (t[0] == '-' || t[0] == '+') then
      var d := t[1..];
      if IsDigits(d) then Some(if t[0] == '-' then -(DigitsValue(d) as int) else DigitsValue(d) as int) else None
    else if IsDigits(t) then Some(DigitsValue(t))
    else None
  }

  /** `int()` rejects a stripped text with a character that is neither a
      digit nor a leading sign. */
  lemma ParseIntRejects(text: string, k: nat)
    requires k < |Strip(text)| && !IsDigit(Strip(text)[k])
    requires k > 0 || (Strip(text)[0] != '-' && Strip(text)[0] != '+')
    ensures ParseInt(text).None?
  {
    var t := Strip(text);
    if k > 0 && (t[0] == '-' || t[0] == '+') {
      assert t[1..][k - 1] == t[k];
    }
  }

  lemma {:induction false} DigitsValueOfNat(n: nat)
    ensures DigitsValue(NatToString(n)) == n
    decreases n
  {
    if n >= 10 {
      var s := NatToString(n);
      DigitsValueOfNat(n / 10);
      assert s[..|s| - 1] == NatToString(n / 10);
    }
  }

  /** `int(str(i)) == i`. */
  lemma ParseIntToString(i: int)
    ensures ParseInt(IntToString(i)) == Some(i)
  {
    var s := IntToString(i);
    StripUnchanged(s);
    if i < 0 {
      DigitsValueOfNat(-i);
      assert s[1..] == NatToString(-i);
    } else {
      DigitsValueOfNat(i);
    }
  }
}
